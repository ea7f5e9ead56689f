/** Every run of the future operations keeps the counts exact and frees each task once, when unreferenced. */
module FutureSafety {
  import opened Futures

  // ---------------------------------------------------------------- the invariant

  /** The futures whose reference is in task t's count. */
  ghost function Holders(s: State, t: nat): set<nat> { HoldersOf(s.futures, s.owned, t) }

  ghost function HoldersOf(futures: seq<Pointer>, owned: seq<bool>, t: nat): set<nat> {
    set h: nat | h < |futures| && h < |owned| && owned[h] && futures[h] == To(t)
  }

  /** Overwriting a future that owns nothing changes no task's holders. */
  lemma HoldersKept(f: seq<Pointer>, o: seq<bool>, dst: nat, x: Pointer, t: nat)
    requires dst < |f| == |o| && !o[dst]
    ensures HoldersOf(f[dst := x], o, t) == HoldersOf(f, o, t)
  {}

  /** Counting a future's reference. */
  lemma HoldersGain(f: seq<Pointer>, o: seq<bool>, dst: nat, t: nat)
    requires dst < |f| == |o| && !o[dst]
    ensures |HoldersOf(f, o[dst := true], t)| == |HoldersOf(f, o, t)| + (if f[dst] == To(t) then 1 else 0)
  {
    var now := HoldersOf(f, o[dst := true], t);
    if f[dst] == To(t) {
      assert now == HoldersOf(f, o, t) + {dst};
    } else {
      assert now == HoldersOf(f, o, t);
    }
  }

  lemma HoldersLose(f: seq<Pointer>, o: seq<bool>, src: nat, t: nat)
    requires src < |f| == |o| && o[src]
    ensures |HoldersOf(f, o[src := false], t)| == |HoldersOf(f, o, t)| - (if f[src] == To(t) then 1 else 0)
  {
    var was := HoldersOf(f, o, t);
    if f[src] == To(t) {
      assert HoldersOf(f, o[src := false], t) == was - {src};
    } else {
      assert HoldersOf(f, o[src := false], t) == was;
    }
  }

  /** Moving hands the reference from one future to the other. */
  lemma HoldersMoved(f: seq<Pointer>, o: seq<bool>, dst: nat, src: nat, t: nat)
    requires dst < |f| == |o| && src < |f| && src != dst && !o[dst]
    ensures |HoldersOf(f[dst := f[src]][src := Null], o[dst := o[src]][src := false], t)| == |HoldersOf(f, o, t)|
  {
    hide HoldersOf;
    var f', without := f[dst := f[src]][src := Null], o[src := false];
    HoldersKept(f, without, dst, f[src], t);
    HoldersKept(f[dst := f[src]], without, src, Null, t);
    if o[src] {
      HoldersLose(f, o, src, t);
      HoldersGain(f', without, dst, t);
      assert o[dst := true][src := false] == without[dst := true];
    } else {
      assert without == o && o[dst := false][src := false] == o;
    }
  }

  /** A thread in the middle of an operation on future h. */
  predicate InFlight(pc: Pc, h: nat) {
    match pc
    case Cleared(dst, _, _) => h == dst
    case Counting(dst, _) => h == dst
    case _ => false
  }

  /** A thread that has seen t's count reach zero and will deallocate it. */
  ghost predicate Frees(s: State, pc: Pc, t: nat) {
    match pc
    case Cleared(dst, _, last) => last && dst < |s.futures| && s.futures[dst] == To(t)
    case Releasing(task) => task == t
    case _ => false
  }

  ghost predicate SourceOk(s: State, dst: nat, src: nat) {
    && src < |s.futures| == |s.owned| && dst < |s.futures| && src != dst && s.futures[src] != s.futures[dst]
    && (s.futures[src].To? ==> s.owned[src])
  }

  ghost predicate PcOk(s: State, pc: Pc) {
    match pc
    case Idle => true
    case Cleared(dst, cont, last) =>
      && dst < |s.futures| == |s.owned| && s.futures[dst].To? && !s.owned[dst]
      && (match cont case Drop => true case Copy(src) => SourceOk(s, dst, src) case Move(src) => SourceOk(s, dst, src))
      && (last ==>
            && s.futures[dst].task < |s.count| == |s.alive|
            && s.count[s.futures[dst].task] == 0 && s.alive[s.futures[dst].task])
    case Counting(dst, src) =>
      && dst < |s.futures| == |s.owned| && src < |s.futures| && dst != src
      && s.futures[dst].To? && s.futures[src] == s.futures[dst] && !s.owned[dst] && s.owned[src]
    case Releasing(t) => t < |s.count| == |s.alive| && s.count[t] == 0 && s.alive[t]
  }

  /** No thread writes what another is using. */
  ghost predicate NoRace(s: State) {
    forall i, j, h: nat :: 0 <= i < |s.pcs| && 0 <= j < |s.pcs| && i != j && Writes(s.pcs[i], h) ==>
      !Writes(s.pcs[j], h) && !Reads(s.pcs[j], h)
  }

  ghost predicate OneFrees(s: State) {
    forall i, j, t: nat :: 0 <= i < |s.pcs| && 0 <= j < |s.pcs| && Frees(s, s.pcs[i], t) && Frees(s, s.pcs[j], t) ==>
      i == j
  }

  /** The count is the futures that own a reference, the queue's references and the leaked ones. */
  ghost predicate CountOk(s: State, t: nat) {
    t < |s.count| == |s.queue| == |s.leaked| && s.count[t] == |Holders(s, t)| + s.queue[t] + s.leaked[t]
  }

  ghost predicate SomeFrees(s: State, t: nat) {
    exists i :: 0 <= i < |s.pcs| && Frees(s, s.pcs[i], t)
  }

  /** A freed task is unreferenced; an unreferenced task is freed or about to be. */
  ghost predicate LifeOk(s: State, t: nat) {
    t < |s.count| == |s.alive| && (!s.alive[t] ==> s.count[t] == 0) &&
      (s.alive[t] && s.count[t] == 0 ==> SomeFrees(s, t))
  }

  ghost predicate SomeFlight(s: State, h: nat) {
    exists i :: 0 <= i < |s.pcs| && InFlight(s.pcs[i], h)
  }

  /** A future with a task owns a reference unless an operation on it is under way. */
  ghost predicate OwnedOk(s: State, h: nat) {
    && h < |s.futures| == |s.owned|
    && (s.futures[h] == Null ==> !s.owned[h]) && (s.futures[h].To? && !s.owned[h] ==> SomeFlight(s, h))
  }

  ghost predicate Inv(s: State) {
    && Shape(s) && NoRace(s) && OneFrees(s)
    && (forall i :: 0 <= i < |s.pcs| ==> PcOk(s, s.pcs[i]))
    && (forall t: nat :: t < |s.count| ==> CountOk(s, t) && LifeOk(s, t))
    && (forall h: nat :: h < |s.futures| ==> OwnedOk(s, h))
  }

  lemma InitInv(futures: nat, threads: nat)
    ensures Inv(Init(futures, threads))
  {}

  // ---------------------------------------------------------------- owners are live

  lemma HolderCounts(s: State, t: nat, h: nat)
    requires CountOk(s, t) && h in Holders(s, t)
    ensures s.count[t] > 0
  {
    assert |Holders(s, t)| > 0;
  }

  /** A future no thread is working on owns its reference, so its task is live. */
  lemma SettledOwns(s: State, h: nat)
    requires Inv(s) && h < |s.futures| && s.futures[h].To?
    requires forall i :: 0 <= i < |s.pcs| ==> !InFlight(s.pcs[i], h)
    ensures s.owned[h] && s.count[s.futures[h].task] > 0 && s.alive[s.futures[h].task]
  {
    assert OwnedOk(s, h);
    var t := s.futures[h].task;
    assert CountOk(s, t) && LifeOk(s, t);
    HolderCounts(s, t, h);
  }

  lemma OwnedLive(s: State, h: nat)
    requires Inv(s) && h < |s.futures| && s.owned[h]
    ensures s.futures[h].To? && s.count[s.futures[h].task] > 0 && s.alive[s.futures[h].task]
  {
    assert OwnedOk(s, h);
    var t := s.futures[h].task;
    assert CountOk(s, t) && LifeOk(s, t);
    HolderCounts(s, t, h);
  }

  /** An idle thread that may write h finds it settled. */
  lemma WritableSettled(s: State, i: nat, h: nat)
    requires i < |s.pcs| && s.pcs[i] == Idle && MayWrite(s, i, h)
    ensures forall j :: 0 <= j < |s.pcs| ==> !InFlight(s.pcs[j], h)
  {}

  lemma ReadableSettled(s: State, i: nat, h: nat)
    requires i < |s.pcs| && s.pcs[i] == Idle && MayRead(s, i, h)
    ensures forall j :: 0 <= j < |s.pcs| ==> !InFlight(s.pcs[j], h)
  {}

  /** No call ever finds a future or a count it cannot use. */
  lemma PermittedCanStep(s: State, i: nat, a: Action)
    requires Inv(s) && Permitted(s, i, a)
    ensures CanStep(s, i, a)
  {
    hide Holders, NoRace, OneFrees;
    match a {
      case Begin(dst, cont) =>
        WritableSettled(s, i, dst);
        if s.futures[dst].To? { SettledOwns(s, dst); }
      case CopySame(_, _, _) =>
      case Proceed => assert PcOk(s, s.pcs[i]);
      case Spawn(_) =>
      case QueueAcquire(_) =>
      case QueueRelease(task) => assert CountOk(s, task);
    }
  }

  // ---------------------------------------------------------------- letting go of the old task

  lemma HoldersRemove(s: State, s': State, t: nat, h: nat)
    requires h in Holders(s, t) && Holders(s', t) == Holders(s, t) - {h}
    ensures |Holders(s', t)| == |Holders(s, t)| - 1
  {}

  ghost predicate CanLetGo(s: State, i: nat, dst: nat, cont: Cont) {
    && Inv(s) && i < |s.pcs| && s.pcs[i] == Idle && dst < |s.futures| && s.futures[dst].To?
    && MayWrite(s, i, dst) && MayRun(s, i, cont)
    && (cont != Drop ==> Source(cont, dst) < |s.futures| && s.futures[dst] != s.futures[Source(cont, dst)])
    && s.owned[dst] && s.count[s.futures[dst].task] > 0 && s.alive[s.futures[dst].task]
  }

  ghost function LetGo(s: State, i: nat, dst: nat, cont: Cont): State
    requires CanLetGo(s, i, dst, cont)
  {
    var t := s.futures[dst].task;
    s.(count := s.count[t := s.count[t] - 1], owned := s.owned[dst := false],
       pcs := s.pcs[i := Cleared(dst, cont, s.count[t] == 1)])
  }

  lemma LetGoCounts(s: State, i: nat, dst: nat, cont: Cont, t: nat)
    requires CanLetGo(s, i, dst, cont) && t < |s.count|
    ensures CountOk(LetGo(s, i, dst, cont), t)
  {
    hide NoRace, OneFrees, LifeOk, OwnedOk, PcOk, MayWrite, MayRun;
    var s' := LetGo(s, i, dst, cont);
    assert CountOk(s, t);
    if s.futures[dst] == To(t) {
      assert Holders(s', t) == Holders(s, t) - {dst};
      HoldersRemove(s, s', t, dst);
    } else {
      assert Holders(s', t) == Holders(s, t);
    }
  }

  lemma LetGoLife(s: State, i: nat, dst: nat, cont: Cont, t: nat)
    requires CanLetGo(s, i, dst, cont) && t < |s.count|
    ensures LifeOk(LetGo(s, i, dst, cont), t)
  {
    hide NoRace, OneFrees, CountOk, OwnedOk, MayWrite, MayRun, PcOk;
    var s' := LetGo(s, i, dst, cont);
    assert LifeOk(s, t);
    if s'.alive[t] && s'.count[t] == 0 {
      if s.futures[dst] == To(t) {
        assert Frees(s', s'.pcs[i], t);
      } else {
        var j :| 0 <= j < |s.pcs| && Frees(s, s.pcs[j], t);
        assert Frees(s', s'.pcs[j], t);
      }
    }
  }

  lemma LetGoPcs(s: State, i: nat, dst: nat, cont: Cont, j: nat)
    requires CanLetGo(s, i, dst, cont) && j < |s.pcs|
    ensures PcOk(LetGo(s, i, dst, cont), LetGo(s, i, dst, cont).pcs[j])
  {
    hide NoRace, OneFrees, CountOk, LifeOk, Holders;
    var s' := LetGo(s, i, dst, cont);
    assert PcOk(s, s.pcs[j]);
    if j == i && cont != Drop {
      var src := Source(cont, dst);
      SourceSettled(s, i, cont, dst);
      assert OwnedOk(s, src);
    }
  }

  lemma SourceSettled(s: State, i: nat, cont: Cont, dst: nat)
    requires i < |s.pcs| && s.pcs[i] == Idle && MayRun(s, i, cont) && cont != Drop
    ensures Source(cont, dst) < |s.futures| && !SomeFlight(s, Source(cont, dst))
  {}

  lemma LetGoOwned(s: State, i: nat, dst: nat, cont: Cont, h: nat)
    requires CanLetGo(s, i, dst, cont) && h < |s.futures|
    ensures OwnedOk(LetGo(s, i, dst, cont), h)
  {
    hide NoRace, OneFrees, CountOk, LifeOk, PcOk, Holders, MayWrite, MayRun;
    var s' := LetGo(s, i, dst, cont);
    assert OwnedOk(s, h);
    if h == dst { assert InFlight(s'.pcs[i], h); }
    if SomeFlight(s, h) {
      var j :| 0 <= j < |s.pcs| && InFlight(s.pcs[j], h);
      assert InFlight(s'.pcs[j], h);
    }
  }

  lemma LetGoFrees(s: State, i: nat, dst: nat, cont: Cont, j: nat, t: nat)
    requires CanLetGo(s, i, dst, cont) && j < |s.pcs| && j != i && Frees(LetGo(s, i, dst, cont), s.pcs[j], t)
    ensures Frees(s, s.pcs[j], t) && !Frees(LetGo(s, i, dst, cont), LetGo(s, i, dst, cont).pcs[i], t)
  {
    hide CountOk, LifeOk, OwnedOk, Holders, NoRace, OneFrees, MayWrite, MayRun;
    assert PcOk(s, s.pcs[j]);
  }

  lemma LetGoRaces(s: State, i: nat, dst: nat, cont: Cont)
    requires CanLetGo(s, i, dst, cont)
    ensures NoRace(LetGo(s, i, dst, cont)) && OneFrees(LetGo(s, i, dst, cont))
  {
    hide CountOk, LifeOk, OwnedOk, Holders, Frees;
    var s' := LetGo(s, i, dst, cont);
    forall j, k, t: nat | 0 <= j < |s.pcs| && 0 <= k < |s.pcs| && Frees(s', s'.pcs[j], t) && Frees(s', s'.pcs[k], t)
      ensures j == k
    {
      if j != i { LetGoFrees(s, i, dst, cont, j, t); }
      if k != i { LetGoFrees(s, i, dst, cont, k, t); }
    }
  }

  lemma LetGoKeepsInv(s: State, i: nat, dst: nat, cont: Cont)
    requires CanLetGo(s, i, dst, cont)
    ensures Inv(LetGo(s, i, dst, cont))
  {
    hide NoRace, OneFrees, CountOk, LifeOk, OwnedOk, PcOk, MayWrite, MayRun;
    var s' := LetGo(s, i, dst, cont);
    LetGoRaces(s, i, dst, cont);
    forall t: nat | t < |s'.count| ensures CountOk(s', t) && LifeOk(s', t) {
      LetGoCounts(s, i, dst, cont, t);
      LetGoLife(s, i, dst, cont, t);
    }
    forall j | 0 <= j < |s'.pcs| ensures PcOk(s', s'.pcs[j]) { LetGoPcs(s, i, dst, cont, j); }
    forall h: nat | h < |s'.futures| ensures OwnedOk(s', h) { LetGoOwned(s, i, dst, cont, h); }
  }

  // ---------------------------------------------------------------- giving the destination its new task

  /** Thread i has let go of dst's old task, deallocating it if that was its duty. */
  ghost predicate CanAssign(s: State, i: nat, dst: nat, cont: Cont) {
    && Shape(s) && NoRace(s) && OneFrees(s)
    && i < |s.pcs| && s.pcs[i] == Idle && MayWrite(s, i, dst) && MayRun(s, i, cont)
    && dst < |s.futures| && !s.owned[dst] && (cont != Drop ==> SourceOk(s, dst, Source(cont, dst)))
    && (forall j :: 0 <= j < |s.pcs| ==> PcOk(s, s.pcs[j]))
    && (forall t: nat :: t < |s.count| ==> CountOk(s, t) && LifeOk(s, t))
    && (forall h: nat :: h < |s.futures| && h != dst ==> OwnedOk(s, h))
  }

  lemma AssignHolders(s: State, i: nat, dst: nat, cont: Cont, t: nat)
    requires i < |s.pcs| && dst < |s.futures| == |s.owned| && !s.owned[dst]
    requires cont != Drop ==> Source(cont, dst) < |s.futures| && Source(cont, dst) != dst
    ensures |Holders(Assign(s, i, dst, cont), t)| == |Holders(s, t)|
  {
    hide HoldersOf;
    match cont {
      case Drop => HoldersKept(s.futures, s.owned, dst, Null, t);
      case Copy(src) => HoldersKept(s.futures, s.owned, dst, s.futures[src], t);
      case Move(src) => HoldersMoved(s.futures, s.owned, dst, src, t);
    }
  }

  lemma AssignCounts(s: State, i: nat, dst: nat, cont: Cont, t: nat)
    requires CanAssign(s, i, dst, cont) && t < |s.count|
    ensures Source(cont, dst) < |s.futures| && CountOk(Assign(s, i, dst, cont), t)
  {
    hide NoRace, OneFrees, LifeOk, OwnedOk, PcOk, MayWrite, MayRun, Holders;
    assert CountOk(s, t);
    AssignHolders(s, i, dst, cont, t);
  }

  /** Assigning changes no other thread's duty to free a task. */
  lemma AssignFrees(s: State, i: nat, dst: nat, cont: Cont, j: nat, t: nat)
    requires CanAssign(s, i, dst, cont) && j < |s.pcs|
    ensures Source(cont, dst) < |s.futures|
    ensures Frees(Assign(s, i, dst, cont), Assign(s, i, dst, cont).pcs[j], t) <==> Frees(s, s.pcs[j], t)
  {
    hide NoRace, OneFrees, LifeOk, OwnedOk, CountOk, Holders;
    assert PcOk(s, s.pcs[j]);
    if s.pcs[j].Cleared? { assert Writes(s.pcs[j], s.pcs[j].dst); }
  }

  lemma AssignLife(s: State, i: nat, dst: nat, cont: Cont, t: nat)
    requires CanAssign(s, i, dst, cont) && t < |s.count|
    ensures Source(cont, dst) < |s.futures| && LifeOk(Assign(s, i, dst, cont), t)
  {
    hide NoRace, OneFrees, CountOk, OwnedOk, PcOk, MayWrite, MayRun, Frees;
    AssignFrees(s, i, dst, cont, i, t);
    var s' := Assign(s, i, dst, cont);
    assert LifeOk(s, t);
    if SomeFrees(s, t) {
      var j :| 0 <= j < |s.pcs| && Frees(s, s.pcs[j], t);
      AssignFrees(s, i, dst, cont, j, t);
      assert Frees(s', s'.pcs[j], t);
    }
  }

  lemma AssignPcs(s: State, i: nat, dst: nat, cont: Cont, j: nat)
    requires CanAssign(s, i, dst, cont) && j < |s.pcs|
    ensures Source(cont, dst) < |s.futures| && PcOk(Assign(s, i, dst, cont), Assign(s, i, dst, cont).pcs[j])
  {
    hide NoRace, OneFrees, CountOk, LifeOk, OwnedOk, Holders;
    assert PcOk(s, s.pcs[j]);
    if j != i {
      match s.pcs[j] {
        case Idle =>
        case Cleared(d, c, _) =>
          assert Writes(s.pcs[j], d);
          match c {
            case Drop =>
            case Copy(src) => assert Reads(s.pcs[j], src);
            case Move(src) => assert Writes(s.pcs[j], src);
          }
        case Counting(d, src) => assert Writes(s.pcs[j], d) && Reads(s.pcs[j], src);
        case Releasing(_) =>
      }
    }
  }

  lemma AssignOwned(s: State, i: nat, dst: nat, cont: Cont, h: nat)
    requires CanAssign(s, i, dst, cont) && h < |s.futures|
    ensures Source(cont, dst) < |s.futures| && OwnedOk(Assign(s, i, dst, cont), h)
  {
    hide NoRace, OneFrees, CountOk, LifeOk, PcOk, Holders, MayWrite, MayRun;
    var s' := Assign(s, i, dst, cont);
    if h == dst {
      if cont.Copy? && s.futures[cont.src].To? { assert InFlight(s'.pcs[i], h); }
      if cont.Move? { assert OwnedOk(s, cont.src); }
    } else {
      assert OwnedOk(s, h);
      if SomeFlight(s, h) {
        var j :| 0 <= j < |s.pcs| && InFlight(s.pcs[j], h);
        assert InFlight(s'.pcs[j], h);
      }
    }
  }

  lemma AssignRaces(s: State, i: nat, dst: nat, cont: Cont)
    requires CanAssign(s, i, dst, cont)
    ensures Source(cont, dst) < |s.futures| && NoRace(Assign(s, i, dst, cont)) && OneFrees(Assign(s, i, dst, cont))
  {
    hide CountOk, LifeOk, OwnedOk, Holders, PcOk, Frees;
    var s' := Assign(s, i, dst, cont);
    forall j, t: nat | 0 <= j < |s.pcs| ensures Frees(s', s'.pcs[j], t) <==> Frees(s, s.pcs[j], t) {
      AssignFrees(s, i, dst, cont, j, t);
    }
  }

  lemma AssignKeepsInv(s: State, i: nat, dst: nat, cont: Cont)
    requires CanAssign(s, i, dst, cont)
    ensures Source(cont, dst) < |s.futures| && Inv(Assign(s, i, dst, cont))
  {
    hide NoRace, OneFrees, CountOk, LifeOk, OwnedOk, PcOk, MayWrite, MayRun;
    AssignRaces(s, i, dst, cont);
    var s' := Assign(s, i, dst, cont);
    forall t: nat | t < |s'.count| ensures CountOk(s', t) && LifeOk(s', t) {
      AssignCounts(s, i, dst, cont, t);
      AssignLife(s, i, dst, cont, t);
    }
    forall j | 0 <= j < |s'.pcs| ensures PcOk(s', s'.pcs[j]) { AssignPcs(s, i, dst, cont, j); }
    forall h: nat | h < |s'.futures| ensures OwnedOk(s', h) { AssignOwned(s, i, dst, cont, h); }
  }

  // ---------------------------------------------------------------- the other steps

  /** The state a thread is in between finishing clear() and giving the destination its new task. */
  ghost function Released(s: State, i: nat): State
    requires i < |s.pcs| && s.pcs[i].Cleared? && s.pcs[i].dst < |s.futures| && s.futures[s.pcs[i].dst].To?
    requires s.futures[s.pcs[i].dst].task < |s.alive|
  {
    var freed := if s.pcs[i].last then s.(alive := s.alive[s.futures[s.pcs[i].dst].task := false]) else s;
    freed.(pcs := s.pcs[i := Idle])
  }

  lemma ReleasedLife(s: State, i: nat, t: nat)
    requires Inv(s) && i < |s.pcs| && s.pcs[i].Cleared? && PcOk(s, s.pcs[i]) && t < |s.count|
    ensures LifeOk(Released(s, i), t)
  {
    hide NoRace, OwnedOk, Holders, CountOk;
    var s' := Released(s, i);
    assert LifeOk(s, t);
    if s'.alive[t] && s'.count[t] == 0 {
      var j :| 0 <= j < |s.pcs| && Frees(s, s.pcs[j], t);
      assert Frees(s', s'.pcs[j], t);
    }
  }

  lemma ReleasedPcs(s: State, i: nat, j: nat)
    requires Inv(s) && i < |s.pcs| && s.pcs[i].Cleared? && PcOk(s, s.pcs[i]) && j < |s.pcs|
    ensures PcOk(Released(s, i), Released(s, i).pcs[j])
  {
    hide NoRace, OwnedOk, Holders, CountOk, LifeOk;
    assert PcOk(s, s.pcs[j]);
    if j != i && s.pcs[i].last {
      var t := s.futures[s.pcs[i].dst].task;
      assert Frees(s, s.pcs[i], t);
      assert !Frees(s, s.pcs[j], t);
    }
  }

  lemma ReleasedOwned(s: State, i: nat, h: nat)
    requires Inv(s) && i < |s.pcs| && s.pcs[i].Cleared? && PcOk(s, s.pcs[i]) && h < |s.futures| && h != s.pcs[i].dst
    ensures OwnedOk(Released(s, i), h)
  {
    hide NoRace, Holders, CountOk, LifeOk, OneFrees;
    var s' := Released(s, i);
    assert OwnedOk(s, h);
    if SomeFlight(s, h) {
      var j :| 0 <= j < |s.pcs| && InFlight(s.pcs[j], h);
      assert InFlight(s'.pcs[j], h);
    }
  }

  lemma ReleasedCanAssign(s: State, i: nat)
    requires Inv(s) && i < |s.pcs| && s.pcs[i].Cleared? && PcOk(s, s.pcs[i])
    ensures CanAssign(Released(s, i), i, s.pcs[i].dst, s.pcs[i].cont)
  {
    hide OwnedOk, LifeOk, Holders;
    var s' := Released(s, i);
    forall t: nat | t < |s'.count| ensures CountOk(s', t) && LifeOk(s', t) {
      ReleasedLife(s, i, t);
      assert CountOk(s, t);
      assert Holders(s', t) == Holders(s, t) by { SameHolders(s, s', t); }
    }
    forall j | 0 <= j < |s'.pcs| ensures PcOk(s', s'.pcs[j]) { ReleasedPcs(s, i, j); }
    forall h: nat | h < |s'.futures| && h != s.pcs[i].dst ensures OwnedOk(s', h) { ReleasedOwned(s, i, h); }
    ReleasedRaces(s, i);
  }

  lemma SameHolders(s: State, s': State, t: nat)
    requires s'.futures == s.futures && s'.owned == s.owned
    ensures Holders(s', t) == Holders(s, t)
  {}

  lemma ReleasedRaces(s: State, i: nat)
    requires Inv(s) && i < |s.pcs| && s.pcs[i].Cleared? && PcOk(s, s.pcs[i])
    ensures NoRace(Released(s, i)) && OneFrees(Released(s, i))
    ensures MayWrite(Released(s, i), i, s.pcs[i].dst) && MayRun(Released(s, i), i, s.pcs[i].cont)
  {
    hide OwnedOk, LifeOk, CountOk, Holders, Frees;
    var s' := Released(s, i);
    assert Writes(s.pcs[i], s.pcs[i].dst);
    forall j, t: nat | 0 <= j < |s.pcs| && Frees(s', s'.pcs[j], t) ensures Frees(s, s.pcs[j], t) {
      ReleasedFrees(s, i, j, t);
    }
  }

  lemma ReleasedFrees(s: State, i: nat, j: nat, t: nat)
    requires i < |s.pcs| && s.pcs[i].Cleared? && j < |s.pcs| && s.pcs[i].dst < |s.futures| &&
      s.futures[s.pcs[i].dst].To?
    requires s.futures[s.pcs[i].dst].task < |s.alive| && Frees(Released(s, i), Released(s, i).pcs[j], t)
    ensures Frees(s, s.pcs[j], t)
  {}

  lemma BeginKeepsInv(s: State, i: nat, dst: nat, cont: Cont)
    requires Inv(s) && Permitted(s, i, Begin(dst, cont)) && CanStep(s, i, Begin(dst, cont))
    ensures Inv(BeginStep(s, i, dst, cont))
  {
    hide NoRace, OneFrees, CountOk, LifeOk, PcOk, Holders, Inv, MayRun;
    WritableSettled(s, i, dst);
    if s.futures[dst] == Null {
      BeginEmpty(s, i, dst, cont);
      AssignKeepsInv(s, i, dst, cont);
    } else {
      SettledOwns(s, dst);
      assert CanLetGo(s, i, dst, cont);
      LetGoKeepsInv(s, i, dst, cont);
    }
  }

  lemma BeginEmpty(s: State, i: nat, dst: nat, cont: Cont)
    requires Inv(s) && Permitted(s, i, Begin(dst, cont)) && dst < |s.futures| && s.futures[dst] == Null
    ensures CanAssign(s, i, dst, cont)
  {
    hide NoRace, OneFrees, CountOk, LifeOk, PcOk, Holders;
    assert OwnedOk(s, dst);
    if cont != Drop {
      SourceSettled(s, i, cont, dst);
      assert OwnedOk(s, Source(cont, dst));
    }
  }

  /** One more reference to a live task, held by the queue or by nobody. */
  ghost function Bump(s: State, t: nat, forQueue: bool): State
    requires t < |s.count| == |s.queue| == |s.leaked|
  {
    s.(count := s.count[t := s.count[t] + 1],
       queue := if forQueue then s.queue[t := s.queue[t] + 1] else s.queue,
       leaked := if forQueue then s.leaked else s.leaked[t := s.leaked[t] + 1])
  }

  lemma BumpKeepsInv(s: State, t: nat, forQueue: bool)
    requires Inv(s) && t < |s.count| && s.count[t] > 0
    ensures Inv(Bump(s, t, forQueue))
  {
    hide NoRace, Holders;
    var s' := Bump(s, t, forQueue);
    forall u: nat | u < |s'.count| ensures CountOk(s', u) && LifeOk(s', u) {
      assert CountOk(s, u) && LifeOk(s, u);
      SameHolders(s, s', u);
      SameDuties(s, s', u);
    }
    forall j | 0 <= j < |s'.pcs| ensures PcOk(s', s'.pcs[j]) { assert PcOk(s, s.pcs[j]); }
    forall h: nat | h < |s'.futures| ensures OwnedOk(s', h) { assert OwnedOk(s, h); SameFlight(s, s', h); }
    forall j, u: nat | 0 <= j < |s.pcs| ensures Frees(s', s'.pcs[j], u) <==> Frees(s, s.pcs[j], u) {}
    assert NoRace(s') by { SameRaces(s, s'); }
  }

  lemma SameDuties(s: State, s': State, t: nat)
    requires s'.futures == s.futures && s'.pcs == s.pcs
    ensures SomeFrees(s', t) <==> SomeFrees(s, t)
  {
    forall j | 0 <= j < |s.pcs| ensures Frees(s', s'.pcs[j], t) <==> Frees(s, s.pcs[j], t) {}
  }

  lemma SameFlight(s: State, s': State, h: nat)
    requires s'.pcs == s.pcs
    ensures SomeFlight(s', h) <==> SomeFlight(s, h)
  {}

  lemma SameRaces(s: State, s': State)
    requires s'.pcs == s.pcs && NoRace(s)
    ensures NoRace(s')
  {}

  // The queue lets a task go.

  lemma QueueReleaseKeepsInv(s: State, i: nat, t: nat)
    requires Inv(s) && Permitted(s, i, QueueRelease(t)) && CanStep(s, i, QueueRelease(t))
    ensures Inv(Step(s, i, QueueRelease(t)))
  {
    hide Holders, NoRace, SomeFlight;
    var s' := Step(s, i, QueueRelease(t));
    assert CountOk(s, t) && LifeOk(s, t);
    forall j | 0 <= j < |s.pcs| && j != i ensures PcOk(s', s'.pcs[j]) { assert PcOk(s, s.pcs[j]); }
    forall j, u: nat | 0 <= j < |s.pcs| && Frees(s, s.pcs[j], u)
      ensures u < |s.count| && s.count[u] == 0
    {
      assert PcOk(s, s.pcs[j]);
    }
    forall j, u: nat | 0 <= j < |s.pcs| && j != i ensures Frees(s', s'.pcs[j], u) <==> Frees(s, s.pcs[j], u) {}
    forall u: nat | u < |s'.count| ensures CountOk(s', u) && LifeOk(s', u) {
      assert CountOk(s, u) && LifeOk(s, u);
      SameHolders(s, s', u);
      if u == t && s'.count[t] == 0 { assert Frees(s', s'.pcs[i], t); }
      if SomeFrees(s, u) {
        var j :| 0 <= j < |s.pcs| && Frees(s, s.pcs[j], u);
        assert Frees(s', s'.pcs[j], u);
      }
    }
    forall h: nat | h < |s'.futures| ensures OwnedOk(s', h) { assert OwnedOk(s, h); SamePlace(s, s', i, h); }
    assert NoRace(s') by { NoneUsed(s, s', i); }
  }

  /** Two states whose program counters differ only at thread i, which works on no future in either. */
  ghost predicate OnlyIdleDiffers(s: State, s': State, i: nat) {
    && |s'.pcs| == |s.pcs| && i < |s.pcs| && (s.pcs[i].Idle? || s.pcs[i].Releasing?) &&
      (s'.pcs[i].Idle? || s'.pcs[i].Releasing?)
    && forall j :: 0 <= j < |s.pcs| && j != i ==> s'.pcs[j] == s.pcs[j]
  }

  lemma SamePlace(s: State, s': State, i: nat, h: nat)
    requires OnlyIdleDiffers(s, s', i)
    ensures SomeFlight(s', h) <==> SomeFlight(s, h)
  {
    if SomeFlight(s, h) {
      var j :| 0 <= j < |s.pcs| && InFlight(s.pcs[j], h);
      assert InFlight(s'.pcs[j], h);
    }
    if SomeFlight(s', h) {
      var j :| 0 <= j < |s.pcs| && InFlight(s'.pcs[j], h);
      assert InFlight(s.pcs[j], h);
    }
  }

  lemma NoneUsed(s: State, s': State, i: nat)
    requires OnlyIdleDiffers(s, s', i) && NoRace(s)
    ensures NoRace(s')
  {}

  lemma ReleasingKeepsInv(s: State, i: nat)
    requires Inv(s) && i < |s.pcs| && s.pcs[i].Releasing? && CanStep(s, i, Proceed)
    ensures Inv(ProceedStep(s, i))
  {
    hide Holders, NoRace, SomeFlight;
    var s' := ProceedStep(s, i);
    var t := s.pcs[i].task;
    assert PcOk(s, s.pcs[i]) && Frees(s, s.pcs[i], t);
    forall j, u: nat | 0 <= j < |s.pcs| && Frees(s', s'.pcs[j], u) ensures j != i && u != t && Frees(s, s.pcs[j], u) {}
    forall j | 0 <= j < |s.pcs| && j != i ensures PcOk(s', s'.pcs[j]) {
      assert PcOk(s, s.pcs[j]) && !Frees(s, s.pcs[j], t);
    }
    forall u: nat | u < |s'.count| ensures CountOk(s', u) && LifeOk(s', u) {
      assert CountOk(s, u) && LifeOk(s, u);
      SameHolders(s, s', u);
      if u != t && SomeFrees(s, u) {
        var j :| 0 <= j < |s.pcs| && Frees(s, s.pcs[j], u);
        assert Frees(s', s'.pcs[j], u);
      }
    }
    forall h: nat | h < |s'.futures| ensures OwnedOk(s', h) { assert OwnedOk(s, h); SamePlace(s, s', i, h); }
    assert NoRace(s') by { NoneUsed(s, s', i); }
  }

  // A copy counts its reference.

  lemma CountingKeepsInv(s: State, i: nat)
    requires Inv(s) && i < |s.pcs| && s.pcs[i].Counting? && CanStep(s, i, Proceed)
    ensures Inv(ProceedStep(s, i))
  {
    hide Holders, NoRace;
    var s' := ProceedStep(s, i);
    var dst, src := s.pcs[i].dst, s.pcs[i].src;
    var t := s.futures[dst].task;
    assert PcOk(s, s.pcs[i]);
    OwnedLive(s, src);
    forall j | 0 <= j < |s.pcs| && j != i ensures PcOk(s', s'.pcs[j]) {
      assert PcOk(s, s.pcs[j]) && PcOk(s, s.pcs[i]);
      CountingApart(s, i, j);
    }
    forall j, u: nat | 0 <= j < |s.pcs| ensures Frees(s', s'.pcs[j], u) <==> Frees(s, s.pcs[j], u) {}
    forall u: nat | u < |s'.count| ensures CountOk(s', u) && LifeOk(s', u) {
      assert CountOk(s, u) && LifeOk(s, u);
      CountingHolders(s, i, u);
      if SomeFrees(s, u) {
        var j :| 0 <= j < |s.pcs| && Frees(s, s.pcs[j], u);
        assert Frees(s', s'.pcs[j], u);
      }
    }
    forall h: nat | h < |s'.futures| ensures OwnedOk(s', h) {
      assert OwnedOk(s, h);
      if h != dst && SomeFlight(s, h) {
        var j :| 0 <= j < |s.pcs| && InFlight(s.pcs[j], h);
        assert InFlight(s'.pcs[j], h);
      }
    }
    assert NoRace(s') by { FewerUses(s, s', i); }
  }

  lemma FewerUses(s: State, s': State, i: nat)
    requires NoRace(s) && |s'.pcs| == |s.pcs| && i < |s.pcs| && s'.pcs == s.pcs[i := Idle]
    ensures NoRace(s')
  {}

  lemma CountingApart(s: State, i: nat, j: nat)
    requires NoRace(s) && i < |s.pcs| && j < |s.pcs| && i != j && s.pcs[i].Counting?
    ensures !Writes(s.pcs[j], s.pcs[i].dst) && !Reads(s.pcs[j], s.pcs[i].dst)
  {
    assert Writes(s.pcs[i], s.pcs[i].dst);
  }

  lemma CountingHolders(s: State, i: nat, u: nat)
    requires i < |s.pcs| && s.pcs[i].Counting? && CanStep(s, i, Proceed) && PcOk(s, s.pcs[i])
    ensures |Holders(ProceedStep(s, i), u)| == |Holders(s, u)| + (if s.futures[s.pcs[i].dst] == To(u) then 1 else 0)
  {
    hide HoldersOf;
    HoldersGain(s.futures, s.owned, s.pcs[i].dst, u);
  }

  // A new task.

  lemma SpawnHolders(s: State, dst: nat, u: nat)
    requires Shape(s) && dst < |s.futures| && s.futures[dst] == Null && !s.owned[dst]
    ensures Holders(SpawnStep(s, dst), u) == if u == |s.count| then {dst} else Holders(s, u)
  {
    var s' := SpawnStep(s, dst);
    forall h: nat ensures h in Holders(s', u) <==> h in (if u == |s.count| then {dst} else Holders(s, u)) {}
  }

  lemma SpawnKeepsInv(s: State, i: nat, dst: nat)
    requires Inv(s) && Permitted(s, i, Spawn(dst)) && CanStep(s, i, Spawn(dst))
    ensures Inv(SpawnStep(s, dst))
  {
    hide Holders, NoRace;
    var s' := SpawnStep(s, dst);
    assert OwnedOk(s, dst);
    WritableSettled(s, i, dst);
    forall j | 0 <= j < |s.pcs| ensures PcOk(s', s'.pcs[j]) {
      assert PcOk(s, s.pcs[j]);
      SpawnApart(s, i, dst, j);
    }
    forall j, u: nat | 0 <= j < |s.pcs| ensures Frees(s', s'.pcs[j], u) <==> Frees(s, s.pcs[j], u) {
      assert PcOk(s, s.pcs[j]);
    }
    forall u: nat | u < |s'.count| ensures CountOk(s', u) && LifeOk(s', u) {
      SpawnHolders(s, dst, u);
      if u < |s.count| {
        assert CountOk(s, u) && LifeOk(s, u);
        if SomeFrees(s, u) {
          var j :| 0 <= j < |s.pcs| && Frees(s, s.pcs[j], u);
          assert Frees(s', s'.pcs[j], u);
        }
      }
    }
    forall h: nat | h < |s'.futures| ensures OwnedOk(s', h) { assert OwnedOk(s, h); SameFlight(s, s', h); }
    assert NoRace(s') by { SameRaces(s, s'); }
  }

  lemma SpawnApart(s: State, i: nat, dst: nat, j: nat)
    requires i < |s.pcs| && s.pcs[i] == Idle && MayWrite(s, i, dst) && j < |s.pcs|
    ensures !Writes(s.pcs[j], dst) && !Reads(s.pcs[j], dst)
  {}

  // ---------------------------------------------------------------- every run

  lemma StepKeepsInv(s: State, i: nat, a: Action)
    requires Inv(s) && Permitted(s, i, a)
    ensures CanStep(s, i, a) && Inv(Step(s, i, a))
  {
    hide Inv, NoRace, OneFrees, CountOk, LifeOk, OwnedOk, Holders, Assign, ProceedStep, BeginStep, SpawnStep, MayRun;
    PermittedCanStep(s, i, a);
    match a {
      case Begin(dst, cont) => BeginKeepsInv(s, i, dst, cont);
      case CopySame(dst, _, converting) =>
        if !converting && s.futures[dst].To? {
          WritableSettled(s, i, dst);
          SettledOwns(s, dst);
          assert Shape(s) by { InvShape(s); }
          BumpKeepsInv(s, s.futures[dst].task, false);
        }
      case Proceed => ProceedKeepsInv(s, i);
      case Spawn(dst) => SpawnKeepsInv(s, i, dst);
      case QueueAcquire(src) =>
        ReadableSettled(s, i, src);
        SettledOwns(s, src);
        InvShape(s);
        BumpKeepsInv(s, s.futures[src].task, true);
      case QueueRelease(t) => QueueReleaseKeepsInv(s, i, t);
    }
  }

  lemma InvShape(s: State)
    requires Inv(s)
    ensures Shape(s) && forall i :: 0 <= i < |s.pcs| ==> PcOk(s, s.pcs[i])
  {}

  lemma ProceedKeepsInv(s: State, i: nat)
    requires Inv(s) && i < |s.pcs| && s.pcs[i] != Idle && CanStep(s, i, Proceed)
    ensures Inv(ProceedStep(s, i))
  {
    hide Inv, NoRace, OneFrees, CountOk, LifeOk, OwnedOk, Holders;
    InvShape(s);
    match s.pcs[i] {
      case Cleared(dst, cont, last) =>
        ReleasedCanAssign(s, i);
        AssignKeepsInv(Released(s, i), i, dst, cont);
        ClearedIsAssign(s, i);
      case Counting(_, _) => CountingKeepsInv(s, i);
      case Releasing(_) => ReleasingKeepsInv(s, i);
    }
  }

  lemma ClearedIsAssign(s: State, i: nat)
    requires i < |s.pcs| && s.pcs[i].Cleared? && CanStep(s, i, Proceed) && PcOk(s, s.pcs[i])
    ensures ProceedStep(s, i) == Assign(Released(s, i), i, s.pcs[i].dst, s.pcs[i].cont)
  {}

  datatype Event = Event(thread: nat, action: Action)

  /** The states of a run: one more than its events, each step permitted where it is taken. */
  ghost predicate IsRun(states: seq<State>, events: seq<Event>) {
    && |states| == |events| + 1
    && (exists futures, threads :: states[0] == Init(futures, threads))
    && (forall k :: 0 <= k < |events| ==> Permitted(states[k], events[k].thread, events[k].action))
    && (forall k :: 0 <= k < |events| && CanStep(states[k], events[k].thread, events[k].action) ==>
          states[k + 1] == Step(states[k], events[k].thread, events[k].action))
  }

  lemma {:induction false} EveryStateInv(states: seq<State>, events: seq<Event>, k: nat)
    requires IsRun(states, events) && k < |states|
    ensures Inv(states[k])
  {
    hide Inv, Step, Permitted, CanStep;
    if k == 0 {
      var futures, threads :| states[0] == Init(futures, threads);
      InitInv(futures, threads);
    } else {
      EveryStateInv(states, events, k - 1);
      StepKeepsInv(states[k - 1], events[k - 1].thread, events[k - 1].action);
    }
  }

  // ---------------------------------------------------------------- what every run guarantees

  /** A future that no thread is in the middle of changing points at a live task with a positive count. */
  lemma NoDanglingFuture(states: seq<State>, events: seq<Event>, k: nat, h: nat)
    requires IsRun(states, events) && k < |states| && h < |states[k].futures| && states[k].futures[h].To?
    requires forall i :: 0 <= i < |states[k].pcs| ==> !InFlight(states[k].pcs[i], h)
    ensures var t := states[k].futures[h].task;
      t < |states[k].count| == |states[k].alive| && states[k].count[t] > 0 && states[k].alive[t]
  {
    EveryStateInv(states, events, k);
    SettledOwns(states[k], h);
  }

  /** A task is deallocated only by a thread that saw its count reach zero, once, with nothing left that owns it. */
  lemma FreedUnreferenced(states: seq<State>, events: seq<Event>, k: nat, t: nat)
    requires IsRun(states, events) && k < |events| && t < |states[k].alive| <= |states[k + 1].alive|
    requires states[k].alive[t] && !states[k + 1].alive[t]
    ensures events[k].action == Proceed && t < |states[k].count| == |states[k].queue| && states[k].count[t] == 0
    ensures Holders(states[k], t) == {} && states[k].queue[t] == 0
    ensures forall i, h: nat :: 0 <= i < |states[k].pcs| && Reads(states[k].pcs[i], h) && h < |states[k].futures| ==>
      states[k].futures[h] != To(t)
  {
    hide NoRace, OneFrees;
    EveryStateInv(states, events, k);
    var s, e := states[k], events[k];
    StepKeepsInv(s, e.thread, e.action);
    FreeIsProceed(s, e.thread, e.action, t);
    assert PcOk(s, s.pcs[e.thread]);
    assert CountOk(s, t);
    forall i, h: nat | 0 <= i < |s.pcs| && Reads(s.pcs[i], h) && h < |s.futures| ensures s.futures[h] != To(t) {
      assert PcOk(s, s.pcs[i]);
      assert h !in Holders(s, t);
    }
  }

  lemma FreeIsProceed(s: State, i: nat, a: Action, t: nat)
    requires CanStep(s, i, a) && t < |s.alive| <= |Step(s, i, a).alive| && s.alive[t] && !Step(s, i, a).alive[t]
    ensures a == Proceed && Frees(s, s.pcs[i], t)
  {}

  lemma StepKeepsFreed(s: State, i: nat, a: Action, t: nat)
    requires CanStep(s, i, a) && t < |s.alive| && !s.alive[t]
    ensures t < |Step(s, i, a).alive| && !Step(s, i, a).alive[t]
  {}

  /** Once freed, a task stays freed in every later state. */
  lemma {:induction false} FreedForGood(states: seq<State>, events: seq<Event>, j: nat, k: nat, t: nat)
    requires IsRun(states, events) && j <= k < |states| && t < |states[j].alive| && !states[j].alive[t]
    ensures t < |states[k].alive| && !states[k].alive[t]
    decreases k
  {
    hide Inv, Step, Permitted, CanStep;
    if k == j {
    } else {
      var s, e := states[k - 1], events[k - 1];
      FreedForGood(states, events, j, k - 1, t);
      EveryStateInv(states, events, k - 1);
      StepKeepsInv(s, e.thread, e.action);
      StepKeepsFreed(s, e.thread, e.action, t);
    }
  }

  // ---------------------------------------------------------------- leaked references

  /** A copy assignment between two futures that both hold t. */
  ghost predicate IsSameTaskCopy(s: State, a: Action, t: nat) {
    a.CopySame? && !a.converting && a.dst < |s.futures| && s.futures[a.dst] == To(t)
  }

  /** How many of the first k events are same-task copy assignments on t. */
  ghost function SameTaskCopies(states: seq<State>, events: seq<Event>, k: nat, t: nat): nat
    requires k <= |events| <= |states|
  {
    if k == 0 then 0
    else
      SameTaskCopies(states, events, k - 1, t) +
      (if IsSameTaskCopy(states[k - 1], events[k - 1].action, t) then 1 else 0)
  }

  lemma {:induction false} CopiesGrow(states: seq<State>, events: seq<Event>, j: nat, k: nat, t: nat)
    requires j <= k <= |events| <= |states|
    ensures SameTaskCopies(states, events, j, t) <= SameTaskCopies(states, events, k, t)
    decreases k
  {
    if k == j {
    } else {
      CopiesGrow(states, events, j, k - 1, t);
    }
  }

  /** What one step does to the leaked references of task t, whether or not t exists yet. */
  lemma StepLeaks(s: State, i: nat, a: Action, t: nat)
    requires CanStep(s, i, a)
    ensures |Step(s, i, a).leaked| >= |s.leaked|
    ensures t < |s.leaked| ==> Step(s, i, a).leaked[t] == s.leaked[t] + (if IsSameTaskCopy(s, a, t) then 1 else 0)
    ensures |s.leaked| <= t ==>
      !IsSameTaskCopy(s, a, t) && (t < |Step(s, i, a).leaked| ==> Step(s, i, a).leaked[t] == 0)
  {}

  /**
   The references of a task that belong to no one are exactly one for each copy assignment that found
   the task in both futures; the converting assignment and every other event add none.
   */
  lemma {:induction false} LeakedIsCopies(states: seq<State>, events: seq<Event>, k: nat, t: nat)
    requires IsRun(states, events) && k < |states|
    ensures SameTaskCopies(states, events, k, t) == if t < |states[k].leaked| then states[k].leaked[t] else 0
  {
    hide Inv, Step, Permitted, CanStep, IsSameTaskCopy;
    if k == 0 {
    } else {
      var s, e := states[k - 1], events[k - 1];
      LeakedIsCopies(states, events, k - 1, t);
      EveryStateInv(states, events, k - 1);
      StepKeepsInv(s, e.thread, e.action);
      StepLeaks(s, e.thread, e.action, t);
    }
  }

  /**
   A task that was copy-assigned onto itself in the first j events stays live for the rest of the run:
   its count never falls below the number of those copies.
   */
  lemma LeaksStay(states: seq<State>, events: seq<Event>, j: nat, k: nat, t: nat)
    requires IsRun(states, events) && j <= k < |states| && SameTaskCopies(states, events, j, t) > 0
    ensures t < |states[k].count| == |states[k].alive| && states[k].alive[t]
    ensures states[k].count[t] >= SameTaskCopies(states, events, j, t)
  {
    hide NoRace, OneFrees, OwnedOk, PcOk, Holders;
    CopiesGrow(states, events, j, k, t);
    LeakedIsCopies(states, events, k, t);
    EveryStateInv(states, events, k);
    var s := states[k];
    assert CountOk(s, t) && LifeOk(s, t);
  }

  /** The futures that point at t. */
  ghost function Pointing(s: State, t: nat): set<nat> {
    set h: nat | h < |s.futures| && s.futures[h] == To(t)
  }

  ghost predicate Quiet(s: State) { forall i :: 0 <= i < |s.pcs| ==> s.pcs[i] == Idle }

  /**
   Between operations the count is exactly the futures pointing at the task, the queue's references and
   one for each same-task copy assignment; the task is live exactly while that is not zero.
   */
  lemma QuietCountsExact(states: seq<State>, events: seq<Event>, k: nat, t: nat)
    requires IsRun(states, events) && k < |states| && Quiet(states[k]) && t < |states[k].count|
    ensures |states[k].count| == |states[k].alive| == |states[k].queue|
    ensures states[k].count[t] == |Pointing(states[k], t)| + states[k].queue[t] + SameTaskCopies(states, events, k, t)
    ensures states[k].alive[t] <==> states[k].count[t] > 0
  {
    EveryStateInv(states, events, k);
    LeakedIsCopies(states, events, k, t);
    var s := states[k];
    assert CountOk(s, t) && LifeOk(s, t);
    forall h: nat | h < |s.futures| && s.futures[h] == To(t) ensures s.owned[h] { assert OwnedOk(s, h); }
    assert Holders(s, t) == Pointing(s, t);
  }
}
