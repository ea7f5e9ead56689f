/** What each future and each count is after an operation, whatever other threads do meanwhile. */
module FutureResults {
  import opened Futures
  import opened FutureSafety

  // ---------------------------------------------------------------- one operation from begin to end

  /** While an operation of another thread uses future h, a permitted step leaves h alone. */
  lemma UsedIsKept(s: State, i: nat, j: nat, a: Action, h: nat)
    requires Inv(s) && Permitted(s, j, a) && CanStep(s, j, a) && i < |s.pcs| && i != j && h < |s.futures|
    requires Writes(s.pcs[i], h) || Reads(s.pcs[i], h)
    ensures |Step(s, j, a).futures| == |s.futures| && Step(s, j, a).futures[h] == s.futures[h]
    ensures |Step(s, j, a).pcs| == |s.pcs| && Step(s, j, a).pcs[i] == s.pcs[i]
  {
    hide CountOk, LifeOk, OwnedOk, OneFrees;
    assert PcOk(s, s.pcs[j]);
  }

  /**
   Thread i is in the middle of the operation Begin(dst, cont) that found its source pointing at ptr:
   it has let go of the old task, or it holds ptr and still has to count the reference.
   */
  ghost predicate Under(s: State, i: nat, dst: nat, cont: Cont, ptr: Pointer) {
    && i < |s.pcs| && dst < |s.futures|
    && match s.pcs[i]
       case Cleared(d, c, _) =>
         && d == dst && c == cont
         && (cont != Drop ==> Source(cont, dst) < |s.futures| && s.futures[Source(cont, dst)] == ptr)
       case Counting(d, src) =>
         && d == dst && cont == Copy(src) && src < |s.futures| && s.futures[dst] == s.futures[src] == ptr
       case _ => false
  }

  /** What the operation leaves: the source's pointer in the destination, and in the source if it was a copy. */
  ghost predicate Ended(s: State, dst: nat, cont: Cont, ptr: Pointer) {
    && dst < |s.futures|
    && match cont
       case Drop => s.futures[dst] == Null
       case Copy(src) => src < |s.futures| && s.futures[dst] == ptr && s.futures[src] == ptr
       case Move(src) => src < |s.futures| && s.futures[dst] == ptr && s.futures[src] == Null
  }

  lemma BeginLeads(s: State, i: nat, dst: nat, cont: Cont)
    requires Inv(s) && Permitted(s, i, Begin(dst, cont)) && CanStep(s, i, Begin(dst, cont))
    ensures Source(cont, dst) < |s.futures|
    ensures var s', ptr := Step(s, i, Begin(dst, cont)), s.futures[Source(cont, dst)];
      && |s'.pcs| == |s.pcs|
      && if s'.pcs[i] == Idle then Ended(s', dst, cont, ptr) else Under(s', i, dst, cont, ptr)
  {
    hide CountOk, LifeOk, OwnedOk, OneFrees, NoRace;
  }

  lemma ProceedLeads(s: State, i: nat, dst: nat, cont: Cont, ptr: Pointer)
    requires Inv(s) && Under(s, i, dst, cont, ptr) && CanStep(s, i, Proceed)
    ensures var s' := Step(s, i, Proceed);
      && |s'.pcs| == |s.pcs|
      && if s'.pcs[i] == Idle then Ended(s', dst, cont, ptr) else Under(s', i, dst, cont, ptr)
  {
    hide CountOk, LifeOk, OwnedOk, OneFrees, NoRace;
    assert PcOk(s, s.pcs[i]);
  }

  lemma OthersLeave(s: State, i: nat, j: nat, a: Action, dst: nat, cont: Cont, ptr: Pointer)
    requires Inv(s) && Under(s, i, dst, cont, ptr) && i != j && Permitted(s, j, a) && CanStep(s, j, a)
    ensures Under(Step(s, j, a), i, dst, cont, ptr)
  {
    hide Inv, Step;
    UsedIsKept(s, i, j, a, dst);
    if s.pcs[i].Counting? {
      UsedIsKept(s, i, j, a, s.pcs[i].src);
    } else if cont != Drop {
      UsedIsKept(s, i, j, a, Source(cont, dst));
    }
  }

  lemma {:induction false} StillUnder(states: seq<State>, events: seq<Event>, a: nat, b: nat, dst: nat, cont: Cont)
    requires IsRun(states, events) && a < b < |states| && events[a].action == Begin(dst, cont)
    requires forall m :: a < m <= b ==> events[a].thread < |states[m].pcs| && states[m].pcs[events[a].thread] != Idle
    ensures Source(cont, dst) < |states[a].futures|
    ensures Under(states[b], events[a].thread, dst, cont, states[a].futures[Source(cont, dst)])
    decreases b
  {
    hide Inv, Step, Permitted, CanStep, Under;
    var i := events[a].thread;
    EveryStateInv(states, events, b - 1);
    StepKeepsInv(states[b - 1], events[b - 1].thread, events[b - 1].action);
    if b == a + 1 {
      BeginLeads(states[a], i, dst, cont);
    } else {
      StillUnder(states, events, a, b - 1, dst, cont);
      var ptr := states[a].futures[Source(cont, dst)];
      if events[b - 1].thread == i {
        OnlyProceeds(states[b - 1], i, events[b - 1].action);
        ProceedLeads(states[b - 1], i, dst, cont, ptr);
      } else {
        OthersLeave(states[b - 1], i, events[b - 1].thread, events[b - 1].action, dst, cont, ptr);
      }
    }
  }

  lemma OnlyProceeds(s: State, i: nat, a: Action)
    requires i < |s.pcs| && s.pcs[i] != Idle && Permitted(s, i, a)
    ensures a == Proceed
  {}

  /**
   When the thread that began a copy, move or clear is idle again for the first time, the destination
   holds what the source held at the beginning, or nothing after a clear; the source still holds it after
   a copy and nothing after a move; whatever the other threads did meanwhile.
   */
  lemma OperationResult(states: seq<State>, events: seq<Event>, a: nat, b: nat, dst: nat, cont: Cont)
    requires IsRun(states, events) && a < b < |states| && events[a].action == Begin(dst, cont)
    requires forall m :: a < m < b ==> events[a].thread < |states[m].pcs| && states[m].pcs[events[a].thread] != Idle
    requires events[a].thread < |states[b].pcs| && states[b].pcs[events[a].thread] == Idle
    ensures dst < |states[b].futures| && Source(cont, dst) < |states[a].futures|
    ensures cont == Drop ==> states[b].futures[dst] == Null
    ensures cont.Copy? ==>
      && cont.src < |states[b].futures| && cont.src < |states[a].futures|
      && states[b].futures[dst] == states[a].futures[cont.src]
      && states[b].futures[cont.src] == states[a].futures[cont.src]
    ensures cont.Move? ==>
      && cont.src < |states[b].futures| && cont.src < |states[a].futures|
      && states[b].futures[dst] == states[a].futures[cont.src] && states[b].futures[cont.src] == Null
  {
    hide Inv, Step, Permitted, CanStep, Under;
    var i := events[a].thread;
    EveryStateInv(states, events, b - 1);
    StepKeepsInv(states[b - 1], events[b - 1].thread, events[b - 1].action);
    if b == a + 1 {
      BeginLeads(states[a], i, dst, cont);
    } else {
      StillUnder(states, events, a, b - 1, dst, cont);
      var ptr := states[a].futures[Source(cont, dst)];
      if events[b - 1].thread == i {
        OnlyProceeds(states[b - 1], i, events[b - 1].action);
        ProceedLeads(states[b - 1], i, dst, cont, ptr);
      } else {
        OthersLeave(states[b - 1], i, events[b - 1].thread, events[b - 1].action, dst, cont, ptr);
        NotIdleUnder(states[b], i, dst, cont, ptr);
      }
    }
  }

  lemma NotIdleUnder(s: State, i: nat, dst: nat, cont: Cont, ptr: Pointer)
    requires Under(s, i, dst, cont, ptr)
    ensures i < |s.pcs| && s.pcs[i] != Idle
  {}

  // ---------------------------------------------------------------- the queue's references

  /** A new task is live, its future points at it, and it has two references: that future's and one of the queue. */
  lemma SpawnResult(states: seq<State>, events: seq<Event>, a: nat, dst: nat)
    requires IsRun(states, events) && a < |events| && events[a].action == Spawn(dst)
    ensures var t, s' := |states[a].count|, states[a + 1];
      && |s'.count| == |s'.alive| == |s'.queue| == t + 1 && dst < |s'.futures| == |states[a].futures|
      && s'.futures[dst] == To(t) && s'.alive[t] && s'.count[t] == 2 && s'.queue[t] == 1 && Pointing(s', t) == {dst}
      && (forall h :: 0 <= h < |s'.futures| && h != dst ==> s'.futures[h] == states[a].futures[h])
      && s'.count[..t] == states[a].count
  {
    hide NoRace, OneFrees, CountOk, LifeOk, OwnedOk;
    EveryStateInv(states, events, a);
    StepKeepsInv(states[a], events[a].thread, events[a].action);
  }

  /** What one event adds to the queue's references to task t: a spawn or acquire one, a release minus one. */
  ghost function QueueChange(s: State, a: Action, t: nat): int {
    match a
    case Spawn(_) => if t == |s.count| then 1 else 0
    case QueueAcquire(src) => if src < |s.futures| && s.futures[src] == To(t) then 1 else 0
    case QueueRelease(task) => if task == t then -1 else 0
    case _ => 0
  }

  ghost function QueueBalance(states: seq<State>, events: seq<Event>, k: nat, t: nat): int
    requires k <= |events| <= |states|
  {
    if k == 0 then 0
    else QueueBalance(states, events, k - 1, t) + QueueChange(states[k - 1], events[k - 1].action, t)
  }

  lemma StepQueue(s: State, i: nat, a: Action, t: nat)
    requires CanStep(s, i, a) && Permitted(s, i, a)
    ensures |Step(s, i, a).queue| >= |s.queue|
    ensures t < |s.queue| ==> Step(s, i, a).queue[t] == s.queue[t] + QueueChange(s, a, t)
    ensures |s.queue| <= t ==>
      QueueChange(s, a, t) == if t < |Step(s, i, a).queue| then Step(s, i, a).queue[t] else 0
  {}

  lemma {:induction false} QueueIsBalance(states: seq<State>, events: seq<Event>, k: nat, t: nat)
    requires IsRun(states, events) && k < |states|
    ensures QueueBalance(states, events, k, t) == if t < |states[k].queue| then states[k].queue[t] else 0
  {
    hide Inv, Step, Permitted, CanStep, QueueChange;
    if k == 0 {
    } else {
      var s, e := states[k - 1], events[k - 1];
      QueueIsBalance(states, events, k - 1, t);
      EveryStateInv(states, events, k - 1);
      StepKeepsInv(s, e.thread, e.action);
      StepQueue(s, e.thread, e.action, t);
    }
  }

  /**
   Between operations a task's count is the number of futures that point at it, one for its spawning and
   each acquire of the queue less the queue's releases, and one for each same-task copy assignment.
   */
  lemma QuietCountFromEvents(states: seq<State>, events: seq<Event>, k: nat, t: nat)
    requires IsRun(states, events) && k < |states| && Quiet(states[k]) && t < |states[k].count|
    ensures states[k].count[t] ==
      |Pointing(states[k], t)| + QueueBalance(states, events, k, t) + SameTaskCopies(states, events, k, t)
    ensures |states[k].count| == |states[k].alive| && (states[k].alive[t] <==> states[k].count[t] > 0)
  {
    QuietCountsExact(states, events, k, t);
    QueueIsBalance(states, events, k, t);
  }
}
