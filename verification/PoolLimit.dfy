/** How many threads a memory pool bears: at the limit the used count runs over into the header. */
module PoolLimit {
  import opened Arith
  import opened Powers
  import opened PoolGeometry
  import opened PoolMachine
  import opened PoolSafety
  import opened PoolTheorems

  /** Adding one to a state word changes its header exactly when the used count is at its maximum. */
  lemma HeaderCarry(word: nat)
    requires word < WORD_SPAN
    ensures HeaderLg2(FetchAdd(word, 1)) != HeaderLg2(word) <==> Used(word) == USED_SPAN - 1
  {}

  // ---------------------------------------------------------------- reachable states

  ghost predicate Reaches(p: Pool, n: nat, s: State)
    requires p.Valid()
  {
    exists trace :: Behaviour(p, n, trace) && trace[|trace| - 1] == s
  }

  /** One more step of any thread makes a longer behaviour. */
  lemma TraceGoesOn(p: Pool, n: nat, trace: seq<State>, t: nat, cmd: Command, s': State)
    requires p.Valid() && Behaviour(p, n, trace) && Moves(p, trace[|trace| - 1], t, cmd, s')
    ensures Behaviour(p, n, trace + [s'])
  {
    hide Moves, Init;
    var longer := trace + [s'];
    assert Next(p, trace[|trace| - 1], s');
    forall i | 0 <= i < |longer| - 1 ensures Next(p, longer[i], longer[i + 1]) {
      if i < |trace| - 1 { assert Next(p, trace[i], trace[i + 1]); }
    }
  }

  lemma ReachesNext(p: Pool, n: nat, s: State, t: nat, cmd: Command, s': State)
    requires p.Valid() && Reaches(p, n, s) && Moves(p, s, t, cmd, s')
    ensures Reaches(p, n, s')
  {
    hide Moves, Init;
    var trace :| Behaviour(p, n, trace) && trace[|trace| - 1] == s;
    TraceGoesOn(p, n, trace, t, cmd, s');
    var longer := trace + [s'];
    assert longer[|longer| - 1] == s';
  }

  /** The block count of superblocks of the smallest block size. */
  function SmallLg2(p: Pool): nat
    requires p.Valid()
  {
    p.sbLg2 - p.minLg2
  }

  function SmallRequest(p: Pool, clock: nat): Request
    requires p.Valid()
  {
    Request(1, SmallLg2(p), clock)
  }

  ghost predicate Shape(p: Pool, n: nat, s: State)
    requires p.Valid()
  {
    Reaches(p, n, s) && |s.sbs| == p.sbCount && |s.hints| == p.Sizes() && |s.threads| == n && s.hints[0] == 0
  }

  lemma SmallFacts(p: Pool)
    requires p.Valid()
    ensures Pow2(SmallLg2(p)) <= 0x200_0000 && SmallLg2(p) <= MAX_BIT_COUNT_LG2 && p.CountOk(SmallLg2(p))
    ensures 1 <= Pow2(p.maxLg2) && p.BlockSizeLg2(1) == p.minLg2
  {
    Pow2Monotone(SmallLg2(p), 25);
    Pow2Values();
  }

  /** One thread asks for one byte: from idle it reaches its claim on superblock 0. */
  lemma ToProbe(p: Pool, n: nat, s: State, t: nat, clock: nat) returns (s': State)
    requires p.Valid() && Shape(p, n, s) && t < n && s.threads[t].Idle?
    ensures s' == s.Goto(t, Probe(SmallRequest(p, clock), 1, 0, 0, SmallLg2(p))) && Shape(p, n, s')
  {
    hide Reaches, Pow2;
    SmallFacts(p);
    var cmd := Allocate(1, 1, clock);
    var s1 := s.Goto(t, Top(SmallRequest(p, clock), 1, -1, SmallLg2(p)));
    assert Moves(p, s, t, cmd, s1);
    ReachesNext(p, n, s, t, cmd, s1);
    s' := s1.Goto(t, Probe(SmallRequest(p, clock), 1, 0, 0, SmallLg2(p)));
    assert Moves(p, s1, t, Skip, s');
    ReachesNext(p, n, s1, t, Skip, s');
    assert s' == s.Goto(t, Probe(SmallRequest(p, clock), 1, 0, 0, SmallLg2(p)));
  }

  lemma ToClaim(p: Pool, n: nat, s: State, t: nat, clock: nat) returns (s': State)
    requires p.Valid() && Shape(p, n, s) && t < n && s.threads[t].Idle? && s.sbs[0].Lg2() == SmallLg2(p)
    ensures s' == s.Goto(t, Claim(SmallRequest(p, clock), 1, 0, 0, SmallLg2(p))) && Shape(p, n, s')
  {
    hide Reaches, Pow2;
    var s1 := ToProbe(p, n, s, t, clock);
    s' := s1.Goto(t, Claim(SmallRequest(p, clock), 1, 0, 0, SmallLg2(p)));
    assert Moves(p, s1, t, Skip, s');
    ReachesNext(p, n, s1, t, Skip, s');
    assert s' == s.Goto(t, Claim(SmallRequest(p, clock), 1, 0, 0, SmallLg2(p)));
  }

  // ---------------------------------------------------------------- filling superblock 0

  /** All threads are idle and the first k blocks of superblock 0, of the smallest size, are granted. */
  ghost predicate Filled(p: Pool, n: nat, s: State, k: nat)
    requires p.Valid()
  {
    && Shape(p, n, s) && (forall t :: 0 <= t < n ==> s.threads[t].Idle?)
    && s.sbs[0].word == EmptyWord(SmallLg2(p)) + k && (forall b: nat :: b in s.sbs[0].bits <==> b < k)
    && (k > 0 ==> Block(0, 0, SmallLg2(p), 1) in s.live)
  }

  /** A thread at its claim with room takes the block its clock names. */
  lemma ClaimTakes(p: Pool, n: nat, s: State, t: nat, k: nat, hint: int) returns (s': State)
    requires p.Valid() && Shape(p, n, s) && t < n && k < Pow2(SmallLg2(p))
    requires s.threads[t] == Claim(SmallRequest(p, k), 1, hint, 0, SmallLg2(p))
    requires s.sbs[0].word == EmptyWord(SmallLg2(p)) + k && k !in s.sbs[0].bits
    ensures Shape(p, n, s') && s'.threads == s.threads[t := Idle] && s'.live == s.live + {Block(0, k, SmallLg2(p), 1)}
    ensures s'.sbs[0] == Superblock(EmptyWord(SmallLg2(p)) + k + 1, s.sbs[0].bits + {k})
  {
    hide Reaches, Pow2;
    SmallFacts(p);
    var lg2, req := SmallLg2(p), SmallRequest(p, k);
    DivUnique(k, Pow2(lg2), 0, k);
    WordParts(s.sbs[0].word, lg2, k);
    var s1 := s.Write(0, Superblock(s.sbs[0].word + 1, s.sbs[0].bits)).Goto(t, SetBit(req, 0, lg2, k));
    assert Moves(p, s, t, Skip, s1);
    ReachesNext(p, n, s, t, Skip, s1);
    s' := StepSetBit(s1, t);
    assert Moves(p, s1, t, Skip, s');
    ReachesNext(p, n, s1, t, Skip, s');
    assert s'.threads == s.threads[t := Idle];
  }

  lemma FillNext(p: Pool, n: nat, s: State, k: nat) returns (s': State)
    requires p.Valid() && 0 < n && Filled(p, n, s, k) && k < Pow2(SmallLg2(p))
    ensures Filled(p, n, s', k + 1)
  {
    hide Reaches, Pow2;
    SmallFacts(p);
    WordParts(s.sbs[0].word, SmallLg2(p), k);
    var s1 := ToClaim(p, n, s, 0, k);
    s' := ClaimTakes(p, n, s1, 0, k, 0);
  }

  lemma {:induction false} FillAll(p: Pool, n: nat, s: State, k: nat) returns (s': State)
    requires p.Valid() && 0 < n && Filled(p, n, s, k) && k <= Pow2(SmallLg2(p))
    ensures Filled(p, n, s', Pow2(SmallLg2(p)))
    decreases Pow2(SmallLg2(p)) - k
  {
    hide Reaches, Pow2;
    if k == Pow2(SmallLg2(p)) {
      s' := s;
    } else {
      s' := FillNext(p, n, s, k);
      s' := FillAll(p, n, s', k + 1);
    }
  }

  // ---------------------------------------------------------------- giving superblock 0 the smallest size

  /** The search of thread 0 over superblocks that are all empty and of other sizes. */
  ghost predicate Scanning(p: Pool, n: nat, s: State, i: nat)
    requires p.Valid()
  {
    && Shape(p, n, s) && 0 < n && i <= p.sbCount && (forall t :: 0 < t < n ==> s.threads[t].Idle?)
    && s.threads[0] ==
         Scan(SmallRequest(p, 0), 1, 0, i, if i < p.sbCount then i else 0, if i == 0 then -1 else 0, -1, 0)
    && s.sbs == Init(p, n).sbs
  }

  lemma OtherSizes(p: Pool, j: nat)
    requires p.Valid() && j < p.sbCount && p.FirstSuperblock(1) == 0 && p.Sizes() > 1
    ensures HeaderLg2(p.InitialWord(j)) != SmallLg2(p) && Used(p.InitialWord(j)) == 0
  {
    hide Pow2;
    RunsCoverPool(p);
    var r := p.SizeIndexOf(j);
    assert r > 0;
    WordParts(p.InitialWord(j), p.sbLg2 - (r + p.minLg2), 0);
  }

  lemma ScanNext(p: Pool, n: nat, s: State, i: nat) returns (s': State)
    requires p.Valid() && Scanning(p, n, s, i) && i < p.sbCount && p.FirstSuperblock(1) == 0 && p.Sizes() > 1
    ensures Scanning(p, n, s', i + 1)
  {
    hide Reaches, Pow2;
    OtherSizes(p, i);
    s' := StepScan(p, s, 0);
    assert Moves(p, s, 0, Skip, s');
    ReachesNext(p, n, s, 0, Skip, s');
  }

  lemma {:induction false} ScanAll(p: Pool, n: nat, s: State, i: nat) returns (s': State)
    requires p.Valid() && Scanning(p, n, s, i) && p.FirstSuperblock(1) == 0 && p.Sizes() > 1
    ensures Scanning(p, n, s', p.sbCount)
    decreases p.sbCount - i
  {
    hide Reaches, Pow2;
    if i == p.sbCount {
      s' := s;
    } else {
      s' := ScanNext(p, n, s, i);
      s' := ScanAll(p, n, s', i + 1);
    }
  }

  lemma InitShape(p: Pool, n: nat)
    requires p.Valid()
    ensures Shape(p, n, Init(p, n)) && forall t :: 0 <= t < n ==> Init(p, n).threads[t].Idle?
  {
    RunsCoverPool(p);
    assert Behaviour(p, n, [Init(p, n)]);
  }

  /** Where no superblock begins with the smallest size, the first request reassigns superblock 0. */
  lemma ReassignFirst(p: Pool, n: nat) returns (s: State)
    requires p.Valid() && 0 < n && p.FirstSuperblock(1) == 0 && p.Sizes() > 1
    ensures Filled(p, n, s, 1)
  {
    hide Reaches, Pow2;
    SmallFacts(p);
    InitShape(p, n);
    OtherSizes(p, 0);
    RunsCoverPool(p);
    var lg2, req := SmallLg2(p), SmallRequest(p, 0);
    var a := ToProbe(p, n, Init(p, n), 0, 0);
    var b := a.Goto(0, BeginScan(p, req, 1, 0));
    assert Moves(p, a, 0, Skip, b);
    ReachesNext(p, n, a, 0, Skip, b);
    assert Scanning(p, n, b, 0);
    var c := ScanAll(p, n, b, 0);
    s := ReassignSuperblock(p, n, c);
  }

  lemma ReassignSuperblock(p: Pool, n: nat, c: State) returns (s: State)
    requires p.Valid() && Scanning(p, n, c, p.sbCount)
    ensures Filled(p, n, s, 1)
  {
    hide Reaches, Pow2;
    SmallFacts(p);
    var lg2, req, seen := SmallLg2(p), SmallRequest(p, 0), HeaderLg2(p.InitialWord(0));
    WordParts(p.InitialWord(0), seen, 0);
    WordParts(EmptyWord(lg2), lg2, 0);
    var d := c.Goto(0, ReadEmpty(req, 1, 0, 0));
    assert Moves(p, c, 0, Skip, d);
    ReachesNext(p, n, c, 0, Skip, d);
    var e := d.Goto(0, Reassign(req, 1, 0, 0, seen));
    assert Moves(p, d, 0, Skip, e);
    ReachesNext(p, n, d, 0, Skip, e);
    var f := e.Write(0, Superblock(EmptyWord(lg2), {})).Goto(0, PostHint(req, 1, 0, 0));
    assert Moves(p, e, 0, Skip, f);
    ReachesNext(p, n, e, 0, Skip, f);
    s := AfterReassign(p, n, f);
  }

  lemma AfterReassign(p: Pool, n: nat, f: State) returns (s: State)
    requires p.Valid() && Shape(p, n, f) && 0 < n && (forall t :: 0 < t < n ==> f.threads[t].Idle?)
    requires f.threads[0] == PostHint(SmallRequest(p, 0), 1, 0, 0) && f.sbs[0] == Superblock(EmptyWord(SmallLg2(p)), {})
    ensures Filled(p, n, s, 1)
  {
    hide Reaches, Pow2;
    SmallFacts(p);
    var lg2, req := SmallLg2(p), SmallRequest(p, 0);
    WordParts(EmptyWord(lg2), lg2, 0);
    var g := f.(hints := f.hints[0 := 0]).Goto(0, Top(req, 1, 0, lg2));
    assert Moves(p, f, 0, Skip, g);
    ReachesNext(p, n, f, 0, Skip, g);
    var h := g.Goto(0, Probe(req, 1, -1, 0, lg2));
    assert Moves(p, g, 0, Skip, h);
    ReachesNext(p, n, g, 0, Skip, h);
    var i := h.Goto(0, Claim(req, 1, -1, 0, lg2));
    assert Moves(p, h, 0, Skip, i);
    ReachesNext(p, n, h, 0, Skip, i);
    s := ClaimTakes(p, n, i, 0, 0, -1);
  }

  // ---------------------------------------------------------------- counting in on a full superblock

  /** Superblock 0 is full, and the first j threads have counted themselves in on it. */
  ghost predicate Crowded(p: Pool, n: nat, s: State, j: nat)
    requires p.Valid()
  {
    && Shape(p, n, s) && j <= n && (forall t :: j <= t < n ==> s.threads[t].Idle?)
    && s.sbs[0].word == EmptyWord(SmallLg2(p)) + Pow2(SmallLg2(p)) + j && Block(0, 0, SmallLg2(p), 1) in s.live
  }

  lemma CrowdNext(p: Pool, n: nat, s: State, j: nat) returns (s': State)
    requires p.Valid() && Crowded(p, n, s, j) && j < n && Pow2(SmallLg2(p)) + j < USED_SPAN
    ensures Crowded(p, n, s', j + 1)
  {
    hide Reaches, Pow2;
    SmallFacts(p);
    var lg2, req := SmallLg2(p), SmallRequest(p, 0);
    WordParts(s.sbs[0].word, lg2, Pow2(lg2) + j);
    var s1 := ToClaim(p, n, s, j, 0);
    DivUnique(0, Pow2(lg2), 0, 0);
    s' := s1.Write(0, Superblock(s1.sbs[0].word + 1, s1.sbs[0].bits)).Goto(j, Unclaim(req, 1, 0, 0));
    assert Moves(p, s1, j, Skip, s');
    ReachesNext(p, n, s1, j, Skip, s');
  }

  lemma {:induction false} CrowdAll(p: Pool, n: nat, s: State, j: nat) returns (s': State)
    requires p.Valid() && Crowded(p, n, s, j) && USED_SPAN - Pow2(SmallLg2(p)) <= n &&
      Pow2(SmallLg2(p)) + j <= USED_SPAN
    ensures Pow2(SmallLg2(p)) <= USED_SPAN && Crowded(p, n, s', USED_SPAN - Pow2(SmallLg2(p)))
    decreases USED_SPAN - j
  {
    hide Reaches, Pow2;
    if Pow2(SmallLg2(p)) + j == USED_SPAN {
      s' := s;
    } else {
      s' := CrowdNext(p, n, s, j);
      s' := CrowdAll(p, n, s', j + 1);
    }
  }

  /** One thread too many, and a run ends with a live block in a superblock of another block size. */
  lemma TooManyThreads(p: Pool, n: nat) returns (s: State)
    requires p.Valid() && !ThreadsFit(p, n)
    ensures Reaches(p, n, s) && |s.sbs| == p.sbCount
    ensures Block(0, 0, SmallLg2(p), 1) in s.live && s.sbs[0].Lg2() != SmallLg2(p)
  {
    hide Reaches, Pow2, Pool.FirstSuperblock, Pool.SizeIndexOf;
    SmallFacts(p);
    var lg2 := SmallLg2(p);
    var k := 0;
    if p.FirstSuperblock(1) == 0 && p.Sizes() > 1 {
      s := ReassignFirst(p, n);
      k := 1;
    } else {
      s := Init(p, n);
      InitShape(p, n);
      RunsCoverPool(p);
      RunIsUnique(p, 0, 0);
      assert p.InitialWord(0) == EmptyWord(lg2);
    }
    s := FillAll(p, n, s, k);
    s := CrowdAll(p, n, s, 0);
    assert s.sbs[0].word == EmptyWord(lg2 + 1);
    WordParts(s.sbs[0].word, lg2 + 1, 0);
  }

  ghost predicate SizesKept(s: State) {
    forall b :: b in s.live ==> b.sb < |s.sbs| && s.sbs[b.sb].Lg2() == b.lg2
  }

  /**
   In every reachable state every live block's superblock has the block's size, exactly when the threads
   and the blocks of a superblock of the smallest size stay below 2^26 together.
   */
  lemma SizesKeptIffThreadsFit(p: Pool, n: nat)
    requires p.Valid()
    ensures (forall s :: Reaches(p, n, s) ==> SizesKept(s)) <==> ThreadsFit(p, n)
  {
    hide SizesKept, Inv;
    if ThreadsFit(p, n) {
      forall s | Reaches(p, n, s) ensures SizesKept(s) {
        var trace :| Behaviour(p, n, trace) && trace[|trace| - 1] == s;
        KeptAlong(p, n, trace, |trace| - 1);
      }
    } else {
      var s := TooManyThreads(p, n);
      assert !SizesKept(s) by { Unkept(s, Block(0, 0, SmallLg2(p), 1)); }
    }
  }

  lemma KeptAlong(p: Pool, n: nat, trace: seq<State>, k: nat)
    requires p.Valid() && ThreadsFit(p, n) && Behaviour(p, n, trace) && k < |trace|
    ensures SizesKept(trace[k])
  {
    forall b | b in trace[k].live ensures b.sb < |trace[k].sbs| && trace[k].sbs[b.sb].Lg2() == b.lg2 {
      LiveBlockKeepsItsSize(p, n, trace, k, b);
    }
  }

  lemma Unkept(s: State, b: Block)
    requires b in s.live && b.sb < |s.sbs| && s.sbs[b.sb].Lg2() != b.lg2
    ensures !SizesKept(s)
  {}
}
