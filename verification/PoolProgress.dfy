/**
 Progress of a thread that runs alone: from every reachable state its call returns, except a call of
 allocate with a negative attempt limit that no superblock can serve.
 */
module PoolProgress {
  import opened Arith
  import opened Powers
  import opened PoolGeometry
  import opened BitSearch
  import opened PoolMachine
  import opened PoolSafety
  import opened PoolTheorems
  import opened PoolLimit

  /** Moving alone from s, thread t is back with its caller after at most n steps. */
  ghost predicate ReturnsIn(p: Pool, s: State, t: nat, n: nat)
    requires p.Valid()
    decreases n
  {
    && t < |s.threads|
    && (s.threads[t].Idle? || (n > 0 && exists s' :: Moves(p, s, t, Skip, s') && ReturnsIn(p, s', t, n - 1)))
  }

  ghost predicate Returns(p: Pool, s: State, t: nat)
    requires p.Valid()
  {
    exists n: nat :: ReturnsIn(p, s, t, n)
  }

  lemma {:induction false} ReturnsLater(p: Pool, s: State, t: nat, m: nat, n: nat)
    requires p.Valid() && ReturnsIn(p, s, t, m) && m <= n
    ensures ReturnsIn(p, s, t, n)
    decreases m
  {
    hide Moves;
    if s.threads[t].Idle? {
    } else {
      var s' :| Moves(p, s, t, Skip, s') && ReturnsIn(p, s', t, m - 1);
      ReturnsLater(p, s', t, m - 1, n - 1);
    }
  }

  /** The next step of thread t. */
  lemma Forward(p: Pool, s: State, t: nat) returns (s': State)
    requires Inv(p, s) && t < |s.threads|
    ensures p.Valid() && InRange(p, s, s.threads[t]) && s' == Step(p, s, t, Skip) && Moves(p, s, t, Skip, s')
    ensures Inv(p, s') && |s'.threads| == |s.threads| && |s'.sbs| == |s.sbs| == p.sbCount
  {
    hide Inv, Step;
    InvSizes(p, s);
    InvInRange(p, s, t);
    StepKeepsInv(p, s, t, Skip);
    s' := Step(p, s, t, Skip);
    assert |s'.threads| == |s.threads| && |s'.sbs| == |s.sbs| by { StepSizes(p, s, t); }
  }

  lemma InvSizes(p: Pool, s: State)
    requires Inv(p, s)
    ensures p.Valid() && |s.sbs| == p.sbCount && |s.hints| == p.Sizes()
  {}

  lemma StepSizes(p: Pool, s: State, t: nat)
    requires p.Valid() && t < |s.threads| && InRange(p, s, s.threads[t])
    ensures var s' := Step(p, s, t, Skip); |s'.threads| == |s.threads| && |s'.sbs| == |s.sbs|
  {
    hide Pow2, Pool.Address, FetchAdd;
  }

  lemma Back(p: Pool, s: State, t: nat, s': State, n: nat)
    requires p.Valid() && Moves(p, s, t, Skip, s') && ReturnsIn(p, s', t, n)
    ensures ReturnsIn(p, s, t, n + 1)
  {
    hide Moves;
    assert t < |s.threads| by { MoverIsThread(p, s, t, s'); }
  }

  lemma MoverIsThread(p: Pool, s: State, t: nat, s': State)
    requires p.Valid() && Moves(p, s, t, Skip, s')
    ensures t < |s.threads|
  {}

  lemma IdleReturns(p: Pool, s: State, t: nat)
    requires p.Valid() && t < |s.threads| && s.threads[t].Idle?
    ensures ReturnsIn(p, s, t, 0)
  {}

  // ---------------------------------------------------------------- a granted block is found

  lemma {:induction false} SearchReturns(p: Pool, s: State, t: nat, start: nat, seen: nat, target: nat)
    requires Inv(p, s) && t < |s.threads| && s.threads[t].SetBit? && s.threads[t].id < |s.sbs|
    requires var th, count := s.threads[t], WordCount(s.threads[t].want);
      && th.bit < Pow2(th.want) && start < count && seen <= target < count
      && th.bit / BITS_PER_INT == Wrap(start, seen, count)
      && !WordFull(s.sbs[th.id].bits, Wrap(start, target, count))
    ensures ReturnsIn(p, s, t, target - seen + 2)
    decreases target - seen
  {
    hide Inv, Moves, WordFull, Wrap, WordCount, Pow2, FirstZero, BitSet, ReturnsIn;
    var SetBit(req, id, want, bit) := s.threads[t];
    var bits := s.sbs[id].bits;
    var s' := Forward(p, s, t);
    if bit !in bits {
      IdleReturns(p, s', t);
      Back(p, s, t, s', 0);
      ReturnsLater(p, s, t, 1, target - seen + 2);
    } else {
      var free := ClaimantFree(p, s, t);
      NextInBound(bits, bit, want, free);
      if WordFull(bits, bit / BITS_PER_INT) {
        NextWord(bits, bit, want, start, seen);
        assert seen != target;
        SearchReturns(p, s', t, start, seen + 1, target);
        Back(p, s, t, s', target - seen + 1);
      } else {
        var s'' := Forward(p, s', t);
        IdleReturns(p, s'', t);
        Back(p, s', t, s'', 0);
        Back(p, s, t, s', 1);
        ReturnsLater(p, s, t, 2, target - seen + 2);
      }
    }
  }

  lemma ClaimantFree(p: Pool, s: State, t: nat) returns (free: nat)
    requires Inv(p, s) && t < |s.threads| && s.threads[t].SetBit?
    ensures p.Valid()
    ensures var th := s.threads[t];
      && th.id < |s.sbs| && th.bit < Pow2(th.want) && free < Pow2(th.want) && free !in s.sbs[th.id].bits
  {
    assert AllocOk(p, s.sbs, s.threads[t]);
    free := ClaimantHasFreeBlock(p, s, t);
  }

  /** A thread that is counted in finds its bit after at most one step a word of the bitset, and one more. */
  lemma GrantedReturns(p: Pool, s: State, t: nat)
    requires Inv(p, s) && t < |s.threads| && s.threads[t].SetBit?
    ensures ReturnsIn(p, s, t, WordCount(s.threads[t].want) + 1)
  {
    hide Inv, WordFull, Wrap, WordCount, Pow2, ReturnsIn;
    var SetBit(req, id, want, bit) := s.threads[t];
    var free := ClaimantFree(p, s, t);
    FirstWord(bit, want);
    var target := FreeWord(s.sbs[id].bits, want, bit / BITS_PER_INT, free);
    SearchReturns(p, s, t, bit / BITS_PER_INT, 0, target);
    ReturnsLater(p, s, t, target + 2, WordCount(want) + 1);
  }

  // ---------------------------------------------------------------- a release runs through

  lemma FreeCountReturns(p: Pool, s: State, t: nat)
    requires Inv(p, s) && t < |s.threads| && s.threads[t].FreeCount?
    ensures ReturnsIn(p, s, t, 1)
  {
    hide Inv, Moves, ReturnsIn;
    var s' := Forward(p, s, t);
    IdleReturns(p, s', t);
    Back(p, s, t, s', 0);
  }

  /** Where a release stands after its next step. */
  lemma ReleaseGoesOn(p: Pool, s: State, t: nat)
    requires Inv(p, s) && t < |s.threads| && s.threads[t].Frees()
    ensures InRange(p, s, s.threads[t])
    ensures var th, th' := s.threads[t], Step(p, s, t, Skip).threads[t];
      (th.FreeRead? ==> th'.FreeCheck?) && (th.FreeCheck? ==> th'.FreeBit?) && (th.FreeBit? ==> th'.FreeCount?)
  {
    InvInRange(p, s, t);
    assert OwnsFreed(s, t) && BlockOk(p, s.sbs, s.threads[t].block) && FreeOk(p, s.sbs, s.threads[t]);
    match s.threads[t]
    case FreeRead(_, _) => FreeReadKeepsInv(p, s, t);
    case FreeCheck(_, _, _, _) => FreeCheckKeepsInv(p, s, t);
    case FreeBit(_, _, _) => FreeBitKeepsInv(p, s, t);
  }

  /** A release returns after at most four steps. */
  lemma ReleaseReturns(p: Pool, s: State, t: nat)
    requires Inv(p, s) && t < |s.threads| && s.threads[t].Frees()
    ensures ReturnsIn(p, s, t, 4)
    decreases if s.threads[t].FreeRead? then 2 else if s.threads[t].FreeCheck? then 1 else 0
  {
    hide Inv, Moves, Step, ReturnsIn;
    ReleaseGoesOn(p, s, t);
    var s' := Forward(p, s, t);
    if s.threads[t].FreeBit? {
      FreeCountReturns(p, s', t);
      Back(p, s, t, s', 1);
      ReturnsLater(p, s, t, 2, 4);
    } else if s.threads[t].FreeCheck? {
      ReleaseGoesOn(p, s', t);
      var s'' := Forward(p, s', t);
      FreeCountReturns(p, s'', t);
      Back(p, s', t, s'', 1);
      Back(p, s, t, s', 2);
      ReturnsLater(p, s, t, 3, 4);
    } else {
      ReleaseGoesOn(p, s', t);
      var s2 := Forward(p, s', t);
      ReleaseGoesOn(p, s2, t);
      var s3 := Forward(p, s2, t);
      FreeCountReturns(p, s3, t);
      Back(p, s2, t, s3, 1);
      Back(p, s', t, s2, 2);
      Back(p, s, t, s', 3);
    }
  }

  // ---------------------------------------------------------------- a usable superblock is taken

  /** What a thread inside allocate may use of the invariant. */
  lemma PointFacts(p: Pool, s: State, t: nat)
    requires Inv(p, s) && t < |s.threads|
    ensures p.Valid() && |s.sbs| == p.sbCount && |s.hints| == p.Sizes() && AllocOk(p, s.sbs, s.threads[t])
    ensures forall k :: 0 <= k < |s.hints| ==> s.hints[k] < p.sbCount
  {}

  lemma WordFacts(p: Pool, s: State, i: nat)
    requires Inv(p, s) && i < |s.sbs|
    ensures p.Valid() && p.CountOk(s.sbs[i].Lg2()) && s.sbs[i].word < WORD_SPAN
    ensures s.sbs[i].word == EmptyWord(s.sbs[i].Lg2()) + Used(s.sbs[i].word)
    ensures FetchAdd(FetchAdd(s.sbs[i].word, 1), -1) == s.sbs[i].word
  {
    hide Pow2, FetchAdd, Used, HeaderLg2, Counting, Claiming;
    var sb := s.sbs[i];
    assert SuperblockOk(p, sb, Counting(s.threads, i), Claiming(s.threads, i));
    UsedBelow(sb.word);
    UpAndDown(sb.word);
  }

  lemma UsedBelow(word: nat)
    ensures Used(word) < USED_SPAN
  {}

  lemma UpAndDown(word: nat)
    requires word < WORD_SPAN
    ensures FetchAdd(FetchAdd(word, 1), -1) == word
  {}

  /** Superblock id has the wanted block size and room. */
  ghost predicate Room(s: State, id: nat, want: nat) {
    id < |s.sbs| && s.sbs[id].Lg2() == want && Used(s.sbs[id].word) < Pow2(want)
  }

  lemma ClaimReturns(p: Pool, s: State, t: nat) returns (n: nat)
    requires Inv(p, s) && t < |s.threads| && s.threads[t].Claim? && Room(s, s.threads[t].id, s.threads[t].want)
    ensures p.Valid() && ReturnsIn(p, s, t, n)
  {
    hide Inv, Moves, Pow2, ReturnsIn, WordCount;
    PointFacts(p, s, t);
    var Claim(req, attempts, hint, id, want) := s.threads[t];
    var s' := Forward(p, s, t);
    DivMod(req.clock, Pow2(want));
    assert s'.threads[t].SetBit?;
    GrantedReturns(p, s', t);
    n := WordCount(want) + 2;
    Back(p, s, t, s', n - 1);
  }

  lemma ProbeReturns(p: Pool, s: State, t: nat) returns (n: nat)
    requires Inv(p, s) && t < |s.threads| && s.threads[t].Probe? && Room(s, s.threads[t].id, s.threads[t].want)
    ensures p.Valid() && ReturnsIn(p, s, t, n)
  {
    hide Inv, Moves, Pow2, ReturnsIn;
    var s' := Forward(p, s, t);
    n := ClaimReturns(p, s', t);
    Back(p, s, t, s', n);
    n := n + 1;
  }

  lemma TopReturns(p: Pool, s: State, t: nat) returns (n: nat)
    requires Inv(p, s) && t < |s.threads| && s.threads[t].Top?
    requires 0 <= s.threads[t].sb && Room(s, s.threads[t].sb, s.threads[t].want)
    ensures p.Valid() && ReturnsIn(p, s, t, n)
  {
    hide Inv, Moves, Pow2, ReturnsIn;
    var s' := Forward(p, s, t);
    if s.threads[t].attempts == 0 {
      IdleReturns(p, s', t);
      n := 0;
    } else {
      n := ProbeReturns(p, s', t);
    }
    Back(p, s, t, s', n);
    n := n + 1;
  }

  lemma PostHintReturns(p: Pool, s: State, t: nat) returns (n: nat)
    requires Inv(p, s) && t < |s.threads| && s.threads[t].PostHint?
    requires Room(s, s.threads[t].id, s.threads[t].req.lg2)
    ensures p.Valid() && ReturnsIn(p, s, t, n)
  {
    hide Inv, Moves, Pow2, ReturnsIn;
    var s' := Forward(p, s, t);
    n := TopReturns(p, s', t);
    Back(p, s, t, s', n);
    n := n + 1;
  }

  /** A reassignment that succeeds leads to a block of the superblock it emptied. */
  lemma ReassignReturns(p: Pool, s: State, t: nat) returns (n: nat)
    requires Inv(p, s) && t < |s.threads| && s.threads[t].Reassign? && s.threads[t].id < |s.sbs|
    requires s.sbs[s.threads[t].id].word == EmptyWord(s.threads[t].seen)
    ensures p.Valid() && ReturnsIn(p, s, t, n)
  {
    hide Inv, Moves, Pow2, ReturnsIn;
    PointFacts(p, s, t);
    var s' := Forward(p, s, t);
    WordParts(EmptyWord(s.threads[t].req.lg2), s.threads[t].req.lg2, 0);
    n := PostHintReturns(p, s', t);
    Back(p, s, t, s', n);
    n := n + 1;
  }

  lemma ReadEmptyReturns(p: Pool, s: State, t: nat) returns (n: nat)
    requires Inv(p, s) && t < |s.threads| && s.threads[t].ReadEmpty?
    requires s.threads[t].id < |s.sbs| && Used(s.sbs[s.threads[t].id].word) == 0
    ensures p.Valid() && ReturnsIn(p, s, t, n)
  {
    hide Inv, Moves, Pow2, ReturnsIn;
    WordFacts(p, s, s.threads[t].id);
    var s' := Forward(p, s, t);
    n := ReassignReturns(p, s', t);
    Back(p, s, t, s', n);
    n := n + 1;
  }

  // ---------------------------------------------------------------- what a call alone finds

  /** The thread is between the start and the end of a call of allocate and has no block yet. */
  predicate Allocating(th: Thread) {
    th.Top? || th.Probe? || th.Claim? || th.Unclaim? || th.Scan? || th.ReadEmpty? || th.Reassign? || th.PostHint?
  }

  /** The word of superblock x without the count that thread t itself is about to take back. */
  function WordFor(s: State, t: nat, x: nat): nat
    requires t < |s.threads| && x < |s.sbs|
  {
    if s.threads[t].Unclaim? && s.threads[t].id == x then FetchAdd(s.sbs[x].word, -1) else s.sbs[x].word
  }

  /** Superblock x can serve thread t's call. */
  ghost predicate ServesCall(s: State, t: nat, x: nat)
    requires t < |s.threads| && Allocating(s.threads[t])
  {
    x < |s.sbs| && CanServe(WordFor(s, t, x), s.threads[t].req.lg2)
  }

  /** A step that neither takes a block nor reassigns a superblock leaves what a call can find. */
  lemma SameWords(p: Pool, s: State, t: nat, x: nat)
    requires Inv(p, s) && t < |s.threads| && Allocating(s.threads[t]) && x < |s.sbs| && InRange(p, s, s.threads[t])
    requires Allocating(Step(p, s, t, Skip).threads[t])
    requires s.threads[t].Reassign? ==> s.sbs[s.threads[t].id].word != EmptyWord(s.threads[t].seen)
    ensures |Step(p, s, t, Skip).sbs| == |s.sbs| && WordFor(Step(p, s, t, Skip), t, x) == WordFor(s, t, x)
    ensures Step(p, s, t, Skip).threads[t].req == s.threads[t].req
  {
    hide Inv, Pow2, FetchAdd, Used, HeaderLg2;
    WordFacts(p, s, x);
  }

  /** Where a search that began while thread t was alone stands, and what it knows. */
  ghost predicate Fresh(p: Pool, s: State, t: nat)
    requires p.Valid()
  {
    && t < |s.threads| && s.threads[t].Scan? && |s.sbs| == p.sbCount
    && var th := s.threads[t];
    && 0 <= HintIndex(p, th.req) < p.Sizes() && th.i <= p.sbCount
    && -1 <= th.empty < p.sbCount && -1 <= th.large < p.sbCount
    && var begin := p.FirstSuperblock(HintIndex(p, th.req));
    && begin < p.sbCount && th.id == (if begin + th.i < p.sbCount then begin + th.i else begin + th.i - p.sbCount)
    && (forall x: nat :: x < p.sbCount && Visited(x, begin, th.i, p.sbCount) ==> !Room(s, x, th.req.lg2))
    && (0 <= th.empty ==> Used(s.sbs[th.empty].word) == 0)
    && (0 <= th.large ==> Room(s, th.large, th.largeLg2))
    && (th.empty == -1 && th.large == -1 ==>
          forall x: nat :: x < p.sbCount && Visited(x, begin, th.i, p.sbCount) ==> !CanServe(s.sbs[x].word, th.req.lg2))
  }

  lemma BeginIsFresh(p: Pool, s: State, t: nat, req: Request, attempts: int, hint: int)
    requires Inv(p, s) && t < |s.threads| && 0 <= HintIndex(p, req) < p.Sizes()
    requires s.threads[t] == BeginScan(p, req, attempts, hint)
    ensures Fresh(p, s, t)
  {
    SearchStartInRange(p, HintIndex(p, req));
  }

  lemma FreshStep(p: Pool, s: State, t: nat)
    requires Inv(p, s) && Fresh(p, s, t) && InRange(p, s, s.threads[t]) && s.threads[t].i < p.sbCount
    requires !Room(s, s.threads[t].id, s.threads[t].req.lg2)
    ensures Fresh(p, Step(p, s, t, Skip), t) && Step(p, s, t, Skip).threads[t].i == s.threads[t].i + 1
    ensures Step(p, s, t, Skip).threads[t].attempts == s.threads[t].attempts
  {
    hide Inv, Pow2, Visited, Used, HeaderLg2, Pool.FirstSuperblock;
    var th := s.threads[t];
    var begin := p.FirstSuperblock(HintIndex(p, th.req));
    forall x: nat | x < p.sbCount
      ensures Visited(x, begin, th.i + 1, p.sbCount) <==> Visited(x, begin, th.i, p.sbCount) || x == th.id
    {
      VisitedOne(x, begin, th.i, p.sbCount, th.id);
    }
    InvSizes(p, s);
    var s' := Step(p, s, t, Skip);
    var th' := s'.threads[t];
    assert th'.Scan? && th'.req == th.req && th'.i == th.i + 1 && s'.sbs == s.sbs;
    forall x: nat | x < p.sbCount && Visited(x, begin, th'.i, p.sbCount) ensures !Room(s', x, th'.req.lg2) {
      assert x == th.id || Visited(x, begin, th.i, p.sbCount);
    }
  }

  lemma VisitedOne(x: nat, begin: nat, i: nat, count: nat, id: nat)
    requires begin < count && i < count && x < count && id == if begin + i < count then begin + i else begin + i - count
    ensures Visited(x, begin, i + 1, count) <==> Visited(x, begin, i, count) || x == id
    ensures Visited(x, begin, count, count)
  {
    if begin <= x {
      assert x == id <==> x - begin == i;
    } else {
      assert x == id <==> x - begin + count == i;
    }
  }

  /** The attempts that are left to count down; a negative limit leaves none. */
  function Left(attempts: int): nat { if attempts > 0 then attempts else 0 }

  /** A fresh search ends with a block or uses up an attempt. */
  lemma {:induction false} FreshReturns(p: Pool, s: State, t: nat, x: nat) returns (n: nat)
    requires Inv(p, s) && Fresh(p, s, t) && (s.threads[t].attempts > 0 || ServesCall(s, t, x))
    ensures ReturnsIn(p, s, t, n)
    decreases Left(s.threads[t].attempts), 1, p.sbCount - s.threads[t].i
  {
    hide Inv, Moves, Pow2, ReturnsIn, Step, Used, HeaderLg2, Visited, Pool.FirstSuperblock, CanServe;
    var th := s.threads[t];
    var s' := Forward(p, s, t);
    if th.i < p.sbCount && !Room(s, th.id, th.req.lg2) {
      FreshStep(p, s, t);
      SameSearch(p, s, t, x);
      n := FreshReturns(p, s', t, x);
    } else {
      FreshEnds(p, s, t, x);
      if s'.threads[t].PostHint? {
        n := PostHintReturns(p, s', t);
      } else if s'.threads[t].ReadEmpty? {
        n := ReadEmptyReturns(p, s', t);
      } else if 0 <= s'.threads[t].sb {
        n := TopReturns(p, s', t);
      } else {
        n := LoopReturns(p, s', t, x);
      }
    }
    Back(p, s, t, s', n);
    n := n + 1;
  }

  lemma SameSearch(p: Pool, s: State, t: nat, x: nat)
    requires Inv(p, s) && Fresh(p, s, t) && InRange(p, s, s.threads[t]) && Step(p, s, t, Skip).threads[t].Scan?
    ensures ServesCall(s, t, x) ==> ServesCall(Step(p, s, t, Skip), t, x)
  {
    hide Inv, Pow2, Used, HeaderLg2, CanServe, Visited;
    if x < |s.sbs| { SameWords(p, s, t, x); }
  }

  /** The last step of a fresh search. */
  lemma FreshEnds(p: Pool, s: State, t: nat, x: nat)
    requires Inv(p, s) && Fresh(p, s, t) && InRange(p, s, s.threads[t])
    requires s.threads[t].i == p.sbCount || Room(s, s.threads[t].id, s.threads[t].req.lg2)
    ensures var th, s' := s.threads[t], Step(p, s, t, Skip);
      var th' := s'.threads[t];
      && (th'.PostHint? || th'.ReadEmpty? || th'.Top?)
      && (th'.PostHint? ==> Room(s', th'.id, th'.req.lg2))
      && (th'.ReadEmpty? ==> th'.id < |s'.sbs| && Used(s'.sbs[th'.id].word) == 0)
      && (th'.Top? && 0 <= th'.sb ==> Room(s', th'.sb, th'.want))
      && (th'.Top? && th'.sb < 0 ==> th'.attempts == th.attempts - 1 && !ServesCall(s, t, x))
  {
    hide Inv, Pow2, Used, HeaderLg2, Pool.FirstSuperblock;
  }

  /** From the top of the attempt loop up to the search. */
  lemma {:induction false} LoopReturns(p: Pool, s: State, t: nat, x: nat) returns (n: nat)
    requires Inv(p, s) && t < |s.threads|
    requires s.threads[t].Top? || s.threads[t].Probe? || s.threads[t].Claim? || s.threads[t].Unclaim?
    requires s.threads[t].attempts >= 0 || ServesCall(s, t, x)
    ensures p.Valid() && ReturnsIn(p, s, t, n)
    decreases Left(s.threads[t].attempts),
      if s.threads[t].Top? then 5 else if s.threads[t].Probe? then 4 else if s.threads[t].Claim? then 3 else 2, 0
  {
    hide Inv, Moves, Pow2, ReturnsIn, Step, Used, HeaderLg2, CanServe, Fresh, WordFor;
    var s' := Forward(p, s, t);
    if s.threads[t].Claim? && Room(s, s.threads[t].id, s.threads[t].want) {
      n := ClaimReturns(p, s, t);
    } else {
      LoopStep(p, s, t, x);
      if s'.threads[t].Idle? {
        IdleReturns(p, s', t);
        n := 0;
      } else if s'.threads[t].Scan? {
        n := FreshReturns(p, s', t, x);
      } else {
        n := LoopReturns(p, s', t, x);
      }
      Back(p, s, t, s', n);
      n := n + 1;
    }
  }

  lemma LoopStep(p: Pool, s: State, t: nat, x: nat)
    requires Inv(p, s) && t < |s.threads| && InRange(p, s, s.threads[t])
    requires s.threads[t].Top? || s.threads[t].Probe? || s.threads[t].Claim? || s.threads[t].Unclaim?
    requires s.threads[t].Claim? ==> !Room(s, s.threads[t].id, s.threads[t].want)
    requires s.threads[t].attempts >= 0 || ServesCall(s, t, x)
    ensures p.Valid() && Inv(p, Step(p, s, t, Skip))
    ensures var th, s' := s.threads[t], Step(p, s, t, Skip);
      var th' := s'.threads[t];
      && (th.Top? ==> if th.attempts == 0 then th'.Idle? else th'.Probe?) && (th.Probe? ==> th'.Claim? || th'.Scan?)
      && (th.Claim? ==> th'.Unclaim?) && (th.Unclaim? ==> th'.Scan?) && (th'.Scan? ==> Fresh(p, s', t))
      && (!th'.Idle? ==> th'.attempts == th.attempts != 0 && (th.attempts > 0 || ServesCall(s', t, x)))
  {
    hide Inv, Pow2, Used, HeaderLg2, CanServe, Fresh, WordFor, FetchAdd, Pool.FirstSuperblock;
    PointFacts(p, s, t);
    StepKeepsInv(p, s, t, Skip);
    var th, s' := s.threads[t], Step(p, s, t, Skip);
    if th.Claim? { DivMod(th.req.clock, Pow2(th.want)); }
    if s'.threads[t].Scan? { BeginIsFresh(p, s', t, th.req, th.attempts, th.hint); }
    if !s'.threads[t].Idle? && x < |s.sbs| { SameWords(p, s, t, x); }
  }

  /** A search that began before the others stopped may keep a superblock that has changed since. */
  lemma {:induction false} StaleReturns(p: Pool, s: State, t: nat, x: nat) returns (n: nat)
    requires Inv(p, s) && t < |s.threads|
    requires s.threads[t].Scan? || s.threads[t].ReadEmpty? || s.threads[t].Reassign? || s.threads[t].PostHint?
    requires s.threads[t].attempts >= 0 || ServesCall(s, t, x)
    ensures p.Valid() && ReturnsIn(p, s, t, n)
    decreases
      if s.threads[t].Scan? then 3 else if s.threads[t].ReadEmpty? then 2 else if s.threads[t].Reassign? then 1 else 0,
      if s.threads[t].Scan? && s.threads[t].i < p.sbCount then p.sbCount - s.threads[t].i else 0
  {
    hide Inv, Moves, Pow2, ReturnsIn, Step, Used, HeaderLg2, CanServe, WordFor;
    var s' := Forward(p, s, t);
    if s.threads[t].Reassign? && s.sbs[s.threads[t].id].word == EmptyWord(s.threads[t].seen) {
      n := ReassignReturns(p, s, t);
    } else {
      StaleStep(p, s, t, x);
      if s'.threads[t].Top? { n := LoopReturns(p, s', t, x); } else { n := StaleReturns(p, s', t, x); }
      Back(p, s, t, s', n);
      n := n + 1;
    }
  }

  lemma StaleStep(p: Pool, s: State, t: nat, x: nat)
    requires Inv(p, s) && t < |s.threads| && InRange(p, s, s.threads[t])
    requires s.threads[t].Scan? || s.threads[t].ReadEmpty? || s.threads[t].Reassign? || s.threads[t].PostHint?
    requires s.threads[t].Reassign? ==> s.sbs[s.threads[t].id].word != EmptyWord(s.threads[t].seen)
    requires s.threads[t].attempts >= 0 || ServesCall(s, t, x)
    ensures var th, s' := s.threads[t], Step(p, s, t, Skip);
      var th' := s'.threads[t];
      && (th'.Top? || th'.PostHint? || th'.ReadEmpty? || th'.Reassign? || th'.Scan?)
      && (th.PostHint? ==> th'.Top?) && (th.Reassign? ==> th'.Top?) && (th.ReadEmpty? ==> th'.Reassign?)
      && (th'.Scan? ==> th.Scan? && th.i < p.sbCount && th'.i == th.i + 1)
      && (th'.attempts >= 0 || ServesCall(s', t, x))
  {
    hide Inv, Pow2, Used, HeaderLg2, CanServe, WordFor;
    PointFacts(p, s, t);
    if x < |s.sbs| { SameWords(p, s, t, x); }
  }

  // ---------------------------------------------------------------- the calls that never return

  /** A call with a negative limit that no superblock can serve. */
  ghost predicate Hopeless(s: State, t: nat) {
    && t < |s.threads| && Allocating(s.threads[t]) && s.threads[t].attempts < 0
    && forall x: nat :: !ServesCall(s, t, x)
  }

  /** The thread's own step leaves it so. */
  lemma HopelessStep(p: Pool, s: State, t: nat, cmd: Command, s': State)
    requires Inv(p, s) && Hopeless(s, t) && Moves(p, s, t, cmd, s')
    ensures Inv(p, s') && Hopeless(s', t)
  {
    hide Inv, Pow2;
    var th := s.threads[t];
    PointFacts(p, s, t);
    StepKeepsInv(p, s, t, cmd);
    assert s' == Step(p, s, t, Skip);
    HopelessMoves(p, s, t);
    forall x: nat ensures !ServesCall(s', t, x) {
      if x < |s.sbs| {
        assert !ServesCall(s, t, x);
        SameWords(p, s, t, x);
      }
    }
  }

  lemma HopelessMoves(p: Pool, s: State, t: nat)
    requires Inv(p, s) && Hopeless(s, t) && InRange(p, s, s.threads[t])
    ensures var th, th' := s.threads[t], Step(p, s, t, Skip).threads[t];
      && Allocating(th') && th'.attempts < 0 && |Step(p, s, t, Skip).sbs| == |s.sbs|
      && (th.Reassign? ==> s.sbs[th.id].word != EmptyWord(th.seen))
  {
    hide Inv, Pow2, FetchAdd;
    var th := s.threads[t];
    PointFacts(p, s, t);
    if th.Claim? {
      assert !ServesCall(s, t, th.id);
      WordFacts(p, s, th.id);
    } else if th.Reassign? {
      assert !ServesCall(s, t, th.id);
      WordParts(EmptyWord(th.seen), th.seen, 0);
    }
  }

  lemma {:induction false} NeverReturnsIn(p: Pool, s: State, t: nat, n: nat)
    requires Inv(p, s) && Hopeless(s, t)
    ensures p.Valid() && !ReturnsIn(p, s, t, n)
    decreases n
  {
    hide Inv, Moves;
    PointFacts(p, s, t);
    if n == 0 {
    } else {
      forall s' | Moves(p, s, t, Skip, s') ensures !ReturnsIn(p, s', t, n - 1) {
        HopelessStep(p, s, t, Skip, s');
        NeverReturnsIn(p, s', t, n - 1);
      }
    }
  }

  /**
   From every reachable state, a thread that runs alone returns to its caller, except exactly where its
   call has a negative attempt limit and no superblock can serve it.
   */
  lemma AloneReturnsIff(p: Pool, n: nat, trace: seq<State>, k: nat, t: nat)
    requires p.Valid() && ThreadsFit(p, n) && Behaviour(p, n, trace) && k < |trace|
    requires t < |trace[k].threads| && !trace[k].threads[t].Aborted?
    ensures Returns(p, trace[k], t) <==>
      (Allocating(trace[k].threads[t]) && trace[k].threads[t].attempts < 0 ==>
         exists x: nat :: ServesCall(trace[k], t, x))
  {
    hide Inv, Behaviour, ReturnsIn, ServesCall;
    EveryStateInv(p, n, trace, k);
    var s := trace[k];
    var th := s.threads[t];
    if th.Idle? {
      IdleReturns(p, s, t);
    } else if th.SetBit? {
      GrantedReturns(p, s, t);
    } else if th.Frees() {
      ReleaseReturns(p, s, t);
    } else if th.FreeCount? {
      FreeCountReturns(p, s, t);
    } else if Hopeless(s, t) {
      forall m: nat ensures !ReturnsIn(p, s, t, m) { NeverReturnsIn(p, s, t, m); }
    } else {
      var x: nat :| th.attempts >= 0 || ServesCall(s, t, x);
      var m: nat;
      if th.Top? || th.Probe? || th.Claim? || th.Unclaim? {
        m := LoopReturns(p, s, t, x);
      } else {
        m := StaleReturns(p, s, t, x);
      }
    }
  }

  ghost predicate MovedBy(p: Pool, s: State, t: nat, s': State)
    requires p.Valid()
  {
    exists cmd :: Moves(p, s, t, cmd, s')
  }

  /** While only thread t moves, a hopeless call stays so. */
  lemma {:induction false} NeverReturns(p: Pool, n: nat, trace: seq<State>, j: nat, k: nat, t: nat)
    requires p.Valid() && ThreadsFit(p, n) && Behaviour(p, n, trace) && j <= k < |trace| && Hopeless(trace[j], t)
    requires forall l: nat :: j <= l < k ==> MovedBy(p, trace[l], t, trace[l + 1])
    ensures Hopeless(trace[k], t)
    decreases k
  {
    hide Inv, Behaviour, Moves, Hopeless;
    if k == j {
    } else {
      NeverReturns(p, n, trace, j, k - 1, t);
      EveryStateInv(p, n, trace, k - 1);
      assert MovedBy(p, trace[k - 1], t, trace[k - 1 + 1]);
      var cmd :| Moves(p, trace[k - 1], t, cmd, trace[k]);
      HopelessStep(p, trace[k - 1], t, cmd, trace[k]);
    }
  }

  lemma PrefixBehaves(p: Pool, n: nat, trace: seq<State>, k: nat)
    requires p.Valid() && Behaviour(p, n, trace) && k < |trace|
    ensures Behaviour(p, n, trace[..k + 1])
  {
    var prefix := trace[..k + 1];
    forall i | 0 <= i < |prefix| - 1 ensures Next(p, prefix[i], prefix[i + 1]) {
      assert Next(p, trace[i], trace[i + 1]);
    }
  }

  /**
   A call of allocate by a thread that then runs alone returns exactly when its attempt limit is not
   negative or some superblock can serve the size at the time of the call.
   */
  lemma AllocateReturnsIff(p: Pool, n: nat, trace: seq<State>, k: nat, t: nat, size: nat, limit: int, clock: nat)
    requires p.Valid() && ThreadsFit(p, n) && Behaviour(p, n, trace) && k < |trace|
    requires t < |trace[k].threads| && trace[k].threads[t].Idle? && 1 <= size <= Pow2(p.maxLg2)
    ensures Returns(p, StepIdle(p, trace[k], t, Allocate(size, limit, clock)), t) <==>
      (limit < 0 ==> exists x :: 0 <= x < |trace[k].sbs| && CanServe(trace[k].sbs[x].word, p.CountFor(size)))
  {
    hide Inv, Behaviour, Returns, Pow2, CanServe;
    EveryStateInv(p, n, trace, k);
    var s, cmd := trace[k], Allocate(size, limit, clock);
    InvInRange(p, s, t);
    RequestFits(p, size);
    var s' := StepIdle(p, s, t, cmd);
    assert s'.threads[t] == Top(Request(size, p.CountFor(size), clock), limit, -1, p.CountFor(size)) && s'.sbs == s.sbs;
    assert Moves(p, s, t, cmd, s');
    PrefixBehaves(p, n, trace, k);
    TraceGoesOn(p, n, trace[..k + 1], t, cmd, s');
    AloneReturnsIff(p, n, trace[..k + 1] + [s'], k + 1, t);
    if x :| 0 <= x < |s.sbs| && CanServe(s.sbs[x].word, p.CountFor(size)) { assert ServesCall(s', t, x); }
    if x: nat :| ServesCall(s', t, x) { assert x < |s.sbs| && CanServe(s.sbs[x].word, p.CountFor(size)); }
  }

  lemma TraceTo(p: Pool, n: nat, s: State) returns (trace: seq<State>)
    requires p.Valid() && Reaches(p, n, s)
    ensures trace != [] && Behaviour(p, n, trace) && trace[|trace| - 1] == s
  {
    trace :| Behaviour(p, n, trace) && trace[|trace| - 1] == s;
  }

  /** The state of the smallest pool, one block in one superblock, once its only thread holds that block. */
  lemma OnlyBlockTaken() returns (s: State)
    ensures Pool(1, 0, 0, 0).Valid() && Reaches(Pool(1, 0, 0, 0), 1, s)
    ensures |s.sbs| == 1 && s.sbs[0].word == EmptyWord(0) + 1 && s.threads == [Idle]
  {
    hide Reaches, Pow2, Pool.FirstSuperblock, Pool.SizeIndexOf;
    var p := Pool(1, 0, 0, 0);
    Pow2Values();
    InitShape(p, 1);
    RunsCoverPool(p);
    RunIsUnique(p, 0, 0);
    assert p.InitialWord(0) == EmptyWord(SmallLg2(p));
    var first := Init(p, 1);
    assert Filled(p, 1, first, 0);
    s := FillAll(p, 1, first, 0);
    assert s.threads == [Idle];
  }

  /** A call that never returns: the only block of the smallest pool is taken, and the limit is minus one. */
  lemma NeverReturnsExample() returns (s: State)
    ensures Pool(1, 0, 0, 0).Valid() && Reaches(Pool(1, 0, 0, 0), 1, s)
    ensures s.threads == [Top(Request(1, 0, 0), -1, -1, 0)] && !Returns(Pool(1, 0, 0, 0), s, 0)
  {
    hide Reaches, Returns, Behaviour, Inv;
    var p := Pool(1, 0, 0, 0);
    assert Pow2(0) == 1;
    var full := OnlyBlockTaken();
    var trace := TraceTo(p, 1, full);
    s := StepIdle(p, full, 0, Allocate(1, -1, 0));
    assert Moves(p, full, 0, Allocate(1, -1, 0), s);
    ReachesNext(p, 1, full, 0, Allocate(1, -1, 0), s);
    WordParts(full.sbs[0].word, 0, 1);
    AllocateReturnsIff(p, 1, trace, |trace| - 1, 0, 1, -1, 0);
  }
}
