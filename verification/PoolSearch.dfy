/** What a used-up attempt of allocate has seen, with other threads at work during its search. */
module PoolSearch {
  import opened Powers
  import opened PoolGeometry
  import opened PoolMachine
  import opened PoolSafety

  /** What a read of a superblock may rule out: room in the wanted size, any block of that size, any block. */
  datatype Fault = NoRoom | NotExact | Unusable

  ghost predicate Fails(fault: Fault, word: nat, want: nat) {
    match fault
    case NoRoom => HeaderLg2(word) == want ==> Used(word) >= Pow2(want)
    case NotExact => !CanServeExactly(word, want)
    case Unusable => !CanServe(word, want)
  }

  /** The step from moment j is thread t's, and reads superblock x in a search for req. */
  ghost predicate Reads(p: Pool, trace: seq<State>, t: nat, req: Request, j: nat, x: nat) {
    && j + 1 < |trace| && t < |trace[j].threads| && t < |trace[j + 1].threads| && x < |trace[j].sbs|
    && trace[j].threads[t].Scan? && trace[j].threads[t].i < p.sbCount && trace[j].threads[t].id == x
    && trace[j].threads[t].req == req && trace[j + 1].threads[t] != trace[j].threads[t]
  }

  /** From moment j to moment k thread t is in one search for req. */
  ghost predicate SameSearch(trace: seq<State>, t: nat, req: Request, j: nat, k: nat) {
    && j <= k < |trace|
    && forall l :: j <= l <= k ==> t < |trace[l].threads| && trace[l].threads[t].Scan? && trace[l].threads[t].req == req
  }

  /** The search under way at moment k has read superblock x, and found that fault in it. */
  ghost predicate Passed(p: Pool, trace: seq<State>, t: nat, req: Request, k: nat, x: nat, fault: Fault) {
    exists j: nat :: j < k && Reads(p, trace, t, req, j, x) && Fails(fault, trace[j].sbs[x].word, req.lg2)
                     && SameSearch(trace, t, req, j, k)
  }

  /** The search under way at moment k has read superblock x empty and of another size. */
  ghost predicate ReadEmptyAt(p: Pool, trace: seq<State>, t: nat, req: Request, k: nat, x: nat) {
    exists j: nat :: j < k && Reads(p, trace, t, req, j, x) && SameSearch(trace, t, req, j, k)
                     && Used(trace[j].sbs[x].word) == 0 && trace[j].sbs[x].Lg2() != req.lg2
  }

  /** The search under way at moment k has read superblock x with larger blocks, 2^lg2 of them, and room. */
  ghost predicate ReadLargeAt(p: Pool, trace: seq<State>, t: nat, req: Request, k: nat, x: nat, lg2: nat) {
    exists j: nat :: j < k && Reads(p, trace, t, req, j, x) && SameSearch(trace, t, req, j, k)
                     && trace[j].sbs[x].Lg2() == lg2 < req.lg2 && 0 < Used(trace[j].sbs[x].word) < Pow2(lg2)
  }

  /** The search has read the first i superblocks of its order, each with that fault. */
  ghost predicate AllPassed(p: Pool, trace: seq<State>, t: nat, req: Request, k: nat, begin: nat, i: int,
                            fault: Fault) {
    forall x: nat :: x < p.sbCount && Visited(x, begin, i, p.sbCount) ==> Passed(p, trace, t, req, k, x, fault)
  }

  /**
   Where a search with i superblocks behind it stands, and what it knows: none had the wanted size with
   room; the empty one it keeps is the first empty one; the larger one is the first with room and was met
   before any empty one.
   */
  ghost predicate SearchOk(p: Pool, trace: seq<State>, t: nat, k: nat)
    requires p.Valid()
  {
    && k < |trace| && t < |trace[k].threads| && trace[k].threads[t].Scan?
    && var th := trace[k].threads[t];
    && 0 <= HintIndex(p, th.req) < p.Sizes() && th.i <= p.sbCount
    && -1 <= th.empty < p.sbCount && -1 <= th.large < p.sbCount
    && var begin := p.FirstSuperblock(HintIndex(p, th.req));
    && begin < p.sbCount && th.id == (if begin + th.i < p.sbCount then begin + th.i else begin + th.i - p.sbCount)
    && AllPassed(p, trace, t, th.req, k, begin, th.i, NoRoom)
    && AllPassed(p, trace, t, th.req, k, begin,
                 if th.empty == -1 then th.i else Position(th.empty, begin, p.sbCount), NotExact)
    && (th.empty == -1 && th.large == -1 ==> AllPassed(p, trace, t, th.req, k, begin, th.i, Unusable))
    && (0 <= th.empty ==> ReadEmptyAt(p, trace, t, th.req, k, th.empty))
    && (0 <= th.large ==>
          && ReadLargeAt(p, trace, t, th.req, k, th.large, th.largeLg2)
          && AllPassed(p, trace, t, th.req, k, begin, Position(th.large, begin, p.sbCount), Unusable))
  }

  /** A step of one thread leaves the others where they are. */
  lemma OthersStay(p: Pool, s: State, u: nat, cmd: Command, s': State, t: nat)
    requires p.Valid() && Moves(p, s, u, cmd, s') && t < |s.threads|
    ensures |s'.threads| == |s.threads| && |s'.hints| == |s.hints| && |s'.sbs| == |s.sbs|
    ensures t != u ==> s'.threads[t] == s.threads[t]
  {
    hide Pow2, Pool.Address, FetchAdd;
  }

  /** A thread that begins a search has passed nothing yet. */
  lemma BeginOk(p: Pool, trace: seq<State>, t: nat, k: nat)
    requires p.Valid() && k < |trace| && t < |trace[k].threads| && trace[k].threads[t].Scan?
    requires 0 <= HintIndex(p, trace[k].threads[t].req) < p.Sizes()
    requires trace[k].threads[t] == BeginScan(p, trace[k].threads[t].req, trace[k].threads[t].attempts,
      trace[k].threads[t].hint)
    ensures SearchOk(p, trace, t, k)
  {
    SearchStartInRange(p, HintIndex(p, trace[k].threads[t].req));
  }

  lemma StillSearching(trace: seq<State>, t: nat, req: Request, j: nat, k: nat)
    requires 0 < k < |trace| && SameSearch(trace, t, req, j, k - 1)
    requires t < |trace[k].threads| && trace[k].threads[t].Scan? && trace[k].threads[t].req == req
    ensures SameSearch(trace, t, req, j, k)
  {}

  lemma StillPassed(p: Pool, trace: seq<State>, t: nat, req: Request, k: nat, x: nat, fault: Fault)
    requires 0 < k < |trace| && Passed(p, trace, t, req, k - 1, x, fault)
    requires t < |trace[k].threads| && trace[k].threads[t].Scan? && trace[k].threads[t].req == req
    ensures Passed(p, trace, t, req, k, x, fault)
  {
    hide Fails, SameSearch;
    var j: nat :| j < k - 1 && Reads(p, trace, t, req, j, x) && Fails(fault, trace[j].sbs[x].word, req.lg2)
                  && SameSearch(trace, t, req, j, k - 1);
    StillSearching(trace, t, req, j, k);
  }

  lemma AllStillPassed(p: Pool, trace: seq<State>, t: nat, req: Request, k: nat, begin: nat, i: int, fault: Fault)
    requires 0 < k < |trace| && AllPassed(p, trace, t, req, k - 1, begin, i, fault)
    requires t < |trace[k].threads| && trace[k].threads[t].Scan? && trace[k].threads[t].req == req
    ensures AllPassed(p, trace, t, req, k, begin, i, fault)
  {
    hide Passed, Visited;
    forall x: nat | x < p.sbCount && Visited(x, begin, i, p.sbCount) ensures Passed(p, trace, t, req, k, x, fault) {
      StillPassed(p, trace, t, req, k, x, fault);
    }
  }

  lemma StillKept(p: Pool, trace: seq<State>, t: nat, req: Request, k: nat, empty: int, large: int, largeLg2: nat)
    requires 0 < k < |trace|
    requires t < |trace[k].threads| && trace[k].threads[t].Scan? && trace[k].threads[t].req == req
    ensures 0 <= empty && ReadEmptyAt(p, trace, t, req, k - 1, empty) ==> ReadEmptyAt(p, trace, t, req, k, empty)
    ensures 0 <= large && ReadLargeAt(p, trace, t, req, k - 1, large, largeLg2) ==>
      ReadLargeAt(p, trace, t, req, k, large, largeLg2)
  {
    hide SameSearch;
    if 0 <= empty && ReadEmptyAt(p, trace, t, req, k - 1, empty) {
      var j: nat :| j < k - 1 && Reads(p, trace, t, req, j, empty) && SameSearch(trace, t, req, j, k - 1)
                    && Used(trace[j].sbs[empty].word) == 0 && trace[j].sbs[empty].Lg2() != req.lg2;
      StillSearching(trace, t, req, j, k);
    }
    if 0 <= large && ReadLargeAt(p, trace, t, req, k - 1, large, largeLg2) {
      var j: nat :| j < k - 1 && Reads(p, trace, t, req, j, large) && SameSearch(trace, t, req, j, k - 1)
                    && trace[j].sbs[large].Lg2() == largeLg2 < req.lg2
                    && 0 < Used(trace[j].sbs[large].word) < Pow2(largeLg2);
      StillSearching(trace, t, req, j, k);
    }
  }

  /** What a step that goes on with the search has read, and what it keeps of it. */
  lemma ReadGoesOn(p: Pool, s: State, t: nat)
    requires t < |s.threads| && s.threads[t].Scan? && s.threads[t].id < |s.sbs| && s.threads[t].attempts != 0
    requires StepScan(p, s, t).threads[t].Scan?
    requires -1 <= s.threads[t].empty && -1 <= s.threads[t].large
    ensures var was, th := s.threads[t], StepScan(p, s, t).threads[t];
      var word, want := s.sbs[was.id].word, was.req.lg2;
      && was.i < p.sbCount && th.req == was.req && th.i == was.i + 1
      && th.id == (if was.id + 1 < p.sbCount then was.id + 1 else 0)
      && Fails(NoRoom, word, want)
      && (th.empty == was.empty
          || (was.empty == -1 && th.empty == was.id && Used(word) == 0 && HeaderLg2(word) != want))
      && (th.empty == -1 ==> Fails(NotExact, word, want))
      && ((th.large == was.large && th.largeLg2 == was.largeLg2)
          || (was.empty == -1 && was.large == -1 && th.large == was.id && th.largeLg2 == HeaderLg2(word) < want
              && 0 < Used(word) < Pow2(th.largeLg2)))
      && (th.empty == -1 && th.large == -1 ==> Fails(Unusable, word, want))
  {
    hide Pow2, Used, HeaderLg2;
  }

  lemma ScanMoves(p: Pool, s: State, t: nat, cmd: Command, s': State)
    requires p.Valid() && Moves(p, s, t, cmd, s') && t < |s.threads| && s.threads[t].Scan?
    ensures s.threads[t].id < |s.sbs| && s.threads[t].attempts != 0 && s' == StepScan(p, s, t)
  {
    hide Pow2, StepScan;
  }

  /** The superblock just read joins those passed. */
  lemma PassOne(p: Pool, trace: seq<State>, t: nat, req: Request, k: nat, begin: nat, i: nat, id: nat, fault: Fault)
    requires 0 < k < |trace| && AllPassed(p, trace, t, req, k - 1, begin, i, fault)
    requires Reads(p, trace, t, req, k - 1, id) && SameSearch(trace, t, req, k - 1, k)
    requires Fails(fault, trace[k - 1].sbs[id].word, req.lg2)
    requires begin < p.sbCount && i < p.sbCount
    requires id == if begin + i < p.sbCount then begin + i else begin + i - p.sbCount
    ensures AllPassed(p, trace, t, req, k, begin, i + 1, fault)
  {
    hide Reads, Fails;
    assert Passed(p, trace, t, req, k, id, fault);
    forall x: nat | x < p.sbCount && Visited(x, begin, i + 1, p.sbCount) ensures Passed(p, trace, t, req, k, x, fault) {
      if x != id {
        assert Visited(x, begin, i, p.sbCount);
        StillPassed(p, trace, t, req, k, x, fault);
      }
    }
  }

  lemma JustRead(p: Pool, trace: seq<State>, t: nat, k: nat, cmd: Command)
    requires p.Valid() && 0 < k < |trace| && SearchOk(p, trace, t, k - 1) && Moves(p, trace[k - 1], t, cmd, trace[k])
    requires t < |trace[k].threads| && trace[k].threads[t].Scan?
    ensures var was := trace[k - 1].threads[t];
      && was.id < |trace[k - 1].sbs| && was.attempts != 0 && trace[k] == StepScan(p, trace[k - 1], t)
      && Reads(p, trace, t, was.req, k - 1, was.id) && SameSearch(trace, t, was.req, k - 1, k)
  {
    hide Pow2, StepScan, AllPassed, ReadEmptyAt, ReadLargeAt, Pool.FirstSuperblock;
    ScanMoves(p, trace[k - 1], t, cmd, trace[k]);
    ReadGoesOn(p, trace[k - 1], t);
  }

  /** One superblock further in the search. */
  lemma ScanOk(p: Pool, trace: seq<State>, t: nat, k: nat, cmd: Command)
    requires p.Valid() && 0 < k < |trace| && SearchOk(p, trace, t, k - 1) && Moves(p, trace[k - 1], t, cmd, trace[k])
    requires t < |trace[k].threads| && trace[k].threads[t].Scan?
    ensures SearchOk(p, trace, t, k)
  {
    hide Pow2, StepScan, Moves, Fails, Reads, SameSearch, Pool.FirstSuperblock, AllPassed, Passed, Used, HeaderLg2;
    var was, th := trace[k - 1].threads[t], trace[k].threads[t];
    JustRead(p, trace, t, k, cmd);
    ReadGoesOn(p, trace[k - 1], t);
    var req, begin := was.req, p.FirstSuperblock(HintIndex(p, was.req));
    PositionOf(begin, was.i, p.sbCount, was.id);
    PassOne(p, trace, t, req, k, begin, was.i, was.id, NoRoom);
    StillKept(p, trace, t, req, k, was.empty, was.large, was.largeLg2);
    if th.empty == -1 {
      PassOne(p, trace, t, req, k, begin, was.i, was.id, NotExact);
    } else {
      AllStillPassed(p, trace, t, req, k, begin,
        if was.empty == -1 then was.i else Position(was.empty, begin, p.sbCount), NotExact);
    }
    if th.empty == -1 && th.large == -1 {
      PassOne(p, trace, t, req, k, begin, was.i, was.id, Unusable);
    } else if 0 <= th.large {
      AllStillPassed(p, trace, t, req, k, begin,
        if was.large == -1 then was.i else Position(was.large, begin, p.sbCount), Unusable);
    }
  }

  lemma PositionOf(begin: nat, i: nat, count: nat, id: nat)
    requires begin < count && i < count && id == if begin + i < count then begin + i else begin + i - count
    ensures Position(id, begin, count) == i
  {}

  /** A thread gets into a search from its hint, or from an acquire that failed. */
  lemma EnterScan(p: Pool, s: State, t: nat, cmd: Command, s': State)
    requires p.Valid() && Moves(p, s, t, cmd, s') && |s.hints| == p.Sizes()
    requires t < |s'.threads| && s'.threads[t].Scan? && !s.threads[t].Scan?
    ensures 0 <= HintIndex(p, s'.threads[t].req) < p.Sizes()
    ensures s'.threads[t] == BeginScan(p, s'.threads[t].req, s'.threads[t].attempts, s'.threads[t].hint)
  {
    hide Pow2, Pool.Address, FetchAdd, Pool.FirstSuperblock;
  }

  lemma {:induction false} SearchAlong(p: Pool, n: nat, trace: seq<State>, k: nat, t: nat)
    requires p.Valid() && Behaviour(p, n, trace) && k < |trace| && t < n
    ensures |trace[k].threads| == n && |trace[k].hints| == p.Sizes()
    ensures trace[k].threads[t].Scan? ==> SearchOk(p, trace, t, k)
  {
    hide SearchOk, Moves, Pow2, BeginScan;
    if k == 0 {
    } else {
      SearchAlong(p, n, trace, k - 1, t);
      assert Next(p, trace[k - 1], trace[k - 1 + 1]);
      var u: nat, cmd :| Moves(p, trace[k - 1], u, cmd, trace[k]);
      OthersStay(p, trace[k - 1], u, cmd, trace[k], t);
      if trace[k].threads[t].Scan? {
        if u != t {
          SearchStays(p, trace, t, k);
        } else if trace[k - 1].threads[t].Scan? {
          ScanOk(p, trace, t, k, cmd);
        } else {
          EnterScan(p, trace[k - 1], t, cmd, trace[k]);
          BeginOk(p, trace, t, k);
        }
      }
    }
  }

  lemma SearchStays(p: Pool, trace: seq<State>, t: nat, k: nat)
    requires p.Valid() && 0 < k < |trace| && SearchOk(p, trace, t, k - 1)
    requires t < |trace[k].threads| && trace[k].threads[t] == trace[k - 1].threads[t]
    ensures SearchOk(p, trace, t, k)
  {
    hide AllPassed, ReadEmptyAt, ReadLargeAt, Pow2, Pool.FirstSuperblock;
    var th := trace[k].threads[t];
    var begin := p.FirstSuperblock(HintIndex(p, th.req));
    StillKept(p, trace, t, th.req, k, th.empty, th.large, th.largeLg2);
    AllStillPassed(p, trace, t, th.req, k, begin, th.i, NoRoom);
    AllStillPassed(p, trace, t, th.req, k, begin,
      if th.empty == -1 then th.i else Position(th.empty, begin, p.sbCount), NotExact);
    if th.empty == -1 && th.large == -1 {
      AllStillPassed(p, trace, t, th.req, k, begin, th.i, Unusable);
    } else if 0 <= th.large {
      AllStillPassed(p, trace, t, th.req, k, begin, Position(th.large, begin, p.sbCount), Unusable);
    }
  }

  /** The whole order has been read. */
  ghost predicate EveryOnePassed(p: Pool, trace: seq<State>, t: nat, req: Request, k: nat, fault: Fault) {
    forall x: nat :: x < p.sbCount ==> Passed(p, trace, t, req, k, x, fault)
  }

  lemma AllIsEvery(p: Pool, trace: seq<State>, t: nat, req: Request, k: nat, begin: nat, fault: Fault)
    requires begin < p.sbCount && AllPassed(p, trace, t, req, k, begin, p.sbCount, fault)
    ensures EveryOnePassed(p, trace, t, req, k, fault)
  {
    hide Passed;
    forall x: nat | x < p.sbCount ensures Passed(p, trace, t, req, k, x, fault) {
      assert Visited(x, begin, p.sbCount, p.sbCount);
    }
  }

  /**
   The order of preference of a search, whatever other threads do during it.  Thread t leaves its search
   (1) for the first superblock it reads with the wanted size and room, posting it as the hint if there is
   room for more than one;
   (2) else, after reading every superblock, for the first one it read empty;
   (3) else for the first one it read with larger blocks and room, having read no empty one;
   (4) else it uses up an attempt, having read every superblock as unusable.
   */
  ghost predicate Preferred(p: Pool, trace: seq<State>, t: nat, k: nat)
    requires p.Valid()
  {
    && k + 1 < |trace| && t < |trace[k].threads| && t < |trace[k + 1].threads| && trace[k].threads[t].Scan?
    && var th, th' := trace[k].threads[t], trace[k + 1].threads[t];
      var req := th.req;
      && (th'.PostHint? || th'.ReadEmpty? || th'.Top?) && th'.req == req
      && 0 <= HintIndex(p, req) < p.Sizes()
      && var begin := p.FirstSuperblock(HintIndex(p, req));
      && (th'.PostHint? ==>
            && Reads(p, trace, t, req, k, th'.id) && trace[k].sbs[th'.id].Lg2() == req.lg2
            && Used(trace[k].sbs[th'.id].word) + 1 < Pow2(req.lg2)
            && AllPassed(p, trace, t, req, k, begin, Position(th'.id, begin, p.sbCount), NoRoom))
      && (th'.Top? && 0 <= th'.sb && th'.want == req.lg2 ==>
            && Reads(p, trace, t, req, k, th'.sb) && trace[k].sbs[th'.sb].Lg2() == req.lg2
            && Used(trace[k].sbs[th'.sb].word) + 1 == Pow2(req.lg2)
            && AllPassed(p, trace, t, req, k, begin, Position(th'.sb, begin, p.sbCount), NoRoom))
      && (th'.ReadEmpty? ==>
            && EveryOnePassed(p, trace, t, req, k, NoRoom) && ReadEmptyAt(p, trace, t, req, k, th'.id)
            && AllPassed(p, trace, t, req, k, begin, Position(th'.id, begin, p.sbCount), NotExact))
      && (th'.Top? && 0 <= th'.sb && th'.want != req.lg2 ==>
            && EveryOnePassed(p, trace, t, req, k, NotExact) && ReadLargeAt(p, trace, t, req, k, th'.sb, th'.want)
            && AllPassed(p, trace, t, req, k, begin, Position(th'.sb, begin, p.sbCount), Unusable))
      && (th'.Top? && th'.sb < 0 ==> EveryOnePassed(p, trace, t, req, k, Unusable))
      && th'.attempts == th.attempts - (if th'.Top? && th'.sb < 0 then 1 else 0)
  }

  /** Every search of every behaviour ends by that order of preference. */
  lemma SearchPrefers(p: Pool, n: nat, trace: seq<State>, k: nat, t: nat)
    requires p.Valid() && Behaviour(p, n, trace) && k + 1 < |trace| && t < n
    requires t < |trace[k].threads| && trace[k].threads[t].Scan?
    requires t < |trace[k + 1].threads| && !trace[k + 1].threads[t].Scan?
    ensures Preferred(p, trace, t, k)
  {
    hide Passed, Pow2, Pool.FirstSuperblock, AllPassed, EveryOnePassed, ReadEmptyAt, StepScan, SearchOk;
    SearchAlong(p, n, trace, k, t);
    assert Next(p, trace[k], trace[k + 1]);
    var u: nat, cmd :| Moves(p, trace[k], u, cmd, trace[k + 1]);
    OthersStay(p, trace[k], u, cmd, trace[k + 1], t);
    ScanMoves(p, trace[k], t, cmd, trace[k + 1]);
    SearchLeaves(p, trace, k, t);
  }

  /** The step that leaves a search. */
  lemma SearchLeaves(p: Pool, trace: seq<State>, k: nat, t: nat)
    requires p.Valid() && k + 1 < |trace| && SearchOk(p, trace, t, k)
    requires trace[k].threads[t].id < |trace[k].sbs| && trace[k].threads[t].attempts != 0
    requires trace[k + 1] == StepScan(p, trace[k], t) && !trace[k + 1].threads[t].Scan?
    ensures Preferred(p, trace, t, k)
  {
    hide Passed, Pow2, Pool.FirstSuperblock, AllPassed, EveryOnePassed, ReadEmptyAt, HeaderLg2, Used;
    var th := trace[k].threads[t];
    var begin := p.FirstSuperblock(HintIndex(p, th.req));
    if th.i < p.sbCount {
      PositionOf(begin, th.i, p.sbCount, th.id);
    } else {
      AllIsEvery(p, trace, t, th.req, k, begin, NoRoom);
      if th.empty == -1 { AllIsEvery(p, trace, t, th.req, k, begin, NotExact); }
      if th.empty == -1 && th.large == -1 { AllIsEvery(p, trace, t, th.req, k, begin, Unusable); }
      if 0 <= th.large { LargeIsOther(p, trace, t, th.req, k, th.large, th.largeLg2); }
    }
  }

  lemma LargeIsOther(p: Pool, trace: seq<State>, t: nat, req: Request, k: nat, x: nat, lg2: nat)
    requires ReadLargeAt(p, trace, t, req, k, x, lg2)
    ensures lg2 < req.lg2
  {}

  /**
   A search that uses up an attempt has read every superblock once, and each of them was unusable at the
   moment it was read: of the wanted size and full, of larger blocks and full, or of smaller blocks and
   not empty.  allocate gives up only after its limit of such attempts.
   */
  lemma UsedUpAttemptSawAll(p: Pool, n: nat, trace: seq<State>, k: nat, t: nat, x: nat)
    requires p.Valid() && Behaviour(p, n, trace) && k + 1 < |trace| && t < n && x < p.sbCount
    requires t < |trace[k].threads| && trace[k].threads[t].Scan?
    requires t < |trace[k + 1].threads| && trace[k + 1].threads[t].Top?
    requires trace[k + 1].threads[t].attempts != trace[k].threads[t].attempts
    ensures trace[k + 1].threads[t].attempts == trace[k].threads[t].attempts - 1
    ensures Passed(p, trace, t, trace[k].threads[t].req, k, x, Unusable)
  {
    hide Passed, Pow2, Pool.FirstSuperblock, AllPassed, ReadEmptyAt, ReadLargeAt, Reads;
    SearchPrefers(p, n, trace, k, t);
    assert EveryOnePassed(p, trace, t, trace[k].threads[t].req, k, Unusable);
  }

  // ---------------------------------------------------------------- the hint

  /**
   A hint changes only when a thread that read it unchanged since posts the superblock it found: one it
   has just read with room for more than one block of the wanted size, or one it has just reassigned.
   */
  ghost predicate Posts(p: Pool, s: State, t: nat, s': State, i: nat) {
    && t < |s.threads| && t < |s'.threads| && s.threads[t].PostHint? && i < |s.hints|
    && HintIndex(p, s.threads[t].req) == i && s.hints[i] == s.threads[t].hint
    && s'.hints == s.hints[i := s.threads[t].id] && s'.threads[t].Top?
    && s'.threads[t].sb == s.threads[t].id && s'.threads[t].want == s.threads[t].req.lg2
  }

  lemma HintChanges(p: Pool, s: State, t: nat, cmd: Command, s': State)
    requires p.Valid() && Moves(p, s, t, cmd, s')
    ensures s'.hints != s.hints ==> exists i: nat :: Posts(p, s, t, s', i)
    ensures s.threads[t].PostHint? && 0 <= HintIndex(p, s.threads[t].req) < |s.hints|
            && s.hints[HintIndex(p, s.threads[t].req)] == s.threads[t].hint ==>
      Posts(p, s, t, s', HintIndex(p, s.threads[t].req))
  {
    hide Pow2, Pool.Address, FetchAdd, Used, HeaderLg2, Pool.FirstSuperblock;
    var th := s.threads[t];
    if th.PostHint? && 0 <= HintIndex(p, th.req) < |s.hints| && s.hints[HintIndex(p, th.req)] == th.hint {
      assert Posts(p, s, t, s', HintIndex(p, th.req));
    }
  }

  /** A thread comes to post a hint from a search, or from a reassignment that succeeded. */
  lemma PostsComeFrom(p: Pool, s: State, t: nat, cmd: Command, s': State)
    requires p.Valid() && Moves(p, s, t, cmd, s') && t < |s'.threads| && s'.threads[t].PostHint?
    ensures var th, th' := s.threads[t], s'.threads[t];
      th.Scan? || (th.Reassign? && th.id == th'.id < |s.sbs| == |s'.sbs| && s.sbs[th.id].word == EmptyWord(th.seen)
                      && s'.sbs[th.id].word == EmptyWord(th.req.lg2) && th'.req == th.req && th'.hint == th.hint)
  {
    hide Pow2, Pool.Address, FetchAdd, Used, HeaderLg2, Pool.FirstSuperblock;
  }

  // ---------------------------------------------------------------- what a grant goes back to

  /** The thread is on its way to a block of superblock x, for which it expects 2^want blocks. */
  predicate HeadedFor(th: Thread, x: nat, want: nat) {
    match th
    case Top(_, _, sb, w) => sb == x && w == want
    case Probe(_, _, _, id, w) => id == x && w == want
    case Claim(_, _, _, id, w) => id == x && w == want
    case SetBit(_, id, w, _) => id == x && w == want
    case _ => false
  }

  /** From moment j to moment k thread t is headed for one superblock, for one request. */
  ghost predicate StaysHeaded(trace: seq<State>, t: nat, req: Request, j: nat, k: nat, x: nat, want: nat) {
    && j <= k < |trace|
    && forall l :: j <= l <= k ==>
         t < |trace[l].threads| && HeadedFor(trace[l].threads[t], x, want) && trace[l].threads[t].req == req
  }

  /** Thread t went for the larger blocks of superblock x after a search that had read no exact fit anywhere. */
  ghost predicate Justified(p: Pool, trace: seq<State>, t: nat, req: Request, k: nat, x: nat, want: nat) {
    exists j: nat :: j < k && EveryOnePassed(p, trace, t, req, j, NotExact) && ReadLargeAt(p, trace, t, req, j, x, want)
                     && StaysHeaded(trace, t, req, j + 1, k, x, want)
  }

  /** Where a thread is headed without having been there, it comes from a search or wants the exact size. */
  lemma HeadingComesFrom(p: Pool, s: State, t: nat, cmd: Command, s': State, x: nat, want: nat)
    requires p.Valid() && Moves(p, s, t, cmd, s') && t < |s'.threads| && HeadedFor(s'.threads[t], x, want)
    requires want != s'.threads[t].req.lg2 && -1 <= x
    requires s.threads[t].Top? && s.threads[t].sb < 0 ==> s.threads[t].want == s.threads[t].req.lg2
    ensures s.threads[t].Scan? || (HeadedFor(s.threads[t], x, want) && s'.threads[t].req == s.threads[t].req)
  {
    hide Pow2, Pool.Address, FetchAdd, Used, HeaderLg2, Pool.FirstSuperblock;
  }

  /** A thread that has no superblock yet expects the size of its request. */
  ghost predicate FreshTop(th: Thread) { th.Top? && th.sb < 0 ==> th.want == th.req.lg2 }

  lemma FreshTopStep(p: Pool, s: State, t: nat, cmd: Command, s': State)
    requires p.Valid() && Moves(p, s, t, cmd, s') && t < |s'.threads|
    requires s.threads[t].Scan? ==> -1 <= s.threads[t].empty && -1 <= s.threads[t].large
    ensures FreshTop(s.threads[t]) ==> FreshTop(s'.threads[t])
  {
    hide Pow2, Pool.Address, FetchAdd, Used, HeaderLg2, Pool.FirstSuperblock;
  }

  ghost predicate HeadingOk(p: Pool, trace: seq<State>, t: nat, k: nat) {
    && k < |trace| && t < |trace[k].threads| && FreshTop(trace[k].threads[t])
    && forall x: nat, want: nat :: HeadedFor(trace[k].threads[t], x, want) && want != trace[k].threads[t].req.lg2 ==>
         Justified(p, trace, t, trace[k].threads[t].req, k, x, want)
  }

  lemma {:induction false} HeadingAlong(p: Pool, n: nat, trace: seq<State>, k: nat, t: nat)
    requires p.Valid() && Behaviour(p, n, trace) && k < |trace| && t < n
    ensures HeadingOk(p, trace, t, k)
  {
    hide SearchOk, Moves, Pow2, BeginScan, Justified;
    SearchAlong(p, n, trace, k, t);
    if k == 0 {
      NoneHeaded(p, trace, t);
    } else {
      HeadingAlong(p, n, trace, k - 1, t);
      SearchAlong(p, n, trace, k - 1, t);
      assert Next(p, trace[k - 1], trace[k - 1 + 1]);
      var u: nat, cmd :| Moves(p, trace[k - 1], u, cmd, trace[k]);
      OthersStay(p, trace[k - 1], u, cmd, trace[k], t);
      var th, th' := trace[k - 1].threads[t], trace[k].threads[t];
      if u == t {
        if th.Scan? { SearchKeepsSigns(p, trace, t, k - 1); }
        FreshTopStep(p, trace[k - 1], t, cmd, trace[k]);
      }
      forall x: nat, want: nat | HeadedFor(th', x, want) && want != th'.req.lg2
        ensures Justified(p, trace, t, th'.req, k, x, want)
      {
        if u == t { HeadingComesFrom(p, trace[k - 1], t, cmd, trace[k], x, want); }
        if th.Scan? && u == t {
          SearchPrefers(p, n, trace, k - 1, t);
          BeginsHeading(p, trace, t, k, x, want);
        } else {
          StillJustified(p, trace, t, th'.req, k, x, want);
        }
      }
    }
  }

  lemma NoneHeaded(p: Pool, trace: seq<State>, t: nat)
    requires |trace| > 0 && t < |trace[0].threads| && trace[0].threads[t].Idle?
    ensures HeadingOk(p, trace, t, 0)
  {}

  lemma SearchKeepsSigns(p: Pool, trace: seq<State>, t: nat, k: nat)
    requires p.Valid() && SearchOk(p, trace, t, k)
    ensures -1 <= trace[k].threads[t].empty && -1 <= trace[k].threads[t].large
  {}

  lemma BeginsHeading(p: Pool, trace: seq<State>, t: nat, k: nat, x: nat, want: nat)
    requires p.Valid() && 0 < k < |trace| && Preferred(p, trace, t, k - 1) && !trace[k].threads[t].Scan?
    requires HeadedFor(trace[k].threads[t], x, want) && want != trace[k].threads[t].req.lg2
    ensures Justified(p, trace, t, trace[k].threads[t].req, k, x, want)
  {
    hide EveryOnePassed, ReadLargeAt, AllPassed, Reads, ReadEmptyAt, Pool.FirstSuperblock, Pow2;
    assert StaysHeaded(trace, t, trace[k].threads[t].req, k - 1 + 1, k, x, want);
  }

  lemma StillJustified(p: Pool, trace: seq<State>, t: nat, req: Request, k: nat, x: nat, want: nat)
    requires 0 < k < |trace| && Justified(p, trace, t, req, k - 1, x, want)
    requires t < |trace[k].threads| && HeadedFor(trace[k].threads[t], x, want) && trace[k].threads[t].req == req
    ensures Justified(p, trace, t, req, k, x, want)
  {
    hide EveryOnePassed, ReadLargeAt, HeadedFor;
    var j: nat :| j < k - 1 && EveryOnePassed(p, trace, t, req, j, NotExact)
                  && ReadLargeAt(p, trace, t, req, j, x, want) && StaysHeaded(trace, t, req, j + 1, k - 1, x, want);
    assert StaysHeaded(trace, t, req, j + 1, k, x, want);
  }

  /**
   A thread that finds its block in a superblock of larger blocks than its request needs got there from a
   search that had read every superblock and found none, at the moment it was read, with room in the exact
   size or empty; only that superblock's larger blocks, with room.
   */
  lemma LargerBlockJustified(p: Pool, n: nat, trace: seq<State>, k: nat, t: nat)
    requires p.Valid() && Behaviour(p, n, trace) && k < |trace| && t < n
    requires t < |trace[k].threads| && trace[k].threads[t].SetBit?
    requires trace[k].threads[t].want != trace[k].threads[t].req.lg2
    ensures Justified(p, trace, t, trace[k].threads[t].req, k, trace[k].threads[t].id, trace[k].threads[t].want)
  {
    hide Justified, Behaviour;
    HeadingAlong(p, n, trace, k, t);
    assert HeadedFor(trace[k].threads[t], trace[k].threads[t].id, trace[k].threads[t].want);
  }
}
