/**
 What a call of allocate does from its first step to its last, with other threads at work: how many
 searches it makes, what it tries after each of them, and over which hint it posts one.
 */
module PoolCalls {
  import opened Powers
  import opened PoolGeometry
  import opened PoolMachine
  import opened PoolSafety
  import opened PoolProgress
  import opened PoolSearch

  /** Thread t's call for req begins with the step from moment j, with that attempt limit. */
  ghost predicate Begins(trace: seq<State>, t: nat, req: Request, limit: int, j: nat) {
    && j + 1 < |trace| && t < |trace[j].threads| && t < |trace[j + 1].threads|
    && trace[j].threads[t].Idle? && trace[j + 1].threads[t] == Top(req, limit, -1, req.lg2)
  }

  /** The step from moment j ends a search of thread t that found nothing. */
  ghost predicate UsesAttempt(trace: seq<State>, t: nat, j: nat) {
    && j + 1 < |trace| && t < |trace[j].threads| && t < |trace[j + 1].threads|
    && trace[j].threads[t].Scan? && trace[j + 1].threads[t].Top? && trace[j + 1].threads[t].sb < 0
  }

  /** How many of the steps from moment j up to moment k end a search of thread t that found nothing. */
  ghost function UsedUp(trace: seq<State>, t: nat, j: nat, k: nat): nat
    requires j <= k
    decreases k
  {
    if j == k then 0 else UsedUp(trace, t, j, k - 1) + (if UsesAttempt(trace, t, k - 1) then 1 else 0)
  }

  /** From moment j to moment k thread t is looking for a superblock for req. */
  ghost predicate Looking(trace: seq<State>, t: nat, req: Request, j: nat, k: nat) {
    && j <= k < |trace|
    && forall l :: j <= l <= k ==>
         t < |trace[l].threads| && Allocating(trace[l].threads[t]) && trace[l].threads[t].req == req
  }

  /** The call under way began at some moment, and has used up the attempts that are missing from its limit. */
  ghost predicate CallOk(trace: seq<State>, t: nat, k: nat) {
    k < |trace| && t < |trace[k].threads| && (Allocating(trace[k].threads[t]) ==>
      exists j: nat, limit :: CalledAt(trace, t, k, j, limit))
  }

  ghost predicate CalledAt(trace: seq<State>, t: nat, k: nat, j: nat, limit: int) {
    && j < k < |trace| && t < |trace[k].threads| && Allocating(trace[k].threads[t])
    && var th := trace[k].threads[t];
      && Begins(trace, t, th.req, limit, j) && Looking(trace, t, th.req, j + 1, k)
      && th.attempts == limit - UsedUp(trace, t, j + 1, k)
  }

  // ---------------------------------------------------------------- which superblock, and which hint

  /** The superblock that the thread is going for. */
  function Target(th: Thread): int {
    match th
    case Top(_, _, sb, _) => sb
    case Probe(_, _, _, id, _) => id
    case Claim(_, _, _, id, _) => id
    case ReadEmpty(_, _, _, id) => id
    case Reassign(_, _, _, id, _) => id
    case PostHint(_, _, _, id) => id
    case _ => -1
  }

  /** The step from moment j reads the hint for req. */
  ghost predicate ReadsHint(p: Pool, trace: seq<State>, t: nat, req: Request, j: nat, hint: int) {
    && j + 1 < |trace| && t < |trace[j].threads| && t < |trace[j + 1].threads|
    && trace[j].threads[t].Top? && trace[j].threads[t].sb < 0 && trace[j].threads[t].req == req
    && trace[j + 1].threads[t].Probe?
    && 0 <= HintIndex(p, req) < |trace[j].hints| && trace[j].hints[HintIndex(p, req)] == hint
  }

  /** From moment j to moment k thread t does not come back to the top of its loop. */
  ghost predicate OneRound(trace: seq<State>, t: nat, req: Request, j: nat, k: nat) {
    Looking(trace, t, req, j, k) && forall l :: j <= l <= k ==> !trace[l].threads[t].Top?
  }

  /** A hint the thread carries is one that it has read in this round. */
  ghost predicate HintOk(p: Pool, trace: seq<State>, t: nat, k: nat) {
    && k < |trace| && t < |trace[k].threads|
    && var th := trace[k].threads[t];
      Allocating(th) && !th.Top? && th.hint != -1 ==>
        exists j: nat :: j < k && ReadsHint(p, trace, t, th.req, j, th.hint) && OneRound(trace, t, th.req, j + 1, k)
  }

  /** The step from moment j ends a search of thread t for req with the choice of superblock x. */
  ghost predicate Chooses(trace: seq<State>, t: nat, req: Request, j: nat, x: int) {
    && j + 1 < |trace| && t < |trace[j].threads| && t < |trace[j + 1].threads|
    && trace[j].threads[t].Scan? && trace[j].threads[t].req == req && Target(trace[j + 1].threads[t]) == x
  }

  /** From moment j to moment k thread t is going for superblock x. */
  ghost predicate GoesFor(trace: seq<State>, t: nat, req: Request, j: nat, k: nat, x: int) {
    Looking(trace, t, req, j, k) && forall l :: j <= l <= k ==> Target(trace[l].threads[t]) == x
  }

  /** The last search chose superblock x, and thread t has been going for it since. */
  ghost predicate Chosen(trace: seq<State>, t: nat, req: Request, k: nat, x: int) {
    exists j: nat :: j < k && Chooses(trace, t, req, j, x) && GoesFor(trace, t, req, j + 1, k, x)
  }

  /** Nothing has happened to thread t since it began its call or used up an attempt. */
  ghost predicate FreshStart(trace: seq<State>, t: nat, k: nat) {
    exists j: nat :: j < k && StartsRound(trace, t, j) && Unmoved(trace, t, j + 1, k)
  }

  ghost predicate StartsRound(trace: seq<State>, t: nat, j: nat) {
    (j < |trace| && t < |trace[j].threads| && trace[j].threads[t].Idle?) || UsesAttempt(trace, t, j)
  }

  ghost predicate Unmoved(trace: seq<State>, t: nat, j: nat, k: nat) {
    && j <= k < |trace| && t < |trace[k].threads|
    && forall l :: j <= l <= k ==> t < |trace[l].threads| && trace[l].threads[t] == trace[k].threads[t]
  }

  /**
   The thread is at a superblock that its search chose, or at one that a hint named; and it reads the hint
   only at the start of its call and after an attempt is used up.
   */
  ghost predicate RoundOk(trace: seq<State>, t: nat, k: nat) {
    && k < |trace| && t < |trace[k].threads|
    && var th := trace[k].threads[t];
      && (th.Top? && th.sb < 0 ==> FreshStart(trace, t, k))
      && (Target(th) >= 0 && !((th.Probe? || th.Claim?) && th.hint == th.id) ==>
            Chosen(trace, t, th.req, k, Target(th)))
  }

  // ---------------------------------------------------------------- one step

  /** What a step inside allocate does to the request and the attempts. */
  lemma StepOfCall(p: Pool, s: State, t: nat, cmd: Command, s': State)
    requires p.Valid() && Moves(p, s, t, cmd, s') && t < |s'.threads| && Allocating(s'.threads[t])
    requires s.threads[t].Scan? ==> -1 <= s.threads[t].empty && -1 <= s.threads[t].large
    ensures var th, th' := s.threads[t], s'.threads[t];
      if th.Idle? then th' == Top(th'.req, th'.attempts, -1, th'.req.lg2)
      else
        && Allocating(th) && th'.req == th.req
        && th'.attempts == th.attempts - (if th.Scan? && th'.Top? && th'.sb < 0 then 1 else 0)
  {
    hide Pow2, Pool.Address, FetchAdd, Used, HeaderLg2, Pool.FirstSuperblock;
  }

  /** What it does to the hint it carries. */
  lemma StepOfHint(p: Pool, s: State, t: nat, cmd: Command, s': State)
    requires p.Valid() && Moves(p, s, t, cmd, s') && t < |s'.threads|
    requires Allocating(s'.threads[t]) && !s'.threads[t].Top? && s'.threads[t].hint != -1
    ensures var th, th' := s.threads[t], s'.threads[t];
      && Allocating(th) && th.req == th'.req
      && if th.Top? then
           && th.sb < 0 && th'.Probe? && 0 <= HintIndex(p, th.req) < |s.hints|
           && s.hints[HintIndex(p, th.req)] == th'.hint
         else th'.hint == th.hint
  {
    hide Pow2, Pool.Address, FetchAdd, Used, HeaderLg2, Pool.FirstSuperblock;
  }

  /** What it does to its target. */
  lemma StepOfTarget(p: Pool, s: State, t: nat, cmd: Command, s': State)
    requires p.Valid() && Moves(p, s, t, cmd, s') && t < |s'.threads|
    requires s.threads[t].Scan? ==> -1 <= s.threads[t].empty && -1 <= s.threads[t].large
    ensures var th, th' := s.threads[t], s'.threads[t];
      && (th'.Top? && th'.sb < 0 ==> th.Idle? || th.Scan?)
      && (Target(th') >= 0 ==>
            && Allocating(th) && th'.req == th.req
            && (th.Scan? || Target(th) == Target(th') || ((th'.Probe? || th'.Claim?) && th'.hint == th'.id))
            && ((th.Probe? || th.Claim?) && th.hint == th.id ==>
                  (th'.Probe? || th'.Claim?) && th'.hint == th'.id))
  {
    hide Pow2, Pool.Address, FetchAdd, Used, HeaderLg2, Pool.FirstSuperblock;
  }

  // ---------------------------------------------------------------- along a behaviour

  lemma CallGoesOn(trace: seq<State>, t: nat, k: nat)
    requires 0 < k < |trace| && CallOk(trace, t, k - 1) && t < |trace[k].threads|
    requires Allocating(trace[k].threads[t]) && Allocating(trace[k - 1].threads[t])
    requires trace[k].threads[t].req == trace[k - 1].threads[t].req
    requires trace[k].threads[t].attempts ==
      trace[k - 1].threads[t].attempts - (if UsesAttempt(trace, t, k - 1) then 1 else 0)
    ensures CallOk(trace, t, k)
  {
    hide UsesAttempt, Begins, Allocating;
    var j: nat, limit :| CalledAt(trace, t, k - 1, j, limit);
    assert CalledAt(trace, t, k, j, limit);
  }

  lemma CallBegins(trace: seq<State>, t: nat, k: nat)
    requires 0 < k < |trace| && t < |trace[k - 1].threads| && t < |trace[k].threads| && trace[k - 1].threads[t].Idle?
    requires var th := trace[k].threads[t];
      Allocating(th) ==> th == Top(th.req, th.attempts, -1, th.req.lg2)
    ensures CallOk(trace, t, k)
  {
    if Allocating(trace[k].threads[t]) { assert CalledAt(trace, t, k, k - 1, trace[k].threads[t].attempts); }
  }

  /** A hint that is carried on, or has just been read. */
  lemma HintGoesOn(p: Pool, trace: seq<State>, t: nat, k: nat)
    requires 0 < k < |trace| && HintOk(p, trace, t, k - 1) && t < |trace[k].threads|
    requires var th, th' := trace[k - 1].threads[t], trace[k].threads[t];
      Allocating(th') && !th'.Top? && th'.hint != -1 ==>
        && Allocating(th) && th.req == th'.req
        && if th.Top? then ReadsHint(p, trace, t, th.req, k - 1, th'.hint) else th'.hint == th.hint
    ensures HintOk(p, trace, t, k)
  {
    hide ReadsHint;
    var th, th' := trace[k - 1].threads[t], trace[k].threads[t];
    if Allocating(th') && !th'.Top? && th'.hint != -1 {
      if th.Top? {
        assert OneRound(trace, t, th'.req, k - 1 + 1, k);
      } else {
        var j: nat :| j < k - 1 && ReadsHint(p, trace, t, th.req, j, th.hint)
                      && OneRound(trace, t, th.req, j + 1, k - 1);
        assert OneRound(trace, t, th'.req, j + 1, k);
      }
    }
  }

  lemma ChosenGoesOn(trace: seq<State>, t: nat, req: Request, k: nat, x: int)
    requires 0 < k < |trace| && t < |trace[k].threads| && Allocating(trace[k].threads[t])
    requires trace[k].threads[t].req == req && Target(trace[k].threads[t]) == x
    requires Chosen(trace, t, req, k - 1, x) || Chooses(trace, t, req, k - 1, x)
    ensures Chosen(trace, t, req, k, x)
  {
    hide Allocating, Target, Chooses;
    if Chooses(trace, t, req, k - 1, x) {
      assert GoesFor(trace, t, req, k - 1 + 1, k, x);
    } else {
      var j: nat :| j < k - 1 && Chooses(trace, t, req, j, x) && GoesFor(trace, t, req, j + 1, k - 1, x);
      assert GoesFor(trace, t, req, j + 1, k, x);
    }
  }

  lemma FreshGoesOn(trace: seq<State>, t: nat, k: nat)
    requires 0 < k < |trace| && t < |trace[k].threads| && t < |trace[k - 1].threads|
    requires StartsRound(trace, t, k - 1)
             || (FreshStart(trace, t, k - 1) && trace[k].threads[t] == trace[k - 1].threads[t])
    ensures FreshStart(trace, t, k)
  {
    hide StartsRound;
    if StartsRound(trace, t, k - 1) {
      assert Unmoved(trace, t, k - 1 + 1, k);
    } else {
      var j: nat :| j < k - 1 && StartsRound(trace, t, j) && Unmoved(trace, t, j + 1, k - 1);
      assert Unmoved(trace, t, j + 1, k);
    }
  }

  ghost predicate AllOk(p: Pool, trace: seq<State>, t: nat, k: nat) {
    CallOk(trace, t, k) && HintOk(p, trace, t, k) && RoundOk(trace, t, k)
  }

  /** Another thread's step. */
  lemma StaysOk(p: Pool, trace: seq<State>, t: nat, k: nat)
    requires 0 < k < |trace| && AllOk(p, trace, t, k - 1)
    requires t < |trace[k].threads| && trace[k].threads[t] == trace[k - 1].threads[t]
    ensures AllOk(p, trace, t, k)
  {
    hide FreshStart, Chosen, CalledAt;
    var th := trace[k].threads[t];
    if Allocating(th) { CallGoesOn(trace, t, k); }
    HintGoesOn(p, trace, t, k);
    if th.Top? && th.sb < 0 { FreshGoesOn(trace, t, k); }
    if Target(th) >= 0 && !((th.Probe? || th.Claim?) && th.hint == th.id) {
      ChosenGoesOn(trace, t, th.req, k, Target(th));
    }
  }

  /** Its own. */
  lemma MovesOk(p: Pool, trace: seq<State>, t: nat, k: nat, cmd: Command)
    requires p.Valid() && 0 < k < |trace| && AllOk(p, trace, t, k - 1) && Moves(p, trace[k - 1], t, cmd, trace[k])
    requires t < |trace[k].threads|
    requires var th := trace[k - 1].threads[t]; th.Scan? ==> -1 <= th.empty && -1 <= th.large
    ensures AllOk(p, trace, t, k)
  {
    hide FreshStart, Chosen, CalledAt, Moves, Pow2, Target;
    var s, s' := trace[k - 1], trace[k];
    var th, th' := s.threads[t], s'.threads[t];
    if Allocating(th') {
      StepOfCall(p, s, t, cmd, s');
      if th.Idle? { CallBegins(trace, t, k); } else { CallGoesOn(trace, t, k); }
      if !th'.Top? && th'.hint != -1 { StepOfHint(p, s, t, cmd, s'); }
    }
    HintGoesOn(p, trace, t, k);
    StepOfTarget(p, s, t, cmd, s');
    if th'.Top? && th'.sb < 0 { FreshGoesOn(trace, t, k); }
    if Target(th') >= 0 && !((th'.Probe? || th'.Claim?) && th'.hint == th'.id) {
      TargetAllocates(th');
      ChosenGoesOn(trace, t, th'.req, k, Target(th'));
    }
  }

  lemma TargetAllocates(th: Thread)
    requires Target(th) >= 0
    ensures Allocating(th)
  {}

  lemma {:induction false} CallsAlong(p: Pool, n: nat, trace: seq<State>, k: nat, t: nat)
    requires p.Valid() && Behaviour(p, n, trace) && k < |trace| && t < n
    ensures AllOk(p, trace, t, k)
  {
    hide SearchOk, Moves, Pow2, AllOk;
    SearchAlong(p, n, trace, k, t);
    if k == 0 {
      assert AllOk(p, trace, t, k) by { NothingCalled(p, trace, t); }
    } else {
      CallsAlong(p, n, trace, k - 1, t);
      SearchAlong(p, n, trace, k - 1, t);
      assert Next(p, trace[k - 1], trace[k - 1 + 1]);
      var u: nat, cmd :| Moves(p, trace[k - 1], u, cmd, trace[k]);
      OthersStay(p, trace[k - 1], u, cmd, trace[k], t);
      if u == t {
        if trace[k - 1].threads[t].Scan? { SearchKeepsSigns(p, trace, t, k - 1); }
        MovesOk(p, trace, t, k, cmd);
      } else {
        StaysOk(p, trace, t, k);
      }
    }
  }

  lemma NothingCalled(p: Pool, trace: seq<State>, t: nat)
    requires |trace| > 0 && t < |trace[0].threads| && trace[0].threads[t].Idle?
    ensures AllOk(p, trace, t, 0)
  {}

  // ---------------------------------------------------------------- what follows for a call

  /**
   A call that gives up has ended exactly as many searches with nothing found as its limit says, whatever
   the other threads did; by UsedUpAttemptSawAll each of them read every superblock as unusable.
   */
  lemma NullAfterLimit(p: Pool, n: nat, trace: seq<State>, k: nat, t: nat) returns (j: nat, limit: int)
    requires p.Valid() && Behaviour(p, n, trace) && k + 1 < |trace| && t < n
    requires t < |trace[k].threads| && t < |trace[k + 1].threads|
    requires Allocating(trace[k].threads[t]) && trace[k + 1].threads[t].Idle?
    ensures j < k && Begins(trace, t, trace[k].threads[t].req, limit, j)
    ensures Looking(trace, t, trace[k].threads[t].req, j + 1, k)
    ensures limit == UsedUp(trace, t, j + 1, k)
    ensures trace[k + 1].sbs == trace[k].sbs && trace[k + 1].held == trace[k].held
  {
    hide Behaviour, Begins, Looking, HintOk, RoundOk, Pow2;
    CallsAlong(p, n, trace, k, t);
    j, limit :| CalledAt(trace, t, k, j, limit);
    NullStep(p, n, trace, k, t);
  }

  lemma NullStep(p: Pool, n: nat, trace: seq<State>, k: nat, t: nat)
    requires p.Valid() && Behaviour(p, n, trace) && k + 1 < |trace| && t < n
    requires t < |trace[k].threads| && t < |trace[k + 1].threads|
    requires Allocating(trace[k].threads[t]) && trace[k + 1].threads[t].Idle?
    ensures trace[k].threads[t].attempts == 0
    ensures trace[k + 1].sbs == trace[k].sbs && trace[k + 1].held == trace[k].held
  {
    hide Moves, Pow2;
    assert Next(p, trace[k], trace[k + 1]);
    var u: nat, cmd :| Moves(p, trace[k], u, cmd, trace[k + 1]);
    OthersStay(p, trace[k], u, cmd, trace[k + 1], t);
    NullMove(p, trace[k], t, cmd, trace[k + 1]);
  }

  lemma NullMove(p: Pool, s: State, t: nat, cmd: Command, s': State)
    requires p.Valid() && Moves(p, s, t, cmd, s') && t < |s'.threads| && Allocating(s.threads[t]) && s'.threads[t].Idle?
    ensures s.threads[t].attempts == 0 && s'.sbs == s.sbs && s'.held == s.held
  {
    hide Pow2, Pool.Address, FetchAdd, Used, HeaderLg2, Pool.FirstSuperblock;
  }

  /**
   What a thread tries to acquire.  It is the superblock its last search chose, even if another thread won
   the reassignment of it, and the thread has not turned to any other since; or it is the one that the hint
   named, which the thread reads only at the start of its call and after an attempt is used up.
   */
  lemma TriesItsChoice(p: Pool, n: nat, trace: seq<State>, k: nat, t: nat)
    requires p.Valid() && Behaviour(p, n, trace) && k < |trace| && t < n && t < |trace[k].threads|
    ensures var th := trace[k].threads[t];
      && (th.Top? && th.sb < 0 ==> FreshStart(trace, t, k))
      && (th.Claim? ==>
            || Chosen(trace, t, th.req, k, th.id)
            || exists j: nat ::
                 j < k && ReadsHint(p, trace, t, th.req, j, th.id) && OneRound(trace, t, th.req, j + 1, k))
  {
    hide Behaviour, Chosen, FreshStart, CallOk, OneRound, ReadsHint;
    CallsAlong(p, n, trace, k, t);
  }

  /** A hint is posted only over the value that the thread read before its search, in the same round. */
  lemma PostedOverHintRead(p: Pool, n: nat, trace: seq<State>, k: nat) returns (t: nat, i: nat, j: nat)
    requires p.Valid() && Behaviour(p, n, trace) && k + 1 < |trace| && trace[k + 1].hints != trace[k].hints
    ensures t < n && Posts(p, trace[k], t, trace[k + 1], i) && j < k
    ensures ReadsHint(p, trace, t, trace[k].threads[t].req, j, trace[k].hints[i])
    ensures OneRound(trace, t, trace[k].threads[t].req, j + 1, k)
    ensures Chosen(trace, t, trace[k].threads[t].req, k, trace[k + 1].hints[i])
  {
    hide Behaviour, Chosen, FreshStart, CallOk, OneRound, ReadsHint, Moves;
    var cmd;
    t, cmd := Mover(p, n, trace, k);
    HintChanges(p, trace[k], t, cmd, trace[k + 1]);
    i :| Posts(p, trace[k], t, trace[k + 1], i);
    CallsAlong(p, n, trace, k, t);
    var th := trace[k].threads[t];
    j :| j < k && ReadsHint(p, trace, t, th.req, j, th.hint) && OneRound(trace, t, th.req, j + 1, k);
  }

  lemma Mover(p: Pool, n: nat, trace: seq<State>, k: nat) returns (t: nat, cmd: Command)
    requires p.Valid() && Behaviour(p, n, trace) && k + 1 < |trace|
    ensures t < n && Moves(p, trace[k], t, cmd, trace[k + 1])
  {
    assert Next(p, trace[k], trace[k + 1]);
    t, cmd :| Moves(p, trace[k], t, cmd, trace[k + 1]);
    ThreadCount(p, n, trace, k);
  }

  lemma {:induction false} ThreadCount(p: Pool, n: nat, trace: seq<State>, k: nat)
    requires p.Valid() && Behaviour(p, n, trace) && k < |trace|
    ensures |trace[k].threads| == n
  {
    hide Step, Pow2;
    if k == 0 {
    } else {
      ThreadCount(p, n, trace, k - 1);
      assert Next(p, trace[k - 1], trace[k - 1 + 1]);
      var u: nat, cmd :| Moves(p, trace[k - 1], u, cmd, trace[k]);
      OthersStay(p, trace[k - 1], u, cmd, trace[k], u);
    }
  }
}
