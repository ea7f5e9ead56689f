/**
 What a call of allocate does when no other thread moves: it takes a block of the superblock that suits
 its request best, as in the pool run by one thread, whatever the other threads were doing before.
 */
module PoolAlone {
  import Arith
  import opened Powers
  import opened PoolGeometry
  import opened BitSearch
  import opened PoolChoice
  import opened PoolMachine
  import opened PoolSafety
  import opened PoolProgress

  /** Thread t alone takes the pool from s to s' in n steps. */
  ghost predicate Leads(p: Pool, s: State, t: nat, s': State, n: nat)
    requires p.Valid()
    decreases n
  {
    if n == 0 then s' == s else exists m :: Moves(p, s, t, Skip, m) && Leads(p, m, t, s', n - 1)
  }

  lemma {:induction false} LeadsOn(p: Pool, s: State, t: nat, m: State, s': State, a: nat, b: nat)
    requires p.Valid() && Leads(p, s, t, m, a) && Leads(p, m, t, s', b)
    ensures Leads(p, s, t, s', a + b)
    decreases a
  {
    hide Moves;
    if a == 0 {
    } else {
      var next :| Moves(p, s, t, Skip, next) && Leads(p, next, t, m, a - 1);
      LeadsOn(p, next, t, m, s', a - 1, b);
    }
  }

  lemma LeadsFrom(p: Pool, s: State, t: nat, m: State, s': State, n: nat)
    requires p.Valid() && Moves(p, s, t, Skip, m) && Leads(p, m, t, s', n)
    ensures Leads(p, s, t, s', n + 1)
  {}

  lemma LeadsHere(p: Pool, s: State, t: nat)
    requires p.Valid()
    ensures Leads(p, s, t, s, 0)
  {}

  /** The state words of all superblocks. */
  function Words(s: State): (w: seq<nat>)
    ensures |w| == |s.sbs| && forall i :: 0 <= i < |w| ==> w[i] == s.sbs[i].word
  {
    seq(|s.sbs|, i requires 0 <= i < |s.sbs| => s.sbs[i].word)
  }

  /** The state with thread t at another program point; only its last point counts. */
  lemma GotoTwice(s: State, t: nat, a: Thread, b: Thread)
    requires t < |s.threads|
    ensures s.Goto(t, a).Goto(t, b) == s.Goto(t, b) && s.Goto(t, s.threads[t]) == s
    ensures s.Goto(t, a).threads[t] == a
  {
    assert s.threads[t := a][t := b] == s.threads[t := b];
    assert s.threads[t := s.threads[t]] == s.threads;
  }

  // ---------------------------------------------------------------- from a superblock with room to its bitset

  /** Thread t has counted itself into superblock id, and tries its first bit. */
  function CountedIn(s: State, t: nat, req: Request, id: nat, lg2: nat): State
    requires t < |s.threads| && id < |s.sbs|
  {
    s.Write(id, s.sbs[id].(word := s.sbs[id].word + 1)).Goto(t, SetBit(req, id, lg2, req.clock % Pow2(lg2)))
  }

  lemma ClaimAlone(p: Pool, s: State, t: nat)
    requires Inv(p, s) && t < |s.threads| && s.threads[t].Claim? && Room(s, s.threads[t].id, s.threads[t].want)
    ensures p.Valid() && var th := s.threads[t]; Leads(p, s, t, CountedIn(s, t, th.req, th.id, th.want), 1)
  {
    hide Inv, Moves, Pow2, HeaderLg2, Used;
    PointFacts(p, s, t);
    var Claim(req, attempts, hint, id, want) := s.threads[t];
    var s' := Forward(p, s, t);
    RoomForOne(p, s, id);
    Arith.DivMod(req.clock, Pow2(want));
    assert s' == CountedIn(s, t, req, id, want);
    LeadsHere(p, s', t);
    LeadsFrom(p, s, t, s', s', 0);
  }

  lemma RoomForOne(p: Pool, s: State, id: nat)
    requires Inv(p, s) && id < |s.sbs| && Used(s.sbs[id].word) < Pow2(s.sbs[id].Lg2())
    ensures FetchAdd(s.sbs[id].word, 1) == s.sbs[id].word + 1
  {
    hide Inv;
    WordFacts(p, s, id);
    Pow2Monotone(s.sbs[id].Lg2(), 25);
    Pow2Values();
  }

  lemma ProbeAlone(p: Pool, s: State, t: nat)
    requires Inv(p, s) && t < |s.threads| && s.threads[t].Probe? && Room(s, s.threads[t].id, s.threads[t].want)
    ensures p.Valid() && var th := s.threads[t]; Leads(p, s, t, CountedIn(s, t, th.req, th.id, th.want), 2)
  {
    hide Inv, Moves, Pow2, HeaderLg2, Used, Leads;
    var Probe(req, attempts, hint, id, want) := s.threads[t];
    var s' := Forward(p, s, t);
    GotoTwice(s, t, s'.threads[t], SetBit(req, id, want, req.clock % Pow2(want)));
    ClaimAlone(p, s', t);
    assert CountedIn(s', t, req, id, want) == CountedIn(s, t, req, id, want);
    LeadsFrom(p, s, t, s', CountedIn(s, t, req, id, want), 1);
  }

  lemma TopAlone(p: Pool, s: State, t: nat)
    requires Inv(p, s) && t < |s.threads| && s.threads[t].Top? && s.threads[t].attempts != 0
    requires 0 <= s.threads[t].sb && Room(s, s.threads[t].sb, s.threads[t].want)
    ensures p.Valid() && var th := s.threads[t]; Leads(p, s, t, CountedIn(s, t, th.req, th.sb, th.want), 3)
  {
    hide Inv, Moves, Pow2, HeaderLg2, Used, Leads;
    var Top(req, attempts, sb, want) := s.threads[t];
    var s' := Forward(p, s, t);
    GotoTwice(s, t, s'.threads[t], SetBit(req, sb, want, req.clock % Pow2(want)));
    ProbeAlone(p, s', t);
    assert CountedIn(s', t, req, sb, want) == CountedIn(s, t, req, sb, want);
    LeadsFrom(p, s, t, s', CountedIn(s, t, req, sb, want), 2);
  }

  /** Thread t posts superblock id as the hint of its block size, which it still reads as it did. */
  lemma PostHintAlone(p: Pool, s: State, t: nat)
    requires Inv(p, s) && t < |s.threads| && s.threads[t].PostHint?
    requires Room(s, s.threads[t].id, s.threads[t].req.lg2) && 0 <= HintIndex(p, s.threads[t].req) < |s.hints|
    requires s.hints[HintIndex(p, s.threads[t].req)] == s.threads[t].hint
    ensures p.Valid() && var th := s.threads[t];
      Leads(p, s, t, CountedIn(s.(hints := s.hints[HintIndex(p, th.req) := th.id]), t, th.req, th.id, th.req.lg2), 4)
  {
    hide Inv, Moves, Pow2, HeaderLg2, Used, Leads;
    PointFacts(p, s, t);
    var PostHint(req, attempts, hint, id) := s.threads[t];
    var b := s.(hints := s.hints[HintIndex(p, req) := id]);
    var s' := Forward(p, s, t);
    assert s' == b.Goto(t, Top(req, attempts, id, req.lg2));
    GotoTwice(b, t, s'.threads[t], SetBit(req, id, req.lg2, req.clock % Pow2(req.lg2)));
    TopAlone(p, s', t);
    assert CountedIn(s', t, req, id, req.lg2) == CountedIn(b, t, req, id, req.lg2);
    LeadsFrom(p, s, t, s', CountedIn(b, t, req, id, req.lg2), 3);
  }

  /** An empty superblock is given to the wanted block size, becomes the hint, and gives a block. */
  lemma ReadEmptyAlone(p: Pool, s: State, t: nat)
    requires Inv(p, s) && t < |s.threads| && s.threads[t].ReadEmpty? && s.threads[t].id < |s.sbs|
    requires Used(s.sbs[s.threads[t].id].word) == 0 && 0 <= HintIndex(p, s.threads[t].req) < |s.hints|
    requires s.hints[HintIndex(p, s.threads[t].req)] == s.threads[t].hint
    ensures p.Valid() && var th := s.threads[t];
      var b := s.(hints := s.hints[HintIndex(p, th.req) := th.id],
                  sbs := s.sbs[th.id := s.sbs[th.id].(word := EmptyWord(th.req.lg2))]);
      Leads(p, s, t, CountedIn(b, t, th.req, th.id, th.req.lg2), 6)
  {
    hide Inv, Moves, Pow2, HeaderLg2, Used, Leads;
    PointFacts(p, s, t);
    var ReadEmpty(req, attempts, hint, id) := s.threads[t];
    WordFacts(p, s, id);
    var s1 := Forward(p, s, t);
    var s2 := Forward(p, s1, t);
    var c := s.(sbs := s.sbs[id := s.sbs[id].(word := EmptyWord(req.lg2))]);
    GotoTwice(s, t, s1.threads[t], PostHint(req, attempts, hint, id));
    assert s2 == c.Goto(t, PostHint(req, attempts, hint, id));
    EmptyHasRoom(p, req.lg2);
    PostHintAlone(p, s2, t);
    var b := c.(hints := s.hints[HintIndex(p, req) := id]);
    GotoTwice(b, t, s2.threads[t], SetBit(req, id, req.lg2, req.clock % Pow2(req.lg2)));
    assert CountedIn(s2.(hints := s2.hints[HintIndex(p, req) := id]), t, req, id, req.lg2)
        == CountedIn(b, t, req, id, req.lg2);
    LeadsFrom(p, s1, t, s2, CountedIn(b, t, req, id, req.lg2), 4);
    LeadsFrom(p, s, t, s1, CountedIn(b, t, req, id, req.lg2), 5);
  }

  lemma EmptyHasRoom(p: Pool, lg2: nat)
    requires p.Valid() && p.CountOk(lg2)
    ensures HeaderLg2(EmptyWord(lg2)) == lg2 && Used(EmptyWord(lg2)) == 0 < Pow2(lg2)
  {
    WordParts(EmptyWord(lg2), lg2, 0);
  }

  // ---------------------------------------------------------------- the search

  /** Thread t's search, begun when it was already alone. */
  ghost predicate Searching(s: State, t: nat, begin: nat) {
    && t < |s.threads| && s.threads[t].Scan?
    && var th := s.threads[t];
      && SearchState(Words(s), th.req.lg2, begin, th.i, th.empty, th.large, th.largeLg2)
      && th.id == (if begin + th.i < |s.sbs| then begin + th.i else begin + th.i - |s.sbs|)
  }

  /** Where the search ends: at the superblock that suits best, if any does. */
  ghost predicate Found(s: State, req: Request, attempts: int, hint: int, begin: nat, th: Thread) {
    var want, words := req.lg2, Words(s);
    match th
    case PostHint(_, _, _, id) =>
      && th == PostHint(req, attempts, hint, id) && BestFrom(words, want, begin, id)
      && Suits(words[id], want) == 3 && PostsHint(words[id], want)
    case ReadEmpty(_, _, _, id) =>
      th == ReadEmpty(req, attempts, hint, id) && BestFrom(words, want, begin, id) && Suits(words[id], want) == 2
    case Top(_, _, id, lg2) =>
      if NoneServes(words, want) then th == Top(req, attempts - 1, -1, want)
      else
        && th == Top(req, attempts, id, lg2) && 0 <= id && BestFrom(words, want, begin, id)
        && Suits(words[id], want) != 2 && !PostsHint(words[id], want) && lg2 == HeaderLg2(words[id])
    case _ => false
  }

  lemma {:induction false} SearchAlone(p: Pool, s: State, t: nat, begin: nat) returns (th: Thread, n: nat)
    requires Inv(p, s) && Searching(s, t, begin)
    ensures p.Valid() && Leads(p, s, t, s.Goto(t, th), n)
    ensures Found(s, s.threads[t].req, s.threads[t].attempts, s.threads[t].hint, begin, th)
    decreases |s.sbs| - s.threads[t].i
  {
    hide Inv, Moves, Pow2, HeaderLg2, Used, Leads, Found, Searching;
    assert t < |s.threads| && s.threads[t].Scan? by { SearchingShape(s, t, begin); }
    var s' := Forward(p, s, t);
    SearchStepAlone(p, s, t, begin);
    assert s' == s.Goto(t, s'.threads[t]);
    if s'.threads[t].Scan? {
      th, n := SearchAlone(p, s', t, begin);
      GotoTwice(s, t, s'.threads[t], th);
      assert Words(s') == Words(s);
      FoundFrom(s, s', s.threads[t], begin, th);
    } else {
      th, n := s'.threads[t], 0;
      LeadsHere(p, s', t);
    }
    LeadsFrom(p, s, t, s', s.Goto(t, th), n);
    n := n + 1;
  }

  lemma SearchingShape(s: State, t: nat, begin: nat)
    requires Searching(s, t, begin)
    ensures t < |s.threads| && s.threads[t].Scan? && begin < |s.sbs| && s.threads[t].i <= |s.sbs|
  {}

  lemma FoundFrom(s: State, s': State, was: Thread, begin: nat, th: Thread)
    requires was.Scan? && Words(s) == Words(s') && Found(s', was.req, was.attempts, was.hint, begin, th)
    ensures Found(s, was.req, was.attempts, was.hint, begin, th)
  {}

  lemma SearchStepAlone(p: Pool, s: State, t: nat, begin: nat)
    requires Inv(p, s) && Searching(s, t, begin) && InRange(p, s, s.threads[t])
    ensures var th, s' := s.threads[t], Step(p, s, t, Skip);
      && t < |s'.threads| && s' == s.Goto(t, s'.threads[t])
      && if s'.threads[t].Scan? then
           && Searching(s', t, begin) && s'.threads[t].i == th.i + 1 && s'.threads[t].req == th.req
           && s'.threads[t].attempts == th.attempts && s'.threads[t].hint == th.hint
         else Found(s, th.req, th.attempts, th.hint, begin, s'.threads[t])
  {
    hide Inv, Pow2, HeaderLg2, Used, Suits, SearchState, BestFrom, NoneServes;
    PointFacts(p, s, t);
    var th, s' := s.threads[t], Step(p, s, t, Skip);
    var words, want := Words(s), th.req.lg2;
    assert Words(s') == words;
    SearchingShape(s, t, begin);
    if th.i < p.sbCount {
      SearchReads(words, want, begin, th.i, th.id, th.empty, th.large, th.largeLg2);
      SuitsIs(words[th.id], want);
      if Suits(words[th.id], want) == 3 { BestServes(words, want, begin, th.id); }
    } else {
      SearchDone(words, want, begin, th.empty, th.large, th.largeLg2);
      if 0 <= th.empty {
      } else if 0 <= th.large {
        BestServes(words, want, begin, th.large);
      }
    }
  }

  // ---------------------------------------------------------------- one round of allocate's loop

  /** From the top of the loop to the hinted superblock, if it has the wanted size and room. */
  lemma HintAlone(p: Pool, s: State, t: nat, h: nat)
    requires Inv(p, s) && t < |s.threads| && s.threads[t].Top? && s.threads[t].attempts != 0 && s.threads[t].sb < 0
    requires 0 <= HintIndex(p, s.threads[t].req) < |s.hints| && h == s.hints[HintIndex(p, s.threads[t].req)]
    requires Room(s, h, s.threads[t].want)
    ensures p.Valid() && var th := s.threads[t]; Leads(p, s, t, CountedIn(s, t, th.req, h, th.want), 3)
  {
    hide Inv, Moves, Pow2, HeaderLg2, Used, Leads;
    var Top(req, attempts, sb, want) := s.threads[t];
    var s' := Forward(p, s, t);
    GotoTwice(s, t, s'.threads[t], SetBit(req, h, want, req.clock % Pow2(want)));
    ProbeAlone(p, s', t);
    assert CountedIn(s', t, req, h, want) == CountedIn(s, t, req, h, want);
    LeadsFrom(p, s, t, s', CountedIn(s, t, req, h, want), 2);
  }

  /** From the top of the loop to a search, if the hinted superblock is of no use; its count is as it was. */
  lemma EnterAlone(p: Pool, s: State, t: nat, h: nat) returns (begun: State, n: nat)
    requires Inv(p, s) && t < |s.threads| && s.threads[t].Top? && s.threads[t].attempts != 0 && s.threads[t].sb < 0
    requires 0 <= HintIndex(p, s.threads[t].req) < |s.hints| && h == s.hints[HintIndex(p, s.threads[t].req)]
    requires s.threads[t].want == s.threads[t].req.lg2 && !Room(s, h, s.threads[t].want)
    ensures p.Valid() && Inv(p, begun) && Leads(p, s, t, begun, n)
    ensures begun == s.Goto(t, BeginScan(p, s.threads[t].req, s.threads[t].attempts, h))
  {
    hide Inv, Moves, Pow2, HeaderLg2, Used, Leads, Pool.FirstSuperblock, FetchAdd;
    PointFacts(p, s, t);
    var Top(req, attempts, sb, want) := s.threads[t];
    var s1 := Forward(p, s, t);
    var s2 := Forward(p, s1, t);
    GotoTwice(s, t, s1.threads[t], s2.threads[t]);
    if s.sbs[h].Lg2() != want {
      begun, n := s2, 2;
      LeadsHere(p, s2, t);
    } else {
      CountUpAndDown(p, s2, t);
      var s3 := Forward(p, s2, t);
      var s4 := Forward(p, s3, t);
      GotoTwice(s, t, s2.threads[t], s4.threads[t]);
      begun, n := s4, 4;
      LeadsHere(p, s4, t);
      LeadsFrom(p, s3, t, s4, s4, 0);
      LeadsFrom(p, s2, t, s3, s4, 1);
    }
    LeadsFrom(p, s1, t, s2, begun, n - 2);
    LeadsFrom(p, s, t, s1, begun, n - 1);
  }

  /** A failed acquire of a full superblock leaves no trace. */
  lemma CountUpAndDown(p: Pool, s: State, t: nat)
    requires Inv(p, s) && t < |s.threads| && s.threads[t].Claim? && s.threads[t].want == s.threads[t].req.lg2
    requires s.threads[t].id < |s.sbs| && !Room(s, s.threads[t].id, s.threads[t].want)
    ensures InRange(p, s, s.threads[t])
    ensures var s1 := Step(p, s, t, Skip);
      && t < |s1.threads| && s1.threads[t].Unclaim? && InRange(p, s1, s1.threads[t])
      && Step(p, s1, t, Skip) == s.Goto(t, BeginScan(p, s.threads[t].req, s.threads[t].attempts, s.threads[t].hint))
  {
    hide Inv, Pow2, HeaderLg2, Used, Pool.FirstSuperblock, FetchAdd;
    var Claim(req, attempts, hint, id, want) := s.threads[t];
    PointFacts(p, s, t);
    WordFacts(p, s, id);
    Arith.DivMod(req.clock, Pow2(want));
    var s1 := Step(p, s, t, Skip);
    var s2 := Step(p, s1, t, Skip);
    GotoTwice(s, t, s1.threads[t], s2.threads[t]);
    assert s2.sbs == s.sbs;
  }

  lemma {:induction false} LeadsKeepsInv(p: Pool, s: State, t: nat, s': State, n: nat)
    requires Inv(p, s) && p.Valid() && Leads(p, s, t, s', n)
    ensures Inv(p, s')
    decreases n
  {
    hide Inv;
    if n == 0 {
    } else {
      var m :| Moves(p, s, t, Skip, m) && Leads(p, m, t, s', n - 1);
      StepKeepsInv(p, s, t, Skip);
      LeadsKeepsInv(p, m, t, s', n - 1);
    }
  }

  /** The pool once superblock id is chosen: an empty one is reassigned, and the hint is posted if it should be. */
  function Prepared(s: State, k: nat, want: nat, id: nat): State
    requires id < |s.sbs| && k < |s.hints|
  {
    var word := s.sbs[id].word;
    s.(hints := if PostsHint(word, want) then s.hints[k := id] else s.hints,
       sbs := if Suits(word, want) == 2 then s.sbs[id := s.sbs[id].(word := EmptyWord(want))] else s.sbs)
  }

  /** From the end of a search to the bitset of the superblock found, or to the next attempt. */
  lemma FoundAlone(p: Pool, s: State, t: nat, begin: nat, req: Request, attempts: int, hint: int)
    returns (s': State, n: nat, id: nat, lg2: nat)
    requires Inv(p, s) && t < |s.threads| && Found(s, req, attempts, hint, begin, s.threads[t]) && attempts != 0
    requires 0 <= HintIndex(p, req) < |s.hints| && s.hints[HintIndex(p, req)] == hint
    ensures p.Valid() && Leads(p, s, t, s', n)
    ensures NoneServes(Words(s), req.lg2) ==> s' == s.Goto(t, Top(req, attempts - 1, -1, req.lg2))
    ensures !NoneServes(Words(s), req.lg2) ==>
      && BestFrom(Words(s), req.lg2, begin, id) && id < |s.sbs|
      && lg2 == (if Suits(s.sbs[id].word, req.lg2) == 2 then req.lg2 else s.sbs[id].Lg2())
      && s' == CountedIn(Prepared(s, HintIndex(p, req), req.lg2, id), t, req, id, lg2)
  {
    hide Inv, Moves, Pow2, HeaderLg2, Used, Leads, BestFrom, NoneServes, Suits;
    PointFacts(p, s, t);
    var th := s.threads[t];
    var k, want, words := HintIndex(p, req), req.lg2, Words(s);
    GotoTwice(s, t, th, th);
    if NoneServes(words, want) {
      FoundNone(s, req, attempts, hint, begin, th);
      LeadsHere(p, s, t);
      s', n, id, lg2 := s, 0, 0, 0;
    } else {
      id := if th.Top? then th.sb else th.id;
      BestServes(words, want, begin, id);
      SuitsMeans(words[id], want);
      if th.PostHint? {
        lg2, n := want, 4;
        PostHintAlone(p, s, t);
      } else if th.ReadEmpty? {
        lg2, n := want, 6;
        ReadEmptyAlone(p, s, t);
      } else {
        lg2, n := th.want, 3;
        TopAlone(p, s, t);
      }
      s' := CountedIn(Prepared(s, k, want, id), t, req, id, lg2);
    }
  }

  lemma FoundNone(s: State, req: Request, attempts: int, hint: int, begin: nat, th: Thread)
    requires Found(s, req, attempts, hint, begin, th) && NoneServes(Words(s), req.lg2)
    ensures th == Top(req, attempts - 1, -1, req.lg2)
  {
    hide NoneServes, BestFrom, Suits;
    if !th.Top? { BestServes(Words(s), req.lg2, begin, th.id); }
  }

  /** One round of the loop, from its top, when the hinted superblock is of no use. */
  lemma RoundAlone(p: Pool, s: State, t: nat, h: nat) returns (s': State, n: nat, id: nat, lg2: nat)
    requires Inv(p, s) && t < |s.threads| && s.threads[t].Top? && s.threads[t].attempts != 0 && s.threads[t].sb < 0
    requires 0 <= HintIndex(p, s.threads[t].req) < |s.hints| && h == s.hints[HintIndex(p, s.threads[t].req)]
    requires s.threads[t].want == s.threads[t].req.lg2 && !Room(s, h, s.threads[t].want)
    ensures p.Valid() && Leads(p, s, t, s', n) && |s.hints| == p.Sizes()
    ensures var req := s.threads[t].req;
      if NoneServes(Words(s), req.lg2) then s' == s.Goto(t, Top(req, s.threads[t].attempts - 1, -1, req.lg2))
      else
        && BestFrom(Words(s), req.lg2, p.FirstSuperblock(HintIndex(p, req)), id) && id < |s.sbs|
        && lg2 == (if Suits(s.sbs[id].word, req.lg2) == 2 then req.lg2 else s.sbs[id].Lg2())
        && s' == CountedIn(Prepared(s, HintIndex(p, req), req.lg2, id), t, req, id, lg2)
  {
    hide Inv, Moves, Pow2, HeaderLg2, Used, Leads, BestFrom, NoneServes, Suits, Pool.FirstSuperblock, Found, Searching,
      PostsHint;
    PointFacts(p, s, t);
    var req, attempts := s.threads[t].req, s.threads[t].attempts;
    var k := HintIndex(p, req);
    var begin := p.FirstSuperblock(k);
    var begun, n1 := EnterAlone(p, s, t, h);
    assert Words(begun) == Words(s);
    BeginSearching(p, begun, t, req, attempts, h);
    var th, n2 := SearchAlone(p, begun, t, begin);
    GotoTwice(s, t, begun.threads[t], th);
    var found := s.Goto(t, th);
    LeadsOn(p, s, t, begun, found, n1, n2);
    LeadsKeepsInv(p, s, t, found, n1 + n2);
    assert Words(found) == Words(s);
    FoundFrom(found, begun, begun.threads[t], begin, th);
    var n3;
    s', n3, id, lg2 := FoundAlone(p, found, t, begin, req, attempts, h);
    GotoTwice(s, t, th, s'.threads[t]);
    LeadsOn(p, s, t, found, s', n1 + n2, n3);
    n := n1 + n2 + n3;
    if !NoneServes(Words(s), req.lg2) {
      PreparedGoto(s, t, th, k, req, id, lg2);
    }
  }

  lemma BeginSearching(p: Pool, s: State, t: nat, req: Request, attempts: int, hint: int)
    requires Inv(p, s) && t < |s.threads| && 0 <= HintIndex(p, req) < p.Sizes()
    requires s.threads[t] == BeginScan(p, req, attempts, hint)
    ensures Searching(s, t, p.FirstSuperblock(HintIndex(p, req)))
  {
    SearchStartInRange(p, HintIndex(p, req));
    SearchStarts(Words(s), req.lg2, p.FirstSuperblock(HintIndex(p, req)));
  }

  /** Being counted in does not depend on where the thread was before. */
  lemma PreparedGoto(s: State, t: nat, th: Thread, k: nat, req: Request, id: nat, lg2: nat)
    requires t < |s.threads| && id < |s.sbs| && k < |s.hints|
    ensures CountedIn(Prepared(s.Goto(t, th), k, req.lg2, id), t, req, id, lg2)
         == CountedIn(Prepared(s, k, req.lg2, id), t, req, id, lg2)
  {
    hide PostsHint, Suits;
    GotoTwice(s, t, th, SetBit(req, id, lg2, req.clock % Pow2(lg2)));
  }

  // ---------------------------------------------------------------- the block

  /** Thread t has its block and is back with its caller. */
  function Granted(s: State, t: nat, req: Request, id: nat, lg2: nat, bit: nat): State
    requires t < |s.threads| && id < |s.sbs|
  {
    var b := Block(id, bit, lg2, req.size);
    s.Write(id, s.sbs[id].(bits := s.sbs[id].bits + {bit})).(held := s.held + {b}, live := s.live + {b}).Goto(t, Idle)
  }

  lemma {:induction false} SettleAlone(p: Pool, s: State, t: nat, from: nat, seen: nat, target: nat)
    returns (bit: nat, n: nat)
    requires Inv(p, s) && t < |s.threads| && s.threads[t].SetBit? && s.threads[t].id < |s.sbs|
    requires var th := s.threads[t];
      from < Pow2(th.want) && seen <= target && SearchAt(s.sbs[th.id].bits, th.want, from, th.bit, seen, target)
    ensures p.Valid() && var th := s.threads[t];
      && Settled(s.sbs[th.id].bits, th.want, from, bit) && bit !in s.sbs[th.id].bits
      && Leads(p, s, t, Granted(s, t, th.req, th.id, th.want, bit), n)
    decreases target - seen, if s.threads[t].bit in s.sbs[s.threads[t].id].bits then 1 else 0
  {
    hide Inv, Moves, Pow2, Leads, SearchAt, Settled, FirstZero;
    var th := s.threads[t];
    var bits := s.sbs[th.id].bits;
    var s' := Forward(p, s, t);
    var free := ClaimantFree(p, s, t);
    if th.bit !in bits {
      SearchEnds(bits, th.want, from, th.bit, seen, target);
      bit, n := th.bit, 0;
      LeadsHere(p, s', t);
    } else {
      SearchStep(bits, th.want, from, th.bit, seen, target, free);
      var next := s'.threads[t];
      bit, n := SettleAlone(p, s', t, from, if next.bit in bits then seen + 1 else seen, target);
      GotoTwice(s, t, next, Idle);
      assert Granted(s', t, th.req, th.id, th.want, bit) == Granted(s, t, th.req, th.id, th.want, bit);
    }
    LeadsFrom(p, s, t, s', Granted(s, t, th.req, th.id, th.want, bit), n);
    n := n + 1;
  }

  /** From the bitset to the caller, beginning at the bit that the clock names. */
  lemma CountedInAlone(p: Pool, s: State, t: nat) returns (bit: nat, n: nat)
    requires Inv(p, s) && t < |s.threads| && s.threads[t].SetBit? && s.threads[t].id < |s.sbs|
    requires s.threads[t].bit == s.threads[t].req.clock % Pow2(s.threads[t].want)
    ensures p.Valid() && var th := s.threads[t];
      && Settled(s.sbs[th.id].bits, th.want, th.req.clock % Pow2(th.want), bit) && bit !in s.sbs[th.id].bits
      && Leads(p, s, t, Granted(s, t, th.req, th.id, th.want, bit), n)
  {
    hide Inv, Moves, Pow2, Leads, SearchAt, Settled, FirstZero;
    var th := s.threads[t];
    var free := ClaimantFree(p, s, t);
    var target := SearchBegins(s.sbs[th.id].bits, th.want, th.bit, free);
    TargetAhead(s.sbs[th.id].bits, th.want, th.bit, th.bit, 0, target);
    bit, n := SettleAlone(p, s, t, th.bit, 0, target);
  }

  lemma TargetAhead(bits: set<nat>, lg2: nat, hint: nat, bit: nat, seen: nat, target: nat)
    requires SearchAt(bits, lg2, hint, bit, seen, target)
    ensures seen <= target
  {}

  /**
   Superblock id, with the 2^lg2 blocks it gives, is the one a call for 2^want blocks per superblock takes
   alone: the hinted one if that has the wanted size and room, else the one that suits best.
   */
  ghost predicate Chosen(p: Pool, s: State, k: nat, want: nat, id: nat, lg2: nat)
    requires p.minLg2 <= p.maxLg2
  {
    && k < |s.hints| && s.hints[k] < |s.sbs| && id < |s.sbs|
    && if Suits(s.sbs[s.hints[k]].word, want) == 3 then id == s.hints[k] && lg2 == want
       else
         && BestFrom(Words(s), want, p.FirstSuperblock(k), id)
         && lg2 == (if Suits(s.sbs[id].word, want) == 2 then want else s.sbs[id].Lg2())
  }

  /** The pool after the call has taken its bit, relative to the one before. */
  ghost predicate Taken(s: State, k: nat, want: nat, id: nat, bit: nat, s': State) {
    && k < |s.hints| && s.hints[k] < |s.sbs| && id < |s.sbs|
    && var hinted := Suits(s.sbs[s.hints[k]].word, want) == 3;
      var word := s.sbs[id].word;
      var before := if !hinted && Suits(word, want) == 2 then EmptyWord(want) else word;
      && s'.sbs == s.sbs[id := Superblock(before + 1, s.sbs[id].bits + {bit})]
      && s'.hints == if !hinted && PostsHint(word, want) then s.hints[k := id] else s.hints
  }

  /** The call from the top of its loop. */
  lemma ServedAlone(p: Pool, s: State, t: nat, k: nat, want: nat)
    returns (s': State, n: nat, id: nat, lg2: nat, bit: nat)
    requires Inv(p, s) && t < |s.threads| && s.threads[t].Top? && s.threads[t].attempts != 0 && s.threads[t].sb < 0
    requires want == s.threads[t].want == s.threads[t].req.lg2 && k == HintIndex(p, s.threads[t].req)
    requires k < |s.hints| && !NoneServes(Words(s), want)
    ensures p.Valid() && Leads(p, s, t, s', n) && Chosen(p, s, k, want, id, lg2)
    ensures Taken(s, k, want, id, bit, s') && s'.threads == s.threads[t := Idle]
    ensures var req := s.threads[t].req;
      && Settled(s.sbs[id].bits, lg2, req.clock % Pow2(lg2), bit) && bit !in s.sbs[id].bits
      && s'.held == s.held + {Block(id, bit, lg2, req.size)} && s'.live == s.live + {Block(id, bit, lg2, req.size)}
  {
    hide Inv, Moves, Pow2, HeaderLg2, Used, Leads, BestFrom, NoneServes, Suits, Pool.FirstSuperblock, PostsHint,
      Settled;
    PointFacts(p, s, t);
    var req, h := s.threads[t].req, s.hints[k];
    SuitsMeans(s.sbs[h].word, want);
    var counted, n1;
    if Suits(s.sbs[h].word, want) == 3 {
      id, lg2, n1 := h, want, 3;
      HintAlone(p, s, t, h);
      counted := CountedIn(s, t, req, id, lg2);
    } else {
      counted, n1, id, lg2 := RoundAlone(p, s, t, h);
    }
    LeadsKeepsInv(p, s, t, counted, n1);
    var n2;
    bit, n2 := CountedInAlone(p, counted, t);
    s' := Granted(counted, t, req, id, lg2, bit);
    LeadsOn(p, s, t, counted, s', n1, n2);
    n := n1 + n2;
    GotoTwice(s, t, counted.threads[t], Idle);
  }

  /** Attempts that find nothing are used up one by one, and leave the pool as it was. */
  lemma {:induction false} RefusedAlone(p: Pool, s: State, t: nat) returns (n: nat)
    requires Inv(p, s) && t < |s.threads| && s.threads[t].Top? && s.threads[t].attempts >= 0 && s.threads[t].sb < 0
    requires s.threads[t].want == s.threads[t].req.lg2
    requires s.threads[t].attempts == 0 || NoneServes(Words(s), s.threads[t].want)
    ensures p.Valid() && Leads(p, s, t, s.Goto(t, Idle), n)
    decreases s.threads[t].attempts
  {
    hide Inv, Moves, Pow2, HeaderLg2, Used, Leads, Suits, Pool.FirstSuperblock;
    PointFacts(p, s, t);
    var th := s.threads[t];
    if th.attempts == 0 {
      var s' := Forward(p, s, t);
      LeadsHere(p, s', t);
      LeadsFrom(p, s, t, s', s', 0);
      n := 1;
    } else {
      InvInRange(p, s, t);
      var h := s.hints[HintIndex(p, th.req)];
      assert !CanServe(Words(s)[h], th.want);
      var s', n1, id, lg2 := RoundAlone(p, s, t, h);
      LeadsKeepsInv(p, s, t, s', n1);
      assert Words(s') == Words(s);
      var n2 := RefusedAlone(p, s', t);
      GotoTwice(s, t, s'.threads[t], Idle);
      LeadsOn(p, s, t, s', s.Goto(t, Idle), n1, n2);
      n := n1 + n2;
    }
  }

  /**
   A call of allocate by a thread that then runs alone, from any state that is reached with other threads
   wherever they are.  If some superblock can serve it, it returns a block of the one that suits best.
   */
  lemma AllocateAlone(p: Pool, n: nat, trace: seq<State>, k: nat, t: nat, size: nat, limit: int, clock: nat,
                      want: nat, index: nat)
    returns (called: State, s': State, m: nat, b: Block)
    requires p.Valid() && ThreadsFit(p, n) && Behaviour(p, n, trace) && k < |trace| && 1 <= size <= Pow2(p.maxLg2)
    requires t < |trace[k].threads| && trace[k].threads[t].Idle? && limit != 0
    requires want == p.sbLg2 - p.BlockSizeLg2(size) && index == p.BlockSizeLg2(size) - p.minLg2
    requires !NoneServes(Words(trace[k]), want)
    ensures Moves(p, trace[k], t, Allocate(size, limit, clock), called) && Leads(p, called, t, s', m)
    ensures b.size == size && Chosen(p, trace[k], index, want, b.sb, b.lg2)
    ensures b.bit !in trace[k].sbs[b.sb].bits && Settled(trace[k].sbs[b.sb].bits, b.lg2, clock % Pow2(b.lg2), b.bit)
    ensures Taken(trace[k], index, want, b.sb, b.bit, s')
    ensures s'.threads == trace[k].threads && s'.held == trace[k].held + {b} && s'.live == trace[k].live + {b}
  {
    hide Inv, Behaviour, Pow2, CanServe, Leads, Chosen, Settled, NoneServes;
    var s := trace[k];
    called := CallAlone(p, n, trace, k, t, size, limit, clock, want);
    var id, lg2, bit;
    s', m, id, lg2, bit := ServedAlone(p, called, t, index, want);
    b := Block(id, bit, lg2, size);
    GotoTwice(s, t, called.threads[t], Idle);
    SameChoice(p, s, called, index, want, id, lg2);
  }

  lemma SameChoice(p: Pool, s: State, called: State, k: nat, want: nat, id: nat, lg2: nat)
    requires p.minLg2 <= p.maxLg2 && called.sbs == s.sbs && called.hints == s.hints
    requires Chosen(p, called, k, want, id, lg2)
    ensures Chosen(p, s, k, want, id, lg2)
  {
    hide Suits, BestFrom, HeaderLg2;
    assert Words(called) == Words(s);
  }

  /** The first step of a call. */
  lemma CallAlone(p: Pool, n: nat, trace: seq<State>, k: nat, t: nat, size: nat, limit: int, clock: nat, want: nat)
    returns (called: State)
    requires p.Valid() && ThreadsFit(p, n) && Behaviour(p, n, trace) && k < |trace| && 1 <= size <= Pow2(p.maxLg2)
    requires t < |trace[k].threads| && trace[k].threads[t].Idle? && want == p.sbLg2 - p.BlockSizeLg2(size)
    ensures Moves(p, trace[k], t, Allocate(size, limit, clock), called) && Inv(p, called)
    ensures called == trace[k].Goto(t, Top(Request(size, want, clock), limit, -1, want))
    ensures |called.hints| == p.Sizes() && 0 <= HintIndex(p, Request(size, want, clock)) < p.Sizes()
    ensures Words(called) == Words(trace[k])
  {
    hide Inv, Behaviour, Pow2;
    EveryStateInv(p, n, trace, k);
    var s := trace[k];
    InvInRange(p, s, t);
    InvSizes(p, s);
    RequestFits(p, size);
    StepKeepsInv(p, s, t, Allocate(size, limit, clock));
    called := Step(p, s, t, Allocate(size, limit, clock));
    assert Words(called) == Words(s);
  }

  /**
   The calls that get no block.  A limit that is used up, or no superblock that can serve: the call returns
   and the pool is as it was.  A size of zero returns at once, and a size above the largest block aborts.
   */
  lemma AllocateAloneNull(p: Pool, n: nat, trace: seq<State>, k: nat, t: nat, size: nat, limit: int, clock: nat,
                          want: nat)
    returns (called: State, m: nat)
    requires p.Valid() && ThreadsFit(p, n) && Behaviour(p, n, trace) && k < |trace|
    requires t < |trace[k].threads| && trace[k].threads[t].Idle?
    requires 1 <= size <= Pow2(p.maxLg2) ==> want == p.sbLg2 - p.BlockSizeLg2(size) && limit >= 0
    requires 1 <= size <= Pow2(p.maxLg2) ==> limit == 0 || NoneServes(Words(trace[k]), want)
    ensures Moves(p, trace[k], t, Allocate(size, limit, clock), called)
    ensures if Pow2(p.maxLg2) < size then called == trace[k].Goto(t, Aborted(false))
            else Leads(p, called, t, trace[k], m)
  {
    hide Inv, Behaviour, Pow2, CanServe, Leads, NoneServes;
    var s := trace[k];
    m := 0;
    if 1 <= size <= Pow2(p.maxLg2) {
      called := CallAlone(p, n, trace, k, t, size, limit, clock, want);
      m := RefusedAlone(p, called, t);
      GotoTwice(s, t, called.threads[t], Idle);
    } else {
      EveryStateInv(p, n, trace, k);
      InvInRange(p, s, t);
      called := Step(p, s, t, Allocate(size, limit, clock));
      LeadsHere(p, called, t);
    }
  }
}
