/** Safety of the memory pool in every interleaving of any number of threads. */
module PoolSafety {
  import opened Powers
  import opened PoolGeometry
  import opened PoolMachine
  import Sums

  /**
   The used count has 26 bits.  The blocks of a superblock and one count for each thread share them, so
   the threads and the blocks of a superblock of the smallest size must stay below 2^26 together.
   */
  ghost predicate ThreadsFit(p: Pool, n: nat)
    requires p.Valid()
  {
    n + Pow2(p.sbLg2 - p.minLg2) < USED_SPAN
  }

  // ---------------------------------------------------------------- threads and their counts

  ghost function Counting(ths: seq<Thread>, i: nat): set<nat> {
    set t | 0 <= t < |ths| && ths[t].Counts(i)
  }

  ghost function Claiming(ths: seq<Thread>, i: nat): set<nat> {
    set t | 0 <= t < |ths| && ths[t].Claims(i)
  }

  lemma SetBelowSize(s: set<nat>, n: nat)
    requires forall x :: x in s ==> x < n
    ensures |s| <= n
    decreases n
  {
    if n == 0 {
      assert s == {};
    } else {
      SetBelowSize(s - {n - 1}, n - 1);
    }
  }

  /** Replacing one thread moves at most that thread in or out of the counted sets. */
  lemma CountingAfter(ths: seq<Thread>, t: nat, th: Thread, i: nat)
    requires t < |ths|
    ensures Counting(ths[t := th], i) == if th.Counts(i) then Counting(ths, i) + {t} else Counting(ths, i) - {t}
    ensures Claiming(ths[t := th], i) == if th.Claims(i) then Claiming(ths, i) + {t} else Claiming(ths, i) - {t}
    ensures t in Counting(ths, i) <==> ths[t].Counts(i)
    ensures t in Claiming(ths, i) <==> ths[t].Claims(i)
    ensures |Counting(ths, i)| <= |Counting(ths, i) + {t}| <= |ths| && |Claiming(ths, i)| <= |Counting(ths, i)|
  {
    SetBelowSize(Counting(ths, i) + {t}, |ths|);
    Sums.SubsetSize(Counting(ths, i), Counting(ths, i) + {t});
    Sums.SubsetSize(Claiming(ths, i), Counting(ths, i));
  }

  lemma SameCounts(ths: seq<Thread>, t: nat, th: Thread)
    requires t < |ths| && forall i: nat :: (th.Counts(i) <==> ths[t].Counts(i)) && (th.Claims(i) <==> ths[t].Claims(i))
    ensures forall i: nat ::
      Counting(ths[t := th], i) == Counting(ths, i) && Claiming(ths[t := th], i) == Claiming(ths, i)
  {
    forall i: nat
      ensures Counting(ths[t := th], i) == Counting(ths, i) && Claiming(ths[t := th], i) == Claiming(ths, i)
    {
      CountingAfter(ths, t, th, i);
    }
  }

  // ---------------------------------------------------------------- the invariant

  /** The used count of a superblock covers its set bits and every thread between count and bit. */
  ghost predicate SuperblockOk(p: Pool, sb: Superblock, counting: set<nat>, claiming: set<nat>)
    requires p.Valid()
  {
    && p.CountOk(sb.Lg2())
    && sb.word == EmptyWord(sb.Lg2()) + Used(sb.word)
    && (forall b :: b in sb.bits ==> b < Pow2(sb.Lg2()))
    && Used(sb.word) == |sb.bits| + |counting|
    && |sb.bits| + |claiming| <= Pow2(sb.Lg2())
  }

  /** A live block has its bit set in a superblock that still has the block's size. */
  ghost predicate BlockOk(p: Pool, sbs: seq<Superblock>, b: Block)
    requires p.Valid()
  {
    && b.sb < |sbs| && b.lg2 == sbs[b.sb].Lg2() && b.bit in sbs[b.sb].bits
    && b.lg2 <= p.sbLg2 && 1 <= b.size <= Pow2(p.sbLg2 - b.lg2)
  }

  ghost predicate RequestOk(p: Pool, req: Request)
    requires p.Valid()
  {
    && p.CountOk(req.lg2) && 1 <= req.size <= Pow2(p.sbLg2 - req.lg2)
  }

  /** The block count that a thread looks for gives blocks no smaller than its request needs. */
  ghost predicate WantOk(p: Pool, req: Request, want: nat)
    requires p.Valid()
  {
    p.CountOk(want) && want <= req.lg2
  }

  ghost predicate AllocOk(p: Pool, sbs: seq<Superblock>, th: Thread)
    requires p.Valid()
  {
    match th
    case Top(req, attempts, sb, want) => RequestOk(p, req) && WantOk(p, req, want) && sb < |sbs|
    case Probe(req, attempts, hint, id, want) => RequestOk(p, req) && WantOk(p, req, want) && id < |sbs| &&
      attempts != 0
    case Claim(req, attempts, hint, id, want) => RequestOk(p, req) && WantOk(p, req, want) && id < |sbs| &&
      attempts != 0
    case Unclaim(req, attempts, hint, id) => RequestOk(p, req) && id < |sbs| && attempts != 0
    case SetBit(req, id, want, bit) =>
      RequestOk(p, req) && WantOk(p, req, want) && id < |sbs| && want == sbs[id].Lg2() && bit < Pow2(want)
    case Scan(req, attempts, hint, i, id, empty, large, largeLg2) =>
      && RequestOk(p, req) && id < |sbs| && attempts != 0 && empty < |sbs| && large < |sbs|
      && (0 <= large ==> WantOk(p, req, largeLg2))
    case ReadEmpty(req, attempts, hint, id) => RequestOk(p, req) && id < |sbs| && attempts != 0
    case Reassign(req, attempts, hint, id, seen) => RequestOk(p, req) && id < |sbs| && attempts != 0 && p.CountOk(seen)
    case PostHint(req, attempts, hint, id) => RequestOk(p, req) && id < |sbs| && attempts != 0
    case Aborted(erroneous) => !erroneous
    case FreeCount(id) => id < |sbs|
    case _ => true
  }

  ghost predicate FreeOk(p: Pool, sbs: seq<Superblock>, th: Thread)
    requires p.Valid() && th.Frees() && BlockOk(p, sbs, th.block)
  {
    match th
    case FreeRead(d, b) => d == p.Address(b.sb, b.bit, b.lg2)
    case FreeCheck(id, bit, lg2, b) => id == b.sb && bit == b.bit && lg2 == b.lg2
    case FreeBit(id, bit, b) => id == b.sb && bit == b.bit
  }

  /** A freeing thread owns its block alone: nobody holds it and no other thread frees it. */
  ghost predicate OwnsFreed(s: State, t: nat)
    requires t < |s.threads| && s.threads[t].Frees()
  {
    && s.threads[t].block in s.live && s.threads[t].block !in s.held
    && forall t' :: 0 <= t' < |s.threads| && t' != t && s.threads[t'].Frees() ==>
      s.threads[t'].block != s.threads[t].block
  }

  ghost predicate BlocksOk(p: Pool, s: State)
    requires p.Valid()
  {
    && s.held <= s.live
    && (forall b :: b in s.live ==> BlockOk(p, s.sbs, b))
    && (forall b, c :: b in s.live && c in s.live && b.sb == c.sb && b.bit == c.bit ==> b == c)
  }

  /** Nothing leaks: each set bit belongs to a live block, and a live block is held or being freed. */
  ghost predicate Accounted(s: State) {
    && (forall i, bit :: 0 <= i < |s.sbs| && bit in s.sbs[i].bits ==>
      exists b :: b in s.live && b.sb == i && b.bit == bit)
    && (forall b :: b in s.live && b !in s.held ==>
      exists t :: 0 <= t < |s.threads| && s.threads[t].Frees() && s.threads[t].block == b)
  }

  ghost predicate Inv(p: Pool, s: State) {
    && p.Valid() && |s.sbs| == p.sbCount && |s.hints| == p.Sizes() && ThreadsFit(p, |s.threads|)
    && (forall i :: 0 <= i < |s.sbs| ==> SuperblockOk(p, s.sbs[i], Counting(s.threads, i), Claiming(s.threads, i)))
    && (forall k :: 0 <= k < |s.hints| ==> s.hints[k] < p.sbCount)
    && BlocksOk(p, s)
    && (forall t :: 0 <= t < |s.threads| ==> AllocOk(p, s.sbs, s.threads[t]))
    && (forall t :: 0 <= t < |s.threads| && s.threads[t].Frees() ==> OwnsFreed(s, t) && FreeOk(p, s.sbs, s.threads[t]))
    && Accounted(s)
  }

  // ---------------------------------------------------------------- the initial state

  lemma InitHolds(p: Pool, n: nat)
    requires p.Valid() && ThreadsFit(p, n)
    ensures Inv(p, Init(p, n))
  {
    var s := Init(p, n);
    forall i | 0 <= i < |s.sbs|
      ensures SuperblockOk(p, s.sbs[i], Counting(s.threads, i), Claiming(s.threads, i))
    {
      assert Counting(s.threads, i) == {} && Claiming(s.threads, i) == {};
    }
    forall k | 0 <= k < |s.hints| ensures s.hints[k] < p.sbCount {
      SearchStartInRange(p, k);
    }
  }

  // ---------------------------------------------------------------- steps that only move a thread

  /** Moving one thread between program points with equal counts, claims and ownership keeps the invariant. */
  lemma MoveKeepsInv(p: Pool, s: State, t: nat, th: Thread)
    requires Inv(p, s) && t < |s.threads| && AllocOk(p, s.sbs, th)
    requires forall i: nat :: (th.Counts(i) <==> s.threads[t].Counts(i)) && (th.Claims(i) <==> s.threads[t].Claims(i))
    requires th.Frees() <==> s.threads[t].Frees()
    requires th.Frees() ==> th.block == s.threads[t].block && FreeOk(p, s.sbs, th)
    ensures Inv(p, s.Goto(t, th))
  {
    hide Pow2, Pool.Address, AllocOk, SuperblockOk, Counting, Claiming, Accounted;
    var s' := s.Goto(t, th);
    SameCounts(s.threads, t, th);
    MoveKeepsAccounts(s, t, th);
    forall u | 0 <= u < |s'.threads| && s'.threads[u].Frees()
      ensures OwnsFreed(s', u) && FreeOk(p, s'.sbs, s'.threads[u])
    {
      assert s.threads[u].Frees() && OwnsFreed(s, u);
    }
  }

  lemma MoveKeepsAccounts(s: State, t: nat, th: Thread)
    requires Accounted(s) && t < |s.threads| && (th.Frees() <==> s.threads[t].Frees())
    requires th.Frees() ==> th.block == s.threads[t].block
    ensures Accounted(s.Goto(t, th))
  {
    var s' := s.Goto(t, th);
    forall b | b in s'.live && b !in s'.held
      ensures exists u :: 0 <= u < |s'.threads| && s'.threads[u].Frees() && s'.threads[u].block == b
    {
      var u :| 0 <= u < |s.threads| && s.threads[u].Frees() && s.threads[u].block == b;
      assert s'.threads[u].Frees() && s'.threads[u].block == b;
    }
  }

  /** A thread inside an acquire or a search carries valid indices. */
  lemma InvInRange(p: Pool, s: State, t: nat)
    requires Inv(p, s) && t < |s.threads|
    ensures InRange(p, s, s.threads[t])
  {
    assert AllocOk(p, s.sbs, s.threads[t]);
    if s.threads[t].Frees() { assert OwnsFreed(s, t); }
  }

  lemma NewRequestOk(p: Pool, size: nat, clock: nat)
    requires p.Valid() && 1 <= size <= Pow2(p.maxLg2)
    ensures p.minLg2 <= p.BlockSizeLg2(size) <= p.maxLg2
    ensures var lg2 := p.sbLg2 - p.BlockSizeLg2(size);
            RequestOk(p, Request(size, lg2, clock)) && WantOk(p, Request(size, lg2, clock), lg2)
  {
    RequestFits(p, size);
  }

  lemma AllocateKeepsInv(p: Pool, s: State, t: nat, size: nat, attempts: int, clock: nat)
    requires Inv(p, s) && t < |s.threads| && s.threads[t].Idle?
    ensures Inv(p, StepIdle(p, s, t, Allocate(size, attempts, clock)))
  {
    if size != 0 || Pow2(p.maxLg2) < size {
      var th := StepIdle(p, s, t, Allocate(size, attempts, clock)).threads[t];
      if size <= Pow2(p.maxLg2) {
        NewRequestOk(p, size, clock);
      }
      MoveKeepsInv(p, s, t, th);
    }
  }

  /** Giving up a held block makes the thread its only owner. */
  lemma GiveUpKeepsOwners(p: Pool, s: State, t: nat, b: Block, th: Thread)
    requires Inv(p, s) && t < |s.threads| && s.threads[t].Idle? && b in s.held
    requires th.FreeRead? && th.block == b
    ensures var s' := s.(held := s.held - {b}).Goto(t, th);
            && (forall u :: 0 <= u < |s'.threads| && s'.threads[u].Frees() ==> OwnsFreed(s', u))
            && (forall u :: 0 <= u < |s'.threads| ==> AllocOk(p, s'.sbs, s'.threads[u]))
            && Accounted(s')
  {
    hide FreeOk, SuperblockOk, BlockOk;
    var s' := s.(held := s.held - {b}).Goto(t, th);
    forall u | 0 <= u < |s'.threads| && s'.threads[u].Frees() ensures OwnsFreed(s', u) {
      if u != t { assert s.threads[u].Frees() && OwnsFreed(s, u); }
    }
    forall c | c in s'.live && c !in s'.held
      ensures exists u :: 0 <= u < |s'.threads| && s'.threads[u].Frees() && s'.threads[u].block == c
    {
      if c == b {
        assert s'.threads[t].Frees();
      } else {
        var u :| 0 <= u < |s.threads| && s.threads[u].Frees() && s.threads[u].block == c;
        assert s'.threads[u].Frees() && s'.threads[u].block == c;
      }
    }
  }

  lemma HeldIsLive(p: Pool, s: State, b: Block)
    requires Inv(p, s) && b in s.held
    ensures b in s.live
  {}

  lemma DeallocateKeepsInv(p: Pool, s: State, t: nat, b: Block)
    requires Inv(p, s) && t < |s.threads| && s.threads[t].Idle? && b in s.held
    ensures b.lg2 <= p.sbLg2 && Inv(p, StepIdle(p, s, t, Deallocate(b)))
  {
    hide Pool.Address, Accounted, AllocOk, SuperblockOk, OwnsFreed, FreeOk, BlockOk, BlocksOk, Pow2, Counting, Claiming;
    assert b in s.live by { HeldIsLive(p, s, b); }
    GiveUpKeepsBlocks(p, s, t, b);
    var th := FreeRead(p.Address(b.sb, b.bit, b.lg2), b);
    var s' := s.(held := s.held - {b}).Goto(t, th);
    GiveUpKeepsOwners(p, s, t, b, th);
    SameCounts(s.threads, t, th);
  }

  lemma GiveUpKeepsBlocks(p: Pool, s: State, t: nat, b: Block)
    requires Inv(p, s) && t < |s.threads| && s.threads[t].Idle? && b in s.held
    ensures b.lg2 <= p.sbLg2
    ensures var s' := s.(held := s.held - {b}).Goto(t, FreeRead(p.Address(b.sb, b.bit, b.lg2), b));
      && BlocksOk(p, s')
      && forall u :: 0 <= u < |s'.threads| && s'.threads[u].Frees() ==>
           BlockOk(p, s'.sbs, s'.threads[u].block) && FreeOk(p, s'.sbs, s'.threads[u])
  {
    hide Pool.Address, Accounted, AllocOk, SuperblockOk, Pow2;
    assert BlockOk(p, s.sbs, b);
    var s' := s.(held := s.held - {b}).Goto(t, FreeRead(p.Address(b.sb, b.bit, b.lg2), b));
    forall u | 0 <= u < |s'.threads| && s'.threads[u].Frees()
      ensures BlockOk(p, s'.sbs, s'.threads[u].block) && FreeOk(p, s'.sbs, s'.threads[u])
    {
      if u != t { assert OwnsFreed(s, u); }
    }
  }

  lemma TopKeepsInv(p: Pool, s: State, t: nat)
    requires Inv(p, s) && t < |s.threads| && s.threads[t].Top? && InRange(p, s, s.threads[t])
    ensures Inv(p, StepTop(p, s, t))
  {
    var Top(req, attempts, sb, want) := s.threads[t];
    assert AllocOk(p, s.sbs, s.threads[t]);
    if attempts == 0 {
      MoveKeepsInv(p, s, t, Idle);
    } else if sb < 0 {
      var h := s.hints[HintIndex(p, req)];
      MoveKeepsInv(p, s, t, Probe(req, attempts, h, h, want));
    } else {
      MoveKeepsInv(p, s, t, Probe(req, attempts, -1, sb, want));
    }
  }

  lemma BeginScanOk(p: Pool, s: State, req: Request, attempts: int, hint: int)
    requires Inv(p, s) && RequestOk(p, req) && attempts != 0
    ensures 0 <= HintIndex(p, req) < p.Sizes() && AllocOk(p, s.sbs, BeginScan(p, req, attempts, hint))
  {
    SearchStartInRange(p, HintIndex(p, req));
  }

  lemma ProbeKeepsInv(p: Pool, s: State, t: nat)
    requires Inv(p, s) && t < |s.threads| && s.threads[t].Probe? && InRange(p, s, s.threads[t])
    ensures Inv(p, StepProbe(p, s, t))
  {
    var Probe(req, attempts, hint, id, want) := s.threads[t];
    assert AllocOk(p, s.sbs, s.threads[t]);
    BeginScanOk(p, s, req, attempts, hint);
    MoveKeepsInv(p, s, t, if s.sbs[id].Lg2() == want then Claim(req, attempts, hint, id, want)
                          else BeginScan(p, req, attempts, hint));
  }

  lemma ScanKeepsInv(p: Pool, s: State, t: nat)
    requires Inv(p, s) && t < |s.threads| && s.threads[t].Scan? && InRange(p, s, s.threads[t])
    ensures Inv(p, StepScan(p, s, t))
  {
    hide Pow2, Pool.Address, Accounted, BlocksOk, OwnsFreed;
    assert AllocOk(p, s.sbs, s.threads[t]);
    var s' := StepScan(p, s, t);
    var id := s.threads[t].id;
    assert SuperblockOk(p, s.sbs[id], Counting(s.threads, id), Claiming(s.threads, id));
    MoveKeepsInv(p, s, t, s'.threads[t]);
  }

  lemma ReadEmptyKeepsInv(p: Pool, s: State, t: nat)
    requires Inv(p, s) && t < |s.threads| && s.threads[t].ReadEmpty? && InRange(p, s, s.threads[t])
    ensures Inv(p, StepReadEmpty(s, t))
  {
    assert AllocOk(p, s.sbs, s.threads[t]);
    var id := s.threads[t].id;
    assert SuperblockOk(p, s.sbs[id], Counting(s.threads, id), Claiming(s.threads, id));
    MoveKeepsInv(p, s, t, StepReadEmpty(s, t).threads[t]);
  }

  lemma PostHintKeepsInv(p: Pool, s: State, t: nat)
    requires Inv(p, s) && t < |s.threads| && s.threads[t].PostHint? && InRange(p, s, s.threads[t])
    ensures Inv(p, StepPostHint(p, s, t))
  {
    assert AllocOk(p, s.sbs, s.threads[t]);
    var s' := StepPostHint(p, s, t);
    var s1 := s.(hints := s'.hints);
    assert Inv(p, s1) by {
      forall u | 0 <= u < |s1.threads| && s1.threads[u].Frees()
        ensures OwnsFreed(s1, u) && FreeOk(p, s1.sbs, s1.threads[u])
      {
        assert OwnsFreed(s, u);
      }
    }
    MoveKeepsInv(p, s1, t, s'.threads[t]);
    assert s' == s1.Goto(t, s'.threads[t]);
  }

  // ---------------------------------------------------------------- steps that write a superblock

  /** Every live block and every owner is untouched by a write that keeps header and bits. */
  lemma WriteKeepsBlocks(p: Pool, s: State, t: nat, th: Thread, id: nat, word: nat)
    requires Inv(p, s) && t < |s.threads| && id < |s.sbs| && HeaderLg2(word) == s.sbs[id].Lg2()
    requires !th.Frees() && !s.threads[t].Frees() && AllocOk(p, s.sbs, th)
    ensures var s' := s.Write(id, s.sbs[id].(word := word)).Goto(t, th);
            && BlocksOk(p, s') && Accounted(s')
            && (forall u :: 0 <= u < |s'.threads| ==> AllocOk(p, s'.sbs, s'.threads[u]))
            && (forall u :: 0 <= u < |s'.threads| && s'.threads[u].Frees() ==>
              OwnsFreed(s', u) && FreeOk(p, s'.sbs, s'.threads[u]))
  {
    hide Pow2, SuperblockOk, Counting, Claiming;
    var s' := s.Write(id, s.sbs[id].(word := word)).Goto(t, th);
    forall u | 0 <= u < |s'.threads| ensures AllocOk(p, s'.sbs, s'.threads[u]) {
      assert u != t ==> AllocOk(p, s.sbs, s.threads[u]);
    }
    forall u | 0 <= u < |s'.threads| && s'.threads[u].Frees()
      ensures OwnsFreed(s', u) && FreeOk(p, s'.sbs, s'.threads[u])
    {
      assert s.threads[u].Frees() && OwnsFreed(s, u);
    }
    forall b | b in s'.live && b !in s'.held
      ensures exists u :: 0 <= u < |s'.threads| && s'.threads[u].Frees() && s'.threads[u].block == b
    {
      var u :| 0 <= u < |s.threads| && s.threads[u].Frees() && s.threads[u].block == b;
      assert s'.threads[u].Frees() && s'.threads[u].block == b;
    }
  }

  /** The first atomic add of an acquire, whether or not it earns the caller a block. */
  lemma CountUpKeepsInv(p: Pool, s: State, t: nat, th: Thread, id: nat)
    requires Inv(p, s) && t < |s.threads| && id < |s.sbs| && AllocOk(p, s.sbs, th)
    requires !s.threads[t].Frees() && !th.Frees() && th.Counts(id)
    requires forall i: nat :: !s.threads[t].Counts(i) && (i != id ==> !th.Counts(i))
    requires th.Claims(id) ==> Used(s.sbs[id].word) < Pow2(s.sbs[id].Lg2())
    ensures Inv(p, s.Write(id, s.sbs[id].(word := FetchAdd(s.sbs[id].word, 1))).Goto(t, th))
  {
    hide AllocOk, FreeOk, OwnsFreed, BlocksOk, BlockOk, Accounted, FetchAdd, HeaderLg2, Pow2, SuperblockOk, Counting,
      Claiming;
    var sb := s.sbs[id];
    CountUpSuperblock(p, s, t, th, id);
    WriteKeepsBlocks(p, s, t, th, id, FetchAdd(sb.word, 1));
    OtherSuperblocks(p, s, t, th, id);
  }

  lemma CountUpSuperblock(p: Pool, s: State, t: nat, th: Thread, id: nat)
    requires Inv(p, s) && t < |s.threads| && id < |s.sbs| && th.Counts(id) && !s.threads[t].Counts(id)
    requires th.Claims(id) ==> Used(s.sbs[id].word) < Pow2(s.sbs[id].Lg2())
    ensures HeaderLg2(FetchAdd(s.sbs[id].word, 1)) == s.sbs[id].Lg2()
    ensures SuperblockOk(p, s.sbs[id].(word := FetchAdd(s.sbs[id].word, 1)),
                         Counting(s.threads[t := th], id), Claiming(s.threads[t := th], id))
  {
    hide AllocOk, FreeOk, OwnsFreed, BlocksOk, Accounted, FetchAdd, HeaderLg2, Pow2, SuperblockOk, Counting, Claiming;
    var sb, counting, claiming := s.sbs[id], Counting(s.threads, id), Claiming(s.threads, id);
    assert SuperblockOk(p, sb, counting, claiming);
    CountingAfter(s.threads, t, th, id);
    assert t !in claiming;
    if !th.Claims(id) { assert claiming - {t} == claiming; }
    CountedUp(p, sb, counting, claiming, t, if th.Claims(id) then claiming + {t} else claiming);
  }

  /** Superblocks other than the one a thread works on keep their counts. */
  lemma OtherSuperblocks(p: Pool, s: State, t: nat, th: Thread, id: nat)
    requires Inv(p, s) && t < |s.threads|
    requires forall i: nat :: i != id ==> !th.Counts(i) && !s.threads[t].Counts(i)
    ensures forall i: nat :: i < |s.sbs| && i != id ==>
              SuperblockOk(p, s.sbs[i], Counting(s.threads[t := th], i), Claiming(s.threads[t := th], i))
  {
    forall i: nat | i < |s.sbs| && i != id
      ensures SuperblockOk(p, s.sbs[i], Counting(s.threads[t := th], i), Claiming(s.threads[t := th], i))
    {
      CountingAfter(s.threads, t, th, i);
      assert SuperblockOk(p, s.sbs[i], Counting(s.threads, i), Claiming(s.threads, i));
      assert Counting(s.threads[t := th], i) == Counting(s.threads, i);
      assert Claiming(s.threads[t := th], i) == Claiming(s.threads, i);
    }
  }

  lemma BlockCountBound(p: Pool, sb: Superblock, claiming: set<nat>)
    requires p.Valid() && p.CountOk(sb.Lg2()) && |sb.bits| + |claiming| <= Pow2(sb.Lg2())
    ensures |sb.bits| <= Pow2(p.sbLg2 - p.minLg2)
  {
    Pow2Monotone(sb.Lg2(), p.sbLg2 - p.minLg2);
  }

  /** The effect on one superblock of the four atomic updates of its word and bits. */
  lemma CountedUp(p: Pool, sb: Superblock, counting: set<nat>, claiming: set<nat>, t: nat, claiming': set<nat>)
    requires p.Valid() && SuperblockOk(p, sb, counting, claiming) && t !in counting && t !in claiming
    requires ThreadsFit(p, |counting + {t}|)
    requires claiming' == claiming || (claiming' == claiming + {t} && |claiming| <= |counting| &&
      Used(sb.word) < Pow2(sb.Lg2()))
    ensures HeaderLg2(FetchAdd(sb.word, 1)) == sb.Lg2()
    ensures SuperblockOk(p, sb.(word := FetchAdd(sb.word, 1)), counting + {t}, claiming')
  {
    BlockCountBound(p, sb, claiming);
    WordParts(FetchAdd(sb.word, 1), sb.Lg2(), Used(sb.word) + 1);
  }

  lemma CountedDown(p: Pool, sb: Superblock, counting: set<nat>, claiming: set<nat>, t: nat)
    requires p.Valid() && SuperblockOk(p, sb, counting, claiming) && t in counting && t !in claiming
    ensures HeaderLg2(FetchAdd(sb.word, -1)) == sb.Lg2()
    ensures SuperblockOk(p, sb.(word := FetchAdd(sb.word, -1)), counting - {t}, claiming)
  {
    assert |counting| == |counting - {t}| + 1;
    WordParts(FetchAdd(sb.word, -1), sb.Lg2(), Used(sb.word) - 1);
  }

  lemma Granted(p: Pool, sb: Superblock, counting: set<nat>, claiming: set<nat>, t: nat, bit: nat)
    requires p.Valid() && SuperblockOk(p, sb, counting, claiming) && t in counting && t in claiming
    requires bit < Pow2(sb.Lg2()) && bit !in sb.bits
    ensures SuperblockOk(p, sb.(bits := sb.bits + {bit}), counting - {t}, claiming - {t})
  {
    assert |counting| == |counting - {t}| + 1;
    assert |claiming| == |claiming - {t}| + 1;
  }

  lemma Released(p: Pool, sb: Superblock, counting: set<nat>, claiming: set<nat>, t: nat, bit: nat)
    requires p.Valid() && SuperblockOk(p, sb, counting, claiming) && t !in counting && bit in sb.bits
    ensures SuperblockOk(p, sb.(bits := sb.bits - {bit}), counting + {t}, claiming)
  {
    assert |sb.bits| == |sb.bits - {bit}| + 1;
  }

  /** Taking the count back, after a failed acquire or at the end of a release. */
  lemma CountDownKeepsInv(p: Pool, s: State, t: nat, th: Thread, id: nat)
    requires Inv(p, s) && t < |s.threads| && id < |s.sbs| && AllocOk(p, s.sbs, th)
    requires !s.threads[t].Frees() && !th.Frees() && s.threads[t].Counts(id) && !s.threads[t].Claims(id)
    requires forall i: nat :: !th.Counts(i) && !th.Claims(i)
    ensures Inv(p, s.Write(id, s.sbs[id].(word := FetchAdd(s.sbs[id].word, -1))).Goto(t, th))
  {
    hide AllocOk, FreeOk, OwnsFreed, BlocksOk, Accounted, Pool.Address;
    var sb := s.sbs[id];
    var s' := s.Write(id, sb.(word := FetchAdd(sb.word, -1))).Goto(t, th);
    assert SuperblockOk(p, sb, Counting(s.threads, id), Claiming(s.threads, id));
    CountingAfter(s.threads, t, th, id);
    CountedDown(p, sb, Counting(s.threads, id), Claiming(s.threads, id), t);
    WriteKeepsBlocks(p, s, t, th, id, FetchAdd(sb.word, -1));
    assert Claiming(s'.threads, id) == Claiming(s.threads, id);
    OtherSuperblocks(p, s, t, th, id);
  }

  lemma ClaimKeepsInv(p: Pool, s: State, t: nat)
    requires Inv(p, s) && t < |s.threads| && s.threads[t].Claim? && InRange(p, s, s.threads[t])
    ensures Inv(p, StepClaim(p, s, t))
  {
    var Claim(req, attempts, hint, id, want) := s.threads[t];
    assert AllocOk(p, s.sbs, s.threads[t]);
    var bit := req.clock % Pow2(want);
    var sb := s.sbs[id];
    if sb.Lg2() != want || Pow2(want) <= Used(sb.word) {
      CountUpKeepsInv(p, s, t, Unclaim(req, attempts, hint, id), id);
    } else {
      CountUpKeepsInv(p, s, t, SetBit(req, id, want, bit), id);
    }
  }

  lemma UnclaimKeepsInv(p: Pool, s: State, t: nat)
    requires Inv(p, s) && t < |s.threads| && s.threads[t].Unclaim? && InRange(p, s, s.threads[t])
    ensures Inv(p, StepUnclaim(p, s, t))
  {
    var Unclaim(req, attempts, hint, id) := s.threads[t];
    assert AllocOk(p, s.sbs, s.threads[t]);
    BeginScanOk(p, s, req, attempts, hint);
    CountDownKeepsInv(p, s, t, BeginScan(p, req, attempts, hint), id);
  }

  lemma FreeCountKeepsInv(p: Pool, s: State, t: nat)
    requires Inv(p, s) && t < |s.threads| && s.threads[t].FreeCount? && InRange(p, s, s.threads[t])
    ensures Inv(p, StepFreeCount(s, t))
  {
    CountDownKeepsInv(p, s, t, Idle, s.threads[t].id);
  }

  // ---------------------------------------------------------------- setting and clearing a block's bit

  /** A claimant always has a free block to find: the wait of the search loop is never for nothing. */
  lemma ClaimantHasFreeBlock(p: Pool, s: State, t: nat) returns (free: nat)
    requires Inv(p, s) && t < |s.threads| && s.threads[t].SetBit?
    ensures s.threads[t].id < |s.sbs| && s.threads[t].want == s.sbs[s.threads[t].id].Lg2()
    ensures free < Pow2(s.threads[t].want) && free !in s.sbs[s.threads[t].id].bits
  {
    var id := s.threads[t].id;
    assert AllocOk(p, s.sbs, s.threads[t]);
    assert SuperblockOk(p, s.sbs[id], Counting(s.threads, id), Claiming(s.threads, id));
    assert t in Claiming(s.threads, id);
    assert |Claiming(s.threads, id)| == |Claiming(s.threads, id) - {t}| + 1;
    free := FreeNumber(s.sbs[id].bits, Pow2(s.threads[t].want));
  }

  lemma GrantedBlockOk(p: Pool, s: State, t: nat)
    requires Inv(p, s) && t < |s.threads| && s.threads[t].SetBit? && InRange(p, s, s.threads[t])
    requires s.threads[t].bit !in s.sbs[s.threads[t].id].bits
    ensures var SetBit(req, id, want, bit) := s.threads[t];
      BlockOk(p, StepSetBit(s, t).sbs, Block(id, bit, want, req.size))
  {
    hide FreeOk, OwnsFreed, Accounted, SuperblockOk, BlocksOk, Pow2, HeaderLg2, Counting, Claiming;
    var SetBit(req, id, want, bit) := s.threads[t];
    assert AllocOk(p, s.sbs, s.threads[t]);
    Pow2Monotone(p.sbLg2 - req.lg2, p.sbLg2 - want);
  }

  /** Granting a clear bit gives the caller a block that nobody else has. */
  lemma GrantIsNew(p: Pool, s: State, t: nat)
    requires Inv(p, s) && t < |s.threads| && s.threads[t].SetBit? && InRange(p, s, s.threads[t])
    requires s.threads[t].bit !in s.sbs[s.threads[t].id].bits
    ensures BlocksOk(p, StepSetBit(s, t))
  {
    hide FreeOk, OwnsFreed, Accounted, SuperblockOk, AllocOk, Pow2;
    GrantedBlockOk(p, s, t);
    var SetBit(req, id, want, bit) := s.threads[t];
    var s' := StepSetBit(s, t);
    forall c | c in s.live ensures BlockOk(p, s'.sbs, c) && (c.sb != id || c.bit != bit) {
      assert BlockOk(p, s.sbs, c);
    }
  }

  lemma GrantIsAccounted(p: Pool, s: State, t: nat)
    requires Inv(p, s) && t < |s.threads| && s.threads[t].SetBit? && InRange(p, s, s.threads[t])
    requires s.threads[t].bit !in s.sbs[s.threads[t].id].bits
    ensures Accounted(StepSetBit(s, t))
  {
    var SetBit(req, id, want, bit) := s.threads[t];
    var s' := StepSetBit(s, t);
    var b := Block(id, bit, want, req.size);
    forall i, k | 0 <= i < |s'.sbs| && k in s'.sbs[i].bits ensures exists c :: c in s'.live && c.sb == i && c.bit == k {
      if i == id && k == bit {
        assert b in s'.live;
      } else {
        assert k in s.sbs[i].bits;
        var c :| c in s.live && c.sb == i && c.bit == k;
        assert c in s'.live;
      }
    }
    forall c | c in s'.live && c !in s'.held
      ensures exists u :: 0 <= u < |s'.threads| && s'.threads[u].Frees() && s'.threads[u].block == c
    {
      var u :| 0 <= u < |s.threads| && s.threads[u].Frees() && s.threads[u].block == c;
      assert s'.threads[u].Frees() && s'.threads[u].block == c;
    }
  }

  lemma GrantKeepsAcquiring(p: Pool, s: State, t: nat, u: nat)
    requires Inv(p, s) && t < |s.threads| && s.threads[t].SetBit? && InRange(p, s, s.threads[t]) && u < |s.threads|
    requires s.threads[t].bit !in s.sbs[s.threads[t].id].bits
    ensures AllocOk(p, StepSetBit(s, t).sbs, StepSetBit(s, t).threads[u])
  {
    hide OwnsFreed, FreeOk, BlocksOk, Accounted, SuperblockOk, Pow2;
    assert AllocOk(p, s.sbs, s.threads[u]);
  }

  lemma GrantKeepsFreeing(p: Pool, s: State, t: nat, u: nat)
    requires Inv(p, s) && t < |s.threads| && s.threads[t].SetBit? && InRange(p, s, s.threads[t])
    requires s.threads[t].bit !in s.sbs[s.threads[t].id].bits
    requires u < |StepSetBit(s, t).threads| && StepSetBit(s, t).threads[u].Frees()
    ensures var s' := StepSetBit(s, t);
      OwnsFreed(s', u) && BlockOk(p, s'.sbs, s'.threads[u].block) && FreeOk(p, s'.sbs, s'.threads[u])
  {
    hide AllocOk, Accounted, SuperblockOk, Pow2, Pool.Address;
    assert OwnsFreed(s, u) && BlockOk(p, s.sbs, s.threads[u].block) && FreeOk(p, s.sbs, s.threads[u]);
  }

  lemma GrantKeepsInv(p: Pool, s: State, t: nat)
    requires Inv(p, s) && t < |s.threads| && s.threads[t].SetBit? && InRange(p, s, s.threads[t])
    requires s.threads[t].bit !in s.sbs[s.threads[t].id].bits
    ensures Inv(p, StepSetBit(s, t))
  {
    hide FreeOk, OwnsFreed, BlocksOk, Accounted;
    var SetBit(req, id, want, bit) := s.threads[t];
    GrantIsNew(p, s, t);
    GrantIsAccounted(p, s, t);
    forall u | 0 <= u < |s.threads| ensures AllocOk(p, StepSetBit(s, t).sbs, StepSetBit(s, t).threads[u]) {
      GrantKeepsAcquiring(p, s, t, u);
    }
    forall u | 0 <= u < |s.threads| && StepSetBit(s, t).threads[u].Frees()
      ensures var s' := StepSetBit(s, t);
        OwnsFreed(s', u) && BlockOk(p, s'.sbs, s'.threads[u].block) && FreeOk(p, s'.sbs, s'.threads[u])
    {
      GrantKeepsFreeing(p, s, t, u);
    }
    CountingAfter(s.threads, t, Idle, id);
    assert AllocOk(p, s.sbs, s.threads[t]);
    Granted(p, s.sbs[id], Counting(s.threads, id), Claiming(s.threads, id), t, bit);
    OtherSuperblocks(p, s, t, Idle, id);
  }

  lemma SetBitKeepsInv(p: Pool, s: State, t: nat)
    requires Inv(p, s) && t < |s.threads| && s.threads[t].SetBit? && InRange(p, s, s.threads[t])
    ensures Inv(p, StepSetBit(s, t))
  {
    var SetBit(req, id, want, bit) := s.threads[t];
    var bits := s.sbs[id].bits;
    if bit in bits {
      assert AllocOk(p, s.sbs, s.threads[t]);
      var free := ClaimantHasFreeBlock(p, s, t);
      NextBitInRange(bits, bit, want, free);
      MoveKeepsInv(p, s, t, SetBit(req, id, want, NextBit(bits, bit, want)));
    } else {
      GrantKeepsInv(p, s, t);
    }
  }

  // ---------------------------------------------------------------- reassigning an empty superblock

  /** A zero used count means no block is live there and no thread is between count and bit. */
  lemma ZeroUsedIsEmpty(p: Pool, s: State, id: nat)
    requires Inv(p, s) && id < |s.sbs| && Used(s.sbs[id].word) == 0
    ensures s.sbs[id].bits == {}
    ensures forall b :: b in s.live ==> b.sb != id
    ensures forall t :: 0 <= t < |s.threads| ==> !s.threads[t].Counts(id)
  {
    assert SuperblockOk(p, s.sbs[id], Counting(s.threads, id), Claiming(s.threads, id));
    forall b | b in s.live ensures b.sb != id { assert BlockOk(p, s.sbs, b); }
    forall t | 0 <= t < |s.threads| ensures !s.threads[t].Counts(id) {
      assert t !in Counting(s.threads, id);
    }
  }

  lemma ReassignKeepsInv(p: Pool, s: State, t: nat)
    requires Inv(p, s) && t < |s.threads| && s.threads[t].Reassign? && InRange(p, s, s.threads[t])
    ensures Inv(p, StepReassign(s, t))
  {
    var Reassign(req, attempts, hint, id, seen) := s.threads[t];
    assert AllocOk(p, s.sbs, s.threads[t]);
    if s.sbs[id].word == EmptyWord(seen) {
      WordParts(s.sbs[id].word, seen, 0);
      WordParts(EmptyWord(req.lg2), req.lg2, 0);
      ZeroUsedIsEmpty(p, s, id);
      var s1 := s.Write(id, s.sbs[id].(word := EmptyWord(req.lg2)));
      EmptyWriteKeepsInv(p, s, id, req.lg2);
      MoveKeepsInv(p, s1, t, PostHint(req, attempts, hint, id));
    } else {
      MoveKeepsInv(p, s, t, Top(req, attempts, id, req.lg2));
    }
  }

  lemma EmptyWriteKeepsInv(p: Pool, s: State, id: nat, lg2: nat)
    requires Inv(p, s) && id < |s.sbs| && Used(s.sbs[id].word) == 0 && p.CountOk(lg2)
    ensures Inv(p, s.Write(id, s.sbs[id].(word := EmptyWord(lg2))))
  {
    var s' := s.Write(id, s.sbs[id].(word := EmptyWord(lg2)));
    WordParts(EmptyWord(lg2), lg2, 0);
    ZeroUsedIsEmpty(p, s, id);
    assert SuperblockOk(p, s.sbs[id], Counting(s.threads, id), Claiming(s.threads, id));
    assert Counting(s.threads, id) == {} && Claiming(s.threads, id) == {};
    forall b | b in s'.live ensures BlockOk(p, s'.sbs, b) { assert BlockOk(p, s.sbs, b); }
    forall u | 0 <= u < |s'.threads| ensures AllocOk(p, s'.sbs, s'.threads[u]) {
      assert AllocOk(p, s.sbs, s.threads[u]) && !s.threads[u].Counts(id);
    }
    forall u | 0 <= u < |s'.threads| && s'.threads[u].Frees()
      ensures OwnsFreed(s', u) && FreeOk(p, s'.sbs, s'.threads[u])
    {
      assert OwnsFreed(s, u) && BlockOk(p, s.sbs, s.threads[u].block);
    }
  }

  // ---------------------------------------------------------------- deallocate

  /** The address of a live block passes deallocate's checks and leads back to that very block. */
  lemma FreeReadKeepsInv(p: Pool, s: State, t: nat)
    requires Inv(p, s) && t < |s.threads| && s.threads[t].FreeRead?
    ensures var b := s.threads[t].block;
            StepFreeRead(p, s, t) == s.Goto(t, FreeCheck(b.sb, b.bit, b.lg2, b))
    ensures Inv(p, StepFreeRead(p, s, t))
  {
    var b := s.threads[t].block;
    assert s.threads[t].Frees() && OwnsFreed(s, t) && BlockOk(p, s.sbs, b) && FreeOk(p, s.sbs, s.threads[t]);
    assert SuperblockOk(p, s.sbs[b.sb], Counting(s.threads, b.sb), Claiming(s.threads, b.sb));
    AddressDecodes(p, b.sb, b.bit, b.lg2);
    MoveKeepsInv(p, s, t, FreeCheck(b.sb, b.bit, b.lg2, b));
  }

  lemma FreeCheckKeepsInv(p: Pool, s: State, t: nat)
    requires Inv(p, s) && t < |s.threads| && s.threads[t].FreeCheck? && InRange(p, s, s.threads[t])
    ensures var b := s.threads[t].block;
            StepFreeCheck(s, t) == s.Goto(t, FreeBit(b.sb, b.bit, b))
    ensures Inv(p, StepFreeCheck(s, t))
  {
    var b := s.threads[t].block;
    assert s.threads[t].Frees() && OwnsFreed(s, t) && BlockOk(p, s.sbs, b) && FreeOk(p, s.sbs, s.threads[t]);
    MoveKeepsInv(p, s, t, FreeBit(b.sb, b.bit, b));
  }

  lemma ReleaseKeepsBlocks(p: Pool, s: State, t: nat)
    requires Inv(p, s) && t < |s.threads| && s.threads[t].FreeBit? && InRange(p, s, s.threads[t])
    ensures s.threads[t].bit in s.sbs[s.threads[t].id].bits
    ensures BlocksOk(p, StepFreeBit(s, t)) && Accounted(StepFreeBit(s, t))
  {
    hide Pow2, SuperblockOk, Counting, Claiming, AllocOk;
    var FreeBit(id, bit, b) := s.threads[t];
    assert s.threads[t].Frees() && OwnsFreed(s, t) && BlockOk(p, s.sbs, b) && FreeOk(p, s.sbs, s.threads[t]);
    var s' := StepFreeBit(s, t);
    forall c | c in s'.live ensures BlockOk(p, s'.sbs, c) { assert BlockOk(p, s.sbs, c); }
    forall i, k | 0 <= i < |s'.sbs| && k in s'.sbs[i].bits ensures exists c :: c in s'.live && c.sb == i && c.bit == k {
      var c :| c in s.live && c.sb == i && c.bit == k;
      assert c in s'.live;
    }
    forall c | c in s'.live && c !in s'.held
      ensures exists u :: 0 <= u < |s'.threads| && s'.threads[u].Frees() && s'.threads[u].block == c
    {
      var u :| 0 <= u < |s.threads| && s.threads[u].Frees() && s.threads[u].block == c;
      assert s'.threads[u].Frees() && s'.threads[u].block == c;
    }
  }

  lemma ReleaseKeepsThreads(p: Pool, s: State, t: nat)
    requires Inv(p, s) && t < |s.threads| && s.threads[t].FreeBit? && InRange(p, s, s.threads[t])
    requires s.threads[t].bit in s.sbs[s.threads[t].id].bits && BlocksOk(p, StepFreeBit(s, t))
    ensures var s' := StepFreeBit(s, t);
            && (forall u :: 0 <= u < |s'.threads| ==> AllocOk(p, s'.sbs, s'.threads[u]))
            && (forall u :: 0 <= u < |s'.threads| && s'.threads[u].Frees() ==>
              OwnsFreed(s', u) && FreeOk(p, s'.sbs, s'.threads[u]))
  {
    var s' := StepFreeBit(s, t);
    assert OwnsFreed(s, t);
    forall u | 0 <= u < |s'.threads| ensures AllocOk(p, s'.sbs, s'.threads[u]) {
      assert u != t ==> AllocOk(p, s.sbs, s.threads[u]);
    }
    forall u | 0 <= u < |s'.threads| && s'.threads[u].Frees()
      ensures OwnsFreed(s', u) && FreeOk(p, s'.sbs, s'.threads[u])
    {
      assert OwnsFreed(s, u);
    }
  }

  lemma ReleaseKeepsSuperblocks(p: Pool, s: State, t: nat)
    requires Inv(p, s) && t < |s.threads| && s.threads[t].FreeBit? && InRange(p, s, s.threads[t])
    requires s.threads[t].bit in s.sbs[s.threads[t].id].bits
    ensures var s' := StepFreeBit(s, t);
            forall i :: 0 <= i < |s'.sbs| ==>
              SuperblockOk(p, s'.sbs[i], Counting(s'.threads, i), Claiming(s'.threads, i))
  {
    hide AllocOk, FreeOk, OwnsFreed, BlocksOk, Accounted;
    var FreeBit(id, bit, b) := s.threads[t];
    var s' := StepFreeBit(s, t);
    CountingAfter(s.threads, t, FreeCount(id), id);
    assert SuperblockOk(p, s.sbs[id], Counting(s.threads, id), Claiming(s.threads, id));
    assert Claiming(s'.threads, id) == Claiming(s.threads, id);
    Released(p, s.sbs[id], Counting(s.threads, id), Claiming(s.threads, id), t, bit);
    OtherSuperblocks(p, s, t, FreeCount(id), id);
  }

  lemma FreeBitKeepsInv(p: Pool, s: State, t: nat)
    requires Inv(p, s) && t < |s.threads| && s.threads[t].FreeBit? && InRange(p, s, s.threads[t])
    ensures StepFreeBit(s, t).threads[t] == FreeCount(s.threads[t].id)
    ensures Inv(p, StepFreeBit(s, t))
  {
    hide AllocOk, FreeOk, OwnsFreed, BlocksOk, Accounted;
    ReleaseKeepsBlocks(p, s, t);
    ReleaseKeepsThreads(p, s, t);
    ReleaseKeepsSuperblocks(p, s, t);
  }

  // ---------------------------------------------------------------- all behaviours

  /** One step of any thread; commands obey the contract of deallocate. */
  ghost predicate Next(p: Pool, s: State, s': State)
    requires p.Valid()
  {
    exists t: nat, cmd :: Moves(p, s, t, cmd, s')
  }

  ghost predicate Moves(p: Pool, s: State, t: nat, cmd: Command, s': State)
    requires p.Valid()
  {
    && t < |s.threads| && InRange(p, s, s.threads[t]) && Permitted(s, t, cmd)
    && (s.threads[t].Idle? && cmd.Deallocate? ==> cmd.block.lg2 <= p.sbLg2)
    && s' == Step(p, s, t, cmd)
  }

  ghost predicate Behaviour(p: Pool, n: nat, trace: seq<State>)
    requires p.Valid()
  {
    && trace != [] && trace[0] == Init(p, n)
    && forall i :: 0 <= i < |trace| - 1 ==> Next(p, trace[i], trace[i + 1])
  }

  /** Every step of every thread keeps the invariant. */
  lemma StepKeepsInv(p: Pool, s: State, t: nat, cmd: Command)
    requires Inv(p, s) && t < |s.threads| && InRange(p, s, s.threads[t]) && Permitted(s, t, cmd)
    requires s.threads[t].Idle? && cmd.Deallocate? ==> cmd.block.lg2 <= p.sbLg2
    ensures Inv(p, Step(p, s, t, cmd))
  {
    hide Inv;
    match s.threads[t]
    case Idle =>
      match cmd {
        case Skip =>
        case Allocate(size, attempts, clock) => AllocateKeepsInv(p, s, t, size, attempts, clock);
        case Deallocate(block) => DeallocateKeepsInv(p, s, t, block);
      }
    case Aborted(_) =>
    case Top(_, _, _, _) => TopKeepsInv(p, s, t);
    case Probe(_, _, _, _, _) => ProbeKeepsInv(p, s, t);
    case Claim(_, _, _, _, _) => ClaimKeepsInv(p, s, t);
    case Unclaim(_, _, _, _) => UnclaimKeepsInv(p, s, t);
    case SetBit(_, _, _, _) => SetBitKeepsInv(p, s, t);
    case Scan(_, _, _, _, _, _, _, _) => ScanKeepsInv(p, s, t);
    case ReadEmpty(_, _, _, _) => ReadEmptyKeepsInv(p, s, t);
    case Reassign(_, _, _, _, _) => ReassignKeepsInv(p, s, t);
    case PostHint(_, _, _, _) => PostHintKeepsInv(p, s, t);
    case FreeRead(_, _) => FreeReadKeepsInv(p, s, t);
    case FreeCheck(_, _, _, _) => FreeCheckKeepsInv(p, s, t);
    case FreeBit(_, _, _) => FreeBitKeepsInv(p, s, t);
    case FreeCount(_) => FreeCountKeepsInv(p, s, t);
  }

  /** No schedule is stuck: in every reachable state each thread has a step, for every permitted command. */
  lemma EveryThreadCanMove(p: Pool, s: State, t: nat, cmd: Command)
    requires Inv(p, s) && t < |s.threads| && Permitted(s, t, cmd)
    ensures InRange(p, s, s.threads[t])
    ensures s.threads[t].Idle? && cmd.Deallocate? ==> cmd.block.lg2 <= p.sbLg2
    ensures Next(p, s, Step(p, s, t, cmd))
  {
    InvInRange(p, s, t);
    if s.threads[t].Idle? && cmd.Deallocate? { assert BlockOk(p, s.sbs, cmd.block); }
    assert Moves(p, s, t, cmd, Step(p, s, t, cmd));
  }

  lemma {:induction false} EveryStateInv(p: Pool, n: nat, trace: seq<State>, k: nat)
    requires p.Valid() && ThreadsFit(p, n) && Behaviour(p, n, trace) && k < |trace|
    ensures Inv(p, trace[k])
  {
    if k == 0 {
      InitHolds(p, n);
    } else {
      EveryStateInv(p, n, trace, k - 1);
      assert Next(p, trace[k - 1], trace[k - 1 + 1]);
      var t: nat, cmd :| Moves(p, trace[k - 1], t, cmd, trace[k]);
      StepKeepsInv(p, trace[k - 1], t, cmd);
    }
  }
}
