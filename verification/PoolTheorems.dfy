/** What callers of the memory pool may rely on, in every behaviour of any number of threads. */
module PoolTheorems {
  import Arith
  import opened Powers
  import opened PoolGeometry
  import opened PoolMachine
  import opened PoolSafety

  function BlockStart(p: Pool, b: Block): nat
    requires b.lg2 <= p.sbLg2
  { p.Address(b.sb, b.bit, b.lg2) }

  function BlockEnd(p: Pool, b: Block): nat
    requires b.lg2 <= p.sbLg2
  { BlockStart(p, b) + Pow2(p.sbLg2 - b.lg2) }

  /** A behaviour begins with every superblock empty and in its block size, and every hint at that size's share. */
  lemma InitialState(p: Pool, n: nat)
    requires p.Valid()
    ensures var s := Init(p, n);
      && |s.sbs| == p.sbCount && |s.hints| == p.Sizes() && |s.threads| == n && s.held == {} && s.live == {}
      && (forall t :: 0 <= t < n ==> s.threads[t].Idle?)
      && (forall j :: 0 <= j < p.sbCount ==> s.sbs[j].bits == {} && Used(s.sbs[j].word) == 0)
      && (forall j, k :: 0 <= j < p.sbCount && 0 <= k < p.Sizes() ==>
            (s.sbs[j].Lg2() == p.sbLg2 - (p.minLg2 + k) <==> InShare(p, j, k)))
      && (forall k :: 0 <= k < p.Sizes() ==>
            s.hints[k] * p.Sizes() <= k * p.sbCount < (s.hints[k] + 1) * p.Sizes())
  {
    hide InShare, Pool.FirstSuperblock, Pool.SizeIndexOf, HeaderLg2, Used;
    var s := Init(p, n);
    forall j, k | 0 <= j < p.sbCount && 0 <= k < p.Sizes()
      ensures s.sbs[j].Lg2() == p.sbLg2 - (p.minLg2 + k) <==> InShare(p, j, k)
    {
      InitialShares(p, j, k);
    }
    forall k | 0 <= k < p.Sizes()
      ensures s.hints[k] * p.Sizes() <= k * p.sbCount < (s.hints[k] + 1) * p.Sizes()
    {
      FirstSuperblockExact(p, k);
    }
  }

  /** What a held block is, in any reachable state. */
  lemma HeldBlockIsLive(p: Pool, n: nat, trace: seq<State>, k: nat, b: Block)
    requires p.Valid() && ThreadsFit(p, n) && Behaviour(p, n, trace) && k < |trace| && b in trace[k].held
    ensures |trace[k].sbs| == p.sbCount && b in trace[k].live
    ensures BlockOk(p, trace[k].sbs, b) && p.CountOk(b.lg2) && b.bit < Pow2(b.lg2)
  {
    var s := trace[k];
    EveryStateInv(p, n, trace, k);
    assert BlockOk(p, s.sbs, b);
    assert SuperblockOk(p, s.sbs[b.sb], Counting(s.threads, b.sb), Claiming(s.threads, b.sb));
  }

  /** Blocks held by callers lie inside the data region, hold their request, and are aligned to their size. */
  lemma HeldBlockFits(p: Pool, n: nat, trace: seq<State>, k: nat, b: Block)
    requires p.Valid() && ThreadsFit(p, n) && Behaviour(p, n, trace) && k < |trace| && b in trace[k].held
    ensures b.lg2 <= p.sbLg2
    ensures BlockEnd(p, b) <= p.sbCount * Pow2(p.sbLg2)
    ensures BlockStart(p, b) + b.size <= BlockEnd(p, b)
    ensures Pow2(p.minLg2) <= BlockEnd(p, b) - BlockStart(p, b) <= Pow2(p.maxLg2)
    ensures p.Aligned(BlockStart(p, b), b.lg2)
  {
    hide Inv, Behaviour, Pow2;
    HeldBlockIsLive(p, n, trace, k, b);
    AddressDecodes(p, b.sb, b.bit, b.lg2);
    Pow2Monotone(p.minLg2, p.sbLg2 - b.lg2);
    Pow2Monotone(p.sbLg2 - b.lg2, p.maxLg2);
  }

  lemma DistinctHeld(p: Pool, n: nat, trace: seq<State>, k: nat, b: Block, c: Block)
    requires p.Valid() && ThreadsFit(p, n) && Behaviour(p, n, trace) && k < |trace|
    requires b in trace[k].held && c in trace[k].held && b != c
    ensures b.sb != c.sb || (b.bit != c.bit && b.lg2 == c.lg2)
  {
    EveryStateInv(p, n, trace, k);
    assert BlockOk(p, trace[k].sbs, b) && BlockOk(p, trace[k].sbs, c);
  }

  /** Blocks held by callers never overlap. */
  lemma HeldBlocksDisjoint(p: Pool, n: nat, trace: seq<State>, k: nat, b: Block, c: Block)
    requires p.Valid() && ThreadsFit(p, n) && Behaviour(p, n, trace) && k < |trace|
    requires b in trace[k].held && c in trace[k].held && b != c
    ensures b.lg2 <= p.sbLg2 && c.lg2 <= p.sbLg2
    ensures BlockEnd(p, b) <= BlockStart(p, c) || BlockEnd(p, c) <= BlockStart(p, b)
  {
    hide Inv, Behaviour;
    HeldBlockIsLive(p, n, trace, k, b);
    HeldBlockIsLive(p, n, trace, k, c);
    DistinctHeld(p, n, trace, k, b, c);
    if b.sb < c.sb || (b.sb == c.sb && b.bit < c.bit) {
      BlocksDisjoint(p, b.sb, b.bit, b.lg2, c.sb, c.bit, c.lg2);
    } else {
      BlocksDisjoint(p, c.sb, c.bit, c.lg2, b.sb, b.bit, b.lg2);
    }
  }

  /** A superblock changes its block size only while it has no used, live or half-acquired block. */
  lemma BlockSizeChangesOnlyWhenEmpty(p: Pool, s: State, t: nat, cmd: Command, s': State, i: nat)
    requires Inv(p, s) && Moves(p, s, t, cmd, s') && i < p.sbCount
    requires |s'.sbs| == p.sbCount && s'.sbs[i].Lg2() != s.sbs[i].Lg2()
    ensures Used(s.sbs[i].word) == 0 && s.sbs[i].bits == {} && s'.sbs[i].bits == {}
    ensures forall b :: b in s.live || b in s'.live ==> b.sb != i
    ensures forall u :: 0 <= u < |s.threads| ==> !s.threads[u].Counts(i)
  {
    var th := s.threads[t];
    assert SuperblockOk(p, s.sbs[i], Counting(s.threads, i), Claiming(s.threads, i));
    if th.Claim? {
      ClaimKeepsInv(p, s, t);
      HeaderKept(p, s, t, i, 1);
    } else if th.Unclaim? || th.FreeCount? {
      HeaderKept(p, s, t, i, -1);
    }
    assert th.Reassign? && th.id == i && s.sbs[i].word == EmptyWord(th.seen);
    assert AllocOk(p, s.sbs, th);
    WordParts(s.sbs[i].word, th.seen, 0);
    ZeroUsedIsEmpty(p, s, i);
  }

  /** An atomic add of one thread never carries into, or borrows from, the header. */
  lemma HeaderKept(p: Pool, s: State, t: nat, i: nat, d: int)
    requires Inv(p, s) && t < |s.threads| && i < |s.sbs|
    requires d == 1 || (d == -1 && s.threads[t].Counts(i))
    ensures d == 1 && !s.threads[t].Counts(i) ==> HeaderLg2(FetchAdd(s.sbs[i].word, 1)) == s.sbs[i].Lg2()
    ensures d == -1 ==> HeaderLg2(FetchAdd(s.sbs[i].word, -1)) == s.sbs[i].Lg2()
  {
    hide AllocOk, FreeOk, OwnsFreed, BlocksOk, Accounted, FetchAdd, HeaderLg2, Pow2, SuperblockOk, Counting, Claiming;
    var sb, counting, claiming := s.sbs[i], Counting(s.threads, i), Claiming(s.threads, i);
    assert SuperblockOk(p, sb, counting, claiming);
    CountingAfter(s.threads, t, s.threads[t], i);
    if d == 1 && t !in counting {
      assert t !in claiming;
      CountedUp(p, sb, counting, claiming, t, claiming);
    } else if d == -1 {
      WordMinusOne(p, sb, counting, claiming, t);
    }
  }

  lemma WordMinusOne(p: Pool, sb: Superblock, counting: set<nat>, claiming: set<nat>, t: nat)
    requires p.Valid() && SuperblockOk(p, sb, counting, claiming) && t in counting
    ensures HeaderLg2(FetchAdd(sb.word, -1)) == sb.Lg2()
  {
    hide Pow2;
    assert |counting| == |counting - {t}| + 1;
    WordParts(FetchAdd(sb.word, -1), sb.Lg2(), Used(sb.word) - 1);
  }

  /** While a block is live its superblock keeps the block count it had when the block was granted. */
  lemma LiveBlockKeepsItsSize(p: Pool, n: nat, trace: seq<State>, k: nat, b: Block)
    requires p.Valid() && ThreadsFit(p, n) && Behaviour(p, n, trace) && k < |trace| && b in trace[k].live
    ensures b.sb < |trace[k].sbs| && trace[k].sbs[b.sb].Lg2() == b.lg2 && b.bit in trace[k].sbs[b.sb].bits
  {
    EveryStateInv(p, n, trace, k);
    assert BlockOk(p, trace[k].sbs, b);
  }

  /** deallocate never reports an erroneous pointer to a caller that frees only what it holds. */
  lemma NoErroneousPointer(p: Pool, n: nat, trace: seq<State>, k: nat, t: nat)
    requires p.Valid() && ThreadsFit(p, n) && Behaviour(p, n, trace) && k < |trace| && t < |trace[k].threads|
    ensures trace[k].threads[t] != Aborted(true)
  {
    EveryStateInv(p, n, trace, k);
    assert AllocOk(p, trace[k].sbs, trace[k].threads[t]);
  }

  /**
   The checks of a release, in every state and for every address, also one that no caller holds: each step
   goes on exactly if its check passes, and else the program aborts with the pool as it was.  Only a
   release that has just cleared a set bit goes on to take back the count.
   */
  lemma ReleaseChecks(p: Pool, s: State, t: nat, cmd: Command, s': State)
    requires p.Valid() && Moves(p, s, t, cmd, s') && s.threads[t].Frees()
    ensures |s'.threads| == |s.threads| && |s.sbs| == p.sbCount
    ensures var th, th' := s.threads[t], s'.threads[t];
      && (th' == Aborted(true) || th'.FreeCheck? || th'.FreeBit? || th'.FreeCount?)
      && (th.FreeRead? ==>
            (th'.FreeCheck? <==>
              && th.address < p.sbCount * Pow2(p.sbLg2)
              && 0 <= th.address / Pow2(p.sbLg2) < |s.sbs|
              && var lg2 := s.sbs[th.address / Pow2(p.sbLg2)].Lg2();
                 lg2 <= p.sbLg2 && th.address % Pow2(p.sbLg2 - lg2) == 0))
      && (th'.FreeCheck? ==> th.FreeRead? && th'.id < |s.sbs| && th'.lg2 == s.sbs[th'.id].Lg2())
      && (th.FreeCheck? ==> (th'.FreeBit? <==> s.sbs[th.id].Lg2() == th.lg2))
      && (th'.FreeBit? ==> th.FreeCheck? && th'.id == th.id && th'.bit == th.bit)
      && (th.FreeBit? ==> (th'.FreeCount? <==> th.bit in s.sbs[th.id].bits))
      && (th'.FreeCount? ==>
            && th.FreeBit? && th'.id == th.id
            && s'.sbs == s.sbs[th.id := s.sbs[th.id].(bits := s.sbs[th.id].bits - {th.bit})])
      && (!th'.FreeCount? ==> s'.sbs == s.sbs && s'.hints == s.hints && s'.held == s.held && s'.live == s.live)
  {
    hide Pow2, HeaderLg2;
    var th := s.threads[t];
    if th.FreeRead? && th.address < p.sbCount * Pow2(p.sbLg2) {
      Arith.DivNonNeg(th.address, Pow2(p.sbLg2));
      Arith.DivBelow(th.address, Pow2(p.sbLg2), p.sbCount);
    }
  }

  /** From its address alone, a release finds the superblock, block number and size of its own block. */
  lemma ReleaseFindsItsBlock(p: Pool, n: nat, trace: seq<State>, k: nat, t: nat, cmd: Command)
    requires p.Valid() && ThreadsFit(p, n) && Behaviour(p, n, trace) && k < |trace|
    requires t < |trace[k].threads| && trace[k].threads[t].Frees()
    ensures InRange(p, trace[k], trace[k].threads[t])
    ensures var th, b := trace[k].threads[t], trace[k].threads[t].block;
            var s' := Step(p, trace[k], t, cmd);
            && (th.FreeRead? ==> s'.threads[t] == FreeCheck(b.sb, b.bit, b.lg2, b))
            && (th.FreeCheck? ==> s'.threads[t] == FreeBit(b.sb, b.bit, b))
            && (th.FreeBit? ==> s'.threads[t] == FreeCount(b.sb) && s'.live == trace[k].live - {b}
                                && |s'.sbs| == |trace[k].sbs| && b.sb < |s'.sbs|
                                && s'.sbs[b.sb].bits == trace[k].sbs[b.sb].bits - {b.bit})
  {
    var s := trace[k];
    EveryStateInv(p, n, trace, k);
    InvInRange(p, s, t);
    assert OwnsFreed(s, t) && BlockOk(p, s.sbs, s.threads[t].block) && FreeOk(p, s.sbs, s.threads[t]);
    match s.threads[t]
    case FreeRead(_, _) => FreeReadKeepsInv(p, s, t);
    case FreeCheck(_, _, _, _) => FreeCheckKeepsInv(p, s, t);
    case FreeBit(_, _, _) => FreeBitKeepsInv(p, s, t);
  }

  /** A thread that was counted in finds a clear bit in its superblock, however the others interleave. */
  lemma CountedInMeansFreeBlock(p: Pool, n: nat, trace: seq<State>, k: nat, t: nat)
    requires p.Valid() && ThreadsFit(p, n) && Behaviour(p, n, trace) && k < |trace|
    requires t < |trace[k].threads| && trace[k].threads[t].SetBit?
    ensures var th := trace[k].threads[t];
            && th.id < |trace[k].sbs| && th.bit < Pow2(th.want)
            && (exists free :: 0 <= free < Pow2(th.want) && free !in trace[k].sbs[th.id].bits)
  {
    EveryStateInv(p, n, trace, k);
    assert AllocOk(p, trace[k].sbs, trace[k].threads[t]);
    var free := ClaimantHasFreeBlock(p, trace[k], t);
  }

  ghost function HeldIn(s: State, i: nat): set<Block> {
    set b | b in s.held && b.sb == i
  }

  ghost function BitsOf(bs: set<Block>): set<nat> {
    set b | b in bs :: b.bit
  }

  lemma {:induction false} DistinctBits(bs: set<Block>)
    requires forall b, c :: b in bs && c in bs && b.bit == c.bit ==> b == c
    ensures |BitsOf(bs)| == |bs|
  {
    if bs == {} {
    } else {
      var b :| b in bs;
      DistinctBits(bs - {b});
      assert BitsOf(bs) == BitsOf(bs - {b}) + {b.bit};
      assert |bs| == |bs - {b}| + 1;
      assert b.bit !in BitsOf(bs - {b});
    }
  }

  /** No block leaks: when every thread is idle, the used counts are exactly the blocks callers hold. */
  lemma QuiescentCountsAreHeldBlocks(p: Pool, n: nat, trace: seq<State>, k: nat, i: nat)
    requires p.Valid() && ThreadsFit(p, n) && Behaviour(p, n, trace) && k < |trace| && i < |trace[k].sbs|
    requires forall t :: 0 <= t < |trace[k].threads| ==> trace[k].threads[t].Idle?
    ensures Used(trace[k].sbs[i].word) == |HeldIn(trace[k], i)|
    ensures trace[k].sbs[i].bits == BitsOf(HeldIn(trace[k], i))
  {
    var s := trace[k];
    EveryStateInv(p, n, trace, k);
    assert SuperblockOk(p, s.sbs[i], Counting(s.threads, i), Claiming(s.threads, i));
    assert Counting(s.threads, i) == {};
    assert forall t :: 0 <= t < |s.threads| ==> !s.threads[t].Frees();
    assert s.live <= s.held;
    forall bit | bit in s.sbs[i].bits ensures bit in BitsOf(HeldIn(s, i)) {
      var b :| b in s.live && b.sb == i && b.bit == bit;
      assert b in HeldIn(s, i);
    }
    forall bit | bit in BitsOf(HeldIn(s, i)) ensures bit in s.sbs[i].bits {
      var b :| b in HeldIn(s, i) && b.bit == bit;
      assert BlockOk(p, s.sbs, b);
    }
    assert s.sbs[i].bits == BitsOf(HeldIn(s, i));
    DistinctBits(HeldIn(s, i));
    assert |s.sbs[i].bits| == |HeldIn(s, i)|;
  }
}
