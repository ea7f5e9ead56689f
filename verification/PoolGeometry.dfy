/**
 Sizes, state words and block addresses of the memory pool in core/src/Kokkos_MemoryPool.hpp.
 All sizes are kept as exponents of two; byte addresses count from the first superblock.
 */
module PoolGeometry {
  import opened Powers
  import opened Arith

  /** Field widths of a state word: bits 26..30 hold block_count_lg2, bits 0..25 the used count. */
  const USED_SPAN: nat := 0x400_0000
  const WORD_SPAN: nat := 0x1_0000_0000
  const MAX_BIT_COUNT_LG2: nat := 25
  const BITS_PER_INT: nat := 32

  function HeaderLg2(word: nat): nat { (word / USED_SPAN) % 32 }

  function Used(word: nat): nat { word % USED_SPAN }

  /** atomic_fetch_add on a 32-bit word, with its wrap-around. */
  function FetchAdd(word: nat, d: int): nat { (word + d) % WORD_SPAN }

  /** The word of an empty superblock that is assigned to 2^lg2 blocks. */
  function EmptyWord(lg2: nat): nat { lg2 * USED_SPAN }

  lemma WordParts(word: nat, lg2: nat, used: nat)
    requires lg2 < 32 && used < USED_SPAN && word == EmptyWord(lg2) + used
    ensures HeaderLg2(word) == lg2 && Used(word) == used
  {}

  datatype Pool = Pool(sbCount: nat, sbLg2: nat, minLg2: nat, maxLg2: nat) {
    ghost predicate Valid() {
      0 < sbCount && minLg2 <= maxLg2 <= sbLg2 <= 31 && sbLg2 - minLg2 <= MAX_BIT_COUNT_LG2
    }

    function Sizes(): nat
      requires minLg2 <= maxLg2
    { 1 + maxLg2 - minLg2 }

    /** First superblock that the constructor gives to block size number i, and the start of searches for it. */
    function FirstSuperblock(i: nat): nat
      requires minLg2 <= maxLg2
    {
      MulNonNeg(i, sbCount);
      DivNonNeg(i * sbCount, Sizes());
      i * sbCount / Sizes()
    }

    /** The number of the block size whose run of superblocks contains superblock j. */
    function SizeIndexOf(j: nat, i: nat := 0): (r: nat)
      requires minLg2 <= maxLg2 && i < Sizes() && FirstSuperblock(i) <= j
      ensures i <= r < Sizes() && FirstSuperblock(r) <= j
      ensures r + 1 < Sizes() ==> j < FirstSuperblock(r + 1)
      decreases Sizes() - i
    { if i + 1 < Sizes() && FirstSuperblock(i + 1) <= j then SizeIndexOf(j, i + 1) else i }

    /** The constructor's state word for superblock j: empty, and assigned to its run's block size. */
    function InitialWord(j: nat): (w: nat)
      requires Valid() && j < sbCount
      ensures CountOk(HeaderLg2(w)) && w == EmptyWord(HeaderLg2(w)) && Used(w) == 0
    {
      RunsCoverPool(this);
      var lg2 := sbLg2 - (SizeIndexOf(j) + minLg2);
      WordParts(EmptyWord(lg2), lg2, 0);
      EmptyWord(lg2)
    }

    /** get_block_size_lg2: never below the smallest block. */
    function BlockSizeLg2(size: nat): (r: nat)
      requires size >= 1
    { if CeilLg2(size) < minLg2 then minLg2 else CeilLg2(size) }

    /** The block count of the superblocks that serve a request of this size. */
    function CountFor(size: nat): (r: nat)
      requires Valid() && 1 <= size <= Pow2(maxLg2)
      ensures CountOk(r) && size <= Pow2(sbLg2 - r)
    {
      RequestFits(this, size);
      sbLg2 - BlockSizeLg2(size)
    }

    /** A block count exponent that some block size of the pool uses. */
    ghost predicate CountOk(lg2: nat)
      requires Valid()
    { sbLg2 - maxLg2 <= lg2 <= sbLg2 - minLg2 }

    function Address(sb: nat, bit: nat, lg2: nat): nat
      requires lg2 <= sbLg2
    {
      MulNonNeg(sb, Pow2(sbLg2));
      MulNonNeg(bit, Pow2(sbLg2 - lg2));
      sb * Pow2(sbLg2) + bit * Pow2(sbLg2 - lg2)
    }

    /** deallocate: the address lies inside the pool's superblocks. */
    predicate Contains(d: int)
      ensures Contains(d) <==> 0 <= d && d / Pow2(sbLg2) < sbCount
    {
      if 0 <= d < sbCount * Pow2(sbLg2) then (DivBelow(d, Pow2(sbLg2), sbCount); true)
      else if d < 0 then false
      else (DivAtLeast(d, Pow2(sbLg2), sbCount); false)
    }

    /** deallocate: the superblock that an address lies in. */
    function SuperblockOf(d: nat): (r: nat) {
      DivNonNeg(d, Pow2(sbLg2));
      d / Pow2(sbLg2)
    }

    /** deallocate: the address is a multiple of the block size of a superblock with 2^lg2 blocks. */
    predicate Aligned(d: nat, lg2: nat)
      requires lg2 <= sbLg2
    { d % Pow2(sbLg2 - lg2) == 0 }

    /** deallocate: the block number inside the superblock. */
    function BitOf(d: nat, lg2: nat): (r: nat)
      requires lg2 <= sbLg2
    {
      DivNonNeg(d % Pow2(sbLg2), Pow2(sbLg2 - lg2));
      (d % Pow2(sbLg2)) / Pow2(sbLg2 - lg2)
    }
  }

  lemma SearchStartInRange(p: Pool, i: nat)
    requires p.Valid() && i < p.Sizes()
    ensures p.FirstSuperblock(i) < p.sbCount
  {
    MulMono(i, p.Sizes() - 1, p.sbCount);
    Distrib(p.Sizes(), 1, p.sbCount);
    DivBelow(i * p.sbCount, p.Sizes(), p.sbCount);
  }

  /** Run i begins at the share i of Sizes() of the superblocks, rounded down. */
  lemma FirstSuperblockExact(p: Pool, i: nat)
    requires p.minLg2 <= p.maxLg2
    ensures p.FirstSuperblock(i) * p.Sizes() <= i * p.sbCount < (p.FirstSuperblock(i) + 1) * p.Sizes()
  {
    DivMod(i * p.sbCount, p.Sizes());
    Distrib(p.FirstSuperblock(i), 1, p.Sizes());
  }

  /** Superblock j lies in the share number i of Sizes() equal shares of the superblocks. */
  ghost predicate InShare(p: Pool, j: nat, i: nat)
    requires p.minLg2 <= p.maxLg2
  {
    i * p.sbCount < (j + 1) * p.Sizes() <= (i + 1) * p.sbCount
  }

  lemma ShareIsRun(p: Pool, j: nat, i: nat)
    requires p.minLg2 <= p.maxLg2
    ensures InShare(p, j, i) <==> p.FirstSuperblock(i) <= j < p.FirstSuperblock(i + 1)
  {
    hide Pool.FirstSuperblock;
    var a, b, s := p.FirstSuperblock(i), p.FirstSuperblock(i + 1), p.Sizes();
    FirstSuperblockExact(p, i);
    FirstSuperblockExact(p, i + 1);
    if a <= j { MulMono(a + 1, j + 1, s); } else { MulMono(j + 1, a, s); }
    if b <= j { MulMono(b + 1, j + 1, s); } else { MulMono(j + 1, b, s); }
  }

  /** The constructor gives superblock j to the block size in whose share it lies, and to no other. */
  lemma InitialShares(p: Pool, j: nat, i: nat)
    requires p.Valid() && j < p.sbCount && i < p.Sizes()
    ensures HeaderLg2(p.InitialWord(j)) == p.sbLg2 - (p.minLg2 + i) <==> InShare(p, j, i)
  {
    hide Pool.FirstSuperblock, InShare;
    RunsCoverPool(p);
    ShareIsRun(p, j, i);
    var r := p.SizeIndexOf(j);
    WordParts(EmptyWord(p.sbLg2 - (r + p.minLg2)), p.sbLg2 - (r + p.minLg2), 0);
    if InShare(p, j, i) { RunIsUnique(p, j, i); }
    if r == i && r + 1 == p.Sizes() { assert p.FirstSuperblock(r + 1) == p.sbCount; }
  }

  function Interval(a: nat, b: nat): (s: set<nat>)
    requires a <= b
    ensures |s| == b - a && forall j: nat :: j in s <==> a <= j < b
    decreases b
  {
    if a == b then {} else Interval(a, b - 1) + {b - 1}
  }

  /** Every block size gets sbCount / Sizes() superblocks or one more. */
  lemma SharesAreFair(p: Pool, i: nat)
    requires p.Valid() && i < p.Sizes()
    ensures var n := |set j: nat | j < p.sbCount && InShare(p, j, i)|;
      p.sbCount / p.Sizes() <= n <= p.sbCount / p.Sizes() + 1
  {
    hide Pool.FirstSuperblock, InShare;
    var a, b, s := p.FirstSuperblock(i), p.FirstSuperblock(i + 1), p.Sizes();
    RunsCoverPool(p);
    FirstSuperblockMonotone(p, i, i + 1);
    FirstSuperblockMonotone(p, i + 1, s);
    forall j: nat | j < p.sbCount ensures InShare(p, j, i) <==> a <= j < b { ShareIsRun(p, j, i); }
    assert (set j: nat | j < p.sbCount && InShare(p, j, i)) == Interval(a, b);
    FirstSuperblockExact(p, i);
    FirstSuperblockExact(p, i + 1);
    DifferenceOfShares(a, b, s, i, p.sbCount);
  }

  lemma DifferenceOfShares(a: nat, b: nat, s: nat, i: nat, count: nat)
    requires 0 < s && a <= b && a * s <= i * count < (a + 1) * s && b * s <= (i + 1) * count < (b + 1) * s
    ensures count / s <= b - a <= count / s + 1
  {
    Distrib(i, 1, count);
    Distrib(a, 1, s);
    Distrib(b, 1, s);
    Distrib(b, a, s);
    assert (b - a - 1) * s == b * s - a * s - s by { Distrib(b - a, 1, s); }
    assert (b - a + 1) * s == b * s - a * s + s by { Distrib(b - a, 1, s); }
    DivBelow(count, s, b - a + 1);
    if b - a >= 1 { DivAtLeast(count, s, b - a - 1); } else { DivNonNeg(count, s); }
  }

  lemma FirstSuperblockMonotone(p: Pool, k: nat, l: nat)
    requires p.minLg2 <= p.maxLg2 && k <= l
    ensures p.FirstSuperblock(k) <= p.FirstSuperblock(l)
  {
    MulMono(k, l, p.sbCount);
    DivMod(k * p.sbCount, p.Sizes());
    DivAtLeast(l * p.sbCount, p.Sizes(), k * p.sbCount / p.Sizes());
  }

  /** The runs of superblocks given to the block sizes begin at the first and end after the last. */
  lemma RunsCoverPool(p: Pool)
    requires p.minLg2 <= p.maxLg2
    ensures p.FirstSuperblock(0) == 0 && p.FirstSuperblock(p.Sizes()) == p.sbCount
  {
    DivUnique(0 * p.sbCount, p.Sizes(), 0, 0);
    DivUnique(p.Sizes() * p.sbCount, p.Sizes(), p.sbCount, 0);
  }

  /** The runs are consecutive, so each superblock lies in exactly one. */
  lemma RunIsUnique(p: Pool, j: nat, i: nat)
    requires p.minLg2 <= p.maxLg2 && i < p.Sizes() && p.FirstSuperblock(i) <= j < p.FirstSuperblock(i + 1)
    ensures p.FirstSuperblock(0) <= j && p.SizeIndexOf(j) == i
  {
    FirstSuperblockMonotone(p, 0, i);
    var r := p.SizeIndexOf(j);
    if r < i { FirstSuperblockMonotone(p, r + 1, i); }
    if i < r { FirstSuperblockMonotone(p, i + 1, r); }
  }

  lemma RequestFits(p: Pool, size: nat)
    requires p.Valid() && 1 <= size <= Pow2(p.maxLg2)
    ensures p.minLg2 <= p.BlockSizeLg2(size) <= p.maxLg2
    ensures size <= Pow2(p.BlockSizeLg2(size))
  {
    CeilLg2Least(size, p.maxLg2);
    CeilLg2Least(size, p.BlockSizeLg2(size));
  }

  /** get_block_size_lg2 picks the smallest block size of the pool that holds the request. */
  lemma BlockSizeIsLeast(p: Pool, size: nat, lg2: nat)
    requires p.Valid() && 1 <= size && p.minLg2 <= lg2
    ensures size <= Pow2(lg2) <==> p.BlockSizeLg2(size) <= lg2
  {
    CeilLg2Least(size, lg2);
  }

  /** The offset of block number bit inside its superblock stays inside the superblock. */
  lemma BlockInsideSuperblock(p: Pool, bit: nat, lg2: nat)
    requires lg2 <= p.sbLg2 && bit < Pow2(lg2)
    ensures bit * Pow2(p.sbLg2 - lg2) + Pow2(p.sbLg2 - lg2) <= Pow2(p.sbLg2)
    ensures Pow2(p.sbLg2) == Pow2(lg2) * Pow2(p.sbLg2 - lg2)
  {
    var size := Pow2(p.sbLg2 - lg2);
    Pow2Add(lg2, p.sbLg2 - lg2);
    MulMono(bit + 1, Pow2(lg2), size);
    Distrib(bit, 1, size);
  }

  /** deallocate's arithmetic: the address alone gives back superblock, alignment and block number. */
  lemma AddressDecodes(p: Pool, sb: nat, bit: nat, lg2: nat)
    requires lg2 <= p.sbLg2 && bit < Pow2(lg2) && sb < p.sbCount
    ensures var d := p.Address(sb, bit, lg2);
            && d + Pow2(p.sbLg2 - lg2) <= p.sbCount * Pow2(p.sbLg2)
            && p.SuperblockOf(d) == sb
            && p.Aligned(d, lg2)
            && p.BitOf(d, lg2) == bit
  {
    var size, span := Pow2(p.sbLg2 - lg2), Pow2(p.sbLg2);
    var d := p.Address(sb, bit, lg2);
    BlockInsideSuperblock(p, bit, lg2);
    DivUnique(d, span, sb, bit * size);
    DivUnique(bit * size, size, bit, 0);
    Assoc(sb, Pow2(lg2), size);
    Distrib(sb * Pow2(lg2), bit, size);
    DivUnique(d, size, sb * Pow2(lg2) + bit, 0);
    MulMono(sb + 1, p.sbCount, span);
    Distrib(sb, 1, span);
  }

  /** Two blocks in different superblocks, or different blocks of one superblock, do not overlap. */
  lemma BlocksDisjoint(p: Pool, sb1: nat, bit1: nat, lg1: nat, sb2: nat, bit2: nat, lg2: nat)
    requires lg1 <= p.sbLg2 && bit1 < Pow2(lg1) && lg2 <= p.sbLg2 && bit2 < Pow2(lg2)
    requires sb1 < sb2 || (sb1 == sb2 && lg1 == lg2 && bit1 < bit2)
    ensures p.Address(sb1, bit1, lg1) + Pow2(p.sbLg2 - lg1) <= p.Address(sb2, bit2, lg2)
  {
    if sb1 < sb2 {
      BlockInsideSuperblock(p, bit1, lg1);
      MulMono(sb1 + 1, sb2, Pow2(p.sbLg2));
      Distrib(sb1, 1, Pow2(p.sbLg2));
      MulNonNeg(bit2, Pow2(p.sbLg2 - lg2));
    } else {
      MulMono(bit1 + 1, bit2, Pow2(p.sbLg2 - lg1));
      Distrib(bit1, 1, Pow2(p.sbLg2 - lg1));
    }
  }

  /** The superblock can serve a request for 2^want blocks per superblock, perhaps after reassignment. */
  predicate CanServe(word: nat, want: nat) {
    var lg2, used := HeaderLg2(word), Used(word);
    if lg2 == want then used < Pow2(want)
    else used == 0 || (lg2 < want && used < Pow2(lg2))
  }

  /** The superblock gives blocks of exactly the wanted size, if need be after reassignment. */
  predicate CanServeExactly(word: nat, want: nat) {
    var lg2, used := HeaderLg2(word), Used(word);
    if lg2 == want then used < Pow2(want) else used == 0
  }

  /** Where index x comes in a wrap-around search that starts at begin. */
  function Position(x: nat, begin: nat, count: nat): int {
    if begin <= x then x - begin else x - begin + count
  }

  /** Index x is among the first i superblocks of a wrap-around search that starts at begin. */
  predicate Visited(x: nat, begin: nat, i: int, count: nat) { Position(x, begin, count) < i }

  /** Bit number k of one 32-bit word of the block bitset. */
  predicate BitSet(bits: set<nat>, word: nat, k: nat) { word * BITS_PER_INT + k in bits }

  /** bit_first_zero of one 32-bit word of the block bitset: its lowest clear bit, or -1. */
  function FirstZero(bits: set<nat>, word: nat, from: nat := 0): (j: int)
    requires from <= BITS_PER_INT
    ensures j == -1 || (from <= j < BITS_PER_INT && !BitSet(bits, word, j))
    ensures forall k: nat :: from <= k < (if j == -1 then BITS_PER_INT else j) ==> BitSet(bits, word, k)
    decreases BITS_PER_INT - from
  {
    if from == BITS_PER_INT then -1
    else if !BitSet(bits, word, from) then from
    else FirstZero(bits, word, from + 1)
  }

  /** The next bit that a losing claimant tries, after seeing its own word of the bitset. */
  function NextBit(bits: set<nat>, bit: nat, lg2: nat): nat {
    var word := bit / BITS_PER_INT;
    var wordCount := Pow2(lg2) / BITS_PER_INT;
    var j := FirstZero(bits, word);
    if 0 <= j then word * BITS_PER_INT + j
    else (if word + 1 < wordCount then (word + 1) * BITS_PER_INT else 0) + bit % BITS_PER_INT
  }

  /** The bitset of 2^lg2 blocks fills whole 32-bit words, or only part of word zero. */
  lemma WholeWords(lg2: nat)
    ensures lg2 >= 5 ==> Pow2(lg2) == 32 * (Pow2(lg2) / 32) && Pow2(lg2) >= 32
    ensures lg2 < 5 ==> Pow2(lg2) <= 16
  {
    hide Pow2;
    Pow2Values();
    if lg2 >= 5 {
      Pow2Add(5, lg2 - 5);
      Pow2Monotone(5, lg2);
    } else {
      Pow2Monotone(lg2, 4);
    }
  }

  /** As long as some block is free, the search never leaves the bitset of its superblock. */
  lemma NextBitInRange(bits: set<nat>, bit: nat, lg2: nat, free: nat)
    requires bit < Pow2(lg2) && free < Pow2(lg2) && free !in bits
    ensures NextBit(bits, bit, lg2) < Pow2(lg2)
  {
    WholeWords(lg2);
    if lg2 < 5 {
      assert !BitSet(bits, 0, free);
    }
  }

  /** A set that is smaller than a range misses a number of the range. */
  lemma FreeNumber(s: set<nat>, n: nat) returns (free: nat)
    requires |s| < n
    ensures free < n && free !in s
  {
    free := n - 1;
    if free !in s {
    } else {
      free := FreeNumber(s - {free}, n - 1);
    }
  }
}
