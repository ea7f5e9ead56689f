/**
 Where the pool keeps its state words, bitsets, hints and blocks: one array of 32-bit words, whose parts
 the constructor sizes with 32-bit arithmetic.
 */
module PoolLayout {
  import opened Arith
  import opened Powers
  import opened PoolGeometry
  import opened PoolMachine
  import opened PoolSafety
  import opened Bits
  import W = WorkPartition

  const INT_WIDTH: nat := 32
  const INT_ALIGN_LG2: nat := 3
  const INT_ALIGN_MASK: nat := 7
  const HINT_PER_BLOCK_SIZE: nat := 2

  /** buffer_bound_lg2: a state word and enough words for 2^lg2 bits. */
  function BufferBound(lg2: nat): nat { 1 + Pow2(if lg2 > 5 then lg2 - 5 else 0) }

  /** (x + int_align_mask) & ~int_align_mask in unsigned 32-bit arithmetic. */
  function AlignUp(x: nat): nat { W.RoundUp(x, INT_ALIGN_MASK, INT_WIDTH) }

  /** A value stored in an int32_t. */
  function Int32(x: int): int {
    var u := W.Word(x, INT_WIDTH);
    if u < Pow2(31) then u else u - Pow2(32)
  }

  /** Words of one superblock's state: its state word and a bitset for the smallest blocks. */
  function StateSize(p: Pool): nat
    requires p.Valid()
  {
    AlignUp(BufferBound(p.sbLg2 - p.minLg2))
  }

  function HintOffset(p: Pool): int
    requires p.Valid()
  {
    MulNonNeg(p.sbCount, StateSize(p));
    Int32(AlignUp(p.sbCount * StateSize(p)))
  }

  function HintWords(p: Pool): nat
    requires p.Valid()
  {
    AlignUp(p.Sizes()) * HINT_PER_BLOCK_SIZE
  }

  function DataOffset(p: Pool): int
    requires p.Valid()
  {
    Int32(HintOffset(p) + HintWords(p))
  }

  /** All superblock states end before the hints, and the hints of all block sizes before the blocks. */
  ghost predicate RegionsApart(p: Pool)
    requires p.Valid()
  {
    && p.sbCount * StateSize(p) <= HintOffset(p)
    && HintOffset(p) + HINT_PER_BLOCK_SIZE * p.Sizes() <= DataOffset(p)
  }

  // ---------------------------------------------------------------- the arithmetic

  lemma AlignUpIs(x: nat)
    ensures x + 7 < Pow2(32) ==> x <= AlignUp(x) <= x + 7 && AlignUp(x) % 8 == 0 && (x % 8 == 0 ==> AlignUp(x) == x)
    ensures x + 7 >= Pow2(32) ==> AlignUp(x) < x
  {
    hide W.RoundUp, W.Word, Pow2;
    Pow2Values();
    assert Pow2(3) == 8 by { Pow2Next(4); }
    if x + 7 < Pow2(32) {
      W.RoundUpLeast(x, INT_ALIGN_LG2, INT_WIDTH);
      CeilDivBounds(x, 8);
      DivUnique(CeilDiv(x, 8) * 8, 8, CeilDiv(x, 8), 0);
    } else if x < Pow2(32) {
      W.RoundUpBounds(x, INT_ALIGN_MASK, INT_WIDTH);
      W.WordOfSmall(7, INT_WIDTH);
    } else {
      AlignUpBelow(x);
    }
  }

  lemma AlignUpBelow(x: nat)
    ensures AlignUp(x) < Pow2(32)
  {
    hide W.Word, Pow2;
    AndBelow(W.Word(x + INT_ALIGN_MASK, INT_WIDTH), Not(W.Word(INT_ALIGN_MASK, INT_WIDTH), INT_WIDTH));
  }

  lemma Int32Is(x: nat)
    requires x < Pow2(32)
    ensures Int32(x) == if x < Pow2(31) then x else x - Pow2(32)
  {
    hide W.Word, Pow2;
    W.WordOfSmall(x, INT_WIDTH);
  }

  lemma StateSizeIs(p: Pool)
    requires p.Valid()
    ensures BufferBound(p.sbLg2 - p.minLg2) <= StateSize(p) && StateSize(p) % 8 == 0
  {
    hide Pow2, AlignUp;
    Pow2Values();
    var m := p.sbLg2 - p.minLg2;
    Pow2Monotone(if m > 5 then m - 5 else 0, 25);
    AlignUpIs(BufferBound(m));
  }

  lemma HintWordsIs(p: Pool)
    requires p.Valid()
    ensures HINT_PER_BLOCK_SIZE * p.Sizes() <= HintWords(p) <= 78
  {
    hide Pow2, AlignUp;
    Pow2Values();
    AlignUpIs(p.Sizes());
  }

  lemma MultipleOfEight(a: nat, b: nat)
    requires b % 8 == 0
    ensures (a * b) % 8 == 0
  {
    DivMod(b, 8);
    Assoc(a, b / 8, 8);
    DivUnique(a * b, 8, a * (b / 8), 0);
  }

  /** The three parts are apart exactly when the states and hints together take less than 2^31 words. */
  lemma RegionsApartIff(p: Pool)
    requires p.Valid()
    ensures RegionsApart(p) <==> p.sbCount * StateSize(p) + HintWords(p) < Pow2(31)
  {
    hide Pow2, AlignUp, StateSize, HintWords, Int32;
    Pow2Values();
    StateSizeIs(p);
    HintWordsIs(p);
    MulNonNeg(p.sbCount, StateSize(p));
    var v, h := p.sbCount * StateSize(p), HintWords(p);
    MultipleOfEight(p.sbCount, StateSize(p));
    AlignUpIs(v);
    AlignUpBelow(v);
    Int32Is(AlignUp(v));
    if v < Pow2(31) { Int32Is(v + h); }
  }

  /** A superblock's state is the least multiple of 8 words that holds its state word and a bit for each block. */
  lemma StateSizeIsLeast(p: Pool, words: nat)
    requires p.Valid() && words % 8 == 0
    ensures Pow2(p.sbLg2 - p.minLg2) <= 32 * (words - 1) <==> StateSize(p) <= words
  {
    hide Pow2, AlignUp;
    Pow2Values();
    var m := p.sbLg2 - p.minLg2;
    Pow2Monotone(if m > 5 then m - 5 else 0, 25);
    AlignUpIs(BufferBound(m));
    StateSizeIs(p);
    NextMultiple(BufferBound(m), StateSize(p), words);
    if m > 5 { Pow2Add(m - 5, 5); } else { Pow2Monotone(m, 5); }
  }

  /** The hints take the least multiple of 8 block sizes, with two words each. */
  lemma HintWordsIsLeast(p: Pool, sizes: nat)
    requires p.Valid() && sizes % 8 == 0
    ensures p.Sizes() <= sizes <==> HintWords(p) <= 2 * sizes
    ensures HintWords(p) % 16 == 0
  {
    hide Pow2, AlignUp;
    Pow2Values();
    AlignUpIs(p.Sizes());
    NextMultiple(p.Sizes(), AlignUp(p.Sizes()), sizes);
  }

  /** A multiple of 8 that is at least x and at most 7 above it is the least one. */
  lemma NextMultiple(x: nat, up: nat, other: nat)
    requires up % 8 == 0 && other % 8 == 0 && x <= up <= x + 7
    ensures x <= other <==> up <= other
  {}

  /** When the parts are apart, each begins where the one before it ends. */
  lemma RegionsAdjacent(p: Pool)
    requires p.Valid() && RegionsApart(p)
    ensures HintOffset(p) == p.sbCount * StateSize(p) && DataOffset(p) == HintOffset(p) + HintWords(p)
  {
    hide Pow2, AlignUp, StateSize, HintWords, Int32;
    Pow2Values();
    RegionsApartIff(p);
    StateSizeIs(p);
    MulNonNeg(p.sbCount, StateSize(p));
    var v := p.sbCount * StateSize(p);
    MultipleOfEight(p.sbCount, StateSize(p));
    AlignUpIs(v);
    Int32Is(v);
    Int32Is(v + HintWords(p));
  }

  // ---------------------------------------------------------------- the fields of a state word

  const USED_MASK: nat := 0x3ff_ffff
  const HEADER_MASK: nat := 0x7c00_0000

  lemma {:induction false} AndShifted(x: nat, m: nat, k: nat)
    ensures 0 <= x / Pow2(k) && And(x, m * Pow2(k)) == And(x / Pow2(k), m) * Pow2(k)
  {
    hide And, Pow2;
    DivNonNeg(x, Pow2(k));
    if k == 0 {
      Pow2Values();
    } else {
      var d := Pow2(k - 1);
      Pow2Next(k);
      AndShifted(x / 2, m, k - 1);
      HalfOfQuotient(x, d);
      Assoc(m, d, 2);
      AndEven(x, m * d);
      Assoc(And(x / 2 / d, m), d, 2);
    }
  }

  lemma AndEven(x: nat, y: nat)
    ensures And(x, 2 * y) == 2 * And(x / 2, y)
  {
    W.AndHalves(x, 2 * y);
  }

  lemma HalfOfQuotient(x: nat, d: nat)
    requires d > 0
    ensures 0 <= x / 2 / d == x / (2 * d)
  {
    DivMod(x / 2, d);
    DivUnique(x, 2 * d, x / 2 / d, 2 * (x / 2 % d) + x % 2);
  }

  /** The block count and the used count are what the two masks of concurrent_bitset select from a state word. */
  lemma FieldsAreMasks(word: nat)
    ensures And(word, HEADER_MASK) == EmptyWord(HeaderLg2(word)) && And(word, USED_MASK) == Used(word)
  {
    hide And, Pow2;
    Pow2Values();
    W.AndOnes(word, 26);
    assert HEADER_MASK == (Pow2(5) - 1) * Pow2(26);
    AndShifted(word, Pow2(5) - 1, 26);
    W.AndOnes(word / Pow2(26), 5);
  }

  /** An atomic add leaves a 32-bit word that differs from the sum by a multiple of 2^32. */
  lemma FetchAddWraps(word: nat, d: int)
    ensures FetchAdd(word, d) < Pow2(32) && (FetchAdd(word, d) - (word + d)) % Pow2(32) == 0
  {
    hide Pow2;
    Pow2Values();
  }

  // ---------------------------------------------------------------- every access is inside

  /** The word of a bit below the block count lies inside the superblock's state. */
  lemma BitWordInside(p: Pool, lg2: nat, bit: nat)
    requires p.Valid() && p.CountOk(lg2) && bit < Pow2(lg2)
    ensures 1 + bit / BITS_PER_INT < StateSize(p)
  {
    hide Pow2, AlignUp, StateSize;
    var m := p.sbLg2 - p.minLg2;
    StateSizeIs(p);
    Pow2Monotone(lg2, m);
    Pow2Values();
    if m > 5 {
      Pow2Add(m - 5, 5);
      DivBelow(bit, 32, Pow2(m - 5));
    } else {
      Pow2Monotone(m, 5);
      DivUnique(bit, 32, 0, bit);
    }
  }

  /** A bit that is set in superblock i, or that a thread tries to set there. */
  ghost predicate Touched(s: State, i: nat, bit: nat) {
    && i < |s.sbs|
    && (bit in s.sbs[i].bits
        || exists t :: 0 <= t < |s.threads| && s.threads[t].SetBit? && s.threads[t].id == i && s.threads[t].bit == bit)
  }

  /** In every reachable state, every bit touched lies in its own superblock's words, before the hints. */
  lemma TouchedWordsInside(p: Pool, n: nat, trace: seq<State>, k: nat, i: nat, bit: nat)
    requires p.Valid() && ThreadsFit(p, n) && Behaviour(p, n, trace) && k < |trace| && Touched(trace[k], i, bit)
    ensures i < p.sbCount && 1 + bit / BITS_PER_INT < StateSize(p)
    ensures i * StateSize(p) + 1 + bit / BITS_PER_INT < (i + 1) * StateSize(p) <= p.sbCount * StateSize(p)
    ensures RegionsApart(p) ==> i * StateSize(p) + 1 + bit / BITS_PER_INT < HintOffset(p)
  {
    hide Behaviour, Pow2, StateSize, HintOffset, DataOffset;
    EveryStateInv(p, n, trace, k);
    TouchedBelow(p, trace[k], i, bit);
    BitWordInside(p, trace[k].sbs[i].Lg2(), bit);
    Distrib(i, 1, StateSize(p));
    MulMono(i + 1, p.sbCount, StateSize(p));
  }

  lemma TouchedBelow(p: Pool, s: State, i: nat, bit: nat)
    requires Inv(p, s) && Touched(s, i, bit)
    ensures i < |s.sbs| == p.sbCount && p.CountOk(s.sbs[i].Lg2()) && bit < Pow2(s.sbs[i].Lg2())
  {
    hide Pow2, Counting, Claiming;
    assert SuperblockOk(p, s.sbs[i], Counting(s.threads, i), Claiming(s.threads, i));
    if bit !in s.sbs[i].bits {
      var t :| 0 <= t < |s.threads| && s.threads[t].SetBit? && s.threads[t].id == i && s.threads[t].bit == bit;
      assert AllocOk(p, s.sbs, s.threads[t]);
    }
  }
}
