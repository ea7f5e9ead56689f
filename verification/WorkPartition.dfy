/** Chunk size and work ranges of core/src/Kokkos_ExecPolicy.hpp. */
module WorkPartition {
  import opened Arith
  import opened Powers
  import opened Bits
  import opened BitManipulation

  // ---------------------------------------------------------------- chunk size

  /**
   What the chunk size promises: a power of two that leaves between 20 and 100 chunks a thread, unless
   it is one; above 128 it is the least with at most 100, below 128 the least with at most 40.
   */
  ghost predicate ChunkFor(c: nat, length: nat, concurrency: nat) {
    && IsPowerOfTwo(c)
    && length <= 100 * concurrency * c
    && (c > 1 ==> 20 * concurrency * c < length)
    && (c > 128 ==> 100 * concurrency * (c / 2) < length)
    && (c < 128 ==> length <= 40 * concurrency * c && (c > 1 ==> 40 * concurrency * (c / 2) < length))
  }

  /** The loop that doubles the chunk while per chunks of it are too few, up to a cap if there is one. */
  method Double(length: nat, per: nat, cap: nat) returns (c: nat)
    requires per > 0
    ensures IsPowerOfTwo(c) && c >= 1
    ensures length <= per * c || (cap > 0 && c >= cap)
    ensures c > 1 ==> per * (c / 2) < length && (cap > 0 ==> c / 2 < cap)
  {
    hide Pow2;
    Pow2Values();
    c := 1;
    ghost var k: nat := 0;
    while c * per < length && (cap == 0 || c < cap)
      invariant c == Pow2(k) && c >= 1
      invariant c > 1 ==> per * (c / 2) < length && (cap > 0 ==> c / 2 < cap)
      decreases length - c
    {
      MulMono(1, per, c);
      Pow2Next(k + 1);
      c := c * 2;
      k := k + 1;
    }
  }

  class RangePolicy {
    const begin: int
    const end: int
    var granularity: int
    var granularityMask: int

    constructor (begin: int, end: int, granularity: int)
      ensures this.begin == begin && this.end == end
      ensures this.granularity == granularity && granularityMask == granularity - 1
    {
      this.begin, this.end, this.granularity, granularityMask := begin, end, granularity, granularity - 1;
    }

    /**
     set_auto_chunk_size.  A given granularity has to be a power of two, else the program aborts; the
     chunk is then chosen anew from the length and the concurrency alone.
     */
    method SetAutoChunkSize(spaceConcurrency: nat) returns (aborted: bool)
      requires begin <= end
      modifies this
      ensures aborted <==> old(granularity) > 0 && !IsPowerOfTwo(old(granularity))
      ensures aborted ==> granularity == old(granularity) && granularityMask == old(granularityMask)
      ensures !aborted ==> granularity > 0 && granularityMask == granularity - 1
      ensures !aborted ==> ChunkFor(granularity, end - begin, if spaceConcurrency == 0 then 1 else spaceConcurrency)
    {
      hide IsPowerOfTwo, ChunkFor, HasSingleBit;
      var concurrency := if spaceConcurrency == 0 then 1 else spaceConcurrency;
      if granularity > 0 {
        HasSingleBitIffPower(granularity);
        if !HasSingleBit(granularity) { return true; }
      }
      var newChunkSize := Double(end - begin, 100 * concurrency, 0);
      ghost var first := newChunkSize;
      if newChunkSize < 128 {
        newChunkSize := Double(end - begin, 40 * concurrency, 128);
      }
      ChunkIs(newChunkSize, first, end - begin, concurrency);
      granularity := newChunkSize;
      granularityMask := granularity - 1;
      aborted := false;
    }
  }

  /** The two doubling loops together meet the promise. */
  lemma ChunkIs(c: nat, first: nat, length: nat, concurrency: nat)
    requires concurrency >= 1 && IsPowerOfTwo(c) && IsPowerOfTwo(first) && length <= 100 * concurrency * first
    requires first >= 128 ==> c == first && 100 * concurrency * (c / 2) < length
    requires first < 128 ==> (length <= 40 * concurrency * c || c >= 128)
    requires first < 128 && c > 1 ==> 40 * concurrency * (c / 2) < length && c / 2 < 128
    ensures ChunkFor(c, length, concurrency)
  {
    hide Pow2, IsPowerOfTwo;
    PowerHalves(c);
    ChunkTerms(concurrency, c);
    ChunkTerms(concurrency, c / 2);
    ChunkTerms(concurrency, first);
    if c > 1 { Distrib(c / 2, c / 2, concurrency); }
    if first < 128 && c >= 128 { MulMono(first, c, concurrency); }
  }

  /** The bounds of ChunkFor in terms of one product. */
  lemma ChunkTerms(concurrency: nat, c: nat)
    ensures 0 <= concurrency * c && concurrency * c == c * concurrency
    ensures 100 * concurrency * c == 100 * (concurrency * c) && 40 * concurrency * c == 40 * (concurrency * c)
    ensures 20 * concurrency * c == 20 * (concurrency * c)
  {
    MulNonNeg(concurrency, c);
    Assoc(100, concurrency, c);
    Assoc(40, concurrency, c);
    Assoc(20, concurrency, c);
  }

  lemma PowerHalves(c: nat)
    requires IsPowerOfTwo(c)
    ensures c >= 1 && (c > 1 ==> c == c / 2 + c / 2) && (c / 2 < 128 ==> c <= 128)
  {
    hide Pow2;
    var k: nat :| c == Pow2(k);
    Pow2Values();
    if k > 0 { Pow2Next(k); }
    if 8 <= k { Pow2Monotone(8, k); } else { Pow2Monotone(k, 7); Pow2Next(8); }
  }

  // ---------------------------------------------------------------- WorkRange

  /** The word of w bits that holds x in two's complement. */
  function Word(x: int, w: nat): (r: nat)
    ensures r < Pow2(w)
  {
    x % Pow2(w)
  }

  /** (v + mask) & ~mask on words of w bits, the addition wrapping around. */
  function RoundUp(v: nat, mask: int, w: nat): nat {
    And(Word(v + mask, w), Not(Word(mask, w), w))
  }

  /** The sum that is rounded wraps exactly when it would leave the word. */
  lemma SumWord(v: nat, mask: int, w: nat)
    requires v < Pow2(w)
    ensures var sum := v + Word(mask, w);
      Word(v + mask, w) == if sum < Pow2(w) then sum else sum - Pow2(w)
  {
    hide Pow2;
    var m := Pow2(w);
    var sum, q := v + Word(mask, w), mask / m;
    DivMod(mask, m);
    Distrib(q, 1, m);
    if sum < m { DivUnique(v + mask, m, q, sum); } else { DivUnique(v + mask, m, q + 1, sum - m); }
  }

  lemma {:induction false} AndSplits(x: nat, mask: nat, w: nat)
    requires mask < Pow2(w) && x < Pow2(w)
    ensures And(x, Not(mask, w)) + And(x, mask) == x
  {
    if x == 0 {
    } else {
      assert Not(mask, w) / 2 == Not(mask / 2, w - 1) && Not(mask, w) % 2 != mask % 2;
      AndSplits(x / 2, mask / 2, w - 1);
      AndHalves(x, mask);
      AndHalves(x, Not(mask, w));
    }
  }

  lemma AndHalves(x: nat, y: nat)
    ensures And(x, y) == 2 * And(x / 2, y / 2) + (if x % 2 == 1 && y % 2 == 1 then 1 else 0)
  {}

  /** Without a wrap rounding up loses nothing and adds at most the mask; after a wrap it falls short of v. */
  lemma RoundUpBounds(v: nat, mask: int, w: nat)
    requires v < Pow2(w)
    ensures v + Word(mask, w) < Pow2(w) ==> v <= RoundUp(v, mask, w) <= v + Word(mask, w)
    ensures v + Word(mask, w) >= Pow2(w) ==> RoundUp(v, mask, w) < v
  {
    hide Pow2, And, Not, Word;
    var m, x := Word(mask, w), Word(v + mask, w);
    SumWord(v, mask, w);
    AndSplits(x, m, w);
    AndBelow(x, m);
    AndBelow(x, Not(m, w));
  }

  /** With a power of two for granularity, the result is the least multiple of it that is at least v. */
  lemma RoundUpLeast(v: nat, k: nat, w: nat)
    requires k < w && v + Pow2(k) - 1 < Pow2(w)
    ensures RoundUp(v, Pow2(k) - 1, w) == CeilDiv(v, Pow2(k)) * Pow2(k)
  {
    hide Pow2, And, Not, Word;
    Pow2Monotone(k, w);
    var x, m := v + Pow2(k) - 1, Pow2(k) - 1;
    WordOfSmall(m, w);
    WordOfSmall(x, w);
    AndSplits(x, m, w);
    AndOnes(x, k);
    DivMod(x, Pow2(k));
  }

  lemma WordOfSmall(x: nat, w: nat)
    requires x < Pow2(w)
    ensures Word(x, w) == x
  {
    hide Pow2;
    DivUnique(x, Pow2(w), 0, x);
  }

  lemma {:induction false} AndOnes(x: nat, k: nat)
    ensures 0 <= x % Pow2(k) && And(x, Pow2(k) - 1) == x % Pow2(k)
  {
    hide And, Pow2;
    DivMod(x, Pow2(k));
    if k == 0 {
      Pow2Values();
      AndZero(x);
    } else {
      var m := Pow2(k - 1);
      Pow2Next(k);
      AndOnes(x / 2, k - 1);
      AndHalves(x, 2 * m - 1);
      assert (2 * m - 1) / 2 == m - 1;
      ModHalves(x, m);
    }
  }

  lemma AndZero(x: nat)
    ensures And(x, 0) == 0
  {}

  lemma ModHalves(x: nat, d: nat)
    requires d > 0
    ensures x % (2 * d) == 2 * ((x / 2) % d) + x % 2
  {
    DivMod(x / 2, d);
    var q, r := (x / 2) / d, (x / 2) % d;
    Assoc(2, q, d);
    Assoc(q, 2, d);
    DivUnique(x, 2 * d, q, 2 * r + x % 2);
  }

  /** A range to share out; mask is the granularity less one, whatever granularity was set. */
  datatype Work = Work(begin: int, end: int, mask: int, parts: nat) {
    ghost predicate Valid() { begin <= end && parts > 0 }

    /** An even share, rounded up. */
    function Share(): nat
      requires Valid()
    {
      CeilDiv(end - begin, parts)
    }

    /** The length of every piece but those at the end. */
    function Part(w: nat): nat
      requires Valid()
    {
      RoundUp(Share(), mask, w)
    }

    /** Where piece r begins; piece r ends where the next begins. */
    ghost function Cut(r: int, w: nat): int
      requires Valid()
    {
      if end < begin + Part(w) * r then end else begin + Part(w) * r
    }

    ghost predicate NoWrap(w: nat)
      requires Valid()
    {
      Share() + Word(mask, w) < Pow2(w)
    }
  }

  ghost predicate InPiece(k: Work, w: nat, r: nat, i: int)
    requires k.Valid()
  {
    k.Cut(r, w) <= i < k.Cut(r + 1, w)
  }

  ghost predicate InSomePiece(k: Work, w: nat, i: int)
    requires k.Valid()
  {
    exists r: nat :: r < k.parts && InPiece(k, w, r, i)
  }

  /** WorkRange: the piece of one of part_size ranks, clamped to the range. */
  method WorkRange(k: Work, rank: int, w: nat) returns (begin: int, end: int)
    requires k.begin <= k.end
    ensures k.parts == 0 ==> begin == 0 && end == 0
    ensures k.parts > 0 ==> begin == k.Cut(rank, w) && end == k.Cut(rank + 1, w)
  {
    hide RoundUp, CeilDiv;
    begin, end := 0, 0;
    if k.parts != 0 {
      var workPart := k.Part(w);
      begin := k.begin + workPart * rank;
      end := begin + workPart;
      Distrib(rank, 1, workPart);
      if k.end < begin { begin := k.end; }
      if k.end < end { end := k.end; }
    }
  }

  lemma CutNext(k: Work, w: nat, r: nat)
    requires k.Valid()
    ensures k.begin <= k.Cut(r, w) <= k.Cut(r + 1, w) <= k.end
    ensures k.Cut(r + 1, w) - k.Cut(r, w) <= k.Part(w)
  {
    hide RoundUp, CeilDiv;
    MulNonNeg(k.Part(w), r);
    Distrib(r, 1, k.Part(w));
  }

  /** The pieces begin with the range, end with it, never go back, and none exceeds its share plus the mask. */
  lemma PiecesCover(k: Work, w: nat, r: nat)
    requires k.Valid() && k.Share() < Pow2(w) && k.NoWrap(w)
    ensures k.Cut(0, w) == k.begin && k.Cut(k.parts, w) == k.end
    ensures k.begin <= k.Cut(r, w) <= k.Cut(r + 1, w) <= k.end
    ensures k.Cut(r + 1, w) - k.Cut(r, w) <= k.Share() + Word(k.mask, w)
    ensures k.end - k.begin <= k.Share() * k.parts < k.end - k.begin + k.parts
  {
    hide Pow2, RoundUp, Word;
    var v, part, len := k.Share(), k.Part(w), k.end - k.begin;
    CeilDivBounds(len, k.parts);
    RoundUpBounds(v, k.mask, w);
    DivMod(len + k.parts - 1, k.parts);
    MulMono(v, part, k.parts);
    assert part * k.parts >= len;
    assert part * 0 == 0;
    CutNext(k, w, r);
  }

  /** Every index of the range falls in the piece of some rank. */
  lemma {:induction false} PieceOf(k: Work, w: nat, n: nat, i: int) returns (r: nat)
    requires k.Valid() && k.begin <= i < k.Cut(n, w)
    ensures r < n && InPiece(k, w, r, i)
  {
    hide RoundUp, CeilDiv;
    if n == 0 {
      assert false;
    } else if k.Cut(n - 1, w) <= i {
      r := n - 1;
    } else {
      r := PieceOf(k, w, n - 1, i);
    }
  }

  lemma {:induction false} CutsOrdered(k: Work, w: nat, q: nat, r: nat)
    requires k.Valid() && q <= r
    ensures k.Cut(q, w) <= k.Cut(r, w)
    decreases r
  {
    hide Work.Cut, Work.Part;
    if q == r {
    } else {
      CutsOrdered(k, w, q, r - 1);
      CutNext(k, w, r - 1);
    }
  }

  /** No index is in the pieces of two ranks, whatever the mask. */
  lemma PieceUnique(k: Work, w: nat, q: nat, r: nat, i: int)
    requires k.Valid() && InPiece(k, w, q, i) && InPiece(k, w, r, i)
    ensures q == r
  {
    hide Work.Part, Work.Cut, Work.Valid;
    if q < r { CutsOrdered(k, w, q + 1, r); }
    if r < q { CutsOrdered(k, w, r + 1, q); }
  }

  /** After a wrap, the first index past all the pieces is still one of the range. */
  lemma WrapLosesWork(k: Work, w: nat) returns (i: int)
    requires k.Valid() && k.Share() < Pow2(w) && !k.NoWrap(w)
    ensures k.begin <= i < k.end && !InSomePiece(k, w, i)
  {
    hide Pow2, RoundUp, Word;
    var v, part, len := k.Share(), k.Part(w), k.end - k.begin;
    RoundUpBounds(v, k.mask, w);
    i := k.begin + part * k.parts;
    DivMod(len + k.parts - 1, k.parts);
    MulMono(part + 1, v, k.parts);
    Distrib(part, 1, k.parts);
    MulNonNeg(part, k.parts);
    forall r: nat | r < k.parts ensures !InPiece(k, w, r, i) { MulMono(r + 1, k.parts, part); }
  }

  /**
   Every index falls in the piece of some rank exactly when adding the mask to the share does not wrap.
   With a granularity of zero the mask is all ones, and every piece is empty.
   */
  lemma CoversIffNoWrap(k: Work, w: nat)
    requires k.Valid() && k.Share() < Pow2(w)
    ensures (forall i :: k.begin <= i < k.end ==> InSomePiece(k, w, i)) <==> k.NoWrap(w)
    ensures k.mask == -1 ==> forall r: nat :: k.Cut(r, w) == k.begin
  {
    hide Work.Cut, Work.Part, InPiece, CeilDiv;
    if k.NoWrap(w) {
      PiecesCover(k, w, 0);
      forall i | k.begin <= i < k.end ensures InSomePiece(k, w, i) {
        var r := PieceOf(k, w, k.parts, i);
      }
    } else {
      var i := WrapLosesWork(k, w);
    }
    if k.mask == -1 {
      forall r: nat ensures k.Cut(r, w) == k.begin { NothingShared(k, w, r); }
    }
  }

  /** With a granularity of 2^g every cut but the end of the range lies a multiple of it after the beginning. */
  lemma CutsAligned(k: Work, w: nat, g: nat, r: nat)
    requires k.Valid() && g < w && k.mask == Pow2(g) - 1 && k.Share() + Pow2(g) - 1 < Pow2(w)
    ensures k.Part(w) == CeilDiv(k.Share(), Pow2(g)) * Pow2(g)
    ensures k.Cut(r, w) == k.end || (k.Cut(r, w) - k.begin) % Pow2(g) == 0
  {
    hide Pow2, CeilDiv, RoundUp;
    RoundUpLeast(k.Share(), g, w);
    var m := CeilDiv(k.Share(), Pow2(g));
    Assoc(m, Pow2(g), r);
    Assoc(m, r, Pow2(g));
    DivUnique(k.Part(w) * r, Pow2(g), m * r, 0);
  }

  lemma NothingShared(k: Work, w: nat, r: nat)
    requires k.Valid() && k.mask == -1
    ensures k.Cut(r, w) == k.begin
  {
    hide Pow2, CeilDiv;
    DivUnique(-1, Pow2(w), -1, Pow2(w) - 1);
    AndZero(Word(k.Share() - 1, w));
    assert k.Part(w) == 0;
  }

  // ---------------------------------------------------------------- team ranges

  function IBegin(begin: int, end: int, rank: nat, size: nat): int
    requires size > 0 && begin <= end
  {
    begin + CeilDiv(end - begin, size) * rank
  }

  function IEnd(begin: int, end: int, rank: nat, size: nat): int
    requires size > 0 && begin <= end
  {
    var e := begin + CeilDiv(end - begin, size) * (rank + 1);
    if e < end then e else end
  }

  /** The ranges of a team's threads share out [begin, end): each index goes to one rank and no other. */
  lemma TeamRangesPartition(begin: int, end: int, size: nat, i: int, rank: nat)
    requires size > 0 && begin <= end && rank < size
    ensures IBegin(begin, end, rank, size) <= i < IEnd(begin, end, rank, size) <==>
              begin <= i < end && rank == (i - begin) / CeilDiv(end - begin, size)
    ensures begin <= i < end ==> 0 <= (i - begin) / CeilDiv(end - begin, size) < size
  {
    hide CeilDiv;
    var part := CeilDiv(end - begin, size);
    PartCovers(end - begin, size);
    MulNonNeg(part, rank);
    Distrib(rank, 1, part);
    if begin <= i < end {
      DivMod(i - begin, part);
      DivNonNeg(i - begin, part);
      DivBelow(i - begin, part, size);
    }
    if IBegin(begin, end, rank, size) <= i < IEnd(begin, end, rank, size) {
      DivUnique(i - begin, part, rank, i - begin - rank * part);
    }
  }

  lemma PartCovers(length: nat, size: nat)
    requires size > 0
    ensures length <= size * CeilDiv(length, size) && (length > 0 ==> CeilDiv(length, size) > 0)
  {
    DivMod(length + size - 1, size);
    if length > 0 { DivAtLeast(length + size - 1, size, 1); }
  }
}
