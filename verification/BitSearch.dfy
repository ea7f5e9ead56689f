/** The search for a clear bit in acquire_bounded_lg2, word by word and around the end of the bitset. */
module BitSearch {
  import opened Powers
  import opened PoolGeometry

  /** All 32 bits of a word of the bitset are one. */
  ghost predicate WordFull(bits: set<nat>, word: nat) {
    forall k: nat :: k < BITS_PER_INT ==> BitSet(bits, word, k)
  }

  /** The m-th word of a search that starts at a given word and wraps around. */
  function Wrap(start: nat, m: nat, count: nat): nat
    requires start < count && m <= count
  {
    if start + m < count then start + m else start + m - count
  }

  /** Number of words that the search cycles through. */
  function WordCount(lg2: nat): (r: nat)
    ensures 1 <= r
  {
    WholeWords(lg2);
    if lg2 >= 5 then Pow2(lg2) / BITS_PER_INT else 1
  }

  /** Where, counted from its first word, the search meets the word of a free block. */
  lemma FreeWord(bits: set<nat>, lg2: nat, start: nat, free: nat) returns (m: nat)
    requires free < Pow2(lg2) && free !in bits && start < WordCount(lg2)
    ensures m < WordCount(lg2) && !WordFull(bits, Wrap(start, m, WordCount(lg2)))
  {
    WholeWords(lg2);
    var word := free / BITS_PER_INT;
    m := if word >= start then word - start else word - start + WordCount(lg2);
    assert Wrap(start, m, WordCount(lg2)) == word;
    assert !BitSet(bits, word, free % BITS_PER_INT);
  }

  /** A word has no clear bit exactly if it is full; the bit found is clear. */
  lemma ZeroOrFull(bits: set<nat>, word: nat)
    ensures FirstZero(bits, word) < 0 <==> WordFull(bits, word)
    ensures 0 <= FirstZero(bits, word) ==> word * BITS_PER_INT + FirstZero(bits, word) !in bits
  {
    var j := FirstZero(bits, word);
    assert 0 <= j ==> !BitSet(bits, word, j);
  }

  /** What the search does from a taken bit below the bound: stop at a clear bit of its word, or go on. */
  lemma NextInBound(bits: set<nat>, bit: nat, lg2: nat, free: nat)
    requires bit <= Pow2(lg2) && free < Pow2(lg2) && free !in bits
    ensures var word := bit / BITS_PER_INT;
      bit < Pow2(lg2) || lg2 < 5 || 0 > FirstZero(bits, word) ==> NextBit(bits, bit, lg2) < Pow2(lg2)
    ensures bit == Pow2(lg2) && lg2 >= 5 && 0 <= FirstZero(bits, bit / BITS_PER_INT) ==>
      NextBit(bits, bit, lg2) >= Pow2(lg2)
    ensures NextBit(bits, bit, lg2) !in bits || WordFull(bits, bit / BITS_PER_INT)
    ensures FirstZero(bits, bit / BITS_PER_INT) < 0 <==> WordFull(bits, bit / BITS_PER_INT)
  {
    hide Pow2, FirstZero, WordFull;
    WholeWords(lg2);
    var word := bit / BITS_PER_INT;
    ZeroOrFull(bits, word);
    if bit < Pow2(lg2) {
      NextBitInRange(bits, bit, lg2, free);
    } else if lg2 < 5 {
      assert !BitSet(bits, 0, free);
    } else if FirstZero(bits, word) < 0 {
      assert bit % BITS_PER_INT == 0;
    }
  }

  /** From a taken bit below the bound whose word is full, the search goes on in the next word. */
  lemma NextWord(bits: set<nat>, bit: nat, lg2: nat, start: nat, seen: nat)
    requires bit < Pow2(lg2) && WordFull(bits, bit / BITS_PER_INT)
    requires start < WordCount(lg2) && seen < WordCount(lg2) && bit / BITS_PER_INT == Wrap(start, seen, WordCount(lg2))
    ensures NextBit(bits, bit, lg2) / BITS_PER_INT == Wrap(start, seen + 1, WordCount(lg2))
  {
    hide Pow2;
    WholeWords(lg2);
    assert FirstZero(bits, bit / BITS_PER_INT) == -1;
  }

  /** A search that begins at a bit below the bound begins in one of the words. */
  lemma FirstWord(bit: nat, lg2: nat)
    requires bit < Pow2(lg2)
    ensures bit / BITS_PER_INT < WordCount(lg2) && Wrap(bit / BITS_PER_INT, 0, WordCount(lg2)) == bit / BITS_PER_INT
  {
    hide Pow2;
    WholeWords(lg2);
  }

  /** The words that the search meets before its m-th are all full. */
  ghost predicate FullBefore(bits: set<nat>, lg2: nat, start: nat, m: int) {
    forall v: nat :: v < WordCount(lg2) && Position(v, start, WordCount(lg2)) < m ==> WordFull(bits, v)
  }

  /**
   The bit that a search from a given one settles on: that bit if it is clear; otherwise a bit of the first
   word that is not full, counted from its word and around the end.  In a later word the search tries
   the same offset first, and takes the lowest clear bit if that one is set too.
   */
  ghost predicate Settled(bits: set<nat>, lg2: nat, from: nat, bit: nat) {
    if from !in bits then bit == from
    else
      var start, word := from / BITS_PER_INT, bit / BITS_PER_INT;
      var same := word * BITS_PER_INT + from % BITS_PER_INT;
      && word < WordCount(lg2) && FullBefore(bits, lg2, start, Position(word, start, WordCount(lg2)))
      && (same !in bits ==> bit == same)
      && (same in bits ==> bit !in bits && forall b: nat :: word * BITS_PER_INT <= b < bit ==> b in bits)
  }

  /** A set bit whose word has a clear one: the search takes the lowest. */
  lemma SettlesHere(bits: set<nat>, lg2: nat, from: nat, seen: nat, bit: nat)
    requires from in bits && bit in bits && seen < WordCount(lg2) && from / BITS_PER_INT < WordCount(lg2)
    requires bit / BITS_PER_INT == Wrap(from / BITS_PER_INT, seen, WordCount(lg2))
    requires bit % BITS_PER_INT == from % BITS_PER_INT
    requires FullBefore(bits, lg2, from / BITS_PER_INT, seen) && 0 <= FirstZero(bits, bit / BITS_PER_INT)
    ensures Settled(bits, lg2, from, bit / BITS_PER_INT * BITS_PER_INT + FirstZero(bits, bit / BITS_PER_INT))
  {
    hide WordFull, FirstZero, WordCount;
    var word := bit / BITS_PER_INT;
    var j := FirstZero(bits, word);
    assert (word * BITS_PER_INT + j) / BITS_PER_INT == word;
    assert word * BITS_PER_INT + from % BITS_PER_INT == bit;
    forall b: nat | word * BITS_PER_INT <= b < word * BITS_PER_INT + j ensures b in bits {
      assert BitSet(bits, word, b - word * BITS_PER_INT);
    }
  }

  /** A set bit whose word is full: the search goes on, one word further. */
  lemma SettlesFurther(bits: set<nat>, lg2: nat, from: nat, seen: nat, word: nat, next: nat)
    requires from in bits && seen + 1 < WordCount(lg2) && from / BITS_PER_INT < WordCount(lg2)
    requires word == Wrap(from / BITS_PER_INT, seen, WordCount(lg2)) && WordFull(bits, word)
    requires next / BITS_PER_INT == Wrap(from / BITS_PER_INT, seen + 1, WordCount(lg2))
    requires next % BITS_PER_INT == from % BITS_PER_INT && FullBefore(bits, lg2, from / BITS_PER_INT, seen)
    ensures FullBefore(bits, lg2, from / BITS_PER_INT, seen + 1)
    ensures next !in bits ==> Settled(bits, lg2, from, next)
  {
    hide WordFull, WordCount;
    var start, count := from / BITS_PER_INT, WordCount(lg2);
    forall v: nat | v < count && Position(v, start, count) < seen + 1 ensures WordFull(bits, v) {
      if Position(v, start, count) == seen { assert v == word; }
    }
  }

  /** The lowest clear bit of the word that begins at a bound past the end. */
  ghost predicate LowestPast(bits: set<nat>, bound: nat, bit: nat) {
    bit / BITS_PER_INT == bound / BITS_PER_INT && forall b: nat :: bound <= b < bit ==> b in bits
  }

  /**
   The hint equals the bound, and its bit is clear or, being the first of a word of its own past the
   end, shares that word with a clear bit.
   */
  ghost predicate GrantsOutside(bits: set<nat>, lg2: nat, hint: nat) {
    hint == Pow2(lg2) && (hint !in bits || (lg2 >= 5 && !WordFull(bits, hint / BITS_PER_INT)))
  }

  /** A hint equal to the bound whose bit is set, in a word with a clear bit. */
  lemma SettlesPast(bits: set<nat>, lg2: nat, bound: nat)
    requires bound == Pow2(lg2) && bound in bits && 0 <= FirstZero(bits, bound / BITS_PER_INT)
    ensures var bit := bound / BITS_PER_INT * BITS_PER_INT + FirstZero(bits, bound / BITS_PER_INT);
      if lg2 < 5 then bit < bound ==> Settled(bits, lg2, 0, bit) else LowestPast(bits, bound, bit)
  {
    hide Pow2, WordFull, FirstZero;
    WholeWords(lg2);
    var word := bound / BITS_PER_INT;
    var j := FirstZero(bits, word);
    forall b: nat | word * BITS_PER_INT <= b < word * BITS_PER_INT + j ensures b in bits {
      assert BitSet(bits, word, b - word * BITS_PER_INT);
    }
    if lg2 >= 5 {
      assert bound == word * BITS_PER_INT;
      assert (word * BITS_PER_INT + j) / BITS_PER_INT == word;
    } else {
      assert word == 0;
      if 0 !in bits { assert !BitSet(bits, 0, 0); }
    }
  }

  /** Where the search below the bound begins. */
  function SearchFrom(lg2: nat, hint: nat): (r: nat)
    ensures r < Pow2(lg2)
  {
    if hint < Pow2(lg2) then hint else 0
  }

  /**
   The search from a hint up to the bound is at a bit, having met some words that are full; the last one
   it can come to is not.  At a clear bit it has settled.
   */
  ghost predicate SearchAt(bits: set<nat>, lg2: nat, hint: nat, bit: nat, seen: nat, target: nat) {
    var from, count := SearchFrom(lg2, hint), WordCount(lg2);
    var start := from / BITS_PER_INT;
    && start < count && seen <= target < count && !WordFull(bits, Wrap(start, target, count))
    && if bit !in bits then
         if bit < Pow2(lg2) then Settled(bits, lg2, from, bit) && !GrantsOutside(bits, lg2, hint)
         else GrantsOutside(bits, lg2, hint) && LowestPast(bits, hint, bit) && (hint !in bits ==> bit == hint)
       else if bit < Pow2(lg2) then
         && bit / BITS_PER_INT == Wrap(start, seen, count) && bit % BITS_PER_INT == from % BITS_PER_INT
         && from in bits && FullBefore(bits, lg2, start, seen) && !GrantsOutside(bits, lg2, hint)
       else bit == hint == Pow2(lg2) && seen == 0
  }

  lemma SearchBegins(bits: set<nat>, lg2: nat, hint: nat, free: nat) returns (target: nat)
    requires hint <= Pow2(lg2) && free < Pow2(lg2) && free !in bits
    ensures SearchAt(bits, lg2, hint, hint, 0, target)
  {
    hide WordFull, WordCount, Pow2;
    var from := SearchFrom(lg2, hint);
    FirstWord(from, lg2);
    target := FreeWord(bits, lg2, from / BITS_PER_INT, free);
  }

  /** One more try of the search, from a bit that is set. */
  lemma SearchStep(bits: set<nat>, lg2: nat, hint: nat, bit: nat, seen: nat, target: nat, free: nat)
    requires SearchAt(bits, lg2, hint, bit, seen, target) && bit in bits && free < Pow2(lg2) && free !in bits
    ensures var next := NextBit(bits, bit, lg2);
      var seen' := if bit < Pow2(lg2) && next in bits then seen + 1 else seen;
      && SearchAt(bits, lg2, hint, next, seen', target)
      && seen' <= target && (bit >= Pow2(lg2) && next in bits ==> next < Pow2(lg2))
  {
    hide WordFull, WordCount, Pow2, FirstZero, FullBefore, Settled, LowestPast, Wrap;
    var word := bit / BITS_PER_INT;
    NextInBound(bits, bit, lg2, free);
    if bit >= Pow2(lg2) {
      StepFromBound(bits, lg2, hint, free);
      FirstWord(0, lg2);
      SettledAtOnce(bits, lg2, 0);
    } else if WordFull(bits, word) {
      NextWord(bits, bit, lg2, SearchFrom(lg2, hint) / BITS_PER_INT, seen);
      SettlesFurther(bits, lg2, SearchFrom(lg2, hint), seen, word, NextBit(bits, bit, lg2));
    } else {
      SettlesHere(bits, lg2, SearchFrom(lg2, hint), seen, bit);
    }
  }

  /** A hint equal to the bound whose bit is set. */
  lemma StepFromBound(bits: set<nat>, lg2: nat, bound: nat, free: nat)
    requires bound == Pow2(lg2) && bound in bits && free < Pow2(lg2) && free !in bits
    ensures var next := NextBit(bits, bound, lg2);
      if GrantsOutside(bits, lg2, bound) then next !in bits && next >= bound && LowestPast(bits, bound, next)
      else next == 0 || (next < bound && next !in bits && Settled(bits, lg2, 0, next))
    ensures NextBit(bits, bound, lg2) == 0 && 0 !in bits ==> Settled(bits, lg2, 0, 0)
  {
    hide Pow2, WordFull, FirstZero, LowestPast, Settled;
    NextInBound(bits, bound, lg2, free);
    WholeWords(lg2);
    if 0 <= FirstZero(bits, bound / BITS_PER_INT) { SettlesPast(bits, lg2, bound); }
    FirstWord(0, lg2);
    SettledAtOnce(bits, lg2, 0);
  }

  lemma SettledAtOnce(bits: set<nat>, lg2: nat, from: nat)
    requires from / BITS_PER_INT < WordCount(lg2)
    ensures from !in bits ==> Settled(bits, lg2, from, from)
    ensures FullBefore(bits, lg2, from / BITS_PER_INT, 0)
  {
    hide WordFull, WordCount;
  }

  lemma SearchEnds(bits: set<nat>, lg2: nat, hint: nat, bit: nat, seen: nat, target: nat)
    requires SearchAt(bits, lg2, hint, bit, seen, target) && bit !in bits
    ensures bit >= Pow2(lg2) <==> GrantsOutside(bits, lg2, hint)
    ensures bit < Pow2(lg2) ==> Settled(bits, lg2, SearchFrom(lg2, hint), bit)
    ensures bit >= Pow2(lg2) ==> LowestPast(bits, hint, bit) && (hint !in bits ==> bit == hint)
  {}
}
