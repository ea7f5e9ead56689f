/**
 The memory pool run by one thread: the constructor's size rules, the bitset operations of
 core/src/impl/Kokkos_ConcurrentBitset.hpp, and the loops of allocate and deallocate.
 */
module SerialPool {
  import opened Arith
  import opened Powers
  import opened PoolGeometry
  import opened BitSearch
  import opened PoolChoice

  datatype Option<+T> = None | Some(value: T)

  const MAX_SUPERBLOCK: nat := 0x8000_0000
  const MAX_BLOCKS: nat := 0x200_0000

  /** memory_pool_bounds_verification. */
  predicate SizesConsistent(total: nat, minBlock: nat, maxBlock: nat, superblock: nat) {
    minBlock <= maxBlock <= superblock && superblock <= MAX_SUPERBLOCK && superblock <= total &&
      superblock <= minBlock * MAX_BLOCKS
  }

  lemma SuperblockHoldsFewEnoughBlocks(minBlock: nat, superblock: nat)
    requires 1 <= minBlock && 1 <= superblock <= minBlock * MAX_BLOCKS && superblock <= MAX_SUPERBLOCK
    ensures CeilLg2(superblock) <= CeilLg2(minBlock) + MAX_BIT_COUNT_LG2
    ensures CeilLg2(superblock) <= 31
  {
    hide Pow2;
    Pow2Values();
    MulMono(minBlock, Pow2(CeilLg2(minBlock)), MAX_BLOCKS);
    Pow2Add(CeilLg2(minBlock), 25);
    CeilLg2Least(superblock, CeilLg2(minBlock) + 25);
    CeilLg2Least(superblock, 31);
  }

  lemma CeilLg2Monotone(a: nat, b: nat)
    requires 1 <= a <= b
    ensures CeilLg2(a) <= CeilLg2(b)
  {
    CeilLg2Least(a, CeilLg2(b));
  }

  lemma CeilLg2Tight(n: nat)
    requires 1 <= n
    ensures n <= Pow2(CeilLg2(n)) < 2 * n
  {
    if CeilLg2(n) > 0 { assert Pow2(CeilLg2(n)) == 2 * Pow2(CeilLg2(n) - 1); }
  }

  /** Number of superblocks of the given size that hold the requested total. */
  function SuperblockCount(total: nat, size: nat): (r: nat)
    requires 1 <= total && 1 <= size
    ensures 1 <= r && total <= r * size < total + size
  {
    DivMod(total + (size - 1), size);
    DivAtLeast(total + (size - 1), size, 1);
    (total + (size - 1)) / size
  }

  /** Consistent sizes round up to a valid pool. */
  lemma RoundedSizesValid(total: nat, b: nat, m: nat, s: nat)
    requires 1 <= b && SizesConsistent(total, b, m, s)
    ensures Pool(SuperblockCount(total, Pow2(CeilLg2(s))), CeilLg2(s), CeilLg2(b), CeilLg2(m)).Valid()
    ensures b <= Pow2(CeilLg2(b)) < 2 * b && m <= Pow2(CeilLg2(m)) < 2 * m && s <= Pow2(CeilLg2(s)) < 2 * s
  {
    hide Pow2;
    CeilLg2Tight(b);
    CeilLg2Tight(m);
    CeilLg2Tight(s);
    CeilLg2Monotone(b, m);
    CeilLg2Monotone(m, s);
    SuperblockHoldsFewEnoughBlocks(b, s);
  }

  /**
   The constructor's choice of sizes, rounded up to powers of two.  A zero argument asks for a default.
   None stands for the exception of the bounds check.  Without a smallest block size all three sizes are
   the defaults, whatever else was given.  A total of zero passes that check when all sizes
   are defaulted, and leaves a pool without superblocks.
   */
  method ChooseSizes(total: nat, minBlock: nat, maxBlock: nat, superblock: nat) returns (r: Option<Pool>)
    ensures r.Some? && 0 < total ==> r.value.Valid()
    ensures r.Some? && 0 < total ==> total <= r.value.sbCount * Pow2(r.value.sbLg2) < total + Pow2(r.value.sbLg2)
    ensures 0 < minBlock ==>
      var s := if superblock != 0 then superblock else Min(minBlock * 0x200_0000, Min(0x8000_0000, total));
      var m := if maxBlock != 0 then maxBlock else s;
      && (r.Some? <==> minBlock <= m <= s <= total && s <= 0x8000_0000 && s <= minBlock * 0x200_0000)
      && (r.Some? ==> minBlock <= Pow2(r.value.minLg2) < 2 * minBlock && m <= Pow2(r.value.maxLg2) < 2 * m
                      && s <= Pow2(r.value.sbLg2) < 2 * s)
    ensures minBlock == 0 && 0 < total ==>
      r.Some? && Min(total, 0x10_0000) <= Pow2(r.value.sbLg2) < 2 * Min(total, 0x10_0000)
    ensures minBlock == 0 && 0 < total ==> Min(total, 64) <= Pow2(r.value.minLg2) < 2 * Min(total, 64)
    ensures minBlock == 0 && 0 < total ==> Min(total, 4096) <= Pow2(r.value.maxLg2) < 2 * Min(total, 4096)
    ensures total == 0 ==> r == if minBlock == 0 then Some(Pool(0, 0, 0, 0)) else None
  {
    hide Pow2, CeilLg2;
    var b, m, s := minBlock, maxBlock, superblock;
    if b == 0 {
      s := Min(0x10_0000, total);
      b := Min(64, s);
      m := Min(4096, s);
    } else if s == 0 {
      s := Min(b * MAX_BLOCKS, Min(MAX_SUPERBLOCK, total));
    }
    if m == 0 { m := s; }
    if !SizesConsistent(total, b, m, s) { return None; }
    if s == 0 { return Some(Pool(0, 0, 0, 0)); }
    RoundedSizesValid(total, b, m, s);
    return Some(Pool(SuperblockCount(total, Pow2(CeilLg2(s))), CeilLg2(s), CeilLg2(b), CeilLg2(m)));
  }

  // ---------------------------------------------------------------- one superblock's bitset

  /**
   The search loop of acquire_bounded_lg2.  It ends because it meets the word of a free block
   before it has gone around once, and a word with a clear bit yields that bit.
   */
  method FindAndSet(bits: array<set<nat>>, id: nat, lg2: nat, hint: nat) returns (bit: nat)
    requires id < bits.Length && |bits[id]| < Pow2(lg2) && hint <= Pow2(lg2)
    modifies bits
    ensures bit !in old(bits[id]) && bits[..] == old(bits[..])[id := old(bits[id]) + {bit}]
    ensures bit >= Pow2(lg2) <==> GrantsOutside(old(bits[id]), lg2, hint)
    ensures bit < Pow2(lg2) ==> Settled(old(bits[id]), lg2, SearchFrom(lg2, hint), bit)
    ensures bit >= Pow2(lg2) ==> LowestPast(old(bits[id]), hint, bit)
  {
    hide Pow2, FirstZero, SearchAt, Settled, GrantsOutside, LowestPast;
    ghost var s := bits[id];
    ghost var free := FreeNumber(s, Pow2(lg2));
    bit := hint;
    ghost var seen: nat := 0;
    ghost var target := SearchBegins(s, lg2, hint, free);
    while bit in bits[id]
      invariant bits[..] == old(bits[..]) && seen <= target && SearchAt(s, lg2, hint, bit, seen, target)
      decreases if bit in s && bit >= Pow2(lg2) then 1 else 0, target - seen, if bit in s then 1 else 0
    {
      SearchStep(s, lg2, hint, bit, seen, target, free);
      var word := bit / BITS_PER_INT;
      var j := FirstZero(bits[id], word);
      ghost var below := bit < Pow2(lg2);
      bit := if 0 <= j then word * BITS_PER_INT + j
      else (if word + 1 < Pow2(lg2) / BITS_PER_INT then (word + 1) * BITS_PER_INT else 0) + bit % BITS_PER_INT;
      if below && bit in s { seen := seen + 1; }
    }
    SearchEnds(s, lg2, hint, bit, seen, target);
    bits[id] := bits[id] + {bit};
  }

  datatype Acquired = Bit(which: nat, count: nat) | Full | WrongHeader | BadArgument

  /** A header argument with bits outside the header field. */
  predicate NotAHeader(header: nat) { header % USED_SPAN != 0 || header >= 32 * USED_SPAN }

  /**
   acquire_bounded_lg2, for any bound and any header argument.  Its comment promises an error whenever
   the hint is not below the bound; the code lets a hint equal to the bound through and then hands an
   out-of-range bit out exactly as GrantsOutside says.
   */
  method AcquireBoundedLg2(words: array<nat>, bits: array<set<nat>>, id: nat, lg2: nat, hint: nat, header: nat)
    returns (r: Acquired)
    requires id < words.Length == bits.Length
    requires words[id] < 32 * USED_SPAN && Used(words[id]) + 1 < USED_SPAN && Used(words[id]) == |bits[id]|
    modifies words, bits
    ensures r.BadArgument? <==> MAX_BIT_COUNT_LG2 < lg2 || NotAHeader(header) || Pow2(lg2) < hint
    ensures r.WrongHeader? <==> !r.BadArgument? && EmptyWord(HeaderLg2(old(words[id]))) != header
    ensures r.Full? <==> !r.BadArgument? && !r.WrongHeader? && Pow2(lg2) <= Used(old(words[id]))
    ensures !r.Bit? ==> words[..] == old(words[..]) && bits[..] == old(bits[..])
    ensures r.Bit? ==>
              && r.which !in old(bits[id]) && r.count == Used(old(words[id])) + 1
              && words[..] == old(words[..])[id := old(words[id]) + 1]
              && bits[..] == old(bits[..])[id := old(bits[id]) + {r.which}]
    ensures r.Bit? ==> (r.which >= Pow2(lg2) <==> GrantsOutside(old(bits[id]), lg2, hint))
    ensures r.Bit? && r.which < Pow2(lg2) ==> Settled(old(bits[id]), lg2, SearchFrom(lg2, hint), r.which)
    ensures r.Bit? && r.which >= Pow2(lg2) ==> LowestPast(old(bits[id]), hint, r.which)
  {
    hide Pow2;
    if MAX_BIT_COUNT_LG2 < lg2 || NotAHeader(header) || Pow2(lg2) < hint { return BadArgument; }
    var state := words[id];
    words[id] := FetchAdd(words[id], 1);
    var stateError := header != EmptyWord(HeaderLg2(state));
    if stateError || Pow2(lg2) <= Used(state) {
      words[id] := FetchAdd(words[id], -1);
      return if stateError then WrongHeader else Full;
    }
    var bit := FindAndSet(bits, id, lg2, hint);
    return Bit(bit, Used(state) + 1);
  }

  datatype Release = Count(left: nat) | AlreadyReleased | HeaderError

  method ReleaseBit(words: array<nat>, bits: array<set<nat>>, id: nat, bit: nat, header: nat) returns (r: Release)
    requires id < words.Length == bits.Length
    requires words[id] < 32 * USED_SPAN && Used(words[id]) == |bits[id]|
    modifies words, bits
    ensures r.HeaderError? <==> HeaderLg2(old(words[id])) != header
    ensures r.AlreadyReleased? <==> !r.HeaderError? && bit !in old(bits[id])
    ensures !r.Count? ==> words[..] == old(words[..]) && bits[..] == old(bits[..])
    ensures r.Count? ==>
              && r.left == Used(old(words[id])) - 1
              && words[..] == old(words[..])[id := old(words[id]) - 1]
              && bits[..] == old(bits[..])[id := old(bits[id]) - {bit}]
  {
    if header != HeaderLg2(words[id]) { return HeaderError; }
    var was := bits[id];
    bits[id] := bits[id] - {bit};
    if bit !in was {
      assert was - {bit} == was;
      assert bits[..] == old(bits[..]);
      return AlreadyReleased;
    }
    assert |was| >= 1;
    var count := words[id];
    words[id] := FetchAdd(words[id], -1);
    return Count(Used(count) - 1);
  }

  // ---------------------------------------------------------------- the pool

  datatype Allocation = Oversize | Null | At(address: nat)

  /** The superblocks whose state words name 2^lg2 blocks. */
  function AssignedTo(words: seq<nat>, lg2: int): set<nat> {
    set j: nat | j < |words| && HeaderLg2(words[j]) == lg2
  }

  /** Block size k has its share of the superblocks: an equal part rounded down, or one more. */
  ghost predicate FairShare(p: Pool, words: seq<nat>, k: nat)
    requires p.Valid()
  {
    p.sbCount / p.Sizes() <= |AssignedTo(words, p.sbLg2 - (p.minLg2 + k))| <= p.sbCount / p.Sizes() + 1
  }

  /** Superblock h begins share k of the superblocks. */
  predicate BeginsShare(p: Pool, h: nat, k: nat)
    requires p.Valid()
  {
    h * p.Sizes() <= k * p.sbCount < (h + 1) * p.Sizes()
  }

  lemma FairlyAssigned(p: Pool, words: seq<nat>)
    requires p.Valid() && |words| == p.sbCount && forall j :: 0 <= j < p.sbCount ==> words[j] == p.InitialWord(j)
    ensures forall j, k :: 0 <= j < p.sbCount && 0 <= k < p.Sizes() ==>
      (HeaderLg2(words[j]) == p.sbLg2 - (p.minLg2 + k) <==> InShare(p, j, k))
    ensures forall k :: 0 <= k < p.Sizes() ==> FairShare(p, words, k) && BeginsShare(p, p.FirstSuperblock(k), k)
  {
    hide InShare, HeaderLg2, Pool.FirstSuperblock;
    forall j, k | 0 <= j < p.sbCount && 0 <= k < p.Sizes()
      ensures HeaderLg2(words[j]) == p.sbLg2 - (p.minLg2 + k) <==> InShare(p, j, k)
    {
      InitialShares(p, j, k);
    }
    forall k | 0 <= k < p.Sizes() ensures FairShare(p, words, k) && BeginsShare(p, p.FirstSuperblock(k), k) {
      assert AssignedTo(words, p.sbLg2 - (p.minLg2 + k)) == set j: nat | j < p.sbCount && InShare(p, j, k);
      SharesAreFair(p, k);
      FirstSuperblockExact(p, k);
    }
  }

  class MemoryPool {
    const p: Pool
    const words: array<nat>
    const bits: array<set<nat>>
    const hints: array<nat>
    const starts: array<nat>

    ghost predicate Shape()
    {
      && p.Valid()
      && words.Length == bits.Length == p.sbCount
      && hints.Length == starts.Length == p.Sizes()
      && words != hints && words != starts && hints != starts
    }

    ghost predicate SuperblockValid(i: nat)
      requires Shape() && i < p.sbCount
      reads words, bits
    {
      && p.CountOk(HeaderLg2(words[i]))
      && words[i] == EmptyWord(HeaderLg2(words[i])) + |bits[i]|
      && |bits[i]| <= Pow2(HeaderLg2(words[i]))
      && forall b :: b in bits[i] ==> b < Pow2(HeaderLg2(words[i]))
    }

    ghost predicate Valid()
      reads words, bits, hints, starts
    {
      && Shape()
      && (forall i :: 0 <= i < p.sbCount ==> SuperblockValid(i))
      && (forall k :: 0 <= k < p.Sizes() ==> hints[k] < p.sbCount && starts[k] < p.sbCount)
    }

    /** Some live block begins at this address. */
    ghost predicate LiveAt(d: int)
      requires Valid()
      reads words, bits, hints, starts
    {
      exists i, b :: 0 <= i < p.sbCount && b in bits[i] && BlockAt(i, b, d)
    }

    ghost predicate BlockAt(i: nat, b: nat, d: int)
      requires Valid() && i < p.sbCount
      reads words, bits, hints, starts
    {
      assert SuperblockValid(i);
      p.Address(i, b, HeaderLg2(words[i])) == d
    }

    lemma UsedIsBlockCount(i: nat)
      requires Valid() && i < p.sbCount
      ensures Used(words[i]) == |bits[i]| && |bits[i]| <= MAX_BLOCKS
      ensures HeaderLg2(words[i]) <= MAX_BIT_COUNT_LG2 && words[i] < 32 * USED_SPAN
    {
      hide Pow2;
      assert SuperblockValid(i);
      Pow2Monotone(HeaderLg2(words[i]), 25);
      Pow2Values();
      WordParts(words[i], HeaderLg2(words[i]), |bits[i]|);
    }

    /** All superblocks start empty and are divided among the block sizes in consecutive runs. */
    constructor (p: Pool)
      requires p.Valid()
      ensures Valid() && this.p == p
      ensures fresh(words) && fresh(bits) && fresh(hints) && fresh(starts)
      ensures forall i :: 0 <= i < p.sbCount ==> bits[i] == {} && words[i] == p.InitialWord(i)
      ensures forall k :: 0 <= k < p.Sizes() ==> hints[k] == starts[k] == p.FirstSuperblock(k)
      ensures forall j :: 0 <= j < p.sbCount ==> Used(words[j]) == 0
      ensures forall j, k :: 0 <= j < p.sbCount && 0 <= k < p.Sizes() ==>
        (HeaderLg2(words[j]) == p.sbLg2 - (p.minLg2 + k) <==> InShare(p, j, k))
      ensures forall k :: 0 <= k < p.Sizes() ==> FairShare(p, words[..], k) && BeginsShare(p, starts[k], k)
    {
      hide Pow2, Pool.FirstSuperblock, Pool.SizeIndexOf, InShare, FairShare, BeginsShare;
      var n := p.Sizes();
      var w := new nat[p.sbCount](_ => 0);
      var h := new nat[n](_ => 0);
      var st := new nat[n](_ => 0);
      RunsCoverPool(p);
      for i := 0 to n
        invariant fresh(w) && fresh(h) && fresh(st) && p.FirstSuperblock(i) <= p.sbCount
        invariant forall k :: 0 <= k < i ==> h[k] == st[k] == p.FirstSuperblock(k)
        invariant forall x :: 0 <= x < p.FirstSuperblock(i) ==> w[x] == p.InitialWord(x)
      {
        var countLg2: nat := p.sbLg2 - (i + p.minLg2);
        var jbeg, jend := p.FirstSuperblock(i), p.FirstSuperblock(i + 1);
        FirstSuperblockMonotone(p, i, i + 1);
        FirstSuperblockMonotone(p, i + 1, n);
        h[i], st[i] := jbeg, jbeg;
        for j := jbeg to jend
          invariant fresh(w) && fresh(h) && fresh(st)
          invariant forall k :: 0 <= k <= i ==> h[k] == st[k] == p.FirstSuperblock(k)
          invariant forall x :: 0 <= x < j ==> w[x] == p.InitialWord(x)
        {
          RunIsUnique(p, j, i);
          w[j] := EmptyWord(countLg2);
        }
      }
      forall k | 0 <= k < n ensures p.FirstSuperblock(k) < p.sbCount { SearchStartInRange(p, k); }
      this.p, words, hints, starts := p, w, h, st;
      bits := new set<nat>[p.sbCount](_ => {});
      FairlyAssigned(p, w[..]);
    }

    /**
     allocate's search: the first superblock of the wanted size with room, else the first empty
     superblock, else the first larger-block superblock with room that precedes it.
     */
    method Search(want: nat, begin: nat) returns (sb: int, update: bool, empty: int, large: int, largeLg2: nat)
      requires Valid() && p.CountOk(want) && begin < p.sbCount
      ensures sb < p.sbCount && empty < p.sbCount && large < p.sbCount
      ensures 0 <= sb ==> BestFrom(words[..], want, begin, sb) && Suits(words[sb], want) == 3
                          && (update <==> Used(words[sb]) + 1 < Pow2(want))
      ensures sb < 0 ==> !update
      ensures sb < 0 && 0 <= empty ==> BestFrom(words[..], want, begin, empty) && Suits(words[empty], want) == 2
      ensures sb < 0 && empty < 0 && 0 <= large ==>
                && BestFrom(words[..], want, begin, large) && Suits(words[large], want) == 1
                && largeLg2 == HeaderLg2(words[large])
      ensures sb < 0 && empty < 0 && large < 0 ==> NoneServes(words[..], want)
    {
      hide Pow2, SuperblockValid, Used, HeaderLg2, Suits, BestFrom, NoneServes, SearchState;
      sb, update, empty, large, largeLg2 := -1, false, -1, -1, 0;
      var id := begin;
      var i := 0;
      SearchStarts(words[..], want, begin);
      while i < p.sbCount
        invariant i <= p.sbCount && id == (if begin + i < p.sbCount then begin + i else begin + i - p.sbCount)
        invariant sb == -1 && !update && -1 <= empty < p.sbCount && -1 <= large < p.sbCount
        invariant SearchState(words[..], want, begin, i, empty, large, largeLg2)
      {
        SearchReads(words[..], want, begin, i, id, empty, large, largeLg2);
        SuitsIs(words[id], want);
        var used, lg2 := Used(words[id]), HeaderLg2(words[id]);
        if lg2 == want {
          if used < Pow2(want) {
            sb, update := id, used + 1 < Pow2(want);
            break;
          }
        } else if used == 0 {
          if empty == -1 { empty := id; }
        } else if empty == -1 && large == -1 && lg2 < want && used < Pow2(lg2) {
          large, largeLg2 := id, lg2;
        }
        id := if id + 1 < p.sbCount then id + 1 else 0;
        i := i + 1;
      }
      if sb < 0 { SearchDone(words[..], want, begin, empty, large, largeLg2); }
    }

    /** Superblocks other than one keep their state words. */
    twostate predicate OthersKept(id: nat)
      requires Shape()
      reads words
    {
      forall x :: 0 <= x < p.sbCount && x != id ==> words[x] == old(words[x])
    }

    /** acquire_bounded_lg2 on a superblock whose header is as expected, with the clock as the hint. */
    method Claim(id: nat, lg2: nat, clock: nat) returns (r: Acquired)
      requires Valid() && id < p.sbCount && HeaderLg2(words[id]) == lg2
      modifies words, bits
      ensures Valid()
      ensures r.Bit? <==> Used(old(words[id])) < Pow2(lg2)
      ensures !r.Bit? ==> words[..] == old(words[..]) && bits[..] == old(bits[..])
      ensures r.Bit? ==> Settled(old(bits[id]), lg2, clock % Pow2(lg2), r.which)
      ensures r.Bit? ==> r.which !in old(bits[id]) && OthersKept(id) && words[id] == old(words[id]) + 1
                         && bits[..] == old(bits[..])[id := old(bits[id]) + {r.which}] && HeaderLg2(words[id]) == lg2
    {
      hide Pow2;
      UsedIsBlockCount(id);
      assert SuperblockValid(id);
      DivMod(clock, Pow2(lg2));
      r := AcquireBoundedLg2(words, bits, id, lg2, clock % Pow2(lg2), EmptyWord(lg2));
      if r.Bit? {
        WordParts(words[id], lg2, Used(old(words[id])) + 1);
        assert SuperblockValid(id);
      }
      forall i | 0 <= i < p.sbCount ensures SuperblockValid(i) {
        if i != id || !r.Bit? {
          assert old(SuperblockValid(i)) && words[..][i] == old(words[..])[i] && bits[..][i] == old(bits[..])[i];
        }
      }
    }

    /** The compare-exchange that gives an empty superblock to another block size. */
    method Reassign(id: nat, want: nat) returns (claimed: bool)
      requires Valid() && id < p.sbCount && p.CountOk(want)
      modifies words
      ensures Valid()
      ensures claimed <==> Used(old(words[id])) == 0
      ensures OthersKept(id) && words[id] == if claimed then EmptyWord(want) else old(words[id])
    {
      hide Pow2;
      UsedIsBlockCount(id);
      assert SuperblockValid(id);
      var seen := HeaderLg2(words[id]);
      claimed := words[id] == EmptyWord(seen);
      if claimed {
        words[id] := EmptyWord(want);
        WordParts(words[id], want, 0);
        assert bits[id] == {};
        assert SuperblockValid(id);
      }
      forall i | 0 <= i < p.sbCount ensures SuperblockValid(i) {
        if i != id || !claimed { assert old(SuperblockValid(i)) && words[i] == old(words[i]); }
      }
    }

    /** A superblock that suits best from begin, with the 2^lg2 blocks it has after any reassignment. */
    twostate predicate Found(want: nat, begin: nat, sb: nat, lg2: nat)
      requires Shape()
      reads words
    {
      && sb < p.sbCount && BestFrom(old(words[..]), want, begin, sb) && OthersKept(sb)
      && HeaderLg2(words[sb]) == lg2 && Used(words[sb]) < Pow2(lg2) && lg2 <= want && p.CountOk(lg2)
      && (if Suits(old(words[sb]), want) == 2 then lg2 == want && words[sb] == EmptyWord(want)
          else words[sb] == old(words[sb]) && (lg2 == want <==> Suits(old(words[sb]), want) == 3))
    }

    /** One round of allocate's search: settle on a superblock, reassigning an empty one if need be. */
    method FindSuperblock(want: nat, begin: nat) returns (sb: int, lg2: nat, update: bool)
      requires Valid() && p.CountOk(want) && begin < p.sbCount
      modifies words
      ensures Valid() && sb < p.sbCount
      ensures 0 <= sb ==> Found(want, begin, sb, lg2) && (update <==> PostsHint(old(words[sb]), want))
      ensures sb < 0 ==> words[..] == old(words[..]) && lg2 == want && !update
      ensures sb < 0 <==> NoneServes(old(words[..]), want)
    {
      hide Pow2, BestFrom, Suits, CanServe, CanServeExactly;
      var empty, large, largeLg2;
      lg2 := want;
      sb, update, empty, large, largeLg2 := Search(want, begin);
      if 0 <= sb {
        SuitsMeans(words[sb], want);
        BestServes(words[..], want, begin, sb);
        assert SuperblockValid(sb);
      } else if 0 <= empty {
        sb := empty;
        SuitsMeans(words[sb], want);
        BestServes(words[..], want, begin, sb);
        update := Reassign(sb, want);
        WordParts(EmptyWord(want), want, 0);
      } else if 0 <= large {
        sb, lg2 := large, largeLg2;
        SuitsMeans(words[sb], want);
        BestServes(words[..], want, begin, sb);
        assert SuperblockValid(sb);
      }
    }

    /** The call returns: its attempts can be used up, or it needs none, or some superblock can serve it. */
    ghost predicate Ends(size: nat, attemptLimit: int)
      requires Valid()
      reads words, bits, hints, starts
    {
      attemptLimit < 0 && 1 <= size <= Pow2(p.maxLg2) ==> !NoneServes(words[..], p.CountFor(size))
    }

    /**
     allocate with no concurrent caller: it returns null exactly when the attempts are used up or no
     superblock can serve the request, and it takes a larger block only when nothing fits exactly.  A
     negative limit is never used up, so with it the loop ends only if some superblock can serve.
     */
    method Allocate(size: nat, attemptLimit: int, clock: nat) returns (r: Allocation, ghost id: nat, ghost bit: nat)
      requires Valid() && Ends(size, attemptLimit)
      modifies words, bits, hints
      ensures Valid()
      ensures r.Oversize? <==> Pow2(p.maxLg2) < size
      ensures r.Null? <==> size <= Pow2(p.maxLg2) &&
                           (size == 0 || attemptLimit == 0 || NoneServes(old(words[..]), p.CountFor(size)))
      ensures !r.At? ==> words[..] == old(words[..]) && bits[..] == old(bits[..])
      ensures r.At? ==>
        id < p.sbCount && bit !in old(bits[id]) && bits[..] == old(bits[..])[id := old(bits[id]) + {bit}]
      ensures r.At? ==> OthersKept(id) && p.CountOk(HeaderLg2(words[id]))
      ensures r.At? ==> var lg2 := HeaderLg2(words[id]);
                && r.address == p.Address(id, bit, lg2) && 1 <= size <= Pow2(p.sbLg2 - lg2)
                && (lg2 == HeaderLg2(old(words[id])) || (Used(old(words[id])) == 0 && lg2 == p.CountFor(size)))
                && (lg2 != p.CountFor(size) ==> NoneFits(old(words[..]), p.CountFor(size)))
                && Settled(old(bits[id]), lg2, clock % Pow2(lg2), bit)
      ensures !r.At? ==> hints[..] == old(hints[..])
      ensures r.At? ==> var want := p.CountFor(size);
        var k := p.sbLg2 - want - p.minLg2;
        if Suits(old(words[hints[k]]), want) == 3 then id == old(hints[k]) && hints[..] == old(hints[..])
        else
          && BestFrom(old(words[..]), want, starts[k], id)
          && hints[..] == if PostsHint(old(words[id]), want) then old(hints[..])[k := id] else old(hints[..])
    {
      hide Pow2, Pool.Address, Pool.CountFor, Pool.BlockSizeLg2, NoneServes, CanServeExactly, Used, HeaderLg2,
        EmptyWord, Suits, BestFrom, PostsHint, CanServe, NoneFits, InShare, Visited, Position, Settled,
        SuperblockValid;
      if Pow2(p.maxLg2) < size { return Oversize, 0, 0; }
      if size == 0 { return Null, 0, 0; }
      var want := p.CountFor(size);
      var k := p.sbLg2 - want - p.minLg2;
      var begin := starts[k];
      var attempts := attemptLimit;
      var sbState := want;
      var sbId: int := -1;
      r, id, bit := Null, 0, 0;
      while attempts != 0
        invariant Valid() && bits[..] == old(bits[..]) && r == Null
        invariant if attemptLimit < 0 then attempts == attemptLimit else 0 <= attempts <= attemptLimit
        invariant sbId < 0 ==> words[..] == old(words[..]) && sbState == want
        invariant sbId < 0 && attempts < attemptLimit ==> NoneServes(old(words[..]), want)
        invariant attempts < attemptLimit || 0 <= sbId ==> Suits(old(words[hints[k]]), want) != 3
        invariant sbId < 0 ==> hints[..] == old(hints[..])
        invariant 0 <= sbId ==> attempts != 0 && Found(want, begin, sbId, sbState)
        invariant 0 <= sbId ==>
          hints[..] == if PostsHint(old(words[sbId]), want) then old(hints[..])[k := sbId] else old(hints[..])
        decreases if attempts < 0 then 0 else attempts, if sbId < 0 then 1 else 0
      {
        var hintId: int := -1;
        if sbId < 0 {
          sbId := hints[k];
          hintId := sbId;
        }
        assert SuperblockValid(sbId);
        SuitsMeans(words[sbId], want);
        if HeaderLg2(words[sbId]) == sbState {
          assert 0 <= hintId ==> words[sbId] == old(words[..])[sbId];
          var acquired := Claim(sbId, sbState, clock);
          if acquired.Bit? {
            if 0 <= hintId {
              OneServes(old(words[..]), want, sbId);
            } else {
              BestServes(old(words[..]), want, begin, sbId);
              SuitsMeans(old(words[sbId]), want);
            }
            id, bit := sbId, acquired.which;
            Pow2Monotone(p.sbLg2 - want, p.sbLg2 - sbState);
            r := At(p.Address(sbId, acquired.which, sbState));
            break;
          }
        }
        assert 0 <= hintId && words[..] == old(words[..]);
        var update;
        sbId, sbState, update := FindSuperblock(want, begin);
        if sbId < 0 {
          attempts := attempts - 1;
        }
        if update && hints[k] == hintId {
          hints[k] := sbId;
        }
      }
    }

    /** release on one superblock of the pool. */
    method ReleaseIn(id: nat, bit: nat, lg2: nat) returns (ok: bool)
      requires Valid() && id < p.sbCount && HeaderLg2(words[id]) == lg2
      modifies words, bits
      ensures Valid() && OthersKept(id) && HeaderLg2(words[id]) == lg2
      ensures ok <==> bit in old(bits[id])
      ensures !ok ==> words[..] == old(words[..]) && bits[..] == old(bits[..])
      ensures ok ==>
        Used(words[id]) == Used(old(words[id])) - 1 && bits[..] == old(bits[..])[id := old(bits[id]) - {bit}]
    {
      hide Pow2;
      UsedIsBlockCount(id);
      assert SuperblockValid(id);
      var r := ReleaseBit(words, bits, id, bit, lg2);
      ok := r.Count?;
      assert forall x :: 0 <= x < p.sbCount && x != id ==> words[x] == words[..][x] == old(words[..])[x];
      if ok {
        WordParts(words[id], lg2, Used(old(words[id])) - 1);
        assert SuperblockValid(id);
      }
      forall i | 0 <= i < p.sbCount ensures SuperblockValid(i) {
        if i != id || !ok {
          assert old(SuperblockValid(i)) && words[..][i] == old(words[..])[i] && bits[..][i] == old(bits[..])[i];
        }
      }
    }

    /** An address determines its live block: deallocate's arithmetic is the inverse of allocate's. */
    lemma BlockFromAddress(i: nat, b: nat, d: int)
      requires Valid() && i < p.sbCount && b in bits[i] && BlockAt(i, b, d)
      ensures p.Contains(d) && p.SuperblockOf(d) == i && HeaderLg2(words[i]) <= p.sbLg2
      ensures p.Aligned(d, HeaderLg2(words[i])) && p.BitOf(d, HeaderLg2(words[i])) == b
    {
      hide Pow2;
      assert SuperblockValid(i);
      AddressDecodes(p, i, b, HeaderLg2(words[i]));
    }

    /** Conversely an aligned address inside the pool is the start of the block it decodes to. */
    lemma AddressFromBlock(d: nat, i: nat)
      requires Valid() && p.Contains(d) && i == p.SuperblockOf(d) && HeaderLg2(words[i]) <= p.sbLg2
      requires p.Aligned(d, HeaderLg2(words[i]))
      ensures BlockAt(i, p.BitOf(d, HeaderLg2(words[i])), d)
    {
      hide Pow2;
      var lg2 := HeaderLg2(words[i]);
      var span, size := Pow2(p.sbLg2), Pow2(p.sbLg2 - lg2);
      Pow2Add(lg2, p.sbLg2 - lg2);
      DivMod(d, span);
      DivMod(d, size);
      Assoc(i, Pow2(lg2), size);
      Distrib(d / size, i * Pow2(lg2), size);
      MulCancelNonNeg(d / size - i * Pow2(lg2), size);
      DivUnique(d % span, size, d / size - i * Pow2(lg2), 0);
    }

    /** deallocate accepts exactly the addresses of live blocks and changes nothing else. */
    method Deallocate(d: int) returns (ok: bool, ghost id: nat, ghost bit: nat)
      requires Valid()
      modifies words, bits
      ensures Valid()
      ensures ok <==> old(LiveAt(d))
      ensures !ok ==> words[..] == old(words[..]) && bits[..] == old(bits[..])
      ensures ok ==> id < p.sbCount && bit in old(bits[id]) && old(BlockAt(id, bit, d))
                     && bits[..] == old(bits[..])[id := old(bits[id]) - {bit}]
                     && OthersKept(id) && HeaderLg2(words[id]) == HeaderLg2(old(words[id]))
    {
      hide Pow2, Pool.Contains, Pool.Aligned, Pool.BitOf, BlockAt;
      ok, id, bit := false, 0, 0;
      forall i, b | 0 <= i < p.sbCount && b in bits[i] && BlockAt(i, b, d)
        ensures p.Contains(d) && p.SuperblockOf(d) == i && HeaderLg2(words[i]) <= p.sbLg2
        ensures p.Aligned(d, HeaderLg2(words[i])) && p.BitOf(d, HeaderLg2(words[i])) == b
      {
        BlockFromAddress(i, b, d);
      }
      if p.Contains(d) {
        var sb := p.SuperblockOf(d);
        var lg2 := HeaderLg2(words[sb]);
        assert SuperblockValid(sb);
        if p.Aligned(d, lg2) {
          AddressFromBlock(d, sb);
          id, bit := sb, p.BitOf(d, lg2);
          ok := ReleaseIn(sb, p.BitOf(d, lg2), lg2);
        }
      }
    }

    /** A block that was just allocated can be deallocated, and the pool's live blocks are as before. */
    method AllocateThenDeallocate(size: nat, attemptLimit: int, clock: nat) returns (granted: bool, ok: bool)
      requires Valid() && Ends(size, attemptLimit)
      modifies words, bits, hints
      ensures Valid() && bits[..] == old(bits[..])
      ensures granted ==> ok
    {
      hide Pow2, BlockAt;
      var r, id, bit := Allocate(size, attemptLimit, clock);
      granted, ok := r.At?, false;
      if granted {
        var d := r.address;
        assert bit in bits[id];
        assert BlockAt(id, bit, d) by { AllocatedBlockAt(id, bit, d); }
        BlockFromAddress(id, bit, d);
        forall i, b | 0 <= i < p.sbCount && b in bits[i] && BlockAt(i, b, d) ensures i == id && b == bit {
          BlockFromAddress(i, b, d);
        }
        assert LiveAt(d);
        ghost var id', bit';
        ok, id', bit' := Deallocate(d);
        assert bits[..] == old(bits[..]);
      }
    }

    lemma AllocatedBlockAt(id: nat, bit: nat, d: int)
      requires Valid() && id < p.sbCount && p.CountOk(HeaderLg2(words[id]))
      requires d == p.Address(id, bit, HeaderLg2(words[id]))
      ensures BlockAt(id, bit, d)
    {}
  }
}
