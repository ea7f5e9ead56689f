/** The element-wise copies of core/src/Kokkos_CopyViews.hpp between strided views of one memory. */
module ViewCopies {
  import opened Arith
  import opened Sums
  import opened StridedLayout

  /** A view of extents d and strides st; a null view has no data. */
  datatype View = Null(d: seq<nat>, st: seq<nat>) | View(base: nat, d: seq<nat>, st: seq<nat>)

  ghost predicate Usable(v: View, memory: nat) {
    && v.View? && |v.d| == |v.st| && v.base + Span(v.d, v.st) <= memory
    && forall idx :: InBox(idx, v.d) ==> Address(v, idx) < memory
  }

  function Address(v: View, idx: seq<nat>): nat
    requires v.View? && |idx| == |v.st|
  {
    v.base + Offset(idx, v.st)
  }

  ghost predicate Hit(v: View, p: nat)
    requires v.View? && |v.d| == |v.st|
  {
    exists idx :: InBox(idx, v.d) && Address(v, idx) == p
  }

  /** The element idx is disturbed by no other: none is stored where it is stored or read. */
  ghost predicate Clean(dst: View, src: View, idx: seq<nat>)
    requires dst.View? && src.View? && |dst.d| == |dst.st| == |src.st| == |idx|
  {
    forall other :: InBox(other, dst.d) && other != idx ==>
      Address(dst, other) != Address(dst, idx) && Address(dst, other) != Address(src, idx)
  }

  ghost predicate AllClean(dst: View, src: View)
    requires dst.View? && src.View? && |dst.d| == |dst.st| == |src.st|
  {
    forall idx :: InBox(idx, dst.d) ==> Clean(dst, src, idx)
  }

  /** An element-wise copy in some order: clean elements have their value, and nothing else is stored to. */
  ghost predicate ElementsCopied(before: seq<int>, after: seq<int>, dst: View, src: View)
    requires Usable(dst, |before|) && Usable(src, |before|) && |after| == |before| && src.d == dst.d
  {
    && (forall idx :: InBox(idx, dst.d) && Clean(dst, src, idx) ==>
      after[Address(dst, idx)] == before[Address(src, idx)])
    && (forall p: nat :: p < |after| && !Hit(dst, p) ==> after[p] == before[p])
  }

  /** Every element of dst has become src's element of the same multi-index; nothing else changed. */
  ghost predicate Copied(before: seq<int>, after: seq<int>, dst: View, src: View)
    requires Usable(dst, |before|) && Usable(src, |before|) && |after| == |before| && src.d == dst.d
  {
    && (forall idx :: InBox(idx, dst.d) ==> after[Address(dst, idx)] == before[Address(src, idx)])
    && (forall p: nat :: p < |after| && !Hit(dst, p) ==> after[p] == before[p])
  }

  /** A copy's result is determined: two memories that are both the copy are the same. */
  lemma CopiedUnique(before: seq<int>, one: seq<int>, two: seq<int>, dst: View, src: View)
    requires Usable(dst, |before|) && Usable(src, |before|) && |one| == |before| == |two| && src.d == dst.d
    requires Copied(before, one, dst, src) && Copied(before, two, dst, src)
    ensures one == two
  {
    forall p: nat | p < |one| ensures one[p] == two[p] {
      if Hit(dst, p) {
        var idx :| InBox(idx, dst.d) && Address(dst, idx) == p;
      }
    }
  }

  // ---------------------------------------------------------------- one element at a time

  ghost predicate CanCopy(dst: View, src: View, memory: nat) {
    Usable(dst, memory) && Usable(src, memory) && src.d == dst.d
  }

  /** dst(i0, i1, ...) = src(i0, i1, ...) */
  method CopyElement(memory: array<int>, dst: View, src: View, idx: seq<nat>)
    requires CanCopy(dst, src, memory.Length) && InBox(idx, dst.d)
    modifies memory
    ensures memory[..] == old(memory[..])[Address(dst, idx) := old(memory[..])[Address(src, idx)]]
  {
    memory[Address(dst, idx)] := memory[Address(src, idx)];
  }

  /** The clean elements in done are copied, and what no element in done owns is as before. */
  ghost predicate PartlyCopied(before: seq<int>, now: seq<int>, dst: View, src: View, done: iset<seq<nat>>) {
    && CanCopy(dst, src, |before|) && |now| == |before|
    && (forall idx :: idx in done ==> InBox(idx, dst.d))
    && (forall idx :: idx in done && Clean(dst, src, idx) ==> now[Address(dst, idx)] == before[Address(src, idx)])
    && (forall p: nat :: p < |now| && !HitBy(dst, done, p) ==> now[p] == before[p])
  }

  ghost predicate HitBy(v: View, done: iset<seq<nat>>, p: nat) {
    v.View? && exists idx :: idx in done && |idx| == |v.st| && Address(v, idx) == p
  }

  /** Copying one more element. */
  lemma CopyMore(before: seq<int>, now: seq<int>, dst: View, src: View, done: iset<seq<nat>>, idx: seq<nat>)
    requires PartlyCopied(before, now, dst, src, done) && InBox(idx, dst.d) && idx !in done
    ensures Address(dst, idx) < |now| && Address(src, idx) < |now|
    ensures PartlyCopied(before, now[Address(dst, idx) := now[Address(src, idx)]], dst, src, done + iset{idx})
  {
    hide Offset, Span;
    var next := now[Address(dst, idx) := now[Address(src, idx)]];
    if Clean(dst, src, idx) { assert !HitBy(dst, done, Address(src, idx)); }
    forall other | other in done && Clean(dst, src, other)
      ensures next[Address(dst, other)] == before[Address(src, other)]
    {
      assert Address(dst, idx) != Address(dst, other);
    }
    assert HitBy(dst, done + iset{idx}, Address(dst, idx)) by { assert idx in done + iset{idx}; }
    forall p: nat | HitBy(dst, done, p) ensures HitBy(dst, done + iset{idx}, p) {
      var other :| other in done && |other| == |dst.st| && Address(dst, other) == p;
      assert other in done + iset{idx};
    }
  }

  lemma AllCopied(before: seq<int>, now: seq<int>, dst: View, src: View, done: iset<seq<nat>>)
    requires PartlyCopied(before, now, dst, src, done) && forall idx :: InBox(idx, dst.d) ==> idx in done
    ensures ElementsCopied(before, now, dst, src)
  {
    hide Offset, Span, Clean;
    forall p: nat | HitBy(dst, done, p) ensures Hit(dst, p) {
      var idx :| idx in done && |idx| == |dst.st| && Address(dst, idx) == p;
    }
  }

  /** Where no element disturbs another, an element-wise copy in any order is the copy. */
  lemma CleanIsCopied(before: seq<int>, after: seq<int>, dst: View, src: View)
    requires CanCopy(dst, src, |before|) && |after| == |before| && AllClean(dst, src) &&
      ElementsCopied(before, after, dst, src)
    ensures Copied(before, after, dst, src)
  {
    hide Offset, Span, Clean;
  }

  // ---------------------------------------------------------------- the team form: decode a flat index

  /** The chain of remainders and quotients each iteration of the team loop computes. */
  method DecodeIndex(i: nat, d: seq<nat>) returns (idx: seq<nat>)
    requires Positive(d)
    ensures idx == Decode(i, d)
  {
    var itmp := i;
    idx := [];
    for k := 0 to |d|
      invariant |idx| == k && itmp == Quotient(i, d, k)
      invariant forall l :: 0 <= l < k ==> idx[l] == Digit(i, d, l)
    {
      DivMod(itmp, d[k]);
      DivNonNeg(itmp, d[k]);
      var digit := if k == |d| - 1 then itmp else itmp % d[k];
      idx := idx + [digit];
      itmp := itmp / d[k];
    }
  }

  /** TeamVectorRange over the size, its iterations in any order. */
  method TeamCopy(memory: array<int>, dst: View, src: View)
    requires CanCopy(dst, src, memory.Length)
    modifies memory
    ensures ElementsCopied(old(memory[..]), memory[..], dst, src)
  {
    hide Decode, Offset, Span, PartlyCopied, CanCopy, InBox;
    var n := Size(dst.d);
    var pending: set<nat> := Indices(n);
    ghost var before := memory[..];
    ghost var done: iset<seq<nat>> := iset{};
    StartCopy(before, dst, src);
    while pending != {}
      invariant |memory[..]| == |before| && pending <= Indices(n)
      invariant PartlyCopied(before, memory[..], dst, src, done)
      invariant forall i: nat :: i < n && i !in pending ==> Positive(dst.d) && Decode(i, dst.d) in done
      invariant forall i: nat :: i in pending && Positive(dst.d) ==> Decode(i, dst.d) !in done
    {
      var i :| i in pending;
      SizePositive(dst.d);
      DecodeInBox(i, dst.d);
      var idx := DecodeIndex(i, dst.d);
      CopyMore(before, memory[..], dst, src, done, idx);
      CopyState(before, memory[..], dst, src, done);
      CopyElement(memory, dst, src, idx);
      forall k: nat | k in pending && k != i ensures Decode(k, dst.d) != idx { DecodeDistinct(k, i, dst.d); }
      done := done + iset{idx};
      pending := pending - {i};
    }
    forall idx | InBox(idx, dst.d) ensures idx in done { DecodeEncode(idx, dst.d); }
    AllCopied(before, memory[..], dst, src, done);
  }

  lemma DecodeDistinct(i: nat, k: nat, d: seq<nat>)
    requires Positive(d) && i < Size(d) && k < Size(d) && i != k
    ensures Decode(i, d) != Decode(k, d)
  {
    hide Decode, Offset, Size;
    DecodeInBox(i, d);
    DecodeInBox(k, d);
  }

  lemma StartCopy(before: seq<int>, dst: View, src: View)
    requires CanCopy(dst, src, |before|)
    ensures PartlyCopied(before, before, dst, src, iset{})
  {}

  lemma CopyState(before: seq<int>, now: seq<int>, dst: View, src: View, done: iset<seq<nat>>)
    requires PartlyCopied(before, now, dst, src, done)
    ensures CanCopy(dst, src, |before|) && |now| == |before|
  {}

  // ---------------------------------------------------------------- the serial form: nested loops

  ghost function Under(d: seq<nat>, prefix: seq<nat>): iset<seq<nat>> {
    iset idx | InBox(idx, d) && |prefix| <= |idx| && idx[..|prefix|] == prefix
  }

  /** Multi-indices that begin with prefix and a next index below i. */
  ghost function UnderBelow(d: seq<nat>, prefix: seq<nat>, i: nat): iset<seq<nat>> {
    iset idx | InBox(idx, d) && |prefix| < |idx| && idx[..|prefix|] == prefix && idx[|prefix|] < i
  }

  lemma UnderNext(d: seq<nat>, prefix: seq<nat>, i: nat)
    requires |prefix| < |d|
    ensures UnderBelow(d, prefix, i + 1) == UnderBelow(d, prefix, i) + Under(d, prefix + [i])
  {
    forall idx: seq<nat> | |prefix| < |idx|
      ensures idx[..|prefix| + 1] == prefix + [i] <==> idx[..|prefix|] == prefix && idx[|prefix|] == i
    {
      assert idx[..|prefix| + 1] == idx[..|prefix|] + [idx[|prefix|]];
    }
  }

  /** What comes after prefix and i is under prefix, and not yet passed. */
  lemma UnderApart(d: seq<nat>, prefix: seq<nat>, i: nat)
    requires |prefix| < |d|
    ensures Under(d, prefix + [i]) <= Under(d, prefix) && UnderBelow(d, prefix, i) !! Under(d, prefix + [i])
  {
    forall idx: seq<nat> | |prefix| < |idx| && idx[..|prefix| + 1] == prefix + [i]
      ensures idx[..|prefix|] == prefix && idx[|prefix|] == i
    {
      assert idx[..|prefix| + 1] == idx[..|prefix|] + [idx[|prefix|]];
    }
  }

  lemma UnderWhole(d: seq<nat>, prefix: seq<nat>)
    requires |prefix| < |d|
    ensures UnderBelow(d, prefix, d[|prefix|]) == Under(d, prefix) && UnderBelow(d, prefix, 0) == iset{}
  {}

  lemma UnderFull(d: seq<nat>, prefix: seq<nat>)
    requires InBox(prefix, d)
    ensures Under(d, prefix) == iset{prefix}
  {
    forall idx | idx in Under(d, prefix) ensures idx == prefix { assert idx[..|prefix|] == idx; }
    assert prefix[..|prefix|] == prefix;
  }

  ghost predicate IsPrefix(prefix: seq<nat>, d: seq<nat>) {
    |prefix| <= |d| && forall k :: 0 <= k < |prefix| ==> prefix[k] < d[k]
  }

  /** The loops of the dimensions after prefix, the last dimension innermost. */
  method SerialLoops(memory: array<int>, dst: View, src: View, prefix: seq<nat>, ghost before: seq<int>,
                     ghost done: iset<seq<nat>>)
    requires PartlyCopied(before, memory[..], dst, src, done) && IsPrefix(prefix, dst.d) && done !! Under(dst.d, prefix)
    modifies memory
    ensures PartlyCopied(before, memory[..], dst, src, done + Under(dst.d, prefix))
    decreases |dst.d| - |prefix|
  {
    hide PartlyCopied, Under, UnderBelow, Offset, Span, CanCopy;
    if |prefix| == |dst.d| {
      UnderFull(dst.d, prefix);
      CopyMore(before, memory[..], dst, src, done, prefix);
      CopyState(before, memory[..], dst, src, done);
      CopyElement(memory, dst, src, prefix);
    } else {
      UnderWhole(dst.d, prefix);
      assert done + iset{} == done;
      for i := 0 to dst.d[|prefix|]
        invariant PartlyCopied(before, memory[..], dst, src, done + UnderBelow(dst.d, prefix, i))
      {
        UnderNext(dst.d, prefix, i);
        assert done + UnderBelow(dst.d, prefix, i + 1) ==
          done + UnderBelow(dst.d, prefix, i) + Under(dst.d, prefix + [i]);
        UnderApart(dst.d, prefix, i);
        SerialLoops(memory, dst, src, prefix + [i], before, done + UnderBelow(dst.d, prefix, i));
      }
    }
  }

  method SerialCopy(memory: array<int>, dst: View, src: View)
    requires CanCopy(dst, src, memory.Length)
    modifies memory
    ensures ElementsCopied(old(memory[..]), memory[..], dst, src)
  {
    hide PartlyCopied, CanCopy, Offset, Span;
    ghost var before := memory[..];
    StartCopy(before, dst, src);
    SerialLoops(memory, dst, src, [], before, iset{});
    AllCopied(before, memory[..], dst, src, iset{} + Under(dst.d, []));
  }
}
