/** The flat copies of core/src/Kokkos_CopyViews.hpp, when they are right, and the copies that use them. */
module FlatCopies {
  import opened Arith
  import opened Sums
  import opened StridedLayout
  import opened ViewCopies

  // ---------------------------------------------------------------- the flat copy

  ghost predicate FlatCopied(before: seq<int>, after: seq<int>, dst: nat, src: nat, span: nat)
    requires src + span <= |before|
  {
    |after| == |before| && forall p: nat :: p < |after| ==>
      after[p] == before[if dst <= p < dst + span then src + (p - dst) else p]
  }

  /** The step that stores to p reads outside the destination, or p itself. */
  predicate ReadsOutside(dst: nat, src: nat, span: nat, p: nat) {
    dst == src || !(dst <= src + p - dst < dst + span)
  }

  /**
   A flat copy with its steps in some order: nothing outside the destination changes, and what is read
   from outside the destination, or from its own place, arrives.
   */
  ghost predicate FlatMoved(before: seq<int>, after: seq<int>, dst: nat, src: nat, span: nat)
    requires src + span <= |before| && dst + span <= |before|
  {
    && |after| == |before|
    && (forall p: nat :: p < |after| && !(dst <= p < dst + span) ==> after[p] == before[p])
    && (forall p: nat :: dst <= p < dst + span && ReadsOutside(dst, src, span, p) ==>
      after[p] == before[src + (p - dst)])
  }

  ghost predicate SpansApart(dst: nat, src: nat, span: nat) {
    dst + span <= src || src + span <= dst
  }

  /** The serial local_deep_copy_contiguous: reading ahead of the stores, it also serves dst below src. */
  method CopyContiguous(memory: array<int>, dst: nat, src: nat, span: nat)
    requires dst + span <= memory.Length && src + span <= memory.Length
    modifies memory
    ensures FlatMoved(old(memory[..]), memory[..], dst, src, span)
    ensures dst <= src || SpansApart(dst, src, span) ==> FlatCopied(old(memory[..]), memory[..], dst, src, span)
  {
    for i := 0 to span
      invariant forall p: nat :: p < memory.Length && !(dst <= p < dst + i) ==> memory[p] == old(memory[..])[p]
      invariant forall p: nat :: dst <= p < dst + i && (dst <= src || ReadsOutside(dst, src, span, p)) ==>
        memory[p] == old(memory[..])[src + (p - dst)]
    {
      memory[dst + i] := memory[src + i];
    }
  }

  /** The team form, its iterations in any order. */
  method TeamCopyContiguous(memory: array<int>, dst: nat, src: nat, span: nat)
    requires dst + span <= memory.Length && src + span <= memory.Length
    modifies memory
    ensures FlatMoved(old(memory[..]), memory[..], dst, src, span)
    ensures dst == src || SpansApart(dst, src, span) ==> FlatCopied(old(memory[..]), memory[..], dst, src, span)
  {
    var pending: set<nat> := Indices(span);
    while pending != {}
      invariant pending <= Indices(span)
      invariant forall p: nat :: p < memory.Length && (!(dst <= p < dst + span) || p - dst in pending) ==>
        memory[p] == old(memory[..])[p]
      invariant forall p: nat :: dst <= p < dst + span && p - dst !in pending && ReadsOutside(dst, src, span, p) ==>
        memory[p] == old(memory[..])[src + (p - dst)]
    {
      var i :| i in pending;
      memory[dst + i] := memory[src + i];
      pending := pending - {i};
    }
  }

  /** Same strides and every position below the span taken: flat is element by element. */
  lemma FlatIsElementwise(before: seq<int>, after: seq<int>, dst: View, src: View)
    requires Usable(dst, |before|) && Usable(src, |before|) && src.d == dst.d && SpanIsContiguous(dst.d, dst.st)
    requires FlatCopied(before, after, dst.base, src.base, Span(src.d, src.st)) && SpanIsContiguous(src.d, src.st)
    requires Onto(dst.d, dst.st) && forall idx :: InBox(idx, dst.d) ==> Offset(idx, dst.st) == Offset(idx, src.st)
    ensures Copied(before, after, dst, src)
  {
    hide Offset, Span;
    var n := Size(dst.d);
    forall idx | InBox(idx, dst.d) ensures after[Address(dst, idx)] == before[Address(src, idx)] {
      OntoInjective(dst.d, dst.st, idx, idx);
    }
    forall p: nat | dst.base <= p < dst.base + n ensures Hit(dst, p) {
      assert Reached(dst.d, dst.st, p - dst.base);
      HitIsReached(dst, p - dst.base);
    }
  }

  lemma HitIsReached(v: View, q: nat)
    requires v.View? && |v.d| == |v.st|
    ensures Hit(v, v.base + q) <==> Reached(v.d, v.st, q)
  {
    hide Offset;
    if Hit(v, v.base + q) {
      var idx :| InBox(idx, v.d) && Address(v, idx) == v.base + q;
      assert Offset(idx, v.st) == q;
    }
    if Reached(v.d, v.st, q) {
      var idx :| InBox(idx, v.d) && Offset(idx, v.st) == q;
      assert Address(v, idx) == v.base + q;
    }
  }

  /** Layouts whose strides agree in every dimension longer than one agree on every offset. */
  lemma SameOffsets(d: seq<nat>, ds: seq<nat>, ss: seq<nat>, idx: seq<nat>)
    requires |d| == |ds| == |ss| && InBox(idx, d) && SameWhereLong(d, ds, ss)
    ensures Offset(idx, ds) == Offset(idx, ss)
  {
    forall k | 0 <= k < |d| ensures idx[k] * ds[k] == idx[k] * ss[k] {
      if d[k] <= 1 { assert idx[k] == 0; }
    }
    assert Terms(idx, ds) == Terms(idx, ss);
  }

  ghost predicate SameWhereLong(d: seq<nat>, ds: seq<nat>, ss: seq<nat>)
    requires |d| == |ds| == |ss|
  {
    forall k :: 0 <= k < |d| && d[k] > 1 ==> ds[k] == ss[k]
  }

  /** For every memory and every pair of separate places in it, the flat copy is the element-wise copy. */
  ghost predicate FlatAlwaysMatches(d: seq<nat>, ds: seq<nat>, ss: seq<nat>)
    requires |d| == |ds| == |ss|
  {
    forall before: seq<int>, after: seq<int>, to: nat, from: nat ::
      FlatRun(before, after, View(to, d, ds), View(from, d, ss)) ==>
        Copied(before, after, View(to, d, ds), View(from, d, ss))
  }

  ghost predicate FlatRun(before: seq<int>, after: seq<int>, dst: View, src: View) {
    && Usable(dst, |before|) && Usable(src, |before|) && src.d == dst.d && |after| == |before|
    && (dst.base + Span(dst.d, dst.st) <= src.base || src.base + Span(src.d, src.st) <= dst.base)
    && FlatCopied(before, after, dst.base, src.base, Span(src.d, src.st))
  }

  function Iota(n: nat): (s: seq<int>)
    ensures |s| == n && forall p :: 0 <= p < n ==> s[p] == p
  {
    seq(n, p => p)
  }

  ghost function FlatResult(before: seq<int>, dst: nat, src: nat, span: nat): (after: seq<int>)
    requires src + span <= |before|
    ensures FlatCopied(before, after, dst, src, span)
  {
    seq(|before|, p requires 0 <= p < |before| => before[if dst <= p < dst + span then src + (p - dst) else p])
  }

  lemma {:induction false} TermsMonotone(a: seq<nat>, b: seq<nat>, st: seq<nat>, n: nat)
    requires |a| == |b| == |st| && n <= |a| && forall k :: 0 <= k < |a| ==> a[k] <= b[k]
    ensures SumUpTo(Terms(a, st), n) <= SumUpTo(Terms(b, st), n)
  {
    if n == 0 {
    } else {
      TermsMonotone(a, b, st, n - 1);
      MulMono(a[n - 1], b[n - 1], st[n - 1]);
    }
  }

  lemma EnoughMemory(d: seq<nat>, st: seq<nat>) returns (room: nat)
    requires |d| == |st|
    ensures Size(d) < room && Span(d, st) <= room && forall idx :: InBox(idx, d) ==> Offset(idx, st) < room
  {
    hide Terms, Span;
    room := Size(d) + Span(d, st) + Offset(d, st) + 1;
    forall idx | InBox(idx, d) ensures Offset(idx, st) < room { TermsMonotone(idx, d, st, |d|); }
  }

  lemma FlatMatches(d: seq<nat>, ds: seq<nat>, ss: seq<nat>)
    requires |d| == |ds| == |ss| && SpanIsContiguous(d, ds) && SpanIsContiguous(d, ss) && Onto(d, ds)
    requires SameWhereLong(d, ds, ss)
    ensures FlatAlwaysMatches(d, ds, ss)
  {
    hide Copied, Offset, Span, Onto, SpanIsContiguous, FlatCopied, Usable;
    forall before: seq<int>, after: seq<int>, to: nat, from: nat
      | FlatRun(before, after, View(to, d, ds), View(from, d, ss))
      ensures Copied(before, after, View(to, d, ds), View(from, d, ss))
    {
      forall idx | InBox(idx, d) ensures Offset(idx, ds) == Offset(idx, ss) { SameOffsets(d, ds, ss, idx); }
      FlatIsElementwise(before, after, View(to, d, ds), View(from, d, ss));
    }
  }

  /** A position below the span that no element owns is overwritten by the flat copy alone. */
  lemma FlatMisses(d: seq<nat>, ds: seq<nat>, ss: seq<nat>)
    requires |d| == |ds| == |ss| && SpanIsContiguous(d, ds) && SpanIsContiguous(d, ss) && !Onto(d, ds)
    ensures !FlatAlwaysMatches(d, ds, ss)
  {
    hide Offset, Span;
    var v: nat :| v < Size(d) && !Reached(d, ds, v);
    var one := EnoughMemory(d, ds);
    var two := EnoughMemory(d, ss);
    var room := one + two;
    var before := Iota(2 * room);
    var after := FlatResult(before, 0, room, Size(d));
    var dst, src := View(0, d, ds), View(room, d, ss);
    assert FlatRun(before, after, dst, src);
    assert after[v] == room + v;
    HitIsReached(dst, v);
    assert !Copied(before, after, dst, src);
  }

  /** The flat copy moves the element at one unit along dimension k from the same offset. */
  lemma FlatTellsStrides(d: seq<nat>, ds: seq<nat>, ss: seq<nat>, k: nat)
    requires |d| == |ds| == |ss| && Positive(d) && SpanIsContiguous(d, ds) && SpanIsContiguous(d, ss)
    requires Onto(d, ds) && k < |d| && d[k] > 1 && FlatAlwaysMatches(d, ds, ss)
    ensures ds[k] == ss[k]
  {
    hide Onto, Offset, Span;
    var n := Size(d);
    var room := EnoughMemory(d, ss);
    var before := Iota(n + room);
    var after := FlatResult(before, 0, n, n);
    var dst, src := View(0, d, ds), View(n, d, ss);
    forall idx | InBox(idx, d) ensures Offset(idx, ds) < n { OntoInjective(d, ds, idx, idx); }
    var unit := UnitOffset(|d|, ds, k);
    var same := UnitOffset(|d|, ss, k);
    assert InBox(unit, d) by { UnitInBox(d, unit, k); }
    assert unit == same;
    assert FlatRun(before, after, dst, src);
    assert after[Address(dst, unit)] == before[Address(src, unit)];
  }

  /** With an empty box there is nothing to copy and the flat copy moves nothing. */
  lemma EmptyFlatMatches(d: seq<nat>, ds: seq<nat>, ss: seq<nat>)
    requires |d| == |ds| == |ss| && SpanIsContiguous(d, ss) && Size(d) == 0
    ensures FlatAlwaysMatches(d, ds, ss)
  {
    hide Offset, Span, Size;
    forall idx | InBox(idx, d) ensures false { BoxNotEmpty(idx, d); }
  }

  lemma BoxNotEmpty(idx: seq<nat>, d: seq<nat>)
    requires InBox(idx, d)
    ensures Size(d) > 0
  {
    ProductPositive(d, |d|);
  }

  /** What makes the flat copy between two layouts of extents d the element-wise copy. */
  ghost predicate FlatIsRight(d: seq<nat>, ds: seq<nat>, ss: seq<nat>)
    requires |d| == |ds| == |ss|
  {
    Size(d) == 0 || ((exists order :: Packed(d, ds, order)) && SameWhereLong(d, ds, ss))
  }

  /**
   local_deep_copy takes the flat path whenever both views are contiguous.  That is the element-wise
   copy in every memory exactly when the box is empty, or the destination's strides are packed and the
   source's agree with them wherever the extent exceeds one.
   */
  lemma LocalFlatExact(d: seq<nat>, ds: seq<nat>, ss: seq<nat>)
    requires |d| == |ds| == |ss| && SpanIsContiguous(d, ds) && SpanIsContiguous(d, ss)
    ensures FlatAlwaysMatches(d, ds, ss) <==> FlatIsRight(d, ds, ss)
  {
    hide Onto, Offset, Span, Size, Copied, SpanIsContiguous, FlatAlwaysMatches, Packed;
    if Size(d) == 0 {
      EmptyFlatMatches(d, ds, ss);
    } else {
      SizePositive(d);
      OntoIffPacked(d, ds);
      if !Onto(d, ds) {
        FlatMisses(d, ds, ss);
      } else if SameWhereLong(d, ds, ss) {
        FlatMatches(d, ds, ss);
      } else if FlatAlwaysMatches(d, ds, ss) {
        forall k | 0 <= k < |d| && d[k] > 1 ensures ds[k] == ss[k] { FlatTellsStrides(d, ds, ss, k); }
      }
    }
  }

  /**
   The guard of deep_copy (equal extents and strides, span equal to size) makes the flat copy right
   exactly when the box is empty or the strides are packed.
   */
  lemma DeepCopyGuardExact(d: seq<nat>, st: seq<nat>)
    requires |d| == |st| && SpanIsContiguous(d, st)
    ensures FlatAlwaysMatches(d, st, st) <==> Size(d) == 0 || exists order :: Packed(d, st, order)
  {
    hide FlatAlwaysMatches, Packed, Size, SpanIsContiguous;
    LocalFlatExact(d, st, st);
  }

  // ---------------------------------------------------------------- layouts that pass the tests and fail

  lemma TwoTerms(idx: seq<nat>, st: seq<nat>)
    requires |idx| == |st| == 2
    ensures Offset(idx, st) == idx[0] * st[0] + idx[1] * st[1]
  {
    hide Terms;
    var f := Terms(idx, st);
    SumOfTwo(f);
  }

  lemma SumOfTwo(f: seq<nat>)
    requires |f| == 2
    ensures SumUpTo(f, 2) == f[0] + f[1] && ProductUpTo(f, 2) == f[0] * f[1]
  {
    assert SumUpTo(f, 0) == 0 && ProductUpTo(f, 0) == 1;
    assert SumUpTo(f, 1) == SumUpTo(f, 0) + f[0] && ProductUpTo(f, 1) == ProductUpTo(f, 0) * f[0];
    assert SumUpTo(f, 2) == SumUpTo(f, 1) + f[1] && ProductUpTo(f, 2) == ProductUpTo(f, 1) * f[1];
  }

  lemma SpanOfTwo(d: seq<nat>, st: seq<nat>)
    requires |d| == |st| == 2 && d[0] * d[1] > 0
    ensures 0 <= d[0] * st[0] && 0 <= d[1] * st[1]
    ensures Size(d) == d[0] * d[1]
    ensures Span(d, st) == if d[0] * st[0] < d[1] * st[1] then d[1] * st[1] else d[0] * st[0]
  {
    SumOfTwo(d);
    MulNonNeg(d[0], st[0]);
    MulNonNeg(d[1], st[1]);
    assert MaxTerm(d, st, 0) == 0;
    assert MaxTerm(d, st, 1) == d[0] * st[0];
    assert MaxTerm(d, st, 2) == if d[0] * st[0] < d[1] * st[1] then d[1] * st[1] else d[0] * st[0];
  }

  /**
   Extents (2, 3) with strides (3, 2) give every element a place of its own and pass the guard, but put
   element (1, 2) at offset 7, outside the span of 6 that the flat copy moves.
   */
  lemma GuardCounterexample()
    ensures SpanIsContiguous([2, 3], [3, 2]) && Span([2, 3], [3, 2]) == 6 && Offset([1, 2], [3, 2]) == 7
    ensures forall a, b :: InBox(a, [2, 3]) && InBox(b, [2, 3]) && Offset(a, [3, 2]) == Offset(b, [3, 2]) ==> a == b
    ensures !FlatAlwaysMatches([2, 3], [3, 2], [3, 2])
  {
    hide FlatAlwaysMatches, Offset, Span, Size;
    var d: seq<nat>, st: seq<nat> := [2, 3], [3, 2];
    SpanOfTwo(d, st);
    TwoTerms([1, 2], st);
    forall a, b | InBox(a, d) && InBox(b, d) && Offset(a, st) == Offset(b, st) ensures a == b {
      TwoTerms(a, st);
      TwoTerms(b, st);
    }
    assert !Reached(d, st, 1) by {
      forall idx | InBox(idx, d) ensures Offset(idx, st) != 1 { TwoTerms(idx, st); }
    }
    FlatMisses(d, st, st);
  }

  /** Both 2 by 2 layouts are contiguous and packed, yet the flat copy between them transposes. */
  lemma LocalFlatCounterexample()
    ensures SpanIsContiguous([2, 2], [1, 2]) && SpanIsContiguous([2, 2], [2, 1])
    ensures !FlatAlwaysMatches([2, 2], [1, 2], [2, 1])
  {
    hide FlatAlwaysMatches, Packed, Span, Size;
    var d: seq<nat>, left: seq<nat>, right: seq<nat> := [2, 2], [1, 2], [2, 1];
    SpanOfTwo(d, left);
    SpanOfTwo(d, right);
    LocalFlatExact(d, left, right);
    assert d[0] > 1 && left[0] != right[0];
  }

  lemma UnitInBox(d: seq<nat>, unit: seq<nat>, k: nat)
    requires Positive(d) && k < |d| == |unit| && d[k] > 1 && unit[k] == 1
    requires forall l :: 0 <= l < |d| && l != k ==> unit[l] == 0
    ensures InBox(unit, d)
  {}

  // ---------------------------------------------------------------- local_deep_copy and deep_copy

  predicate BothContiguous(dst: View, src: View)
    requires |dst.d| == |dst.st| && |src.d| == |src.st|
  {
    SpanIsContiguous(dst.d, dst.st) && SpanIsContiguous(src.d, src.st)
  }

  /** local_deep_copy takes the flat path for contiguous views of rank two or more. */
  predicate TakesFlatPath(dst: View, src: View)
    requires |dst.d| == |dst.st| && |src.d| == |src.st|
  {
    |dst.d| > 1 && BothContiguous(dst, src)
  }

  /** A flat copy between places apart is the copy where the layouts allow it. */
  lemma FlatRunCopies(before: seq<int>, after: seq<int>, dst: View, src: View)
    requires FlatRun(before, after, dst, src) && BothContiguous(dst, src) && FlatIsRight(dst.d, dst.st, src.st)
    ensures Copied(before, after, dst, src)
  {
    hide Copied, FlatIsRight, FlatRun, SpanIsContiguous;
    RunShape(before, after, dst, src);
    LocalFlatExact(dst.d, dst.st, src.st);
    assert dst == View(dst.base, dst.d, dst.st) && src == View(src.base, src.d, src.st);
  }

  lemma RunShape(before: seq<int>, after: seq<int>, dst: View, src: View)
    requires FlatRun(before, after, dst, src)
    ensures dst.View? && src.View? && |dst.d| == |dst.st| == |src.st| && src.d == dst.d
  {}

  /**
   local_deep_copy: a null destination is left alone, contiguous views of rank two or more copy flat,
   everything else element by element.
   */
  method LocalDeepCopy(memory: array<int>, dst: View, src: View, team: bool)
    requires dst.View? ==> CanCopy(dst, src, memory.Length)
    modifies memory
    ensures dst.Null? ==> memory[..] == old(memory[..])
    ensures dst.View? ==>
      if |dst.d| > 1 && SpanIsContiguous(dst.d, dst.st) && SpanIsContiguous(src.d, src.st) then
        && FlatMoved(old(memory[..]), memory[..], dst.base, src.base, Span(src.d, src.st))
        && (SpansApart(dst.base, src.base, Span(src.d, src.st)) ==>
              && FlatCopied(old(memory[..]), memory[..], dst.base, src.base, Span(src.d, src.st))
              && (FlatIsRight(dst.d, dst.st, src.st) ==> Copied(old(memory[..]), memory[..], dst, src)))
      else
        && ElementsCopied(old(memory[..]), memory[..], dst, src)
        && (AllClean(dst, src) ==> Copied(old(memory[..]), memory[..], dst, src))
  {
    hide Copied, ElementsCopied, Offset, Span, FlatCopied, FlatMoved, FlatIsRight, AllClean, Size;
    if dst.Null? { return; }
    ghost var before := memory[..];
    if TakesFlatPath(dst, src) {
      if team {
        TeamCopyContiguous(memory, dst.base, src.base, Span(src.d, src.st));
      } else {
        CopyContiguous(memory, dst.base, src.base, Span(src.d, src.st));
      }
      if SpansApart(dst.base, src.base, Span(src.d, src.st)) && FlatIsRight(dst.d, dst.st, src.st) {
        assert FlatRun(before, memory[..], dst, src);
        FlatRunCopies(before, memory[..], dst, src);
      }
    } else {
      if team {
        TeamCopy(memory, dst, src);
      } else {
        SerialCopy(memory, dst, src);
      }
      if AllClean(dst, src) { CleanIsCopied(before, memory[..], dst, src); }
    }
  }

  datatype Outcome = Done | ExtentsError | OverlapError

  predicate SameSpan(dst: View, src: View)
    requires dst.View? && src.View? && |dst.d| == |dst.st| && |src.d| == |src.st|
  {
    dst.base == src.base && dst.base + Span(dst.d, dst.st) == src.base + Span(src.d, src.st) && BothContiguous(dst, src)
  }

  predicate Overlapping(dst: View, src: View)
    requires dst.View? && src.View? && |dst.d| == |dst.st| && |src.d| == |src.st|
  {
    dst.base < src.base + Span(src.d, src.st) && dst.base + Span(dst.d, dst.st) > src.base && BothContiguous(dst, src)
  }

  /** The condition under which deep_copy copies bytes instead of elements. */
  predicate FlatGuard(dst: View, src: View, sameTypes: bool)
    requires |dst.d| == |dst.st| && |src.d| == |src.st|
  {
    sameTypes && BothContiguous(dst, src) && dst.st == src.st
  }

  /** Neither view is null, their spans are not the same and do not overlap, and their extents agree. */
  predicate Copies(dst: View, src: View)
    requires |dst.d| == |dst.st| && |src.d| == |src.st|
  {
    dst.View? && src.View? && !SameSpan(dst, src) && !Overlapping(dst, src) && dst.d == src.d
  }

  /**
   deep_copy returns without copying when both spans are the same, whatever the strides.  Leaving the
   memory alone is the copy in every memory exactly when the box is empty or the strides agree wherever
   the extent exceeds one.
   */
  lemma SameSpanExact(base: nat, d: seq<nat>, ds: seq<nat>, ss: seq<nat>)
    requires |d| == |ds| == |ss| && SameSpan(View(base, d, ds), View(base, d, ss))
    ensures (Size(d) == 0 || SameWhereLong(d, ds, ss)) <==>
      forall memory: seq<int> :: CanCopy(View(base, d, ds), View(base, d, ss), |memory|) ==>
        Copied(memory, memory, View(base, d, ds), View(base, d, ss))
  {
    hide Offset, Span, Size;
    var dst, src := View(base, d, ds), View(base, d, ss);
    if Size(d) == 0 {
      forall idx | InBox(idx, d) ensures false { BoxNotEmpty(idx, d); }
    } else if SameWhereLong(d, ds, ss) {
      forall idx | InBox(idx, d) ensures Offset(idx, ds) == Offset(idx, ss) { SameOffsets(d, ds, ss, idx); }
    } else {
      SizePositive(d);
      var k :| 0 <= k < |d| && d[k] > 1 && ds[k] != ss[k];
      var one := EnoughMemory(d, ds);
      var two := EnoughMemory(d, ss);
      var memory := Iota(base + one + two);
      assert CanCopy(dst, src, |memory|);
      var unit := UnitOffset(|d|, ds, k);
      var same := UnitOffset(|d|, ss, k);
      UnitInBox(d, unit, k);
      assert unit == same;
      assert memory[Address(dst, unit)] != memory[Address(src, unit)];
    }
  }

  /** One 2 by 2 block seen column by column and row by row: the early return leaves no copy. */
  lemma SameSpanCounterexample(base: nat) returns (memory: seq<int>)
    ensures var dst, src := View(base, [2, 2], [1, 2]), View(base, [2, 2], [2, 1]);
      SameSpan(dst, src) && CanCopy(dst, src, |memory|) && !Copied(memory, memory, dst, src)
  {
    hide Copied, Usable, Span, Size;
    var d: seq<nat>, left: seq<nat>, right: seq<nat> := [2, 2], [1, 2], [2, 1];
    SpanOfTwo(d, left);
    SpanOfTwo(d, right);
    SameSpanExact(base, d, left, right);
    assert d[0] > 1 && left[0] != right[0];
    memory :| CanCopy(View(base, d, left), View(base, d, right), |memory|) &&
      !Copied(memory, memory, View(base, d, left), View(base, d, right));
  }

  /** Address p lies in the span of the view. */
  predicate InSpan(v: View, p: nat)
    requires v.View? && |v.d| == |v.st|
  {
    v.base <= p < v.base + Span(v.d, v.st)
  }

  /** Address p lies in the span of the view and is not its first. */
  predicate StrictlyInside(v: View, p: nat)
    requires v.View? && |v.d| == |v.st|
  {
    v.base < p < v.base + Span(v.d, v.st)
  }

  /** The comparison of the four ends, for contiguous views, finds a common address where both have one. */
  lemma OverlapMeans(dst: View, src: View)
    requires dst.View? && src.View? && |dst.d| == |dst.st| && |src.d| == |src.st| && BothContiguous(dst, src)
    ensures 0 < Span(dst.d, dst.st) && 0 < Span(src.d, src.st) ==>
      (Overlapping(dst, src) <==> exists p: nat :: InSpan(dst, p) && InSpan(src, p))
    ensures Span(dst.d, dst.st) == 0 || Span(src.d, src.st) == 0 ==>
      (Overlapping(dst, src) <==> StrictlyInside(dst, src.base) || StrictlyInside(src, dst.base))
  {
    hide Span, SpanIsContiguous;
    var p := if dst.base < src.base then src.base else dst.base;
    if Overlapping(dst, src) && 0 < Span(dst.d, dst.st) && 0 < Span(src.d, src.st) {
      assert InSpan(dst, p) && InSpan(src, p);
    }
  }

  /** deep_copy between views of one rank; sameTypes says that value and layout types agree. */
  method DeepCopy(memory: array<int>, dst: View, src: View, sameTypes: bool) returns (outcome: Outcome)
    requires |dst.d| == |dst.st| && |src.d| == |src.st| && |dst.d| == |src.d|
    requires (dst.View? ==> Usable(dst, memory.Length)) && (src.View? ==> Usable(src, memory.Length))
    modifies memory
    ensures outcome == OverlapError <==> dst.View? && src.View? && !SameSpan(dst, src) && Overlapping(dst, src)
    ensures outcome == ExtentsError <==>
      dst.d != src.d && (dst.View? && src.View? ==> !SameSpan(dst, src) && !Overlapping(dst, src))
    ensures outcome != Done || dst.Null? || src.Null? ==> memory[..] == old(memory[..])
    ensures outcome == ExtentsError ==> dst.d != src.d
    ensures dst.Null? || src.Null? ==> outcome == if dst.d == src.d then Done else ExtentsError
    ensures (dst.View? && src.View? && dst.base == src.base && Span(dst.d, dst.st) == Span(src.d, src.st)
             && SpanIsContiguous(dst.d, dst.st) && SpanIsContiguous(src.d, src.st)) ==>
      outcome == Done && memory[..] == old(memory[..])
    ensures (outcome == Done && dst.View? && src.View?
             && !(dst.base == src.base && Span(dst.d, dst.st) == Span(src.d, src.st)
                  && SpanIsContiguous(dst.d, dst.st) && SpanIsContiguous(src.d, src.st))) ==>
      && dst.d == src.d
      && if sameTypes && SpanIsContiguous(dst.d, dst.st) && SpanIsContiguous(src.d, src.st) && dst.st == src.st
         then FlatCopied(old(memory[..]), memory[..], dst.base, src.base, Span(dst.d, dst.st))
         else ElementsCopied(old(memory[..]), memory[..], dst, src)
    ensures dst.View? && src.View? && 0 < Span(dst.d, dst.st) && 0 < Span(src.d, src.st) ==>
      (outcome == OverlapError <==>
        && SpanIsContiguous(dst.d, dst.st) && SpanIsContiguous(src.d, src.st)
        && (dst.base != src.base || Span(dst.d, dst.st) != Span(src.d, src.st))
        && exists p: nat :: InSpan(dst, p) && InSpan(src, p))
    ensures dst.View? && src.View? && (Span(dst.d, dst.st) == 0 || Span(src.d, src.st) == 0) ==>
      (outcome == OverlapError <==>
        && SpanIsContiguous(dst.d, dst.st) && SpanIsContiguous(src.d, src.st)
        && (StrictlyInside(dst, src.base) || StrictlyInside(src, dst.base)))
    ensures !Copies(dst, src) ==> memory[..] == old(memory[..])
    ensures Copies(dst, src) && FlatGuard(dst, src, sameTypes) ==>
      FlatCopied(old(memory[..]), memory[..], dst.base, src.base, Span(dst.d, dst.st))
    ensures Copies(dst, src) && FlatGuard(dst, src, sameTypes) && FlatIsRight(dst.d, dst.st, dst.st) ==>
      Copied(old(memory[..]), memory[..], dst, src)
    ensures Copies(dst, src) && !FlatGuard(dst, src, sameTypes) ==>
      ElementsCopied(old(memory[..]), memory[..], dst, src)
    ensures Copies(dst, src) && !FlatGuard(dst, src, sameTypes) && AllClean(dst, src) ==>
      Copied(old(memory[..]), memory[..], dst, src)
  {
    hide Copied, ElementsCopied, Offset, Span, FlatCopied, SpanIsContiguous, FlatIsRight, AllClean, Size, FlatMoved;
    if dst.Null? || src.Null? {
      outcome := if src.d != dst.d then ExtentsError else Done;
      return;
    }
    if BothContiguous(dst, src) { OverlapMeans(dst, src); }
    if SameSpan(dst, src) { return Done; }
    if Overlapping(dst, src) { return OverlapError; }
    if src.d != dst.d { return ExtentsError; }
    ghost var before := memory[..];
    if FlatGuard(dst, src, sameTypes) {
      SeparateSpans(dst, src);
      if dst.base != src.base && 0 < Span(dst.d, dst.st) {
        CopyContiguous(memory, dst.base, src.base, Span(dst.d, dst.st));
      } else {
        NothingToCopy(before, dst, src);
      }
      if FlatIsRight(dst.d, dst.st, dst.st) {
        assert FlatRun(before, memory[..], dst, src);
        FlatRunCopies(before, memory[..], dst, src);
      }
    } else {
      TeamCopy(memory, dst, src);
      if AllClean(dst, src) { CleanIsCopied(before, memory[..], dst, src); }
    }
    outcome := Done;
  }

  lemma SeparateSpans(dst: View, src: View)
    requires dst.View? && src.View? && |dst.d| == |dst.st| && dst.d == src.d && dst.st == src.st
    requires BothContiguous(dst, src) && !SameSpan(dst, src) && !Overlapping(dst, src)
    ensures dst.base != src.base
    ensures dst.base + Span(dst.d, dst.st) <= src.base || src.base + Span(src.d, src.st) <= dst.base
  {}

  lemma NothingToCopy(before: seq<int>, dst: View, src: View)
    requires dst.View? && src.View? && |dst.d| == |dst.st| && Span(dst.d, dst.st) == 0 && src.base <= |before|
    ensures FlatCopied(before, before, dst.base, src.base, Span(dst.d, dst.st))
  {}
}
