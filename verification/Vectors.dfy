/** Exact real vectors and the reductions of core/perf_test/PerfTestBlasKernels.hpp. */
module Vectors {

  type Vector = seq<real>

  /** Multiplication under a name, so that proofs can hide it. */
  function Times(a: real, b: real): real { a * b }

  /** The partial dot product of the first n entries. */
  function DotUpTo(x: Vector, y: Vector, n: nat): real
    requires |x| == |y| && n <= |x|
  {
    if n == 0 then 0.0 else DotUpTo(x, y, n - 1) + Times(x[n - 1], y[n - 1])
  }

  function Dot(x: Vector, y: Vector): real
    requires |x| == |y|
  {
    DotUpTo(x, y, |x|)
  }

  function Scaled(a: real, x: Vector): (r: Vector)
    ensures |r| == |x| && forall i :: 0 <= i < |x| ==> r[i] == Times(x[i], a)
  {
    seq(|x|, i requires 0 <= i < |x| => Times(x[i], a))
  }

  /** a x + b y */
  function Combined(a: real, x: Vector, b: real, y: Vector): (r: Vector)
    requires |x| == |y|
    ensures |r| == |x| && forall i :: 0 <= i < |x| ==> r[i] == Times(a, x[i]) + Times(b, y[i])
  {
    seq(|x|, i requires 0 <= i < |x| => Times(a, x[i]) + Times(b, y[i]))
  }

  function Zero(n: nat): (r: Vector)
    ensures |r| == n && forall i :: 0 <= i < n ==> r[i] == 0.0
  {
    seq(n, _ => 0.0)
  }

  lemma TimesSymmetric(a: real, b: real)
    ensures Times(a, b) == Times(b, a)
  {}

  lemma TimesUnits(a: real)
    ensures Times(0.0, a) == 0.0 && Times(a, 0.0) == 0.0 && Times(1.0, a) == a && Times(a, 1.0) == a
  {}

  lemma Factor(a: real, d: real, u: real, v: real)
    ensures Times(a, d) + Times(Times(u, a), v) == Times(a, d + Times(u, v))
  {}

  lemma FactorTwo(a: real, b: real, d: real, e: real, u: real, v: real, w: real)
    ensures Times(a, d) + Times(b, e) + Times(Times(a, u) + Times(b, v), w) ==
              Times(a, d + Times(u, w)) + Times(b, e + Times(v, w))
  {}

  lemma PositiveProduct(a: real, b: real)
    requires a > 0.0 && b > 0.0
    ensures Times(a, b) > 0.0 && Times(-a, -b) > 0.0
  {}

  lemma SquareNonNegative(a: real)
    ensures Times(a, a) >= 0.0 && (a != 0.0 ==> Times(a, a) > 0.0)
  {
    if a > 0.0 {
      PositiveProduct(a, a);
    } else if a < 0.0 {
      PositiveProduct(-a, -a);
    }
  }

  // ---------------------------------------------------------------- laws of the dot product

  lemma {:induction false} DotUpToSymmetric(x: Vector, y: Vector, n: nat)
    requires |x| == |y| && n <= |x|
    ensures DotUpTo(x, y, n) == DotUpTo(y, x, n)
  {
    hide Times;
    if n == 0 {
    } else {
      DotUpToSymmetric(x, y, n - 1);
      TimesSymmetric(x[n - 1], y[n - 1]);
    }
  }

  lemma DotSymmetric(x: Vector, y: Vector)
    requires |x| == |y|
    ensures Dot(x, y) == Dot(y, x)
  {
    DotUpToSymmetric(x, y, |x|);
  }

  lemma {:induction false} DotUpToScaled(a: real, x: Vector, y: Vector, n: nat)
    requires |x| == |y| && n <= |x|
    ensures DotUpTo(Scaled(a, x), y, n) == Times(a, DotUpTo(x, y, n))
  {
    hide Times;
    TimesUnits(a);
    if n == 0 {
    } else {
      DotUpToScaled(a, x, y, n - 1);
      Factor(a, DotUpTo(x, y, n - 1), x[n - 1], y[n - 1]);
    }
  }

  lemma DotScaled(a: real, x: Vector, y: Vector)
    requires |x| == |y|
    ensures Dot(Scaled(a, x), y) == Times(a, Dot(x, y))
  {
    DotUpToScaled(a, x, y, |x|);
  }

  lemma {:induction false} DotUpToCombined(a: real, x: Vector, b: real, y: Vector, z: Vector, n: nat)
    requires |x| == |y| == |z| && n <= |x|
    ensures DotUpTo(Combined(a, x, b, y), z, n) == Times(a, DotUpTo(x, z, n)) + Times(b, DotUpTo(y, z, n))
  {
    hide Times;
    TimesUnits(a);
    TimesUnits(b);
    if n == 0 {
    } else {
      DotUpToCombined(a, x, b, y, z, n - 1);
      FactorTwo(a, b, DotUpTo(x, z, n - 1), DotUpTo(y, z, n - 1), x[n - 1], y[n - 1], z[n - 1]);
    }
  }

  lemma DotCombined(a: real, x: Vector, b: real, y: Vector, z: Vector)
    requires |x| == |y| == |z|
    ensures Dot(Combined(a, x, b, y), z) == Times(a, Dot(x, z)) + Times(b, Dot(y, z))
  {
    DotUpToCombined(a, x, b, y, z, |x|);
  }

  lemma {:induction false} DotUpToSelf(x: Vector, n: nat)
    requires n <= |x|
    ensures DotUpTo(x, x, n) >= 0.0
    ensures DotUpTo(x, x, n) == 0.0 ==> forall i :: 0 <= i < n ==> x[i] == 0.0
  {
    hide Times;
    if n == 0 {
    } else {
      DotUpToSelf(x, n - 1);
      SquareNonNegative(x[n - 1]);
    }
  }

  lemma DotSelfNonNegative(x: Vector)
    ensures Dot(x, x) >= 0.0
    ensures Dot(x, x) == 0.0 ==> x == Zero(|x|)
  {
    DotUpToSelf(x, |x|);
  }

  lemma {:induction false} DotUpToZero(y: Vector, n: nat)
    requires n <= |y|
    ensures DotUpTo(Zero(|y|), y, n) == 0.0
  {
    hide Times;
    if n == 0 {
    } else {
      DotUpToZero(y, n - 1);
      TimesUnits(y[n - 1]);
    }
  }

  lemma DotZero(y: Vector)
    ensures Dot(Zero(|y|), y) == 0.0
  {
    DotUpToZero(y, |y|);
  }

  // ---------------------------------------------------------------- parallel reduction

  /** A way for parallel_reduce to split an index range: one work item, nothing, or two joined parts. */
  datatype Split = None | Item | Join(left: Split, right: Split) {
    function Size(): nat {
      match this case None => 0 case Item => 1 case Join(l, r) => l.Size() + r.Size()
    }
  }

  /** init, the work items from index lo on, and join of the Dot functor, in the order of a split. */
  function Reduce(x: Vector, y: Vector, lo: nat, split: Split): real
    requires |x| == |y| && lo + split.Size() <= |x|
    decreases split
  {
    match split
    case None => 0.0
    case Item => 0.0 + Times(x[lo], y[lo])
    case Join(l, r) => Reduce(x, y, lo, l) + Reduce(x, y, lo + l.Size(), r)
  }

  lemma {:induction false} ReduceAddsUp(x: Vector, y: Vector, lo: nat, split: Split)
    requires |x| == |y| && lo + split.Size() <= |x|
    ensures DotUpTo(x, y, lo) + Reduce(x, y, lo, split) == DotUpTo(x, y, lo + split.Size())
    decreases split
  {
    hide Times, DotUpTo, Reduce, Split.Size;
    ReduceParts(x, y, lo, split);
    match split
    case None =>
    case Item => DotNext(x, y, lo);
    case Join(l, r) =>
      var mid := lo + l.Size();
      assert mid + r.Size() == lo + split.Size();
      ReduceAddsUp(x, y, lo, l);
      ReduceAddsUp(x, y, mid, r);
  }

  /** Reduce and Size, one case each. */
  lemma ReduceParts(x: Vector, y: Vector, lo: nat, split: Split)
    requires |x| == |y| && lo + split.Size() <= |x|
    ensures split.None? ==> split.Size() == 0 && Reduce(x, y, lo, split) == 0.0
    ensures split.Item? ==> split.Size() == 1 && Reduce(x, y, lo, split) == Times(x[lo], y[lo])
    ensures split.Join? ==> split.Size() == split.left.Size() + split.right.Size()
    ensures split.Join? ==>
      Reduce(x, y, lo, split) == Reduce(x, y, lo, split.left) + Reduce(x, y, lo + split.left.Size(), split.right)
  {
    hide Times;
  }

  lemma DotNext(x: Vector, y: Vector, n: nat)
    requires |x| == |y| && n < |x|
    ensures DotUpTo(x, y, n + 1) == DotUpTo(x, y, n) + Times(x[n], y[n])
  {}

  /** However the range is split among threads, the joined result is the dot product. */
  lemma AnySplitGivesDot(x: Vector, y: Vector, split: Split)
    requires |x| == |y| == split.Size()
    ensures Reduce(x, y, 0, split) == Dot(x, y)
  {
    ReduceAddsUp(x, y, 0, split);
  }
}
