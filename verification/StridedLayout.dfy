/**
 Strided layouts of any rank: order_dimensions of core/src/Kokkos_Layout.hpp and the offsets, span and
 size of core/src/impl/Kokkos_ViewMapping.hpp.
 */
module StridedLayout {
  import opened Arith
  import opened Powers
  import opened Bits
  import opened Sums

  /** idx is a multi-index of the box with extents d. */
  ghost predicate InBox(idx: seq<nat>, d: seq<nat>) {
    |idx| == |d| && forall k :: 0 <= k < |d| ==> idx[k] < d[k]
  }

  function Terms(idx: seq<nat>, st: seq<nat>): (f: seq<nat>)
    requires |idx| == |st|
    ensures |f| == |idx| && forall k :: 0 <= k < |idx| ==> f[k] == idx[k] * st[k]
  {
    seq(|idx|, k requires 0 <= k < |idx| => MulNonNeg(idx[k], st[k]); idx[k] * st[k])
  }

  /** i0 * S0 + i1 * S1 + ... */
  function Offset(idx: seq<nat>, st: seq<nat>): nat
    requires |idx| == |st|
  {
    SumUpTo(Terms(idx, st), |idx|)
  }

  function Size(d: seq<nat>): nat { ProductUpTo(d, |d|) }

  /** Among the first r dimensions of order, each stride is the product of the extents before it. */
  ghost predicate PackedTo(d: seq<nat>, st: seq<nat>, order: seq<nat>, r: nat) {
    && |d| == |st| && Distinct(order, |d|) && r <= |order|
    && forall q :: 0 <= q < r && d[order[q]] > 1 ==> st[order[q]] == OrderedProduct(d, order, q)
  }

  /** The strides are those of the extents taken in some order; extents of one do not matter. */
  ghost predicate Packed(d: seq<nat>, st: seq<nat>, order: seq<nat>) {
    PackedTo(d, st, order, |order|) && |order| == |d|
  }

  lemma PackedDistinct(d: seq<nat>, st: seq<nat>, order: seq<nat>, r: nat)
    requires PackedTo(d, st, order, r)
    ensures |d| == |st| && Distinct(order, |d|) && r <= |order|
  {}

  /** The term of dimension order[r - 1], whatever its stride if its extent is one. */
  lemma LastTerm(d: seq<nat>, st: seq<nat>, order: seq<nat>, r: nat, idx: seq<nat>)
    requires 0 < r && PackedTo(d, st, order, r) && InBox(idx, d)
    ensures PackedTo(d, st, order, r - 1)
    ensures OrderedSum(Terms(idx, st), order, r) ==
              OrderedSum(Terms(idx, st), order, r - 1) + idx[order[r - 1]] * OrderedProduct(d, order, r - 1)
  {
    var k := order[r - 1];
    if d[k] <= 1 { assert idx[k] == 0; }
  }

  lemma {:induction false} OrderedBelow(d: seq<nat>, st: seq<nat>, order: seq<nat>, r: nat, idx: seq<nat>)
    requires PackedTo(d, st, order, r) && InBox(idx, d)
    ensures OrderedSum(Terms(idx, st), order, r) < OrderedProduct(d, order, r)
  {
    hide Terms, PackedTo, OrderedSum, OrderedProduct;
    PackedDistinct(d, st, order, r);
    if r == 0 {
      EmptyOrder(Terms(idx, st), d, order);
    } else {
      ProductNext(d, order, r);
      LastTerm(d, st, order, r, idx);
      OrderedBelow(d, st, order, r - 1, idx);
      var k, p := order[r - 1], OrderedProduct(d, order, r - 1);
      MulMono(idx[k] + 1, d[k], p);
      Distrib(idx[k], 1, p);
    }
  }

  lemma EmptyOrder(f: seq<nat>, d: seq<nat>, order: seq<nat>)
    ensures OrderedSum(f, order, 0) == 0 && OrderedProduct(d, order, 0) == 1
  {}

  lemma ProductNext(d: seq<nat>, order: seq<nat>, r: nat)
    requires 0 < r <= |order| && Distinct(order, |d|)
    ensures OrderedProduct(d, order, r) == OrderedProduct(d, order, r - 1) * d[order[r - 1]]
  {}

  lemma BoxBound(idx: seq<nat>, d: seq<nat>, k: nat)
    requires InBox(idx, d) && k < |d|
    ensures |idx| == |d| && idx[k] < d[k]
  {}

  lemma {:induction false} OrderedInjective(d: seq<nat>, st: seq<nat>, order: seq<nat>, r: nat, a: seq<nat>,
                                            b: seq<nat>)
    requires PackedTo(d, st, order, r) && InBox(a, d) && InBox(b, d)
    requires OrderedSum(Terms(a, st), order, r) == OrderedSum(Terms(b, st), order, r)
    ensures forall q :: 0 <= q < r ==> a[order[q]] == b[order[q]]
  {
    hide Terms, InBox, PackedTo, OrderedSum, OrderedProduct;
    PackedDistinct(d, st, order, r);
    if r == 0 {
    } else {
      BoxBound(a, d, order[r - 1]);
      BoxBound(b, d, order[r - 1]);
      LastTerm(d, st, order, r, a);
      LastTerm(d, st, order, r, b);
      OrderedBelow(d, st, order, r - 1, a);
      OrderedBelow(d, st, order, r - 1, b);
      var k, p := order[r - 1], OrderedProduct(d, order, r - 1);
      SameQuotient(p, a[k], OrderedSum(Terms(a, st), order, r - 1), b[k], OrderedSum(Terms(b, st), order, r - 1));
      OrderedInjective(d, st, order, r - 1, a, b);
    }
  }

  lemma {:induction false} OrderedSumFrame(f: seq<nat>, g: seq<nat>, order: seq<nat>, r: nat)
    requires |f| == |g| && Distinct(order, |f|) && r <= |order|
    requires forall q :: 0 <= q < r ==> f[order[q]] == g[order[q]]
    ensures OrderedSum(f, order, r) == OrderedSum(g, order, r)
  {
    if r == 0 {
    } else {
      OrderedSumFrame(f, g, order, r - 1);
    }
  }

  lemma TermsFrame(a: seq<nat>, b: seq<nat>, st: seq<nat>, order: seq<nat>, r: nat)
    requires |a| == |b| == |st| && Distinct(order, |a|) && r < |order| && a == b[order[r] := a[order[r]]]
    ensures OrderedSum(Terms(a, st), order, r) == OrderedSum(Terms(b, st), order, r)
  {
    OrderedSumFrame(Terms(a, st), Terms(b, st), order, r);
  }

  lemma PackedShorter(d: seq<nat>, st: seq<nat>, order: seq<nat>, r: nat)
    requires r > 0 && PackedTo(d, st, order, r)
    ensures PackedTo(d, st, order, r - 1)
  {}

  /** Every value below the product is reached by an index that is zero in every other dimension. */
  lemma {:induction false} OrderedOnto(d: seq<nat>, st: seq<nat>, order: seq<nat>, r: nat, v: nat)
    returns (idx: seq<nat>)
    requires PackedTo(d, st, order, r) && v < OrderedProduct(d, order, r) && forall k :: 0 <= k < |d| ==> d[k] > 0
    ensures InBox(idx, d) && OrderedSum(Terms(idx, st), order, r) == v
    ensures forall k :: 0 <= k < |d| && !Chosen(order, r, k) ==> idx[k] == 0
  {
    hide Terms, PackedTo, OrderedSum, OrderedProduct, Chosen;
    PackedDistinct(d, st, order, r);
    if r == 0 {
      idx := seq(|d|, _ => 0);
      EmptyOrder(Terms(idx, st), d, order);
    } else {
      ProductNext(d, order, r);
      var k, p := order[r - 1], OrderedProduct(d, order, r - 1);
      OrderedPositive(d, order, r - 1);
      var q := v / p;
      DivMod(v, p);
      DivNonNeg(v, p);
      DivBelow(v, p, d[k]);
      PackedShorter(d, st, order, r);
      var low := OrderedOnto(d, st, order, r - 1, v % p);
      idx := low[k := q];
      ChosenNext(order, |d|, r);
      TermsFrame(idx, low, st, order, r - 1);
      LastTerm(d, st, order, r, idx);
    }
  }

  lemma {:induction false} OrderedPositive(d: seq<nat>, order: seq<nat>, r: nat)
    requires Distinct(order, |d|) && r <= |order| && forall k :: 0 <= k < |d| ==> d[k] > 0
    ensures OrderedProduct(d, order, r) > 0
  {
    if r == 0 {
    } else {
      OrderedPositive(d, order, r - 1);
      MulMono(1, d[order[r - 1]], OrderedProduct(d, order, r - 1));
    }
  }

  // ---------------------------------------------------------------- packed strides are a bijection

  lemma TermsTotal(idx: seq<nat>, st: seq<nat>, order: seq<nat>, r: nat)
    requires |idx| == |st| && Distinct(order, |idx|) && r <= |order|
    requires forall k :: 0 <= k < |idx| && !Chosen(order, r, k) ==> idx[k] == 0
    ensures OrderedSum(Terms(idx, st), order, r) == Offset(idx, st)
  {
    OrderedSumTotal(Terms(idx, st), order, r);
  }

  lemma AllChosen(order: seq<nat>, n: nat)
    requires IsPermutation(order, n)
    ensures forall k: nat :: k < n ==> Chosen(order, n, k)
  {
    forall k: nat | k < n ensures Chosen(order, n, k) { PermutationCovers(order, n, k); }
  }

  lemma PackedBelow(d: seq<nat>, st: seq<nat>, order: seq<nat>, idx: seq<nat>)
    requires Packed(d, st, order) && InBox(idx, d)
    ensures Offset(idx, st) < Size(d)
  {
    AllChosen(order, |d|);
    TermsTotal(idx, st, order, |d|);
    OrderedBelow(d, st, order, |d|, idx);
    OrderedProductTotal(d, order);
  }

  lemma PackedInjective(d: seq<nat>, st: seq<nat>, order: seq<nat>, a: seq<nat>, b: seq<nat>)
    requires Packed(d, st, order) && InBox(a, d) && InBox(b, d) && Offset(a, st) == Offset(b, st)
    ensures a == b
  {
    hide Terms;
    AllChosen(order, |d|);
    TermsTotal(a, st, order, |d|);
    TermsTotal(b, st, order, |d|);
    OrderedInjective(d, st, order, |d|, a, b);
    forall k | 0 <= k < |d| ensures a[k] == b[k] {
      assert Chosen(order, |d|, k);
    }
  }

  lemma PackedOnto(d: seq<nat>, st: seq<nat>, order: seq<nat>, v: nat) returns (idx: seq<nat>)
    requires Packed(d, st, order) && v < Size(d)
    ensures InBox(idx, d) && Offset(idx, st) == v
  {
    AllChosen(order, |d|);
    OrderedProductTotal(d, order);
    forall k | 0 <= k < |d| ensures d[k] > 0 {
      if d[k] == 0 { ProductZero(d, |d|, k); }
    }
    idx := OrderedOnto(d, st, order, |d|, v);
    TermsTotal(idx, st, order, |d|);
  }

  // ---------------------------------------------------------------- decoding a flat index

  ghost predicate Positive(d: seq<nat>) { forall k :: 0 <= k < |d| ==> d[k] > 0 }

  /** The running quotient after k dimensions have been divided out. */
  function Quotient(i: nat, d: seq<nat>, k: nat): nat
    requires k <= |d| && Positive(d)
  {
    if k == 0 then i else
      DivNonNeg(Quotient(i, d, k - 1), d[k - 1]);
      Quotient(i, d, k - 1) / d[k - 1]
  }

  /** Every digit is a remainder except the last, which is what is left. */
  function Digit(i: nat, d: seq<nat>, k: nat): nat
    requires k < |d| && Positive(d)
  {
    DivMod(Quotient(i, d, k), d[k]);
    if k == |d| - 1 then Quotient(i, d, k) else Quotient(i, d, k) % d[k]
  }

  function Decode(i: nat, d: seq<nat>): (idx: seq<nat>)
    requires Positive(d)
    ensures |idx| == |d| && forall k :: 0 <= k < |d| ==> idx[k] == Digit(i, d, k)
  {
    seq(|d|, k requires 0 <= k < |d| => Digit(i, d, k))
  }

  /** Stride k of the layout whose first index runs fastest: the product of the extents before k. */
  function Weights(d: seq<nat>): (st: seq<nat>)
    ensures |st| == |d| && forall k :: 0 <= k < |d| ==> st[k] == ProductUpTo(d, k)
  {
    seq(|d|, k requires 0 <= k < |d| => ProductUpTo(d, k))
  }

  function Identity(n: nat): (order: seq<nat>)
    ensures |order| == n && forall k :: 0 <= k < n ==> order[k] == k
  {
    seq(n, k => k)
  }

  lemma {:induction false} IdentityProduct(d: seq<nat>, r: nat)
    requires r <= |d|
    ensures OrderedProduct(d, Identity(|d|), r) == ProductUpTo(d, r)
  {
    if r == 0 {
    } else {
      IdentityProduct(d, r - 1);
    }
  }

  lemma WeightsPacked(d: seq<nat>)
    ensures Packed(d, Weights(d), Identity(|d|))
  {
    forall q | 0 <= q < |d| ensures Weights(d)[q] == OrderedProduct(d, Identity(|d|), q) { IdentityProduct(d, q); }
  }

  lemma DigitStep(i: nat, d: seq<nat>, k: nat)
    requires Positive(d) && k < |d|
    ensures k == 0 ==> Quotient(i, d, k) == i && ProductUpTo(d, k) == 1
    ensures k > 0 ==> Quotient(i, d, k) == Quotient(i, d, k - 1) / d[k - 1]
    ensures k > 0 ==> ProductUpTo(d, k) == d[k - 1] * ProductUpTo(d, k - 1)
  {}

  lemma {:induction false} DigitsSum(i: nat, d: seq<nat>, k: nat)
    requires Positive(d) && k < |d|
    ensures SumUpTo(Terms(Decode(i, d), Weights(d)), k) + Quotient(i, d, k) * ProductUpTo(d, k) == i
  {
    hide Terms, Decode, Weights, ProductUpTo, Quotient;
    DigitStep(i, d, k);
    if k == 0 {
    } else {
      DigitsSum(i, d, k - 1);
      var q, e, p := Quotient(i, d, k - 1), d[k - 1], ProductUpTo(d, k - 1);
      DivMod(q, e);
      Distrib((q / e) * e, q % e, p);
      Assoc(q / e, e, p);
      assert Terms(Decode(i, d), Weights(d))[k - 1] == (q % e) * p;
    }
  }

  /** Every flat index below the size decodes to a multi-index of the box whose weights give it back. */
  lemma DecodeInBox(i: nat, d: seq<nat>)
    requires Positive(d) && i < Size(d)
    ensures InBox(Decode(i, d), d) && Offset(Decode(i, d), Weights(d)) == i
  {
    hide Terms, Decode, Weights, Quotient, Digit, ProductUpTo, SumUpTo;
    DecodeEmpty(d);
    if |d| > 0 {
      var n := |d| - 1;
      var q, p := Quotient(i, d, n), ProductUpTo(d, n);
      var f := Terms(Decode(i, d), Weights(d));
      DigitsSum(i, d, n);
      LastStep(f, d);
      forall k | 0 <= k < |d| ensures Decode(i, d)[k] < d[k] && (k == n ==> Decode(i, d)[k] == q) {
        DigitBelow(i, d, k);
        if d[n] <= q { MulMono(d[n], q, p); }
      }
      assert f[n] == q * p;
    }
  }

  lemma DecodeEmpty(d: seq<nat>)
    ensures |d| == 0 ==> Size(d) == 1 && SumUpTo([], 0) == 0
  {}

  lemma LastStep(f: seq<nat>, d: seq<nat>)
    requires |f| == |d| > 0
    ensures SumUpTo(f, |f|) == SumUpTo(f, |f| - 1) + f[|f| - 1]
    ensures ProductUpTo(d, |d|) == d[|d| - 1] * ProductUpTo(d, |d| - 1)
  {}

  lemma DigitBelow(i: nat, d: seq<nat>, k: nat)
    requires Positive(d) && k < |d|
    ensures Decode(i, d)[k] == if k == |d| - 1 then Quotient(i, d, k) else Digit(i, d, k)
    ensures k < |d| - 1 ==> Digit(i, d, k) < d[k]
  {
    DivMod(Quotient(i, d, k), d[k]);
  }

  /** The flat indices below the size and the multi-indices of the box name each other one to one. */
  lemma DecodeEncode(idx: seq<nat>, d: seq<nat>)
    requires InBox(idx, d)
    ensures Positive(d) && Offset(idx, Weights(d)) < Size(d) && Decode(Offset(idx, Weights(d)), d) == idx
  {
    hide Terms, Offset, Packed, Decode;
    WeightsPacked(d);
    PackedBelow(d, Weights(d), Identity(|d|), idx);
    var i := Offset(idx, Weights(d));
    DecodeInBox(i, d);
    PackedInjective(d, Weights(d), Identity(|d|), Decode(i, d), idx);
  }

  // ---------------------------------------------------------------- only packed strides fill [0, size)

  ghost predicate Reached(d: seq<nat>, st: seq<nat>, v: nat)
    requires |d| == |st|
  {
    exists idx :: InBox(idx, d) && Offset(idx, st) == v
  }

  /** Every position below the size is the offset of some multi-index. */
  ghost predicate Onto(d: seq<nat>, st: seq<nat>) {
    |d| == |st| && forall v: nat :: v < Size(d) ==> Reached(d, st, v)
  }

  function AllOffsets(d: seq<nat>, st: seq<nat>): (s: seq<nat>)
    requires |d| == |st| && Positive(d)
    ensures |s| == Size(d) && forall i :: 0 <= i < |s| ==> s[i] == Offset(Decode(i, d), st)
  {
    seq(Size(d), i requires 0 <= i < Size(d) => Offset(Decode(i, d), st))
  }

  lemma OntoCovers(d: seq<nat>, st: seq<nat>)
    requires Onto(d, st) && Positive(d)
    ensures IsPermutation(AllOffsets(d, st), Size(d))
  {
    hide Terms, Offset, Decode;
    var s := AllOffsets(d, st);
    forall v | 0 <= v < Size(d) ensures v in s {
      assert Reached(d, st, v);
      var idx :| InBox(idx, d) && Offset(idx, st) == v;
      DecodeEncode(idx, d);
      assert s[Offset(idx, Weights(d))] == v;
    }
    CoversIsPermutation(s, Size(d));
  }

  /** Filling [0, size) leaves no room for two multi-indices at one offset, nor for an offset beyond. */
  lemma OntoInjective(d: seq<nat>, st: seq<nat>, a: seq<nat>, b: seq<nat>)
    requires Onto(d, st) && InBox(a, d) && InBox(b, d)
    ensures Offset(a, st) < Size(d) && (Offset(a, st) == Offset(b, st) ==> a == b)
  {
    hide Terms, Offset, Decode;
    DecodeEncode(a, d);
    DecodeEncode(b, d);
    OntoCovers(d, st);
    var s := AllOffsets(d, st);
    var i, j := Offset(a, Weights(d)), Offset(b, Weights(d));
    assert s[i] == Offset(a, st) && s[j] == Offset(b, st);
  }

  /** The multi-index that is x in dimension k and zero elsewhere. */
  lemma UnitOffset(n: nat, st: seq<nat>, k: nat) returns (idx: seq<nat>)
    requires |st| == n && k < n
    ensures |idx| == n && idx[k] == 1 && (forall l :: 0 <= l < n && l != k ==> idx[l] == 0)
    ensures Offset(idx, st) == st[k]
  {
    var zero := seq(n, _ => 0);
    idx := zero[k := 1];
    SumZero(Terms(zero, st), n);
    SumUpdate(Terms(zero, st), k, st[k], n);
    assert Terms(idx, st) == Terms(zero, st)[k := st[k]];
  }

  /** A dimension of extent above one that is not chosen yet has a stride of at least the product so far. */
  lemma StrideAtLeast(d: seq<nat>, st: seq<nat>, order: seq<nat>, k: nat)
    requires PackedTo(d, st, order, |order|) && Onto(d, st) && Positive(d)
    requires k < |d| && d[k] > 1 && !Chosen(order, |order|, k)
    ensures OrderedProduct(d, order, |order|) <= st[k] < Size(d)
  {
    hide Terms, Offset, PackedTo;
    PackedDistinct(d, st, order, |order|);
    var unit := UnitOffset(|d|, st, k);
    OntoInjective(d, st, unit, unit);
    if st[k] < OrderedProduct(d, order, |order|) {
      var low := OrderedOnto(d, st, order, |order|, st[k]);
      TermsTotal(low, st, order, |order|);
      OntoInjective(d, st, low, unit);
    }
  }

  lemma {:induction false} TermAtMost(f: seq<nat>, n: nat, k: nat)
    requires k < n <= |f|
    ensures f[k] <= SumUpTo(f, n)
  {
    if k < n - 1 { TermAtMost(f, n - 1, k); } else { SumMonotone(f, 0, n - 1); }
  }

  /** The dimension whose stride is the product so far. */
  lemma NextDimension(d: seq<nat>, st: seq<nat>, order: seq<nat>, k: nat) returns (j: nat)
    requires PackedTo(d, st, order, |order|) && Onto(d, st) && Positive(d)
    requires k < |d| && d[k] > 1 && !Chosen(order, |order|, k)
    ensures j < |d| && !Chosen(order, |order|, j) && st[j] == OrderedProduct(d, order, |order|)
  {
    hide PackedTo, Chosen;
    PackedDistinct(d, st, order, |order|);
    StrideAtLeast(d, st, order, k);
    var p := OrderedProduct(d, order, |order|);
    assert Reached(d, st, p);
    var w :| InBox(w, d) && Offset(w, st) == p;
    if forall l :: 0 <= l < |d| && !Chosen(order, |order|, l) ==> w[l] == 0 {
      TermsTotal(w, st, order, |order|);
      OrderedBelow(d, st, order, |order|, w);
      assert false;
    }
    j :| 0 <= j < |d| && !Chosen(order, |order|, j) && w[j] > 0;
    StrideAtLeast(d, st, order, j);
    TermAtMost(Terms(w, st), |d|, j);
    MulMono(1, w[j], st[j]);
  }

  lemma {:induction false} ProductPrefix(d: seq<nat>, order: seq<nat>, longer: seq<nat>, r: nat)
    requires r <= |order| <= |longer| && longer[..|order|] == order && Distinct(longer, |d|) && Distinct(order, |d|)
    ensures OrderedProduct(d, longer, r) == OrderedProduct(d, order, r)
  {
    if r == 0 {
    } else {
      assert longer[r - 1] == longer[..|order|][r - 1];
      ProductPrefix(d, order, longer, r - 1);
    }
  }

  lemma AppendDimension(d: seq<nat>, st: seq<nat>, order: seq<nat>, j: nat)
    requires PackedTo(d, st, order, |order|) && j < |d| && !Chosen(order, |order|, j)
    requires d[j] > 1 ==> st[j] == OrderedProduct(d, order, |order|)
    ensures PackedTo(d, st, order + [j], |order| + 1)
  {
    hide OrderedProduct;
    var longer := order + [j];
    AppendDistinct(order, |d|, j);
    assert longer[..|order|] == order;
    forall q | 0 <= q < |longer| && d[longer[q]] > 1 ensures st[longer[q]] == OrderedProduct(d, longer, q) {
      ProductPrefix(d, order, longer, q);
    }
  }

  lemma AppendDistinct(order: seq<nat>, n: nat, j: nat)
    requires Distinct(order, n) && j < n && !Chosen(order, |order|, j)
    ensures Distinct(order + [j], n)
  {}

  lemma DistinctLength(order: seq<nat>, n: nat)
    requires Distinct(order, n)
    ensures |order| <= n
  {
    CountSeen(order, |order|);
    SubsetSize(set r | 0 <= r < |order| :: order[r], Indices(n));
  }

  lemma UnchosenExists(order: seq<nat>, n: nat) returns (k: nat)
    requires Distinct(order, n) && |order| < n
    ensures k < n && !Chosen(order, |order|, k)
  {
    if forall k: nat :: k < n ==> Chosen(order, |order|, k) {
      var seen := set r | 0 <= r < |order| :: order[r];
      CountSeen(order, |order|);
      forall k | k in Indices(n) ensures k in seen { assert Chosen(order, |order|, k); }
      SubsetSize(Indices(n), seen);
      assert false;
    }
    k :| k < n && !Chosen(order, |order|, k);
  }

  lemma {:induction false} PackRest(d: seq<nat>, st: seq<nat>, order: seq<nat>) returns (full: seq<nat>)
    requires PackedTo(d, st, order, |order|) && Onto(d, st) && Positive(d)
    ensures Packed(d, st, full)
    decreases |d| - |order|
  {
    hide Chosen, Onto;
    DistinctLength(order, |d|);
    if |order| == |d| {
      full := order;
    } else {
      var j := UnchosenExists(order, |d|);
      if d[j] > 1 { j := NextDimension(d, st, order, j); }
      AppendDimension(d, st, order, j);
      full := PackRest(d, st, order + [j]);
    }
  }

  /**
   Strides whose offsets fill [0, size) are exactly the packed ones: the strides order_dimensions
   computes for some order, up to dimensions of extent one.
   */
  lemma OntoIffPacked(d: seq<nat>, st: seq<nat>)
    requires |d| == |st| && Positive(d)
    ensures Onto(d, st) <==> exists order :: Packed(d, st, order)
  {
    hide Packed, Offset;
    if Onto(d, st) {
      var full := PackRest(d, st, []);
    }
    if order :| Packed(d, st, order) {
      forall v: nat | v < Size(d) ensures Reached(d, st, v) {
        var idx := PackedOnto(d, st, order, v);
      }
    }
  }

  // ---------------------------------------------------------------- span and contiguity

  function MaxTerm(d: seq<nat>, st: seq<nat>, n: nat): nat
    requires n <= |d| == |st|
  {
    if n == 0 then 0 else
      MulNonNeg(d[n - 1], st[n - 1]);
      var m := MaxTerm(d, st, n - 1);
      if m < d[n - 1] * st[n - 1] then d[n - 1] * st[n - 1] else m
  }

  /** Largest extent times stride: one past the largest offset a contiguous layout can have. */
  function Span(d: seq<nat>, st: seq<nat>): nat
    requires |d| == |st|
  {
    if |d| == 0 then 1 else if Size(d) == 0 then 0 else MaxTerm(d, st, |d|)
  }

  predicate SpanIsContiguous(d: seq<nat>, st: seq<nat>)
    requires |d| == |st|
  {
    Span(d, st) == Size(d)
  }

  // ---------------------------------------------------------------- order_dimensions

  const ARRAY_LAYOUT_MAX_RANK: nat := 8
  const INVALID_INDEX: nat := 0xffff_ffff_ffff_ffff

  /** The bits of check_input before any order value has been taken out. */
  function InitialMask(rank: nat): nat {
    if ARRAY_LAYOUT_MAX_RANK < rank then 0 else Pow2(rank) - 1
  }

  function ClearBit(mask: nat, k: nat): nat
    requires k < 32
  {
    Pow2Monotone(k + 1, 32);
    And(mask, Not(Pow2(k), 32))
  }

  function CheckInput(order: seq<nat>, r: nat): (mask: nat)
    requires r <= |order| && forall q :: 0 <= q < |order| ==> order[q] < 32
  {
    if r == 0 then InitialMask(|order|) else ClearBit(CheckInput(order, r - 1), order[r - 1])
  }

  /** The bits still set name the dimensions below rank that order has not mentioned. */
  lemma {:induction false} CheckInputBits(order: seq<nat>, r: nat, i: nat)
    requires r <= |order| <= ARRAY_LAYOUT_MAX_RANK && i < 32 && forall q :: 0 <= q < |order| ==> order[q] < 32
    ensures Bit(CheckInput(order, r), i) <==> i < |order| && !Chosen(order, r, i)
  {
    hide Bit, And, Not, Pow2;
    if r == 0 {
      BitOfOnes(|order|, i);
    } else {
      CheckInputBits(order, r - 1, i);
      var k := order[r - 1];
      Pow2Monotone(k + 1, 32);
      Pow2Next(k + 1);
      BitAnd(CheckInput(order, r - 1), Not(Pow2(k), 32), i);
      BitNot(Pow2(k), 32, i);
      BitOfPower(k, i);
      assert Chosen(order, r, i) <==> Chosen(order, r - 1, i) || i == k by {
        if i == k { assert order[r - 1] == i; }
      }
    }
  }

  lemma {:induction false} CheckInputBelow(order: seq<nat>, r: nat)
    requires r <= |order| && forall q :: 0 <= q < |order| ==> order[q] < 32
    ensures CheckInput(order, r) <= InitialMask(|order|)
  {
    hide Pow2, And, Not, InitialMask;
    if r == 0 {
    } else {
      CheckInputBelow(order, r - 1);
      Pow2Monotone(order[r - 1] + 1, 32);
      Pow2Next(order[r - 1] + 1);
      AndBelow(CheckInput(order, r - 1), Not(Pow2(order[r - 1]), 32));
    }
  }

  /** Up to rank 8 the check passes exactly for the permutations; above it every order passes. */
  lemma CheckPassesIff(order: seq<nat>)
    requires forall q :: 0 <= q < |order| ==> order[q] < 32
    ensures CheckInput(order, |order|) == 0 <==> ARRAY_LAYOUT_MAX_RANK < |order| || IsPermutation(order, |order|)
  {
    hide Bit, CheckInput, Pow2;
    var n, mask := |order|, CheckInput(order, |order|);
    CheckInputBelow(order, n);
    if n <= ARRAY_LAYOUT_MAX_RANK {
      Pow2Monotone(n, 32);
      forall i | 0 <= i < 32 ensures Bit(mask, i) <==> i < n && !Chosen(order, n, i) { CheckInputBits(order, n, i); }
      if mask == 0 {
        forall v | 0 <= v < n ensures v in order {
          BitOfZero(v);
          assert Chosen(order, n, v);
        }
        CoversIsPermutation(order, n);
      } else if IsPermutation(order, n) {
        forall i | 0 <= i < 32 ensures Bit(mask, i) <==> Bit(0, i) {
          BitOfZero(i);
          if i < n { PermutationCovers(order, n, i); }
        }
        SameBits(mask, 0, 32);
      }
    }
  }

  /** At rank 9 the check passes for an order that names dimension 0 nine times. */
  lemma RankNineAccepted()
    ensures var order: seq<nat> := [0, 0, 0, 0, 0, 0, 0, 0, 0]; CheckInput(order, 9) == 0 && !IsPermutation(order, 9)
  {
    hide CheckInput;
    var order: seq<nat> := [0, 0, 0, 0, 0, 0, 0, 0, 0];
    CheckPassesIff(order);
    assert order[0] == order[1];
  }

  /** What order_dimensions leaves in the layout's eight slots. */
  ghost predicate OrderedLayout(dimension: seq<nat>, stride: seq<nat>, order: seq<nat>, dimen: seq<nat>) {
    && |dimension| == |stride| == ARRAY_LAYOUT_MAX_RANK >= |order| == |dimen|
    && (forall k :: |order| <= k < ARRAY_LAYOUT_MAX_RANK ==> dimension[k] == INVALID_INDEX && stride[k] == 0)
    && (if IsPermutation(order, |order|) then
          && (forall r :: 0 <= r < |order| ==> dimension[r] == dimen[r])
          && (forall r :: 0 <= r < |order| ==> stride[order[r]] == OrderedProduct(dimen, order, r))
        else
          forall k :: 0 <= k < |order| ==> dimension[k] == INVALID_INDEX && stride[k] == 0)
  }

  /** The round in which the fill loop first uses an index past the eight slots, for ranks above eight. */
  ghost predicate LeavesSlots(order: seq<nat>, round: nat) {
    && round < |order| && round <= ARRAY_LAYOUT_MAX_RANK
    && (round == ARRAY_LAYOUT_MAX_RANK || ARRAY_LAYOUT_MAX_RANK <= order[round])
    && forall q :: 0 <= q < round ==> order[q] < ARRAY_LAYOUT_MAX_RANK
  }

  /** order_dimensions for any rank; outside says that the fill loop reached an index past the eight slots. */
  method OrderDimensions(order: seq<nat>, dimen: seq<nat>)
    returns (dimension: array<nat>, stride: array<nat>, outside: bool, ghost round: nat)
    requires |order| == |dimen| && forall q :: 0 <= q < |order| ==> order[q] < 32
    ensures outside <==> ARRAY_LAYOUT_MAX_RANK < |order|
    ensures !outside ==> OrderedLayout(dimension[..], stride[..], order, dimen)
    ensures outside ==> LeavesSlots(order, round) && dimension.Length == ARRAY_LAYOUT_MAX_RANK
    ensures outside ==> forall q :: 0 <= q < round ==> dimension[q] == dimen[q]
  {
    hide ClearBit, CheckInput, OrderedProduct;
    var rank := |order|;
    outside, round := false, 0;
    dimension := new nat[ARRAY_LAYOUT_MAX_RANK];
    stride := new nat[ARRAY_LAYOUT_MAX_RANK];
    var checkInput := InitialMask(rank);
    for r := 0 to ARRAY_LAYOUT_MAX_RANK
      invariant forall k :: 0 <= k < r ==> dimension[k] == INVALID_INDEX && stride[k] == 0
    {
      dimension[r] := INVALID_INDEX;
      stride[r] := 0;
    }
    CheckInputNext(order, 0);
    for r := 0 to rank
      invariant checkInput == CheckInput(order, r)
      invariant forall k :: 0 <= k < ARRAY_LAYOUT_MAX_RANK ==> dimension[k] == INVALID_INDEX && stride[k] == 0
    {
      CheckInputNext(order, r);
      checkInput := ClearBit(checkInput, order[r]);
    }
    CheckPassesIff(order);
    if checkInput == 0 {
      var rounds := FillStrides(order, dimen, dimension, stride);
      outside, round := rounds < rank, rounds;
      assert !outside ==> forall r :: 0 <= r < rank ==> stride[..][order[r]] == OrderedProduct(dimen, order, r);
    }
  }

  lemma CheckInputNext(order: seq<nat>, r: nat)
    requires r <= |order| && forall q :: 0 <= q < |order| ==> order[q] < 32
    ensures CheckInput(order, 0) == InitialMask(|order|)
    ensures r < |order| ==> CheckInput(order, r + 1) == ClearBit(CheckInput(order, r), order[r])
  {}

  /** The loop that runs when the check has passed, up to the first index past the eight slots. */
  method FillStrides(order: seq<nat>, dimen: seq<nat>, dimension: array<nat>, stride: array<nat>)
    returns (rounds: nat)
    requires |order| == |dimen| && (ARRAY_LAYOUT_MAX_RANK < |order| || IsPermutation(order, |order|))
    requires dimension != stride && dimension.Length == stride.Length == ARRAY_LAYOUT_MAX_RANK
    modifies dimension, stride
    ensures if |order| <= ARRAY_LAYOUT_MAX_RANK then rounds == |order| else LeavesSlots(order, rounds)
    ensures forall r :: 0 <= r < rounds ==> r < ARRAY_LAYOUT_MAX_RANK && dimension[r] == dimen[r]
    ensures |order| <= ARRAY_LAYOUT_MAX_RANK ==>
      forall r :: 0 <= r < |order| ==> stride[order[r]] == OrderedProduct(dimen, order, r)
    ensures forall k :: |order| <= k < ARRAY_LAYOUT_MAX_RANK ==>
      dimension[k] == old(dimension[k]) && stride[k] == old(stride[k])
  {
    hide OrderedProduct;
    var n := 1;
    if |order| <= ARRAY_LAYOUT_MAX_RANK { EmptyOrder([], dimen, order); }
    for r := 0 to |order|
      invariant r <= ARRAY_LAYOUT_MAX_RANK && forall q :: 0 <= q < r ==> order[q] < ARRAY_LAYOUT_MAX_RANK
      invariant |order| <= ARRAY_LAYOUT_MAX_RANK ==> n == OrderedProduct(dimen, order, r)
      invariant forall q :: 0 <= q < r ==> dimension[q] == dimen[q]
      invariant |order| <= ARRAY_LAYOUT_MAX_RANK ==>
        forall q :: 0 <= q < r ==> stride[order[q]] == OrderedProduct(dimen, order, q)
      invariant forall k :: |order| <= k < ARRAY_LAYOUT_MAX_RANK ==>
        dimension[k] == old(dimension[k]) && stride[k] == old(stride[k])
    {
      if ARRAY_LAYOUT_MAX_RANK <= order[r] { return r; }
      if |order| <= ARRAY_LAYOUT_MAX_RANK { ProductNext(dimen, order, r + 1); }
      stride[order[r]] := n;
      n := n * dimen[order[r]];
      if ARRAY_LAYOUT_MAX_RANK <= r { return r; }
      dimension[r] := dimen[r];
    }
    rounds := |order|;
  }

  lemma {:induction false} OrderedMonotone(d: seq<nat>, order: seq<nat>, q: nat, r: nat)
    requires Distinct(order, |d|) && q <= r <= |order| && Positive(d)
    ensures OrderedProduct(d, order, q) <= OrderedProduct(d, order, r)
    decreases r
  {
    if q == r {
    } else {
      OrderedMonotone(d, order, q, r - 1);
      MulMono(1, d[order[r - 1]], OrderedProduct(d, order, r - 1));
    }
  }

  lemma {:induction false} MaxTermIs(d: seq<nat>, st: seq<nat>, n: nat, m: nat, k: nat)
    requires k < n <= |d| == |st| && d[k] * st[k] == m && forall l :: 0 <= l < n ==> d[l] * st[l] <= m
    ensures MaxTerm(d, st, n) == m
  {
    if k < n - 1 { MaxTermIs(d, st, n - 1, m, k); }
    else { MaxTermAtMost(d, st, n - 1, m); }
  }

  lemma {:induction false} MaxTermAtMost(d: seq<nat>, st: seq<nat>, n: nat, m: nat)
    requires n <= |d| == |st| && forall l :: 0 <= l < n ==> d[l] * st[l] <= m
    ensures MaxTerm(d, st, n) <= m
  {
    if n == 0 {
    } else {
      MaxTermAtMost(d, st, n - 1, m);
    }
  }

  /** The layout order_dimensions builds is packed and contiguous, so its offsets fill [0, size) once. */
  lemma OrderedStridesArePacked(d: seq<nat>, st: seq<nat>, order: seq<nat>)
    requires |d| == |st| && IsPermutation(order, |d|)
    requires forall r :: 0 <= r < |d| ==> st[order[r]] == OrderedProduct(d, order, r)
    ensures Packed(d, st, order)
    ensures SpanIsContiguous(d, st)
  {
    hide OrderedProduct, MaxTerm, Size;
    var n := |d|;
    if n > 0 && Size(d) > 0 {
      SizePositive(d);
      forall k | 0 <= k < n ensures d[k] * st[k] <= Size(d) {
        PermutationCovers(order, n, k);
        var r :| 0 <= r < n && order[r] == k;
        TermAtMostSize(d, st, order, r);
      }
      TermAtMostSize(d, st, order, n - 1);
      MaxTermIs(d, st, n, Size(d), order[n - 1]);
    } else {
      NoDimensions(d);
    }
  }

  lemma SizePositive(d: seq<nat>)
    requires Size(d) > 0
    ensures Positive(d)
  {
    forall k | 0 <= k < |d| ensures d[k] > 0 { if d[k] == 0 { ProductZero(d, |d|, k); } }
  }

  lemma NoDimensions(d: seq<nat>)
    ensures |d| == 0 ==> Size(d) == 1
  {}

  lemma TermAtMostSize(d: seq<nat>, st: seq<nat>, order: seq<nat>, r: nat)
    requires |d| == |st| && IsPermutation(order, |d|) && Positive(d) && r < |d|
    requires st[order[r]] == OrderedProduct(d, order, r)
    ensures d[order[r]] * st[order[r]] <= Size(d) && (r == |d| - 1 ==> d[order[r]] * st[order[r]] == Size(d))
  {
    hide OrderedProduct, ProductUpTo;
    OrderedProductTotal(d, order);
    ProductNext(d, order, r + 1);
    assert d[order[r]] * st[order[r]] == OrderedProduct(d, order, r + 1);
    OrderedMonotone(d, order, r + 1, |d|);
  }
}
