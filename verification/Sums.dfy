/** Sums and products over sequences, in index order and in the order a permutation names. */
module Sums {
  import opened Arith

  function SumUpTo(c: seq<nat>, n: nat): nat
    requires n <= |c|
  {
    if n == 0 then 0 else SumUpTo(c, n - 1) + c[n - 1]
  }

  lemma {:induction false} SumMonotone(c: seq<nat>, m: nat, n: nat)
    requires m <= n <= |c|
    ensures SumUpTo(c, m) <= SumUpTo(c, n)
    decreases n
  {
    if m == n {
    } else {
      SumMonotone(c, m, n - 1);
    }
  }

  lemma {:induction false} SumPast(c: seq<nat>, i: nat, n: nat)
    requires i < n <= |c|
    ensures SumUpTo(c, i) + c[i] <= SumUpTo(c, n)
  {
    SumMonotone(c, i + 1, n);
  }

  function ProductUpTo(d: seq<nat>, n: nat): nat
    requires n <= |d|
  {
    if n == 0 then 1 else ProductUpTo(d, n - 1) * d[n - 1]
  }

  // ---------------------------------------------------------------- permutations

  /** order names indices below n, none twice. */
  ghost predicate Distinct(order: seq<nat>, n: nat) {
    && (forall r :: 0 <= r < |order| ==> order[r] < n)
    && (forall q, r :: 0 <= q < r < |order| ==> order[q] != order[r])
  }

  ghost predicate IsPermutation(order: seq<nat>, n: nat) {
    |order| == n && Distinct(order, n)
  }

  ghost predicate Covers(s: seq<nat>, n: nat) {
    |s| == n && forall v :: 0 <= v < n ==> v in s
  }

  /** Pigeonhole: n numbers among which all of 0..n-1 occur are a permutation of them. */
  lemma {:induction false} CoversIsPermutation(s: seq<nat>, n: nat)
    requires Covers(s, n)
    ensures IsPermutation(s, n)
  {
    if n == 0 {
    } else {
      assert n - 1 in s;
      var p :| 0 <= p < n && s[p] == n - 1;
      var t := s[..p] + s[p + 1..];
      forall v | 0 <= v < n - 1 ensures v in t {
        assert v in s;
        var q :| 0 <= q < n && s[q] == v;
        assert t[if q < p then q else q - 1] == v;
      }
      CoversIsPermutation(t, n - 1);
      forall r | 0 <= r < n ensures s[r] < n && (r != p ==> s[r] < n - 1) {
        if r != p { assert t[if r < p then r else r - 1] == s[r]; }
      }
      forall q, r | 0 <= q < r < n ensures s[q] != s[r] {
        if q != p && r != p {
          assert t[if q < p then q else q - 1] == s[q] && t[if r < p then r else r - 1] == s[r];
        }
      }
    }
  }

  /** The other way round: n distinct indices below n leave none out. */
  lemma {:induction false} PermutationCovers(s: seq<nat>, n: nat, v: nat)
    requires IsPermutation(s, n) && v < n
    ensures v in s
  {
    var seen := set r | 0 <= r < n :: s[r];
    CountSeen(s, n);
    var all := Indices(n);
    assert seen <= all;
    if v !in seen {
      assert seen <= all - {v};
      SubsetSize(seen, all - {v});
    }
  }

  function Indices(n: nat): (s: set<nat>)
    ensures |s| == n && forall i: nat :: i in s <==> i < n
  {
    if n == 0 then {} else Indices(n - 1) + {n - 1}
  }

  lemma {:induction false} CountSeen(s: seq<nat>, n: nat)
    requires n <= |s| && forall q, r :: 0 <= q < r < |s| ==> s[q] != s[r]
    ensures |set r | 0 <= r < n :: s[r]| == n
  {
    if n == 0 {
    } else {
      CountSeen(s, n - 1);
      assert (set r | 0 <= r < n :: s[r]) == (set r | 0 <= r < n - 1 :: s[r]) + {s[n - 1]};
    }
  }

  lemma {:induction false} SubsetSize(a: set<nat>, b: set<nat>)
    requires a <= b
    ensures |a| <= |b|
  {
    if a == {} {
    } else {
      var x :| x in a;
      SubsetSize(a - {x}, b - {x});
    }
  }

  // ---------------------------------------------------------------- sums in a given order

  ghost predicate Chosen(order: seq<nat>, r: nat, k: nat)
    requires r <= |order|
  {
    exists q :: 0 <= q < r && order[q] == k
  }

  function OrderedSum(f: seq<nat>, order: seq<nat>, r: nat): nat
    requires r <= |order| && forall q :: 0 <= q < r ==> order[q] < |f|
  {
    if r == 0 then 0 else OrderedSum(f, order, r - 1) + f[order[r - 1]]
  }

  function OrderedProduct(d: seq<nat>, order: seq<nat>, r: nat): nat
    requires r <= |order| && forall q :: 0 <= q < r ==> order[q] < |d|
  {
    if r == 0 then 1 else OrderedProduct(d, order, r - 1) * d[order[r - 1]]
  }

  /** f with every index that is not among the first r of order set to a neutral value. */
  ghost function Selected(f: seq<nat>, order: seq<nat>, r: nat, neutral: nat): (s: seq<nat>)
    requires r <= |order|
    ensures |s| == |f| && forall k :: 0 <= k < |f| ==> s[k] == if Chosen(order, r, k) then f[k] else neutral
  {
    seq(|f|, k requires 0 <= k < |f| => if Chosen(order, r, k) then f[k] else neutral)
  }

  lemma {:induction false} SumUpdate(f: seq<nat>, k: nat, x: nat, n: nat)
    requires n <= |f| && k < |f|
    ensures SumUpTo(f[k := x], n) + (if k < n then f[k] else 0) == SumUpTo(f, n) + (if k < n then x else 0)
  {
    if n == 0 {
    } else {
      SumUpdate(f, k, x, n - 1);
    }
  }

  lemma {:induction false} SumZero(f: seq<nat>, n: nat)
    requires n <= |f| && forall k :: 0 <= k < n ==> f[k] == 0
    ensures SumUpTo(f, n) == 0
  {
    if n == 0 {
    } else {
      SumZero(f, n - 1);
    }
  }

  lemma {:induction false} OrderedSumIsSelected(f: seq<nat>, order: seq<nat>, r: nat)
    requires Distinct(order, |f|) && r <= |order|
    ensures OrderedSum(f, order, r) == SumUpTo(Selected(f, order, r, 0), |f|)
  {
    var s := Selected(f, order, r, 0);
    if r == 0 {
      SumZero(s, |f|);
    } else {
      OrderedSumIsSelected(f, order, r - 1);
      var t, k := Selected(f, order, r - 1, 0), order[r - 1];
      ChosenNext(order, |f|, r);
      assert s == t[k := f[k]];
      SumUpdate(t, k, f[k], |f|);
    }
  }

  lemma ChosenNext(order: seq<nat>, n: nat, r: nat)
    requires Distinct(order, n) && 0 < r <= |order|
    ensures !Chosen(order, r - 1, order[r - 1])
    ensures forall k :: Chosen(order, r, k) <==> Chosen(order, r - 1, k) || k == order[r - 1]
  {
    forall k ensures Chosen(order, r, k) <==> Chosen(order, r - 1, k) || k == order[r - 1] {
      if k == order[r - 1] { assert Chosen(order, r, k); }
    }
  }

  /** Adding in the chosen order gives the plain sum when what was not chosen is zero. */
  lemma OrderedSumTotal(f: seq<nat>, order: seq<nat>, r: nat)
    requires Distinct(order, |f|) && r <= |order|
    requires forall k :: 0 <= k < |f| && !Chosen(order, r, k) ==> f[k] == 0
    ensures OrderedSum(f, order, r) == SumUpTo(f, |f|)
  {
    OrderedSumIsSelected(f, order, r);
    assert Selected(f, order, r, 0) == f;
  }

  lemma {:induction false} ProductUpdate(d: seq<nat>, k: nat, x: nat, n: nat)
    requires n <= |d| && k < |d| && d[k] == 1
    ensures ProductUpTo(d[k := x], n) == ProductUpTo(d, n) * (if k < n then x else 1)
  {
    if n == 0 {
    } else {
      ProductUpdate(d, k, x, n - 1);
      if k < n - 1 {
        Assoc(ProductUpTo(d, n - 1), x, d[n - 1]);
        Assoc(ProductUpTo(d, n - 1), d[n - 1], x);
      }
    }
  }

  lemma {:induction false} ProductOne(d: seq<nat>, n: nat)
    requires n <= |d| && forall k :: 0 <= k < n ==> d[k] == 1
    ensures ProductUpTo(d, n) == 1
  {
    if n == 0 {
    } else {
      ProductOne(d, n - 1);
    }
  }

  lemma {:induction false} OrderedProductIsSelected(d: seq<nat>, order: seq<nat>, r: nat)
    requires Distinct(order, |d|) && r <= |order|
    ensures OrderedProduct(d, order, r) == ProductUpTo(Selected(d, order, r, 1), |d|)
  {
    var s := Selected(d, order, r, 1);
    if r == 0 {
      ProductOne(s, |d|);
    } else {
      OrderedProductIsSelected(d, order, r - 1);
      var t, k := Selected(d, order, r - 1, 1), order[r - 1];
      ChosenNext(order, |d|, r);
      assert s == t[k := d[k]];
      ProductUpdate(t, k, d[k], |d|);
    }
  }

  lemma OrderedProductTotal(d: seq<nat>, order: seq<nat>)
    requires IsPermutation(order, |d|)
    ensures OrderedProduct(d, order, |d|) == ProductUpTo(d, |d|)
  {
    OrderedProductIsSelected(d, order, |d|);
    forall k | 0 <= k < |d| ensures Chosen(order, |d|, k) { PermutationCovers(order, |d|, k); }
    assert Selected(d, order, |d|, 1) == d;
  }

  lemma {:induction false} ProductPositive(d: seq<nat>, n: nat)
    requires n <= |d| && forall k :: 0 <= k < n ==> d[k] > 0
    ensures ProductUpTo(d, n) > 0
  {
    if n == 0 {
    } else {
      ProductPositive(d, n - 1);
      MulMono(1, d[n - 1], ProductUpTo(d, n - 1));
    }
  }

  lemma {:induction false} ProductZero(d: seq<nat>, n: nat, k: nat)
    requires k < n <= |d| && d[k] == 0
    ensures ProductUpTo(d, n) == 0
  {
    if k == n - 1 {
    } else {
      ProductZero(d, n - 1, k);
    }
  }
}
