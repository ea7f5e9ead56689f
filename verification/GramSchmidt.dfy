/**
 Modified Gram-Schmidt of core/perf_test/PerfTestGramSchmidt.cpp over exact reals.
 Matrices are handled as sequences of columns (Q, A) and of rows (R).
 */
module GramSchmidt {
  import opened Vectors

  type Matrix = seq<seq<real>>

  ghost predicate Rectangular(m: Matrix, count: nat, length: nat) {
    |m| == count && forall j :: 0 <= j < count ==> |m[j]| == length
  }

  /** The square root that the kernel calls, taken as exact. */
  ghost predicate IsSqrt(sqrt: real -> real) {
    forall x: real :: 0.0 <= x ==> 0.0 <= sqrt(x) && Times(sqrt(x), sqrt(x)) == x
  }

  /** The sum over l < m of R(l, c) times column l of Q. */
  function Combination(q: Matrix, r: Matrix, c: nat, m: nat, length: nat): (v: Vector)
    requires m <= |q| && m <= |r| && (forall l :: 0 <= l < m ==> |q[l]| == length && c < |r[l]|)
    ensures |v| == length
  {
    if m == 0 then Zero(length) else Combined(r[m - 1][c], q[m - 1], 1.0, Combination(q, r, c, m - 1, length))
  }

  function Sum(x: Vector, y: Vector): (v: Vector)
    requires |x| == |y|
    ensures |v| == |x|
  {
    Combined(1.0, x, 1.0, y)
  }

  lemma {:induction false} CombinationFrame(q: Matrix, r: Matrix, q': Matrix, r': Matrix, c: nat, m: nat, length: nat)
    requires m <= |q| && m <= |r| && m <= |q'| && m <= |r'|
    requires forall l :: 0 <= l < m ==>
      |q[l]| == length && c < |r[l]| && c < |r'[l]| && q'[l] == q[l] && r'[l][c] == r[l][c]
    ensures Combination(q, r, c, m, length) == Combination(q', r', c, m, length)
  {
    if m == 0 {
    } else {
      CombinationFrame(q, r, q', r', c, m - 1, length);
    }
  }

  /** A column is a unit vector, or zero where the input column depended on the earlier ones. */
  ghost predicate UnitOrZero(u: Vector) {
    Dot(u, u) == 1.0 || u == Zero(|u|)
  }

  // ---------------------------------------------------------------- the two column updates

  /** Scaling a column by the inverse of its norm makes it unit or zero, and the norm scales it back. */
  lemma NormalizeColumn(x: Vector, s: real, inv: real)
    requires 0.0 <= s && Times(s, s) == Dot(x, x) && inv == if 0.0 < s then 1.0 / s else 0.0
    ensures UnitOrZero(Scaled(inv, x))
    ensures s == 0.0 <==> Scaled(inv, x) == Zero(|x|)
    ensures forall i :: 0 <= i < |x| ==> Times(s, Scaled(inv, x)[i]) == x[i]
  {
    hide Dot;
    var u := Scaled(inv, x);
    if 0.0 < s {
      DotScaled(inv, x, u);
      DotSymmetric(x, u);
      DotScaled(inv, x, x);
      InverseSquare(s, inv, Dot(x, x));
      if u == Zero(|x|) { DotZero(u); }
      forall i | 0 <= i < |x| ensures Times(s, u[i]) == x[i] { InverseCancels(s, inv, x[i]); }
    } else {
      TimesUnits(s);
      DotSelfNonNegative(x);
      forall i | 0 <= i < |x| ensures u[i] == 0.0 && Times(s, u[i]) == x[i] { TimesUnits(inv); TimesUnits(u[i]); }
      assert u == Zero(|x|);
    }
  }

  lemma InverseSquare(s: real, inv: real, d: real)
    requires 0.0 < s && Times(s, s) == d && inv == 1.0 / s
    ensures Times(inv, Times(inv, d)) == 1.0
  {
    assert Times(inv, d) == s;
  }

  lemma InverseCancels(s: real, inv: real, a: real)
    requires 0.0 < s && inv == 1.0 / s
    ensures Times(s, Times(a, inv)) == a
  {}

  /** Taking the projection on u out of y leaves a vector orthogonal to u. */
  lemma ProjectColumn(u: Vector, y: Vector)
    requires |u| == |y| && UnitOrZero(u)
    ensures Dot(u, Combined(-Dot(u, y), u, 1.0, y)) == 0.0
  {
    hide Dot, Times;
    var rho := Dot(u, y);
    var y' := Combined(-rho, u, 1.0, y);
    DotSymmetric(u, y');
    DotCombined(-rho, u, 1.0, y, u);
    DotSymmetric(y, u);
    TimesUnits(-rho);
    TimesUnits(Dot(y, u));
    if u == Zero(|u|) { DotZero(y'); DotZero(y); }
  }

  /** Vectors orthogonal to both operands are orthogonal to a combination of them. */
  lemma CombinedStaysOrthogonal(a: real, x: Vector, b: real, y: Vector, z: Vector)
    requires |x| == |y| == |z| && Dot(z, x) == 0.0 && Dot(z, y) == 0.0
    ensures Dot(z, Combined(a, x, b, y)) == 0.0
  {
    hide Dot, Times;
    DotSymmetric(z, Combined(a, x, b, y));
    DotCombined(a, x, b, y, z);
    DotSymmetric(x, z);
    DotSymmetric(y, z);
    TimesUnits(a);
    TimesUnits(b);
  }

  lemma ScaledStaysOrthogonal(a: real, x: Vector, z: Vector)
    requires |x| == |z| && Dot(z, x) == 0.0
    ensures Dot(z, Scaled(a, x)) == 0.0
  {
    hide Dot, Times;
    DotSymmetric(z, Scaled(a, x));
    DotScaled(a, x, z);
    DotSymmetric(x, z);
    TimesUnits(a);
  }

  /** What a projection takes out of the column goes into the recorded sum. */
  lemma ProjectionIsRecorded(rho: real, u: Vector, y: Vector, c: Vector)
    requires |u| == |y| == |c|
    ensures Sum(y, c) == Sum(Combined(-rho, u, 1.0, y), Combined(rho, u, 1.0, c))
  {
    hide Times;
    forall i | 0 <= i < |y|
      ensures Sum(y, c)[i] == Sum(Combined(-rho, u, 1.0, y), Combined(rho, u, 1.0, c))[i]
    {
      TimesUnits(y[i]);
      TimesUnits(c[i]);
      TimesUnits(Times(-rho, u[i]) + y[i]);
      TimesUnits(Times(rho, u[i]) + c[i]);
      Negates(rho, u[i]);
    }
  }

  lemma Negates(a: real, b: real)
    ensures Times(-a, b) == -Times(a, b)
  {}

  lemma NormalizedSum(x: Vector, u: Vector, s: real, c: Vector)
    requires |x| == |u| == |c| && forall i :: 0 <= i < |x| ==> Times(s, u[i]) == x[i]
    ensures Sum(x, c) == Combined(s, u, 1.0, c)
  {
    hide Times;
    forall i | 0 <= i < |x| ensures Sum(x, c)[i] == Combined(s, u, 1.0, c)[i] {
      TimesUnits(x[i]);
    }
  }

  // ---------------------------------------------------------------- the state of the factorization

  /**
   The first done columns of Q are final; columns from done up to k have had their projections on all
   of them taken out, and columns from k on all but the last one.
   */
  ghost predicate Shapes(a: Matrix, q: Matrix, r: Matrix, count: nat, length: nat, done: nat, k: nat) {
    && Rectangular(a, count, length) && Rectangular(q, count, length) && Rectangular(r, count, count)
    && done <= k <= count && (done == 0 ==> k == count)
  }

  /** Every input column is recovered from Q and the part of R written so far. */
  ghost predicate Recovers(a: Matrix, q: Matrix, r: Matrix, count: nat, length: nat, done: nat, k: nat)
    requires Shapes(a, q, r, count, length, done, k)
  {
    && (forall c :: 0 <= c < done ==> a[c] == Combination(q, r, c, c + 1, length))
    && (forall c :: done <= c < k ==> a[c] == Sum(q[c], Combination(q, r, c, done, length)))
    && (forall c :: k <= c < count ==> a[c] == Sum(q[c], Combination(q, r, c, done - 1, length)))
  }

  /** Final column i has been projected out of column c. */
  ghost predicate Projected(i: nat, c: nat, done: nat, k: nat) {
    i < done && (c < k || i + 1 < done)
  }

  ghost predicate Orthogonal(q: Matrix, count: nat, done: nat, k: nat, length: nat)
    requires Rectangular(q, count, length) && done <= k <= count
  {
    && (forall i :: 0 <= i < done ==> UnitOrZero(q[i]))
    && (forall i, c :: 0 <= i < done && 0 <= c < count && c != i && Projected(i, c, done, k) ==> Dot(q[i], q[c]) == 0.0)
  }

  /** A zero column of Q has a zero row in R; the diagonal of R is non-negative and zero only there. */
  ghost predicate ZeroRows(q: Matrix, r: Matrix, count: nat, done: nat, k: nat, length: nat)
    requires Rectangular(q, count, length) && Rectangular(r, count, count) && done <= k <= count
  {
    && (forall i :: 0 <= i < done ==> 0.0 <= r[i][i] && (r[i][i] == 0.0 <==> q[i] == Zero(length)))
    && (forall i, c :: 0 <= i < done && i <= c < count && Projected(i, c, done, k) && q[i] == Zero(length) ==>
      r[i][c] == 0.0)
  }

  ghost predicate Factored(a: Matrix, q: Matrix, r: Matrix, count: nat, length: nat, done: nat, k: nat) {
    && Shapes(a, q, r, count, length, done, k)
    && Recovers(a, q, r, count, length, done, k)
    && Orthogonal(q, count, done, k, length)
    && ZeroRows(q, r, count, done, k, length)
  }

  function SetEntry(r: Matrix, i: nat, j: nat, x: real): Matrix
    requires i < |r| && j < |r[i]|
  {
    r[i := r[i][j := x]]
  }

  lemma {:induction false} NothingDone(a: Matrix, r: Matrix, count: nat, length: nat)
    requires Rectangular(a, count, length) && Rectangular(r, count, count)
    ensures Factored(a, a, r, count, length, 0, count)
  {
    forall c | 0 <= c < count ensures a[c] == Sum(a[c], Combination(a, r, c, 0, length)) {
      forall i | 0 <= i < length ensures a[c][i] == Sum(a[c], Zero(length))[i] {
        TimesUnits(a[c][i]);
        TimesUnits(1.0);
      }
    }
  }

  // ---------------------------------------------------------------- normalizing the next column

  lemma NormalizeRecovers(a: Matrix, q: Matrix, r: Matrix, count: nat, length: nat, j: nat, s: real, u: Vector)
    requires Factored(a, q, r, count, length, j, count) && j < count && |u| == length
    requires forall i :: 0 <= i < length ==> Times(s, u[i]) == q[j][i]
    ensures Recovers(a, q[j := u], SetEntry(r, j, j, s), count, length, j + 1, j + 1)
  {
    hide Times, Combined, Orthogonal, ZeroRows, UnitOrZero, Dot;
    var q', r' := q[j := u], SetEntry(r, j, j, s);
    forall c | 0 <= c < j ensures a[c] == Combination(q', r', c, c + 1, length) {
      CombinationFrame(q, r, q', r', c, c + 1, length);
    }
    forall c | j <= c < count ensures Combination(q', r', c, j, length) == Combination(q, r, c, j, length) {
      CombinationFrame(q, r, q', r', c, j, length);
    }
    NormalizedSum(q[j], u, s, Combination(q, r, j, j, length));
  }

  lemma NormalizeOrthogonal(q: Matrix, r: Matrix, count: nat, length: nat, j: nat, s: real, inv: real)
    requires Rectangular(q, count, length) && Rectangular(r, count, count) && j < count
    requires Orthogonal(q, count, j, count, length) && ZeroRows(q, r, count, j, count, length)
    requires 0.0 <= s && Times(s, s) == Dot(q[j], q[j]) && inv == if 0.0 < s then 1.0 / s else 0.0
    ensures var q', r' := q[j := Scaled(inv, q[j])], SetEntry(r, j, j, s);
            Orthogonal(q', count, j + 1, j + 1, length) && ZeroRows(q', r', count, j + 1, j + 1, length)
  {
    hide Times, Dot;
    NormalizeColumn(q[j], s, inv);
    var u := Scaled(inv, q[j]);
    var q' := q[j := u];
    forall i, c | 0 <= i < j + 1 && 0 <= c < count && c != i && Projected(i, c, j + 1, j + 1)
      ensures Dot(q'[i], q'[c]) == 0.0
    {
      if i < j {
        assert Projected(i, c, j, count);
        if c == j { ScaledStaysOrthogonal(inv, q[j], q[i]); }
      } else {
        assert Projected(c, j, j, count);
        ScaledStaysOrthogonal(inv, q[j], q[c]);
        DotSymmetric(u, q[c]);
      }
    }
    forall i, c | 0 <= i < j + 1 && i <= c < count && Projected(i, c, j + 1, j + 1) && q'[i] == Zero(length)
      ensures SetEntry(r, j, j, s)[i][c] == 0.0
    {
      if i < j { assert Projected(i, c, j, count); }
    }
  }

  lemma NormalizeStep(a: Matrix, q: Matrix, r: Matrix, count: nat, length: nat, j: nat, s: real, inv: real)
    requires Factored(a, q, r, count, length, j, count) && j < count
    requires 0.0 <= s && Times(s, s) == Dot(q[j], q[j]) && inv == if 0.0 < s then 1.0 / s else 0.0
    ensures Factored(a, q[j := Scaled(inv, q[j])], SetEntry(r, j, j, s), count, length, j + 1, j + 1)
  {
    hide Times, Dot, Orthogonal, ZeroRows, Recovers;
    NormalizeColumn(q[j], s, inv);
    NormalizeRecovers(a, q, r, count, length, j, s, Scaled(inv, q[j]));
    NormalizeOrthogonal(q, r, count, length, j, s, inv);
  }

  // ---------------------------------------------------------------- projecting one later column

  lemma ProjectRecovers(a: Matrix, q: Matrix, r: Matrix, count: nat, length: nat, j: nat, k: nat, rho: real)
    requires Factored(a, q, r, count, length, j + 1, k) && k < count
    ensures Recovers(a, q[k := Combined(-rho, q[j], 1.0, q[k])], SetEntry(r, j, k, rho), count, length, j + 1, k + 1)
  {
    hide Times, Combined, Sum, Orthogonal, ZeroRows, UnitOrZero, Dot;
    var q', r' := q[k := Combined(-rho, q[j], 1.0, q[k])], SetEntry(r, j, k, rho);
    forall c | 0 <= c < j + 1 ensures a[c] == Combination(q', r', c, c + 1, length) {
      CombinationFrame(q, r, q', r', c, c + 1, length);
    }
    forall c | j + 1 <= c < k ensures a[c] == Sum(q'[c], Combination(q', r', c, j + 1, length)) {
      CombinationFrame(q, r, q', r', c, j + 1, length);
    }
    forall c | k + 1 <= c < count ensures a[c] == Sum(q'[c], Combination(q', r', c, j, length)) {
      CombinationFrame(q, r, q', r', c, j, length);
    }
    CombinationFrame(q, r, q', r', k, j, length);
    ProjectionIsRecorded(rho, q[j], q[k], Combination(q, r, k, j, length));
  }

  lemma ProjectOrthogonal(q: Matrix, r: Matrix, count: nat, length: nat, j: nat, k: nat)
    requires Rectangular(q, count, length) && Rectangular(r, count, count) && j < k < count
    requires Orthogonal(q, count, j + 1, k, length) && ZeroRows(q, r, count, j + 1, k, length)
    ensures var rho := Dot(q[j], q[k]);
            var q', r' := q[k := Combined(-rho, q[j], 1.0, q[k])], SetEntry(r, j, k, rho);
            Orthogonal(q', count, j + 1, k + 1, length) && ZeroRows(q', r', count, j + 1, k + 1, length)
  {
    hide Times, Dot;
    var rho := Dot(q[j], q[k]);
    var q', r' := q[k := Combined(-rho, q[j], 1.0, q[k])], SetEntry(r, j, k, rho);
    ProjectColumn(q[j], q[k]);
    forall i, c | 0 <= i < j + 1 && 0 <= c < count && c != i && Projected(i, c, j + 1, k + 1)
      ensures Dot(q'[i], q'[c]) == 0.0
    {
      if c != k {
        assert Projected(i, c, j + 1, k);
      } else if i < j {
        assert Projected(i, k, j + 1, k) && Projected(i, j, j + 1, k);
        CombinedStaysOrthogonal(-rho, q[j], 1.0, q[k], q[i]);
      }
    }
    forall i, c | 0 <= i < j + 1 && i <= c < count && Projected(i, c, j + 1, k + 1) && q'[i] == Zero(length)
      ensures r'[i][c] == 0.0
    {
      if i == j && c == k { DotZero(q[k]); } else { assert Projected(i, c, j + 1, k); }
    }
  }

  lemma ProjectStep(a: Matrix, q: Matrix, r: Matrix, count: nat, length: nat, j: nat, k: nat)
    requires Factored(a, q, r, count, length, j + 1, k) && k < count
    ensures var rho := Dot(q[j], q[k]);
            Factored(a, q[k := Combined(-rho, q[j], 1.0, q[k])], SetEntry(r, j, k, rho), count, length, j + 1, k + 1)
  {
    hide Times, Dot, Orthogonal, ZeroRows, Recovers;
    ProjectRecovers(a, q, r, count, length, j, k, Dot(q[j], q[k]));
    ProjectOrthogonal(q, r, count, length, j, k);
  }

  lemma ColumnDone(a: Matrix, q: Matrix, r: Matrix, count: nat, length: nat, done: nat)
    requires Factored(a, q, r, count, length, done, count)
    ensures forall i, c :: 0 <= i < done && 0 <= c < count && c != i ==> Dot(q[i], q[c]) == 0.0
  {
    hide Dot;
    forall i, c | 0 <= i < done && 0 <= c < count && c != i ensures Dot(q[i], q[c]) == 0.0 {
      assert Projected(i, c, done, count);
    }
  }

  // ---------------------------------------------------------------- the kernels on arrays

  ghost function Column(m: array2<real>, j: nat): (v: Vector)
    requires j < m.Length1
    reads m
    ensures |v| == m.Length0 && forall i :: 0 <= i < m.Length0 ==> v[i] == m[i, j]
  {
    seq(m.Length0, i requires 0 <= i < m.Length0 reads m => m[i, j])
  }

  ghost function Columns(m: array2<real>): (q: Matrix)
    reads m
    ensures Rectangular(q, m.Length1, m.Length0)
    ensures forall j :: 0 <= j < m.Length1 ==> q[j] == Column(m, j)
  {
    seq(m.Length1, j requires 0 <= j < m.Length1 reads m => Column(m, j))
  }

  ghost function Rows(m: array2<real>): (r: Matrix)
    reads m
    ensures Rectangular(r, m.Length0, m.Length1)
    ensures forall i, j :: 0 <= i < m.Length0 && 0 <= j < m.Length1 ==> r[i][j] == m[i, j]
  {
    seq(m.Length0, i requires 0 <= i < m.Length0 reads m =>
      seq(m.Length1, j requires 0 <= j < m.Length1 reads m => m[i, j]))
  }

  lemma SameMatrix(m: Matrix, m': Matrix, count: nat, length: nat)
    requires Rectangular(m, count, length) && Rectangular(m', count, length)
    requires forall i, j :: 0 <= i < count && 0 <= j < length ==> m[i][j] == m'[i][j]
    ensures m == m'
  {
    forall i | 0 <= i < count ensures m[i] == m'[i] {}
  }

  /** InvNorm2 on column j: the norm goes to R(j, j), its inverse (or zero) to the scalar. */
  method InvNorm2(q: array2<real>, r: array2<real>, j: nat, sqrt: real -> real) returns (inv: real)
    requires q != r && j < q.Length1 == r.Length0 == r.Length1 && IsSqrt(sqrt)
    modifies r
    ensures var s := r[j, j];
            && Rows(r) == SetEntry(old(Rows(r)), j, j, s)
            && 0.0 <= s && Times(s, s) == Dot(Column(q, j), Column(q, j))
            && inv == if 0.0 < s then 1.0 / s else 0.0
  {
    hide IsSqrt;
    var update := 0.0;
    for i := 0 to q.Length0
      invariant update == DotUpTo(Column(q, j), Column(q, j), i)
    {
      var x := q[i, j];
      update := update + Times(x, x);
    }
    DotSelfNonNegative(Column(q, j));
    var result := sqrt(update);
    SqrtExact(sqrt, update);
    r[j, j] := result;
    inv := if 0.0 < result then 1.0 / result else 0.0;
    SameMatrix(Rows(r), SetEntry(old(Rows(r)), j, j, result), r.Length0, r.Length1);
  }

  lemma SqrtExact(sqrt: real -> real, x: real)
    requires IsSqrt(sqrt) && 0.0 <= x
    ensures 0.0 <= sqrt(x) && Times(sqrt(x), sqrt(x)) == x
  {}

  /** DotM: R(j, k) takes the dot product of columns j and k, the scalar its negative. */
  method DotNeg(q: array2<real>, r: array2<real>, j: nat, k: nat) returns (tmp: real)
    requires q != r && j < k < q.Length1 == r.Length0 == r.Length1
    modifies r
    ensures Rows(r) == SetEntry(old(Rows(r)), j, k, Dot(Column(q, j), Column(q, k)))
    ensures tmp == -Dot(Column(q, j), Column(q, k))
  {
    var update := 0.0;
    for i := 0 to q.Length0
      invariant update == DotUpTo(Column(q, j), Column(q, k), i)
    {
      update := update + Times(q[i, j], q[i, k]);
    }
    r[j, k] := update;
    tmp := -update;
    SameMatrix(Rows(r), SetEntry(old(Rows(r)), j, k, update), r.Length0, r.Length1);
  }

  /** Scale: column j is multiplied by alpha in place. */
  method ScaleColumn(alpha: real, q: array2<real>, j: nat)
    requires j < q.Length1
    modifies q
    ensures Columns(q) == old(Columns(q))[j := Scaled(alpha, old(Column(q, j)))]
  {
    hide Times;
    for i := 0 to q.Length0
      invariant forall x, c :: 0 <= x < q.Length0 && 0 <= c < q.Length1 && (c != j || i <= x) ==>
        q[x, c] == old(q[x, c])
      invariant forall x :: 0 <= x < i ==> q[x, j] == Times(old(q[x, j]), alpha)
    {
      q[i, j] := Times(q[i, j], alpha);
    }
    SameMatrix(Columns(q), old(Columns(q))[j := Scaled(alpha, old(Column(q, j)))], q.Length1, q.Length0);
  }

  /** AXPBY: column k becomes alpha times column j plus beta times column k. */
  method Axpby(alpha: real, q: array2<real>, j: nat, beta: real, k: nat)
    requires j < k < q.Length1
    modifies q
    ensures Columns(q) == old(Columns(q))[k := Combined(alpha, old(Column(q, j)), beta, old(Column(q, k)))]
  {
    hide Times;
    for i := 0 to q.Length0
      invariant forall x, c :: 0 <= x < q.Length0 && 0 <= c < q.Length1 && (c != k || i <= x) ==>
        q[x, c] == old(q[x, c])
      invariant forall x :: 0 <= x < i ==> q[x, k] == Times(alpha, old(q[x, j])) + Times(beta, old(q[x, k]))
    {
      q[i, k] := Times(alpha, q[i, j]) + Times(beta, q[i, k]);
    }
    SameMatrix(Columns(q), old(Columns(q))[k := Combined(alpha, old(Column(q, j)), beta, old(Column(q, k)))],
      q.Length1, q.Length0);
  }

  /** The strictly lower part of R still has its initial values. */
  ghost predicate LowerKept(r: Matrix, r0: Matrix, count: nat)
    requires Rectangular(r, count, count) && Rectangular(r0, count, count)
  {
    forall i, c :: 0 <= c < i < count ==> r[i][c] == r0[i][c]
  }

  /** ModifiedGramSchmidt::factorization: the in-place double loop over columns. */
  method Factorization(q: array2<real>, r: array2<real>, sqrt: real -> real)
    requires q != r && q.Length1 == r.Length0 == r.Length1 && IsSqrt(sqrt)
    modifies q, r
    ensures Factored(old(Columns(q)), Columns(q), Rows(r), q.Length1, q.Length0, q.Length1, q.Length1)
    ensures LowerKept(Rows(r), old(Rows(r)), q.Length1)
  {
    hide Times, Dot, Recovers, Orthogonal, ZeroRows, IsSqrt;
    var count := q.Length1;
    ghost var a, r0 := Columns(q), Rows(r);
    NothingDone(a, r0, count, q.Length0);
    for j := 0 to count
      invariant Factored(a, Columns(q), Rows(r), count, q.Length0, j, count)
      invariant LowerKept(Rows(r), r0, count)
    {
      ghost var q1, r1 := Columns(q), Rows(r);
      var tmp := InvNorm2(q, r, j, sqrt);
      NormalizeStep(a, q1, r1, count, q.Length0, j, r[j, j], tmp);
      ScaleColumn(tmp, q, j);
      for k := j + 1 to count
        invariant Factored(a, Columns(q), Rows(r), count, q.Length0, j + 1, k)
        invariant LowerKept(Rows(r), r0, count)
      {
        ghost var q2, r2 := Columns(q), Rows(r);
        ProjectStep(a, q2, r2, count, q.Length0, j, k);
        tmp := DotNeg(q, r, j, k);
        Axpby(tmp, q, j, 1.0, k);
      }
    }
  }

  // ---------------------------------------------------------------- what the factorization means

  /** A vector orthogonal to the first m columns is orthogonal to every combination of them. */
  lemma {:induction false} OrthogonalToCombination(z: Vector, q: Matrix, r: Matrix, c: nat, m: nat, length: nat)
    requires m <= |q| && m <= |r| && |z| == length
    requires forall l :: 0 <= l < m ==> |q[l]| == length && c < |r[l]| && Dot(z, q[l]) == 0.0
    ensures Dot(z, Combination(q, r, c, m, length)) == 0.0
  {
    hide Dot, Times, Combined;
    if m == 0 {
      DotSymmetric(z, Zero(length));
      DotZero(z);
    } else {
      OrthogonalToCombination(z, q, r, c, m - 1, length);
      CombinedStaysOrthogonal(r[m - 1][c], q[m - 1], 1.0, Combination(q, r, c, m - 1, length), z);
    }
  }

  /** Among orthogonal columns, the product with column i picks out coefficient i of a combination. */
  lemma {:induction false} CoefficientOf(q: Matrix, r: Matrix, i: nat, c: nat, m: nat, length: nat)
    requires i < m <= |q| && m <= |r|
    requires forall l :: 0 <= l < m ==> |q[l]| == length && c < |r[l]|
    requires forall l :: 0 <= l < m && l != i ==> Dot(q[i], q[l]) == 0.0
    ensures Dot(q[i], Combination(q, r, c, m, length)) == Times(r[i][c], Dot(q[i], q[i]))
  {
    hide Dot, Times, Combined;
    var rest := Combination(q, r, c, m - 1, length);
    DotSymmetric(q[i], Combined(r[m - 1][c], q[m - 1], 1.0, rest));
    DotCombined(r[m - 1][c], q[m - 1], 1.0, rest, q[i]);
    DotSymmetric(q[m - 1], q[i]);
    DotSymmetric(rest, q[i]);
    TimesUnits(Dot(q[i], rest));
    TimesUnits(r[m - 1][c]);
    if i == m - 1 {
      OrthogonalToCombination(q[i], q, r, c, m - 1, length);
    } else {
      CoefficientOf(q, r, i, c, m - 1, length);
    }
  }

  /** The columns of Q are pairwise orthogonal, and each has norm one or is the zero vector. */
  lemma ColumnsOrthogonal(a: Matrix, q: Matrix, r: Matrix, count: nat, length: nat, i: nat, c: nat)
    requires Factored(a, q, r, count, length, count, count) && i < count && c < count
    ensures i != c ==> Dot(q[i], q[c]) == 0.0
    ensures Dot(q[i], q[i]) == 1.0 || q[i] == Zero(length)
  {
    hide Dot;
    ColumnDone(a, q, r, count, length, count);
  }

  /**
   The upper triangle that the modified algorithm records is Q transposed times A, which is what the
   classical algorithm would compute from the input columns.
   */
  lemma CoefficientsAreClassical(a: Matrix, q: Matrix, r: Matrix, count: nat, length: nat, i: nat, c: nat)
    requires Factored(a, q, r, count, length, count, count) && i <= c < count
    ensures r[i][c] == Dot(q[i], a[c])
  {
    hide Dot, Times;
    ColumnDone(a, q, r, count, length, count);
    CoefficientOf(q, r, i, c, c + 1, length);
    TimesUnits(r[i][c]);
    if q[i] == Zero(length) {
      assert Projected(i, c, count, count);
      DotZero(a[c]);
    }
  }

  /** With zeros below the diagonal, the input matrix is exactly the product QR. */
  lemma {:induction false} ProductIsInput(a: Matrix, q: Matrix, r: Matrix, count: nat, length: nat, c: nat, m: nat)
    requires Factored(a, q, r, count, length, count, count) && c < m <= count
    requires forall l :: c < l < count ==> r[l][c] == 0.0
    ensures Combination(q, r, c, m, length) == a[c]
  {
    hide Dot, Times, Orthogonal, ZeroRows;
    if m == c + 1 {
    } else {
      ProductIsInput(a, q, r, count, length, c, m - 1);
      forall i | 0 <= i < length ensures Combined(0.0, q[m - 1], 1.0, a[c])[i] == a[c][i] {
        TimesUnits(q[m - 1][i]);
        TimesUnits(a[c][i]);
      }
    }
  }
}
