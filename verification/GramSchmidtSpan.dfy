/** What the factorization says about spans: the columns of Q span what the columns of A span. */
module GramSchmidtSpan {
  import opened Vectors
  import opened GramSchmidt

  ghost predicate HasColumns(m: Matrix, n: nat, length: nat) {
    n <= |m| && forall l :: 0 <= l < n ==> |m[l]| == length
  }

  /** The sum over l < n of w[l] times column l. */
  function LinearSum(m: Matrix, w: Vector, n: nat, length: nat): (v: Vector)
    requires HasColumns(m, n, length) && n <= |w|
    ensures |v| == length
  {
    if n == 0 then Zero(length) else Combined(w[n - 1], m[n - 1], 1.0, LinearSum(m, w, n - 1, length))
  }

  /** v is a linear combination of the first n columns of m. */
  ghost predicate InSpan(v: Vector, m: Matrix, n: nat, length: nat) {
    HasColumns(m, n, length) && exists w: Vector :: |w| == n && v == LinearSum(m, w, n, length)
  }

  // ---------------------------------------------------------------- spans are subspaces

  lemma {:induction false} SumFrame(m: Matrix, w: Vector, w': Vector, n: nat, length: nat)
    requires HasColumns(m, n, length) && n <= |w| && n <= |w'| && forall l :: 0 <= l < n ==> w[l] == w'[l]
    ensures LinearSum(m, w, n, length) == LinearSum(m, w', n, length)
  {
    hide Combined, Zero;
    if n == 0 {
    } else {
      SumFrame(m, w, w', n - 1, length);
    }
  }

  lemma {:induction false} SumOfCombined(m: Matrix, a: real, x: Vector, b: real, y: Vector, n: nat, length: nat)
    requires HasColumns(m, n, length) && n <= |x| == |y|
    ensures LinearSum(m, Combined(a, x, b, y), n, length) ==
              Combined(a, LinearSum(m, x, n, length), b, LinearSum(m, y, n, length))
  {
    hide Times;
    var lhs := LinearSum(m, Combined(a, x, b, y), n, length);
    var sx, sy := LinearSum(m, x, n, length), LinearSum(m, y, n, length);
    TimesUnits(a);
    TimesUnits(b);
    if n == 0 {
      assert lhs == Combined(a, sx, b, sy);
    } else {
      SumOfCombined(m, a, x, b, y, n - 1, length);
      var rx, ry := LinearSum(m, x, n - 1, length), LinearSum(m, y, n - 1, length);
      forall i | 0 <= i < length ensures lhs[i] == Combined(a, sx, b, sy)[i] {
        Regroup(a, x[n - 1], rx[i], b, y[n - 1], ry[i], m[n - 1][i]);
      }
      assert lhs == Combined(a, sx, b, sy);
    }
  }

  lemma Regroup(a: real, u: real, x: real, b: real, v: real, y: real, z: real)
    ensures Times(Times(a, u) + Times(b, v), z) + Times(1.0, Times(a, x) + Times(b, y)) ==
              Times(a, Times(u, z) + Times(1.0, x)) + Times(b, Times(v, z) + Times(1.0, y))
  {}

  lemma SpanIsClosed(a: real, x: Vector, b: real, y: Vector, m: Matrix, n: nat, length: nat)
    requires InSpan(x, m, n, length) && InSpan(y, m, n, length)
    ensures |x| == |y| == length && InSpan(Combined(a, x, b, y), m, n, length)
  {
    hide Times, Combined, LinearSum;
    var w: Vector :| |w| == n && x == LinearSum(m, w, n, length);
    var w': Vector :| |w'| == n && y == LinearSum(m, w', n, length);
    SumOfCombined(m, a, w, b, w', n, length);
  }

  lemma SpanGrows(v: Vector, m: Matrix, n: nat, length: nat)
    requires InSpan(v, m, n, length) && HasColumns(m, n + 1, length)
    ensures InSpan(v, m, n + 1, length)
  {
    hide Times;
    var w: Vector :| |w| == n && v == LinearSum(m, w, n, length);
    var w' := w + [0.0];
    SumFrame(m, w, w', n, length);
    VanishingTerm(m[n], v, length);
    assert v == LinearSum(m, w', n + 1, length);
  }

  lemma VanishingTerm(x: Vector, v: Vector, length: nat)
    requires |x| == |v| == length
    ensures Combined(0.0, x, 1.0, v) == v
  {
    hide Times;
    forall i | 0 <= i < length ensures Combined(0.0, x, 1.0, v)[i] == v[i] {
      TimesUnits(x[i]);
      TimesUnits(v[i]);
    }
  }

  lemma {:induction false} ZeroInSpan(m: Matrix, n: nat, length: nat)
    requires HasColumns(m, n, length)
    ensures InSpan(Zero(length), m, n, length)
  {
    hide Times;
    if n == 0 {
      assert Zero(length) == LinearSum(m, [], 0, length);
    } else {
      ZeroInSpan(m, n - 1, length);
      SpanGrows(Zero(length), m, n - 1, length);
    }
  }

  lemma ColumnInSpan(m: Matrix, n: nat, length: nat)
    requires HasColumns(m, n + 1, length)
    ensures InSpan(m[n], m, n + 1, length)
  {
    hide Times;
    ZeroInSpan(m, n, length);
    var w: Vector :| |w| == n && Zero(length) == LinearSum(m, w, n, length);
    var w' := w + [1.0];
    SumFrame(m, w, w', n, length);
    forall i | 0 <= i < length ensures Combined(1.0, m[n], 1.0, Zero(length))[i] == m[n][i] {
      TimesUnits(m[n][i]);
      TimesUnits(1.0);
    }
    assert m[n] == LinearSum(m, w', n + 1, length);
  }

  /** If the first k columns of p lie in the span of n columns of m, so does everything they span. */
  lemma {:induction false} SumInSpan(p: Matrix, w: Vector, k: nat, m: Matrix, n: nat, length: nat)
    requires HasColumns(p, k, length) && HasColumns(m, n, length) && k <= |w|
    requires forall l :: 0 <= l < k ==> InSpan(p[l], m, n, length)
    ensures InSpan(LinearSum(p, w, k, length), m, n, length)
  {
    hide InSpan, Combined;
    if k == 0 {
      ZeroInSpan(m, n, length);
    } else {
      SumInSpan(p, w, k - 1, m, n, length);
      SpanIsClosed(w[k - 1], p[k - 1], 1.0, LinearSum(p, w, k - 1, length), m, n, length);
    }
  }

  // ---------------------------------------------------------------- the factors and the input

  /** The combination with column c of R for coefficients. */
  lemma {:induction false} CombinationIsSum(q: Matrix, r: Matrix, c: nat, n: nat, length: nat, w: Vector)
    requires HasColumns(q, n, length) && n <= |r| && n <= |w|
    requires forall l :: 0 <= l < n ==> c < |r[l]| && w[l] == r[l][c]
    ensures Combination(q, r, c, n, length) == LinearSum(q, w, n, length)
  {
    hide Combined, Zero;
    if n == 0 {
    } else {
      CombinationIsSum(q, r, c, n - 1, length, w);
    }
  }

  lemma CombinationInSpan(q: Matrix, r: Matrix, c: nat, n: nat, length: nat)
    requires HasColumns(q, n, length) && n <= |r| && forall l :: 0 <= l < n ==> c < |r[l]|
    ensures InSpan(Combination(q, r, c, n, length), q, n, length)
  {
    hide LinearSum, Combination;
    var w := seq(n, l requires 0 <= l < n => r[l][c]);
    CombinationIsSum(q, r, c, n, length, w);
  }

  /** Solving the last step of a combination for the column it added. */
  lemma SolveForColumn(s: real, u: Vector, rest: Vector)
    requires |u| == |rest| && s != 0.0
    ensures u == Combined(1.0 / s, Combined(s, u, 1.0, rest), -(1.0 / s), rest)
  {
    hide Times;
    var t := 1.0 / s;
    forall i | 0 <= i < |u| ensures u[i] == Combined(t, Combined(s, u, 1.0, rest), -t, rest)[i] {
      SolveEntry(s, t, u[i], rest[i]);
    }
  }

  lemma SolveEntry(s: real, t: real, u: real, x: real)
    requires s != 0.0 && t == 1.0 / s
    ensures Times(t, Times(s, u) + Times(1.0, x)) + Times(-t, x) == u
  {
    assert t * s == 1.0;
    assert t * (s * u) == (t * s) * u;
  }

  /** The first n columns of Q lie in the span of the first n columns of A. */
  lemma {:induction false} FactorsInSpan(a: Matrix, q: Matrix, r: Matrix, count: nat, length: nat, n: nat, l: nat)
    requires Factored(a, q, r, count, length, count, count) && l < n <= count
    ensures InSpan(q[l], a, n, length)
    decreases n
  {
    hide Times, Dot, Combined, Combination, Orthogonal, InSpan, Zero;
    if l < n - 1 {
      FactorsInSpan(a, q, r, count, length, n - 1, l);
      SpanGrows(q[l], a, n - 1, length);
    } else {
      var s, rest := r[l][l], Combination(q, r, l, l, length);
      forall k | 0 <= k < l ensures InSpan(q[k], a, l, length) { FactorsInSpan(a, q, r, count, length, l, k); }
      if s == 0.0 {
        ZeroInSpan(a, n, length);
      } else {
        LastStep(a, q, r, count, length, l);
        SolveForColumn(s, q[l], rest);
        RestInSpan(a, q, r, count, length, l);
        SpanGrows(rest, a, l, length);
        ColumnInSpan(a, l, length);
        SpanIsClosed(1.0 / s, a[l], -(1.0 / s), rest, a, n, length);
      }
    }
  }

  lemma LastStep(a: Matrix, q: Matrix, r: Matrix, count: nat, length: nat, c: nat)
    requires Factored(a, q, r, count, length, count, count) && c < count
    ensures |Combination(q, r, c, c, length)| == length == |q[c]|
    ensures a[c] == Combined(r[c][c], q[c], 1.0, Combination(q, r, c, c, length))
  {
    hide Times, Dot, Combined, Orthogonal, ZeroRows;
  }

  lemma RestInSpan(a: Matrix, q: Matrix, r: Matrix, count: nat, length: nat, c: nat)
    requires Factored(a, q, r, count, length, count, count) && c < count
    requires forall k :: 0 <= k < c ==> InSpan(q[k], a, c, length)
    ensures InSpan(Combination(q, r, c, c, length), a, c, length)
  {
    hide LinearSum, Orthogonal, ZeroRows, Recovers;
    var w := seq(c, l requires 0 <= l < c => r[l][c]);
    CombinationIsSum(q, r, c, c, length, w);
    SumInSpan(q, w, c, a, c, length);
  }

  lemma {:induction false} InputsInSpan(a: Matrix, q: Matrix, r: Matrix, count: nat, length: nat, n: nat, l: nat)
    requires Factored(a, q, r, count, length, count, count) && l < n <= count
    ensures InSpan(a[l], q, n, length)
    decreases n
  {
    hide Times, Dot, Combined, Orthogonal, ZeroRows, InSpan;
    if l < n - 1 {
      InputsInSpan(a, q, r, count, length, n - 1, l);
      SpanGrows(a[l], q, n - 1, length);
    } else {
      assert a[l] == Combination(q, r, l, l + 1, length);
      CombinationInSpan(q, r, l, l + 1, length);
    }
  }

  /** For each n the first n columns of Q span exactly what the first n columns of A span. */
  lemma SpansAgree(a: Matrix, q: Matrix, r: Matrix, count: nat, length: nat, n: nat, v: Vector)
    requires Factored(a, q, r, count, length, count, count) && n <= count
    ensures InSpan(v, q, n, length) <==> InSpan(v, a, n, length)
  {
    hide LinearSum, Factored;
    assert HasColumns(a, n, length) && HasColumns(q, n, length) by { FactorColumns(a, q, r, count, length, n); }
    if InSpan(v, q, n, length) {
      var w: Vector :| |w| == n && v == LinearSum(q, w, n, length);
      forall l | 0 <= l < n ensures InSpan(q[l], a, n, length) { FactorsInSpan(a, q, r, count, length, n, l); }
      SumInSpan(q, w, n, a, n, length);
    }
    if InSpan(v, a, n, length) {
      var w: Vector :| |w| == n && v == LinearSum(a, w, n, length);
      forall l | 0 <= l < n ensures InSpan(a[l], q, n, length) { InputsInSpan(a, q, r, count, length, n, l); }
      SumInSpan(a, w, n, q, n, length);
    }
  }

  lemma FactorColumns(a: Matrix, q: Matrix, r: Matrix, count: nat, length: nat, n: nat)
    requires Factored(a, q, r, count, length, count, count) && n <= count
    ensures HasColumns(a, n, length) && HasColumns(q, n, length) && |r| == count
  {
    hide Recovers, Orthogonal, ZeroRows;
  }

  /** A vector orthogonal to every column is orthogonal to all they span. */
  lemma OrthogonalToSpan(z: Vector, q: Matrix, w: Vector, n: nat, length: nat)
    requires HasColumns(q, n, length) && n <= |w| && |z| == length
    requires forall l :: 0 <= l < n ==> Dot(z, q[l]) == 0.0
    ensures Dot(z, LinearSum(q, w, n, length)) == 0.0
  {
    hide Dot, LinearSum, Combination;
    var r := seq(n, l requires 0 <= l < n => [w[l]]);
    CombinationIsSum(q, r, 0, n, length, w);
    OrthogonalToCombination(z, q, r, 0, n, length);
  }

  /**
   Rank deficiency: column c of Q is zero, as is its diagonal entry of R, exactly when input column c
   is a linear combination of the input columns before it.
   */
  lemma ZeroColumnIffDependent(a: Matrix, q: Matrix, r: Matrix, count: nat, length: nat, c: nat)
    requires Factored(a, q, r, count, length, count, count) && c < count
    ensures q[c] == Zero(length) <==> InSpan(a[c], a, c, length)
    ensures r[c][c] == 0.0 <==> q[c] == Zero(length)
  {
    hide Dot, Times, Combined, Combination, LinearSum, Recovers;
    SpansAgree(a, q, r, count, length, c, a[c]);
    ColumnDone(a, q, r, count, length, count);
    CoefficientsAreClassical(a, q, r, count, length, c, c);
    if InSpan(a[c], q, c, length) {
      var w: Vector :| |w| == c && a[c] == LinearSum(q, w, c, length);
      OrthogonalToSpan(q[c], q, w, c, length);
    }
    if q[c] == Zero(length) {
      LastStep(a, q, r, count, length, c);
      ZeroTermVanishes(r[c][c], Combination(q, r, c, c, length), length);
      CombinationInSpan(q, r, c, c, length);
    }
  }

  lemma ZeroTermVanishes(s: real, v: Vector, length: nat)
    requires |v| == length
    ensures Combined(s, Zero(length), 1.0, v) == v
  {
    hide Times;
    forall i | 0 <= i < length ensures Combined(s, Zero(length), 1.0, v)[i] == v[i] {
      TimesUnits(s);
      TimesUnits(v[i]);
    }
  }
}
