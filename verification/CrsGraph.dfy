/** Compressed-row graphs of core/src/Kokkos_Crs.hpp and counting over their entries. */
module CrsGraph {
  import opened Sums

  /** Number of positions e in [lo, hi) with s[e] == v. */
  function CountIn(s: seq<nat>, lo: nat, hi: nat, v: nat): (c: nat)
    requires lo <= hi <= |s|
    ensures c <= hi - lo
    decreases hi - lo
  {
    if lo == hi then 0 else CountIn(s, lo, hi - 1, v) + (if s[hi - 1] == v then 1 else 0)
  }

  lemma {:induction false} CountSplit(s: seq<nat>, lo: nat, mid: nat, hi: nat, v: nat)
    requires lo <= mid <= hi <= |s|
    ensures CountIn(s, lo, hi, v) == CountIn(s, lo, mid, v) + CountIn(s, mid, hi, v)
    decreases hi - mid
  {
    if mid == hi {
    } else {
      CountSplit(s, lo, mid, hi - 1, v);
    }
  }

  datatype Crs = Crs(rowMap: seq<nat>, entries: seq<nat>) {
    function NumRows(): nat { if |rowMap| != 0 then |rowMap| - 1 else 0 }

    /** Row offsets start at zero, never decrease, end at the entry count; entries name rows. */
    ghost predicate WellFormed() {
      && (rowMap == [] ==> entries == [])
      && (rowMap != [] ==> rowMap[0] == 0 && rowMap[NumRows()] == |entries|)
      && (forall i, j :: 0 <= i <= j < |rowMap| ==> rowMap[i] <= rowMap[j])
      && (forall e :: 0 <= e < |entries| ==> entries[e] < NumRows())
    }

    /** How often row i names v. */
    function Occurrences(i: nat, v: nat): nat
      requires i < NumRows() && rowMap[i] <= rowMap[i + 1] <= |entries|
    {
      CountIn(entries, rowMap[i], rowMap[i + 1], v)
    }

    ghost function Row(i: nat): seq<nat>
      requires i < NumRows() && rowMap[i] <= rowMap[i + 1] <= |entries|
    {
      entries[rowMap[i]..rowMap[i + 1]]
    }
  }

  lemma {:induction false} CountIsMultiplicity(s: seq<nat>, lo: nat, hi: nat, v: nat)
    requires lo <= hi <= |s|
    ensures CountIn(s, lo, hi, v) == multiset(s[lo..hi])[v]
    decreases hi - lo
  {
    if lo == hi {
    } else {
      CountIsMultiplicity(s, lo, hi - 1, v);
      assert s[lo..hi] == s[lo..hi - 1] + [s[hi - 1]];
    }
  }

  /** The row map of the transpose: offsets from counting how often each row is named. */
  ghost predicate IsTransposeRowMap(g: Crs, tm: seq<nat>)
    requires g.WellFormed()
  {
    && |tm| == g.NumRows() + 1 && tm[0] == 0
    && forall v :: 0 <= v < g.NumRows() ==> tm[v + 1] == tm[v] + CountIn(g.entries, 0, |g.entries|, v)
  }

  lemma {:induction false} RowMapMonotone(g: Crs, tm: seq<nat>, v: nat, w: nat)
    requires g.WellFormed() && IsTransposeRowMap(g, tm) && v <= w <= g.NumRows()
    ensures tm[v] <= tm[w]
    decreases w
  {
    if v == w {
    } else {
      RowMapMonotone(g, tm, v, w - 1);
      assert tm[w - 1 + 1] == tm[w - 1] + CountIn(g.entries, 0, |g.entries|, w - 1);
    }
  }

  /** Distinct slots of the transpose have distinct positions. */
  lemma SlotsDistinct(g: Crs, tm: seq<nat>, v: nat, k: nat, w: nat, l: nat)
    requires g.WellFormed() && IsTransposeRowMap(g, tm) && v < g.NumRows() && w < g.NumRows()
    requires tm[v] + k < tm[v + 1] && tm[w] + l < tm[w + 1]
    ensures tm[v] + k == tm[w] + l ==> v == w && k == l
  {
    if v < w { RowMapMonotone(g, tm, v + 1, w); }
    if w < v { RowMapMonotone(g, tm, w + 1, v); }
  }

  // ---------------------------------------------------------------- counts over all rows

  /** at[i] is a position no later than the end of row i. */
  ghost predicate Positions(g: Crs, at: seq<nat>, n: nat) {
    && n <= |at| && n <= g.NumRows()
    && forall i {:trigger at[i]} :: 0 <= i < n ==> at[i] <= g.rowMap[i + 1] <= |g.entries|
  }

  lemma PositionsBound(g: Crs, at: seq<nat>, n: nat, i: nat)
    requires Positions(g, at, n) && i < n
    ensures n <= |at| && i + 1 < |g.rowMap| && at[i] <= g.rowMap[i + 1] <= |g.entries|
  {}

  lemma PositionsShorter(g: Crs, at: seq<nat>, n: nat)
    requires 0 < n && Positions(g, at, n)
    ensures Positions(g, at, n - 1)
  {
    forall k | 0 <= k < n - 1 ensures at[k] <= g.rowMap[k + 1] <= |g.entries| { PositionsBound(g, at, n, k); }
  }

  lemma PositionsUpdate(g: Crs, at: seq<nat>, n: nat, i: nat, x: nat)
    requires i < n && Positions(g, at, n) && x <= g.rowMap[i + 1]
    ensures Positions(g, at[i := x], n)
  {
    var at' := at[i := x];
    assert |at'| == |at|;
    forall k | 0 <= k < n ensures at'[k] <= g.rowMap[k + 1] <= |g.entries| { PositionsBound(g, at, n, k); }
    assert n <= |at'| && n <= g.NumRows();
    assert Positions(g, at', n);
  }

  /** Sum over rows i < n of the entries equal to v from at[i] to the end of row i. */
  ghost function CountFrom(g: Crs, at: seq<nat>, n: nat, v: nat): nat
    requires Positions(g, at, n)
  {
    if n == 0 then 0 else CountFrom(g, at, n - 1, v) + CountIn(g.entries, at[n - 1], g.rowMap[n - 1 + 1], v)
  }

  lemma {:induction false} CountFromFrame(g: Crs, at: seq<nat>, at': seq<nat>, n: nat, v: nat)
    requires Positions(g, at, n) && Positions(g, at', n)
    requires forall i :: 0 <= i < n ==> at[i] == at'[i]
    ensures CountFrom(g, at, n, v) == CountFrom(g, at', n, v)
  {
    if n == 0 {
    } else {
      CountFromFrame(g, at, at', n - 1, v);
    }
  }

  /** Moving one row's position changes the sum by that row's part alone. */
  lemma {:induction false} CountFromUpdate(g: Crs, at: seq<nat>, n: nat, v: nat, i: nat, x: nat)
    requires i < n && Positions(g, at, n) && x <= g.rowMap[i + 1]
    ensures Positions(g, at[i := x], n)
    ensures CountFrom(g, at[i := x], n, v) + CountIn(g.entries, at[i], g.rowMap[i + 1], v) ==
              CountFrom(g, at, n, v) + CountIn(g.entries, x, g.rowMap[i + 1], v)
  {
    hide Positions, CountIn;
    PositionsBound(g, at, n, n - 1);
    PositionsBound(g, at, n, i);
    PositionsUpdate(g, at, n, i, x);
    var at' := at[i := x];
    PositionsShorter(g, at, n);
    PositionsShorter(g, at', n);
    PositionsBound(g, at', n, n - 1);
    if i < n - 1 {
      CountFromUpdate(g, at, n - 1, v, i, x);
    } else {
      CountFromFrame(g, at, at', n - 1, v);
    }
  }

  /** Counting row by row from the row starts counts every entry once. */
  lemma {:induction false} CountFromStart(g: Crs, at: seq<nat>, n: nat, v: nat)
    requires g.WellFormed() && n <= g.NumRows() && Positions(g, at, n) && 0 < |g.rowMap|
    requires forall i :: 0 <= i < n ==> at[i] == g.rowMap[i]
    ensures CountFrom(g, at, n, v) == CountIn(g.entries, 0, g.rowMap[n], v)
  {
    if n == 0 {
    } else {
      CountFromStart(g, at, n - 1, v);
      CountSplit(g.entries, 0, g.rowMap[n - 1], g.rowMap[n], v);
    }
  }
}
