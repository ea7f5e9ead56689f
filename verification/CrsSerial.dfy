/** transpose_crs and count_and_fill_crs executed in place, and what transposing twice gives. */
module CrsSerial {
  import opened CrsGraph
  import opened Sums
  import opened CrsCounting
  import opened CrsScan
  import opened CrsScatter
  import opened CrsTranspose

  // ---------------------------------------------------------------- transpose_crs in serial order

  method GetCrsTransposeCounts(g: Crs) returns (counts: array<nat>)
    requires g.WellFormed()
    ensures fresh(counts) && counts.Length == g.NumRows()
    ensures forall v :: 0 <= v < counts.Length ==> counts[v] == CountIn(g.entries, 0, |g.entries|, v)
  {
    counts := new nat[g.NumRows()](_ => 0);
    for e := 0 to |g.entries|
      invariant forall v :: 0 <= v < counts.Length ==> counts[v] == CountIn(g.entries, 0, e, v)
    {
      counts[g.entries[e]] := counts[g.entries[e]] + 1;
    }
  }

  ghost predicate Nondecreasing(s: seq<nat>) {
    forall k, l :: 0 <= k <= l < |s| ==> s[k] <= s[l]
  }

  ghost predicate RowsNondecreasing(g: Crs)
    requires g.WellFormed()
  {
    forall i :: 0 <= i < g.NumRows() ==> Nondecreasing(g.Row(i))
  }

  /** Every ticket so far went to a row up to i, in nondecreasing order of the rows. */
  ghost predicate IssuedInOrder(s: Fill, i: nat) {
    forall v :: 0 <= v < |s.issued| ==>
      Nondecreasing(s.issued[v]) && forall k :: 0 <= k < |s.issued[v]| ==> s.issued[v][k] <= i
  }

  /** Rows before i are through, row i is at entry j, later rows have not begun. */
  ghost predicate SerialPoint(g: Crs, s: Fill, i: nat, j: nat) {
    forall l {:trigger s.rows[l]} :: 0 <= l < |s.rows| && l + 1 < |g.rowMap| ==>
      s.rows[l] == RowThread(if l < i then g.rowMap[l + 1] else if l == i then j else g.rowMap[l], NoTicket)
  }

  /** The body of the inner loop is the two steps of its row, one after the other. */
  lemma SerialStep(g: Crs, tm: seq<nat>, s: Fill, i: nat, j: nat) returns (s': Fill)
    requires Inv(g, tm, s) && i < g.NumRows() && SerialPoint(g, s, i, j) && IssuedInOrder(s, i)
    requires g.rowMap[i] <= j < g.rowMap[i + 1]
    ensures j < |g.entries| && g.entries[j] < |s.counters| && g.entries[j] < |tm|
    ensures tm[g.entries[j]] + s.counters[g.entries[j]] < |s.out|
    ensures Inv(g, tm, s') && SerialPoint(g, s', i, j + 1) && IssuedInOrder(s', i)
    ensures s'.counters == s.counters[g.entries[j] := s.counters[g.entries[j]] + 1]
    ensures s'.out == s.out[tm[g.entries[j]] + s.counters[g.entries[j]] := i]
  {
    hide Inv, RowOk, CounterOk, TicketsOk, SlotOk, IsTransposeRowMap;
    assert g.WellFormed() && |tm| == g.NumRows() + 1 && |s.counters| == |s.rows| == |s.issued| == g.NumRows()
      by { InvShape(g, tm, s); }
    assert s.rows[i] == RowThread(j, NoTicket);
    RowCanStep(g, tm, s, i);
    StepKeepsInv(g, tm, s, i);
    var d := Step(g, tm, s, i);
    assert d.rows[i] == RowThread(j + 1, Ticket(s.counters[g.entries[j]]));
    TicketInRow(g, tm, d, i);
    StepKeepsInv(g, tm, d, i);
    s' := Step(g, tm, d, i);
  }

  lemma InvShape(g: Crs, tm: seq<nat>, s: Fill)
    requires Inv(g, tm, s)
    ensures Shape(g, tm, s)
  {}

  lemma SerialStart(g: Crs, tm: seq<nat>, out: seq<nat>)
    requires Ready(g, tm) && |out| == |g.entries|
    ensures var s := InitFill(g, out); Inv(g, tm, s) && SerialPoint(g, s, 0, if 0 < g.NumRows() then g.rowMap[0] else 0)
    ensures IssuedInOrder(InitFill(g, out), 0)
  {
    InitInv(g, tm, out);
  }

  lemma RowBounds(g: Crs, i: nat)
    requires g.WellFormed() && i < g.NumRows()
    ensures g.rowMap[i] <= g.rowMap[i + 1] <= |g.entries|
  {}

  lemma NextRow(g: Crs, s: Fill, i: nat)
    requires i < g.NumRows() && SerialPoint(g, s, i, g.rowMap[i + 1]) && IssuedInOrder(s, i)
    ensures SerialPoint(g, s, i + 1, if i + 1 < g.NumRows() then g.rowMap[i + 1] else 0) && IssuedInOrder(s, i + 1)
  {
    hide Crs.WellFormed;
  }

  lemma SerialEnd(g: Crs, tm: seq<nat>, s: Fill)
    requires Inv(g, tm, s) && SerialPoint(g, s, g.NumRows(), 0) && IssuedInOrder(s, g.NumRows())
    ensures IsTranspose(g, Crs(tm, s.out)) && RowsNondecreasing(Crs(tm, s.out))
  {
    hide RowOk, CounterOk, TicketsOk, SlotOk, IsTranspose;
    assert Finished(g, s);
    FinishedIsTranspose(g, tm, s);
    var t := Crs(tm, s.out);
    assert t.WellFormed() by { TransposeShape(g, t); }
    forall v | 0 <= v < t.NumRows() ensures Nondecreasing(t.Row(v)) {
      FinishedRow(g, tm, s, v);
    }
  }

  lemma TransposeShape(g: Crs, t: Crs)
    requires IsTranspose(g, t)
    ensures g.WellFormed() && t.WellFormed() && t.NumRows() == g.NumRows() && |t.entries| == |g.entries|
  {
    RowMapEnd(g, t.rowMap);
  }

  /** FillCrsTransposeEntries, one row after the other. */
  method FillCrsTransposeEntries(g: Crs, rowMap: array<nat>, entries: array<nat>)
    requires Ready(g, rowMap[..]) && entries.Length == |g.entries| && rowMap != entries
    modifies entries
    ensures IsTranspose(g, Crs(rowMap[..], entries[..])) && RowsNondecreasing(Crs(rowMap[..], entries[..]))
  {
    hide Inv, RowOk, CounterOk, TicketsOk, SlotOk, IsTransposeRowMap, Finished, IssuedInOrder, SerialPoint,
      Crs.WellFormed;
    ghost var tm := rowMap[..];
    var counters := new nat[g.NumRows()](_ => 0);
    ghost var s := InitFill(g, entries[..]);
    SerialStart(g, tm, entries[..]);
    for i := 0 to g.NumRows()
      invariant rowMap[..] == tm && counters[..] == s.counters && entries[..] == s.out
      invariant Inv(g, tm, s) && SerialPoint(g, s, i, if i < g.NumRows() then g.rowMap[i] else 0) && IssuedInOrder(s, i)
    {
      RowBounds(g, i);
      for j := g.rowMap[i] to g.rowMap[i + 1]
        invariant rowMap[..] == tm && counters[..] == s.counters && entries[..] == s.out
        invariant Inv(g, tm, s) && SerialPoint(g, s, i, j) && IssuedInOrder(s, i)
      {
        ghost var s' := SerialStep(g, tm, s, i, j);
        var ti := g.entries[j];
        var tbegin := rowMap[ti];
        var tj := counters[ti];
        counters[ti] := tj + 1;
        entries[tbegin + tj] := i;
        s := s';
      }
      NextRow(g, s, i);
    }
    SerialEnd(g, tm, s);
  }

  /** transpose_crs with its three passes run in order; the scan may be cut anywhere. */
  method TransposeCrs(g: Crs, cuts: seq<nat>) returns (t: Crs)
    requires g.WellFormed() && IsChunking(cuts, g.NumRows() + 1)
    ensures IsTranspose(g, t) && RowsNondecreasing(t)
  {
    hide CountIn, IsTranspose, RowsNondecreasing, Ready;
    var counts := GetCrsTransposeCounts(g);
    ghost var c := counts[..];
    var rowMap, total := RowMapFromCounts(counts[..], cuts);
    ScannedRowMap(g, c, rowMap[..]);
    var entries := new nat[|g.entries|](_ => 0);
    FillCrsTransposeEntries(g, rowMap, entries);
    t := Crs(rowMap[..], entries[..]);
  }

  // ---------------------------------------------------------------- transposing twice

  lemma SameRowContents(g: Crs, t: Crs, u: Crs, i: nat)
    requires IsTranspose(g, t) && IsTranspose(t, u) && i < g.NumRows()
    ensures u.NumRows() == g.NumRows() && multiset(u.Row(i)) == multiset(g.Row(i))
  {
    hide CountIn;
    forall v: nat ensures multiset(u.Row(i))[v] == multiset(g.Row(i))[v] {
      CountIsMultiplicity(u.entries, u.rowMap[i], u.rowMap[i + 1], v);
      CountIsMultiplicity(g.entries, g.rowMap[i], g.rowMap[i + 1], v);
      if v < g.NumRows() {
        assert u.Occurrences(i, v) == t.Occurrences(v, i) == g.Occurrences(i, v);
      } else {
        assert v !in u.Row(i) && v !in g.Row(i);
      }
    }
  }

  lemma {:induction false} SameRowMap(g: Crs, t: Crs, u: Crs, n: nat)
    requires IsTranspose(g, t) && IsTranspose(t, u) && n <= g.NumRows() && g.rowMap != []
    ensures |u.rowMap| == |g.rowMap| && u.rowMap[n] == g.rowMap[n]
  {
    hide IsTranspose;
    assert g.WellFormed() && u.WellFormed() && |u.rowMap| == |g.rowMap| by { TwiceShape(g, t, u); }
    if n == 0 {
    } else {
      SameRowMap(g, t, u, n - 1);
      SameRowContents(g, t, u, n - 1);
      assert |multiset(u.Row(n - 1))| == |u.Row(n - 1)| && |multiset(g.Row(n - 1))| == |g.Row(n - 1)|;
    }
  }

  lemma TwiceShape(g: Crs, t: Crs, u: Crs)
    requires IsTranspose(g, t) && IsTranspose(t, u)
    ensures g.WellFormed() && u.WellFormed() && |u.rowMap| == g.NumRows() + 1
  {}

  /** Transposing twice in serial order gives the same graph with every row sorted. */
  lemma TransposeTwice(g: Crs, t: Crs, u: Crs)
    requires IsTranspose(g, t) && IsTranspose(t, u) && RowsNondecreasing(u)
    ensures u.rowMap == if g.rowMap == [] then [0] else g.rowMap
    ensures forall i :: 0 <= i < g.NumRows() ==> Nondecreasing(u.Row(i)) && multiset(u.Row(i)) == multiset(g.Row(i))
  {
    hide IsTranspose, CountIn, Nondecreasing;
    assert g.WellFormed() && u.WellFormed() && |u.rowMap| == g.NumRows() + 1 by { TwiceShape(g, t, u); }
    if g.rowMap != [] {
      forall n | 0 <= n <= g.NumRows() ensures u.rowMap[n] == g.rowMap[n] { SameRowMap(g, t, u, n); }
    }
    forall i | 0 <= i < g.NumRows() ensures Nondecreasing(u.Row(i)) && multiset(u.Row(i)) == multiset(g.Row(i)) {
      SameRowContents(g, t, u, i);
    }
  }

  // ---------------------------------------------------------------- count_and_fill_crs

  /** The pointer a functor is called with: null, or a place among the entries. */
  datatype Place = Nowhere | At(position: nat)

  /**
   A functor for count_and_fill_crs that produces rows[i] for row i: it returns the row's length, and
   stores the row when it is given somewhere to store it, which must be an entry.
   */
  method CallFunctor(rows: seq<seq<nat>>, i: nat, fill: Place, entries: array<nat>) returns (count: nat)
    requires i < |rows| && (fill.At? ==> fill.position < entries.Length && fill.position + |rows[i]| <= entries.Length)
    modifies entries
    ensures count == |rows[i]|
    ensures forall p :: 0 <= p < entries.Length ==>
      entries[p] == if fill.At? && fill.position <= p < fill.position + |rows[i]| then rows[i][p - fill.position]
        else old(entries[p])
  {
    count := |rows[i]|;
    if fill.At? {
      for k := 0 to |rows[i]|
        invariant forall p :: 0 <= p < entries.Length ==>
          entries[p] == if fill.position <= p < fill.position + k then rows[i][p - fill.position] else old(entries[p])
      {
        entries[fill.position + k] := rows[i][k];
      }
    }
  }

  function Lengths(rows: seq<seq<nat>>): (c: seq<nat>)
    ensures |c| == |rows| && forall i :: 0 <= i < |rows| ==> c[i] == |rows[i]|
  {
    seq(|rows|, i requires 0 <= i < |rows| => |rows[i]|)
  }

  /** Entry k of row i is in place. */
  ghost predicate Placed(rows: seq<seq<nat>>, rowMap: seq<nat>, entries: seq<nat>, i: nat, k: nat) {
    i < |rows| && k < |rows[i]| && i < |rowMap| && rowMap[i] + k < |entries| && entries[rowMap[i] + k] == rows[i][k]
  }

  /** Row i ends no later than any later row begins. */
  lemma {:induction false} RowsApart(rows: seq<seq<nat>>, i: nat, j: nat)
    requires i < j <= |rows|
    ensures SumUpTo(Lengths(rows), i) + |rows[i]| <= SumUpTo(Lengths(rows), j)
  {
    hide Lengths, SumUpTo;
    SumPast(Lengths(rows), i, j);
  }

  /**
   CountAndFill: counts from a first call of the functor on every row, the scanned row map, and a
   second call on every row in any order.  A row that begins at the end of the entries is called with
   no place to store; only empty rows begin there.
   */
  method CountAndFill(rows: seq<seq<nat>>, cuts: seq<nat>) returns (rowMap: array<nat>, entries: array<nat>)
    requires IsChunking(cuts, |rows| + 1)
    ensures rowMap.Length == |rows| + 1 && entries.Length == SumUpTo(Lengths(rows), |rows|)
    ensures forall p :: 0 <= p < rowMap.Length ==> rowMap[p] == SumUpTo(Lengths(rows), p)
    ensures forall i, k :: 0 <= i < |rows| && 0 <= k < |rows[i]| ==> Placed(rows, rowMap[..], entries[..], i, k)
  {
    hide SumUpTo, Lengths;
    var counts := new nat[|rows|];
    var none := new nat[0];
    var pending: set<nat> := {};
    for i := 0 to |rows|
      invariant forall l :: 0 <= l < i ==> counts[l] == |rows[l]|
      invariant forall l: nat :: l in pending <==> l < i
    {
      var c := CallFunctor(rows, i, Nowhere, none);
      counts[i] := c;
      pending := pending + {i};
    }
    assert counts[..] == Lengths(rows);
    var total: nat;
    rowMap, total := RowMapFromCounts(counts[..], cuts);
    entries := new nat[total](_ => 0);
    while pending != {}
      invariant forall i :: i in pending ==> i < |rows|
      invariant forall p :: 0 <= p < rowMap.Length ==> rowMap[p] == SumUpTo(Lengths(rows), p)
      invariant forall i, k :: 0 <= i < |rows| && i !in pending && 0 <= k < |rows[i]| ==>
        Placed(rows, rowMap[..], entries[..], i, k)
    {
      var i :| i in pending;
      RowsApart(rows, i, |rows|);
      var fill := if rowMap[i] == entries.Length then Nowhere else At(rowMap[i]);
      ghost var before := entries[..];
      var c := CallFunctor(rows, i, fill, entries);
      pending := pending - {i};
      forall j, k | 0 <= j < |rows| && j !in pending && 0 <= k < |rows[j]|
        ensures Placed(rows, rowMap[..], entries[..], j, k)
      {
        if j != i {
          assert Placed(rows, rowMap[..], before, j, k);
          if j < i { RowsApart(rows, j, i); } else { RowsApart(rows, i, j); }
        }
      }
    }
  }
}
