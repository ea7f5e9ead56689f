/**
 The counting pass of transpose_crs: every schedule of its atomic increments leaves the same counts,
 and the row map built from them ends at the number of entries.
 */
module CrsCounting {
  import opened CrsGraph
  import opened Sums

  // ---------------------------------------------------------------- GetCrsTransposeCounts

  /** counts after the increments for the entries in done have happened, in whatever order. */
  datatype CountState = CountState(counts: seq<nat>, done: set<nat>)

  /** atomic_increment(&out[in.entries(e)]) by the iteration for entry e. */
  function Increment(g: Crs, s: CountState, e: nat): CountState
    requires e < |g.entries| && g.entries[e] < |s.counts|
  {
    CountState(s.counts[g.entries[e] := s.counts[g.entries[e]] + 1], s.done + {e})
  }

  function Named(g: Crs, done: set<nat>, v: nat): set<nat> {
    set e | e in done && e < |g.entries| && g.entries[e] == v
  }

  lemma NamedAdd(g: Crs, done: set<nat>, e: nat, v: nat)
    requires e < |g.entries| && e !in done
    ensures |Named(g, done + {e}, v)| == |Named(g, done, v)| + (if g.entries[e] == v then 1 else 0)
  {
    var was, now := Named(g, done, v), Named(g, done + {e}, v);
    if g.entries[e] == v {
      assert now == was + {e} && e !in was;
    } else {
      assert now == was;
    }
  }

  /** The state after the first n iterations of a schedule; each entry has one iteration. */
  function CountRun(g: Crs, order: seq<nat>, n: nat): (s: CountState)
    requires n <= |order| && (forall k :: 0 <= k < |order| ==> order[k] < |g.entries|)
    requires (forall e :: 0 <= e < |g.entries| ==> g.entries[e] < g.NumRows())
    ensures |s.counts| == g.NumRows()
  {
    if n == 0 then CountState(seq(g.NumRows(), _ => 0), {})
    else Increment(g, CountRun(g, order, n - 1), order[n - 1])
  }

  /** A schedule of a parallel loop over n iterations runs each of them once. */
  ghost predicate IsSchedule(order: seq<nat>, n: nat) {
    && (forall k :: 0 <= k < |order| ==> order[k] < n)
    && (forall k, l :: 0 <= k < l < |order| ==> order[k] != order[l])
    && (forall e :: 0 <= e < n ==> e in order)
  }

  lemma {:induction false} DoneIsPrefix(g: Crs, order: seq<nat>, n: nat, e: nat)
    requires g.WellFormed() && IsSchedule(order, |g.entries|) && n <= |order|
    ensures e in CountRun(g, order, n).done <==> e in order[..n]
  {
    if n == 0 {
    } else {
      DoneIsPrefix(g, order, n - 1, e);
      assert order[..n] == order[..n - 1] + [order[n - 1]];
    }
  }

  lemma {:induction false} CountRunInvariant(g: Crs, order: seq<nat>, n: nat, v: nat)
    requires g.WellFormed() && IsSchedule(order, |g.entries|) && n <= |order| && v < g.NumRows()
    ensures CountRun(g, order, n).counts[v] == |Named(g, CountRun(g, order, n).done, v)|
  {
    if n == 0 {
    } else {
      CountRunInvariant(g, order, n - 1, v);
      var s, e := CountRun(g, order, n - 1), order[n - 1];
      DoneIsPrefix(g, order, n - 1, e);
      assert e !in s.done;
      NamedAdd(g, s.done, e, v);
    }
  }

  lemma NamedNone(g: Crs, v: nat)
    ensures Named(g, Indices(0), v) == {}
  {}

  lemma {:induction false} NamedBelow(g: Crs, n: nat, v: nat)
    requires n <= |g.entries|
    ensures |Named(g, Indices(n), v)| == CountIn(g.entries, 0, n, v)
  {
    hide Named;
    if n == 0 {
      assert Named(g, Indices(n), v) == {} by { NamedNone(g, v); }
    } else {
      NamedBelow(g, n - 1, v);
      NamedAdd(g, Indices(n - 1), n - 1, v);
      assert Indices(n) == Indices(n - 1) + {n - 1};
    }
  }

  /** Whatever the schedule of the increments, counts[v] is the number of entries that name v. */
  lemma CountsAreExact(g: Crs, order: seq<nat>, v: nat)
    requires g.WellFormed() && IsSchedule(order, |g.entries|) && v < g.NumRows()
    ensures CountRun(g, order, |order|).counts[v] == CountIn(g.entries, 0, |g.entries|, v)
  {
    CountRunInvariant(g, order, |order|, v);
    NamedBelow(g, |g.entries|, v);
    var done, all := CountRun(g, order, |order|).done, Indices(|g.entries|);
    forall e: nat ensures e in done <==> e in all {
      DoneIsPrefix(g, order, |order|, e);
      assert order[..|order|] == order;
    }
    assert done == all;
  }

  // ---------------------------------------------------------------- the row map's last entry

  function CountBelow(s: seq<nat>, n: nat, v: nat): (c: nat)
    requires n <= |s|
  {
    if n == 0 then 0 else CountBelow(s, n - 1, v) + (if s[n - 1] < v then 1 else 0)
  }

  lemma {:induction false} CountBelowNext(s: seq<nat>, n: nat, v: nat)
    requires n <= |s|
    ensures CountBelow(s, n, v + 1) == CountBelow(s, n, v) + CountIn(s, 0, n, v)
    ensures CountBelow(s, n, 0) == 0
  {
    if n == 0 {
    } else {
      CountBelowNext(s, n - 1, v);
    }
  }

  lemma {:induction false} CountBelowAll(s: seq<nat>, n: nat, v: nat)
    requires n <= |s| && forall e :: 0 <= e < n ==> s[e] < v
    ensures CountBelow(s, n, v) == n
  {
    if n == 0 {
    } else {
      CountBelowAll(s, n - 1, v);
    }
  }

  lemma {:induction false} RowMapCountsBelow(g: Crs, tm: seq<nat>, v: nat)
    requires g.WellFormed() && IsTransposeRowMap(g, tm) && v <= g.NumRows()
    ensures tm[v] == CountBelow(g.entries, |g.entries|, v)
  {
    if v > 0 {
      RowMapCountsBelow(g, tm, v - 1);
      CountBelowNext(g.entries, |g.entries|, v - 1);
      assert tm[v - 1 + 1] == tm[v - 1] + CountIn(g.entries, 0, |g.entries|, v - 1);
    } else {
      CountBelowNext(g.entries, |g.entries|, 0);
    }
  }

  /** The transposed row map ends at the number of entries, so the scatter fills its output exactly. */
  lemma RowMapEnd(g: Crs, tm: seq<nat>)
    requires g.WellFormed() && IsTransposeRowMap(g, tm)
    ensures tm[g.NumRows()] == |g.entries|
  {
    RowMapCountsBelow(g, tm, g.NumRows());
    CountBelowAll(g.entries, |g.entries|, g.NumRows());
  }
}
