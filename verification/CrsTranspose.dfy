/** The three passes of transpose_crs together: any counting order, any cutting of the scan, any scatter schedule. */
module CrsTranspose {
  import opened CrsGraph
  import opened Sums
  import opened CrsCounting
  import opened CrsScan
  import opened CrsScatter

  /** The row map scanned from exact counts is the transpose's. */
  lemma {:induction false} ScannedRowMap(g: Crs, counts: seq<nat>, tm: seq<nat>)
    requires g.WellFormed() && |counts| == g.NumRows() && |tm| == |counts| + 1
    requires forall v :: 0 <= v < |counts| ==> counts[v] == CountIn(g.entries, 0, |g.entries|, v)
    requires forall p :: 0 <= p < |tm| ==> tm[p] == SumUpTo(counts, p)
    ensures Ready(g, tm)
  {
    forall v | 0 <= v < g.NumRows() ensures tm[v + 1] == tm[v] + CountIn(g.entries, 0, |g.entries|, v) {
      assert tm[v + 1] == SumUpTo(counts, v + 1);
    }
    RowMapEnd(g, tm);
  }

  /** Enough turns for every row to draw and store all its tickets. */
  ghost predicate GivesEnoughTurns(g: Crs, schedule: seq<nat>)
    requires g.WellFormed()
  {
    && (forall k :: 0 <= k < |schedule| ==> schedule[k] < g.NumRows())
    && (forall i :: 0 <= i < g.NumRows() ==>
          CountIn(schedule, 0, |schedule|, i) >= 2 * (g.rowMap[i + 1] - g.rowMap[i]))
  }

  /**
   Whatever order the increments happen in, the prefix sums of the counts they leave make every
   schedule of the scatter with enough turns end with the transpose, each slot stored once.
   */
  lemma AnySchedulesTranspose(g: Crs, order: seq<nat>, tm: seq<nat>, out: seq<nat>, schedule: seq<nat>)
    requires g.WellFormed() && IsSchedule(order, |g.entries|) && GivesEnoughTurns(g, schedule)
    requires |tm| == g.NumRows() + 1 && |out| == |g.entries|
    requires forall p :: 0 <= p < |tm| ==> tm[p] == SumUpTo(CountRun(g, order, |order|).counts, p)
    ensures Ready(g, tm)
    ensures IsTranspose(g, Crs(tm, Run(g, tm, out, schedule, |schedule|).out))
    ensures forall p :: 0 <= p < |g.entries| ==>
      |Run(g, tm, out, schedule, |schedule|).writes| == |g.entries| &&
        Run(g, tm, out, schedule, |schedule|).writes[p] == 1
  {
    hide CountRun, SumUpTo, CountIn, Run, IsTranspose, IsTransposeRowMap;
    var counts := CountRun(g, order, |order|).counts;
    forall v | 0 <= v < |counts| ensures counts[v] == CountIn(g.entries, 0, |g.entries|, v) {
      CountsAreExact(g, order, v);
    }
    ScannedRowMap(g, counts, tm);
    EveryScheduleTransposes(g, tm, out, schedule);
    assert |Run(g, tm, out, schedule, |schedule|).writes| == |g.entries| by { RunShape(g, tm, out, schedule); }
  }

  lemma RunShape(g: Crs, tm: seq<nat>, out: seq<nat>, schedule: seq<nat>)
    requires g.WellFormed() && Ready(g, tm) && |out| == |g.entries|
    requires forall k :: 0 <= k < |schedule| ==> schedule[k] < g.NumRows()
    ensures |Run(g, tm, out, schedule, |schedule|).writes| == |g.entries|
  {
    hide Run, IsTransposeRowMap, Crs.WellFormed;
  }

  /**
   transpose_crs with the counting order, the cutting of the scan and the scatter schedule all left
   to the machine; out is whatever the new entries held before.
   */
  method TransposeInParallel(g: Crs, order: seq<nat>, cuts: seq<nat>, ghost out: seq<nat>, ghost schedule: seq<nat>)
    returns (rowMap: array<nat>, ghost s: Fill)
    requires g.WellFormed() && IsSchedule(order, |g.entries|) && IsChunking(cuts, g.NumRows() + 1)
    requires |out| == |g.entries| && GivesEnoughTurns(g, schedule)
    ensures Ready(g, rowMap[..]) && s == Run(g, rowMap[..], out, schedule, |schedule|)
    ensures IsTranspose(g, Crs(rowMap[..], s.out))
  {
    hide CountRun, SumUpTo, CountIn, Run, IsTranspose, Ready;
    var counts := CountRun(g, order, |order|).counts;
    var total: nat;
    rowMap, total := RowMapFromCounts(counts, cuts);
    AnySchedulesTranspose(g, order, rowMap[..], out, schedule);
    s := Run(g, rowMap[..], out, schedule, |schedule|);
  }
}
