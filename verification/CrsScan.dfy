/** The row-map scan of core/src/Kokkos_Crs.hpp as a two-pass scan over any consecutive chunks. */
module CrsScan {
  import opened Arith
  import opened CrsGraph
  import opened Sums

  /** One call of the scan functor without final_pass, for every index of a chunk, from init. */
  method PartialPass(counts: seq<nat>, lo: nat, hi: nat) returns (update: nat)
    requires lo <= hi <= |counts| + 1
    ensures SumUpTo(counts, Min(lo, |counts|)) + update == SumUpTo(counts, Min(hi, |counts|))
  {
    update := 0;
    for i := lo to hi
      invariant SumUpTo(counts, Min(lo, |counts|)) + update == SumUpTo(counts, Min(i, |counts|))
    {
      if i < |counts| { update := update + counts[i]; }
    }
  }

  /** The index of the scan that stores row-map entry p: the extra last index stores entry 0. */
  function Writer(n: nat, p: nat): nat { if p == 0 then n else p - 1 }

  /** The same calls with final_pass, starting from what the chunks before have summed to. */
  method FinalPass(counts: seq<nat>, lo: nat, hi: nat, start: nat, out: array<nat>, lastBefore: nat)
    returns (last: nat)
    requires lo <= hi <= |counts| + 1 && out.Length == |counts| + 1
    requires start == SumUpTo(counts, Min(lo, |counts|))
    modifies out
    ensures forall p :: 0 <= p < out.Length ==>
      out[p] == if lo <= Writer(|counts|, p) < hi then SumUpTo(counts, p) else old(out[p])
    ensures last == if lo <= |counts| < hi then SumUpTo(counts, |counts|) else lastBefore
  {
    var update := start;
    last := lastBefore;
    for i := lo to hi
      invariant update == SumUpTo(counts, Min(i, |counts|))
      invariant forall p :: 0 <= p < out.Length ==>
        out[p] == if lo <= Writer(|counts|, p) < i then SumUpTo(counts, p) else old(out[p])
      invariant last == if lo <= |counts| < i then SumUpTo(counts, |counts|) else lastBefore
    {
      if i < |counts| {
        update := update + counts[i];
        out[i + 1] := update;
      } else {
        out[0] := 0;
        last := update;
      }
    }
  }

  /** Chunk j is [cuts[j], cuts[j + 1]); the chunks follow one another and cover [0, n). */
  ghost predicate IsChunking(cuts: seq<nat>, n: nat) {
    && |cuts| >= 2 && cuts[0] == 0 && cuts[|cuts| - 1] == n
    && forall j, k :: 0 <= j <= k < |cuts| ==> cuts[j] <= cuts[k]
  }

  ghost predicate InChunk(cuts: seq<nat>, j: nat, i: nat) {
    j + 1 < |cuts| && cuts[j] <= i < cuts[j + 1]
  }

  lemma {:induction false} ChunkOf(cuts: seq<nat>, m: nat, i: nat) returns (j: nat)
    requires 0 < m < |cuts| && cuts[0] <= i < cuts[m]
    ensures j < m && InChunk(cuts, j, i)
  {
    if cuts[m - 1] <= i { j := m - 1; } else { j := ChunkOf(cuts, m - 1, i); }
  }

  /**
   CrsRowMapFromCounts::execute: whatever the chunks and whatever order they finish in, the row map
   holds every prefix sum and the returned value is the total.
   */
  method RowMapFromCounts(counts: seq<nat>, cuts: seq<nat>) returns (out: array<nat>, last: nat)
    requires IsChunking(cuts, |counts| + 1)
    ensures fresh(out) && out.Length == |counts| + 1
    ensures forall p :: 0 <= p < out.Length ==> out[p] == SumUpTo(counts, p)
    ensures last == SumUpTo(counts, |counts|)
  {
    var n := |counts|;
    out := new nat[n + 1];
    last := 0;
    var offsets: seq<nat> := [0];
    var pending: set<nat> := {};
    for j := 0 to |cuts| - 1
      invariant |offsets| == j + 1
      invariant forall l :: l in pending ==> l < |cuts| - 1
      invariant forall l :: 0 <= l < j ==> l in pending
      invariant forall l :: 0 <= l <= j ==> offsets[l] == SumUpTo(counts, Min(cuts[l], n))
    {
      var partial := PartialPass(counts, cuts[j], cuts[j + 1]);
      offsets := offsets + [offsets[j] + partial];
      pending := pending + {j};
    }
    while pending != {}
      invariant forall j :: j in pending ==> j < |cuts| - 1
      invariant forall p, j :: 0 <= p <= n && InChunk(cuts, j, Writer(n, p)) && j !in pending ==>
        out[p] == SumUpTo(counts, p)
      invariant forall j :: InChunk(cuts, j, n) && j !in pending ==> last == SumUpTo(counts, n)
    {
      var j :| j in pending;
      last := FinalPass(counts, cuts[j], cuts[j + 1], offsets[j], out, last);
      pending := pending - {j};
    }
    forall p | 0 <= p <= n ensures out[p] == SumUpTo(counts, p) {
      var j := ChunkOf(cuts, |cuts| - 1, Writer(n, p));
      assert InChunk(cuts, j, Writer(n, p)) && j !in pending;
    }
    var j := ChunkOf(cuts, |cuts| - 1, n);
  }
}
