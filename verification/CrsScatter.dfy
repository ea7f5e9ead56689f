/** The scatter pass of transpose_crs: one thread a row, tickets drawn with atomic fetch-and-add. */
module CrsScatter {
  import opened CrsGraph

  /** The thread of one row: how many of its entries have drawn a ticket, and the ticket not yet used. */
  datatype Ticket = NoTicket | Ticket(k: nat)
  datatype RowThread = RowThread(taken: nat, ticket: Ticket)

  /**
   Shared memory of the scatter.  writes counts the stores to each output position and issued lists,
   for each transposed row, the rows that drew its tickets; neither is read by any step.
   */
  datatype Fill = Fill(rows: seq<RowThread>, counters: seq<nat>, out: seq<nat>, writes: seq<nat>, issued: seq<seq<nat>>)

  /** Counters start at zero; what the output holds before the scatter does not matter. */
  function InitFill(g: Crs, out: seq<nat>): (s: Fill)
    requires g.NumRows() <= |g.rowMap| && |out| == |g.entries|
    ensures |s.rows| == |s.counters| == |s.issued| == g.NumRows() && s.out == out && |s.writes| == |g.entries|
    ensures forall i :: 0 <= i < g.NumRows() ==> s.rows[i] == RowThread(g.rowMap[i], NoTicket)
    ensures forall v :: 0 <= v < g.NumRows() ==> s.counters[v] == 0 && s.issued[v] == []
    ensures forall p :: 0 <= p < |g.entries| ==> s.writes[p] == 0
  {
    Fill(seq(g.NumRows(), i requires 0 <= i < g.NumRows() => RowThread(g.rowMap[i], NoTicket)),
         seq(g.NumRows(), _ => 0), out, seq(|g.entries|, _ => 0), seq(g.NumRows(), _ => []))
  }

  /** What row i's thread must be able to index. */
  ghost predicate CanStep(g: Crs, tm: seq<nat>, s: Fill, i: nat) {
    && i < |s.rows| && i + 1 < |g.rowMap| && |s.writes| == |s.out| && |s.issued| == |s.counters| <= |tm|
    && var r := s.rows[i];
       if r.ticket.NoTicket? then
         r.taken < g.rowMap[i + 1] ==> r.taken < |g.entries| && g.entries[r.taken] < |s.counters|
       else
         0 < r.taken <= |g.entries| && g.entries[r.taken - 1] < |tm| &&
           tm[g.entries[r.taken - 1]] + r.ticket.k < |s.out|
  }

  /** One atomic step of row i: draw a ticket for the next entry, or store the row number in its slot. */
  ghost function Step(g: Crs, tm: seq<nat>, s: Fill, i: nat): Fill
    requires CanStep(g, tm, s, i)
  {
    if s.rows[i].ticket.Ticket? then Store(g, tm, s, i)
    else if s.rows[i].taken < g.rowMap[i + 1] then Draw(g, s, i)
    else s
  }

  ghost function Draw(g: Crs, s: Fill, i: nat): Fill
    requires i < |s.rows| && s.rows[i].taken < |g.entries| && g.entries[s.rows[i].taken] < |s.counters| == |s.issued|
  {
    var ti := g.entries[s.rows[i].taken];
    Fill(s.rows[i := RowThread(s.rows[i].taken + 1, Ticket(s.counters[ti]))],
         s.counters[ti := s.counters[ti] + 1], s.out, s.writes, s.issued[ti := s.issued[ti] + [i]])
  }

  ghost function Store(g: Crs, tm: seq<nat>, s: Fill, i: nat): Fill
    requires i < |s.rows| && |s.writes| == |s.out| && s.rows[i].ticket.Ticket? && 0 < s.rows[i].taken <= |g.entries|
    requires g.entries[s.rows[i].taken - 1] < |tm|
    requires tm[g.entries[s.rows[i].taken - 1]] + s.rows[i].ticket.k < |s.out|
  {
    var pos := tm[g.entries[s.rows[i].taken - 1]] + s.rows[i].ticket.k;
    Fill(s.rows[i := RowThread(s.rows[i].taken, NoTicket)], s.counters,
         s.out[pos := i], s.writes[pos := s.writes[pos] + 1], s.issued)
  }

  // ---------------------------------------------------------------- the invariant

  function Taken(s: Fill): (at: seq<nat>)
    ensures |at| == |s.rows| && forall i :: 0 <= i < |s.rows| ==> at[i] == s.rows[i].taken
  {
    seq(|s.rows|, i requires 0 <= i < |s.rows| => s.rows[i].taken)
  }

  ghost predicate Shape(g: Crs, tm: seq<nat>, s: Fill) {
    && g.WellFormed() && IsTransposeRowMap(g, tm) && |tm| == g.NumRows() + 1
    && |s.rows| == |s.counters| == |s.issued| == g.NumRows()
    && |s.out| == |s.writes| == |g.entries| == tm[g.NumRows()]
  }

  /** Row i is inside its entries, and any ticket it holds was issued to it. */
  ghost predicate RowOk(g: Crs, s: Fill, i: nat) {
    && i + 1 < |g.rowMap| && i < |s.rows| && |s.issued| == g.NumRows()
    && g.rowMap[i] <= s.rows[i].taken <= g.rowMap[i + 1] <= |g.entries|
    && (s.rows[i].ticket.Ticket? ==>
          && g.rowMap[i] < s.rows[i].taken
          && var v := g.entries[s.rows[i].taken - 1];
             v < |s.issued| && s.rows[i].ticket.k < |s.issued[v]| && s.issued[v][s.rows[i].ticket.k] == i)
  }

  /** Transposed row v has issued one ticket to row i for each occurrence of v row i has passed. */
  ghost predicate TicketsOk(g: Crs, s: Fill, i: nat, v: nat) {
    && i + 1 < |g.rowMap| && i < |s.rows| && v < |s.issued| && g.rowMap[i] <= s.rows[i].taken <= |g.entries|
    && multiset(s.issued[v])[i] == CountIn(g.entries, g.rowMap[i], s.rows[i].taken, v)
  }

  /** The tickets of transposed row v and the entries still to draw one make up all entries naming v. */
  ghost predicate CounterOk(g: Crs, s: Fill, v: nat) {
    && v < |s.counters| == |s.issued| && Positions(g, Taken(s), g.NumRows())
    && |s.issued[v]| == s.counters[v]
    && (forall k :: 0 <= k < |s.issued[v]| ==> s.issued[v][k] < |s.rows|)
    && s.counters[v] + CountFrom(g, Taken(s), g.NumRows(), v) == CountIn(g.entries, 0, |g.entries|, v)
  }

  /** Row i has drawn ticket k of transposed row v and not yet stored into its slot. */
  ghost predicate Waiting(g: Crs, s: Fill, i: nat, v: nat, k: nat) {
    && i < |s.rows| && s.rows[i].ticket == Ticket(k)
    && 0 < s.rows[i].taken <= |g.entries| && g.entries[s.rows[i].taken - 1] == v
  }

  /** Slot k of transposed row v: stored once if its ticket is out and used, untouched otherwise. */
  ghost predicate SlotOk(g: Crs, tm: seq<nat>, s: Fill, v: nat, k: nat) {
    && v < |tm| && v < |s.issued| && tm[v] + k < |s.out| == |s.writes|
    && if k < |s.issued[v]| && !Waiting(g, s, s.issued[v][k], v, k)
       then s.writes[tm[v] + k] == 1 && s.out[tm[v] + k] == s.issued[v][k]
       else s.writes[tm[v] + k] == 0
  }

  ghost predicate Inv(g: Crs, tm: seq<nat>, s: Fill) {
    && Shape(g, tm, s)
    && (forall i :: 0 <= i < g.NumRows() ==> RowOk(g, s, i))
    && (forall i, v :: 0 <= i < g.NumRows() && 0 <= v < g.NumRows() ==> TicketsOk(g, s, i, v))
    && (forall v :: 0 <= v < g.NumRows() ==> CounterOk(g, s, v))
    && (forall v, k :: 0 <= v < g.NumRows() && 0 <= k && tm[v] + k < tm[v + 1] ==> SlotOk(g, tm, s, v, k))
  }

  lemma InitRow(g: Crs, out: seq<nat>, i: nat, v: nat)
    requires g.WellFormed() && |out| == |g.entries| && i < g.NumRows() && v < g.NumRows()
    ensures RowOk(g, InitFill(g, out), i) && TicketsOk(g, InitFill(g, out), i, v)
  {
    hide InitFill;
  }

  lemma InitCounter(g: Crs, out: seq<nat>, v: nat)
    requires g.WellFormed() && |out| == |g.entries| && v < g.NumRows()
    ensures CounterOk(g, InitFill(g, out), v)
  {
    hide InitFill, CountIn;
    var s := InitFill(g, out);
    assert Positions(g, Taken(s), g.NumRows());
    CountFromStart(g, Taken(s), g.NumRows(), v);
  }

  lemma InitInv(g: Crs, tm: seq<nat>, out: seq<nat>)
    requires g.WellFormed() && IsTransposeRowMap(g, tm) && tm[g.NumRows()] == |g.entries| == |out|
    ensures Inv(g, tm, InitFill(g, out))
  {
    hide InitFill, CountIn, TicketsOk, CounterOk, RowOk, Crs.WellFormed;
    var s := InitFill(g, out);
    forall v | 0 <= v < g.NumRows() ensures CounterOk(g, s, v) { InitCounter(g, out, v); }
    forall i, v | 0 <= i < g.NumRows() && 0 <= v < g.NumRows() ensures TicketsOk(g, s, i, v) && RowOk(g, s, i) {
      InitRow(g, out, i, v);
    }
    forall i | 0 <= i < g.NumRows() ensures RowOk(g, s, i) { InitRow(g, out, i, i); }
    forall v, k | 0 <= v < g.NumRows() && 0 <= k && tm[v] + k < tm[v + 1] ensures SlotOk(g, tm, s, v, k) {
      RowMapMonotone(g, tm, v + 1, g.NumRows());
    }
  }

  // ---------------------------------------------------------------- drawing a ticket

  ghost predicate CanDraw(g: Crs, tm: seq<nat>, s: Fill, i: nat) {
    Inv(g, tm, s) && i < g.NumRows() && s.rows[i].ticket.NoTicket? && s.rows[i].taken < g.rowMap[i + 1] <= |g.entries|
    && g.entries[s.rows[i].taken] < g.NumRows()
  }

  lemma DrawCounters(g: Crs, tm: seq<nat>, s: Fill, i: nat, v: nat)
    requires CanDraw(g, tm, s, i) && v < g.NumRows()
    ensures CounterOk(g, Draw(g, s, i), v)
  {
    hide SlotOk, TicketsOk, Crs.WellFormed, IsTransposeRowMap;
    var s' := Draw(g, s, i);
    var ti, t := g.entries[s.rows[i].taken], s.rows[i].taken;
    assert RowOk(g, s, i) && CounterOk(g, s, v);
    CountFromUpdate(g, Taken(s), g.NumRows(), v, i, t + 1);
    assert Taken(s') == Taken(s)[i := t + 1];
    CountSplit(g.entries, t, t + 1, g.rowMap[i + 1], v);
    assert CountIn(g.entries, t, t + 1, v) == if v == ti then 1 else 0;
  }

  lemma DrawTickets(g: Crs, tm: seq<nat>, s: Fill, i: nat, j: nat, v: nat)
    requires CanDraw(g, tm, s, i) && v < g.NumRows() && j < g.NumRows()
    ensures TicketsOk(g, Draw(g, s, i), j, v)
  {
    hide SlotOk, CounterOk, Crs.WellFormed, IsTransposeRowMap;
    var s' := Draw(g, s, i);
    assert TicketsOk(g, s, j, v);
    assert multiset(s.issued[v] + [i]) == multiset(s.issued[v]) + multiset{i};
  }

  lemma DrawRows(g: Crs, tm: seq<nat>, s: Fill, i: nat, j: nat)
    requires CanDraw(g, tm, s, i) && j < g.NumRows()
    ensures RowOk(g, Draw(g, s, i), j)
  {
    hide SlotOk, TicketsOk, Crs.WellFormed, IsTransposeRowMap;
    assert RowOk(g, s, j) && RowOk(g, s, i) && CounterOk(g, s, g.entries[s.rows[i].taken]);
  }

  lemma DrawSlots(g: Crs, tm: seq<nat>, s: Fill, i: nat, v: nat, k: nat)
    requires CanDraw(g, tm, s, i) && v < g.NumRows() && tm[v] + k < tm[v + 1]
    ensures SlotOk(g, tm, Draw(g, s, i), v, k)
  {
    hide TicketsOk, Crs.WellFormed, IsTransposeRowMap;
    assert SlotOk(g, tm, s, v, k) && CounterOk(g, s, v);
  }

  lemma DrawKeepsInv(g: Crs, tm: seq<nat>, s: Fill, i: nat)
    requires CanDraw(g, tm, s, i)
    ensures Inv(g, tm, Draw(g, s, i))
  {
    hide SlotOk, TicketsOk, CounterOk, RowOk, Crs.WellFormed, IsTransposeRowMap;
    var s' := Draw(g, s, i);
    forall v | 0 <= v < g.NumRows() ensures CounterOk(g, s', v) { DrawCounters(g, tm, s, i, v); }
    forall j | 0 <= j < g.NumRows() ensures RowOk(g, s', j) { DrawRows(g, tm, s, i, j); }
    forall j, v | 0 <= j < g.NumRows() && 0 <= v < g.NumRows() ensures TicketsOk(g, s', j, v) {
      DrawTickets(g, tm, s, i, j, v);
    }
    forall v, k | 0 <= v < g.NumRows() && 0 <= k && tm[v] + k < tm[v + 1] ensures SlotOk(g, tm, s', v, k) {
      DrawSlots(g, tm, s, i, v, k);
    }
  }

  // ---------------------------------------------------------------- storing into the slot

  /** A ticket held by row i is one of the slots of its transposed row. */
  lemma TicketInRow(g: Crs, tm: seq<nat>, s: Fill, i: nat)
    requires Inv(g, tm, s) && i < g.NumRows() && s.rows[i].ticket.Ticket?
    ensures 0 < s.rows[i].taken <= |g.entries| && g.entries[s.rows[i].taken - 1] < g.NumRows()
    ensures tm[g.entries[s.rows[i].taken - 1]] + s.rows[i].ticket.k < |s.out| == |s.writes|
    ensures tm[g.entries[s.rows[i].taken - 1]] + s.rows[i].ticket.k < tm[g.entries[s.rows[i].taken - 1] + 1]
  {
    hide SlotOk, TicketsOk, Crs.WellFormed;
    assert RowOk(g, s, i);
    var v := g.entries[s.rows[i].taken - 1];
    assert CounterOk(g, s, v);
    RowMapMonotone(g, tm, v + 1, g.NumRows());
  }

  lemma StoreSlots(g: Crs, tm: seq<nat>, s: Fill, i: nat, w: nat, l: nat)
    requires Inv(g, tm, s) && i < g.NumRows() && s.rows[i].ticket.Ticket?
    requires 0 < s.rows[i].taken <= |g.entries| && g.entries[s.rows[i].taken - 1] < g.NumRows()
    requires tm[g.entries[s.rows[i].taken - 1]] + s.rows[i].ticket.k < |s.out| == |s.writes|
    requires tm[g.entries[s.rows[i].taken - 1]] + s.rows[i].ticket.k < tm[g.entries[s.rows[i].taken - 1] + 1]
    requires w < g.NumRows() && tm[w] + l < tm[w + 1]
    ensures SlotOk(g, tm, Store(g, tm, s, i), w, l)
  {
    hide TicketsOk, CounterOk, Crs.WellFormed, IsTransposeRowMap;
    var v, k := g.entries[s.rows[i].taken - 1], s.rows[i].ticket.k;
    SlotsDistinct(g, tm, v, k, w, l);
    assert RowOk(g, s, i) && SlotOk(g, tm, s, w, l);
  }

  lemma StoreKeepsInv(g: Crs, tm: seq<nat>, s: Fill, i: nat)
    requires Inv(g, tm, s) && i < g.NumRows() && s.rows[i].ticket.Ticket?
    requires 0 < s.rows[i].taken <= |g.entries| && g.entries[s.rows[i].taken - 1] < g.NumRows()
    requires tm[g.entries[s.rows[i].taken - 1]] + s.rows[i].ticket.k < |s.out| == |s.writes|
    ensures Inv(g, tm, Store(g, tm, s, i))
  {
    hide SlotOk, Crs.WellFormed, IsTransposeRowMap;
    TicketInRow(g, tm, s, i);
    var s' := Store(g, tm, s, i);
    assert Taken(s') == Taken(s);
    forall v | 0 <= v < g.NumRows() ensures CounterOk(g, s', v) { assert CounterOk(g, s, v); }
    forall j | 0 <= j < g.NumRows() ensures RowOk(g, s', j) { assert RowOk(g, s, j); }
    forall j, v | 0 <= j < g.NumRows() && 0 <= v < g.NumRows() ensures TicketsOk(g, s', j, v) {
      assert TicketsOk(g, s, j, v);
    }
    forall v, k | 0 <= v < g.NumRows() && 0 <= k && tm[v] + k < tm[v + 1] ensures SlotOk(g, tm, s', v, k) {
      StoreSlots(g, tm, s, i, v, k);
    }
  }

  // ---------------------------------------------------------------- every schedule

  lemma RowCanStep(g: Crs, tm: seq<nat>, s: Fill, i: nat)
    requires Inv(g, tm, s) && i < g.NumRows()
    ensures CanStep(g, tm, s, i)
    ensures s.rows[i].ticket.NoTicket? && s.rows[i].taken < g.rowMap[i + 1] ==> CanDraw(g, tm, s, i)
  {
    hide SlotOk, TicketsOk, CounterOk, IsTransposeRowMap;
    assert RowOk(g, s, i);
    if s.rows[i].ticket.Ticket? { TicketInRow(g, tm, s, i); }
  }

  lemma StepKeepsInv(g: Crs, tm: seq<nat>, s: Fill, i: nat)
    requires Inv(g, tm, s) && i < g.NumRows()
    ensures CanStep(g, tm, s, i) && Inv(g, tm, Step(g, tm, s, i))
  {
    hide Inv, Draw, Store;
    RowCanStep(g, tm, s, i);
    if s.rows[i].ticket.Ticket? {
      TicketInRow(g, tm, s, i);
      StoreKeepsInv(g, tm, s, i);
    } else if s.rows[i].taken < g.rowMap[i + 1] {
      DrawKeepsInv(g, tm, s, i);
    }
  }

  ghost predicate Ready(g: Crs, tm: seq<nat>) {
    g.WellFormed() && IsTransposeRowMap(g, tm) && tm[g.NumRows()] == |g.entries|
  }

  /** The state after the first n steps of a schedule; schedule[k] is the row that takes step k. */
  ghost function Run(g: Crs, tm: seq<nat>, out: seq<nat>, schedule: seq<nat>, n: nat): (s: Fill)
    requires Ready(g, tm) && |out| == |g.entries| && n <= |schedule| &&
      (forall k :: 0 <= k < n ==> schedule[k] < g.NumRows())
    ensures Inv(g, tm, s)
  {
    if n == 0 then InitInv(g, tm, out); InitFill(g, out)
    else
      var s := Run(g, tm, out, schedule, n - 1);
      StepKeepsInv(g, tm, s, schedule[n - 1]);
      Step(g, tm, s, schedule[n - 1])
  }

  ghost predicate Finished(g: Crs, s: Fill) {
    forall i :: 0 <= i < g.NumRows() && i < |s.rows| && i + 1 < |g.rowMap| ==>
      s.rows[i] == RowThread(g.rowMap[i + 1], NoTicket)
  }

  /** t holds in its row v each row i of g once for every time row i names v. */
  ghost predicate IsTranspose(g: Crs, t: Crs) {
    && g.WellFormed() && t.WellFormed() && IsTransposeRowMap(g, t.rowMap)
    && forall v, i :: 0 <= v < g.NumRows() && 0 <= i < g.NumRows() ==> t.Occurrences(v, i) == g.Occurrences(i, v)
  }

  lemma {:induction false} NothingLeft(g: Crs, at: seq<nat>, n: nat, v: nat)
    requires Positions(g, at, n) && forall i :: 0 <= i < n ==> at[i] == g.rowMap[i + 1]
    ensures CountFrom(g, at, n, v) == 0
  {
    if n == 0 {
    } else {
      NothingLeft(g, at, n - 1, v);
    }
  }

  /** Once every row is through, transposed row v is the list of rows that drew its tickets. */
  lemma FinishedRow(g: Crs, tm: seq<nat>, s: Fill, v: nat)
    requires Inv(g, tm, s) && Finished(g, s) && v < g.NumRows()
    ensures tm[v] <= tm[v + 1] <= |s.out| && s.out[tm[v]..tm[v + 1]] == s.issued[v]
    ensures forall p :: tm[v] <= p < tm[v + 1] ==> s.writes[p] == 1 && s.out[p] < g.NumRows()
  {
    hide TicketsOk;
    assert CounterOk(g, s, v);
    NothingLeft(g, Taken(s), g.NumRows(), v);
    RowMapMonotone(g, tm, v, v + 1);
    RowMapMonotone(g, tm, v + 1, g.NumRows());
    assert |s.issued[v]| == tm[v + 1] - tm[v];
    forall k | 0 <= k < |s.issued[v]|
      ensures s.writes[tm[v] + k] == 1 && s.out[tm[v] + k] == s.issued[v][k] < g.NumRows()
    {
      assert SlotOk(g, tm, s, v, k);
    }
    forall p | tm[v] <= p < tm[v + 1] ensures s.writes[p] == 1 && s.out[p] < g.NumRows() {
      assert SlotOk(g, tm, s, v, p - tm[v]);
    }
  }

  lemma {:induction false} RowOfPosition(g: Crs, tm: seq<nat>, n: nat, p: nat) returns (v: nat)
    requires g.WellFormed() && IsTransposeRowMap(g, tm) && n <= g.NumRows() && p < tm[n]
    ensures v < g.NumRows() && tm[v] <= p < tm[v + 1]
  {
    if tm[n - 1] <= p { v := n - 1; } else { v := RowOfPosition(g, tm, n - 1, p); }
  }

  /** Whatever the schedule, a finished scatter has stored every slot once and produced the transpose. */
  lemma FinishedIsTranspose(g: Crs, tm: seq<nat>, s: Fill)
    requires Inv(g, tm, s) && Finished(g, s)
    ensures IsTranspose(g, Crs(tm, s.out))
    ensures forall p :: 0 <= p < |s.writes| ==> s.writes[p] == 1
  {
    hide SlotOk, CounterOk, CountIn;
    var t := Crs(tm, s.out);
    assert Shape(g, tm, s);
    forall p | 0 <= p < |s.out| ensures s.writes[p] == 1 && s.out[p] < g.NumRows() {
      var v := RowOfPosition(g, tm, g.NumRows(), p);
      FinishedRow(g, tm, s, v);
    }
    forall v, w | 0 <= v <= w < |tm| ensures tm[v] <= tm[w] { RowMapMonotone(g, tm, v, w); }
    forall v, i | 0 <= v < g.NumRows() && 0 <= i < g.NumRows() ensures t.Occurrences(v, i) == g.Occurrences(i, v) {
      FinishedRow(g, tm, s, v);
      assert TicketsOk(g, s, i, v);
      CountIsMultiplicity(s.out, tm[v], tm[v + 1], i);
    }
  }

  /** Steps row i still has to take: two for each entry without a ticket, one for a ticket in hand. */
  ghost function Remaining(g: Crs, s: Fill, i: nat): int
    requires i < |s.rows| && i + 1 < |g.rowMap|
  {
    2 * (g.rowMap[i + 1] - s.rows[i].taken) + (if s.rows[i].ticket.Ticket? then 1 else 0)
  }

  lemma {:induction false} TurnsUsed(g: Crs, tm: seq<nat>, out: seq<nat>, schedule: seq<nat>, n: nat, i: nat)
    requires Ready(g, tm) && |out| == |g.entries| && n <= |schedule| && i < g.NumRows()
    requires forall k :: 0 <= k < |schedule| ==> schedule[k] < g.NumRows()
    ensures |Run(g, tm, out, schedule, n).rows| == g.NumRows() && Remaining(g, Run(g, tm, out, schedule, n), i) >= 0
    ensures CountIn(schedule, 0, n, i) < 2 * (g.rowMap[i + 1] - g.rowMap[i]) ==>
      Remaining(g, Run(g, tm, out, schedule, n), i) == 2 * (g.rowMap[i + 1] - g.rowMap[i]) - CountIn(schedule, 0, n, i)
    ensures CountIn(schedule, 0, n, i) >= 2 * (g.rowMap[i + 1] - g.rowMap[i]) ==>
      Remaining(g, Run(g, tm, out, schedule, n), i) == 0
  {
    hide SlotOk, TicketsOk, CounterOk, IsTransposeRowMap;
    var s := Run(g, tm, out, schedule, n);
    assert Shape(g, tm, s) && RowOk(g, s, i);
    if n == 0 {
    } else {
      TurnsUsed(g, tm, out, schedule, n - 1, i);
      var before := Run(g, tm, out, schedule, n - 1);
      assert RowOk(g, before, i);
    }
  }

  /** Every schedule that gives each row two turns for each of its entries ends with the transpose. */
  lemma EveryScheduleTransposes(g: Crs, tm: seq<nat>, out: seq<nat>, schedule: seq<nat>)
    requires Ready(g, tm) && |out| == |g.entries| && forall k :: 0 <= k < |schedule| ==> schedule[k] < g.NumRows()
    requires forall i :: 0 <= i < g.NumRows() ==>
      CountIn(schedule, 0, |schedule|, i) >= 2 * (g.rowMap[i + 1] - g.rowMap[i])
    ensures var s := Run(g, tm, out, schedule, |schedule|);
      IsTranspose(g, Crs(tm, s.out)) && forall p :: 0 <= p < |s.writes| ==> s.writes[p] == 1
  {
    hide Inv, IsTranspose, CountIn, Run;
    var s := Run(g, tm, out, schedule, |schedule|);
    forall i | 0 <= i < g.NumRows() ensures i < |s.rows| && s.rows[i] == RowThread(g.rowMap[i + 1], NoTicket) {
      TurnsUsed(g, tm, out, schedule, |schedule|, i);
      assert s.rows[i].ticket.NoTicket?;
    }
    FinishedIsTranspose(g, tm, s);
  }
}
