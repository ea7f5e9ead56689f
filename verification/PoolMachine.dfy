/**
 The memory pool as a state machine.  Every thread runs allocate, deallocate and the
 concurrent_bitset operations they call; each step makes at most one access to shared memory,
 so a behaviour is an arbitrary interleaving of those accesses.
 */
module PoolMachine {
  import opened Powers
  import opened PoolGeometry

  /** The state word of a superblock and the set of block bits that are one. */
  datatype Superblock = Superblock(word: nat, bits: set<nat>) {
    function Lg2(): nat { HeaderLg2(word) }
  }

  /** A granted block, with the request it serves and the block count of its superblock when granted. */
  datatype Block = Block(sb: nat, bit: nat, lg2: nat, size: nat)

  /** What stays fixed during one call of allocate: size, clock register and the wanted block count. */
  datatype Request = Request(size: nat, lg2: nat, clock: nat)

  /** The program points of a thread, with the locals that are live there. */
  datatype Thread =
    | Idle
    | Aborted(erroneousPointer: bool)
    | Top(req: Request, attempts: int, sb: int, want: nat)
    | Probe(req: Request, attempts: int, hint: int, id: nat, want: nat)
    | Claim(req: Request, attempts: int, hint: int, id: nat, want: nat)
    | Unclaim(req: Request, attempts: int, hint: int, id: nat)
    | SetBit(req: Request, id: nat, want: nat, bit: nat)
    | Scan(req: Request, attempts: int, hint: int, i: nat, id: nat, empty: int, large: int, largeLg2: nat)
    | ReadEmpty(req: Request, attempts: int, hint: int, id: nat)
    | Reassign(req: Request, attempts: int, hint: int, id: nat, seen: nat)
    | PostHint(req: Request, attempts: int, hint: int, id: nat)
    | FreeRead(address: nat, block: Block)
    | FreeCheck(id: nat, bit: nat, lg2: nat, block: Block)
    | FreeBit(id: nat, bit: nat, block: Block)
    | FreeCount(id: nat)
  {
    /** The thread has added one to the used count of superblock i and has not yet taken it back. */
    predicate Counts(i: nat) {
      (Unclaim? || SetBit? || FreeCount?) && id == i
    }

    /** The thread is entitled to a block of superblock i and is looking for its bit. */
    predicate Claims(i: nat) { SetBit? && id == i }

    /** The thread is giving its block back and has not cleared the bit yet. */
    predicate Frees() { FreeRead? || FreeCheck? || FreeBit? }
  }

  /**
   held is the set of blocks that callers own.  live adds the blocks whose release has begun
   but whose bit is still set; no step reads it.
   */
  datatype State = State(sbs: seq<Superblock>, hints: seq<nat>, threads: seq<Thread>, held: set<Block>,
                         live: set<Block>) {
    function Goto(t: nat, th: Thread): State
      requires t < |threads|
    { this.(threads := threads[t := th]) }

    function Write(i: nat, sb: Superblock): State
      requires i < |sbs|
    { this.(sbs := sbs[i := sb]) }
  }

  /** What an idle thread does next. */
  datatype Command = Allocate(size: nat, attempts: int, clock: nat) | Deallocate(block: Block) | Skip

  /** The state that the constructor leaves: empty superblocks, divided among the block sizes. */
  function InitialSuperblock(p: Pool, j: nat): Superblock
    requires p.Valid() && j < p.sbCount
  {
    Superblock(p.InitialWord(j), {})
  }

  function Init(p: Pool, threads: nat): State
    requires p.Valid()
  {
    State(seq(p.sbCount, j requires 0 <= j < p.sbCount => InitialSuperblock(p, j)),
          seq(p.Sizes(), i requires 0 <= i < p.Sizes() => p.FirstSuperblock(i)),
          seq(threads, _ => Idle), {}, {})
  }

  function HintIndex(p: Pool, req: Request): int { p.sbLg2 - req.lg2 - p.minLg2 }

  /** The search begins at a fixed superblock for each block size. */
  function BeginScan(p: Pool, req: Request, attempts: int, hint: int): Thread
    requires p.Valid() && 0 <= HintIndex(p, req)
  {
    Scan(req, attempts, hint, 0, p.FirstSuperblock(HintIndex(p, req)), -1, -1, 0)
  }

  function StepIdle(p: Pool, s: State, t: nat, cmd: Command): State
    requires p.Valid() && t < |s.threads| && (cmd.Deallocate? ==> cmd.block.lg2 <= p.sbLg2)
  {
    match cmd
    case Skip => s
    case Allocate(size, attempts, clock) =>
      if Pow2(p.maxLg2) < size then s.Goto(t, Aborted(false))
      else if size == 0 then s
      else
        RequestFits(p, size);
        var lg2 := p.sbLg2 - p.BlockSizeLg2(size);
        s.Goto(t, Top(Request(size, lg2, clock), attempts, -1, lg2))
    case Deallocate(block) =>
      s.(held := s.held - {block}).Goto(t, FreeRead(p.Address(block.sb, block.bit, block.lg2), block))
  }

  /** Top of the attempt loop: stop, read the hint, or go on with the superblock found before. */
  function StepTop(p: Pool, s: State, t: nat): State
    requires t < |s.threads| && s.threads[t].Top?
    requires 0 <= HintIndex(p, s.threads[t].req) < |s.hints|
  {
    var Top(req, attempts, sb, want) := s.threads[t];
    if attempts == 0 then s.Goto(t, Idle)
    else if sb < 0 then
      var h := s.hints[HintIndex(p, req)];
      s.Goto(t, Probe(req, attempts, h, h, want))
    else s.Goto(t, Probe(req, attempts, -1, sb, want))
  }

  function StepProbe(p: Pool, s: State, t: nat): State
    requires p.Valid() && t < |s.threads| && s.threads[t].Probe? && s.threads[t].id < |s.sbs|
    requires 0 <= HintIndex(p, s.threads[t].req)
  {
    var Probe(req, attempts, hint, id, want) := s.threads[t];
    if s.sbs[id].Lg2() == want then s.Goto(t, Claim(req, attempts, hint, id, want))
    else s.Goto(t, BeginScan(p, req, attempts, hint))
  }

  /** acquire_bounded_lg2 up to its first atomic add, which counts the caller before any check. */
  function StepClaim(p: Pool, s: State, t: nat): State
    requires p.Valid() && t < |s.threads| && s.threads[t].Claim? && s.threads[t].id < |s.sbs|
    requires 0 <= HintIndex(p, s.threads[t].req)
  {
    var Claim(req, attempts, hint, id, want) := s.threads[t];
    var bit := req.clock % Pow2(want);
    if MAX_BIT_COUNT_LG2 < want || Pow2(want) < bit then s.Goto(t, BeginScan(p, req, attempts, hint))
    else
      var was := s.sbs[id];
      var s1 := s.Write(id, was.(word := FetchAdd(was.word, 1)));
      if was.Lg2() != want || Pow2(want) <= Used(was.word)
      then s1.Goto(t, Unclaim(req, attempts, hint, id))
      else s1.Goto(t, SetBit(req, id, want, bit))
  }

  function StepUnclaim(p: Pool, s: State, t: nat): State
    requires p.Valid() && t < |s.threads| && s.threads[t].Unclaim? && s.threads[t].id < |s.sbs|
    requires 0 <= HintIndex(p, s.threads[t].req)
  {
    var Unclaim(req, attempts, hint, id) := s.threads[t];
    var was := s.sbs[id];
    s.Write(id, was.(word := FetchAdd(was.word, -1))).Goto(t, BeginScan(p, req, attempts, hint))
  }

  /** One atomic_fetch_or of the claimant's search; success returns the block to the caller. */
  function StepSetBit(s: State, t: nat): State
    requires t < |s.threads| && s.threads[t].SetBit? && s.threads[t].id < |s.sbs|
  {
    var SetBit(req, id, want, bit) := s.threads[t];
    var was := s.sbs[id];
    if bit !in was.bits then
      var b := Block(id, bit, want, req.size);
      s.Write(id, was.(bits := was.bits + {bit})).(held := s.held + {b}, live := s.live + {b}).Goto(t, Idle)
    else
      s.Goto(t, SetBit(req, id, want, NextBit(was.bits, bit, want)))
  }

  /** One superblock of the search, or the decision after the last one. */
  function StepScan(p: Pool, s: State, t: nat): State
    requires t < |s.threads| && s.threads[t].Scan?
    requires s.threads[t].id < |s.sbs| && s.threads[t].attempts != 0
  {
    var Scan(req, attempts, hint, i, id, empty, large, largeLg2) := s.threads[t];
    if i < p.sbCount then
      var used, lg2 := Used(s.sbs[id].word), s.sbs[id].Lg2();
      var next := if id + 1 < p.sbCount then id + 1 else 0;
      if lg2 == req.lg2 && used < Pow2(req.lg2) then
        s.Goto(t, if used + 1 < Pow2(req.lg2) then PostHint(req, attempts, hint, id)
                  else Top(req, attempts, id, req.lg2))
      else if lg2 == req.lg2 then
        s.Goto(t, Scan(req, attempts, hint, i + 1, next, empty, large, largeLg2))
      else if used == 0 then
        s.Goto(t, Scan(req, attempts, hint, i + 1, next, if empty == -1 then id else empty, large, largeLg2))
      else if empty == -1 && large == -1 && lg2 < req.lg2 && used < Pow2(lg2) then
        s.Goto(t, Scan(req, attempts, hint, i + 1, next, empty, id, lg2))
      else
        s.Goto(t, Scan(req, attempts, hint, i + 1, next, empty, large, largeLg2))
    else if 0 <= empty then s.Goto(t, ReadEmpty(req, attempts, hint, empty))
    else if 0 <= large then s.Goto(t, Top(req, attempts, large, largeLg2))
    else s.Goto(t, Top(req, attempts - 1, -1, req.lg2))
  }

  function StepReadEmpty(s: State, t: nat): State
    requires t < |s.threads| && s.threads[t].ReadEmpty? && s.threads[t].id < |s.sbs|
  {
    var ReadEmpty(req, attempts, hint, id) := s.threads[t];
    s.Goto(t, Reassign(req, attempts, hint, id, s.sbs[id].Lg2()))
  }

  /** Compare-exchange of the whole state word: it succeeds only while the used count is zero. */
  function StepReassign(s: State, t: nat): State
    requires t < |s.threads| && s.threads[t].Reassign? && s.threads[t].id < |s.sbs|
  {
    var Reassign(req, attempts, hint, id, seen) := s.threads[t];
    var was := s.sbs[id];
    if was.word == EmptyWord(seen)
    then s.Write(id, was.(word := EmptyWord(req.lg2))).Goto(t, PostHint(req, attempts, hint, id))
    else s.Goto(t, Top(req, attempts, id, req.lg2))
  }

  function StepPostHint(p: Pool, s: State, t: nat): State
    requires t < |s.threads| && s.threads[t].PostHint?
    requires 0 <= HintIndex(p, s.threads[t].req) < |s.hints|
  {
    var PostHint(req, attempts, hint, id) := s.threads[t];
    var k := HintIndex(p, req);
    (if s.hints[k] == hint then s.(hints := s.hints[k := id]) else s).Goto(t, Top(req, attempts, id, req.lg2))
  }

  /** deallocate up to the read of the block size; only the address is used. */
  function StepFreeRead(p: Pool, s: State, t: nat): State
    requires p.Valid() && t < |s.threads| && s.threads[t].FreeRead? && |s.sbs| == p.sbCount
  {
    var FreeRead(d, block) := s.threads[t];
    if !p.Contains(d) then s.Goto(t, Aborted(true))
    else
      var id := p.SuperblockOf(d);
      var lg2 := s.sbs[id].Lg2();
      if p.sbLg2 < lg2 || !p.Aligned(d, lg2) then s.Goto(t, Aborted(true))
      else s.Goto(t, FreeCheck(id, p.BitOf(d, lg2), lg2, block))
  }

  /** release: the header must still be the one that deallocate read. */
  function StepFreeCheck(s: State, t: nat): State
    requires t < |s.threads| && s.threads[t].FreeCheck? && s.threads[t].id < |s.sbs|
  {
    var FreeCheck(id, bit, lg2, block) := s.threads[t];
    if s.sbs[id].Lg2() != lg2 then s.Goto(t, Aborted(true)) else s.Goto(t, FreeBit(id, bit, block))
  }

  function StepFreeBit(s: State, t: nat): State
    requires t < |s.threads| && s.threads[t].FreeBit? && s.threads[t].id < |s.sbs|
  {
    var FreeBit(id, bit, block) := s.threads[t];
    var was := s.sbs[id];
    if bit !in was.bits then s.Goto(t, Aborted(true))
    else s.Write(id, was.(bits := was.bits - {bit})).(live := s.live - {block}).Goto(t, FreeCount(id))
  }

  function StepFreeCount(s: State, t: nat): State
    requires t < |s.threads| && s.threads[t].FreeCount? && s.threads[t].id < |s.sbs|
  {
    var was := s.sbs[s.threads[t].id];
    s.Write(s.threads[t].id, was.(word := FetchAdd(was.word, -1))).Goto(t, Idle)
  }

  /** The indices that a thread carries are those of the pool. */
  predicate InRange(p: Pool, s: State, th: Thread)
    requires p.Valid()
  {
    && |s.sbs| == p.sbCount
    && (th.Top? || th.Probe? || th.Claim? || th.Unclaim? || th.Scan? || th.PostHint? ==>
          0 <= HintIndex(p, th.req) < |s.hints|)
    && (th.Probe? || th.Claim? || th.Unclaim? || th.SetBit? || th.Scan? ==> th.id < p.sbCount)
    && (th.ReadEmpty? || th.Reassign? || th.FreeCheck? || th.FreeBit? || th.FreeCount? ==> th.id < p.sbCount)
    && (th.Scan? ==> th.attempts != 0)
  }

  /** Callers may deallocate only a block that they hold; nothing else is asked of them. */
  predicate Permitted(s: State, t: nat, cmd: Command)
    requires t < |s.threads|
  {
    s.threads[t].Idle? && cmd.Deallocate? ==> cmd.block in s.held
  }

  function Step(p: Pool, s: State, t: nat, cmd: Command): State
    requires p.Valid() && t < |s.threads| && InRange(p, s, s.threads[t])
    requires s.threads[t].Idle? && cmd.Deallocate? ==> cmd.block.lg2 <= p.sbLg2
  {
    match s.threads[t]
    case Idle => StepIdle(p, s, t, cmd)
    case Aborted(_) => s
    case Top(_, _, _, _) => StepTop(p, s, t)
    case Probe(_, _, _, _, _) => StepProbe(p, s, t)
    case Claim(_, _, _, _, _) => StepClaim(p, s, t)
    case Unclaim(_, _, _, _) => StepUnclaim(p, s, t)
    case SetBit(_, _, _, _) => StepSetBit(s, t)
    case Scan(_, _, _, _, _, _, _, _) => StepScan(p, s, t)
    case ReadEmpty(_, _, _, _) => StepReadEmpty(s, t)
    case Reassign(_, _, _, _, _) => StepReassign(s, t)
    case PostHint(_, _, _, _) => StepPostHint(p, s, t)
    case FreeRead(_, _) => StepFreeRead(p, s, t)
    case FreeCheck(_, _, _, _) => StepFreeCheck(s, t)
    case FreeBit(_, _, _) => StepFreeBit(s, t)
    case FreeCount(_) => StepFreeCount(s, t)
  }
}
