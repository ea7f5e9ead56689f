/**
 Task ownership by futures (core/src/Kokkos_Future.hpp) over the reference counts of
 core/src/impl/Kokkos_TaskNode.hpp: threads work on futures of their own, every access to a shared
 count is one atomic step, and the writes to a future between two such accesses are one step too.
 */
module Futures {

  datatype Pointer = Null | To(task: nat)

  /** What follows once the destination has let go of its old task. */
  datatype Cont = Drop | Copy(src: nat) | Move(src: nat)

  datatype Pc =
    | Idle
    | Cleared(dst: nat, cont: Cont, last: bool)   // clear() has decremented; last says the count reached zero
    | Counting(dst: nat, src: nat)                // dst has taken src's task and still has to increment
    | Releasing(task: nat)                        // the queue has decremented a task to zero

  /**
   owned[h] says that future h's reference is in its task's count, queue[t] how many references the
   scheduler holds, leaked[t] how many increments belong to no future; no step reads these three.
   */
  datatype State = State(count: seq<nat>, alive: seq<bool>, futures: seq<Pointer>, pcs: seq<Pc>,
                         owned: seq<bool>, queue: seq<nat>, leaked: seq<nat>)

  datatype Action =
    // Copy and move constructors (dst null), clear, destructor, assignments between different tasks.
    | Begin(dst: nat, cont: Cont)
    | CopySame(dst: nat, src: nat, converting: bool)
    | Proceed
    | Spawn(dst: nat)
    | QueueAcquire(src: nat)
    | QueueRelease(task: nat)

  function Init(futures: nat, threads: nat): (s: State)
    ensures s.count == [] && s.alive == [] && s.queue == [] && s.leaked == []
    ensures |s.futures| == |s.owned| == futures && |s.pcs| == threads
    ensures forall h :: 0 <= h < futures ==> s.futures[h] == Null && !s.owned[h]
    ensures forall i :: 0 <= i < threads ==> s.pcs[i] == Idle
  {
    State([], [], seq(futures, _ => Null), seq(threads, _ => Idle), seq(futures, _ => false), [], [])
  }

  // ---------------------------------------------------------------- who uses which future

  predicate Writes(pc: Pc, h: nat) {
    match pc
    case Cleared(dst, Move(src), _) => h == dst || h == src
    case Cleared(dst, _, _) => h == dst
    case Counting(dst, _) => h == dst
    case _ => false
  }

  predicate Reads(pc: Pc, h: nat) {
    match pc
    case Cleared(_, Copy(src), _) => h == src
    case Counting(_, src) => h == src
    case _ => false
  }

  /** Thread i may write h: no other thread is using it. */
  ghost predicate MayWrite(s: State, i: nat, h: nat) {
    h < |s.futures| && forall j :: 0 <= j < |s.pcs| && j != i ==> !Writes(s.pcs[j], h) && !Reads(s.pcs[j], h)
  }

  /** Thread i may read h: no other thread is writing it. */
  ghost predicate MayRead(s: State, i: nat, h: nat) {
    h < |s.futures| && forall j :: 0 <= j < |s.pcs| && j != i ==> !Writes(s.pcs[j], h)
  }

  ghost predicate MayRun(s: State, i: nat, cont: Cont) {
    match cont
    case Drop => true
    case Copy(src) => MayRead(s, i, src)
    case Move(src) => MayWrite(s, i, src)
  }

  function Source(cont: Cont, dst: nat): nat {
    match cont case Drop => dst case Copy(src) => src case Move(src) => src
  }

  /** The calls a data-race-free program may make; Begin is the branch of different tasks. */
  ghost predicate Permitted(s: State, i: nat, a: Action) {
    && i < |s.pcs|
    && match a
       case Begin(dst, cont) =>
         && s.pcs[i] == Idle && MayWrite(s, i, dst) && MayRun(s, i, cont)
         && (cont != Drop ==> Source(cont, dst) < |s.futures| && s.futures[dst] != s.futures[Source(cont, dst)])
       case CopySame(dst, src, _) =>
         s.pcs[i] == Idle && MayWrite(s, i, dst) && MayRead(s, i, src) && s.futures[dst] == s.futures[src]
       case Proceed => s.pcs[i] != Idle
       case Spawn(dst) => s.pcs[i] == Idle && MayWrite(s, i, dst) && s.futures[dst] == Null
       case QueueAcquire(src) => s.pcs[i] == Idle && MayRead(s, i, src) && s.futures[src] != Null
       case QueueRelease(task) => s.pcs[i] == Idle && task < |s.queue| && s.queue[task] > 0
  }

  // ---------------------------------------------------------------- the steps

  ghost predicate Shape(s: State) {
    && |s.count| == |s.alive| == |s.queue| == |s.leaked| && |s.futures| == |s.owned|
    && (forall h :: 0 <= h < |s.futures| && s.futures[h].To? ==> s.futures[h].task < |s.count|)
  }

  /** Giving dst its new value, once it holds nothing. */
  ghost function Assign(s: State, i: nat, dst: nat, cont: Cont): State
    requires i < |s.pcs| && |s.futures| == |s.owned| && dst < |s.futures| && Source(cont, dst) < |s.futures|
  {
    match cont
    case Drop => s.(futures := s.futures[dst := Null], pcs := s.pcs[i := Idle])
    case Copy(src) =>
      s.(futures := s.futures[dst := s.futures[src]],
         pcs := s.pcs[i := if s.futures[src] == Null then Idle else Counting(dst, src)])
    case Move(src) =>
      s.(futures := s.futures[dst := s.futures[src]][src := Null],
         owned := s.owned[dst := s.owned[src]][src := false],
         pcs := s.pcs[i := Idle])
  }

  ghost predicate CanStep(s: State, i: nat, a: Action) {
    && Shape(s) && i < |s.pcs|
    && match a
       case Begin(dst, cont) =>
         && dst < |s.futures| && Source(cont, dst) < |s.futures|
         && (s.futures[dst].To? ==> s.count[s.futures[dst].task] > 0)
       case CopySame(dst, _, _) => dst < |s.futures|
       case Proceed =>
         (match s.pcs[i]
          case Idle => true
          case Cleared(dst, cont, _) => dst < |s.futures| && s.futures[dst].To? && Source(cont, dst) < |s.futures|
          case Counting(dst, _) => dst < |s.futures| && s.futures[dst].To?
          case Releasing(task) => task < |s.alive|)
       case Spawn(dst) => dst < |s.futures|
       case QueueAcquire(src) => src < |s.futures| && s.futures[src].To?
       case QueueRelease(task) => task < |s.count| && s.count[task] > 0 && s.queue[task] > 0
  }

  ghost function Step(s: State, i: nat, a: Action): State
    requires CanStep(s, i, a)
  {
    match a
    case Begin(dst, cont) => BeginStep(s, i, dst, cont)
    case CopySame(dst, _, converting) =>
      if converting || s.futures[dst] == Null then s
      else
        var t := s.futures[dst].task;
        s.(count := s.count[t := s.count[t] + 1], leaked := s.leaked[t := s.leaked[t] + 1])
    case Proceed => ProceedStep(s, i)
    case Spawn(dst) => SpawnStep(s, dst)
    case QueueAcquire(src) =>
      var t := s.futures[src].task;
      s.(count := s.count[t := s.count[t] + 1], queue := s.queue[t := s.queue[t] + 1])
    case QueueRelease(t) =>
      s.(count := s.count[t := s.count[t] - 1], queue := s.queue[t := s.queue[t] - 1],
         pcs := s.pcs[i := if s.count[t] == 1 then Releasing(t) else Idle])
  }

  /** clear() decrements the destination's old task; a null destination goes on at once. */
  ghost function BeginStep(s: State, i: nat, dst: nat, cont: Cont): State
    requires CanStep(s, i, Begin(dst, cont))
  {
    if s.futures[dst] == Null then Assign(s, i, dst, cont)
    else
      var t := s.futures[dst].task;
      s.(count := s.count[t := s.count[t] - 1], owned := s.owned[dst := false],
         pcs := s.pcs[i := Cleared(dst, cont, s.count[t] == 1)])
  }

  ghost function ProceedStep(s: State, i: nat): State
    requires CanStep(s, i, Proceed)
  {
    match s.pcs[i]
    case Idle => s
    case Cleared(dst, cont, last) =>
      var freed := if last then s.(alive := s.alive[s.futures[dst].task := false]) else s;
      Assign(freed, i, dst, cont)
    case Counting(dst, _) =>
      var t := s.futures[dst].task;
      s.(count := s.count[t := s.count[t] + 1], owned := s.owned[dst := true], pcs := s.pcs[i := Idle])
    case Releasing(t) => s.(alive := s.alive[t := false], pcs := s.pcs[i := Idle])
  }

  /** A new task starts with two references: one for the future, one the queue drops on completion. */
  ghost function SpawnStep(s: State, dst: nat): State
    requires dst < |s.futures| == |s.owned|
  {
    s.(count := s.count + [2], alive := s.alive + [true], queue := s.queue + [1], leaked := s.leaked + [0],
       futures := s.futures[dst := To(|s.count|)], owned := s.owned[dst := true])
  }
}
