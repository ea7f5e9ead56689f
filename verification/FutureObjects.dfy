/**
 The members of BasicFuture as they update one future and the counts it touches
 (core/src/Kokkos_Future.hpp), each run to its end before the next begins.
 */
module FutureObjects {

  /** A reference-counted task.  others counts the references that belong to no future. */
  class Task {
    var count: nat
    var deallocated: bool
    ghost var others: nat

    /** initial_reference_count 2: one for the future made with the task, one for the queue. */
    constructor ()
      ensures count == 2 && others == 1 && !deallocated
    {
      count, others, deallocated := 2, 1, false;
    }
  }

  /** The futures among all that point at t. */
  ghost function Pointing(all: set<BasicFuture>, t: Task): set<BasicFuture>
    reads all
  {
    set f | f in all && f.task == t
  }

  /** The count is the futures at t plus the other references; the task is live while it is not zero. */
  ghost predicate Accounted(all: set<BasicFuture>, t: Task)
    reads all, t
  {
    t.count == |Pointing(all, t)| + t.others && (t.deallocated <==> t.count == 0)
  }

  /** tasks holds every task a future points at, and each of them is accounted for. */
  ghost predicate Sound(all: set<BasicFuture>, tasks: set<Task>)
    reads all, tasks
  {
    && (forall f :: f in all && f.task != null ==> f.task in tasks)
    && (forall t :: t in tasks ==> Accounted(all, t))
  }

  class BasicFuture {
    var task: Task?

    constructor ()
      ensures task == null
    {
      task := null;
    }

    /** The future made for a new task takes over the reference the task was made with. */
    constructor ForTask(t: Task)
      ensures task == t
    {
      task := t;
    }

    /** clear: give up the reference, deallocate the task if it was the last, become null. */
    method Clear(ghost all: set<BasicFuture>, ghost tasks: set<Task>)
      requires this in all && Sound(all, tasks)
      modifies this, task
      ensures Sound(all, tasks) && task == null
      ensures old(task) != null ==>
        old(task).count == old(task.count) - 1 && old(task).others == old(task.others) &&
          old(task).deallocated == (old(task.count) == 1)
    {
      ghost var before := PointingMap(all, tasks);
      if task != null {
        assert this in Pointing(all, task) && Accounted(all, task);
        var shouldDelete := task.count == 1;
        task.count := task.count - 1;
        if shouldDelete { task.deallocated := true; }
      }
      ghost var was := task;
      task := null;
      Repointed(all, tasks, before, this, was, null);
    }

    /** Copy construction counts one more reference. */
    constructor Copy(rhs: BasicFuture, ghost all: set<BasicFuture>, ghost tasks: set<Task>)
      requires rhs in all && Sound(all, tasks)
      modifies rhs.task
      ensures task == rhs.task == old(rhs.task) && Sound(all + {this}, tasks)
      ensures task != null ==> task.count == old(rhs.task.count) + 1 && task.others == old(rhs.task.others)
    {
      task := rhs.task;
      new;
      assert forall t :: t in tasks ==> Accounted(all, t);
      if task != null { task.count := task.count + 1; }
      Added(all, tasks, this);
    }

    /** Move construction takes the reference over and leaves rhs null; no count changes. */
    constructor Move(rhs: BasicFuture, ghost all: set<BasicFuture>, ghost tasks: set<Task>)
      requires rhs in all && Sound(all, tasks)
      modifies rhs
      ensures task == old(rhs.task) && rhs.task == null && Sound(all + {this}, tasks)
    {
      ghost var before := PointingMap(all, tasks);
      task := rhs.task;
      new;
      rhs.task := null;
      Repointed(all, tasks, before, rhs, task, null);
      Added(all, tasks, this);
    }

    /** Taking rhs's task and counting it, once this future holds nothing. */
    method Adopt(rhs: BasicFuture, ghost all: set<BasicFuture>, ghost tasks: set<Task>)
      requires this in all && rhs in all && Sound(all, tasks) && task == null
      modifies this, rhs.task
      ensures task == old(rhs.task) && rhs.task == old(rhs.task) && Sound(all, tasks)
      ensures task != null ==> task.count == old(rhs.task.count) + 1 && task.others == old(rhs.task.others)
    {
      ghost var before := PointingMap(all, tasks);
      task := rhs.task;
      Repointed(all, tasks, before, this, null, task);
      if task != null { task.count := task.count + 1; }
    }

    /**
     Copy assignment.  The count is incremented even when both futures hold the same task already; no
     future answers for that reference, so it joins the others for good.
     */
    method AssignCopy(rhs: BasicFuture, ghost all: set<BasicFuture>, ghost tasks: set<Task>)
      requires this in all && rhs in all && Sound(all, tasks)
      modifies this, task, rhs.task
      ensures task == old(rhs.task) && rhs.task == old(rhs.task) && Sound(all, tasks)
      ensures task != null ==> task.count == old(rhs.task.count) + 1
      ensures task != null ==> task.others == old(rhs.task.others) + (if old(task) == old(rhs.task) then 1 else 0)
      ensures old(task) != null && old(task) != old(rhs.task) ==>
        && old(task).count == old(task.count) - 1 && old(task).others == old(task.others)
        && old(task).deallocated == (old(task.count) == 1)
    {
      if task != rhs.task {
        Clear(all, tasks);
        Adopt(rhs, all, tasks);
      } else if task != null {
        assert Accounted(all, task) && this in Pointing(all, task);
        task.count := task.count + 1;
        task.others := task.others + 1;
      }
    }

    /** Assignment from a future of another value type: nothing happens when the task is the same. */
    method AssignConverting(rhs: BasicFuture, ghost all: set<BasicFuture>, ghost tasks: set<Task>)
      requires this in all && rhs in all && Sound(all, tasks)
      modifies this, task, rhs.task
      ensures task == old(rhs.task) && rhs.task == old(rhs.task) && Sound(all, tasks)
      ensures task != null ==> task.count == old(rhs.task.count) + (if old(task) == old(rhs.task) then 0 else 1)
      ensures task != null ==> task.others == old(rhs.task.others)
      ensures old(task) != null && old(task) != old(rhs.task) ==>
        && old(task).count == old(task.count) - 1 && old(task).others == old(task.others)
        && old(task).deallocated == (old(task.count) == 1)
    {
      if task != rhs.task {
        Clear(all, tasks);
        Adopt(rhs, all, tasks);
      }
    }

    /** Taking rhs's task with its reference, once this future holds nothing; no count changes. */
    method TakeOver(rhs: BasicFuture, ghost all: set<BasicFuture>, ghost tasks: set<Task>)
      requires this in all && rhs in all && this != rhs && Sound(all, tasks) && task == null
      modifies this, rhs
      ensures task == old(rhs.task) && rhs.task == null && Sound(all, tasks)
    {
      ghost var before := PointingMap(all, tasks);
      task := rhs.task;
      Repointed(all, tasks, before, this, null, task);
      ghost var between := PointingMap(all, tasks);
      rhs.task := null;
      Repointed(all, tasks, between, rhs, task, null);
    }

    /** Move assignment: between different tasks the reference moves, on the same task one is given up. */
    method AssignMove(rhs: BasicFuture, ghost all: set<BasicFuture>, ghost tasks: set<Task>)
      requires this in all && rhs in all && Sound(all, tasks)
      modifies this, rhs, task, rhs.task
      ensures rhs.task == null && Sound(all, tasks) && (this != rhs ==> task == old(rhs.task))
      ensures old(rhs.task) != null ==>
        old(rhs.task).count == old(rhs.task.count) - (if old(task) == old(rhs.task) then 1 else 0) &&
        old(rhs.task).others == old(rhs.task.others)
      ensures old(task) != null && old(task) != old(rhs.task) ==>
        && old(task).count == old(task.count) - 1 && old(task).others == old(task.others)
        && old(task).deallocated == (old(task.count) == 1)
    {
      if task != rhs.task {
        Clear(all, tasks);
        TakeOver(rhs, all, tasks);
      } else {
        rhs.Clear(all, tasks);
        rhs.task := null;
      }
    }
  }

  /** A future that did not exist before adds one to the futures of its task. */
  lemma Added(all: set<BasicFuture>, tasks: set<Task>, f: BasicFuture)
    requires f !in all
    ensures forall t :: t in tasks ==> |Pointing(all + {f}, t)| == |Pointing(all, t)| + (if f.task == t then 1 else 0)
  {
    forall t | t in tasks ensures |Pointing(all + {f}, t)| == |Pointing(all, t)| + (if f.task == t then 1 else 0) {
      if f.task == t { assert Pointing(all + {f}, t) == Pointing(all, t) + {f}; }
      else { assert Pointing(all + {f}, t) == Pointing(all, t); }
    }
  }

  /** Each task's futures before an update. */
  ghost function PointingMap(all: set<BasicFuture>, tasks: set<Task>): (m: map<Task, set<BasicFuture>>)
    reads all
    ensures m.Keys == tasks && forall t :: t in tasks ==> m[t] == Pointing(all, t)
  {
    map t | t in tasks :: Pointing(all, t)
  }

  /** When one future has gone from task a to task b, only their sets of futures have changed, each by it. */
  lemma Repointed(all: set<BasicFuture>, tasks: set<Task>, before: map<Task, set<BasicFuture>>, f: BasicFuture,
                  a: Task?, b: Task?)
    requires f in all && f.task == b && before.Keys == tasks
    requires forall t, g :: t in tasks && g in all && g != f ==> (g in before[t] <==> g.task == t)
    requires forall t :: t in tasks ==> before[t] <= all && (f in before[t] <==> t == a)
    ensures forall t :: t in tasks ==>
      |Pointing(all, t)| == |before[t]| + (if t == b then 1 else 0) - (if t == a then 1 else 0)
  {
    forall t | t in tasks
      ensures |Pointing(all, t)| == |before[t]| + (if t == b then 1 else 0) - (if t == a then 1 else 0)
    {
      var now := Pointing(all, t);
      if a == b { assert now == before[t]; }
      else if t == a { assert now == before[t] - {f}; }
      else if t == b { assert now == before[t] + {f}; }
      else { assert now == before[t]; }
    }
  }
}
