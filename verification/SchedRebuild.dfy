/** src/sched_rebuild.c: the contents of the scheduler classes, and the runqueue
    of one CPU while its tasks are taken off and put back. */
module SchedRebuild {
  import opened Words
  import opened StackCheck

  const NR_SCHED_CLASS: nat := 5

  type Cpu = nat
  type Task = nat

  /** The bytes of one `struct sched_class`, seen as its table of operations. */
  datatype SchedClass = SchedClass(ops: seq<Word>)

  type ClassTable = t: seq<SchedClass> | |t| == NR_SCHED_CLASS
    witness seq(NR_SCHED_CLASS, i => SchedClass([]))

  /** A thread as the stopped machine shows it: its stack, the CPU whose runqueue
      `task_rq` names, and `task_on_rq_queued`. Tasks are numbered in the order of
      `for_each_process_thread`. */
  datatype Thread = Thread(stack: Stack, rq: Cpu, queued: bool)

  // ----------------------------------------------------------------- classes

  /** `switch_sched_class` on the live table and its backup. */
  function SwitchClasses(toMod: bool, live: ClassTable, bak: ClassTable, modClasses: ClassTable)
    : (r: (ClassTable, ClassTable))
  {
    if toMod then (modClasses, live) else (bak, bak)
  }

  class ClassSwitch {
    const orig: array<SchedClass>
    const bak: array<SchedClass>
    const modClasses: ClassTable

    ghost predicate Valid() {
      orig != bak && orig.Length == bak.Length == NR_SCHED_CLASS
    }

    constructor (orig: array<SchedClass>, bak: array<SchedClass>, modClasses: ClassTable)
      requires orig != bak && orig.Length == bak.Length == 5
      ensures Valid() && this.orig == orig && this.bak == bak && this.modClasses == modClasses
    {
      this.orig, this.bak, this.modClasses := orig, bak, modClasses;
    }

    method SwitchSchedClass(toMod: bool)
      requires Valid()
      modifies orig, bak
      ensures (orig[..], bak[..]) == SwitchClasses(toMod, old(orig[..]), old(bak[..]), modClasses)
    {
      ghost var (live, saved) := SwitchClasses(toMod, orig[..], bak[..], modClasses);
      for i := 0 to NR_SCHED_CLASS
        invariant forall k :: 0 <= k < i ==> orig[k] == live[k] && bak[k] == saved[k]
        invariant forall k :: i <= k < NR_SCHED_CLASS ==> orig[k] == old(orig[k]) && bak[k] == old(bak[k])
      {
        if toMod {
          bak[i] := orig[i];
          orig[i] := modClasses[i];
        } else {
          orig[i] := bak[i];
        }
      }
      assert orig[..] == live && bak[..] == saved;
    }
  }

  // --------------------------------------------------------------- runqueues

  // The tasks that the passes over the thread list move for this CPU.
  ghost predicate Movable(threads: seq<Thread>, cpu: Cpu, stop: Task, t: Task) {
    t < |threads| && threads[t].rq == cpu && t != stop && threads[t].queued
  }

  ghost predicate Queued(threads: seq<Thread>, cpu: Cpu, t: Task) {
    t < |threads| && threads[t].rq == cpu && threads[t].queued
  }

  /** Exactly the queued tasks of this CPU, once each, are on its runqueue. This is
      what it means that no dying task, missing from the thread list, is left on it. */
  ghost predicate Complete(threads: seq<Thread>, cpu: Cpu, queue: multiset<Task>) {
    forall t: Task :: queue[t] == if Queued(threads, cpu, t) then 1 else 0
  }

  // Tasks below `i`, other than the stopper, are off the queue.
  ghost predicate ClearedBelow(threads: seq<Thread>, cpu: Cpu, stop: Task, queue: multiset<Task>, i: nat) {
    forall t: Task :: queue[t] == if Queued(threads, cpu, t) && (t == stop || i <= t) then 1 else 0
  }

  // Tasks below `i`, and the stopper, are on the queue; the others are off.
  ghost predicate RebuiltBelow(threads: seq<Thread>, cpu: Cpu, stop: Task, queue: multiset<Task>, i: nat) {
    forall t: Task :: queue[t] == if Queued(threads, cpu, t) && (t == stop || t < i) then 1 else 0
  }

  // The body of the first loop of `clear_sched_state`.
  ghost function DequeueOne(threads: seq<Thread>, cpu: Cpu, stop: Task, queue: multiset<Task>,
                            t: Task): multiset<Task>
  {
    if Movable(threads, cpu, stop, t) then queue - multiset{t} else queue
  }

  // The body of the first loop of `rebuild_sched_state`.
  ghost function EnqueueOne(threads: seq<Thread>, cpu: Cpu, stop: Task, queue: multiset<Task>,
                            t: Task): multiset<Task>
  {
    if Movable(threads, cpu, stop, t) then queue + multiset{t} else queue
  }

  lemma DequeueAdvances(threads: seq<Thread>, cpu: Cpu, stop: Task, queue: multiset<Task>, i: nat)
    requires ClearedBelow(threads, cpu, stop, queue, i)
    ensures ClearedBelow(threads, cpu, stop, DequeueOne(threads, cpu, stop, queue, i), i + 1)
  {
  }

  lemma EnqueueAdvances(threads: seq<Thread>, cpu: Cpu, stop: Task, queue: multiset<Task>, i: nat)
    requires RebuiltBelow(threads, cpu, stop, queue, i)
    ensures RebuiltBelow(threads, cpu, stop, EnqueueOne(threads, cpu, stop, queue, i), i + 1)
  {
  }

  /** After the first pass only the stopper is left, so the loop that drains dying
      tasks ends at its first test. */
  lemma OnlyStopperLeft(threads: seq<Thread>, cpu: Cpu, stop: Task, queue: multiset<Task>)
    requires Queued(threads, cpu, stop) && ClearedBelow(threads, cpu, stop, queue, |threads|)
    ensures queue == multiset{stop} && |queue| == 1
    ensures RebuiltBelow(threads, cpu, stop, queue, 0)
  {
    forall t: Task ensures queue[t] == multiset{stop}[t] {}
    assert queue == multiset{stop};
  }

  /** `struct rq` of one CPU: the tasks on it and its stopper. */
  class Runqueue {
    const cpu: Cpu
    const stop: Task
    var queue: multiset<Task>

    constructor (cpu: Cpu, stop: Task, queue: multiset<Task>)
      ensures this.cpu == cpu && this.stop == stop && this.queue == queue
    {
      this.cpu, this.stop, this.queue := cpu, stop, queue;
    }

    /** `clear_sched_state`, the pass over the thread list. */
    method ClearSchedState(threads: seq<Thread>)
      requires Complete(threads, cpu, queue) && Queued(threads, cpu, stop)
      modifies this
      ensures queue == multiset{stop}
    {
      for t := 0 to |threads|
        invariant ClearedBelow(threads, cpu, stop, queue, t)
      {
        DequeueAdvances(threads, cpu, stop, queue, t);
        if threads[t].rq == cpu && t != stop && threads[t].queued {
          queue := queue - multiset{t};
        }
      }
      OnlyStopperLeft(threads, cpu, stop, queue);
    }

    /** `rebuild_sched_state`, the pass over the thread list. */
    method RebuildSchedState(threads: seq<Thread>)
      requires queue == multiset{stop} && Queued(threads, cpu, stop)
      modifies this
      ensures Complete(threads, cpu, queue)
    {
      for t := 0 to |threads|
        invariant RebuiltBelow(threads, cpu, stop, queue, t)
      {
        EnqueueAdvances(threads, cpu, stop, queue, t);
        if threads[t].rq == cpu && t != stop && threads[t].queued {
          queue := queue + multiset{t};
        }
      }
    }
  }
}
