/** src/main.c, `__sync_sched_install` and `__sync_sched_restore`: every online CPU
    runs the same handler while the machine is stopped. The handlers interleave
    freely, one atomic operation or one loop iteration at a time. */
module SyncProtocol {
  import opened Errno
  import opened Words
  import opened StackCheck
  import opened HeadJump
  import opened SchedRebuild
  import opened ProcessIds

  /** What one stopped machine fixes: which handler runs, the online mask, the
      outcome of `recheck_smps`, the thread list, the two interface tables, and the
      patches to apply. */
  datatype Config = Config(
    install: bool,
    online: seq<bool>,
    recheck: int,
    threads: seq<Thread>,
    idle: seq<Stack>,
    stop: seq<Task>,
    vmFns: seq<Extent>,
    modFns: seq<Extent>,
    base: int,
    targets: seq<Target>,
    jumps: seq<Head>,
    saved: seq<Head>,
    modClasses: ClassTable)

  /** The parts of the kernel that a swap rewrites. */
  datatype Machine = Machine(text: seq<Byte>, classes: ClassTable, bak: ClassTable)

  /** Where a CPU is in its handler. */
  datatype Pc =
    | Recheck                   // recheck_smps and its compare-and-swap
    | Check                     // stack_check
    | Report(error: int)        // compare-and-swap of the error
    | DecCheck                  // atomic_dec(&cpu_finished)
    | SpinCheck                 // until cpu_finished is zero
    | ReadError                 // atomic_read(&global_error)
    | FailClear(error: int)     // atomic_dec(&clear_finished), then return
    | FailRedirect(error: int)  // atomic_dec(&redirect_finished), then return
    | Offline                   // clear_sched_state: clock and set_rq_offline
    | Clear(next: nat)          // clear_sched_state: the thread list
    | Drain                     // clear_sched_state: the test for dying tasks
    | DecClear                  // atomic_dec(&clear_finished)
    | SpinClear                 // until clear_finished is zero
    | Switch                    // switch_sched_class, first process only
    | Redirect                  // jump_install or jump_remove, first process only
    | DecRedirect               // atomic_dec(&redirect_finished)
    | SpinRedirect              // until redirect_finished is zero
    | Online                    // rebuild_sched_state: clock and set_rq_online
    | Rebuild(next: nat)        // rebuild_sched_state: the thread list
    | Done                      // returned 0
    | Failed(error: int)        // returned the error

  /** What happened, in order. Queue operations record the class contents that
      their `p->sched_class` call went through. */
  datatype Event =
    | Checked(cpu: Cpu)
    | WentOffline(cpu: Cpu, mod: bool)
    | Dequeued(cpu: Cpu, task: Task, classes: ClassTable)
    | Switched(cpu: Cpu)
    | Redirected(cpu: Cpu)
    | WentOnline(cpu: Cpu, mod: bool)
    | Enqueued(cpu: Cpu, task: Task, classes: ClassTable)

  datatype State = State(
    pc: seq<Pc>,
    cpuFinished: int,
    clearFinished: int,
    redirectFinished: int,
    error: int,
    queues: seq<multiset<Task>>,
    machine: Machine,
    log: seq<Event>)

  ghost predicate IsOnline(cfg: Config, c: Cpu) {
    c < |cfg.online| && cfg.online[c]
  }

  // `is_first_process`.
  ghost predicate IsFirst(cfg: Config, c: Cpu) {
    c <= |cfg.online| && ProcessId(cfg.online, c) == 0
  }

  ghost function Stacks(threads: seq<Thread>): (r: seq<Stack>)
    ensures |r| == |threads|
  {
    seq(|threads|, k requires 0 <= k < |threads| => threads[k].stack)
  }

  // What `stack_check` returns on CPU `c`: it searches the kernel's functions on install,
  // those of the module on restore.
  ghost function Verdict(cfg: Config, c: Cpu): int
    requires ValidConfig(cfg) && IsOnline(cfg, c)
  {
    CountPositive(cfg.online, c);
    var n, id := Count(cfg.online), ProcessId(cfg.online, c);
    if cfg.install then CheckResult(cfg.vmFns, Stacks(cfg.threads), cfg.idle[c], n, id)
    else CheckResult(cfg.modFns, Stacks(cfg.threads), cfg.idle[c], n, id)
  }

  /** `stack_check` as CPU `cpu` calls it: on the sorted arrays of the two tables it
      returns the verdict of the protocol. */
  method StackCheckOnCpu(cfg: Config, cpu: Cpu, vmAddr: array<Word>, vmSize: array<Word>,
                         modAddr: array<Word>, modSize: array<Word>)
    returns (r: int)
    requires ValidConfig(cfg) && IsOnline(cfg, cpu)
    requires Sorts(cfg.vmFns, vmAddr[..], vmSize[..]) && Plain(cfg.vmFns)
    requires Sorts(cfg.modFns, modAddr[..], modSize[..]) && Plain(cfg.modFns)
    ensures r == Verdict(cfg, cpu)
  {
    CountPositive(cfg.online, cpu);
    var stacks := seq(|cfg.threads|, k requires 0 <= k < |cfg.threads| => cfg.threads[k].stack);
    assert stacks == Stacks(cfg.threads);
    var n, id := Count(cfg.online), ProcessId(cfg.online, cpu);
    if cfg.install {
      r := StackCheck.StackCheck(stacks, cfg.idle[cpu], n, id, vmAddr, vmSize, cfg.vmFns);
    } else {
      r := StackCheck.StackCheck(stacks, cfg.idle[cpu], n, id, modAddr, modSize, cfg.modFns);
    }
  }

  // The error `recheck_smps` gives CPU `c`: only the first process of an install calls it.
  ghost function RecheckError(cfg: Config, c: Cpu): int {
    if IsFirst(cfg, c) && cfg.install then cfg.recheck else 0
  }

  /** The stopper of every online CPU is a queued thread of that CPU, and there is
      a per-cpu entry for every possible CPU. */
  ghost predicate ValidConfig(cfg: Config) {
    && |cfg.idle| == |cfg.stop| == |cfg.online|
    && (cfg.recheck == 0 || cfg.recheck == -ENOMEM)
    && |cfg.jumps| == |cfg.saved| == |cfg.targets|
    && forall c: Cpu :: IsOnline(cfg, c) ==> Queued(cfg.threads, c, cfg.stop[c])
  }

  ghost predicate Fits(cfg: Config, s: State) {
    && ValidConfig(cfg)
    && |s.pc| == |s.queues| == |cfg.online|
    && Mapped(cfg.base, |s.machine.text|, cfg.targets)
  }

  // `atomic_cmpxchg(&global_error, 0, e)`, skipped when there is no error.
  function Cas(error: int, e: int): int {
    if error == 0 then e else error
  }

  ghost function SwitchMachine(cfg: Config, m: Machine): Machine {
    var (live, bak) := SwitchClasses(cfg.install, m.classes, m.bak, cfg.modClasses);
    m.(classes := live, bak := bak)
  }

  ghost function RedirectMachine(cfg: Config, m: Machine): (r: Machine)
    requires ValidConfig(cfg) && Mapped(cfg.base, |m.text|, cfg.targets)
    ensures |r.text| == |m.text|
  {
    m.(text := Overwrite(cfg.base, m.text, cfg.targets, if cfg.install then cfg.jumps else cfg.saved))
  }

  // ------------------------------------------- one step, variable by variable

  // Where CPU `c` goes next; a CPU that spins stays where it is.
  ghost function NextPc(cfg: Config, s: State, c: Cpu): Pc
    requires Fits(cfg, s) && IsOnline(cfg, c)
  {
    match s.pc[c]
    case Recheck => Check
    case Check => Report(Verdict(cfg, c))
    case Report(_) => DecCheck
    case DecCheck => SpinCheck
    case SpinCheck => if s.cpuFinished == 0 then ReadError else SpinCheck
    case ReadError => if s.error != 0 then FailClear(s.error) else Offline
    case FailClear(e) => FailRedirect(e)
    case FailRedirect(e) => Failed(e)
    case Offline => Clear(0)
    case Clear(i) => if i < |cfg.threads| then Clear(i + 1) else Drain
    case Drain => if |s.queues[c]| == 1 then DecClear else Drain
    case DecClear => SpinClear
    case SpinClear =>
      if s.clearFinished != 0 then SpinClear else if IsFirst(cfg, c) then Switch else DecRedirect
    case Switch => Redirect
    case Redirect => DecRedirect
    case DecRedirect => SpinRedirect
    case SpinRedirect => if s.redirectFinished == 0 then Online else SpinRedirect
    case Online => Rebuild(0)
    case Rebuild(i) => if i < |cfg.threads| then Rebuild(i + 1) else Done
    case Done => Done
    case Failed(e) => Failed(e)
  }

  // `global_error`, after the compare-and-swap of CPU `c` if it is at one.
  ghost function NextError(cfg: Config, s: State, c: Cpu): int
    requires Fits(cfg, s) && IsOnline(cfg, c)
  {
    match s.pc[c]
    case Recheck => Cas(s.error, RecheckError(cfg, c))
    case Report(e) => Cas(s.error, e)
    case _ => s.error
  }

  // The runqueue of CPU `c`, which only `c` itself touches.
  ghost function NextQueue(cfg: Config, s: State, c: Cpu): multiset<Task>
    requires Fits(cfg, s) && IsOnline(cfg, c)
  {
    match s.pc[c]
    case Clear(i) => DequeueOne(cfg.threads, c, cfg.stop[c], s.queues[c], i)
    case Rebuild(i) => EnqueueOne(cfg.threads, c, cfg.stop[c], s.queues[c], i)
    case _ => s.queues[c]
  }

  ghost function NextMachine(cfg: Config, p: Pc, m: Machine): (r: Machine)
    requires ValidConfig(cfg) && Mapped(cfg.base, |m.text|, cfg.targets)
    ensures |r.text| == |m.text|
  {
    match p
    case Switch => SwitchMachine(cfg, m)
    case Redirect => RedirectMachine(cfg, m)
    case _ => m
  }

  // What the step adds to the history.
  ghost function Events(cfg: Config, s: State, c: Cpu): seq<Event>
    requires Fits(cfg, s) && IsOnline(cfg, c)
  {
    match s.pc[c]
    case Check => [Checked(c)]
    case Offline => [WentOffline(c, !cfg.install)]
    case Clear(i) => if Movable(cfg.threads, c, cfg.stop[c], i) then [Dequeued(c, i, s.machine.classes)] else []
    case Switch => [Switched(c)]
    case Redirect => [Redirected(c)]
    case Online => [WentOnline(c, cfg.install)]
    case Rebuild(i) => if Movable(cfg.threads, c, cfg.stop[c], i) then [Enqueued(c, i, s.machine.classes)] else []
    case _ => []
  }

  function Minus(n: int, hit: bool): int {
    if hit then n - 1 else n
  }

  /** One step of CPU `c`: at most one atomic operation, or one iteration of a loop
      over the thread list, or one phase of the first process. A CPU that spins, has
      returned or is not online leaves the state as it is. */
  ghost function Step(cfg: Config, s: State, c: Cpu): (r: State)
    requires Fits(cfg, s)
    ensures Fits(cfg, r)
  {
    if !IsOnline(cfg, c) then s
    else
      var p := s.pc[c];
      State(
        s.pc[c := NextPc(cfg, s, c)],
        Minus(s.cpuFinished, p.DecCheck?),
        Minus(s.clearFinished, p.DecClear? || p.FailClear?),
        Minus(s.redirectFinished, p.DecRedirect? || p.FailRedirect?),
        NextError(cfg, s, c),
        s.queues[c := NextQueue(cfg, s, c)],
        NextMachine(cfg, p, s.machine),
        s.log + Events(cfg, s, c))
  }

  /** `parallel_state_check_init`, and every online CPU at the start of the handler. */
  ghost predicate Init(cfg: Config, m: Machine, s: State) {
    && Fits(cfg, s)
    && (forall c: Cpu :: IsOnline(cfg, c) ==> s.pc[c] == Recheck && Complete(cfg.threads, c, s.queues[c]))
    && s.cpuFinished == s.clearFinished == s.redirectFinished == Count(cfg.online)
    && s.error == 0
    && s.machine == m
    && s.log == []
  }

  /** An interleaving is any finite sequence of CPUs to step. */
  ghost function Exec(cfg: Config, s: State, schedule: seq<Cpu>): (r: State)
    requires Fits(cfg, s)
    ensures Fits(cfg, r)
  {
    if schedule == [] then s
    else Step(cfg, Exec(cfg, s, schedule[..|schedule| - 1]), schedule[|schedule| - 1])
  }

  ghost predicate AllDone(cfg: Config, s: State)
    requires Fits(cfg, s)
  {
    forall c: Cpu :: IsOnline(cfg, c) ==> s.pc[c].Done? || s.pc[c].Failed?
  }
}
