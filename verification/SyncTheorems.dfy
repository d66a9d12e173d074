/** What holds of every interleaving of the stopped machine, for the install and
    the restore handler alike. */
module SyncTheorems {
  import opened Words
  import opened StackCheck
  import opened HeadJump
  import opened SchedRebuild
  import opened ProcessIds
  import opened SyncProtocol
  import opened SyncInvariant
  import opened SyncHistory

  ghost predicate Inv(cfg: Config, m: Machine, s: State) {
    Base(cfg, m, s) && Queues(cfg, s) && History(cfg, m, s) && Tallies(cfg, s)
  }

  lemma InitInv(cfg: Config, m: Machine, s: State)
    requires Init(cfg, m, s)
    ensures Inv(cfg, m, s)
  {
    forall b: Barrier ensures Counter(s, b) == Count(Flags(cfg, s, b)) {
      assert forall c: Cpu :: c < |cfg.online| && cfg.online[c] ==> IsOnline(cfg, c);
      assert Flags(cfg, s, b) == cfg.online;
    }
  }

  lemma StepInv(cfg: Config, m: Machine, s: State, c: Cpu)
    requires Inv(cfg, m, s)
    ensures Inv(cfg, m, Step(cfg, s, c))
  {
    var s' := Step(cfg, s, c);
    if IsOnline(cfg, c) {
      StepBase(cfg, m, s, c);
      assert QueueAt(cfg, c, s.queues[c], s.pc[c]);
      StepMoves(cfg, s, c);
      StepQueues(cfg, s, c);
      KeepQueues(cfg, s, s', c);
      KeepHistory(cfg, m, s, c);
      KeepTallies(cfg, m, s, c);
    }
  }

  lemma StepBase(cfg: Config, m: Machine, s: State, c: Cpu)
    requires Base(cfg, m, s) && IsOnline(cfg, c)
    ensures Base(cfg, m, Step(cfg, s, c))
  {
    var s' := Step(cfg, s, c);
    StepMoves(cfg, s, c);
    KeepCounters(cfg, s, s', c);
    KeepBarriers(cfg, s, s', c);
    assert ErrorAt(cfg, c, s.pc[c], s.error);
    StepErrors(cfg, s, c);
    KeepErrors(cfg, s, s', c);
    StepMachines(cfg, m, s, c);
    KeepMachines(cfg, m, s, s', c);
  }

  /** The invariant holds after every interleaving. */
  lemma {:induction false} ExecInv(cfg: Config, m: Machine, s: State, schedule: seq<Cpu>)
    requires Inv(cfg, m, s)
    ensures Inv(cfg, m, Exec(cfg, s, schedule))
  {
    if schedule != [] {
      var n := |schedule| - 1;
      ExecInv(cfg, m, s, schedule[..n]);
      StepInv(cfg, m, Exec(cfg, s, schedule[..n]), schedule[n]);
    }
  }

  /** `s` is reached from the start of the handlers on machine `m` by some interleaving. */
  ghost predicate Reachable(cfg: Config, m: Machine, s: State) {
    exists s0: State, schedule: seq<Cpu> :: Init(cfg, m, s0) && s == Exec(cfg, s0, schedule)
  }

  lemma ReachableInv(cfg: Config, m: Machine, s: State)
    requires Reachable(cfg, m, s)
    ensures Inv(cfg, m, s)
  {
    var s0: State, schedule: seq<Cpu> :| Init(cfg, m, s0) && s == Exec(cfg, s0, schedule);
    InitInv(cfg, m, s0);
    ExecInv(cfg, m, s0, schedule);
  }

  // ------------------------------------------------------------------ safety

  /** The search finds a frame of the stack: in a function of the kernel that an install is
      about to redirect, or in a function of the module that a restore is about to leave. */
  ghost predicate Caught(cfg: Config, stack: Stack) {
    if cfg.install then FastBlocked(cfg.vmFns, stack) else FastBlocked(cfg.modFns, stack)
  }

  /** The search has caught no thread and no idle task of an online CPU, and the memory
      pools were large enough. */
  ghost predicate NothingInTheWay(cfg: Config)
    requires ValidConfig(cfg)
  {
    && (cfg.install ==> cfg.recheck == 0)
    && (forall k :: 0 <= k < |cfg.threads| ==> !Caught(cfg, cfg.threads[k].stack))
    && (forall c: Cpu :: IsOnline(cfg, c) ==> !Caught(cfg, cfg.idle[c]))
  }

  /** What the verdict of a CPU means, on install and on restore. */
  lemma VerdictMeans(cfg: Config, c: Cpu)
    requires ValidConfig(cfg) && IsOnline(cfg, c)
    ensures Count(cfg.online) > 0 && Verdict(cfg, c) in {0, -16}
    ensures cfg.install ==>
      (Verdict(cfg, c) != 0 <==> FastBlocked(cfg.vmFns, cfg.idle[c]) || exists k ::
         0 <= k < |cfg.threads| && k % Count(cfg.online) == ProcessId(cfg.online, c) &&
         FastBlocked(cfg.vmFns, cfg.threads[k].stack))
    ensures !cfg.install ==>
      (Verdict(cfg, c) != 0 <==> FastBlocked(cfg.modFns, cfg.idle[c]) || exists k ::
         0 <= k < |cfg.threads| && k % Count(cfg.online) == ProcessId(cfg.online, c) &&
         FastBlocked(cfg.modFns, cfg.threads[k].stack))
  {
    CountPositive(cfg.online, c);
    var stacks := Stacks(cfg.threads);
    assert forall k :: 0 <= k < |cfg.threads| ==> stacks[k] == cfg.threads[k].stack;
  }

  /** No captured frame lies inside any function of the table. */
  ghost predicate NothingBlocked(cfg: Config, fns: seq<Extent>) {
    && (forall k :: 0 <= k < |cfg.threads| ==> !Blocked(fns, cfg.threads[k].stack))
    && (forall c: Cpu :: IsOnline(cfg, c) && c < |cfg.idle| ==> !Blocked(fns, cfg.idle[c]))
  }

  /** On tight tables, so with disjoint functions, the search misses no frame. */
  lemma TightFindsAll(cfg: Config)
    requires ValidConfig(cfg)
    ensures cfg.install && Plain(cfg.vmFns) && Tight(cfg.vmFns) ==>
      (NothingInTheWay(cfg) <==> cfg.recheck == 0 && NothingBlocked(cfg, cfg.vmFns))
    ensures !cfg.install && Plain(cfg.modFns) && Tight(cfg.modFns) ==>
      (NothingInTheWay(cfg) <==> NothingBlocked(cfg, cfg.modFns))
  {
    var fns := if cfg.install then cfg.vmFns else cfg.modFns;
    if Plain(fns) && Tight(fns) {
      forall stack: Stack ensures FastBlocked(fns, stack) <==> Blocked(fns, stack) {
        FastBlockedIsBlocked(fns, stack);
      }
    }
  }

  lemma {:induction false} TallyFinds(log: seq<Event>, i: nat)
    requires i < |log|
    ensures Tally(log, log[i].cpu, OpOf(log[i])) > 0
  {
    var n := |log| - 1;
    if i < n {
      TallyFinds(log[..n], i);
    }
  }

  // Once anything but a check has happened, no error was ever raised.
  lemma StartedMeansNoError(cfg: Config, m: Machine, s: State, i: nat)
    requires Inv(cfg, m, s) && i < |s.log| && Phase(s.log[i]) >= 1
    ensures s.error == 0 && s.cpuFinished == 0
    ensures IsOnline(cfg, s.log[i].cpu) && Succeeding(s.pc[s.log[i].cpu])
  {
    var e := s.log[i];
    TallyFinds(s.log, i);
    assert EventOk(cfg, m, e) && Reached(cfg, s, Phase(e));
    assert HasDone(cfg, e.cpu, s.pc[e.cpu], OpOf(e));
    assert ErrorAt(cfg, e.cpu, s.pc[e.cpu], s.error);
  }

  /** Every thread is dealt to exactly one online CPU. */
  lemma ThreadDealtOnce(cfg: Config, k: nat, c: Cpu, d: Cpu)
    requires exists e: Cpu :: IsOnline(cfg, e)
    ensures exists e: Cpu ::
      IsOnline(cfg, e) && Count(cfg.online) > 0 && k % Count(cfg.online) == ProcessId(cfg.online, e)
    ensures IsOnline(cfg, c) && IsOnline(cfg, d) && ProcessId(cfg.online, c) == ProcessId(cfg.online, d) ==> c == d
  {
    var e0: Cpu :| IsOnline(cfg, e0);
    CountPositive(cfg.online, e0);
    ProcessIdsBijective(cfg.online);
    assert HasId(cfg.online, k % Count(cfg.online));
    var e: nat :| e < |cfg.online| && cfg.online[e] && ProcessId(cfg.online, e) == k % Count(cfg.online);
    assert IsOnline(cfg, e);
  }

  // A CPU whose verdict is zero has caught nobody that was dealt to it.
  lemma VerdictClears(cfg: Config, c: Cpu, k: nat)
    requires ValidConfig(cfg) && IsOnline(cfg, c) && Verdict(cfg, c) == 0
    ensures Count(cfg.online) > 0 && !Caught(cfg, cfg.idle[c])
    ensures k < |cfg.threads| && k % Count(cfg.online) == ProcessId(cfg.online, c) ==>
      !Caught(cfg, cfg.threads[k].stack)
  {
    VerdictMeans(cfg, c);
  }

  // The CPU that a thread is dealt to.
  lemma Dealer(cfg: Config, k: nat) returns (c: Cpu)
    requires exists e: Cpu :: IsOnline(cfg, e)
    ensures IsOnline(cfg, c) && Count(cfg.online) > 0 && k % Count(cfg.online) == ProcessId(cfg.online, c)
  {
    ThreadDealtOnce(cfg, k, 0, 0);
    c :| IsOnline(cfg, c) && Count(cfg.online) > 0 && k % Count(cfg.online) == ProcessId(cfg.online, c);
  }

  // If all CPUs have checked and no error is set, every verdict was zero; every
  // thread belongs to exactly one of those checks.
  lemma AllChecksPassed(cfg: Config, s: State)
    requires Fits(cfg, s) && Errors(cfg, s) && s.error == 0
    requires forall c: Cpu :: IsOnline(cfg, c) ==> !Before(CheckBarrier, s.pc[c])
    requires exists c: Cpu :: IsOnline(cfg, c)
    ensures NothingInTheWay(cfg)
  {
    forall c: Cpu | IsOnline(cfg, c) ensures Verdict(cfg, c) == 0 && RecheckError(cfg, c) == 0 {
      assert ErrorAt(cfg, c, s.pc[c], s.error);
    }
    forall k | 0 <= k < |cfg.threads| ensures !Caught(cfg, cfg.threads[k].stack) {
      var c := Dealer(cfg, k);
      VerdictClears(cfg, c, k);
    }
    forall c: Cpu | IsOnline(cfg, c) ensures !Caught(cfg, cfg.idle[c]) {
      VerdictClears(cfg, c, 0);
    }
    var c0: Cpu :| IsOnline(cfg, c0);
    var f := FirstExists(cfg, c0);
    assert RecheckError(cfg, f) == 0;
  }

  /** Safety: in every interleaving, if a task is dequeued, a class switched or a
      function redirected, then nothing was in the way. */
  lemma RedirectIsSafe(cfg: Config, m: Machine, s: State, i: nat)
    requires Reachable(cfg, m, s)
    requires i < |s.log| && !s.log[i].Checked?
    ensures NothingInTheWay(cfg)
  {
    ReachableInv(cfg, m, s);
    StartedMeansNoError(cfg, m, s, i);
    forall c: Cpu | IsOnline(cfg, c) ensures !Before(CheckBarrier, s.pc[c]) {
      if Before(CheckBarrier, s.pc[c]) {
        StillCounted(cfg, s, CheckBarrier, c);
      }
    }
    AllChecksPassed(cfg, s);
  }

  /** The same, in terms of the exported functions: when they are redirected to the
      module, no captured frame of any thread or idle task lies in any of them, as long as
      kallsyms says they are; and when they are restored, none lies in any of their module
      versions. `__schedule` is excepted. */
  lemma NoFrameInRedirectedFunction(cfg: Config, m: Machine, s: State, vmLooked: seq<Word>, modLooked: seq<Word>,
                                    schedule: nat)
    requires Reachable(cfg, m, s) && (exists i :: 0 <= i < |s.log| && s.log[i].Redirected?)
    requires |vmLooked| == |modLooked| == |cfg.targets|
    requires cfg.vmFns == Registered(OrigAddrs(cfg.targets), vmLooked, schedule) && Plain(cfg.vmFns) && Tight(cfg.vmFns)
    requires cfg.modFns == Registered(ModAddrs(cfg.targets), modLooked, schedule)
    requires Plain(cfg.modFns) && Tight(cfg.modFns)
    ensures forall f :: 0 <= f < |cfg.targets| && f != schedule ==>
      if cfg.install then NoFrameIn(cfg, Extent(cfg.targets[f].orig, vmLooked[f]))
      else NoFrameIn(cfg, Extent(cfg.targets[f].mod, modLooked[f]))
  {
    var i :| 0 <= i < |s.log| && s.log[i].Redirected?;
    RedirectIsSafe(cfg, m, s, i);
    ReachableInv(cfg, m, s);
    TightFindsAll(cfg);
    forall f | 0 <= f < |cfg.targets| && f != schedule
      ensures if cfg.install then NoFrameIn(cfg, Extent(cfg.targets[f].orig, vmLooked[f]))
              else NoFrameIn(cfg, Extent(cfg.targets[f].mod, modLooked[f]))
    {
      if cfg.install {
        NothingInside(cfg, OrigAddrs(cfg.targets), vmLooked, schedule, f);
      } else {
        NothingInside(cfg, ModAddrs(cfg.targets), modLooked, schedule, f);
      }
    }
  }

  /** No captured frame of a thread or of the idle task of an online CPU lies in `fn`. */
  ghost predicate NoFrameIn(cfg: Config, fn: Extent)
    requires ValidConfig(cfg)
  {
    && (forall k, j :: 0 <= k < |cfg.threads| && 0 <= j < |Captured(cfg.threads[k].stack)| ==>
          !Inside(fn, Captured(cfg.threads[k].stack)[j]))
    && (forall c: Cpu, j :: IsOnline(cfg, c) && 0 <= j < |Captured(cfg.idle[c])| ==>
          !Inside(fn, Captured(cfg.idle[c])[j]))
  }

  lemma NothingInside(cfg: Config, addr: seq<Word>, looked: seq<Word>, schedule: nat, f: nat)
    requires ValidConfig(cfg) && |addr| == |looked| && NothingBlocked(cfg, Registered(addr, looked, schedule))
    requires f < |looked| && f != schedule
    ensures NoFrameIn(cfg, Extent(addr[f], looked[f]))
  {
    var fns := Registered(addr, looked, schedule);
    forall k, j | 0 <= k < |cfg.threads| && 0 <= j < |Captured(cfg.threads[k].stack)|
      ensures !Inside(Extent(addr[f], looked[f]), Captured(cfg.threads[k].stack)[j])
    {
      FrameOutside(fns, addr, looked, schedule, f, cfg.threads[k].stack, j);
    }
    forall c: Cpu, j | IsOnline(cfg, c) && 0 <= j < |Captured(cfg.idle[c])|
      ensures !Inside(Extent(addr[f], looked[f]), Captured(cfg.idle[c])[j])
    {
      FrameOutside(fns, addr, looked, schedule, f, cfg.idle[c], j);
    }
  }

  lemma FrameOutside(fns: seq<Extent>, addr: seq<Word>, looked: seq<Word>, schedule: nat, f: nat, stack: Stack, j: nat)
    requires |addr| == |looked| && fns == Registered(addr, looked, schedule) && f < |looked| && f != schedule
    requires !Blocked(fns, stack) && j < |Captured(stack)|
    ensures !Inside(Extent(addr[f], looked[f]), Captured(stack)[j])
  {
    assert fns[f] in fns;
    assert !Hit(fns, Captured(stack)[j]);
  }

  // The first process changes the machine when all CPUs have checked without an error.
  lemma ChangedMeansChecked(cfg: Config, m: Machine, s: State, f: Cpu)
    requires Base(cfg, m, s) && IsOnline(cfg, f) && IsFirst(cfg, f) && s.machine != m
    ensures s.error == 0
    ensures forall c: Cpu :: IsOnline(cfg, c) ==> !Before(CheckBarrier, s.pc[c])
  {
    assert s.machine == MachineAt(cfg, m, s.pc[f]);
    assert Past(ClearBarrier, s.pc[f]) && ErrorAt(cfg, f, s.pc[f], s.error);
    assert Past(CheckBarrier, s.pc[f]) && Counter(s, CheckBarrier) == 0;
    forall c: Cpu | IsOnline(cfg, c) ensures !Before(CheckBarrier, s.pc[c]) {
      if Before(CheckBarrier, s.pc[c]) {
        StillCounted(cfg, s, CheckBarrier, c);
      }
    }
  }

  /** Safety in terms of the machine: in every reachable state, if the classes or the
      text are not what they were, then nothing was in the way. */
  lemma ChangedMachineIsSafe(cfg: Config, m: Machine, s: State)
    requires Reachable(cfg, m, s) && (exists c: Cpu :: IsOnline(cfg, c))
    requires s.machine != m
    ensures NothingInTheWay(cfg)
  {
    ReachableInv(cfg, m, s);
    var c0: Cpu :| IsOnline(cfg, c0);
    var f := FirstExists(cfg, c0);
    ChangedMeansChecked(cfg, m, s, f);
    AllChecksPassed(cfg, s);
  }

  // --------------------------------------------------------- phase separation

  // What must have happened, on every CPU, before an event of a phase.
  function PhaseOf(op: Op): nat {
    match op
    case Check => 0
    case TakeOffline => 1
    case Dequeue(_) => 1
    case SwitchOp => 2
    case RedirectOp => 3
    case TakeOnline => 4
    case Enqueue(_) => 4
  }

  // The CPU takes part in the operation at all.
  ghost predicate Due(cfg: Config, c: Cpu, op: Op)
    requires ValidConfig(cfg) && IsOnline(cfg, c)
  {
    match op
    case SwitchOp => IsFirst(cfg, c)
    case RedirectOp => IsFirst(cfg, c)
    case Dequeue(t) => Movable(cfg.threads, c, cfg.stop[c], t)
    case Enqueue(t) => Movable(cfg.threads, c, cfg.stop[c], t)
    case _ => true
  }

  // Once an event of a later phase has happened, the operation is done.
  lemma PhaseMeans(cfg: Config, m: Machine, s: State, i: nat, c: Cpu, op: Op)
    requires Inv(cfg, m, s) && i < |s.log| && IsOnline(cfg, c)
    requires Due(cfg, c, op) && PhaseOf(op) < Phase(s.log[i])
    ensures HasDone(cfg, c, s.pc[c], op)
  {
    assert Reached(cfg, s, Phase(s.log[i]));
    StartedMeansNoError(cfg, m, s, i);
    assert ErrorAt(cfg, c, s.pc[c], s.error);
    if Before(CheckBarrier, s.pc[c]) {
      StillCounted(cfg, s, CheckBarrier, c);
    }
    if Phase(s.log[i]) >= 2 && Before(ClearBarrier, s.pc[c]) {
      StillCounted(cfg, s, ClearBarrier, c);
    }
  }

  // What belongs to an earlier phase happened earlier.
  lemma {:induction false} TallyBefore(log: seq<Event>, i: nat, c: Cpu, op: Op, n: nat)
    requires InPhases(log) && i < |log| && i <= n <= |log| && PhaseOf(op) < Phase(log[i])
    ensures Tally(log[..n], c, op) == Tally(log[..i], c, op)
  {
    if i < n {
      var e := log[n - 1];
      assert i < n - 1 ==> Phase(log[i]) <= Phase(e);
      assert OpOf(e) != op;
      assert log[..n][..n - 1] == log[..n - 1];
      TallyBefore(log, i, c, op, n - 1);
    }
  }

  /** Order over whole runs: the history runs through the phases one after the
      other, and its events go through the right classes: dequeues through those of
      `m`, enqueues through the swapped ones. */
  lemma PhasesInOrder(cfg: Config, m: Machine, s: State)
    requires Reachable(cfg, m, s) && Fits(cfg, s) && |m.text| == |s.machine.text|
    ensures InPhases(s.log)
    ensures forall i :: 0 <= i < |s.log| ==> EventOk(cfg, m, s.log[i])
  {
    ReachableInv(cfg, m, s);
  }

  /** No phase starts before the ones before it are complete on every CPU: before any
      event, every operation of an earlier phase that is due on any CPU has happened, and
      exactly once. So every CPU has checked its stacks before any CPU goes offline or
      dequeues, has gone offline and dequeued all its tasks before the switch, which comes
      before the redirection, which comes before any CPU goes online or enqueues. */
  lemma PhasesComplete(cfg: Config, m: Machine, s: State, i: nat, c: Cpu, op: Op)
    requires Reachable(cfg, m, s) && Fits(cfg, s) && i < |s.log| && IsOnline(cfg, c)
    requires Due(cfg, c, op) && PhaseOf(op) < Phase(s.log[i])
    ensures Tally(s.log[..i], c, op) == 1
  {
    ReachableInv(cfg, m, s);
    PhaseMeans(cfg, m, s, i, c, op);
    TallyBefore(s.log, i, c, op, |s.log|);
    assert s.log[..|s.log|] == s.log;
  }

  /** The order of events, event by event: checks come first; then CPUs go offline and
      dequeue; then the classes are switched, and only then the functions redirected; then
      CPUs go online and enqueue. */
  lemma EventOrder(cfg: Config, m: Machine, s: State, i: nat, j: nat)
    requires Reachable(cfg, m, s) && Fits(cfg, s) && |m.text| == |s.machine.text|
    requires i < j < |s.log|
    ensures s.log[j].Checked? ==> s.log[i].Checked?
    ensures s.log[j].WentOffline? || s.log[j].Dequeued? ==>
      s.log[i].Checked? || s.log[i].WentOffline? || s.log[i].Dequeued?
    ensures s.log[i].Switched? ==> !s.log[j].Checked? && !s.log[j].WentOffline? && !s.log[j].Dequeued?
    ensures s.log[i].Redirected? ==> s.log[j].Redirected? || s.log[j].WentOnline? || s.log[j].Enqueued?
    ensures s.log[i].WentOnline? || s.log[i].Enqueued? ==> s.log[j].WentOnline? || s.log[j].Enqueued?
  {
    PhasesInOrder(cfg, m, s);
  }

  /** What has happened on every CPU before an event: before a dequeue the check; before
      the switch all dequeues; before the redirection the switch; before an enqueue the
      redirection. Each has happened once. */
  lemma HappenedBefore(cfg: Config, m: Machine, s: State, i: nat, c: Cpu, t: Task)
    requires Reachable(cfg, m, s) && Fits(cfg, s) && i < |s.log| && IsOnline(cfg, c)
    ensures !s.log[i].Checked? ==> Tally(s.log[..i], c, Op.Check) == 1
    ensures s.log[i].Switched? ==> Tally(s.log[..i], c, TakeOffline) == 1
    ensures s.log[i].Switched? && Movable(cfg.threads, c, cfg.stop[c], t) ==> Tally(s.log[..i], c, Dequeue(t)) == 1
    ensures s.log[i].Redirected? && IsFirst(cfg, c) ==> Tally(s.log[..i], c, SwitchOp) == 1
    ensures (s.log[i].WentOnline? || s.log[i].Enqueued?) && IsFirst(cfg, c) ==> Tally(s.log[..i], c, RedirectOp) == 1
  {
    if !s.log[i].Checked? {
      PhasesComplete(cfg, m, s, i, c, Op.Check);
    }
    if s.log[i].Switched? {
      PhasesComplete(cfg, m, s, i, c, TakeOffline);
      if Movable(cfg.threads, c, cfg.stop[c], t) {
        PhasesComplete(cfg, m, s, i, c, Dequeue(t));
      }
    }
    if IsFirst(cfg, c) {
      if s.log[i].Redirected? {
        PhasesComplete(cfg, m, s, i, c, SwitchOp);
      }
      if s.log[i].WentOnline? || s.log[i].Enqueued? {
        PhasesComplete(cfg, m, s, i, c, RedirectOp);
      }
    }
  }

  /** Which class contents a queue operation goes through, and which versions of the
      clock and of taking a runqueue off or on line. */
  lemma ClassesUsed(cfg: Config, m: Machine, s: State, i: nat)
    requires Reachable(cfg, m, s) && Fits(cfg, s) && |m.text| == |s.machine.text| && i < |s.log|
    ensures s.log[i].Dequeued? ==> s.log[i].classes == m.classes
    ensures s.log[i].Enqueued? ==> s.log[i].classes == if cfg.install then cfg.modClasses else m.bak
    ensures s.log[i].WentOffline? ==> s.log[i].mod == !cfg.install
    ensures s.log[i].WentOnline? ==> s.log[i].mod == cfg.install
  {
    PhasesInOrder(cfg, m, s);
  }

  /** Only the first process of an install raises the outcome of the recheck, and a CPU
      raises its own verdict; an error that is there already stays. */
  lemma ErrorsRaised(cfg: Config, s: State, c: Cpu)
    requires Fits(cfg, s) && IsOnline(cfg, c)
    ensures s.pc[c].Recheck? && cfg.install && ProcessId(cfg.online, c) == 0 && s.error == 0 ==>
      Step(cfg, s, c).error == cfg.recheck
    ensures s.pc[c].Recheck? && !(cfg.install && ProcessId(cfg.online, c) == 0 && s.error == 0) ==>
      Step(cfg, s, c).error == s.error
    ensures s.pc[c].Check? ==>
      Step(cfg, s, c).pc[c] == Report(Verdict(cfg, c)) && Step(cfg, s, c).error == s.error
    ensures s.pc[c].Report? ==> Step(cfg, s, c).error == if s.error == 0 then s.pc[c].error else s.error
    ensures s.pc[c].ReadError? ==> (Step(cfg, s, c).pc[c].Offline? <==> s.error == 0)
  {
  }

  // ------------------------------------------------------------ conservation

  /** When every CPU has returned success, the runqueue of CPU `c` holds exactly its
      queued tasks again; each of them but the stopper was dequeued once and enqueued
      once by `c`; any other task, and any task by an offline CPU, never. */
  lemma TasksConserved(cfg: Config, m: Machine, s: State, c: Cpu, t: Task)
    requires Reachable(cfg, m, s) && Fits(cfg, s)
    requires forall d: Cpu :: IsOnline(cfg, d) ==> s.pc[d].Done?
    ensures IsOnline(cfg, c) ==> Complete(cfg.threads, c, s.queues[c])
    ensures Tally(s.log, c, Dequeue(t)) == Tally(s.log, c, Enqueue(t))
         == if IsOnline(cfg, c) && Movable(cfg.threads, c, cfg.stop[c], t) then 1 else 0
  {
    ReachableInv(cfg, m, s);
    ConservedAt(cfg, s, c, t);
  }

  lemma ConservedAt(cfg: Config, s: State, c: Cpu, t: Task)
    requires Fits(cfg, s) && Queues(cfg, s) && Tallies(cfg, s)
    requires IsOnline(cfg, c) ==> s.pc[c].Done?
    ensures IsOnline(cfg, c) ==> Complete(cfg.threads, c, s.queues[c])
    ensures Tally(s.log, c, Dequeue(t)) == Tally(s.log, c, Enqueue(t))
         == if IsOnline(cfg, c) && Movable(cfg.threads, c, cfg.stop[c], t) then 1 else 0
  {
    assert IsOnline(cfg, c) ==> QueueAt(cfg, c, s.queues[c], s.pc[c]);
  }

  // --------------------------------------------------------------- agreement

  lemma DoneCounters(cfg: Config, s: State)
    requires Fits(cfg, s) && Counters(cfg, s) && AllDone(cfg, s)
    ensures s.cpuFinished == s.clearFinished == s.redirectFinished == 0
  {
    forall b: Barrier ensures Counter(s, b) == 0 {
      var fs := Flags(cfg, s, b);
      if Count(fs) > 0 {
        var i := CountOnto(fs, 0);
        assert IsOnline(cfg, i);
      }
    }
    assert Counter(s, CheckBarrier) == Counter(s, ClearBarrier) == Counter(s, RedirectBarrier) == 0;
  }

  /** Every CPU has returned 0, and the machine that was `m` is swapped. */
  ghost predicate Succeeded(cfg: Config, m: Machine, s: State)
    requires Fits(cfg, s) && |m.text| == |s.machine.text|
  {
    && s.error == 0
    && (forall c: Cpu :: IsOnline(cfg, c) ==> s.pc[c].Done?)
    && s.machine == Swapped(cfg, m)
  }

  /** Every CPU has returned the same error, one that somebody raised, and nothing
      but stack checks has happened. */
  ghost predicate FailedUntouched(cfg: Config, m: Machine, s: State)
    requires Fits(cfg, s)
  {
    && s.error != 0 && Cause(cfg, s.error)
    && (forall c: Cpu :: IsOnline(cfg, c) ==> s.pc[c] == Failed(s.error))
    && s.machine == m
    && (forall i :: 0 <= i < |s.log| ==> s.log[i].Checked?)
  }

  /** All or nothing. When every CPU has returned, all three counters are zero, every
      runqueue holds its queued tasks, and the outcome depends only on whether
      something was in the way. */
  lemma Agreement(cfg: Config, m: Machine, s: State)
    requires Reachable(cfg, m, s) && Fits(cfg, s) && AllDone(cfg, s) && |m.text| == |s.machine.text|
    requires exists c: Cpu :: IsOnline(cfg, c)
    ensures s.cpuFinished == s.clearFinished == s.redirectFinished == 0
    ensures NothingInTheWay(cfg) <==> Succeeded(cfg, m, s)
    ensures !NothingInTheWay(cfg) <==> FailedUntouched(cfg, m, s)
    ensures forall c: Cpu :: IsOnline(cfg, c) ==> Complete(cfg.threads, c, s.queues[c])
  {
    ReachableInv(cfg, m, s);
    DoneCounters(cfg, s);
    DoneQueues(cfg, s);
    if s.error == 0 {
      DoneNoError(cfg, m, s);
    } else {
      DoneError(cfg, m, s);
    }
  }

  lemma DoneQueues(cfg: Config, s: State)
    requires Fits(cfg, s) && Queues(cfg, s) && AllDone(cfg, s)
    ensures forall c: Cpu :: IsOnline(cfg, c) ==> Complete(cfg.threads, c, s.queues[c])
  {
    forall c: Cpu | IsOnline(cfg, c) ensures Complete(cfg.threads, c, s.queues[c]) {
      assert QueueAt(cfg, c, s.queues[c], s.pc[c]);
    }
  }

  lemma DoneNoError(cfg: Config, m: Machine, s: State)
    requires Base(cfg, m, s) && AllDone(cfg, s) && s.error == 0
    requires exists c: Cpu :: IsOnline(cfg, c)
    ensures NothingInTheWay(cfg) && Succeeded(cfg, m, s)
  {
    forall c: Cpu | IsOnline(cfg, c) ensures s.pc[c].Done? {
      assert ErrorAt(cfg, c, s.pc[c], s.error);
    }
    var c0: Cpu :| IsOnline(cfg, c0);
    MachineMeanwhile(cfg, m, s, c0);
    AllChecksPassed(cfg, s);
  }

  lemma DoneError(cfg: Config, m: Machine, s: State)
    requires Base(cfg, m, s) && History(cfg, m, s) && Tallies(cfg, s) && Queues(cfg, s)
    requires AllDone(cfg, s) && s.error != 0
    requires exists c: Cpu :: IsOnline(cfg, c)
    ensures !NothingInTheWay(cfg) && FailedUntouched(cfg, m, s)
  {
    forall c: Cpu | IsOnline(cfg, c) ensures s.pc[c] == Failed(s.error) {
      assert ErrorAt(cfg, c, s.pc[c], s.error);
    }
    var c0: Cpu :| IsOnline(cfg, c0);
    var f := FirstExists(cfg, c0);
    assert s.machine == MachineAt(cfg, m, s.pc[f]);
    CauseBlocks(cfg, s.error);
    forall i | 0 <= i < |s.log| ensures s.log[i].Checked? {
      if Phase(s.log[i]) >= 1 {
        StartedMeansNoError(cfg, m, s, i);
      }
    }
  }

  // A raised error means that something was in the way.
  lemma CauseBlocks(cfg: Config, e: int)
    requires ValidConfig(cfg) && e != 0 && Cause(cfg, e)
    ensures !NothingInTheWay(cfg)
  {
    if !(cfg.install && e == cfg.recheck) {
      var c: Cpu :| IsOnline(cfg, c) && Verdict(cfg, c) != 0;
      if !Caught(cfg, cfg.idle[c]) {
        var k :| 0 <= k < |cfg.threads| && Caught(cfg, Stacks(cfg.threads)[k]);
        assert Caught(cfg, cfg.threads[k].stack);
      }
    }
  }
}
