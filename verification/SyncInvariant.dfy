/** What every step of the stopped machine keeps. */
module SyncInvariant {
  import opened Errno
  import opened HeadJump
  import opened SchedRebuild
  import opened ProcessIds
  import opened SyncProtocol

  // ---------------------------------------------------------------- barriers

  datatype Barrier = CheckBarrier | ClearBarrier | RedirectBarrier

  function Counter(s: State, b: Barrier): int {
    match b
    case CheckBarrier => s.cpuFinished
    case ClearBarrier => s.clearFinished
    case RedirectBarrier => s.redirectFinished
  }

  // The CPU has yet to decrement the counter of the barrier.
  predicate Before(b: Barrier, p: Pc) {
    || p.Recheck? || p.Check? || p.Report? || p.DecCheck?
    || (b != CheckBarrier &&
        (p.SpinCheck? || p.ReadError? || p.FailClear? || p.Offline? || p.Clear? || p.Drain? || p.DecClear?))
    || (b == RedirectBarrier &&
        (p.FailRedirect? || p.SpinClear? || p.Switch? || p.Redirect? || p.DecRedirect?))
  }

  // The CPU has seen the counter of the barrier at zero.
  predicate Past(b: Barrier, p: Pc) {
    match b
    case CheckBarrier => !Before(CheckBarrier, p) && !p.SpinCheck?
    case ClearBarrier =>
      p.Switch? || p.Redirect? || p.DecRedirect? || p.SpinRedirect? || p.Online? || p.Rebuild? || p.Done?
    case RedirectBarrier => p.Online? || p.Rebuild? || p.Done?
  }

  // How one step of CPU `c` relates to a barrier.
  ghost predicate BarrierMoved(b: Barrier, s: State, s': State, p: Pc, p': Pc) {
    && Counter(s', b) == Counter(s, b) - (if Before(b, p) && !Before(b, p') then 1 else 0)
    && (!Before(b, p) ==> !Before(b, p'))
    && (Past(b, p') ==> Counter(s', b) == Counter(s, b) && (Past(b, p) || Counter(s, b) == 0))
  }

  ghost predicate Moved(s: State, s': State, c: Cpu) {
    && |s.pc| == |s'.pc| && c < |s.pc|
    && s'.pc == s.pc[c := s'.pc[c]]
    && forall b: Barrier :: BarrierMoved(b, s, s', s.pc[c], s'.pc[c])
  }

  lemma StepMoves(cfg: Config, s: State, c: Cpu)
    requires Fits(cfg, s) && IsOnline(cfg, c)
    ensures Moved(s, Step(cfg, s, c), c)
  {
  }

  ghost function Flags(cfg: Config, s: State, b: Barrier): (r: seq<bool>)
    requires Fits(cfg, s)
    ensures |r| == |cfg.online|
  {
    seq(|cfg.online|, c requires 0 <= c < |cfg.online| => cfg.online[c] && Before(b, s.pc[c]))
  }

  // Every counter is the number of CPUs that have yet to decrement it.
  ghost predicate Counters(cfg: Config, s: State)
    requires Fits(cfg, s)
  {
    forall b: Barrier :: Counter(s, b) == Count(Flags(cfg, s, b))
  }

  // Nobody is past a barrier that somebody has yet to reach.
  ghost predicate Barriers(cfg: Config, s: State)
    requires Fits(cfg, s)
  {
    forall b: Barrier, c: Cpu :: IsOnline(cfg, c) && Past(b, s.pc[c]) ==> Counter(s, b) == 0
  }

  lemma KeepCounters(cfg: Config, s: State, s': State, c: Cpu)
    requires Fits(cfg, s) && Fits(cfg, s') && IsOnline(cfg, c)
    requires Counters(cfg, s) && Moved(s, s', c)
    ensures Counters(cfg, s')
  {
    forall b: Barrier ensures Counter(s', b) == Count(Flags(cfg, s', b)) {
      assert BarrierMoved(b, s, s', s.pc[c], s'.pc[c]);
      CountUpdate(Flags(cfg, s, b), c, Before(b, s'.pc[c]));
      assert Flags(cfg, s', b) == Flags(cfg, s, b)[c := Before(b, s'.pc[c])];
    }
  }

  // A CPU that has yet to decrement a counter keeps it positive.
  lemma StillCounted(cfg: Config, s: State, b: Barrier, c: Cpu)
    requires Fits(cfg, s) && Counters(cfg, s)
    requires IsOnline(cfg, c) && Before(b, s.pc[c])
    ensures Counter(s, b) > 0
  {
    CountPositive(Flags(cfg, s, b), c);
  }

  lemma KeepBarriers(cfg: Config, s: State, s': State, c: Cpu)
    requires Fits(cfg, s) && Fits(cfg, s') && IsOnline(cfg, c)
    requires Counters(cfg, s) && Barriers(cfg, s) && Moved(s, s', c)
    ensures Barriers(cfg, s')
  {
    forall b: Barrier, d: Cpu | IsOnline(cfg, d) && Past(b, s'.pc[d]) ensures Counter(s', b) == 0 {
      assert BarrierMoved(b, s, s', s.pc[c], s'.pc[c]);
      if d != c {
        assert Past(b, s.pc[d]);
        if Before(b, s.pc[c]) {
          StillCounted(cfg, s, b, c);
        }
      } else if Past(b, s.pc[c]) {
        assert Counter(s, b) == 0;
      }
    }
  }

  // ------------------------------------------------------------------ errors

  predicate Failing(p: Pc) {
    p.FailClear? || p.FailRedirect? || p.Failed?
  }

  function FailCode(p: Pc): int
    requires Failing(p)
  {
    match p
    case FailClear(e) => e
    case FailRedirect(e) => e
    case Failed(e) => e
  }

  // The CPU has read a clear error flag.
  predicate Succeeding(p: Pc) {
    Past(CheckBarrier, p) && !p.ReadError? && !Failing(p)
  }

  /** Somebody had a reason to raise `e`. */
  ghost predicate Cause(cfg: Config, e: int)
    requires ValidConfig(cfg)
  {
    || (cfg.install && e == cfg.recheck)
    || (e == -EBUSY && exists c: Cpu :: IsOnline(cfg, c) && Verdict(cfg, c) != 0)
  }

  // What CPU `c`, being at `p`, knows about the error flag.
  ghost predicate ErrorAt(cfg: Config, c: Cpu, p: Pc, error: int)
    requires ValidConfig(cfg) && IsOnline(cfg, c)
  {
    && (Failing(p) ==> error != 0 && FailCode(p) == error)
    && (Succeeding(p) ==> error == 0)
    && (p.Report? ==> p.error == Verdict(cfg, c))
    && (!p.Recheck? && RecheckError(cfg, c) != 0 ==> error != 0)
    && (!p.Recheck? && !p.Check? && !p.Report? && Verdict(cfg, c) != 0 ==> error != 0)
  }

  ghost predicate Errors(cfg: Config, s: State)
    requires Fits(cfg, s)
  {
    && (s.error != 0 ==> Cause(cfg, s.error))
    && forall c: Cpu :: IsOnline(cfg, c) ==> ErrorAt(cfg, c, s.pc[c], s.error)
  }

  // An error, once raised, stays; a new one comes from a CPU that is still checking.
  ghost predicate ErrorMoved(cfg: Config, s: State, s': State, c: Cpu)
    requires ValidConfig(cfg) && IsOnline(cfg, c) && c < |s.pc| && c < |s'.pc|
  {
    && (s.error != 0 ==> s'.error == s.error)
    && (s'.error != s.error ==> Cause(cfg, s'.error) && Before(CheckBarrier, s.pc[c]))
    && ErrorAt(cfg, c, s'.pc[c], s'.error)
  }

  lemma StepErrors(cfg: Config, s: State, c: Cpu)
    requires Fits(cfg, s) && IsOnline(cfg, c)
    requires ErrorAt(cfg, c, s.pc[c], s.error)
    ensures ErrorMoved(cfg, s, Step(cfg, s, c), c)
  {
  }

  lemma KeepErrors(cfg: Config, s: State, s': State, c: Cpu)
    requires Fits(cfg, s) && Fits(cfg, s') && IsOnline(cfg, c)
    requires Counters(cfg, s) && Barriers(cfg, s) && Errors(cfg, s)
    requires Moved(s, s', c) && ErrorMoved(cfg, s, s', c)
    ensures Errors(cfg, s')
  {
    forall d: Cpu | IsOnline(cfg, d) ensures ErrorAt(cfg, d, s'.pc[d], s'.error) {
      assert ErrorAt(cfg, d, s.pc[d], s.error);
      if d != c && Succeeding(s.pc[d]) {
        assert Counter(s, CheckBarrier) == 0;
        if Before(CheckBarrier, s.pc[c]) {
          StillCounted(cfg, s, CheckBarrier, c);
        }
      }
    }
  }

  // ----------------------------------------------------------------- machine

  // The machine once the first process, starting from `m`, has come to `p`.
  ghost function MachineAt(cfg: Config, m: Machine, p: Pc): Machine
    requires ValidConfig(cfg) && Mapped(cfg.base, |m.text|, cfg.targets)
  {
    if !Past(ClearBarrier, p) || p.Switch? then m
    else if p.Redirect? then SwitchMachine(cfg, m)
    else RedirectMachine(cfg, SwitchMachine(cfg, m))
  }

  ghost function Swapped(cfg: Config, m: Machine): Machine
    requires ValidConfig(cfg) && Mapped(cfg.base, |m.text|, cfg.targets)
  {
    RedirectMachine(cfg, SwitchMachine(cfg, m))
  }

  // Only the first process rewrites the machine, and only in its turn.
  ghost predicate Machines(cfg: Config, m: Machine, s: State)
    requires Fits(cfg, s)
  {
    && |m.text| == |s.machine.text|
    && (forall c: Cpu :: IsOnline(cfg, c) && IsFirst(cfg, c) ==> s.machine == MachineAt(cfg, m, s.pc[c]))
    && (forall c: Cpu :: IsOnline(cfg, c) && !IsFirst(cfg, c) ==> !s.pc[c].Switch? && !s.pc[c].Redirect?)
  }

  lemma OneFirst(cfg: Config, c: Cpu, d: Cpu)
    requires IsOnline(cfg, c) && IsOnline(cfg, d) && IsFirst(cfg, c) && IsFirst(cfg, d)
    ensures c == d
  {
    ProcessIdsBijective(cfg.online);
  }

  lemma FirstExists(cfg: Config, c: Cpu) returns (f: Cpu)
    requires IsOnline(cfg, c)
    ensures IsOnline(cfg, f) && IsFirst(cfg, f)
  {
    CountPositive(cfg.online, c);
    f := CountOnto(cfg.online, 0);
  }

  ghost predicate MachineMoved(cfg: Config, m: Machine, s: State, s': State, c: Cpu)
    requires Fits(cfg, s) && Fits(cfg, s') && IsOnline(cfg, c) && |m.text| == |s.machine.text|
  {
    && (!s.pc[c].Switch? && !s.pc[c].Redirect? ==> s'.machine == s.machine)
    && (IsFirst(cfg, c) && s.machine == MachineAt(cfg, m, s.pc[c]) ==> s'.machine == MachineAt(cfg, m, s'.pc[c]))
    && (!IsFirst(cfg, c) && !s.pc[c].Switch? && !s.pc[c].Redirect? ==> !s'.pc[c].Switch? && !s'.pc[c].Redirect?)
  }

  lemma StepMachines(cfg: Config, m: Machine, s: State, c: Cpu)
    requires Fits(cfg, s) && IsOnline(cfg, c) && |m.text| == |s.machine.text|
    ensures MachineMoved(cfg, m, s, Step(cfg, s, c), c)
  {
  }

  lemma KeepMachines(cfg: Config, m: Machine, s: State, s': State, c: Cpu)
    requires Fits(cfg, s) && Fits(cfg, s') && IsOnline(cfg, c)
    requires Machines(cfg, m, s) && Moved(s, s', c) && MachineMoved(cfg, m, s, s', c)
    requires |s'.machine.text| == |s.machine.text|
    ensures Machines(cfg, m, s')
  {
    forall d: Cpu | IsOnline(cfg, d) && IsFirst(cfg, d) ensures s'.machine == MachineAt(cfg, m, s'.pc[d]) {
      if IsFirst(cfg, c) {
        OneFirst(cfg, c, d);
      }
    }
  }

  // ------------------------------------------------------------------ queues

  ghost predicate QueueAt(cfg: Config, c: Cpu, q: multiset<Task>, p: Pc)
    requires ValidConfig(cfg) && IsOnline(cfg, c)
  {
    var n := |cfg.threads|;
    match p
    case Clear(i) => i <= n && ClearedBelow(cfg.threads, c, cfg.stop[c], q, i)
    case Drain => ClearedBelow(cfg.threads, c, cfg.stop[c], q, n)
    case DecClear => RebuiltBelow(cfg.threads, c, cfg.stop[c], q, 0)
    case SpinClear => RebuiltBelow(cfg.threads, c, cfg.stop[c], q, 0)
    case Switch => RebuiltBelow(cfg.threads, c, cfg.stop[c], q, 0)
    case Redirect => RebuiltBelow(cfg.threads, c, cfg.stop[c], q, 0)
    case DecRedirect => RebuiltBelow(cfg.threads, c, cfg.stop[c], q, 0)
    case SpinRedirect => RebuiltBelow(cfg.threads, c, cfg.stop[c], q, 0)
    case Online => RebuiltBelow(cfg.threads, c, cfg.stop[c], q, 0)
    case Rebuild(i) => i <= n && RebuiltBelow(cfg.threads, c, cfg.stop[c], q, i)
    case _ => Complete(cfg.threads, c, q)
  }

  // Every runqueue holds exactly what its own CPU has left on it.
  ghost predicate Queues(cfg: Config, s: State)
    requires Fits(cfg, s)
  {
    forall c: Cpu :: IsOnline(cfg, c) ==> QueueAt(cfg, c, s.queues[c], s.pc[c])
  }

  ghost predicate QueueMoved(cfg: Config, s: State, s': State, c: Cpu)
    requires Fits(cfg, s) && Fits(cfg, s') && IsOnline(cfg, c)
  {
    && s'.queues == s.queues[c := s'.queues[c]]
    && QueueAt(cfg, c, s'.queues[c], s'.pc[c])
  }

  lemma NextQueueAt(cfg: Config, s: State, c: Cpu)
    requires Fits(cfg, s) && IsOnline(cfg, c)
    requires QueueAt(cfg, c, s.queues[c], s.pc[c])
    ensures QueueAt(cfg, c, NextQueue(cfg, s, c), NextPc(cfg, s, c))
  {
    var q, threads, stop := s.queues[c], cfg.threads, cfg.stop[c];
    match s.pc[c]
    case Clear(i) => DequeueAdvances(threads, c, stop, q, i);
    case Drain => OnlyStopperLeft(threads, c, stop, q);
    case Rebuild(i) => EnqueueAdvances(threads, c, stop, q, i);
    case _ =>
  }

  lemma StepQueues(cfg: Config, s: State, c: Cpu)
    requires Fits(cfg, s) && IsOnline(cfg, c)
    requires QueueAt(cfg, c, s.queues[c], s.pc[c])
    ensures QueueMoved(cfg, s, Step(cfg, s, c), c)
  {
    NextQueueAt(cfg, s, c);
  }

  lemma KeepQueues(cfg: Config, s: State, s': State, c: Cpu)
    requires Fits(cfg, s) && Fits(cfg, s') && IsOnline(cfg, c)
    requires Queues(cfg, s) && Moved(s, s', c) && QueueMoved(cfg, s, s', c)
    ensures Queues(cfg, s')
  {
    forall d: Cpu | IsOnline(cfg, d) ensures QueueAt(cfg, d, s'.queues[d], s'.pc[d]) {
      assert QueueAt(cfg, d, s.queues[d], s.pc[d]);
    }
  }
}
