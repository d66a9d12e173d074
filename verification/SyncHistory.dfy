/** What the history of a stopped machine can look like: which events, how often,
    in which order, and through which scheduler classes. */
module SyncHistory {
  import opened HeadJump
  import opened SchedRebuild
  import opened SyncProtocol
  import opened SyncInvariant

  // ------------------------------------------------------------------ order

  /** The phase an event belongs to. */
  function Phase(e: Event): nat {
    match e
    case Checked(_) => 0
    case WentOffline(_, _) => 1
    case Dequeued(_, _, _) => 1
    case Switched(_) => 2
    case Redirected(_) => 3
    case WentOnline(_, _) => 4
    case Enqueued(_, _, _) => 4
  }

  ghost predicate InPhases(log: seq<Event>) {
    forall i, j :: 0 <= i < j < |log| ==> Phase(log[i]) <= Phase(log[j])
  }

  /** Each event is of a CPU that may cause it, and queue operations before the swap
      go through the classes of `m`, those after it through the swapped ones. */
  ghost predicate EventOk(cfg: Config, m: Machine, e: Event)
    requires ValidConfig(cfg) && Mapped(cfg.base, |m.text|, cfg.targets)
  {
    && IsOnline(cfg, e.cpu)
    && match e
       case Checked(_) => true
       case WentOffline(_, mod) => mod == !cfg.install
       case Dequeued(c, t, classes) => Movable(cfg.threads, c, cfg.stop[c], t) && classes == m.classes
       case Switched(c) => IsFirst(cfg, c)
       case Redirected(c) => IsFirst(cfg, c)
       case WentOnline(_, mod) => mod == cfg.install
       case Enqueued(c, t, classes) =>
         Movable(cfg.threads, c, cfg.stop[c], t) && classes == Swapped(cfg, m).classes
  }

  predicate AfterSwitch(p: Pc) {
    p.Redirect? || AfterRedirect(p)
  }

  predicate AfterRedirect(p: Pc) {
    p.DecRedirect? || p.SpinRedirect? || p.Online? || p.Rebuild? || p.Done?
  }

  // What an event of phase `k` in the history says about the current state.
  ghost predicate Reached(cfg: Config, s: State, k: nat)
    requires Fits(cfg, s)
  {
    && (k >= 1 ==> s.cpuFinished == 0)
    && (k >= 2 ==> s.clearFinished == 0 && forall f: Cpu :: IsOnline(cfg, f) && IsFirst(cfg, f) ==>
      AfterSwitch(s.pc[f]))
    && (k >= 3 ==> forall f: Cpu :: IsOnline(cfg, f) && IsFirst(cfg, f) ==> AfterRedirect(s.pc[f]))
    && (k >= 4 ==> s.redirectFinished == 0)
  }

  ghost predicate History(cfg: Config, m: Machine, s: State)
    requires Fits(cfg, s) && |m.text| == |s.machine.text|
  {
    && InPhases(s.log)
    && forall i :: 0 <= i < |s.log| ==> EventOk(cfg, m, s.log[i]) && Reached(cfg, s, Phase(s.log[i]))
  }

  // The invariants that the history rests on.
  ghost predicate Base(cfg: Config, m: Machine, s: State) {
    && Fits(cfg, s) && Counters(cfg, s) && Barriers(cfg, s) && Errors(cfg, s) && Machines(cfg, m, s)
  }

  // Before the swap the machine is `m`; from the rebuild on it is the swapped one.
  lemma MachineMeanwhile(cfg: Config, m: Machine, s: State, c: Cpu)
    requires Base(cfg, m, s) && IsOnline(cfg, c)
    ensures Before(ClearBarrier, s.pc[c]) ==> s.machine == m
    ensures Past(RedirectBarrier, s.pc[c]) ==> s.machine == Swapped(cfg, m)
  {
    var f := FirstExists(cfg, c);
    assert ErrorAt(cfg, c, s.pc[c], s.error) && ErrorAt(cfg, f, s.pc[f], s.error);
    if Before(ClearBarrier, s.pc[c]) {
      StillCounted(cfg, s, ClearBarrier, c);
      assert Past(ClearBarrier, s.pc[f]) ==> Counter(s, ClearBarrier) == 0;
    }
    if Past(RedirectBarrier, s.pc[c]) {
      assert Counter(s, RedirectBarrier) == 0;
      if Before(RedirectBarrier, s.pc[f]) {
        StillCounted(cfg, s, RedirectBarrier, f);
      }
    }
  }

  lemma ReachedStays(cfg: Config, s: State, s': State, c: Cpu, k: nat)
    requires Fits(cfg, s) && Fits(cfg, s') && Counters(cfg, s) && IsOnline(cfg, c)
    requires Moved(s, s', c) && (AfterSwitch(s.pc[c]) ==> AfterSwitch(s'.pc[c])) &&
      (AfterRedirect(s.pc[c]) ==> AfterRedirect(s'.pc[c]))
    requires Reached(cfg, s, k)
    ensures Reached(cfg, s', k)
  {
    forall b: Barrier | Counter(s, b) == 0 ensures Counter(s', b) == 0 {
      assert BarrierMoved(b, s, s', s.pc[c], s'.pc[c]);
      if Before(b, s.pc[c]) {
        StillCounted(cfg, s, b, c);
      }
    }
    assert Counter(s, CheckBarrier) == 0 ==> Counter(s', CheckBarrier) == 0;
    assert Counter(s, ClearBarrier) == 0 ==> Counter(s', ClearBarrier) == 0;
    assert Counter(s, RedirectBarrier) == 0 ==> Counter(s', RedirectBarrier) == 0;
  }

  // A CPU about to cause an event of phase k has seen no later phase.
  lemma NotYet(cfg: Config, m: Machine, s: State, c: Cpu, k: nat)
    requires Base(cfg, m, s) && IsOnline(cfg, c) && Reached(cfg, s, k)
    ensures s.pc[c].Check? ==> k == 0
    ensures s.pc[c].Offline? || s.pc[c].Clear? ==> k <= 1
    ensures s.pc[c].Switch? ==> k <= 1
    ensures s.pc[c].Redirect? ==> k <= 2
  {
    if Before(CheckBarrier, s.pc[c]) {
      StillCounted(cfg, s, CheckBarrier, c);
    }
    if Before(ClearBarrier, s.pc[c]) {
      StillCounted(cfg, s, ClearBarrier, c);
    }
  }

  // What the position of one CPU says about the phases reached.
  lemma ReachedAt(cfg: Config, m: Machine, s: State, c: Cpu)
    requires Base(cfg, m, s) && IsOnline(cfg, c)
    ensures Reached(cfg, s, 0)
    ensures Past(CheckBarrier, s.pc[c]) ==> Reached(cfg, s, 1)
    ensures IsFirst(cfg, c) && s.pc[c].Redirect? ==> Reached(cfg, s, 2)
    ensures IsFirst(cfg, c) && s.pc[c].DecRedirect? ==> Reached(cfg, s, 3)
    ensures Past(RedirectBarrier, s.pc[c]) ==> Reached(cfg, s, 4)
  {
    var p := s.pc[c];
    assert Past(CheckBarrier, p) ==> Counter(s, CheckBarrier) == 0;
    assert Past(ClearBarrier, p) ==> Counter(s, ClearBarrier) == 0;
    assert Past(RedirectBarrier, p) ==> Counter(s, RedirectBarrier) == 0;
    forall f: Cpu | IsOnline(cfg, f) && IsFirst(cfg, f)
      ensures Past(RedirectBarrier, p) ==> AfterRedirect(s.pc[f])
      ensures IsFirst(cfg, c) ==> f == c
    {
      assert ErrorAt(cfg, f, s.pc[f], s.error) && ErrorAt(cfg, c, p, s.error);
      if Before(RedirectBarrier, s.pc[f]) {
        StillCounted(cfg, s, RedirectBarrier, f);
      }
      if IsFirst(cfg, c) {
        OneFirst(cfg, c, f);
      }
    }
  }

  // Where an event leaves the CPU that causes it.
  lemma AfterEvent(cfg: Config, s: State, c: Cpu, e: Event)
    requires Fits(cfg, s) && IsOnline(cfg, c) && e in Events(cfg, s, c)
    requires !IsFirst(cfg, c) ==> !s.pc[c].Switch? && !s.pc[c].Redirect?
    ensures Phase(e) <= 4
    ensures Phase(e) == 1 ==> Past(CheckBarrier, NextPc(cfg, s, c))
    ensures Phase(e) == 2 ==> IsFirst(cfg, c) && NextPc(cfg, s, c).Redirect?
    ensures Phase(e) == 3 ==> IsFirst(cfg, c) && NextPc(cfg, s, c).DecRedirect?
    ensures Phase(e) == 4 ==> Past(RedirectBarrier, NextPc(cfg, s, c))
  {
  }

  // The phase of the event that CPU `c` causes next has been reached right after it.
  lemma ReachedNow(cfg: Config, m: Machine, s: State, c: Cpu, e: Event)
    requires Base(cfg, m, s) && IsOnline(cfg, c) && Base(cfg, m, Step(cfg, s, c))
    requires e in Events(cfg, s, c)
    ensures Reached(cfg, Step(cfg, s, c), Phase(e))
  {
    AfterEvent(cfg, s, c, e);
    ReachedAt(cfg, m, Step(cfg, s, c), c);
  }

  lemma EventsOk(cfg: Config, m: Machine, s: State, c: Cpu)
    requires Base(cfg, m, s) && IsOnline(cfg, c)
    ensures forall e :: e in Events(cfg, s, c) ==> EventOk(cfg, m, e)
  {
    MachineMeanwhile(cfg, m, s, c);
  }

  lemma StepAfter(cfg: Config, s: State, c: Cpu)
    requires Fits(cfg, s) && IsOnline(cfg, c)
    ensures AfterSwitch(s.pc[c]) ==> AfterSwitch(Step(cfg, s, c).pc[c])
    ensures AfterRedirect(s.pc[c]) ==> AfterRedirect(Step(cfg, s, c).pc[c])
    ensures |Events(cfg, s, c)| <= 1
    ensures forall e :: e in Events(cfg, s, c) ==>
      && (Phase(e) == 0 ==> s.pc[c].Check?)
      && (Phase(e) == 1 ==> s.pc[c].Offline? || s.pc[c].Clear?)
      && (Phase(e) == 2 ==> s.pc[c].Switch?)
      && (Phase(e) == 3 ==> s.pc[c].Redirect?)
  {
  }

  lemma KeepHistory(cfg: Config, m: Machine, s: State, c: Cpu)
    requires Base(cfg, m, s) && IsOnline(cfg, c) && Base(cfg, m, Step(cfg, s, c))
    requires History(cfg, m, s)
    ensures History(cfg, m, Step(cfg, s, c))
  {
    var s' := Step(cfg, s, c);
    var es := Events(cfg, s, c);
    StepMoves(cfg, s, c);
    StepAfter(cfg, s, c);
    EventsOk(cfg, m, s, c);
    forall e | e in es ensures Reached(cfg, s', Phase(e)) {
      ReachedNow(cfg, m, s, c, e);
    }
    KeepHistoryEvents(cfg, m, s, s', c, es);
  }

  lemma KeepHistoryEvents(cfg: Config, m: Machine, s: State, s': State, c: Cpu, es: seq<Event>)
    requires Base(cfg, m, s) && IsOnline(cfg, c) && Base(cfg, m, s') && History(cfg, m, s)
    requires Moved(s, s', c) && (AfterSwitch(s.pc[c]) ==> AfterSwitch(s'.pc[c])) &&
      (AfterRedirect(s.pc[c]) ==> AfterRedirect(s'.pc[c]))
    requires s'.log == s.log + es && |es| <= 1
    requires forall e :: e in es ==> EventOk(cfg, m, e) && Reached(cfg, s', Phase(e))
    requires forall e :: e in es ==>
      && (Phase(e) == 0 ==> s.pc[c].Check?)
      && (Phase(e) == 1 ==> s.pc[c].Offline? || s.pc[c].Clear?)
      && (Phase(e) == 2 ==> s.pc[c].Switch?)
      && (Phase(e) == 3 ==> s.pc[c].Redirect?)
    ensures History(cfg, m, s')
  {
    forall i | 0 <= i < |s.log|
      ensures Reached(cfg, s', Phase(s.log[i]))
      ensures forall e :: e in es ==> Phase(s.log[i]) <= Phase(e)
    {
      ReachedStays(cfg, s, s', c, Phase(s.log[i]));
      NotYet(cfg, m, s, c, Phase(s.log[i]));
    }
  }

  // ---------------------------------------------------------------- tallies

  /** What an event did, apart from which CPU did it. */
  datatype Op = Check | TakeOffline | Dequeue(t: Task) | SwitchOp | RedirectOp | TakeOnline | Enqueue(t: Task)

  function OpOf(e: Event): Op {
    match e
    case Checked(_) => Op.Check
    case WentOffline(_, _) => TakeOffline
    case Dequeued(_, t, _) => Dequeue(t)
    case Switched(_) => SwitchOp
    case Redirected(_) => RedirectOp
    case WentOnline(_, _) => TakeOnline
    case Enqueued(_, t, _) => Enqueue(t)
  }

  /** How often CPU `c` did `op`. */
  function Tally(log: seq<Event>, c: Cpu, op: Op): nat {
    if log == [] then 0
    else
      var e := log[|log| - 1];
      Tally(log[..|log| - 1], c, op) + if e.cpu == c && OpOf(e) == op then 1 else 0
  }

  // A CPU that has come to `p` has done `op`.
  ghost predicate HasDone(cfg: Config, c: Cpu, p: Pc, op: Op)
    requires ValidConfig(cfg)
  {
    IsOnline(cfg, c) &&
    match op
    case Check => !p.Recheck? && !p.Check?
    case TakeOffline => Succeeding(p) && !p.Offline?
    case Dequeue(t) =>
      && Movable(cfg.threads, c, cfg.stop[c], t)
      && (if p.Clear? then t < p.next else Succeeding(p) && !p.Offline?)
    case SwitchOp => IsFirst(cfg, c) && AfterSwitch(p)
    case RedirectOp => IsFirst(cfg, c) && AfterRedirect(p)
    case TakeOnline => p.Rebuild? || p.Done?
    case Enqueue(t) =>
      && Movable(cfg.threads, c, cfg.stop[c], t)
      && (if p.Rebuild? then t < p.next else p.Done?)
  }

  // Every operation has happened once if its CPU has come past it, and never otherwise.
  ghost predicate Tallies(cfg: Config, s: State)
    requires Fits(cfg, s)
  {
    forall c: Cpu, op: Op ::
      Tally(s.log, c, op) == if IsOnline(cfg, c) && HasDone(cfg, c, s.pc[c], op) then 1 else 0
  }

  lemma TallyAppend(log: seq<Event>, es: seq<Event>, c: Cpu, op: Op)
    requires |es| <= 1
    ensures Tally(log + es, c, op) == Tally(log, c, op) + Tally(es, c, op)
  {
    TallyOne(es, c, op);
    if es != [] {
      assert (log + es)[..|log|] == log;
    } else {
      assert log + es == log;
    }
  }

  // The counters of a loop over the thread list stay within it.
  ghost predicate InList(cfg: Config, p: Pc) {
    (p.Clear? || p.Rebuild?) ==> p.next <= |cfg.threads|
  }

  // A step without an event completes no operation; one with an event completes
  // exactly the operation of that event.
  lemma StepDoes(cfg: Config, s: State, c: Cpu, op: Op)
    requires Fits(cfg, s) && IsOnline(cfg, c) && InList(cfg, s.pc[c])
    requires !IsFirst(cfg, c) ==> !s.pc[c].Switch? && !s.pc[c].Redirect?
    ensures HasDone(cfg, c, s.pc[c], op) ==> HasDone(cfg, c, NextPc(cfg, s, c), op)
    ensures HasDone(cfg, c, NextPc(cfg, s, c), op) && !HasDone(cfg, c, s.pc[c], op) <==>
            |Events(cfg, s, c)| == 1 && OpOf(Events(cfg, s, c)[0]) == op
  {
    var p' := NextPc(cfg, s, c);
    match op
    case Dequeue(t) =>
    case Enqueue(t) =>
    case _ =>
  }

  lemma StepTally(cfg: Config, s: State, c: Cpu, op: Op)
    requires Fits(cfg, s) && IsOnline(cfg, c) && InList(cfg, s.pc[c])
    requires !IsFirst(cfg, c) ==> !s.pc[c].Switch? && !s.pc[c].Redirect?
    ensures Tally(Events(cfg, s, c), c, op) + (if HasDone(cfg, c, s.pc[c], op) then 1 else 0)
         == if HasDone(cfg, c, NextPc(cfg, s, c), op) then 1 else 0
  {
    var es := Events(cfg, s, c);
    EventsByCpu(cfg, s, c);
    StepDoes(cfg, s, c, op);
    TallyOne(es, c, op);
  }

  lemma EventsByCpu(cfg: Config, s: State, c: Cpu)
    requires Fits(cfg, s) && IsOnline(cfg, c)
    ensures |Events(cfg, s, c)| <= 1
    ensures forall e :: e in Events(cfg, s, c) ==> e.cpu == c
  {
  }

  lemma TallyOne(es: seq<Event>, c: Cpu, op: Op)
    requires |es| <= 1
    ensures Tally(es, c, op) == if |es| == 1 && es[0].cpu == c && OpOf(es[0]) == op then 1 else 0
  {
    if es != [] {
      assert es[..0] == [];
    }
  }

  lemma KeepTallies(cfg: Config, m: Machine, s: State, c: Cpu)
    requires Fits(cfg, s) && IsOnline(cfg, c) && Machines(cfg, m, s) && Queues(cfg, s) && Tallies(cfg, s)
    ensures Tallies(cfg, Step(cfg, s, c))
  {
    var s' := Step(cfg, s, c);
    assert QueueAt(cfg, c, s.queues[c], s.pc[c]);
    forall d: Cpu, op: Op
      ensures Tally(s'.log, d, op) == if IsOnline(cfg, d) && HasDone(cfg, d, s'.pc[d], op) then 1 else 0
    {
      StepAfter(cfg, s, c);
      TallyAppend(s.log, Events(cfg, s, c), d, op);
      if d == c {
        StepTally(cfg, s, c, op);
      } else {
        OtherTally(cfg, s, c, d, op);
      }
    }
  }

  lemma OtherTally(cfg: Config, s: State, c: Cpu, d: Cpu, op: Op)
    requires Fits(cfg, s) && IsOnline(cfg, c) && d != c
    ensures Tally(Events(cfg, s, c), d, op) == 0
  {
    EventsByCpu(cfg, s, c);
    TallyOne(Events(cfg, s, c), d, op);
  }
}
