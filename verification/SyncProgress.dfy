/** The barriers of the stopped machine never deadlock, and every fair run ends. */
module SyncProgress {
  import opened SchedRebuild
  import opened ProcessIds
  import opened SyncProtocol
  import opened SyncInvariant
  import opened SyncTheorems

  /** The next step of CPU `c` is not another turn of a spin loop. */
  ghost predicate Enabled(cfg: Config, s: State, c: Cpu)
    requires Fits(cfg, s)
  {
    IsOnline(cfg, c) && NextPc(cfg, s, c) != s.pc[c]
  }

  // An upper bound on the steps a CPU at `p` has left.
  function Left(threads: nat, p: Pc): nat {
    match p
    case Recheck => 2 * threads + 17
    case Check => 2 * threads + 16
    case Report(_) => 2 * threads + 15
    case DecCheck => 2 * threads + 14
    case SpinCheck => 2 * threads + 13
    case ReadError => 2 * threads + 12
    case Offline => 2 * threads + 11
    case Clear(i) => threads + 10 + if i < threads then threads - i else 0
    case Drain => threads + 9
    case DecClear => threads + 8
    case SpinClear => threads + 7
    case Switch => threads + 6
    case Redirect => threads + 5
    case DecRedirect => threads + 4
    case SpinRedirect => threads + 3
    case Online => threads + 2
    case Rebuild(i) => 1 + if i < threads then threads - i else 0
    case FailClear(_) => 2
    case FailRedirect(_) => 1
    case Done => 0
    case Failed(_) => 0
  }

  // The sum over the first `n` CPUs.
  ghost function Total(cfg: Config, pc: seq<Pc>, n: nat): nat
    requires n <= |pc| == |cfg.online|
  {
    if n == 0 then 0
    else Total(cfg, pc, n - 1) + if cfg.online[n - 1] then Left(|cfg.threads|, pc[n - 1]) else 0
  }

  ghost function Measure(cfg: Config, s: State): nat
    requires Fits(cfg, s)
  {
    Total(cfg, s.pc, |s.pc|)
  }

  lemma {:induction false} TotalUpdate(cfg: Config, pc: seq<Pc>, c: Cpu, p: Pc, n: nat)
    requires n <= |pc| == |cfg.online| && IsOnline(cfg, c)
    ensures Total(cfg, pc[c := p], n) ==
            Total(cfg, pc, n) + if c < n then Left(|cfg.threads|, p) - Left(|cfg.threads|, pc[c]) else 0
  {
    if n > 0 {
      TotalUpdate(cfg, pc, c, p, n - 1);
    }
  }

  lemma StepLeft(cfg: Config, s: State, c: Cpu)
    requires Fits(cfg, s) && Enabled(cfg, s, c)
    ensures Left(|cfg.threads|, NextPc(cfg, s, c)) < Left(|cfg.threads|, s.pc[c])
  {
  }

  /** Every enabled step decreases the measure; every other step changes nothing. */
  lemma StepDecreases(cfg: Config, s: State, c: Cpu)
    requires Fits(cfg, s)
    ensures Enabled(cfg, s, c) ==> Measure(cfg, Step(cfg, s, c)) < Measure(cfg, s)
    ensures !Enabled(cfg, s, c) ==> Step(cfg, s, c) == s
  {
    if Enabled(cfg, s, c) {
      StepLeft(cfg, s, c);
      TotalUpdate(cfg, s.pc, c, NextPc(cfg, s, c), |s.pc|);
    } else if IsOnline(cfg, c) {
      assert s.pc[c := s.pc[c]] == s.pc && s.queues[c := s.queues[c]] == s.queues;
      assert s.log + [] == s.log;
    }
  }

  // Whoever keeps a counter from zero can move, or waits for an earlier barrier.
  lemma SomeoneBefore(cfg: Config, s: State, b: Barrier) returns (d: Cpu)
    requires Fits(cfg, s) && Counters(cfg, s) && Queues(cfg, s) && Counter(s, b) != 0
    ensures Enabled(cfg, s, d)
    decreases if b == CheckBarrier then 0 else if b == ClearBarrier then 1 else 2
  {
    d := CountOnto(Flags(cfg, s, b), 0);
    assert QueueAt(cfg, d, s.queues[d], s.pc[d]);
    match s.pc[d]
    case SpinCheck =>
      if s.cpuFinished != 0 {
        d := SomeoneBefore(cfg, s, CheckBarrier);
      }
    case SpinClear =>
      if s.clearFinished != 0 {
        d := SomeoneBefore(cfg, s, ClearBarrier);
      }
    case Drain => OnlyStopperLeft(cfg.threads, d, cfg.stop[d], s.queues[d]);
    case _ =>
  }

  /** No deadlock: in every reachable state in which some CPU has not returned, some
      CPU is enabled. */
  lemma NoDeadlock(cfg: Config, m: Machine, s: State) returns (d: Cpu)
    requires Reachable(cfg, m, s) && Fits(cfg, s) && !AllDone(cfg, s)
    ensures Enabled(cfg, s, d)
  {
    ReachableInv(cfg, m, s);
    d :| IsOnline(cfg, d) && !s.pc[d].Done? && !s.pc[d].Failed?;
    assert QueueAt(cfg, d, s.queues[d], s.pc[d]);
    match s.pc[d]
    case SpinCheck =>
      if s.cpuFinished != 0 {
        d := SomeoneBefore(cfg, s, CheckBarrier);
      }
    case SpinClear =>
      if s.clearFinished != 0 {
        d := SomeoneBefore(cfg, s, ClearBarrier);
      }
    case SpinRedirect =>
      if s.redirectFinished != 0 {
        d := SomeoneBefore(cfg, s, RedirectBarrier);
      }
    case Drain => OnlyStopperLeft(cfg.threads, d, cfg.stop[d], s.queues[d]);
    case _ =>
  }

  // ---------------------------------------------------------------- fairness

  lemma {:induction false} ExecAppend(cfg: Config, s: State, a: seq<Cpu>, b: seq<Cpu>)
    requires Fits(cfg, s)
    ensures Exec(cfg, s, a + b) == Exec(cfg, Exec(cfg, s, a), b)
  {
    if b == [] {
      assert a + b == a;
    } else {
      var n := |b| - 1;
      assert (a + b)[..|a + b| - 1] == a + b[..n];
      ExecAppend(cfg, s, a, b[..n]);
    }
  }

  lemma ReachableExec(cfg: Config, m: Machine, s: State, schedule: seq<Cpu>)
    requires Reachable(cfg, m, s) && Fits(cfg, s)
    ensures Reachable(cfg, m, Exec(cfg, s, schedule))
  {
    var s0: State, before: seq<Cpu> :| Init(cfg, m, s0) && s == Exec(cfg, s0, before);
    ExecAppend(cfg, s0, before, schedule);
  }

  // A stretch of a run either does nothing at all or decreases the measure; it does
  // something if it gives an enabled CPU a turn.
  lemma {:induction false} StretchDecreases(cfg: Config, s: State, schedule: seq<Cpu>)
    requires Fits(cfg, s)
    ensures var s' := Exec(cfg, s, schedule);
            s' == s || Measure(cfg, s') < Measure(cfg, s)
    ensures (exists c :: c in schedule && Enabled(cfg, s, c)) ==> Measure(cfg, Exec(cfg, s, schedule)) < Measure(cfg, s)
  {
    if schedule != [] {
      var n := |schedule| - 1;
      StretchDecreases(cfg, s, schedule[..n]);
      StepDecreases(cfg, Exec(cfg, s, schedule[..n]), schedule[n]);
      assert forall c :: c in schedule ==> c in schedule[..n] || c == schedule[n];
    }
  }

  // Every online CPU gets a turn.
  ghost predicate Round(cfg: Config, schedule: seq<Cpu>) {
    forall c: Cpu :: IsOnline(cfg, c) ==> c in schedule
  }

  function Flatten(rounds: seq<seq<Cpu>>): seq<Cpu> {
    if rounds == [] then [] else Flatten(rounds[..|rounds| - 1]) + rounds[|rounds| - 1]
  }

  /** Every fair run ends: after more rounds than the measure of the state, in each
      of which every CPU gets at least one turn, in whatever order, all have returned. */
  lemma {:induction false} FairRunsEnd(cfg: Config, m: Machine, s: State, rounds: seq<seq<Cpu>>)
    requires Reachable(cfg, m, s) && Fits(cfg, s)
    requires forall r :: r in rounds ==> Round(cfg, r)
    ensures var s' := Exec(cfg, s, Flatten(rounds));
            AllDone(cfg, s') || Measure(cfg, s') + |rounds| <= Measure(cfg, s)
    ensures |rounds| > Measure(cfg, s) ==> AllDone(cfg, Exec(cfg, s, Flatten(rounds)))
  {
    if rounds != [] {
      var n := |rounds| - 1;
      var s1 := Exec(cfg, s, Flatten(rounds[..n]));
      assert rounds[n] in rounds;
      FairRunsEnd(cfg, m, s, rounds[..n]);
      ReachableExec(cfg, m, s, Flatten(rounds[..n]));
      ExecAppend(cfg, s, Flatten(rounds[..n]), rounds[n]);
      StretchDecreases(cfg, s1, rounds[n]);
      if AllDone(cfg, s1) {
        DoneStays(cfg, s1, rounds[n]);
      } else {
        var d := NoDeadlock(cfg, m, s1);
        assert d in rounds[n];
      }
    }
  }

  lemma DoneDisabled(cfg: Config, s: State, c: Cpu)
    requires Fits(cfg, s) && AllDone(cfg, s)
    ensures !Enabled(cfg, s, c)
  {
  }

  lemma {:induction false} DoneStays(cfg: Config, s: State, schedule: seq<Cpu>)
    requires Fits(cfg, s) && AllDone(cfg, s)
    ensures Exec(cfg, s, schedule) == s
  {
    if schedule != [] {
      var n := |schedule| - 1;
      DoneStays(cfg, s, schedule[..n]);
      DoneDisabled(cfg, s, schedule[n]);
      StepDecreases(cfg, s, schedule[n]);
    }
  }

  // How many turns of a run were not spent spinning.
  ghost function Effective(cfg: Config, s: State, schedule: seq<Cpu>): nat
    requires Fits(cfg, s)
  {
    if schedule == [] then 0
    else
      var n := |schedule| - 1;
      Effective(cfg, s, schedule[..n]) + if Enabled(cfg, Exec(cfg, s, schedule[..n]), schedule[n]) then 1 else 0
  }

  lemma {:induction false} TotalAtStart(cfg: Config, pc: seq<Pc>, n: nat)
    requires n <= |pc| == |cfg.online|
    requires forall c: Cpu :: IsOnline(cfg, c) ==> pc[c].Recheck?
    ensures Total(cfg, pc, n) == Count(cfg.online[..n]) * (2 * |cfg.threads| + 17)
  {
    if n > 0 {
      TotalAtStart(cfg, pc, n - 1);
      assert cfg.online[..n][..n - 1] == cfg.online[..n - 1];
      assert cfg.online[n - 1] ==> IsOnline(cfg, n - 1);
    }
  }

  lemma {:induction false} EffectiveBound(cfg: Config, s: State, schedule: seq<Cpu>)
    requires Fits(cfg, s)
    ensures Effective(cfg, s, schedule) + Measure(cfg, Exec(cfg, s, schedule)) <= Measure(cfg, s)
  {
    if schedule != [] {
      var n := |schedule| - 1;
      EffectiveBound(cfg, s, schedule[..n]);
      StepDecreases(cfg, Exec(cfg, s, schedule[..n]), schedule[n]);
    }
  }

  /** Work is bounded: no interleaving, however long, takes more than
      `2 * threads + 17` steps per online CPU that are not spinning. */
  lemma BoundedWork(cfg: Config, m: Machine, s: State, schedule: seq<Cpu>)
    requires Init(cfg, m, s)
    ensures Effective(cfg, s, schedule) <= Count(cfg.online) * (2 * |cfg.threads| + 17)
  {
    EffectiveBound(cfg, s, schedule);
    TotalAtStart(cfg, s.pc, |s.pc|);
    assert cfg.online[..|s.pc|] == cfg.online;
  }
}
