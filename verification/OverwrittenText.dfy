/** The layers together: which bytes of the kernel text an install overwrites, and
    whether a stack can return to them. */
module OverwrittenText {
  import opened Words
  import opened StackCheck
  import opened HeadJump
  import opened SchedRebuild
  import opened ProcessIds
  import opened SyncProtocol
  import opened SyncTheorems
  import opened SyncProgress

  /** What is known before an install: the table that is checked, the kernel text, and
      what is to be written over the heads of which functions. */
  datatype Plan = Plan(fns: seq<Extent>, base: int, text: seq<Byte>, targets: seq<Target>, jumps: seq<Head>)

  ghost predicate ValidPlan(p: Plan) {
    |p.targets| == |p.jumps| && Mapped(p.base, |p.text|, p.targets)
  }

  /** The patch overwrites the byte at `x` with another one. */
  ghost predicate Changes(p: Plan, x: nat)
    requires ValidPlan(p)
  {
    x < |p.text| && Overwrite(p.base, p.text, p.targets, p.jumps)[x] != p.text[x]
  }

  /** `s` is reached by an install of the patch, on any CPUs and with any threads. */
  ghost predicate Reaches(p: Plan, cfg: Config, m: Machine, s: State) {
    && cfg.install && cfg.vmFns == p.fns && cfg.base == p.base && cfg.targets == p.targets && cfg.jumps == p.jumps
    && m.text == p.text && |s.machine.text| == |p.text|
    && Reachable(cfg, m, s) && Fits(cfg, s)
    && exists c: Cpu :: IsOnline(cfg, c)
  }

  // Some captured frame of a thread or of the idle task of an online CPU is at `address`.
  ghost predicate OnSomeStack(cfg: Config, address: int)
    requires ValidConfig(cfg)
  {
    || (exists k :: 0 <= k < |cfg.threads| && address in Captured(cfg.threads[k].stack))
    || (exists c: Cpu :: IsOnline(cfg, c) && address in Captured(cfg.idle[c]))
  }

  /** No install ever comes to a state in which the byte at `x` is overwritten while a
      captured frame is at that byte. */
  ghost predicate FrameSafe(p: Plan, x: nat)
    requires x < |p.text|
  {
    forall cfg, m, s :: Reaches(p, cfg, m, s) && s.machine.text[x] != p.text[x] ==> !OnSomeStack(cfg, p.base + x)
  }

  /** The search of the stack check finds the address of the byte at `x`. */
  ghost predicate Found(p: Plan, x: nat) {
    0 <= p.base + x < WORD_LIMIT ==> FloorHit(p.fns, p.base + x)
  }

  // With nothing in the way, no captured frame is where the search would find it.
  lemma FoundIsOnNoStack(cfg: Config, address: Word)
    requires ValidConfig(cfg) && cfg.install && NothingInTheWay(cfg) && FloorHit(cfg.vmFns, address)
    ensures !OnSomeStack(cfg, address)
  {
    forall k | 0 <= k < |cfg.threads| ensures address !in Captured(cfg.threads[k].stack) {
      if address in Captured(cfg.threads[k].stack) {
        FrameIsBlocked(cfg.vmFns, cfg.threads[k].stack, address);
      }
    }
    forall c: Cpu | IsOnline(cfg, c) ensures address !in Captured(cfg.idle[c]) {
      if address in Captured(cfg.idle[c]) {
        FrameIsBlocked(cfg.vmFns, cfg.idle[c], address);
      }
    }
  }

  lemma FoundIsSafe(p: Plan, x: nat, cfg: Config, m: Machine, s: State)
    requires Found(p, x) && Reaches(p, cfg, m, s) && s.machine != m
    ensures !OnSomeStack(cfg, p.base + x)
  {
    ChangedMachineIsSafe(cfg, m, s);
    if 0 <= p.base + x < WORD_LIMIT {
      FoundIsOnNoStack(cfg, p.base + x);
    }
  }

  lemma FrameIsBlocked(fns: seq<Extent>, stack: Stack, address: Word)
    requires address in Captured(stack) && FloorHit(fns, address)
    ensures FastBlocked(fns, stack)
  {
    var j :| 0 <= j < |Captured(stack)| && Captured(stack)[j] == address;
  }

  // An install with nothing in the way can be run to its end.
  lemma InstallCompletes(cfg: Config, m: Machine, s0: State) returns (s: State)
    requires Init(cfg, m, s0) && NothingInTheWay(cfg) && exists c: Cpu :: IsOnline(cfg, c)
    ensures Reachable(cfg, m, s) && Fits(cfg, s) && |s.machine.text| == |m.text| && Succeeded(cfg, m, s)
  {
    assert Exec(cfg, s0, []) == s0;
    assert Reachable(cfg, m, s0);
    var round := seq(|cfg.online|, c => c);
    assert forall c: Cpu :: IsOnline(cfg, c) ==> round[c] == c;
    var rounds := seq(Measure(cfg, s0) + 1, i => round);
    FairRunsEnd(cfg, m, s0, rounds);
    s := Exec(cfg, s0, Flatten(rounds));
    ReachableExec(cfg, m, s0, Flatten(rounds));
    ReachableInv(cfg, m, s);
    Agreement(cfg, m, s);
  }

  // One CPU, and one thread with a single frame, which is also the stopper.
  function OneThread(p: Plan, frame: Word, classes: ClassTable): Config {
    Config(true, [true], 0, [Thread(Frames([frame]), 0, true)], [Frames([])], [0], p.fns, [], p.base, p.targets,
           p.jumps, p.jumps, classes)
  }

  // With a frame that the search does not find, nothing is in the way.
  lemma OneThreadPasses(p: Plan, frame: Word, classes: ClassTable)
    requires ValidPlan(p) && !FloorHit(p.fns, frame)
    ensures var cfg := OneThread(p, frame, classes);
            ValidConfig(cfg) && IsOnline(cfg, 0) && NothingInTheWay(cfg)
  {
    var cfg := OneThread(p, frame, classes);
    assert Captured(cfg.threads[0].stack) == [frame] && Captured(cfg.idle[0]) == [];
  }

  /** A byte that the patch changes and the search does not find: an install completes
      with a frame at that byte. */
  lemma UnfoundIsHit(p: Plan, x: nat, classes: ClassTable) returns (cfg: Config, m: Machine, s: State)
    requires ValidPlan(p) && Changes(p, x) && !Found(p, x)
    ensures Reaches(p, cfg, m, s) && Succeeded(cfg, m, s)
    ensures s.machine.text[x] != p.text[x] && OnSomeStack(cfg, p.base + x)
    ensures cfg == OneThread(p, p.base + x, classes)
  {
    cfg := OneThread(p, p.base + x, classes);
    OneThreadPasses(p, p.base + x, classes);
    m := Machine(p.text, classes, classes);
    var s0 := State([Recheck], 1, 1, 1, 0, [multiset{0}], m, []);
    OneThreadStarts(p, p.base + x, cfg, m, s0);
    s := InstallCompletes(cfg, m, s0);
    assert p.base + x in Captured(cfg.threads[0].stack);
  }

  lemma OneThreadStarts(p: Plan, frame: Word, cfg: Config, m: Machine, s: State)
    requires ValidPlan(p) && m.text == p.text && cfg == OneThread(p, frame, cfg.modClasses)
    requires s == State([Recheck], 1, 1, 1, 0, [multiset{0}], m, [])
    ensures Init(cfg, m, s)
  {
    assert [true][..0] == [] && Count([true]) == 1;
  }

  /** No frame returns to an overwritten byte, in any install of the patch, exactly when
      the search finds the address of that byte. */
  lemma NoFrameInOverwrittenText(p: Plan, x: nat)
    requires ValidPlan(p) && Changes(p, x)
    ensures FrameSafe(p, x) <==> Found(p, x)
  {
    if Found(p, x) {
      forall cfg, m, s | Reaches(p, cfg, m, s) && s.machine.text[x] != p.text[x]
        ensures !OnSomeStack(cfg, p.base + x)
      {
        FoundIsSafe(p, x, cfg, m, s);
      }
    } else {
      var classes: ClassTable := seq(NR_SCHED_CLASS, i => SchedClass([]));
      var cfg, m, s := UnfoundIsHit(p, x, classes);
    }
  }

  // ------------------------------------------------------------- whole tables

  // The byte at `x` is in the head of the exempted function, `__schedule`.
  ghost predicate Exempt(p: Plan, schedule: nat, x: int) {
    schedule < |p.targets| && InHead(p.base, p.targets[schedule], x)
  }

  /** No install of the patch overwrites a byte that a captured frame returns to, except
      in the head of `__schedule`. */
  ghost predicate PatchIsSafe(p: Plan, schedule: nat)
    requires ValidPlan(p)
  {
    forall x: nat :: Changes(p, x) && !Exempt(p, schedule, x) ==> FrameSafe(p, x)
  }

  /** The patch is safe exactly when the search finds every other byte that it changes,
      which can be told before the module is loaded. */
  lemma PatchSafeIffFound(p: Plan, schedule: nat)
    requires ValidPlan(p)
    ensures PatchIsSafe(p, schedule) <==> forall x: nat :: Changes(p, x) && !Exempt(p, schedule, x) ==> Found(p, x)
  {
    forall x: nat | Changes(p, x) ensures FrameSafe(p, x) <==> Found(p, x) {
      NoFrameInOverwrittenText(p, x);
    }
  }

  ghost predicate CoveredBy(p: Plan, looked: seq<Word>, f: nat, x: int)
    requires f < |looked| == |p.targets|
  {
    p.targets[f].orig <= p.base + x < p.targets[f].orig + looked[f]
  }

  // The byte at `x` is within the recorded size of some function but `__schedule`.
  ghost predicate Covered(p: Plan, looked: seq<Word>, schedule: nat, x: int)
    requires |looked| == |p.targets|
  {
    exists f :: 0 <= f < |looked| && f != schedule && CoveredBy(p, looked, f, x)
  }

  /** When the checked table is that of the patched functions with their recorded sizes,
      and tight, the patch is safe exactly when every byte that it changes outside the
      head of `__schedule` is within the size of some other function. */
  lemma PatchSafeIffCovered(p: Plan, looked: seq<Word>, schedule: nat)
    requires ValidPlan(p) && |looked| == |p.targets| && p.fns == Registered(OrigAddrs(p.targets), looked, schedule)
    requires Plain(p.fns) && Tight(p.fns)
    requires 0 <= p.base && p.base + |p.text| <= WORD_LIMIT
    ensures PatchIsSafe(p, schedule) <==>
      forall x: nat :: Changes(p, x) && !Exempt(p, schedule, x) ==> Covered(p, looked, schedule, x)
  {
    PatchSafeIffFound(p, schedule);
    FastIsSlowIffTight(p.fns);
    forall x: nat | Changes(p, x) ensures Found(p, x) <==> Covered(p, looked, schedule, x) {
      HitIffCovered(p, looked, schedule, p.base + x, x);
    }
  }

  lemma HitIffCovered(p: Plan, looked: seq<Word>, schedule: nat, address: Word, x: nat)
    requires |looked| == |p.targets| && p.fns == Registered(OrigAddrs(p.targets), looked, schedule)
    requires address == p.base + x
    ensures Hit(p.fns, address) <==> Covered(p, looked, schedule, x)
  {
    if Hit(p.fns, address) {
      var fn :| fn in p.fns && Inside(fn, address);
      var f :| 0 <= f < |p.fns| && p.fns[f] == fn;
      assert f != schedule && CoveredBy(p, looked, f, x);
    }
    if Covered(p, looked, schedule, x) {
      var f :| 0 <= f < |looked| && f != schedule && CoveredBy(p, looked, f, x);
      assert p.fns[f] in p.fns && Inside(p.fns[f], address);
    }
  }

  /** So the patch is safe if every function other than `__schedule` is at least as long as
      a jump, which the code does not check. */
  lemma LongFunctionsAreSafe(p: Plan, looked: seq<Word>, schedule: nat)
    requires ValidPlan(p) && |looked| == |p.targets| && p.fns == Registered(OrigAddrs(p.targets), looked, schedule)
    requires Plain(p.fns) && Tight(p.fns)
    requires 0 <= p.base && p.base + |p.text| <= WORD_LIMIT
    requires forall f :: 0 <= f < |looked| && f != schedule ==> HEAD_LEN <= looked[f]
    ensures PatchIsSafe(p, schedule)
  {
    PatchSafeIffCovered(p, looked, schedule);
    forall x: nat | Changes(p, x) && !Exempt(p, schedule, x) ensures Covered(p, looked, schedule, x) {
      ChangedByteInHead(p, x);
      var t :| t in p.targets && InHead(p.base, t, x);
      var f :| 0 <= f < |p.targets| && p.targets[f] == t;
      assert CoveredBy(p, looked, f, x);
    }
  }

  lemma ChangedByteInHead(p: Plan, x: nat)
    requires ValidPlan(p) && Changes(p, x)
    ensures InAnyHead(p.base, p.targets, x)
  {
    if !InAnyHead(p.base, p.targets, x) {
      OverwriteElsewhere(p.base, p.text, p.targets, p.jumps, x);
    }
  }

  // A function of three bytes at address 16, to be redirected to address 100.
  function ShortFunction(): Plan {
    Plan([Extent(16, 3)], 0, seq(32, i => 0x90), [Target(16, 100)], JumpHeads([Target(16, 100)]))
  }

  /** A function that is shorter than a jump: the install completes although a thread
      returns to the fourth byte of the jump, behind the end of the function. */
  lemma ShortFunctionIsHit() returns (cfg: Config, m: Machine, s: State)
    ensures Reaches(ShortFunction(), cfg, m, s) && Succeeded(cfg, m, s)
    ensures cfg.threads == [Thread(Frames([19]), 0, true)]
    ensures m.text[19] == 0x90 && s.machine.text[19] == 0
  {
    var p := ShortFunction();
    var jump := JumpHead(p.targets[0]);
    assert jump[3] == 0 by {
      assert 79 / 0x1_0000 == 0;
    }
    assert p.targets[..0] == [];
    assert Overwrite(p.base, p.text, p.targets, p.jumps) == Patch(p.text, 16, jump);
    assert !Inside(p.fns[0], 19);
    var classes: ClassTable := seq(NR_SCHED_CLASS, i => SchedClass([]));
    cfg, m, s := UnfoundIsHit(p, 19, classes);
  }
}
