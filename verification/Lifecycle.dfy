/** src/main.c, `load_sched_routine`, `unload_sched_routine` and the sysfs file
    `enable`: the module over any sequence of writes, each of which may fail. */
module Lifecycle {
  import opened Errno
  import opened StackCheck
  import opened HeadJump
  import opened SchedRebuild
  import opened SyncProtocol
  import opened SyncInvariant
  import opened SyncTheorems

  /** What is fixed when the module is initialised: the exported functions, the
      kernel as it was, the module's classes, and the references others hold. */
  datatype Kernel = Kernel(
    base: int,
    targets: seq<Target>,
    original: Machine,
    modClasses: ClassTable,
    vmFns: seq<Extent>,
    modFns: seq<Extent>,
    otherRefs: nat)

  /** What may differ from one stopped machine to the next. */
  datatype Env = Env(online: seq<bool>, recheck: int, threads: seq<Thread>, idle: seq<Stack>, stop: seq<Task>)

  /** A memory pool of the module: whether its pointer refers to one that exists, and how
      many exist that the pointer has referred to before and nothing refers to any more. */
  datatype Pool = Pool(current: bool, lost: nat)

  /** `scheduler_enable`, the module's reference count, its memory pools, and the kernel it
      is loaded into. */
  datatype Module = Module(enabled: bool, refs: nat, pools: seq<Pool>, machine: Machine)

  datatype Buffer = Number(value: nat) | NotANumber(error: int)

  /** One write to `enable`: the buffer, its length, how many memory pools can be created
      before one fails, and, should the machine be stopped, in which environment, in what state
      the handlers end and what `stop_machine` returns. */
  datatype Write = Write(buf: Buffer, count: int, created: nat, env: Env, final: State, ret: int)

  ghost predicate ValidKernel(k: Kernel) {
    Mapped(k.base, |k.original.text|, k.targets)
  }

  /** The handler to run: the buffers of `jump_init_all` were filled from the
      original text. */
  function ConfigOf(k: Kernel, env: Env, install: bool): Config
    requires ValidKernel(k)
  {
    Config(install, env.online, env.recheck, env.threads, env.idle, env.stop, k.vmFns, k.modFns,
           k.base, k.targets, JumpHeads(k.targets), SavedHeads(k.base, k.original.text, k.targets), k.modClasses)
  }

  /** `final` is the end of some interleaving of the handlers, and `ret` what
      `stop_machine` makes of their return values: some error, or 0 if there is none. */
  ghost predicate Completes(cfg: Config, m: Machine, final: State, ret: int) {
    && (exists c: Cpu :: IsOnline(cfg, c))
    && Reachable(cfg, m, final) && Fits(cfg, final) && AllDone(cfg, final)
    && if ret == 0 then forall c: Cpu :: IsOnline(cfg, c) ==> final.pc[c].Done?
       else exists c: Cpu :: IsOnline(cfg, c) && final.pc[c] == Failed(ret)
  }

  // The write gets as far as stopping the machine.
  predicate Stops(st: Module, w: Write) {
    w.buf.Number? && (w.buf.value != 0) != st.enabled && (w.buf.value != 0 ==> w.created >= |st.pools|)
  }

  // The write, if it stops the machine, does so on the machine of `st`.
  ghost predicate WriteOk(k: Kernel, st: Module, w: Write)
    requires ValidKernel(k)
  {
    && (Stops(st, w) ==> Completes(ConfigOf(k, w.env, w.buf.value != 0), st.machine, w.final, w.ret))
    && (w.buf.NotANumber? ==> w.buf.error < 0)
    && w.count >= 0
  }

  // All pools that exist for a pointer, once that is overwritten.
  function Overwritten(p: Pool): nat {
    p.lost + if p.current then 1 else 0
  }

  // `sched_mempools_create`: one pool after the other, up to the first that fails, whose
  // pointer becomes null. Those created before it are not given back.
  function Created(pools: seq<Pool>, k: nat): (r: seq<Pool>)
    ensures |r| == |pools|
  {
    seq(|pools|, i requires 0 <= i < |pools| => if i <= k then Pool(i < k, Overwritten(pools[i])) else pools[i])
  }

  // `sched_mempools_destroy`.
  function Destroyed(pools: seq<Pool>): (r: seq<Pool>)
    ensures |r| == |pools|
  {
    seq(|pools|, i requires 0 <= i < |pools| => pools[i].(current := false))
  }

  function LoadSpec(st: Module, w: Write): (Module, int) {
    var pools := Created(st.pools, w.created);
    if w.created < |st.pools| then (st.(pools := pools), -ENOMEM)
    else if w.ret != 0 then (st.(machine := w.final.machine, pools := Destroyed(pools)), w.ret)
    else (Module(true, st.refs + 1, pools, w.final.machine), 0)
  }

  function UnloadSpec(st: Module, w: Write): (Module, int) {
    if w.ret != 0 then (st.(machine := w.final.machine), w.ret)
    else (Module(false, if st.refs > 0 then st.refs - 1 else 0, Destroyed(st.pools), w.final.machine), 0)
  }

  /** `plugsched_enabled_store`: the new state and the value returned. */
  function StoreSpec(st: Module, w: Write): (Module, int) {
    match w.buf
    case NotANumber(e) => (st, e)
    case Number(v) =>
      if st.enabled == (v != 0) then (st, w.count)
      else
        var (st', ret) := if v != 0 then LoadSpec(st, w) else UnloadSpec(st, w);
        (st', if ret != 0 then ret else w.count)
  }

  // No pool has ever been created.
  function NoPools(n: nat): seq<Pool> {
    seq(n, i => Pool(false, 0))
  }

  class SchedModule {
    var schedulerEnable: int
    var refs: nat
    var pools: seq<Pool>
    var machine: Machine

    ghost predicate Valid()
      reads this
    {
      (schedulerEnable == 0 || schedulerEnable == 1) && (schedulerEnable == 1 ==> refs > 0)
    }

    ghost function Contents(): Module
      reads this
    {
      Module(schedulerEnable == 1, refs, pools, machine)
    }

    constructor (refs: nat, pools: nat, machine: Machine)
      ensures Valid() && Contents() == Module(false, refs, NoPools(pools), machine)
    {
      this.schedulerEnable, this.refs, this.pools, this.machine := 0, refs, NoPools(pools), machine;
    }

    /** `sched_mempools_create`, for as many pools as the module defines. */
    method CreatePools(w: Write) returns (ret: int)
      modifies this`pools
      ensures pools == Created(old(pools), w.created)
      ensures ret == if w.created < |pools| then -ENOMEM else 0
    {
      for i := 0 to |pools|
        invariant i <= w.created && |pools| == |old(pools)|
        invariant forall j :: 0 <= j < |pools| ==>
          pools[j] == if j < i then Created(old(pools), w.created)[j] else old(pools)[j]
      {
        pools := pools[i := Pool(i < w.created, Overwritten(pools[i]))];
        if i == w.created {
          return -ENOMEM;
        }
      }
      return 0;
    }

    /** `sched_mempools_destroy`. */
    method DestroyPools()
      modifies this`pools
      ensures pools == Destroyed(old(pools))
    {
      for i := 0 to |pools|
        invariant |pools| == |old(pools)|
        invariant forall j :: 0 <= j < |pools| ==>
          pools[j] == if j < i then Destroyed(old(pools))[j] else old(pools)[j]
      {
        pools := pools[i := pools[i].(current := false)];
      }
    }

    method LoadSchedRoutine(w: Write) returns (ret: int)
      requires Valid() && schedulerEnable == 0
      modifies this
      ensures Valid() && (Contents(), ret) == LoadSpec(old(Contents()), w)
    {
      refs := refs + 1;
      var err := CreatePools(w);
      if err != 0 {
        refs := refs - 1;
        return -ENOMEM;
      }
      machine := w.final.machine;
      ret := w.ret;
      if ret != 0 {
        DestroyPools();
        refs := refs - 1;
        return;
      }
      schedulerEnable := 1;
    }

    method UnloadSchedRoutine(w: Write) returns (ret: int)
      requires Valid() && schedulerEnable == 1
      modifies this
      ensures Valid() && (Contents(), ret) == UnloadSpec(old(Contents()), w)
    {
      machine := w.final.machine;
      ret := w.ret;
      if ret != 0 {
        return;
      }
      DestroyPools();
      refs := refs - 1;
      schedulerEnable := 0;
    }

    method PlugschedEnabledStore(w: Write) returns (ret: int)
      requires Valid()
      modifies this
      ensures Valid() && (Contents(), ret) == StoreSpec(old(Contents()), w)
    {
      if w.buf.NotANumber? {
        return w.buf.error;
      }
      var val := if w.buf.value != 0 then 1 else 0;
      if schedulerEnable == val {
        return w.count;
      }
      if val != 0 {
        ret := LoadSchedRoutine(w);
      } else {
        ret := UnloadSchedRoutine(w);
      }
      if ret != 0 {
        return;
      }
      return w.count;
    }
  }

  /** The lifecycle invariant: enabled exactly when the reference is held, every function
      head holds its jump and the class contents are the module's; otherwise text and
      classes are the original ones. An enabled module has all its pools. */
  ghost predicate Consistent(k: Kernel, st: Module)
    requires ValidKernel(k)
  {
    && st.refs == k.otherRefs + (if st.enabled then 1 else 0)
    && (st.enabled ==> forall p :: p in st.pools ==> p.current)
    && |st.machine.text| == |k.original.text|
    && (st.enabled ==>
          && st.machine.text == Installed(k.base, k.original.text, k.targets)
          && st.machine.classes == k.modClasses && st.machine.bak == k.original.classes)
    && (!st.enabled ==> st.machine.text == k.original.text && st.machine.classes == k.original.classes)
  }

  /** The pools exist exactly when the module is enabled, and none has been left behind. */
  predicate Tidy(st: Module) {
    forall p :: p in st.pools ==> p == Pool(st.enabled, 0)
  }

  /** The write is an attempt to load in which some pools are created before one fails. */
  predicate FailsHalfway(st: Module, w: Write) {
    w.buf.Number? && w.buf.value != 0 && !st.enabled && 0 < w.created < |st.pools|
  }

  // What a stopped machine does to a consistent module.
  lemma StopOutcome(k: Kernel, st: Module, w: Write, install: bool)
    requires ValidKernel(k) && Consistent(k, st) && st.enabled == !install
    requires Completes(ConfigOf(k, w.env, install), st.machine, w.final, w.ret)
    ensures w.ret == 0 <==> NothingInTheWay(ConfigOf(k, w.env, install))
    ensures w.ret != 0 ==> w.final.machine == st.machine && (w.ret == -16 || (install && w.ret == w.env.recheck))
    ensures w.ret == 0 ==> Swapped(ConfigOf(k, w.env, install), st.machine) == w.final.machine
  {
    var cfg := ConfigOf(k, w.env, install);
    ReachableInv(cfg, st.machine, w.final);
    Agreement(cfg, st.machine, w.final);
    var c0: Cpu :| IsOnline(cfg, c0);
    if w.ret != 0 {
      var c: Cpu :| IsOnline(cfg, c) && w.final.pc[c] == Failed(w.ret);
    }
  }

  /** What can be in the way of a write: on enabling, a failed recheck or a frame that the
      search finds in a function of the kernel; on disabling, one that it finds in a
      function of the module. */
  lemma InTheWay(k: Kernel, env: Env)
    requires ValidKernel(k)
    ensures ValidConfig(ConfigOf(k, env, true)) ==>
      (NothingInTheWay(ConfigOf(k, env, true)) <==> env.recheck == 0 && NobodyIn(env, k.vmFns))
    ensures ValidConfig(ConfigOf(k, env, false)) ==>
      (NothingInTheWay(ConfigOf(k, env, false)) <==> NobodyIn(env, k.modFns))
  {
    if ValidConfig(ConfigOf(k, env, true)) {
      assert forall c: Cpu :: IsOnline(ConfigOf(k, env, true), c) <==> c < |env.online| && env.online[c];
    }
    if ValidConfig(ConfigOf(k, env, false)) {
      assert forall c: Cpu :: IsOnline(ConfigOf(k, env, false), c) <==> c < |env.online| && env.online[c];
    }
  }

  // The search finds no frame of a thread or of the idle task of an online CPU in `fns`.
  ghost predicate NobodyIn(env: Env, fns: seq<Extent>) {
    && (forall i :: 0 <= i < |env.threads| ==> !FastBlocked(fns, env.threads[i].stack))
    && (forall c: Cpu :: c < |env.online| && env.online[c] && c < |env.idle| ==> !FastBlocked(fns, env.idle[c]))
  }

  // A swap takes the enabled machine to the disabled one and back.
  lemma SwapToggles(k: Kernel, st: Module, env: Env)
    requires ValidKernel(k) && Consistent(k, st) && ValidConfig(ConfigOf(k, env, !st.enabled))
    ensures var m := Swapped(ConfigOf(k, env, !st.enabled), st.machine);
            && !st.enabled ==>
              m.text == Installed(k.base, k.original.text, k.targets) && m.classes == k.modClasses &&
              m.bak == k.original.classes
    ensures var m := Swapped(ConfigOf(k, env, !st.enabled), st.machine);
            && st.enabled ==> m.text == k.original.text && m.classes == k.original.classes
  {
    RemoveUndoesInstall(k.base, k.original.text, k.targets);
  }

  /** Every write keeps the module consistent. A write of 1 to a disabled module
      enables it if and only if the pools can be created and nothing was in the way; a
      write of 0 to an enabled one disables it if and only if nothing was in the way.
      Otherwise nothing but the pools changes. The write returns its length exactly when
      the module then is as it asked for, and a negative error when it is not. */
  lemma StoreKeepsConsistent(k: Kernel, st: Module, w: Write)
    requires ValidKernel(k) && Consistent(k, st) && WriteOk(k, st, w)
    ensures var (st', ret) := StoreSpec(st, w);
            && Consistent(k, st')
            && (st'.enabled != st.enabled <==> Stops(st, w) && NothingInTheWay(ConfigOf(k, w.env, !st.enabled)))
            && (st'.enabled == st.enabled ==> st'.(pools := st.pools) == st)
            && (if w.buf.Number? && st'.enabled == (w.buf.value != 0) then ret == w.count else ret < 0)
            && (w.buf.NotANumber? ==> ret == w.buf.error)
            && (w.buf.Number? && w.buf.value != 0 && !st.enabled && w.created < |st.pools| ==> ret == -12)
            && (Stops(st, w) && st'.enabled == st.enabled ==> ret == w.ret && ret in {-12, -16})
  {
    if Stops(st, w) {
      StopOutcome(k, st, w, !st.enabled);
      SwapToggles(k, st, w.env);
    }
  }

  /** From a tidy module every write leads to a tidy one, and one that does not switch it
      changes nothing at all, unless it fails halfway; then it never does. */
  lemma StoreKeepsTidy(st: Module, w: Write)
    requires Tidy(st)
    ensures var st' := StoreSpec(st, w).0;
            && (Tidy(st') <==> !FailsHalfway(st, w))
            && (!FailsHalfway(st, w) && st'.enabled == st.enabled ==> st'.pools == st.pools)
            && (FailsHalfway(st, w) ==> Spoilt(st'))
  {
    var st' := StoreSpec(st, w).0;
    if st' != st && !FailsHalfway(st, w) && !st'.enabled {
      forall i | 0 <= i < |st.pools| ensures st'.pools[i] == Pool(false, 0) {
        assert st.pools[i] in st.pools;
      }
    }
    if FailsHalfway(st, w) {
      assert st'.pools[0].current && st'.pools[0] in st'.pools;
    }
    if st' != st && st'.enabled && !st.enabled {
      forall i | 0 <= i < |st.pools| ensures st'.pools[i] == Pool(true, 0) {
        assert st.pools[i] in st.pools;
      }
    }
  }

  // Some pool is lost, or the first one will be by the next attempt to load.
  predicate Spoilt(st: Module) {
    || (exists i :: 0 <= i < |st.pools| && st.pools[i].lost > 0)
    || (!st.enabled && |st.pools| > 0 && st.pools[0].current)
  }

  lemma SpoiltForGood(st: Module, w: Write)
    requires Spoilt(st)
    ensures !Tidy(st) && Spoilt(StoreSpec(st, w).0)
  {
    var st' := StoreSpec(st, w).0;
    if i :| 0 <= i < |st.pools| && st.pools[i].lost > 0 {
      assert st.pools[i] in st.pools;
      assert st'.pools[i].lost >= st.pools[i].lost;
    } else {
      assert st.pools[0] in st.pools;
      assert st'.pools == st.pools || st'.pools[0].lost > 0;
    }
  }

  ghost function AfterWrites(st: Module, ws: seq<Write>): Module {
    if ws == [] then st else StoreSpec(AfterWrites(st, ws[..|ws| - 1]), ws[|ws| - 1]).0
  }

  ghost predicate WritesOk(k: Kernel, st: Module, ws: seq<Write>)
    requires ValidKernel(k)
  {
    forall i :: 0 <= i < |ws| ==> WriteOk(k, AfterWrites(st, ws[..i]), ws[i])
  }

  /** The module is consistent after any sequence of writes. */
  lemma {:induction false} AlwaysConsistent(k: Kernel, st: Module, ws: seq<Write>)
    requires ValidKernel(k) && Consistent(k, st) && WritesOk(k, st, ws)
    ensures Consistent(k, AfterWrites(st, ws))
  {
    if ws != [] {
      var n := |ws| - 1;
      forall i | 0 <= i < n ensures WriteOk(k, AfterWrites(st, ws[..n][..i]), ws[..n][i]) {
        assert ws[..n][..i] == ws[..i];
      }
      AlwaysConsistent(k, st, ws[..n]);
      StoreKeepsConsistent(k, AfterWrites(st, ws[..n]), ws[n]);
    }
  }

  ghost predicate NoneFailsHalfway(st: Module, ws: seq<Write>) {
    forall i :: 0 <= i < |ws| ==> !FailsHalfway(AfterWrites(st, ws[..i]), ws[i])
  }

  lemma {:induction false} TidyOrSpoilt(st: Module, ws: seq<Write>)
    requires Tidy(st)
    ensures NoneFailsHalfway(st, ws) ==> Tidy(AfterWrites(st, ws))
    ensures !NoneFailsHalfway(st, ws) ==> Spoilt(AfterWrites(st, ws))
  {
    if ws != [] {
      var n := |ws| - 1;
      TidyOrSpoilt(st, ws[..n]);
      assert forall i :: 0 <= i < n ==> ws[..n][..i] == ws[..i];
      var last := AfterWrites(st, ws[..n]);
      if NoneFailsHalfway(st, ws[..n]) {
        StoreKeepsTidy(last, ws[n]);
      } else {
        SpoiltForGood(last, ws[n]);
      }
    }
  }

  /** After any sequence of writes to a tidy module, the pools exist exactly when it is
      enabled and none is left behind, if and only if no attempt to load has failed
      after the first pool. */
  lemma TidyIffNoneFailsHalfway(st: Module, ws: seq<Write>)
    requires Tidy(st)
    ensures Tidy(AfterWrites(st, ws)) <==> NoneFailsHalfway(st, ws)
  {
    TidyOrSpoilt(st, ws);
    if Spoilt(AfterWrites(st, ws)) && ws != [] {
      SpoiltForGood(AfterWrites(st, ws), ws[0]);
    }
  }

  /** Two pools, of which the second cannot be created: the first stays, although the
      module is disabled, and is lost when the module is loaded the next time. */
  lemma SecondPoolFails(k: Kernel, w: Write, again: Write)
    requires ValidKernel(k) && w.buf == Number(1) && w.created == 1
    requires again.buf == Number(1)
    ensures var st := Module(false, k.otherRefs, NoPools(2), k.original);
            var (st', ret) := StoreSpec(st, w);
            && Consistent(k, st) && Tidy(st) && ret == -ENOMEM
            && st' == st.(pools := [Pool(true, 0), Pool(false, 0)])
            && StoreSpec(st', again).0.pools[0].lost == 1
  {
    var st := Module(false, k.otherRefs, NoPools(2), k.original);
    assert StoreSpec(st, w).0.pools == [Pool(true, 0), Pool(false, 0)];
  }

  /** Whatever was written in between, a module that is disabled again has left the
      kernel text, the scheduler classes and its reference count as they were, and no pool
      if and only if no attempt to load has failed halfway. */
  lemma DisabledIsOriginal(k: Kernel, pools: nat, ws: seq<Write>)
    requires ValidKernel(k)
    requires var st := Module(false, k.otherRefs, NoPools(pools), k.original); WritesOk(k, st, ws)
    ensures var st0 := Module(false, k.otherRefs, NoPools(pools), k.original);
            var st := AfterWrites(st0, ws);
            !st.enabled ==>
              && st.machine.text == k.original.text && st.machine.classes == k.original.classes
              && st.refs == k.otherRefs
              && (Tidy(st) <==> NoneFailsHalfway(st0, ws))
  {
    var st0 := Module(false, k.otherRefs, NoPools(pools), k.original);
    AlwaysConsistent(k, st0, ws);
    TidyIffNoneFailsHalfway(st0, ws);
  }
}
