# Plugsched: the hot swap, the boundary and the tools, verified

Plugsched replaces the scheduler of a running Linux kernel by a module. This project
models the parts of it in which a mistake takes the machine down, and proves what they
are for.

**The hot swap** (`src/`). Under `stop_machine` every online CPU runs the same handler:
check a share of all stacks, take its own tasks off its runqueue, let the CPU with
process id 0 exchange the scheduler classes and patch the kernel text, put the tasks back.
Three countdown barriers and one error cell hold the CPUs together. `SyncProtocol` is the
transition system: any number of CPUs, threads and functions, one step per atomic
operation or loop iteration, any interleaving. Install and restore are the same system with
different tables. `SyncInvariant`, `SyncHistory`, `SyncTheorems` and `SyncProgress` prove
what every step keeps and what follows for whole runs. Below it, `StackCheck`, `Helper`,
`SchedRebuild`, `HeadJump` and `ProcessIds` hold the code that one step stands for, in
place and with loops: the heapsort with exclusive-or swaps, the binary search, the
round-robin stack check, the passes over the thread list, the jump buffers. Around it,
`Lifecycle` is the module through any sequence of writes to `enable`, and `Mempool` the
per-cpu pools that the install takes memory from.

**The boundary** (`boundary/analyze.py`). `Inflect` is the fixpoint that decides which
functions stay inside, `Sidecar` the search with a shared visited set, `RedirectCheck` the
search for optimised callers, `Boundary` the set arithmetic around them, and `Vmlinux` the
pass over the symbol table.

**The translators** (`boundary/extract.py`, `tools/symbol_resolve`). `Extract` and
`FunctionExtract` are the in-place rewriting of a source file; `SymbolResolve` gives the
undefined symbols of the module their addresses, and is shown to agree with the analyzer.

`ModuleInit` joins the jump buffers and the tables of the stack check, and
`OverwrittenText` the protocol, the stack check and the jumps: which bytes an install
overwrites, and whether a stack can return to them. `Words`, `Errno`,
`Strings` and `CallGraph` hold what the others share. `dafny verify dfyconfig.toml`
checks everything.

## What is taken for granted

- Atomic operations are sequentially consistent, and each loop iteration over the thread
  list is one step.
- The thread list does not change while the machine is stopped, and the set of online CPUs
  does not change from `process_id_init` to the end (`src/main.c:409`).
- The functions of an interface table start at different addresses and do not reach the end
  of the address space (`StackCheck.Plain`), and they do not overlap (`StackCheck.Disjoint`).
  Of the last, less is needed; `StackCheck.FastIsSlowIffTight` says exactly how much. The
  protocol steps on what the binary search finds, and needs none of it.
- Frames in `__schedule` are exempt from the check, as in the original.
- The task that stops a CPU is a queued thread of that CPU, and every other task on a
  runqueue is on the thread list, once (`SchedRebuild.Complete`): there are no dying tasks.
- What the unwinder reports for a stack, the sizes found in kallsyms, the answers of the
  per-cpu allocator and the outcome of the memory-pool calls are inputs.
- For the agreement of the tools: kallsyms lists the local functions of a name first, in
  symbol-table order, and every global function; and every name has one entry among the
  undefined functions.

## What turned out not to hold

- *No frame of any stack is inside a replaced function.* Only the first 100 frames are
  captured: the check is sound on all stacks of n frames exactly when n is at most 100
  (`StackCheck.SafeWithinLimit`); `StackCheck.DeepFramesAreMissed` hides any address.
- *No frame returns to a byte that an install has overwritten.* The patch of a function that
  is shorter than a jump reaches beyond its end, and nothing checks the length.
  `OverwrittenText.ShortFunctionIsHit` is a function of three bytes and an install that
  completes with a thread at the fourth byte of the jump. For every patch and every changed
  byte, no install on any CPUs with any threads does that exactly when the search of the
  stack check finds the address of the byte (`OverwrittenText.NoFrameInOverwrittenText`); for
  a whole table `OverwrittenText.PatchSafeIffFound` and, in terms of the recorded sizes,
  `OverwrittenText.PatchSafeIffCovered` give the condition, which can be told before loading.
- *The memory pools exist exactly when the module is enabled.* When a pool cannot be created
  the load fails without giving back those created before it. `Lifecycle.SecondPoolFails`
  shows it for two pools; `Lifecycle.TidyIffNoneFailsHalfway` shows that over any sequence of
  writes this is the only way for a pool to be left behind.
- *The binary search finds what a look into every function would find.* A function inside
  another one hides the rest of it (`StackCheck.NestedFunctionHides`);
  `StackCheck.FastIsSlowIffTight` gives the exact condition on the table.
- *The check for mangled callers ends on every graph.* It has no visited set; a mangled
  function that calls itself exhausts the stack (`RedirectCheck.SelfCallOverflows`), and
  whether an unsafe function is reported may depend on the order of the edges
  (`RedirectCheck.EdgeOrderMatters`). `RedirectCheck.CheckUnderLimit` says, for every recursion
  limit, exactly when the search overflows: when it can make a walk as long as the limit. For
  limits above the number of callers in the file, `RedirectCheck.CheckIsExact` says the same
  without walks: when the function is in a set from each member of which the search goes on
  to another one.
- *The resolver never writes a wrong address.* A border function that the compiler has left
  no copy of gets the address of a stranger of the same name
  (`SymbolResolve.StrangerIsResolved`). `SymbolResolve.ToolsAgree` shows that this happens
  exactly to functions that the analyzer has not found in vmlinux and under whose name
  kallsyms lists exactly one address.
- *The resolver removes the prefix of border functions.* It looks for the marker anywhere
  and removes as many characters in front; `SymbolResolve.StripsPrefixOnly` gives the
  condition under which that is the same.
- *A function body becomes a semicolon and the rest of the text stays.* Whatever follows
  the closing brace on its line is lost (`FunctionExtract.TextBehindIsLost`);
  `FunctionExtract.ExpectedIsIdeal` shows that this is the only loss.

## Model

| member | source | states |
|---|---|---|
| SyncTheorems.RedirectIsSafe | src/main.c:154-246 | safety: in every interleaving, if a task was dequeued, the classes switched or a function redirected, then the search found no captured frame of any thread or idle task of an online CPU in a checked function, and the pools had passed their recheck |
| SyncTheorems.TightFindsAll | src/stack_check.h:48-74 | on tight tables, so with disjoint functions, that means that no captured frame was in any checked function at all |
| SyncTheorems.NoFrameInRedirectedFunction | src/main.c:154-246 | the same in terms of the exported functions, for tight tables: once they are redirected, no captured frame lies in any of them with its size in the kernel; once they are restored, none lies in any of their module versions with its size there; `__schedule` excepted |
| SyncTheorems.ChangedMachineIsSafe | src/main.c:186-199 | in every reachable state, if the class contents or the kernel text differ from before, nothing was in the way |
| OverwrittenText.NoFrameInOverwrittenText | src/main.c:154-206 | across the layers: for every patch and every byte of kernel text that it changes, no reachable state of any install, on any CPUs with any threads, has the byte overwritten and a captured frame at it, exactly if the search finds the address of the byte in the checked table |
| OverwrittenText.UnfoundIsHit | src/main.c:154-206 | for every changed byte that the search does not find there is an install that completes with a frame at it |
| OverwrittenText.PatchSafeIffFound | src/main.c:154-206 | a patch as a whole is safe outside the head of `__schedule` exactly if the search finds every other byte that it changes |
| OverwrittenText.PatchSafeIffCovered | src/stack_check.h:15-28 | with the table of the patched functions, tight, exactly if every changed byte is within the recorded size of some function other than `__schedule` |
| OverwrittenText.LongFunctionsAreSafe | src/head_jump.h:90-91 | so it is safe if every function other than `__schedule` is at least as long as a jump |
| OverwrittenText.ShortFunctionIsHit | src/head_jump.h:90-91 | a concrete function of three bytes, and an install that completes with a thread returning into the jump |
| OverwrittenText.InstallCompletes | src/main.c:154-206 | from every start with nothing in the way an install can be run to success |
| SyncTheorems.ThreadDealtOnce | src/stack_check.h:171-176 | every thread is dealt to exactly one online CPU |
| SyncTheorems.PhasesInOrder | src/main.c:166-200 | the history of any run goes through the phases in order; every dequeue goes through the old class contents and every enqueue through the new ones; only the first process switches and redirects |
| SyncTheorems.PhasesComplete | src/main.c:166-200 | before any event, every operation of an earlier phase that is due on any CPU had happened, exactly once: all checks before any CPU goes offline or dequeues, all of that before the switch, the switch before the redirection, both before any CPU goes online or enqueues |
| SyncTheorems.EventOrder | src/main.c:166-200 | the same event by event: checks, then offline and dequeues, then the switch, then the redirection, then online and enqueues |
| SyncTheorems.HappenedBefore | src/main.c:166-200 | what has happened on every CPU, once, before a dequeue, the switch, the redirection and an enqueue |
| SyncTheorems.ClassesUsed | src/sched_rebuild.c:86-167 | dequeues use the old class contents; enqueues those of the module on install and the backup on restore; the clock and line functions are the kernel's before and the module's after an install, and the reverse on restore |
| SyncTheorems.ErrorsRaised | src/main.c:157-174 | only the first process of an install raises the outcome of the recheck, every CPU its own verdict, and an error that is there stays |
| SyncTheorems.TasksConserved | src/sched_rebuild.c:86-167 | after a successful run every runqueue holds exactly its queued tasks; each but the stopper was dequeued once and enqueued once, by its own CPU, and no other task ever was |
| SyncTheorems.Agreement | src/main.c:161-205 | all or nothing: when all CPUs have returned, the counters are zero and either nothing was in the way, all returned 0 and the machine is swapped, or something was, all returned the same error that somebody raised, and the machine, the runqueues and the history show no trace but checks |
| SyncTheorems.ExecInv | src/main.c:154-254 | the invariant of counters, barriers, error cell, machine, runqueues and history holds after every interleaving |
| SyncTheorems.StepInv | src/main.c:154-254 | every step of every CPU keeps that invariant |
| SyncTheorems.InitInv | src/main.c:90-96 | `parallel_state_check_init` establishes it |
| SyncTheorems.AllChecksPassed | src/main.c:166-179 | once all CPUs have checked and the error cell is clear, the search found nothing on any thread or idle task |
| SyncTheorems.CauseBlocks | src/main.c:161-168 | an error in the cell means that a stack or a pool really was in the way |
| SyncInvariant.KeepCounters | src/main.c:169-198 | every counter is the number of online CPUs that have yet to decrement it, on the success and on the error path |
| SyncInvariant.KeepBarriers | src/main.c:169-199 | nobody is past a barrier that somebody has yet to reach |
| SyncInvariant.KeepErrors | src/main.c:161-179 | the first error wins and stays; nobody who has read the cell as clear is ever wrong |
| SyncInvariant.KeepMachines | src/main.c:191-199 | only the first process touches classes and text, and only in its turn |
| SyncInvariant.KeepQueues | src/sched_rebuild.c:86-167 | every runqueue holds what its own CPU has left on it, whatever the others do |
| SyncHistory.MachineMeanwhile | src/main.c:186-200 | a CPU that has yet to clear sees the old machine, one that rebuilds sees the swapped one |
| SyncHistory.KeepHistory | src/main.c:166-200 | every new event is in phase and goes through the right classes |
| SyncHistory.KeepTallies | src/main.c:166-200 | every operation of every CPU has happened once if the CPU is past it, and never otherwise |
| SyncProgress.StepDecreases | src/main.c:154-254 | every step that is not a turn of a spin loop decreases a natural number; a turn of a spin loop changes nothing |
| SyncProgress.NoDeadlock | src/main.c:169-199 | in every reachable state in which some CPU has not returned, some CPU can make a step that is not spinning |
| SyncProgress.FairRunsEnd | src/main.c:154-254 | every run that keeps giving every CPU a turn ends with all CPUs returned |
| SyncProgress.BoundedWork | src/main.c:154-254 | no run, however long, spends more than 2 * threads + 17 steps per CPU outside spin loops |
| SyncProtocol.StackCheckOnCpu | src/stack_check.h:48-60 | the code of `stack_check`, on the two pairs of sorted arrays, returns the verdict that the protocol uses, for overlapping functions as well |
| SyncTheorems.VerdictMeans | src/stack_check.h:164-184 | the verdict of a CPU is -EBUSY exactly if the search finds its idle task or a thread dealt to it, on install in the table of the kernel, on restore in that of the module |
| ProcessIds.ProcessIdInit | src/main.c:98-104 | online CPUs get the number of online CPUs before them; other entries stay |
| ProcessIds.ProcessIdsBijective | src/main.c:98-104 | the process ids of the online CPUs are exactly 0..n-1, in CPU order |
| StackCheck.StackCheckInit | src/stack_check.h:15-46 | both tables end up sorted and hold every function with its own size, the zero size still being that of `__schedule` |
| StackCheck.FloorDecides | src/stack_check.h:63-70 | on tight tables, so on disjoint functions, the function with the greatest start not above an address decides whether any function contains it |
| StackCheck.FastIsSlowIffTight | src/stack_check.h:63-70 | looking only into the function with the greatest start not above the address agrees with looking into all, on every address, exactly if behind the end of any function inside another one a further function starts |
| StackCheck.DisjointIsTight | src/stack_check.h:63-70 | tables of disjoint functions are of that kind |
| StackCheck.NestedFunctionHides | src/stack_check.h:63-70 | with functions at [0, 10) and [2, 3), the address 5 is missed |
| StackCheck.StackCheckFn | src/stack_check.h:48-74 | on every sorted table, the empty one included, a hit is real; with distinct starts it reports a hit exactly if some frame is in the last function that starts not above it, which on tight tables is exactly if some frame is in some function |
| StackCheck.StacktraceCookie.ConsumeEntry | src/stack_check.h:84-97 | a frame is stored, skipped or refused, and the answer says whether there is room for another |
| StackCheck.GetStackTrace | src/stack_check.h:99-114 | the walk captures the frames up to the limit, in order |
| StackCheck.DeepFramesAreMissed | src/stack_check.h:8-8 | a frame behind 100 harmless ones is never looked at, whatever it is |
| StackCheck.BlockedByFirstFrames | src/stack_check.h:155-162 | a stack is blocked exactly if one of its first 100 frames is in a checked function |
| StackCheck.ShallowStacksAreSafe | src/stack_check.h:155-162 | a stack of at most 100 frames that passes has no frame in any checked function |
| StackCheck.SafeWithinLimit | src/stack_check.h:155-162 | every stack of n frames that passes is free of checked functions, exactly if n is at most 100 |
| StackCheck.StackCheckTask | src/stack_check.h:155-162 | the check of one task decides exactly whether the binary search finds one of its captured frames, on tight tables whether any of them is in a function |
| StackCheck.StackCheck | src/stack_check.h:164-184 | 0 exactly if the search finds nothing on the idle task or any thread dealt to this CPU, and -EBUSY otherwise; on tight tables, exactly if none of them is in a checked function |
| StackCheck.FastBlockedIsBlocked | src/stack_check.h:155-162 | what the search finds on a stack is real; on tight tables it finds everything |
| Helper.Bsearch | src/helper.h:83-105 | the position of the greatest element not above the target, or -1 if there is none; ends, and stays in bounds |
| Helper.AddrSwap | src/helper.h:107-114 | three exclusive-ors exchange two words, also equal ones |
| Helper.SiftDown | src/helper.h:123-133 | letting the root sink makes a heap, keeps the rest of the array and the pairs, and lets no element exceed the old bound |
| Helper.AddrSort | src/helper.h:119-149 | ascending addresses, and the (address, size) pairs are a permutation of those before |
| SchedRebuild.ClassSwitch.SwitchSchedClass | src/sched_rebuild.c:65-84 | to the module: the old contents are backed up and the module's installed; back: the backup is restored |
| SchedRebuild.Runqueue.ClearSchedState | src/sched_rebuild.c:104-113 | a complete runqueue ends up with the stopper alone |
| SchedRebuild.Runqueue.RebuildSchedState | src/sched_rebuild.c:158-167 | a runqueue with the stopper alone ends up complete: every queued task of this CPU, once |
| SchedRebuild.OnlyStopperLeft | src/sched_rebuild.c:117-124 | without dying tasks the drain loop ends at its first test |
| HeadJump.JumpLands | src/head_jump.h:72-80 | the five stored bytes decode to a jump that lands on the module function exactly if the distance, as a 64-bit number, fits a signed 32-bit displacement; addresses wrap |
| HeadJump.InstallRedirects | src/head_jump.h:135-140 | installing changes nothing outside the heads; with heads apart, every function then starts with its jump |
| HeadJump.RemoveUndoesInstall | src/head_jump.h:142-146 | installing and removing gives back the very same text, for any set of functions, even with overlapping heads |
| HeadJump.InstalledIsHooked | src/head_jump.h:81-87 | an installed jump makes a second module back off |
| HeadJump.JumpTable.InitAll | src/head_jump.h:153-164 | 1 if some function starts with a jump or with a call of anything but `__fentry__`, 0 if all start with a call of `__fentry__` or with neither; with 0 the buffers hold all jumps and all original heads, and the arrays all addresses |
| HeadJump.HookedByBytes | src/head_jump.h:80-87 | by its encoded bytes: a call of `__fentry__` is no hook, a call of any other address and a jump are, anything else is not |
| HeadJump.JumpTable.InitFunc | src/head_jump.h:72-88 | one function: its entry in each buffer and array, nothing else, and whether it is hooked |
| ModuleInit.InitTables | src/main.c:601-605 | -EBUSY if some function has been hooked, never if all are as compilers leave them; otherwise the sorted tables of the stack check hold exactly the functions that will be patched and their module versions, each with its size, `__schedule` exempt |
| HeadJump.JumpTable.Install | src/head_jump.h:90-91 | the copy loop writes exactly the jumps |
| HeadJump.JumpTable.Remove | src/head_jump.h:93-94 | after an install, the copy loop restores the original text |
| Lifecycle.StoreKeepsConsistent | src/main.c:393-496 | a write to `enable` keeps the module consistent, takes effect exactly if pools and stacks allow it, changes nothing but the pools otherwise, and returns its length exactly if the module then is as asked, else the error of the parser, -ENOMEM for the pools, or what `stop_machine` returned |
| Lifecycle.StoreKeepsTidy | src/main.c:393-470 | pools created one by one: a write leaves the pools as they should be, exactly if it is not a load that fails after the first of them |
| Lifecycle.TidyIffNoneFailsHalfway | src/main.c:402-407 | after any sequence of writes, the pools exist exactly when the module is enabled and none is left behind, if and only if no load has failed after creating some but not all of them |
| Lifecycle.SecondPoolFails | src/mempool.h:245-262 | with two pools of which the second fails, the first stays while the module is disabled, and is lost at the next load |
| Lifecycle.AlwaysConsistent | src/main.c:472-496 | after any sequence of writes, with failures anywhere: enabled exactly when the reference is held, the heads hold jumps and the classes are the module's, and then all pools exist; otherwise text and classes are original |
| Lifecycle.DisabledIsOriginal | src/main.c:437-470 | a module that is disabled again has left text, classes and reference count as they were, and no pool exactly if no load has failed halfway |
| Lifecycle.StopOutcome | src/main.c:256-267 | `stop_machine` returns 0 exactly if nothing was in the way; an error is -EBUSY or, on install, that of the recheck, and leaves the machine alone |
| Lifecycle.InTheWay | src/main.c:393-470 | what can be in the way: on enabling a failed recheck or a frame that the search finds in a function of the kernel, on disabling one that it finds in a function of the module |
| Lifecycle.SwapToggles | src/main.c:191-199 | a swap takes the original machine to the patched one and the patched one back |
| Lifecycle.SchedModule.LoadSchedRoutine | src/main.c:393-435 | the reference, the pools one by one, and the flag on success and on every failure |
| Lifecycle.SchedModule.CreatePools | src/mempool.h:245-262 | the pools before the first that fails are created, its pointer is cleared, the others stay |
| Lifecycle.SchedModule.UnloadSchedRoutine | src/main.c:437-470 | the same for unloading, which keeps everything on failure |
| Lifecycle.SchedModule.PlugschedEnabledStore | src/main.c:472-496 | parse errors and repeated values change nothing; otherwise load or unload |
| Mempool.PercpuMempool.Alloc | src/mempool.h:118-133 | the k-th object is at offset (k mod n) * size of area k div n, n being the objects per area; the array of areas is overrun exactly when all objects are taken |
| Mempool.SlotsDisjoint | src/mempool.h:118-133 | any two objects of a pool are disjoint |
| Mempool.PercpuMempool.Recheck | src/mempool.h:214-219 | fails exactly if more objects are needed than fit |
| Mempool.RecheckThenTake | src/mempool.h:194-219 | after a passed recheck all needed objects can be taken, lie inside the areas and do not overlap |
| Mempool.PercpuMempool.IsAddr | src/mempool.h:146-162 | true exactly for the addresses inside some area of the pool |
| Mempool.AllocatedIsRecognised | src/mempool.h:146-162 | every byte of every object is recognised as the pool's |
| Mempool.Create | src/mempool.h:74-116 | divides by zero exactly for sizes that do not fit an area; yields a pool exactly if every allocation succeeds, of at least the wanted number of objects, and less than one area more, on fresh areas; otherwise null with every acquired area given back |
| Mempool.AcquireAreas | src/mempool.h:94-100 | the areas acquired before the first failure are different and in use; all are acquired exactly if no call fails |
| Mempool.ReleaseAreas | src/mempool.h:108-110 | the error path frees every acquired area, once, and nothing else |
| Mempool.Destroy | src/mempool.h:135-144 | destroying frees every area of the pool, once, and nothing else |
| Mempool.Release | src/mempool.h:196-201 | a field is cleared; what somebody else acquired is freed, an object of the pool is not |
| Inflect.Inflect | boundary/analyze.py:146-165 | terminates with the greatest set of initial insiders whose callers are all in the set or cut |
| Inflect.DroppedIffForced | boundary/analyze.py:146-165 | a function is dropped exactly if a call path from outside reaches it through initial insiders that are not cut |
| Inflect.EdgeOrderIrrelevant | boundary/analyze.py:158-164 | the result does not depend on the order or repetition of edges |
| Sidecar.Leftover.Dfs | boundary/analyze.py:202-216 | on any graph, cyclic ones included, what is added is reachable and completely explored, and nothing visited is forgotten |
| Sidecar.SidecarInflect | boundary/analyze.py:186-199 | the result is exactly the sidecars and all they reach by same-file calls of functions absent from vmlinux; the two errors occur exactly when they should |
| Sidecar.LeftoverHasCallers | boundary/analyze.py:202-216 | apart from sidecars, only functions without a copy in vmlinux are kept, each called in its file by a kept one |
| Sidecar.LeftoverHasCallees | boundary/analyze.py:202-216 | every function without a copy in vmlinux that a kept one calls in its file is kept, and every sidecar |
| RedirectCheck.AnswersAreCorrect | boundary/analyze.py:219-239 | on every graph and under every recursion limit, an answer is True exactly if an unsafe call chain reaches the function |
| RedirectCheck.InlinedCallerIsUnsafe | boundary/analyze.py:236-238 | when an outsider calls a function without a copy in vmlinux, whatever that calls in its file is unsafe, and never declared safe |
| RedirectCheck.CheckUnderLimit | boundary/analyze.py:219-239 | under every recursion limit, the check overflows exactly if the search can make a walk as long as the limit, and answers rightly otherwise |
| RedirectCheck.SafeUnderLimit | boundary/analyze.py:219-239 | under every limit, a function is declared safe exactly if it is safe and has no chain of passed-on callers as long as the limit |
| RedirectCheck.CheckIsExact | boundary/analyze.py:219-239 | above the number of callers as recursion limit, the check overflows exactly on the functions in a set from each member of which the search goes on to another, and answers rightly on all others |
| RedirectCheck.LimitDoesNotMatter | boundary/analyze.py:219-239 | what overflows under such a limit overflows under every limit |
| RedirectCheck.TrappedMeansCycle | boundary/analyze.py:234-238 | only functions reached by a cycle of passed-on callers can overflow |
| RedirectCheck.SafeAnswered | boundary/analyze.py:219-239 | a function is declared safe exactly if it is safe and no such cycle reaches it |
| RedirectCheck.SelfCallOverflows | boundary/analyze.py:236-238 | a mangled function that calls itself is safe and yet overflows under every limit |
| RedirectCheck.EdgeOrderMatters | boundary/analyze.py:223-239 | on an unsafe function the answer may depend on the order of the edges: True in one order, an overflow in the other |
| Boundary.FuncClass.Arithmetics | boundary/analyze.py:242-268 | which assertion stops the analysis and when, in terms of the configuration; what the border then is; otherwise every class means, function by function, what it is for |
| Boundary.CallersStayInside | boundary/analyze.py:258-260 | every caller of an insider is an insider, border, init, sidecar or an overridden weak function |
| Boundary.ClassesPartition | boundary/analyze.py:242-268 | the classes cover the module; insiders and outsiders share only optimised callbacks, border and outsiders only overridden functions; exported functions are never inside |
| Boundary.InsidersAreMaximal | boundary/analyze.py:242-268 | every set of functions that could be kept inside is kept inside |
| Vmlinux.FindInVmlinux | boundary/analyze.py:45-143 | the four results in terms of the fields of the rows: local functions by the file in force or the first module header, global ones by the first file, optimised versions but for cold parts, exports of module files; the position of a local function is the number of its namesakes up to its last row; the NameError occurs exactly when a row needs a file before any is named |
| SymbolResolve.LoadKallsyms | tools/symbol_resolve/symbol_resolve.cpp:123-147 | under every name the addresses that the kernel proper lists for it, in order, and nothing from modules |
| SymbolResolve.ListedMeans | tools/symbol_resolve/symbol_resolve.cpp:133-144 | these are, in order, the addresses of the lines with that name before the first of a module, lines with a dotted name and data symbols called kern_path not counting |
| SymbolResolve.ResolveRef | tools/symbol_resolve/symbol_resolve.cpp:70-105 | aborts exactly if some undefined symbol has to; otherwise every undefined symbol has met its fate in place and the others are untouched |
| SymbolResolve.ToolsAgree | tools/symbol_resolve/symbol_resolve.cpp:70-105 | for every undefined function: the resolver leaves the symbol undefined, aborts, or writes the address of exactly the function the analyzer meant, if and only if the analyzer has found it in vmlinux or kallsyms does not list exactly one address under its name |
| SymbolResolve.ResolvedIff | tools/symbol_resolve/symbol_resolve.cpp:86-105 | an address is written exactly if kallsyms lists enough namesakes for the position of a local function, or a single address for any other |
| SymbolResolve.StrangerIsResolved | boundary/analyze.py:453-454 | a concrete border function without a copy in vmlinux gets the address of a function of another file |
| SymbolResolve.PositionCounts | boundary/analyze.py:118-131 | the recorded position counts to the row of the function it was recorded for |
| SymbolResolve.StripsPrefixOnly | tools/symbol_resolve/symbol_resolve.cpp:78-83 | the prefix and nothing else is removed exactly if the marker occurs, if at all, in front |
| Extract.MergeUpLines | boundary/extract.py:107-121 | the declaration is pulled onto the line after the nearest terminator above, without a line break inside; no text is lost, lines below become empty, all others stay |
| Extract.TerminatesMeans | boundary/extract.py:109-109 | the terminators: semicolon, closing brace, directive, comment, empty line, and nothing else |
| Extract.StripMeans | boundary/extract.py:110-116 | stripping removes white space only, and all of it at either end |
| Extract.SpacesAre | boundary/extract.py:110-116 | white space, code point by code point |
| Extract.TightMeans | boundary/extract.py:120-120 | every blank before a semicolon goes |
| Extract.TightStays | boundary/extract.py:120-120 | and a string without any stays as it is |
| Extract.MergeDownVar | boundary/extract.py:171-184 | the definition is pulled onto its first line, without a line break inside, up to the first semicolon; runs off the list exactly if there is none |
| Extract.MergeDownFn | boundary/extract.py:243-260 | the function is pulled onto its first line, without a line break inside, up to the first line at which its braces balance; runs off the list exactly if there is none |
| Extract.CountCharMeans | boundary/extract.py:247-255 | the counts of braces are multiplicities |
| FunctionExtract.HandleFn | boundary/extract.py:133-143 | one function: the text from the merged row to the closing brace is what stood above followed by the edit; nothing else changes |
| FunctionExtract.WarningNames | boundary/extract.py:125-125 | the warning is a comment on a line of its own that names the function |
| FunctionExtract.ExtractOutsiders | boundary/extract.py:123-143 | for functions on separate rows, in any order: no line is added or lost, and apart from white space the text has every function edited in its own rows, and is exactly right if and only if nothing follows a closing brace |
| FunctionExtract.ExpectedUnordered | boundary/extract.py:130-143 | the expected text does not depend on the order of the functions |
| FunctionExtract.ExpectedIsIdeal | boundary/extract.py:137-143 | replacing rows is the same as replacing bodies exactly if nothing but white space follows the closing braces |
| FunctionExtract.TextBehindIsLost | boundary/extract.py:137-143 | a variable declared behind a closing brace is lost |

## Left out

- RedirectCheck.CheckIsExact: is about recursion limits above the number of callers in the file; RedirectCheck.CheckUnderLimit is about all.
- RedirectCheck.SafeAnswered: the same; RedirectCheck.SafeUnderLimit is about all.
- SyncProtocol.StackCheckOnCpu: assumes that no two different functions start at one address and none reaches the end of the address space.
- StackCheck.StackCheck: for tables in which two different functions start at one address, or one reaches the end of the address space, it only says that a reported error is real.
- StackCheck.StackCheckFn: the same for such tables.
- StackCheck.StackCheckTask: the same for such tables.
- SchedRebuild.Runqueue.ClearSchedState: does not model the loop that drains dying tasks (src/sched_rebuild.c:117-135), which does not iterate when there are none.
- SchedRebuild.Runqueue.RebuildSchedState: does not model the replay of dying tasks (src/sched_rebuild.c:169-172) and what follows it (src/sched_rebuild.c:173-191).
- FunctionExtract.ExtractOutsiders: compares the text apart from white space, and assumes that outsiders do not share rows.
- Mempool.Create: object counts and sizes are unbounded naturals; negative counts and 32-bit overflow are not modelled.
- Sidecar.Leftover.Dfs: Python's recursion limit is not modelled here; in RedirectCheck it is.
- Weak-memory effects of the relaxed reads, write protection (cr0, fixmap), timing and messages.
- `reset_balance_callback`, and the templates `sched_alloc_extrapad` and `sched_free_extrapad`, which are empty as shipped.
- ARM64: instruction encoding and `disable_stack_protector`, whose patches are not undone on restore; all statements about text are about x86-64 function heads.
- The unwinder, and stack frames past the limit of 100.
- The error paths of `sched_mod_init`, sysfs, debugfs, procfs, sched-domain sysctl; the reference and pools are those of `load_sched_routine`.
- `simple_mempool`: one area with the same allocation formula; its membership test also accepts the address behind its end.
- Callbacks, interfaces, sidecars and variables in `boundary/extract.py`, and its regular-expression clean-up: single-line replacements.
- `get_func_decl_strs`, structure properties and header merging in `boundary/analyze.py`.
- Opening, reading and writing ELF files in the resolver; the symbol table is an array here.
- `boundary/collect.py`, `cli.py`, configuration files, shell scripts and kernel patches.
