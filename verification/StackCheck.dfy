/** src/stack_check.h: is any captured stack frame inside a function that is
    about to be replaced? */
module StackCheck {
  import opened Errno
  import opened Words
  import opened Helper

  const MAX_STACK_ENTRIES: nat := 100

  /** A function of an interface table: it occupies `[addr, addr + size)`. */
  datatype Extent = Extent(addr: Word, size: Word)

  /** What the unwinder would report for a task: its frames, innermost first, or
      nothing when the stack can no longer be pinned. */
  datatype Stack = Gone | Frames(frames: seq<Word>)

  ghost predicate Inside(fn: Extent, address: Word) {
    fn.addr <= address < fn.addr + fn.size
  }

  // The slow check: try every function of the table.
  ghost predicate Hit(fns: seq<Extent>, address: Word) {
    exists fn :: fn in fns && Inside(fn, address)
  }

  /** Functions start at different addresses and do not wrap. */
  ghost predicate Plain(fns: seq<Extent>) {
    && (forall f :: f in fns ==> f.addr + f.size < WORD_LIMIT)
    && (forall f, g :: f in fns && g in fns && f != g ==> f.addr != g.addr)
  }

  /** Functions moreover do not overlap. */
  ghost predicate Disjoint(fns: seq<Extent>) {
    && Plain(fns)
    && (forall f, g :: f in fns && g in fns && f.addr < g.addr ==> f.addr + f.size <= g.addr)
  }

  /** Of a function that reaches beyond the end of a later one, nothing is in sight of
      the binary search behind that end: yet another function starts before it. */
  ghost predicate Tight(fns: seq<Extent>) {
    forall f, g ::
      f in fns && g in fns && f.addr < g.addr && g.addr + g.size < f.addr + f.size ==> StartsWithin(fns, g)
  }

  ghost predicate StartsWithin(fns: seq<Extent>, g: Extent) {
    exists h :: h in fns && g.addr < h.addr <= g.addr + g.size
  }

  // ---------------------------------------------------------------- tables

  /** The interface table as `stack_check_init` means it: the looked-up size of
      every function, but size zero for `__schedule`. */
  ghost function Registered(addr: seq<Word>, looked: seq<Word>, schedule: nat): (r: seq<Extent>)
    requires |addr| == |looked|
    ensures |r| == |addr|
  {
    seq(|addr|, k requires 0 <= k < |addr| => Extent(addr[k], if k == schedule then 0 else looked[k]))
  }

  /** A sorted pair of arrays that holds exactly the functions `fns`. */
  ghost predicate Sorts(fns: seq<Extent>, addr: seq<Word>, size: seq<Word>) {
    && |addr| == |size| == |fns|
    && Ascending(addr)
    && (forall f :: f in fns <==> exists k :: 0 <= k < |addr| && f == Extent(addr[k], size[k]))
  }

  lemma SamePairsSorts(addr0: seq<Word>, size0: seq<Word>, addr1: seq<Word>, size1: seq<Word>, fns: seq<Extent>)
    requires |addr0| == |size0| == |fns| && |addr1| == |size1|
    requires SamePairs(addr0, size0, addr1, size1) && Ascending(addr1)
    requires forall k :: 0 <= k < |fns| ==> fns[k] == Extent(addr0[k], size0[k])
    ensures Sorts(fns, addr1, size1)
  {
    var p, q := Pairs(addr0, size0), Pairs(addr1, size1);
    assert |p| == |multiset(p)| == |multiset(q)| == |q|;
    forall f ensures f in fns <==> exists k :: 0 <= k < |addr1| && f == Extent(addr1[k], size1[k]) {
      if f in fns {
        var k :| 0 <= k < |fns| && fns[k] == f;
        assert p[k] in multiset(p);
        assert p[k] in q;
        var j :| 0 <= j < |q| && q[j] == p[k];
        assert f == Extent(addr1[j], size1[j]);
      }
      if exists k :: 0 <= k < |addr1| && f == Extent(addr1[k], size1[k]) {
        var k :| 0 <= k < |addr1| && f == Extent(addr1[k], size1[k]);
        assert q[k] in multiset(q);
        assert q[k] in p;
        var j :| 0 <= j < |p| && p[j] == q[k];
        assert fns[j] == f;
      }
    }
  }

  // One half of `stack_check_init`: record the sizes found in kallsyms, exempt
  // `__schedule`, and sort.
  method InitTable(addr: array<Word>, size: array<Word>, looked: seq<Word>, schedule: nat)
    requires addr != size && addr.Length == size.Length == |looked| && schedule < addr.Length
    modifies addr, size
    ensures Sorts(Registered(old(addr[..]), looked, schedule), addr[..], size[..])
  {
    ghost var fns := Registered(addr[..], looked, schedule);
    for i := 0 to size.Length
      invariant size[..i] == looked[..i]
      invariant addr[..] == old(addr[..])
    {
      size[i] := looked[i];
    }
    size[schedule] := 0;
    ghost var addr0, size0 := addr[..], size[..];
    AddrSort(addr, size);
    SamePairsSorts(addr0, size0, addr[..], size[..], fns);
  }

  /** `stack_check_init`: after it, both tables are sorted and hold each function
      with its own size, the zero size still belonging to `__schedule`. */
  method StackCheckInit(vmAddr: array<Word>, vmSize: array<Word>, modAddr: array<Word>, modSize: array<Word>,
                        vmLooked: seq<Word>, modLooked: seq<Word>, schedule: nat)
    requires vmAddr != vmSize && vmAddr != modAddr && vmAddr != modSize
    requires vmSize != modAddr && vmSize != modSize && modAddr != modSize
    requires vmAddr.Length == vmSize.Length == modAddr.Length == modSize.Length
    requires |vmLooked| == |modLooked| == vmAddr.Length && schedule < vmAddr.Length
    modifies vmAddr, vmSize, modAddr, modSize
    ensures Sorts(Registered(old(vmAddr[..]), vmLooked, schedule), vmAddr[..], vmSize[..])
    ensures Sorts(Registered(old(modAddr[..]), modLooked, schedule), modAddr[..], modSize[..])
  {
    InitTable(vmAddr, vmSize, vmLooked, schedule);
    InitTable(modAddr, modSize, modLooked, schedule);
  }

  // --------------------------------------------------------- one stack trace

  // The function with the greatest start not above the address.
  ghost predicate IsFloor(fns: seq<Extent>, address: Word, fn: Extent) {
    fn in fns && fn.addr <= address && forall g :: g in fns && g.addr <= address ==> g.addr <= fn.addr
  }

  // The fast check: look into that function only.
  ghost predicate FloorHit(fns: seq<Extent>, address: Word) {
    exists fn :: IsFloor(fns, address, fn) && Inside(fn, address)
  }

  lemma {:induction false} FloorExists(fns: seq<Extent>, address: Word, fn: Extent) returns (floor: Extent)
    requires fn in fns && fn.addr <= address
    ensures IsFloor(fns, address, floor)
  {
    var n := |fns| - 1;
    if f :| f in fns[..n] && f.addr <= address {
      var g := FloorExists(fns[..n], address, f);
      floor := if g.addr <= fns[n].addr <= address then fns[n] else g;
    } else {
      floor := fns[n];
    }
    assert forall g :: g in fns <==> g in fns[..n] || g == fns[n];
  }

  /** On a tight table, the function with the greatest start not above an address
      decides whether any function contains it. */
  lemma FloorDecides(fns: seq<Extent>, address: Word, floor: Extent)
    requires Plain(fns) && Tight(fns) && IsFloor(fns, address, floor)
    ensures Hit(fns, address) <==> Inside(floor, address)
  {
    assert StartsWithin(fns, floor) ==> Inside(floor, address);
  }

  // The end of a function inside another one is an address that the fast check misses,
  // unless a further function starts before it.
  lemma GapHides(fns: seq<Extent>, f: Extent, g: Extent)
    requires Plain(fns) && f in fns && g in fns && f.addr < g.addr && g.addr + g.size < f.addr + f.size
    requires !StartsWithin(fns, g)
    ensures g.addr + g.size < WORD_LIMIT && Hit(fns, g.addr + g.size) && !FloorHit(fns, g.addr + g.size)
  {
    var address: Word := g.addr + g.size;
    assert Inside(f, address) && IsFloor(fns, address, g);
  }

  /** The fast check agrees with the slow one on every address exactly when the table
      is tight. */
  lemma FastIsSlowIffTight(fns: seq<Extent>)
    requires Plain(fns)
    ensures (forall address: Word :: FloorHit(fns, address) <==> Hit(fns, address)) <==> Tight(fns)
  {
    if Tight(fns) {
      forall address: Word ensures FloorHit(fns, address) <==> Hit(fns, address) {
        if Hit(fns, address) {
          var f :| f in fns && Inside(f, address);
          var floor := FloorExists(fns, address, f);
          FloorDecides(fns, address, floor);
        }
      }
    } else {
      var f, g :|
        f in fns && g in fns && f.addr < g.addr && g.addr + g.size < f.addr + f.size && !StartsWithin(fns, g);
      GapHides(fns, f, g);
    }
  }

  /** Disjoint functions are tight. */
  lemma DisjointIsTight(fns: seq<Extent>)
    requires Disjoint(fns)
    ensures Tight(fns)
  {
  }

  /** An inner function hides the rest of an outer one: with [0, 10) and [2, 3), the
      address 5 is missed. */
  lemma NestedFunctionHides()
    ensures var fns := [Extent(0, 10), Extent(2, 1)];
            Plain(fns) && Hit(fns, 5) && !FloorHit(fns, 5)
  {
    var fns := [Extent(0, 10), Extent(2, 1)];
    var outer, inner := fns[0], fns[1];
    assert forall f :: f in fns <==> f == outer || f == inner;
    assert Inside(outer, 5) && IsFloor(fns, 5, inner);
  }

  // The body of the loop in `stack_check_fn`.
  method EntryHit(address: Word, addr: array<Word>, size: array<Word>, ghost fns: seq<Extent>) returns (hit: bool)
    requires Sorts(fns, addr[..], size[..])
    ensures hit ==> Hit(fns, address)
    ensures Plain(fns) ==> (hit <==> FloorHit(fns, address))
  {
    ghost var a, s := addr[..], size[..];
    assert addr[0..addr.Length - 1 + 1] == a;
    var idx := Bsearch(addr, 0, addr.Length - 1, address);
    if idx == -1 {
      assert forall k :: 0 <= k < |a| ==> address < a[k];
      return false;
    }
    ghost var floor := Extent(a[idx], s[idx]);
    assert floor in fns;
    hit := address < AddWords(addr[idx], size[idx]);
    assert hit ==> Inside(floor, address);
    assert IsFloor(fns, address, floor) by {
      assert forall k :: 0 <= k < |a| && a[k] <= address ==> a[k] <= a[idx];
    }
  }

  ghost predicate AnyFloorHit(fns: seq<Extent>, entries: seq<Word>) {
    exists i :: 0 <= i < |entries| && FloorHit(fns, entries[i])
  }

  ghost predicate AnyHit(fns: seq<Extent>, entries: seq<Word>) {
    exists i :: 0 <= i < |entries| && Hit(fns, entries[i])
  }

  /** `stack_check_fn`: -EAGAIN or 0. A hit is always real. The binary search decides
      exactly what the fast check does, and on a tight table, so on disjoint functions,
      exactly what the slow check does. */
  method StackCheckFn(entries: seq<Word>, addr: array<Word>, size: array<Word>, ghost fns: seq<Extent>)
    returns (r: int)
    requires Sorts(fns, addr[..], size[..])
    ensures r == 0 || r == -11
    ensures r != 0 ==> AnyHit(fns, entries)
    ensures Plain(fns) ==> (r != 0 <==> AnyFloorHit(fns, entries))
    ensures Plain(fns) && Tight(fns) ==> (r != 0 <==> AnyHit(fns, entries))
  {
    if Plain(fns) {
      FastIsSlowIffTight(fns);
    }
    for i := 0 to |entries|
      invariant Plain(fns) ==> !AnyFloorHit(fns, entries[..i])
    {
      var hit := EntryHit(entries[i], addr, size, fns);
      if hit {
        return -EAGAIN;
      }
      assert entries[..i + 1] == entries[..i] + [entries[i]];
    }
    assert entries[..|entries|] == entries;
    return 0;
  }

  // -------------------------------------------------------- captured traces

  /** `struct stacktrace_cookie`: the buffer that `arch_stack_walk` fills. */
  class StacktraceCookie {
    const store: array<Word>
    const size: nat
    var skip: nat
    var len: nat

    ghost predicate Valid()
      reads this
    {
      size <= store.Length && len <= size
    }

    constructor (store: array<Word>, size: nat, skip: nat)
      requires size <= store.Length
      ensures Valid() && this.store == store && this.size == size && this.skip == skip && len == 0
    {
      this.store, this.size, this.skip, this.len := store, size, skip, 0;
    }

    /** `stack_trace_consume_entry`: store one frame unless it is to be skipped or
        the buffer is full; true asks the unwinder for the next frame. */
    method ConsumeEntry(addr: Word) returns (more: bool)
      requires Valid()
      modifies this, store
      ensures Valid()
      ensures old(len) >= size ==> !more && len == old(len) && skip == old(skip) && store[..] == old(store[..])
      ensures old(len) < size && old(skip) > 0 ==>
        more && len == old(len) && skip == old(skip) - 1 && store[..] == old(store[..])
      ensures old(len) < size && old(skip) == 0 ==>
        && len == old(len) + 1 && skip == 0
        && store[..len] == old(store[..len]) + [addr]
        && (more <==> len < size)
    {
      if len >= size {
        return false;
      }
      if skip > 0 {
        skip := skip - 1;
        return true;
      }
      store[len] := addr;
      len := len + 1;
      return len < size;
    }
  }

  /** The frames a trace captures: the first `MAX_STACK_ENTRIES` of them. */
  function Captured(stack: Stack): (r: seq<Word>)
    ensures |r| <= MAX_STACK_ENTRIES
  {
    match stack
    case Gone => []
    case Frames(f) => if |f| <= MAX_STACK_ENTRIES then f else f[..MAX_STACK_ENTRIES]
  }

  /** `get_stack_trace`: walk the stack, frame by frame, into a fresh buffer. */
  method GetStackTrace(stack: Stack) returns (entries: seq<Word>)
    ensures entries == Captured(stack)
  {
    if stack.Gone? {
      return [];
    }
    var buffer := new Word[MAX_STACK_ENTRIES];
    var c := new StacktraceCookie(buffer, MAX_STACK_ENTRIES, 0);
    var i, more := 0, true;
    while i < |stack.frames| && more
      invariant c.Valid() && c.store == buffer && c.size == MAX_STACK_ENTRIES && c.skip == 0 && fresh(c)
      invariant 0 <= i <= |stack.frames| && c.len == i
      invariant buffer[..c.len] == stack.frames[..i]
      invariant more <==> i < MAX_STACK_ENTRIES
    {
      more := c.ConsumeEntry(stack.frames[i]);
      i := i + 1;
    }
    return buffer[..c.len];
  }

  // ------------------------------------------------------------- all threads

  ghost predicate Blocked(fns: seq<Extent>, stack: Stack) {
    AnyHit(fns, Captured(stack))
  }

  // What the binary search sees of a stack.
  ghost predicate FastBlocked(fns: seq<Extent>, stack: Stack) {
    AnyFloorHit(fns, Captured(stack))
  }

  /** What the check of one CPU is for: no thread dealt to it round robin, nor its own
      idle task, is blocked. */
  ghost predicate Clear(fns: seq<Extent>, threads: seq<Stack>, idle: Stack, cpus: nat, id: nat)
    requires cpus > 0
  {
    && !Blocked(fns, idle)
    && forall k :: 0 <= k < |threads| && k % cpus == id ==> !Blocked(fns, threads[k])
  }

  // The same, as far as the binary search sees.
  ghost predicate FastClear(fns: seq<Extent>, threads: seq<Stack>, idle: Stack, cpus: nat, id: nat)
    requires cpus > 0
  {
    && !FastBlocked(fns, idle)
    && forall k :: 0 <= k < |threads| && k % cpus == id ==> !FastBlocked(fns, threads[k])
  }

  ghost function CheckResult(fns: seq<Extent>, threads: seq<Stack>, idle: Stack, cpus: nat, id: nat): (r: int)
    requires cpus > 0
    ensures r == 0 || r == -EBUSY
    ensures r == 0 <==> FastClear(fns, threads, idle, cpus, id)
  {
    if FastClear(fns, threads, idle, cpus, id) then 0 else -EBUSY
  }

  /** What the binary search finds is real; on a tight table it finds everything. */
  lemma FastBlockedIsBlocked(fns: seq<Extent>, stack: Stack)
    ensures FastBlocked(fns, stack) ==> Blocked(fns, stack)
    ensures Plain(fns) && Tight(fns) ==> (FastBlocked(fns, stack) <==> Blocked(fns, stack))
  {
    if Plain(fns) {
      FastIsSlowIffTight(fns);
    }
  }

  /** Exactly the first `MAX_STACK_ENTRIES` frames are looked at. */
  lemma BlockedByFirstFrames(fns: seq<Extent>, stack: Stack)
    ensures Blocked(fns, stack) <==>
      stack.Frames? && exists j :: 0 <= j < |stack.frames| && j < MAX_STACK_ENTRIES && Hit(fns, stack.frames[j])
  {
    var seen := Captured(stack);
    assert forall j :: 0 <= j < |seen| ==> stack.Frames? && seen[j] == stack.frames[j];
    if stack.Frames? {
      assert forall j :: 0 <= j < |stack.frames| && j < MAX_STACK_ENTRIES ==> seen[j] == stack.frames[j];
    }
  }

  // A stack that passes the check has no frame in any function.
  ghost predicate PassingIsSafe(fns: seq<Extent>, stack: Stack)
    requires stack.Frames?
  {
    !Blocked(fns, stack) ==> forall j :: 0 <= j < |stack.frames| ==> !Hit(fns, stack.frames[j])
  }

  /** A frame behind that many harmless ones is missed, whatever it is. */
  lemma DeepFramesAreMissed(fns: seq<Extent>, top: seq<Word>, address: Word)
    requires |top| >= MAX_STACK_ENTRIES && forall j :: 0 <= j < MAX_STACK_ENTRIES ==> !Hit(fns, top[j])
    ensures !Blocked(fns, Frames(top + [address]))
    ensures Hit(fns, address) ==> !PassingIsSafe(fns, Frames(top + [address]))
  {
    var stack := Frames(top + [address]);
    BlockedByFirstFrames(fns, stack);
    assert stack.frames[|top|] == address;
  }

  /** A stack of at most that many frames is checked completely. */
  lemma ShallowStacksAreSafe(fns: seq<Extent>, stack: Stack, j: nat)
    requires stack.Frames? && |stack.frames| <= MAX_STACK_ENTRIES && j < |stack.frames|
    requires !Blocked(fns, stack)
    ensures !Hit(fns, stack.frames[j])
  {
    BlockedByFirstFrames(fns, stack);
  }

  /** The check is sound on all stacks of `n` frames exactly when `n` is within the
      limit, provided that there are a harmless and a dangerous address at all. */
  lemma SafeWithinLimit(fns: seq<Extent>, harmless: Word, dangerous: Word, n: nat)
    requires !Hit(fns, harmless) && Hit(fns, dangerous)
    ensures (forall stack: Stack :: stack.Frames? && |stack.frames| == n ==> PassingIsSafe(fns, stack))
            <==> n <= 100
  {
    if n <= MAX_STACK_ENTRIES {
      forall stack: Stack | stack.Frames? && |stack.frames| == n ensures PassingIsSafe(fns, stack) {
        BlockedByFirstFrames(fns, stack);
      }
    } else {
      var top := seq(n - 1, i => harmless);
      DeepFramesAreMissed(fns, top, dangerous);
      assert |Frames(top + [dangerous]).frames| == n;
    }
  }

  lemma TightClear(fns: seq<Extent>, threads: seq<Stack>, idle: Stack, cpus: nat, id: nat)
    requires cpus > 0
    ensures Plain(fns) && Tight(fns) ==>
      (FastClear(fns, threads, idle, cpus, id) <==> Clear(fns, threads, idle, cpus, id))
  {
    forall stack: Stack ensures Plain(fns) && Tight(fns) ==> (FastBlocked(fns, stack) <==> Blocked(fns, stack)) {
      FastBlockedIsBlocked(fns, stack);
    }
  }

  /** `stack_check_task`. */
  method StackCheckTask(stack: Stack, addr: array<Word>, size: array<Word>, ghost fns: seq<Extent>) returns (r: int)
    requires Sorts(fns, addr[..], size[..])
    ensures r != 0 ==> Blocked(fns, stack)
    ensures Plain(fns) ==> (r != 0 <==> FastBlocked(fns, stack))
    ensures Plain(fns) && Tight(fns) ==> (r != 0 <==> Blocked(fns, stack))
  {
    var entries := GetStackTrace(stack);
    r := StackCheckFn(entries, addr, size, fns);
  }

  /** `stack_check` on the CPU whose process id is `id`. */
  method StackCheck(threads: seq<Stack>, idle: Stack, cpus: nat, id: nat,
                    addr: array<Word>, size: array<Word>, ghost fns: seq<Extent>)
    returns (r: int)
    requires cpus > 0
    requires Sorts(fns, addr[..], size[..])
    ensures r == 0 || r == -EBUSY
    ensures r != 0 ==> !Clear(fns, threads, idle, cpus, id)
    ensures Plain(fns) ==> r == CheckResult(fns, threads, idle, cpus, id)
    ensures Plain(fns) && Tight(fns) ==> (r == 0 <==> Clear(fns, threads, idle, cpus, id))
  {
    TightClear(fns, threads, idle, cpus, id);
    var taskCount := 0;
    while taskCount < |threads|
      invariant 0 <= taskCount <= |threads|
      invariant Plain(fns) ==>
        forall k :: 0 <= k < taskCount && k % cpus == id ==> !FastBlocked(fns, threads[k])
    {
      if taskCount % cpus == id {
        var hit := StackCheckTask(threads[taskCount], addr, size, fns);
        if hit != 0 {
          return -EBUSY;
        }
      }
      taskCount := taskCount + 1;
    }
    var hit := StackCheckTask(idle, addr, size, fns);
    if hit != 0 {
      return -EBUSY;
    }
    return 0;
  }
}
