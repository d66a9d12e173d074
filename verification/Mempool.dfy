/** src/mempool.h: the per-cpu memory pool. Objects are carved out of areas of
    PCPU_MIN_UNIT_SIZE bytes, one after the other, before and while the machine is
    stopped. */
module Mempool {
  import opened Errno
  import opened Words

  const PCPU_MIN_UNIT_SIZE: nat := 32768

  /** The kernel's per-cpu allocator: the areas in use, and the addresses the next
      calls will return, 0 for a call that fails. */
  class PercpuAllocator {
    var live: set<Word>
    var answers: seq<Word>

    /** What the allocator promises: it hands out areas that are apart from each
        other and from those in use, and that do not wrap. */
    ghost predicate Valid()
      reads this
    {
      && GoodLive(live)
      && (forall i :: 0 <= i < |answers| && answers[i] != 0 ==>
            answers[i] + PCPU_MIN_UNIT_SIZE <= WORD_LIMIT && answers[i] !in live)
      && (forall i, a :: 0 <= i < |answers| && answers[i] != 0 && a in live ==> Apart(a, answers[i]))
      && (forall i, j :: 0 <= i < j < |answers| && answers[i] != 0 && answers[j] != 0 ==> Apart(answers[i], answers[j]))
    }

    constructor (answers: seq<Word>)
      requires forall i :: 0 <= i < |answers| && answers[i] != 0 ==> answers[i] + PCPU_MIN_UNIT_SIZE <= WORD_LIMIT
      requires forall i, j :: 0 <= i < j < |answers| && answers[i] != 0 && answers[j] != 0 ==>
        Apart(answers[i], answers[j])
      ensures Valid() && live == {} && this.answers == answers
    {
      live, this.answers := {}, answers;
    }

    method Alloc() returns (ptr: Word)
      requires Valid()
      modifies this
      ensures Valid()
      ensures ptr == 0 ==> live == old(live)
      ensures ptr != 0 ==> live == old(live) + {ptr} && ptr !in old(live)
      ensures old(answers) != [] ==> ptr == old(answers)[0] && answers == old(answers)[1..]
      ensures old(answers) == [] ==> ptr == 0 && answers == []
    {
      if answers == [] {
        return 0;
      }
      ptr := answers[0];
      answers := answers[1..];
      if ptr != 0 {
        live := live + {ptr};
      }
    }

    /** `free_percpu`: only an area in use may be freed; null is ignored. */
    method Free(ptr: Word)
      requires Valid() && (ptr == 0 || ptr in live)
      modifies this
      ensures Valid() && live == old(live) - {ptr} && answers == old(answers)
    {
      live := live - {ptr};
    }
  }

  ghost predicate GoodLive(live: set<Word>) {
    && (forall a :: a in live ==> a != 0 && a + PCPU_MIN_UNIT_SIZE <= WORD_LIMIT)
    && (forall a, b :: a in live && b in live && a != b ==> Apart(a, b))
  }

  ghost predicate Apart(a: Word, b: Word) {
    a + PCPU_MIN_UNIT_SIZE <= b || b + PCPU_MIN_UNIT_SIZE <= a
  }

  /** Where the k-th object of a pool goes. */
  function Slot(areas: seq<Word>, objSize: nat, objsPerArea: nat, k: nat): int
    requires 0 < objsPerArea && k < |areas| * objsPerArea
  {
    assert k / objsPerArea < |areas| by { AreaOf(k, objsPerArea, |areas|); }
    areas[k / objsPerArea] + k % objsPerArea * objSize
  }

  lemma MulAtLeast(x: int, d: int)
    requires 1 <= x && 0 <= d
    ensures d <= x * d
  {
    assert x * d == d + (x - 1) * d;
  }

  lemma MulSmall(x: int, d: int)
    requires -d < x * d < d
    ensures x == 0
  {
    if 1 <= x {
      MulAtLeast(x, d);
    } else if x <= -1 {
      MulAtLeast(-x, d);
    }
  }

  lemma DivUnique(n: int, q: int, r: int, d: int)
    requires 0 <= r < d && n == q * d + r
    ensures n / d == q && n % d == r
  {
    var q', r' := n / d, n % d;
    assert n == q' * d + r';
    assert (q' - q) * d == r - r';
    MulSmall(q' - q, d);
  }

  lemma AreaOf(k: nat, perArea: nat, areas: nat)
    requires 0 < perArea && k < areas * perArea
    ensures 0 <= k / perArea < areas
    ensures k == k / perArea * perArea + k % perArea && 0 <= k % perArea < perArea
  {
    var a := k / perArea;
    if areas <= a {
      MulAtMost(areas, a, perArea);
    }
  }

  lemma MulAtMost(x: int, y: int, d: int)
    requires x <= y && 0 <= d
    ensures x * d <= y * d
  {
    assert y * d == x * d + (y - x) * d;
    assert 0 <= (y - x) * d;
  }

  // Areas that the allocator could have handed out.
  ghost predicate GoodAreas(areas: seq<Word>) {
    && (forall i :: 0 <= i < |areas| ==> areas[i] + PCPU_MIN_UNIT_SIZE <= WORD_LIMIT)
    && (forall i, j :: 0 <= i < j < |areas| ==> Apart(areas[i], areas[j]))
  }

  ghost predicate GoodSizes(objSize: nat, objsPerArea: nat) {
    0 < objSize && 0 < objsPerArea && objSize * objsPerArea <= PCPU_MIN_UNIT_SIZE
  }

  lemma OffsetFits(q: nat, objSize: nat, objsPerArea: nat)
    requires GoodSizes(objSize, objsPerArea) && q < objsPerArea
    ensures q * objSize + objSize <= objSize * objsPerArea
  {
    MulAtMost(q + 1, objsPerArea, objSize);
  }

  lemma OffsetsApart(q: nat, r: nat, objSize: nat)
    requires q < r
    ensures q * objSize + objSize <= r * objSize
  {
    MulAtMost(q + 1, r, objSize);
  }

  lemma SlotInArea(areas: seq<Word>, objSize: nat, objsPerArea: nat, k: nat)
    requires GoodSizes(objSize, objsPerArea) && k < |areas| * objsPerArea
    ensures 0 <= k / objsPerArea < |areas|
    ensures areas[k / objsPerArea] <= Slot(areas, objSize, objsPerArea, k)
    ensures Slot(areas, objSize, objsPerArea, k) + objSize <= areas[k / objsPerArea] + objSize * objsPerArea
  {
    AreaOf(k, objsPerArea, |areas|);
    OffsetFits(k % objsPerArea, objSize, objsPerArea);
  }

  // Later objects are in the same area further on, or in a later area.
  lemma LaterSlot(j: nat, k: nat, objsPerArea: nat)
    requires 0 < objsPerArea && j < k && j / objsPerArea == k / objsPerArea
    ensures j % objsPerArea < k % objsPerArea
  {
    assert j == j / objsPerArea * objsPerArea + j % objsPerArea;
    assert k == k / objsPerArea * objsPerArea + k % objsPerArea;
  }

  /** Every object lies inside its area, and any two objects are disjoint. */
  lemma SlotsDisjoint(areas: seq<Word>, objSize: nat, objsPerArea: nat, j: nat, k: nat)
    requires GoodAreas(areas) && GoodSizes(objSize, objsPerArea)
    requires j < k < |areas| * objsPerArea
    ensures Slot(areas, objSize, objsPerArea, j) + objSize <= Slot(areas, objSize, objsPerArea, k)
         || Slot(areas, objSize, objsPerArea, k) + objSize <= Slot(areas, objSize, objsPerArea, j)
  {
    SlotInArea(areas, objSize, objsPerArea, j);
    SlotInArea(areas, objSize, objsPerArea, k);
    var a, b := j / objsPerArea, k / objsPerArea;
    if a == b {
      LaterSlot(j, k, objsPerArea);
      OffsetsApart(j % objsPerArea, k % objsPerArea, objSize);
    } else {
      assert Apart(areas[a], areas[b]) || Apart(areas[b], areas[a]);
    }
  }

  // How the fields of a pool belong together.
  ghost predicate PoolAt(count: nat, area: nat, used: nat, taken: nat, objSize: nat, objsPerArea: nat) {
    count == area * objsPerArea + used && used <= objsPerArea && taken == used * objSize
  }

  lemma PoolAdvances(count: nat, area: nat, used: nat, taken: nat, objSize: nat, objsPerArea: nat)
    requires PoolAt(count, area, used, taken, objSize, objsPerArea) && used == objsPerArea
    ensures PoolAt(count, area + 1, 0, 0, objSize, objsPerArea)
  {
    assert (area + 1) * objsPerArea == area * objsPerArea + objsPerArea;
  }

  lemma PoolTakes(count: nat, area: nat, used: nat, taken: nat, objSize: nat, objsPerArea: nat)
    requires PoolAt(count, area, used, taken, objSize, objsPerArea) && used < objsPerArea
    ensures PoolAt(count + 1, area, used + 1, taken + objSize, objSize, objsPerArea)
  {
    assert (used + 1) * objSize == used * objSize + objSize;
  }

  /** `struct simple_percpu_mempool`. */
  class PercpuMempool {
    const percpuPtr: array<Word>
    const objSize: nat
    const objsPerArea: nat
    var allocatedSize: nat
    var areaId: nat

    ghost var count: nat  // how many objects have been handed out
    ghost var used: nat   // how many of them are in the current area

    ghost predicate Valid()
      reads this, percpuPtr
    {
      && GoodAreas(percpuPtr[..]) && GoodSizes(objSize, objsPerArea)
      && PoolAt(count, areaId, used, allocatedSize, objSize, objsPerArea)
    }

    constructor (percpuPtr: array<Word>, objSize: nat, objsPerArea: nat)
      requires GoodAreas(percpuPtr[..]) && GoodSizes(objSize, objsPerArea)
      ensures Valid() && count == 0
      ensures this.percpuPtr == percpuPtr && this.objSize == objSize && this.objsPerArea == objsPerArea
    {
      this.percpuPtr, this.objSize, this.objsPerArea := percpuPtr, objSize, objsPerArea;
      allocatedSize, areaId, count, used := 0, 0, 0, 0;
    }

    /** How many objects the pool holds; `recheck_mempool_*` compares with it. */
    function Capacity(): nat
    {
      percpuPtr.Length * objsPerArea
    }

    method Recheck(require: nat) returns (r: int)
      ensures r == if require <= Capacity() then 0 else -ENOMEM
    {
      if require > percpuPtr.Length * objsPerArea {
        return -ENOMEM;
      }
      return 0;
    }

    // The first part of `simple_percpu_mempool_alloc`: go to the next area when this is full.
    method NextArea()
      requires Valid()
      modifies this
      ensures Valid() && count == old(count) && used < objsPerArea
    {
      FullIff(used, objSize, objsPerArea);
      if allocatedSize + objSize > objSize * objsPerArea {
        PoolAdvances(count, areaId, used, allocatedSize, objSize, objsPerArea);
        areaId := areaId + 1;
        allocatedSize := 0;
        used := 0;
      }
    }

    /** `simple_percpu_mempool_alloc`: the next object, as long as there is one. Behind the
        last one the original reads past its array of areas: then `inBounds` is false. */
    method Alloc() returns (inBounds: bool, ret: int)
      requires Valid()
      modifies this
      ensures Valid() && (inBounds <==> old(count) < Capacity())
      ensures count == if inBounds then old(count) + 1 else old(count)
      ensures inBounds ==> ret == Slot(percpuPtr[..], objSize, objsPerArea, old(count))
    {
      NextArea();
      CapacityReached(count, areaId, used, objsPerArea, percpuPtr.Length);
      if areaId >= percpuPtr.Length {
        return false, 0;
      }
      SlotNow(percpuPtr[..], objSize, objsPerArea, count, areaId, used);
      PoolTakes(count, areaId, used, allocatedSize, objSize, objsPerArea);
      inBounds, ret := true, percpuPtr[areaId] + allocatedSize;
      allocatedSize := allocatedSize + objSize;
      used, count := used + 1, count + 1;
    }

    /** `is_simple_percpu_mempool_addr`. */
    method IsAddr(addr: Word) returns (r: bool)
      requires Valid()
      ensures r <==> InAreas(percpuPtr[..], objSize * objsPerArea, addr)
    {
      for i := 0 to percpuPtr.Length
        invariant forall j :: 0 <= j < i ==> !(percpuPtr[j] <= addr < percpuPtr[j] + objSize * objsPerArea)
      {
        var base := percpuPtr[i];
        if base <= addr && addr < base + objSize * objsPerArea {
          assert percpuPtr[..][i] == base;
          return true;
        }
      }
      return false;
    }
  }

  ghost predicate InAreas(areas: seq<Word>, size: nat, addr: Word) {
    exists i :: 0 <= i < |areas| && areas[i] <= addr < areas[i] + size
  }

  lemma FullIff(q: nat, objSize: nat, objsPerArea: nat)
    requires GoodSizes(objSize, objsPerArea) && q <= objsPerArea
    ensures q * objSize + objSize > objSize * objsPerArea <==> q == objsPerArea
  {
    if q < objsPerArea {
      OffsetFits(q, objSize, objsPerArea);
    }
  }

  // The next object is past the last area exactly when all are taken.
  lemma CapacityReached(count: nat, area: nat, q: nat, objsPerArea: nat, areas: nat)
    requires count == area * objsPerArea + q && q < objsPerArea
    ensures count < areas * objsPerArea <==> area < areas
  {
    if area < areas {
      MulAtMost(area + 1, areas, objsPerArea);
    } else {
      MulAtMost(areas, area, objsPerArea);
    }
  }

  lemma NextSlot(count: nat, area: nat, q: nat, objsPerArea: nat, areas: nat)
    requires count == area * objsPerArea + q && q < objsPerArea && count < areas * objsPerArea
    ensures count / objsPerArea == area && count % objsPerArea == q && area < areas
  {
    DivUnique(count, area, q, objsPerArea);
    AreaOf(count, objsPerArea, areas);
  }

  // Where the next object goes, in terms of the area and of the objects taken from it.
  lemma SlotNow(areas: seq<Word>, objSize: nat, objsPerArea: nat, count: nat, area: nat, q: nat)
    requires count == area * objsPerArea + q && q < objsPerArea && area < |areas| && count < |areas| * objsPerArea
    ensures Slot(areas, objSize, objsPerArea, count) == areas[area] + q * objSize
  {
    NextSlot(count, area, q, objsPerArea, |areas|);
  }

  /** Everything a pool hands out is recognised as its own, to the last byte. */
  method AllocatedIsRecognised(pool: PercpuMempool, k: nat, offset: nat) returns (r: bool)
    requires pool.Valid() && k < pool.Capacity() && offset < pool.objSize
    ensures r
  {
    var at := Slot(pool.percpuPtr[..], pool.objSize, pool.objsPerArea, k) + offset;
    SlotInArea(pool.percpuPtr[..], pool.objSize, pool.objsPerArea, k);
    r := pool.IsAddr(at);
  }

  // The bytes of two objects do not overlap.
  ghost predicate DisjointObjects(a: int, b: int, objSize: nat) {
    a + objSize <= b || b + objSize <= a
  }

  ghost predicate InSomeArea(areas: seq<Word>, at: int, objSize: nat) {
    exists i :: 0 <= i < |areas| && areas[i] <= at && at + objSize <= areas[i] + PCPU_MIN_UNIT_SIZE
  }

  // The first |objs| slots of a pool.
  ghost predicate AreSlots(areas: seq<Word>, objSize: nat, objsPerArea: nat, objs: seq<int>) {
    && 0 < objsPerArea && |objs| <= |areas| * objsPerArea
    && forall k :: 0 <= k < |objs| ==> objs[k] == Slot(areas, objSize, objsPerArea, k)
  }

  lemma SlotsFit(areas: seq<Word>, objSize: nat, objsPerArea: nat, objs: seq<int>)
    requires GoodAreas(areas) && GoodSizes(objSize, objsPerArea) && AreSlots(areas, objSize, objsPerArea, objs)
    ensures forall k :: 0 <= k < |objs| ==> InSomeArea(areas, objs[k], objSize)
    ensures forall j, k :: 0 <= j < k < |objs| ==> DisjointObjects(objs[j], objs[k], objSize)
  {
    forall k | 0 <= k < |objs| ensures InSomeArea(areas, objs[k], objSize) {
      SlotInArea(areas, objSize, objsPerArea, k);
    }
    forall j, k | 0 <= j < k < |objs| ensures DisjointObjects(objs[j], objs[k], objSize) {
      SlotsDisjoint(areas, objSize, objsPerArea, j, k);
    }
  }

  /** `recheck_mempool_*` followed by the allocations of `sched_alloc_extrapad`: when
      the recheck of a fresh pool passes, all the `require` objects can be taken, lie
      inside the areas of the pool and are pairwise disjoint. */
  method RecheckThenTake(pool: PercpuMempool, require: nat) returns (r: int, objs: seq<int>)
    requires pool.Valid() && pool.count == 0
    modifies pool
    ensures pool.Valid() && (r == 0 <==> require <= pool.Capacity())
    ensures |objs| == pool.count == if r == 0 then require else 0
    ensures forall k :: 0 <= k < |objs| ==> InSomeArea(pool.percpuPtr[..], objs[k], pool.objSize)
    ensures forall j, k :: 0 <= j < k < |objs| ==> DisjointObjects(objs[j], objs[k], pool.objSize)
  {
    objs := [];
    r := pool.Recheck(require);
    if r != 0 {
      return;
    }
    ghost var areas := pool.percpuPtr[..];
    while |objs| < require
      invariant pool.Valid() && pool.count == |objs| <= require
      invariant AreSlots(areas, pool.objSize, pool.objsPerArea, objs)
    {
      var inBounds, obj := pool.Alloc();
      objs := objs + [obj];
    }
    SlotsFit(areas, pool.objSize, pool.objsPerArea, objs);
  }

  // How many areas hold that many objects.
  function AreasFor(objNum: nat, objsPerArea: nat): nat {
    if objsPerArea == 0 then 0 else (objNum + objsPerArea - 1) / objsPerArea
  }

  // The next `n` calls of the allocator succeed.
  ghost predicate Serves(answers: seq<Word>, n: nat) {
    n <= |answers| && forall i :: 0 <= i < n ==> answers[i] != 0
  }

  /** `simple_percpu_mempool_create`: null, with every area it had acquired given back,
      or a fresh pool of at least `objNum` objects whose areas are now in use. The
      kernel's other allocations (`metaOk`, `ptrsOk`) may fail as well. For objects
      without size, or larger than an area, it divides by zero. */
  method Create(allocator: PercpuAllocator, objNum: nat, objSize: nat, metaOk: bool, ptrsOk: bool)
    returns (divides: bool, pool: PercpuMempool?)
    requires allocator.Valid()
    modifies allocator
    ensures allocator.Valid()
    ensures divides <==> metaOk ==> 0 < objSize <= 32768
    ensures pool != null <==>
      && metaOk && ptrsOk && 0 < objSize <= 32768
      && Serves(old(allocator.answers), AreasFor(objNum, 32768 / objSize))
    ensures pool == null ==> allocator.live == old(allocator.live)
    ensures pool != null ==>
      && fresh(pool) && pool.Valid() && pool.count == 0 && pool.objSize == objSize
      && pool.objsPerArea == PCPU_MIN_UNIT_SIZE / objSize
      && objNum <= pool.percpuPtr.Length * pool.objsPerArea < objNum + pool.objsPerArea
      && Holds(allocator.live, old(allocator.live), pool.percpuPtr[..])
  {
    if !metaOk {
      return true, null;
    }
    if objSize == 0 {
      return false, null;
    }
    var objsPerArea := PCPU_MIN_UNIT_SIZE / objSize;
    if objsPerArea == 0 {
      TooLarge(objSize);
      return false, null;
    }
    FitsOnce(objSize);
    CreateSizes(objNum, objSize);
    var areas := AreasFor(objNum, objsPerArea);
    if !ptrsOk {
      return true, null;
    }
    var ptrs := new Word[areas];
    var cnt := AcquireAreas(allocator, ptrs);
    if cnt < areas {
      ReleaseAreas(allocator, ptrs, cnt, old(allocator.live));
      return true, null;
    }
    assert ptrs[..areas] == ptrs[..];
    LiveAreasGood(allocator.live, old(allocator.live), ptrs[..]);
    divides := true;
    pool := new PercpuMempool(ptrs, objSize, objsPerArea);
  }

  // `ptrs[..n]` are different areas in use, `others` are the rest.
  ghost predicate Holds(live: set<Word>, others: set<Word>, ptrs: seq<Word>) {
    live == others + Elements(ptrs) && Elements(ptrs) !! others && Distinct(ptrs)
  }

  lemma LiveAreasGood(live: set<Word>, others: set<Word>, ptrs: seq<Word>)
    requires GoodLive(live) && Holds(live, others, ptrs)
    ensures GoodAreas(ptrs)
  {
    assert forall i :: 0 <= i < |ptrs| ==> ptrs[i] in Elements(ptrs);
  }

  lemma HoldsOneMore(live: set<Word>, others: set<Word>, ptrs: seq<Word>, p: Word)
    ensures Holds(live, others, ptrs) && p !in live ==> Holds(live + {p}, others, ptrs + [p])
    ensures Holds(live, others, ptrs + [p]) ==> p in live && Holds(live - {p}, others, ptrs)
  {
    var more := ptrs + [p];
    assert more[|ptrs|] == p;
    assert forall i :: 0 <= i < |ptrs| ==> more[i] == ptrs[i];
    forall x ensures x in Elements(more) <==> x in Elements(ptrs) || x == p {
      if x in Elements(ptrs) {
        var i :| 0 <= i < |ptrs| && ptrs[i] == x;
        assert more[i] == x;
      }
    }
  }

  // The loop of `simple_percpu_mempool_create`: how many areas could be had.
  method AcquireAreas(allocator: PercpuAllocator, ptrs: array<Word>) returns (cnt: nat)
    requires allocator.Valid()
    modifies allocator, ptrs
    ensures allocator.Valid() && cnt <= ptrs.Length
    ensures Holds(allocator.live, old(allocator.live), ptrs[..cnt])
    ensures cnt == ptrs.Length <==> Serves(old(allocator.answers), ptrs.Length)
  {
    cnt := 0;
    while cnt < ptrs.Length
      invariant 0 <= cnt <= ptrs.Length && allocator.Valid()
      invariant Holds(allocator.live, old(allocator.live), ptrs[..cnt])
      invariant Serves(old(allocator.answers), cnt) && allocator.answers == old(allocator.answers)[cnt..]
    {
      ghost var live, before := allocator.live, ptrs[..cnt];
      var ptr := allocator.Alloc();
      if ptr == 0 {
        return;
      }
      HoldsOneMore(live, old(allocator.live), before, ptr);
      ptrs[cnt] := ptr;
      cnt := cnt + 1;
      assert ptrs[..cnt] == before + [ptr];
    }
  }

  // The error path of `simple_percpu_mempool_create`.
  method ReleaseAreas(allocator: PercpuAllocator, ptrs: array<Word>, n: nat, ghost others: set<Word>)
    requires allocator.Valid() && n <= ptrs.Length && Holds(allocator.live, others, ptrs[..n])
    modifies allocator
    ensures allocator.Valid() && allocator.live == others
  {
    var cnt := n;
    while cnt > 0
      invariant 0 <= cnt <= n && allocator.Valid()
      invariant Holds(allocator.live, others, ptrs[..cnt])
    {
      cnt := cnt - 1;
      assert ptrs[..cnt + 1] == ptrs[..cnt] + [ptrs[cnt]];
      HoldsOneMore(allocator.live, others, ptrs[..cnt], ptrs[cnt]);
      allocator.Free(ptrs[cnt]);
    }
  }

  lemma TooLarge(objSize: nat)
    requires 0 < objSize && PCPU_MIN_UNIT_SIZE / objSize == 0
    ensures objSize > PCPU_MIN_UNIT_SIZE
  {
    assert PCPU_MIN_UNIT_SIZE == PCPU_MIN_UNIT_SIZE % objSize;
  }

  lemma FitsOnce(objSize: nat)
    requires 0 < objSize && PCPU_MIN_UNIT_SIZE / objSize > 0
    ensures objSize <= PCPU_MIN_UNIT_SIZE
  {
    MulAtLeast(PCPU_MIN_UNIT_SIZE / objSize, objSize);
  }

  lemma CreateSizes(objNum: nat, objSize: nat)
    requires 0 < objSize <= PCPU_MIN_UNIT_SIZE
    ensures var per := PCPU_MIN_UNIT_SIZE / objSize;
            && GoodSizes(objSize, per)
            && objNum <= AreasFor(objNum, per) * per < objNum + per
  {
    var per := PCPU_MIN_UNIT_SIZE / objSize;
    assert PCPU_MIN_UNIT_SIZE == per * objSize + PCPU_MIN_UNIT_SIZE % objSize;
    assert 0 < per;
    var n := objNum + per - 1;
    assert n == n / per * per + n % per;
  }

  ghost function Elements(s: seq<Word>): set<Word> {
    set i | 0 <= i < |s| :: s[i]
  }

  ghost predicate Distinct(s: seq<Word>) {
    forall i, j :: 0 <= i < j < |s| ==> s[i] != s[j]
  }

  ghost predicate IsSlot(areas: seq<Word>, objSize: nat, objsPerArea: nat, field: Word) {
    exists k: nat :: IsSlotAt(areas, objSize, objsPerArea, field, k)
  }

  ghost predicate IsSlotAt(areas: seq<Word>, objSize: nat, objsPerArea: nat, field: Word, k: nat) {
    0 < objsPerArea && k < |areas| * objsPerArea && field == Slot(areas, objSize, objsPerArea, k)
  }

  // The membership test tells the objects of a pool from what somebody else holds.
  lemma OwnOrForeign(live: set<Word>, others: set<Word>, areas: seq<Word>, objSize: nat, objsPerArea: nat, field: Word)
    requires GoodLive(live) && Holds(live, others, areas) && GoodSizes(objSize, objsPerArea)
    ensures IsSlot(areas, objSize, objsPerArea, field) ==> InAreas(areas, objSize * objsPerArea, field)
    ensures field == 0 || field in others ==> !InAreas(areas, objSize * objsPerArea, field)
  {
    if IsSlot(areas, objSize, objsPerArea, field) {
      var k: nat :| IsSlotAt(areas, objSize, objsPerArea, field, k);
      SlotInArea(areas, objSize, objsPerArea, k);
    }
    if field == 0 || field in others {
      forall i | 0 <= i < |areas| ensures !(areas[i] <= field < areas[i] + objSize * objsPerArea) {
        assert areas[i] in Elements(areas);
        assert field in others ==> Apart(areas[i], field);
      }
    }
  }

  lemma HoldsWithout(live: set<Word>, others: set<Word>, ptrs: seq<Word>, field: Word)
    requires Holds(live, others, ptrs) && (field in others || field !in live)
    ensures Holds(live - {field}, others - {field}, ptrs)
  {
  }

  /** `release_*_reserve`: the field is cleared, whatever it held. An area that somebody
      else acquired is freed; an object of the pool is left to the pool. */
  method Release(allocator: PercpuAllocator, pool: PercpuMempool, field: Word, ghost others: set<Word>)
    returns (field': Word)
    requires allocator.Valid() && pool.Valid() && Holds(allocator.live, others, pool.percpuPtr[..])
    requires field == 0 || field in others || IsSlot(pool.percpuPtr[..], pool.objSize, pool.objsPerArea, field)
    modifies allocator
    ensures field' == 0 && allocator.Valid() && Holds(allocator.live, others - {field}, pool.percpuPtr[..])
    ensures allocator.live == if field in others then old(allocator.live) - {field} else old(allocator.live)
  {
    ghost var areas := pool.percpuPtr[..];
    OwnOrForeign(allocator.live, others, areas, pool.objSize, pool.objsPerArea, field);
    var own := pool.IsAddr(field);
    if !own {
      HoldsWithout(allocator.live, others, areas, field);
      allocator.Free(field);
    } else {
      assert others - {field} == others;
    }
    return 0;
  }

  /** `simple_percpu_mempool_destory`: gives every area back, once. */
  method Destroy(allocator: PercpuAllocator, pool: PercpuMempool, ghost others: set<Word>)
    requires allocator.Valid() && Holds(allocator.live, others, pool.percpuPtr[..])
    modifies allocator
    ensures allocator.Valid() && allocator.live == others
  {
    var ptrs := pool.percpuPtr;
    assert ptrs[0..] == ptrs[..];
    for i := 0 to ptrs.Length
      invariant allocator.Valid() && Holds(allocator.live, others, ptrs[i..])
    {
      HoldsOneFewer(allocator.live, others, ptrs[i..]);
      allocator.Free(ptrs[i]);
    }
  }

  lemma HoldsOneFewer(live: set<Word>, others: set<Word>, ptrs: seq<Word>)
    requires ptrs != [] && Holds(live, others, ptrs)
    ensures ptrs[0] in live && Holds(live - {ptrs[0]}, others, ptrs[1..])
  {
    forall x ensures x in Elements(ptrs) <==> x in Elements(ptrs[1..]) || x == ptrs[0] {
      if x in Elements(ptrs) {
        var i :| 0 <= i < |ptrs| && ptrs[i] == x;
        assert i == 0 || ptrs[1..][i - 1] == x;
      }
      if x in Elements(ptrs[1..]) {
        var i :| 0 <= i < |ptrs[1..]| && ptrs[1..][i] == x;
        assert ptrs[i + 1] == x;
      }
    }
  }
}
