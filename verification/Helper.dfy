/** src/helper.h: binary search, and the in-place heapsort that moves two
    parallel arrays together. */
module Helper {
  import opened Words

  ghost predicate Ascending(a: seq<Word>) {
    forall i, j :: 0 <= i < j < |a| ==> a[i] <= a[j]
  }

  /** Position of the greatest element of `arr[start..end]` (inclusive bounds)
      that is not above `tar`, or -1 when there is none. */
  method Bsearch(arr: array<Word>, start: int, end: int, tar: Word) returns (r: int)
    requires 0 <= start && end < arr.Length
    requires start <= end ==> Ascending(arr[start..end + 1])
    ensures r == -1 <==> (forall k :: start <= k <= end ==> tar < arr[k])
    ensures r != -1 ==> start <= r <= end && arr[r] <= tar
    ensures r != -1 ==> forall k :: start <= k <= end && arr[k] <= tar ==> arr[k] <= arr[r]
  {
    if end < start {
      return -1;
    }
    AscendingSlice(arr, start, end);
    if tar < arr[start] {
      return -1;
    }
    if tar >= arr[end] {
      return end;
    }
    var lo, hi := start, end;
    while lo <= hi
      invariant start <= lo <= hi + 1 <= end + 1
      invariant forall k :: start <= k < lo ==> arr[k] < tar
      invariant forall k :: hi < k <= end ==> tar < arr[k]
      decreases hi - lo
    {
      var mid := (lo + hi) / 2;
      if tar == arr[mid] {
        return mid;
      } else if tar < arr[mid] {
        hi := mid - 1;
      } else {
        lo := mid + 1;
      }
    }
    return hi;
  }

  lemma AscendingSlice(arr: array<Word>, start: int, end: int)
    requires 0 <= start <= end < arr.Length
    requires Ascending(arr[start..end + 1])
    ensures forall i, j :: start <= i < j <= end ==> arr[i] <= arr[j]
  {
    var s := arr[start..end + 1];
    forall i, j | start <= i < j <= end ensures arr[i] <= arr[j] {
      assert arr[i] == s[i - start] && arr[j] == s[j - start];
    }
  }

  function Swapped<T>(s: seq<T>, i: nat, j: nat): (r: seq<T>)
    requires i < |s| && j < |s|
    ensures |r| == |s|
  {
    s[i := s[j]][j := s[i]]
  }

  /** `addr_swap`: exchange two words through three exclusive-ors. */
  method AddrSwap(a: array<Word>, i: nat, j: nat)
    requires i < a.Length && j < a.Length
    modifies a
    ensures a[..] == Swapped(old(a[..]), i, j)
  {
    XorZero(a[i], a[j]);
    XorCancel(a[i], a[j]);
    if XorWords(a[i], a[j]) != 0 {
      a[i] := XorWords(a[i], a[j]);
      a[j] := XorWords(a[j], a[i]);
      a[i] := XorWords(a[i], a[j]);
    }
  }

  // The two parallel arrays seen as one sequence of (address, size) pairs.
  ghost function Pairs(addr: seq<Word>, size: seq<Word>): (r: seq<(Word, Word)>)
    requires |addr| == |size|
    ensures |r| == |addr|
  {
    seq(|addr|, k requires 0 <= k < |addr| => (addr[k], size[k]))
  }

  // Both arrays hold the same (address, size) pairs as before, in some order.
  ghost predicate SamePairs(addr0: seq<Word>, size0: seq<Word>, addr1: seq<Word>, size1: seq<Word>)
    requires |addr0| == |size0| && |addr1| == |size1|
  {
    multiset(Pairs(addr0, size0)) == multiset(Pairs(addr1, size1))
  }

  lemma PairsSwapped(addr: seq<Word>, size: seq<Word>, i: nat, j: nat)
    requires |addr| == |size| && i < |addr| && j < |addr|
    ensures SamePairs(addr, size, Swapped(addr, i, j), Swapped(size, i, j))
  {
    var p := Pairs(addr, size);
    assert Pairs(Swapped(addr, i, j), Swapped(size, i, j)) == p[i := p[j]][j := p[i]];
  }

  // Swap one address and the size that belongs to it.
  method SwapPair(addr: array<Word>, size: array<Word>, i: nat, j: nat)
    requires addr != size && addr.Length == size.Length
    requires i < addr.Length && j < addr.Length
    modifies addr, size
    ensures addr[..] == Swapped(old(addr[..]), i, j)
    ensures size[..] == Swapped(old(size[..]), i, j)
    ensures SamePairs(old(addr[..]), old(size[..]), addr[..], size[..])
  {
    AddrSwap(addr, i, j);
    AddrSwap(size, i, j);
    PairsSwapped(old(addr[..]), old(size[..]), i, j);
  }

  function Parent(c: int): int {
    (c - 1) / 2
  }

  // Below `n`, every node whose parent is at `lo` or later is dominated by that parent.
  ghost predicate HeapFrom(a: seq<Word>, lo: int, n: int) {
    && n <= |a|
    && forall c :: 0 < c < n && lo <= Parent(c) ==> a[Parent(c)] >= a[c]
  }

  lemma {:induction false} RootIsMax(a: seq<Word>, n: int, k: int)
    requires HeapFrom(a, 0, n) && 0 <= k < n
    ensures a[k] <= a[0]
    decreases k
  {
    if k > 0 {
      RootIsMax(a, n, Parent(k));
    }
  }

  // A heap from `root` on, but for the element at `r`, which may be below its
  // children; those are still dominated by the parent of `r`.
  ghost predicate Sinking(a: seq<Word>, root: int, r: int, n: int) {
    && 0 <= root <= r < n <= |a|
    && (forall c :: 0 < c < n && root <= Parent(c) && Parent(c) != r ==> a[Parent(c)] >= a[c])
    && (root < r ==> root <= Parent(r) && forall c :: 0 < c < n && Parent(c) == r ==> a[Parent(r)] >= a[c])
  }

  lemma SinkStep(a: seq<Word>, root: int, r: int, c: int, n: int)
    requires Sinking(a, root, r, n)
    requires 0 < c < n && Parent(c) == r && a[r] < a[c]
    requires forall d :: 0 < d < n && Parent(d) == r ==> a[d] <= a[c]
    ensures Sinking(Swapped(a, r, c), root, c, n)
  {
    var b := Swapped(a, r, c);
    forall d | 0 < d < n && root <= Parent(d) && Parent(d) != c
      ensures b[Parent(d)] >= b[d]
    {
    }
  }

  lemma SinkEnd(a: seq<Word>, root: int, r: int, n: int)
    requires Sinking(a, root, r, n)
    requires forall c :: 0 < c < n && Parent(c) == r ==> a[r] >= a[c]
    ensures HeapFrom(a, root, n)
  {
  }

  ghost predicate AtMost(a: seq<Word>, n: int, top: int) {
    n <= |a| && forall k :: 0 <= k < n ==> a[k] <= top
  }

  lemma AtMostSwapped(a: seq<Word>, n: int, top: int, i: nat, j: nat)
    requires AtMost(a, n, top) && i < n && j < n
    ensures AtMost(Swapped(a, i, j), n, top)
  {
  }

  // The greater child of `r` below `n`.
  method LargerChild(addr: array<Word>, r: nat, n: nat) returns (c: nat)
    requires r * 2 + 1 < n <= addr.Length
    ensures r < c < n && Parent(c) == r
    ensures forall d :: 0 < d < n && Parent(d) == r ==> addr[d] <= addr[c]
  {
    c := r * 2 + 1;
    if c < n - 1 && addr[c] < addr[c + 1] {
      c := c + 1;
    }
    assert forall d :: 0 < d < n && Parent(d) == r ==> d == r * 2 + 1 || d == r * 2 + 2;
  }

  /** The inner loop of `addr_sort`: let the element at `root` sink until it
      dominates its children. No element of the heap exceeds `top` before or after. */
  method SiftDown(addr: array<Word>, size: array<Word>, root: nat, n: nat, ghost top: int)
    requires addr != size && addr.Length == size.Length
    requires root < n <= addr.Length
    requires HeapFrom(addr[..], root + 1, n) && AtMost(addr[..], n, top)
    modifies addr, size
    ensures HeapFrom(addr[..], root, n) && AtMost(addr[..], n, top)
    ensures addr[n..] == old(addr[n..])
    ensures SamePairs(old(addr[..]), old(size[..]), addr[..], size[..])
  {
    var r := root;
    ghost var heap := addr[..];
    while r * 2 + 1 < n
      invariant root <= r < n
      invariant heap == addr[..]
      invariant Sinking(heap, root, r, n) && AtMost(heap, n, top)
      invariant heap[n..] == old(addr[n..])
      invariant SamePairs(old(addr[..]), old(size[..]), heap, size[..])
    {
      var c := LargerChild(addr, r, n);
      if addr[r] >= addr[c] {
        SinkEnd(heap, root, r, n);
        return;
      }
      SwapPair(addr, size, r, c);
      SinkStep(heap, root, r, c, n);
      AtMostSwapped(heap, n, top, r, c);
      heap := Swapped(heap, r, c);
      r := c;
    }
    SinkEnd(heap, root, r, n);
  }

  // The tail from `i` on is ascending and nothing before it is greater.
  ghost predicate SortedFrom(a: seq<Word>, i: int) {
    forall j, k :: 0 <= j < k < |a| && i <= k ==> a[j] <= a[k]
  }

  // Moving the maximum of the heap behind it, and rearranging what is left of
  // the heap, makes the sorted tail one longer.
  lemma SortedGrows(a: seq<Word>, b: seq<Word>, i: nat)
    requires 0 < i < |a| == |b|
    requires HeapFrom(a, 0, i + 1) && SortedFrom(a, i + 1)
    requires AtMost(b, i, a[0]) && b[i..] == Swapped(a, 0, i)[i..]
    ensures SortedFrom(b, i)
  {
    assert forall k :: i <= k < |a| ==> b[k] == b[i..][k - i] == Swapped(a, 0, i)[k];
    assert forall k :: i < k < |a| ==> a[0] <= a[k];
  }

  lemma HeapShrinks(a: seq<Word>, i: nat)
    requires 0 < i < |a|
    requires HeapFrom(a, 0, i + 1)
    ensures HeapFrom(Swapped(a, 0, i), 1, i)
    ensures AtMost(Swapped(a, 0, i), i, a[0])
  {
    forall k | 0 <= k <= i ensures a[k] <= a[0] {
      RootIsMax(a, i + 1, k);
    }
  }

  /** `addr_sort`: ascending addresses, and every size still beside its address. */
  method AddrSort(addr: array<Word>, size: array<Word>)
    requires addr != size && addr.Length == size.Length
    modifies addr, size
    ensures Ascending(addr[..])
    ensures SamePairs(old(addr[..]), old(size[..]), addr[..], size[..])
  {
    var n := addr.Length;
    var i := n / 2 - 1;
    while i >= 0
      invariant -1 <= i < n / 2
      invariant HeapFrom(addr[..], i + 1, n)
      invariant SamePairs(old(addr[..]), old(size[..]), addr[..], size[..])
    {
      SiftDown(addr, size, i, n, WORD_LIMIT);
      i := i - 1;
    }

    i := n - 1;
    while i > 0
      invariant -1 <= i < n && (n > 0 ==> 0 <= i)
      invariant HeapFrom(addr[..], 0, i + 1)
      invariant SortedFrom(addr[..], i + 1)
      invariant SamePairs(old(addr[..]), old(size[..]), addr[..], size[..])
    {
      ghost var heap := addr[..];
      HeapShrinks(heap, i);
      SwapPair(addr, size, 0, i);
      SiftDown(addr, size, 0, i, heap[0]);
      SortedGrows(heap, addr[..], i);
      i := i - 1;
    }
  }
}
