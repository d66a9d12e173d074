/** src/main.c, `process_id_init`: consecutive numbers for the online CPUs. */
module ProcessIds {

  /** How many entries are true. */
  function Count(bs: seq<bool>): (r: nat)
    ensures r <= |bs|
  {
    if bs == [] then 0
    else Count(bs[..|bs| - 1]) + if bs[|bs| - 1] then 1 else 0
  }

  lemma {:induction false} CountUpdate(bs: seq<bool>, i: nat, b: bool)
    requires i < |bs|
    ensures Count(bs[i := b]) == Count(bs) - (if bs[i] then 1 else 0) + (if b then 1 else 0)
  {
    var n := |bs| - 1;
    if i < n {
      CountUpdate(bs[..n], i, b);
      assert bs[i := b][..n] == bs[..n][i := b];
    } else {
      assert bs[i := b][..n] == bs[..n];
    }
  }

  lemma {:induction false} CountPositive(bs: seq<bool>, i: nat)
    requires i < |bs| && bs[i]
    ensures Count(bs) > 0
  {
    var n := |bs| - 1;
    if i < n {
      CountPositive(bs[..n], i);
    }
  }

  lemma {:induction false} CountGrows(bs: seq<bool>, i: nat, j: nat)
    requires i <= j <= |bs|
    ensures Count(bs[..i]) <= Count(bs[..j])
    ensures i < j && bs[i] ==> Count(bs[..i]) < Count(bs[..j])
    decreases j
  {
    if i < j {
      assert bs[..j][..j - 1] == bs[..j - 1];
      CountGrows(bs, i, j - 1);
    }
  }

  // The k-th true entry exists when there are more than k.
  lemma {:induction false} CountOnto(bs: seq<bool>, k: nat) returns (i: nat)
    requires k < Count(bs)
    ensures i < |bs| && bs[i] && Count(bs[..i]) == k
  {
    var n := |bs| - 1;
    if k < Count(bs[..n]) {
      i := CountOnto(bs[..n], k);
      assert bs[..i] == bs[..n][..i];
    } else {
      i := n;
    }
  }

  /** `process_id[cpu]`, for the online mask at the time of `process_id_init`. */
  function ProcessId(online: seq<bool>, cpu: nat): (r: nat)
    requires cpu <= |online|
    ensures r <= cpu
  {
    Count(online[..cpu])
  }

  method ProcessIdInit(online: seq<bool>, processId: array<int>)
    requires |online| <= processId.Length
    modifies processId
    ensures forall cpu :: 0 <= cpu < |online| && online[cpu] ==> processId[cpu] == ProcessId(online, cpu)
    ensures forall cpu :: 0 <= cpu < processId.Length && (cpu < |online| ==> !online[cpu]) ==>
      processId[cpu] == old(processId[cpu])
  {
    var idx := 0;
    for cpu := 0 to |online|
      invariant idx == Count(online[..cpu])
      invariant forall c :: 0 <= c < cpu && online[c] ==> processId[c] == ProcessId(online, c)
      invariant forall c :: 0 <= c < processId.Length && (c < cpu ==> !online[c]) ==> processId[c] == old(processId[c])
    {
      assert online[..cpu + 1][..cpu] == online[..cpu];
      if online[cpu] {
        processId[cpu] := idx;
        idx := idx + 1;
      }
    }
  }

  ghost predicate HasId(online: seq<bool>, k: nat) {
    exists c :: 0 <= c < |online| && online[c] && ProcessId(online, c) == k
  }

  /** Process ids are a bijection from the online CPUs onto `0..n-1`, where n is
      the number of online CPUs. */
  lemma ProcessIdsBijective(online: seq<bool>)
    ensures forall c :: 0 <= c < |online| && online[c] ==> ProcessId(online, c) < Count(online)
    ensures forall c, d :: 0 <= c < d < |online| && online[c] && online[d] ==>
      ProcessId(online, c) < ProcessId(online, d)
    ensures forall k: nat :: k < Count(online) ==> HasId(online, k)
  {
    assert online[..|online|] == online;
    forall c | 0 <= c < |online| && online[c] ensures ProcessId(online, c) < Count(online) {
      CountGrows(online, c, |online|);
    }
    forall c, d | 0 <= c < d < |online| && online[c] && online[d] ensures ProcessId(online, c) < ProcessId(online, d) {
      CountGrows(online, c, d);
    }
    forall k: nat | k < Count(online) ensures HasId(online, k) {
      var c := CountOnto(online, k);
    }
  }
}
