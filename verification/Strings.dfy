/** What the tools ask of strings and other sequences. */
module Strings {

  /** `sub` occurs somewhere in `s`. */
  predicate Contains(s: string, sub: string) {
    sub <= s || (s != "" && Contains(s[1..], sub))
  }

  lemma {:induction false} ContainsAt(s: string, sub: string)
    ensures Contains(s, sub) <==> exists i :: 0 <= i <= |s| && sub <= s[i..]
  {
    assert s[0..] == s;
    if s != "" {
      ContainsAt(s[1..], sub);
      assert forall i :: 1 <= i <= |s| ==> s[i..] == s[1..][i - 1..];
      if Contains(s[1..], sub) {
        var i :| 0 <= i <= |s[1..]| && sub <= s[1..][i..];
        assert s[i + 1..] == s[1..][i..];
      }
    }
  }

  lemma Associates<T>(a: seq<T>, b: seq<T>, c: seq<T>)
    ensures (a + b) + c == a + (b + c)
  {
  }

  lemma RestOfSum<T>(a: seq<T>, b: seq<T>)
    requires a != []
    ensures a + b != [] && (a + b)[0] == a[0] && (a + b)[1..] == a[1..] + b
  {
  }

  // Three neighbouring stretches of a sequence.
  lemma Stretches<T>(s: seq<T>, i: nat, j: nat, k: nat)
    requires i <= j <= k <= |s|
    ensures s[i..k] == s[i..j] + s[j..k]
  {
  }

  lemma SameStretch<T>(s: seq<T>, t: seq<T>, i: nat, j: nat)
    requires i <= j <= |s| && j <= |t|
    requires forall k :: i <= k < j ==> s[k] == t[k]
    ensures s[i..j] == t[i..j]
  {
  }
}
