/** boundary/extract.py: the bodies of outsider functions are cut out of a source
    file, line by line and in place. */
module Extract {
  import opened Strings

  // What Python's `str` counts as white space.
  predicate IsSpace(c: char) {
    var n := c as int;
    || 0x09 <= n <= 0x0d || 0x1c <= n <= 0x20 || n == 0x85 || n == 0xa0 || n == 0x1680
    || 0x2000 <= n <= 0x200a || n == 0x2028 || n == 0x2029 || n == 0x202f || n == 0x205f || n == 0x3000
  }

  /** The code points in question, one by one. */
  lemma SpacesAre(c: char)
    ensures IsSpace(c) <==> c as int in {
      9, 10, 11, 12, 13, 28, 29, 30, 31, 32, 133, 160, 5760, 8192, 8193, 8194, 8195, 8196, 8197, 8198, 8199, 8200, 8201,
      8202, 8232, 8233, 8239, 8287, 12288}
  {
  }

  // ---------------------------------------------------------- text in itself

  /** The text of a string apart from white space. */
  function Ink(s: string): string {
    if s == "" then "" else InkOf(s[0]) + Ink(s[1..])
  }

  function InkOf(c: char): string {
    if IsSpace(c) then "" else [c]
  }

  lemma {:induction false} InkAppend(a: string, b: string)
    ensures Ink(a + b) == Ink(a) + Ink(b)
  {
    if a == "" {
      assert a + b == b;
    } else {
      RestOfSum(a, b);
      InkAppend(a[1..], b);
      Associates(InkOf(a[0]), Ink(a[1..]), Ink(b));
    }
  }

  /** The text of several lines apart from white space. */
  function Inks(lines: seq<string>): string {
    if lines == [] then "" else Ink(lines[0]) + Inks(lines[1..])
  }

  lemma {:induction false} InksAppend(a: seq<string>, b: seq<string>)
    ensures Inks(a + b) == Inks(a) + Inks(b)
  {
    if a == [] {
      assert a + b == b;
    } else {
      RestOfSum(a, b);
      InksAppend(a[1..], b);
      Associates(Ink(a[0]), Inks(a[1..]), Inks(b));
    }
  }

  lemma InksOne(s: string)
    ensures Inks([s]) == Ink(s)
  {
    assert [s][1..] == [];
  }

  lemma {:induction false} InksBlank(lines: seq<string>)
    requires forall i :: 0 <= i < |lines| ==> lines[i] == ""
    ensures Inks(lines) == ""
  {
    if lines != [] {
      InksBlank(lines[1..]);
    }
  }

  // `str.strip`.
  function Strip(s: string): string {
    if s == "" then ""
    else if IsSpace(s[0]) then Strip(s[1..])
    else if IsSpace(s[|s| - 1]) then Strip(s[..|s| - 1])
    else s
  }

  lemma {:induction false} StripKeepsInk(s: string)
    ensures Ink(Strip(s)) == Ink(s)
  {
    if s != "" {
      if IsSpace(s[0]) {
        StripKeepsInk(s[1..]);
      } else if IsSpace(s[|s| - 1]) {
        var t, c := s[..|s| - 1], [s[|s| - 1]];
        assert s == t + c;
        InkAppend(t, c);
        StripKeepsInk(t);
      }
    }
  }

  /** Only white space is stripped, and all there is at either end. */
  lemma {:induction false} StripMeans(s: string) returns (i: nat, j: nat)
    ensures i <= j <= |s| && Strip(s) == s[i..j]
    ensures forall k :: (0 <= k < i || j <= k < |s|) ==> IsSpace(s[k])
    ensures i < j ==> !IsSpace(s[i]) && !IsSpace(s[j - 1])
  {
    if s == "" {
      return 0, 0;
    } else if IsSpace(s[0]) {
      i, j := StripMeans(s[1..]);
      i, j := i + 1, j + 1;
      assert forall k :: 1 <= k < |s| ==> s[k] == s[1..][k - 1];
    } else if IsSpace(s[|s| - 1]) {
      i, j := StripMeans(s[..|s| - 1]);
    } else {
      return 0, |s|;
    }
  }

  /** A line as `readlines` gives it: a line break can only be at its end. */
  ghost predicate OneLine(line: string) {
    forall k :: 0 <= k < |line| - 1 ==> line[k] != '\n'
  }

  lemma StripOneLine(line: string)
    requires OneLine(line)
    ensures '\n' !in Strip(line)
  {
    var i, j := StripMeans(line);
    forall k | 0 <= k < |Strip(line)| ensures Strip(line)[k] != '\n' {
      assert Strip(line)[k] == line[i + k];
    }
  }

  // `str.replace(' ;', ';')`.
  function TightSemicolons(s: string): string {
    if |s| < 2 then s
    else if s[0] == ' ' && s[1] == ';' then ";" + TightSemicolons(s[2..])
    else [s[0]] + TightSemicolons(s[1..])
  }

  lemma {:induction false} TightAddsNothing(s: string, c: char)
    requires c !in s
    ensures c !in TightSemicolons(s)
  {
    if |s| >= 2 {
      TightAddsNothing(if s[0] == ' ' && s[1] == ';' then s[2..] else s[1..], c);
    }
  }

  lemma {:induction false} TightKeepsInk(s: string)
    ensures Ink(TightSemicolons(s)) == Ink(s)
  {
    if |s| >= 2 {
      if s[0] == ' ' && s[1] == ';' {
        TightKeepsInk(s[2..]);
        InkAppend(";", TightSemicolons(s[2..]));
        assert s == " ;" + s[2..];
        InkAppend(" ;", s[2..]);
        assert Ink(" ;") == Ink(";") by { assert " ;"[1..] == ";"; }
      } else {
        TightKeepsInk(s[1..]);
        InkAppend([s[0]], TightSemicolons(s[1..]));
        assert s == [s[0]] + s[1..];
        InkAppend([s[0]], s[1..]);
      }
    }
  }

  lemma TightSeamPair(a: string, m: string)
    requires |a| >= 2 && a[0] == ' ' && a[1] == ';'
    ensures TightSemicolons(a) == ";" + TightSemicolons(a[2..])
    ensures TightSemicolons(a + m) == ";" + TightSemicolons(a[2..] + m)
  {
    TightPair(a + m);
    assert (a + m)[2..] == a[2..] + m;
  }

  lemma TightSeamStep(a: string, m: string)
    requires a != "" && !(|a| >= 2 && a[0] == ' ' && a[1] == ';') && (m == "" || m[0] != ';')
    ensures TightSemicolons(a) == [a[0]] + TightSemicolons(a[1..])
    ensures TightSemicolons(a + m) == [a[0]] + TightSemicolons(a[1..] + m)
  {
    RestOfSum(a, m);
    TightStep(a);
    TightStep(a + m);
  }

  // Two strings that do not form a blank before a semicolon where they meet.
  lemma {:induction false} TightSeam(a: string, m: string)
    requires m == "" || m[0] != ';'
    ensures TightSemicolons(a + m) == TightSemicolons(a) + TightSemicolons(m)
  {
    if a == "" {
      assert a + m == m;
    } else if |a| >= 2 && a[0] == ' ' && a[1] == ';' {
      TightSeam(a[2..], m);
      TightSeamPair(a, m);
      Associates(";", TightSemicolons(a[2..]), TightSemicolons(m));
    } else {
      TightSeam(a[1..], m);
      TightSeamStep(a, m);
      Associates([a[0]], TightSemicolons(a[1..]), TightSemicolons(m));
    }
  }

  lemma TightPair(s: string)
    requires |s| >= 2 && s[0] == ' ' && s[1] == ';'
    ensures TightSemicolons(s) == ";" + TightSemicolons(s[2..])
  {
    assert TightSemicolons(s)[0] == ';';
  }

  lemma TightStep(s: string)
    requires s != "" && !(|s| >= 2 && s[0] == ' ' && s[1] == ';')
    ensures TightSemicolons(s) == [s[0]] + TightSemicolons(s[1..])
  {
    assert |s| == 1 ==> s == [s[0]] && s[1..] == "";
  }

  /** Every blank before a semicolon goes, and a string without any stays as it is. */
  lemma TightMeans(a: string, b: string)
    ensures TightSemicolons(a + (" ;" + b)) == TightSemicolons(a) + (";" + TightSemicolons(b))
  {
    TightSeam(a, " ;" + b);
    TightPair(" ;" + b);
    assert (" ;" + b)[2..] == b;
  }

  lemma {:induction false} TightStays(s: string)
    requires forall i, j :: 0 <= i < |s| && j == i + 1 && j < |s| ==> s[i] != ' ' || s[j] != ';'
    ensures TightSemicolons(s) == s
  {
    if |s| >= 2 {
      TightStays(s[1..]);
    }
  }

  // The two characters stand next to each other.
  predicate HasPair(s: string, c: char, e: char) {
    exists i :: 0 <= i < |s| - 1 && s[i] == c && s[i + 1] == e
  }

  // The regular expression at which merging up stops.
  predicate Terminates(line: string) {
    || ';' in line || '}' in line || '#' in line || HasPair(line, '/', '/') || HasPair(line, '*', '/')
    || line == "\n" || line == "\n\n"
  }

  /** Merging up stops at a line with a semicolon, a closing brace, a preprocessor
      directive or the end of a comment, and at an empty one; nowhere else. */
  lemma TerminatesMeans(line: string)
    ensures Terminates(line) <==>
      || Contains(line, ";") || Contains(line, "}") || Contains(line, "#")
      || Contains(line, "//") || Contains(line, "*/")
      || line == [10 as char] || line == [10 as char, 10 as char]
  {
    ContainsPair(line, '/', '/');
    ContainsPair(line, '*', '/');
    assert "//" == ['/', '/'] && "*/" == ['*', '/'];
    ContainsChar(line, ';');
    ContainsChar(line, '}');
    ContainsChar(line, '#');
  }

  lemma ContainsChar(s: string, c: char)
    ensures Contains(s, [c]) <==> c in s
  {
    ContainsAt(s, [c]);
    if i :| 0 <= i < |s| && s[i] == c {
      assert [c] == s[i..][..1];
    }
    if i :| 0 <= i <= |s| && [c] <= s[i..] {
      assert s[i..][0] == [c][0] && s[i] == c;
    }
  }

  lemma ContainsPair(s: string, c: char, e: char)
    ensures Contains(s, [c, e]) <==> HasPair(s, c, e)
  {
    ContainsAt(s, [c, e]);
    if Contains(s, [c, e]) {
      var i :| 0 <= i <= |s| && [c, e] <= s[i..];
      assert s[i..][0] == [c, e][0] && s[i..][1] == [c, e][1];
      assert s[i] == c && s[i + 1] == e;
    }
    if i :| 0 <= i < |s| - 1 && s[i] == c && s[i + 1] == e {
      assert [c, e] == s[i..][..2];
    }
  }

  // ---------------------------------------------------------- merging lines

  /** Lines `r..curr` of `now` hold, between them, the text they held in `was`; all
      other lines are untouched, and no line that was merged upwards terminates. */
  ghost predicate Merged(was: seq<string>, now: seq<string>, r: nat, curr: nat) {
    && |was| == |now| && r <= curr < |was|
    && (forall k :: 0 <= k < |was| && !(r <= k <= curr) ==> now[k] == was[k])
    && InksIn(now, r, curr + 1) == InksIn(was, r, curr + 1)
    && (forall k :: r <= k < curr ==> !Terminates(was[k]))
  }

  // The text of lines `i..j`, the j-th excluded.
  function InksIn(lines: seq<string>, i: nat, j: nat): string
    requires i <= j <= |lines|
  {
    Inks(lines[i..j])
  }

  lemma InksJoin(lines: seq<string>, i: nat, j: nat, k: nat)
    requires i <= j <= k <= |lines|
    ensures InksIn(lines, i, k) == InksIn(lines, i, j) + InksIn(lines, j, k)
  {
    Stretches(lines, i, j, k);
    InksAppend(lines[i..j], lines[j..k]);
  }

  lemma InksAt(lines: seq<string>, i: nat)
    requires i < |lines|
    ensures InksIn(lines, i, i + 1) == Ink(lines[i])
  {
    assert lines[i..i + 1] == [lines[i]];
    InksOne(lines[i]);
  }

  lemma InksSame(a: seq<string>, b: seq<string>, i: nat, j: nat)
    requires i <= j <= |a| && j <= |b| && forall k :: i <= k < j ==> a[k] == b[k]
    ensures InksIn(a, i, j) == InksIn(b, i, j)
  {
    SameStretch(a, b, i, j);
  }

  lemma InksNone(lines: seq<string>, i: nat, j: nat)
    requires i <= j <= |lines| && forall k :: i <= k < j ==> lines[k] == ""
    ensures InksIn(lines, i, j) == ""
  {
    InksBlank(lines[i..j]);
  }

  // Empty lines at the end do not matter.
  lemma InksTrailing(lines: seq<string>, i: nat, j: nat, k: nat)
    requires i <= j <= k <= |lines| && forall l :: j <= l < k ==> lines[l] == ""
    ensures InksIn(lines, i, k) == InksIn(lines, i, j)
  {
    InksJoin(lines, i, j, k);
    InksNone(lines, j, k);
  }

  // A line that takes over the text of the lines behind it, which become empty.
  lemma InksGathered(was: seq<string>, now: seq<string>, i: nat, j: nat)
    requires i < j <= |now| == |was|
    requires Ink(now[i]) == InksIn(was, i, j) && forall k :: i < k < j ==> now[k] == ""
    ensures InksIn(now, i, j) == InksIn(was, i, j)
  {
    InksJoin(now, i, i + 1, j);
    InksAt(now, i);
    InksNone(now, i + 1, j);
  }

  // Lines `r..curr` have been merged into `merged` so far.
  ghost predicate Rising(was: seq<string>, now: seq<string>, merged: string, r: nat, curr: nat) {
    && |was| == |now| && r <= curr < |was|
    && (forall k :: 0 <= k < |was| && !(r < k <= curr) ==> now[k] == was[k])
    && (forall k :: r < k <= curr ==> now[k] == "")
    && (forall k :: r <= k < curr ==> !Terminates(was[k]))
    && Ink(merged) == InksIn(was, r, curr + 1)
  }

  lemma RisingStart(was: seq<string>, curr: nat)
    requires curr < |was|
    ensures Rising(was, was, Strip(was[curr]), curr, curr)
  {
    StripKeepsInk(was[curr]);
    InksAt(was, curr);
  }

  lemma RisingInk(was: seq<string>, merged: string, r: nat, curr: nat)
    requires 0 < r <= curr < |was| && Ink(merged) == InksIn(was, r, curr + 1)
    ensures Ink(Strip(was[r - 1]) + " " + merged) == InksIn(was, r - 1, curr + 1)
  {
    InkAppend(Strip(was[r - 1]) + " ", merged);
    InkStripped(was[r - 1]);
    InksJoin(was, r - 1, r, curr + 1);
    InksAt(was, r - 1);
  }

  lemma RisingStep(was: seq<string>, now: seq<string>, merged: string, r: nat, curr: nat)
    requires r > 0 && Rising(was, now, merged, r, curr) && !Terminates(now[r - 1])
    ensures Rising(was, now[r := ""], Strip(now[r - 1]) + " " + merged, r - 1, curr)
  {
    assert now[r - 1] == was[r - 1];
    RisingInk(was, merged, r, curr);
  }

  lemma InkTight(merged: string)
    ensures Ink(TightSemicolons(merged) + "\n") == Ink(merged)
  {
    TightKeepsInk(merged);
    InkAppend(TightSemicolons(merged), "\n");
    InkSpace();
  }

  lemma RisingEnd(was: seq<string>, now: seq<string>, merged: string, r: nat, curr: nat)
    requires Rising(was, now, merged, r, curr)
    ensures Merged(was, now[r := TightSemicolons(merged) + "\n"], r, curr)
  {
    var line := TightSemicolons(merged) + "\n";
    InkTight(merged);
    InksGathered(was, now[r := line], r, curr + 1);
  }

  lemma InkStripped(line: string)
    ensures Ink(Strip(line) + " ") == Ink(line)
  {
    StripKeepsInk(line);
    InkAppend(Strip(line), " ");
    InkSpace();
  }

  lemma InkSpace()
    ensures Ink(" ") == "" && Ink("\n") == ""
  {
    assert " "[1..] == "" && "\n"[1..] == "";
  }

  method PutLine(lines: array<string>, i: nat, line: string)
    requires i < lines.Length
    modifies lines
    ensures lines[..] == old(lines[..])[i := line]
  {
    lines[i] := line;
  }

  // The turn of an upward merge that takes the line above line `r`.
  method RaiseLine(lines: array<string>, merged: string, r: nat, curr: nat, ghost was: seq<string>)
    returns (merged': string)
    requires 0 < r && Rising(was, lines[..], merged, r, curr) && !Terminates(lines[r - 1])
    modifies lines
    ensures Rising(was, lines[..], merged', r - 1, curr)
    ensures '\n' !in merged && OneLine(was[r - 1]) ==> '\n' !in merged'
  {
    RisingStep(was, lines[..], merged, r, curr);
    if '\n' !in merged && OneLine(was[r - 1]) {
      StripOneLine(was[r - 1]);
    }
    merged' := Strip(lines[r - 1]) + " " + merged;
    PutLine(lines, r, "");
  }

  // The end of an upward merge.
  method PutRaised(lines: array<string>, merged: string, r: nat, curr: nat, ghost was: seq<string>)
    requires Rising(was, lines[..], merged, r, curr)
    modifies lines
    ensures Merged(was, lines[..], r, curr)
    ensures forall k :: 0 <= k < lines.Length && k != r ==> lines[k] == old(lines[k])
    ensures '\n' !in merged ==> OneLine(lines[r])
  {
    RisingEnd(was, lines[..], merged, r, curr);
    if '\n' !in merged {
      TightAddsNothing(merged, '\n');
    }
    PutLine(lines, r, TightSemicolons(merged) + "\n");
  }

  // Lines `i..j`, the last included, are lines as `readlines` gives them.
  ghost predicate OneLines(lines: seq<string>, i: nat, j: nat) {
    forall k :: i <= k <= j && k < |lines| ==> OneLine(lines[k])
  }

  // What an upward merge starts with.
  method FirstLine(lines: array<string>, curr: nat) returns (merged: string)
    requires curr < lines.Length
    ensures Rising(lines[..], lines[..], merged, curr, curr)
    ensures OneLine(lines[curr]) ==> '\n' !in merged
  {
    merged := Strip(lines[curr]);
    RisingStart(lines[..], curr);
    if OneLine(lines[curr]) {
      StripOneLine(lines[curr]);
    }
  }

  // The loop of `merge_up_lines`.
  method RaiseLines(lines: array<string>, curr: nat) returns (r: nat, merged: string)
    requires curr < lines.Length
    modifies lines
    ensures Rising(old(lines[..]), lines[..], merged, r, curr)
    ensures r == 0 || Terminates(lines[r - 1])
    ensures OneLines(old(lines[..]), r, curr) ==> '\n' !in merged
  {
    ghost var was := lines[..];
    r := curr;
    merged := FirstLine(lines, curr);
    while r >= 1
      invariant Rising(was, lines[..], merged, r, curr)
      invariant OneLines(was, r, curr) ==> '\n' !in merged
    {
      if Terminates(lines[r - 1]) {
        return;
      }
      merged := RaiseLine(lines, merged, r, curr, was);
      r := r - 1;
    }
  }

  /** `merge_up_lines`: pull the declaration that ends at line `curr` onto one line, the
      first after the nearest terminating line above. */
  method MergeUpLines(lines: array<string>, curr: nat) returns (r: nat)
    requires curr < lines.Length
    modifies lines
    ensures Merged(old(lines[..]), lines[..], r, curr)
    ensures r == 0 || Terminates(lines[r - 1])
    ensures forall k :: r < k <= curr ==> lines[k] == ""
    ensures OneLines(old(lines[..]), r, curr) ==> OneLine(lines[r])
  {
    ghost var was := lines[..];
    var merged;
    r, merged := RaiseLines(lines, curr);
    ghost var now := lines[..];
    assert forall k :: r < k <= curr ==> now[k] == "";
    PutRaised(lines, merged, r, curr, was);
  }

  // Lines from `start` up to, but without, `curr` have been merged into `merged`.
  ghost predicate Falling(was: seq<string>, now: seq<string>, merged: string, start: nat, curr: nat) {
    && |was| == |now| && start <= curr <= |was|
    && (forall k :: 0 <= k < |was| && !(start <= k < curr) ==> now[k] == was[k])
    && (forall k :: start <= k < curr ==> now[k] == "")
    && Ink(merged) == InksIn(was, start, curr)
  }

  lemma FallingInk(was: seq<string>, merged: string, start: nat, curr: nat)
    requires start <= curr < |was| && Ink(merged) == InksIn(was, start, curr)
    ensures Ink(merged + (Strip(was[curr]) + " ")) == InksIn(was, start, curr + 1)
  {
    InkAppend(merged, Strip(was[curr]) + " ");
    InkStripped(was[curr]);
    InksJoin(was, start, curr, curr + 1);
    InksAt(was, curr);
  }

  lemma FallingStep(was: seq<string>, now: seq<string>, merged: string, start: nat, curr: nat)
    requires Falling(was, now, merged, start, curr) && curr < |was|
    ensures Falling(was, now[curr := ""], merged + (Strip(now[curr]) + " "), start, curr + 1)
  {
    FallingInk(was, merged, start, curr);
  }

  // Lines `start..curr` of `was` have become one, at `start`.
  ghost predicate Gathered(was: seq<string>, now: seq<string>, start: nat, curr: nat) {
    && |was| == |now| && start <= curr < |was|
    && (forall k :: 0 <= k < |was| && !(start <= k <= curr) ==> now[k] == was[k])
    && (forall k :: start < k <= curr ==> now[k] == "")
    && InksIn(now, start, curr + 1) == InksIn(was, start, curr + 1)
  }

  lemma FallingEnd(was: seq<string>, now: seq<string>, merged: string, start: nat, curr: nat)
    requires Falling(was, now, merged, start, curr) && curr < |was|
    ensures Gathered(was, now[curr := ""][start := merged + now[curr]], start, curr)
  {
    LastLineInk(was, merged, start, curr);
    InksGathered(was, now[curr := ""][start := merged + now[curr]], start, curr + 1);
  }

  lemma LastLineInk(was: seq<string>, merged: string, start: nat, curr: nat)
    requires start <= curr < |was| && Ink(merged) == InksIn(was, start, curr)
    ensures Ink(merged + was[curr]) == InksIn(was, start, curr + 1)
  {
    InkAppend(merged, was[curr]);
    InksJoin(was, start, curr, curr + 1);
    InksAt(was, curr);
  }

  // The turn of a downward merge that takes line `curr`.
  method TakeLine(lines: array<string>, merged: string, start: nat, curr: nat, ghost was: seq<string>)
    returns (merged': string)
    requires curr < lines.Length && Falling(was, lines[..], merged, start, curr)
    modifies lines
    ensures Falling(was, lines[..], merged', start, curr + 1)
    ensures '\n' !in merged && OneLine(was[curr]) ==> '\n' !in merged'
  {
    FallingStep(was, lines[..], merged, start, curr);
    if '\n' !in merged && OneLine(was[curr]) {
      StripOneLine(was[curr]);
    }
    merged' := merged + (Strip(lines[curr]) + " ");
    PutLine(lines, curr, "");
  }

  // The end of a downward merge: the last line keeps its own white space.
  method PutMerged(lines: array<string>, merged: string, start: nat, curr: nat, ghost was: seq<string>)
    requires curr < lines.Length && Falling(was, lines[..], merged, start, curr)
    modifies lines
    ensures Gathered(was, lines[..], start, curr)
    ensures '\n' !in merged && OneLine(was[curr]) ==> OneLine(lines[start])
  {
    FallingEnd(was, lines[..], merged, start, curr);
    var all := merged + lines[curr];
    PutLine(lines, curr, "");
    PutLine(lines, start, all);
  }

  /** `merge_down_var`: pull the definition that starts at `start` onto one line, up to
      the first line with a semicolon; without one it runs off the end of the list. */
  method MergeDownVar(lines: array<string>, start: nat) returns (found: bool, curr: nat)
    requires start <= lines.Length
    modifies lines
    ensures found <==> exists k :: start <= k < lines.Length && ';' in old(lines[k])
    ensures found ==> Gathered(old(lines[..]), lines[..], start, curr) && ';' in old(lines[curr])
    ensures found && OneLines(old(lines[..]), start, curr) ==> OneLine(lines[start])
    ensures found ==> forall k :: start <= k < curr ==> ';' !in old(lines[k])
  {
    ghost var was := lines[..];
    var merged := "";
    curr := start;
    while curr < lines.Length && ';' !in lines[curr]
      invariant Falling(was, lines[..], merged, start, curr)
      invariant (forall k :: start <= k < curr ==> OneLine(was[k])) ==> '\n' !in merged
      invariant forall k :: start <= k < curr ==> ';' !in was[k]
    {
      merged := TakeLine(lines, merged, start, curr, was);
      curr := curr + 1;
    }
    if curr == lines.Length {
      return false, curr;
    }
    PutMerged(lines, merged, start, curr, was);
    return true, curr;
  }

  // `line.count(c)`.
  function CountChar(s: string, c: char): nat {
    if s == "" then 0 else (if s[0] == c then 1 else 0) + CountChar(s[1..], c)
  }

  lemma {:induction false} CountCharMeans(s: string, c: char)
    ensures CountChar(s, c) == multiset(s)[c]
  {
    if s != "" {
      CountCharMeans(s[1..], c);
      assert s == [s[0]] + s[1..];
    }
  }

  // The occurrences of `c` in lines `start..end`, the last included.
  function CountIn(lines: seq<string>, c: char, start: nat, end: nat): nat
    requires start <= end < |lines|
  {
    (if start == end then 0 else CountIn(lines, c, start, end - 1)) + CountChar(lines[end], c)
  }

  /** Lines `start..end` contain an opening brace, and as many closing ones. */
  predicate Balanced(lines: seq<string>, start: nat, end: nat)
    requires start <= end < |lines|
  {
    0 < CountIn(lines, '{', start, end) <= CountIn(lines, '}', start, end)
  }

  /** `merge_down_fn`: pull the function that starts at `start` onto one line, up to the
      first line at which its braces are balanced; without one it runs off the end. */
  method MergeDownFn(lines: array<string>, start: nat) returns (found: bool, curr: nat)
    requires start < lines.Length
    modifies lines
    ensures found <==> exists k :: start <= k < lines.Length && Balanced(old(lines[..]), start, k)
    ensures found ==> Gathered(old(lines[..]), lines[..], start, curr) && Balanced(old(lines[..]), start, curr)
    ensures found && OneLines(old(lines[..]), start, curr) ==> OneLine(lines[start])
    ensures found ==> forall k :: start <= k < curr ==> !Balanced(old(lines[..]), start, k)
  {
    ghost var was := lines[..];
    var merged := "";
    curr := start;
    var left, right := CountChar(lines[curr], '{'), CountChar(lines[curr], '}');
    while left == 0 || left > right
      invariant curr < lines.Length && Falling(was, lines[..], merged, start, curr)
      invariant (forall k :: start <= k < curr ==> OneLine(was[k])) ==> '\n' !in merged
      invariant left == CountIn(was, '{', start, curr) && right == CountIn(was, '}', start, curr)
      invariant forall k :: start <= k < curr ==> !Balanced(was, start, k)
      decreases lines.Length - curr
    {
      merged := TakeLine(lines, merged, start, curr, was);
      curr := curr + 1;
      if curr == lines.Length {
        return false, curr;
      }
      left, right := left + CountChar(lines[curr], '{'), right + CountChar(lines[curr], '}');
    }
    assert Balanced(was, start, curr);
    PutMerged(lines, merged, start, curr, was);
    return true, curr;
  }
}
