/** boundary/extract.py, `function_extract`: every outsider function of a file either
    keeps its body, with a warning, or becomes a declaration. */
module FunctionExtract {
  import opened Extract
  import opened Strings

  /** A function as the compiler plugin located it: the rows of its braces, the columns
      where the opening brace is and where the text after the closing one begins, and
      whether it is in `outsider_opt`. */
  datatype Fn = Fn(name: string, startRow: nat, startCol: nat, endRow: nat, endCol: nat, opt: bool)

  function Warning(name: string): string {
    "/* DON'T MODIFY INLINE EXTERNAL FUNCTION " + name + " */\n"
  }

  /** The warning is a comment on a line of its own that names the function. */
  lemma WarningNames(name: string)
    ensures Warning("f") == "/* DON'T MODIFY INLINE EXTERNAL FUNCTION f */\n"
    ensures "/* DON'T MODIFY INLINE EXTERNAL FUNCTION " <= Warning(name)
    ensures |Warning(name)| == |Warning("")| + |name| && Warning(name)[41..41 + |name|] == name
    ensures Warning(name)[41 + |name|..] == " */\n"
  {
    var front := "/* DON'T MODIFY INLINE EXTERNAL FUNCTION ";
    assert |front| == 41;
    assert Warning(name) == front + (name + " */\n");
    assert (front + (name + " */\n"))[41..] == name + " */\n";
    assert Warning(name)[41..][..|name|] == name;
  }

  // The braces are where the plugin says, in the lines of the file.
  ghost predicate Located(lines: seq<string>, fn: Fn) {
    && fn.startRow <= fn.endRow < |lines|
    && fn.startCol <= |lines[fn.startRow]|
    && 0 < fn.endCol <= |lines[fn.endRow]| && lines[fn.endRow][fn.endCol - 1] == '}'
  }

  predicate OnRow(fn: Fn, r: nat) {
    fn.startRow <= r <= fn.endRow
  }

  ghost predicate RowsApart(f: Fn, g: Fn) {
    f.endRow < g.startRow || g.endRow < f.startRow
  }

  ghost predicate ValidFns(lines: seq<string>, fns: seq<Fn>) {
    && (forall f :: f in fns ==> Located(lines, f))
    && (forall i, j :: 0 <= i < j < |fns| ==> RowsApart(fns[i], fns[j]))
  }

  // ---------------------------------------------------------------- meaning

  // What becomes of row `r`, which belongs to `fn`.
  function EditRow(line: string, fn: Fn, r: nat): string {
    if fn.opt then if r == fn.endRow then line + Warning(fn.name) else line
    else if r == fn.startRow && fn.startCol <= |line| then line[..fn.startCol] + ";\n"
    else ""
  }

  ghost function OwnerOf(fns: seq<Fn>, r: nat): Fn
    requires exists f :: f in fns && OnRow(f, r)
  {
    var f :| f in fns && OnRow(f, r);
    f
  }

  /** The file with all edits done, row by row, in no order. */
  ghost function Expected(lines: seq<string>, fns: seq<Fn>): (r: seq<string>)
    ensures |r| == |lines|
  {
    seq(|lines|, r requires 0 <= r < |lines| =>
      if exists f :: f in fns && OnRow(f, r) then EditRow(lines[r], OwnerOf(fns, r), r) else lines[r])
  }

  lemma OneOwner(lines: seq<string>, fns: seq<Fn>, r: nat, f: Fn)
    requires ValidFns(lines, fns) && f in fns && OnRow(f, r)
    ensures OwnerOf(fns, r) == f
  {
    var g := OwnerOf(fns, r);
    var i :| 0 <= i < |fns| && fns[i] == f;
    var j :| 0 <= j < |fns| && fns[j] == g;
    assert i == j;
  }

  lemma ExpectedRow(lines: seq<string>, fns: seq<Fn>, r: nat, f: Fn)
    requires ValidFns(lines, fns) && r < |lines| && f in fns && OnRow(f, r)
    ensures Expected(lines, fns)[r] == EditRow(lines[r], f, r)
  {
    OneOwner(lines, fns, r, f);
  }

  lemma ExpectedOther(lines: seq<string>, fns: seq<Fn>, r: nat)
    requires r < |lines| && forall f :: f in fns ==> !OnRow(f, r)
    ensures Expected(lines, fns)[r] == lines[r]
  {
  }

  /** The order of the functions does not matter for what is expected. */
  lemma ExpectedUnordered(lines: seq<string>, fns: seq<Fn>, others: seq<Fn>)
    requires ValidFns(lines, fns) && ValidFns(lines, others)
    requires forall f :: f in fns <==> f in others
    ensures Expected(lines, fns) == Expected(lines, others)
  {
    forall r | 0 <= r < |lines| ensures Expected(lines, fns)[r] == Expected(lines, others)[r] {
      if f :| f in fns && OnRow(f, r) {
        ExpectedRow(lines, fns, r, f);
        ExpectedRow(lines, others, r, f);
      }
    }
  }

  // What row `r` of `fn` should become: only the body itself, from the opening to the
  // closing brace, gives way to a semicolon.
  function IdealRow(line: string, fn: Fn, r: nat): string {
    if fn.opt then EditRow(line, fn, r)
    else EditRow(line, fn, r) + if r == fn.endRow && fn.endCol <= |line| then line[fn.endCol..] else ""
  }

  /** The file with exactly the bodies replaced by semicolons, and the warnings added. */
  ghost function Ideal(lines: seq<string>, fns: seq<Fn>): (r: seq<string>)
    ensures |r| == |lines|
  {
    seq(|lines|, r requires 0 <= r < |lines| =>
      if exists f :: f in fns && OnRow(f, r) then IdealRow(lines[r], OwnerOf(fns, r), r) else lines[r])
  }

  // Nothing but white space follows the closing brace of a body that goes.
  ghost predicate NothingBehind(lines: seq<string>, fn: Fn)
    requires Located(lines, fn)
  {
    fn.opt || Ink(lines[fn.endRow][fn.endCol..]) == ""
  }

  lemma {:induction false} InksByRow(a: seq<string>, b: seq<string>)
    requires |a| == |b| && forall r :: 0 <= r < |a| ==> |Ink(a[r])| <= |Ink(b[r])|
    ensures |Inks(a)| <= |Inks(b)|
    ensures |Inks(a)| == |Inks(b)| ==> forall r :: 0 <= r < |a| ==> |Ink(a[r])| == |Ink(b[r])|
  {
    if a != [] {
      InksByRow(a[1..], b[1..]);
      assert forall r :: 1 <= r < |a| ==> a[r] == a[1..][r - 1] && b[r] == b[1..][r - 1];
    }
  }

  lemma {:induction false} InksSameRows(a: seq<string>, b: seq<string>)
    requires |a| == |b| && forall r :: 0 <= r < |a| ==> Ink(a[r]) == Ink(b[r])
    ensures Inks(a) == Inks(b)
  {
    if a != [] {
      InksSameRows(a[1..], b[1..]);
    }
  }

  // The ink a row should have had more than it gets.
  lemma RowLoss(lines: seq<string>, fns: seq<Fn>, r: nat)
    requires ValidFns(lines, fns) && r < |lines|
    ensures |Ink(Expected(lines, fns)[r])| <= |Ink(Ideal(lines, fns)[r])|
    ensures (forall f :: f in fns ==> NothingBehind(lines, f)) ==>
      Ink(Expected(lines, fns)[r]) == Ink(Ideal(lines, fns)[r])
  {
    if exists f :: f in fns && OnRow(f, r) {
      var f := OwnerOf(fns, r);
      if !f.opt {
        var behind := if r == f.endRow && f.endCol <= |lines[r]| then lines[r][f.endCol..] else "";
        InkAppend(EditRow(lines[r], f, r), behind);
      }
    }
  }

  lemma BraceRowLoss(lines: seq<string>, fns: seq<Fn>, f: Fn)
    requires ValidFns(lines, fns) && f in fns
    requires |Ink(Expected(lines, fns)[f.endRow])| == |Ink(Ideal(lines, fns)[f.endRow])|
    ensures NothingBehind(lines, f)
  {
    var r := f.endRow;
    OneOwner(lines, fns, r, f);
    ExpectedRow(lines, fns, r, f);
    assert Ideal(lines, fns)[r] == IdealRow(lines[r], f, r);
    if !f.opt {
      var kept, behind := EditRow(lines[r], f, r), lines[r][f.endCol..];
      InkAppend(kept, behind);
      EmptyInk(Ink(kept), Ink(behind));
    }
  }

  lemma EmptyInk(a: string, b: string)
    requires |a| == |a + b|
    ensures b == ""
  {
  }

  /** The file comes out as it should, apart from white space, exactly when nothing but
      white space follows the closing brace of any function that loses its body. */
  lemma ExpectedIsIdeal(lines: seq<string>, fns: seq<Fn>)
    requires ValidFns(lines, fns)
    ensures Inks(Expected(lines, fns)) == Inks(Ideal(lines, fns)) <==> forall f :: f in fns ==> NothingBehind(lines, f)
  {
    var a, b := Expected(lines, fns), Ideal(lines, fns);
    forall r | 0 <= r < |lines| ensures |Ink(a[r])| <= |Ink(b[r])| {
      RowLoss(lines, fns, r);
    }
    InksByRow(a, b);
    if Inks(a) == Inks(b) {
      forall f | f in fns ensures NothingBehind(lines, f) {
        BraceRowLoss(lines, fns, f);
      }
    }
    if forall f :: f in fns ==> NothingBehind(lines, f) {
      forall r | 0 <= r < |lines| ensures Ink(a[r]) == Ink(b[r]) {
        RowLoss(lines, fns, r);
      }
      InksSameRows(a, b);
    }
  }

  lemma LineIsLost(line: string, fn: Fn)
    requires fn.startRow == fn.endRow == 0 && !fn.opt && Located([line], fn) && Ink(line[fn.endCol..]) != ""
    ensures ValidFns([line], [fn]) && Inks(Expected([line], [fn])) != Inks(Ideal([line], [fn]))
  {
    assert fn in [fn] && !NothingBehind([line], fn);
    ExpectedIsIdeal([line], [fn]);
  }

  /** A variable declared behind the closing brace is lost with the body. */
  lemma TextBehindIsLost()
    ensures var lines, fns := ["int f(void) { } int x;\n"], [Fn("f", 0, 12, 0, 15, false)];
            ValidFns(lines, fns) && Inks(Expected(lines, fns)) != Inks(Ideal(lines, fns))
  {
    var line := "int f(void) { } int x;\n";
    InkAppend(line[15..17], line[17..]);
    assert line[15..] == line[15..17] + line[17..] && line[15..17] == " i" && " i"[1..] == "i";
    LineIsLost(line, Fn("f", 0, 12, 0, 15, false));
  }

  // ------------------------------------------------------------ one function

  // The rows of `fn` after its own edit.
  ghost function Edited(lines: seq<string>, fn: Fn): (r: seq<string>)
    requires fn.startRow <= fn.endRow < |lines|
    ensures |r| == fn.endRow + 1 - fn.startRow
  {
    seq(fn.endRow + 1 - fn.startRow, k requires 0 <= k < fn.endRow + 1 - fn.startRow =>
      EditRow(lines[fn.startRow + k], fn, fn.startRow + k))
  }

  /** One function has been handled: from some row `m` down to its closing brace, the
      text is what stood above it followed by its edit; nothing else has changed, and
      no row above it that was merged terminates. */
  ghost predicate Handled(was: seq<string>, now: seq<string>, fn: Fn, m: nat) {
    && |was| == |now| && m <= fn.startRow <= fn.endRow < |was|
    && (forall k :: 0 <= k < |was| && !(m <= k <= fn.endRow) ==> now[k] == was[k])
    && (forall k :: m <= k < fn.startRow ==> !Terminates(was[k]))
    && InksIn(now, m, fn.endRow + 1) == InksIn(was, m, fn.startRow) + Inks(Edited(was, fn))
  }

  lemma HandledOpt(was: seq<string>, fn: Fn)
    requires fn.startRow <= fn.endRow < |was| && fn.opt
    ensures Handled(was, was[fn.endRow := was[fn.endRow] + Warning(fn.name)], fn, fn.startRow)
  {
    var now := was[fn.endRow := was[fn.endRow] + Warning(fn.name)];
    var rows, edited := now[fn.startRow..fn.endRow + 1], Edited(was, fn);
    forall k | 0 <= k < |rows| ensures rows[k] == edited[k] {
      assert rows[k] == now[fn.startRow + k];
    }
    assert rows == edited;
    InksNone(was, fn.startRow, fn.startRow);
    assert "" + Inks(edited) == Inks(edited);
  }

  // The edit of a function that loses its body, apart from white space.
  lemma EditedCut(was: seq<string>, fn: Fn)
    requires fn.startRow <= fn.endRow < |was| && !fn.opt && fn.startCol <= |was[fn.startRow]|
    ensures Inks(Edited(was, fn)) == Ink(was[fn.startRow][..fn.startCol] + ";\n")
  {
    var edited := Edited(was, fn);
    InksJoin(edited, 0, 1, |edited|);
    InksAt(edited, 0);
    assert edited[0..|edited|] == edited;
    forall k | 1 <= k < |edited| ensures edited[k] == "" {
      var r := fn.startRow + k;
      assert edited[k] == EditRow(was[r], fn, r);
    }
    InksNone(edited, 1, |edited|);
    var head := was[fn.startRow][..fn.startCol] + ";\n";
    assert EditRow(was[fn.startRow], fn, fn.startRow) == head;
    assert edited[0] == EditRow(was[fn.startRow + 0], fn, fn.startRow + 0);
    assert Ink(head) + "" == Ink(head);
  }

  // The rows down to the closing brace, once the body is blank.
  lemma BodyBlank(merged: seq<string>, now: seq<string>, fn: Fn, m: nat)
    requires m <= fn.startRow <= fn.endRow < |now| == |merged|
    requires forall k :: 0 <= k < |now| ==> now[k] == if fn.startRow < k <= fn.endRow then "" else merged[k]
    ensures InksIn(now, m, fn.endRow + 1) == InksIn(merged, m, fn.startRow + 1)
  {
    InksTrailing(now, m, fn.startRow + 1, fn.endRow + 1);
    InksSame(now, merged, m, fn.startRow + 1);
  }

  // The text from row `m` to the closing brace, once the declaration is merged.
  lemma CutInk(was: seq<string>, cut: seq<string>, fn: Fn, m: nat)
    requires m <= fn.startRow <= fn.endRow < |was| && !fn.opt && fn.startCol <= |was[fn.startRow]|
    requires cut == was[fn.startRow := was[fn.startRow][..fn.startCol] + ";\n"]
    ensures InksIn(cut, m, fn.startRow + 1) == InksIn(was, m, fn.startRow) + Inks(Edited(was, fn))
  {
    InksJoin(cut, m, fn.startRow, fn.startRow + 1);
    InksAt(cut, fn.startRow);
    InksSame(cut, was, m, fn.startRow);
    EditedCut(was, fn);
  }

  // First the brace is replaced, then the declaration merged, then the body blanked.
  lemma HandledCut(was: seq<string>, cut: seq<string>, merged: seq<string>, now: seq<string>, fn: Fn, m: nat)
    requires fn.startRow <= fn.endRow < |was| && !fn.opt && fn.startCol <= |was[fn.startRow]|
    requires cut == was[fn.startRow := was[fn.startRow][..fn.startCol] + ";\n"]
    requires Merged(cut, merged, m, fn.startRow)
    requires |now| == |merged|
    requires forall k :: 0 <= k < |now| ==> now[k] == if fn.startRow < k <= fn.endRow then "" else merged[k]
    ensures Handled(was, now, fn, m)
  {
    CutInk(was, cut, fn, m);
    BodyBlank(merged, now, fn, m);
    forall k | m <= k < fn.startRow ensures !Terminates(was[k]) {
      assert cut[k] == was[k];
    }
  }

  method HandleFn(lines: array<string>, fn: Fn) returns (ghost m: nat)
    requires fn.startRow <= fn.endRow < lines.Length && fn.startCol <= |lines[fn.startRow]|
    modifies lines
    ensures Handled(old(lines[..]), lines[..], fn, m)
  {
    ghost var was := lines[..];
    m := fn.startRow;
    if fn.opt {
      lines[fn.endRow] := lines[fn.endRow] + Warning(fn.name);
      HandledOpt(was, fn);
      assert lines[..] == was[fn.endRow := was[fn.endRow] + Warning(fn.name)];
    } else {
      lines[fn.startRow] := lines[fn.startRow][..fn.startCol] + ";\n";
      ghost var cut := lines[..];
      assert cut == was[fn.startRow := was[fn.startRow][..fn.startCol] + ";\n"];
      var r := MergeUpLines(lines, fn.startRow);
      m := r;
      ghost var merged := lines[..];
      for i := fn.startRow + 1 to fn.endRow + 1
        invariant forall k :: 0 <= k < lines.Length ==> lines[k] == if fn.startRow < k < i then "" else merged[k]
      {
        lines[i] := "";
      }
      HandledCut(was, cut, merged, lines[..], fn, r);
    }
  }

  // ----------------------------------------------------------- all functions

  // A place that no line is merged across while the functions from the i-th on are
  // still to be done.
  ghost predicate IsCut(size: nat, fns: seq<Fn>, i: nat, c: nat) {
    c == size || exists j :: i <= j < |fns| && (c == fns[j].startRow || c == fns[j].endRow + 1)
  }

  ghost predicate SameUpTo(now: seq<string>, expected: seq<string>, c: nat) {
    c <= |now| && c <= |expected| && InksIn(now, 0, c) == InksIn(expected, 0, c)
  }

  /** After the first `i` functions: up to every cut the text is what is expected, and
      the other functions are as they were. */
  ghost predicate Underway(orig: seq<string>, now: seq<string>, fns: seq<Fn>, i: nat) {
    && |now| == |orig| && i <= |fns|
    && (forall j, r :: i <= j < |fns| && 0 <= r < |orig| && OnRow(fns[j], r) ==> now[r] == orig[r])
    && (forall c: nat :: IsCut(|orig|, fns, i, c) ==> SameUpTo(now, Expected(orig, fns[..i]), c))
  }

  // The expected row after one more function.
  lemma ExpectedStepRow(orig: seq<string>, fns: seq<Fn>, i: nat, r: nat)
    requires ValidFns(orig, fns) && i < |fns| && r < |orig|
    ensures Expected(orig, fns[..i + 1])[r] ==
            if OnRow(fns[i], r) then EditRow(orig[r], fns[i], r) else Expected(orig, fns[..i])[r]
  {
    var done, more := fns[..i], fns[..i + 1];
    assert more == done + [fns[i]];
    assert ValidFns(orig, done) && ValidFns(orig, more) by {
      assert forall f :: f in more ==> f in fns;
    }
    if OnRow(fns[i], r) {
      assert more[i] == fns[i];
      ExpectedRow(orig, more, r, fns[i]);
    } else if f :| f in done && OnRow(f, r) {
      ExpectedRow(orig, more, r, f);
      ExpectedRow(orig, done, r, f);
    } else {
      ExpectedOther(orig, done, r);
      ExpectedOther(orig, more, r);
    }
  }

  // `exp'` is `exp` with the rows of `g` edited.
  ghost predicate Follows(orig: seq<string>, exp: seq<string>, exp': seq<string>, g: Fn) {
    && |exp| == |exp'| == |orig| && g.startRow <= g.endRow < |orig|
    && (forall r :: 0 <= r < |orig| && !OnRow(g, r) ==> exp'[r] == exp[r])
    && exp'[g.startRow..g.endRow + 1] == Edited(orig, g)
  }

  // The expected text after one more function.
  lemma ExpectedStep(orig: seq<string>, fns: seq<Fn>, i: nat)
    requires ValidFns(orig, fns) && i < |fns| && Located(orig, fns[i])
    ensures Follows(orig, Expected(orig, fns[..i]), Expected(orig, fns[..i + 1]), fns[i])
  {
    var was, now := Expected(orig, fns[..i]), Expected(orig, fns[..i + 1]);
    forall r | 0 <= r < |orig| ensures now[r] == if OnRow(fns[i], r) then EditRow(orig[r], fns[i], r) else was[r] {
      ExpectedStepRow(orig, fns, i, r);
    }
    EditedRows(orig, now, fns[i]);
  }

  lemma EditedRows(orig: seq<string>, now: seq<string>, g: Fn)
    requires |now| == |orig| && g.startRow <= g.endRow < |orig|
    requires forall r :: 0 <= r < |orig| && OnRow(g, r) ==> now[r] == EditRow(orig[r], g, r)
    ensures now[g.startRow..g.endRow + 1] == Edited(orig, g)
  {
    var rows, edited := now[g.startRow..g.endRow + 1], Edited(orig, g);
    forall k | 0 <= k < |rows| ensures rows[k] == edited[k] {
      var r := g.startRow + k;
      assert OnRow(g, r) && rows[k] == now[r];
    }
  }

  // A function that is still to be done is not reached by a merge from below, because
  // its closing brace terminates.
  lemma MergeStopsBelow(orig: seq<string>, was: seq<string>, now: seq<string>, f: Fn, g: Fn, m: nat)
    requires Located(orig, f) && |was| == |orig| && Handled(was, now, g, m)
    requires was[f.endRow] == orig[f.endRow] && f.endRow < g.startRow
    ensures f.endRow < m
  {
    assert '}' in was[f.endRow];
  }

  // Every other function still to be done is out of reach of the i-th.
  lemma OutOfReach(orig: seq<string>, was: seq<string>, now: seq<string>, fns: seq<Fn>, i: nat, m: nat, j: nat)
    requires ValidFns(orig, fns) && i < j < |fns|
    requires Underway(orig, was, fns, i) && Handled(was, now, fns[i], m)
    ensures fns[j].endRow < m || fns[i].endRow < fns[j].startRow
  {
    var f, g := fns[j], fns[i];
    assert RowsApart(g, f) && f in fns && Located(orig, f);
    if f.endRow < g.startRow {
      assert OnRow(f, f.endRow);
      MergeStopsBelow(orig, was, now, f, g, m);
    }
  }

  lemma UpToBrace(was: seq<string>, now: seq<string>, g: Fn, m: nat)
    requires Handled(was, now, g, m)
    ensures InksIn(now, 0, g.endRow + 1) == InksIn(was, 0, g.startRow) + Inks(Edited(was, g))
  {
    InksJoin(now, 0, m, g.endRow + 1);
    InksJoin(was, 0, m, g.startRow);
    InksSame(now, was, 0, m);
    Associates(InksIn(was, 0, m), InksIn(was, m, g.startRow), Inks(Edited(was, g)));
  }

  lemma SameTail(a: string, b: string, c: string)
    requires a + b == a + c
    ensures b == c
  {
    assert (a + b)[|a|..] == b && (a + c)[|a|..] == c;
  }

  // The text between two places up to which the texts agree.
  lemma SameBetween(x: seq<string>, y: seq<string>, i: nat, j: nat)
    requires i <= j && SameUpTo(x, y, i) && SameUpTo(x, y, j)
    ensures InksIn(x, i, j) == InksIn(y, i, j)
  {
    InksJoin(x, 0, i, j);
    InksJoin(y, 0, i, j);
    SameTail(InksIn(x, 0, i), InksIn(x, i, j), InksIn(y, i, j));
  }

  lemma BraceText(orig: seq<string>, was: seq<string>, now: seq<string>, exp: seq<string>, exp': seq<string>, g: Fn,
                  m: nat)
    requires |was| == |orig| && Handled(was, now, g, m) && Follows(orig, exp, exp', g)
    requires forall r :: g.startRow <= r <= g.endRow ==> was[r] == orig[r]
    requires SameUpTo(was, exp, g.startRow)
    ensures SameUpTo(now, exp', g.endRow + 1)
  {
    UpToBrace(was, now, g, m);
    assert Edited(was, g) == Edited(orig, g);
    InksJoin(exp', 0, g.startRow, g.endRow + 1);
    InksSame(exp', exp, 0, g.startRow);
  }

  lemma CutText(orig: seq<string>, was: seq<string>, now: seq<string>, exp: seq<string>, exp': seq<string>, g: Fn,
                m: nat, c: nat)
    requires |was| == |orig| && Handled(was, now, g, m) && Follows(orig, exp, exp', g)
    requires forall r :: g.startRow <= r <= g.endRow ==> was[r] == orig[r]
    requires SameUpTo(was, exp, g.startRow) && SameUpTo(was, exp, g.endRow + 1) && SameUpTo(was, exp, c)
    requires c <= m || g.endRow < c
    ensures SameUpTo(now, exp', c)
  {
    var e := g.endRow + 1;
    if c <= m {
      InksSame(now, was, 0, c);
      InksSame(exp', exp, 0, c);
    } else {
      BraceText(orig, was, now, exp, exp', g, m);
      SameBetween(was, exp, e, c);
      InksSame(now, was, e, c);
      InksSame(exp', exp, e, c);
      InksJoin(now, 0, e, c);
      InksJoin(exp', 0, e, c);
    }
  }

  lemma CutStep(orig: seq<string>, was: seq<string>, now: seq<string>, fns: seq<Fn>, i: nat, n: nat, m: nat, c: nat)
    requires ValidFns(orig, fns) && i < |fns| && n == i + 1
    requires Underway(orig, was, fns, i) && Handled(was, now, fns[i], m)
    requires IsCut(|orig|, fns, n, c)
    ensures SameUpTo(now, Expected(orig, fns[..n]), c)
  {
    var g := fns[i];
    assert g in fns && Located(orig, g);
    if c != |orig| {
      var j :| n <= j < |fns| && (c == fns[j].startRow || c == fns[j].endRow + 1);
      OutOfReach(orig, was, now, fns, i, m, j);
      assert fns[j] in fns && Located(orig, fns[j]);
    }
    ExpectedStep(orig, fns, i);
    assert IsCut(|orig|, fns, i, c) && IsCut(|orig|, fns, i, g.startRow) && IsCut(|orig|, fns, i, g.endRow + 1);
    assert forall r :: g.startRow <= r <= g.endRow ==> OnRow(g, r);
    CutText(orig, was, now, Expected(orig, fns[..i]), Expected(orig, fns[..n]), g, m, c);
  }

  lemma UnderwayStep(orig: seq<string>, was: seq<string>, now: seq<string>, fns: seq<Fn>, i: nat, n: nat, m: nat)
    requires ValidFns(orig, fns) && i < |fns| && n == i + 1
    requires Underway(orig, was, fns, i) && Handled(was, now, fns[i], m)
    ensures Underway(orig, now, fns, n)
  {
    forall j, r | n <= j < |fns| && 0 <= r < |orig| && OnRow(fns[j], r) ensures now[r] == orig[r] {
      OutOfReach(orig, was, now, fns, i, m, j);
    }
    forall c: nat | IsCut(|orig|, fns, n, c) ensures SameUpTo(now, Expected(orig, fns[..n]), c) {
      CutStep(orig, was, now, fns, i, n, m, c);
    }
  }

  lemma UnderwayStart(orig: seq<string>, fns: seq<Fn>)
    ensures ValidFns(orig, fns) ==> Underway(orig, orig, fns, 0)
  {
    assert fns[..0] == [];
    assert Expected(orig, []) == orig;
    if ValidFns(orig, fns) {
      forall c: nat | IsCut(|orig|, fns, 0, c) ensures c <= |orig| {
        if c != |orig| {
          var j :| 0 <= j < |fns| && (c == fns[j].startRow || c == fns[j].endRow + 1);
          assert fns[j] in fns;
        }
      }
    }
  }

  lemma UnderwayEnd(orig: seq<string>, now: seq<string>, fns: seq<Fn>)
    requires Underway(orig, now, fns, |fns|)
    ensures Inks(now) == Inks(Expected(orig, fns))
  {
    assert fns[..|fns|] == fns;
    assert IsCut(|orig|, fns, |fns|, |orig|);
    assert now[0..|orig|] == now && Expected(orig, fns)[0..|orig|] == Expected(orig, fns);
  }

  /** `function_extract`, the loop over the outsiders. Whatever the order of `fns`, no
      line is added or lost, and apart from white space the text is that of the file
      with every function edited in its own rows; it is that of the file with exactly the
      bodies replaced if and only if nothing stands behind their closing braces. */
  method ExtractOutsiders(lines: array<string>, fns: seq<Fn>)
    requires ValidFns(lines[..], fns)
    modifies lines
    ensures Inks(lines[..]) == Inks(Expected(old(lines[..]), fns))
    ensures (forall f :: f in fns ==> NothingBehind(old(lines[..]), f)) <==>
      Inks(lines[..]) == Inks(Ideal(old(lines[..]), fns))
  {
    ghost var orig := lines[..];
    UnderwayStart(orig, fns);
    for i := 0 to |fns|
      invariant Underway(orig, lines[..], fns, i)
    {
      assert fns[i] in fns && Located(orig, fns[i]) && OnRow(fns[i], fns[i].startRow);
      ghost var was := lines[..];
      assert was[fns[i].startRow] == orig[fns[i].startRow];
      ghost var m := HandleFn(lines, fns[i]);
      UnderwayStep(orig, was, lines[..], fns, i, i + 1, m);
    }
    UnderwayEnd(orig, lines[..], fns);
    ExpectedIsIdeal(orig, fns);
  }
}
