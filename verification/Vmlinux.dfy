/** boundary/analyze.py, `find_in_vmlinux`: one pass over the symbol table of
    vmlinux, which also fixes the position of every local function among the local
    functions of the same name. */
module Vmlinux {
  import opened CallGraph
  import opened Strings

  /** A line of `readelf --syms`: eight fields, of which four matter, or anything else. */
  datatype Row = Row(value: int, symtype: string, scope: string, key: string) | Other

  /** The files of the configuration, in the order in which they are tried, and all
      functions that the compiler plugin recorded. */
  datatype Config = Config(fullname: map<string, string>, modFiles: seq<string>, modHdrs: seq<string>,
                           allFiles: seq<string>, fns: set<Sym>)

  datatype Info = Info(inVmlinux: set<Sym>, mangled: set<Sym>, localSympos: map<Sym, nat>, exported: set<Sym>)

  const KSYMTAB := "__ksymtab_"

  function BeforeDot(s: string): (r: string)
    requires '.' in s
    ensures |r| < |s| && r <= s && s[|r|] == '.' && '.' !in r
  {
    if s[0] == '.' then "" else
      assert '.' in s[1..];
      [s[0]] + BeforeDot(s[1..])
  }

  // The first of the files in which a function of this name was recorded.
  ghost predicate FirstFile(name: string, files: seq<string>, fns: set<Sym>, file: string) {
    exists i :: FirstFileAt(name, files, fns, file, i)
  }

  ghost predicate FirstFileAt(name: string, files: seq<string>, fns: set<Sym>, file: string, i: nat) {
    i < |files| && files[i] == file && Sym(name, file) in fns && forall j :: 0 <= j < i ==> Sym(name, files[j]) !in fns
  }

  lemma {:induction false} GetInAnyIsFirst(name: string, files: seq<string>, fns: set<Sym>, file: string)
    ensures GetInAny(name, files, fns) == Some(file) <==> FirstFile(name, files, fns, file)
  {
    if files != [] {
      var rest := files[1..];
      GetInAnyIsFirst(name, rest, fns, file);
      if Sym(name, files[0]) in fns {
        assert FirstFileAt(name, files, fns, files[0], 0);
      } else {
        assert forall i: nat :: FirstFileAt(name, rest, fns, file, i) ==> FirstFileAt(name, files, fns, file, i + 1);
        assert forall i: nat :: FirstFileAt(name, files, fns, file, i) && i > 0 ==>
          FirstFileAt(name, rest, fns, file, i - 1);
      }
    }
  }

  // `get_in_any`.
  function GetInAny(name: string, files: seq<string>, fns: set<Sym>): (r: Option<string>)
    ensures r.Some? ==> r.value in files && Sym(name, r.value) in fns
    ensures r.None? ==> forall f :: f in files ==> Sym(name, f) !in fns
  {
    if files == [] then None
    else if Sym(name, files[0]) in fns then Some(files[0])
    else GetInAny(name, files[1..], fns)
  }

  predicate IsFunc(row: Row) {
    row.Row? && row.symtype == "FUNC" && '.' !in row.key
  }

  // ------------------------------------------------------ what each row means

  // The file in force after `rows`.
  function FileAfter(cfg: Config, rows: seq<Row>): Option<string> {
    if rows == [] then None
    else
      var row := rows[|rows| - 1];
      if row.Row? && row.symtype == "FILE" then
        Some(if row.key in cfg.fullname then cfg.fullname[row.key] else row.key)
      else FileAfter(cfg, rows[..|rows| - 1])
  }

  /** The addresses of the local functions called `name`, in symbol-table order. */
  function LocalAddrs(rows: seq<Row>, name: string): (r: seq<int>)
    ensures |r| <= |rows|
  {
    if rows == [] then []
    else
      var row := rows[|rows| - 1];
      LocalAddrs(rows[..|rows| - 1], name) +
        if IsFunc(row) && row.scope == "LOCAL" && row.key == name then [row.value] else []
  }

  // The signature a local function row stands for, `file` being in force.
  function LocalSym(cfg: Config, file: Option<string>, row: Row): (r: Option<Sym>)
    ensures r.Some? ==> row.Row? && r.value.name == row.key
  {
    if !IsFunc(row) || row.scope != "LOCAL" || file.None? || file.value !in cfg.allFiles then None
    else if Sym(row.key, file.value) in cfg.fns then Some(Sym(row.key, file.value))
    else
      match GetInAny(row.key, cfg.modHdrs, cfg.fns)
      case None => None
      case Some(f) => Some(Sym(row.key, f))
  }

  // The signature a global function row stands for.
  function GlobalSym(cfg: Config, row: Row): (r: Option<Sym>)
    ensures r.Some? ==> row.Row? && r.value.name == row.key
  {
    if !IsFunc(row) || row.scope == "LOCAL" then None
    else
      match GetInAny(row.key, cfg.allFiles, cfg.fns)
      case None => None
      case Some(f) => Some(Sym(row.key, f))
  }

  // The function of which the row is an optimised version that callers may share.
  function MangledSym(file: Option<string>, row: Row): Option<Sym> {
    if row.Row? && row.symtype == "FUNC" && '.' in row.key && !Contains(row.key, ".cold") && file.Some?
    then Some(Sym(BeforeDot(row.key), file.value)) else None
  }

  // The function that the row exports to kernel modules.
  function ExportedSym(cfg: Config, file: Option<string>, row: Row): Option<Sym> {
    if row.Row? && row.symtype == "NOTYPE" && KSYMTAB <= row.key && file.Some? && file.value in cfg.modFiles then
      var name := row.key[|KSYMTAB|..];
      match GetInAny(name, cfg.modFiles, cfg.fns)
      case None => None
      case Some(f) => Some(Sym(name, f))
    else None
  }

  // The row uses the variable `filename`.
  predicate NeedsFile(row: Row) {
    row.Row? && (row.symtype == "FUNC" || (row.symtype == "NOTYPE" && KSYMTAB <= row.key))
  }

  // ----------------------------------------------- what a whole table amounts to

  ghost function LocalAt(cfg: Config, rows: seq<Row>, i: nat): Option<Sym>
    requires i < |rows|
  {
    LocalSym(cfg, FileAfter(cfg, rows[..i]), rows[i])
  }

  /** Row i is the last local function that stands for `sym`: the one `sym` means. */
  ghost predicate LastLocal(cfg: Config, rows: seq<Row>, sym: Sym, i: nat) {
    && i < |rows| && LocalAt(cfg, rows, i) == Some(sym)
    && forall j :: i < j < |rows| ==> LocalAt(cfg, rows, j) != Some(sym)
  }

  ghost predicate HasLocal(cfg: Config, rows: seq<Row>, sym: Sym) {
    exists i :: 0 <= i < |rows| && LocalAt(cfg, rows, i) == Some(sym)
  }

  ghost predicate HasGlobal(cfg: Config, rows: seq<Row>, sym: Sym) {
    exists i :: 0 <= i < |rows| && GlobalSym(cfg, rows[i]) == Some(sym)
  }

  ghost predicate HasMangled(cfg: Config, rows: seq<Row>, sym: Sym) {
    exists i :: 0 <= i < |rows| && MangledSym(FileAfter(cfg, rows[..i]), rows[i]) == Some(sym)
  }

  ghost predicate HasExported(cfg: Config, rows: seq<Row>, sym: Sym) {
    exists i :: 0 <= i < |rows| && ExportedSym(cfg, FileAfter(cfg, rows[..i]), rows[i]) == Some(sym)
  }

  /** The position recorded for a signature: that of its last row among the local
      functions of the same name. */
  ghost predicate PositionsOk(cfg: Config, rows: seq<Row>, pos: map<Sym, nat>) {
    && (forall sym :: sym in pos <==> HasLocal(cfg, rows, sym))
    && (forall sym, i: nat :: LastLocal(cfg, rows, sym, i) ==> PositionAt(rows, pos, sym, i))
  }

  ghost predicate PositionAt(rows: seq<Row>, pos: map<Sym, nat>, sym: Sym, i: nat)
    requires i < |rows|
  {
    sym in pos && pos[sym] == |LocalAddrs(rows[..i + 1], sym.name)|
  }

  ghost predicate InfoOk(cfg: Config, rows: seq<Row>, info: Info) {
    && PositionsOk(cfg, rows, info.localSympos)
    && (forall sym :: sym in info.inVmlinux <==> HasLocal(cfg, rows, sym) || HasGlobal(cfg, rows, sym))
    && (forall sym :: sym in info.mangled <==> HasMangled(cfg, rows, sym))
    && (forall sym :: sym in info.exported <==> HasExported(cfg, rows, sym))
  }

  // Adding one row adds what that row stands for.
  lemma OneMoreRow(cfg: Config, rows: seq<Row>, row: Row)
    ensures forall sym :: HasLocal(cfg, rows + [row], sym) <==>
      HasLocal(cfg, rows, sym) || LocalSym(cfg, FileAfter(cfg, rows), row) == Some(sym)
    ensures forall sym :: HasGlobal(cfg, rows + [row], sym) <==>
      HasGlobal(cfg, rows, sym) || GlobalSym(cfg, row) == Some(sym)
    ensures forall sym :: HasMangled(cfg, rows + [row], sym) <==>
      HasMangled(cfg, rows, sym) || MangledSym(FileAfter(cfg, rows), row) == Some(sym)
    ensures forall sym :: HasExported(cfg, rows + [row], sym) <==>
      HasExported(cfg, rows, sym) || ExportedSym(cfg, FileAfter(cfg, rows), row) == Some(sym)
  {
    var more := rows + [row];
    assert forall i :: 0 <= i < |rows| ==> more[i] == rows[i] && more[..i] == rows[..i];
    assert more[|rows|] == row && more[..|rows|] == rows;
    forall sym
      ensures HasLocal(cfg, more, sym) <==>
        HasLocal(cfg, rows, sym) || LocalSym(cfg, FileAfter(cfg, rows), row) == Some(sym)
    {
      assert forall i :: 0 <= i < |rows| ==> LocalAt(cfg, more, i) == LocalAt(cfg, rows, i);
      assert LocalAt(cfg, more, |rows|) == LocalSym(cfg, FileAfter(cfg, rows), row);
    }
    OneMoreMangled(cfg, rows, row);
    OneMoreExported(cfg, rows, row);
  }

  lemma OneMoreMangled(cfg: Config, rows: seq<Row>, row: Row)
    ensures forall sym :: HasMangled(cfg, rows + [row], sym) <==>
      HasMangled(cfg, rows, sym) || MangledSym(FileAfter(cfg, rows), row) == Some(sym)
  {
    var more := rows + [row];
    assert forall i :: 0 <= i < |rows| ==> more[i] == rows[i] && more[..i] == rows[..i];
    assert more[|rows|] == row && more[..|rows|] == rows;
    forall sym
      ensures HasMangled(cfg, more, sym) <==>
        HasMangled(cfg, rows, sym) || MangledSym(FileAfter(cfg, rows), row) == Some(sym)
    {
      if HasMangled(cfg, rows, sym) {
        var i :| 0 <= i < |rows| && MangledSym(FileAfter(cfg, rows[..i]), rows[i]) == Some(sym);
        assert MangledSym(FileAfter(cfg, more[..i]), more[i]) == Some(sym);
      }
    }
  }

  lemma OneMoreExported(cfg: Config, rows: seq<Row>, row: Row)
    ensures forall sym :: HasExported(cfg, rows + [row], sym) <==>
      HasExported(cfg, rows, sym) || ExportedSym(cfg, FileAfter(cfg, rows), row) == Some(sym)
  {
    var more := rows + [row];
    assert forall i :: 0 <= i < |rows| ==> more[i] == rows[i] && more[..i] == rows[..i];
    assert more[|rows|] == row && more[..|rows|] == rows;
    forall sym
      ensures HasExported(cfg, more, sym) <==>
        HasExported(cfg, rows, sym) || ExportedSym(cfg, FileAfter(cfg, rows), row) == Some(sym)
    {
      if HasExported(cfg, rows, sym) {
        var i :| 0 <= i < |rows| && ExportedSym(cfg, FileAfter(cfg, rows[..i]), rows[i]) == Some(sym);
        assert ExportedSym(cfg, FileAfter(cfg, more[..i]), more[i]) == Some(sym);
      }
    }
  }

  // The recorded positions after one more row, `n` being the number of local
  // functions with its name so far.
  function WithPosition(cfg: Config, file: Option<string>, row: Row, pos: map<Sym, nat>, n: nat): map<Sym, nat> {
    match LocalSym(cfg, file, row)
    case None => pos
    case Some(sym) => pos[sym := n]
  }

  // One more row keeps every recorded position, but for the signature it stands for.
  lemma OneMorePosition(cfg: Config, rows: seq<Row>, row: Row, pos: map<Sym, nat>, n: nat)
    requires PositionsOk(cfg, rows, pos)
    requires row.Row? ==> n == |LocalAddrs(rows + [row], row.key)|
    ensures PositionsOk(cfg, rows + [row], WithPosition(cfg, FileAfter(cfg, rows), row, pos, n))
  {
    OneMoreRow(cfg, rows, row);
    forall sym, i: nat | LastLocal(cfg, rows + [row], sym, i)
      ensures PositionAt(rows + [row], WithPosition(cfg, FileAfter(cfg, rows), row, pos, n), sym, i)
    {
      OneLastPosition(cfg, rows, row, pos, n, sym, i);
    }
  }

  lemma OneLastPosition(cfg: Config, rows: seq<Row>, row: Row, pos: map<Sym, nat>, n: nat, sym: Sym, i: nat)
    requires PositionsOk(cfg, rows, pos)
    requires row.Row? ==> n == |LocalAddrs(rows + [row], row.key)|
    requires LastLocal(cfg, rows + [row], sym, i)
    ensures PositionAt(rows + [row], WithPosition(cfg, FileAfter(cfg, rows), row, pos, n), sym, i)
  {
    var more := rows + [row];
    assert more[..|rows|] == rows;
    assert LocalAt(cfg, more, |rows|) == LocalSym(cfg, FileAfter(cfg, rows), row);
    if i == |rows| {
      assert more[..i + 1] == more;
    } else {
      LastLocalBefore(cfg, rows, row, sym, i);
      assert PositionAt(rows, pos, sym, i);
      assert more[..i + 1] == rows[..i + 1];
    }
  }

  lemma LastLocalBefore(cfg: Config, rows: seq<Row>, row: Row, sym: Sym, i: nat)
    requires i < |rows| && LastLocal(cfg, rows + [row], sym, i)
    ensures LastLocal(cfg, rows, sym, i)
  {
    var more := rows + [row];
    forall j | 0 <= j < |rows| ensures LocalAt(cfg, more, j) == LocalAt(cfg, rows, j) {
      assert more[..j] == rows[..j];
    }
  }

  // The table is read before any FILE row has named the file.
  ghost predicate Nameless(cfg: Config, rows: seq<Row>) {
    exists i :: 0 <= i < |rows| && NeedsFile(rows[i]) && FileAfter(cfg, rows[..i]) == None
  }

  // One turn of the loop on everything but the local positions.
  function WithRow(cfg: Config, file: Option<string>, row: Row, info: Info): Info {
    var local, global := LocalSym(cfg, file, row), GlobalSym(cfg, row);
    var mangled, exported := MangledSym(file, row), ExportedSym(cfg, file, row);
    Info(
      info.inVmlinux + (if local.Some? then {local.value} else if global.Some? then {global.value} else {}),
      info.mangled + (if mangled.Some? then {mangled.value} else {}),
      info.localSympos,
      info.exported + (if exported.Some? then {exported.value} else {}))
  }

  lemma WithRowOk(cfg: Config, rows: seq<Row>, row: Row, info: Info, pos: map<Sym, nat>)
    requires InfoOk(cfg, rows, info) && PositionsOk(cfg, rows + [row], pos)
    ensures InfoOk(cfg, rows + [row], WithRow(cfg, FileAfter(cfg, rows), row, info).(localSympos := pos))
  {
    OneMoreRow(cfg, rows, row);
  }

  function PosOf(fnPos: map<string, nat>, key: string): nat {
    if key in fnPos then fnPos[key] else 0
  }

  // What the loop knows after `rows`.
  ghost predicate Reading(cfg: Config, rows: seq<Row>, filename: Option<string>, fnPos: map<string, nat>, info: Info) {
    && filename == FileAfter(cfg, rows)
    && !Nameless(cfg, rows)
    && (forall key :: PosOf(fnPos, key) == |LocalAddrs(rows, key)|)
    && InfoOk(cfg, rows, info)
  }

  lemma NamelessRow(cfg: Config, rows: seq<Row>, row: Row)
    ensures Nameless(cfg, rows + [row]) <==> Nameless(cfg, rows) || (NeedsFile(row) && FileAfter(cfg, rows) == None)
  {
    var more := rows + [row];
    assert more[..|rows|] == rows && more[|rows|] == row;
    assert forall i :: 0 <= i < |rows| ==> more[i] == rows[i] && more[..i] == rows[..i];
    if Nameless(cfg, rows) {
      var i :| 0 <= i < |rows| && NeedsFile(rows[i]) && FileAfter(cfg, rows[..i]) == None;
      assert NeedsFile(more[i]) && FileAfter(cfg, more[..i]) == None;
    }
  }

  lemma {:induction false} NamelessStays(cfg: Config, rows: seq<Row>, n: nat)
    requires n <= |rows| && Nameless(cfg, rows[..n])
    ensures Nameless(cfg, rows)
    decreases |rows| - n
  {
    if n < |rows| {
      NamelessRow(cfg, rows[..n], rows[n]);
      assert rows[..n + 1] == rows[..n] + [rows[n]];
      NamelessStays(cfg, rows, n + 1);
    } else {
      assert rows[..n] == rows;
    }
  }

  lemma CountRow(rows: seq<Row>, row: Row, key: string)
    ensures |LocalAddrs(rows + [row], key)| ==
            |LocalAddrs(rows, key)| + if IsFunc(row) && row.scope == "LOCAL" && row.key == key then 1 else 0
  {
    assert (rows + [row])[..|rows|] == rows;
  }

  // One turn of the loop.
  method ReadRow(cfg: Config, ghost rows: seq<Row>, row: Row, filename: Option<string>, fnPos: map<string, nat>,
                 info: Info)
    returns (filename': Option<string>, fnPos': map<string, nat>, info': Info)
    requires Reading(cfg, rows, filename, fnPos, info)
    requires NeedsFile(row) ==> filename.Some?
    ensures Reading(cfg, rows + [row], filename', fnPos', info')
  {
    filename', fnPos' := filename, fnPos;
    assert (rows + [row])[..|rows|] == rows;
    NamelessRow(cfg, rows, row);
    forall key ensures |LocalAddrs(rows + [row], key)| ==
            |LocalAddrs(rows, key)| + if IsFunc(row) && row.scope == "LOCAL" && row.key == key then 1 else 0
    {
      CountRow(rows, row, key);
    }
    if IsFunc(row) && row.scope == "LOCAL" {
      fnPos' := fnPos[row.key := PosOf(fnPos, row.key) + 1];
    }
    if row.Row? && row.symtype == "FILE" {
      filename' := Some(if row.key in cfg.fullname then cfg.fullname[row.key] else row.key);
    }
    var n := if row.Row? then PosOf(fnPos', row.key) else 0;
    var pos := WithPosition(cfg, filename, row, info.localSympos, n);
    OneMorePosition(cfg, rows, row, info.localSympos, n);
    WithRowOk(cfg, rows, row, info, pos);
    info' := WithRow(cfg, filename, row, info).(localSympos := pos);
  }

  // --------------------------------------------------- the results in their own terms

  // Row `i` is a FILE row.
  ghost predicate FileRow(rows: seq<Row>, i: nat) {
    i < |rows| && rows[i].Row? && rows[i].symtype == "FILE"
  }

  // Row `i` is of a function that has not been optimised into another one.
  ghost predicate PlainFunc(rows: seq<Row>, i: nat, local: bool, name: string) {
    && i < |rows| && rows[i].Row? && rows[i].symtype == "FUNC" && (rows[i].scope == "LOCAL") == local
    && rows[i].key == name && forall k :: 0 <= k < |name| ==> name[k] != '.'
  }

  /** `file` is what the last FILE row before row `i` names, by its full path if that is
      known. */
  ghost predicate InForce(cfg: Config, rows: seq<Row>, i: nat, file: string) {
    exists j :: InForceFrom(cfg, rows, i, file, j)
  }

  ghost predicate InForceFrom(cfg: Config, rows: seq<Row>, i: nat, file: string, j: nat) {
    && j < i <= |rows| && FileRow(rows, j) && (forall k :: j < k < i ==> !FileRow(rows, k))
    && file == if rows[j].key in cfg.fullname then cfg.fullname[rows[j].key] else rows[j].key
  }

  /** A local function stands for the recorded function of its file, or else for one of
      the first module header that has it. */
  ghost predicate StandsForLocal(cfg: Config, rows: seq<Row>, i: nat, sym: Sym) {
    && PlainFunc(rows, i, true, sym.name)
    && exists file :: InForce(cfg, rows, i, file) && file in cfg.allFiles &&
         if Sym(sym.name, file) in cfg.fns then sym.file == file
         else FirstFile(sym.name, cfg.modHdrs, cfg.fns, sym.file)
  }

  /** A global function stands for the one of the first file that has it. */
  ghost predicate StandsForGlobal(cfg: Config, rows: seq<Row>, i: nat, sym: Sym) {
    PlainFunc(rows, i, false, sym.name) && FirstFile(sym.name, cfg.allFiles, cfg.fns, sym.file)
  }

  /** The row is of an optimised version of the function, but not of its cold part. */
  ghost predicate Mangles(cfg: Config, rows: seq<Row>, i: nat, sym: Sym) {
    && i < |rows| && rows[i].Row? && rows[i].symtype == "FUNC" && InForce(cfg, rows, i, sym.file)
    && (exists rest :: rows[i].key == sym.name + "." + rest)
    && (forall k :: 0 <= k < |sym.name| ==> sym.name[k] != '.')
    && (forall k :: 0 <= k <= |rows[i].key| ==> !(".cold" <= rows[i].key[k..]))
  }

  /** The row exports a function of the module files. */
  ghost predicate Exports(cfg: Config, rows: seq<Row>, i: nat, sym: Sym) {
    && i < |rows| && rows[i].Row? && rows[i].symtype == "NOTYPE" && rows[i].key == "__ksymtab_" + sym.name
    && (exists file :: InForce(cfg, rows, i, file) && file in cfg.modFiles)
    && FirstFile(sym.name, cfg.modFiles, cfg.fns, sym.file)
  }

  // Row `i` needs a file, and no FILE row comes before it.
  ghost predicate Fileless(rows: seq<Row>, i: nat) {
    && i < |rows| && rows[i].Row?
    && (rows[i].symtype == "FUNC" || (rows[i].symtype == "NOTYPE" && "__ksymtab_" <= rows[i].key))
    && forall j :: 0 <= j < i ==> !FileRow(rows, j)
  }

  lemma {:induction false} FileAfterMeans(cfg: Config, rows: seq<Row>, n: nat, file: string)
    requires n <= |rows|
    ensures FileAfter(cfg, rows[..n]) == Some(file) <==> InForce(cfg, rows, n, file)
    ensures FileAfter(cfg, rows[..n]) == None <==> forall j :: 0 <= j < n ==> !FileRow(rows, j)
  {
    if n > 0 {
      assert rows[..n][..n - 1] == rows[..n - 1] && rows[..n][n - 1] == rows[n - 1];
      FileAfterMeans(cfg, rows, n - 1, file);
      if FileRow(rows, n - 1) {
        assert InForce(cfg, rows, n, file) ==> FileAfter(cfg, rows[..n]) == Some(file);
        if FileAfter(cfg, rows[..n]) == Some(file) {
          assert InForceFrom(cfg, rows, n, file, n - 1);
        }
      } else {
        var m: nat := n - 1;
        if j: nat :| InForceFrom(cfg, rows, m, file, j) {
          assert InForceFrom(cfg, rows, n, file, j);
        }
        if j: nat :| InForceFrom(cfg, rows, n, file, j) {
          assert InForceFrom(cfg, rows, m, file, j);
        }
      }
    }
  }

  lemma LocalMeans(cfg: Config, rows: seq<Row>, i: nat, sym: Sym)
    requires i < |rows|
    ensures LocalAt(cfg, rows, i) == Some(sym) <==> StandsForLocal(cfg, rows, i, sym)
  {
    var file := FileAfter(cfg, rows[..i]);
    FileInForce(cfg, rows, i);
    GetInAnyIsFirst(sym.name, cfg.modHdrs, cfg.fns, sym.file);
    DotFree(sym.name);
  }

  lemma GlobalMeans(cfg: Config, rows: seq<Row>, i: nat, sym: Sym)
    requires i < |rows|
    ensures GlobalSym(cfg, rows[i]) == Some(sym) <==> StandsForGlobal(cfg, rows, i, sym)
  {
    GetInAnyIsFirst(sym.name, cfg.allFiles, cfg.fns, sym.file);
    DotFree(sym.name);
  }

  lemma MangledMeans(cfg: Config, rows: seq<Row>, i: nat, sym: Sym)
    requires i < |rows|
    ensures MangledSym(FileAfter(cfg, rows[..i]), rows[i]) == Some(sym) <==> Mangles(cfg, rows, i, sym)
  {
    FileInForce(cfg, rows, i);
    DotFree(sym.name);
    if rows[i].Row? {
      ContainsAt(rows[i].key, ".cold");
      StemMeans(rows[i].key, sym.name);
    }
  }

  lemma ExportedMeans(cfg: Config, rows: seq<Row>, i: nat, sym: Sym)
    requires i < |rows|
    ensures ExportedSym(cfg, FileAfter(cfg, rows[..i]), rows[i]) == Some(sym) <==> Exports(cfg, rows, i, sym)
  {
    FileInForce(cfg, rows, i);
    GetInAnyIsFirst(sym.name, cfg.modFiles, cfg.fns, sym.file);
    if rows[i].Row? && KSYMTAB <= rows[i].key {
      assert rows[i].key == KSYMTAB + rows[i].key[|KSYMTAB|..];
    }
    assert (KSYMTAB + sym.name)[|KSYMTAB|..] == sym.name;
  }

  // At most one file is in force, the one that `FileAfter` gives.
  lemma FileInForce(cfg: Config, rows: seq<Row>, i: nat)
    requires i <= |rows|
    ensures forall file :: InForce(cfg, rows, i, file) <==> FileAfter(cfg, rows[..i]) == Some(file)
  {
    forall file ensures InForce(cfg, rows, i, file) <==> FileAfter(cfg, rows[..i]) == Some(file) {
      FileAfterMeans(cfg, rows, i, file);
    }
  }

  lemma DotFree(s: string)
    ensures '.' !in s <==> forall k :: 0 <= k < |s| ==> s[k] != '.'
  {
  }

  // The stem of a name is what stands before its first dot.
  lemma StemMeans(key: string, stem: string)
    ensures '.' in key && BeforeDot(key) == stem <==> '.' !in stem && exists rest :: key == stem + "." + rest
  {
    if '.' in key {
      var s := BeforeDot(key);
      assert key == s + "." + key[|s| + 1..];
    }
    if rest :| '.' !in stem && key == stem + "." + rest {
      assert key[|stem|] == '.';
      var s := BeforeDot(key);
      assert forall k :: 0 <= k < |stem| ==> key[k] == stem[k];
      assert forall k :: 0 <= k < |s| ==> key[k] == s[k];
      assert |s| == |stem|;
    }
  }

  // The local functions called `name` in the first `n` rows.
  ghost function Namesakes(rows: seq<Row>, n: nat, name: string): set<nat>
    requires n <= |rows|
  {
    set j: nat | j < n && PlainFunc(rows, j, true, name)
  }

  lemma {:induction false} LocalAddrsCount(rows: seq<Row>, n: nat, name: string)
    requires n <= |rows|
    ensures |LocalAddrs(rows[..n], name)| == |Namesakes(rows, n, name)|
  {
    if n == 0 {
      assert Namesakes(rows, n, name) == {};
    } else {
      LocalAddrsCount(rows, n - 1, name);
      assert rows[..n][..n - 1] == rows[..n - 1];
      DotFree(name);
      var before := Namesakes(rows, n - 1, name);
      assert Namesakes(rows, n, name) == if PlainFunc(rows, n - 1, true, name) then before + {n - 1} else before;
    }
  }

  // `i` is the last row that stands for the local function.
  ghost predicate LastFor(cfg: Config, rows: seq<Row>, i: nat, sym: Sym) {
    StandsForLocal(cfg, rows, i, sym) && forall j :: i < j < |rows| ==> !StandsForLocal(cfg, rows, j, sym)
  }

  /** The four results, row by row. A local function is in the table of positions with the
      number of its namesakes up to the last row that stands for it. */
  ghost predicate InfoMeans(cfg: Config, rows: seq<Row>, info: Info) {
    && (forall sym :: sym in info.inVmlinux <==>
          (exists i :: StandsForLocal(cfg, rows, i, sym)) || exists i :: StandsForGlobal(cfg, rows, i, sym))
    && (forall sym :: sym in info.mangled <==> exists i :: Mangles(cfg, rows, i, sym))
    && (forall sym :: sym in info.exported <==> exists i :: Exports(cfg, rows, i, sym))
    && (forall sym :: sym in info.localSympos <==> exists i :: StandsForLocal(cfg, rows, i, sym))
    && (forall sym, i: nat :: LastFor(cfg, rows, i, sym) ==>
          sym in info.localSympos && info.localSympos[sym] == |Namesakes(rows, i + 1, sym.name)|)
  }

  lemma HasMeans(cfg: Config, rows: seq<Row>, sym: Sym)
    ensures HasLocal(cfg, rows, sym) <==> exists i :: StandsForLocal(cfg, rows, i, sym)
    ensures HasGlobal(cfg, rows, sym) <==> exists i :: StandsForGlobal(cfg, rows, i, sym)
    ensures HasMangled(cfg, rows, sym) <==> exists i :: Mangles(cfg, rows, i, sym)
    ensures HasExported(cfg, rows, sym) <==> exists i :: Exports(cfg, rows, i, sym)
  {
    forall i: nat | i < |rows|
      ensures LocalAt(cfg, rows, i) == Some(sym) <==> StandsForLocal(cfg, rows, i, sym)
      ensures GlobalSym(cfg, rows[i]) == Some(sym) <==> StandsForGlobal(cfg, rows, i, sym)
      ensures MangledSym(FileAfter(cfg, rows[..i]), rows[i]) == Some(sym) <==> Mangles(cfg, rows, i, sym)
      ensures ExportedSym(cfg, FileAfter(cfg, rows[..i]), rows[i]) == Some(sym) <==> Exports(cfg, rows, i, sym)
    {
      LocalMeans(cfg, rows, i, sym);
      GlobalMeans(cfg, rows, i, sym);
      MangledMeans(cfg, rows, i, sym);
      ExportedMeans(cfg, rows, i, sym);
    }
  }

  lemma LastMeans(cfg: Config, rows: seq<Row>, info: Info, sym: Sym, i: nat)
    requires PositionsOk(cfg, rows, info.localSympos) && LastFor(cfg, rows, i, sym)
    ensures sym in info.localSympos && info.localSympos[sym] == |Namesakes(rows, i + 1, sym.name)|
  {
    forall j: nat | j < |rows| ensures LocalAt(cfg, rows, j) == Some(sym) <==> StandsForLocal(cfg, rows, j, sym) {
      LocalMeans(cfg, rows, j, sym);
    }
    assert LastLocal(cfg, rows, sym, i);
    assert PositionAt(rows, info.localSympos, sym, i);
    LocalAddrsCount(rows, i + 1, sym.name);
  }

  lemma InfoOkMeans(cfg: Config, rows: seq<Row>, info: Info)
    requires InfoOk(cfg, rows, info)
    ensures InfoMeans(cfg, rows, info)
  {
    forall sym
      ensures HasLocal(cfg, rows, sym) <==> exists i :: StandsForLocal(cfg, rows, i, sym)
      ensures HasGlobal(cfg, rows, sym) <==> exists i :: StandsForGlobal(cfg, rows, i, sym)
      ensures HasMangled(cfg, rows, sym) <==> exists i :: Mangles(cfg, rows, i, sym)
      ensures HasExported(cfg, rows, sym) <==> exists i :: Exports(cfg, rows, i, sym)
    {
      HasMeans(cfg, rows, sym);
    }
    forall sym, i: nat | LastFor(cfg, rows, i, sym)
      ensures sym in info.localSympos && info.localSympos[sym] == |Namesakes(rows, i + 1, sym.name)|
    {
      LastMeans(cfg, rows, info, sym, i);
    }
  }

  lemma NamelessMeans(cfg: Config, rows: seq<Row>)
    ensures Nameless(cfg, rows) <==> exists i :: Fileless(rows, i)
  {
    forall i: nat | i < |rows| ensures NeedsFile(rows[i]) && FileAfter(cfg, rows[..i]) == None <==> Fileless(rows, i) {
      FileAfterMeans(cfg, rows, i, "");
    }
  }

  // The loop over the symbol table.
  method ReadRows(cfg: Config, rows: seq<Row>) returns (r: Option<Info>)
    ensures r.None? <==> Nameless(cfg, rows)
    ensures r.Some? ==> InfoOk(cfg, rows, r.value)
  {
    var info := Info({}, {}, map[], {});
    var fnPos: map<string, nat> := map[];
    var filename: Option<string> := None;
    for i := 0 to |rows|
      invariant Reading(cfg, rows[..i], filename, fnPos, info)
    {
      assert rows[..i + 1] == rows[..i] + [rows[i]];
      if NeedsFile(rows[i]) && filename == None {
        NamelessRow(cfg, rows[..i], rows[i]);
        NamelessStays(cfg, rows, i + 1);
        return None;
      }
      filename, fnPos, info := ReadRow(cfg, rows[..i], rows[i], filename, fnPos, info);
    }
    assert rows[..|rows|] == rows;
    return Some(info);
  }

  /** `find_in_vmlinux` on the lines of readelf, the first three of which are headers.
      None stands for the NameError of an unset `filename`. */
  method FindInVmlinux(cfg: Config, lines: seq<Row>) returns (r: Option<Info>)
    ensures var rows := if |lines| > 3 then lines[3..] else [];
            && (r.None? <==> exists i :: Fileless(rows, i))
            && (r.Some? ==> InfoOk(cfg, rows, r.value) && InfoMeans(cfg, rows, r.value))
  {
    var rows := if |lines| > 3 then lines[3..] else [];
    r := ReadRows(cfg, rows);
    NamelessMeans(cfg, rows);
    if r.Some? {
      InfoOkMeans(cfg, rows, r.value);
    }
  }
}
