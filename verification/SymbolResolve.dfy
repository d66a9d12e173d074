/** tools/symbol_resolve/symbol_resolve.cpp: give the undefined symbols of the module
    the addresses that kallsyms lists for them. */
module SymbolResolve {
  import opened CallGraph
  import opened Strings
  import opened Vmlinux

  /** A line of kallsyms; `more` says that the line goes on, with the module name. */
  datatype Line = Line(addr: int, kind: char, name: string, more: bool)

  const ORIG := "__orig_"
  const SHN_UNDEF := 0
  const SHN_ABS := 0xfff1

  /** An entry of the module's symbol table. */
  datatype ElfSym = ElfSym(name: string, shndx: int, value: int)

  // ---------------------------------------------------------------- kallsyms

  predicate Skipped(line: Line) {
    (line.name == "kern_path" && line.kind != 'T') || '.' in line.name
  }

  // Everything from here on belongs to modules.
  predicate ReachedModules(line: Line) {
    !Skipped(line) && line.more
  }

  /** The addresses that the kernel proper lists under `name`, in order. */
  function Listed(lines: seq<Line>, name: string): seq<int> {
    if lines == [] || ReachedModules(lines[0]) then []
    else (if !Skipped(lines[0]) && lines[0].name == name then [lines[0].addr] else []) + Listed(lines[1..], name)
  }

  function Lookup(kallsyms: map<string, seq<int>>, name: string): seq<int> {
    if name in kallsyms then kallsyms[name] else []
  }

  // The addresses collected so far, and those of the lines to come.
  ghost predicate Collects(kallsyms: map<string, seq<int>>, rest: seq<Line>, lines: seq<Line>) {
    && (forall name :: name in kallsyms ==> kallsyms[name] != [])
    && (forall name :: Lookup(kallsyms, name) + Listed(rest, name) == Listed(lines, name))
  }

  lemma CollectsNextAt(kallsyms: map<string, seq<int>>, rest: seq<Line>, lines: seq<Line>, name: string)
    requires rest != [] && !ReachedModules(rest[0])
    requires Lookup(kallsyms, name) + Listed(rest, name) == Listed(lines, name)
    ensures Skipped(rest[0]) || name != rest[0].name ==>
      Lookup(kallsyms, name) + Listed(rest[1..], name) == Listed(lines, name)
    ensures !Skipped(rest[0]) && name == rest[0].name ==>
      (Lookup(kallsyms, name) + [rest[0].addr]) + Listed(rest[1..], name) == Listed(lines, name)
  {
    var tail := Listed(rest[1..], name);
    if Skipped(rest[0]) || name != rest[0].name {
      assert [] + tail == tail;
    } else {
      assert Listed(rest, name) == [rest[0].addr] + tail;
      Associates(Lookup(kallsyms, name), [rest[0].addr], tail);
    }
  }

  lemma CollectsNext(kallsyms: map<string, seq<int>>, rest: seq<Line>, lines: seq<Line>)
    requires rest != [] && Collects(kallsyms, rest, lines) && !ReachedModules(rest[0])
    ensures Skipped(rest[0]) ==> Collects(kallsyms, rest[1..], lines)
    ensures !Skipped(rest[0]) ==>
      Collects(kallsyms[rest[0].name := Lookup(kallsyms, rest[0].name) + [rest[0].addr]], rest[1..], lines)
  {
    var more := kallsyms[rest[0].name := Lookup(kallsyms, rest[0].name) + [rest[0].addr]];
    forall name
      ensures Skipped(rest[0]) ==> Lookup(kallsyms, name) + Listed(rest[1..], name) == Listed(lines, name)
      ensures !Skipped(rest[0]) ==> Lookup(more, name) + Listed(rest[1..], name) == Listed(lines, name)
    {
      CollectsNextAt(kallsyms, rest, lines, name);
    }
  }

  lemma CollectsEnd(kallsyms: map<string, seq<int>>, rest: seq<Line>, lines: seq<Line>)
    requires Collects(kallsyms, rest, lines) && (rest == [] || ReachedModules(rest[0]))
    ensures forall name :: name in kallsyms <==> Listed(lines, name) != []
    ensures forall name :: Lookup(kallsyms, name) == Listed(lines, name)
  {
    forall name ensures Lookup(kallsyms, name) == Listed(lines, name) {
      assert Listed(rest, name) == [];
      assert Lookup(kallsyms, name) + [] == Lookup(kallsyms, name);
    }
  }

  /** `load_kallsyms`. */
  method LoadKallsyms(lines: seq<Line>) returns (kallsyms: map<string, seq<int>>)
    ensures forall name :: name in kallsyms <==> Listed(lines, name) != []
    ensures forall name :: Lookup(kallsyms, name) == Listed(lines, name)
  {
    kallsyms := map[];
    ghost var rest := lines;
    for i := 0 to |lines|
      invariant rest == lines[i..]
      invariant Collects(kallsyms, rest, lines)
    {
      var line := lines[i];
      assert rest[0] == line && rest[1..] == lines[i + 1..];
      if !ReachedModules(line) {
        CollectsNext(kallsyms, rest, lines);
      }
      if Skipped(line) {
        rest := rest[1..];
        continue;
      }
      if line.more {
        CollectsEnd(kallsyms, rest, lines);
        return;
      }
      kallsyms := kallsyms[line.name := Lookup(kallsyms, line.name) + [line.addr]];
      rest := rest[1..];
    }
    CollectsEnd(kallsyms, rest, lines);
  }

  // Line `i` counts: its name has no dot, and it is not a data symbol called kern_path.
  ghost predicate Counts(lines: seq<Line>, i: nat) {
    && i < |lines| && (forall k :: 0 <= k < |lines[i].name| ==> lines[i].name[k] != '.')
    && (lines[i].name == "kern_path" ==> lines[i].kind == 'T')
  }

  /** Line `i` lists an address of `name` in the kernel proper: it counts, and no line up
      to it that counts is of a module. */
  ghost predicate ListsAt(lines: seq<Line>, i: nat, name: string) {
    Counts(lines, i) && lines[i].name == name && forall j :: 0 <= j <= i && Counts(lines, j) ==> !lines[j].more
  }

  lemma SkippedMeans(lines: seq<Line>, i: nat)
    requires i < |lines|
    ensures Skipped(lines[i]) <==> !Counts(lines, i)
  {
    assert '.' in lines[i].name <==> exists k :: 0 <= k < |lines[i].name| && lines[i].name[k] == '.';
  }

  // One line less in front.
  lemma ListsBehind(lines: seq<Line>, i: nat, name: string)
    requires lines != [] && !ReachedModules(lines[0]) && i + 1 < |lines|
    ensures ListsAt(lines, i + 1, name) <==> ListsAt(lines[1..], i, name)
  {
    var rest := lines[1..];
    SkippedMeans(lines, 0);
    assert forall j :: 0 <= j < |rest| ==> rest[j] == lines[j + 1];
    forall j: nat | j < |rest| ensures Counts(rest, j) <==> Counts(lines, j + 1) {}
    if ListsAt(rest, i, name) {
      forall j | 0 <= j <= i + 1 && Counts(lines, j) ensures !lines[j].more {
        if j > 0 {
          assert Counts(rest, j - 1);
        }
      }
    }
    if ListsAt(lines, i + 1, name) {
      forall j | 0 <= j <= i && Counts(rest, j) ensures !rest[j].more {
        assert Counts(lines, j + 1);
      }
    }
  }

  // `idx` are the numbers of all lines that list an address of `name`, in order.
  ghost predicate ListingLines(lines: seq<Line>, name: string, idx: seq<nat>) {
    && (forall j, k :: 0 <= j < k < |idx| ==> idx[j] < idx[k])
    && (forall i :: i in idx <==> ListsAt(lines, i, name))
  }

  /** kallsyms has under `name` exactly the addresses of the lines that list one, in order. */
  lemma {:induction false} ListedMeans(lines: seq<Line>, name: string) returns (idx: seq<nat>)
    ensures ListingLines(lines, name, idx) && |idx| == |Listed(lines, name)|
    ensures forall k :: 0 <= k < |idx| ==> idx[k] < |lines| && Listed(lines, name)[k] == lines[idx[k]].addr
  {
    if lines == [] {
      idx := [];
    } else if ReachedModules(lines[0]) {
      SkippedMeans(lines, 0);
      idx := [];
    } else {
      var behind := ListedMeans(lines[1..], name);
      var first := if ListsAt(lines, 0, name) then [0] else [];
      var shifted := seq(|behind|, k requires 0 <= k < |behind| => behind[k] + 1);
      idx := first + shifted;
      ShiftedLines(lines, name, behind, shifted);
      ListedFirst(lines, name);
    }
  }

  lemma ShiftedLines(lines: seq<Line>, name: string, behind: seq<nat>, shifted: seq<nat>)
    requires lines != [] && !ReachedModules(lines[0]) && ListingLines(lines[1..], name, behind)
    requires |shifted| == |behind| && forall k :: 0 <= k < |behind| ==> shifted[k] == behind[k] + 1
    ensures forall i: nat :: i in shifted <==> i > 0 && ListsAt(lines, i, name)
  {
    forall i: nat ensures i in shifted <==> i > 0 && ListsAt(lines, i, name) {
      if 0 < i < |lines| {
        ListsBehind(lines, i - 1, name);
      }
      if i > 0 && i - 1 in behind {
        var k :| 0 <= k < |behind| && behind[k] == i - 1;
        assert shifted[k] == i;
      }
      if i in shifted {
        var k :| 0 <= k < |shifted| && shifted[k] == i;
        assert behind[k] in behind;
      }
    }
  }

  lemma ListedFirst(lines: seq<Line>, name: string)
    requires lines != [] && !ReachedModules(lines[0])
    ensures Listed(lines, name) == (if ListsAt(lines, 0, name) then [lines[0].addr] else []) + Listed(lines[1..], name)
  {
    SkippedMeans(lines, 0);
  }

  // ------------------------------------------------------------- resolution

  /** What becomes of one undefined symbol. */
  datatype Fate = Undefined | Abort | Resolved(value: int)

  // `strstr` for the prefix that marks border functions, then skipping its length.
  function Stripped(name: string): string {
    if Contains(name, ORIG) && |name| >= |ORIG| then name[|ORIG|..] else name
  }

  function FateOf(name: string, kallsyms: map<string, seq<int>>, symposes: map<string, int>): Fate {
    var n := Stripped(name);
    if n !in kallsyms then Undefined
    else
      var addrs := kallsyms[n];
      var sympos := if n in symposes then symposes[n] else 0;
      if sympos == 0 && |addrs| > 1 then Abort
      else if sympos > 0 && |addrs| < sympos then Abort
      else
        var k := if sympos > 0 then sympos - 1 else sympos;
        if 0 <= k < |addrs| then Resolved(addrs[k]) else Abort
  }

  function Fixed(sym: ElfSym, kallsyms: map<string, seq<int>>, symposes: map<string, int>): ElfSym {
    if sym.shndx != SHN_UNDEF then sym
    else
      match FateOf(sym.name, kallsyms, symposes)
      case Resolved(v) => sym.(shndx := SHN_ABS, value := v)
      case _ => sym
  }

  /** The resolution loop of `resolve_ref`. It aborts if and only if some undefined
      symbol has to; otherwise every symbol has met its fate, and defined ones are as
      they were. Positions are never negative, and no kallsyms entry is empty. */
  method ResolveRef(syms: array<ElfSym>, kallsyms: map<string, seq<int>>, symposes: map<string, int>)
    returns (aborted: bool)
    requires forall n :: n in symposes ==> symposes[n] >= 0
    requires forall n :: n in kallsyms ==> kallsyms[n] != []
    modifies syms
    ensures aborted <==> exists i ::
      0 <= i < syms.Length && old(syms[i].shndx) == SHN_UNDEF && FateOf(old(syms[i].name), kallsyms, symposes) == Abort
    ensures !aborted ==> forall i :: 0 <= i < syms.Length ==> syms[i] == Fixed(old(syms[i]), kallsyms, symposes)
    ensures !aborted ==> forall i :: 0 <= i < syms.Length ==>
      if old(syms[i].shndx) == 0 && FateOf(old(syms[i].name), kallsyms, symposes).Resolved?
      then syms[i] == ElfSym(old(syms[i].name), 0xfff1, FateOf(old(syms[i].name), kallsyms, symposes).value)
      else syms[i] == old(syms[i])
  {
    for i := 0 to syms.Length
      invariant forall j :: 0 <= j < i ==> syms[j] == Fixed(old(syms[j]), kallsyms, symposes)
      invariant forall j :: i <= j < syms.Length ==> syms[j] == old(syms[j])
      invariant forall j :: 0 <= j < i && old(syms[j].shndx) == SHN_UNDEF ==>
        FateOf(old(syms[j].name), kallsyms, symposes) != Abort
    {
      var sym := syms[i];
      if sym.shndx != SHN_UNDEF {
        continue;
      }
      var name := Stripped(sym.name);
      if name !in kallsyms {
        continue;
      }
      var addrs := kallsyms[name];
      var sympos := if name in symposes then symposes[name] else 0;
      if sympos == 0 && |addrs| > 1 {
        return true;
      }
      if sympos > 0 && |addrs| < sympos {
        return true;
      }
      if sympos > 0 {
        sympos := sympos - 1;
      }
      syms[i] := ElfSym(sym.name, SHN_ABS, addrs[sympos]);
    }
    return false;
  }

  // -------------------------------------------------------------- agreement

  /** The entries of undefined_functions.h: every undefined symbol with the position
      that the analyzer recorded, 0 for a global one. */
  function Position(info: Info, fn: Sym): nat {
    if fn in info.localSympos then info.localSympos[fn] else 0
  }

  ghost predicate Entries(und: set<Sym>, info: Info, symposes: map<string, int>) {
    && (forall f, g :: f in und && g in und && f.name == g.name ==> f == g)
    && (forall f :: f in und ==> f.name in symposes && symposes[f.name] == Position(info, f))
  }

  /** kallsyms lists the local functions of a name first, in symbol-table order (as far
      as it lists them), and knows every global function that it has the name of. */
  ghost predicate ListsInOrder(rows: seq<Row>, addrs: seq<int>, name: string) {
    && (forall k :: 0 <= k < |addrs| && k < |LocalAddrs(rows, name)| ==> addrs[k] == LocalAddrs(rows, name)[k])
    && (forall i :: 0 <= i < |rows| && IsFunc(rows[i]) && rows[i].scope != "LOCAL" && rows[i].key == name ==>
      rows[i].value in addrs)
  }

  /** The address is that of the function the analyzer meant: the last local function
      it took for `fn`, or else a global one it took for `fn`. */
  ghost predicate Meant(cfg: Config, rows: seq<Row>, fn: Sym, value: int) {
    || (exists i: nat :: LastLocal(cfg, rows, fn, i) && rows[i].Row? && value == rows[i].value)
    || (!HasLocal(cfg, rows, fn) && exists i ::
      0 <= i < |rows| && GlobalSym(cfg, rows[i]) == Some(fn) && value == rows[i].value)
  }

  lemma {:induction false} LocalPrefix(rows: seq<Row>, n: nat, name: string)
    requires n <= |rows|
    ensures LocalAddrs(rows[..n], name) <= LocalAddrs(rows, name)
    decreases |rows|
  {
    if n < |rows| {
      assert rows[..|rows| - 1][..n] == rows[..n];
      LocalPrefix(rows[..|rows| - 1], n, name);
    } else {
      assert rows[..n] == rows;
    }
  }

  lemma {:induction false} LastLocalExists(cfg: Config, rows: seq<Row>, sym: Sym, n: nat) returns (i: nat)
    requires n <= |rows|
    requires HasLocal(cfg, rows, sym)
    requires forall j :: n <= j < |rows| ==> LocalAt(cfg, rows, j) != Some(sym)
    ensures LastLocal(cfg, rows, sym, i)
  {
    if LocalAt(cfg, rows, n - 1) == Some(sym) {
      i := n - 1;
    } else {
      i := LastLocalExists(cfg, rows, sym, n - 1);
    }
  }

  // The row a recorded position counts to.
  lemma PositionCounts(cfg: Config, rows: seq<Row>, info: Info, fn: Sym) returns (i: nat)
    requires InfoOk(cfg, rows, info) && fn in info.localSympos
    ensures LastLocal(cfg, rows, fn, i) && rows[i].Row?
    ensures var p := info.localSympos[fn];
            0 < p <= |LocalAddrs(rows, fn.name)| && LocalAddrs(rows, fn.name)[p - 1] == rows[i].value
  {
    assert HasLocal(cfg, rows, fn);
    i := LastLocalExists(cfg, rows, fn, |rows|);
    assert PositionAt(rows, info.localSympos, fn, i);
    assert rows[..i + 1][..i] == rows[..i];
    LocalPrefix(rows, i + 1, fn.name);
  }

  /** The two tools agree, exactly as far as they do. For every undefined function,
      under its own name or with the prefix of a border function, the resolver leaves the
      symbol undefined, aborts, or writes the address of exactly the function the
      analyzer meant, if and only if the analyzer has found the function in vmlinux or
      kallsyms does not list exactly one address under its name. */
  lemma ToolsAgree(cfg: Config, rows: seq<Row>, info: Info, und: set<Sym>, lines: seq<Line>,
                   kallsyms: map<string, seq<int>>, symposes: map<string, int>, fn: Sym, name: string)
    requires InfoOk(cfg, rows, info) && Entries(und, info, symposes) && Loaded(kallsyms, lines)
    requires fn in und && Stripped(name) == fn.name
    requires ListsInOrder(rows, Listed(lines, fn.name), fn.name)
    ensures RightOrNothing(cfg, rows, fn, FateOf(name, kallsyms, symposes)) <==>
              fn in info.inVmlinux || |Listed(lines, fn.name)| != 1
  {
    var addrs := Listed(lines, fn.name);
    FateByPosition(info, und, lines, kallsyms, symposes, fn, name);
    if fn in info.localSympos {
      var i := PositionCounts(cfg, rows, info, fn);
      LocalIsFound(cfg, rows, info, fn);
    } else if fn in info.inVmlinux {
      GlobalCounts(cfg, rows, info, fn, addrs);
    } else {
      NotInVmlinux(cfg, rows, info, fn);
    }
  }

  // What `load_kallsyms` makes of the lines.
  ghost predicate Loaded(kallsyms: map<string, seq<int>>, lines: seq<Line>) {
    forall n :: Lookup(kallsyms, n) == Listed(lines, n) && (n in kallsyms <==> Listed(lines, n) != [])
  }

  /** An undefined function is resolved exactly if kallsyms lists enough namesakes of a
      local function for its position, or a single address for any other. */
  lemma ResolvedIff(cfg: Config, rows: seq<Row>, info: Info, und: set<Sym>, lines: seq<Line>,
                    kallsyms: map<string, seq<int>>, symposes: map<string, int>, fn: Sym, name: string)
    requires InfoOk(cfg, rows, info) && Entries(und, info, symposes) && Loaded(kallsyms, lines)
    requires fn in und && Stripped(name) == fn.name
    ensures FateOf(name, kallsyms, symposes).Resolved? <==>
      if fn in info.localSympos then info.localSympos[fn] <= |Listed(lines, fn.name)| else |Listed(lines, fn.name)| == 1
  {
    FateByPosition(info, und, lines, kallsyms, symposes, fn, name);
    if fn in info.localSympos {
      var i := PositionCounts(cfg, rows, info, fn);
    }
  }

  // The fate of an entry, in terms of what kallsyms lists and what the analyzer recorded.
  lemma FateByPosition(info: Info, und: set<Sym>, lines: seq<Line>, kallsyms: map<string, seq<int>>,
                       symposes: map<string, int>, fn: Sym, name: string)
    requires Entries(und, info, symposes) && Loaded(kallsyms, lines) && fn in und && Stripped(name) == fn.name
    ensures var addrs, p, fate := Listed(lines, fn.name), Position(info, fn), FateOf(name, kallsyms, symposes);
            && (addrs == [] ==> fate == Undefined)
            && (addrs != [] && p > 0 ==> fate == if p <= |addrs| then Resolved(addrs[p - 1]) else Abort)
            && (addrs != [] && p == 0 ==> fate == if |addrs| == 1 then Resolved(addrs[0]) else Abort)
  {
    assert Lookup(kallsyms, fn.name) == Listed(lines, fn.name);
    assert symposes[fn.name] == Position(info, fn);
  }

  lemma LocalIsFound(cfg: Config, rows: seq<Row>, info: Info, fn: Sym)
    requires InfoOk(cfg, rows, info) && fn in info.localSympos
    ensures fn in info.inVmlinux
  {
    assert HasLocal(cfg, rows, fn);
  }

  // No wrong address is written.
  ghost predicate RightOrNothing(cfg: Config, rows: seq<Row>, fn: Sym, fate: Fate) {
    fate.Resolved? ==> Meant(cfg, rows, fn, fate.value)
  }

  // No address is meant for a function that the analyzer has not found.
  lemma NotInVmlinux(cfg: Config, rows: seq<Row>, info: Info, fn: Sym)
    requires InfoOk(cfg, rows, info) && fn !in info.inVmlinux
    ensures forall value :: !Meant(cfg, rows, fn, value)
  {
    assert !HasLocal(cfg, rows, fn) && !HasGlobal(cfg, rows, fn);
  }

  /** A border function that the compiler has left no copy of, while another file has a
      function of that name: the resolver gives it the address of the stranger. */
  lemma StrangerIsResolved()
    ensures var fn, rows := Sym("foo", "core.c"), [Row(0, "FILE", "LOCAL", "other.c"), Row(7, "FUNC", "LOCAL", "foo")];
            var cfg := Config(map[], ["core.c"], [], ["core.c"], {fn});
            var info, symposes := Info({}, {}, map[], {}), map["foo" := 0];
            && InfoOk(cfg, rows, info) && Entries({fn}, info, symposes) && ListsInOrder(rows, [7], "foo")
            && FateOf("__orig_foo", map["foo" := [7]], symposes) == Resolved(7) && !Meant(cfg, rows, fn, 7)
  {
    var fn, rows := Sym("foo", "core.c"), [Row(0, "FILE", "LOCAL", "other.c"), Row(7, "FUNC", "LOCAL", "foo")];
    var cfg := Config(map[], ["core.c"], [], ["core.c"], {fn});
    var info := Info({}, {}, map[], {});
    StrangerInfo(cfg, rows, info);
    NotInVmlinux(cfg, rows, info, fn);
    StrangerListed(rows);
    StripsPrefixOnly("foo");
    assert "__orig_foo" == ORIG + "foo";
  }

  // None of the two rows stands for a function of the configuration.
  lemma StrangerInfo(cfg: Config, rows: seq<Row>, info: Info)
    requires rows == [Row(0, "FILE", "LOCAL", "other.c"), Row(7, "FUNC", "LOCAL", "foo")]
    requires cfg == Config(map[], ["core.c"], [], ["core.c"], {Sym("foo", "core.c")}) && info == Info({}, {}, map[], {})
    ensures InfoOk(cfg, rows, info)
  {
    assert rows[..1][..0] == [] && rows[..1][0] == rows[0];
    assert FileAfter(cfg, rows[..1]) == Some("other.c");
    forall i | 0 <= i < |rows|
      ensures LocalAt(cfg, rows, i) == None && GlobalSym(cfg, rows[i]) == None
      ensures MangledSym(FileAfter(cfg, rows[..i]), rows[i]) == None
      ensures ExportedSym(cfg, FileAfter(cfg, rows[..i]), rows[i]) == None
    {
      assert i == 0 || i == 1;
    }
  }

  lemma StrangerListed(rows: seq<Row>)
    requires rows == [Row(0, "FILE", "LOCAL", "other.c"), Row(7, "FUNC", "LOCAL", "foo")]
    ensures ListsInOrder(rows, [7], "foo")
  {
    assert rows[..1] == [rows[0]] && rows[..1][..0] == [];
    assert LocalAddrs(rows, "foo") == LocalAddrs(rows[..1], "foo") + [7];
    assert LocalAddrs(rows[..1], "foo") == [];
  }

  // Without a recorded position the function is global, and among the addresses.
  lemma GlobalCounts(cfg: Config, rows: seq<Row>, info: Info, fn: Sym, addrs: seq<int>)
    requires InfoOk(cfg, rows, info) && fn in info.inVmlinux && fn !in info.localSympos
    requires ListsInOrder(rows, addrs, fn.name)
    ensures |addrs| > 0
    ensures |addrs| == 1 ==> Meant(cfg, rows, fn, addrs[0])
  {
    assert HasGlobal(cfg, rows, fn) && !HasLocal(cfg, rows, fn);
    var i :| 0 <= i < |rows| && GlobalSym(cfg, rows[i]) == Some(fn);
    assert rows[i].value in addrs;
  }

  /** The prefix of a border function is removed, and nothing else ever is, exactly when
      the marker occurs nowhere but in front; "my__orig_f" would be looked up as "g_f". */
  lemma StripsPrefixOnly(name: string)
    ensures Stripped(name) == name || ORIG + Stripped(name) == name <==> (Contains(name, ORIG) ==> ORIG <= name)
    ensures Stripped(ORIG + name) == name
    ensures Stripped("my__orig_f") == "g_f"
  {
    if Contains(name, ORIG) {
      ContainsAt(name, ORIG);
    }
    assert ORIG <= ORIG + name;
    var s := "my__orig_f";
    assert s[1..][1..] == ORIG + "f";
  }
}
