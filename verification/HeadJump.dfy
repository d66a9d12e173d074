/** src/head_jump.h on x86-64: the head of a kernel function is overwritten by a
    five-byte relative jump into the module, and later put back. */
module HeadJump {
  import opened Words

  const HEAD_LEN: nat := 5
  const CALL: Byte := 0xe8
  const JMP: Byte := 0xe9
  const TWO_TO_32: int := 0x1_0000_0000
  const TWO_TO_31: int := 0x8000_0000

  type Head = h: seq<Byte> | |h| == HEAD_LEN witness [0, 0, 0, 0, 0]

  /** One exported function: the address of its kernel and of its module version. */
  datatype Target = Target(orig: Word, mod: Word)

  // ------------------------------------------------------------ instructions

  /** Little-endian bytes of a `long` stored into an `int`. */
  function EncodeInt(v: int): (r: seq<Byte>)
    ensures |r| == 4
  {
    var u := v % TWO_TO_32;
    [u % 0x100, u / 0x100 % 0x100, u / 0x1_0000 % 0x100, u / 0x100_0000]
  }

  function LittleEndian(b0: int, b1: int, b2: int, b3: int): int {
    b0 + b1 * 0x100 + b2 * 0x1_0000 + b3 * 0x100_0000
  }

  lemma EveryLittleEndian(b0: Byte, b1: Byte, b2: Byte, b3: Byte)
    ensures 0 <= LittleEndian(b0, b1, b2, b3) < TWO_TO_32
  {
  }

  // Two's complement reading of 32 bits.
  function Signed(u: int): (r: int)
    requires 0 <= u < TWO_TO_32
    ensures -TWO_TO_31 <= r < TWO_TO_31
  {
    if u < TWO_TO_31 then u else u - TWO_TO_32
  }

  lemma SignedTruncation(v: int)
    ensures Signed(v % TWO_TO_32) == v <==> -TWO_TO_31 <= v < TWO_TO_31
  {
  }

  /** The signed 32-bit number behind the opcode of a head. */
  function Displacement(h: Head): (r: int)
    ensures -TWO_TO_31 <= r < TWO_TO_31
  {
    EveryLittleEndian(h[1], h[2], h[3], h[4]);
    Signed(LittleEndian(h[1], h[2], h[3], h[4]))
  }

  // Where the processor continues after a call or jump found at `at`: addresses wrap.
  function Landing(at: Word, h: Head): Word {
    var next := at + HEAD_LEN + Displacement(h);
    if next >= WORD_LIMIT then next - WORD_LIMIT else if next < 0 then next + WORD_LIMIT else next
  }

  function JumpHead(t: Target): (r: Head) {
    [JMP] + EncodeInt(t.mod - t.orig - HEAD_LEN)
  }

  /** The distance from behind the jump to its target, as a `long`. */
  function Distance(t: Target): (r: int)
    ensures -WORD_LIMIT / 2 <= r < WORD_LIMIT / 2
  {
    var v := t.mod - t.orig - HEAD_LEN;
    if v >= WORD_LIMIT / 2 then v - WORD_LIMIT else if v < -WORD_LIMIT / 2 then v + WORD_LIMIT else v
  }

  predicate InRange(t: Target) {
    -TWO_TO_31 <= Distance(t) < TWO_TO_31
  }

  // A whole word does not matter to an int.
  lemma WholeWords(v: int)
    ensures (v + WORD_LIMIT) % TWO_TO_32 == (v - WORD_LIMIT) % TWO_TO_32 == v % TWO_TO_32
  {
  }

  lemma EncodedBytes(v: int)
    ensures var e := EncodeInt(v);
            LittleEndian(e[0], e[1], e[2], e[3]) == v % TWO_TO_32
  {
    var u := v % TWO_TO_32;
    assert u == u % 0x100 + 0x100 * (u / 0x100);
    assert u / 0x100 == u / 0x100 % 0x100 + 0x100 * (u / 0x1_0000);
    assert u / 0x1_0000 == u / 0x1_0000 % 0x100 + 0x100 * (u / 0x100_0000);
  }

  // What the head holds is the distance, cut to 32 bits.
  lemma JumpDisplacement(t: Target)
    ensures Displacement(JumpHead(t)) == Signed(Distance(t) % TWO_TO_32)
  {
    var v := t.mod - t.orig - HEAD_LEN;
    EncodedDisplacement(JumpHead(t), v);
    DistanceDigits(t);
  }

  lemma DistanceDigits(t: Target)
    ensures Distance(t) % TWO_TO_32 == (t.mod - t.orig - HEAD_LEN) % TWO_TO_32
  {
    WholeWords(t.mod - t.orig - HEAD_LEN);
  }

  lemma EncodedDisplacement(h: Head, v: int)
    requires h[1..] == EncodeInt(v)
    ensures Displacement(h) == Signed(v % TWO_TO_32)
  {
    EncodedBytes(v);
    assert forall i :: 1 <= i < HEAD_LEN ==> h[i] == h[1..][i - 1];
  }

  /** The installed jump lands on the module function exactly when the distance, as a
      64-bit number, fits the signed 32-bit displacement. */
  lemma JumpLands(t: Target)
    ensures JumpHead(t)[0] == JMP
    ensures Landing(t.orig, JumpHead(t)) == t.mod <==> InRange(t)
  {
    JumpDisplacement(t);
    SignedTruncation(Distance(t));
    DistanceLands(t, Displacement(JumpHead(t)));
  }

  lemma DistanceLands(t: Target, d: int)
    requires -TWO_TO_31 <= d < TWO_TO_31
    ensures var next := t.orig + HEAD_LEN + d;
            t.mod in {next, next - WORD_LIMIT, next + WORD_LIMIT} <==> d == Distance(t)
  {
  }

  // -------------------------------------------------------------------- text

  function Patch(text: seq<Byte>, at: nat, h: Head): (r: seq<Byte>)
    requires at + HEAD_LEN <= |text|
    ensures |r| == |text|
    ensures forall x :: 0 <= x < |text| ==> r[x] == if at <= x < at + HEAD_LEN then h[x - at] else text[x]
  {
    text[..at] + h + text[at + HEAD_LEN..]
  }

  function HeadAt(text: seq<Byte>, at: nat): (r: Head)
    requires at + HEAD_LEN <= |text|
  {
    text[at..at + HEAD_LEN]
  }

  /** Every kernel function named in `targets` has its head inside the text that
      is mapped at `base`. */
  ghost predicate Mapped(base: int, size: nat, targets: seq<Target>) {
    forall t :: t in targets ==> base <= t.orig && t.orig - base + HEAD_LEN <= size
  }

  // `jump_install` and `jump_remove`: write `heads[i]` over function i, in order.
  ghost function Overwrite(base: int, text: seq<Byte>, targets: seq<Target>, heads: seq<Head>): (r: seq<Byte>)
    requires |targets| == |heads| && Mapped(base, |text|, targets)
    ensures |r| == |text|
  {
    if targets == [] then text
    else
      var n := |targets| - 1;
      Patch(Overwrite(base, text, targets[..n], heads[..n]), targets[n].orig - base, heads[n])
  }

  function JumpHeads(targets: seq<Target>): (r: seq<Head>)
    ensures |r| == |targets|
  {
    seq(|targets|, i requires 0 <= i < |targets| => JumpHead(targets[i]))
  }

  function SavedHeads(base: int, text: seq<Byte>, targets: seq<Target>): (r: seq<Head>)
    requires Mapped(base, |text|, targets)
    ensures |r| == |targets|
  {
    seq(|targets|, i requires 0 <= i < |targets| => HeadAt(text, targets[i].orig - base))
  }

  ghost function Installed(base: int, text: seq<Byte>, targets: seq<Target>): (r: seq<Byte>)
    requires Mapped(base, |text|, targets)
    ensures |r| == |text|
  {
    Overwrite(base, text, targets, JumpHeads(targets))
  }

  ghost predicate InHead(base: int, t: Target, x: int) {
    t.orig - base <= x < t.orig - base + HEAD_LEN
  }

  ghost predicate InAnyHead(base: int, targets: seq<Target>, x: int) {
    exists t :: t in targets && InHead(base, t, x)
  }

  // Outside the heads nothing is written.
  lemma {:induction false} OverwriteElsewhere(base: int, text: seq<Byte>, targets: seq<Target>, heads: seq<Head>,
                                              x: nat)
    requires |targets| == |heads| && Mapped(base, |text|, targets)
    requires x < |text| && !InAnyHead(base, targets, x)
    ensures Overwrite(base, text, targets, heads)[x] == text[x]
  {
    if targets != [] {
      var n := |targets| - 1;
      assert targets[n] in targets;
      forall t | t in targets[..n] ensures t in targets {}
      OverwriteElsewhere(base, text, targets[..n], heads[..n], x);
    }
  }

  // A head that no other function overlaps holds what was written there.
  lemma {:induction false} OverwriteAt(base: int, text: seq<Byte>, targets: seq<Target>, heads: seq<Head>, i: nat,
                                       x: nat)
    requires |targets| == |heads| && Mapped(base, |text|, targets) && i < |targets|
    requires InHead(base, targets[i], x) && x < |text|
    requires forall j :: 0 <= j < |targets| && j != i ==> !InHead(base, targets[j], x)
    ensures Overwrite(base, text, targets, heads)[x] == heads[i][x - (targets[i].orig - base)]
  {
    var n := |targets| - 1;
    if i < n {
      OverwriteAt(base, text, targets[..n], heads[..n], i, x);
    }
  }

  // Writing bytes of `text` back: whatever is covered becomes `text` again.
  lemma {:induction false} WriteBack(base: int, text: seq<Byte>, now: seq<Byte>, targets: seq<Target>,
                                     heads: seq<Head>, x: nat)
    requires |text| == |now| && |targets| == |heads| && Mapped(base, |text|, targets)
    requires forall i :: 0 <= i < |targets| ==> heads[i] == HeadAt(text, targets[i].orig - base)
    requires x < |text| && (InAnyHead(base, targets, x) || now[x] == text[x])
    ensures Overwrite(base, now, targets, heads)[x] == text[x]
  {
    if targets != [] {
      var n := |targets| - 1;
      if !InHead(base, targets[n], x) {
        if InAnyHead(base, targets, x) {
          var t :| t in targets && InHead(base, t, x);
          assert t in targets[..n];
        }
        WriteBack(base, text, now, targets[..n], heads[..n], x);
      }
    }
  }

  /** Removing the jumps after installing them gives back the very same text,
      for any set of functions, even with overlapping heads. */
  lemma RemoveUndoesInstall(base: int, text: seq<Byte>, targets: seq<Target>)
    requires Mapped(base, |text|, targets)
    ensures Overwrite(base, Installed(base, text, targets), targets, SavedHeads(base, text, targets)) == text
  {
    var now, saved := Installed(base, text, targets), SavedHeads(base, text, targets);
    forall x | 0 <= x < |text| ensures Overwrite(base, now, targets, saved)[x] == text[x] {
      if !InAnyHead(base, targets, x) {
        OverwriteElsewhere(base, text, targets, JumpHeads(targets), x);
      }
      WriteBack(base, text, now, targets, saved, x);
    }
  }

  ghost predicate HeadsApart(targets: seq<Target>) {
    forall i, j :: 0 <= i < j < |targets| ==>
      targets[i].orig + HEAD_LEN <= targets[j].orig || targets[j].orig + HEAD_LEN <= targets[i].orig
  }

  // A function whose head is its own starts with its jump.
  lemma InstalledHead(base: int, text: seq<Byte>, targets: seq<Target>, i: nat)
    requires Mapped(base, |text|, targets) && HeadsApart(targets) && i < |targets|
    ensures HeadAt(Installed(base, text, targets), targets[i].orig - base) == JumpHead(targets[i])
  {
    var now, at := Installed(base, text, targets), targets[i].orig - base;
    var jump := JumpHead(targets[i]);
    forall x | at <= x < at + HEAD_LEN ensures now[x] == jump[x - at] {
      OverwriteAt(base, text, targets, JumpHeads(targets), i, x);
    }
  }

  /** Installing changes nothing outside the heads, and every function whose
      head is its own then starts with a jump to its module version. */
  lemma InstallRedirects(base: int, text: seq<Byte>, targets: seq<Target>)
    requires Mapped(base, |text|, targets)
    ensures forall x :: 0 <= x < |text| && !InAnyHead(base, targets, x) ==> Installed(base, text, targets)[x] == text[x]
    ensures HeadsApart(targets) ==> forall i :: 0 <= i < |targets| ==>
      var h := HeadAt(Installed(base, text, targets), targets[i].orig - base);
      && h == JumpHead(targets[i])
      && (InRange(targets[i]) <==> Landing(targets[i].orig, h) == targets[i].mod)
  {
    forall x | 0 <= x < |text| && !InAnyHead(base, targets, x) ensures Installed(base, text, targets)[x] == text[x] {
      OverwriteElsewhere(base, text, targets, JumpHeads(targets), x);
    }
    if HeadsApart(targets) {
      forall i | 0 <= i < |targets|
        ensures HeadAt(Installed(base, text, targets), targets[i].orig - base) == JumpHead(targets[i])
        ensures InRange(targets[i]) <==> Landing(targets[i].orig, JumpHead(targets[i])) == targets[i].mod
      {
        InstalledHead(base, text, targets, i);
        JumpLands(targets[i]);
      }
    }
  }

  // -------------------------------------------------------- the jump buffers

  /** A head that already jumps, or calls anything but `__fentry__`, belongs to
      someone else's hook. */
  predicate Hooked(at: Word, h: Head, fentry: Word) {
    (h[0] == CALL && Landing(at, h) != fentry) || h[0] == JMP
  }

  // A call of `target` at the head of a function at `at`.
  ghost predicate IsCallOf(at: Word, h: Head, target: Word) {
    h[0] == 0xe8 && h[1..] == EncodeInt(target - at - 5) && InRange(Target(at, target))
  }

  /** A function is not hooked if it starts with a call of `__fentry__` or with neither a
      call nor a jump; it is if it starts with a call of anything else, or with a jump. */
  lemma HookedByBytes(at: Word, h: Head, fentry: Word, target: Word)
    ensures IsCallOf(at, h, target) ==> (Hooked(at, h, fentry) <==> target != fentry)
    ensures h[0] != 0xe8 && h[0] != 0xe9 ==> !Hooked(at, h, fentry)
    ensures h[0] == 0xe9 ==> Hooked(at, h, fentry)
  {
    if IsCallOf(at, h, target) {
      CallLands(at, h, target);
      CallHooked(at, h, fentry);
    }
  }

  lemma CallHooked(at: Word, h: Head, fentry: Word)
    requires h[0] == 0xe8
    ensures Hooked(at, h, fentry) <==> Landing(at, h) != fentry
  {
  }

  lemma CallLands(at: Word, h: Head, target: Word)
    requires IsCallOf(at, h, target)
    ensures Landing(at, h) == target
  {
    var t := Target(at, target);
    SameDisplacement(h, JumpHead(t), target - at - HEAD_LEN);
    JumpLands(t);
  }

  lemma SameDisplacement(h: Head, g: Head, v: int)
    requires h[1..] == EncodeInt(v) == g[1..]
    ensures Displacement(h) == Displacement(g)
  {
    EncodedDisplacement(h, v);
    EncodedDisplacement(g, v);
  }

  // A head as compilers leave it: a call of `__fentry__`, or code that neither calls nor jumps.
  ghost predicate Ordinary(at: Word, h: Head, fentry: Word) {
    IsCallOf(at, h, fentry) || (h[0] != 0xe8 && h[0] != 0xe9)
  }

  // A head that somebody has changed: a jump, or a call of anything but `__fentry__`.
  ghost predicate Foreign(at: Word, h: Head, fentry: Word) {
    h[0] == 0xe9 || exists target: Word :: target != fentry && IsCallOf(at, h, target)
  }

  ghost predicate AllOrdinary(targets: seq<Target>, heads: seq<Head>, fentry: Word)
    requires |targets| == |heads|
  {
    forall i :: 0 <= i < |targets| ==> Ordinary(targets[i].orig, heads[i], fentry)
  }

  ghost predicate SomeForeign(targets: seq<Target>, heads: seq<Head>, fentry: Word)
    requires |targets| == |heads|
  {
    exists i :: 0 <= i < |targets| && Foreign(targets[i].orig, heads[i], fentry)
  }

  /** What the test over all functions says about their bytes. */
  lemma NoneHookedMeans(targets: seq<Target>, heads: seq<Head>, fentry: Word)
    requires |targets| == |heads|
    ensures AllOrdinary(targets, heads, fentry) ==> NoneHooked(targets, heads, fentry)
    ensures SomeForeign(targets, heads, fentry) ==> !NoneHooked(targets, heads, fentry)
  {
    forall i | 0 <= i < |targets|
      ensures Ordinary(targets[i].orig, heads[i], fentry) ==> !Hooked(targets[i].orig, heads[i], fentry)
      ensures Foreign(targets[i].orig, heads[i], fentry) ==> Hooked(targets[i].orig, heads[i], fentry)
    {
      OrdinaryOrForeign(targets[i].orig, heads[i], fentry);
    }
  }

  lemma OrdinaryOrForeign(at: Word, h: Head, fentry: Word)
    ensures Ordinary(at, h, fentry) ==> !Hooked(at, h, fentry)
    ensures Foreign(at, h, fentry) ==> Hooked(at, h, fentry)
  {
    HookedByBytes(at, h, fentry, fentry);
    if target: Word :| target != fentry && IsCallOf(at, h, target) {
      HookedByBytes(at, h, fentry, target);
    }
  }

  /** Nobody else has hooked any of the functions, whose heads are `heads`. */
  predicate NoneHooked(targets: seq<Target>, heads: seq<Head>, fentry: Word)
    requires |targets| == |heads|
  {
    forall i :: 0 <= i < |targets| ==> !Hooked(targets[i].orig, heads[i], fentry)
  }

  // Where the kernel functions are, in the order of the table.
  function OrigAddrs(targets: seq<Target>): (r: seq<Word>)
    ensures |r| == |targets|
  {
    seq(|targets|, i requires 0 <= i < |targets| => targets[i].orig)
  }

  // Where their module versions are.
  function ModAddrs(targets: seq<Target>): (r: seq<Word>)
    ensures |r| == |targets|
  {
    seq(|targets|, i requires 0 <= i < |targets| => targets[i].mod)
  }

  /** The static buffers `store_jump_*` and `store_orig_*` over the kernel text, and the
      arrays of addresses. */
  class JumpTable {
    const base: int
    const text: array<Byte>
    const targets: seq<Target>
    const storeJump: array<Head>
    const storeOrig: array<Head>
    const vmFuncAddr: array<Word>
    const modFuncAddr: array<Word>

    ghost predicate Valid()
      reads this
    {
      && storeJump != storeOrig && storeJump.Length == storeOrig.Length == |targets|
      && vmFuncAddr != modFuncAddr && vmFuncAddr.Length == modFuncAddr.Length == |targets|
      && Mapped(base, text.Length, targets)
    }

    constructor (base: int, text: array<Byte>, targets: seq<Target>)
      requires Mapped(base, text.Length, targets)
      ensures Valid() && this.base == base && this.text == text && this.targets == targets
      ensures fresh(storeJump) && fresh(storeOrig) && fresh(vmFuncAddr) && fresh(modFuncAddr)
    {
      this.base, this.text, this.targets := base, text, targets;
      storeJump, storeOrig := new Head[|targets|], new Head[|targets|];
      vmFuncAddr, modFuncAddr := new Word[|targets|], new Word[|targets|];
    }

    /** `JUMP_INIT_FUNC`: one entry of each buffer and of each array of addresses; true
        if the function is hooked. */
    method InitFunc(i: nat, fentry: Word) returns (hooked: bool)
      requires Valid() && i < |targets|
      modifies storeJump, storeOrig, vmFuncAddr, modFuncAddr
      ensures 0 <= targets[i].orig - base && targets[i].orig - base + HEAD_LEN <= text.Length
      ensures storeOrig[i] == HeadAt(text[..], targets[i].orig - base) && storeJump[i] == JumpHead(targets[i])
      ensures vmFuncAddr[i] == targets[i].orig && modFuncAddr[i] == targets[i].mod
      ensures forall j :: 0 <= j < |targets| && j != i ==>
        && storeOrig[j] == old(storeOrig[j]) && storeJump[j] == old(storeJump[j])
        && vmFuncAddr[j] == old(vmFuncAddr[j]) && modFuncAddr[j] == old(modFuncAddr[j])
      ensures hooked <==> Hooked(targets[i].orig, HeadAt(text[..], targets[i].orig - base), fentry)
    {
      assert targets[i] in targets;
      var at := targets[i].orig - base;
      vmFuncAddr[i], modFuncAddr[i] := targets[i].orig, targets[i].mod;
      assert text[at..at + HEAD_LEN] == HeadAt(text[..], at);
      storeOrig[i] := text[at..at + HEAD_LEN];
      storeJump[i] := JumpHead(targets[i]);
      hooked := Hooked(targets[i].orig, storeOrig[i], fentry);
    }

    // The entries of all functions, up to the first that is hooked.
    method InitFuncs(fentry: Word) returns (hooked: bool)
      requires Valid()
      modifies storeJump, storeOrig, vmFuncAddr, modFuncAddr
      ensures !hooked <==> NoneHooked(targets, SavedHeads(base, text[..], targets), fentry)
      ensures !hooked ==>
        && storeJump[..] == JumpHeads(targets) && storeOrig[..] == SavedHeads(base, text[..], targets)
        && vmFuncAddr[..] == OrigAddrs(targets) && modFuncAddr[..] == ModAddrs(targets)
    {
      ghost var jumps, saved := JumpHeads(targets), SavedHeads(base, text[..], targets);
      ghost var origs, mods := OrigAddrs(targets), ModAddrs(targets);
      for i := 0 to |targets|
        invariant forall j :: 0 <= j < i ==> storeJump[j] == jumps[j] && storeOrig[j] == saved[j]
        invariant forall j :: 0 <= j < i ==> vmFuncAddr[j] == origs[j] && modFuncAddr[j] == mods[j]
        invariant NoneHooked(targets[..i], saved[..i], fentry)
      {
        hooked := InitFunc(i, fentry);
        if hooked {
          return;
        }
        assert targets[..i + 1] == targets[..i] + [targets[i]] && saved[..i + 1] == saved[..i] + [saved[i]];
      }
      assert targets[..|targets|] == targets && saved[..|targets|] == saved;
      assert storeJump[..] == jumps && storeOrig[..] == saved;
      assert vmFuncAddr[..] == origs && modFuncAddr[..] == mods;
      return false;
    }

    /** `jump_init_all`: fill the buffers and the arrays of addresses; 1 as soon as some
        function is hooked, so never if all start with ordinary code or a call of
        `__fentry__`, and always if some starts with a jump or a call of anything else. */
    method InitAll(fentry: Word) returns (r: int)
      requires Valid()
      modifies storeJump, storeOrig, vmFuncAddr, modFuncAddr
      ensures r == 0 || r == 1
      ensures r == 0 <==> NoneHooked(targets, SavedHeads(base, text[..], targets), fentry)
      ensures AllOrdinary(targets, SavedHeads(base, text[..], targets), fentry) ==> r == 0
      ensures SomeForeign(targets, SavedHeads(base, text[..], targets), fentry) ==> r == 1
      ensures r == 0 ==> storeJump[..] == JumpHeads(targets) && storeOrig[..] == SavedHeads(base, text[..], targets)
      ensures r == 0 ==> vmFuncAddr[..] == OrigAddrs(targets) && modFuncAddr[..] == ModAddrs(targets)
    {
      NoneHookedMeans(targets, SavedHeads(base, text[..], targets), fentry);
      var hooked := InitFuncs(fentry);
      return if hooked then 1 else 0;
    }

    method Memcpy(at: nat, h: Head)
      requires at + HEAD_LEN <= text.Length
      modifies text
      ensures text[..] == Patch(old(text[..]), at, h)
    {
      for j := 0 to HEAD_LEN
        invariant forall x :: 0 <= x < text.Length ==> text[x] == if at <= x < at + j then h[x - at] else old(text[x])
      {
        text[at + j] := h[j];
      }
    }

    method WriteHeads(heads: array<Head>)
      requires Valid() && heads.Length == |targets|
      modifies text
      ensures text[..] == Overwrite(base, old(text[..]), targets, heads[..])
    {
      for i := 0 to |targets|
        invariant text[..] == Overwrite(base, old(text[..]), targets[..i], heads[..i])
      {
        assert targets[i] in targets;
        assert targets[..i + 1][..i] == targets[..i] && heads[..i + 1][..i] == heads[..i];
        Memcpy(targets[i].orig - base, heads[i]);
      }
      assert targets[..|targets|] == targets && heads[..heads.Length] == heads[..];
    }

    /** `jump_install`. */
    method Install()
      requires Valid() && storeJump[..] == JumpHeads(targets)
      modifies text
      ensures text[..] == Installed(base, old(text[..]), targets)
    {
      WriteHeads(storeJump);
    }

    /** `jump_remove`: if the buffers were saved from `original` and `original` was
        then patched, the text is `original` again. */
    method Remove(ghost original: seq<Byte>)
      requires Valid() && |original| == text.Length
      requires storeOrig[..] == SavedHeads(base, original, targets)
      requires text[..] == Installed(base, original, targets)
      modifies text
      ensures text[..] == original
    {
      WriteHeads(storeOrig);
      RemoveUndoesInstall(base, original, targets);
    }
  }

  /** Once installed, the jumps count as hooks: a second module is turned away. */
  lemma InstalledIsHooked(base: int, text: seq<Byte>, targets: seq<Target>, fentry: Word, i: nat)
    requires Mapped(base, |text|, targets) && HeadsApart(targets) && i < |targets|
    ensures Hooked(targets[i].orig, HeadAt(Installed(base, text, targets), targets[i].orig - base), fentry)
  {
    InstallRedirects(base, text, targets);
    JumpLands(targets[i]);
  }
}
