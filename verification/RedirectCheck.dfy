/** boundary/analyze.py, `check_redirect_mangled`: could an optimised copy of an
    outsider still call the old body of a function that is to be redirected? */
module RedirectCheck {
  import opened CallGraph

  datatype Classes = Classes(schedOutsider: set<Sym>, mangled: set<Sym>, inVmlinux: set<Sym>)

  // A call of `f` from its own file.
  predicate CallsHere(e: MetaEdge, f: Sym) {
    e.to == Some(f) && e.from.file == f.file
  }

  // The caller is optimised as well, so its own callers have to be looked at.
  predicate PassesOn(cls: Classes, caller: Sym) {
    caller in cls.mangled || caller !in cls.inVmlinux
  }

  /** `check_redirect_mangled` under Python's recursion limit: `depth` frames are left,
      and None stands for the RecursionError. */
  function Check(f: Sym, meta: seq<MetaEdge>, cls: Classes, depth: nat): Option<bool>
    decreases depth, |meta| + 1
  {
    if depth == 0 then None else CheckFrom(f, meta, cls, 0, depth)
  }

  // The loop over the edges, from the i-th on.
  function CheckFrom(f: Sym, meta: seq<MetaEdge>, cls: Classes, i: nat, depth: nat): Option<bool>
    requires i <= |meta| && depth > 0
    decreases depth, |meta| - i
  {
    if i == |meta| then Some(false)
    else if !CallsHere(meta[i], f) then CheckFrom(f, meta, cls, i + 1, depth)
    else if meta[i].from in cls.schedOutsider then Some(true)
    else if !PassesOn(cls, meta[i].from) then CheckFrom(f, meta, cls, i + 1, depth)
    else
      match Check(meta[i].from, meta, cls, depth - 1)
      case None => None
      case Some(true) => Some(true)
      case Some(false) => CheckFrom(f, meta, cls, i + 1, depth)
  }

  ghost predicate Call(meta: seq<MetaEdge>, from: Sym, to: Sym) {
    MetaEdge(from, Some(to)) in meta && from.file == to.file
  }

  /** A same-file call chain from a `sched_outsider` whose functions in between are all
      mangled or absent from vmlinux. */
  ghost predicate UnsafeChain(path: seq<Sym>, meta: seq<MetaEdge>, cls: Classes) {
    && |path| >= 2 && path[0] in cls.schedOutsider
    && (forall i :: 0 <= i < |path| - 1 ==> Call(meta, path[i], path[i + 1]))
    && (forall i :: 1 <= i < |path| - 1 ==> path[i] in cls.mangled || path[i] !in cls.inVmlinux)
  }

  ghost predicate Unsafe(f: Sym, meta: seq<MetaEdge>, cls: Classes) {
    exists path :: UnsafeChain(path, meta, cls) && path[|path| - 1] == f
  }

  lemma UnsafeDirect(u: Sym, f: Sym, meta: seq<MetaEdge>, cls: Classes)
    requires Call(meta, u, f) && u in cls.schedOutsider
    ensures Unsafe(f, meta, cls)
  {
    assert UnsafeChain([u, f], meta, cls);
  }

  lemma UnsafeOnward(u: Sym, f: Sym, meta: seq<MetaEdge>, cls: Classes)
    requires Call(meta, u, f) && PassesOn(cls, u) && Unsafe(u, meta, cls)
    ensures Unsafe(f, meta, cls)
  {
    var path :| UnsafeChain(path, meta, cls) && path[|path| - 1] == u;
    var longer := path + [f];
    forall i | 0 <= i < |longer| - 1 ensures Call(meta, longer[i], longer[i + 1]) {
      assert i < |path| - 1 ==> longer[i + 1] == path[i + 1];
    }
    assert UnsafeChain(longer, meta, cls);
  }

  /** Code that was inlined hides its callers: when an outsider calls a function that has
      no copy in vmlinux, whatever that calls in its file is unsafe, and not declared safe. */
  lemma InlinedCallerIsUnsafe(o: Sym, g: Sym, f: Sym, meta: seq<MetaEdge>, cls: Classes, depth: nat)
    requires o in cls.schedOutsider && g !in cls.inVmlinux && o.file == g.file == f.file
    requires MetaEdge(o, Some(g)) in meta && MetaEdge(g, Some(f)) in meta
    ensures Unsafe(f, meta, cls) && Check(f, meta, cls, depth) != Some(false)
  {
    assert UnsafeChain([o, g, f], meta, cls);
    if Check(f, meta, cls, depth).Some? {
      AnswersAreCorrect(f, meta, cls, depth);
    }
  }

  // The answer True is justified.
  lemma {:induction false} TrueIsUnsafe(f: Sym, meta: seq<MetaEdge>, cls: Classes, i: nat, depth: nat)
    requires i <= |meta| && depth > 0 && CheckFrom(f, meta, cls, i, depth) == Some(true)
    ensures Unsafe(f, meta, cls)
    decreases depth, |meta| - i
  {
    var e := meta[i];
    assert CallsHere(e, f) ==> e == MetaEdge(e.from, Some(f));
    if CallsHere(e, f) && e.from in cls.schedOutsider {
      UnsafeDirect(e.from, f, meta, cls);
    } else if CallsHere(e, f) && PassesOn(cls, e.from) && Check(e.from, meta, cls, depth - 1) == Some(true) {
      TrueIsUnsafe(e.from, meta, cls, 0, depth - 1);
      UnsafeOnward(e.from, f, meta, cls);
    } else {
      TrueIsUnsafe(f, meta, cls, i + 1, depth);
    }
  }

  // After the answer False, no caller was an outsider and every one that passes
  // on was answered False as well.
  lemma {:induction false} FalseCallers(f: Sym, meta: seq<MetaEdge>, cls: Classes, i: nat, depth: nat, u: Sym, j: nat)
    requires i <= j < |meta| && depth > 0 && CheckFrom(f, meta, cls, i, depth) == Some(false)
    requires meta[j] == MetaEdge(u, Some(f)) && u.file == f.file
    ensures u !in cls.schedOutsider
    ensures PassesOn(cls, u) ==> Check(u, meta, cls, depth - 1) == Some(false)
    decreases j - i
  {
    if i < j {
      FalseCallers(f, meta, cls, i + 1, depth, u, j);
    }
  }

  lemma {:induction false} FalseIsSafe(path: seq<Sym>, meta: seq<MetaEdge>, cls: Classes, depth: nat)
    requires UnsafeChain(path, meta, cls)
    ensures Check(path[|path| - 1], meta, cls, depth) != Some(false)
    decreases |path|
  {
    var n := |path| - 1;
    if Check(path[n], meta, cls, depth) == Some(false) {
      assert Call(meta, path[n - 1], path[n]);
      var j :| 0 <= j < |meta| && meta[j] == MetaEdge(path[n - 1], Some(path[n]));
      FalseCallers(path[n], meta, cls, 0, depth, path[n - 1], j);
      if n >= 2 {
        assert UnsafeChain(path[..n], meta, cls);
        FalseIsSafe(path[..n], meta, cls, depth - 1);
      }
    }
  }

  /** On every graph and under every recursion limit: whenever the check answers, it
      answers True exactly when an unsafe chain reaches the function. */
  lemma AnswersAreCorrect(f: Sym, meta: seq<MetaEdge>, cls: Classes, depth: nat)
    requires Check(f, meta, cls, depth).Some?
    ensures Check(f, meta, cls, depth).value <==> Unsafe(f, meta, cls)
  {
    if Check(f, meta, cls, depth).value {
      TrueIsUnsafe(f, meta, cls, 0, depth);
    }
    if Unsafe(f, meta, cls) {
      var path :| UnsafeChain(path, meta, cls) && path[|path| - 1] == f;
      FalseIsSafe(path, meta, cls, depth);
    }
  }

  // ------------------------------------------------------------ termination

  // The loop goes past this edge: its caller is no outsider and, if passed on to, is safe.
  ghost predicate PassedOver(e: MetaEdge, v: Sym, meta: seq<MetaEdge>, cls: Classes) {
    CallsHere(e, v) ==> e.from !in cls.schedOutsider && (PassesOn(cls, e.from) ==> !Unsafe(e.from, meta, cls))
  }

  ghost predicate EntersAt(v: Sym, u: Sym, j: nat, meta: seq<MetaEdge>, cls: Classes) {
    && j < |meta| && meta[j] == MetaEdge(u, Some(v)) && u.file == v.file
    && u !in cls.schedOutsider && PassesOn(cls, u)
    && forall i :: 0 <= i < j ==> PassedOver(meta[i], v, meta, cls)
  }

  /** Looking at `v`, the search goes on to its caller `u`, unless it is stuck before: no
      edge that comes earlier in the file ends it. */
  ghost predicate Enters(v: Sym, u: Sym, meta: seq<MetaEdge>, cls: Classes) {
    exists j :: EntersAt(v, u, j, meta, cls)
  }

  /** A set of functions from each of which the search goes on to another one. */
  ghost predicate Trap(s: set<Sym>, meta: seq<MetaEdge>, cls: Classes) {
    forall v :: v in s ==> EntersSome(s, v, meta, cls)
  }

  ghost predicate EntersSome(s: set<Sym>, v: Sym, meta: seq<MetaEdge>, cls: Classes) {
    exists u :: u in s && Enters(v, u, meta, cls)
  }

  ghost predicate Trapped(f: Sym, meta: seq<MetaEdge>, cls: Classes) {
    exists s: set<Sym> :: f in s && Trap(s, meta, cls)
  }

  // A walk that the search makes.
  ghost predicate Walk(w: seq<Sym>, meta: seq<MetaEdge>, cls: Classes) {
    forall i :: 1 <= i < |w| ==> Enters(w[i - 1], w[i], meta, cls)
  }

  // Running out of frames leaves a walk as long as the limit.
  lemma {:induction false} OverflowWalk(f: Sym, meta: seq<MetaEdge>, cls: Classes, depth: nat) returns (w: seq<Sym>)
    requires Check(f, meta, cls, depth) == None
    ensures |w| == depth + 1 && w[0] == f && Walk(w, meta, cls)
    decreases depth
  {
    if depth == 0 {
      w := [f];
    } else {
      var u := StuckAt(f, meta, cls, 0, depth);
      var rest := OverflowWalk(u, meta, cls, depth - 1);
      w := [f] + rest;
      forall k | 1 <= k < |w| ensures Enters(w[k - 1], w[k], meta, cls) {
        assert k > 1 ==> w[k] == rest[k - 1] && w[k - 1] == rest[k - 2];
      }
    }
  }

  // The caller whose search runs out of frames.
  lemma {:induction false} StuckAt(f: Sym, meta: seq<MetaEdge>, cls: Classes, i: nat, depth: nat) returns (u: Sym)
    requires i <= |meta| && depth > 0 && CheckFrom(f, meta, cls, i, depth) == None
    requires forall k :: 0 <= k < i ==> PassedOver(meta[k], f, meta, cls)
    ensures Enters(f, u, meta, cls) && Check(u, meta, cls, depth - 1) == None
    decreases |meta| - i
  {
    var e := meta[i];
    if CallsHere(e, f) && PassesOn(cls, e.from) && Check(e.from, meta, cls, depth - 1) == None {
      u := e.from;
      assert EntersAt(f, u, i, meta, cls);
    } else {
      if CallsHere(e, f) && PassesOn(cls, e.from) {
        AnswersAreCorrect(e.from, meta, cls, depth - 1);
      }
      u := StuckAt(f, meta, cls, i + 1, depth);
    }
  }

  lemma EnteredIsCaller(v: Sym, u: Sym, meta: seq<MetaEdge>, cls: Classes)
    requires Enters(v, u, meta, cls)
    ensures Call(meta, u, v) && PassesOn(cls, u) && u in Callers(meta)
  {
    var j: nat :| EntersAt(v, u, j, meta, cls);
    assert meta[j] in meta;
  }

  ghost function Callers(meta: seq<MetaEdge>): set<Sym> {
    set e | e in meta :: e.from
  }

  // Among more symbols than a set has members, two are the same.
  lemma {:induction false} Pigeonhole(w: seq<Sym>, s: set<Sym>) returns (i: nat, j: nat)
    requires |w| > |s| && forall k :: 0 <= k < |w| ==> w[k] in s
    ensures i < j < |w| && w[i] == w[j]
  {
    var n := |w| - 1;
    if k :| 0 <= k < n && w[k] == w[n] {
      return k, n;
    }
    i, j := Pigeonhole(w[..n], s - {w[n]});
  }

  // A walk longer than there are callers comes back to itself, and so is a trap.
  lemma LongWalkTraps(w: seq<Sym>, meta: seq<MetaEdge>, cls: Classes)
    requires Walk(w, meta, cls) && |w| > |Callers(meta)| + 1
    ensures Trapped(w[0], meta, cls)
  {
    forall k | 1 <= k < |w| ensures w[k] in Callers(meta) {
      EnteredIsCaller(w[k - 1], w[k], meta, cls);
    }
    var i, j := Pigeonhole(w[1..], Callers(meta));
    i, j := i + 1, j + 1;
    var s := set k | 0 <= k < j :: w[k];
    forall v | v in s ensures EntersSome(s, v, meta, cls) {
      var k :| 0 <= k < j && w[k] == v;
      assert Enters(w[k], w[k + 1], meta, cls);
      assert w[k + 1] in s;
    }
    assert w[0] in s && Trap(s, meta, cls);
  }

  // The loop gets to the j-th edge, or runs out of frames before.
  lemma {:induction false} LoopReaches(f: Sym, u: Sym, meta: seq<MetaEdge>, cls: Classes, i: nat, j: nat, depth: nat)
    requires depth > 0 && i <= j && EntersAt(f, u, j, meta, cls)
    requires Check(u, meta, cls, depth - 1) == None
    ensures CheckFrom(f, meta, cls, i, depth) == None
    decreases j - i
  {
    if i < j {
      assert PassedOver(meta[i], f, meta, cls);
      LoopReaches(f, u, meta, cls, i + 1, j, depth);
      var v := meta[i].from;
      if CallsHere(meta[i], f) && PassesOn(cls, v) && Check(v, meta, cls, depth - 1).Some? {
        AnswersAreCorrect(v, meta, cls, depth - 1);
      }
    }
  }

  lemma OverflowSpreads(f: Sym, u: Sym, meta: seq<MetaEdge>, cls: Classes, depth: nat)
    requires depth > 0 && Enters(f, u, meta, cls) && Check(u, meta, cls, depth - 1) == None
    ensures Check(f, meta, cls, depth) == None
  {
    var j: nat :| EntersAt(f, u, j, meta, cls);
    LoopReaches(f, u, meta, cls, 0, j, depth);
  }

  lemma NextInTrap(s: set<Sym>, v: Sym, meta: seq<MetaEdge>, cls: Classes) returns (u: Sym)
    requires Trap(s, meta, cls) && v in s
    ensures u in s && Enters(v, u, meta, cls)
  {
    assert EntersSome(s, v, meta, cls);
    u :| u in s && Enters(v, u, meta, cls);
  }

  // Inside a trap the recursion never comes to an end of its own.
  lemma {:induction false} TrapOverflows(s: set<Sym>, f: Sym, meta: seq<MetaEdge>, cls: Classes, depth: nat)
    requires Trap(s, meta, cls) && f in s
    ensures Check(f, meta, cls, depth) == None
    decreases depth
  {
    if depth > 0 {
      var u := NextInTrap(s, f, meta, cls);
      TrapOverflows(s, u, meta, cls, depth - 1);
      OverflowSpreads(f, u, meta, cls, depth);
    }
  }

  ghost predicate HasWalk(f: Sym, meta: seq<MetaEdge>, cls: Classes, depth: nat) {
    exists w: seq<Sym> :: |w| == depth + 1 && w[0] == f && Walk(w, meta, cls)
  }

  // A walk as long as the limit exhausts it.
  lemma {:induction false} WalkOverflows(w: seq<Sym>, meta: seq<MetaEdge>, cls: Classes)
    requires w != [] && Walk(w, meta, cls)
    ensures Check(w[0], meta, cls, |w| - 1) == None
    decreases |w|
  {
    if |w| > 1 {
      assert Enters(w[0], w[1], meta, cls);
      WalkOverflows(w[1..], meta, cls);
      OverflowSpreads(w[0], w[1], meta, cls, |w| - 1);
    }
  }

  /** Under every recursion limit, the check overflows exactly if the search can make a
      walk as long as the limit, and gives the right answer otherwise. */
  lemma CheckUnderLimit(f: Sym, meta: seq<MetaEdge>, cls: Classes, depth: nat)
    ensures Check(f, meta, cls, depth) == if HasWalk(f, meta, cls, depth) then None else Some(Unsafe(f, meta, cls))
  {
    if HasWalk(f, meta, cls, depth) {
      var w: seq<Sym> :| |w| == depth + 1 && w[0] == f && Walk(w, meta, cls);
      WalkOverflows(w, meta, cls);
    } else if Check(f, meta, cls, depth) == None {
      var w := OverflowWalk(f, meta, cls, depth);
    } else {
      AnswersAreCorrect(f, meta, cls, depth);
    }
  }

  /** Under a recursion limit above the number of callers, the check overflows exactly on
      the trapped functions, and gives the right answer on all others. */
  lemma CheckIsExact(f: Sym, meta: seq<MetaEdge>, cls: Classes, depth: nat)
    requires depth > |Callers(meta)|
    ensures Check(f, meta, cls, depth) == if Trapped(f, meta, cls) then None else Some(Unsafe(f, meta, cls))
  {
    if Trapped(f, meta, cls) {
      var s: set<Sym> :| f in s && Trap(s, meta, cls);
      TrapOverflows(s, f, meta, cls, depth);
    } else if Check(f, meta, cls, depth) == None {
      var w := OverflowWalk(f, meta, cls, depth);
      LongWalkTraps(w, meta, cls);
    } else {
      AnswersAreCorrect(f, meta, cls, depth);
    }
  }

  /** No limit helps: what overflows under one that is above the number of callers
      overflows under all. */
  lemma LimitDoesNotMatter(f: Sym, meta: seq<MetaEdge>, cls: Classes, depth: nat, other: nat)
    requires depth > |Callers(meta)| && Check(f, meta, cls, depth) == None
    ensures Check(f, meta, cls, other) == None
  {
    CheckIsExact(f, meta, cls, depth);
    var s: set<Sym> :| f in s && Trap(s, meta, cls);
    TrapOverflows(s, f, meta, cls, other);
  }

  /** A set of functions each of which is called, in its file, by a member that is
      passed on to: a cycle of such calls, and what it reaches. */
  ghost predicate Cyclic(s: set<Sym>, meta: seq<MetaEdge>, cls: Classes) {
    forall v :: v in s ==> CalledFrom(s, v, meta, cls)
  }

  ghost predicate CalledFrom(s: set<Sym>, v: Sym, meta: seq<MetaEdge>, cls: Classes) {
    exists u :: u in s && Call(meta, u, v) && (u in cls.mangled || u !in cls.inVmlinux)
  }

  ghost predicate OnCycle(f: Sym, meta: seq<MetaEdge>, cls: Classes) {
    exists s: set<Sym> :: f in s && Cyclic(s, meta, cls)
  }

  // From a safe function the search goes on to every caller that is passed on to.
  lemma SafeEnters(v: Sym, u: Sym, meta: seq<MetaEdge>, cls: Classes)
    requires !Unsafe(v, meta, cls) && Call(meta, u, v) && PassesOn(cls, u)
    ensures Enters(v, u, meta, cls) && !Unsafe(u, meta, cls)
  {
    var j :| 0 <= j < |meta| && meta[j] == MetaEdge(u, Some(v));
    SafeCaller(v, meta, cls, j);
    forall i | 0 <= i < j ensures PassedOver(meta[i], v, meta, cls) {
      SafeCaller(v, meta, cls, i);
    }
    assert EntersAt(v, u, j, meta, cls);
  }

  lemma SafeCaller(v: Sym, meta: seq<MetaEdge>, cls: Classes, i: nat)
    requires !Unsafe(v, meta, cls) && i < |meta|
    ensures PassedOver(meta[i], v, meta, cls)
  {
    var e := meta[i];
    if CallsHere(e, v) {
      assert e == MetaEdge(e.from, Some(v)) && Call(meta, e.from, v);
      if e.from in cls.schedOutsider {
        UnsafeDirect(e.from, v, meta, cls);
      }
      if PassesOn(cls, e.from) && Unsafe(e.from, meta, cls) {
        UnsafeOnward(e.from, v, meta, cls);
      }
    }
  }

  // From a safe member of a cycle the search goes on to another one.
  lemma SafeGoesOn(s: set<Sym>, v: Sym, meta: seq<MetaEdge>, cls: Classes) returns (u: Sym)
    requires v in s && Cyclic(s, meta, cls) && !Unsafe(v, meta, cls)
    ensures u in s && !Unsafe(u, meta, cls) && Enters(v, u, meta, cls)
  {
    assert CalledFrom(s, v, meta, cls);
    u :| u in s && Call(meta, u, v) && PassesOn(cls, u);
    SafeEnters(v, u, meta, cls);
  }

  lemma SafeCycleTraps(s: set<Sym>, f: Sym, meta: seq<MetaEdge>, cls: Classes)
    requires f in s && Cyclic(s, meta, cls) && !Unsafe(f, meta, cls)
    ensures Trapped(f, meta, cls)
  {
    var safe := set v | v in s && !Unsafe(v, meta, cls);
    forall v | v in safe ensures EntersSome(safe, v, meta, cls) {
      var u := SafeGoesOn(s, v, meta, cls);
    }
    assert Trap(safe, meta, cls);
  }

  lemma TrapIsCycle(s: set<Sym>, meta: seq<MetaEdge>, cls: Classes)
    requires Trap(s, meta, cls)
    ensures Cyclic(s, meta, cls)
  {
    forall v | v in s ensures CalledFrom(s, v, meta, cls) {
      var u := NextInTrap(s, v, meta, cls);
      EnteredIsCaller(v, u, meta, cls);
    }
  }

  /** Every trap comes from a cycle, so on every graph without one the check is right. */
  lemma TrappedMeansCycle(f: Sym, meta: seq<MetaEdge>, cls: Classes)
    requires Trapped(f, meta, cls)
    ensures OnCycle(f, meta, cls)
  {
    var s: set<Sym> :| f in s && Trap(s, meta, cls);
    TrapIsCycle(s, meta, cls);
  }

  lemma SafeOnCycle(f: Sym, meta: seq<MetaEdge>, cls: Classes)
    requires OnCycle(f, meta, cls) && !Unsafe(f, meta, cls)
    ensures Trapped(f, meta, cls)
  {
    var s: set<Sym> :| f in s && Cyclic(s, meta, cls);
    SafeCycleTraps(s, f, meta, cls);
  }

  /** A safe function is declared safe exactly when no cycle reaches it. */
  lemma SafeAnswered(f: Sym, meta: seq<MetaEdge>, cls: Classes, depth: nat)
    requires depth > |Callers(meta)|
    ensures Check(f, meta, cls, depth) == Some(false) <==> !Unsafe(f, meta, cls) && !OnCycle(f, meta, cls)
  {
    CheckIsExact(f, meta, cls, depth);
    if !Unsafe(f, meta, cls) {
      if OnCycle(f, meta, cls) {
        SafeOnCycle(f, meta, cls);
      } else if Trapped(f, meta, cls) {
        TrappedMeansCycle(f, meta, cls);
      }
    }
  }

  // A chain of callers, each of which is passed on to.
  ghost predicate CallerChain(w: seq<Sym>, meta: seq<MetaEdge>, cls: Classes) {
    forall i :: 1 <= i < |w| ==> Call(meta, w[i], w[i - 1]) && (w[i] in cls.mangled || w[i] !in cls.inVmlinux)
  }

  ghost predicate HasCallerChain(f: Sym, meta: seq<MetaEdge>, cls: Classes, depth: nat) {
    exists w: seq<Sym> :: |w| == depth + 1 && w[0] == f && CallerChain(w, meta, cls)
  }

  // From a safe function the search makes every chain of callers.
  lemma {:induction false} SafeChainWalks(w: seq<Sym>, meta: seq<MetaEdge>, cls: Classes, n: nat)
    requires n < |w| && CallerChain(w, meta, cls) && !Unsafe(w[0], meta, cls)
    ensures !Unsafe(w[n], meta, cls) && forall i :: 1 <= i <= n ==> Enters(w[i - 1], w[i], meta, cls)
  {
    if n > 0 {
      SafeChainWalks(w, meta, cls, n - 1);
      SafeEnters(w[n - 1], w[n], meta, cls);
    }
  }

  /** Under every recursion limit, a function is declared safe exactly if it is safe and
      has no chain of passed-on callers as long as the limit. */
  lemma SafeUnderLimit(f: Sym, meta: seq<MetaEdge>, cls: Classes, depth: nat)
    ensures Check(f, meta, cls, depth) == Some(false) <==>
      !Unsafe(f, meta, cls) && !HasCallerChain(f, meta, cls, depth)
  {
    CheckUnderLimit(f, meta, cls, depth);
    if !Unsafe(f, meta, cls) && HasCallerChain(f, meta, cls, depth) {
      var w: seq<Sym> :| |w| == depth + 1 && w[0] == f && CallerChain(w, meta, cls);
      SafeChainWalks(w, meta, cls, depth);
      assert Walk(w, meta, cls);
    }
    if HasWalk(f, meta, cls, depth) {
      var w: seq<Sym> :| |w| == depth + 1 && w[0] == f && Walk(w, meta, cls);
      forall i | 1 <= i < |w| ensures Call(meta, w[i], w[i - 1]) && PassesOn(cls, w[i]) {
        EnteredIsCaller(w[i - 1], w[i], meta, cls);
      }
      assert CallerChain(w, meta, cls);
    }
  }

  /** A mangled function that merely calls itself is safe, and yet overflows the stack
      under every recursion limit. */
  lemma SelfCallOverflows(f: Sym, depth: nat)
    ensures var meta, cls := [MetaEdge(f, Some(f))], Classes({}, {f}, {f});
            !Unsafe(f, meta, cls) && Check(f, meta, cls, depth) == None
  {
    var meta, cls := [MetaEdge(f, Some(f))], Classes({}, {f}, {f});
    assert EntersAt(f, f, 0, meta, cls);
    assert EntersSome({f}, f, meta, cls) && Trap({f}, meta, cls);
    TrapOverflows({f}, f, meta, cls, depth);
  }

  /** On a function that is unsafe, whether the check says so or overflows may depend on
      the order in which its callers are listed. */
  lemma EdgeOrderMatters(f: Sym, o: Sym, depth: nat)
    requires f != o && f.file == o.file && depth > 0
    ensures var cls := Classes({o}, {f}, {f, o});
            && Check(f, [MetaEdge(o, Some(f)), MetaEdge(f, Some(f))], cls, depth) == Some(true)
            && Check(f, [MetaEdge(f, Some(f)), MetaEdge(o, Some(f))], cls, depth) == None
  {
    var cls := Classes({o}, {f}, {f, o});
    var meta := [MetaEdge(f, Some(f)), MetaEdge(o, Some(f))];
    assert EntersAt(f, f, 0, meta, cls);
    assert EntersSome({f}, f, meta, cls) && Trap({f}, meta, cls);
    TrapOverflows({f}, f, meta, cls, depth);
  }
}
