/** boundary/analyze.py, `sidecar_inflect`: the functions to keep in the code so
    that the sidecars compile. */
module Sidecar {
  import opened CallGraph

  datatype Outcome = Kept(syms: set<Sym>) | NotInVmlinux | NoSuchMeta

  type Metas = map<string, seq<MetaEdge>>

  function MetaName(sym: Sym): string {
    sym.file + ".boundary"
  }

  // The search follows this edge out of `from`.
  predicate Follows(e: MetaEdge, from: Sym, inVmlinux: set<Sym>) {
    e.to.Some? && e.from == from && e.to.value.file == from.file && e.to.value !in inVmlinux
  }

  /** A same-file call, recorded in the caller's own file, of a function that the
      compiler left no copy of in vmlinux. */
  ghost predicate Calls(metas: Metas, inVmlinux: set<Sym>, from: Sym, to: Sym) {
    && from.file + ".boundary" in metas
    && MetaEdge(from, Some(to)) in metas[from.file + ".boundary"]
    && to.file == from.file && to !in inVmlinux
  }

  ghost predicate CallPath(metas: Metas, inVmlinux: set<Sym>, path: seq<Sym>) {
    forall i :: 0 <= i < |path| - 1 ==> Calls(metas, inVmlinux, path[i], path[i + 1])
  }

  ghost predicate Reaches(metas: Metas, inVmlinux: set<Sym>, from: Sym, to: Sym) {
    exists path :: |path| > 0 && path[0] == from && path[|path| - 1] == to && CallPath(metas, inVmlinux, path)
  }

  lemma ReachesSelf(metas: Metas, inVmlinux: set<Sym>, v: Sym)
    ensures Reaches(metas, inVmlinux, v, v)
  {
    assert CallPath(metas, inVmlinux, [v]);
  }

  lemma ReachesBefore(metas: Metas, inVmlinux: set<Sym>, u: Sym, v: Sym, w: Sym)
    requires Calls(metas, inVmlinux, u, v) && Reaches(metas, inVmlinux, v, w)
    ensures Reaches(metas, inVmlinux, u, w)
  {
    var path :| |path| > 0 && path[0] == v && path[|path| - 1] == w && CallPath(metas, inVmlinux, path);
    var longer := [u] + path;
    forall i | 0 <= i < |longer| - 1 ensures Calls(metas, inVmlinux, longer[i], longer[i + 1]) {
      assert i > 0 ==> longer[i] == path[i - 1];
    }
    assert CallPath(metas, inVmlinux, longer);
  }

  // The search has been through every call of the members of `done`.
  ghost predicate Explored(metas: Metas, inVmlinux: set<Sym>, done: set<Sym>, visited: set<Sym>) {
    forall u, v :: u in done && Calls(metas, inVmlinux, u, v) ==> v in visited
  }

  lemma {:induction false} ExploredHoldsPath(metas: Metas, inVmlinux: set<Sym>, s: set<Sym>, path: seq<Sym>, i: nat)
    requires Explored(metas, inVmlinux, s, s) && CallPath(metas, inVmlinux, path)
    requires i < |path| && path[0] in s
    ensures path[i] in s
  {
    if i > 0 {
      ExploredHoldsPath(metas, inVmlinux, s, path, i - 1);
    }
  }

  /** The set `leftover` that all searches share. */
  class Leftover {
    var syms: set<Sym>

    constructor ()
      ensures syms == {}
    {
      syms := {};
    }

    /** `__sidecar_dfs`. Nothing visited is forgotten; everything new is reachable from
        `start` and has been explored, even when cycles lead back into the search. */
    method Dfs(ghost metas: Metas, meta: seq<MetaEdge>, start: Sym, inVmlinux: set<Sym>, ghost universe: set<Sym>)
      requires MetaName(start) in metas && metas[MetaName(start)] == meta
      requires start in universe && forall e :: e in meta && e.to.Some? ==> e.to.value in universe
      modifies this
      ensures old(syms) <= syms && start in syms
      ensures forall v :: v in syms && v !in old(syms) ==> Reaches(metas, inVmlinux, start, v)
      ensures Explored(metas, inVmlinux, syms - old(syms), syms)
      decreases universe - syms
    {
      if start in syms {
        return;
      }
      ghost var before := syms;
      syms := syms + {start};
      ReachesSelf(metas, inVmlinux, start);
      for i := 0 to |meta|
        invariant before <= syms && start in syms
        invariant forall v :: v in syms && v !in before ==> Reaches(metas, inVmlinux, start, v)
        invariant Explored(metas, inVmlinux, syms - before - {start}, syms)
        invariant forall j :: 0 <= j < i && Follows(meta[j], start, inVmlinux) ==> meta[j].to.value in syms
      {
        if Follows(meta[i], start, inVmlinux) {
          ghost var mid := syms;
          var to := meta[i].to.value;
          assert Calls(metas, inVmlinux, start, to);
          Dfs(metas, meta, to, inVmlinux, universe);
          forall v | v in syms && v !in before ensures Reaches(metas, inVmlinux, start, v) {
            if v !in mid {
              ReachesBefore(metas, inVmlinux, start, to, v);
            }
          }
        }
      }
    }
  }

  /** What `sidecar_inflect` is for: the sidecars and all they reach. */
  ghost predicate IsLeftover(metas: Metas, inVmlinux: set<Sym>, sidecar: set<Sym>, kept: set<Sym>) {
    forall v :: v in kept <==> exists s :: s in sidecar && Reaches(metas, inVmlinux, s, v)
  }

  /** What that comes to: apart from sidecars, only functions without a copy in vmlinux are
      kept, and each of these is called in its file by a kept one. */
  lemma LeftoverHasCallers(metas: Metas, inVmlinux: set<Sym>, sidecar: set<Sym>, kept: set<Sym>, to: Sym)
    requires IsLeftover(metas, inVmlinux, sidecar, kept) && to in kept && to !in sidecar
    ensures to !in inVmlinux && to.file + ".boundary" in metas
    ensures exists from ::
      from in kept && from.file == to.file && MetaEdge(from, Some(to)) in metas[to.file + ".boundary"]
  {
    var s :| s in sidecar && Reaches(metas, inVmlinux, s, to);
    var from := LastCaller(metas, inVmlinux, s, to);
    assert from in kept;
  }

  /** And every function without a copy in vmlinux that a kept one calls in its file is
      kept, as is every sidecar. */
  lemma LeftoverHasCallees(metas: Metas, inVmlinux: set<Sym>, sidecar: set<Sym>, kept: set<Sym>, from: Sym, to: Sym)
    requires IsLeftover(metas, inVmlinux, sidecar, kept)
    ensures from in sidecar ==> from in kept
    ensures from in kept && to !in inVmlinux && to.file == from.file && from.file + ".boundary" in metas ==>
      (MetaEdge(from, Some(to)) in metas[from.file + ".boundary"] ==> to in kept)
  {
    if from in sidecar {
      ReachesSelf(metas, inVmlinux, from);
    }
    if from in kept && Calls(metas, inVmlinux, from, to) {
      var s :| s in sidecar && Reaches(metas, inVmlinux, s, from);
      ReachesAfter(metas, inVmlinux, s, from, to);
    }
  }

  lemma LastCaller(metas: Metas, inVmlinux: set<Sym>, s: Sym, to: Sym) returns (from: Sym)
    requires s != to && Reaches(metas, inVmlinux, s, to)
    ensures Reaches(metas, inVmlinux, s, from) && Calls(metas, inVmlinux, from, to)
  {
    var path :| |path| > 0 && path[0] == s && path[|path| - 1] == to && CallPath(metas, inVmlinux, path);
    var before := path[..|path| - 1];
    from := before[|before| - 1];
    assert CallPath(metas, inVmlinux, before);
  }

  lemma ReachesAfter(metas: Metas, inVmlinux: set<Sym>, u: Sym, v: Sym, w: Sym)
    requires Reaches(metas, inVmlinux, u, v) && Calls(metas, inVmlinux, v, w)
    ensures Reaches(metas, inVmlinux, u, w)
  {
    var path :| |path| > 0 && path[0] == u && path[|path| - 1] == v && CallPath(metas, inVmlinux, path);
    var longer := path + [w];
    forall i | 0 <= i < |longer| - 1 ensures Calls(metas, inVmlinux, longer[i], longer[i + 1]) {
      assert i < |path| - 1 ==> longer[i + 1] == path[i + 1];
    }
    assert CallPath(metas, inVmlinux, longer);
  }

  /** `sidecar_inflect`. The order in which the sidecars are taken does not matter. */
  method SidecarInflect(metas: Metas, sidecar: set<Sym>, inVmlinux: set<Sym>) returns (r: Outcome)
    ensures r.NotInVmlinux? <==> !(sidecar <= inVmlinux)
    ensures r.NoSuchMeta? <==> sidecar <= inVmlinux && exists s :: s in sidecar && s.file + ".boundary" !in metas
    ensures r.Kept? ==> IsLeftover(metas, inVmlinux, sidecar, r.syms)
  {
    var optimized := sidecar - inVmlinux;
    if optimized != {} {
      assert exists s :: s in optimized;
      return NotInVmlinux;
    }
    assert forall s :: s in sidecar ==> s in inVmlinux || s in optimized;
    var leftover := new Leftover();
    var todo := sidecar;
    while todo != {}
      invariant todo <= sidecar && fresh(leftover)
      invariant forall s :: s in sidecar - todo ==> s.file + ".boundary" in metas && s in leftover.syms
      invariant forall v :: v in leftover.syms ==> exists s :: s in sidecar && Reaches(metas, inVmlinux, s, v)
      invariant Explored(metas, inVmlinux, leftover.syms, leftover.syms)
      decreases todo
    {
      var s :| s in todo;
      if MetaName(s) !in metas {
        return NoSuchMeta;
      }
      var meta := metas[MetaName(s)];
      ghost var universe := {s} + set e | e in meta && e.to.Some? :: e.to.value;
      leftover.Dfs(metas, meta, s, inVmlinux, universe);
      todo := todo - {s};
    }
    r := Kept(leftover.syms);
    forall v | exists s :: s in sidecar && Reaches(metas, inVmlinux, s, v) ensures v in r.syms {
      var s :| s in sidecar && Reaches(metas, inVmlinux, s, v);
      var path :| |path| > 0 && path[0] == s && path[|path| - 1] == v && CallPath(metas, inVmlinux, path);
      ExploredHoldsPath(metas, inVmlinux, leftover.syms, path, |path| - 1);
    }
  }
}
