/** boundary/analyze.py, `inflect`: which functions can stay inside the module. */
module Inflect {
  import opened CallGraph

  /** Everybody who calls a member is a member or in the cut set. */
  ghost predicate Closed(s: set<Sym>, edges: seq<Edge>, cut: set<Sym>) {
    forall e :: e in edges && e.to in s ==> e.from in s || e.from in cut
  }

  /** `s` is the greatest closed set of initial insiders. */
  ghost predicate Greatest(s: set<Sym>, initial: set<Sym>, edges: seq<Edge>, cut: set<Sym>) {
    && s <= initial && Closed(s, edges, cut)
    && forall t: set<Sym> :: t <= initial && Closed(t, edges, cut) ==> t <= s
  }

  // `inflect_one`: the callee, if it has to be deleted because of this edge.
  function InflectOne(e: Edge, insiders: set<Sym>, cut: set<Sym>): Option<Sym> {
    if e.to in insiders && e.from !in insiders + cut then Some(e.to) else None
  }

  // The set of all callees to delete in one round.
  function Deletions(edges: seq<Edge>, insiders: set<Sym>, cut: set<Sym>): (r: set<Sym>)
    ensures forall f :: f in r <==> exists e :: e in edges && InflectOne(e, insiders, cut) == Some(f)
  {
    set e | e in edges && InflectOne(e, insiders, cut).Some? :: InflectOne(e, insiders, cut).value
  }

  /** `inflect`: delete callees of outsiders, round by round, until nothing changes.
      It terminates with the greatest closed set, whatever the edges. */
  method Inflect(initial: set<Sym>, edges: seq<Edge>, cut: set<Sym>) returns (insiders: set<Sym>)
    ensures Greatest(insiders, initial, edges, cut)
  {
    insiders := initial;
    while true
      invariant insiders <= initial
      invariant forall t: set<Sym> :: t <= initial && Closed(t, edges, cut) ==> t <= insiders
      decreases insiders
    {
      var delete := Deletions(edges, insiders, cut);
      if delete == {} {
        forall e | e in edges && e.to in insiders ensures e.from in insiders || e.from in cut {
          assert InflectOne(e, insiders, cut) == Some(e.to) ==> e.to in delete;
        }
        return;
      }
      forall t: set<Sym> | t <= initial && Closed(t, edges, cut) ensures t <= insiders - delete {
        forall e | e in edges && e.to in t ensures InflectOne(e, insiders, cut) == None {
          assert e.from in t || e.from in cut;
        }
      }
      assert delete <= insiders;
      insiders := insiders - delete;
    }
  }

  /** The greatest closed set is unique, and it depends only on which edges there
      are, not on their order or repetition. */
  lemma EdgeOrderIrrelevant(s: set<Sym>, t: set<Sym>, initial: set<Sym>, edges: seq<Edge>, others: seq<Edge>,
                            cut: set<Sym>)
    requires Greatest(s, initial, edges, cut) && Greatest(t, initial, others, cut)
    requires forall e :: e in edges <==> e in others
    ensures s == t
  {
    assert Closed(s, others, cut) && Closed(t, edges, cut);
  }

  /** A call path that forces its last function out: it starts at a function that is
      neither an initial insider nor cut, stays among the initial insiders, and passes
      through no cut function on the way. */
  ghost predicate ForcingPath(path: seq<Sym>, initial: set<Sym>, edges: seq<Edge>, cut: set<Sym>) {
    && |path| >= 2
    && path[0] !in initial && path[0] !in cut
    && (forall i :: 0 <= i < |path| - 1 ==> Edge(path[i], path[i + 1]) in edges)
    && (forall i :: 1 <= i < |path| ==> path[i] in initial)
    && (forall i :: 1 <= i < |path| - 1 ==> path[i] !in cut)
  }

  ghost predicate Forced(f: Sym, initial: set<Sym>, edges: seq<Edge>, cut: set<Sym>) {
    exists path :: ForcingPath(path, initial, edges, cut) && path[|path| - 1] == f
  }

  // No function on a forcing path, after the first, is in a closed set of initial insiders.
  lemma {:induction false} ForcedLeaves(path: seq<Sym>, s: set<Sym>, initial: set<Sym>, edges: seq<Edge>,
                                        cut: set<Sym>, i: nat)
    requires ForcingPath(path, initial, edges, cut) && s <= initial && Closed(s, edges, cut)
    requires i < |path|
    ensures path[i] !in s
  {
    if i > 0 {
      ForcedLeaves(path, s, initial, edges, cut, i - 1);
      assert Edge(path[i - 1], path[i]) in edges;
    }
  }

  // A function called by a forced function that is not cut is forced as well.
  lemma ForcedSpreads(e: Edge, initial: set<Sym>, edges: seq<Edge>, cut: set<Sym>)
    requires e in edges && e.to in initial && e.from !in cut
    requires e.from in initial ==> Forced(e.from, initial, edges, cut)
    ensures Forced(e.to, initial, edges, cut)
  {
    var path := [e.from, e.to];
    if e.from in initial {
      var before :| ForcingPath(before, initial, edges, cut) && before[|before| - 1] == e.from;
      path := before + [e.to];
      forall i | 0 <= i < |path| - 1 ensures Edge(path[i], path[i + 1]) in edges {
        assert i < |before| - 1 ==> path[i + 1] == before[i + 1];
      }
    }
    assert ForcingPath(path, initial, edges, cut);
  }

  /** An initial insider is dropped exactly when a forcing call path reaches it. */
  lemma DroppedIffForced(s: set<Sym>, initial: set<Sym>, edges: seq<Edge>, cut: set<Sym>, f: Sym)
    requires Greatest(s, initial, edges, cut) && f in initial
    ensures f !in s <==> Forced(f, initial, edges, cut)
  {
    if Forced(f, initial, edges, cut) {
      var path :| ForcingPath(path, initial, edges, cut) && path[|path| - 1] == f;
      ForcedLeaves(path, s, initial, edges, cut, |path| - 1);
    }
    var free := set g | g in initial && !Forced(g, initial, edges, cut);
    forall e | e in edges && e.to in free ensures e.from in free || e.from in cut {
      if e.from !in free && e.from !in cut {
        ForcedSpreads(e, initial, edges, cut);
      }
    }
    assert free <= s;
  }

  // The initial insiders that no forcing path reaches.
  ghost function Unforced(initial: set<Sym>, edges: seq<Edge>, cut: set<Sym>): set<Sym> {
    set f | f in initial && !Forced(f, initial, edges, cut)
  }

  lemma GreatestIsUnforced(s: set<Sym>, initial: set<Sym>, edges: seq<Edge>, cut: set<Sym>)
    requires Greatest(s, initial, edges, cut)
    ensures s == Unforced(initial, edges, cut)
  {
    forall f | f in initial ensures f !in s <==> Forced(f, initial, edges, cut) {
      DroppedIffForced(s, initial, edges, cut, f);
    }
  }
}
