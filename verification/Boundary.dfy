/** boundary/analyze.py, `func_class_arithmetics`: which functions go into the
    module, which stay outside, and where the boundary runs. */
module Boundary {
  import opened CallGraph
  import opened Inflect
  import opened Sidecar

  /** The outcome: done, or the assertion that stopped the analysis. */
  datatype Status = Classified | SidecarOptimized | NoMetaOfSidecar | SidecarOnBorder

  // Callbacks without a copy in vmlinux cannot be redirected; the others, and the
  // interfaces, are the border. Exported functions cannot be internal.
  ghost predicate BorderMeaning(modFns: set<Sym>, interfaces: set<Sym>, exported: set<Sym>, inVmlinux: set<Sym>,
                                callback: set<Sym>, cbOpt: set<Sym>, border: set<Sym>, initialInsider: set<Sym>) {
    && (forall f :: f in border <==> f in interfaces || f in callback)
    && callback <= inVmlinux && cbOpt !! inVmlinux && callback !! interfaces && cbOpt !! interfaces
    && (forall f :: f in initialInsider <==> f in modFns && f !in border && f !in exported)
  }

  // The sidecars and what they reach stay in the code of their files.
  ghost predicate SidecarMeaning(metas: Metas, inVmlinux: set<Sym>, border: set<Sym>, sdcrFns: set<Sym>,
                                 sidecar: set<Sym>, sdcrLeft: set<Sym>, sdcrOut: set<Sym>) {
    && sidecar <= inVmlinux && sidecar !! border
    && IsLeftover(metas, inVmlinux, sidecar, sdcrLeft)
    && (forall f :: f in sdcrOut <==> f in sdcrFns && f !in sdcrLeft)
  }

  // Outsiders are what is left of the module, overridden functions, and optimised
  // callbacks; those without a copy in vmlinux keep their bodies.
  ghost predicate OutsiderMeaning(modFns: set<Sym>, border: set<Sym>, insider: set<Sym>, fakeGlobal: set<Sym>,
                                  cbOpt: set<Sym>, init: set<Sym>, inVmlinux: set<Sym>,
                                  schedOutsider: set<Sym>, outsiderOpt: set<Sym>) {
    && (forall f :: f in schedOutsider <==>
          (f in modFns && f !in insider && (f !in border || f in fakeGlobal)) || f in cbOpt)
    && (forall f :: f in outsiderOpt <==> f in schedOutsider && f !in inVmlinux && f !in init)
  }

  // The symbols of the other outsiders, of the border and of the sidecars are left
  // undefined; functions of vmlinux that change hands are marked as tainted.
  ghost predicate SymbolMeaning(fn: set<Sym>, border: set<Sym>, insider: set<Sym>, sidecar: set<Sym>, init: set<Sym>,
                                inVmlinux: set<Sym>, schedOutsider: set<Sym>,
                                publicUser: set<Sym>, tainted: set<Sym>, und: set<Sym>) {
    && (forall f :: f in und <==> (f in schedOutsider && (f in inVmlinux || f in init)) || f in border || f in sidecar)
    && (forall f :: f in tainted <==> f in inVmlinux && (f in border || f in insider || f in sidecar))
    && (forall f :: f in publicUser <==> f in fn && f !in insider && f !in border)
  }

  lemma OutsidersMean(modFns: set<Sym>, border: set<Sym>, insider: set<Sym>, fakeGlobal: set<Sym>, cbOpt: set<Sym>,
                      init: set<Sym>, inVmlinux: set<Sym>)
    requires insider !! fakeGlobal
    ensures var outsiders := (modFns - insider - border) + cbOpt + fakeGlobal * modFns;
            OutsiderMeaning(modFns, border, insider, fakeGlobal, cbOpt, init, inVmlinux,
                            outsiders, outsiders - inVmlinux - init)
  {
  }

  lemma SymbolsMean(fn: set<Sym>, border: set<Sym>, insider: set<Sym>, sidecar: set<Sym>, init: set<Sym>,
                    inVmlinux: set<Sym>, outsiders: set<Sym>)
    ensures SymbolMeaning(fn, border, insider, sidecar, init, inVmlinux, outsiders,
                          fn - insider - border, (border + insider + sidecar) * inVmlinux,
                          (outsiders - (outsiders - inVmlinux - init)) + border + sidecar)
  {
  }

  lemma BorderMeans(modFns: set<Sym>, interfaces: set<Sym>, exported: set<Sym>, inVmlinux: set<Sym>, callback: set<Sym>)
    ensures var others := callback - interfaces;
            var cbOpt := others - inVmlinux;
            var border := interfaces + (others - cbOpt);
            BorderMeaning(modFns, interfaces, exported, inVmlinux, others - cbOpt, cbOpt, border,
              modFns - border - exported)
  {
  }

  // Two sets with the same functions of vmlinux conflict with the same sidecars.
  lemma SameConflicts(sidecar: set<Sym>, a: set<Sym>, b: set<Sym>, inVmlinux: set<Sym>)
    requires a * inVmlinux == b * inVmlinux && sidecar <= inVmlinux
    ensures sidecar !! a <==> sidecar !! b
  {
    forall f | f in sidecar ensures f in a <==> f in b {
      assert f in a * inVmlinux <==> f in b * inVmlinux;
    }
  }

  // Some sidecar is in a file of which nothing was recorded.
  ghost predicate MissingMeta(sidecar: set<Sym>, metas: Metas) {
    exists s :: s in sidecar && s.file + ".boundary" !in metas
  }

  /** The dictionary of function classes. */
  class FuncClass {
    var fn: set<Sym>
    var init: set<Sym>
    var modFns: set<Sym>
    var callback: set<Sym>
    var sdcrFns: set<Sym>
    var interfaces: set<Sym>
    var fakeGlobal: set<Sym>
    var inVmlinux: set<Sym>
    var exported: set<Sym>

    var cbOpt: set<Sym>
    var border: set<Sym>
    var initialInsider: set<Sym>
    var sidecar: set<Sym>
    var sdcrLeft: set<Sym>
    var sdcrOut: set<Sym>
    var inflectCut: set<Sym>
    var insider: set<Sym>
    var schedOutsider: set<Sym>
    var outsiderOpt: set<Sym>
    var publicUser: set<Sym>
    var tainted: set<Sym>
    var und: set<Sym>

    constructor (fn: set<Sym>, init: set<Sym>, modFns: set<Sym>, callback: set<Sym>, sdcrFns: set<Sym>,
                 interfaces: set<Sym>, fakeGlobal: set<Sym>, inVmlinux: set<Sym>, exported: set<Sym>)
      ensures this.fn == fn && this.init == init && this.modFns == modFns && this.callback == callback
      ensures this.sdcrFns == sdcrFns && this.interfaces == interfaces && this.fakeGlobal == fakeGlobal
      ensures this.inVmlinux == inVmlinux && this.exported == exported
    {
      this.fn, this.init, this.modFns, this.callback, this.sdcrFns := fn, init, modFns, callback, sdcrFns;
      this.interfaces, this.fakeGlobal, this.inVmlinux, this.exported := interfaces, fakeGlobal, inVmlinux, exported;
      cbOpt, border, initialInsider, sidecar, sdcrLeft, sdcrOut, inflectCut := {}, {}, {}, {}, {}, {}, {};
      insider, schedOutsider, outsiderOpt, publicUser, tainted, und := {}, {}, {}, {}, {}, {};
    }

    /** What the classes are, function by function, once the analysis is done. */
    ghost predicate Meaning(edges: seq<Edge>, metas: Metas)
      reads this
    {
      && BorderMeaning(modFns, interfaces, exported, inVmlinux, callback, cbOpt, border, initialInsider)
      && SidecarMeaning(metas, inVmlinux, border, sdcrFns, sidecar, sdcrLeft, sdcrOut)
      && inflectCut == border + init + sidecar
      && insider == Unforced(initialInsider, edges, inflectCut) - init - fakeGlobal
      && OutsiderMeaning(modFns, border, insider, fakeGlobal, cbOpt, init, inVmlinux, schedOutsider, outsiderOpt)
      && SymbolMeaning(fn, border, insider, sidecar, init, inVmlinux, schedOutsider, publicUser, tainted, und)
    }

    // The first five assignments.
    method FixBorder()
      modifies this`callback, this`cbOpt, this`border, this`initialInsider
      ensures BorderMeaning(modFns, interfaces, exported, inVmlinux, callback, cbOpt, border, initialInsider)
      ensures callback + cbOpt == old(callback) - interfaces
      ensures border * inVmlinux == (interfaces + old(callback)) * inVmlinux
    {
      BorderMeans(modFns, interfaces, exported, inVmlinux, callback);
      callback := callback - interfaces;
      cbOpt := callback - inVmlinux;
      callback := callback - cbOpt;
      border := interfaces + callback;
      initialInsider := modFns - border - exported;
    }

    // The insiders, once the sidecars are known not to be on the border.
    method FixInsiders(edges: seq<Edge>)
      modifies this`inflectCut, this`insider
      ensures inflectCut == border + init + sidecar
      ensures insider == Unforced(initialInsider, edges, inflectCut) - init - fakeGlobal
    {
      inflectCut := border + init + sidecar;
      var kept := Inflect.Inflect(initialInsider, edges, inflectCut);
      GreatestIsUnforced(kept, initialInsider, edges, inflectCut);
      insider := kept - init - fakeGlobal;
    }

    // The remaining assignments.
    method FixOutsiders()
      requires insider !! fakeGlobal
      modifies this`schedOutsider, this`outsiderOpt, this`publicUser, this`tainted, this`und
      ensures OutsiderMeaning(modFns, border, insider, fakeGlobal, cbOpt, init, inVmlinux, schedOutsider, outsiderOpt)
      ensures SymbolMeaning(fn, border, insider, sidecar, init, inVmlinux, schedOutsider, publicUser, tainted, und)
    {
      schedOutsider := (modFns - insider - border) + cbOpt;
      schedOutsider := schedOutsider + fakeGlobal * modFns;
      outsiderOpt := schedOutsider - inVmlinux - init;
      publicUser := fn - insider - border;
      tainted := (border + insider + sidecar) * inVmlinux;
      und := (schedOutsider - outsiderOpt) + border + sidecar;
      OutsidersMean(modFns, border, insider, fakeGlobal, cbOpt, init, inVmlinux);
      SymbolsMean(fn, border, insider, sidecar, init, inVmlinux, schedOutsider);
    }

    method Arithmetics(edges: seq<Edge>, metas: Metas, configSidecar: set<Sym>) returns (r: Status)
      modifies this
      ensures fn == old(fn) && init == old(init) && modFns == old(modFns) && sdcrFns == old(sdcrFns)
      ensures interfaces == old(interfaces) && fakeGlobal == old(fakeGlobal)
      ensures inVmlinux == old(inVmlinux) && exported == old(exported)
      ensures r.SidecarOptimized? <==> !(configSidecar <= inVmlinux)
      ensures r.NoMetaOfSidecar? <==> configSidecar <= inVmlinux && MissingMeta(configSidecar, metas)
      ensures BorderMeaning(modFns, interfaces, exported, inVmlinux, callback, cbOpt, border, initialInsider)
      ensures r.Classified? ==> Meaning(edges, metas)
      ensures sidecar == configSidecar && callback + cbOpt == old(callback) - interfaces
      ensures r.SidecarOnBorder? <==>
        configSidecar <= inVmlinux && !MissingMeta(configSidecar, metas) &&
          !(configSidecar !! interfaces + old(callback))
      ensures r.SidecarOnBorder? ==> !(sidecar !! border)
    {
      FixBorder();
      sidecar := configSidecar;
      if sidecar <= inVmlinux {
        SameConflicts(sidecar, border, interfaces + old(callback), inVmlinux);
      }
      r := FixRest(edges, metas);
    }

    // Everything behind the border, once that and the sidecars are fixed.
    method FixRest(edges: seq<Edge>, metas: Metas) returns (r: Status)
      requires BorderMeaning(modFns, interfaces, exported, inVmlinux, callback, cbOpt, border, initialInsider)
      modifies this`sdcrLeft, this`sdcrOut, this`inflectCut, this`insider
      modifies this`schedOutsider, this`outsiderOpt, this`publicUser, this`tainted, this`und
      ensures r.SidecarOptimized? <==> !(sidecar <= inVmlinux)
      ensures r.NoMetaOfSidecar? <==> sidecar <= inVmlinux && MissingMeta(sidecar, metas)
      ensures r.SidecarOnBorder? <==> sidecar <= inVmlinux && !MissingMeta(sidecar, metas) && !(sidecar !! border)
      ensures r.Classified? ==> Meaning(edges, metas)
    {
      r := KeepSidecars(metas);
      if r.Classified? {
        FixInsiders(edges);
        FixOutsiders();
      }
    }

    // The assignments that concern the sidecars, with the two assertions on the way.
    method KeepSidecars(metas: Metas) returns (r: Status)
      modifies this`sdcrLeft, this`sdcrOut
      ensures r.SidecarOptimized? <==> !(sidecar <= inVmlinux)
      ensures r.NoMetaOfSidecar? <==> sidecar <= inVmlinux && MissingMeta(sidecar, metas)
      ensures r.Classified? ==> SidecarMeaning(metas, inVmlinux, border, sdcrFns, sidecar, sdcrLeft, sdcrOut)
      ensures r.SidecarOnBorder? <==> sidecar <= inVmlinux && !MissingMeta(sidecar, metas) && !(sidecar !! border)
    {
      var left := SidecarInflect(metas, sidecar, inVmlinux);
      if left.NotInVmlinux? {
        return SidecarOptimized;
      } else if left.NoSuchMeta? {
        return NoMetaOfSidecar;
      }
      sdcrLeft := left.syms;
      sdcrOut := sdcrFns - sdcrLeft;
      var conflict := sidecar * border;
      if conflict != {} {
        return SidecarOnBorder;
      }
      assert forall f :: f in sidecar && f in border ==> f in conflict;
      return Classified;
    }
  }

  /** Soundness of the boundary: whoever calls an insider is an insider itself, on the
      border, init code, a sidecar, or an overridden weak function. */
  lemma CallersStayInside(c: FuncClass, edges: seq<Edge>, metas: Metas, e: Edge)
    requires c.Meaning(edges, metas) && e in edges && e.to in c.insider
    ensures e.from in c.insider || e.from in c.border || e.from in c.init || e.from in c.sidecar ||
      e.from in c.fakeGlobal
  {
    if e.from !in c.inflectCut && e.from !in c.insider && e.from !in c.fakeGlobal {
      ForcedSpreads(e, c.initialInsider, edges, c.inflectCut);
    }
  }

  /** The classes cover the module, and overlap only where they have to. */
  lemma ClassesPartition(c: FuncClass, edges: seq<Edge>, metas: Metas)
    requires c.Meaning(edges, metas)
    ensures c.modFns <= c.insider + c.border + c.schedOutsider
    ensures c.insider !! c.border && c.insider !! c.exported
    ensures c.insider * c.schedOutsider <= c.cbOpt
    ensures c.border * c.schedOutsider <= c.fakeGlobal
    ensures c.schedOutsider <= c.outsiderOpt + c.und && c.outsiderOpt !! (c.tainted - c.insider)
  {
  }

  /** The boundary keeps as much inside as it can: any set of non-exported,
      non-border module functions whose callers are in the set or cut ends up inside,
      but for init code and overridden functions. */
  lemma InsidersAreMaximal(c: FuncClass, edges: seq<Edge>, metas: Metas, t: set<Sym>)
    requires c.Meaning(edges, metas)
    requires t <= c.modFns - c.border - c.exported && Closed(t, edges, c.border + c.init + c.sidecar)
    ensures t - c.init - c.fakeGlobal <= c.insider
  {
    forall f | f in t ensures !Forced(f, c.initialInsider, edges, c.inflectCut) {
      if Forced(f, c.initialInsider, edges, c.inflectCut) {
        var path :| ForcingPath(path, c.initialInsider, edges, c.inflectCut) && path[|path| - 1] == f;
        ForcedLeaves(path, t, c.initialInsider, edges, c.inflectCut, |path| - 1);
        assert false;
      }
    }
  }
}
