/** What is stored for the entries of a menu tree, by the worth of what was declared. */
module MenuLaws {
  import opened Symbols
  import opened Exprs
  import opened ExprTransform
  import opened MenuConditions
  import opened MenuForest

  // ----- m in a condition -----

  /** The constant m, standing alone, becomes m && MODULES; any other atom stays. */
  lemma ConstantMIsRewritten(e: Expr, modules: Symbol)
    ensures RewriteM(Sym(Mod), modules) == Bin(And, Sym(Mod), Sym(modules))
    ensures (e.Sym? && e.s != Mod) || e.Comp? ==> RewriteM(e, modules) == e
    ensures e.Not? ==> RewriteM(e, modules) == Not(RewriteM(e.e, modules))
    ensures e.Bin? ==> RewriteM(e, modules) == Bin(e.c, RewriteM(e.l, modules), RewriteM(e.r, modules))
  {
  }

  /** What a declared condition is worth; a missing one is y. */
  function Declares(e: Option<Expr>, modules: Symbol, v: Valuation): Tristate {
    match e case None => YES case Some(x) => Eval(RewriteM(x, modules), v)
  }

  // ----- conditions along the path from the root -----

  /** The least of the declared conditions of the nodes on the path. */
  ghost predicate IsLeastOn(t: Tristate, o: Entries, path: seq<Menu>, modules: Symbol, v: Valuation)
    requires forall n: Menu :: n in path ==> n in o
  {
    (forall n: Menu :: n in path ==> t <= Declares(o[n].dep, modules, v)) &&
    (t == YES || exists n: Menu :: n in path && t == Declares(o[n].dep, modules, v))
  }

  lemma {:induction false} ConjunctionIsLeast(o: Entries, above: Meaning, path: seq<Menu>, modules: Symbol, v: Valuation)
    requires Admissible(v) && forall n: Menu :: n in path ==> n in o
    ensures var t := Amount(Conjunction(o, above, path, modules, v));
      t <= Amount(above) && (forall n: Menu :: n in path ==> t <= Declares(o[n].dep, modules, v)) &&
      (t == Amount(above) || exists n: Menu :: n in path && t == Declares(o[n].dep, modules, v))
    decreases |path|
  {
    if path != [] {
      DeclaredIsWorth(o[path[0]].dep, modules, v);
      ConjunctionIsLeast(o, Worth(o[path[0]], above, modules, v), path[1..], modules, v);
      assert forall n: Menu :: n in path <==> n == path[0] || n in path[1..];
    }
  }

  lemma DeclaredIsWorth(e: Option<Expr>, modules: Symbol, v: Valuation)
    requires Admissible(v)
    ensures Amount(Declared(e, modules, v)) == Declares(e, modules, v)
  {
    if e.Some? { RewriteMMeansModules(e.value, modules, v); }
  }

  /** A property's condition is worth the node's or its own, whichever is less. */
  ghost predicate PropertiesStored(o: Entry, e: Entry, modules: Symbol, v: Valuation) {
    e.sym == o.sym && |e.props| == |o.props| && forall i :: 0 <= i < |e.props| ==> PropertyStored(o.props[i], e.props[i], e.dep, modules, v)
  }

  predicate PropertyStored(o: Property, p: Property, dep: Option<Expr>, modules: Symbol, v: Valuation) {
    p.role == o.role && EvalOpt(p.cond, v) == Min(EvalOpt(dep, v), Declares(o.cond, modules, v))
  }

  /** The condition stored for a node is worth the least of those declared for it and for
      the nodes above it. */
  lemma {:induction false} StoredIsLeast(mode: Mode, o: Entries, f: Forest, m: Menu, v: Valuation)
    requires Admissible(v) && WellMade(o, f, mode.modules, false) && m in Preorder(f)
    ensures var e := Final(mode, o, f).entries[m];
      IsLeastOn(EvalOpt(e.dep, v), o, PathTo(f, m), mode.modules, v) && PropertiesStored(o[m], e, mode.modules, v)
  {
    var e := Final(mode, o, f).entries[m];
    var w := Conjunction(o, None, PathTo(f, m), mode.modules, v);
    FinalConditions(mode, o, f, false, m, v);
    ConjunctionIsLeast(o, None, PathTo(f, m), mode.modules, v);
    forall i | 0 <= i < |e.props|
      ensures PropertyStored(o[m].props[i], e.props[i], e.dep, mode.modules, v)
    {
      DeclaredIsWorth(o[m].props[i].cond, mode.modules, v);
      assert PropertyDone(mode, o[m].props[i], e.props[i], w, TestsAlong(o, Start(mode.modules, false), PathTo(f, m)), v);
    }
  }

  // ----- what selects and implies gather -----

  /** What the property asks of the symbol it names, by the stored condition. */
  function Demand(e: Entry, i: nat, v: Valuation): Tristate
    requires i < |e.props| && e.sym.Some?
  {
    Min(v(e.sym.value).tri, EvalOpt(e.props[i].cond, v))
  }

  ghost predicate Demanding(e: Entry, i: int, r: Role) { e.sym.Some? && 0 <= i < |e.props| && e.props[i].role == r }

  lemma {:induction false} AskedByIsDemand(o: Entry, e: Entry, w: Meaning, r: Role, i: nat, mode: Mode, ts: Allowed, v: Valuation)
    requires (r.Selects? || r.Implies?) && i < |o.props| && EntryDone(mode, o, e, w, ts, v)
    ensures AskedBy(o, w, r, i, mode.modules, v) == if Demanding(e, i, r) then Demand(e, i, v) else NO
  {
    assert PropertyDone(mode, o.props[i], e.props[i], w, ts, v);
  }

  lemma {:induction false} AskedIsDemand(o: Entry, e: Entry, w: Meaning, r: Role, i: nat, mode: Mode, ts: Allowed, v: Valuation)
    requires (r.Selects? || r.Implies?) && i <= |o.props| && EntryDone(mode, o, e, w, ts, v)
    ensures var t := Asked(o, w, r, i, mode.modules, v);
      (forall j :: i <= j && Demanding(e, j, r) ==> Demand(e, j, v) <= t) &&
      (t == NO || exists j :: i <= j && Demanding(e, j, r) && Demand(e, j, v) == t)
    decreases |o.props| - i
  {
    if i < |o.props| {
      AskedIsDemand(o, e, w, r, i + 1, mode, ts, v);
      AskedByIsDemand(o, e, w, r, i, mode, ts, v);
    }
  }

  /** What is gathered for a symbol is the most that any select (or imply) of it demands:
      the selecting symbol, as far as the stored condition of the select allows. */
  lemma {:induction false} GatheredIsMost(mode: Mode, o: Entries, f: Forest, r: Role, v: Valuation)
    requires Admissible(v) && WellMade(o, f, mode.modules, false) && (r.Selects? || r.Implies?)
    ensures var st := Final(mode, o, f);
      var t := if r in st.reverse then Eval(st.reverse[r], v) else NO;
      (forall m: Menu, j :: m in Preorder(f) && Demanding(st.entries[m], j, r) ==> Demand(st.entries[m], j, v) <= t) &&
      (t == NO || exists m: Menu, j :: m in Preorder(f) && Demanding(st.entries[m], j, r) && Demand(st.entries[m], j, v) == t)
  {
    var st := Final(mode, o, f);
    var t := EvalGathered(st, r, v);
    FinalReverse(mode, o, f, r, v);
    forall m: Menu | m in Preorder(f)
      ensures forall j :: Demanding(st.entries[m], j, r) ==> Demand(st.entries[m], j, v) <= AskedAt(o, f, None, r, m, mode.modules, v)
      ensures AskedAt(o, f, None, r, m, mode.modules, v) == NO ||
        exists j :: Demanding(st.entries[m], j, r) && Demand(st.entries[m], j, v) == AskedAt(o, f, None, r, m, mode.modules, v)
    {
      FinalConditions(mode, o, f, false, m, v);
      AskedIsDemand(o[m], st.entries[m], Conjunction(o, None, PathTo(f, m), mode.modules, v), r, 0, mode,
        TestsAlong(o, Start(mode.modules, false), PathTo(f, m)), v);
    }
  }
}
