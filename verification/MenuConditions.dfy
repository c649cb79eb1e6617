/** The conditions of a menu tree. Each node's condition is conjoined with its parent's
    and each property's with its node's, in place and from the root down; selects and
    implies are gathered at the symbols they name. */
module MenuConditions {
  import opened Symbols
  import opened Exprs
  import opened ExprDups
  import opened ExprTransform
  import opened MenuForest
  import opened Sequences

  datatype Role =
    | Prompts
    | Defaults(value: Expr)
    | Ranges(low: Symbol, high: Symbol)
    | Selects(target: Symbol)
    | Implies(target: Symbol)

  datatype Property = Property(role: Role, cond: Option<Expr>)

  /** A node with the properties given at it. A symbol defined in several places has
      several nodes. */
  datatype Entry = Entry(sym: Option<Symbol>, dep: Option<Expr>, props: seq<Property>)

  type Entries = map<Menu, Entry>

  /** The entries, and under each role Selects(s) or Implies(s) the condition gathered
      for `s`. */
  datatype State = State(entries: Entries, reverse: map<Role, Expr>)

  function Gathered(st: State, r: Role): Option<Expr> { if r in st.reverse then Some(st.reverse[r]) else None }

  function OrOpt(e1: Option<Expr>, e2: Option<Expr>): Option<Expr> {
    if e1.None? then e2 else if e2.None? then e1 else Some(Bin(Or, e1.value, e2.value))
  }

  // ----- the pass, simplifying as the source does or only conjoining -----

  datatype Mode = Mode(simplify: bool, modules: Symbol)

  function Conjoin(mode: Mode, above: Option<Expr>, own: Option<Expr>): Option<Expr> {
    if mode.simplify then Propagate(above, own, mode.modules)
    else AndOpt(above, if own.None? then None else Some(RewriteM(own.value, mode.modules)))
  }

  function SetDep(st: State, m: Menu, dep: Option<Expr>): State
    requires m in st.entries
  {
    st.(entries := st.entries[m := st.entries[m].(dep := dep)])
  }

  function SetCond(st: State, m: Menu, i: nat, cond: Option<Expr>): State
    requires m in st.entries && i < |st.entries[m].props|
  {
    var e := st.entries[m];
    st.(entries := st.entries[m := e.(props := e.props[i := e.props[i].(cond := cond)])])
  }

  predicate Reverses(e: Entry, r: Role) { (r.Selects? || r.Implies?) && e.sym.Some? }

  /** One more select or imply of `sym` under `cond`. */
  function Gather(st: State, r: Role, sym: Symbol, cond: Option<Expr>): State {
    st.(reverse := st.reverse[r := OrOpt(Gathered(st, r), AndOpt(Some(Sym(sym)), cond)).value])
  }

  function VisitProperty(mode: Mode, st: State, m: Menu, i: nat): (r: State)
    requires m in st.entries && i < |st.entries[m].props|
    ensures r.entries.Keys == st.entries.Keys && |r.entries[m].props| == |st.entries[m].props|
  {
    var e := st.entries[m];
    var cond := Conjoin(mode, e.dep, e.props[i].cond);
    var st' := SetCond(st, m, i, cond);
    if Reverses(e, e.props[i].role) then Gather(st', e.props[i].role, e.sym.value, cond) else st'
  }

  function VisitProperties(mode: Mode, st: State, m: Menu, i: nat): (r: State)
    requires m in st.entries && i <= |st.entries[m].props|
    ensures r.entries.Keys == st.entries.Keys
    decreases |st.entries[m].props| - i
  {
    if i == |st.entries[m].props| then st else VisitProperties(mode, VisitProperty(mode, st, m, i), m, i + 1)
  }

  function VisitNode(mode: Mode, st: State, above: Option<Expr>, m: Menu): (r: State)
    requires m in st.entries
    ensures r.entries.Keys == st.entries.Keys
  {
    VisitProperties(mode, SetDep(st, m, Conjoin(mode, above, st.entries[m].dep)), m, 0)
  }

  /** Every node of the forest has an entry. */
  ghost predicate Covered(es: Entries, f: Forest) { forall m: Menu :: m in Preorder(f) ==> m in es }

  lemma CoveredParts(es: Entries, f: Forest)
    requires Covered(es, f) && f.Cons?
    ensures f.t.m in es && Covered(es, f.t.kids) && Covered(es, f.rest)
  {
    assert Preorder(f) == [f.t.m] + Preorder(f.t.kids) + Preorder(f.rest);
    assert f.t.m in Preorder(f);
    forall m: Menu | m in Preorder(f.t.kids) || m in Preorder(f.rest) ensures m in Preorder(f) {}
  }

  /** The children of a node, one after the other, ... */
  ghost function Level(mode: Mode, st: State, above: Option<Expr>, f: Forest): (r: State)
    requires Covered(st.entries, f)
    ensures r.entries.Keys == st.entries.Keys
    decreases f
  {
    match f
    case Nil => st
    case Cons(t, rest) =>
      CoveredParts(st.entries, f);
      Level(mode, VisitNode(mode, st, above, t.m), above, rest)
  }

  /** ... and then what is below each of them. */
  ghost function Deep(mode: Mode, st: State, f: Forest): (r: State)
    requires Covered(st.entries, f)
    ensures r.entries.Keys == st.entries.Keys
    decreases Count(f), 0
  {
    match f
    case Nil => st
    case Cons(t, rest) =>
      CoveredParts(st.entries, f);
      Deep(mode, Below(mode, st, st.entries[t.m].dep, t.kids), rest)
  }

  ghost function Below(mode: Mode, st: State, above: Option<Expr>, f: Forest): (r: State)
    requires Covered(st.entries, f)
    ensures r.entries.Keys == st.entries.Keys
    decreases Count(f), 1
  {
    Deep(mode, Level(mode, st, above, f), f)
  }

  /** The pass on its fields: the loops of the source over a node's children. */
  class Pass {
    const modules: Symbol
    var entries: Entries
    var reverse: map<Role, Expr>

    constructor (modules: Symbol, entries: Entries)
      ensures this.modules == modules && Contents() == State(entries, map[])
    {
      this.modules, this.entries, this.reverse := modules, entries, map[];
    }

    ghost function Contents(): State
      reads this
    {
      State(entries, reverse)
    }

    ghost function TheMode(): Mode { Mode(true, modules) }

    method VisitOneProperty(m: Menu, i: nat)
      requires m in entries && i < |entries[m].props|
      modifies this
      ensures Contents() == VisitProperty(TheMode(), old(Contents()), m, i)
    {
      var e := entries[m];
      var p := e.props[i];
      var dep := Propagate(e.dep, p.cond, modules);
      entries := entries[m := e.(props := e.props[i := p.(cond := dep)])];
      if (p.role.Selects? || p.role.Implies?) && e.sym.Some? {
        var before := if p.role in reverse then Some(reverse[p.role]) else None;
        reverse := reverse[p.role := OrOpt(before, AndOpt(Some(Sym(e.sym.value)), dep)).value];
      }
    }

    method VisitOne(above: Option<Expr>, m: Menu)
      requires m in entries
      modifies this
      ensures Contents() == VisitNode(TheMode(), old(Contents()), above, m)
    {
      ghost var was := VisitNode(TheMode(), Contents(), above, m);
      entries := entries[m := entries[m].(dep := Propagate(above, entries[m].dep, modules))];
      var i := 0;
      while i < |entries[m].props|
        invariant m in entries && i <= |entries[m].props|
        invariant VisitProperties(TheMode(), Contents(), m, i) == was
        decreases |entries[m].props| - i
      {
        VisitOneProperty(m, i);
        i := i + 1;
      }
    }

    method PropagateBelow(above: Option<Expr>, f: Forest)
      requires Covered(entries, f)
      modifies this
      ensures Contents() == Below(TheMode(), old(Contents()), above, f)
      decreases Count(f)
    {
      ghost var was := Level(TheMode(), Contents(), above, f);
      var g := f;
      while g.Cons?
        invariant Covered(entries, g) && Level(TheMode(), Contents(), above, g) == was
        invariant entries.Keys == old(entries.Keys)
        decreases g
      {
        CoveredParts(entries, g);
        VisitOne(above, g.t.m);
        g := g.rest;
      }
      ghost var done := Deep(TheMode(), Contents(), f);
      g := f;
      while g.Cons?
        invariant Covered(entries, g) && Deep(TheMode(), Contents(), g) == done && Count(g) <= Count(f)
        invariant entries.Keys == old(entries.Keys)
        decreases g
      {
        CoveredParts(entries, g);
        PropagateBelow(entries[g.t.m].dep, g.t.kids);
        g := g.rest;
      }
    }
  }

  // ----- what the conditions are worth afterwards -----

  /** What a condition is worth; a missing one is kept apart from y. */
  type Meaning = Option<Tristate>

  function Amount(t: Meaning): Tristate { if t.None? then YES else t.value }

  function Both(t: Meaning, u: Meaning): Meaning {
    if t.None? then u else if u.None? then t else Some(Min(t.value, u.value))
  }

  function MeaningOf(e: Option<Expr>, v: Valuation): Meaning { if e.None? then None else Some(Eval(e.value, v)) }

  /** A condition as declared, with m worth min(m, MODULES). */
  function Declared(e: Option<Expr>, modules: Symbol, v: Valuation): Meaning {
    if e.None? then None else Some(EvalWithModules(e.value, modules, v))
  }

  /** The declared worth of a node below `above`. */
  function Worth(o: Entry, above: Meaning, modules: Symbol, v: Valuation): Meaning {
    Both(above, Declared(o.dep, modules, v))
  }

  function TestsOf(e: Option<Expr>, alone: bool): set<(Symbol, Symbol)> {
    if e.None? then {} else Tests(e.value, alone)
  }

  /** The comparisons that may occur in a condition, and whether symbols standing alone
      count among them. */
  datatype Allowed = Allowed(alone: bool, modules: Symbol, tests: set<(Symbol, Symbol)>)

  /** With those of one more declared condition. */
  function Plus(ts: Allowed, own: Option<Expr>): Allowed {
    ts.(tests := ts.tests + TestsOf(RewriteMOpt(own, ts.modules), ts.alone))
  }

  /** What simplifying relies on, and keeps. */
  predicate Fit(mode: Mode, e: Option<Expr>, ts: Allowed) {
    (mode.simplify && e.Some? ==> IsNNF(e.value)) && ts.modules == mode.modules && TestsOf(e, ts.alone) <= ts.tests
  }

  lemma {:induction false} ConjoinIsConjunction(mode: Mode, above: Option<Expr>, own: Option<Expr>, ts: Allowed, v: Valuation)
    requires Admissible(v) && TestsApart(ts.tests) && Fit(mode, above, ts)
    requires TestsOf(RewriteMOpt(own, mode.modules), ts.alone) <= ts.tests
    ensures var r := Conjoin(mode, above, own);
      Fit(mode, r, ts) && MeaningOf(r, v) == Both(MeaningOf(above, v), Declared(own, mode.modules, v))
  {
    if mode.simplify {
      PropagatedTests(above, own, mode.modules, ts);
      PropagateIsConjunction(above, own, mode.modules, v);
    } else if own.Some? {
      RewriteMMeansModules(own.value, mode.modules, v);
    }
  }

  lemma TestsApartSubset(us: set<(Symbol, Symbol)>, ts: set<(Symbol, Symbol)>)
    requires TestsApart(ts) && us <= ts
    ensures TestsApart(us)
  {
  }

  lemma {:induction false} PropagatedTests(above: Option<Expr>, own: Option<Expr>, modules: Symbol, ts: Allowed)
    requires TestsApart(ts.tests) && TestsOf(above, ts.alone) <= ts.tests
    requires TestsOf(RewriteMOpt(own, modules), ts.alone) <= ts.tests
    ensures ClashFreeOpt(AndOpt(above, RewriteMOpt(own, modules)))
    ensures TestsOf(Propagate(above, own, modules), ts.alone) <= ts.tests
  {
    var all := AndOpt(above, RewriteMOpt(own, modules));
    assert TestsOf(all, ts.alone) <= ts.tests;
    if all.Some? { AloneAddsTests(all.value); }
    TestsApartSubset(TestsOf(all, false), ts.tests);
    if own.Some? { TransformTests(RewriteM(own.value, modules), ts.alone); }
    var both := AndOpt(above, if own.None? then None else Some(Transform(RewriteM(own.value, modules))));
    if both.Some? { EliminateDupsTests(both.value, ts.alone); }
  }

  /** The visited entry `e` is right for the declared one: its condition is worth the
      declared one with all that is above it, `w` in all, and each property's is worth
      its own with that. */
  ghost predicate EntryDone(mode: Mode, o: Entry, e: Entry, w: Meaning, ts: Allowed, v: Valuation) {
    e.sym == o.sym && |e.props| == |o.props| && Fit(mode, e.dep, ts) && MeaningOf(e.dep, v) == w &&
    forall i :: 0 <= i < |o.props| ==> PropertyDone(mode, o.props[i], e.props[i], w, ts, v)
  }

  ghost predicate PropertyDone(mode: Mode, o: Property, p: Property, w: Meaning, ts: Allowed, v: Valuation) {
    p.role == o.role && Fit(mode, p.cond, Plus(ts, o.cond)) &&
    MeaningOf(p.cond, v) == Both(w, Declared(o.cond, mode.modules, v))
  }

  /** Half way through the properties of a node. */
  ghost predicate Visiting(mode: Mode, o: Entry, e: Entry, i: nat, w: Meaning, ts: Allowed, v: Valuation) {
    e.sym == o.sym && |e.props| == |o.props| && Fit(mode, e.dep, ts) && MeaningOf(e.dep, v) == w &&
    (forall j :: 0 <= j < |o.props| && j < i ==> PropertyDone(mode, o.props[j], e.props[j], w, ts, v)) &&
    (forall j :: i <= j < |o.props| ==> e.props[j] == o.props[j])
  }

  ghost predicate PropertiesApart(o: Entry, ts: Allowed) {
    TestsApart(ts.tests) && forall i :: 0 <= i < |o.props| ==> TestsApart(Plus(ts, o.props[i].cond).tests)
  }

  lemma {:induction false} PropertyVisited(mode: Mode, st: State, m: Menu, i: nat, o: Entry, w: Meaning, ts: Allowed, v: Valuation)
    requires Admissible(v) && m in st.entries && i < |o.props| && Visiting(mode, o, st.entries[m], i, w, ts, v)
    requires PropertiesApart(o, ts)
    ensures var st' := VisitProperty(mode, st, m, i);
      Visiting(mode, o, st'.entries[m], i + 1, w, ts, v) &&
      MeaningOf(st'.entries[m].props[i].cond, v) == Both(w, Declared(o.props[i].cond, mode.modules, v))
  {
    var e := st.entries[m];
    var p := o.props[i];
    assert e.props[i] == p;
    var ts' := Plus(ts, p.cond);
    var cond := Conjoin(mode, e.dep, p.cond);
    ConjoinIsConjunction(mode, e.dep, p.cond, ts', v);
    var e' := SetCond(st, m, i, cond).entries[m];
    assert e'.props[i] == p.(cond := cond);
  }

  lemma OthersUntouched(mode: Mode, st: State, m: Menu, i: nat, n: Menu)
    requires m in st.entries && i <= |st.entries[m].props| && n in st.entries && n != m
    ensures VisitProperties(mode, st, m, i).entries[n] == st.entries[n]
    decreases |st.entries[m].props| - i
  {
    if i < |st.entries[m].props| { OthersUntouched(mode, VisitProperty(mode, st, m, i), m, i + 1, n); }
  }

  lemma {:induction false} PropertiesVisited(mode: Mode, st: State, m: Menu, i: nat, o: Entry, w: Meaning, ts: Allowed, v: Valuation)
    requires Admissible(v) && m in st.entries && i <= |o.props| && Visiting(mode, o, st.entries[m], i, w, ts, v)
    requires PropertiesApart(o, ts)
    ensures EntryDone(mode, o, VisitProperties(mode, st, m, i).entries[m], w, ts, v)
    decreases |o.props| - i
  {
    if i < |o.props| {
      PropertyVisited(mode, st, m, i, o, w, ts, v);
      PropertiesVisited(mode, VisitProperty(mode, st, m, i), m, i + 1, o, w, ts, v);
    }
  }

  /** The visited node is done, and no other is touched. */
  lemma {:induction false} NodeVisited(mode: Mode, st: State, above: Option<Expr>, m: Menu, ts: Allowed, v: Valuation)
    requires Admissible(v) && m in st.entries && Fit(mode, above, ts)
    requires PropertiesApart(st.entries[m], Plus(ts, st.entries[m].dep))
    ensures var o, st' := st.entries[m], VisitNode(mode, st, above, m);
      EntryDone(mode, o, st'.entries[m], Worth(o, MeaningOf(above, v), mode.modules, v), Plus(ts, o.dep), v) &&
      forall n :: n in st.entries && n != m ==> st'.entries[n] == st.entries[n]
  {
    var o := st.entries[m];
    var ts' := Plus(ts, o.dep);
    ConjoinIsConjunction(mode, above, o.dep, ts', v);
    var st1 := SetDep(st, m, Conjoin(mode, above, o.dep));
    PropertiesVisited(mode, st1, m, 0, o, Worth(o, MeaningOf(above, v), mode.modules, v), ts', v);
    forall n | n in st.entries && n != m
      ensures VisitNode(mode, st, above, m).entries[n] == st.entries[n]
    {
      OthersUntouched(mode, st1, m, 0, n);
    }
  }

  // ----- what selects and implies gather -----

  function EvalGathered(st: State, r: Role, v: Valuation): Tristate {
    if r in st.reverse then Eval(st.reverse[r], v) else NO
  }

  /** What the property at `i` asks of the role's target, with the node's condition worth `w`. */
  function AskedBy(o: Entry, w: Meaning, r: Role, i: nat, modules: Symbol, v: Valuation): Tristate
    requires i < |o.props|
  {
    if o.props[i].role == r && Reverses(o, r) then Min(v(o.sym.value).tri, Amount(Both(w, Declared(o.props[i].cond, modules, v)))) else NO
  }

  /** The most that any property of the entry asks, from the one at `i` on. */
  function Asked(o: Entry, w: Meaning, r: Role, i: nat, modules: Symbol, v: Valuation): Tristate
    requires i <= |o.props|
    decreases |o.props| - i
  {
    if i == |o.props| then NO else Max(AskedBy(o, w, r, i, modules, v), Asked(o, w, r, i + 1, modules, v))
  }

  lemma GatherValue(st: State, r0: Role, sym: Symbol, cond: Option<Expr>, r: Role, v: Valuation)
    ensures EvalGathered(Gather(st, r0, sym, cond), r, v) ==
            Max(EvalGathered(st, r, v), if r == r0 then Min(v(sym).tri, EvalOpt(cond, v)) else NO)
  {
    var asked := AndOpt(Some(Sym(sym)), cond).value;
    assert Eval(asked, v) == Min(v(sym).tri, EvalOpt(cond, v)) by { assert Eval(Sym(sym), v) == v(sym).tri; }
    var both := OrOpt(Gathered(st, r0), Some(asked)).value;
    assert Eval(both, v) == Max(EvalGathered(st, r0, v), Eval(asked, v));
    assert Gather(st, r0, sym, cond).reverse == st.reverse[r0 := both];
  }

  lemma {:induction false} PropertyGathers(
    mode: Mode, st: State, m: Menu, i: nat, o: Entry, w: Meaning, ts: Allowed, r: Role, v: Valuation)
    requires Admissible(v) && m in st.entries && i < |o.props| && Visiting(mode, o, st.entries[m], i, w, ts, v)
    requires PropertiesApart(o, ts)
    ensures EvalGathered(VisitProperty(mode, st, m, i), r, v) ==
            Max(EvalGathered(st, r, v), AskedBy(o, w, r, i, mode.modules, v))
  {
    var e := st.entries[m];
    assert e.props[i] == o.props[i];
    var cond := Conjoin(mode, e.dep, e.props[i].cond);
    ConjoinIsConjunction(mode, e.dep, e.props[i].cond, Plus(ts, e.props[i].cond), v);
    if Reverses(e, e.props[i].role) {
      GatherValue(SetCond(st, m, i, cond), e.props[i].role, e.sym.value, cond, r, v);
    }
  }

  lemma {:induction false} PropertiesGather(
    mode: Mode, st: State, m: Menu, i: nat, o: Entry, w: Meaning, ts: Allowed, r: Role, v: Valuation)
    requires Admissible(v) && m in st.entries && i <= |o.props| && Visiting(mode, o, st.entries[m], i, w, ts, v)
    requires PropertiesApart(o, ts)
    ensures EvalGathered(VisitProperties(mode, st, m, i), r, v) ==
            Max(EvalGathered(st, r, v), Asked(o, w, r, i, mode.modules, v))
    decreases |o.props| - i
  {
    if i < |o.props| {
      PropertyGathers(mode, st, m, i, o, w, ts, r, v);
      PropertyVisited(mode, st, m, i, o, w, ts, v);
      PropertiesGather(mode, VisitProperty(mode, st, m, i), m, i + 1, o, w, ts, r, v);
    }
  }

  lemma {:induction false} NodeGathers(
    mode: Mode, st: State, above: Option<Expr>, m: Menu, ts: Allowed, r: Role, v: Valuation)
    requires Admissible(v) && m in st.entries && Fit(mode, above, ts)
    requires PropertiesApart(st.entries[m], Plus(ts, st.entries[m].dep))
    ensures var o := st.entries[m];
      EvalGathered(VisitNode(mode, st, above, m), r, v) ==
      Max(EvalGathered(st, r, v), Asked(o, Worth(o, MeaningOf(above, v), mode.modules, v), r, 0, mode.modules, v))
  {
    var o := st.entries[m];
    ConjoinIsConjunction(mode, above, o.dep, Plus(ts, o.dep), v);
    PropertiesGather(mode, SetDep(st, m, Conjoin(mode, above, o.dep)), m, 0, o,
      Worth(o, MeaningOf(above, v), mode.modules, v), Plus(ts, o.dep), r, v);
  }

  // ----- over the whole tree -----

  /** On the way down to any condition no two constants clash. */
  ghost predicate Apart(o: Entries, f: Forest, ts: Allowed)
    requires Covered(o, f)
  {
    f.Cons? ==>
      (CoveredParts(o, f);
      var ts' := Plus(ts, o[f.t.m].dep);
      PropertiesApart(o[f.t.m], ts') && Apart(o, f.t.kids, ts') && Apart(o, f.rest, ts))
  }

  /** Every node below `above` is done. */
  ghost predicate Done(mode: Mode, o: Entries, st: State, f: Forest, above: Meaning, ts: Allowed, v: Valuation)
    requires Covered(o, f) && Covered(st.entries, f)
  {
    f.Cons? ==>
      (CoveredParts(o, f);
      CoveredParts(st.entries, f);
      var m := f.t.m;
      var w, ts' := Worth(o[m], above, mode.modules, v), Plus(ts, o[m].dep);
      EntryDone(mode, o[m], st.entries[m], w, ts', v) &&
      Done(mode, o, st, f.t.kids, w, ts', v) && Done(mode, o, st, f.rest, above, ts, v))
  }

  /** The nodes at the top are done, and those below them as declared. */
  ghost predicate TopDone(mode: Mode, o: Entries, st: State, f: Forest, above: Meaning, ts: Allowed, v: Valuation)
    requires Covered(o, f) && Covered(st.entries, f)
  {
    f.Cons? ==>
      (CoveredParts(o, f);
      CoveredParts(st.entries, f);
      var m := f.t.m;
      EntryDone(mode, o[m], st.entries[m], Worth(o[m], above, mode.modules, v), Plus(ts, o[m].dep), v) &&
      Same(o, st, f.t.kids) && TopDone(mode, o, st, f.rest, above, ts, v))
  }

  ghost predicate Same(o: Entries, st: State, f: Forest) {
    forall m: Menu :: m in Preorder(f) ==> m in o && m in st.entries && st.entries[m] == o[m]
  }

  /** Nothing outside the forest is touched. */
  ghost predicate Outside(st: State, st': State, f: Forest) {
    st'.entries.Keys == st.entries.Keys && forall m: Menu :: m in st.entries && m !in Preorder(f) ==> st'.entries[m] == st.entries[m]
  }

  lemma {:induction false} DistinctParts(f: Forest)
    requires f.Cons? && Distinct(Preorder(f))
    ensures Distinct(Preorder(f.t.kids)) && Distinct(Preorder(f.rest))
    ensures f.t.m !in Preorder(f.t.kids) && f.t.m !in Preorder(f.rest)
    ensures forall m: Menu :: m in Preorder(f.t.kids) ==> m !in Preorder(f.rest)
  {
    assert Preorder(f) == [f.t.m] + Preorder(f.t.kids) + Preorder(f.rest);
    DistinctSplit(f.t.m, Preorder(f.t.kids), Preorder(f.rest));
  }

  lemma {:induction false} DoneElsewhere(
    mode: Mode, o: Entries, st: State, st': State, f: Forest, g: Forest, above: Meaning, ts: Allowed, v: Valuation)
    requires Covered(o, f) && Covered(st.entries, f) && Outside(st, st', g) && Done(mode, o, st, f, above, ts, v)
    requires forall m: Menu :: m in Preorder(f) ==> m !in Preorder(g)
    ensures Covered(st'.entries, f) && Done(mode, o, st', f, above, ts, v)
  {
    if f.Cons? {
      CoveredParts(o, f);
      CoveredParts(st.entries, f);
      var m := f.t.m;
      assert m in Preorder(f);
      DoneElsewhere(mode, o, st, st', f.t.kids, g, Worth(o[m], above, mode.modules, v), Plus(ts, o[m].dep), v);
      DoneElsewhere(mode, o, st, st', f.rest, g, above, ts, v);
    }
  }

  lemma {:induction false} TopDoneElsewhere(
    mode: Mode, o: Entries, st: State, st': State, f: Forest, g: Forest, above: Meaning, ts: Allowed, v: Valuation)
    requires Covered(o, f) && Covered(st.entries, f) && Outside(st, st', g) && TopDone(mode, o, st, f, above, ts, v)
    requires forall m: Menu :: m in Preorder(f) ==> m !in Preorder(g)
    ensures Covered(st'.entries, f) && TopDone(mode, o, st', f, above, ts, v)
  {
    if f.Cons? {
      CoveredParts(o, f);
      CoveredParts(st.entries, f);
      assert f.t.m in Preorder(f);
      TopDoneElsewhere(mode, o, st, st', f.rest, g, above, ts, v);
    }
  }

  lemma {:induction false} LevelDone(
    mode: Mode, o: Entries, st: State, above: Option<Expr>, f: Forest, ts: Allowed, v: Valuation)
    requires Admissible(v) && Covered(st.entries, f) && Same(o, st, f) && Fit(mode, above, ts) && Distinct(Preorder(f))
    requires Covered(o, f) && Apart(o, f, ts)
    ensures var st' := Level(mode, st, above, f);
      Covered(st'.entries, f) && TopDone(mode, o, st', f, MeaningOf(above, v), ts, v) && Outside(st, st', f)
    decreases f
  {
    if f.Cons? {
      CoveredParts(st.entries, f);
      CoveredParts(o, f);
      DistinctParts(f);
      var m := f.t.m;
      assert m in Preorder(f);
      NodeVisited(mode, st, above, m, ts, v);
      var st1 := VisitNode(mode, st, above, m);
      LevelDone(mode, o, st1, above, f.rest, ts, v);
    }
  }

  lemma OutsideChain(a: State, b: State, c: State, f: Forest, g: Forest, h: Forest)
    requires Outside(a, b, f) && Outside(b, c, g)
    requires forall m: Menu :: m in Preorder(f) || m in Preorder(g) ==> m in Preorder(h)
    ensures Outside(a, c, h)
  {
  }

  lemma PreorderParts(f: Forest)
    requires f.Cons?
    ensures f.t.m in Preorder(f)
    ensures forall m: Menu :: m in Preorder(f.t.kids) || m in Preorder(f.rest) ==> m in Preorder(f)
  {
    assert Preorder(f) == [f.t.m] + Preorder(f.t.kids) + Preorder(f.rest);
  }

  lemma {:induction false} DeepDone(
    mode: Mode, o: Entries, st: State, f: Forest, above: Meaning, ts: Allowed, v: Valuation)
    requires Admissible(v) && Covered(st.entries, f) && Distinct(Preorder(f))
    requires Covered(o, f) && Apart(o, f, ts) && TopDone(mode, o, st, f, above, ts, v)
    ensures var st' := Deep(mode, st, f);
      Covered(st'.entries, f) && Done(mode, o, st', f, above, ts, v) && Outside(st, st', f)
    decreases Count(f), 0
  {
    if f.Cons? {
      CoveredParts(st.entries, f);
      CoveredParts(o, f);
      DistinctParts(f);
      PreorderParts(f);
      var m := f.t.m;
      var w, ts' := Worth(o[m], above, mode.modules, v), Plus(ts, o[m].dep);
      var st1 := Below(mode, st, st.entries[m].dep, f.t.kids);
      BelowDone(mode, o, st, st.entries[m].dep, f.t.kids, ts', v);
      TopDoneElsewhere(mode, o, st, st1, f.rest, f.t.kids, above, ts, v);
      DeepDone(mode, o, st1, f.rest, above, ts, v);
      var st2 := Deep(mode, st1, f.rest);
      DoneElsewhere(mode, o, st1, st2, f.t.kids, f.rest, w, ts', v);
      OutsideChain(st, st1, st2, f.t.kids, f.rest, f);
      assert st2.entries[m] == st.entries[m];
    }
  }

  /** Every node below is done: its condition is worth its own declared one and all those
      between it and the start. */
  lemma {:induction false} BelowDone(
    mode: Mode, o: Entries, st: State, above: Option<Expr>, f: Forest, ts: Allowed, v: Valuation)
    requires Admissible(v) && Covered(st.entries, f) && Same(o, st, f) && Fit(mode, above, ts) && Distinct(Preorder(f))
    requires Covered(o, f) && Apart(o, f, ts)
    ensures var st' := Below(mode, st, above, f);
      Covered(st'.entries, f) && Done(mode, o, st', f, MeaningOf(above, v), ts, v) && Outside(st, st', f)
    decreases Count(f), 1
  {
    LevelDone(mode, o, st, above, f, ts, v);
    var st1 := Level(mode, st, above, f);
    DeepDone(mode, o, st1, f, MeaningOf(above, v), ts, v);
    OutsideChain(st, st1, Deep(mode, st1, f), f, f, f);
  }

  /** The most that any property of any node below asks of the role's target. */
  ghost function AskedBelow(o: Entries, f: Forest, above: Meaning, r: Role, modules: Symbol, v: Valuation): Tristate
    requires Covered(o, f)
  {
    match f
    case Nil => NO
    case Cons(t, rest) =>
      CoveredParts(o, f);
      var w := Worth(o[t.m], above, modules, v);
      Max(Asked(o[t.m], w, r, 0, modules, v),
          Max(AskedBelow(o, t.kids, w, r, modules, v), AskedBelow(o, rest, above, r, modules, v)))
  }

  ghost function AskedAtTop(o: Entries, f: Forest, above: Meaning, r: Role, modules: Symbol, v: Valuation): Tristate
    requires Covered(o, f)
  {
    match f
    case Nil => NO
    case Cons(t, rest) =>
      CoveredParts(o, f);
      Max(Asked(o[t.m], Worth(o[t.m], above, modules, v), r, 0, modules, v), AskedAtTop(o, rest, above, r, modules, v))
  }

  ghost function AskedDeeper(o: Entries, f: Forest, above: Meaning, r: Role, modules: Symbol, v: Valuation): Tristate
    requires Covered(o, f)
  {
    match f
    case Nil => NO
    case Cons(t, rest) =>
      CoveredParts(o, f);
      Max(AskedBelow(o, t.kids, Worth(o[t.m], above, modules, v), r, modules, v), AskedDeeper(o, rest, above, r, modules, v))
  }

  lemma MaxExchange(a: Tristate, b: Tristate, c: Tristate, d: Tristate)
    ensures Max(a, Max(b, Max(c, d))) == Max(Max(a, c), Max(b, d))
    ensures Max(Max(a, b), c) == Max(a, Max(b, c))
  {
  }

  lemma {:induction false} AskedInTwoSteps(o: Entries, f: Forest, above: Meaning, r: Role, modules: Symbol, v: Valuation)
    requires Covered(o, f)
    ensures AskedBelow(o, f, above, r, modules, v) ==
            Max(AskedAtTop(o, f, above, r, modules, v), AskedDeeper(o, f, above, r, modules, v))
  {
    if f.Cons? {
      CoveredParts(o, f);
      var w := Worth(o[f.t.m], above, modules, v);
      AskedInTwoSteps(o, f.rest, above, r, modules, v);
      MaxExchange(Asked(o[f.t.m], w, r, 0, modules, v), AskedBelow(o, f.t.kids, w, r, modules, v),
        AskedAtTop(o, f.rest, above, r, modules, v), AskedDeeper(o, f.rest, above, r, modules, v));
    }
  }

  lemma {:induction false} LevelGathers(
    mode: Mode, o: Entries, st: State, above: Option<Expr>, f: Forest, ts: Allowed, r: Role, v: Valuation)
    requires Admissible(v) && Covered(st.entries, f) && Same(o, st, f) && Fit(mode, above, ts) && Distinct(Preorder(f))
    requires Covered(o, f) && Apart(o, f, ts)
    ensures EvalGathered(Level(mode, st, above, f), r, v) ==
            Max(EvalGathered(st, r, v), AskedAtTop(o, f, MeaningOf(above, v), r, mode.modules, v))
    decreases f
  {
    if f.Cons? {
      CoveredParts(st.entries, f);
      CoveredParts(o, f);
      DistinctParts(f);
      PreorderParts(f);
      var m := f.t.m;
      NodeVisited(mode, st, above, m, ts, v);
      NodeGathers(mode, st, above, m, ts, r, v);
      var st1 := VisitNode(mode, st, above, m);
      LevelGathers(mode, o, st1, above, f.rest, ts, r, v);
      MaxExchange(EvalGathered(st, r, v), Asked(o[m], Worth(o[m], MeaningOf(above, v), mode.modules, v), r, 0, mode.modules, v),
        AskedAtTop(o, f.rest, MeaningOf(above, v), r, mode.modules, v), NO);
    }
  }

  lemma {:induction false} DeepGathers(
    mode: Mode, o: Entries, st: State, f: Forest, above: Meaning, ts: Allowed, r: Role, v: Valuation)
    requires Admissible(v) && Covered(st.entries, f) && Distinct(Preorder(f))
    requires Covered(o, f) && Apart(o, f, ts) && TopDone(mode, o, st, f, above, ts, v)
    ensures EvalGathered(Deep(mode, st, f), r, v) ==
            Max(EvalGathered(st, r, v), AskedDeeper(o, f, above, r, mode.modules, v))
    decreases Count(f), 0
  {
    if f.Cons? {
      CoveredParts(st.entries, f);
      CoveredParts(o, f);
      DistinctParts(f);
      PreorderParts(f);
      var m := f.t.m;
      var w, ts' := Worth(o[m], above, mode.modules, v), Plus(ts, o[m].dep);
      var st1 := Below(mode, st, st.entries[m].dep, f.t.kids);
      BelowDone(mode, o, st, st.entries[m].dep, f.t.kids, ts', v);
      BelowGathers(mode, o, st, st.entries[m].dep, f.t.kids, ts', r, v);
      TopDoneElsewhere(mode, o, st, st1, f.rest, f.t.kids, above, ts, v);
      DeepGathers(mode, o, st1, f.rest, above, ts, r, v);
      MaxExchange(EvalGathered(st, r, v), AskedBelow(o, f.t.kids, w, r, mode.modules, v),
        AskedDeeper(o, f.rest, above, r, mode.modules, v), NO);
    }
  }

  lemma {:induction false} BelowGathers(
    mode: Mode, o: Entries, st: State, above: Option<Expr>, f: Forest, ts: Allowed, r: Role, v: Valuation)
    requires Admissible(v) && Covered(st.entries, f) && Same(o, st, f) && Fit(mode, above, ts) && Distinct(Preorder(f))
    requires Covered(o, f) && Apart(o, f, ts)
    ensures EvalGathered(Below(mode, st, above, f), r, v) ==
            Max(EvalGathered(st, r, v), AskedBelow(o, f, MeaningOf(above, v), r, mode.modules, v))
    decreases Count(f), 1
  {
    LevelDone(mode, o, st, above, f, ts, v);
    LevelGathers(mode, o, st, above, f, ts, r, v);
    DeepGathers(mode, o, Level(mode, st, above, f), f, MeaningOf(above, v), ts, r, v);
    AskedInTwoSteps(o, f, MeaningOf(above, v), r, mode.modules, v);
    MaxExchange(EvalGathered(st, r, v), AskedAtTop(o, f, MeaningOf(above, v), r, mode.modules, v),
      AskedDeeper(o, f, MeaningOf(above, v), r, mode.modules, v), NO);
  }

  // ----- stated along the path from the root -----

  /** The ancestors of a node, outermost first, and the node itself. */
  ghost function PathTo(f: Forest, m: Menu): (p: seq<Menu>)
    requires m in Preorder(f)
    ensures p != [] && p[|p| - 1] == m && forall n: Menu :: n in p ==> n in Preorder(f)
  {
    PreorderParts(f);
    assert Preorder(f) == [f.t.m] + Preorder(f.t.kids) + Preorder(f.rest);
    if f.t.m == m then [m]
    else if m in Preorder(f.t.kids) then [f.t.m] + PathTo(f.t.kids, m)
    else PathTo(f.rest, m)
  }

  /** The conjunction of `above` and the declared conditions along a path. */
  ghost function Conjunction(o: Entries, above: Meaning, path: seq<Menu>, modules: Symbol, v: Valuation): Meaning
    requires forall n: Menu :: n in path ==> n in o
    decreases |path|
  {
    if path == [] then above else Conjunction(o, Worth(o[path[0]], above, modules, v), path[1..], modules, v)
  }

  ghost function TestsAlong(o: Entries, ts: Allowed, path: seq<Menu>): Allowed
    requires forall n: Menu :: n in path ==> n in o
    decreases |path|
  {
    if path == [] then ts else TestsAlong(o, Plus(ts, o[path[0]].dep), path[1..])
  }

  lemma PathStep(o: Entries, f: Forest, above: Meaning, m: Menu, modules: Symbol, v: Valuation)
    requires Covered(o, f) && m in Preorder(f)
    ensures Covered(o, f.t.kids) && Covered(o, f.rest) && f.t.m in o
    ensures m == f.t.m || m in Preorder(f.t.kids) || m in Preorder(f.rest)
    ensures Conjunction(o, above, PathTo(f, m), modules, v) ==
            if m == f.t.m then Worth(o[m], above, modules, v)
            else if m in Preorder(f.t.kids) then Conjunction(o, Worth(o[f.t.m], above, modules, v), PathTo(f.t.kids, m), modules, v)
            else Conjunction(o, above, PathTo(f.rest, m), modules, v)
  {
    CoveredParts(o, f);
    assert Preorder(f) == [f.t.m] + Preorder(f.t.kids) + Preorder(f.rest);
    if m == f.t.m {
      assert [m][1..] == [];
    } else if m in Preorder(f.t.kids) {
      assert PathTo(f, m)[1..] == PathTo(f.t.kids, m);
    }
  }

  lemma {:induction false} DoneAlongPath(
    mode: Mode, o: Entries, st: State, f: Forest, above: Meaning, ts: Allowed, m: Menu, v: Valuation)
    requires Covered(o, f) && Covered(st.entries, f) && Done(mode, o, st, f, above, ts, v) && m in Preorder(f)
    ensures EntryDone(mode, o[m], st.entries[m],
              Conjunction(o, above, PathTo(f, m), mode.modules, v), TestsAlong(o, ts, PathTo(f, m)), v)
  {
    CoveredParts(o, f);
    CoveredParts(st.entries, f);
    assert Preorder(f) == [f.t.m] + Preorder(f.t.kids) + Preorder(f.rest);
    var w, ts' := Worth(o[f.t.m], above, mode.modules, v), Plus(ts, o[f.t.m].dep);
    if f.t.m == m {
      assert [m][1..] == [];
    } else if m in Preorder(f.t.kids) {
      DoneAlongPath(mode, o, st, f.t.kids, w, ts', m, v);
      assert PathTo(f, m)[1..] == PathTo(f.t.kids, m);
    } else {
      DoneAlongPath(mode, o, st, f.rest, above, ts, m, v);
    }
  }

  /** What one node of the forest asks. */
  ghost function AskedAt(o: Entries, f: Forest, above: Meaning, r: Role, m: Menu, modules: Symbol, v: Valuation): Tristate
    requires Covered(o, f) && m in Preorder(f)
  {
    Asked(o[m], Conjunction(o, above, PathTo(f, m), modules, v), r, 0, modules, v)
  }

  lemma {:induction false} AskedAtStep(o: Entries, f: Forest, above: Meaning, r: Role, m: Menu, modules: Symbol, v: Valuation)
    requires Covered(o, f) && m in Preorder(f)
    ensures Covered(o, f.t.kids) && Covered(o, f.rest) && f.t.m in o
    ensures m == f.t.m || m in Preorder(f.t.kids) || m in Preorder(f.rest)
    ensures AskedAt(o, f, above, r, m, modules, v) ==
            if m == f.t.m then Asked(o[m], Worth(o[m], above, modules, v), r, 0, modules, v)
            else if m in Preorder(f.t.kids) then AskedAt(o, f.t.kids, Worth(o[f.t.m], above, modules, v), r, m, modules, v)
            else AskedAt(o, f.rest, above, r, m, modules, v)
  {
    CoveredParts(o, f);
    PathStep(o, f, above, m, modules, v);
  }

  lemma {:induction false} AskedParts(o: Entries, f: Forest, above: Meaning, r: Role, modules: Symbol, v: Valuation)
    requires Covered(o, f) && f.Cons?
    ensures Covered(o, f.t.kids) && Covered(o, f.rest) && f.t.m in o
    ensures var all, w := AskedBelow(o, f, above, r, modules, v), Worth(o[f.t.m], above, modules, v);
      Asked(o[f.t.m], w, r, 0, modules, v) <= all && AskedBelow(o, f.t.kids, w, r, modules, v) <= all &&
      AskedBelow(o, f.rest, above, r, modules, v) <= all
  {
    CoveredParts(o, f);
  }

  lemma {:induction false} AskedIsBound(o: Entries, f: Forest, above: Meaning, r: Role, m: Menu, modules: Symbol, v: Valuation)
    requires Covered(o, f) && m in Preorder(f)
    ensures AskedAt(o, f, above, r, m, modules, v) <= AskedBelow(o, f, above, r, modules, v)
  {
    AskedAtStep(o, f, above, r, m, modules, v);
    AskedParts(o, f, above, r, modules, v);
    if f.t.m == m {
    } else if m in Preorder(f.t.kids) {
      AskedIsBound(o, f.t.kids, Worth(o[f.t.m], above, modules, v), r, m, modules, v);
    } else {
      AskedIsBound(o, f.rest, above, r, m, modules, v);
    }
  }

  lemma {:induction false} AskedIsAttained(o: Entries, f: Forest, above: Meaning, r: Role, modules: Symbol, v: Valuation) returns (m: Menu)
    requires Covered(o, f) && Distinct(Preorder(f)) && AskedBelow(o, f, above, r, modules, v) != NO
    ensures m in Preorder(f) && AskedAt(o, f, above, r, m, modules, v) == AskedBelow(o, f, above, r, modules, v)
  {
    CoveredParts(o, f);
    PreorderParts(f);
    DistinctParts(f);
    var w, all := Worth(o[f.t.m], above, modules, v), AskedBelow(o, f, above, r, modules, v);
    if Asked(o[f.t.m], w, r, 0, modules, v) == all {
      m := f.t.m;
    } else if AskedBelow(o, f.t.kids, w, r, modules, v) == all {
      m := AskedIsAttained(o, f.t.kids, w, r, modules, v);
    } else {
      m := AskedIsAttained(o, f.rest, above, r, modules, v);
    }
    AskedAtStep(o, f, above, r, m, modules, v);
  }

  // ----- the pass over a whole menu tree -----

  /** What the pass makes of the tree below a root without a condition of its own. */
  ghost function Final(mode: Mode, o: Entries, f: Forest): (r: State)
    requires Covered(o, f)
    ensures r.entries.Keys == o.Keys
  {
    Below(mode, State(o, map[]), None, f)
  }

  function Start(modules: Symbol, alone: bool): Allowed { Allowed(alone, modules, {}) }

  /** Each node occurs once, and on the way down to any condition no two constants clash. */
  ghost predicate WellMade(o: Entries, f: Forest, modules: Symbol, alone: bool) {
    Covered(o, f) && Distinct(Preorder(f)) && Apart(o, f, Start(modules, alone))
  }

  /** Every stored condition is worth the declared ones on the way down to it, and every
      property's is worth its own beside; simplified ones are in normal form. */
  lemma {:induction false} FinalConditions(mode: Mode, o: Entries, f: Forest, alone: bool, m: Menu, v: Valuation)
    requires Admissible(v) && WellMade(o, f, mode.modules, alone) && m in Preorder(f)
    ensures EntryDone(mode, o[m], Final(mode, o, f).entries[m],
              Conjunction(o, None, PathTo(f, m), mode.modules, v), TestsAlong(o, Start(mode.modules, alone), PathTo(f, m)), v)
  {
    BelowDone(mode, o, State(o, map[]), None, f, Start(mode.modules, alone), v);
    DoneAlongPath(mode, o, Final(mode, o, f), f, None, Start(mode.modules, alone), m, v);
  }

  lemma {:induction false} ApartAlongPath(o: Entries, f: Forest, ts: Allowed, m: Menu)
    requires Covered(o, f) && Apart(o, f, ts) && m in Preorder(f)
    ensures PropertiesApart(o[m], TestsAlong(o, ts, PathTo(f, m)))
  {
    CoveredParts(o, f);
    assert Preorder(f) == [f.t.m] + Preorder(f.t.kids) + Preorder(f.rest);
    var ts' := Plus(ts, o[f.t.m].dep);
    if f.t.m == m {
      assert [m][1..] == [];
    } else if m in Preorder(f.t.kids) {
      ApartAlongPath(o, f.t.kids, ts', m);
      assert PathTo(f, m)[1..] == PathTo(f.t.kids, m);
    } else {
      ApartAlongPath(o, f.rest, ts, m);
    }
  }

  /** What is gathered for a symbol is worth the most that any select (or imply) of it
      asks: the selecting symbol, the select's own condition and all above it. */
  lemma {:induction false} FinalReverse(mode: Mode, o: Entries, f: Forest, r: Role, v: Valuation)
    requires Admissible(v) && WellMade(o, f, mode.modules, false)
    ensures var t := EvalGathered(Final(mode, o, f), r, v);
      (forall m: Menu :: m in Preorder(f) ==> AskedAt(o, f, None, r, m, mode.modules, v) <= t) &&
      (t != NO ==> exists m: Menu :: m in Preorder(f) && AskedAt(o, f, None, r, m, mode.modules, v) == t)
  {
    BelowGathers(mode, o, State(o, map[]), None, f, Start(mode.modules, false), r, v);
    forall m: Menu | m in Preorder(f)
      ensures AskedAt(o, f, None, r, m, mode.modules, v) <= AskedBelow(o, f, None, r, mode.modules, v)
    {
      AskedIsBound(o, f, None, r, m, mode.modules, v);
    }
    if AskedBelow(o, f, None, r, mode.modules, v) != NO {
      var m := AskedIsAttained(o, f, None, r, mode.modules, v);
    }
  }
}
