/** Automatic submenus: the tree surgery driven by the dependency test on conditions. */
module SubmenuTree {
  import opened Symbols
  import opened Exprs
  import opened ExprDups
  import opened ExprTransform
  import opened MenuConditions
  import opened MenuForest
  import opened Submenu

  /** What the menu files say about the nodes: a node's symbol, the condition of the item
      it stands for, and the condition of its prompt. */
  datatype Labels = Labels(sym: Menu -> Symbol, condition: Menu -> Option<Expr>, prompt: Menu -> Option<Expr>)

  function OracleOf(l: Labels): Oracle {
    (m: Menu, n: Menu) => MovesUnder(l.sym(m), l.condition(n), l.prompt(m))
  }

  ghost predicate Proper(e: Option<Expr>) { InNormalForm(e) && ClashFreeCompared(e) }

  /** Comparing with n is exact where it matters: at the negated symbols of the item's
      condition and at the unnegated ones of the prompt's. */
  predicate Comparable(l: Labels, m: Menu, n: Menu, v: Valuation) {
    (l.condition(n).Some? ==> ExactNegations(l.condition(n).value, v)) &&
    (l.prompt(m).Some? ==> ExactPositives(l.prompt(m).value, v))
  }

  /** The item is enabled only when the symbol of `m`, if it compares as it is worth, or
      its prompt is. */
  predicate Guarded(l: Labels, m: Menu, n: Menu, v: Valuation) {
    l.condition(n).Some? && Comparable(l, m, n, v) && EvalOpt(l.condition(n), v) != NO ==>
      if Depends(l.condition(n).value, l.sym(m)) then ExactOperand(l.sym(m), v) ==> v(l.sym(m)).tri != NO
      else EvalOpt(l.prompt(m), v) != NO
  }

  predicate AllGuarded(l: Labels, m: Menu, f: Forest, v: Valuation) {
    f.Cons? ==> Guarded(l, m, f.t.m, v) && AllGuarded(l, m, f.rest, v)
  }

  /** What passes the test is guarded. */
  lemma MovedItemIsGuarded(l: Labels, m: Menu, n: Menu, v: Valuation)
    requires Admissible(v) && Proper(l.prompt(m)) && Proper(l.condition(n)) && OracleOf(l)(m, n)
    ensures Guarded(l, m, n, v)
  {
    if Comparable(l, m, n, v) && EvalOpt(l.condition(n), v) != NO {
      MovedItemIsEnabledUnderSymbol(l.sym(m), l.condition(n), l.prompt(m), v);
    }
  }

  lemma {:induction false} DependingItemsAreGuarded(l: Labels, m: Menu, f: Forest, v: Valuation)
    requires Admissible(v) && Proper(l.prompt(m))
    requires AllDepend(OracleOf(l), m, f) && forall n :: n in Preorder(f) ==> Proper(l.condition(n))
    ensures AllGuarded(l, m, f, v)
  {
    if f.Cons? {
      var n := f.t.m;
      assert n in Preorder(f);
      MovedItemIsGuarded(l, m, n, v);
      DependingItemsAreGuarded(l, m, f.rest, v);
    }
  }

  /** In every valuation, all items that are taken under a node are guarded by it. */
  lemma {:induction false} TakenItemsAreGuarded(l: Labels, m: Menu, f: Forest, v: Valuation)
    requires Admissible(v) && Proper(l.prompt(m))
    requires forall n :: n in Preorder(f) ==> Proper(l.condition(n))
    ensures AllGuarded(l, m, Taken(OracleOf(l), m, f).0, v)
  {
    var (taken, left) := Taken(OracleOf(l), m, f);
    TakesTheWholeRun(OracleOf(l), m, f);
    TakePreorder(Fixed(OracleOf(l)), (), m, f);
    forall n | n in Preorder(taken)
      ensures Proper(l.condition(n))
    {
      assert n in Preorder(taken) + Preorder(left);
    }
    DependingItemsAreGuarded(l, m, taken, v);
  }

  /** The stored conditions are as the dependency test wants them, for every tree whose
      declared conditions have no clash. */
  lemma {:induction false} StoredConditionsAreProper(o: Entries, f: Forest, modules: Symbol, m: Menu)
    requires WellMade(o, f, modules, true) && m in Preorder(f)
    ensures ProperEntry(Final(Mode(true, modules), o, f).entries[m])
  {
    var v := Witness(No, NO);
    assert Admissible(v);
    var mode, start := Mode(true, modules), Start(modules, true);
    FinalConditions(mode, o, f, true, m, v);
    ApartAlongPath(o, f, start, m);
    AlongPathStands(o, start, PathTo(f, m));
    DoneIsProper(mode, o[m], Final(mode, o, f).entries[m],
      Conjunction(o, None, PathTo(f, m), modules, v), TestsAlong(o, start, PathTo(f, m)), v);
  }

  ghost predicate ProperEntry(e: Entry) {
    Proper(e.dep) && forall i :: 0 <= i < |e.props| ==> Proper(e.props[i].cond)
  }

  lemma {:induction false} AlongPathStands(o: Entries, ts: Allowed, path: seq<Menu>)
    requires forall n: Menu :: n in path ==> n in o
    ensures TestsAlong(o, ts, path).alone == ts.alone
    decreases |path|
  {
    if path != [] { AlongPathStands(o, Plus(ts, o[path[0]].dep), path[1..]); }
  }

  lemma DoneIsProper(mode: Mode, o: Entry, e: Entry, w: Meaning, ts: Allowed, v: Valuation)
    requires mode.simplify && ts.alone && PropertiesApart(o, ts) && EntryDone(mode, o, e, w, ts, v)
    ensures ProperEntry(e)
  {
    FitIsProper(mode, e.dep, ts);
    forall i | 0 <= i < |e.props|
      ensures Proper(e.props[i].cond)
    {
      assert PropertyDone(mode, o.props[i], e.props[i], w, ts, v);
      FitIsProper(mode, e.props[i].cond, Plus(ts, o.props[i].cond));
    }
  }

  lemma FitIsProper(mode: Mode, e: Option<Expr>, ts: Allowed)
    requires mode.simplify && Fit(mode, e, ts) && ts.alone && TestsApart(ts.tests)
    ensures Proper(e)
  {
    TestsApartSubset(TestsOf(e, true), ts.tests);
  }

  // ----- the labels are the stored conditions -----

  /** The prompt of a node: the one given last, of all that stand there. */
  function PromptOf(ps: seq<Property>): Option<Property> {
    if ps == [] then None
    else if ps[|ps| - 1].role.Prompts? then Some(ps[|ps| - 1])
    else PromptOf(ps[..|ps| - 1])
  }

  function PromptAt(es: Entries, m: Menu): Option<Expr> {
    if m in es && PromptOf(es[m].props).Some? then PromptOf(es[m].props).value.cond else None
  }

  /** The condition of an item is its prompt's, or without a prompt its own. */
  function ConditionAt(es: Entries, n: Menu): Option<Expr> {
    if n in es && PromptOf(es[n].props).None? then es[n].dep else PromptAt(es, n)
  }

  function SymbolAt(es: Entries, m: Menu): Symbol { if m in es && es[m].sym.Some? then es[m].sym.value else No }

  function LabelsOf(es: Entries): Labels {
    Labels((m: Menu) => SymbolAt(es, m), (n: Menu) => ConditionAt(es, n), (m: Menu) => PromptAt(es, m))
  }

  lemma {:induction false} PromptIsProperty(ps: seq<Property>)
    ensures PromptOf(ps).Some? ==> PromptOf(ps).value in ps
  {
    if ps != [] && !ps[|ps| - 1].role.Prompts? { PromptIsProperty(ps[..|ps| - 1]); }
  }

  /** The prompt of a node is the one that stands last among its properties; an item's
      condition is that of its prompt, or its own if it has none. */
  lemma {:induction false} LabelsByPlace(es: Entries, m: Menu, i: int)
    requires m in es && -1 <= i < |es[m].props| && (i >= 0 ==> es[m].props[i].role == Prompts)
    requires forall j :: i < j < |es[m].props| ==> es[m].props[j].role != Prompts
    ensures i >= 0 ==> PromptAt(es, m) == ConditionAt(es, m) == es[m].props[i].cond
    ensures i < 0 ==> PromptAt(es, m) == None && ConditionAt(es, m) == es[m].dep
    ensures es[m].sym.Some? ==> SymbolAt(es, m) == es[m].sym.value
  {
    LastPrompt(es[m].props, i);
  }

  lemma {:induction false} LastPrompt(ps: seq<Property>, i: int)
    requires -1 <= i < |ps| && (i >= 0 ==> ps[i].role == Prompts) && forall j :: i < j < |ps| ==> ps[j].role != Prompts
    ensures PromptOf(ps) == if i >= 0 then Some(ps[i]) else None
  {
    if i < |ps| - 1 { LastPrompt(ps[..|ps| - 1], i); }
  }

  lemma LabelsAreProper(es: Entries, m: Menu)
    requires m in es && ProperEntry(es[m])
    ensures Proper(PromptAt(es, m)) && Proper(ConditionAt(es, m))
  {
    PromptIsProperty(es[m].props);
  }

  /** Whatever moves under a node by the stored conditions is guarded by it. */
  lemma {:induction false} MovedNodesAreGuarded(o: Entries, f: Forest, modules: Symbol, m: Menu, n: Menu, v: Valuation)
    requires Admissible(v) && WellMade(o, f, modules, true) && m in Preorder(f) && n in Preorder(f)
    requires OracleOf(LabelsOf(Final(Mode(true, modules), o, f).entries))(m, n)
    ensures Guarded(LabelsOf(Final(Mode(true, modules), o, f).entries), m, n, v)
  {
    var es := Final(Mode(true, modules), o, f).entries;
    StoredConditionsAreProper(o, f, modules, m);
    StoredConditionsAreProper(o, f, modules, n);
    LabelsAreProper(es, m);
    LabelsAreProper(es, n);
    MovedItemIsGuarded(LabelsOf(es), m, n, v);
  }

  /** Every item that moves anywhere in the tree is guarded by the node it moves under. */
  lemma {:induction false} MovesAreGuarded(o: Entries, t: Tree, modules: Symbol)
    requires WellMade(o, t.kids, modules, true) && !t.m.hasSym
    ensures var es := Final(Mode(true, modules), o, t.kids).entries;
      forall u: Visit, v: Valuation :: u in Moves(OracleOf(LabelsOf(es)), t, Nil, false) && Admissible(v) ==>
        Guarded(LabelsOf(es), u.parent, u.child, v)
  {
    var es := Final(Mode(true, modules), o, t.kids).entries;
    var test := OracleOf(LabelsOf(es));
    MovesAllDepend(test, t.kids, t.m.isChoice, Preorder(t.kids));
    forall u: Visit, v: Valuation | u in Moves(test, t, Nil, false) && Admissible(v)
      ensures Guarded(LabelsOf(es), u.parent, u.child, v)
    {
      assert MovesRightly(test, u, Preorder(t.kids));
      MovedNodesAreGuarded(o, t.kids, modules, u.parent, u.child, v);
    }
  }

  /** The relation allows a node under any other that guards it in every valuation. */
  ghost predicate AllowsGuarded(l: Labels, all: seq<Menu>, places: set<Visit>) {
    forall m: Menu, n: Menu :: m in all && n in all && (forall v: Valuation :: Admissible(v) ==> Guarded(l, m, n, v)) ==>
      Visit(m, n) in places
  }

  /** In the finalized tree every node stands under the one it was parsed under, or one
      that guards it, or has been lifted from there past nodes without a prompt. */
  lemma {:induction false} PlacesAreGuarded(o: Entries, t: Tree, modules: Symbol, places: set<Visit>)
    requires WellMade(o, t.kids, modules, true) && !t.m.hasSym
    requires Lifting(places) && Stands(t.m, t.kids, places)
    requires AllowsGuarded(LabelsOf(Final(Mode(true, modules), o, t.kids).entries), Preorder(t.kids), places)
    ensures var es := Final(Mode(true, modules), o, t.kids).entries;
      Stands(t.m, Settled(OracleOf(LabelsOf(es)), t, Nil, false).0.kids, places)
  {
    var es := Final(Mode(true, modules), o, t.kids).entries;
    var test := OracleOf(LabelsOf(es));
    MovesAreGuarded(o, t, modules);
    MovesAllDepend(test, t.kids, t.m.isChoice, Preorder(t.kids));
    forall u: Visit | u in Moves(test, t, Nil, false)
      ensures u in places
    {
      assert MovesRightly(test, u, Preorder(t.kids));
      assert Visit(u.parent, u.child) == u;
    }
    FinalizedPlaces(test, t, places);
  }
}
