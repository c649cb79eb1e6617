/** When a configuration without choices can be evaluated: exactly when no cycle is left
    once the bounds of ranges, which the dependency check passes over, are followed too. */
module CheckedEval {
  import opened Symbols
  import opened Exprs
  import opened SymbolEval
  import D = DepCheck
  import Digraph

  function Listed(e: Option<Expr>): seq<Expr> { if e.None? then [] else [e.value] }

  function PromptExprs(ps: seq<Option<Expr>>): seq<Expr> {
    if ps == [] then [] else Listed(ps[0]) + PromptExprs(ps[1..])
  }

  function DefaultExprs(ds: seq<Default>): seq<Expr> {
    if ds == [] then [] else Listed(ds[0].cond) + [ds[0].value] + DefaultExprs(ds[1..])
  }

  function RangeExprs(rs: seq<Range>): seq<Expr> {
    if rs == [] then [] else Listed(rs[0].cond) + RangeExprs(rs[1..])
  }

  /** The expressions the check follows from a symbol; of a range, only the condition. */
  function CheckedExprs(d: Definition): seq<Expr> {
    Listed(d.dirDep) + Listed(d.revDep) + Listed(d.implied) + PromptExprs(d.prompts) + DefaultExprs(d.defaults) + RangeExprs(d.ranges)
  }

  function GraphOf(k: Kconfig): D.Graph {
    D.Graph(map s | s in k.defs :: CheckedExprs(k.defs[s]), map[], map[])
  }

  function BoundExprs(rs: seq<Range>): seq<Expr> {
    if rs == [] then [] else [Sym(rs[0].low), Sym(rs[0].high)] + BoundExprs(rs[1..])
  }

  /** The graph that evaluation follows: with the bounds. */
  function BoundedGraph(k: Kconfig): D.Graph {
    D.Graph(map s | s in k.defs :: CheckedExprs(k.defs[s]) + BoundExprs(k.defs[s].ranges), map[], map[])
  }

  lemma {:induction false} PromptIsListed(ps: seq<Option<Expr>>, i: nat)
    requires i < |ps| && ps[i].Some?
    ensures ps[i].value in PromptExprs(ps)
  {
    if i > 0 { PromptIsListed(ps[1..], i - 1); }
  }

  lemma {:induction false} DefaultIsListed(ds: seq<Default>, i: nat)
    requires i < |ds|
    ensures ds[i].value in DefaultExprs(ds) && (ds[i].cond.Some? ==> ds[i].cond.value in DefaultExprs(ds))
  {
    if i > 0 { DefaultIsListed(ds[1..], i - 1); }
  }

  lemma {:induction false} RangeIsListed(rs: seq<Range>, i: nat)
    requires i < |rs| && rs[i].cond.Some?
    ensures rs[i].cond.value in RangeExprs(rs)
  {
    if i > 0 { RangeIsListed(rs[1..], i - 1); }
  }

  predicate IsBound(d: Definition, t: Symbol) {
    exists i :: 0 <= i < |d.ranges| && (d.ranges[i].low == t || d.ranges[i].high == t)
  }

  /** Nothing that evaluation depends on escapes the check but the bounds of ranges. */
  lemma DependencyIsChecked(d: Definition, t: Symbol)
    requires DependsOn(d, t) && !IsBound(d, t)
    ensures exists e :: e in CheckedExprs(d) && t in SymbolsOf(e)
  {
    if Mentions(d.dirDep, t) {
      assert d.dirDep.value in CheckedExprs(d);
    } else if Mentions(d.revDep, t) {
      assert d.revDep.value in CheckedExprs(d);
    } else if Mentions(d.implied, t) {
      assert d.implied.value in CheckedExprs(d);
    } else if exists i :: 0 <= i < |d.prompts| && Mentions(d.prompts[i], t) {
      var i :| 0 <= i < |d.prompts| && Mentions(d.prompts[i], t);
      PromptIsListed(d.prompts, i);
      assert d.prompts[i].value in CheckedExprs(d);
    } else if exists i :: 0 <= i < |d.ranges| && RangeMentions(d.ranges[i], t) {
      var i :| 0 <= i < |d.ranges| && RangeMentions(d.ranges[i], t);
      RangeIsListed(d.ranges, i);
      assert d.ranges[i].cond.value in CheckedExprs(d);
    } else {
      var i :| 0 <= i < |d.defaults| && (Mentions(d.defaults[i].cond, t) || t in SymbolsOf(d.defaults[i].value));
      DefaultIsListed(d.defaults, i);
      assert d.defaults[i].value in CheckedExprs(d);
      if Mentions(d.defaults[i].cond, t) { assert d.defaults[i].cond.value in CheckedExprs(d); }
    }
  }

  lemma {:induction false} ListedPrompt(ps: seq<Option<Expr>>, e: Expr)
    requires e in PromptExprs(ps)
    ensures exists i :: 0 <= i < |ps| && ps[i] == Some(e)
  {
    if ps[0] != Some(e) {
      ListedPrompt(ps[1..], e);
      var i :| 0 <= i < |ps[1..]| && ps[1..][i] == Some(e);
      assert ps[i + 1] == Some(e);
    }
  }

  lemma {:induction false} ListedDefault(ds: seq<Default>, e: Expr)
    requires e in DefaultExprs(ds)
    ensures exists i :: 0 <= i < |ds| && (ds[i].value == e || ds[i].cond == Some(e))
  {
    if !(ds[0].value == e || ds[0].cond == Some(e)) {
      ListedDefault(ds[1..], e);
      var i :| 0 <= i < |ds[1..]| && (ds[1..][i].value == e || ds[1..][i].cond == Some(e));
      assert ds[i + 1].value == e || ds[i + 1].cond == Some(e);
    }
  }

  lemma {:induction false} ListedRange(rs: seq<Range>, e: Expr)
    requires e in RangeExprs(rs)
    ensures exists i :: 0 <= i < |rs| && rs[i].cond == Some(e)
  {
    if rs[0].cond != Some(e) {
      ListedRange(rs[1..], e);
      var i :| 0 <= i < |rs[1..]| && rs[1..][i].cond == Some(e);
      assert rs[i + 1].cond == Some(e);
    }
  }

  lemma {:induction false} BoundIsListed(rs: seq<Range>, i: nat, t: Symbol)
    requires i < |rs| && (rs[i].low == t || rs[i].high == t)
    ensures Sym(t) in BoundExprs(rs)
  {
    if i > 0 { BoundIsListed(rs[1..], i - 1, t); }
  }

  lemma {:induction false} ListedBound(rs: seq<Range>, e: Expr)
    requires e in BoundExprs(rs)
    ensures exists i :: 0 <= i < |rs| && (e == Sym(rs[i].low) || e == Sym(rs[i].high))
  {
    if e != Sym(rs[0].low) && e != Sym(rs[0].high) {
      ListedBound(rs[1..], e);
      var i :| 0 <= i < |rs[1..]| && (e == Sym(rs[1..][i].low) || e == Sym(rs[1..][i].high));
      assert rs[i + 1] == rs[1..][i];
    }
  }

  lemma BoundExprsAreBounds(d: Definition, t: Symbol)
    ensures (exists e :: e in BoundExprs(d.ranges) && t in SymbolsOf(e)) <==> IsBound(d, t)
  {
    if IsBound(d, t) {
      var i :| 0 <= i < |d.ranges| && (d.ranges[i].low == t || d.ranges[i].high == t);
      BoundIsListed(d.ranges, i, t);
      assert t in SymbolsOf(Sym(t));
    }
    if e :| e in BoundExprs(d.ranges) && t in SymbolsOf(e) {
      ListedBound(d.ranges, e);
    }
  }

  /** And the check follows nothing else. */
  lemma CheckedIsDependency(d: Definition, e: Expr, t: Symbol)
    requires e in CheckedExprs(d) && t in SymbolsOf(e)
    ensures DependsOn(d, t)
  {
    if e in PromptExprs(d.prompts) {
      ListedPrompt(d.prompts, e);
      var i :| 0 <= i < |d.prompts| && d.prompts[i] == Some(e);
      assert Mentions(d.prompts[i], t);
    } else if e in DefaultExprs(d.defaults) {
      ListedDefault(d.defaults, e);
      var i :| 0 <= i < |d.defaults| && (d.defaults[i].value == e || d.defaults[i].cond == Some(e));
      assert Mentions(d.defaults[i].cond, t) || t in SymbolsOf(d.defaults[i].value);
    } else if e in RangeExprs(d.ranges) {
      ListedRange(d.ranges, e);
      var i :| 0 <= i < |d.ranges| && d.ranges[i].cond == Some(e);
      assert RangeMentions(d.ranges[i], t);
    } else {
      assert Mentions(d.dirDep, t) || Mentions(d.revDep, t) || Mentions(d.implied, t);
    }
  }

  lemma GraphEdge(g: D.Graph, s: Symbol, t: Symbol)
    requires g.choiceOf == map[]
    ensures D.EdgeOf(g)(s, t) <==> D.SymbolEdge(g, s, t)
  {
    assert D.Edge(g, s, t) <==> D.SymbolEdge(g, s, t) by {
      if D.SymbolEdge(g, s, t) { assert D.Node(g, s) == s && D.Node(g, t) == t; }
    }
  }

  lemma CheckedEdge(k: Kconfig, s: Symbol, t: Symbol)
    ensures D.EdgeOf(GraphOf(k))(s, t) ==> DependsOn(Def(k, s), t)
    ensures DependsOn(Def(k, s), t) ==> D.EdgeOf(GraphOf(k))(s, t) || IsBound(Def(k, s), t)
  {
    GraphEdge(GraphOf(k), s, t);
    if D.SymbolEdge(GraphOf(k), s, t) {
      var e :| e in D.ExprsOf(GraphOf(k), s) && t in SymbolsOf(e);
      CheckedIsDependency(Def(k, s), e, t);
    }
    if DependsOn(Def(k, s), t) && !IsBound(Def(k, s), t) {
      DependencyIsChecked(Def(k, s), t);
      assert s in k.defs;
      assert D.SymbolEdge(GraphOf(k), s, t);
    }
  }

  /** The edges of the graph with the bounds are exactly what evaluation depends on. */
  lemma BoundedEdge(k: Kconfig, s: Symbol, t: Symbol)
    ensures D.EdgeOf(BoundedGraph(k))(s, t) <==> DependsOn(Def(k, s), t)
  {
    var d := Def(k, s);
    CheckedEdge(k, s, t);
    BoundExprsAreBounds(d, t);
    BoundedOrChecked(k, s, t);
    if IsBound(d, t) { BoundIsDependency(d, t); }
  }

  lemma BoundedOrChecked(k: Kconfig, s: Symbol, t: Symbol)
    ensures D.EdgeOf(BoundedGraph(k))(s, t) <==>
            D.EdgeOf(GraphOf(k))(s, t) || exists e :: e in BoundExprs(Def(k, s).ranges) && t in SymbolsOf(e)
  {
    GraphEdge(BoundedGraph(k), s, t);
    GraphEdge(GraphOf(k), s, t);
    if s in k.defs {
      var d := k.defs[s];
      assert D.ExprsOf(BoundedGraph(k), s) == CheckedExprs(d) + BoundExprs(d.ranges);
      assert D.ExprsOf(GraphOf(k), s) == CheckedExprs(d);
    }
  }

  /** An order of evaluation exists exactly when the graph with the bounds has no cycle. */
  lemma {:induction false} OrderExistsIff(k: Kconfig)
    ensures (exists rank: Symbol -> nat :: Ranked(k, rank)) <==> !Digraph.HasCycle(D.EdgeOf(BoundedGraph(k)))
  {
    var edge := D.EdgeOf(BoundedGraph(k));
    forall s: Symbol, t: Symbol ensures edge(s, t) <==> DependsOn(Def(k, s), t) { BoundedEdge(k, s, t); }
    if exists rank: Symbol -> nat :: Ranked(k, rank) {
      var rank: Symbol -> nat :| Ranked(k, rank);
      if p: seq<Symbol> :| |p| >= 2 && p[0] == p[|p| - 1] && Digraph.IsWalk(edge, p) {
        Digraph.NumberingDescends(edge, rank, p, |p| - 1);
        assert false;
      }
    }
    if !Digraph.HasCycle(edge) {
      var ranks := Digraph.AcyclicIsRanked(edge, k.defs.Keys);
      assert Ranked(k, RankOf(ranks)) by {
        forall s: Symbol, t: Symbol | DependsOn(Def(k, s), t)
          ensures RankOf(ranks)(t) < RankOf(ranks)(s)
        {
          assert edge(s, t) && s in k.defs;
        }
      }
    }
  }

  ghost function RankOf(ranks: map<Symbol, nat>): Symbol -> nat {
    (s: Symbol) => if s in ranks then ranks[s] + 1 else 0
  }

  /** No bound of a range leads back to the symbol it bounds. */
  ghost predicate BoundsCloseNoCycle(k: Kconfig) {
    forall s: Symbol, t: Symbol :: IsBound(Def(k, s), t) ==> !Digraph.Connected(D.EdgeOf(BoundedGraph(k)), t, s)
  }

  /** Beyond the cycles that the check finds there are those closed by a bound. */
  lemma {:induction false} CyclesBeyondTheCheck(k: Kconfig)
    ensures !Digraph.HasCycle(D.EdgeOf(BoundedGraph(k))) <==>
            !Digraph.HasCycle(D.EdgeOf(GraphOf(k))) && BoundsCloseNoCycle(k)
  {
    var edge, checked := D.EdgeOf(BoundedGraph(k)), D.EdgeOf(GraphOf(k));
    forall s: Symbol, t: Symbol
      ensures checked(s, t) ==> edge(s, t)
      ensures IsBound(Def(k, s), t) ==> edge(s, t)
      ensures edge(s, t) ==> checked(s, t) || IsBound(Def(k, s), t)
    {
      CheckedEdge(k, s, t);
      BoundedEdge(k, s, t);
      if IsBound(Def(k, s), t) { BoundIsDependency(Def(k, s), t); }
    }
    if p: seq<Symbol> :| |p| >= 2 && p[0] == p[|p| - 1] && Digraph.IsWalk(checked, p) {
      assert Digraph.IsWalk(edge, p);
    }
    if s: Symbol, t: Symbol :| IsBound(Def(k, s), t) && Digraph.Connected(edge, t, s) {
      Digraph.ConnectedClosesCycle(edge, s, t);
    }
    if p: seq<Symbol> :| |p| >= 2 && p[0] == p[|p| - 1] && Digraph.IsWalk(edge, p) {
      if i :| 0 <= i < |p| - 1 && !checked(p[i], p[i + 1]) {
        assert edge(p[i], p[i + 1]);
        Digraph.CycleConnects(edge, p, i);
      } else {
        assert Digraph.IsWalk(checked, p);
      }
    }
  }

  lemma BoundIsDependency(d: Definition, t: Symbol)
    requires IsBound(d, t)
    ensures DependsOn(d, t)
  {
    var i :| 0 <= i < |d.ranges| && (d.ranges[i].low == t || d.ranges[i].high == t);
    assert RangeMentions(d.ranges[i], t);
  }

  /** Ranges bounded by constants, which have no definition. */
  ghost predicate ConstantBounds(k: Kconfig) {
    forall s :: s in k.defs ==> !IsConst(s) && forall t: Symbol :: IsBound(k.defs[s], t) ==> IsConst(t)
  }

  lemma ConstantsCloseNoCycle(k: Kconfig)
    requires ConstantBounds(k)
    ensures BoundsCloseNoCycle(k)
  {
    var edge := D.EdgeOf(BoundedGraph(k));
    forall s: Symbol, t: Symbol | IsBound(Def(k, s), t)
      ensures !Digraph.Connected(edge, t, s)
    {
      assert s in k.defs && !IsConst(s) && t !in k.defs;
      forall u: Symbol ensures !edge(t, u) { BoundedEdge(k, t, u); }
      Digraph.SinkLeadsNowhere(edge, t, s);
    }
  }

  lemma RankedOrders(k: Kconfig, rank: Symbol -> nat, a: Symbol, b: Symbol)
    requires Ranked(k, rank) && DependsOn(Def(k, a), b)
    ensures rank(b) < rank(a)
  {
  }

  lemma MutualIsUnranked(k: Kconfig, rank: Symbol -> nat, a: Symbol, b: Symbol)
    requires DependsOn(Def(k, a), b) && DependsOn(Def(k, b), a)
    ensures !Ranked(k, rank)
  {
    if Ranked(k, rank) {
      RankedOrders(k, rank, a, b);
      RankedOrders(k, rank, b, a);
    }
  }

  function BoundedBy(b: Symbol): Definition { Definition([], [], None, None, None, [Range(b, b, None)], None) }

  function DefaultsTo(a: Symbol): Definition { Definition([], [Default(Sym(a), None)], None, None, None, [], None) }

  lemma ExprsOfBounded(b: Symbol)
    ensures CheckedExprs(BoundedBy(b)) == [] && DependsOn(BoundedBy(b), b)
  {
    var d := BoundedBy(b);
    assert d.ranges[1..] == [] && RangeMentions(d.ranges[0], b);
    assert RangeExprs(d.ranges) == [];
  }

  lemma ExprsOfDefaulting(a: Symbol)
    ensures CheckedExprs(DefaultsTo(a)) == [Sym(a)] && DependsOn(DefaultsTo(a), a)
  {
    var d := DefaultsTo(a);
    assert d.defaults[1..] == [] && a in SymbolsOf(d.defaults[0].value);
    assert DefaultExprs(d.defaults) == [Sym(a)];
  }

  /** Bounds that are symbols escape the check: it accepts a configuration in which the
      range of A is bounded by B and the default of B is A, and no order of evaluation exists. */
  lemma BoundsAreNotChecked(a: Symbol, b: Symbol)
    requires a.Config? && b.Config? && a != b
    ensures var k := Kconfig(map[a := BoundedBy(b), b := DefaultsTo(a)], YES);
      !Digraph.HasCycle(D.EdgeOf(GraphOf(k))) && forall rank: Symbol -> nat :: !Ranked(k, rank)
  {
    var k := Kconfig(map[a := BoundedBy(b), b := DefaultsTo(a)], YES);
    BoundPassesTheCheck(a, b);
    ExprsOfBounded(b);
    ExprsOfDefaulting(a);
    assert Def(k, a) == BoundedBy(b) && Def(k, b) == DefaultsTo(a);
    forall rank: Symbol -> nat ensures !Ranked(k, rank) { MutualIsUnranked(k, rank, a, b); }
  }

  lemma BoundPassesTheCheck(a: Symbol, b: Symbol)
    requires a != b
    ensures !Digraph.HasCycle(D.EdgeOf(GraphOf(Kconfig(map[a := BoundedBy(b), b := DefaultsTo(a)], YES))))
  {
    var k := Kconfig(map[a := BoundedBy(b), b := DefaultsTo(a)], YES);
    forall s: Symbol ensures D.ExprsOf(GraphOf(k), s) == if s == b then [Sym(a)] else [] { ExprsOfTwo(a, b, k, s); }
    OneEdgeIsNoCycle(GraphOf(k), a, b);
  }

  lemma ExprsOfTwo(a: Symbol, b: Symbol, k: Kconfig, s: Symbol)
    requires a != b && k.defs == map[a := BoundedBy(b), b := DefaultsTo(a)]
    ensures D.ExprsOf(GraphOf(k), s) == if s == b then [Sym(a)] else []
  {
    ExprsOfBounded(b);
    ExprsOfDefaulting(a);
    assert s in GraphOf(k).exprs <==> s == a || s == b;
  }

  lemma OneEdgeIsNoCycle(g: D.Graph, a: Symbol, b: Symbol)
    requires a != b && g.choiceOf == map[] && forall s: Symbol :: D.ExprsOf(g, s) == if s == b then [Sym(a)] else []
    ensures !Digraph.HasCycle(D.EdgeOf(g))
  {
    forall x: Symbol, y: Symbol | D.EdgeOf(g)(x, y)
      ensures x == b && y == a
    {
      GraphEdge(g, x, y);
      var e :| e in D.ExprsOf(g, x) && y in SymbolsOf(e);
      assert x == b && e == Sym(a);
    }
    Digraph.RankedHasNoCycle(D.EdgeOf(g), map[a := 0, b := 1]);
  }

  /** Without the definitions that evaluation never reads: an untyped symbol, such as one
      that is selected but defined nowhere, is worth n whatever is gathered for it. */
  function Typed(k: Kconfig): Kconfig {
    k.(defs := map s | s in k.defs && !TypeOf(s).Unknown? :: k.defs[s])
  }

  lemma TypedIsSame(k: Kconfig, v: Valuation)
    ensures Solves(Typed(k), v) <==> Solves(k, v)
  {
    forall s: Symbol
      ensures Step(Typed(k), s, v) == Step(k, s, v)
    {
      if !TypeOf(s).Unknown? { TypedStep(k, s, v); }
    }
    if Solves(k, v) {
      forall s: Symbol ensures v(s) == Step(Typed(k), s, v) { assert v(s) == Step(k, s, v); }
    }
    if Solves(Typed(k), v) {
      forall s: Symbol ensures v(s) == Step(k, s, v) { assert v(s) == Step(Typed(k), s, v); }
    }
  }

  lemma TypedStep(k: Kconfig, s: Symbol, v: Valuation)
    requires !TypeOf(s).Unknown?
    ensures Step(Typed(k), s, v) == Step(k, s, v)
  {
    assert Def(Typed(k), s) == Def(k, s);
  }

  /** After a check without errors of all symbols that have a type, no cycle is left
      among the dependencies that it follows. */
  lemma CheckedHasNoCycle(k: Kconfig, syms: seq<Symbol>, ranks: map<Symbol, nat>)
    requires Digraph.Descends(D.EdgeOf(GraphOf(k)), ranks) && forall s :: s in syms ==> s in ranks
    requires forall s :: s in k.defs && !TypeOf(s).Unknown? ==> s in syms
    ensures !Digraph.HasCycle(D.EdgeOf(GraphOf(Typed(k))))
  {
    var edge := D.EdgeOf(GraphOf(Typed(k)));
    forall s: Symbol, t: Symbol | edge(s, t)
      ensures s in ranks && D.EdgeOf(GraphOf(k))(s, t)
    {
      GraphEdge(GraphOf(Typed(k)), s, t);
      GraphEdge(GraphOf(k), s, t);
      assert D.ExprsOf(GraphOf(Typed(k)), s) == D.ExprsOf(GraphOf(k), s);
    }
    Digraph.RankedHasNoCycle(edge, ranks);
  }

  /** When the check of the typed symbols reports no error, an order of evaluation exists
      exactly when no bound of a range closes a cycle; the configuration then has one
      solution, from which the lazy evaluator answers. */
  method CheckThenSolve(k: Kconfig, syms: seq<Symbol>, ghost universe: set<Symbol>)
    returns (errors: nat, ghost v: Valuation, ghost rank: Symbol -> nat)
    requires D.WellFormed(GraphOf(k)) && D.Closed(GraphOf(k), universe)
    requires (forall s :: s in syms ==> s in universe) && forall s :: s in k.defs && !TypeOf(s).Unknown? ==> s in syms
    ensures errors > 0 ==> Digraph.HasCycle(D.EdgeOf(GraphOf(k)))
    ensures (forall s :: s in k.defs ==> s in syms) ==> (errors == 0 <==> !Digraph.HasCycle(D.EdgeOf(GraphOf(k))))
    ensures errors == 0 ==> !Digraph.HasCycle(D.EdgeOf(GraphOf(Typed(k))))
    ensures errors == 0 ==> ((exists r: Symbol -> nat :: Ranked(Typed(k), r)) <==> BoundsCloseNoCycle(Typed(k)))
    ensures errors == 0 && BoundsCloseNoCycle(Typed(k)) ==>
              Ranked(Typed(k), rank) && Solves(k, v) && forall w: Valuation, s: Symbol :: Solves(k, w) ==> w(s) == v(s)
  {
    var checker := new D.Checker(GraphOf(k), universe);
    errors := checker.CheckAll(syms);
    rank := (s: Symbol) => 0;
    v := (s: Symbol) => SymVal(NO, "");
    if errors == 0 {
      forall s | s in syms ensures s in checker.rank { assert D.Node(GraphOf(k), s) == s; }
      CheckedHasNoCycle(k, syms, checker.rank);
      CyclesBeyondTheCheck(Typed(k));
      OrderExistsIff(Typed(k));
      if BoundsCloseNoCycle(Typed(k)) {
        rank :| Ranked(Typed(k), rank);
        v := SolutionExists(Typed(k), rank);
        TypedIsSame(k, v);
        forall w: Valuation, s: Symbol | Solves(k, w)
          ensures w(s) == v(s)
        {
          TypedIsSame(k, w);
          SolutionIsUnique(Typed(k), rank, w, v, s);
        }
      }
    }
  }
}
