/** Finalizing a parsed menu tree as the source does it: one recursion rewires the links,
    passes conditions down and tests for dependencies on those stored so far. It comes to
    the same as passing all conditions down first and restructuring by the final ones. */
module MenuFinalization {
  import opened Symbols
  import opened Exprs
  import opened MenuConditions
  import opened MenuForest
  import opened MenuTree
  import opened Sequences
  import opened SubmenuTree

  // ----- the pass as a list of visits -----

  ghost predicate Known(es: Entries, vs: seq<Visit>) { forall v: Visit :: v in vs ==> v.parent in es && v.child in es }

  ghost function VisitAll(mode: Mode, st: State, vs: seq<Visit>): (r: State)
    requires Known(st.entries, vs)
    ensures r.entries.Keys == st.entries.Keys
    decreases |vs|
  {
    if vs == [] then st
    else VisitAll(mode, VisitNode(mode, st, st.entries[vs[0].parent].dep, vs[0].child), vs[1..])
  }

  lemma {:induction false} VisitAllInTurn(mode: Mode, st: State, a: seq<Visit>, b: seq<Visit>)
    requires Known(st.entries, a + b)
    ensures Known(st.entries, a) && Known(st.entries, b)
    ensures VisitAll(mode, st, a + b) == VisitAll(mode, VisitAll(mode, st, a), b)
    decreases |a|
  {
    assert forall v: Visit :: v in a || v in b ==> v in a + b;
    if a == [] {
      assert a + b == b;
    } else {
      assert (a + b)[1..] == a[1..] + b;
      VisitAllInTurn(mode, VisitNode(mode, st, st.entries[a[0].parent].dep, a[0].child), a[1..], b);
    }
  }

  ghost predicate Touches(vs: seq<Visit>, m: Menu) { exists v: Visit :: v in vs && v.child == m }

  /** A node that is not visited any more keeps its conditions. */
  lemma {:induction false} VisitsTouchChildren(mode: Mode, st: State, vs: seq<Visit>, m: Menu)
    requires Known(st.entries, vs) && m in st.entries && !Touches(vs, m)
    ensures VisitAll(mode, st, vs).entries[m] == st.entries[m]
    decreases |vs|
  {
    if vs != [] {
      var above, c := st.entries[vs[0].parent].dep, vs[0].child;
      OthersUntouched(mode, SetDep(st, c, Conjoin(mode, above, st.entries[c].dep)), c, 0, m);
      VisitsTouchChildren(mode, VisitNode(mode, st, above, c), vs[1..], m);
    }
  }

  /** Between two nodes that are not visited any more the test has its final outcome. */
  lemma TestIsFinal(mode: Mode, st: State, vs: seq<Visit>, m: Menu, n: Menu)
    requires Known(st.entries, vs) && m in st.entries && n in st.entries && !Touches(vs, m) && !Touches(vs, n)
    ensures OracleOf(LabelsOf(st.entries))(m, n) == OracleOf(LabelsOf(VisitAll(mode, st, vs).entries))(m, n)
  {
    VisitsTouchChildren(mode, st, vs, m);
    VisitsTouchChildren(mode, st, vs, n);
  }

  lemma {:induction false} LevelIsVisits(mode: Mode, st: State, parent: Menu, f: Forest)
    requires Covered(st.entries, f) && parent in st.entries && parent !in Preorder(f)
    ensures Known(st.entries, LevelVisits(parent, f))
    ensures Level(mode, st, st.entries[parent].dep, f) == VisitAll(mode, st, LevelVisits(parent, f))
    decreases f
  {
    if f.Cons? {
      CoveredParts(st.entries, f);
      PreorderParts(f);
      var above, m := st.entries[parent].dep, f.t.m;
      OthersUntouched(mode, SetDep(st, m, Conjoin(mode, above, st.entries[m].dep)), m, 0, parent);
      var st' := VisitNode(mode, st, above, m);
      LevelIsVisits(mode, st', parent, f.rest);
      var vs := LevelVisits(parent, f);
      assert vs[0] == Visit(parent, m) && vs[1..] == LevelVisits(parent, f.rest);
    }
  }

  lemma {:induction false} BelowIsVisits(mode: Mode, st: State, parent: Menu, f: Forest)
    requires Covered(st.entries, f) && parent in st.entries && parent !in Preorder(f) && Distinct(Preorder(f))
    ensures Known(st.entries, LevelVisits(parent, f) + DeepVisits(f))
    ensures Below(mode, st, st.entries[parent].dep, f) == VisitAll(mode, st, LevelVisits(parent, f) + DeepVisits(f))
    decreases Count(f), 1
  {
    LevelIsVisits(mode, st, parent, f);
    DeepIsVisits(mode, Level(mode, st, st.entries[parent].dep, f), f);
    VisitAllInTurn(mode, st, LevelVisits(parent, f), DeepVisits(f));
  }

  lemma {:induction false} DeepIsVisits(mode: Mode, st: State, f: Forest)
    requires Covered(st.entries, f) && Distinct(Preorder(f))
    ensures Known(st.entries, DeepVisits(f)) && Deep(mode, st, f) == VisitAll(mode, st, DeepVisits(f))
    decreases Count(f), 0
  {
    if f.Cons? {
      CoveredParts(st.entries, f);
      MenuConditions.DistinctParts(f);
      var m, kids := f.t.m, f.t.kids;
      var vs := LevelVisits(m, kids) + DeepVisits(kids);
      BelowIsVisits(mode, st, m, kids);
      DeepIsVisits(mode, Below(mode, st, st.entries[m].dep, kids), f.rest);
      VisitAllInTurn(mode, st, vs, DeepVisits(f.rest));
    }
  }

  // ----- the test on the conditions so far -----

  /** Conditions are passed down as in the pass, and items tested by what is stored. */
  function RulesOf(mode: Mode): Rules<State> {
    Rules(
      (st: State, m: Menu, n: Menu) =>
        if m in st.entries && n in st.entries then VisitNode(mode, st, st.entries[m].dep, n) else st,
      (st: State, m: Menu, n: Menu) => OracleOf(LabelsOf(st.entries))(m, n))
  }

  lemma {:induction false} VisitLevelIsVisits(mode: Mode, st: State, m: Menu, f: Forest)
    requires Covered(st.entries, f) && m in st.entries
    ensures Known(st.entries, LevelVisits(m, f))
    ensures VisitLevel(RulesOf(mode), st, m, f) == VisitAll(mode, st, LevelVisits(m, f))
    decreases f
  {
    if f.Cons? {
      CoveredParts(st.entries, f);
      VisitLevelIsVisits(mode, VisitNode(mode, st, st.entries[m].dep, f.t.m), m, f.rest);
      var vs := LevelVisits(m, f);
      assert vs[0] == Visit(m, f.t.m) && vs[1..] == LevelVisits(m, f.rest);
    }
  }

  /** The nodes to be visited are among those of the forest. */
  ghost predicate VisitsWithin(vs: seq<Visit>, f: Forest) { forall v: Visit :: v in vs ==> v.child in Preorder(f) }

  lemma {:induction false} LevelVisitsWithin(m: Menu, f: Forest)
    ensures VisitsWithin(LevelVisits(m, f), f)
  {
    if f.Cons? {
      PreorderParts(f);
      LevelVisitsWithin(m, f.rest);
    }
  }

  /** Those at the top are not among them. */
  lemma {:induction false} DeepVisitsWithin(f: Forest)
    ensures VisitsWithin(DeepVisits(f), f)
    ensures f.Cons? && Distinct(Preorder(f)) ==> !Touches(DeepVisits(f), f.t.m)
  {
    if f.Cons? {
      PreorderParts(f);
      LevelVisitsWithin(f.t.m, f.t.kids);
      DeepVisitsWithin(f.t.kids);
      DeepVisitsWithin(f.rest);
      if Distinct(Preorder(f)) { MenuConditions.DistinctParts(f); }
    }
  }

  /** The visits concern no node of the forest. */
  ghost predicate Past(vs: seq<Visit>, f: Forest) { forall v: Visit :: v in vs ==> v.child !in Preorder(f) }

  /** The nodes at the top of the forest have been visited, those below have not, and the
      visits still ahead lead to the final conditions. */
  ghost predicate At(mode: Mode, st: State, f: Forest, tail: seq<Visit>, final: State) {
    Distinct(Preorder(f)) && Covered(st.entries, f) && Past(tail, f) &&
    Known(st.entries, DeepVisits(f) + tail) && VisitAll(mode, st, DeepVisits(f) + tail) == final
  }

  lemma {:induction false} Entering(mode: Mode, st: State, t: Tree, rest: Forest, tail: seq<Visit>, final: State)
    requires At(mode, st, Cons(t, rest), tail, final)
    ensures t.m in st.entries && t.m !in Preorder(rest) && !Touches(tail, t.m)
    ensures var st' := VisitLevel(RulesOf(mode), st, t.m, t.kids);
      st'.entries.Keys == st.entries.Keys && At(mode, st', t.kids, DeepVisits(rest) + tail, final)
    ensures Distinct(Preorder(rest)) && Covered(st.entries, rest) && Past(tail, rest)
    ensures t.kids == Nil ==> At(mode, st, rest, tail, final)
  {
    var f := Cons(t, rest);
    CoveredParts(st.entries, f);
    MenuConditions.DistinctParts(f);
    PreorderParts(f);
    var level, deep := LevelVisits(t.m, t.kids), DeepVisits(t.kids) + (DeepVisits(rest) + tail);
    assert DeepVisits(f) + tail == level + deep;
    VisitAllInTurn(mode, st, level, deep);
    VisitLevelIsVisits(mode, st, t.m, t.kids);
    DeepVisitsWithin(rest);
    assert t.kids == Nil ==> level + deep == DeepVisits(rest) + tail;
  }

  lemma {:induction false} TestForeseen(mode: Mode, st: State, f: Forest, tail: seq<Visit>, final: State, m: Menu)
    requires At(mode, st, f, tail, final) && f.Cons? && m in st.entries && m !in Preorder(f) && !Touches(tail, m)
    ensures RulesOf(mode).test(st, m, f.t.m) == OracleOf(LabelsOf(final.entries))(m, f.t.m)
  {
    CoveredParts(st.entries, f);
    PreorderParts(f);
    DeepVisitsWithin(f);
    TestIsFinal(mode, st, DeepVisits(f) + tail, m, f.t.m);
  }

  /** What is left over is still ahead. */
  lemma LeftOver(st: State, t: Tree, rest: Forest, t': Tree, rest': Forest, tail: seq<Visit>)
    requires Distinct(Preorder(Cons(t, rest))) && Covered(st.entries, Cons(t, rest)) && Past(tail, Cons(t, rest))
    requires Preorder(Cons(t', rest')) == Preorder(Cons(t, rest))
    ensures Distinct(Preorder(rest')) && Covered(st.entries, rest') && Past(tail, rest')
  {
    MenuConditions.DistinctParts(Cons(t', rest'));
    PreorderParts(Cons(t', rest'));
  }

  lemma Leaving(mode: Mode, st: State, rest: Forest, tail: seq<Visit>, final: State)
    requires At(mode, st, Nil, DeepVisits(rest) + tail, final)
    requires Distinct(Preorder(rest)) && Covered(st.entries, rest) && Past(tail, rest)
    ensures At(mode, st, rest, tail, final)
  {
    assert DeepVisits(Nil) + (DeepVisits(rest) + tail) == DeepVisits(rest) + tail;
  }

  /** On the way, the recursion restructures by the final conditions. */
  lemma {:induction false} FinalizeForesees(
    mode: Mode, st: State, t: Tree, rest: Forest, insideChoice: bool, tail: seq<Visit>, final: State)
    requires At(mode, st, Cons(t, rest), tail, final)
    ensures var (st', t', rest') := MenuForest.Finalize(RulesOf(mode), st, t, rest, insideChoice);
      (t', rest') == Settled(OracleOf(LabelsOf(final.entries)), t, rest, insideChoice) &&
      st'.entries.Keys == st.entries.Keys && At(mode, st', rest', tail, final)
    decreases Count(Single(t)) + Count(rest), 0
  {
    var c, o := RulesOf(mode), OracleOf(LabelsOf(final.entries));
    Entering(mode, st, t, rest, tail, final);
    SettledSteps(o, t, rest, insideChoice);
    FinalizeSteps(c, st, t, rest, insideChoice);
    if t.kids.Cons? {
      var st1 := VisitLevel(c, st, t.m, t.kids);
      FinalizeAllForesees(mode, st1, t.kids, t.m.isChoice, DeepVisits(rest) + tail, final);
      Leaving(mode, FinalizeAll(c, st1, t.kids, t.m.isChoice).0, rest, tail, final);
    } else if !insideChoice && t.m.hasSym {
      TakeForesees(mode, st, t.m, rest, tail, final);
    }
  }

  lemma {:induction false} FinalizeAllForesees(mode: Mode, st: State, f: Forest, insideChoice: bool, tail: seq<Visit>, final: State)
    requires At(mode, st, f, tail, final)
    ensures var (st', f') := FinalizeAll(RulesOf(mode), st, f, insideChoice);
      f' == SettledAll(OracleOf(LabelsOf(final.entries)), f, insideChoice) &&
      st'.entries.Keys == st.entries.Keys && At(mode, st', Nil, tail, final)
    decreases Count(f), 2
  {
    if f.Cons? {
      var (st', t', rest') := MenuForest.Finalize(RulesOf(mode), st, f.t, f.rest, insideChoice);
      SettledAllSteps(OracleOf(LabelsOf(final.entries)), f.t, f.rest, insideChoice);
      FinalizeForesees(mode, st, f.t, f.rest, insideChoice, tail, final);
      FinalizeAllForesees(mode, st', rest', insideChoice, tail, final);
    }
  }

  lemma {:induction false} TakeForesees(mode: Mode, st: State, m: Menu, f: Forest, tail: seq<Visit>, final: State)
    requires At(mode, st, f, tail, final) && m in st.entries && m !in Preorder(f) && !Touches(tail, m)
    ensures var (st', taken, left) := Take(RulesOf(mode), st, m, f);
      (taken, left) == Taken(OracleOf(LabelsOf(final.entries)), m, f) &&
      st'.entries.Keys == st.entries.Keys && At(mode, st', left, tail, final)
    decreases Count(f), 2
  {
    if f.Cons? {
      var o := OracleOf(LabelsOf(final.entries));
      TestForeseen(mode, st, f, tail, final, m);
      TakenSteps(o, m, f.t, f.rest);
      if o(m, f.t.m) {
        var (st', t', rest') := MenuForest.Finalize(RulesOf(mode), st, f.t, f.rest, false);
        FinalizePreorder(RulesOf(mode), st, f.t, f.rest, false);
        PreorderParts(Cons(t', rest'));
        FinalizeForesees(mode, st, f.t, f.rest, false, tail, final);
        TakeForesees(mode, st', m, rest', tail, final);
      }
    }
  }

  /** Finalizing the whole tree step by step gives the final conditions of the pass, and the
      tree restructured by them. */
  lemma {:induction false} FinalizingInterleaves(mode: Mode, es: Entries, t: Tree)
    requires Covered(es, Single(t)) && Distinct(Preorder(Single(t))) && es[t.m].dep.None?
    ensures Covered(es, t.kids)
    ensures var final := Final(mode, es, t.kids);
      var (st, t', rest) := MenuForest.Finalize(RulesOf(mode), State(es, map[]), t, Nil, false);
      st == final && (t', rest) == Settled(OracleOf(LabelsOf(final.entries)), t, Nil, false) && rest == Nil
  {
    var st, vs := State(es, map[]), DeepVisits(Single(t));
    CoveredParts(es, Single(t));
    MenuConditions.DistinctParts(Single(t));
    BelowIsVisits(mode, st, t.m, t.kids);
    assert DeepVisits(Nil) == [];
    assert vs + [] == LevelVisits(t.m, t.kids) + DeepVisits(t.kids);
    FinalizeForesees(mode, st, t, Nil, false, [], Final(mode, es, t.kids));
    FinalizedTree(RulesOf(mode), st, t);
  }

  /** Finalizes a parsed menu tree whose nodes have the conditions they were given. */
  method FinalizeMenus(root: Menu, modules: Symbol, entries: Entries, ghost t: Tree) returns (final: State, ghost t': Tree)
    requires root == t.m && Siblings(root, Single(t), root.parent) && !root.hasSym
    requires Covered(entries, Single(t)) && entries[root].dep.None?
    modifies Nodes(Single(t))
    ensures Siblings(root, Single(t'), old(root.parent)) && Preorder(Single(t')) == Preorder(Single(t)) && Tidy(t'.kids)
    ensures Covered(entries, t.kids) && final == Final(Mode(true, modules), entries, t.kids)
    ensures t' == Settled(OracleOf(LabelsOf(final.entries)), t, Nil, false).0
    ensures WellMade(entries, t.kids, modules, true) ==>
      forall u: Visit, v: Valuation :: u in Moves(OracleOf(LabelsOf(final.entries)), t, Nil, false) && Admissible(v) ==>
        Guarded(LabelsOf(final.entries), u.parent, u.child, v)
  {
    assert allocated(Nodes(Single(t)));
    var f := new Finalizer(RulesOf(Mode(true, modules)), State(entries, map[]));
    FinalizingInterleaves(Mode(true, modules), entries, t);
    t' := f.FinalizeTree(root, t);
    final := f.state;
    if WellMade(entries, t.kids, modules, true) { MovesAreGuarded(entries, t, modules); }
  }
}
