/** The configuration that the finalized menu tree stands for, and that simplifying its
    conditions changes no symbol's value. */
module Simplification {
  import opened Symbols
  import opened Exprs
  import opened MenuForest
  import opened MenuConditions
  import opened SymbolEval

  // ----- configurations whose conditions are worth the same -----

  ghost predicate SamePrompts(ps: seq<Option<Expr>>, qs: seq<Option<Expr>>, v: Valuation) {
    |ps| == |qs| && forall i :: 0 <= i < |ps| ==> EvalOpt(ps[i], v) == EvalOpt(qs[i], v)
  }

  ghost predicate SameDefaults(ds: seq<Default>, es: seq<Default>, v: Valuation) {
    |ds| == |es| && forall i :: 0 <= i < |ds| ==> ds[i].value == es[i].value && EvalOpt(ds[i].cond, v) == EvalOpt(es[i].cond, v)
  }

  ghost predicate SameRanges(rs: seq<Range>, qs: seq<Range>, v: Valuation) {
    |rs| == |qs| &&
    forall i :: 0 <= i < |rs| ==> rs[i].low == qs[i].low && rs[i].high == qs[i].high && EvalOpt(rs[i].cond, v) == EvalOpt(qs[i].cond, v)
  }

  ghost predicate SameDefinition(d: Definition, e: Definition, v: Valuation) {
    SamePrompts(d.prompts, e.prompts, v) && SameDefaults(d.defaults, e.defaults, v) && SameRanges(d.ranges, e.ranges, v) &&
    EvalOpt(d.dirDep, v) == EvalOpt(e.dirDep, v) && EvalReverse(d.revDep, v) == EvalReverse(e.revDep, v) &&
    EvalReverse(d.implied, v) == EvalReverse(e.implied, v) && d.user == e.user
  }

  ghost predicate SameConfiguration(k: Kconfig, l: Kconfig, v: Valuation) {
    k.modules == l.modules && forall s: Symbol :: SameDefinition(Def(k, s), Def(l, s), v)
  }

  lemma {:induction false} SamePromptsValue(ps: seq<Option<Expr>>, qs: seq<Option<Expr>>, v: Valuation)
    requires SamePrompts(ps, qs, v)
    ensures PromptsValue(ps, v) == PromptsValue(qs, v)
  {
    if ps != [] { SamePromptsValue(ps[..|ps| - 1], qs[..|ps| - 1], v); }
  }

  lemma {:induction false} SameActiveDefault(ds: seq<Default>, es: seq<Default>, v: Valuation)
    requires SameDefaults(ds, es, v)
    ensures var d, e := ActiveDefault(ds, v), ActiveDefault(es, v);
      d.Some? == e.Some? && DefaultValue(d, v) == DefaultValue(e, v) && (d.Some? ==> d.value.value == e.value.value)
  {
    if ds != [] { SameActiveDefault(ds[1..], es[1..], v); }
  }

  lemma {:induction false} SameActiveRange(rs: seq<Range>, qs: seq<Range>, v: Valuation)
    requires SameRanges(rs, qs, v)
    ensures var r, q := ActiveRange(rs, v), ActiveRange(qs, v);
      r.Some? == q.Some? && (r.Some? ==> r.value.low == q.value.low && r.value.high == q.value.high)
  {
    if rs != [] { SameActiveRange(rs[1..], qs[1..], v); }
  }

  lemma SameInputs(k: Kconfig, l: Kconfig, s: Symbol, v: Valuation)
    requires SameConfiguration(k, l, v)
    ensures Visible(k, s, v) == Visible(l, s, v) && DirDep(k, s, v) == DirDep(l, s, v)
    ensures RevDep(k, s, v) == RevDep(l, s, v) && Implied(k, s, v) == Implied(l, s, v) && Def(k, s).user == Def(l, s).user
    ensures var d, e := ActiveDefault(Def(k, s).defaults, v), ActiveDefault(Def(l, s).defaults, v);
      d.Some? == e.Some? && DefaultValue(d, v) == DefaultValue(e, v) && (d.Some? ==> d.value.value == e.value.value)
  {
    assert SameDefinition(Def(k, s), Def(l, s), v);
    SamePromptsValue(Def(k, s).prompts, Def(l, s).prompts, v);
    SameActiveDefault(Def(k, s).defaults, Def(l, s).defaults, v);
  }

  lemma SameValidated(k: Kconfig, l: Kconfig, s: Symbol, text: string, v: Valuation)
    requires SameConfiguration(k, l, v)
    ensures Validated(k, s, text, v) == Validated(l, s, text, v)
  {
    assert SameDefinition(Def(k, s), Def(l, s), v);
    SameActiveRange(Def(k, s).ranges, Def(l, s).ranges, v);
  }

  lemma SameBase(k: Kconfig, l: Kconfig, s: Symbol, v: Valuation)
    requires SameConfiguration(k, l, v)
    ensures BaseValue(k, s, v) == BaseValue(l, s, v) && StringOf(k, s, v) == StringOf(l, s, v)
    ensures Promote(k, s, BaseValue(k, s, v)) == Promote(l, s, BaseValue(k, s, v))
  {
    SameInputs(k, l, s, v);
  }

  lemma SameStep(k: Kconfig, l: Kconfig, s: Symbol, v: Valuation)
    requires SameConfiguration(k, l, v)
    ensures Step(k, s, v) == Step(l, s, v)
  {
    SameBase(k, l, s, v);
    assert RevDep(k, s, v) == RevDep(l, s, v) by { SameInputs(k, l, s, v); }
    SameValidated(k, l, s, StringOf(k, s, v), v);
  }

  lemma SameWritten(k: Kconfig, l: Kconfig, s: Symbol, v: Valuation)
    requires SameConfiguration(k, l, v)
    ensures Written(k, s, v) == Written(l, s, v)
  {
    SameInputs(k, l, s, v);
  }

  lemma SolvesSame(k: Kconfig, l: Kconfig, v: Valuation)
    requires SameConfiguration(k, l, v) && Solves(k, v)
    ensures Solves(l, v)
  {
    forall s: Symbol
      ensures v(s) == Step(l, s, v)
    {
      assert v(s) == Step(k, s, v);
      SameStep(k, l, s, v);
    }
  }

  // ----- from the menu tree to the symbols -----

  /** The properties of a symbol, from all the nodes that define it, in their order. */
  function PropertiesOf(st: State, ms: seq<Menu>, s: Symbol): seq<Property>
    requires forall m: Menu :: m in ms ==> m in st.entries
  {
    if ms == [] then []
    else (if st.entries[ms[0]].sym == Some(s) then st.entries[ms[0]].props else []) + PropertiesOf(st, ms[1..], s)
  }

  function PromptOf(p: Property): seq<Option<Expr>> { if p.role.Prompts? then [p.cond] else [] }

  function PromptsOf(ps: seq<Property>): seq<Option<Expr>> {
    if ps == [] then [] else PromptOf(ps[0]) + PromptsOf(ps[1..])
  }

  function DefaultOf(p: Property): seq<Default> { if p.role.Defaults? then [Default(p.role.value, p.cond)] else [] }

  function DefaultsOf(ps: seq<Property>): seq<Default> {
    if ps == [] then [] else DefaultOf(ps[0]) + DefaultsOf(ps[1..])
  }

  function RangeOf(p: Property): seq<Range> { if p.role.Ranges? then [Range(p.role.low, p.role.high, p.cond)] else [] }

  function RangesOf(ps: seq<Property>): seq<Range> {
    if ps == [] then [] else RangeOf(ps[0]) + RangesOf(ps[1..])
  }

  /** The direct dependency, or-ed together over the nodes in the order they come. */
  function DirDepOf(st: State, ms: seq<Menu>, s: Symbol): Option<Expr>
    requires forall m: Menu :: m in ms ==> m in st.entries
  {
    if ms == [] then None
    else
      var last := st.entries[ms[|ms| - 1]];
      var before := DirDepOf(st, ms[..|ms| - 1], s);
      if last.sym == Some(s) then OrOpt(before, last.dep) else before
  }

  /** What does not come from the tree: the symbols, the value of MODULES, the user's
      values, and the order in which direct dependencies are added. */
  datatype Given = Given(syms: set<Symbol>, modules: Tristate, users: map<Symbol, SymVal>, order: seq<Menu>)

  function DefinitionOf(st: State, places: seq<Menu>, x: Given, s: Symbol): Definition
    requires (forall m: Menu :: m in places ==> m in st.entries) && forall m: Menu :: m in x.order ==> m in st.entries
  {
    var ps := PropertiesOf(st, places, s);
    Definition(PromptsOf(ps), DefaultsOf(ps), DirDepOf(st, x.order, s), Gathered(st, Selects(s)), Gathered(st, Implies(s)),
               RangesOf(ps), if s in x.users then Some(x.users[s]) else None)
  }

  function KconfigOf(st: State, places: seq<Menu>, x: Given): Kconfig
    requires (forall m: Menu :: m in places ==> m in st.entries) && forall m: Menu :: m in x.order ==> m in st.entries
  {
    Kconfig(map s | s in x.syms :: DefinitionOf(st, places, x, s), x.modules)
  }

  // ----- what a definition consists of -----

  lemma InTurn<T>(a: seq<T>, b: seq<T>, c: seq<T>)
    ensures a + (b + c) == a + b + c
  {
  }

  lemma {:induction false} PromptsTogether(a: seq<Property>, b: seq<Property>)
    ensures PromptsOf(a + b) == PromptsOf(a) + PromptsOf(b)
  {
    if a == [] {
      assert a + b == b;
    } else {
      PromptsTogether(a[1..], b);
      assert (a + b)[0] == a[0] && (a + b)[1..] == a[1..] + b;
      InTurn(PromptOf(a[0]), PromptsOf(a[1..]), PromptsOf(b));
    }
  }

  lemma {:induction false} DefaultsTogether(a: seq<Property>, b: seq<Property>)
    ensures DefaultsOf(a + b) == DefaultsOf(a) + DefaultsOf(b)
  {
    if a == [] {
      assert a + b == b;
    } else {
      DefaultsTogether(a[1..], b);
      assert (a + b)[0] == a[0] && (a + b)[1..] == a[1..] + b;
      InTurn(DefaultOf(a[0]), DefaultsOf(a[1..]), DefaultsOf(b));
    }
  }

  lemma {:induction false} RangesTogether(a: seq<Property>, b: seq<Property>)
    ensures RangesOf(a + b) == RangesOf(a) + RangesOf(b)
  {
    if a == [] {
      assert a + b == b;
    } else {
      RangesTogether(a[1..], b);
      assert (a + b)[0] == a[0] && (a + b)[1..] == a[1..] + b;
      InTurn(RangeOf(a[0]), RangesOf(a[1..]), RangesOf(b));
    }
  }

  /** Of the properties, each gives one prompt, default or range, or nothing, in their order. */
  lemma PropertyIsUsed(ps: seq<Property>, p: Property)
    ensures PromptsOf(ps + [p]) == PromptsOf(ps) + if p.role == Prompts then [p.cond] else []
    ensures DefaultsOf(ps + [p]) == DefaultsOf(ps) + match p.role case Defaults(x) => [Default(x, p.cond)] case _ => []
    ensures RangesOf(ps + [p]) == RangesOf(ps) + match p.role case Ranges(a, b) => [Range(a, b, p.cond)] case _ => []
    ensures PromptsOf([]) == [] && DefaultsOf([]) == [] && RangesOf([]) == []
  {
    PromptsTogether(ps, [p]);
    DefaultsTogether(ps, [p]);
    RangesTogether(ps, [p]);
    assert [p][1..] == [];
  }

  /** The properties of a symbol are those of its nodes, one node after the other. */
  lemma {:induction false} NodeIsUsed(st: State, ms: seq<Menu>, m: Menu, s: Symbol)
    requires (forall n: Menu :: n in ms ==> n in st.entries) && m in st.entries
    ensures PropertiesOf(st, ms + [m], s) == PropertiesOf(st, ms, s) + if st.entries[m].sym == Some(s) then st.entries[m].props else []
    ensures PropertiesOf(st, [], s) == []
  {
    if ms == [] {
      assert ms + [m] == [m] && [m][1..] == [];
    } else {
      NodeIsUsed(st, ms[1..], m, s);
      assert (ms + [m])[0] == ms[0] && (ms + [m])[1..] == ms[1..] + [m];
      InTurn(if st.entries[ms[0]].sym == Some(s) then st.entries[ms[0]].props else [], PropertiesOf(st, ms[1..], s),
        if st.entries[m].sym == Some(s) then st.entries[m].props else []);
    }
  }

  /** A symbol of the menu files has what its properties give it, the conditions gathered
      for it, and its user value. */
  lemma DefinedByTree(st: State, places: seq<Menu>, x: Given, s: Symbol)
    requires (forall m: Menu :: m in places ==> m in st.entries) && forall m: Menu :: m in x.order ==> m in st.entries
    requires s in x.syms
    ensures var d, ps := Def(KconfigOf(st, places, x), s), PropertiesOf(st, places, s);
      d.prompts == PromptsOf(ps) && d.defaults == DefaultsOf(ps) && d.ranges == RangesOf(ps) &&
      d.dirDep == DirDepOf(st, x.order, s) && d.revDep == Gathered(st, Selects(s)) && d.implied == Gathered(st, Implies(s)) &&
      d.user == if s in x.users then Some(x.users[s]) else None
  {
  }

  // ----- two passes over the same tree -----

  ghost predicate SameProperties(ps: seq<Property>, qs: seq<Property>, v: Valuation) {
    |ps| == |qs| && forall i :: 0 <= i < |ps| ==> ps[i].role == qs[i].role && EvalOpt(ps[i].cond, v) == EvalOpt(qs[i].cond, v)
  }

  ghost predicate SameEntry(e: Entry, d: Entry, v: Valuation) {
    e.sym == d.sym && MeaningOf(e.dep, v) == MeaningOf(d.dep, v) && SameProperties(e.props, d.props, v)
  }

  ghost predicate SameEntries(st: State, tt: State, ms: seq<Menu>, v: Valuation) {
    forall m: Menu :: m in ms ==> m in st.entries && m in tt.entries && SameEntry(st.entries[m], tt.entries[m], v)
  }

  lemma {:induction false} SamePropertiesOf(st: State, tt: State, ms: seq<Menu>, s: Symbol, v: Valuation)
    requires SameEntries(st, tt, ms, v)
    ensures SameProperties(PropertiesOf(st, ms, s), PropertiesOf(tt, ms, s), v)
  {
    if ms != [] {
      assert SameEntry(st.entries[ms[0]], tt.entries[ms[0]], v);
      SamePropertiesOf(st, tt, ms[1..], s, v);
    }
  }

  lemma {:induction false} SamePromptsOf(ps: seq<Property>, qs: seq<Property>, v: Valuation)
    requires SameProperties(ps, qs, v)
    ensures SamePrompts(PromptsOf(ps), PromptsOf(qs), v)
  {
    if ps != [] {
      SamePromptsOf(ps[1..], qs[1..], v);
      SamePromptsJoined(PromptOf(ps[0]), PromptOf(qs[0]), PromptsOf(ps[1..]), PromptsOf(qs[1..]), v);
    }
  }

  lemma SamePromptsJoined(a: seq<Option<Expr>>, b: seq<Option<Expr>>, c: seq<Option<Expr>>, d: seq<Option<Expr>>, v: Valuation)
    requires SamePrompts(a, b, v) && SamePrompts(c, d, v)
    ensures SamePrompts(a + c, b + d, v)
  {
  }

  lemma {:induction false} SameDefaultsOf(ps: seq<Property>, qs: seq<Property>, v: Valuation)
    requires SameProperties(ps, qs, v)
    ensures SameDefaults(DefaultsOf(ps), DefaultsOf(qs), v)
  {
    if ps != [] {
      SameDefaultsOf(ps[1..], qs[1..], v);
      SameDefaultsJoined(DefaultOf(ps[0]), DefaultOf(qs[0]), DefaultsOf(ps[1..]), DefaultsOf(qs[1..]), v);
    }
  }

  lemma SameDefaultsJoined(a: seq<Default>, b: seq<Default>, c: seq<Default>, d: seq<Default>, v: Valuation)
    requires SameDefaults(a, b, v) && SameDefaults(c, d, v)
    ensures SameDefaults(a + c, b + d, v)
  {
  }

  lemma {:induction false} SameRangesOf(ps: seq<Property>, qs: seq<Property>, v: Valuation)
    requires SameProperties(ps, qs, v)
    ensures SameRanges(RangesOf(ps), RangesOf(qs), v)
  {
    if ps != [] {
      SameRangesOf(ps[1..], qs[1..], v);
      SameRangesJoined(RangeOf(ps[0]), RangeOf(qs[0]), RangesOf(ps[1..]), RangesOf(qs[1..]), v);
    }
  }

  lemma SameRangesJoined(a: seq<Range>, b: seq<Range>, c: seq<Range>, d: seq<Range>, v: Valuation)
    requires SameRanges(a, b, v) && SameRanges(c, d, v)
    ensures SameRanges(a + c, b + d, v)
  {
  }

  lemma {:induction false} SameDirDepOf(st: State, tt: State, ms: seq<Menu>, s: Symbol, v: Valuation)
    requires SameEntries(st, tt, ms, v)
    ensures MeaningOf(DirDepOf(st, ms, s), v) == MeaningOf(DirDepOf(tt, ms, s), v)
  {
    if ms != [] {
      var last := ms[|ms| - 1];
      assert SameEntry(st.entries[last], tt.entries[last], v);
      SameDirDepOf(st, tt, ms[..|ms| - 1], s, v);
    }
  }

  lemma SameDefinitions(st: State, tt: State, places: seq<Menu>, x: Given, s: Symbol, v: Valuation)
    requires SameEntries(st, tt, places, v) && SameEntries(st, tt, x.order, v)
    requires forall r: Role :: EvalGathered(st, r, v) == EvalGathered(tt, r, v)
    ensures SameDefinition(DefinitionOf(st, places, x, s), DefinitionOf(tt, places, x, s), v)
  {
    var ps, qs := PropertiesOf(st, places, s), PropertiesOf(tt, places, s);
    SamePropertiesOf(st, tt, places, s, v);
    SamePromptsOf(ps, qs, v);
    SameDefaultsOf(ps, qs, v);
    SameRangesOf(ps, qs, v);
    SameDirDepOf(st, tt, x.order, s, v);
    assert EvalGathered(st, Selects(s), v) == EvalGathered(tt, Selects(s), v);
    assert EvalGathered(st, Implies(s), v) == EvalGathered(tt, Implies(s), v);
  }

  lemma {:induction false} BothModesAgree(o: Entries, f: Forest, modules: Symbol, m: Menu, v: Valuation)
    requires Admissible(v) && WellMade(o, f, modules, false) && m in Preorder(f)
    ensures SameEntry(Final(Mode(true, modules), o, f).entries[m], Final(Mode(false, modules), o, f).entries[m], v)
  {
    FinalConditions(Mode(true, modules), o, f, false, m, v);
    FinalConditions(Mode(false, modules), o, f, false, m, v);
    var e, d := Final(Mode(true, modules), o, f).entries[m], Final(Mode(false, modules), o, f).entries[m];
    DoneAlike(modules, o[m], e, d, Conjunction(o, None, PathTo(f, m), modules, v), TestsAlong(o, Start(modules, false), PathTo(f, m)), v);
  }

  lemma DoneAlike(modules: Symbol, o: Entry, e: Entry, d: Entry, w: Meaning, ts: Allowed, v: Valuation)
    requires EntryDone(Mode(true, modules), o, e, w, ts, v) && EntryDone(Mode(false, modules), o, d, w, ts, v)
    ensures SameEntry(e, d, v)
  {
    forall i | 0 <= i < |e.props|
      ensures e.props[i].role == d.props[i].role && EvalOpt(e.props[i].cond, v) == EvalOpt(d.props[i].cond, v)
    {
      assert PropertyDone(Mode(true, modules), o.props[i], e.props[i], w, ts, v);
      assert PropertyDone(Mode(false, modules), o.props[i], d.props[i], w, ts, v);
      assert MeaningOf(e.props[i].cond, v) == MeaningOf(d.props[i].cond, v);
    }
  }

  lemma {:induction false} BothModesGather(o: Entries, f: Forest, modules: Symbol, r: Role, v: Valuation)
    requires Admissible(v) && WellMade(o, f, modules, false)
    ensures EvalGathered(Final(Mode(true, modules), o, f), r, v) == EvalGathered(Final(Mode(false, modules), o, f), r, v)
  {
    BelowGathers(Mode(true, modules), o, State(o, map[]), None, f, Start(modules, false), r, v);
    BelowGathers(Mode(false, modules), o, State(o, map[]), None, f, Start(modules, false), r, v);
  }

  /** The configuration of the finalized tree has exactly the solutions of the one whose
      conditions are plainly conjoined along the tree, and writes the same symbols. */
  lemma {:induction false} FinalizingKeepsSolutions(o: Entries, f: Forest, modules: Symbol, x: Given, v: Valuation)
    requires WellMade(o, f, modules, false) && forall m: Menu :: m in x.order ==> m in Preorder(f)
    ensures var k := KconfigOf(Final(Mode(true, modules), o, f), Preorder(f), x);
      var l := KconfigOf(Final(Mode(false, modules), o, f), Preorder(f), x);
      (Solves(k, v) <==> Solves(l, v)) && (Solves(l, v) ==> forall s: Symbol :: Written(k, s, v) == Written(l, s, v))
  {
    var st, tt := Final(Mode(true, modules), o, f), Final(Mode(false, modules), o, f);
    var k, l := KconfigOf(st, Preorder(f), x), KconfigOf(tt, Preorder(f), x);
    if Solves(k, v) { SolutionIsAdmissible(k, v); }
    if Solves(l, v) { SolutionIsAdmissible(l, v); }
    if Admissible(v) {
      FinalizedIsSame(o, f, modules, x, v);
      if Solves(k, v) { SolvesSame(k, l, v); }
      if Solves(l, v) { SolvesSame(l, k, v); }
      forall s: Symbol ensures Written(k, s, v) == Written(l, s, v) { SameWritten(k, l, s, v); }
    }
  }

  lemma {:induction false} FinalizedIsSame(o: Entries, f: Forest, modules: Symbol, x: Given, v: Valuation)
    requires Admissible(v) && WellMade(o, f, modules, false) && forall m: Menu :: m in x.order ==> m in Preorder(f)
    ensures var k := KconfigOf(Final(Mode(true, modules), o, f), Preorder(f), x);
      var l := KconfigOf(Final(Mode(false, modules), o, f), Preorder(f), x);
      SameConfiguration(k, l, v) && SameConfiguration(l, k, v)
  {
    var st, tt := Final(Mode(true, modules), o, f), Final(Mode(false, modules), o, f);
    var k, l := KconfigOf(st, Preorder(f), x), KconfigOf(tt, Preorder(f), x);
    forall m: Menu | m in Preorder(f)
      ensures m in st.entries && m in tt.entries && SameEntry(st.entries[m], tt.entries[m], v)
    {
      BothModesAgree(o, f, modules, m, v);
    }
    forall r: Role ensures EvalGathered(st, r, v) == EvalGathered(tt, r, v) { BothModesGather(o, f, modules, r, v); }
    forall s: Symbol
      ensures SameDefinition(Def(k, s), Def(l, s), v) && SameDefinition(Def(l, s), Def(k, s), v)
    {
      if s in x.syms {
        SameDefinitions(st, tt, Preorder(f), x, s, v);
        assert Def(k, s) == DefinitionOf(st, Preorder(f), x, s);
        assert Def(l, s) == DefinitionOf(tt, Preorder(f), x, s);
      } else {
        assert Def(k, s) == Def(l, s) == UNDEFINED;
      }
    }
  }

  // ----- a symbol with several definitions -----

  ghost predicate AllDefine(st: State, ms: seq<Menu>, s: Symbol) {
    forall m: Menu :: m in ms ==> m in st.entries && st.entries[m].sym == Some(s)
  }

  /** The most that any of the definitions allows; one without a condition allows y. */
  function MostOf(st: State, ms: seq<Menu>, v: Valuation): Tristate
    requires ms != [] && forall m: Menu :: m in ms ==> m in st.entries
  {
    var last := EvalOpt(st.entries[ms[|ms| - 1]].dep, v);
    if |ms| == 1 then last else Max(MostOf(st, ms[..|ms| - 1], v), last)
  }

  ghost predicate SomeFull(st: State, ms: seq<Menu>, v: Valuation)
    requires forall m: Menu :: m in ms ==> m in st.entries
  {
    exists m: Menu :: m in ms && st.entries[m].dep.Some? && Eval(st.entries[m].dep.value, v) == YES
  }

  ghost predicate AllBare(st: State, ms: seq<Menu>)
    requires forall m: Menu :: m in ms ==> m in st.entries
  {
    forall m: Menu :: m in ms ==> st.entries[m].dep.None?
  }

  ghost predicate SomeBare(st: State, ms: seq<Menu>)
    requires forall m: Menu :: m in ms ==> m in st.entries
  {
    exists m: Menu :: m in ms && st.entries[m].dep.None?
  }

  /** The most that a definition with a condition allows. */
  function BestOf(st: State, ms: seq<Menu>, v: Valuation): Tristate
    requires forall m: Menu :: m in ms ==> m in st.entries
  {
    if ms == [] then NO
    else Max(BestOf(st, ms[..|ms| - 1], v), EvalReverse(st.entries[ms[|ms| - 1]].dep, v))
  }

  lemma {:induction false} DirDepIsBest(st: State, ms: seq<Menu>, s: Symbol, v: Valuation)
    requires AllDefine(st, ms, s)
    ensures EvalReverse(DirDepOf(st, ms, s), v) == BestOf(st, ms, v)
    ensures DirDepOf(st, ms, s).None? <==> AllBare(st, ms)
  {
    if ms != [] {
      var front, last := ms[..|ms| - 1], ms[|ms| - 1];
      assert ms == front + [last];
      DirDepIsBest(st, front, s, v);
    }
  }

  lemma {:induction false} BestIsFull(st: State, ms: seq<Menu>, v: Valuation)
    requires forall m: Menu :: m in ms ==> m in st.entries
    ensures BestOf(st, ms, v) == YES <==> SomeFull(st, ms, v)
  {
    if ms != [] {
      var front, last := ms[..|ms| - 1], ms[|ms| - 1];
      assert ms == front + [last];
      BestIsFull(st, front, v);
    }
  }

  lemma {:induction false} MostIsBest(st: State, ms: seq<Menu>, v: Valuation)
    requires ms != [] && forall m: Menu :: m in ms ==> m in st.entries
    ensures MostOf(st, ms, v) == if SomeBare(st, ms) then YES else BestOf(st, ms, v)
  {
    var front, last := ms[..|ms| - 1], ms[|ms| - 1];
    assert ms == front + [last];
    if front == [] {
      assert BestOf(st, front, v) == NO;
    } else {
      MostIsBest(st, front, v);
    }
  }

  /** The direct dependency allows as much as the most permissive definition exactly when
      all definitions have conditions, or none has, or one of those that have is y. A
      definition without a condition is lost beside one that has: with A defined once
      "depends on D" and once without, the direct dependency is D. */
  lemma {:induction false} DirDepExactIff(st: State, ms: seq<Menu>, s: Symbol, v: Valuation)
    requires ms != [] && AllDefine(st, ms, s)
    ensures EvalOpt(DirDepOf(st, ms, s), v) == MostOf(st, ms, v) <==>
            AllBare(st, ms) || !SomeBare(st, ms) || SomeFull(st, ms, v)
  {
    DirDepIsBest(st, ms, s, v);
    BestIsFull(st, ms, v);
    MostIsBest(st, ms, v);
    assert ms[0] in ms;
  }

  /** A symbol defined at one node "depends on D" and at another without condition has D
      for its direct dependency, in whichever order the two come: where D is not y, that
      is less than the definition without condition allows. */
  lemma {:induction false} DefinitionWithoutConditionIsLost(m: Menu, n: Menu, a: Symbol, d: Symbol) returns (st: State)
    requires m != n
    ensures forall ms: seq<Menu> :: ms in [[m, n], [n, m]] ==>
      AllDefine(st, ms, a) && DirDepOf(st, ms, a) == Some(Sym(d)) && forall v: Valuation :: MostOf(st, ms, v) == YES
  {
    st := State(map[m := Entry(Some(a), Some(Sym(d)), []), n := Entry(Some(a), None, [])], map[]);
    forall ms: seq<Menu> | ms in [[m, n], [n, m]]
      ensures AllDefine(st, ms, a) && DirDepOf(st, ms, a) == Some(Sym(d)) && forall v: Valuation :: MostOf(st, ms, v) == YES
    {
      assert ms[..1][..0] == [] && ms[..1] == [ms[0]];
      assert DirDepOf(st, [], a) == None;
    }
  }
}
