/** The value of every symbol, as equations over the whole configuration, and the lazy
    evaluator that computes them on demand with a validity flag per symbol and a
    cached value per expression. */
module SymbolEval {
  import opened Symbols
  import opened Exprs
  import Equations

  datatype Default = Default(value: Expr, cond: Option<Expr>)

  /** The bounds of a number, in force while the condition is not n. */
  datatype Range = Range(low: Symbol, high: Symbol, cond: Option<Expr>)

  /** What the menu files and the user say about one symbol. */
  datatype Definition = Definition(
    prompts: seq<Option<Expr>>,
    defaults: seq<Default>,
    dirDep: Option<Expr>,
    revDep: Option<Expr>,
    implied: Option<Expr>,
    ranges: seq<Range>,
    user: Option<SymVal>)

  const UNDEFINED: Definition := Definition([], [], None, None, None, [], None)

  datatype Kconfig = Kconfig(defs: map<Symbol, Definition>, modules: Tristate)

  function Def(k: Kconfig, s: Symbol): Definition { if s in k.defs then k.defs[s] else UNDEFINED }

  /** Without modules a tristate behaves as a boolean. */
  predicate ActsBoolean(k: Kconfig, s: Symbol) {
    TypeOf(s).Boolean? || (TypeOf(s).Trivalent? && k.modules == NO)
  }

  function Promote(k: Kconfig, s: Symbol, t: Tristate): Tristate {
    if t == MOD && ActsBoolean(k, s) then YES else t
  }

  // ----- the equations -----

  function PromptsValue(ps: seq<Option<Expr>>, v: Valuation): Tristate {
    if ps == [] then NO else Max(PromptsValue(ps[..|ps| - 1], v), EvalOpt(ps[|ps| - 1], v))
  }

  function Visible(k: Kconfig, s: Symbol, v: Valuation): Tristate {
    var t := PromptsValue(Def(k, s).prompts, v);
    if t == MOD && (!TypeOf(s).Trivalent? || k.modules == NO) then YES else t
  }

  function DirDep(k: Kconfig, s: Symbol, v: Valuation): Tristate { Promote(k, s, EvalOpt(Def(k, s).dirDep, v)) }

  /** A reverse dependency that is missing counts as n. */
  function EvalReverse(e: Option<Expr>, v: Valuation): Tristate { if e.None? then NO else Eval(e.value, v) }

  function RevDep(k: Kconfig, s: Symbol, v: Valuation): Tristate { Promote(k, s, EvalReverse(Def(k, s).revDep, v)) }

  function Implied(k: Kconfig, s: Symbol, v: Valuation): Tristate { Promote(k, s, EvalReverse(Def(k, s).implied, v)) }

  /** The first default whose condition is not n. */
  function ActiveDefault(ds: seq<Default>, v: Valuation): Option<Default> {
    if ds == [] then None
    else if EvalOpt(ds[0].cond, v) != NO then Some(ds[0])
    else ActiveDefault(ds[1..], v)
  }

  function DefaultValue(d: Option<Default>, v: Valuation): Tristate {
    if d.None? then NO else Min(Eval(d.value.value, v), EvalOpt(d.value.cond, v))
  }

  predicate UsesUserValue(k: Kconfig, s: Symbol, v: Valuation) {
    Visible(k, s, v) != NO && Def(k, s).user.Some?
  }

  /** The value before selects are added. */
  function BaseValue(k: Kconfig, s: Symbol, v: Valuation): Tristate {
    if UsesUserValue(k, s, v) then Min(Def(k, s).user.value.tri, Visible(k, s, v))
    else if s.Choice? then NO
    else
      var t := DefaultValue(ActiveDefault(Def(k, s).defaults, v), v);
      if Implied(k, s, v) != NO then Min(Max(t, Implied(k, s, v)), DirDep(k, s, v)) else t
  }

  function InitialString(s: Symbol): string {
    match TypeOf(s) case Int => "0" case Hex => "0x0" case String => "" case _ => "n"
  }

  function StringOf(k: Kconfig, s: Symbol, v: Valuation): string {
    if UsesUserValue(k, s, v) then Def(k, s).user.value.str
    else
      var d := ActiveDefault(Def(k, s).defaults, v);
      if d.Some? && d.value.value.Sym? then v(d.value.value.s).str else InitialString(s)
  }

  function BaseOf(ty: SymbolType): nat { if ty.Hex? then 16 else 10 }

  /** A bound is read in the base of its own type, if it is a number. */
  function BoundValue(bound: Symbol, ty: SymbolType, v: Valuation): int {
    LeadingNumber(v(bound).str, BaseOf(if IsNumber(TypeOf(bound)) then TypeOf(bound) else ty))
  }

  function ActiveRange(rs: seq<Range>, v: Valuation): Option<Range> {
    if rs == [] then None
    else if EvalOpt(rs[0].cond, v) != NO then Some(rs[0])
    else ActiveRange(rs[1..], v)
  }

  function Clipped(r: Range, ty: SymbolType, text: string, v: Valuation): string {
    var x := LeadingNumber(text, BaseOf(ty));
    if x < BoundValue(r.low, ty, v) then v(r.low).str
    else if x <= BoundValue(r.high, ty, v) then text
    else v(r.high).str
  }

  /** A number outside the range in force is replaced by the text of the bound. */
  function Validated(k: Kconfig, s: Symbol, text: string, v: Valuation): string {
    var r := ActiveRange(Def(k, s).ranges, v);
    if !IsNumber(TypeOf(s)) || r.None? then text else Clipped(r.value, TypeOf(s), text, v)
  }

  /** The right-hand side of the equation for `s`. */
  function Step(k: Kconfig, s: Symbol, v: Valuation): SymVal {
    match s
    case Yes => SymVal(YES, "y")
    case Mod => SymVal(MOD, "m")
    case No => SymVal(NO, "n")
    case Quoted(text) => SymVal(NO, text)
    case _ =>
      if IsLogic(s) then SymVal(Promote(k, s, Max(BaseValue(k, s, v), RevDep(k, s, v))), "n")
      else if TypeOf(s).Unknown? then SymVal(NO, s.name)
      else SymVal(NO, Validated(k, s, StringOf(k, s, v), v))
  }

  ghost predicate Solves(k: Kconfig, v: Valuation) {
    forall s: Symbol :: v(s) == Step(k, s, v)
  }

  /** Whether the symbol is written to the configuration file. */
  predicate Written(k: Kconfig, s: Symbol, v: Valuation) {
    if IsConst(s) || s.Choice? || TypeOf(s).Unknown? then false
    else if Visible(k, s, v) != NO then true
    else if IsLogic(s) then
      RevDep(k, s, v) != NO || Implied(k, s, v) != NO || DefaultValue(ActiveDefault(Def(k, s).defaults, v), v) != NO
    else
      var d := ActiveDefault(Def(k, s).defaults, v);
      d.Some? && d.value.value.Sym?
  }

  /** Whatever solves the equations keeps booleans off m and the constants fixed. */
  lemma SolutionIsAdmissible(k: Kconfig, v: Valuation)
    requires Solves(k, v)
    ensures Admissible(v)
  {
    forall s: Symbol
      ensures AdmissibleValue(s, v(s))
    {
      assert v(s) == Step(k, s, v);
    }
  }

  // ----- dependencies -----

  predicate Mentions(e: Option<Expr>, t: Symbol) { e.Some? && t in SymbolsOf(e.value) }

  ghost predicate DependsOn(d: Definition, t: Symbol) {
    Mentions(d.dirDep, t) || Mentions(d.revDep, t) || Mentions(d.implied, t) ||
    (exists i :: 0 <= i < |d.prompts| && Mentions(d.prompts[i], t)) ||
    (exists i :: 0 <= i < |d.defaults| && (Mentions(d.defaults[i].cond, t) || t in SymbolsOf(d.defaults[i].value))) ||
    (exists i :: 0 <= i < |d.ranges| && RangeMentions(d.ranges[i], t))
  }

  predicate RangeMentions(r: Range, t: Symbol) { Mentions(r.cond, t) || r.low == t || r.high == t }

  /** The dependencies of every symbol rank below it: there is no cycle. */
  ghost predicate Ranked(k: Kconfig, rank: Symbol -> nat) {
    forall s: Symbol, t: Symbol :: DependsOn(Def(k, s), t) ==> rank(t) < rank(s)
  }

  ghost predicate Agree(d: Definition, v: Valuation, w: Valuation) {
    forall t: Symbol :: DependsOn(d, t) ==> v(t) == w(t)
  }

  lemma EvalOptAgrees(e: Option<Expr>, v: Valuation, w: Valuation)
    requires forall t: Symbol :: Mentions(e, t) ==> v(t) == w(t)
    ensures EvalOpt(e, v) == EvalOpt(e, w)
    ensures EvalReverse(e, v) == EvalReverse(e, w)
  {
    if e.Some? {
      forall t | t in SymbolsOf(e.value) ensures v(t) == w(t) { assert Mentions(e, t); }
      EvalDependsOnSymbols(e.value, v, w);
    }
  }

  lemma {:induction false} PromptsAgree(ps: seq<Option<Expr>>, v: Valuation, w: Valuation)
    requires forall i, t: Symbol :: 0 <= i < |ps| && Mentions(ps[i], t) ==> v(t) == w(t)
    ensures PromptsValue(ps, v) == PromptsValue(ps, w)
  {
    if ps != [] {
      PromptsAgree(ps[..|ps| - 1], v, w);
      EvalOptAgrees(ps[|ps| - 1], v, w);
    }
  }

  lemma {:induction false} DefaultsAgree(ds: seq<Default>, v: Valuation, w: Valuation)
    requires forall i, t: Symbol :: 0 <= i < |ds| && Mentions(ds[i].cond, t) ==> v(t) == w(t)
    requires forall i, t: Symbol :: 0 <= i < |ds| && t in SymbolsOf(ds[i].value) ==> v(t) == w(t)
    ensures ActiveDefault(ds, v) == ActiveDefault(ds, w)
    ensures DefaultValue(ActiveDefault(ds, v), v) == DefaultValue(ActiveDefault(ds, w), w)
    ensures var d := ActiveDefault(ds, v); d.Some? && d.value.value.Sym? ==> v(d.value.value.s) == w(d.value.value.s)
  {
    if ds != [] {
      EvalOptAgrees(ds[0].cond, v, w);
      EvalDependsOnSymbols(ds[0].value, v, w);
      DefaultsAgree(ds[1..], v, w);
    }
  }

  lemma {:induction false} RangesAgree(rs: seq<Range>, v: Valuation, w: Valuation)
    requires forall i, t: Symbol :: 0 <= i < |rs| && RangeMentions(rs[i], t) ==> v(t) == w(t)
    ensures ActiveRange(rs, v) == ActiveRange(rs, w)
    ensures var r := ActiveRange(rs, v); r.Some? ==> v(r.value.low) == w(r.value.low) && v(r.value.high) == w(r.value.high)
  {
    if rs != [] {
      forall t: Symbol | Mentions(rs[0].cond, t) ensures v(t) == w(t) { assert RangeMentions(rs[0], t); }
      assert RangeMentions(rs[0], rs[0].low) && RangeMentions(rs[0], rs[0].high);
      EvalOptAgrees(rs[0].cond, v, w);
      RangesAgree(rs[1..], v, w);
    }
  }

  lemma ValidationAgrees(k: Kconfig, s: Symbol, text: string, v: Valuation, w: Valuation)
    requires Agree(Def(k, s), v, w)
    ensures Validated(k, s, text, v) == Validated(k, s, text, w)
  {
    var d := Def(k, s);
    forall i, t: Symbol | 0 <= i < |d.ranges| && RangeMentions(d.ranges[i], t) ensures v(t) == w(t) { assert DependsOn(d, t); }
    RangesAgree(d.ranges, v, w);
  }

  lemma StepAgrees(k: Kconfig, s: Symbol, v: Valuation, w: Valuation)
    requires Agree(Def(k, s), v, w)
    ensures Step(k, s, v) == Step(k, s, w)
  {
    var d := Def(k, s);
    forall i, t: Symbol | 0 <= i < |d.prompts| && Mentions(d.prompts[i], t) ensures v(t) == w(t) { assert DependsOn(d, t); }
    forall i, t: Symbol | 0 <= i < |d.defaults| && Mentions(d.defaults[i].cond, t) ensures v(t) == w(t) { assert DependsOn(d, t); }
    forall i, t: Symbol | 0 <= i < |d.defaults| && t in SymbolsOf(d.defaults[i].value) ensures v(t) == w(t) { assert DependsOn(d, t); }
    PromptsAgree(d.prompts, v, w);
    DefaultsAgree(d.defaults, v, w);
    ValidationAgrees(k, s, StringOf(k, s, v), v, w);
    EvalOptAgrees(d.dirDep, v, w);
    EvalOptAgrees(d.revDep, v, w);
    EvalOptAgrees(d.implied, v, w);
  }

  // ----- existence and uniqueness of the solution -----

  ghost function StepOf(k: Kconfig): (Symbol, Valuation) -> SymVal { (s: Symbol, v: Valuation) => Step(k, s, v) }

  ghost function DependencyOf(k: Kconfig): (Symbol, Symbol) -> bool { (s: Symbol, t: Symbol) => DependsOn(Def(k, s), t) }

  lemma StepIsLocal(k: Kconfig)
    ensures Equations.Local(StepOf(k), DependencyOf(k))
  {
    forall s: Symbol, v: Valuation, w: Valuation | Equations.AgreeBelow(DependencyOf(k), s, v, w)
      ensures StepOf(k)(s, v) == StepOf(k)(s, w)
    {
      forall t: Symbol | DependsOn(Def(k, s), t) ensures v(t) == w(t) { assert DependencyOf(k)(s, t); }
      StepAgrees(k, s, v, w);
    }
  }

  lemma RankedDescends(k: Kconfig, rank: Symbol -> nat)
    requires Ranked(k, rank)
    ensures Equations.Descends(DependencyOf(k), rank)
  {
    forall s: Symbol, t: Symbol | DependencyOf(k)(s, t) ensures rank(t) < rank(s) { assert DependsOn(Def(k, s), t); }
  }

  lemma SolvesIsSolution(k: Kconfig, v: Valuation)
    ensures Solves(k, v) <==> Equations.Solution(StepOf(k), v)
  {
    if Solves(k, v) {
      forall s: Symbol ensures v(s) == StepOf(k)(s, v) { assert v(s) == Step(k, s, v); }
    }
    if Equations.Solution(StepOf(k), v) {
      forall s: Symbol ensures v(s) == Step(k, s, v) { assert v(s) == StepOf(k)(s, v); }
    }
  }

  /** An acyclic configuration has a solution. */
  lemma SolutionExists(k: Kconfig, rank: Symbol -> nat) returns (v: Valuation)
    requires Ranked(k, rank)
    ensures Solves(k, v)
  {
    StepIsLocal(k);
    RankedDescends(k, rank);
    v := Equations.SolutionExists(StepOf(k), DependencyOf(k), rank, SymVal(NO, ""));
    SolvesIsSolution(k, v);
  }

  /** And only one. */
  lemma SolutionIsUnique(k: Kconfig, rank: Symbol -> nat, v: Valuation, w: Valuation, s: Symbol)
    requires Ranked(k, rank) && Solves(k, v) && Solves(k, w)
    ensures v(s) == w(s)
  {
    StepIsLocal(k);
    RankedDescends(k, rank);
    SolvesIsSolution(k, v);
    SolvesIsSolution(k, w);
    Equations.SolutionIsUnique(StepOf(k), DependencyOf(k), rank, v, w, s);
  }

  // ----- a changed user value that needs no recalculation -----

  function SetUser(k: Kconfig, s: Symbol, t: Tristate): Kconfig {
    var d := Def(k, s);
    var str := if d.user.Some? then d.user.value.str else "";
    k.(defs := k.defs[s := d.(user := Some(SymVal(t, str)))])
  }

  /** The values the user may give a symbol. */
  predicate WithinRange(k: Kconfig, s: Symbol, t: Tristate, v: Valuation) {
    Visible(k, s, v) != NO && IsLogic(s) && !(ActsBoolean(k, s) && t == MOD) &&
    Visible(k, s, v) > RevDep(k, s, v) && RevDep(k, s, v) <= t <= Visible(k, s, v)
  }

  lemma OtherStepsUnchanged(k: Kconfig, s: Symbol, t: Tristate, x: Symbol, v: Valuation)
    requires x != s
    ensures Step(SetUser(k, s, t), x, v) == Step(k, x, v)
  {
    assert Def(SetUser(k, s, t), x) == Def(k, x);
  }

  /** A user value in range becomes the value. */
  lemma ValueInRangeIsTaken(k: Kconfig, s: Symbol, t: Tristate, v: Valuation)
    requires !IsConst(s) && WithinRange(k, s, t, v)
    ensures Step(SetUser(k, s, t), s, v) == SymVal(t, "n")
  {
    var k' := SetUser(k, s, t);
    assert Def(k', s).prompts == Def(k, s).prompts && Def(k', s).revDep == Def(k, s).revDep;
  }

  /** Giving a symbol the value it already has leaves every value as it was: the source
      rightly skips the recalculation. */
  lemma {:induction false} SettingTheSameValueChangesNothing(k: Kconfig, s: Symbol, v: Valuation)
    requires Solves(k, v) && !IsConst(s) && WithinRange(k, s, v(s).tri, v)
    ensures Solves(SetUser(k, s, v(s).tri), v)
  {
    var k' := SetUser(k, s, v(s).tri);
    forall x: Symbol
      ensures v(x) == Step(k', x, v)
    {
      assert v(x) == Step(k, x, v);
      if x == s { ValueInRangeIsTaken(k, s, v(s).tri, v); } else { OtherStepsUnchanged(k, s, v(s).tri, x, v); }
    }
  }
}
