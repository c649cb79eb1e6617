/** What values the symbols of a configuration have, read off their definitions: prompts,
    defaults, selects, implies and ranges, by the worth of their own conditions. */
module ValueLaws {
  import opened Symbols
  import opened Exprs
  import opened SymbolEval
  import opened Comparisons

  // ----- conditions -----

  /** The most that any of the conditions allows, n if there are none. */
  ghost predicate IsMost(t: Tristate, ps: seq<Option<Expr>>, v: Valuation) {
    (forall i :: 0 <= i < |ps| ==> EvalOpt(ps[i], v) <= t) &&
    (t == NO || exists i :: 0 <= i < |ps| && EvalOpt(ps[i], v) == t)
  }

  /** Of the defaults, the first whose condition is not n. */
  ghost predicate DefaultInForce(ds: seq<Default>, i: int, v: Valuation) {
    0 <= i < |ds| && EvalOpt(ds[i].cond, v) != NO && forall j :: 0 <= j < i ==> EvalOpt(ds[j].cond, v) == NO
  }

  ghost predicate NoDefaultInForce(ds: seq<Default>, v: Valuation) {
    forall j :: 0 <= j < |ds| ==> EvalOpt(ds[j].cond, v) == NO
  }

  ghost predicate RangeInForce(rs: seq<Range>, i: int, v: Valuation) {
    0 <= i < |rs| && EvalOpt(rs[i].cond, v) != NO && forall j :: 0 <= j < i ==> EvalOpt(rs[j].cond, v) == NO
  }

  /** A boolean, and a tristate without modules, has y for m. */
  function Promoted(k: Kconfig, s: Symbol, t: Tristate): Tristate {
    if t == MOD && (TypeOf(s) == Boolean || k.modules == NO) then YES else t
  }

  lemma {:induction false} PromptsAreMost(ps: seq<Option<Expr>>, v: Valuation)
    ensures IsMost(PromptsValue(ps, v), ps, v)
  {
    if ps != [] {
      var front, last := ps[..|ps| - 1], ps[|ps| - 1];
      PromptsAreMost(front, v);
      assert forall i :: 0 <= i < |front| ==> front[i] == ps[i];
    }
  }

  lemma MostIsOne(t: Tristate, u: Tristate, ps: seq<Option<Expr>>, v: Valuation)
    requires IsMost(t, ps, v) && IsMost(u, ps, v)
    ensures t == u
  {
  }

  lemma {:induction false} ActiveIsFirst(ds: seq<Default>, v: Valuation)
    ensures forall i :: DefaultInForce(ds, i, v) ==> ActiveDefault(ds, v) == Some(ds[i])
    ensures NoDefaultInForce(ds, v) ==> ActiveDefault(ds, v) == None
  {
    if ds != [] {
      ActiveIsFirst(ds[1..], v);
      forall i | DefaultInForce(ds, i, v) ensures ActiveDefault(ds, v) == Some(ds[i]) {
        if i > 0 { assert DefaultInForce(ds[1..], i - 1, v); }
      }
    }
  }

  lemma {:induction false} ActiveRangeIsFirst(rs: seq<Range>, v: Valuation)
    ensures forall i :: RangeInForce(rs, i, v) ==> ActiveRange(rs, v) == Some(rs[i])
    ensures (forall i :: 0 <= i < |rs| ==> EvalOpt(rs[i].cond, v) == NO) ==> ActiveRange(rs, v) == None
  {
    if rs != [] {
      ActiveRangeIsFirst(rs[1..], v);
      forall i | RangeInForce(rs, i, v) ensures ActiveRange(rs, v) == Some(rs[i]) {
        if i > 0 { assert RangeInForce(rs[1..], i - 1, v); }
      }
    }
  }

  /** How far the prompts let the user go; a missing prompt lets nobody. */
  ghost predicate PromptsAllow(k: Kconfig, s: Symbol, vis: Tristate, v: Valuation) {
    exists t: Tristate :: IsMost(t, Def(k, s).prompts, v) &&
      vis == if t == MOD && (TypeOf(s) != Trivalent || k.modules == NO) then YES else t
  }

  lemma VisibleIsAllowed(k: Kconfig, s: Symbol, v: Valuation)
    ensures forall vis: Tristate :: PromptsAllow(k, s, vis, v) <==> vis == Visible(k, s, v)
  {
    PromptsAreMost(Def(k, s).prompts, v);
    forall t: Tristate | IsMost(t, Def(k, s).prompts, v) ensures t == PromptsValue(Def(k, s).prompts, v) {
      MostIsOne(t, PromptsValue(Def(k, s).prompts, v), Def(k, s).prompts, v);
    }
  }

  // ----- booleans and tristates -----

  /** A missing condition of selects or implies asks for nothing. */
  function Asks(k: Kconfig, s: Symbol, e: Option<Expr>, v: Valuation): Tristate {
    match e case None => NO case Some(x) => Promoted(k, s, Eval(x, v))
  }

  function Dependency(k: Kconfig, s: Symbol, v: Valuation): Tristate {
    match Def(k, s).dirDep case None => YES case Some(x) => Promoted(k, s, Eval(x, v))
  }

  /** The symbol is a boolean or tristate of the menu files, and its value solves the equations. */
  ghost predicate Calculated(k: Kconfig, s: Symbol, v: Valuation) { s.Config? && IsLogic(s) && Solves(k, v) }

  /** A user value is taken as far as the prompts allow, and selects are added. */
  lemma UserValueIsTaken(k: Kconfig, s: Symbol, vis: Tristate, v: Valuation)
    requires Calculated(k, s, v) && PromptsAllow(k, s, vis, v) && vis != NO && Def(k, s).user.Some?
    ensures v(s).tri == Promoted(k, s, Max(Min(Def(k, s).user.value.tri, vis), Asks(k, s, Def(k, s).revDep, v)))
  {
    VisibleIsAllowed(k, s, v);
    assert v(s) == Step(k, s, v);
  }

  /** No user value is taken: there is none, or no prompt is visible. */
  ghost predicate Unset(k: Kconfig, s: Symbol, v: Valuation) {
    Def(k, s).user.None? || PromptsAllow(k, s, NO, v)
  }

  /** The default in force gives its value, as far as its own condition allows. */
  ghost predicate DefaultGives(k: Kconfig, s: Symbol, t: Tristate, v: Valuation) {
    var ds := Def(k, s).defaults;
    if NoDefaultInForce(ds, v) then t == NO
    else exists i :: DefaultInForce(ds, i, v) && t == Min(Eval(ds[i].value, v), EvalOpt(ds[i].cond, v))
  }

  lemma {:induction false} SomeDefaultIsFirst(ds: seq<Default>, v: Valuation)
    ensures !NoDefaultInForce(ds, v) ==> exists i :: DefaultInForce(ds, i, v)
  {
    if ds != [] && EvalOpt(ds[0].cond, v) == NO {
      SomeDefaultIsFirst(ds[1..], v);
      forall i | DefaultInForce(ds[1..], i, v) ensures DefaultInForce(ds, i + 1, v) {
        forall j | 0 <= j < i + 1 ensures EvalOpt(ds[j].cond, v) == NO {
          if j > 0 { assert ds[j] == ds[1..][j - 1]; }
        }
      }
      if !NoDefaultInForce(ds, v) {
        var j :| 0 <= j < |ds| && EvalOpt(ds[j].cond, v) != NO;
        assert ds[1..][j - 1] == ds[j];
        var i :| DefaultInForce(ds[1..], i, v);
        assert DefaultInForce(ds, i + 1, v);
      }
    } else if ds != [] {
      assert DefaultInForce(ds, 0, v);
    }
  }

  lemma DefaultGivesOne(k: Kconfig, s: Symbol, v: Valuation)
    ensures forall t: Tristate :: DefaultGives(k, s, t, v) <==> t == DefaultValue(ActiveDefault(Def(k, s).defaults, v), v)
  {
    ActiveIsFirst(Def(k, s).defaults, v);
    SomeDefaultIsFirst(Def(k, s).defaults, v);
  }

  /** Without imply, an unset symbol has what the default in force gives, or what a select asks. */
  lemma UnimpliedValue(k: Kconfig, s: Symbol, t: Tristate, v: Valuation)
    requires Calculated(k, s, v) && Unset(k, s, v) && DefaultGives(k, s, t, v)
    requires Asks(k, s, Def(k, s).implied, v) == NO
    ensures v(s).tri == Promoted(k, s, Max(t, Asks(k, s, Def(k, s).revDep, v)))
  {
    VisibleIsAllowed(k, s, v);
    DefaultGivesOne(k, s, v);
    assert v(s) == Step(k, s, v);
  }

  /** An implied one has what default or imply gives, as far as its dependency allows, or
      what a select asks. */
  lemma ImpliedValue(k: Kconfig, s: Symbol, t: Tristate, v: Valuation)
    requires Calculated(k, s, v) && Unset(k, s, v) && DefaultGives(k, s, t, v)
    requires Asks(k, s, Def(k, s).implied, v) != NO
    ensures v(s).tri == Promoted(k, s, Max(Min(Max(t, Asks(k, s, Def(k, s).implied, v)), Dependency(k, s, v)), Asks(k, s, Def(k, s).revDep, v)))
  {
    VisibleIsAllowed(k, s, v);
    DefaultGivesOne(k, s, v);
    assert v(s) == Step(k, s, v);
  }

  /** An implied symbol is at most what its dependency allows or a select asks, and at
      least what is implied as far as the dependency allows. */
  lemma ImpliedWithinDependency(k: Kconfig, s: Symbol, v: Valuation)
    requires Calculated(k, s, v) && Unset(k, s, v) && Asks(k, s, Def(k, s).implied, v) != NO
    ensures v(s).tri <= Max(Dependency(k, s, v), Asks(k, s, Def(k, s).revDep, v))
    ensures v(s).tri >= Min(Asks(k, s, Def(k, s).implied, v), Dependency(k, s, v))
    ensures v(s).tri >= Asks(k, s, Def(k, s).revDep, v)
  {
    DefaultGivesOne(k, s, v);
    ImpliedValue(k, s, DefaultValue(ActiveDefault(Def(k, s).defaults, v), v), v);
  }

  // ----- numbers and strings -----

  ghost predicate TextCalculated(k: Kconfig, s: Symbol, v: Valuation) {
    s.Config? && (s.ty == Int || s.ty == Hex || s.ty == String) && Solves(k, v)
  }

  function NoText(ty: SymbolType): string {
    match ty case Int => "0" case Hex => "0x0" case _ => ""
  }

  /** The text before any range is looked at. */
  ghost predicate TextGiven(k: Kconfig, s: Symbol, text: string, v: Valuation) {
    var d := Def(k, s);
    if !Unset(k, s, v) then text == d.user.value.str
    else if exists i :: DefaultInForce(d.defaults, i, v) && d.defaults[i].value.Sym? then
      exists i :: DefaultInForce(d.defaults, i, v) && d.defaults[i].value.Sym? && text == v(d.defaults[i].value.s).str
    else text == NoText(TypeOf(s))
  }

  lemma TextGivenIsOne(k: Kconfig, s: Symbol, text: string, v: Valuation)
    requires TextCalculated(k, s, v) && TextGiven(k, s, text, v)
    ensures text == StringOf(k, s, v)
  {
    VisibleIsAllowed(k, s, v);
    ActiveIsFirst(Def(k, s).defaults, v);
    SomeDefaultIsFirst(Def(k, s).defaults, v);
  }

  /** The number that a bound's text spells, in the base of its own type if that is a number. */
  predicate BoundSpells(bound: Symbol, ty: SymbolType, x: int, v: Valuation) {
    if (if IsNumber(TypeOf(bound)) then TypeOf(bound) else ty) == Hex then SpellsHex(v(bound).str, x)
    else SpellsInt(v(bound).str, x)
  }

  lemma BoundIsRead(bound: Symbol, ty: SymbolType, x: int, v: Valuation)
    requires IsNumber(ty) && BoundSpells(bound, ty, x, v)
    ensures BoundValue(bound, ty, v) == Nearest(x)
  {
    LeadingIsSpelled(v(bound).str, x);
  }

  /** Without a range in force the text is the value; strings never have one. */
  lemma TextIsTaken(k: Kconfig, s: Symbol, text: string, v: Valuation)
    requires TextCalculated(k, s, v) && TextGiven(k, s, text, v)
    requires s.ty == String || forall i :: 0 <= i < |Def(k, s).ranges| ==> EvalOpt(Def(k, s).ranges[i].cond, v) == NO
    ensures v(s).str == text
  {
    TextGivenIsOne(k, s, text, v);
    ActiveRangeIsFirst(Def(k, s).ranges, v);
    assert v(s) == Step(k, s, v);
  }

  /** Of the ranges, the first whose condition is not n is in force: a number below its
      minimum becomes the text of the minimum, one above its maximum that of the maximum. */
  lemma RangeIsKept(k: Kconfig, s: Symbol, text: string, i: int, x: int, low: int, high: int, v: Valuation)
    requires TextCalculated(k, s, v) && TextGiven(k, s, text, v) && s.ty != String && RangeInForce(Def(k, s).ranges, i, v)
    requires if s.ty == Hex then SpellsHex(text, x) else SpellsInt(text, x)
    requires BoundSpells(Def(k, s).ranges[i].low, s.ty, low, v) && BoundSpells(Def(k, s).ranges[i].high, s.ty, high, v)
    ensures var r := Def(k, s).ranges[i];
      v(s).str ==
      if Nearest(x) < Nearest(low) then v(r.low).str else if Nearest(x) <= Nearest(high) then text else v(r.high).str
  {
    var r := Def(k, s).ranges[i];
    TextGivenIsOne(k, s, text, v);
    ActiveRangeIsFirst(Def(k, s).ranges, v);
    LeadingIsSpelled(text, x);
    BoundIsRead(r.low, s.ty, low, v);
    BoundIsRead(r.high, s.ty, high, v);
    assert v(s) == Step(k, s, v);
    assert v(s).str == Validated(k, s, text, v) == Clipped(r, s.ty, text, v);
  }

  // ----- what is written, and what the user may choose -----

  ghost predicate AnyPromptVisible(k: Kconfig, s: Symbol, v: Valuation) {
    exists i :: 0 <= i < |Def(k, s).prompts| && EvalOpt(Def(k, s).prompts[i], v) != NO
  }

  lemma AnyPromptIsVisible(k: Kconfig, s: Symbol, v: Valuation)
    ensures AnyPromptVisible(k, s, v) <==> Visible(k, s, v) != NO
  {
    PromptsAreMost(Def(k, s).prompts, v);
  }

  /** A boolean or tristate is written if it has a visible prompt, is selected or implied,
      or its default gives more than n. */
  lemma LogicIsWrittenIff(k: Kconfig, s: Symbol, t: Tristate, v: Valuation)
    requires Calculated(k, s, v) && DefaultGives(k, s, t, v)
    ensures Written(k, s, v) <==>
      AnyPromptVisible(k, s, v) || Asks(k, s, Def(k, s).revDep, v) != NO || Asks(k, s, Def(k, s).implied, v) != NO || t != NO
  {
    AnyPromptIsVisible(k, s, v);
    DefaultGivesOne(k, s, v);
  }

  /** Any other symbol is written if it has a visible prompt or a default in force names a symbol. */
  lemma TextIsWrittenIff(k: Kconfig, s: Symbol, v: Valuation)
    requires TextCalculated(k, s, v)
    ensures Written(k, s, v) <==>
      AnyPromptVisible(k, s, v) || exists i :: DefaultInForce(Def(k, s).defaults, i, v) && Def(k, s).defaults[i].value.Sym?
  {
    AnyPromptIsVisible(k, s, v);
    ActiveIsFirst(Def(k, s).defaults, v);
    SomeDefaultIsFirst(Def(k, s).defaults, v);
  }

  /** The user may choose between what selects ask and what prompts allow, if these differ. */
  lemma MayBeChosenIff(k: Kconfig, s: Symbol, t: Tristate, vis: Tristate, v: Valuation)
    requires s.Config? && IsLogic(s) && PromptsAllow(k, s, vis, v)
    ensures var sel := Asks(k, s, Def(k, s).revDep, v);
      WithinRange(k, s, t, v) <==> sel < vis && sel <= t <= vis && Promoted(k, s, t) == t
  {
    VisibleIsAllowed(k, s, v);
  }
}
