/** When an item is moved under the symbol before it: comparisons are pushed to the
    symbols of a condition, and what is left after cancelling decides. */
module Submenu {
  import opened Symbols
  import opened Exprs
  import opened ExprEq
  import opened ExprDups
  import opened ExprTransform

  predicate Contains(e: Expr, s: Symbol) { s in SymbolsOf(e) }

  predicate Depends(e: Expr, s: Symbol) {
    match e
    case Bin(c, l, r) => c.And? && (Depends(l, s) || Depends(r, s))
    case Sym(t) => t == s
    case Comp(op, a, b) => a == s && ((op.EQ? && (b.Yes? || b.Mod?)) || (op.NE? && b.No?))
    case Not(_) => false
  }

  function Constant(k: Tristate): Symbol { if k == NO then No else if k == MOD then Mod else Yes }

  /** [e = k], or [e != k] when `unequal`. Under m, conjunctions and disjunctions are
      returned as they are, not compared. */
  function TransCompare(e: Expr, unequal: bool, k: Tristate): Expr {
    match e
    case Bin(c, l, r) =>
      var l', r' := TransCompare(l, false, k), TransCompare(r, false, k);
      var x := if k == YES then Bin(c, l', r') else if k == NO then Bin(Dual(c), l', r') else e;
      if unequal then Not(x) else x
    case Not(x) => TransCompare(x, !unequal, k)
    case Comp(_, _, _) =>
      if k == MOD then Sym(if unequal then Yes else No)
      else if (k == YES) == !unequal then e
      else Not(e)
    case Sym(s) => Comp(if unequal then NE else EQ, s, Constant(k))
  }

  function TransCompareOpt(e: Option<Expr>, unequal: bool, k: Tristate): Expr {
    if e.Some? then TransCompare(e.value, unequal, k)
    else if unequal then Not(Sym(Constant(k))) else Sym(Constant(k))
  }

  // ----- exactness -----

  /** A symbol that is neither boolean nor tristate is compared by its text: as a number
      when it reads as one in the base of its type, and as a string otherwise. */
  predicate ReadsAs(ty: SymbolType, text: string, k: Tristate) {
    match ParseString(text, ty)
    case NotNumber => text == TriName(k)
    case Signed(x) => x == k
    case Unsigned(x) => x == k
  }

  lemma CompareWithText(s: Symbol, x: SymVal, k: Tristate)
    requires !IsLogic(s)
    ensures Compare(s, x, Constant(k), SymVal(k, TriName(k))) == 0 <==> ReadsAs(TypeOf(s), x.str, k)
  {
    assert TriNumber(TriName(k)) == k;
  }

  /** Comparing the symbol alone with n tells whether its value is n. */
  predicate ExactOperand(s: Symbol, v: Valuation) { IsLogic(s) || ReadsAs(TypeOf(s), v(s).str, NO) }

  /** Comparing the negated symbol with n tells whether the negation is n. */
  predicate ExactNegation(s: Symbol, v: Valuation) { v(s).tri != MOD && ExactOperand(s, v) }

  /** Comparisons of the symbols that stand alone tell their values. */
  predicate ExactOperands(e: Expr, k: Tristate, v: Valuation) {
    match e
    case Sym(s) => IsLogic(s) || ReadsAs(TypeOf(s), v(s).str, k) == (k == NO)
    case Not(x) => ExactOperands(x, k, v)
    case Bin(_, l, r) => ExactOperands(l, k, v) && ExactOperands(r, k, v)
    case Comp(_, _, _) => true
  }

  /** Nothing under a negation is worth m. */
  predicate NoModNegated(e: Expr, v: Valuation) {
    match e
    case Not(x) => Eval(x, v) != MOD && NoModNegated(x, v)
    case Bin(_, l, r) => NoModNegated(l, v) && NoModNegated(r, v)
    case _ => true
  }

  lemma ComparedSymbol(s: Symbol, unequal: bool, k: Tristate, v: Valuation)
    requires Admissible(v)
    ensures Eval(TransCompare(Sym(s), unequal, k), v) ==
            Truth((if IsLogic(s) then v(s).tri == k else ReadsAs(TypeOf(s), v(s).str, k)) != unequal)
    ensures !IsLogic(s) ==> v(s).tri == NO
  {
    ConstantsHold(v);
    assert AdmissibleValue(s, v(s)) && AdmissibleValue(Constant(k), v(Constant(k)));
    if IsLogic(s) {
      CompareWithConstant(s, Constant(k), v);
    } else {
      CompareWithText(s, v(s), k);
    }
  }

  lemma {:induction false} TransCompareExact(e: Expr, unequal: bool, k: Tristate, v: Valuation)
    requires Admissible(v) && k != MOD && ExactOperands(e, k, v) && NoModNegated(e, v)
    ensures Eval(TransCompare(e, unequal, k), v) == Truth((Eval(e, v) == k) != unequal)
  {
    match e
    case Bin(c, l, r) =>
      TransCompareExact(l, false, k, v);
      TransCompareExact(r, false, k, v);
    case Not(x) => TransCompareExact(x, !unequal, k, v);
    case Comp(_, _, _) =>
    case Sym(s) => ComparedSymbol(s, unequal, k, v);
  }

  /** At a symbol alone the result is the comparison exactly when the symbol is boolean
      or tristate, or its text compares as n does: for an undefined U, [U != n] comes out
      as y although U is n. */
  lemma TransCompareOfSymbolExactIff(s: Symbol, unequal: bool, k: Tristate, v: Valuation)
    requires Admissible(v)
    ensures Eval(TransCompare(Sym(s), unequal, k), v) == Truth((v(s).tri == k) != unequal) <==>
            IsLogic(s) || ReadsAs(TypeOf(s), v(s).str, k) == (k == NO)
  {
    ComparedSymbol(s, unequal, k, v);
  }

  /** At a negated symbol the result is the comparison exactly when, beside that, the
      symbol is not m: for a tristate at m, [!A != n] comes out as n although !A is m. */
  lemma TransCompareOfNegationExactIff(a: Symbol, unequal: bool, k: Tristate, v: Valuation)
    requires Admissible(v) && k != MOD
    ensures Eval(TransCompare(Not(Sym(a)), unequal, k), v) == Truth((Eval(Not(Sym(a)), v) == k) != unequal) <==>
            v(a).tri != MOD && (IsLogic(a) || ReadsAs(TypeOf(a), v(a).str, k) == (k == NO))
  {
    ComparedSymbol(a, !unequal, k, v);
  }

  /** Compared with m, a conjunction or disjunction is right only where it is n. */
  lemma TransCompareToModExactIff(e: Expr, v: Valuation)
    requires e.Bin?
    ensures Eval(TransCompare(e, false, MOD), v) == Truth(Eval(e, v) == MOD) <==> Eval(e, v) == NO
  {}

  /** A comparison is never m, and compares exactly with all three; so does a missing
      condition with n. */
  lemma TransCompareOfComparison(e: Expr, unequal: bool, k: Tristate, v: Valuation)
    requires Admissible(v)
    ensures e.Comp? ==> Eval(TransCompare(e, unequal, k), v) == Truth((Eval(e, v) == k) != unequal)
    ensures Eval(TransCompareOpt(None, true, NO), v) == YES
  {
    ConstantsHold(v);
  }

  // ----- one-sided bounds that hold for conditions in normal form -----

  lemma {:induction false} TransCompareIsTwoValued(e: Expr, unequal: bool, k: Tristate, v: Valuation)
    requires k != MOD
    ensures Eval(TransCompare(e, unequal, k), v) != MOD
  {
    match e
    case Bin(_, l, r) =>
      TransCompareIsTwoValued(l, false, k, v);
      TransCompareIsTwoValued(r, false, k, v);
    case Not(x) => TransCompareIsTwoValued(x, !unequal, k, v);
    case _ =>
  }

  /** On normal forms: the symbols standing alone, and those negated. */
  predicate ExactPositives(e: Expr, v: Valuation) {
    match e
    case Sym(s) => ExactOperand(s, v)
    case Bin(_, l, r) => ExactPositives(l, v) && ExactPositives(r, v)
    case _ => true
  }

  predicate ExactNegations(e: Expr, v: Valuation) {
    match e
    case Not(x) => x.Sym? ==> ExactNegation(x.s, v)
    case Bin(_, l, r) => ExactNegations(l, v) && ExactNegations(r, v)
    case _ => true
  }

  /** A condition worth n is found to be n, whatever its negated symbols are. */
  lemma {:induction false} FindsN(e: Expr, v: Valuation)
    requires Admissible(v) && IsNNF(e) && ExactPositives(e, v) && Eval(e, v) == NO
    ensures Eval(TransCompare(e, false, NO), v) == YES && Eval(TransCompare(e, true, NO), v) == NO
  {
    match e
    case Bin(c, l, r) =>
      TransCompareIsTwoValued(l, false, NO, v);
      TransCompareIsTwoValued(r, false, NO, v);
      if Eval(l, v) == NO { FindsN(l, v); }
      if Eval(r, v) == NO { FindsN(r, v); }
    case Not(x) =>
      ComparedSymbol(x.s, true, NO, v);
      ComparedSymbol(x.s, false, NO, v);
    case Comp(_, _, _) =>
    case Sym(s) =>
      ComparedSymbol(s, true, NO, v);
      ComparedSymbol(s, false, NO, v);
  }

  /** A condition found to be n is worth n, whatever its unnegated symbols are. */
  lemma {:induction false} FindsOnlyN(e: Expr, v: Valuation)
    requires Admissible(v) && IsNNF(e) && ExactNegations(e, v) && Eval(e, v) != NO
    ensures Eval(TransCompare(e, false, NO), v) == NO && Eval(TransCompare(e, true, NO), v) == YES
  {
    match e
    case Bin(c, l, r) =>
      TransCompareIsTwoValued(l, false, NO, v);
      TransCompareIsTwoValued(r, false, NO, v);
      if Eval(l, v) != NO { FindsOnlyN(l, v); }
      if Eval(r, v) != NO { FindsOnlyN(r, v); }
    case Not(x) =>
      ComparedSymbol(x.s, true, NO, v);
      ComparedSymbol(x.s, false, NO, v);
    case Comp(_, _, _) =>
    case Sym(s) =>
      ComparedSymbol(s, true, NO, v);
      ComparedSymbol(s, false, NO, v);
  }

  lemma {:induction false} TransCompareTests(e: Expr, unequal: bool, k: Tristate)
    ensures Tests(TransCompare(e, unequal, k), false) <= Tests(e, true)
  {
    match e
    case Bin(_, l, r) =>
      TransCompareTests(l, false, k);
      TransCompareTests(r, false, k);
      var x := TransCompare(e, false, k);
      AloneAddsTests(e);
      assert Tests(x, false) <= Tests(e, true) && Tests(Not(x), false) == Tests(x, false);
    case Not(x) => TransCompareTests(x, !unequal, k);
    case Comp(_, _, _) =>
      assert Tests(Not(e), false) == Tests(e, false);
    case Sym(_) =>
  }

  /** Comparing a normal form with n never brings in the comparison of a boolean with y
      that the normalisation cannot negate. */
  lemma {:induction false} TransCompareIsTransformable(e: Expr, unequal: bool)
    requires IsNNF(e)
    ensures var c := TransCompare(e, unequal, NO); TransformAsWritten(c) == Some(Transform(c))
  {
    TransCompareTestsNoYes(e, unequal);
    TransformAsWrittenIff(TransCompare(e, unequal, NO));
  }

  lemma {:induction false} TransCompareTestsNoYes(e: Expr, unequal: bool)
    requires IsNNF(e)
    ensures !TestsUnequalToYes(TransCompare(e, unequal, NO))
  {
    match e
    case Bin(_, l, r) =>
      TransCompareTestsNoYes(l, false);
      TransCompareTestsNoYes(r, false);
    case Not(x) => TransCompareTestsNoYes(x, !unequal);
    case _ =>
  }

  // ----- the decision -----

  /** The condition "e is not n", simplified. */
  function NotN(e: Option<Expr>): Expr {
    EliminateDups(Transform(TransCompareOpt(e, true, NO)))
  }

  /** The item with condition `dep` goes under `sym`, whose prompt has condition `base`:
      it depends on `sym` outright, or mentions it and asks for all that `base` asks. */
  predicate MovesUnder(sym: Symbol, dep: Option<Expr>, base: Option<Expr>) {
    dep.Some? && Contains(dep.value, sym) &&
    (Depends(dep.value, sym) || EliminateEq(NotN(dep), NotN(base)).1 == Sym(Yes))
  }

  /** A symbol of any type that compares as it is worth is not n where something that
      depends on it outright is enabled. */
  lemma {:induction false} DependsSound(e: Expr, s: Symbol, v: Valuation)
    requires Admissible(v) && Depends(e, s) && Eval(e, v) != NO
    ensures ExactOperand(s, v) ==> v(s).tri != NO
  {
    match e
    case Bin(_, l, r) => if Depends(l, s) { DependsSound(l, s, v); } else { DependsSound(r, s, v); }
    case Comp(op, a, b) =>
      assert e == TransCompare(Sym(a), op.NE?, if b.No? then NO else if b.Mod? then MOD else YES);
      ComparedSymbol(a, op.NE?, if b.No? then NO else if b.Mod? then MOD else YES, v);
    case _ =>
  }

  /** A symbol is not n wherever an outright dependency on it is enabled, exactly when it
      is boolean or tristate or its text reads as n. */
  lemma {:induction false} DependsSoundIff(s: Symbol, v: Valuation)
    requires Admissible(v)
    ensures (forall e :: Depends(e, s) && Eval(e, v) != NO ==> v(s).tri != NO) <==> ExactOperand(s, v)
  {
    if ExactOperand(s, v) {
      forall e | Depends(e, s) && Eval(e, v) != NO ensures v(s).tri != NO { DependsSound(e, s, v); }
    } else {
      var e := Comp(NE, s, No);
      ComparedSymbol(s, true, NO, v);
      assert e == TransCompare(Sym(s), true, NO) && Depends(e, s) && Eval(e, v) == YES;
    }
  }

  /** Free of clashes also once the symbols standing alone are compared with n. */
  ghost predicate ClashFreeCompared(e: Option<Expr>) { e.Some? ==> TestsApart(Tests(e.value, true)) }

  lemma NotNKeepsValue(e: Option<Expr>, v: Valuation)
    requires Admissible(v) && ClashFreeCompared(e)
    ensures Eval(NotN(e), v) == Eval(TransCompareOpt(e, true, NO), v)
  {
    var c := TransCompareOpt(e, true, NO);
    TransformPreservesValue(c, v);
    if e.Some? {
      TransCompareTests(e.value, true, NO);
      TransformTests(c, false);
      EliminateDupsPreservesValueIn(Transform(c), v, Tests(e.value, true));
    } else {
      assert Transform(c) == Sym(Yes);
    }
  }

  predicate InNormalForm(e: Option<Expr>) { e.Some? ==> IsNNF(e.value) }

  /** An item moved under a symbol of any type is enabled only when the symbol or its
      prompt is, as long as the comparison with n is exact: for an outright dependency at
      the symbol itself, and otherwise at the negated symbols of the item's condition and
      at the unnegated symbols of the prompt's. */
  lemma MovedItemIsEnabledUnderSymbol(sym: Symbol, dep: Option<Expr>, base: Option<Expr>, v: Valuation)
    requires Admissible(v) && MovesUnder(sym, dep, base)
    requires InNormalForm(dep) && InNormalForm(base) && ClashFreeCompared(dep) && ClashFreeCompared(base)
    requires ExactNegations(dep.value, v) && (base.Some? ==> ExactPositives(base.value, v))
    requires EvalOpt(dep, v) != NO
    ensures if Depends(dep.value, sym) then ExactOperand(sym, v) ==> v(sym).tri != NO else EvalOpt(base, v) != NO
  {
    if Depends(dep.value, sym) {
      DependsSound(dep.value, sym, v);
    } else {
      ConstantsHold(v);
      NotNKeepsValue(dep, v);
      NotNKeepsValue(base, v);
      FindsOnlyN(dep.value, v);
      EliminateEqReflectsOrder(NotN(dep), NotN(base), v);
      if base.Some? && Eval(base.value, v) == NO {
        FindsN(base.value, v);
      }
    }
  }

  // ----- all three conditions are needed -----

  /** At any symbol S that is neither boolean nor tristate, and any text of it that does
      not read as n: an item that depends on S!=n moves under S, whatever the condition of
      its prompt, and is enabled although S is n. */
  lemma MovedItemMayEscapeUnderText(s: Symbol, x: SymVal, base: Option<Expr>) returns (dep: Option<Expr>, v: Valuation)
    requires s.Config? && AdmissibleValue(s, x) && !IsLogic(s) && !ReadsAs(TypeOf(s), x.str, NO)
    ensures MovesUnder(s, dep, base) && Depends(dep.value, s) && InNormalForm(dep) && ClashFreeCompared(dep)
    ensures Admissible(v) && v(s) == x && EvalOpt(dep, v) == YES && v(s).tri == NO
  {
    dep := Some(Comp(NE, s, No));
    var w := Witness(No, NO);
    v := (t: Symbol) => if t == s then x else w(t);
    forall t: Symbol
      ensures AdmissibleValue(t, v(t))
    {
      assert AdmissibleValue(t, w(t));
    }
    assert Admissible(v);
    assert dep.value == TransCompare(Sym(s), true, NO);
    ComparedSymbol(s, true, NO, v);
  }

  /** Two tristates, and a symbol that holds the value `x`. */
  predicate Escapes(a: Symbol, b: Symbol, q: Symbol, x: SymVal) {
    a.Config? && q.Config? && a.ty == q.ty == Trivalent && b.Config? && a != q && b != a && b != q && AdmissibleValue(b, x)
  }

  ghost predicate EnabledAlone(a: Symbol, b: Symbol, x: SymVal, dep: Option<Expr>, base: Option<Expr>, v: Valuation) {
    MovesUnder(a, dep, base) && !Depends(dep.value, a) && InNormalForm(dep) && InNormalForm(base) &&
    Admissible(v) && v(b) == x && EvalOpt(dep, v) != NO && EvalOpt(base, v) == NO && v(a).tri == NO
  }

  /** At any negated symbol B, and any value of B, at which the comparison is not exact
      (m, or a text that does not read as n): with A prompted "if B=n" and an item
      depending on (A || Q) && !B, the item moves under A; with Q at y it is enabled
      although A's prompt is not. */
  lemma MovedItemMayEscapeUnderNegation(a: Symbol, b: Symbol, q: Symbol, x: SymVal)
    returns (dep: Option<Expr>, base: Option<Expr>, v: Valuation)
    requires Escapes(a, b, q, x) && !TypeOf(b).Boolean?
    requires x.tri == MOD || !(IsLogic(b) || ReadsAs(TypeOf(b), x.str, NO))
    ensures EnabledAlone(a, b, x, dep, base, v) && !ExactNegation(b, v)
  {
    dep := Some(EscapingItem(a, q, Not(Sym(b))));
    base := Some(Comp(EQ, b, No));
    v := EscapingValuation(a, b, q, x);
    ComparedSymbol(b, false, NO, v);
    EscapingItemValue(a, q, Not(Sym(b)), v);
    assert IsNNF(base.value);
    TransformFixesNNF(base.value);
    assert TransCompare(base.value, true, NO) == base.value;
    assert TransCompare(Not(Sym(b)), false, NO) == Comp(NE, b, No);
    assert SameComparison(Not(Sym(b)), base.value, base.value);
    EscapingItemMoves(a, q, Not(Sym(b)), base.value);
  }

  /** At any unnegated symbol U, and any text of U that does not read as n: with A
      prompted "if U" and an item depending on (A || Q) && U!=n, the item moves under A;
      with Q at y it is enabled although A's prompt is not. No negation is involved. */
  lemma MovedItemMayEscapeBesideText(a: Symbol, u: Symbol, q: Symbol, x: SymVal)
    returns (dep: Option<Expr>, base: Option<Expr>, v: Valuation)
    requires Escapes(a, u, q, x)
    requires !(IsLogic(u) || ReadsAs(TypeOf(u), x.str, NO))
    ensures EnabledAlone(a, u, x, dep, base, v) && ExactNegations(dep.value, v) && !ExactOperand(u, v)
  {
    dep := Some(EscapingItem(a, q, Comp(NE, u, No)));
    base := Some(Sym(u));
    v := EscapingValuation(a, u, q, x);
    ComparedSymbol(u, true, NO, v);
    EscapingItemValue(a, q, Comp(NE, u, No), v);
    assert IsNNF(Comp(NE, u, No));
    TransformFixesNNF(Comp(NE, u, No));
    assert SameComparison(Comp(NE, u, No), base.value, Comp(NE, u, No));
    EscapingItemMoves(a, q, Comp(NE, u, No), base.value);
  }

  function EscapingValuation(a: Symbol, b: Symbol, q: Symbol, x: SymVal): (v: Valuation)
    requires Escapes(a, b, q, x)
    ensures Admissible(v) && v(a).tri == NO && v(b) == x && v(q).tri == YES
  {
    var v := (s: Symbol) =>
      if s == b then x else if s == q then SymVal(YES, "y") else Witness(a, NO)(s);
    assert Admissible(v) by {
      forall s: Symbol
        ensures AdmissibleValue(s, v(s))
      {
        assert AdmissibleValue(s, Witness(a, NO)(s));
      }
    }
    assert v(a) == Witness(a, NO)(a);
    v
  }

  /** (A || Q) && last */
  function EscapingItem(a: Symbol, q: Symbol, last: Expr): Expr {
    Bin(And, Bin(Or, Sym(a), Sym(q)), last)
  }

  lemma EscapingItemValue(a: Symbol, q: Symbol, last: Expr, v: Valuation)
    requires v(q).tri == YES
    ensures Eval(EscapingItem(a, q, last), v) == Eval(last, v)
  {
    assert Eval(Bin(Or, Sym(a), Sym(q)), v) == YES;
  }

  /** The item's last operand and the prompt's condition come to one comparison. */
  predicate SameComparison(last: Expr, base: Expr, z: Expr) {
    z.Comp? && (z.op.EQ? || z.op.NE?) && IsNNF(z) && IsNNF(last) && IsNNF(base) &&
    Transform(TransCompare(last, false, NO)) == z.(op := Complement(z.op)) &&
    Transform(TransCompare(base, true, NO)) == z
  }

  lemma EscapingItemMoves(a: Symbol, q: Symbol, last: Expr, base: Expr)
    requires TypeOf(a).Trivalent? && TypeOf(q).Trivalent? && a != q && a.Config? && q.Config?
    requires a !in SymbolsOf(last) && exists z :: SameComparison(last, base, z)
    requires !Depends(last, a)
    ensures MovesUnder(a, Some(EscapingItem(a, q, last)), Some(base))
    ensures IsNNF(EscapingItem(a, q, last)) && !Depends(EscapingItem(a, q, last), a)
  {
    var z :| SameComparison(last, base, z);
    var e := EscapingItem(a, q, last);
    assert SymbolsOf(e.l) == {a, q} && SymbolsOf(e) == {a, q} + SymbolsOf(e.r);
    assert IsNNF(Sym(a)) && IsNNF(Sym(q));
    assert IsNNF(e.l) && IsNNF(e.r);
    assert !Depends(e.l, a) && !Depends(e.r, a);
    NotNOfEscaping(a, q, last, base, z);
    CancelsTheCommonOperand(Bin(Or, Comp(NE, a, No), Comp(NE, q, No)), z);
  }

  lemma {:induction false} CancelsTheCommonOperand(x: Expr, y: Expr)
    requires x.Bin? && x.c.Or? && y.Comp?
    ensures EliminateEq(Bin(And, x, y), y).1 == Sym(Yes)
  {
    assert CancelCommon(And, x, y) == (x, y);
    assert CancelCommon(And, y, y) == (Sym(Yes), Sym(Yes));
  }

  lemma NotNOfEscaping(a: Symbol, q: Symbol, last: Expr, base: Expr, z: Expr)
    requires TypeOf(a).Trivalent? && TypeOf(q).Trivalent? && a != q && SameComparison(last, base, z)
    ensures NotN(Some(EscapingItem(a, q, last))) == Bin(And, Bin(Or, Comp(NE, a, No), Comp(NE, q, No)), z)
    ensures NotN(Some(base)) == z
  {
    var x, y := Comp(NE, a, No), Comp(NE, q, No);
    var w := TransCompare(last, false, NO);
    ComparedEscaping(a, q, last);
    TransformEscaping(Comp(EQ, a, No), Comp(EQ, q, No), w, z.(op := Complement(z.op)));
    EscapingIsReduced(x, y, z);
    assert Transform(TransCompare(EscapingItem(a, q, last), true, NO)) == Bin(And, Bin(Or, x, y), z);
  }

  lemma {:induction false} EscapingIsReduced(x: Expr, y: Expr, z: Expr)
    requires x.Comp? && y.Comp? && z.Comp? && x.a != y.a
    ensures EliminateDups(Bin(And, Bin(Or, x, y), z)) == Bin(And, Bin(Or, x, y), z)
  {
    var l := Bin(Or, x, y);
    DifferentSubjects(Or, x, y);
    NothingToJoin(Or, x, y);
    DifferentSubjects(And, l, z);
    NothingToJoin(And, l, z);
  }

  lemma DifferentSubjects(c: Conn, l: Expr, r: Expr)
    requires r.Comp? && (l.Bin? || (l.Comp? && l.a != r.a))
    ensures Join(c, l, r).None?
  {
    assert !Equal(l, r);
    assert Subject(l, r).None?;
  }

  lemma ComparedEscaping(a: Symbol, q: Symbol, last: Expr)
    ensures TransCompare(EscapingItem(a, q, last), true, NO) ==
            Not(Bin(Or, Bin(And, Comp(EQ, a, No), Comp(EQ, q, No)), TransCompare(last, false, NO)))
  {
    assert TransCompare(Bin(Or, Sym(a), Sym(q)), false, NO) == Bin(And, Comp(EQ, a, No), Comp(EQ, q, No));
  }

  lemma TransformEscaping(x: Expr, y: Expr, w: Expr, z: Expr)
    requires x.Comp? && y.Comp? && z.Comp? && IsNNF(x) && IsNNF(y) && IsNNF(z) && Transform(w) == z
    ensures Transform(Not(Bin(Or, Bin(And, x, y), w))) ==
            Bin(And, Bin(Or, x.(op := Complement(x.op)), y.(op := Complement(y.op))), z.(op := Complement(z.op)))
  {
    var both := Bin(And, x, y);
    TransformFixesNNF(both);
    TransformFixesNNF(z);
    assert Transform(Bin(Or, both, w)) == Bin(Or, both, z);
    assert Transform(Not(x)) == x.(op := Complement(x.op));
    assert Transform(Not(y)) == y.(op := Complement(y.op));
    assert Transform(Not(z)) == z.(op := Complement(z.op));
    assert Transform(Not(both)) == Transform(Push(And, x, y));
    assert Transform(Not(Bin(Or, both, w))) == Transform(Push(Or, both, z));
  }

  /** Operands about different things stay as they are. */
  lemma NothingToJoin(c: Conn, l: Expr, r: Expr)
    requires Reduces(l, l) && Reduces(r, r) && EliminateDups(l) == l && EliminateDups(r) == r
    requires !IsYN(l) && !IsYN(r) && !IsConn(c, l) && !IsConn(c, r) && Join(c, l, r).None?
    ensures EliminateDups(Bin(c, l, r)) == Bin(c, l, r)
  {
    EliminateYNKeepsNormal(l);
    EliminateYNKeepsNormal(r);
    assert JoinOne(c, l, r) == (l, r, 0);
  }
}
