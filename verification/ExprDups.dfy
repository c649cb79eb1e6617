/** Removal of duplicate and redundant operands, and the fixpoint loop around it. */
module ExprDups {
  import opened Symbols
  import opened Exprs
  import opened ExprEq

  // ----- which two operands can be joined into one -----

  predicate IsComp(e: Expr, op: Cmp) { e.Comp? && e.op == op }

  predicate IsCompWith(e: Expr, op: Cmp, c: Symbol) { IsComp(e, op) && e.b == c }

  /** The operands are compared with the two constants, in either order. */
  predicate Compared(e1: Expr, e2: Expr, op: Cmp, c: Symbol, d: Symbol) {
    (IsCompWith(e1, op, c) && IsCompWith(e2, op, d)) || (IsCompWith(e1, op, d) && IsCompWith(e2, op, c))
  }

  /** One operand is a symbol alone, the other compares with the constant. */
  predicate SymbolAndComp(e1: Expr, e2: Expr, op: Cmp, c: Symbol) {
    (e1.Sym? && IsCompWith(e2, op, c)) || (e2.Sym? && IsCompWith(e1, op, c))
  }

  /** The one boolean or tristate symbol that both operands are about. The first may
      also be a negated comparison, the second may not. */
  function Subject(e1: Expr, e2: Expr): Option<Symbol> {
    var s1 := match e1
      case Sym(s) => Some(s)
      case Comp(op, a, _) => if op.EQ? || op.NE? then Some(a) else None
      case Not(Sym(s)) => Some(s)
      case Not(Comp(op, a, _)) => if op.EQ? || op.NE? then Some(a) else None
      case _ => None;
    var s2 := match e2
      case Sym(s) => Some(s)
      case Comp(op, a, _) => if op.EQ? || op.NE? then Some(a) else None
      case Not(Sym(s)) => Some(s)
      case _ => None;
    if s1.Some? && s1 == s2 && IsLogic(s1.value) then s1 else None
  }

  /** What two different operands come to under ||. */
  function OrTable(e1: Expr, e2: Expr): Option<Expr> {
    if Subject(e1, e2).None? then None
    else
      var s := Subject(e1, e2).value;
      if TypeOf(s).Trivalent? && Compared(e1, e2, EQ, Yes, Mod) then Some(Comp(NE, s, No))
      else if TypeOf(s).Trivalent? && Compared(e1, e2, EQ, Yes, No) then Some(Comp(NE, s, Mod))
      else if TypeOf(s).Trivalent? && Compared(e1, e2, EQ, Mod, No) then Some(Comp(NE, s, Yes))
      else if TypeOf(s).Boolean? &&
              ((e1.Not? && e1.e.Sym? && e2.Sym?) || (e2.Not? && e2.e.Sym? && e1.Sym?)) then Some(Sym(Yes))
      else None
  }

  function JoinOr(e1: Expr, e2: Expr): Option<Expr> { if Equal(e1, e2) then Some(e1) else OrTable(e1, e2) }

  /** Both operands compare with constants, one by = and the other by !=. */
  predicate EqualAndUnequal(e1: Expr, e2: Expr) {
    ((IsComp(e1, EQ) && IsComp(e2, NE)) || (IsComp(e1, NE) && IsComp(e2, EQ))) && IsConst(e1.b) && IsConst(e2.b)
  }

  /** What two different operands come to under &&. */
  function AndTable(e1: Expr, e2: Expr): Option<Expr> {
    if Subject(e1, e2).None? then None
    else
      var s := Subject(e1, e2).value;
      if SymbolAndComp(e1, e2, EQ, Yes) then Some(Comp(EQ, s, Yes))
      else if SymbolAndComp(e1, e2, NE, No) then Some(Sym(s))
      else if SymbolAndComp(e1, e2, NE, Mod) then Some(Comp(EQ, s, Yes))
      else if TypeOf(s).Boolean? then None
      else if EqualAndUnequal(e1, e2) then
        if e1.b == e2.b then Some(Sym(No)) else Some(Comp(EQ, s, if e1.op.EQ? then e1.b else e2.b))
      else if Compared(e1, e2, NE, Yes, No) then Some(Comp(EQ, s, Mod))
      else if Compared(e1, e2, NE, Yes, Mod) then Some(Comp(EQ, s, No))
      else if Compared(e1, e2, NE, Mod, No) then Some(Comp(EQ, s, Yes))
      else None
  }

  function JoinAnd(e1: Expr, e2: Expr): Option<Expr> { if Equal(e1, e2) then Some(e1) else AndTable(e1, e2) }

  function Join(c: Conn, e1: Expr, e2: Expr): Option<Expr> {
    if c.And? then JoinAnd(e1, e2) else JoinOr(e1, e2)
  }

  // ----- when joining is exact -----

  predicate CanHold(a: Symbol, t: Tristate) {
    match a
    case Yes => t == YES
    case Mod => t == MOD
    case No => t == NO
    case _ => IsLogic(a) && (TypeOf(a).Boolean? ==> t != MOD)
  }

  predicate SharesValue(a: Symbol, t: Tristate, b: Symbol, c: Symbol)
    requires IsConst(b) && IsConst(c)
  {
    CanHold(a, t) && Denotes(t, b) && Denotes(t, c)
  }

  /** The join turns (a=b) && (a!=c) into a=b although some value of a equals both of
      the distinct constants b and c. */
  predicate Clashes(e1: Expr, e2: Expr) {
    !Equal(e1, e2) && EqualAndUnequal(e1, e2) && e1.a == e2.a && TypeOf(e1.a).Trivalent? && e1.b != e2.b &&
    (SharesValue(e1.a, NO, e1.b, e2.b) || SharesValue(e1.a, MOD, e1.b, e2.b) || SharesValue(e1.a, YES, e1.b, e2.b))
  }

  ghost predicate JoinExactAt(c: Conn, e1: Expr, e2: Expr, v: Valuation)
    requires Join(c, e1, e2).Some?
  {
    Eval(Join(c, e1, e2).value, v) == Apply(c, Eval(e1, v), Eval(e2, v))
  }

  lemma CompareWithConstant(s: Symbol, c: Symbol, v: Valuation)
    requires IsLogic(s) && IsLogic(c)
    ensures Eval(Comp(EQ, s, c), v) == Truth(v(s).tri == v(c).tri)
    ensures Eval(Comp(NE, s, c), v) == Truth(v(s).tri != v(c).tri)
  {
    CompareLogic(s, v(s), c, v(c));
  }

  lemma ConstantsHold(v: Valuation)
    requires Admissible(v)
    ensures v(Yes).tri == YES && v(Mod).tri == MOD && v(No).tri == NO
  {
    assert AdmissibleValue(Yes, v(Yes)) && AdmissibleValue(Mod, v(Mod)) && AdmissibleValue(No, v(No));
  }

  lemma {:induction false} JoinOrExact(e1: Expr, e2: Expr, v: Valuation)
    requires Admissible(v) && JoinOr(e1, e2).Some?
    ensures JoinExactAt(Or, e1, e2, v)
  {
    if Equal(e1, e2) {
      EqualSound(e1, e2, v);
    } else {
      JoinOrTable(e1, e2, Subject(e1, e2).value, v);
    }
  }

  lemma {:induction false} JoinOrTable(e1: Expr, e2: Expr, s: Symbol, v: Valuation)
    requires Admissible(v) && Subject(e1, e2) == Some(s) && !Equal(e1, e2) && JoinOr(e1, e2).Some?
    ensures JoinExactAt(Or, e1, e2, v)
  {
    if TypeOf(s).Boolean? {
      assert OrTable(e1, e2) == Some(Sym(Yes));
      BooleanOrNot(s, v);
      MaxCommutes(Eval(e1, v), Eval(e2, v));
    } else {
      JoinTwoEqual(e1, e2, s, v);
    }
  }

  lemma {:induction false} JoinTwoEqual(e1: Expr, e2: Expr, s: Symbol, v: Valuation)
    requires Admissible(v) && Subject(e1, e2) == Some(s) && TypeOf(s).Trivalent? && !Equal(e1, e2) && OrTable(e1, e2).Some?
    ensures JoinExactAt(Or, e1, e2, v)
  {
    var r := OrTable(e1, e2).value;
    assert e1 == Comp(EQ, s, e1.b) && e2 == Comp(EQ, s, e2.b);
    assert (Compared(e1, e2, EQ, Yes, Mod) && r == Comp(NE, s, No)) || (Compared(e1, e2, EQ, Yes, No) && r == Comp(NE, s, Mod)) ||
      (Compared(e1, e2, EQ, Mod, No) && r == Comp(NE, s, Yes));
    TwoEqualComparisons(s, v);
    MaxCommutes(Eval(e1, v), Eval(e2, v));
  }

  lemma MaxCommutes(a: Tristate, b: Tristate)
    ensures Max(a, b) == Max(b, a)
  {
  }

  lemma BooleanOrNot(s: Symbol, v: Valuation)
    requires Admissible(v) && TypeOf(s).Boolean?
    ensures Max(Eval(Not(Sym(s)), v), Eval(Sym(s), v)) == Eval(Sym(Yes), v)
  {
    ConstantsHold(v);
    assert AdmissibleValue(s, v(s));
  }

  lemma {:induction false} TwoEqualComparisons(s: Symbol, v: Valuation)
    requires Admissible(v) && IsLogic(s)
    ensures Max(Eval(Comp(EQ, s, Yes), v), Eval(Comp(EQ, s, Mod), v)) == Eval(Comp(NE, s, No), v)
    ensures Max(Eval(Comp(EQ, s, Yes), v), Eval(Comp(EQ, s, No), v)) == Eval(Comp(NE, s, Mod), v)
    ensures Max(Eval(Comp(EQ, s, Mod), v), Eval(Comp(EQ, s, No), v)) == Eval(Comp(NE, s, Yes), v)
  {
    ConstantsHold(v);
    CompareWithConstant(s, Yes, v);
    CompareWithConstant(s, Mod, v);
    CompareWithConstant(s, No, v);
  }

  lemma JoinAndExact(e1: Expr, e2: Expr, v: Valuation)
    requires Admissible(v) && JoinAnd(e1, e2).Some? && !Clashes(e1, e2)
    ensures JoinExactAt(And, e1, e2, v)
  {
    if Equal(e1, e2) {
      EqualSound(e1, e2, v);
    } else {
      var s := Subject(e1, e2).value;
      if e1.Sym? || e2.Sym? {
        JoinSymbolAndComp(e1, e2, s, v);
      } else if EqualAndUnequal(e1, e2) {
        JoinEqualUnequal(e1, e2, v);
      } else {
        JoinTwoUnequal(e1, e2, s, v);
      }
    }
  }

  lemma {:induction false} JoinSymbolAndComp(e1: Expr, e2: Expr, s: Symbol, v: Valuation)
    requires Admissible(v) && Subject(e1, e2) == Some(s) && (e1.Sym? || e2.Sym?)
    requires !Equal(e1, e2) && JoinAnd(e1, e2).Some?
    ensures JoinExactAt(And, e1, e2, v)
  {
    var x := if e1.Sym? then e2 else e1;
    var r := JoinAnd(e1, e2).value;
    assert (x == Comp(EQ, s, Yes) && r == x) || (x == Comp(NE, s, No) && r == Sym(s)) || (x == Comp(NE, s, Mod) && r == Comp(EQ, s, Yes));
    SymbolBesideComparison(s, v);
    MinCommutes(Eval(e1, v), Eval(e2, v));
  }

  lemma MinCommutes(a: Tristate, b: Tristate)
    ensures Min(a, b) == Min(b, a)
  {
  }

  lemma {:induction false} SymbolBesideComparison(s: Symbol, v: Valuation)
    requires Admissible(v) && IsLogic(s)
    ensures Min(v(s).tri, Eval(Comp(EQ, s, Yes), v)) == Eval(Comp(EQ, s, Yes), v)
    ensures Min(v(s).tri, Eval(Comp(NE, s, No), v)) == v(s).tri
    ensures Min(v(s).tri, Eval(Comp(NE, s, Mod), v)) == Eval(Comp(EQ, s, Yes), v)
  {
    ConstantsHold(v);
    CompareWithConstant(s, Yes, v);
    CompareWithConstant(s, Mod, v);
    CompareWithConstant(s, No, v);
  }

  lemma {:induction false} JoinTwoUnequal(e1: Expr, e2: Expr, s: Symbol, v: Valuation)
    requires Admissible(v) && Subject(e1, e2) == Some(s) && !e1.Sym? && !e2.Sym?
    requires !Equal(e1, e2) && !EqualAndUnequal(e1, e2) && JoinAnd(e1, e2).Some?
    ensures JoinExactAt(And, e1, e2, v)
  {
    assert e1 == Comp(NE, s, e1.b) && e2 == Comp(NE, s, e2.b);
    var r := JoinAnd(e1, e2).value;
    assert (Compared(e1, e2, NE, Yes, No) && r == Comp(EQ, s, Mod)) || (Compared(e1, e2, NE, Yes, Mod) && r == Comp(EQ, s, No)) ||
      (Compared(e1, e2, NE, Mod, No) && r == Comp(EQ, s, Yes));
    TwoUnequalComparisons(s, v);
    MinCommutes(Eval(e1, v), Eval(e2, v));
  }

  lemma {:induction false} TwoUnequalComparisons(s: Symbol, v: Valuation)
    requires Admissible(v) && IsLogic(s)
    ensures Min(Eval(Comp(NE, s, Yes), v), Eval(Comp(NE, s, No), v)) == Eval(Comp(EQ, s, Mod), v)
    ensures Min(Eval(Comp(NE, s, Yes), v), Eval(Comp(NE, s, Mod), v)) == Eval(Comp(EQ, s, No), v)
    ensures Min(Eval(Comp(NE, s, Mod), v), Eval(Comp(NE, s, No), v)) == Eval(Comp(EQ, s, Yes), v)
  {
    ConstantsHold(v);
    CompareWithConstant(s, Yes, v);
    CompareWithConstant(s, Mod, v);
    CompareWithConstant(s, No, v);
  }

  lemma JoinEqualUnequal(e1: Expr, e2: Expr, v: Valuation)
    requires Admissible(v) && EqualAndUnequal(e1, e2) && !Equal(e1, e2)
    requires e1.a == e2.a && TypeOf(e1.a).Trivalent?
    ensures Eval(e1, v) == NO || Eval(e2, v) == NO ||
            Apply(And, Eval(e1, v), Eval(e2, v)) == YES == Eval(Comp(EQ, e1.a, if e1.op.EQ? then e1.b else e2.b), v)
    ensures Eval(e1, v) == NO || Eval(e2, v) == NO <==>
            !Denotes(v(e1.a).tri, if e1.op.EQ? then e1.b else e2.b) || Denotes(v(e1.a).tri, if e1.op.EQ? then e2.b else e1.b)
    ensures Eval(Comp(EQ, e1.a, if e1.op.EQ? then e1.b else e2.b), v) ==
            Truth(Denotes(v(e1.a).tri, if e1.op.EQ? then e1.b else e2.b))
    ensures CanHold(e1.a, v(e1.a).tri)
  {
    var a := e1.a;
    assert AdmissibleValue(a, v(a)) && AdmissibleValue(e1.b, v(e1.b)) && AdmissibleValue(e2.b, v(e2.b));
    DenotesIsEquality(a, v(a), e1.b, v(e1.b));
    DenotesIsEquality(a, v(a), e2.b, v(e2.b));
  }

  /** The least surprising admissible valuation in which `a` holds `t`. */
  function Witness(a: Symbol, t: Tristate): Valuation {
    (s: Symbol) =>
      if s == a then SymVal(t, TriName(t)) else
      match s
      case Yes => SymVal(YES, "y")
      case Mod => SymVal(MOD, "m")
      case No => SymVal(NO, "n")
      case Quoted(text) => SymVal(NO, text)
      case Config(name, _) => SymVal(NO, name)
      case Choice(_) => SymVal(NO, "")
  }

  lemma ClashIsInexact(e1: Expr, e2: Expr) returns (v: Valuation)
    requires Clashes(e1, e2)
    ensures Admissible(v) && JoinAnd(e1, e2).Some? && !JoinExactAt(And, e1, e2, v)
  {
    var t := if SharesValue(e1.a, NO, e1.b, e2.b) then NO else if SharesValue(e1.a, MOD, e1.b, e2.b) then MOD else YES;
    v := Witness(e1.a, t);
    assert SharesValue(e1.a, t, e1.b, e2.b);
    assert Subject(e1, e2) == Some(e1.a);
    JoinEqualUnequal(e1, e2, v);
  }

  /** A join keeps the value under every admissible valuation, except exactly when it
      drops `a != c` beside `a = b` for distinct constants that one value of a equals. */
  lemma JoinExactIff(c: Conn, e1: Expr, e2: Expr)
    requires Join(c, e1, e2).Some?
    ensures (forall v: Valuation | Admissible(v) :: JoinExactAt(c, e1, e2, v)) <==> !(c.And? && Clashes(e1, e2))
  {
    if c.And? && Clashes(e1, e2) {
      var v := ClashIsInexact(e1, e2);
    } else {
      forall v: Valuation | Admissible(v)
        ensures JoinExactAt(c, e1, e2, v)
      {
        if c.And? { JoinAndExact(e1, e2, v); } else { JoinOrExact(e1, e2, v); }
      }
    }
  }

  /** The failing family has members: (A="0") && (A!=n) becomes A="0", which is y where
      the original is n. */
  lemma ZeroClashesWithN()
    ensures var a := Config("A", Trivalent); Clashes(Comp(EQ, a, Quoted("0")), Comp(NE, a, No))
  {
    assert DigitsValue("0", 8) == 0 by {
      assert "0"[..0] == "";
    }
    assert WholeNumber("0", 0) == (true, false, 0);
    assert SharesValue(Config("A", Trivalent), NO, Quoted("0"), No);
  }

  // ----- the pairwise walk over the operands of two trees -----

  /** Tries to join one operand with every `c`-operand of a tree, from left to right;
      the last component counts the joins. */
  function JoinOne(c: Conn, x: Expr, e: Expr): (r: (Expr, Expr, nat))
    requires !IsConn(c, x)
    ensures Size(r.0) <= Size(x) && Size(r.0) + Size(r.1) <= Size(x) + Size(e)
    ensures Weight(r.0) + Weight(r.1) <= Weight(x) + Weight(e)
    ensures !IsConn(c, r.0)
    ensures r.2 == 0 ==> r.0 == x && r.1 == e
    decreases e
  {
    if IsConn(c, e) then
      var (x', l, m) := JoinOne(c, x, e.l);
      var (x'', r, n) := JoinOne(c, x', e.r);
      (x'', Bin(c, l, r), m + n)
    else
      SizePositive(x);
      match Join(c, x, e)
      case None => (x, e, 0)
      case Some(t) => JoinShrinks(c, x, e); (Identity(c), t, 1)
  }

  /** Tries to join every `c`-operand of the first tree with every one of the second. */
  function JoinOperands(c: Conn, e1: Expr, e2: Expr): (r: (Expr, Expr, nat))
    ensures Size(r.0) <= Size(e1) && Size(r.0) + Size(r.1) <= Size(e1) + Size(e2)
    ensures Weight(r.0) + Weight(r.1) <= Weight(e1) + Weight(e2)
    ensures r.2 == 0 ==> r.0 == e1 && r.1 == e2
    decreases e1
  {
    if IsConn(c, e1) then
      var (l, e2', m) := JoinOperands(c, e1.l, e2);
      var (r, e2'', n) := JoinOperands(c, e1.r, e2');
      (Bin(c, l, r), e2'', m + n)
    else JoinOne(c, e1, e2)
  }

  lemma JoinShrinks(c: Conn, e1: Expr, e2: Expr)
    requires Join(c, e1, e2).Some?
    ensures var t := Join(c, e1, e2).value;
      Size(t) + 1 <= Size(e1) + Size(e2) && Weight(t) <= Weight(e1) + Weight(e2) &&
      (Weight(e1) > 0 && Weight(e2) > 0 ==> Weight(t) < Weight(e1) + Weight(e2)) &&
      (Weight(e1) > 0 && IsYN(e2) && Weight(t) == Weight(e1) + Weight(e2) ==> !t.Bin? && Weight(t) > 0)
  {
    SizePositive(e1);
    SizePositive(e2);
    if Weight(e1) > 0 && IsYN(e2) && Equal(e1, e2) {
      EqualOnLiterals(e1, e2);
      assert false;
    }
  }

  // ----- termination of the fixpoint loop -----

  /** Every operand under `c` has weight, so joining two of them loses some. */
  predicate Weighty(c: Conn, e: Expr) {
    if IsConn(c, e) then Weighty(c, e.l) && Weighty(c, e.r) else Weight(e) > 0
  }

  lemma {:induction false} NormalIsWeighty(c: Conn, e: Expr)
    requires NoConstOperand(e) && !IsYN(e)
    ensures Weighty(c, e) && Weight(e) > 0
  {
    if e.Bin? {
      NormalIsWeighty(c, e.l);
      NormalIsWeighty(c, e.r);
    }
  }

  lemma {:induction false} JoiningOneLosesWeight(c: Conn, x: Expr, e: Expr)
    requires !IsConn(c, x) && Weight(x) > 0 && Weighty(c, e)
    ensures var (a, b, n) := JoinOne(c, x, e);
      n > 0 ==> Weight(a) + Weight(b) < Weight(x) + Weight(e)
    decreases e
  {
    if IsConn(c, e) {
      var (x', l, m) := JoinOne(c, x, e.l);
      JoiningOneLosesWeight(c, x, e.l);
      if m == 0 { JoiningOneLosesWeight(c, x', e.r); }
    } else if Join(c, x, e).Some? {
      JoinShrinks(c, x, e);
    }
  }

  lemma {:induction false} JoiningLosesWeight(c: Conn, e1: Expr, e2: Expr)
    requires Weighty(c, e1) && Weighty(c, e2)
    ensures var (a, b, n) := JoinOperands(c, e1, e2);
      n > 0 ==> Weight(a) + Weight(b) < Weight(e1) + Weight(e2)
    decreases e1
  {
    if IsConn(c, e1) {
      var (l, e2', m) := JoinOperands(c, e1.l, e2);
      JoiningLosesWeight(c, e1.l, e2);
      if m == 0 { JoiningLosesWeight(c, e1.r, e2'); }
    } else {
      JoiningOneLosesWeight(c, e1, e2);
    }
  }

  /** Against a lone constant on the right a join may keep all weight, but then the
      right side is no longer a constant. */
  lemma {:induction false} JoiningWithConstant(c: Conn, e1: Expr, k: Expr)
    requires Weighty(c, e1) && IsYN(k)
    ensures var (a, b, n) := JoinOperands(c, e1, k);
      n > 0 ==> Weight(a) + Weight(b) < Weight(e1) || (Weighty(c, b) && !IsYN(b))
    decreases e1
  {
    if IsConn(c, e1) {
      var (l, k', m) := JoinOperands(c, e1.l, k);
      JoiningWithConstant(c, e1.l, k);
      if m == 0 {
        JoiningWithConstant(c, e1.r, k);
      } else if Weighty(c, k') {
        JoiningLosesWeight(c, e1.r, k');
      }
    } else {
      JoiningLeafWithConstant(c, e1, k);
    }
  }

  lemma JoiningLeafWithConstant(c: Conn, e: Expr, k: Expr)
    requires !IsConn(c, e) && Weight(e) > 0 && IsYN(k)
    ensures var (a, b, n) := JoinOperands(c, e, k);
      n > 0 ==> Weight(a) + Weight(b) < Weight(e) || (Weighty(c, b) && !IsYN(b))
  {
    if Join(c, e, k).Some? { JoinShrinks(c, e, k); }
  }

  lemma {:induction false} ConstantStaysConstant(c: Conn, k: Expr, e: Expr)
    requires IsYN(k)
    ensures IsYN(JoinOne(c, k, e).0)
    decreases e
  {
    if IsConn(c, e) {
      ConstantStaysConstant(c, k, e.l);
      ConstantStaysConstant(c, JoinOne(c, k, e.l).0, e.r);
    }
  }

  function RightConst(e: Expr): nat { if e.Bin? && IsYN(e.r) then 1 else 0 }

  predicate Smaller(e1: Expr, e2: Expr) {
    Weight(e1) < Weight(e2) ||
    (Weight(e1) == Weight(e2) && Size(e1) < Size(e2)) ||
    (Weight(e1) == Weight(e2) && Size(e1) == Size(e2) && RightConst(e1) < RightConst(e2))
  }

  predicate Reduces(e: Expr, r: Expr) {
    Weight(r) <= Weight(e) && Size(r) <= Size(e) && NoConstOperand(r) && (!e.Bin? ==> r == e)
  }

  /** One round of the loop, on operands already reduced: the tree it leaves, and
      the number of joins it made. */
  function Round(c: Conn, l: Expr, r: Expr): (Expr, nat) {
    var (a, b, n) := JoinOperands(c, l, r);
    (EliminateYN(Bin(c, a, b)), n)
  }

  lemma {:induction false} RoundMeasures(c: Conn, l: Expr, r: Expr)
    requires NoConstOperand(l) && NoConstOperand(r)
    ensures var (e, n) := Round(c, l, r);
      Weight(e) <= Weight(Bin(c, l, r)) && Size(e) <= Size(Bin(c, l, r)) && (n == 0 ==> NoConstOperand(e))
  {
    var (a, b, n) := JoinOperands(c, l, r);
    EliminateYNShrinks(Bin(c, a, b));
    if n == 0 {
      EliminateYNKeepsNormal(l);
      EliminateYNKeepsNormal(r);
    }
  }

  /** A round that joins loses weight, or size, or the constant on its right. */
  lemma {:induction false} JoiningRoundShrinks(c: Conn, l: Expr, r: Expr)
    requires NoConstOperand(l) && NoConstOperand(r) && Round(c, l, r).1 > 0
    ensures Smaller(Round(c, l, r).0, Bin(c, l, r))
  {
    var (a, b, n) := JoinOperands(c, l, r);
    var t := Bin(c, a, b);
    EliminateYNShrinks(t);
    RoundMeasures(c, l, r);
    if IsYN(l) {
      ConstantStaysConstant(c, l, r);
      ConstantOperandGoes(c, a, b);
    } else {
      NormalIsWeighty(c, l);
      if IsYN(r) {
        JoiningWithConstant(c, l, r);
      } else {
        NormalIsWeighty(c, r);
        JoiningLosesWeight(c, l, r);
      }
    }
  }

  lemma ConstantOperandGoes(c: Conn, k: Expr, e: Expr)
    requires IsYN(k)
    ensures Size(EliminateYN(Bin(c, k, e))) < Size(Bin(c, k, e))
  {
    EliminateYNShrinks(e);
  }

  lemma {:induction false} RoundShrinks(c: Conn, l0: Expr, r0: Expr, l: Expr, r: Expr)
    requires Reduces(l0, l) && Reduces(r0, r)
    ensures var (e, n) := Round(c, l, r);
      Weight(e) <= Weight(Bin(c, l0, r0)) && Size(e) <= Size(Bin(c, l0, r0)) &&
      if n > 0 then Smaller(e, Bin(c, l0, r0)) else NoConstOperand(e)
  {
    RoundMeasures(c, l, r);
    if Round(c, l, r).1 > 0 {
      JoiningRoundShrinks(c, l, r);
      if IsYN(r) && r0.Bin? {
        SizePositive(r0.l);
      }
    }
  }

  /** Repeats rounds until one makes no join. */
  function EliminateDups(e: Expr): (r: Expr)
    ensures Reduces(e, r)
    decreases Weight(e), Size(e), RightConst(e)
  {
    if !e.Bin? then e
    else
      var l, r := EliminateDups(e.l), EliminateDups(e.r);
      var (e', n) := Round(e.c, l, r);
      RoundShrinks(e.c, e.l, e.r, l, r);
      if n == 0 then e' else EliminateDups(e')
  }

  function EliminateDupsOpt(e: Option<Expr>): Option<Expr> {
    if e.None? then None else Some(EliminateDups(e.value))
  }

  // ----- the value is kept -----

  /** What a tristate symbol is compared with by = or !=: a quoted constant stands for
      itself, and `No` for any of y, m and n. A symbol standing alone counts as compared
      with n if `alone` is asked for. */
  function Tests(e: Expr, alone: bool): set<(Symbol, Symbol)> {
    match e
    case Sym(s) => if alone then Test(s, No) else {}
    case Not(x) => Tests(x, alone)
    case Bin(_, l, r) => Tests(l, alone) + Tests(r, alone)
    case Comp(op, a, b) => if op.EQ? || op.NE? then Test(a, b) else {}
  }

  function Test(a: Symbol, b: Symbol): set<(Symbol, Symbol)> {
    if !TypeOf(a).Trivalent? then {}
    else if b.Quoted? then {(a, b)}
    else if b.Config? || b.Choice? || IsConst(a) then {}
    else {(a, No)}
  }

  /** No tristate value equals the constant and one of y, m and n. */
  predicate ClearOfStatic(c: Symbol)
    requires IsConst(c)
  {
    Separate(c, Yes) && Separate(c, Mod) && Separate(c, No)
  }

  /** For each symbol on its own: no tristate value equals two of the constants it is
      compared with. A constant on the left counts as compared with y, m and n. What
      strings and numbers are compared with is no matter, and neither is a constant that
      is all a symbol is compared with: (V="0") && (A="0") && A && B is inside for a
      string V and a tristate A. */
  ghost predicate TestsApart(ts: set<(Symbol, Symbol)>) {
    (forall t :: t in ts && t.1.Quoted? && (IsConst(t.0) || (t.0, No) in ts) ==> ClearOfStatic(t.1)) &&
    (forall t, u :: t in ts && u in ts && t.0 == u.0 && t.1 != u.1 && t.1.Quoted? && u.1.Quoted? ==> Separate(t.1, u.1))
  }

  ghost predicate ClashFree(e: Expr) { TestsApart(Tests(e, false)) }

  ghost predicate ClashFreeOpt(e: Option<Expr>) { e.Some? ==> ClashFree(e.value) }

  lemma {:induction false} AloneAddsTests(e: Expr)
    ensures Tests(e, false) <= Tests(e, true)
  {
    match e
    case Not(x) => AloneAddsTests(x);
    case Bin(_, l, r) => AloneAddsTests(l); AloneAddsTests(r);
    case _ =>
  }

  lemma {:induction false} EliminateYNTests(e: Expr, alone: bool)
    ensures Tests(EliminateYN(e), alone) <= Tests(e, alone)
  {
    match e
    case Bin(c, l, r) => EliminateYNTests(l, alone); EliminateYNTests(r, alone);
    case _ =>
  }

  lemma {:induction false} JoinTests(c: Conn, e1: Expr, e2: Expr, alone: bool)
    requires Join(c, e1, e2).Some?
    ensures Tests(Join(c, e1, e2).value, alone) <= Tests(e1, alone) + Tests(e2, alone)
  {
    if !Equal(e1, e2) {
      if c.And? { AndTableTests(e1, e2, alone); } else { OrTableTests(e1, e2, alone); }
    }
  }

  lemma OrTableTests(e1: Expr, e2: Expr, alone: bool)
    requires OrTable(e1, e2).Some?
    ensures Tests(OrTable(e1, e2).value, alone) <= Tests(e1, alone) + Tests(e2, alone)
  {
  }

  lemma AndTableTests(e1: Expr, e2: Expr, alone: bool)
    requires AndTable(e1, e2).Some?
    ensures Tests(AndTable(e1, e2).value, alone) <= Tests(e1, alone) + Tests(e2, alone)
  {
  }

  lemma {:induction false} JoinOneTests(c: Conn, x: Expr, e: Expr, ts: set<(Symbol, Symbol)>, alone: bool)
    requires !IsConn(c, x) && Tests(x, alone) <= ts && Tests(e, alone) <= ts
    ensures var (a, b, _) := JoinOne(c, x, e); Tests(a, alone) <= ts && Tests(b, alone) <= ts
    decreases e
  {
    if IsConn(c, e) {
      JoinOneTests(c, x, e.l, ts, alone);
      JoinOneTests(c, JoinOne(c, x, e.l).0, e.r, ts, alone);
    } else if Join(c, x, e).Some? {
      JoinTests(c, x, e, alone);
    }
  }

  lemma {:induction false} JoinOperandsTests(c: Conn, e1: Expr, e2: Expr, ts: set<(Symbol, Symbol)>, alone: bool)
    requires Tests(e1, alone) <= ts && Tests(e2, alone) <= ts
    ensures var (a, b, _) := JoinOperands(c, e1, e2); Tests(a, alone) <= ts && Tests(b, alone) <= ts
    decreases e1
  {
    if IsConn(c, e1) {
      JoinOperandsTests(c, e1.l, e2, ts, alone);
      JoinOperandsTests(c, e1.r, JoinOperands(c, e1.l, e2).1, ts, alone);
    } else {
      JoinOneTests(c, e1, e2, ts, alone);
    }
  }

  lemma ApplyExchange(c: Conn, l: Tristate, r: Tristate, x: Tristate, l': Tristate, r': Tristate, x': Tristate, x'': Tristate)
    requires Apply(c, l', x') == Apply(c, l, x) && Apply(c, r', x'') == Apply(c, r, x')
    ensures Apply(c, Apply(c, l', r'), x'') == Apply(c, Apply(c, l, r), x)
  {}

  lemma ApplyCommutes(c: Conn, x: Tristate, y: Tristate)
    ensures Apply(c, x, y) == Apply(c, y, x)
  {}

  /** The two results together have the value of the two arguments together. */
  ghost predicate KeepsJointValue(c: Conn, e1: Expr, e2: Expr, r: (Expr, Expr, nat), v: Valuation) {
    Apply(c, Eval(r.0, v), Eval(r.1, v)) == Apply(c, Eval(e1, v), Eval(e2, v))
  }

  lemma {:induction false} JoinOnePreservesValue(c: Conn, x: Expr, e: Expr, v: Valuation, ts: set<(Symbol, Symbol)>)
    requires Admissible(v) && TestsApart(ts)
    requires !IsConn(c, x) && Tests(x, false) <= ts && Tests(e, false) <= ts
    ensures KeepsJointValue(c, x, e, JoinOne(c, x, e), v)
    decreases e
  {
    if IsConn(c, e) {
      var (x', l, _) := JoinOne(c, x, e.l);
      var (x'', r, _) := JoinOne(c, x', e.r);
      JoinOneTests(c, x, e.l, ts, false);
      JoinOnePreservesValue(c, x, e.l, v, ts);
      JoinOnePreservesValue(c, x', e.r, v, ts);
      ApplyCommutes(c, Eval(x, v), Eval(e.l, v));
      ApplyCommutes(c, Eval(x', v), Eval(l, v));
      ApplyCommutes(c, Eval(x', v), Eval(e.r, v));
      ApplyCommutes(c, Eval(x'', v), Eval(r, v));
      ApplyExchange(c, Eval(e.l, v), Eval(e.r, v), Eval(x, v), Eval(l, v), Eval(r, v), Eval(x', v), Eval(x'', v));
      ApplyCommutes(c, Eval(x, v), Eval(e, v));
      ApplyCommutes(c, Eval(x'', v), Apply(c, Eval(l, v), Eval(r, v)));
    } else if Join(c, x, e).Some? {
      JoinLeafPreservesValue(c, x, e, v, ts);
    }
  }

  lemma {:induction false} JoinOperandsPreservesValue(c: Conn, e1: Expr, e2: Expr, v: Valuation, ts: set<(Symbol, Symbol)>)
    requires Admissible(v) && TestsApart(ts)
    requires Tests(e1, false) <= ts && Tests(e2, false) <= ts
    ensures KeepsJointValue(c, e1, e2, JoinOperands(c, e1, e2), v)
    decreases e1
  {
    if IsConn(c, e1) {
      var (l, e2', _) := JoinOperands(c, e1.l, e2);
      var (r, e2'', _) := JoinOperands(c, e1.r, e2');
      JoinOperandsTests(c, e1.l, e2, ts, false);
      JoinOperandsPreservesValue(c, e1.l, e2, v, ts);
      JoinOperandsPreservesValue(c, e1.r, e2', v, ts);
      ApplyExchange(c, Eval(e1.l, v), Eval(e1.r, v), Eval(e2, v), Eval(l, v), Eval(r, v), Eval(e2', v), Eval(e2'', v));
    } else {
      JoinOnePreservesValue(c, e1, e2, v, ts);
    }
  }

  lemma NeverClashes(e1: Expr, e2: Expr, ts: set<(Symbol, Symbol)>)
    requires TestsApart(ts) && Tests(e1, false) <= ts && Tests(e2, false) <= ts
    ensures !Clashes(e1, e2)
  {
    if EqualAndUnequal(e1, e2) && e1.a == e2.a && TypeOf(e1.a).Trivalent? && e1.b != e2.b {
      var a, b, c := e1.a, e1.b, e2.b;
      assert Test(a, b) <= ts && Test(a, c) <= ts;
      assert b.Quoted? ==> (a, b) in ts;
      assert c.Quoted? ==> (a, c) in ts;
      assert !b.Quoted? && !IsConst(a) ==> (a, No) in ts;
      assert !c.Quoted? && !IsConst(a) ==> (a, No) in ts;
      assert Separate(b, c);
    }
  }

  lemma {:induction false} JoinLeafPreservesValue(c: Conn, e1: Expr, e2: Expr, v: Valuation, ts: set<(Symbol, Symbol)>)
    requires Admissible(v) && TestsApart(ts)
    requires Tests(e1, false) <= ts && Tests(e2, false) <= ts && Join(c, e1, e2).Some?
    ensures Apply(c, Eval(Identity(c), v), Eval(Join(c, e1, e2).value, v)) == Apply(c, Eval(e1, v), Eval(e2, v))
  {
    ConstantsHold(v);
    if c.And? {
      NeverClashes(e1, e2, ts);
      JoinAndExact(e1, e2, v);
    } else {
      JoinOrExact(e1, e2, v);
    }
  }

  lemma {:induction false} EliminateDupsTests(e: Expr, alone: bool)
    ensures Tests(EliminateDups(e), alone) <= Tests(e, alone)
    decreases Weight(e), Size(e), RightConst(e)
  {
    if e.Bin? {
      var l, r := EliminateDups(e.l), EliminateDups(e.r);
      EliminateDupsTests(e.l, alone);
      EliminateDupsTests(e.r, alone);
      JoinOperandsTests(e.c, l, r, Tests(e, alone), alone);
      var (a, b, n) := JoinOperands(e.c, l, r);
      EliminateYNTests(Bin(e.c, a, b), alone);
      RoundShrinks(e.c, e.l, e.r, l, r);
      if n > 0 { EliminateDupsTests(EliminateYN(Bin(e.c, a, b)), alone); }
    }
  }

  lemma {:induction false} EliminateDupsPreservesValueIn(e: Expr, v: Valuation, ts: set<(Symbol, Symbol)>)
    requires Admissible(v) && TestsApart(ts) && Tests(e, false) <= ts
    ensures Eval(EliminateDups(e), v) == Eval(e, v)
    decreases Weight(e), Size(e), RightConst(e)
  {
    if e.Bin? {
      var l, r := EliminateDups(e.l), EliminateDups(e.r);
      EliminateDupsPreservesValueIn(e.l, v, ts);
      EliminateDupsPreservesValueIn(e.r, v, ts);
      EliminateDupsTests(e.l, false);
      EliminateDupsTests(e.r, false);
      JoinOperandsPreservesValue(e.c, l, r, v, ts);
      JoinOperandsTests(e.c, l, r, ts, false);
      var (a, b, n) := JoinOperands(e.c, l, r);
      EliminateYNPreservesValue(Bin(e.c, a, b), v);
      EliminateYNTests(Bin(e.c, a, b), false);
      RoundShrinks(e.c, e.l, e.r, l, r);
      if n > 0 { EliminateDupsPreservesValueIn(EliminateYN(Bin(e.c, a, b)), v, ts); }
    }
  }

  lemma {:induction false} EliminateDupsPreservesValue(e: Expr, v: Valuation)
    requires Admissible(v) && ClashFree(e)
    ensures Eval(EliminateDups(e), v) == Eval(e, v)
  {
    EliminateDupsPreservesValueIn(e, v, Tests(e, false));
  }

  // ----- the result is a fixpoint -----

  lemma {:induction false} EliminateDupsIsIdempotent(e: Expr)
    ensures EliminateDups(EliminateDups(e)) == EliminateDups(e)
    decreases Weight(e), Size(e), RightConst(e)
  {
    if e.Bin? {
      var l, r := EliminateDups(e.l), EliminateDups(e.r);
      EliminateDupsIsIdempotent(e.l);
      EliminateDupsIsIdempotent(e.r);
      RoundShrinks(e.c, e.l, e.r, l, r);
      var (e', n) := Round(e.c, l, r);
      if n > 0 {
        EliminateDupsIsIdempotent(e');
      } else {
        SettledStays(e.c, l, r);
      }
    }
  }

  /** After a round without joins a further one finds nothing either. */
  lemma {:induction false} SettledStays(c: Conn, l: Expr, r: Expr)
    requires EliminateDups(l) == l && EliminateDups(r) == r && Round(c, l, r).1 == 0
    ensures EliminateDups(Round(c, l, r).0) == Round(c, l, r).0
  {
    EliminateYNKeepsNormal(l);
    EliminateYNKeepsNormal(r);
    var e' := Round(c, l, r).0;
    assert e' == l || e' == r || e' == Bin(c, l, r);
    if e' == Bin(c, l, r) {
      RoundShrinks(c, l, r, l, r);
    }
  }

  // ----- the condition on constants cannot be dropped -----

  /** For a tristate a and distinct constants, removing duplicates from
      (a=b) && (a!=c) keeps the value exactly when no value of a equals both. */
  lemma EliminateDupsOfEqualUnequal(a: Symbol, b: Symbol, c: Symbol)
    requires TypeOf(a).Trivalent? && IsConst(b) && IsConst(c) && b != c
    ensures var e := Bin(And, Comp(EQ, a, b), Comp(NE, a, c));
      (forall v: Valuation | Admissible(v) :: Eval(EliminateDups(e), v) == Eval(e, v)) <==>
      !(SharesValue(a, NO, b, c) || SharesValue(a, MOD, b, c) || SharesValue(a, YES, b, c))
  {
    var e1, e2 := Comp(EQ, a, b), Comp(NE, a, c);
    var e := Bin(And, e1, e2);
    assert Join(And, e1, e2) == Some(e1);
    var (x, y, n) := JoinOperands(And, e1, e2);
    assert x == Sym(Yes) && y == e1 && n == 1;
    assert EliminateYN(Bin(And, x, y)) == e1;
    RoundShrinks(And, e1, e2, e1, e2);
    assert EliminateDups(e) == e1;
    JoinExactIff(And, e1, e2);
    forall v: Valuation | Admissible(v)
      ensures JoinExactAt(And, e1, e2, v) <==> Eval(EliminateDups(e), v) == Eval(e, v)
    {}
  }
}
