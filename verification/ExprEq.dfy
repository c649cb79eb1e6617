/** Equality of expressions up to the order of operands, and the removal of
    operands that two expressions share. */
module ExprEq {
  import opened Symbols
  import opened Exprs

  predicate IsConn(c: Conn, e: Expr) { e.Bin? && e.c == c }

  /** Pairs every `c`-operand of the first tree with every `c`-operand of the second;
      equal operands are both replaced by the identity of `c`. */
  function CancelCommon(c: Conn, e1: Expr, e2: Expr): (r: (Expr, Expr))
    ensures Size(r.0) <= Size(e1) && Size(r.1) <= Size(e2)
    ensures IsConn(c, e1) ==> IsConn(c, r.0)
    ensures IsConn(c, e2) ==> IsConn(c, r.1)
    decreases Size(e1) + Size(e2), if IsConn(c, e1) || IsConn(c, e2) then 0 else 3
  {
    if IsConn(c, e1) then
      var (l, e2') := CancelCommon(c, e1.l, e2);
      var (r, e2'') := CancelCommon(c, e1.r, e2');
      (Bin(c, l, r), e2'')
    else if IsConn(c, e2) then
      var (e1', l) := CancelCommon(c, e1, e2.l);
      var (e1'', r) := CancelCommon(c, e1', e2.r);
      (e1'', Bin(c, l, r))
    else if e1 == e2 && IsYN(e1) then (e1, e2)
    else if Equal(e1, e2) then (SizePositive(e1); SizePositive(e2); (Identity(c), Identity(c)))
    else (e1, e2)
  }

  /** expr_eliminate_eq: cancel under the first tree's connective, then under the
      second's when the two differ, then drop the constants this has left. */
  function EliminateEq(e1: Expr, e2: Expr): (Expr, Expr)
    decreases Size(e1) + Size(e2), 1
  {
    var (a, b) := if e1.Bin? then CancelCommon(e1.c, e1, e2) else (e1, e2);
    var (a, b) := if b.Bin? && !IsConn(b.c, a) then CancelCommon(b.c, a, b) else (a, b);
    (EliminateYN(a), EliminateYN(b))
  }

  predicate Equal(e1: Expr, e2: Expr)
    decreases Size(e1) + Size(e2), 2
  {
    match (e1, e2)
    case (Comp(op1, a1, b1), Comp(op2, a2, b2)) => op1 == op2 && a1 == a2 && b1 == b2
    case (Sym(s1), Sym(s2)) => s1 == s2
    case (Not(x1), Not(x2)) => Equal(x1, x2)
    case (Bin(c1, _, _), Bin(c2, _, _)) =>
      c1 == c2 &&
      var (a, b) := EliminateEq(e1, e2);
      a.Sym? && b.Sym? && a.s == b.s
    case _ => false
  }

  /** expr_eq on possibly missing expressions. */
  predicate EqualOpt(e1: Option<Expr>, e2: Option<Expr>) {
    if e1.None? || e2.None? then IsYes(e1) && IsYes(e2) else Equal(e1.value, e2.value)
  }

  predicate IsYes(e: Option<Expr>) { e.None? || e.value == Sym(Yes) }

  // One step of the walk on each side, for use without unfolding the rest.

  lemma CancelLeft(c: Conn, e1: Expr, e2: Expr)
    requires IsConn(c, e1)
    ensures var (l, e2') := CancelCommon(c, e1.l, e2);
      var (r, e2'') := CancelCommon(c, e1.r, e2');
      CancelCommon(c, e1, e2) == (Bin(c, l, r), e2'')
  {}

  lemma CancelRight(c: Conn, e1: Expr, e2: Expr)
    requires !IsConn(c, e1) && IsConn(c, e2)
    ensures var (e1', l) := CancelCommon(c, e1, e2.l);
      var (e1'', r) := CancelCommon(c, e1', e2.r);
      CancelCommon(c, e1, e2) == (e1'', Bin(c, l, r))
  {}

  lemma ApplyRegroup(c: Conn, k1: Tristate, k2: Tristate, x: Tristate, y: Tristate)
    ensures Apply(c, Apply(c, k1, x), Apply(c, k2, y)) == Apply(c, Apply(c, k1, k2), Apply(c, x, y))
    ensures Apply(c, k1, Apply(c, k2, x)) == Apply(c, Apply(c, k1, k2), x)
  {}

  // ----- soundness: what is cancelled has one value k on both sides -----

  /** The two results, once the value k of the cancelled operands is put back, have
      the values of the two trees. */
  ghost predicate Factors(c: Conn, k: Tristate, e1: Expr, e2: Expr, r: (Expr, Expr), v: Valuation) {
    Eval(e1, v) == Apply(c, k, Eval(r.0, v)) && Eval(e2, v) == Apply(c, k, Eval(r.1, v))
  }

  lemma {:induction false} CancelCommonSound(c: Conn, e1: Expr, e2: Expr, v: Valuation) returns (k: Tristate)
    requires Admissible(v)
    ensures Factors(c, k, e1, e2, CancelCommon(c, e1, e2), v)
    decreases Size(e1) + Size(e2), if IsConn(c, e1) || IsConn(c, e2) then 0 else 4
  {
    if IsConn(c, e1) {
      var (l, e2') := CancelCommon(c, e1.l, e2);
      var (r, e2'') := CancelCommon(c, e1.r, e2');
      var k1 := CancelCommonSound(c, e1.l, e2, v);
      var k2 := CancelCommonSound(c, e1.r, e2', v);
      k := Apply(c, k1, k2);
      CancelLeft(c, e1, e2);
      ApplyRegroup(c, k1, k2, Eval(l, v), Eval(r, v));
      ApplyRegroup(c, k1, k2, Eval(e2'', v), NO);
    } else if IsConn(c, e2) {
      var (e1', l) := CancelCommon(c, e1, e2.l);
      var (e1'', r) := CancelCommon(c, e1', e2.r);
      var k1 := CancelCommonSound(c, e1, e2.l, v);
      var k2 := CancelCommonSound(c, e1', e2.r, v);
      k := Apply(c, k1, k2);
      CancelRight(c, e1, e2);
      ApplyRegroup(c, k1, k2, Eval(l, v), Eval(r, v));
      ApplyRegroup(c, k1, k2, Eval(e1'', v), NO);
    } else {
      k := CancelLeafSound(c, e1, e2, v);
    }
  }

  lemma {:induction false} CancelLeafSound(c: Conn, e1: Expr, e2: Expr, v: Valuation) returns (k: Tristate)
    requires Admissible(v) && !IsConn(c, e1) && !IsConn(c, e2)
    ensures Factors(c, k, e1, e2, CancelCommon(c, e1, e2), v)
    decreases Size(e1) + Size(e2), 3
  {
    assert AdmissibleValue(Yes, v(Yes)) && AdmissibleValue(No, v(No));
    k := if c.And? then YES else NO;
    if !(e1 == e2 && IsYN(e1)) && Equal(e1, e2) {
      EqualSound(e1, e2, v);
      k := Eval(e1, v);
    }
  }

  ghost predicate ReflectsOrder(e1: Expr, e2: Expr, a: Expr, b: Expr, v: Valuation) {
    (Eval(a, v) <= Eval(b, v) ==> Eval(e1, v) <= Eval(e2, v)) &&
    (Eval(b, v) <= Eval(a, v) ==> Eval(e2, v) <= Eval(e1, v))
  }

  lemma FactorsReflectOrder(c: Conn, k: Tristate, e1: Expr, e2: Expr, a: Expr, b: Expr, v: Valuation)
    requires Factors(c, k, e1, e2, (a, b), v)
    ensures ReflectsOrder(e1, e2, a, b, v)
  {
  }

  /** Whatever order the remainders are in, the original trees are in. */
  lemma {:induction false} EliminateEqReflectsOrder(e1: Expr, e2: Expr, v: Valuation)
    requires Admissible(v)
    ensures var (a, b) := EliminateEq(e1, e2); ReflectsOrder(e1, e2, a, b, v)
    decreases Size(e1) + Size(e2), 1
  {
    var (a, b) := if e1.Bin? then CancelCommon(e1.c, e1, e2) else (e1, e2);
    if e1.Bin? {
      var k := CancelCommonSound(e1.c, e1, e2, v);
      FactorsReflectOrder(e1.c, k, e1, e2, a, b, v);
    }
    if b.Bin? && !IsConn(b.c, a) {
      var (a', b') := CancelCommon(b.c, a, b);
      var k := CancelCommonSound(b.c, a, b, v);
      FactorsReflectOrder(b.c, k, a, b, a', b', v);
      EliminateYNPreservesValue(a', v);
      EliminateYNPreservesValue(b', v);
    } else {
      EliminateYNPreservesValue(a, v);
      EliminateYNPreservesValue(b, v);
    }
  }

  lemma {:induction false} EqualSound(e1: Expr, e2: Expr, v: Valuation)
    requires Equal(e1, e2) && Admissible(v)
    ensures Eval(e1, v) == Eval(e2, v)
    decreases Size(e1) + Size(e2), 2
  {
    match (e1, e2)
    case (Not(x1), Not(x2)) => EqualSound(x1, x2, v);
    case (Bin(_, _, _), Bin(_, _, _)) => EliminateEqReflectsOrder(e1, e2, v);
    case _ =>
  }

  /** Missing expressions that count as equal have the same value too. */
  lemma EqualOptSound(e1: Option<Expr>, e2: Option<Expr>, v: Valuation)
    requires EqualOpt(e1, e2) && Admissible(v)
    ensures EvalOpt(e1, v) == EvalOpt(e2, v)
  {
    if e1.Some? && e2.Some? {
      EqualSound(e1.value, e2.value, v);
    } else {
      assert AdmissibleValue(Yes, v(Yes));
    }
  }

  // ----- completeness: cancelling is multiset difference of operands -----

  /** An operand without && and ||, on which equality is identity. */
  predicate IsLiteral(e: Expr) {
    match e
    case Not(x) => IsLiteral(x)
    case Bin(_, _, _) => false
    case _ => true
  }

  predicate IsFlat(c: Conn, e: Expr) {
    if IsConn(c, e) then IsFlat(c, e.l) && IsFlat(c, e.r) else IsLiteral(e) && e != Absorber(c)
  }

  /** The operands of a tree of one connective, the constants y and n left out. */
  function Operands(c: Conn, e: Expr): multiset<Expr> {
    if IsConn(c, e) then Operands(c, e.l) + Operands(c, e.r)
    else if IsYN(e) then multiset{}
    else multiset{e}
  }

  lemma {:induction false} EqualOnLiterals(e1: Expr, e2: Expr)
    requires IsLiteral(e1) && IsLiteral(e2)
    ensures Equal(e1, e2) <==> e1 == e2
  {
    match (e1, e2)
    case (Not(x1), Not(x2)) => EqualOnLiterals(x1, x2);
    case _ =>
  }

  lemma DifferenceOfSum<T>(a: multiset<T>, b: multiset<T>, x: multiset<T>)
    ensures (a - x) + (b - (x - a)) == a + b - x
    ensures (x - a) - b == x - (a + b)
  {}

  lemma {:induction false} CancelIsDifference(c: Conn, e1: Expr, e2: Expr)
    requires IsFlat(c, e1) && IsFlat(c, e2)
    ensures var (a, b) := CancelCommon(c, e1, e2);
      IsFlat(c, a) && IsFlat(c, b) &&
      Operands(c, a) == Operands(c, e1) - Operands(c, e2) &&
      Operands(c, b) == Operands(c, e2) - Operands(c, e1)
    decreases Size(e1) + Size(e2)
  {
    if IsConn(c, e1) {
      var (l, e2') := CancelCommon(c, e1.l, e2);
      CancelIsDifference(c, e1.l, e2);
      CancelIsDifference(c, e1.r, e2');
      CancelLeft(c, e1, e2);
      DifferenceOfSum(Operands(c, e1.l), Operands(c, e1.r), Operands(c, e2));
    } else if IsConn(c, e2) {
      var (e1', l) := CancelCommon(c, e1, e2.l);
      CancelIsDifference(c, e1, e2.l);
      CancelIsDifference(c, e1', e2.r);
      CancelRight(c, e1, e2);
      DifferenceOfSum(Operands(c, e2.l), Operands(c, e2.r), Operands(c, e1));
    } else {
      CancelLeafIsDifference(c, e1, e2);
    }
  }

  lemma {:induction false} CancelLiterals(c: Conn, e1: Expr, e2: Expr)
    requires IsLiteral(e1) && IsLiteral(e2)
    ensures CancelCommon(c, e1, e2) == if e1 == e2 && !IsYN(e1) then (Identity(c), Identity(c)) else (e1, e2)
  {
    EqualOnLiterals(e1, e2);
  }

  function Single(e: Expr): multiset<Expr> { if IsYN(e) then multiset{} else multiset{e} }

  lemma SingleDifference(x: Expr, y: Expr)
    ensures Single(x) - Single(y) == if x == y then multiset{} else Single(x)
  {
  }

  lemma OperandsOfLiteral(c: Conn, e: Expr)
    requires IsLiteral(e)
    ensures Operands(c, e) == Single(e) && (e != Absorber(c) ==> IsFlat(c, e))
  {
  }

  lemma CancelLeafIsDifference(c: Conn, e1: Expr, e2: Expr)
    requires IsLiteral(e1) && IsLiteral(e2) && e1 != Absorber(c) && e2 != Absorber(c)
    ensures var (a, b) := CancelCommon(c, e1, e2);
      IsFlat(c, a) && IsFlat(c, b) &&
      Operands(c, a) == Operands(c, e1) - Operands(c, e2) &&
      Operands(c, b) == Operands(c, e2) - Operands(c, e1)
  {
    CancelLiterals(c, e1, e2);
    OperandsOfLiteral(c, e1);
    OperandsOfLiteral(c, e2);
    OperandsOfLiteral(c, Identity(c));
    SingleDifference(e1, e2);
    SingleDifference(e2, e1);
  }

  lemma {:induction false} EliminateYNOfFlat(c: Conn, e: Expr)
    requires IsFlat(c, e)
    ensures EliminateYN(e) != Absorber(c)
    ensures EliminateYN(e) == Identity(c) <==> Operands(c, e) == multiset{}
    ensures EliminateYN(e).Sym? && EliminateYN(e) != Identity(c) ==> Operands(c, e) == multiset{EliminateYN(e)}
  {
    if IsConn(c, e) {
      EliminateYNOfFlat(c, e.l);
      EliminateYNOfFlat(c, e.r);
    } else {
      assert EliminateYN(e) == e;
    }
  }

  /** Two trees of one connective are equal exactly when they have the same operands
      the same number of times, in any order and bracketing; y operands of && and n
      operands of || do not count. */
  lemma {:induction false} EqualIsMultisetEquality(c: Conn, e1: Expr, e2: Expr)
    requires IsConn(c, e1) && IsConn(c, e2) && IsFlat(c, e1) && IsFlat(c, e2)
    ensures Equal(e1, e2) <==> Operands(c, e1) == Operands(c, e2)
  {
    var (a, b) := CancelCommon(c, e1, e2);
    CancelIsDifference(c, e1, e2);
    EliminateYNOfFlat(c, a);
    EliminateYNOfFlat(c, b);
    EliminateEqUnderOne(c, e1, e2);
    DisjointDifferences(Operands(c, e1), Operands(c, e2));
  }

  lemma EliminateEqUnderOne(c: Conn, e1: Expr, e2: Expr)
    requires IsConn(c, e1) && IsConn(c, e2)
    ensures var (a, b) := CancelCommon(c, e1, e2);
      EliminateEq(e1, e2) == (EliminateYN(a), EliminateYN(b)) &&
      (Equal(e1, e2) <==> EliminateYN(a).Sym? && EliminateYN(b) == EliminateYN(a))
  {}

  lemma DisjointDifferences<T>(a: multiset<T>, b: multiset<T>)
    ensures a == b <==> a - b == multiset{} == b - a
    ensures forall x :: !(x in a - b && x in b - a)
  {
    if a - b == multiset{} == b - a {
      forall x ensures a[x] == b[x] {
        assert (a - b)[x] == 0 && (b - a)[x] == 0;
      }
    }
  }

  /** Repeated operands count: each operand of one tree equals some operand of the
      other, and still A && (A && B) is not equal to (A && B) && B. */
  lemma EqualIsNotSetEquality(c: Conn, a: Expr, b: Expr)
    requires IsLiteral(a) && IsLiteral(b) && !IsYN(a) && !IsYN(b) && a != b
    ensures !Equal(Bin(c, a, Bin(c, a, b)), Bin(c, Bin(c, a, b), b))
  {
    var e1, e2 := Bin(c, a, Bin(c, a, b)), Bin(c, Bin(c, a, b), b);
    ThreeOperands(c, a, b);
    assert Operands(c, e1)[a] == 2 && Operands(c, e2)[a] == 1;
    EqualIsMultisetEquality(c, e1, e2);
  }

  lemma {:induction false} ThreeOperands(c: Conn, a: Expr, b: Expr)
    requires IsLiteral(a) && IsLiteral(b) && !IsYN(a) && !IsYN(b)
    ensures IsFlat(c, Bin(c, a, Bin(c, a, b))) && Operands(c, Bin(c, a, Bin(c, a, b))) == multiset{a, a, b}
    ensures IsFlat(c, Bin(c, Bin(c, a, b), b)) && Operands(c, Bin(c, Bin(c, a, b), b)) == multiset{a, b, b}
  {
    LiteralOperand(c, a);
    LiteralOperand(c, b);
    NodeOperands(c, a, b);
    NodeOperands(c, a, Bin(c, a, b));
    NodeOperands(c, Bin(c, a, b), b);
  }

  lemma LiteralOperand(c: Conn, a: Expr)
    requires IsLiteral(a) && !IsYN(a)
    ensures IsFlat(c, a) && Operands(c, a) == multiset{a}
  {}

  lemma NodeOperands(c: Conn, l: Expr, r: Expr)
    requires IsFlat(c, l) && IsFlat(c, r)
    ensures IsFlat(c, Bin(c, l, r)) && Operands(c, Bin(c, l, r)) == Operands(c, l) + Operands(c, r)
  {}
}
