/** When exactly an item moves into the submenu of the symbol before it, read off the
    operands of its condition. */
module SubmenuLaws {
  import opened Symbols
  import opened Exprs
  import opened ExprEq
  import opened ExprDups
  import opened ExprTransform
  import opened Duplicates
  import opened EqualKeys
  import opened Submenu

  /** The symbols and comparisons of an expression, from left to right. */
  function Atoms(e: Expr): seq<Expr> {
    match e
    case Not(x) => Atoms(x)
    case Bin(_, l, r) => Atoms(l) + Atoms(r)
    case _ => [e]
  }

  predicate Names(x: Expr, s: Symbol) { x == Sym(s) || (x.Comp? && (x.a == s || x.b == s)) }

  lemma {:induction false} MentionedIff(e: Expr, s: Symbol)
    ensures s in SymbolsOf(e) <==> exists x :: x in Atoms(e) && Names(x, s)
  {
    match e
    case Not(x) => MentionedIff(x, s);
    case Bin(_, l, r) =>
      MentionedIff(l, s);
      MentionedIff(r, s);
    case _ => assert e in Atoms(e);
  }

  /** The symbol itself, or that it is y, m, or not n. */
  predicate Demands(x: Expr, s: Symbol) { x == Sym(s) || x == Comp(EQ, s, Yes) || x == Comp(EQ, s, Mod) || x == Comp(NE, s, No) }

  /** An outright dependency is one of the operands joined by &&. */
  lemma {:induction false} DependsIff(e: Expr, s: Symbol)
    ensures Depends(e, s) <==> exists x :: x in OperandList(And, e) && Demands(x, s)
  {
    if IsConn(And, e) {
      DependsIff(e.l, s);
      DependsIff(e.r, s);
    } else {
      assert e in OperandList(And, e);
    }
  }

  // ----- the superset test -----

  lemma {:induction false} NormalIsClean(e: Expr)
    requires NoConstOperand(e) && IsNNF(e)
    ensures Clean(e)
  {
    if e.Bin? {
      NormalIsClean(e.l);
      NormalIsClean(e.r);
    }
  }

  /** Both conditions are compared in a form without constant operands. */
  lemma NotNIsClean(e: Option<Expr>)
    ensures Clean(NotN(e))
  {
    var c := TransCompareOpt(e, true, NO);
    TransformReachesNNF(c);
    EliminateDupsKeepsNNF(Transform(c));
    NormalIsClean(NotN(e));
  }

  /** Against a constant nothing is cancelled. */
  lemma {:induction false} ConstantStays(c: Conn, k: Expr, e: Expr)
    requires IsYN(k) && Clean(e) && !IsYN(e)
    ensures CancelCommon(c, k, e) == (k, e) && CancelCommon(c, e, k) == (e, k)
  {
    if IsConn(c, e) {
      ConstantStays(c, k, e.l);
      ConstantStays(c, k, e.r);
      CancelLeft(c, e, k);
      CancelRight(c, k, e);
    }
  }

  /** A single operand is cancelled, or nothing is. */
  lemma {:induction false} OperandStays(c: Conn, e: Expr, x: Expr)
    requires Clean(e) && !IsYN(e) && !IsConn(c, x) && !IsYN(x)
    ensures CancelCommon(c, e, x) == (e, x) || CancelCommon(c, e, x).1 == Identity(c)
  {
    if IsConn(c, e) {
      OperandStays(c, e.l, x);
      OperandStays(c, e.r, x);
      ConstantStays(c, Identity(c), e.r);
      CancelLeft(c, e, x);
    }
  }

  lemma {:induction false} SomeOperand(c: Conn, e: Expr)
    requires Clean(e) && !IsYN(e)
    ensures |OperandKeys(c, e)| >= if IsConn(c, e) then 2 else 1
  {
    if IsConn(c, e) {
      SomeOperand(c, e.l);
      SomeOperand(c, e.r);
    }
  }

  lemma DifferenceIsEmpty<T>(a: multiset<T>, b: multiset<T>)
    ensures a - b == multiset{} <==> a <= b
  {
    if a - b == multiset{} {
      forall x ensures a[x] <= b[x] { assert (a - b)[x] == 0; }
    }
  }

  /** What is left of the second condition after cancelling under the first one's &&. */
  lemma {:induction false} UnderAnd(d: Expr, b: Expr)
    requires Clean(d) && Clean(b) && !IsYN(b) && !IsYN(d)
    ensures EliminateYN(CancelCommon(And, d, b).1) == Sym(Yes) <==> OperandKeys(And, b) <= OperandKeys(And, d)
  {
    CleanIsHalfClean(And, d);
    CleanIsHalfClean(And, b);
    CancelKeys(And, d, b);
    EliminateYNOfHalfClean(And, CancelCommon(And, d, b).1);
    DifferenceIsEmpty(OperandKeys(And, b), OperandKeys(And, d));
  }

  /** Cancelling under || never leaves y. */
  lemma {:induction false} UnderOr(d: Expr, b: Expr)
    requires Clean(d) && Clean(b) && !IsYN(b) && d != Sym(Yes)
    ensures EliminateYN(CancelCommon(Or, d, b).1) != Sym(Yes)
  {
    if d != Sym(No) { CleanIsHalfClean(Or, d); }
    CleanIsHalfClean(Or, b);
    CancelKeys(Or, d, b);
    EliminateYNOfHalfClean(Or, CancelCommon(Or, d, b).1);
  }

  lemma {:induction false} SupersetOfConjunction(d: Expr, b: Expr)
    requires Clean(d) && Clean(b) && IsConn(And, d) && !IsYN(b)
    ensures EliminateEq(d, b).1 == Sym(Yes) <==> OperandKeys(And, b) <= OperandKeys(And, d)
  {
    UnderAnd(d, b);
    var (a1, b1) := CancelCommon(And, d, b);
    if IsConn(Or, b) {
      OperandStays(And, d, b);
      if b1 == b {
        UnderOr(d, b);
        CleanIsNormal(b);
      }
    } else if !b.Bin? {
      OperandStays(And, d, b);
    }
  }

  lemma {:induction false} NoSupersetOfDisjunction(d: Expr, b: Expr)
    requires Clean(d) && Clean(b) && IsConn(Or, d) && !IsYN(b)
    ensures EliminateEq(d, b).1 != Sym(Yes)
  {
    UnderOr(d, b);
    var (a1, b1) := CancelCommon(Or, d, b);
    if IsConn(And, b) {
      OperandStays(Or, d, b);
      if b1 == b {
        UnderAnd(d, b);
        SomeOperand(And, b);
        assert |OperandKeys(And, d)| == 1;
        if OperandKeys(And, b) <= OperandKeys(And, d) { SmallerMultiset(OperandKeys(And, b), OperandKeys(And, d)); }
      }
    } else if !b.Bin? {
      OperandStays(Or, d, b);
    }
  }

  lemma SmallerMultiset<T>(a: multiset<T>, b: multiset<T>)
    requires a <= b
    ensures |a| <= |b|
  {
    assert b == a + (b - a);
  }

  lemma {:induction false} SupersetOfLiteral(d: Expr, b: Expr)
    requires Clean(d) && Clean(b) && !d.Bin? && !IsYN(b)
    ensures EliminateEq(d, b).1 != Sym(Yes)
  {
    CleanIsNormal(b);
    if b.Bin? {
      if IsYN(d) {
        ConstantStays(b.c, d, b);
      } else if b.c == And {
        UnderAnd(d, b);
        SomeOperand(And, b);
        if OperandKeys(And, b) <= OperandKeys(And, d) { SmallerMultiset(OperandKeys(And, b), OperandKeys(And, d)); }
      } else {
        UnderOr(d, b);
      }
    }
  }

  /** The second condition is y, or the first is a conjunction among whose operands are all
      of the second's, as often as there. */
  predicate AsksForAll(d: Expr, b: Expr) {
    b == Sym(Yes) || (IsConn(And, d) && !IsYN(b) && OperandKeys(And, b) <= OperandKeys(And, d))
  }

  lemma {:induction false} SupersetIff(d: Expr, b: Expr)
    requires Clean(d) && Clean(b)
    ensures EliminateEq(d, b).1 == Sym(Yes) <==> AsksForAll(d, b)
  {
    if IsYN(b) {
      if d.Bin? { ConstantStays(d.c, b, d); }
    } else if IsConn(And, d) {
      SupersetOfConjunction(d, b);
    } else if IsConn(Or, d) {
      NoSupersetOfDisjunction(d, b);
    } else {
      SupersetOfLiteral(d, b);
    }
  }

  /** An item moves under the symbol exactly if its condition names the symbol, and has an
      operand that demands it or, with comparisons to n in place, all operands of the
      condition of the symbol's prompt. */
  lemma MovesUnderIff(sym: Symbol, dep: Option<Expr>, base: Option<Expr>)
    ensures MovesUnder(sym, dep, base) <==>
      dep.Some? && (exists x :: x in Atoms(dep.value) && Names(x, sym)) &&
      ((exists x :: x in OperandList(And, dep.value) && Demands(x, sym)) || AsksForAll(NotN(dep), NotN(base)))
  {
    if dep.Some? {
      MentionedIff(dep.value, sym);
      DependsIff(dep.value, sym);
    }
    NotNIsClean(dep);
    NotNIsClean(base);
    SupersetIff(NotN(dep), NotN(base));
  }
}
