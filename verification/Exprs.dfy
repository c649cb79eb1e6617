/** Dependency expressions: trees over symbols, their three-valued meaning, and the
    removal of constant operands. The source shares equal subtrees through a hash
    table (see ExprTable), so a tree is its value. */
module Exprs {
  import opened Symbols

  datatype Conn = And | Or

  datatype Cmp = EQ | NE | LT | LE | GT | GE

  datatype Expr =
    | Sym(s: Symbol)
    | Not(e: Expr)
    | Bin(c: Conn, l: Expr, r: Expr)
    | Comp(op: Cmp, a: Symbol, b: Symbol)

  // ----- meaning -----

  function Apply(c: Conn, x: Tristate, y: Tristate): Tristate {
    if c.And? then Min(x, y) else Max(x, y)
  }

  predicate Holds(op: Cmp, res: int) {
    match op
    case EQ => res == 0
    case NE => res != 0
    case LT => res < 0
    case LE => res <= 0
    case GT => res > 0
    case GE => res >= 0
  }

  function Eval(e: Expr, v: Valuation): Tristate {
    match e
    case Sym(s) => v(s).tri
    case Not(x) => Negate(Eval(x, v))
    case Bin(c, l, r) => Apply(c, Eval(l, v), Eval(r, v))
    case Comp(op, a, b) => Truth(Holds(op, Compare(a, v(a), b, v(b))))
  }

  /** A conjunction is y if both operands are and n if one is, a disjunction the other way
      round; a negation turns y and n about and leaves m. */
  lemma ConnectivesMean(l: Expr, r: Expr, v: Valuation)
    ensures Eval(Bin(And, l, r), v) == YES <==> Eval(l, v) == YES && Eval(r, v) == YES
    ensures Eval(Bin(And, l, r), v) == NO <==> Eval(l, v) == NO || Eval(r, v) == NO
    ensures Eval(Bin(Or, l, r), v) == YES <==> Eval(l, v) == YES || Eval(r, v) == YES
    ensures Eval(Bin(Or, l, r), v) == NO <==> Eval(l, v) == NO && Eval(r, v) == NO
    ensures Eval(Not(l), v) == YES <==> Eval(l, v) == NO
    ensures Eval(Not(l), v) == NO <==> Eval(l, v) == YES
    ensures Eval(Sym(Yes), v) == v(Yes).tri && (Admissible(v) ==> Eval(Sym(Yes), v) == YES && Eval(Sym(No), v) == NO && Eval(Sym(Mod), v) == MOD)
  {
    if Admissible(v) { assert AdmissibleValue(Yes, v(Yes)) && AdmissibleValue(No, v(No)) && AdmissibleValue(Mod, v(Mod)); }
  }

  /** A missing expression counts as y. */
  datatype Option<+T> = None | Some(value: T)

  function EvalOpt(e: Option<Expr>, v: Valuation): Tristate {
    if e.None? then YES else Eval(e.value, v)
  }

  function SymbolsOf(e: Expr): set<Symbol> {
    match e
    case Sym(s) => {s}
    case Not(x) => SymbolsOf(x)
    case Bin(_, l, r) => SymbolsOf(l) + SymbolsOf(r)
    case Comp(_, a, b) => {a, b}
  }

  lemma {:induction false} EvalDependsOnSymbols(e: Expr, v: Valuation, w: Valuation)
    requires forall s :: s in SymbolsOf(e) ==> v(s) == w(s)
    ensures Eval(e, v) == Eval(e, w)
  {
    match e
    case Sym(s) =>
    case Not(x) => EvalDependsOnSymbols(x, v, w);
    case Bin(_, l, r) => EvalDependsOnSymbols(l, v, w); EvalDependsOnSymbols(r, v, w);
    case Comp(_, a, b) =>
  }

  // ----- constants of a connective -----

  function Identity(c: Conn): Expr { if c.And? then Sym(Yes) else Sym(No) }

  function Absorber(c: Conn): Expr { if c.And? then Sym(No) else Sym(Yes) }

  predicate IsYN(e: Expr) { e == Sym(Yes) || e == Sym(No) }

  // ----- measures -----

  function Size(e: Expr): nat {
    match e
    case Sym(_) => 1
    case Not(x) => 1 + Size(x)
    case Bin(_, l, r) => 1 + Size(l) + Size(r)
    case Comp(_, _, _) => 1
  }

  /** The number of operators and atoms below that are not the constants y and n. */
  function Weight(e: Expr): nat {
    match e
    case Sym(s) => if s.Yes? || s.No? then 0 else 1
    case Not(x) => 1 + Weight(x)
    case Bin(_, l, r) => Weight(l) + Weight(r)
    case Comp(_, _, _) => 1
  }

  lemma {:induction false} SizePositive(e: Expr)
    ensures Size(e) >= 1
  {}

  // ----- expr_eliminate_yn -----

  /** Drops y and n operands; when neither operand becomes constant the original
      tree is returned, with whatever was simplified further down discarded. */
  function EliminateYN(e: Expr): Expr {
    match e
    case Bin(c, l0, r0) =>
      var l, r := EliminateYN(l0), EliminateYN(r0);
      if l == Absorber(c) then l
      else if l == Identity(c) then r
      else if r == Absorber(c) then r
      else if r == Identity(c) then l
      else e
    case _ => e
  }

  lemma {:induction false} EliminateYNPreservesValue(e: Expr, v: Valuation)
    requires Admissible(v)
    ensures Eval(EliminateYN(e), v) == Eval(e, v)
  {
    match e
    case Bin(c, l, r) =>
      EliminateYNPreservesValue(l, v);
      EliminateYNPreservesValue(r, v);
      assert AdmissibleValue(Yes, v(Yes)) && AdmissibleValue(No, v(No));
    case _ =>
  }

  /** No y or n is an operand anywhere on the tree's &&/|| spine. */
  predicate NoConstOperand(e: Expr) {
    e.Bin? ==> !IsYN(e.l) && !IsYN(e.r) && NoConstOperand(e.l) && NoConstOperand(e.r)
  }

  lemma {:induction false} EliminateYNKeepsNormal(e: Expr)
    requires NoConstOperand(e)
    ensures EliminateYN(e) == e
  {
    match e
    case Bin(c, l, r) => EliminateYNKeepsNormal(l); EliminateYNKeepsNormal(r);
    case _ =>
  }

  lemma {:induction false} EliminateYNShrinks(e: Expr)
    ensures Size(EliminateYN(e)) <= Size(e)
    ensures Weight(EliminateYN(e)) <= Weight(e)
    ensures EliminateYN(e) != e ==> Size(EliminateYN(e)) < Size(e)
    ensures SymbolsOf(EliminateYN(e)) <= SymbolsOf(e)
  {
    match e
    case Bin(c, l, r) => EliminateYNShrinks(l); EliminateYNShrinks(r);
    case _ =>
  }

  /** Alone, the elimination does not reach a normal form: it leaves the y in
      (A && y) && B where it stands. */
  lemma EliminateYNAloneIsNotNormalising()
    ensures exists e :: !NoConstOperand(EliminateYN(e))
  {
    var a, b := Sym(Config("A", Boolean)), Sym(Config("B", Boolean));
    var e := Bin(And, Bin(And, a, Sym(Yes)), b);
    assert EliminateYN(Bin(And, a, Sym(Yes))) == a;
    assert EliminateYN(e) == e;
    assert !NoConstOperand(EliminateYN(e));
  }
}
