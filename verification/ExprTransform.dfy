/** Rewriting to negation normal form, and the rewriting of m. */
module ExprTransform {
  import opened Symbols
  import opened Exprs
  import opened ExprEq
  import opened ExprDups

  function Dual(c: Conn): Conn { if c.And? then Or else And }

  function Complement(op: Cmp): Cmp {
    match op
    case EQ => NE
    case NE => EQ
    case LE => GT
    case GE => LT
    case LT => GE
    case GT => LE
  }

  predicate IsYMN(s: Symbol) { s.Yes? || s.Mod? || s.No? }

  /** A comparison of a boolean symbol with y, m or n that a simpler form replaces. */
  predicate IsBooleanTest(op: Cmp, a: Symbol, b: Symbol) {
    (op.EQ? || op.NE?) && TypeOf(a).Boolean? && IsYMN(b)
  }

  /** What the boolean test becomes. For A!=y the source hands the symbol itself to the
      negation where an expression is due; as in A=n the negated symbol is meant. */
  function BooleanTest(op: Cmp, a: Symbol, b: Symbol): Expr
    requires IsBooleanTest(op, a, b)
  {
    match b
    case No => if op.EQ? then Not(Sym(a)) else Sym(a)
    case Mod => if op.EQ? then Sym(No) else Sym(Yes)
    case _ => if op.EQ? then Sym(a) else Not(Sym(a))
  }

  /** Each negation triples what it covers, so that pushing one through a connective
      lowers the total although the negations double. */
  function Load(e: Expr): (n: nat)
    ensures n > 0
  {
    match e
    case Sym(_) => 1
    case Comp(_, _, _) => 3
    case Not(x) => 3 * Load(x)
    case Bin(_, l, r) => Load(l) + Load(r) + 1
  }

  /** The De Morgan image of !(l c r). */
  function Push(c: Conn, l: Expr, r: Expr): (e: Expr)
    ensures Load(e) < Load(Not(Bin(c, l, r)))
  {
    assert Load(Not(l)) == 3 * Load(l) && Load(Not(r)) == 3 * Load(r);
    Bin(Dual(c), Not(l), Not(r))
  }

  function Transform(e: Expr): (r: Expr)
    ensures Load(r) <= Load(e)
    decreases Load(e)
  {
    match e
    case Sym(_) => e
    case Comp(op, a, b) => if IsBooleanTest(op, a, b) then BooleanTest(op, a, b) else e
    case Bin(c, l, r) => Bin(c, Transform(l), Transform(r))
    case Not(x) =>
      var y := Transform(x);
      match y
      case Not(z) => z
      case Comp(op, a, b) => Comp(Complement(op), a, b)
      case Bin(c, l, r) => Transform(Push(c, l, r))
      case Sym(s) => if s.Yes? then Sym(No) else if s.No? then Sym(Yes) else if s.Mod? then y else Not(y)
  }

  lemma BooleanTestKeepsValue(op: Cmp, a: Symbol, b: Symbol, v: Valuation)
    requires Admissible(v) && IsBooleanTest(op, a, b)
    ensures Eval(BooleanTest(op, a, b), v) == Eval(Comp(op, a, b), v)
  {
    ConstantsHold(v);
    assert AdmissibleValue(a, v(a));
    CompareWithConstant(a, b, v);
  }

  lemma NegationKeepsValue(y: Expr, v: Valuation)
    requires Admissible(v) && (y.Sym? || y.Comp? || y.Not?)
    ensures Eval(Not(y), v) == Eval(
      match y
      case Not(z) => z
      case Comp(op, a, b) => Comp(Complement(op), a, b)
      case Sym(s) => if s.Yes? then Sym(No) else if s.No? then Sym(Yes) else if s.Mod? then y else Not(y)
      case _ => y, v)
  {
    ConstantsHold(v);
  }

  lemma {:induction false} TransformPreservesValue(e: Expr, v: Valuation)
    requires Admissible(v)
    ensures Eval(Transform(e), v) == Eval(e, v)
    decreases Load(e)
  {
    match e
    case Sym(_) =>
    case Comp(op, a, b) =>
      if IsBooleanTest(op, a, b) { BooleanTestKeepsValue(op, a, b, v); }
    case Bin(c, l, r) =>
      TransformPreservesValue(l, v);
      TransformPreservesValue(r, v);
    case Not(x) =>
      TransformPreservesValue(x, v);
      match Transform(x)
      case Bin(c, l, r) => TransformPreservesValue(Push(c, l, r), v);
      case y => NegationKeepsValue(y, v);
  }

  /** Negation stands only over a symbol other than y, m and n, and no boolean symbol
      is tested against y, m or n. */
  predicate IsNNF(e: Expr) {
    match e
    case Sym(_) => true
    case Comp(op, a, b) => !IsBooleanTest(op, a, b)
    case Bin(_, l, r) => IsNNF(l) && IsNNF(r)
    case Not(x) => x.Sym? && !IsYMN(x.s)
  }

  lemma {:induction false} TransformReachesNNF(e: Expr)
    ensures IsNNF(Transform(e))
    decreases Load(e)
  {
    match e
    case Sym(_) =>
    case Comp(_, _, _) =>
    case Bin(_, l, r) =>
      TransformReachesNNF(l);
      TransformReachesNNF(r);
    case Not(x) =>
      TransformReachesNNF(x);
      match Transform(x)
      case Bin(c, l, r) => TransformReachesNNF(Push(c, l, r));
      case _ =>
  }

  lemma {:induction false} TransformFixesNNF(e: Expr)
    requires IsNNF(e)
    ensures Transform(e) == e
    decreases Load(e)
  {
    match e
    case Bin(_, l, r) =>
      TransformFixesNNF(l);
      TransformFixesNNF(r);
    case _ =>
  }

  /** The normal forms are exactly the expressions the transformation leaves alone. */
  lemma NNFIsFixpoint(e: Expr)
    ensures IsNNF(e) <==> Transform(e) == e
    ensures Transform(Transform(e)) == Transform(e)
  {
    TransformReachesNNF(e);
    TransformFixesNNF(Transform(e));
    if IsNNF(e) { TransformFixesNNF(e); }
  }

  lemma {:induction false} TransformTests(e: Expr, alone: bool)
    ensures Tests(Transform(e), alone) <= Tests(e, alone)
    decreases Load(e)
  {
    match e
    case Bin(_, l, r) =>
      TransformTests(l, alone);
      TransformTests(r, alone);
    case Not(x) =>
      TransformTests(x, alone);
      var y := Transform(x);
      if y.Bin? {
        assert Tests(Push(y.c, y.l, y.r), alone) == Tests(y, alone);
        TransformTests(Push(y.c, y.l, y.r), alone);
      }
    case _ =>
  }

  // ----- the transformation as it is written -----

  /** A boolean symbol is somewhere compared with y by !=. */
  predicate TestsUnequalToYes(e: Expr) {
    match e
    case Sym(_) => false
    case Not(x) => TestsUnequalToYes(x)
    case Bin(_, l, r) => TestsUnequalToYes(l) || TestsUnequalToYes(r)
    case Comp(op, a, b) => op.NE? && b.Yes? && TypeOf(a).Boolean?
  }

  /** The transformation as written, where for A!=y the negation is built over the
      symbol's own record and not over an expression: then there is no result. */
  function TransformAsWritten(e: Expr): (r: Option<Expr>)
    ensures r.Some? ==> Load(r.value) <= Load(e)
    decreases Load(e)
  {
    match e
    case Sym(_) => Some(e)
    case Comp(op, a, b) =>
      if !IsBooleanTest(op, a, b) then Some(e)
      else if op.NE? && b.Yes? then None
      else Some(BooleanTest(op, a, b))
    case Bin(c, l, r) =>
      var l', r' := TransformAsWritten(l), TransformAsWritten(r);
      if l'.Some? && r'.Some? then Some(Bin(c, l'.value, r'.value)) else None
    case Not(x) =>
      var y := TransformAsWritten(x);
      match y
      case None => None
      case Some(Not(z)) => Some(z)
      case Some(Comp(op, a, b)) => Some(Comp(Complement(op), a, b))
      case Some(Bin(c, l, r)) => TransformAsWritten(Push(c, l, r))
      case Some(Sym(s)) => Some(if s.Yes? then Sym(No) else if s.No? then Sym(Yes) else if s.Mod? then Sym(s) else Not(Sym(s)))
  }

  lemma {:induction false} NormalFormsTestNothing(e: Expr)
    requires IsNNF(e)
    ensures !TestsUnequalToYes(e)
  {
    if e.Bin? {
      NormalFormsTestNothing(e.l);
      NormalFormsTestNothing(e.r);
    }
  }

  /** The code as written does what is meant exactly for the expressions in which no
      boolean symbol is compared with y by !=. */
  lemma {:induction false} TransformAsWrittenIff(e: Expr)
    ensures TransformAsWritten(e) == (if TestsUnequalToYes(e) then None else Some(Transform(e)))
    decreases Load(e)
  {
    match e
    case Bin(_, l, r) =>
      TransformAsWrittenIff(l);
      TransformAsWrittenIff(r);
    case Not(x) =>
      TransformAsWrittenIff(x);
      var y := Transform(x);
      if y.Bin? {
        TransformReachesNNF(x);
        NormalFormsTestNothing(y);
        TransformAsWrittenIff(Push(y.c, y.l, y.r));
      }
    case _ =>
  }

  // ----- removing duplicates keeps the normal form -----

  lemma {:induction false} EliminateYNKeepsNNF(e: Expr)
    requires IsNNF(e)
    ensures IsNNF(EliminateYN(e))
  {
    if e.Bin? {
      EliminateYNKeepsNNF(e.l);
      EliminateYNKeepsNNF(e.r);
    }
  }

  lemma JoinKeepsNNF(c: Conn, e1: Expr, e2: Expr)
    requires IsNNF(e1) && IsNNF(e2) && Join(c, e1, e2).Some?
    ensures IsNNF(Join(c, e1, e2).value)
  {}

  lemma {:induction false} JoinOneKeepsNNF(c: Conn, x: Expr, e: Expr)
    requires !IsConn(c, x) && IsNNF(x) && IsNNF(e)
    ensures IsNNF(JoinOne(c, x, e).0) && IsNNF(JoinOne(c, x, e).1)
    decreases e
  {
    if IsConn(c, e) {
      JoinOneKeepsNNF(c, x, e.l);
      JoinOneKeepsNNF(c, JoinOne(c, x, e.l).0, e.r);
    } else if Join(c, x, e).Some? {
      JoinKeepsNNF(c, x, e);
    }
  }

  lemma {:induction false} JoinOperandsKeepsNNF(c: Conn, e1: Expr, e2: Expr)
    requires IsNNF(e1) && IsNNF(e2)
    ensures IsNNF(JoinOperands(c, e1, e2).0) && IsNNF(JoinOperands(c, e1, e2).1)
    decreases e1
  {
    if IsConn(c, e1) {
      JoinOperandsKeepsNNF(c, e1.l, e2);
      JoinOperandsKeepsNNF(c, e1.r, JoinOperands(c, e1.l, e2).1);
    } else {
      JoinOneKeepsNNF(c, e1, e2);
    }
  }

  lemma {:induction false} EliminateDupsKeepsNNF(e: Expr)
    requires IsNNF(e)
    ensures IsNNF(EliminateDups(e))
    decreases Weight(e), Size(e), RightConst(e)
  {
    if e.Bin? {
      var l, r := EliminateDups(e.l), EliminateDups(e.r);
      EliminateDupsKeepsNNF(e.l);
      EliminateDupsKeepsNNF(e.r);
      JoinOperandsKeepsNNF(e.c, l, r);
      RoundShrinks(e.c, e.l, e.r, l, r);
      var (a, b, n) := JoinOperands(e.c, l, r);
      EliminateYNKeepsNNF(Bin(e.c, a, b));
      if n > 0 { EliminateDupsKeepsNNF(EliminateYN(Bin(e.c, a, b))); }
    }
  }

  // ----- m stands for m && MODULES -----

  function RewriteM(e: Expr, modules: Symbol): Expr {
    match e
    case Not(x) => Not(RewriteM(x, modules))
    case Bin(c, l, r) => Bin(c, RewriteM(l, modules), RewriteM(r, modules))
    case Sym(Mod) => Bin(And, e, Sym(modules))
    case _ => e
  }

  function RewriteMOpt(e: Option<Expr>, modules: Symbol): Option<Expr> {
    if e.None? then None else Some(RewriteM(e.value, modules))
  }

  /** The same expression, read with the operand m worth min(m, MODULES). */
  function EvalWithModules(e: Expr, modules: Symbol, v: Valuation): Tristate {
    match e
    case Sym(Mod) => Min(MOD, v(modules).tri)
    case Sym(s) => v(s).tri
    case Not(x) => Negate(EvalWithModules(x, modules, v))
    case Bin(c, l, r) => Apply(c, EvalWithModules(l, modules, v), EvalWithModules(r, modules, v))
    case Comp(_, _, _) => Eval(e, v)
  }

  lemma {:induction false} RewriteMMeansModules(e: Expr, modules: Symbol, v: Valuation)
    requires Admissible(v)
    ensures Eval(RewriteM(e, modules), v) == EvalWithModules(e, modules, v)
  {
    ConstantsHold(v);
    match e
    case Not(x) => RewriteMMeansModules(x, modules, v);
    case Bin(_, l, r) => RewriteMMeansModules(l, modules, v); RewriteMMeansModules(r, modules, v);
    case _ =>
  }

  // ----- the simplification applied to every condition of the menu tree -----

  function AndOpt(e1: Option<Expr>, e2: Option<Expr>): Option<Expr> {
    if e1.None? then e2 else if e2.None? then e1 else Some(Bin(And, e1.value, e2.value))
  }

  /** A node's condition below the condition of its parent. */
  function Propagate(parent: Option<Expr>, dep: Option<Expr>, modules: Symbol): Option<Expr> {
    var own := if dep.None? then None else Some(Transform(RewriteM(dep.value, modules)));
    EliminateDupsOpt(AndOpt(parent, own))
  }

  /** The stored condition is the conjunction of the parent's and the node's own, with
      m read as m && MODULES, and it stays in normal form. */
  lemma {:induction false} PropagateIsConjunction(parent: Option<Expr>, dep: Option<Expr>, modules: Symbol, v: Valuation)
    requires Admissible(v)
    requires parent.Some? ==> IsNNF(parent.value)
    requires ClashFreeOpt(AndOpt(parent, RewriteMOpt(dep, modules)))
    ensures var r := Propagate(parent, dep, modules);
      (r.Some? ==> IsNNF(r.value)) &&
      EvalOpt(r, v) == Min(EvalOpt(parent, v), if dep.None? then YES else EvalWithModules(dep.value, modules, v))
  {
    if dep.Some? {
      var m := RewriteM(dep.value, modules);
      RewriteMMeansModules(dep.value, modules, v);
      TransformPreservesValue(m, v);
      TransformReachesNNF(m);
      var both := AndOpt(parent, Some(Transform(m))).value;
      var ts := Tests(AndOpt(parent, Some(m)).value, false);
      TransformTests(m, false);
      assert Tests(both, false) <= ts;
      EliminateDupsPreservesValueIn(both, v, ts);
      EliminateDupsKeepsNNF(both);
    } else if parent.Some? {
      EliminateDupsPreservesValue(parent.value, v);
      EliminateDupsKeepsNNF(parent.value);
    }
  }
}
