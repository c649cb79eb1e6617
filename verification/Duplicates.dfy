/** That removing duplicates removes them: no two operands of one connective are left that
    are equal or say something about one symbol that a single operand can say. */
module Duplicates {
  import opened Symbols
  import opened Exprs
  import opened ExprEq
  import opened ExprDups
  import opened ExprTransform

  // ----- pairs of operands of which one is too many -----

  predicate IsStatic(s: Symbol) { s == Yes || s == Mod || s == No }

  /** One operand is the first of the two trees, the other the second. */
  predicate Are(x: Expr, y: Expr, e1: Expr, e2: Expr) { (x == e1 && y == e2) || (x == e2 && y == e1) }

  /** (a=p) || (a=q) for a tristate a and two of y, m and n; a || !a for a boolean. */
  predicate OneTooManyInOr(x: Expr, y: Expr) {
    (x.Comp? && y.Comp? && x.op == EQ && y.op == EQ && x.a == y.a && TypeOf(x.a) == Trivalent &&
     IsStatic(x.b) && IsStatic(y.b) && x.b != y.b) ||
    (x.Sym? && y == Not(x) && TypeOf(x.s) == Boolean) ||
    (y.Sym? && x == Not(y) && TypeOf(y.s) == Boolean)
  }

  /** a with a=y, a!=n or a!=m; for a tristate a also a=b with a!=c for constants, and
      a!=p with a!=q for two of y, m and n. */
  predicate OneTooManyInAnd(x: Expr, y: Expr) {
    (x.Sym? && IsLogic(x.s) && (y == Comp(EQ, x.s, Yes) || y == Comp(NE, x.s, No) || y == Comp(NE, x.s, Mod))) ||
    (y.Sym? && IsLogic(y.s) && (x == Comp(EQ, y.s, Yes) || x == Comp(NE, y.s, No) || x == Comp(NE, y.s, Mod))) ||
    (x.Comp? && y.Comp? && x.a == y.a && TypeOf(x.a) == Trivalent && IsConst(x.b) && IsConst(y.b) &&
     ((x.op == EQ && y.op == NE) || (x.op == NE && y.op == EQ) ||
      (x.op == NE && y.op == NE && IsStatic(x.b) && IsStatic(y.b) && x.b != y.b)))
  }

  predicate OneTooMany(c: Conn, x: Expr, y: Expr) {
    Equal(x, y) || if c == And then OneTooManyInAnd(x, y) else OneTooManyInOr(x, y)
  }

  /** Exactly these pairs are joined. */
  lemma JoinsIff(c: Conn, x: Expr, y: Expr)
    ensures Join(c, x, y).Some? <==> OneTooMany(c, x, y)
  {
    if !Equal(x, y) {
      AndTableIff(x, y);
      OrTableIff(x, y);
    }
  }

  lemma AndTableIff(x: Expr, y: Expr)
    requires !Equal(x, y)
    ensures AndTable(x, y).Some? <==> OneTooManyInAnd(x, y)
  {
  }

  lemma OrTableIff(x: Expr, y: Expr)
    requires !Equal(x, y)
    ensures OrTable(x, y).Some? <==> OneTooManyInOr(x, y)
  {
  }

  /** What two different operands of || are joined to. */
  lemma {:induction false} JoinedByOr(a: Symbol, x: Expr, y: Expr)
    requires !Equal(x, y)
    ensures TypeOf(a) == Trivalent && Are(x, y, Comp(EQ, a, Yes), Comp(EQ, a, Mod)) ==> Join(Or, x, y) == Some(Comp(NE, a, No))
    ensures TypeOf(a) == Trivalent && Are(x, y, Comp(EQ, a, Yes), Comp(EQ, a, No)) ==> Join(Or, x, y) == Some(Comp(NE, a, Mod))
    ensures TypeOf(a) == Trivalent && Are(x, y, Comp(EQ, a, Mod), Comp(EQ, a, No)) ==> Join(Or, x, y) == Some(Comp(NE, a, Yes))
    ensures TypeOf(a) == Boolean && Are(x, y, Sym(a), Not(Sym(a))) ==> Join(Or, x, y) == Some(Sym(Yes))
  {
    assert Join(Or, x, y) == OrTable(x, y);
  }

  /** What a symbol and a comparison of it are joined to by &&. */
  lemma {:induction false} SymbolJoinedByAnd(a: Symbol, x: Expr, y: Expr)
    requires IsLogic(a) && !Equal(x, y)
    ensures Are(x, y, Sym(a), Comp(EQ, a, Yes)) ==> Join(And, x, y) == Some(Comp(EQ, a, Yes))
    ensures Are(x, y, Sym(a), Comp(NE, a, No)) ==> Join(And, x, y) == Some(Sym(a))
    ensures Are(x, y, Sym(a), Comp(NE, a, Mod)) ==> Join(And, x, y) == Some(Comp(EQ, a, Yes))
  {
    assert Join(And, x, y) == AndTable(x, y);
  }

  /** What two comparisons of a tristate are joined to by &&. */
  lemma {:induction false} EqualJoinedByAnd(a: Symbol, b: Symbol, d: Symbol, x: Expr, y: Expr)
    requires TypeOf(a) == Trivalent && IsConst(b) && IsConst(d) && Are(x, y, Comp(EQ, a, b), Comp(NE, a, d))
    ensures Join(And, x, y) == Some(if b == d then Sym(No) else Comp(EQ, a, b))
  {
    assert Join(And, x, y) == AndTable(x, y);
  }

  lemma {:induction false} UnequalJoinedByAnd(a: Symbol, x: Expr, y: Expr)
    requires TypeOf(a) == Trivalent && !Equal(x, y)
    ensures Are(x, y, Comp(NE, a, Yes), Comp(NE, a, No)) ==> Join(And, x, y) == Some(Comp(EQ, a, Mod))
    ensures Are(x, y, Comp(NE, a, Yes), Comp(NE, a, Mod)) ==> Join(And, x, y) == Some(Comp(EQ, a, No))
    ensures Are(x, y, Comp(NE, a, Mod), Comp(NE, a, No)) ==> Join(And, x, y) == Some(Comp(EQ, a, Yes))
  {
    assert Join(And, x, y) == AndTable(x, y);
  }

  // ----- none is left -----

  /** The operands of a connective from left to right. */
  function OperandList(c: Conn, e: Expr): (l: seq<Expr>)
    ensures |l| > 0
  {
    if IsConn(c, e) then OperandList(c, e.l) + OperandList(c, e.r) else [e]
  }

  /** No two operands at different places are one too many. */
  ghost predicate AllNeeded(c: Conn, l: seq<Expr>) {
    forall i, j :: 0 <= i < j < |l| ==> !OneTooMany(c, l[i], l[j])
  }

  /** So it is for every && and || on the way down. */
  ghost predicate Irredundant(e: Expr) {
    e.Bin? ==> AllNeeded(e.c, OperandList(e.c, e)) && Irredundant(e.l) && Irredundant(e.r)
  }

  lemma {:induction false} NothingJoinedOne(c: Conn, x: Expr, e: Expr, y: Expr)
    requires !IsConn(c, x) && JoinOne(c, x, e).2 == 0 && y in OperandList(c, e)
    ensures !OneTooMany(c, x, y)
    decreases e
  {
    if IsConn(c, e) {
      if y in OperandList(c, e.l) { NothingJoinedOne(c, x, e.l, y); } else { NothingJoinedOne(c, x, e.r, y); }
    } else {
      JoinsIff(c, x, e);
    }
  }

  lemma {:induction false} NothingJoined(c: Conn, e1: Expr, e2: Expr, x: Expr, y: Expr)
    requires JoinOperands(c, e1, e2).2 == 0 && x in OperandList(c, e1) && y in OperandList(c, e2)
    ensures !OneTooMany(c, x, y)
    decreases e1
  {
    if IsConn(c, e1) {
      if x in OperandList(c, e1.l) { NothingJoined(c, e1.l, e2, x, y); } else { NothingJoined(c, e1.r, e2, x, y); }
    } else {
      NothingJoinedOne(c, e1, e2, y);
    }
  }

  lemma IrredundantOperands(c: Conn, e: Expr)
    requires Irredundant(e)
    ensures AllNeeded(c, OperandList(c, e))
  {
  }

  lemma {:induction false} JoinlessRoundIsIrredundant(c: Conn, l: Expr, r: Expr)
    requires Irredundant(l) && Irredundant(r) && JoinOperands(c, l, r).2 == 0
    ensures Irredundant(Bin(c, l, r))
  {
    var p, q := OperandList(c, l), OperandList(c, r);
    IrredundantOperands(c, l);
    IrredundantOperands(c, r);
    assert OperandList(c, Bin(c, l, r)) == p + q;
    forall i, j | 0 <= i < j < |p + q|
      ensures !OneTooMany(c, (p + q)[i], (p + q)[j])
    {
      if j < |p| {
        assert !OneTooMany(c, p[i], p[j]);
      } else if i < |p| {
        NothingJoined(c, l, r, p[i], q[j - |p|]);
      } else {
        assert !OneTooMany(c, q[i - |p|], q[j - |p|]);
      }
    }
  }

  /** In what is left of any expression, no operand is one too many beside another one of
      the same connective, wherever they stand. */
  lemma {:induction false} NoDuplicatesAreLeft(e: Expr)
    ensures Irredundant(EliminateDups(e))
    decreases Weight(e), Size(e), RightConst(e)
  {
    if e.Bin? {
      var l, r := EliminateDups(e.l), EliminateDups(e.r);
      RoundShrinks(e.c, e.l, e.r, l, r);
      OperandsAreSmaller(e);
      NoDuplicatesAreLeft(e.l);
      NoDuplicatesAreLeft(e.r);
      var (e', n) := Round(e.c, l, r);
      if n == 0 {
        EliminateYNKeepsNormal(l);
        EliminateYNKeepsNormal(r);
        JoinlessRoundIsIrredundant(e.c, l, r);
      } else {
        NoDuplicatesAreLeft(e');
      }
    }
  }

  lemma OperandsAreSmaller(e: Expr)
    requires e.Bin?
    ensures Size(e.l) < Size(e) && Size(e.r) < Size(e) && Weight(e.l) <= Weight(e) && Weight(e.r) <= Weight(e)
  {
    SizePositive(e.l);
    SizePositive(e.r);
  }

  /** So it is in every condition that is stored for a menu entry or property. */
  lemma StoredIsIrredundant(above: Option<Expr>, own: Option<Expr>, modules: Symbol)
    ensures var r := Propagate(above, own, modules); r.Some? ==> Irredundant(r.value) && NoConstOperand(r.value)
    ensures Propagate(above, own, modules).None? <==> above.None? && own.None?
  {
    var both := AndOpt(above, if own.None? then None else Some(Transform(RewriteM(own.value, modules))));
    if both.Some? { NoDuplicatesAreLeft(both.value); }
  }

  // ----- plain operands are left once each -----

  function Members(c: Conn, e: Expr): set<Expr> { set x | x in OperandList(c, e) && x != Identity(c) }

  /** No one operand is too many beside another one, or beside the constant that a join leaves. */
  ghost predicate Plain(c: Conn, ops: set<Expr>) {
    (forall x :: x in ops ==> IsLiteral(x) && !IsYN(x)) &&
    forall x, y :: x in ops + {Identity(c)} && y in ops + {Identity(c)} && x != y ==> !OneTooMany(c, x, y)
  }

  /** The tree has operands from `ops` only, besides the constant. */
  ghost predicate Made(c: Conn, e: Expr, ops: set<Expr>) { IsFlat(c, e) && Members(c, e) <= ops }

  lemma MembersOfNode(c: Conn, l: Expr, r: Expr)
    ensures Members(c, Bin(c, l, r)) == Members(c, l) + Members(c, r)
  {
  }

  lemma InTurn(x: set<Expr>, l: set<Expr>, r: set<Expr>, x': set<Expr>, l': set<Expr>, x'': set<Expr>, r': set<Expr>)
    requires x' + l' == x + l && x'' + r' == x' + r
    ensures x'' + (l' + r') == x + (l + r) && (l' + r') + x'' == (l + r) + x
  {
    assert x'' + (l' + r') == (x'' + r') + l' == (x' + r) + l' == (x' + l') + r == (x + l) + r;
  }

  lemma JoinedLeaves(c: Conn, x: Expr, y: Expr, ops: set<Expr>)
    requires Plain(c, ops) && !IsConn(c, x) && !IsConn(c, y) && Made(c, x, ops) && Made(c, y, ops)
    ensures Join(c, x, y) == if x == y then Some(x) else None
    ensures Members(c, Identity(c)) == {} && Made(c, Identity(c), ops)
  {
    assert x in OperandList(c, x) && y in OperandList(c, y);
    assert x in ops + {Identity(c)} && y in ops + {Identity(c)};
    JoinsIff(c, x, y);
    EqualOnLiterals(x, y);
  }

  lemma {:induction false} JoinOneKeepsMembers(c: Conn, x: Expr, e: Expr, ops: set<Expr>)
    requires Plain(c, ops) && !IsConn(c, x) && Made(c, x, ops) && Made(c, e, ops)
    ensures var (x', e', _) := JoinOne(c, x, e);
      Made(c, x', ops) && Made(c, e', ops) && Members(c, x') + Members(c, e') == Members(c, x) + Members(c, e)
    decreases e
  {
    if IsConn(c, e) {
      var (x', l, _) := JoinOne(c, x, e.l);
      var (x'', r, _) := JoinOne(c, x', e.r);
      MembersOfNode(c, e.l, e.r);
      MembersOfNode(c, l, r);
      JoinOneKeepsMembers(c, x, e.l, ops);
      JoinOneKeepsMembers(c, x', e.r, ops);
      InTurn(Members(c, x), Members(c, e.l), Members(c, e.r), Members(c, x'), Members(c, l), Members(c, x''), Members(c, r));
    } else {
      JoinedLeaves(c, x, e, ops);
    }
  }

  lemma {:induction false} JoinOperandsKeepsMembers(c: Conn, e1: Expr, e2: Expr, ops: set<Expr>)
    requires Plain(c, ops) && Made(c, e1, ops) && Made(c, e2, ops)
    ensures var (a, b, _) := JoinOperands(c, e1, e2);
      Made(c, a, ops) && Made(c, b, ops) && Members(c, a) + Members(c, b) == Members(c, e1) + Members(c, e2)
    decreases e1
  {
    if IsConn(c, e1) {
      var (l, e2', _) := JoinOperands(c, e1.l, e2);
      var (r, e2'', _) := JoinOperands(c, e1.r, e2');
      MembersOfNode(c, e1.l, e1.r);
      MembersOfNode(c, l, r);
      JoinOperandsKeepsMembers(c, e1.l, e2, ops);
      JoinOperandsKeepsMembers(c, e1.r, e2', ops);
      InTurn(Members(c, e2), Members(c, e1.l), Members(c, e1.r), Members(c, e2'), Members(c, l), Members(c, e2''), Members(c, r));
    } else {
      JoinOneKeepsMembers(c, e1, e2, ops);
    }
  }

  lemma {:induction false} EliminateYNKeepsMembers(c: Conn, e: Expr, ops: set<Expr>)
    requires Made(c, e, ops)
    ensures Made(c, EliminateYN(e), ops) && Members(c, EliminateYN(e)) == Members(c, e)
  {
    if IsConn(c, e) {
      MembersOfNode(c, e.l, e.r);
      EliminateYNKeepsMembers(c, e.l, ops);
      EliminateYNKeepsMembers(c, e.r, ops);
      EliminateYNOfFlat(c, e.l);
      EliminateYNOfFlat(c, e.r);
      assert Members(c, Identity(c)) == {};
    }
  }

  lemma {:induction false} EliminateDupsKeepsMembers(c: Conn, e: Expr, ops: set<Expr>)
    requires Plain(c, ops) && Made(c, e, ops)
    ensures Made(c, EliminateDups(e), ops) && Members(c, EliminateDups(e)) == Members(c, e)
    decreases Weight(e), Size(e), RightConst(e)
  {
    if IsConn(c, e) {
      var l, r := EliminateDups(e.l), EliminateDups(e.r);
      RoundShrinks(c, e.l, e.r, l, r);
      OperandsAreSmaller(e);
      MembersOfNode(c, e.l, e.r);
      EliminateDupsKeepsMembers(c, e.l, ops);
      EliminateDupsKeepsMembers(c, e.r, ops);
      var (a, b, n) := JoinOperands(c, l, r);
      JoinOperandsKeepsMembers(c, l, r, ops);
      MembersOfNode(c, a, b);
      EliminateYNKeepsMembers(c, Bin(c, a, b), ops);
      if n > 0 { EliminateDupsKeepsMembers(c, EliminateYN(Bin(c, a, b)), ops); }
    }
  }

  lemma {:induction false} NoConstantListed(c: Conn, e: Expr)
    requires NoConstOperand(e) && IsConn(c, e)
    ensures Identity(c) !in OperandList(c, e)
  {
    assert !IsYN(e.l) && !IsYN(e.r);
    if IsConn(c, e.l) { NoConstantListed(c, e.l); }
    if IsConn(c, e.r) { NoConstantListed(c, e.r); }
  }

  lemma {:induction false} FlatIsLiteral(c: Conn, e: Expr, x: Expr)
    requires IsFlat(c, e) && x in OperandList(c, e)
    ensures IsLiteral(x)
  {
    if IsConn(c, e) {
      if x in OperandList(c, e.l) { FlatIsLiteral(c, e.l, x); } else { FlatIsLiteral(c, e.r, x); }
    }
  }

  /** Of a tree of one connective whose different operands have nothing to do with each
      other, every operand is left exactly once, and nothing else. */
  lemma {:induction false} EachOperandIsLeftOnce(c: Conn, e: Expr)
    requires IsFlat(c, e) && Plain(c, Members(c, e)) && Members(c, e) != {}
    ensures multiset(OperandList(c, EliminateDups(e))) == multiset(Members(c, e))
  {
    var r := EliminateDups(e);
    var l := OperandList(c, r);
    EliminateDupsKeepsMembers(c, e, Members(c, e));
    NoDuplicatesAreLeft(e);
    IrredundantOperands(c, r);
    if IsConn(c, r) {
      NoConstantListed(c, r);
    } else {
      assert l == [r] && r in l;
    }
    assert forall x :: x in l <==> x in Members(c, e);
    forall i, j | 0 <= i < j < |l|
      ensures l[i] != l[j]
    {
      FlatIsLiteral(c, r, l[i]);
      EqualOnLiterals(l[i], l[i]);
      assert !OneTooMany(c, l[i], l[j]);
    }
    DistinctCounts(l, Members(c, e));
  }

  lemma {:induction false} DistinctCounts<T>(l: seq<T>, s: set<T>)
    requires (forall i, j :: 0 <= i < j < |l| ==> l[i] != l[j]) && forall x :: x in l <==> x in s
    ensures multiset(l) == multiset(s)
  {
    if l != [] {
      var front, last := l[..|l| - 1], l[|l| - 1];
      assert l == front + [last];
      forall x ensures x in front <==> x in s - {last} {
        if x in front { assert x in l; }
      }
      DistinctCounts(front, s - {last});
      assert last in s;
      assert multiset(s) == multiset(s - {last}) + multiset{last};
    } else {
      assert s == {};
    }
  }

  lemma PlainPair(c: Conn, a: Expr, b: Expr)
    requires Plain(c, {a, b})
    ensures !IsConn(c, a) && !IsConn(c, b) && !a.Bin? && !IsYN(a) && !IsYN(b)
    ensures JoinOperands(c, a, b) == if a == b then (Identity(c), a, 1) else (a, b, 0)
    ensures JoinOperands(c, Identity(c), b) == (Identity(c), b, 0)
  {
    assert a in {a, b} && b in {a, b} && Identity(c) in {a, b} + {Identity(c)};
    JoinsIff(c, a, b);
    JoinsIff(c, Identity(c), b);
    EqualOnLiterals(a, b);
  }

  /** Two plain operands stay, and beside the constant one does. */
  lemma {:induction false} PlainPairStays(c: Conn, a: Expr, b: Expr)
    requires Plain(c, {a, b})
    ensures a != b ==> EliminateDups(Bin(c, a, b)) == Bin(c, a, b)
    ensures EliminateDups(Bin(c, Identity(c), b)) == b
  {
    PlainPair(c, a, b);
    assert EliminateYN(a) == a && EliminateYN(b) == b && EliminateYN(Identity(c)) == Identity(c);
    assert Round(c, Identity(c), b) == (b, 0);
    if a != b { assert Round(c, a, b) == (Bin(c, a, b), 0); }
  }

  /** A && A comes to A. */
  lemma {:induction false} RepeatedOperandGoes(c: Conn, a: Expr)
    requires Plain(c, {a})
    ensures EliminateDups(Bin(c, a, a)) == a
  {
    assert {a, a} == {a};
    PlainPair(c, a, a);
    assert EliminateYN(a) == a && EliminateYN(Bin(c, Identity(c), a)) == a;
    assert Round(c, a, a) == (a, 1);
  }

  /** The first round takes the earlier A out, ... */
  lemma {:induction false} RoundOfThree(c: Conn, a: Expr, b: Expr)
    requires Plain(c, {a, b}) && a != b
    ensures Round(c, Bin(c, a, b), a) == (Bin(c, Bin(c, Identity(c), b), a), 1)
  {
    var k := Identity(c);
    assert {b, a} == {a, b};
    PlainPair(c, a, b);
    PlainPair(c, b, a);
    SamePair(c, a, b);
    assert JoinOperands(c, Bin(c, a, b), a) == (Bin(c, k, b), a, 1);
    assert EliminateYN(a) == a && EliminateYN(b) == b && EliminateYN(Bin(c, k, b)) == b;
  }

  lemma SamePair(c: Conn, a: Expr, b: Expr)
    requires Plain(c, {a, b})
    ensures JoinOperands(c, a, a) == (Identity(c), a, 1)
  {
    assert a in {a, b};
    JoinsIff(c, a, a);
    EqualOnLiterals(a, a);
  }

  /** ... and the second leaves the two that remain. */
  lemma {:induction false} RoundOfTwo(c: Conn, a: Expr, b: Expr)
    requires Plain(c, {a, b}) && a != b
    ensures EliminateDups(Bin(c, Bin(c, Identity(c), b), a)) == Bin(c, b, a)
  {
    assert {b, a} == {a, b};
    PlainPair(c, b, a);
    PlainPairStays(c, a, b);
    assert EliminateYN(a) == a && EliminateYN(b) == b;
    assert Round(c, b, a) == (Bin(c, b, a), 0);
  }

  /** A || B || A loses its first A. */
  lemma {:induction false} EarlierOperandGoes(c: Conn, a: Expr, b: Expr)
    requires Plain(c, {a, b}) && a != b
    ensures EliminateDups(Bin(c, Bin(c, a, b), a)) == Bin(c, b, a)
  {
    PlainPairStays(c, a, b);
    RoundOfThree(c, a, b);
    RoundOfTwo(c, a, b);
    assert !a.Bin? by { assert a in {a, b}; }
  }
}
