/** What equality of expressions decides: trees without constant operands are equal exactly
    when they have the same key, in which operands stand without order and bracketing, at
    every depth. Constants deeper down can make it fail to be transitive. */
module EqualKeys {
  import opened Symbols
  import opened Exprs
  import opened ExprEq

  /** A tree of one connective is the multiset of its operands' keys. */
  datatype Key =
    | KSym(s: Symbol)
    | KComp(op: Cmp, a: Symbol, b: Symbol)
    | KNot(k: Key)
    | KMany(c: Conn, operands: multiset<Key>)

  function KeyOf(e: Expr): Key
    decreases e, 1
  {
    match e
    case Sym(s) => KSym(s)
    case Comp(op, a, b) => KComp(op, a, b)
    case Not(x) => KNot(KeyOf(x))
    case Bin(c, _, _) => KMany(c, OperandKeys(c, e))
  }

  function OperandKeys(c: Conn, e: Expr): multiset<Key>
    decreases e, if IsConn(c, e) then 0 else 2
  {
    if IsConn(c, e) then OperandKeys(c, e.l) + OperandKeys(c, e.r)
    else if IsYN(e) then multiset{}
    else multiset{KeyOf(e)}
  }

  /** Neither y nor n is an operand, here or anywhere below. */
  predicate Clean(e: Expr) {
    match e
    case Bin(_, l, r) => !IsYN(l) && !IsYN(r) && Clean(l) && Clean(r)
    case Not(x) => Clean(x)
    case _ => true
  }

  /** Half way through cancelling: clean operands, some replaced by the constant. */
  predicate HalfClean(c: Conn, e: Expr) {
    if IsConn(c, e) then HalfClean(c, e.l) && HalfClean(c, e.r) else e == Identity(c) || (Clean(e) && !IsYN(e))
  }

  lemma {:induction false} CleanIsNormal(e: Expr)
    requires Clean(e)
    ensures EliminateYN(e) == e
  {
    if e.Bin? {
      CleanIsNormal(e.l);
      CleanIsNormal(e.r);
    }
  }

  lemma {:induction false} CleanIsHalfClean(c: Conn, e: Expr)
    requires Clean(e) && !IsYN(e)
    ensures HalfClean(c, e)
  {
    if IsConn(c, e) {
      CleanIsHalfClean(c, e.l);
      CleanIsHalfClean(c, e.r);
    }
  }

  lemma LeafKeys(c: Conn, e: Expr)
    requires !IsConn(c, e)
    ensures OperandKeys(c, e) == if IsYN(e) then multiset{} else multiset{KeyOf(e)}
  {
  }

  lemma NodeKeys(c: Conn, e: Expr)
    requires IsConn(c, e)
    ensures OperandKeys(c, e) == OperandKeys(c, e.l) + OperandKeys(c, e.r)
  {
  }

  /** What is left of operands with the keys: the constant if there are none, and no
      other constant. */
  ghost predicate LeftOf(c: Conn, keys: multiset<Key>, r: Expr, k: Key) {
    r != Absorber(c) && (r == Identity(c) <==> keys == multiset{}) && (r.Sym? && r != Identity(c) ==> keys == multiset{k})
  }

  lemma LeftOfBoth(c: Conn, ml: multiset<Key>, mr: multiset<Key>, l: Expr, r: Expr, e: Expr, kl: Key, kr: Key)
    requires LeftOf(c, ml, l, kl) && LeftOf(c, mr, r, kr) && e.Bin?
    ensures l == Identity(c) ==> LeftOf(c, ml + mr, r, kr)
    ensures l != Identity(c) && r == Identity(c) ==> LeftOf(c, ml + mr, l, kl)
    ensures l != Identity(c) && r != Identity(c) ==> LeftOf(c, ml + mr, e, kl)
  {
    if l == Identity(c) {
      assert ml + mr == mr;
    } else if r == Identity(c) {
      assert ml + mr == ml;
    } else {
      assert ml <= ml + mr;
      assert ml + mr != multiset{};
    }
  }

  /** What is left of a tree is the constant if all operands are gone, and else no constant. */
  lemma {:induction false} EliminateYNOfHalfClean(c: Conn, e: Expr)
    requires HalfClean(c, e)
    ensures LeftOf(c, OperandKeys(c, e), EliminateYN(e), KeyOf(EliminateYN(e)))
  {
    if IsConn(c, e) {
      var l, r := EliminateYN(e.l), EliminateYN(e.r);
      EliminateYNOfHalfClean(c, e.l);
      EliminateYNOfHalfClean(c, e.r);
      NodeKeys(c, e);
      LeftOfBoth(c, OperandKeys(c, e.l), OperandKeys(c, e.r), l, r, e, KeyOf(l), KeyOf(r));
      assert EliminateYN(e) == if l == Identity(c) then r else if r == Identity(c) then l else e;
    } else {
      LeafKeys(c, e);
      if e != Identity(c) { CleanIsNormal(e); }
    }
  }

  ghost predicate CancelsKeys(c: Conn, e1: Expr, e2: Expr, a: Expr, b: Expr) {
    HalfClean(c, a) && HalfClean(c, b) &&
    OperandKeys(c, a) == OperandKeys(c, e1) - OperandKeys(c, e2) &&
    OperandKeys(c, b) == OperandKeys(c, e2) - OperandKeys(c, e1)
  }

  lemma NodeCancels(c: Conn, l: Expr, r: Expr, x: Expr, l': Expr, r': Expr, x': Expr, x'': Expr)
    requires CancelsKeys(c, l, x, l', x') && CancelsKeys(c, r, x', r', x'')
    ensures CancelsKeys(c, Bin(c, l, r), x, Bin(c, l', r'), x'') && CancelsKeys(c, x, Bin(c, l, r), x'', Bin(c, l', r'))
  {
    NodeKeys(c, Bin(c, l, r));
    NodeKeys(c, Bin(c, l', r'));
    DifferenceOfSum(OperandKeys(c, l), OperandKeys(c, r), OperandKeys(c, x));
  }

  lemma CancelsBothWays(c: Conn, e1: Expr, e2: Expr, a: Expr, b: Expr)
    requires CancelsKeys(c, e1, e2, a, b)
    ensures CancelsKeys(c, e2, e1, b, a)
  {
  }

  lemma {:induction false} CancelKeys(c: Conn, e1: Expr, e2: Expr)
    requires HalfClean(c, e1) && HalfClean(c, e2)
    ensures CancelsKeys(c, e1, e2, CancelCommon(c, e1, e2).0, CancelCommon(c, e1, e2).1)
    decreases Size(e1) + Size(e2), if IsConn(c, e1) || IsConn(c, e2) then 0 else 4
  {
    if IsConn(c, e1) {
      var (l, e2') := CancelCommon(c, e1.l, e2);
      var (r, e2'') := CancelCommon(c, e1.r, e2');
      CancelKeys(c, e1.l, e2);
      CancelKeys(c, e1.r, e2');
      CancelLeft(c, e1, e2);
      NodeCancels(c, e1.l, e1.r, e2, l, r, e2', e2'');
    } else if IsConn(c, e2) {
      var (e1', l) := CancelCommon(c, e1, e2.l);
      var (e1'', r) := CancelCommon(c, e1', e2.r);
      CancelKeys(c, e1, e2.l);
      CancelKeys(c, e1', e2.r);
      CancelRight(c, e1, e2);
      CancelsBothWays(c, e1, e2.l, e1', l);
      CancelsBothWays(c, e1', e2.r, e1'', r);
      NodeCancels(c, e2.l, e2.r, e1, l, r, e1', e1'');
    } else {
      CancelLeafKeys(c, e1, e2);
    }
  }

  lemma {:induction false} CancelLeafKeys(c: Conn, e1: Expr, e2: Expr)
    requires !IsConn(c, e1) && !IsConn(c, e2) && HalfClean(c, e1) && HalfClean(c, e2)
    ensures CancelsKeys(c, e1, e2, CancelCommon(c, e1, e2).0, CancelCommon(c, e1, e2).1)
    decreases Size(e1) + Size(e2), 3
  {
    EqualIffSameKey(e1, e2);
    if Equal(e1, e2) {
      KeyOfConstant(e1, e2);
      EqualLeaves(c, e1, e2);
    } else {
      UnequalLeaves(c, e1, e2);
    }
    LeavesCancelled(c, e1, e2);
  }

  lemma {:induction false} LeavesCancelled(c: Conn, e1: Expr, e2: Expr)
    requires !IsConn(c, e1) && !IsConn(c, e2)
    ensures CancelCommon(c, e1, e2) == if Equal(e1, e2) && !(e1 == e2 && IsYN(e1)) then (Identity(c), Identity(c)) else (e1, e2)
  {
  }

  lemma {:induction false} EqualLeaves(c: Conn, e1: Expr, e2: Expr)
    requires !IsConn(c, e1) && !IsConn(c, e2) && HalfClean(c, e1) && HalfClean(c, e2) && KeyOf(e1) == KeyOf(e2)
    requires IsYN(e1) || IsYN(e2) ==> e1 == e2
    ensures e1 == e2 && IsYN(e1) ==> CancelsKeys(c, e1, e2, e1, e2)
    ensures !(e1 == e2 && IsYN(e1)) ==> CancelsKeys(c, e1, e2, Identity(c), Identity(c))
  {
    LeafKeys(c, e1);
    LeafKeys(c, e2);
    LeafKeys(c, Identity(c));
  }

  lemma {:induction false} UnequalLeaves(c: Conn, e1: Expr, e2: Expr)
    requires !IsConn(c, e1) && !IsConn(c, e2) && HalfClean(c, e1) && HalfClean(c, e2) && KeyOf(e1) != KeyOf(e2)
    ensures CancelsKeys(c, e1, e2, e1, e2)
  {
    LeafKeys(c, e1);
    LeafKeys(c, e2);
    SingleKeys(KeyOf(e1), KeyOf(e2));
  }

  lemma SingleKeys(k1: Key, k2: Key)
    requires k1 != k2
    ensures multiset{k1} - multiset{k2} == multiset{k1} && multiset{k2} - multiset{k1} == multiset{k2}
  {
  }

  lemma KeyOfConstant(e1: Expr, e2: Expr)
    requires KeyOf(e1) == KeyOf(e2)
    ensures IsYN(e1) || IsYN(e2) ==> e1 == e2
  {
  }

  /** Two clean trees are equal exactly when their keys are the same. */
  lemma {:induction false} EqualIffSameKey(e1: Expr, e2: Expr)
    requires Clean(e1) && Clean(e2)
    ensures Equal(e1, e2) <==> KeyOf(e1) == KeyOf(e2)
    decreases Size(e1) + Size(e2), 2
  {
    match (e1, e2)
    case (Not(x1), Not(x2)) => EqualIffSameKey(x1, x2);
    case (Bin(c1, _, _), Bin(c2, _, _)) => if c1 == c2 { ManyEqualIff(c1, e1, e2); }
    case _ =>
  }

  lemma {:induction false} ManyEqualIff(c: Conn, e1: Expr, e2: Expr)
    requires IsConn(c, e1) && IsConn(c, e2) && Clean(e1) && Clean(e2)
    ensures Equal(e1, e2) <==> OperandKeys(c, e1) == OperandKeys(c, e2)
    decreases Size(e1) + Size(e2), 1
  {
    var (a, b) := CancelCommon(c, e1, e2);
    CleanIsHalfClean(c, e1);
    CleanIsHalfClean(c, e2);
    CancelKeys(c, e1, e2);
    EliminateYNOfHalfClean(c, a);
    EliminateYNOfHalfClean(c, b);
    EliminateEqUnderOne(c, e1, e2);
    DisjointDifferences(OperandKeys(c, e1), OperandKeys(c, e2));
  }

  /** So on clean trees equality is an equivalence. */
  lemma EqualIsEquivalence(e1: Expr, e2: Expr, e3: Expr)
    requires Clean(e1) && Clean(e2) && Clean(e3)
    ensures Equal(e1, e1) && (Equal(e1, e2) <==> Equal(e2, e1)) && (Equal(e1, e2) && Equal(e2, e3) ==> Equal(e1, e3))
  {
    EqualIffSameKey(e1, e1);
    EqualIffSameKey(e1, e2);
    EqualIffSameKey(e2, e1);
    EqualIffSameKey(e2, e3);
    EqualIffSameKey(e1, e3);
  }

  /** With constants below it is not transitive: A && (n || n) equals B && n, and that
      equals B && (n || n), but the first does not equal the last. */
  lemma {:induction false} EqualIsNotTransitive(a: Symbol, b: Symbol)
    requires a.Config? && b.Config? && a != b
    ensures var k := Bin(Or, Sym(No), Sym(No));
      var e1, e2, e3 := Bin(And, Sym(a), k), Bin(And, Sym(b), Sym(No)), Bin(And, Sym(b), k);
      Equal(e1, e2) && Equal(e2, e3) && !Equal(e1, e3)
  {
    var k := Bin(Or, Sym(No), Sym(No));
    var n, y := Sym(No), Sym(Yes);
    var e1, e2, e3 := Bin(And, Sym(a), k), Bin(And, Sym(b), n), Bin(And, Sym(b), k);
    AbsorbedPair(a, b, k);
    EliminateEqUnderOne(And, e1, e2);
    EliminateEqUnderOne(And, e2, e3);
    EliminateEqUnderOne(And, e1, e3);
    CancelPair(Sym(a), k, Sym(b), n);
    CancelPair(Sym(b), n, Sym(b), k);
    CancelPair(Sym(a), k, Sym(b), k);
    assert EliminateYN(k) == n;
  }

  /** Cancelling A && X against B && Y, one operand at a time. */
  lemma CancelPair(a: Expr, x: Expr, b: Expr, y: Expr)
    requires !IsConn(And, a) && !IsConn(And, x) && !IsConn(And, b) && !IsConn(And, y)
    ensures var (a1, b1) := CancelCommon(And, a, b);
      var (a2, y1) := CancelCommon(And, a1, y);
      var (x1, b2) := CancelCommon(And, x, b1);
      var (x2, y2) := CancelCommon(And, x1, y1);
      CancelCommon(And, Bin(And, a, x), Bin(And, b, y)) == (Bin(And, a2, x2), Bin(And, b2, y2))
  {
    var (a1, b1) := CancelCommon(And, a, b);
    var (a2, y1) := CancelCommon(And, a1, y);
    CancelRight(And, a, Bin(And, b, y));
    CancelRight(And, x, Bin(And, b1, y1));
    CancelLeft(And, Bin(And, a, x), Bin(And, b, y));
  }

  lemma AbsorbedPair(a: Symbol, b: Symbol, k: Expr)
    requires a.Config? && b.Config? && a != b && k == Bin(Or, Sym(No), Sym(No))
    ensures var n, y := Sym(No), Sym(Yes);
      CancelCommon(And, Sym(a), Sym(b)) == (Sym(a), Sym(b)) && CancelCommon(And, Sym(a), n) == (Sym(a), n) &&
      CancelCommon(And, Sym(a), k) == (Sym(a), k) && CancelCommon(And, Sym(b), Sym(b)) == (y, y) &&
      CancelCommon(And, k, Sym(b)) == (k, Sym(b)) && CancelCommon(And, k, n) == (k, n) && CancelCommon(And, k, k) == (y, y) &&
      CancelCommon(And, n, k) == (n, k) && CancelCommon(And, y, k) == (y, k) && CancelCommon(And, n, y) == (n, y)
  {
    assert CancelCommon(Or, Sym(No), Sym(No)) == (Sym(No), Sym(No));
    CancelRight(Or, Sym(No), k);
    CancelLeft(Or, k, k);
    assert CancelCommon(Or, k, k) == (k, k);
    EliminateEqUnderOne(Or, k, k);
    assert EliminateYN(k) == Sym(No);
    assert Equal(k, k);
  }
}
