/** The simplifier as the source runs it: operand pairs are rewritten in place and a
    shared counter tells the fixpoint loop whether anything was joined. Each method
    computes the function of the same name and says what it does to the counter. */
module Rewriter {
  import opened Symbols
  import opened Exprs
  import E = ExprEq
  import D = ExprDups

  class Rewriter {
    var transCount: nat

    constructor ()
      ensures transCount == 0
    {
      transCount := 0;
    }

    method CancelCommon(c: Conn, ep1: Expr, ep2: Expr) returns (r1: Expr, r2: Expr)
      modifies this
      ensures (r1, r2) == E.CancelCommon(c, ep1, ep2)
      ensures transCount >= old(transCount)
      decreases Size(ep1) + Size(ep2), if E.IsConn(c, ep1) || E.IsConn(c, ep2) then 0 else 3
    {
      r1, r2 := ep1, ep2;
      if E.IsConn(c, r1) {
        var l, r := r1.l, r1.r;
        l, r2 := CancelCommon(c, l, r2);
        r, r2 := CancelCommon(c, r, r2);
        r1 := Bin(c, l, r);
        return;
      }
      if E.IsConn(c, r2) {
        var l, r := r2.l, r2.r;
        r1, l := CancelCommon(c, r1, l);
        r1, r := CancelCommon(c, r1, r);
        r2 := Bin(c, l, r);
        return;
      }
      if r1 == r2 && IsYN(r1) {
        return;
      }
      var same := Equal(r1, r2);
      if !same {
        return;
      }
      transCount := transCount + 1;
      r1, r2 := Identity(c), Identity(c);
    }

    method EliminateEq(ep1: Expr, ep2: Expr) returns (r1: Expr, r2: Expr)
      modifies this
      ensures (r1, r2) == E.EliminateEq(ep1, ep2)
      ensures transCount >= old(transCount)
      decreases Size(ep1) + Size(ep2), 1
    {
      r1, r2 := ep1, ep2;
      if r1.Bin? {
        r1, r2 := CancelCommon(r1.c, r1, r2);
      }
      if r2.Bin? && !E.IsConn(r2.c, r1) {
        r1, r2 := CancelCommon(r2.c, r1, r2);
      }
      r1, r2 := EliminateYN(r1), EliminateYN(r2);
    }

    /** The comparison leaves the counter as it found it. */
    method Equal(e1: Expr, e2: Expr) returns (res: bool)
      modifies this
      ensures res == E.Equal(e1, e2)
      ensures transCount == old(transCount)
      decreases Size(e1) + Size(e2), 2
    {
      match (e1, e2)
      case (Comp(op1, a1, b1), Comp(op2, a2, b2)) => return op1 == op2 && a1 == a2 && b1 == b2;
      case (Sym(s1), Sym(s2)) => return s1 == s2;
      case (Not(x1), Not(x2)) => res := Equal(x1, x2);
      case (Bin(c1, _, _), Bin(c2, _, _)) =>
        if c1 != c2 {
          return false;
        }
        var oldCount := transCount;
        var a, b := EliminateEq(e1, e2);
        res := a.Sym? && b.Sym? && a.s == b.s;
        transCount := oldCount;
      case _ => return false;
    }

    /** The test for equality comes first, and leaves the counter alone. */
    method JoinOr(e1: Expr, e2: Expr) returns (r: Option<Expr>)
      modifies this
      ensures r == D.JoinOr(e1, e2) && transCount == old(transCount)
    {
      var same := Equal(e1, e2);
      r := if same then Some(e1) else D.OrTable(e1, e2);
    }

    method JoinAnd(e1: Expr, e2: Expr) returns (r: Option<Expr>)
      modifies this
      ensures r == D.JoinAnd(e1, e2) && transCount == old(transCount)
    {
      var same := Equal(e1, e2);
      r := if same then Some(e1) else D.AndTable(e1, e2);
    }

    /** Two operands that can be joined leave the constant of the connective and what
        they come to. */
    method JoinLeaves(c: Conn, ep1: Expr, ep2: Expr) returns (r1: Expr, r2: Expr)
      requires !E.IsConn(c, ep1) && !E.IsConn(c, ep2)
      modifies this
      ensures r1 == D.JoinOperands(c, ep1, ep2).0
      ensures r2 == D.JoinOperands(c, ep1, ep2).1
      ensures transCount == old(transCount) + D.JoinOperands(c, ep1, ep2).2
    {
      r1, r2 := ep1, ep2;
      var tmp;
      match c {
        case Or => tmp := JoinOr(r1, r2);
        case And => tmp := JoinAnd(r1, r2);
      }
      if tmp.Some? {
        r1, r2 := Identity(c), tmp.value;
        transCount := transCount + 1;
      }
    }

    /** The counter goes up by the number of joins, and by nothing that comparing the
        operands does on the way. */
    method JoinOperands(c: Conn, ep1: Expr, ep2: Expr) returns (r1: Expr, r2: Expr)
      modifies this
      ensures r1 == D.JoinOperands(c, ep1, ep2).0
      ensures r2 == D.JoinOperands(c, ep1, ep2).1
      ensures transCount == old(transCount) + D.JoinOperands(c, ep1, ep2).2
      decreases Size(ep1) + Size(ep2)
    {
      r1, r2 := ep1, ep2;
      SizePositive(ep1);
      if E.IsConn(c, r1) {
        var l, r := r1.l, r1.r;
        l, r2 := JoinOperands(c, l, r2);
        SizePositive(l);
        r, r2 := JoinOperands(c, r, r2);
        r1 := Bin(c, l, r);
        return;
      }
      if E.IsConn(c, r2) {
        var l, r := r2.l, r2.r;
        SizePositive(l);
        SizePositive(r);
        r1, l := JoinOperands(c, r1, l);
        r1, r := JoinOperands(c, r1, r);
        r2 := Bin(c, l, r);
        return;
      }
      r1, r2 := JoinLeaves(c, r1, r2);
    }

    /** Rounds repeat until one makes no join; nested calls leave the counter alone. */
    method EliminateDups(e: Option<Expr>) returns (r: Option<Expr>)
      modifies this
      ensures r == D.EliminateDupsOpt(e)
      ensures transCount == old(transCount)
      decreases if e.None? then 0 else Weight(e.value), if e.None? then 0 else Size(e.value)
    {
      if e.None? {
        return None;
      }
      var oldCount := transCount;
      var cur := e.value;
      var again := true;
      while again
        invariant D.EliminateDups(cur) == D.EliminateDups(e.value)
        invariant !again ==> D.EliminateDups(e.value) == cur
        invariant Weight(cur) <= Weight(e.value) && Size(cur) <= Size(e.value)
        decreases again, Weight(cur), Size(cur), D.RightConst(cur)
      {
        transCount := 0;
        ghost var before := cur;
        if cur.Bin? {
          var l := EliminateDups(Some(cur.l));
          var r := EliminateDups(Some(cur.r));
          D.RoundShrinks(cur.c, cur.l, cur.r, l.value, r.value);
          var a, b := JoinOperands(cur.c, l.value, r.value);
          cur := Bin(cur.c, a, b);
        }
        cur := EliminateYN(cur);
        D.EliminateDupsIsIdempotent(before);
        again := transCount != 0;
      }
      transCount := oldCount;
      r := Some(cur);
    }
  }
}
