/** Lazy evaluation with a validity flag per symbol and a cached value per expression,
    proved against the equations of SymbolEval. */
module Evaluator {
  import opened Symbols
  import opened Exprs
  import opened SymbolEval

  /** The fields of a symbol that evaluation updates. */
  datatype Cell = Cell(curr: SymVal, visible: Tristate, dirDep: Tristate, revDep: Tristate, implied: Tristate, write: bool)

  const INITIAL: Cell := Cell(SymVal(NO, ""), NO, NO, NO, NO, false)

  datatype Query = AskSymbol(s: Symbol) | AskExpr(e: Expr) | ClearAll

  /** The answer the solution gives. */
  function Expected(q: Query, v: Valuation): Tristate {
    match q
    case AskSymbol(s) => v(s).tri
    case AskExpr(e) => Eval(e, v)
    case ClearAll => NO
  }

  /** The cell belongs to a symbol whose value has been computed. */
  ghost predicate Settled(k: Kconfig, s: Symbol, c: Cell, v: Valuation) {
    c.curr == v(s) && c.write == Written(k, s, v) &&
    (IsLogic(s) && !IsConst(s) ==> c.visible == Visible(k, s, v) && c.revDep == RevDep(k, s, v))
  }

  class Evaluator {
    var k: Kconfig
    var valid: set<Symbol>
    var cells: map<Symbol, Cell>
    var cache: map<Expr, Tristate>

    constructor (k: Kconfig)
      ensures this.k == k && valid == {} && cache == map[]
    {
      this.k := k;
      valid, cells, cache := {}, map[], map[];
    }

    /** Valid symbols hold their solution, except those still being computed; these
        are marked valid too and hold the placeholder a recursive call would see. */
    ghost predicate Correct(v: Valuation, busy: set<Symbol>)
      reads this
    {
      Solves(k, v) && busy <= valid <= cells.Keys &&
      (forall s :: s in valid && s !in busy ==> Settled(k, s, cells[s], v)) &&
      (forall e :: e in cache ==> cache[e] == Eval(e, v))
    }

    /** Nothing recorded for a valid symbol has been touched. */
    twostate predicate Advances()
      reads this
    {
      k == old(k) && old(valid) <= valid &&
      (forall s :: s in old(valid) && s in old(cells) ==> s in cells && cells[s] == old(cells[s]))
    }

    /** Nothing is touched but what is recorded for the symbol being computed. */
    twostate predicate AdvancesBut(s: Symbol)
      reads this
    {
      k == old(k) && old(valid) <= valid &&
      (forall b :: b in old(valid) && b in old(cells) && b != s ==> b in cells && cells[b] == old(cells[b]))
    }

    method CalcExpr(e: Expr, ghost v: Valuation, ghost rank: Symbol -> nat, ghost busy: set<Symbol>, ghost bound: nat)
      returns (t: Tristate)
      requires Correct(v, busy) && Ranked(k, rank)
      requires forall s :: s in SymbolsOf(e) ==> rank(s) < bound
      requires forall b :: b in busy ==> rank(b) >= bound
      modifies this
      ensures Correct(v, busy) && Advances() && t == Eval(e, v)
      decreases bound, 0, Size(e)
    {
      if e in cache {
        return cache[e];
      }
      match e
      case Sym(s) =>
        CalcSymbol(s, v, rank, busy);
        t := cells[s].curr.tri;
      case Not(x) =>
        t := CalcExpr(x, v, rank, busy, bound);
        t := Negate(t);
      case Bin(c, l, r) =>
        SizePositive(l);
        SizePositive(r);
        t := CalcExpr(l, v, rank, busy, bound);
        var u := CalcExpr(r, v, rank, busy, bound);
        t := Apply(c, t, u);
      case Comp(op, a, b) =>
        CalcSymbol(a, v, rank, busy);
        CalcSymbol(b, v, rank, busy);
        t := Truth(Holds(op, Compare(a, cells[a].curr, b, cells[b].curr)));
      cache := cache[e := t];
    }

    /** A missing expression is worth `missing`. */
    method CalcOpt(e: Option<Expr>, missing: Tristate,
                   ghost v: Valuation, ghost rank: Symbol -> nat, ghost busy: set<Symbol>, ghost bound: nat)
      returns (t: Tristate)
      requires Correct(v, busy) && Ranked(k, rank)
      requires forall s :: Mentions(e, s) ==> rank(s) < bound
      requires forall b :: b in busy ==> rank(b) >= bound
      modifies this
      ensures Correct(v, busy) && Advances() && t == if e.None? then missing else Eval(e.value, v)
      decreases bound, 1
    {
      if e.None? {
        return missing;
      }
      forall s | s in SymbolsOf(e.value) ensures rank(s) < bound { assert Mentions(e, s); }
      t := CalcExpr(e.value, v, rank, busy, bound);
    }

    /** The greatest condition of any prompt. */
    method CalcPrompts(s: Symbol, ghost v: Valuation, ghost rank: Symbol -> nat, ghost busy: set<Symbol>)
      returns (tri: Tristate)
      requires Correct(v, busy) && Ranked(k, rank)
      requires forall b :: b in busy ==> rank(b) >= rank(s)
      modifies this
      ensures Correct(v, busy) && Advances()
      ensures tri == PromptsValue(Def(k, s).prompts, v)
      decreases rank(s), 2
    {
      var ps := Def(k, s).prompts;
      tri := NO;
      var i := 0;
      while i < |ps|
        invariant 0 <= i <= |ps|
        invariant Correct(v, busy) && Advances()
        invariant tri == PromptsValue(ps[..i], v)
      {
        forall t | Mentions(ps[i], t) ensures rank(t) < rank(s) { assert DependsOn(Def(k, s), t); }
        var u := CalcOpt(ps[i], YES, v, rank, busy, rank(s));
        assert ps[..i + 1][..i] == ps[..i];
        tri := Max(tri, u);
        i := i + 1;
      }
      assert ps[..i] == ps;
    }

    /** Writes the fields of a symbol that is being computed. */
    method Store(s: Symbol, c: Cell, ghost v: Valuation, ghost busy: set<Symbol>)
      requires Correct(v, busy) && s in busy
      modifies `cells
      ensures Correct(v, busy) && cells == old(cells)[s := c]
    {
      cells := cells[s := c];
    }

    method CalcVisibility(s: Symbol, ghost v: Valuation, ghost rank: Symbol -> nat, ghost busy: set<Symbol>)
      requires Correct(v, busy) && Ranked(k, rank)
      requires s in busy && forall b :: b in busy ==> rank(b) >= rank(s)
      modifies this
      ensures Correct(v, busy) && AdvancesBut(s)
      ensures cells[s].visible == Visible(k, s, v) && cells[s].dirDep == DirDep(k, s, v)
      ensures cells[s].revDep == RevDep(k, s, v) && cells[s].implied == Implied(k, s, v)
      ensures cells[s].write == old(cells[s].write)
      decreases rank(s), 3
    {
      var tri := CalcPrompts(s, v, rank, busy);
      var visible := if tri == MOD && (!TypeOf(s).Trivalent? || k.modules == NO) then YES else tri;
      Store(s, cells[s].(visible := visible), v, busy);
      label visibleDone:
      var dir, rev, impl := CalcDependencies(s, v, rank, busy);
      assert cells[s] == old@visibleDone(cells[s]);
      Store(s, cells[s].(dirDep := Promote(k, s, dir), revDep := Promote(k, s, rev), implied := Promote(k, s, impl)), v, busy);
    }

    method CalcDependencies(s: Symbol, ghost v: Valuation, ghost rank: Symbol -> nat, ghost busy: set<Symbol>)
      returns (dir: Tristate, rev: Tristate, impl: Tristate)
      requires Correct(v, busy) && Ranked(k, rank) && forall b :: b in busy ==> rank(b) >= rank(s)
      modifies this
      ensures Correct(v, busy) && Advances()
      ensures dir == EvalOpt(Def(k, s).dirDep, v)
      ensures rev == EvalReverse(Def(k, s).revDep, v) && impl == EvalReverse(Def(k, s).implied, v)
      decreases rank(s), 2
    {
      var d := Def(k, s);
      forall t | Mentions(d.dirDep, t) || Mentions(d.revDep, t) || Mentions(d.implied, t) ensures rank(t) < rank(s) {
        assert DependsOn(d, t);
      }
      dir := CalcOpt(d.dirDep, YES, v, rank, busy, rank(s));
      rev := CalcOpt(d.revDep, NO, v, rank, busy, rank(s));
      impl := CalcOpt(d.implied, NO, v, rank, busy, rank(s));
    }

    /** Looks for the first default whose condition is not n. */
    method GetDefault(s: Symbol, ghost v: Valuation, ghost rank: Symbol -> nat, ghost busy: set<Symbol>)
      returns (p: Option<Default>, cond: Tristate)
      requires Correct(v, busy) && Ranked(k, rank)
      requires s in busy && forall b :: b in busy ==> rank(b) >= rank(s)
      modifies this
      ensures Correct(v, busy) && Advances()
      ensures p == ActiveDefault(Def(k, s).defaults, v) && (p.Some? ==> cond == EvalOpt(p.value.cond, v) && p.value in Def(k, s).defaults)
      decreases rank(s), 2
    {
      var ds := Def(k, s).defaults;
      var i := 0;
      while i < |ds|
        invariant 0 <= i <= |ds|
        invariant Correct(v, busy) && Advances()
        invariant ActiveDefault(ds, v) == ActiveDefault(ds[i..], v)
      {
        forall t | Mentions(ds[i].cond, t) ensures rank(t) < rank(s) { assert DependsOn(Def(k, s), t); }
        var t := CalcOpt(ds[i].cond, YES, v, rank, busy, rank(s));
        if t != NO {
          return Some(ds[i]), t;
        }
        assert ds[i..][1..] == ds[i + 1..];
        i := i + 1;
      }
      return None, NO;
    }

    method CalcTristate(s: Symbol, ghost v: Valuation, ghost rank: Symbol -> nat, ghost busy: set<Symbol>)
      returns (tri: Tristate, write: bool)
      requires Correct(v, busy) && Ranked(k, rank) && IsLogic(s) && !IsConst(s)
      requires s in busy && forall b :: b in busy ==> rank(b) >= rank(s)
      requires cells[s].visible == Visible(k, s, v) && cells[s].dirDep == DirDep(k, s, v)
      requires cells[s].revDep == RevDep(k, s, v) && cells[s].implied == Implied(k, s, v)
      modifies this
      ensures Correct(v, busy) && Advances()
      ensures SymVal(tri, "n") == Step(k, s, v) && (write && !s.Choice?) == Written(k, s, v)
      decreases rank(s), 3
    {
      var visible, rev := cells[s].visible, cells[s].revDep;
      var user := Def(k, s).user;
      tri, write := NO, visible != NO;
      if visible != NO && user.Some? {
        tri := Min(user.value.tri, visible);
      } else {
        if rev != NO {
          write := true;
        }
        if !s.Choice? {
          var p, cond := GetDefault(s, v, rank, busy);
          if p.Some? {
            forall t | t in SymbolsOf(p.value.value) ensures rank(t) < rank(s) { assert DependsOn(Def(k, s), t); }
            var t := CalcExpr(p.value.value, v, rank, busy, rank(s));
            tri := Min(t, cond);
            if tri != NO {
              write := true;
            }
          }
          var impl := cells[s].implied;
          if impl != NO {
            write := true;
            tri := Max(tri, impl);
            tri := Min(tri, cells[s].dirDep);
          }
        }
      }
      tri := Max(tri, rev);
      if tri == MOD && ActsBoolean(k, s) {
        tri := YES;
      }
    }

    method CalcString(s: Symbol, ghost v: Valuation, ghost rank: Symbol -> nat, ghost busy: set<Symbol>)
      returns (str: string, write: bool)
      requires Correct(v, busy) && Ranked(k, rank) && !IsLogic(s) && !IsConst(s) && !TypeOf(s).Unknown?
      requires s in busy && forall b :: b in busy ==> rank(b) >= rank(s)
      requires cells[s].visible == Visible(k, s, v)
      modifies this
      ensures Correct(v, busy) && Advances()
      ensures str == StringOf(k, s, v) && write == Written(k, s, v)
      decreases rank(s), 3
    {
      var visible, user := cells[s].visible, Def(k, s).user;
      str, write := InitialString(s), visible != NO;
      if visible != NO && user.Some? {
        str := user.value.str;
      } else {
        var p, _ := GetDefault(s, v, rank, busy);
        if p.Some? && p.value.value.Sym? {
          var ds := p.value.value.s;
          write := true;
          assert ds in SymbolsOf(p.value.value);
          assert DependsOn(Def(k, s), ds);
          CalcSymbol(ds, v, rank, busy);
          str := cells[ds].curr.str;
        }
      }
    }

    /** A call for a symbol that is being computed would return its placeholder; the
        ranks rule such a call out. */
    method CalcSymbol(s: Symbol, ghost v: Valuation, ghost rank: Symbol -> nat, ghost busy: set<Symbol>)
      requires Correct(v, busy) && Ranked(k, rank)
      requires forall b :: b in busy ==> rank(b) > rank(s)
      modifies this
      ensures Correct(v, busy) && Advances()
      ensures s in valid && s !in busy && cells[s].curr == v(s)
      decreases rank(s), 6
    {
      if s in valid {
        return;
      }
      if IsConst(s) || TypeOf(s).Unknown? {
        StoreConstant(s, v, busy);
      } else {
        Calculate(s, v, rank, busy);
      }
    }

    /** Constants and symbols without a type stand for their names. */
    method StoreConstant(s: Symbol, ghost v: Valuation, ghost busy: set<Symbol>)
      requires Correct(v, busy) && s !in valid && (IsConst(s) || TypeOf(s).Unknown?)
      modifies this
      ensures Correct(v, busy) && Advances()
      ensures s in valid && s !in busy && cells[s].curr == v(s)
    {
      assert v(s) == Step(k, s, v);
      valid := valid + {s};
      var cell := if s in cells then cells[s] else INITIAL;
      var text := match s case Yes => "y" case Mod => "m" case No => "n" case Quoted(t) => t case _ => s.name;
      var tri := match s case Yes => YES case Mod => MOD case _ => NO;
      cells := cells[s := cell.(curr := SymVal(tri, text), write := false)];
    }

    /** Marks a symbol valid before it is computed. */
    method Begin(s: Symbol, ghost v: Valuation, ghost busy: set<Symbol>)
      requires Correct(v, busy) && s !in valid
      modifies this
      ensures Correct(v, busy + {s}) && Advances() && valid == old(valid) + {s}
      ensures s in cells && !cells[s].write
    {
      valid := valid + {s};
      var cell := if s in cells then cells[s] else INITIAL;
      cells := cells[s := cell.(write := false)];
    }

    method Calculate(s: Symbol, ghost v: Valuation, ghost rank: Symbol -> nat, ghost busy: set<Symbol>)
      requires Correct(v, busy) && Ranked(k, rank) && s !in valid && !IsConst(s) && !TypeOf(s).Unknown?
      requires forall b :: b in busy ==> rank(b) > rank(s)
      modifies this
      ensures Correct(v, busy) && Advances()
      ensures s in valid && s !in busy && cells[s].curr == v(s)
      decreases rank(s), 5
    {
      assert v(s) == Step(k, s, v);
      ghost var busy' := busy + {s};
      Begin(s, v, busy);
      CalcVisibility(s, v, rank, busy');
      Store(s, cells[s].(curr := SymVal(NO, InitialString(s))), v, busy');
      if IsLogic(s) {
        CalculateTristate(s, v, rank, busy');
      } else {
        CalculateText(s, v, rank, busy');
      }
    }

    method CalculateTristate(s: Symbol, ghost v: Valuation, ghost rank: Symbol -> nat, ghost busy: set<Symbol>)
      requires Correct(v, busy) && Ranked(k, rank) && IsLogic(s) && !IsConst(s)
      requires s in busy && forall b :: b in busy ==> rank(b) >= rank(s)
      requires cells[s].visible == Visible(k, s, v) && cells[s].dirDep == DirDep(k, s, v)
      requires cells[s].revDep == RevDep(k, s, v) && cells[s].implied == Implied(k, s, v)
      modifies this
      ensures Correct(v, busy) && AdvancesBut(s) && Settled(k, s, cells[s], v)
      decreases rank(s), 4
    {
      assert v(s) == Step(k, s, v);
      var tri, write := CalcTristate(s, v, rank, busy);
      cells := cells[s := cells[s].(curr := SymVal(tri, "n"), write := write && !s.Choice?)];
    }

    method CalculateText(s: Symbol, ghost v: Valuation, ghost rank: Symbol -> nat, ghost busy: set<Symbol>)
      requires Correct(v, busy) && Ranked(k, rank) && !IsLogic(s) && !IsConst(s) && !TypeOf(s).Unknown?
      requires s in busy && forall b :: b in busy ==> rank(b) >= rank(s)
      requires cells[s].visible == Visible(k, s, v)
      modifies this
      ensures Correct(v, busy) && AdvancesBut(s) && Settled(k, s, cells[s], v)
      decreases rank(s), 4
    {
      assert v(s) == Step(k, s, v);
      var str, write := CalcString(s, v, rank, busy);
      cells := cells[s := cells[s].(curr := SymVal(NO, str), write := write)];
      label unchecked:
      str := ValidateRange(s, str, v, rank, busy);
      assert cells[s] == old@unchecked(cells[s]);
      cells := cells[s := cells[s].(curr := SymVal(NO, str))];
    }

    /** Replaces a number outside its range by the text of the bound. */
    method ValidateRange(s: Symbol, text: string, ghost v: Valuation, ghost rank: Symbol -> nat, ghost busy: set<Symbol>)
      returns (r: string)
      requires Correct(v, busy) && Ranked(k, rank)
      requires s in busy && forall b :: b in busy ==> rank(b) >= rank(s)
      modifies this
      ensures Correct(v, busy) && Advances()
      ensures r == Validated(k, s, text, v)
      decreases rank(s), 3
    {
      var ty := TypeOf(s);
      if !IsNumber(ty) {
        return text;
      }
      var range := GetRange(s, v, rank, busy);
      if range.None? {
        return text;
      }
      r := Clip(range.value, ty, text, v, rank, busy, rank(s));
    }

    method Clip(range: Range, ty: SymbolType, text: string, ghost v: Valuation, ghost rank: Symbol -> nat, ghost busy: set<Symbol>, ghost top: nat)
      returns (r: string)
      requires Correct(v, busy) && Ranked(k, rank) && rank(range.low) < top && rank(range.high) < top
      requires forall b :: b in busy ==> rank(b) >= top
      modifies this
      ensures Correct(v, busy) && Advances()
      ensures r == Clipped(range, ty, text, v)
      decreases top, 1
    {
      var val := LeadingNumber(text, BaseOf(ty));
      var bound := range.low;
      var limit := GetRangeValue(bound, ty, v, rank, busy, top);
      if val >= limit {
        bound := range.high;
        limit := GetRangeValue(bound, ty, v, rank, busy, top);
        if val <= limit {
          return text;
        }
      }
      r := cells[bound].curr.str;
    }

    method GetRangeValue(bound: Symbol, ty: SymbolType, ghost v: Valuation, ghost rank: Symbol -> nat, ghost busy: set<Symbol>, ghost top: nat)
      returns (x: int)
      requires Correct(v, busy) && Ranked(k, rank) && rank(bound) < top && forall b :: b in busy ==> rank(b) >= top
      modifies this
      ensures Correct(v, busy) && Advances()
      ensures x == BoundValue(bound, ty, v) && bound in cells && cells[bound].curr == v(bound)
      decreases top, 0
    {
      CalcSymbol(bound, v, rank, busy);
      x := LeadingNumber(cells[bound].curr.str, BaseOf(if IsNumber(TypeOf(bound)) then TypeOf(bound) else ty));
    }

    /** Looks for the first range whose condition is not n. */
    method GetRange(s: Symbol, ghost v: Valuation, ghost rank: Symbol -> nat, ghost busy: set<Symbol>)
      returns (p: Option<Range>)
      requires Correct(v, busy) && Ranked(k, rank)
      requires s in busy && forall b :: b in busy ==> rank(b) >= rank(s)
      modifies this
      ensures Correct(v, busy) && Advances()
      ensures p == ActiveRange(Def(k, s).ranges, v) && (p.Some? ==> RangeOf(k, s, p.value))
      decreases rank(s), 2
    {
      var rs := Def(k, s).ranges;
      for i := 0 to |rs|
        invariant Correct(v, busy) && Advances()
        invariant ActiveRange(rs, v) == ActiveRange(rs[i..], v)
      {
        forall t | Mentions(rs[i].cond, t) ensures rank(t) < rank(s) {
          assert RangeMentions(rs[i], t);
          assert DependsOn(Def(k, s), t);
        }
        var t := CalcOpt(rs[i].cond, YES, v, rank, busy, rank(s));
        if t != NO {
          assert RangeMentions(rs[i], rs[i].low) && RangeMentions(rs[i], rs[i].high);
          return Some(rs[i]);
        }
        assert rs[i..][1..] == rs[i + 1..];
      }
      return None;
    }

    /** Drops every validity flag and every cached value. */
    method ClearAllValid()
      modifies this
      ensures k == old(k) && valid == {} && cache == map[]
    {
      valid, cache := {}, map[];
    }

    /** Any sequence of queries is answered from the one solution, whatever was asked
        or cleared before. */
    method Answer(qs: seq<Query>, ghost v: Valuation, ghost rank: Symbol -> nat) returns (answers: seq<Tristate>)
      requires Correct(v, {}) && Ranked(k, rank)
      modifies this
      ensures Correct(v, {}) && k == old(k) && |answers| == |qs|
      ensures forall i :: 0 <= i < |qs| ==> answers[i] == Expected(qs[i], v)
    {
      answers := [];
      for i := 0 to |qs|
        invariant Correct(v, {}) && k == old(k) && |answers| == i
        invariant forall j :: 0 <= j < i ==> answers[j] == Expected(qs[j], v)
      {
        match qs[i]
        case AskSymbol(s) =>
          CalcSymbol(s, v, rank, {});
          answers := answers + [cells[s].curr.tri];
        case AskExpr(e) =>
          var t := CalcExpr(e, v, rank, {}, MaxRank(SymbolsOf(e), rank) + 1);
          answers := answers + [t];
        case ClearAll =>
          ClearAllValid();
          answers := answers + [NO];
      }
    }

    /** The new user value is refused outside the symbol's range. When it equals the
        current value nothing is recalculated, and everything computed so far is still
        right for the changed configuration; otherwise all of it is dropped. */
    method SetTristateValue(s: Symbol, val: Tristate, ghost v: Valuation) returns (ok: bool)
      requires Correct(v, {}) && s in valid && !IsConst(s) && !s.Choice? && IsLogic(s)
      modifies this
      ensures ok == WithinRange(old(k), s, val, v)
      ensures !ok ==> k == old(k) && Correct(v, {})
      ensures ok ==> k == SetUser(old(k), s, val) && Step(k, s, v) == SymVal(val, "n")
      ensures ok && val == v(s).tri ==> Correct(v, {}) && valid == old(valid)
      ensures ok && val != v(s).tri ==> valid == {} && cache == map[]
    {
      var cell := cells[s];
      ok := cell.visible != NO && !(ActsBoolean(k, s) && val == MOD) && cell.visible > cell.revDep &&
            cell.revDep <= val <= cell.visible;
      if !ok {
        return;
      }
      ValueInRangeIsTaken(k, s, val, v);
      if val == cell.curr.tri {
        SettingTheSameValueChangesNothing(k, s, v);
        forall x | x in valid
          ensures Settled(SetUser(k, s, val), x, cells[x], v)
        {
          SettledStaysSettled(k, s, val, x, cells[x], v);
        }
      }
      k := SetUser(k, s, val);
      if val != cell.curr.tri {
        ClearAllValid();
      }
    }
  }

  /** The range belongs to the symbol: it depends on the bounds. */
  ghost predicate RangeOf(k: Kconfig, s: Symbol, r: Range) {
    DependsOn(Def(k, s), r.low) && DependsOn(Def(k, s), r.high)
  }

  ghost function MaxRank(ss: set<Symbol>, rank: Symbol -> nat): (r: nat)
    ensures forall s :: s in ss ==> rank(s) <= r
  {
    if ss == {} then 0
    else
      var s :| s in ss;
      var r := MaxRank(ss - {s}, rank);
      if rank(s) > r then rank(s) else r
  }

  lemma SettledStaysSettled(k: Kconfig, s: Symbol, t: Tristate, x: Symbol, c: Cell, v: Valuation)
    requires Settled(k, x, c, v) && !IsConst(s) && Visible(k, s, v) != NO
    ensures Settled(SetUser(k, s, t), x, c, v)
  {
    var k' := SetUser(k, s, t);
    if x == s {
      assert Def(k', s).prompts == Def(k, s).prompts && Def(k', s).revDep == Def(k, s).revDep;
    } else {
      assert Def(k', x) == Def(k, x);
    }
  }
}
