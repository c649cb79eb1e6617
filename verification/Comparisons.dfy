/** What the comparisons of an expression mean, in terms of the numbers that the texts of
    the two symbols spell. */
module Comparisons {
  import opened Symbols
  import opened ConfFile
  import opened Exprs

  // ----- the number a text spells, digit by digit -----

  const LOWER: string := "0123456789abcdef"
  const UPPER: string := "0123456789ABCDEF"

  predicate IsDigit(c: char, d: nat) { d < 16 && (c == LOWER[d] || c == UPPER[d]) }

  /** The digits of `t` are those of `n`, leading zeros allowed. */
  predicate Spells(t: string, n: nat, base: nat)
    requires base > 0
    decreases |t|
  {
    t != "" && IsDigit(t[|t| - 1], n % base) && if |t| == 1 then n < base else Spells(t[..|t| - 1], n / base, base)
  }

  predicate SpellsInt(t: string, x: int) {
    if t != "" && t[0] == '-' then x <= 0 && Spells(t[1..], -x, 10) else x >= 0 && Spells(t, x, 10)
  }

  predicate HasHexPrefix(t: string) { |t| > 2 && t[0] == '0' && (t[1] == 'x' || t[1] == 'X') }

  predicate SpellsHex(t: string, x: int) {
    x >= 0 && if HasHexPrefix(t) then Spells(t[2..], x, 16) else Spells(t, x, 16)
  }

  /** A constant is hexadecimal with its prefix, octal with a leading zero, else decimal. */
  predicate SpellsMagnitude(t: string, n: nat) {
    if HasHexPrefix(t) then Spells(t[2..], n, 16) else Spells(t, n, if t != "" && t[0] == '0' then 8 else 10)
  }

  predicate SpellsConstant(t: string, x: int) {
    if t != "" && t[0] == '-' then x <= 0 && SpellsMagnitude(t[1..], -x) else x >= 0 && SpellsMagnitude(t, x)
  }

  lemma DigitIsItsValue(c: char, d: nat)
    requires d < 16
    ensures IsDigit(c, d) <==> DigitValue(c) == d
  {
    assert forall e :: 0 <= e < 10 ==> LOWER[e] == '0' + e as char && UPPER[e] == '0' + e as char;
    assert forall e :: 10 <= e < 16 ==> LOWER[e] == 'a' + (e - 10) as char && UPPER[e] == 'A' + (e - 10) as char;
  }

  lemma Division(q: nat, r: nat, n: nat, base: nat)
    requires base in {8, 10, 16} && r < base
    ensures q * base + r == n <==> q == n / base && r == n % base
  {
    if base == 8 {
      assert q * 8 + r == n <==> q == n / 8 && r == n % 8;
    } else if base == 10 {
      assert q * 10 + r == n <==> q == n / 10 && r == n % 10;
    } else {
      assert q * 16 + r == n <==> q == n / 16 && r == n % 16;
    }
  }

  lemma DigitsOneMore(front: string, last: char, base: nat)
    ensures AllDigits(front + [last], base) <==> AllDigits(front, base) && DigitValue(last) < base
    ensures DigitsValue(front + [last], base) == DigitsValue(front, base) * base + DigitValue(last)
  {
    var t := front + [last];
    assert t[..|t| - 1] == front;
    if AllDigits(t, base) {
      assert DigitValue(t[|t| - 1]) < base;
      forall i | 0 <= i < |front| ensures DigitValue(front[i]) < base { assert t[i] == front[i]; }
    }
  }

  /** Exactly the texts that spell a number are read, and as that number. */
  lemma {:induction false} SpelledValue(t: string, n: nat, base: nat)
    requires base in {8, 10, 16}
    ensures Spells(t, n, base) <==> t != "" && AllDigits(t, base) && DigitsValue(t, base) == n
    decreases |t|
  {
    if t != "" {
      var front, last := t[..|t| - 1], t[|t| - 1];
      assert t == front + [last];
      DigitsOneMore(front, last, base);
      DigitIsItsValue(last, n % base);
      if front != "" { SpelledValue(front, n / base, base); }
      if DigitValue(last) < base { Division(DigitsValue(front, base), DigitValue(last), n, base); }
    }
  }

  // ----- the number with which a symbol takes part in a comparison -----

  predicate Counts(s: Symbol, x: SymVal, n: int) {
    match TypeOf(s)
    case Boolean => n == x.tri
    case Trivalent => n == x.tri
    case Int => SpellsInt(x.str, n) && -TWO63 <= n < TWO63
    case Hex => SpellsHex(x.str, n) && n < TWO64
    case _ => SpellsConstant(x.str, n) && -TWO63 <= n < TWO63
  }

  lemma {:induction false} SpelledStart(t: string, n: nat, base: nat)
    requires base in {8, 10, 16} && Spells(t, n, base)
    ensures t != "" && DigitValue(t[0]) < base && t[0] != '-' && t[0] != '+' && !IsSpace(t[0]) && !HasHexPrefix(t)
    ensures t[0] == '0' && |t| > 1 ==> t[1] != 'x' && t[1] != 'X'
  {
    SpelledValue(t, n, base);
    assert DigitValue(t[0]) < base;
    if |t| > 1 { assert DigitValue(t[1]) < base; }
  }

  lemma SpelledIntIsRead(t: string, x: int)
    requires SpellsInt(t, x)
    ensures ReadSigned(t, 10) == if -TWO63 <= x < TWO63 then Signed(x) else NotNumber
  {
    var u := if t[0] == '-' then t[1..] else t;
    var n := if t[0] == '-' then -x else x;
    SpelledStart(u, n, 10);
    SpelledValue(u, n, 10);
    assert WholeNumber(t, 10) == (true, t[0] == '-', n);
  }

  lemma SpelledHexIsRead(t: string, x: int)
    requires SpellsHex(t, x)
    ensures ReadUnsigned(t) == if x < TWO64 then Unsigned(x) else NotNumber
  {
    if HasHexPrefix(t) {
      SpelledStart(t[2..], x, 16);
      SpelledValue(t[2..], x, 16);
    } else {
      SpelledStart(t, x, 16);
      SpelledValue(t, x, 16);
    }
    assert WholeNumber(t, 16) == (true, false, x);
  }

  lemma {:induction false} SpelledConstantIsRead(t: string, x: int)
    requires SpellsConstant(t, x)
    ensures ReadSigned(t, 0) == if -TWO63 <= x < TWO63 then Signed(x) else NotNumber
  {
    var u := if t[0] == '-' then t[1..] else t;
    var n := if t[0] == '-' then -x else x;
    if HasHexPrefix(u) {
      SpelledStart(u[2..], n, 16);
      SpelledValue(u[2..], n, 16);
    } else {
      SpelledStart(u, n, if u[0] == '0' then 8 else 10);
      SpelledValue(u, n, if u[0] == '0' then 8 else 10);
    }
    assert WholeNumber(t, 0) == (true, t[0] == '-', n);
  }

  lemma CountsIsRead(s: Symbol, x: SymVal, n: int)
    requires Counts(s, x, n)
    ensures ParseString(StringValue(s, x), TypeOf(s)) == if TypeOf(s).Hex? then Unsigned(n) else Signed(n)
    ensures if TypeOf(s).Hex? then 0 <= n < TWO64 else -TWO63 <= n < TWO63
  {
    match TypeOf(s)
    case Boolean => assert TriNumber(TriName(x.tri)) == x.tri;
    case Trivalent => assert TriNumber(TriName(x.tri)) == x.tri;
    case Int => SpelledIntIsRead(x.str, n);
    case Hex => SpelledHexIsRead(x.str, n);
    case _ => SpelledConstantIsRead(x.str, n);
  }

  lemma SmallIsUnsigned(p: Number)
    requires p.Signed? && 0 <= p.s < TWO63
    ensures AsUnsigned(p) == p.s
  {
  }

  lemma CountsCompare(a: Symbol, b: Symbol, x: SymVal, y: SymVal, m: int, n: int)
    requires Counts(a, x, m) && Counts(b, y, n) && !(TypeOf(a).String? && TypeOf(b).String?)
    requires TypeOf(a).Hex? || TypeOf(b).Hex? ==> m >= 0 && n >= 0
    ensures Compare(a, x, b, y) == Sign(m - n)
  {
    CountsIsRead(a, x, m);
    CountsIsRead(b, y, n);
    ReadCompare(a, b, x, y, m, n);
  }

  lemma ReadCompare(a: Symbol, b: Symbol, x: SymVal, y: SymVal, m: int, n: int)
    requires !(TypeOf(a).String? && TypeOf(b).String?)
    requires if TypeOf(a).Hex? then 0 <= m < TWO64 else -TWO63 <= m < TWO63
    requires if TypeOf(b).Hex? then 0 <= n < TWO64 else -TWO63 <= n < TWO63
    requires ParseString(StringValue(a, x), TypeOf(a)) == if TypeOf(a).Hex? then Unsigned(m) else Signed(m)
    requires ParseString(StringValue(b, y), TypeOf(b)) == if TypeOf(b).Hex? then Unsigned(n) else Signed(n)
    requires TypeOf(a).Hex? || TypeOf(b).Hex? ==> m >= 0 && n >= 0
    ensures Compare(a, x, b, y) == Sign(m - n)
  {
    var p, q := ParseString(StringValue(a, x), TypeOf(a)), ParseString(StringValue(b, y), TypeOf(b));
    if p.Signed? && m >= 0 { SmallIsUnsigned(p); }
    if q.Signed? && n >= 0 { SmallIsUnsigned(q); }
    assert !p.NotNumber? && !q.NotNumber?;
  }

  /** Two symbols that count as numbers, unless both are strings, stand in exactly the
      relations their numbers do; hexadecimal ones are compared with what is not negative. */
  lemma NumbersCompare(a: Symbol, b: Symbol, v: Valuation, m: int, n: int)
    requires Counts(a, v(a), m) && Counts(b, v(b), n) && !(TypeOf(a).String? && TypeOf(b).String?)
    requires TypeOf(a).Hex? || TypeOf(b).Hex? ==> m >= 0 && n >= 0
    ensures Eval(Comp(EQ, a, b), v) == Truth(m == n) && Eval(Comp(NE, a, b), v) == Truth(m != n)
    ensures Eval(Comp(LT, a, b), v) == Truth(m < n) && Eval(Comp(LE, a, b), v) == Truth(m <= n)
    ensures Eval(Comp(GT, a, b), v) == Truth(m > n) && Eval(Comp(GE, a, b), v) == Truth(m >= n)
  {
    CountsCompare(a, b, v(a), v(b), m, n);
  }

  /** Booleans and tristates stand in the relations n < m < y. */
  lemma TristatesCompare(a: Symbol, b: Symbol, v: Valuation)
    requires IsLogic(a) && IsLogic(b)
    ensures Eval(Comp(EQ, a, b), v) == YES <==> v(a).tri == v(b).tri
    ensures Eval(Comp(NE, a, b), v) == YES <==> v(a).tri != v(b).tri
    ensures Eval(Comp(LT, a, b), v) == YES <==> v(a).tri < v(b).tri
    ensures Eval(Comp(LE, a, b), v) == YES <==> v(a).tri <= v(b).tri
    ensures Eval(Comp(GT, a, b), v) == YES <==> v(a).tri > v(b).tri
    ensures Eval(Comp(GE, a, b), v) == YES <==> v(a).tri >= v(b).tri
  {
    NumbersCompare(a, b, v, v(a).tri, v(b).tri);
  }

  // ----- symbols compared by their texts -----

  /** At the first difference the smaller character decides; a beginning comes first. */
  ghost predicate TextBefore(s: string, t: string) {
    exists k :: 0 <= k <= |s| && k <= |t| && s[..k] == t[..k] && k < |t| && (k == |s| || s[k] < t[k])
  }

  lemma {:induction false} StrCmpIsOrder(s: string, t: string)
    ensures StrCmp(s, t) < 0 <==> TextBefore(s, t)
    ensures StrCmp(s, t) > 0 <==> TextBefore(t, s)
  {
    if s != "" && t != "" && s[0] == t[0] {
      StrCmpIsOrder(s[1..], t[1..]);
      TextBeforeMore(s, t);
      TextBeforeMore(t, s);
    } else {
      assert s[..0] == t[..0];
      assert forall k :: 0 < k <= |s| && k <= |t| ==> s[..k][0] == s[0] && t[..k][0] == t[0];
    }
  }

  lemma TextBeforeMore(s: string, t: string)
    requires s != "" && t != "" && s[0] == t[0]
    ensures TextBefore(s, t) <==> TextBefore(s[1..], t[1..])
  {
    if TextBefore(s[1..], t[1..]) {
      var k :| 0 <= k <= |s[1..]| && k <= |t[1..]| && s[1..][..k] == t[1..][..k] && k < |t[1..]| && (k == |s[1..]| || s[1..][k] < t[1..][k]);
      assert s[..k + 1] == [s[0]] + s[1..][..k] && t[..k + 1] == [t[0]] + t[1..][..k];
    }
    if TextBefore(s, t) {
      var k :| 0 <= k <= |s| && k <= |t| && s[..k] == t[..k] && k < |t| && (k == |s| || s[k] < t[k]);
      assert s[1..][..k - 1] == s[..k][1..] && t[1..][..k - 1] == t[..k][1..];
    }
  }

  /** A text that does not end in a digit of any base spells no number. */
  predicate EndsNoNumber(s: Symbol, t: string) {
    !IsLogic(s) && (t == "" || t[|t| - 1] !in LOWER + UPPER)
  }

  lemma {:induction false} SkipSpacesKeepsEnd(t: string)
    ensures SkipSpaces(t) == "" || (t != "" && SkipSpaces(t)[|SkipSpaces(t)| - 1] == t[|t| - 1])
  {
    if t != "" && IsSpace(t[0]) { SkipSpacesKeepsEnd(t[1..]); }
  }

  lemma {:induction false} NoNumberIsRead(s: Symbol, t: string)
    requires EndsNoNumber(s, t)
    ensures ParseString(t, TypeOf(s)) == NotNumber
  {
    if t != "" {
      var d := DigitValue(t[|t| - 1]);
      if d < 16 { DigitIsItsValue(t[|t| - 1], d); }
      assert d >= 16;
      SkipSpacesKeepsEnd(t);
    }
  }

  /** Two strings, or two symbols one of which holds no number, stand in the relations
      their texts do. */
  lemma TextsCompare(a: Symbol, b: Symbol, v: Valuation)
    requires (TypeOf(a).String? && TypeOf(b).String?) || EndsNoNumber(a, v(a).str) || EndsNoNumber(b, v(b).str)
    ensures var s, t := StringValue(a, v(a)), StringValue(b, v(b));
      Eval(Comp(EQ, a, b), v) == Truth(s == t) && Eval(Comp(NE, a, b), v) == Truth(s != t) &&
      Eval(Comp(LT, a, b), v) == Truth(TextBefore(s, t)) && Eval(Comp(LE, a, b), v) == Truth(!TextBefore(t, s)) &&
      Eval(Comp(GT, a, b), v) == Truth(TextBefore(t, s)) && Eval(Comp(GE, a, b), v) == Truth(!TextBefore(s, t))
  {
    var s, t := StringValue(a, v(a)), StringValue(b, v(b));
    if EndsNoNumber(a, v(a).str) { NoNumberIsRead(a, s); }
    if EndsNoNumber(b, v(b).str) { NoNumberIsRead(b, t); }
    assert Compare(a, v(a), b, v(b)) == StrCmp(s, t);
    StrCmpIsOrder(s, t);
  }

  // ----- the texts that are accepted as numbers -----

  /** An int is accepted exactly if it spells a number without needless zeros. */
  lemma ValidIntIff(t: string)
    ensures ValidInt(t) <==> (exists x :: SpellsInt(t, x)) && (SkipSign(t)[0] == '0' ==> |SkipSign(t)| == 1)
  {
    var u := SkipSign(t);
    if u != "" && AllDigits(u, 10) {
      var n: int := DigitsValue(u, 10);
      SpelledValue(u, n, 10);
      assert SpellsInt(t, if t[0] == '-' then -n else n);
    }
    forall x | SpellsInt(t, x) ensures u != "" && AllDigits(u, 10) {
      SpelledValue(u, if x < 0 then -x else x, 10);
    }
  }

  lemma ValidHexIff(t: string)
    ensures ValidHex(t) <==> exists x :: SpellsHex(t, x)
  {
    var u := if HasHexPrefix(t) then t[2..] else t;
    if ValidHex(t) {
      assert u == SkipHexPrefix(t);
      SpelledValue(u, DigitsValue(u, 16), 16);
      assert SpellsHex(t, DigitsValue(u, 16));
    }
    forall x | SpellsHex(t, x) ensures ValidHex(t) {
      SpelledValue(u, x, 16);
      SpelledStart(u, x, 16);
    }
  }

  // ----- numbers as the bounds of ranges are read -----

  lemma {:induction false} AllDigitsPrefix(t: string, base: nat)
    requires AllDigits(t, base)
    ensures DigitsPrefix(t, base) == t
  {
    if t != "" {
      assert DigitValue(t[0]) < base;
      forall i | 0 <= i < |t[1..]| ensures DigitValue(t[1..][i]) < base { assert t[1..][i] == t[i + 1]; }
      AllDigitsPrefix(t[1..], base);
    }
  }

  function Nearest(x: int): int { if x < -TWO63 then -TWO63 else if x >= TWO63 then TWO63 - 1 else x }

  lemma {:induction false} DigitsAreLeading(t: string, n: int, base: nat, negative: bool)
    requires n >= 0 && base in {10, 16} && Spells(t, n, base)
    ensures LeadingNumber(if negative then "-" + t else t, base) == Nearest(if negative then -n else n)
  {
    SpelledStart(t, n, base);
    SpelledValue(t, n, base);
    AllDigitsPrefix(t, base);
    assert ("-" + t)[1..] == t;
  }

  /** An accepted number is also read as the one it spells, or the nearest of 64 bits. */
  lemma LeadingIsSpelled(t: string, x: int)
    ensures SpellsInt(t, x) ==> LeadingNumber(t, 10) == Nearest(x)
    ensures SpellsHex(t, x) ==> LeadingNumber(t, 16) == Nearest(x)
  {
    if SpellsInt(t, x) {
      if t[0] == '-' {
        assert t == "-" + t[1..];
        DigitsAreLeading(t[1..], -x, 10, true);
      } else {
        DigitsAreLeading(t, x, 10, false);
      }
    }
    if SpellsHex(t, x) {
      if HasHexPrefix(t) { PrefixedIsLeading(t, x); } else { DigitsAreLeading(t, x, 16, false); }
    }
  }

  lemma {:induction false} PrefixedIsLeading(t: string, x: nat)
    requires HasHexPrefix(t) && Spells(t[2..], x, 16)
    ensures LeadingNumber(t, 16) == Nearest(x)
  {
    SpelledStart(t[2..], x, 16);
    SpelledValue(t[2..], x, 16);
    AllDigitsPrefix(t[2..], 16);
  }
}
