/** Symbols of the Kconfig language, the values they hold, and how two symbols
    are compared inside an expression. */
module Symbols {

  // n < m < y, numbered as the source numbers them.
  type Tristate = t: int | 0 <= t <= 2

  const NO: Tristate := 0
  const MOD: Tristate := 1
  const YES: Tristate := 2

  function Min(a: Tristate, b: Tristate): Tristate { if a < b then a else b }

  function Max(a: Tristate, b: Tristate): Tristate { if a > b then a else b }

  function Negate(a: Tristate): Tristate { 2 - a }

  function Truth(b: bool): Tristate { if b then YES else NO }

  datatype SymbolType = Unknown | Boolean | Trivalent | Int | Hex | String

  /** `Yes`, `Mod` and `No` are the three static constants; `Quoted` is any other
      constant; `Config` a configuration symbol (`Unknown` when it is never
      defined); `Choice` the nameless symbol of a choice block. */
  datatype Symbol =
    | Yes | Mod | No
    | Quoted(text: string)
    | Config(name: string, ty: SymbolType)
    | Choice(id: nat)

  function TypeOf(s: Symbol): SymbolType {
    match s
    case Yes => Trivalent
    case Mod => Trivalent
    case No => Trivalent
    case Quoted(_) => Unknown
    case Config(_, ty) => ty
    case Choice(_) => Boolean
  }

  predicate IsConst(s: Symbol) { s.Yes? || s.Mod? || s.No? || s.Quoted? }

  /** The symbol may stand alone as an operand: its tristate field is its value. */
  predicate IsLogic(s: Symbol) { TypeOf(s).Boolean? || TypeOf(s).Trivalent? }

  datatype SymVal = SymVal(tri: Tristate, str: string)

  type Valuation = Symbol -> SymVal

  function TriName(t: Tristate): (r: string)
    ensures |r| == 1
  {
    if t == NO then "n" else if t == MOD then "m" else "y"
  }

  /** The string by which a symbol takes part in a comparison. */
  function StringValue(s: Symbol, x: SymVal): string {
    if IsLogic(s) then TriName(x.tri) else x.str
  }

  /** The value one symbol can hold on its own: the constants are fixed, a boolean
      is never m, and a symbol that is neither boolean nor tristate has tristate n. */
  predicate AdmissibleValue(s: Symbol, x: SymVal) {
    match s
    case Yes => x == SymVal(YES, "y")
    case Mod => x == SymVal(MOD, "m")
    case No => x == SymVal(NO, "n")
    case Quoted(text) => x == SymVal(NO, text)
    case Choice(_) => x.tri != MOD
    case Config(name, ty) =>
      (ty.Boolean? ==> x.tri != MOD) &&
      (!IsLogic(s) ==> x.tri == NO) &&
      (ty.Unknown? ==> x.str == name)
  }

  ghost predicate Admissible(v: Valuation) {
    forall s: Symbol :: AdmissibleValue(s, v(s))
  }

  // ----- numbers, as strtoll and strtoull read them -----

  datatype Number = NotNumber | Signed(s: int) | Unsigned(u: nat)

  const TWO63: int := 0x8000_0000_0000_0000
  const TWO64: int := 0x1_0000_0000_0000_0000

  predicate IsSpace(c: char) { c == ' ' || '\t' <= c <= '\r' }

  /** The digit's value, or 36 when the character is no digit in any base. */
  function DigitValue(c: char): (d: nat)
    ensures d <= 36
  {
    if '0' <= c <= '9' then c as int - '0' as int
    else if 'a' <= c <= 'z' then c as int - 'a' as int + 10
    else if 'A' <= c <= 'Z' then c as int - 'A' as int + 10
    else 36
  }

  predicate AllDigits(t: string, base: nat) { forall i :: 0 <= i < |t| ==> DigitValue(t[i]) < base }

  function DigitsValue(t: string, base: nat): nat {
    if t == [] then 0 else DigitsValue(t[..|t| - 1], base) * base + DigitValue(t[|t| - 1])
  }

  function SkipSpaces(t: string): string {
    if t != [] && IsSpace(t[0]) then SkipSpaces(t[1..]) else t
  }

  /** Base and digits of the unsigned part. Without a hexadecimal digit after it,
      "0x" is no prefix, and the 'x' then ends the number. */
  function BaseAndDigits(t: string, base: nat): (nat, string) {
    if (base == 16 || base == 0) && |t| > 2 && t[0] == '0' && (t[1] == 'x' || t[1] == 'X') && DigitValue(t[2]) < 16 then
      (16, t[2..])
    else if base != 0 then (base, t)
    else if t != [] && t[0] == '0' then (8, t)
    else (10, t)
  }

  /** The magnitude and sign of `t` when all of it is one number in `base`. */
  function WholeNumber(t: string, base: nat): (r: (bool, bool, nat)) {
    var t := SkipSpaces(t);
    var negative := t != [] && t[0] == '-';
    var t := if t != [] && (t[0] == '-' || t[0] == '+') then t[1..] else t;
    var (b, digits) := BaseAndDigits(t, base);
    if digits != [] && AllDigits(digits, b) then (true, negative, DigitsValue(digits, b)) else (false, false, 0)
  }

  predicate IsNumber(ty: SymbolType) { ty.Int? || ty.Hex? }

  function DigitsPrefix(t: string, base: nat): string {
    if t != [] && DigitValue(t[0]) < base then [t[0]] + DigitsPrefix(t[1..], base) else []
  }

  /** The number a text begins with, as strtoll reads it: 0 without digits, and the
      nearest 64-bit number when out of range. */
  function LeadingNumber(t: string, base: nat): (x: int)
    ensures -TWO63 <= x < TWO63
  {
    var t := SkipSpaces(t);
    var negative := t != [] && t[0] == '-';
    var t := if t != [] && (t[0] == '-' || t[0] == '+') then t[1..] else t;
    var (b, rest) := BaseAndDigits(t, base);
    var n := DigitsValue(DigitsPrefix(rest, b), b);
    var x := if negative then 0 - n else n as int;
    if x < -TWO63 then -TWO63 else if x >= TWO63 then TWO63 - 1 else x
  }

  function ReadSigned(t: string, base: nat): Number {
    var (whole, negative, magnitude) := WholeNumber(t, base);
    var x := if negative then 0 - magnitude else magnitude as int;
    if whole && -TWO63 <= x < TWO63 then Signed(x) else NotNumber
  }

  function ReadUnsigned(t: string): Number {
    var (whole, negative, magnitude) := WholeNumber(t, 16);
    if !whole || magnitude >= TWO64 then NotNumber
    else Unsigned(if negative && magnitude > 0 then TWO64 - magnitude else magnitude)
  }

  function ParseString(t: string, ty: SymbolType): Number {
    match ty
    case Boolean => Signed(TriNumber(t))
    case Trivalent => Signed(TriNumber(t))
    case Int => ReadSigned(t, 10)
    case Hex => ReadUnsigned(t)
    case _ => ReadSigned(t, 0)
  }

  function TriNumber(t: string): int {
    if t == "n" then 0 else if t == "m" then 1 else if t == "y" then 2 else -1
  }

  function Sign(x: int): int { if x < 0 then -1 else if x > 0 then 1 else 0 }

  function StrCmp(a: string, b: string): (r: int)
    ensures r == 0 <==> a == b
  {
    if a == [] && b == [] then 0
    else if a == [] then -1
    else if b == [] then 1
    else if a[0] != b[0] then Sign(a[0] as int - b[0] as int)
    else
      var r := StrCmp(a[1..], b[1..]);
      assert a == [a[0]] + a[1..] && b == [b[0]] + b[1..];
      r
  }

  function AsUnsigned(n: Number): int
    requires !n.NotNumber?
  {
    match n case Signed(s) => s % TWO64 case Unsigned(u) => u
  }

  /** Negative, zero or positive as the left symbol compares to the right one. */
  function Compare(l: Symbol, lx: SymVal, r: Symbol, rx: SymVal): int {
    var a, b := StringValue(l, lx), StringValue(r, rx);
    var parse := !(TypeOf(l).String? && TypeOf(r).String?);
    var m, n := if parse then ParseString(a, TypeOf(l)) else NotNumber,
                if parse then ParseString(b, TypeOf(r)) else NotNumber;
    if m.NotNumber? || n.NotNumber? then StrCmp(a, b)
    else if m.Unsigned? || n.Unsigned? then Sign(AsUnsigned(m) - AsUnsigned(n))
    else Sign(m.s - n.s)
  }

  /** Two symbols that hold tristates compare by their tristates. */
  lemma CompareLogic(l: Symbol, lx: SymVal, r: Symbol, rx: SymVal)
    requires IsLogic(l) && IsLogic(r)
    ensures Compare(l, lx, r, rx) == Sign(lx.tri - rx.tri)
  {
    assert TriNumber(TriName(lx.tri)) == lx.tri;
    assert TriNumber(TriName(rx.tri)) == rx.tri;
  }

  // ----- constants that a tristate can equal -----

  /** A tristate symbol holding `t` compares equal to the constant `c`. */
  predicate Denotes(t: Tristate, c: Symbol)
    requires IsConst(c)
  {
    match c
    case Yes => t == YES
    case Mod => t == MOD
    case No => t == NO
    case Quoted(text) =>
      var n := ParseString(text, Unknown);
      if n.NotNumber? then text == TriName(t) else n == Signed(t)
    case _ => false
  }

  lemma DenotesIsEquality(a: Symbol, ax: SymVal, c: Symbol, cx: SymVal)
    requires TypeOf(a).Trivalent? && IsConst(c) && AdmissibleValue(c, cx)
    ensures Compare(a, ax, c, cx) == 0 <==> Denotes(ax.tri, c)
  {
    if c.Quoted? {
      assert TriNumber(TriName(ax.tri)) == ax.tri;
    } else {
      CompareLogic(a, ax, c, cx);
    }
  }

  /** No tristate value equals both constants. */
  predicate Separate(b: Symbol, c: Symbol)
    requires IsConst(b) && IsConst(c)
  {
    !(Denotes(NO, b) && Denotes(NO, c)) &&
    !(Denotes(MOD, b) && Denotes(MOD, c)) &&
    !(Denotes(YES, b) && Denotes(YES, c))
  }
}
