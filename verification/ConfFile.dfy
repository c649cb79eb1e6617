/** The lines of the configuration file: how a symbol is printed and how a line is read. */
module ConfFile {
  import opened Symbols
  import opened Exprs
  import opened Escape

  const PREFIX: string := "CONFIG_"
  const NOT_SET: string := "is not set"

  /** The line for a symbol; a symbol never given a type has none. */
  function DotconfigLine(name: string, ty: SymbolType, x: SymVal): Option<string> {
    match ty
    case Unknown => None
    case String => Some(PREFIX + name + "=" + Quote(x.str))
    case Int => Some(PREFIX + name + "=" + x.str)
    case Hex => Some(PREFIX + name + "=" + x.str)
    case _ =>
      if x.tri == NO then Some("# " + PREFIX + name + " " + NOT_SET)
      else Some(PREFIX + name + "=" + TriName(x.tri))
  }

  function Find(s: string, c: char): (r: Option<nat>)
    ensures r.Some? ==> r.value < |s| && s[r.value] == c && c !in s[..r.value]
    ensures r.None? ==> c !in s
  {
    if s == "" then None
    else if s[0] == c then Some(0)
    else
      var r := Find(s[1..], c);
      assert r.Some? ==> s[..r.value + 1] == [s[0]] + s[1..][..r.value];
      if r.Some? then Some(r.value + 1) else None
  }

  datatype Entry = Entry(name: string, value: string)

  /** The assignment a line holds; none for blank lines, comments and unexpected data. */
  function ParseLine(line: string): Option<Entry> {
    if line == "" then None
    else if line[0] == '#' then
      if |line| < 2 || line[1] != ' ' || !(PREFIX <= line[2..]) then None
      else
        var rest := line[2..][|PREFIX|..];
        var i := Find(rest, ' ');
        if i.None? || rest[i.value + 1..] != NOT_SET then None else Some(Entry(rest[..i.value], "n"))
    else if !(PREFIX <= line) then None
    else
      var rest := line[|PREFIX|..];
      var i := Find(rest, '=');
      if i.None? then None else Some(Entry(rest[..i.value], rest[i.value + 1..]))
  }

  predicate ValidName(name: string) { ' ' !in name && '=' !in name }

  lemma {:induction false} FindAfter(name: string, c: char, rest: string)
    requires c !in name
    ensures Find(name + [c] + rest, c) == Some(|name|)
    ensures (name + [c] + rest)[..|name|] == name && (name + [c] + rest)[|name| + 1..] == rest
  {
    var s := name + [c] + rest;
    if name != "" {
      FindAfter(name[1..], c, rest);
      assert s[0] == name[0] && s[1..] == name[1..] + [c] + rest;
    }
  }

  lemma ParseAssignment(name: string, value: string)
    requires ValidName(name)
    ensures ParseLine(PREFIX + name + "=" + value) == Some(Entry(name, value))
  {
    var line := PREFIX + name + "=" + value;
    FindAfter(name, '=', value);
    assert line == PREFIX + (name + ['='] + value);
    assert line[|PREFIX|..] == name + ['='] + value && line[..|PREFIX|] == PREFIX && line[0] == 'C';
  }

  lemma ParseNotSet(name: string)
    requires ValidName(name)
    ensures ParseLine("# " + PREFIX + name + " " + NOT_SET) == Some(Entry(name, "n"))
  {
    var line := "# " + PREFIX + name + " " + NOT_SET;
    FindAfter(name, ' ', NOT_SET);
    assert line == "# " + (PREFIX + (name + [' '] + NOT_SET));
    var body := line[2..];
    assert body == PREFIX + (name + [' '] + NOT_SET);
    assert body[|PREFIX|..] == name + [' '] + NOT_SET && body[..|PREFIX|] == PREFIX;
  }

  // ----- values -----

  function SkipSign(s: string): string { if s != "" && s[0] == '-' then s[1..] else s }

  function SkipHexPrefix(s: string): string {
    if |s| >= 2 && s[0] == '0' && (s[1] == 'x' || s[1] == 'X') then s[2..] else s
  }

  predicate ValidInt(s: string) {
    var digits := SkipSign(s);
    digits != "" && AllDigits(digits, 10) && (digits[0] == '0' ==> |digits| == 1)
  }

  predicate ValidHex(s: string) { SkipHexPrefix(s) != "" && AllDigits(SkipHexPrefix(s), 16) }

  predicate StringValid(ty: SymbolType, s: string) {
    match ty
    case String => true
    case Int => ValidInt(s)
    case Hex => ValidHex(s)
    case _ => false
  }

  /** What reading an assignment does: nothing, reject it, or store a value. */
  datatype Stored = Ignored | Rejected | Stored(value: SymVal)

  function StoreString(ty: SymbolType, s: string): Stored {
    if StringValid(ty, s) then Stored(SymVal(NO, s)) else Rejected
  }

  /** Only the first character of a tristate value counts. Strings are quoted, except in
      the automatic configuration. */
  function SetSymVal(ty: SymbolType, text: string, auto: bool): Stored {
    match ty
    case Unknown => Ignored
    case String =>
      if auto then StoreString(ty, text)
      else if text == "" || text[0] != '\"' then Ignored
      else
        var s := Unescape(text[1..]);
        if s.None? then Rejected else StoreString(ty, s.value)
    case Int => StoreString(ty, text)
    case Hex => StoreString(ty, text)
    case _ =>
      if text == "" then Rejected
      else if text[0] == 'm' && ty.Trivalent? then Stored(SymVal(MOD, ""))
      else if text[0] == 'y' then Stored(SymVal(YES, ""))
      else if text[0] == 'n' then Stored(SymVal(NO, ""))
      else Rejected
  }

  /** The same value, as far as the type of the symbol uses it. */
  predicate SameValue(ty: SymbolType, x: SymVal, y: SymVal) {
    if ty.Boolean? || ty.Trivalent? then x.tri == y.tri else x.str == y.str
  }

  /** What the line of a symbol stores when it is read back. */
  function ReadBack(line: string, ty: SymbolType): Stored {
    var e := ParseLine(line);
    if e.None? then Ignored else SetSymVal(ty, e.value.value, false)
  }

  /** Reading the line of a symbol finds the symbol and its value again; only a number
      that is not one, as a default may give it, is rejected. */
  lemma ReadUndoesPrint(name: string, ty: SymbolType, x: SymVal)
    requires ValidName(name) && !ty.Unknown? && (ty.Boolean? ==> x.tri != MOD)
    ensures var line := DotconfigLine(name, ty, x);
      line.Some? && ParseLine(line.value).Some? && ParseLine(line.value).value.name == name
    ensures var back := ReadBack(DotconfigLine(name, ty, x).value, ty);
      if IsNumber(ty) && !StringValid(ty, x.str) then back == Rejected else back.Stored? && SameValue(ty, back.value, x)
  {
    if ty.Boolean? || ty.Trivalent? {
      if x.tri == NO { ParseNotSet(name); } else { ParseAssignment(name, TriName(x.tri)); }
    } else if ty.String? {
      ParseAssignment(name, Quote(x.str));
      UnescapeUndoesQuote(x.str, "");
      assert Quote(x.str)[1..] == EscapeBody(x.str) + ['\"'] + "";
    } else {
      ParseAssignment(name, x.str);
    }
  }

  // ----- lines and text -----

  function JoinLines(lines: seq<string>): string {
    if lines == [] then "" else lines[0] + "\n" + JoinLines(lines[1..])
  }

  function StripReturn(line: string): string {
    if line != "" && line[|line| - 1] == '\r' then line[..|line| - 1] else line
  }

  /** The lines as they are read, one newline-terminated stretch after the other. */
  function SplitLines(text: string): seq<string> {
    if text == "" then []
    else
      var i := Find(text, '\n');
      if i.None? then [text] else [StripReturn(text[..i.value])] + SplitLines(text[i.value + 1..])
  }

  predicate LineSafe(line: string) { '\n' !in line && (line == "" || line[|line| - 1] != '\r') }

  lemma {:induction false} JoinOneMore(lines: seq<string>, line: string)
    ensures JoinLines(lines + [line]) == JoinLines(lines) + line + "\n"
  {
    if lines == [] {
      assert [line][1..] == [];
      assert JoinLines([line]) == line + "\n" + JoinLines([]);
    } else {
      JoinOneMore(lines[1..], line);
      assert (lines + [line])[1..] == lines[1..] + [line];
      assert JoinLines(lines + [line]) == lines[0] + "\n" + (JoinLines(lines[1..]) + line + "\n");
    }
  }

  lemma SplitFirst(line: string, rest: string)
    requires LineSafe(line) && Find(line + "\n" + rest, '\n') == Some(|line|)
    ensures SplitLines(line + "\n" + rest) == [line] + SplitLines(rest)
  {
    var text := line + "\n" + rest;
    assert text[..|line|] == line && text[|line| + 1..] == rest;
  }

  /** Lines come back as written unless one holds a newline or ends in a carriage return. */
  lemma {:induction false} SplitUndoesJoin(lines: seq<string>)
    requires forall i :: 0 <= i < |lines| ==> LineSafe(lines[i])
    ensures SplitLines(JoinLines(lines)) == lines
  {
    if lines != [] {
      var rest := JoinLines(lines[1..]);
      FindAfter(lines[0], '\n', rest);
      SplitUndoesJoin(lines[1..]);
      SplitFirst(lines[0], rest);
      assert lines == [lines[0]] + lines[1..];
    }
  }

  lemma {:induction false} EscapeBodyKeepsLines(s: string)
    requires '\n' !in s
    ensures '\n' !in EscapeBody(s)
  {
    if s != "" { EscapeBodyKeepsLines(s[1..]); }
  }

  lemma NumberIsSafe(ty: SymbolType, s: string)
    requires IsNumber(ty) && StringValid(ty, s)
    ensures LineSafe(s)
  {
    var digits := if ty.Int? then SkipSign(s) else SkipHexPrefix(s);
    var n := |s| - |digits|;
    assert AllDigits(digits, 16);
    assert s[n..] == digits;
    forall i | n <= i < |s|
      ensures DigitValue(s[i]) < 16
    {
      assert s[i] == digits[i - n];
    }
  }

  /** The line of a symbol is safe if its name and its number are (see NumberIsSafe) and
      its string holds no newline. */
  lemma PrintedLineIsSafe(name: string, ty: SymbolType, x: SymVal)
    requires '\n' !in name && !ty.Unknown?
    requires ty.String? ==> '\n' !in x.str
    requires IsNumber(ty) ==> LineSafe(x.str)
    ensures LineSafe(DotconfigLine(name, ty, x).value)
  {
    if ty.String? {
      EscapeBodyKeepsLines(x.str);
    } else if IsNumber(ty) {
      var line := PREFIX + name + "=" + x.str;
      assert line[|line| - 1] == if x.str == "" then '=' else x.str[|x.str| - 1];
    }
  }
}
