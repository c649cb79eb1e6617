/** The format of the configuration file, and what reading any file does. */
module FileLaws {
  import opened Symbols
  import opened Exprs
  import opened SymbolEval
  import opened Escape
  import opened ConfFile
  import opened SaveLoad

  // ----- quoting -----

  /** A string stands between quotes, ... */
  lemma {:induction false} StandsInQuotes(s: string)
    ensures Quote(s) == ['\"'] + EscapeBody(s) + ['\"']
  {
    assert "\"" == ['\"'];
  }

  /** ... character by character, with a backslash before each quote and backslash. */
  lemma {:induction false} QuotedByCharacter(s: string, c: char)
    ensures EscapeBody("") == ""
    ensures EscapeBody(s + [c]) == EscapeBody(s) + if c == '\"' || c == '\\' then ['\\', c] else [c]
  {
    var last := if c == '\"' || c == '\\' then ['\\', c] else [c];
    if s == "" {
      assert [c][1..] == "" && "" + [c] == [c];
      assert EscapeBody([c]) == EscapeChar(c) + "" == last;
    } else {
      QuotedByCharacter(s[1..], c);
      assert (s + [c])[0] == s[0] && (s + [c])[1..] == s[1..] + [c];
      Regrouped(EscapeChar(s[0]), EscapeBody(s[1..]), last);
    }
  }

  lemma Regrouped(a: string, b: string, c: string)
    ensures a + (b + c) == a + b + c
  {
  }

  // ----- lines -----

  /** How a symbol is printed: n as a comment, strings quoted, numbers as they are. */
  lemma PrintedAs(name: string, x: SymVal)
    ensures DotconfigLine(name, Boolean, x) == DotconfigLine(name, Trivalent, x)
    ensures x.tri == NO ==> DotconfigLine(name, Trivalent, x) == Some("# CONFIG_" + name + " is not set")
    ensures x.tri == MOD ==> DotconfigLine(name, Trivalent, x) == Some("CONFIG_" + name + "=m")
    ensures x.tri == YES ==> DotconfigLine(name, Trivalent, x) == Some("CONFIG_" + name + "=y")
    ensures DotconfigLine(name, Int, x) == DotconfigLine(name, Hex, x) == Some("CONFIG_" + name + "=" + x.str)
    ensures DotconfigLine(name, String, x) == Some("CONFIG_" + name + "=" + Quote(x.str))
    ensures DotconfigLine(name, Unknown, x) == None
  {
    assert "# CONFIG_" == "# " + PREFIX && " is not set" == " " + NOT_SET;
    assert "# " + PREFIX + name + " " + NOT_SET == "# " + PREFIX + name + (" " + NOT_SET);
    assert PREFIX + name + "=" + "m" == PREFIX + name + "=m" && PREFIX + name + "=" + "y" == PREFIX + name + "=y";
  }

  predicate IsAssignment(line: string, name: string, value: string) {
    line == "CONFIG_" + name + "=" + value && '=' !in name
  }

  predicate IsNotSet(line: string, name: string) { line == "# CONFIG_" + name + " is not set" && ' ' !in name }

  /** A line assigns a value exactly if it has one of the two forms; any other is passed over. */
  lemma ReadLineIff(line: string, name: string, value: string)
    ensures ParseLine(line) == Some(Entry(name, value)) <==> IsAssignment(line, name, value) || (IsNotSet(line, name) && value == "n")
  {
    if ParseLine(line) == Some(Entry(name, value)) { ReadForms(line, name, value); }
    if IsAssignment(line, name, value) { AssignmentIsRead(line, name, value); }
    if IsNotSet(line, name) { NotSetIsRead(line, name); }
  }

  lemma {:induction false} AssignmentIsRead(line: string, name: string, value: string)
    requires IsAssignment(line, name, value)
    ensures ParseLine(line) == Some(Entry(name, value))
  {
    FindAfter(name, '=', value);
    assert line == PREFIX + (name + ['='] + value);
    assert line[|PREFIX|..] == name + ['='] + value && line[..|PREFIX|] == PREFIX && line[0] == 'C';
  }

  lemma {:induction false} NotSetIsRead(line: string, name: string)
    requires IsNotSet(line, name)
    ensures ParseLine(line) == Some(Entry(name, "n"))
  {
    FindAfter(name, ' ', NOT_SET);
    assert line == "# " + (PREFIX + (name + [' '] + NOT_SET));
    var body := line[2..];
    assert body == PREFIX + (name + [' '] + NOT_SET);
    assert body[|PREFIX|..] == name + [' '] + NOT_SET && body[..|PREFIX|] == PREFIX;
  }

  lemma {:induction false} ReadForms(line: string, name: string, value: string)
    requires ParseLine(line) == Some(Entry(name, value))
    ensures IsAssignment(line, name, value) || (IsNotSet(line, name) && value == "n")
  {
    if line[0] == '#' {
      ReadComment(line, name, value);
    } else {
      var rest := line[|PREFIX|..];
      var i := Find(rest, '=').value;
      assert rest == rest[..i] + ['='] + rest[i + 1..];
      assert line == PREFIX + rest;
    }
  }

  lemma {:induction false} ReadComment(line: string, name: string, value: string)
    requires ParseLine(line) == Some(Entry(name, value)) && line[0] == '#'
    ensures IsNotSet(line, name) && value == "n"
  {
    var body := line[2..];
    var rest := body[|PREFIX|..];
    var i := Find(rest, ' ').value;
    assert rest[..i] == name && rest[i + 1..] == NOT_SET;
    CutAt(rest, i);
    assert body == PREFIX + rest && line == "# " + body;
    NotSetLine(name);
  }

  lemma CutAt(t: string, i: nat)
    requires i < |t|
    ensures t == t[..i] + [t[i]] + t[i + 1..]
  {
  }

  lemma NotSetLine(name: string)
    ensures "# " + (PREFIX + (name + [' '] + NOT_SET)) == "# CONFIG_" + name + " is not set"
  {
    assert [' '] + NOT_SET == " is not set" && "# " + PREFIX == "# CONFIG_";
    assert "# " + (PREFIX + (name + [' '] + NOT_SET)) == ("# " + PREFIX) + name + ([' '] + NOT_SET);
  }

  /** What an assigned text comes to. Of a tristate the first character counts; m is none
      of a boolean's. */
  lemma ReadTristate(text: string, ty: SymbolType)
    requires ty == Boolean || ty == Trivalent
    ensures text != "" && text[0] == 'y' ==> SetSymVal(ty, text, false) == Stored(SymVal(YES, ""))
    ensures text != "" && text[0] == 'n' ==> SetSymVal(ty, text, false) == Stored(SymVal(NO, ""))
    ensures text != "" && text[0] == 'm' ==> SetSymVal(ty, text, false) == if ty == Trivalent then Stored(SymVal(MOD, "")) else Rejected
    ensures text == "" || text[0] !in "ynm" ==> SetSymVal(ty, text, false) == Rejected
  {
  }

  lemma ReadText(text: string, ty: SymbolType)
    requires ty != Boolean && ty != Trivalent
    ensures ty == Unknown ==> SetSymVal(ty, text, false) == Ignored
    ensures ty == Int ==> SetSymVal(ty, text, false) == if ValidInt(text) then Stored(SymVal(NO, text)) else Rejected
    ensures ty == Hex ==> SetSymVal(ty, text, false) == if ValidHex(text) then Stored(SymVal(NO, text)) else Rejected
    ensures ty == String && (text == "" || text[0] != '\"') ==> SetSymVal(ty, text, false) == Ignored
    ensures ty == String && text != "" && text[0] == '\"' && Unescape(text[1..]).None? ==> SetSymVal(ty, text, false) == Rejected
    ensures ty == String && text != "" && text[0] == '\"' && Unescape(text[1..]).Some? ==>
              SetSymVal(ty, text, false) == Stored(SymVal(NO, Unescape(text[1..]).value))
  {
  }

  /** Any text is cut after each newline; a carriage return before it is dropped, one at
      the end of the text is not. */
  lemma LinesOfText(line: string, rest: string)
    requires '\n' !in line
    ensures SplitLines("") == [] && (line != "" ==> SplitLines(line) == [line])
    ensures SplitLines(line + "\n" + rest) ==
      [if line != "" && line[|line| - 1] == '\r' then line[..|line| - 1] else line] + SplitLines(rest)
  {
    FindAfter(line, '\n', rest);
    assert line + "\n" + rest == line + ['\n'] + rest;
  }

  // ----- saving -----

  lemma {:induction false} SavedGrows(k: Kconfig, v: Valuation, entries: seq<Symbol>, i: nat)
    requires i <= |entries|
    ensures Save(k, v, entries[..i]) <= Save(k, v, entries)
  {
    var n := |entries| - 1;
    if i <= n {
      SavedGrows(k, v, entries[..n], i);
      assert entries[..n][..i] == entries[..i];
    } else {
      assert entries[..i] == entries;
    }
  }

  /** Each symbol of the entries gets its line where it stands first, in their order, and
      there are no other lines. */
  lemma {:induction false} SavedInOrder(k: Kconfig, v: Valuation, entries: seq<Symbol>, i: nat)
    requires i < |entries|
    ensures var done, line, saved := |Save(k, v, entries[..i])|, LineOf(k, v, entries[i]), Save(k, v, entries);
      if entries[i] !in entries[..i] && line.Some? then
        |Save(k, v, entries[..i + 1])| == done + 1 && done < |saved| && saved[done] == line.value
      else |Save(k, v, entries[..i + 1])| == done
    ensures Save(k, v, entries[..0]) == []
  {
    var upTo := entries[..i + 1];
    assert upTo[..i] == entries[..i] && upTo[i] == entries[i] && entries[..0] == [];
    SavedGrows(k, v, entries, i + 1);
  }

  /** A symbol counts as changed if its user value, or that it has none, disagrees with
      what would be written. */
  lemma ChangedIff(k: Kconfig, s: Symbol, v: Valuation)
    ensures Def(k, s).user.None? ==> (NeedsSaving(k, s, v) <==> SymbolEval.Written(k, s, v))
    ensures Def(k, s).user.Some? && !SymbolEval.Written(k, s, v) ==> NeedsSaving(k, s, v)
    ensures Def(k, s).user.Some? && SymbolEval.Written(k, s, v) && IsLogic(s) ==> (NeedsSaving(k, s, v) <==> Def(k, s).user.value.tri != v(s).tri)
    ensures Def(k, s).user.Some? && SymbolEval.Written(k, s, v) && !IsLogic(s) ==> (NeedsSaving(k, s, v) <==> Def(k, s).user.value.str != v(s).str)
  {
  }

  // ----- loading -----

  /** The line assigns the value to the symbol. */
  predicate Assigns(names: map<string, Symbol>, line: string, s: Symbol, x: SymVal) {
    var e := ParseLine(line);
    e.Some? && e.value.name in names && names[e.value.name] == s && SetSymVal(TypeOf(s), e.value.value, false) == Stored(x)
  }

  ghost predicate AssignsAny(names: map<string, Symbol>, line: string, s: Symbol) { exists x :: Assigns(names, line, s, x) }

  lemma {:induction false} ForgetsUser(k: Kconfig, s: Symbol)
    ensures Def(Forget(k), s) == Def(k, s).(user := None) && Forget(k).modules == k.modules
  {
  }

  /** The last line that assigns a value to a symbol gives its user value, and without one
      it has none; nothing else changes. */
  lemma {:induction false} LastLineCounts(k: Kconfig, names: map<string, Symbol>, lines: seq<string>, s: Symbol, i: int, x: SymVal)
    requires -1 <= i < |lines| && (i >= 0 ==> Assigns(names, lines[i], s, x))
    requires forall j :: i < j < |lines| ==> !AssignsAny(names, lines[j], s)
    ensures Load(k, names, lines).modules == k.modules
    ensures Def(Load(k, names, lines), s) == Def(k, s).(user := if i >= 0 then Some(x) else None)
    decreases |lines|
  {
    if lines == [] {
      ForgetsUser(k, s);
    } else {
      var n := |lines| - 1;
      var front := Load(k, names, lines[..n]);
      if i < n {
        LastLineCounts(k, names, lines[..n], s, i, x);
        assert !AssignsAny(names, lines[n], s);
        OtherLine(front, names, lines[n], s);
      } else {
        LoadedModules(k, names, lines[..n]);
        LoadedDefinition(k, names, lines[..n], s);
      }
    }
  }

  lemma OtherLine(k: Kconfig, names: map<string, Symbol>, line: string, s: Symbol)
    requires !AssignsAny(names, line, s)
    ensures Def(LoadLine(k, names, line), s) == Def(k, s) && LoadLine(k, names, line).modules == k.modules
  {
    var e := ParseLine(line);
    if e.Some? && e.value.name in names && names[e.value.name] == s {
      var x := SetSymVal(TypeOf(s), e.value.value, false);
      assert x.Stored? ==> Assigns(names, line, s, x.value);
    }
  }

  lemma {:induction false} LoadedModules(k: Kconfig, names: map<string, Symbol>, lines: seq<string>)
    ensures Load(k, names, lines).modules == k.modules
  {
    if lines != [] { LoadedModules(k, names, lines[..|lines| - 1]); }
  }

  lemma {:induction false} LoadedDefinition(k: Kconfig, names: map<string, Symbol>, lines: seq<string>, s: Symbol)
    ensures Def(Load(k, names, lines), s) == Def(k, s).(user := Def(Load(k, names, lines), s).user)
  {
    if lines == [] { ForgetsUser(k, s); } else { LoadedDefinition(k, names, lines[..|lines| - 1], s); }
  }
}
