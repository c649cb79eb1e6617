/** Saving a configuration and loading it again. */
module SaveLoad {
  import opened Symbols
  import opened Exprs
  import opened SymbolEval
  import opened ConfFile

  /** The line of a symbol, if it is written at all. */
  function LineOf(k: Kconfig, v: Valuation, s: Symbol): Option<string> {
    if s.Config? && Written(k, s, v) then DotconfigLine(s.name, s.ty, v(s)) else None
  }

  /** The lines for the symbols of the menu entries; a symbol that occurs again is skipped. */
  function Save(k: Kconfig, v: Valuation, entries: seq<Symbol>): seq<string> {
    if entries == [] then []
    else
      var front, s := entries[..|entries| - 1], entries[|entries| - 1];
      var line := LineOf(k, v, s);
      Save(k, v, front) + (if s !in front && line.Some? then [line.value] else [])
  }

  function WithUser(k: Kconfig, s: Symbol, x: SymVal): Kconfig {
    k.(defs := k.defs[s := Def(k, s).(user := Some(x))])
  }

  function Forget(k: Kconfig): Kconfig {
    k.(defs := map s | s in k.defs :: k.defs[s].(user := None))
  }

  function LoadLine(k: Kconfig, names: map<string, Symbol>, line: string): Kconfig {
    var e := ParseLine(line);
    if e.None? || e.value.name !in names then k
    else
      var s := names[e.value.name];
      var x := SetSymVal(TypeOf(s), e.value.value, false);
      if x.Stored? then WithUser(k, s, x.value) else k
  }

  /** User values are forgotten, then set line by line. */
  function Load(k: Kconfig, names: map<string, Symbol>, lines: seq<string>): Kconfig {
    if lines == [] then Forget(k)
    else LoadLine(Load(k, names, lines[..|lines| - 1]), names, lines[|lines| - 1])
  }

  // ----- what a saved file loads -----

  /** The symbols have the names under which they are found. */
  predicate Named(entries: seq<Symbol>, names: map<string, Symbol>) {
    forall s :: s in entries && s.Config? ==> ValidName(s.name) && s.name in names && names[s.name] == s
  }

  /** The user value a symbol has once the saved file is loaded. */
  function SavedUser(k: Kconfig, v: Valuation, entries: seq<Symbol>, s: Symbol): Option<SymVal> {
    var line := LineOf(k, v, s);
    if s !in entries || line.None? then None
    else
      var x := ReadBack(line.value, TypeOf(s));
      if x.Stored? then Some(x.value) else None
  }

  lemma {:induction false} LoadLinesOfSaved(k: Kconfig, names: map<string, Symbol>, lines: seq<string>, line: string)
    ensures Load(k, names, lines + [line]) == LoadLine(Load(k, names, lines), names, line)
  {
    assert (lines + [line])[..|lines|] == lines;
  }

  /** Loading the line of one symbol touches the user value of that symbol only. */
  lemma LoadLineOfSymbol(k: Kconfig, names: map<string, Symbol>, t: Symbol, x: SymVal, s: Symbol)
    requires t.Config? && !t.ty.Unknown? && (t.ty.Boolean? ==> x.tri != MOD)
    requires ValidName(t.name) && t.name in names && names[t.name] == t
    ensures var line := DotconfigLine(t.name, t.ty, x).value;
      var back, k' := ReadBack(line, t.ty), LoadLine(k, names, line);
      k'.modules == k.modules &&
      Def(k', s) == if s == t && back.Stored? then Def(k, s).(user := Some(back.value)) else Def(k, s)
  {
    ReadUndoesPrint(t.name, t.ty, x);
  }

  /** One more entry of the file: its own user value is loaded, the others stay. */
  lemma LoadOneMore(k: Kconfig, k1: Kconfig, v: Valuation, names: map<string, Symbol>, front: seq<Symbol>, t: Symbol, s: Symbol)
    requires Named([t], names) && Admissible(v) && t !in front && LineOf(k, v, t).Some?
    requires Def(k1, s) == Def(k, s).(user := SavedUser(k, v, front, s))
    ensures var k2 := LoadLine(k1, names, LineOf(k, v, t).value);
      k2.modules == k1.modules && Def(k2, s) == Def(k, s).(user := SavedUser(k, v, front + [t], s))
  {
    assert t in [t] && AdmissibleValue(t, v(t));
    LoadLineOfSymbol(k1, names, t, v(t), s);
  }

  lemma {:induction false} LoadAfterSave(k: Kconfig, v: Valuation, names: map<string, Symbol>, entries: seq<Symbol>, s: Symbol)
    requires Named(entries, names) && Admissible(v)
    ensures var k' := Load(k, names, Save(k, v, entries));
      k'.modules == k.modules && Def(k', s) == Def(k, s).(user := SavedUser(k, v, entries, s))
  {
    if entries != [] {
      var front, t := entries[..|entries| - 1], entries[|entries| - 1];
      assert entries == front + [t];
      LoadAfterSave(k, v, names, front, s);
      var line := LineOf(k, v, t);
      if t !in front && line.Some? {
        LoadLinesOfSaved(k, names, Save(k, v, front), line.value);
        LoadOneMore(k, Load(k, names, Save(k, v, front)), v, names, front, t, s);
      } else {
        assert Save(k, v, front) + [] == Save(k, v, front);
      }
    }
  }

  /** Which symbols are written does not depend on user values. */
  lemma WrittenIgnoresUser(k: Kconfig, k': Kconfig, s: Symbol, v: Valuation, user: Option<SymVal>)
    requires k'.modules == k.modules && Def(k', s) == Def(k, s).(user := user)
    ensures Written(k', s, v) == Written(k, s, v) && Visible(k', s, v) == Visible(k, s, v) && RevDep(k', s, v) == RevDep(k, s, v)
  {
  }

  // ----- the loaded configuration has the same values -----

  /** Only symbols with a name have user values. */
  predicate NamedUsers(k: Kconfig) { forall s :: s in k.defs && k.defs[s].user.Some? ==> s.Config? }

  /** The user values are ones the source accepts. */
  predicate ProperUsers(k: Kconfig) {
    forall s :: s in k.defs && k.defs[s].user.Some? ==>
      s.Config? && (IsNumber(TypeOf(s)) ==> StringValid(TypeOf(s), k.defs[s].user.value.str))
  }

  ghost predicate CoversWritten(k: Kconfig, v: Valuation, entries: seq<Symbol>) {
    forall s: Symbol :: Written(k, s, v) ==> s in entries
  }

  /** A visible symbol has no higher value than its prompt or a select could give it. */
  predicate Reachable(k: Kconfig, s: Symbol, v: Valuation) {
    s.Config? && IsLogic(s) && Visible(k, s, v) != NO ==> v(s).tri <= Max(Visible(k, s, v), RevDep(k, s, v))
  }

  /** The range in force for a visible number is not empty. */
  predicate OrderedRange(k: Kconfig, s: Symbol, v: Valuation) {
    var r := ActiveRange(Def(k, s).ranges, v);
    s.Config? && IsNumber(TypeOf(s)) && Visible(k, s, v) != NO && r.Some? ==>
      BoundValue(r.value.low, TypeOf(s), v) <= BoundValue(r.value.high, TypeOf(s), v)
  }

  /** What a number or string is without a user value. */
  function DefaultText(k: Kconfig, s: Symbol, v: Valuation): string {
    var d := ActiveDefault(Def(k, s).defaults, v);
    if d.Some? && d.value.value.Sym? then v(d.value.value.s).str else InitialString(s)
  }

  /** A visible number stays as it is when it is clipped again; one that is no number, and
      so is not accepted back, is what the default comes to. */
  predicate NumberLasts(k: Kconfig, s: Symbol, v: Valuation) {
    s.Config? && IsNumber(TypeOf(s)) && Visible(k, s, v) != NO ==>
      Validated(k, s, if StringValid(TypeOf(s), v(s).str) then v(s).str else DefaultText(k, s, v), v) == v(s).str
  }

  predicate Lasting(k: Kconfig, s: Symbol, v: Valuation) { Reachable(k, s, v) && NumberLasts(k, s, v) }

  ghost predicate AllLasting(k: Kconfig, v: Valuation) {
    forall s: Symbol :: Lasting(k, s, v)
  }

  /** The bound holds a number of the type it bounds, which is read alike as bound and as value. */
  predicate ProperBound(bound: Symbol, ty: SymbolType, v: Valuation) {
    StringValid(ty, v(bound).str) && LeadingNumber(v(bound).str, BaseOf(ty)) == BoundValue(bound, ty, v)
  }

  predicate BoundsAreProper(k: Kconfig, s: Symbol, v: Valuation) {
    var r := ActiveRange(Def(k, s).ranges, v);
    IsNumber(TypeOf(s)) && r.Some? ==> ProperBound(r.value.low, TypeOf(s), v) && ProperBound(r.value.high, TypeOf(s), v)
  }

  /** Clipping a number twice is clipping it once if and only if the range is not empty;
      only the text of a bound is ever put in place of another. */
  lemma ClippedTwice(r: Range, ty: SymbolType, text: string, v: Valuation)
    requires ProperBound(r.low, ty, v) && ProperBound(r.high, ty, v)
    ensures var x := Clipped(r, ty, text, v);
      (Clipped(r, ty, x, v) == x <==> BoundValue(r.low, ty, v) <= BoundValue(r.high, ty, v)) &&
      (StringValid(ty, x) || (x == text && BoundValue(r.low, ty, v) <= BoundValue(r.high, ty, v)))
  {
  }

  /** With bounds that are numbers of the type they bound, and user values that the source
      accepts, a number lasts exactly when the range in force is not empty. */
  lemma NumberLastsIff(k: Kconfig, s: Symbol, v: Valuation)
    requires v(s) == Step(k, s, v) && BoundsAreProper(k, s, v) && ProperUsers(k)
    ensures NumberLasts(k, s, v) <==> OrderedRange(k, s, v)
  {
    var r := ActiveRange(Def(k, s).ranges, v);
    if s.Config? && IsNumber(TypeOf(s)) && Visible(k, s, v) != NO {
      assert v(s).str == Validated(k, s, StringOf(k, s, v), v);
      if r.Some? { ClippedTwice(r.value, TypeOf(s), StringOf(k, s, v), v); }
      if Def(k, s).user.Some? {
        assert s in k.defs;
      } else {
        assert StringOf(k, s, v) == DefaultText(k, s, v);
      }
    }
  }

  /** The equation of one symbol after the reload. */
  lemma ReloadedStep(k: Kconfig, k': Kconfig, v: Valuation, entries: seq<Symbol>, s: Symbol)
    requires Solves(k, v) && NamedUsers(k) && CoversWritten(k, v, entries)
    requires k'.modules == k.modules && Def(k', s) == Def(k, s).(user := SavedUser(k, v, entries, s))
    requires s.Config? ==> ValidName(s.name)
    ensures v(s) == Step(k', s, v) <==> Lasting(k, s, v)
  {
    assert v(s) == Step(k, s, v);
    SolutionIsAdmissible(k, v);
    assert AdmissibleValue(s, v(s));
    WrittenIgnoresUser(k, k', s, v, SavedUser(k, v, entries, s));
    if s.Config? && !TypeOf(s).Unknown? {
      ReadUndoesPrint(s.name, s.ty, v(s));
      if IsLogic(s) { ReloadedTristate(k, k', v, entries, s); } else { ReloadedString(k, k', v, entries, s); }
    }
  }

  lemma ReloadedTristate(k: Kconfig, k': Kconfig, v: Valuation, entries: seq<Symbol>, s: Symbol)
    requires v(s) == Step(k, s, v) && s.Config? && IsLogic(s) && CoversWritten(k, v, entries)
    requires k'.modules == k.modules && Def(k', s) == Def(k, s).(user := SavedUser(k, v, entries, s))
    requires Written(k, s, v) ==> (LineOf(k, v, s).Some? && ReadBack(LineOf(k, v, s).value, TypeOf(s)).Stored? &&
      ReadBack(LineOf(k, v, s).value, TypeOf(s)).value.tri == v(s).tri)
    ensures v(s) == Step(k', s, v) <==> Reachable(k, s, v)
  {
    WrittenIgnoresUser(k, k', s, v, SavedUser(k, v, entries, s));
    if Visible(k, s, v) != NO {
      assert Written(k, s, v);
      assert Def(k', s).user.Some? && Def(k', s).user.value.tri == v(s).tri;
    }
  }

  lemma ReloadedString(k: Kconfig, k': Kconfig, v: Valuation, entries: seq<Symbol>, s: Symbol)
    requires v(s) == Step(k, s, v) && s.Config? && !IsLogic(s) && !TypeOf(s).Unknown?
    requires CoversWritten(k, v, entries)
    requires k'.modules == k.modules && Def(k', s) == Def(k, s).(user := SavedUser(k, v, entries, s))
    requires Written(k, s, v) ==> (LineOf(k, v, s).Some? &&
      var back := ReadBack(LineOf(k, v, s).value, TypeOf(s));
      if IsNumber(TypeOf(s)) && !StringValid(TypeOf(s), v(s).str) then back == Rejected else back.Stored? && back.value.str == v(s).str)
    ensures v(s) == Step(k', s, v) <==> NumberLasts(k, s, v)
  {
    WrittenIgnoresUser(k, k', s, v, SavedUser(k, v, entries, s));
    ValidationIgnoresUser(k, k', s, v, SavedUser(k, v, entries, s));
    assert v(s).str == Validated(k, s, StringOf(k, s, v), v);
    if Visible(k, s, v) == NO {
      assert StringOf(k', s, v) == StringOf(k, s, v);
    } else {
      assert Written(k, s, v);
      ReloadedText(k, k', v, entries, s);
    }
  }

  lemma ValidationIgnoresUser(k: Kconfig, k': Kconfig, s: Symbol, v: Valuation, user: Option<SymVal>)
    requires Def(k', s) == Def(k, s).(user := user)
    ensures forall t: string :: Validated(k', s, t, v) == Validated(k, s, t, v)
  {
  }

  /** A visible text or number gets its saved value as user value; an invalid number
      comes from the default again. */
  lemma ReloadedText(k: Kconfig, k': Kconfig, v: Valuation, entries: seq<Symbol>, s: Symbol)
    requires v(s) == Step(k, s, v) && s.Config? && !IsLogic(s) && !TypeOf(s).Unknown? && Visible(k, s, v) != NO
    requires s in entries && LineOf(k, v, s).Some?
    requires k'.modules == k.modules && Def(k', s) == Def(k, s).(user := SavedUser(k, v, entries, s))
    requires var back := ReadBack(LineOf(k, v, s).value, TypeOf(s));
      if IsNumber(TypeOf(s)) && !StringValid(TypeOf(s), v(s).str) then back == Rejected else back.Stored? && back.value.str == v(s).str
    ensures StringOf(k', s, v) == if IsNumber(TypeOf(s)) && !StringValid(TypeOf(s), v(s).str) then DefaultText(k, s, v) else v(s).str
  {
    WrittenIgnoresUser(k, k', s, v, SavedUser(k, v, entries, s));
  }

  /** Saving and loading reproduces every value if and only if no visible symbol has a
      value its prompt and selects could not give it, and every visible number lasts. */
  lemma {:induction false} SaveThenLoad(k: Kconfig, rank: Symbol -> nat, v: Valuation, w: Valuation, names: map<string, Symbol>, entries: seq<Symbol>)
    requires Ranked(k, rank) && NamedUsers(k) && Solves(k, v) && CoversWritten(k, v, entries) && Named(entries, names)
    requires Solves(Load(k, names, Save(k, v, entries)), w)
    ensures (forall s: Symbol :: w(s) == v(s)) <==> AllLasting(k, v)
  {
    var k' := Load(k, names, Save(k, v, entries));
    SolutionIsAdmissible(k, v);
    forall s: Symbol
      ensures v(s) == Step(k', s, v) <==> Lasting(k, s, v)
    {
      LoadAfterSave(k, v, names, entries, s);
      if s in entries || !s.Config? {
        ReloadedStep(k, k', v, entries, s);
      } else {
        UnwrittenStep(k, k', v, entries, s);
      }
    }
    if AllLasting(k, v) {
      forall s: Symbol ensures v(s) == Step(k', s, v) { assert Lasting(k, s, v); }
      LoadKeepsRank(k, v, names, entries, rank);
      forall s: Symbol ensures w(s) == v(s) { SolutionIsUnique(k', rank, w, v, s); }
    }
    if forall s: Symbol :: w(s) == v(s) {
      forall s: Symbol
        ensures Lasting(k, s, v)
      {
        assert w(s) == Step(k', s, w);
        StepAgrees(k', s, v, w);
      }
    }
  }

  lemma UnwrittenStep(k: Kconfig, k': Kconfig, v: Valuation, entries: seq<Symbol>, s: Symbol)
    requires Solves(k, v) && CoversWritten(k, v, entries) && s !in entries && s.Config?
    requires k'.modules == k.modules && Def(k', s) == Def(k, s).(user := None)
    ensures v(s) == Step(k', s, v) && Lasting(k, s, v)
  {
    assert v(s) == Step(k, s, v);
    WrittenIgnoresUser(k, k', s, v, None);
    assert !Written(k, s, v);
  }

  lemma {:induction false} LoadKeepsRank(k: Kconfig, v: Valuation, names: map<string, Symbol>, entries: seq<Symbol>, rank: Symbol -> nat)
    requires Ranked(k, rank) && Named(entries, names) && Admissible(v)
    ensures Ranked(Load(k, names, Save(k, v, entries)), rank)
  {
    var k' := Load(k, names, Save(k, v, entries));
    forall s: Symbol, t: Symbol | DependsOn(Def(k', s), t)
      ensures rank(t) < rank(s)
    {
      LoadAfterSave(k, v, names, entries, s);
      assert DependsOn(Def(k, s), t);
    }
  }

  /** Once every visible symbol carries a user value and ranges are not empty, all values last. */
  lemma UserValuesLast(k: Kconfig, v: Valuation)
    requires Solves(k, v) && ProperUsers(k) && forall s: Symbol :: OrderedRange(k, s, v) && BoundsAreProper(k, s, v)
    requires forall s: Symbol :: s.Config? && IsLogic(s) && Visible(k, s, v) != NO ==> Def(k, s).user.Some?
    ensures AllLasting(k, v)
  {
    forall s: Symbol
      ensures Lasting(k, s, v)
    {
      assert v(s) == Step(k, s, v);
      NumberLastsIff(k, s, v);
    }
  }

  /** A default may exceed what the prompt allows: such a value is lost by saving. */
  lemma DefaultMayExceedPrompt() returns (k: Kconfig, v: Valuation, s: Symbol)
    ensures Solves(k, v) && v(s).tri == YES && !Reachable(k, s, v)
  {
    s := Config("A", Trivalent);
    var d := Definition([Some(Sym(Mod))], [Default(Sym(Yes), None)], None, None, None, [], None);
    k := Kconfig(map[s := d], YES);
    var rank := (t: Symbol) => if t.Config? then 1 else 0;
    forall x: Symbol, t: Symbol | DependsOn(Def(k, x), t)
      ensures rank(t) < rank(x)
    {
      assert x == s;
      if Mentions(d.prompts[0], t) { assert t == Mod; }
    }
    v := SolutionExists(k, rank);
    assert v(Mod) == Step(k, Mod, v) && v(Yes) == Step(k, Yes, v);
    assert PromptsValue(d.prompts[..0], v) == NO;
    assert PromptsValue(d.prompts, v) == MOD;
    assert Visible(k, s, v) == MOD;
    assert ActiveDefault(d.defaults, v) == Some(d.defaults[0]);
    assert v(s) == Step(k, s, v);
  }

  /** A number with a prompt, bounded by two constants. */
  lemma BoundedNumber(low: string, high: string) returns (k: Kconfig, v: Valuation, s: Symbol)
    ensures s == Config("A", Int) && Solves(k, v) && ProperUsers(k) && Visible(k, s, v) == YES
    ensures ActiveRange(Def(k, s).ranges, v) == Some(Range(Quoted(low), Quoted(high), None))
    ensures v(Quoted(low)).str == low && v(Quoted(high)).str == high
  {
    s := Config("A", Int);
    var r := Range(Quoted(low), Quoted(high), None);
    var d := Definition([None], [], None, None, None, [r], None);
    k := Kconfig(map[s := d], YES);
    var rank := (t: Symbol) => if t.Config? then 1 else 0;
    forall x: Symbol, t: Symbol | DependsOn(Def(k, x), t)
      ensures rank(t) < rank(x)
    {
      assert x == s;
      if RangeMentions(d.ranges[0], t) { assert t == r.low || t == r.high; }
    }
    v := SolutionExists(k, rank);
    assert v(r.low) == Step(k, r.low, v) && v(r.high) == Step(k, r.high, v);
    assert PromptsValue(d.prompts[..0], v) == NO;
    assert PromptsValue(d.prompts, v) == YES;
    assert ActiveRange(d.ranges, v) == Some(r);
  }

  /** A number under an empty range does not last: it changes from one bound to the other.
      Any two numbers the wrong way round do. */
  lemma EmptyRangeLosesNumber(low: string, high: string) returns (k: Kconfig, v: Valuation, s: Symbol)
    requires StringValid(Int, low) && StringValid(Int, high) && LeadingNumber(low, 10) > LeadingNumber(high, 10)
    ensures Solves(k, v) && ProperUsers(k) && BoundsAreProper(k, s, v)
    ensures v(s).str in {low, high} && !NumberLasts(k, s, v)
  {
    k, v, s := BoundedNumber(low, high);
    assert v(s) == Step(k, s, v);
    assert v(s).str == Validated(k, s, StringOf(k, s, v), v);
    NumberLastsIff(k, s, v);
  }

  // ----- a saved file reads back as unchanged -----

  /** The configuration that was read disagrees with the calculated one about a symbol. */
  predicate NeedsSaving(k: Kconfig, s: Symbol, v: Valuation) {
    var user := Def(k, s).user;
    if user.Some? && Written(k, s, v) then !SameValue(TypeOf(s), user.value, v(s))
    else user.Some? || Written(k, s, v)
  }

  /** After a reload no symbol needs saving, except a number whose default is not one. */
  lemma {:induction false} SavedFileIsUpToDate(k: Kconfig, v: Valuation, names: map<string, Symbol>, entries: seq<Symbol>, s: Symbol)
    requires Solves(k, v) && CoversWritten(k, v, entries) && Named(entries, names) && s.Config?
    ensures NeedsSaving(Load(k, names, Save(k, v, entries)), s, v) <==>
      Written(k, s, v) && IsNumber(TypeOf(s)) && !StringValid(TypeOf(s), v(s).str)
  {
    var k' := Load(k, names, Save(k, v, entries));
    SolutionIsAdmissible(k, v);
    LoadAfterSave(k, v, names, entries, s);
    WrittenIgnoresUser(k, k', s, v, SavedUser(k, v, entries, s));
    if Written(k, s, v) {
      assert AdmissibleValue(s, v(s));
      ReadUndoesPrint(s.name, s.ty, v(s));
    }
  }

  /** Saving what was loaded gives the same file. */
  lemma {:induction false} SaveAgain(k: Kconfig, k': Kconfig, v: Valuation, entries: seq<Symbol>)
    requires k'.modules == k.modules
    requires forall s: Symbol :: Def(k', s) == Def(k, s).(user := Def(k', s).user)
    ensures Save(k', v, entries) == Save(k, v, entries)
  {
    if entries != [] {
      var s := entries[|entries| - 1];
      SaveAgain(k, k', v, entries[..|entries| - 1]);
      WrittenIgnoresUser(k, k', s, v, Def(k', s).user);
    }
  }

  /** Whether the line of a symbol survives as one line of text. */
  predicate OneLine(s: Symbol, x: SymVal) {
    s.Config? && '\n' !in s.name && (s.ty.String? ==> '\n' !in x.str) && (IsNumber(s.ty) ==> LineSafe(x.str))
  }

  ghost predicate OneLineEach(k: Kconfig, v: Valuation, entries: seq<Symbol>) {
    forall s :: s in entries && LineOf(k, v, s).Some? ==> OneLine(s, v(s))
  }

  lemma {:induction false} SavedLinesAreSafe(k: Kconfig, v: Valuation, entries: seq<Symbol>)
    requires OneLineEach(k, v, entries)
    ensures forall i :: 0 <= i < |Save(k, v, entries)| ==> LineSafe(Save(k, v, entries)[i])
  {
    if entries != [] {
      var front, s := entries[..|entries| - 1], entries[|entries| - 1];
      SavedLinesAreSafe(k, v, front);
      if LineOf(k, v, s).Some? { PrintedLineIsSafe(s.name, s.ty, v(s)); }
    }
  }

  /** The text of the file splits into the lines that were written. */
  lemma {:induction false} SavedTextReadsBack(k: Kconfig, v: Valuation, entries: seq<Symbol>)
    requires OneLineEach(k, v, entries)
    ensures SplitLines(JoinLines(Save(k, v, entries))) == Save(k, v, entries)
  {
    SavedLinesAreSafe(k, v, entries);
    SplitUndoesJoin(Save(k, v, entries));
  }

  /** Through the text of the file: what is loaded from the text that was saved has the
      same values if and only if all last. */
  lemma {:induction false} SaveThenLoadText(k: Kconfig, rank: Symbol -> nat, v: Valuation, w: Valuation, names: map<string, Symbol>, entries: seq<Symbol>)
    requires Ranked(k, rank) && NamedUsers(k) && Solves(k, v) && CoversWritten(k, v, entries) && Named(entries, names)
    requires OneLineEach(k, v, entries)
    requires Solves(Load(k, names, SplitLines(JoinLines(Save(k, v, entries)))), w)
    ensures (forall s: Symbol :: w(s) == v(s)) <==> AllLasting(k, v)
  {
    SavedTextReadsBack(k, v, entries);
    SaveThenLoad(k, rank, v, w, names, entries);
  }

  /** Saving changes nothing else: the solution stays one exactly when all values last. */
  lemma {:induction false} ReloadKeepsSolution(k: Kconfig, rank: Symbol -> nat, v: Valuation, names: map<string, Symbol>, entries: seq<Symbol>)
    requires Ranked(k, rank) && NamedUsers(k) && Solves(k, v) && CoversWritten(k, v, entries) && Named(entries, names)
    ensures var k' := Load(k, names, Save(k, v, entries));
      Ranked(k', rank) && (Solves(k', v) <==> AllLasting(k, v)) && Save(k', v, entries) == Save(k, v, entries)
  {
    var k' := Load(k, names, Save(k, v, entries));
    SolutionIsAdmissible(k, v);
    LoadKeepsRank(k, v, names, entries, rank);
    LoadAfterSave(k, v, names, entries, Yes);
    forall s: Symbol ensures Def(k', s) == Def(k, s).(user := Def(k', s).user) {
      LoadAfterSave(k, v, names, entries, s);
    }
    SaveAgain(k, k', v, entries);
    var w := SolutionExists(k', rank);
    SaveThenLoad(k, rank, v, w, names, entries);
    if Solves(k', v) {
      forall s: Symbol ensures w(s) == v(s) { SolutionIsUnique(k', rank, w, v, s); }
    } else if AllLasting(k, v) {
      forall s: Symbol ensures v(s) == Step(k', s, v) { assert w(s) == Step(k', s, w); StepAgrees(k', s, v, w); }
    }
  }

  /** The configuration in memory, read from and written to the text of files. */
  class Configuration {
    var k: Kconfig

    constructor (k: Kconfig)
      ensures this.k == k
    {
      this.k := k;
    }

    method Read(names: map<string, Symbol>, text: string)
      modifies this
      ensures k == Load(old(k), names, SplitLines(text))
    {
      ghost var k0 := k;
      k := Forget(k);
      var lines := SplitLines(text);
      for i := 0 to |lines|
        invariant k == Load(k0, names, lines[..i])
      {
        assert lines[..i + 1][..i] == lines[..i];
        var e := ParseLine(lines[i]);
        if e.None? || e.value.name !in names { continue; }
        var s := names[e.value.name];
        var x := SetSymVal(TypeOf(s), e.value.value, false);
        if x.Stored? {
          k := WithUser(k, s, x.value);
        }
      }
      assert lines[..|lines|] == lines;
    }

    method Write(v: Valuation, entries: seq<Symbol>) returns (text: string)
      ensures text == JoinLines(Save(k, v, entries))
    {
      text := "";
      ghost var lines := [];
      var written := {};
      for i := 0 to |entries|
        invariant lines == Save(k, v, entries[..i]) && text == JoinLines(lines)
        invariant forall s :: s in written <==> s in entries[..i] && LineOf(k, v, s).Some?
      {
        var s := entries[i];
        assert entries[..i + 1][..i] == entries[..i] && entries[..i + 1] == entries[..i] + [s];
        var line := LineOf(k, v, s);
        if s !in written && line.Some? {
          JoinOneMore(lines, line.value);
          written := written + {s};
          text := text + line.value + "\n";
          lines := lines + [line.value];
        }
      }
      assert entries[..|entries|] == entries;
    }

    /** Writes a file and reads it back in. The values are the same afterwards if and only
        if all last, and the same file would be written again. */
    method WriteAndRead(ghost rank: Symbol -> nat, v: Valuation, names: map<string, Symbol>, entries: seq<Symbol>) returns (text: string)
      requires Ranked(k, rank) && NamedUsers(k) && Solves(k, v) && CoversWritten(k, v, entries) && Named(entries, names)
      requires OneLineEach(k, v, entries)
      modifies this
      ensures Ranked(k, rank) && (Solves(k, v) <==> AllLasting(old(k), v))
      ensures text == JoinLines(Save(old(k), v, entries)) == JoinLines(Save(k, v, entries))
    {
      SavedTextReadsBack(k, v, entries);
      ReloadKeepsSolution(k, rank, v, names, entries);
      text := Write(v, entries);
      Read(names, text);
    }
  }
}
