/** The files that stand for single symbols: which of them are touched because an entry
    of the automatic configuration changes. */
module TouchDeps {
  import opened Symbols
  import opened Exprs
  import opened ConfFile

  /** What is about to be written: the symbols in the table, which of them are written,
      and their values. */
  datatype Table = Table(syms: seq<Symbol>, written: set<Symbol>, values: Valuation)

  /** The symbol found under a name. */
  function Lookup(syms: seq<Symbol>, name: string): (r: Option<Symbol>)
    ensures r.Some? ==> r.value in syms && r.value.Config? && r.value.name == name
  {
    if syms == [] then None
    else if syms[0].Config? && syms[0].name == name then Some(syms[0])
    else Lookup(syms[1..], name)
  }

  predicate UniqueNames(syms: seq<Symbol>) {
    forall i, j :: 0 <= i < j < |syms| && syms[i].Config? && syms[j].Config? ==> syms[i].name != syms[j].name
  }

  /** The value an entry of the new file has; n is never written. */
  function NewEntry(t: Table, name: string): Option<string> {
    var s := Lookup(t.syms, name);
    if s.None? || s.value !in t.written || s.value.ty.Unknown? then None
    else if IsLogic(s.value) && t.values(s.value).tri == NO then None
    else Some(StringValue(s.value, t.values(s.value)))
  }

  /** The value the last line for a name gives it in the old file. */
  function OldEntry(old_: seq<Entry>, name: string): Option<string> {
    if old_ == [] then None
    else if old_[|old_| - 1].name == name then Some(old_[|old_| - 1].value)
    else OldEntry(old_[..|old_| - 1], name)
  }

  /** An entry as this program writes it for a symbol of the type. */
  predicate ValidEntry(ty: SymbolType, value: string) {
    match ty
    case Boolean => value == "y"
    case Trivalent => value == "y" || value == "m"
    case Unknown => true
    case _ => StringValid(ty, value)
  }

  predicate ValidFile(t: Table, old_: seq<Entry>) {
    forall i :: 0 <= i < |old_| ==>
      var s := Lookup(t.syms, old_[i].name); s.Some? ==> ValidEntry(s.value.ty, old_[i].value)
  }

  /** The name is still mentioned but its symbol has lost its definition. */
  predicate Undefined(t: Table, name: string) {
    var s := Lookup(t.syms, name); s.Some? && s.value.ty.Unknown?
  }

  /** An entry of the new file: y or m, or the text, of a symbol that is written; n has none. */
  lemma NewEntryIs(t: Table, s: Symbol)
    requires s.Config? && Lookup(t.syms, s.name) == Some(s)
    ensures s !in t.written || s.ty == Unknown ==> NewEntry(t, s.name) == None
    ensures s in t.written && (s.ty == Boolean || s.ty == Trivalent) ==>
      NewEntry(t, s.name) == if t.values(s).tri == YES then Some("y") else if t.values(s).tri == MOD then Some("m") else None
    ensures s in t.written && (s.ty == Int || s.ty == Hex || s.ty == String) ==> NewEntry(t, s.name) == Some(t.values(s).str)
  {
  }

  /** An entry of the old file: what its last line for the name says. */
  lemma {:induction false} OldEntryIs(old_: seq<Entry>, i: nat)
    requires i < |old_| && forall j :: i < j < |old_| ==> old_[j].name != old_[i].name
    ensures OldEntry(old_, old_[i].name) == Some(old_[i].value)
  {
    if i < |old_| - 1 { OldEntryIs(old_[..|old_| - 1], i); }
  }

  // ----- what is touched -----

  /** The value stored for a symbol by reading the old file. */
  function AutoValue(old_: seq<Entry>, s: Symbol): Option<SymVal>
    requires s.Config?
  {
    if old_ == [] then None
    else
      var e := old_[|old_| - 1];
      var x := SetSymVal(s.ty, e.value, true);
      if e.name == s.name && x.Stored? then Some(x.value) else AutoValue(old_[..|old_| - 1], s)
  }

  /** Whether the source touches the file of a symbol in the table. */
  predicate Touches(written: bool, auto: Option<SymVal>, s: Symbol, x: SymVal)
    requires s.Config?
  {
    if written then
      if auto.Some? then s.ty.Unknown? || !SameValue(s.ty, auto.value, x)
      else !(IsLogic(s) && x.tri == NO)
    else auto.Some?
  }

  function UnknownNames(t: Table, old_: seq<Entry>): set<string> {
    set e | e in old_ && Lookup(t.syms, e.name).None? :: e.name
  }

  predicate TouchesSymbol(t: Table, old_: seq<Entry>, s: Symbol) {
    s.Config? && Touches(s in t.written, AutoValue(old_, s), s, t.values(s))
  }

  function TouchedSymbols(t: Table, old_: seq<Entry>, syms: seq<Symbol>): set<string> {
    if syms == [] then {}
    else
      var s := syms[|syms| - 1];
      TouchedSymbols(t, old_, syms[..|syms| - 1]) + (if TouchesSymbol(t, old_, s) then {s.name} else {})
  }

  lemma {:induction false} TouchedSymbolsAre(t: Table, old_: seq<Entry>, syms: seq<Symbol>, name: string)
    ensures name in TouchedSymbols(t, old_, syms) <==> exists s :: s in syms && TouchesSymbol(t, old_, s) && s.name == name
  {
    if syms != [] {
      TouchedSymbolsAre(t, old_, syms[..|syms| - 1], name);
      assert syms == syms[..|syms| - 1] + [syms[|syms| - 1]];
    }
  }

  lemma {:induction false} LookupFinds(syms: seq<Symbol>, s: Symbol)
    requires UniqueNames(syms) && s in syms && s.Config?
    ensures Lookup(syms, s.name) == Some(s)
  {
    if syms[0] != s {
      var i :| 0 <= i < |syms| && syms[i] == s;
      assert UniqueNames(syms[1..]);
      LookupFinds(syms[1..], s);
    }
  }

  lemma {:induction false} OldEntryIsListed(old_: seq<Entry>, name: string)
    ensures OldEntry(old_, name).Some? <==> exists e :: e in old_ && e.name == name
  {
    if old_ != [] {
      OldEntryIsListed(old_[..|old_| - 1], name);
      assert old_ == old_[..|old_| - 1] + [old_[|old_| - 1]];
    }
  }

  /** With valid entries, the value read for a defined symbol is the last entry of its name. */
  lemma {:induction false} AutoValueIsOldEntry(t: Table, old_: seq<Entry>, s: Symbol)
    requires s.Config? && !s.ty.Unknown? && Lookup(t.syms, s.name) == Some(s) && ValidFile(t, old_)
    ensures var e, x := OldEntry(old_, s.name), AutoValue(old_, s);
      (e.Some? <==> x.Some?) && (e.Some? ==> e.value == StringValue(s, x.value) && ValidEntry(s.ty, e.value))
  {
    if old_ != [] {
      var front, e := old_[..|old_| - 1], old_[|old_| - 1];
      forall i | 0 <= i < |front|
        ensures var r := Lookup(t.syms, front[i].name); r.Some? ==> ValidEntry(r.value.ty, front[i].value)
      {
        assert front[i] == old_[i];
      }
      AutoValueIsOldEntry(t, front, s);
      if e.name == s.name {
        assert ValidEntry(s.ty, e.value);
      }
    }
  }

  /** For a symbol that is defined, the comparison of the source is a comparison of entries. */
  lemma TouchesIfDifferent(t: Table, old_: seq<Entry>, s: Symbol)
    requires s.Config? && !s.ty.Unknown? && Lookup(t.syms, s.name) == Some(s) && ValidFile(t, old_)
    ensures Touches(s in t.written, AutoValue(old_, s), s, t.values(s)) <==> OldEntry(old_, s.name) != NewEntry(t, s.name)
  {
    AutoValueIsOldEntry(t, old_, s);
  }

  lemma {:induction false} UndefinedHasNoValue(old_: seq<Entry>, s: Symbol)
    requires s.Config? && s.ty.Unknown?
    ensures AutoValue(old_, s) == None
  {
    if old_ != [] { UndefinedHasNoValue(old_[..|old_| - 1], s); }
  }

  /** Exactly the names whose entry changes are touched, names that vanished included;
      only a name that is still mentioned without being defined is passed over. */
  lemma TouchedIsChanged(t: Table, old_: seq<Entry>, name: string)
    requires UniqueNames(t.syms) && ValidFile(t, old_)
    requires forall s :: s in t.written ==> s.Config? && !s.ty.Unknown?
    ensures name in UnknownNames(t, old_) + TouchedSymbols(t, old_, t.syms) <==>
      OldEntry(old_, name) != NewEntry(t, name) && !Undefined(t, name)
  {
    var r := Lookup(t.syms, name);
    OldEntryIsListed(old_, name);
    TouchedSymbolsAre(t, old_, t.syms, name);
    forall s | s in t.syms && s.Config? && s.name == name
      ensures r == Some(s)
    {
      LookupFinds(t.syms, s);
    }
    if r.Some? {
      var s := r.value;
      if s.ty.Unknown? { UndefinedHasNoValue(old_, s); } else { TouchesIfDifferent(t, old_, s); }
    }
  }

  /** A name that lost its definition but is still mentioned: its entry vanishes, and its
      file is not touched. */
  lemma UndefinedNameIsMissed()
    ensures var t, old_ := Table([Config("A", Unknown)], {}, (s: Symbol) => SymVal(NO, "")), [Entry("A", "y")];
      ValidFile(t, old_) && OldEntry(old_, "A") != NewEntry(t, "A") && "A" !in UnknownNames(t, old_) + TouchedSymbols(t, old_, t.syms)
  {
    var t, old_ := Table([Config("A", Unknown)], {}, (s: Symbol) => SymVal(NO, "")), [Entry("A", "y")];
    assert Lookup(t.syms, "A") == Some(Config("A", Unknown));
    TouchedIsChanged(t, old_, "A");
  }

  /** Reads the old file and touches what changes. */
  class Tracker {
    var auto: map<Symbol, SymVal>
    var touched: set<string>

    constructor ()
      ensures touched == {}
    {
      auto, touched := map[], {};
    }

    method ReadOld(t: Table, old_: seq<Entry>)
      requires UniqueNames(t.syms)
      modifies this
      ensures forall s :: s in t.syms && s.Config? ==> AutoValue(old_, s) == if s in auto then Some(auto[s]) else None
      ensures touched == old(touched) + UnknownNames(t, old_)
    {
      auto := map[];
      for i := 0 to |old_|
        invariant forall s :: s in t.syms && s.Config? ==> AutoValue(old_[..i], s) == if s in auto then Some(auto[s]) else None
        invariant touched == old(touched) + UnknownNames(t, old_[..i])
      {
        assert old_[..i + 1][..i] == old_[..i] && old_[..i + 1] == old_[..i] + [old_[i]];
        var e := old_[i];
        var s := Lookup(t.syms, e.name);
        forall r | r in t.syms && r.Config? && r.name == e.name ensures s == Some(r) { LookupFinds(t.syms, r); }
        if s.None? {
          touched := touched + {e.name};
        } else {
          var x := SetSymVal(s.value.ty, e.value, true);
          if x.Stored? {
            auto := auto[s.value := x.value];
          }
        }
      }
      assert old_[..|old_|] == old_;
    }

    method TouchDeps(t: Table, old_: seq<Entry>)
      requires UniqueNames(t.syms) && ValidFile(t, old_)
      requires forall s :: s in t.written ==> s.Config? && !s.ty.Unknown?
      modifies this
      ensures forall name :: name in touched <==>
        name in old(touched) || (OldEntry(old_, name) != NewEntry(t, name) && !Undefined(t, name))
    {
      ReadOld(t, old_);
      ghost var before := touched;
      for i := 0 to |t.syms|
        invariant forall s :: s in t.syms && s.Config? ==> AutoValue(old_, s) == if s in auto then Some(auto[s]) else None
        invariant touched == before + TouchedSymbols(t, old_, t.syms[..i])
      {
        assert t.syms[..i + 1][..i] == t.syms[..i];
        var s := t.syms[i];
        if !s.Config? { continue; }
        if s in t.written {
          if s in auto {
            if !s.ty.Unknown? && SameValue(s.ty, auto[s], t.values(s)) { continue; }
          } else if IsLogic(s) && t.values(s).tri == NO { continue; }
        } else if s !in auto { continue; }
        touched := touched + {s.name};
      }
      assert t.syms[..|t.syms|] == t.syms;
      forall name
        ensures name in touched <==>
          name in old(touched) || (OldEntry(old_, name) != NewEntry(t, name) && !Undefined(t, name))
      {
        TouchedIsChanged(t, old_, name);
      }
    }
  }
}
