/** Which member of a choice is picked, read off its members, defaults, entries and user
    values by their places. */
module ChoiceLaws {
  import opened Symbols
  import opened Exprs
  import opened ChoiceGroup

  predicate Shown(g: Group, s: Symbol) { s in g.visible && g.visible[s] != NO }

  predicate Asked(g: Group, s: Symbol) { Shown(g, s) && s in g.user && g.user[s] == YES }

  predicate SetToNo(g: Group, s: Symbol) { s in g.user && g.user[s] == NO }

  predicate Applies(g: Group, d: Default) { d.condition != NO && Shown(g, d.sym) }

  // ----- the first, or last, of its kind -----

  lemma {:induction false} FirstWantedAt(g: Group, l: seq<Symbol>, i: nat)
    requires i < |l| && Asked(g, l[i]) && forall j :: 0 <= j < i ==> !Asked(g, l[j])
    ensures FirstWanted(g, l) == Some(l[i])
  {
    if i > 0 { FirstWantedAt(g, l[1..], i - 1); }
  }

  lemma {:induction false} NoneIsWanted(g: Group, l: seq<Symbol>)
    requires forall j :: 0 <= j < |l| ==> !Asked(g, l[j])
    ensures FirstWanted(g, l) == None
  {
    if l != [] { NoneIsWanted(g, l[1..]); }
  }

  lemma {:induction false} FirstDefaultAt(g: Group, ds: seq<Default>, i: nat)
    requires i < |ds| && Applies(g, ds[i]) && forall j :: 0 <= j < i ==> !Applies(g, ds[j])
    ensures NamedDefault(g, ds) == Some(ds[i].sym)
  {
    if i > 0 { FirstDefaultAt(g, ds[1..], i - 1); }
  }

  lemma {:induction false} NoDefaultApplies(g: Group, ds: seq<Default>)
    requires forall j :: 0 <= j < |ds| ==> !Applies(g, ds[j])
    ensures NamedDefault(g, ds) == None
  {
    if ds != [] { NoDefaultApplies(g, ds[1..]); }
  }

  predicate ShownIn(g: Group, e: Option<Symbol>) { e.Some? && Shown(g, e.value) }

  predicate UnsetIn(g: Group, e: Option<Symbol>) { ShownIn(g, e) && e.value !in g.user }

  lemma {:induction false} FirstVisibleAt(g: Group, l: seq<Option<Symbol>>, i: nat)
    requires i < |l| && ShownIn(g, l[i]) && forall j :: 0 <= j < i ==> !ShownIn(g, l[j])
    ensures FirstVisible(g, l) == l[i]
  {
    if i > 0 { FirstVisibleAt(g, l[1..], i - 1); }
  }

  lemma {:induction false} NoneIsVisible(g: Group, l: seq<Option<Symbol>>)
    requires forall j :: 0 <= j < |l| ==> !ShownIn(g, l[j])
    ensures FirstVisible(g, l) == None
  {
    if l != [] { NoneIsVisible(g, l[1..]); }
  }

  lemma {:induction false} FirstUnsetAt(g: Group, l: seq<Option<Symbol>>, i: nat)
    requires i < |l| && UnsetIn(g, l[i]) && forall j :: 0 <= j < i ==> !UnsetIn(g, l[j])
    ensures FirstUnset(g, l) == l[i]
  {
    if i > 0 { FirstUnsetAt(g, l[1..], i - 1); }
  }

  lemma {:induction false} NoneIsUnset(g: Group, l: seq<Option<Symbol>>)
    requires forall j :: 0 <= j < |l| ==> !UnsetIn(g, l[j])
    ensures FirstUnset(g, l) == None
  {
    if l != [] { NoneIsUnset(g, l[1..]); }
  }

  lemma {:induction false} LastVisibleAt(g: Group, l: seq<Symbol>, i: nat)
    requires i < |l| && Shown(g, l[i]) && forall j :: i < j < |l| ==> !Shown(g, l[j])
    ensures LastVisible(g, l) == Some(l[i])
  {
    if i < |l| - 1 { LastVisibleAt(g, l[..|l| - 1], i); }
  }

  lemma {:induction false} NoMemberIsVisible(g: Group, l: seq<Symbol>)
    requires forall j :: 0 <= j < |l| ==> !Shown(g, l[j])
    ensures LastVisible(g, l) == None
  {
    if l != [] { NoMemberIsVisible(g, l[..|l| - 1]); }
  }

  // ----- the pick -----

  /** The first visible member that the user set to y is picked. */
  lemma WantedIsPicked(g: Group, ds: seq<Default>, i: nat)
    requires i < |g.members| && Asked(g, g.members[i]) && forall j :: 0 <= j < i ==> !Asked(g, g.members[j])
    ensures Pick(g, ds) == Some(g.members[i])
  {
    FirstWantedAt(g, g.members, i);
  }

  ghost predicate NobodyAsked(g: Group) { forall j :: 0 <= j < |g.members| ==> !Asked(g, g.members[j]) }

  /** The default at place `i` is in force: the first whose condition is not n and whose
      symbol is visible. */
  ghost predicate DefaultAt(g: Group, ds: seq<Default>, i: int) {
    0 <= i < |ds| && Applies(g, ds[i]) && forall j :: 0 <= j < i ==> !Applies(g, ds[j])
  }

  ghost predicate FirstShownEntry(g: Group, i: int) {
    0 <= i < |g.entries| && ShownIn(g, g.entries[i]) && forall j :: 0 <= j < i ==> !ShownIn(g, g.entries[j])
  }

  /** Without one, the default in force is picked unless the user set it to n. */
  lemma DefaultIsPicked(g: Group, ds: seq<Default>, i: int)
    requires NobodyAsked(g) && DefaultAt(g, ds, i) && !SetToNo(g, ds[i].sym)
    ensures Pick(g, ds) == Some(ds[i].sym)
  {
    NoneIsWanted(g, g.members);
    FirstDefaultAt(g, ds, i);
  }

  /** With no default in force, the first visible entry is, unless the user set it to n. */
  lemma FirstEntryIsPicked(g: Group, ds: seq<Default>, i: int)
    requires NobodyAsked(g) && (forall j :: 0 <= j < |ds| ==> !Applies(g, ds[j]))
    requires FirstShownEntry(g, i) && !SetToNo(g, g.entries[i].value)
    ensures Pick(g, ds) == g.entries[i]
  {
    NoneIsWanted(g, g.members);
    NoDefaultApplies(g, ds);
    FirstVisibleAt(g, g.entries, i);
  }

  /** The default in force, or else the first visible entry, was set to n by the user. */
  ghost predicate DefaultRefused(g: Group, ds: seq<Default>) {
    (exists i :: DefaultAt(g, ds, i) && SetToNo(g, ds[i].sym)) ||
    ((forall j :: 0 <= j < |ds| ==> !Applies(g, ds[j])) && exists i :: FirstShownEntry(g, i) && SetToNo(g, g.entries[i].value))
  }

  lemma RefusedIsPassedOver(g: Group, ds: seq<Default>)
    requires NobodyAsked(g) && DefaultRefused(g, ds)
    ensures Pick(g, ds) == if FirstUnset(g, g.entries).Some? then FirstUnset(g, g.entries) else LastVisible(g, g.members)
  {
    NoneIsWanted(g, g.members);
    if forall j :: 0 <= j < |ds| ==> !Applies(g, ds[j]) {
      var i :| FirstShownEntry(g, i) && SetToNo(g, g.entries[i].value);
      NoDefaultApplies(g, ds);
      FirstVisibleAt(g, g.entries, i);
    } else {
      var i :| DefaultAt(g, ds, i) && SetToNo(g, ds[i].sym);
      FirstDefaultAt(g, ds, i);
    }
  }

  /** If it was, the first visible entry without a user value is picked, ... */
  lemma UnsetEntryIsPicked(g: Group, ds: seq<Default>, i: nat)
    requires NobodyAsked(g) && DefaultRefused(g, ds)
    requires i < |g.entries| && UnsetIn(g, g.entries[i]) && forall j :: 0 <= j < i ==> !UnsetIn(g, g.entries[j])
    ensures Pick(g, ds) == g.entries[i]
  {
    RefusedIsPassedOver(g, ds);
    FirstUnsetAt(g, g.entries, i);
  }

  /** ... and without such an entry the visible member that stands last in the list. */
  lemma LastMemberIsPicked(g: Group, ds: seq<Default>, i: nat)
    requires NobodyAsked(g) && DefaultRefused(g, ds) && (forall j :: 0 <= j < |g.entries| ==> !UnsetIn(g, g.entries[j]))
    requires i < |g.members| && Shown(g, g.members[i]) && forall j :: i < j < |g.members| ==> !Shown(g, g.members[j])
    ensures Pick(g, ds) == Some(g.members[i])
  {
    RefusedIsPassedOver(g, ds);
    NoneIsUnset(g, g.entries);
    LastVisibleAt(g, g.members, i);
  }

  /** Where no member, entry or default is visible, nothing is picked. */
  lemma NothingIsPicked(g: Group, ds: seq<Default>)
    requires forall j :: 0 <= j < |g.members| ==> !Shown(g, g.members[j])
    requires forall j :: 0 <= j < |g.entries| ==> !ShownIn(g, g.entries[j])
    requires forall j :: 0 <= j < |ds| ==> !Shown(g, ds[j].sym)
    ensures Pick(g, ds) == None
  {
    NoneIsWanted(g, g.members);
    NoDefaultApplies(g, ds);
    NoneIsVisible(g, g.entries);
    NoneIsUnset(g, g.entries);
    NoMemberIsVisible(g, g.members);
  }

  // ----- what refreshing and deciding leave alone -----

  predicate AskedNow(g: Group, now: Levels, s: Symbol) { now(s) != NO && s in g.user && g.user[s] == YES }

  /** Visibilities are refreshed up to the first member that is visible now and was set to
      y by the user, or to the end; all others stay. */
  lemma {:induction false} RefreshedUpTo(g: Group, now: Levels, n: nat, s: Symbol)
    requires n <= |g.members| && (forall j :: 0 <= j < n - 1 ==> !AskedNow(g, now, g.members[j]))
    requires n == |g.members| || (n > 0 && AskedNow(g, now, g.members[n - 1]))
    ensures Level(Refreshed(g, now).visible, s) == if s in g.members[..n] then now(s) else Level(g.visible, s)
    ensures Refreshed(g, now) == g.(visible := Refreshed(g, now).visible)
  {
    ScannedUpTo(g, g.members, now, n);
    RefreshAllLevel(g.visible, g.members[..n], now, s);
  }

  lemma {:induction false} ScannedUpTo(g: Group, l: seq<Symbol>, now: Levels, n: nat)
    requires n <= |l| && (forall j :: 0 <= j < n - 1 ==> !AskedNow(g, now, l[j]))
    requires n == |l| || (n > 0 && AskedNow(g, now, l[n - 1]))
    ensures Scanned(l, g.user, now) == n
  {
    if n > 1 {
      ScannedUpTo(g, l[1..], now, n - 1);
    } else if n == 1 && !AskedNow(g, now, l[0]) {
      ScannedUpTo(g, l[1..], now, 0);
    }
  }

  /** Of the symbols, the visible entries get y if picked and n otherwise; all others keep
      the value they had. */
  lemma DecidedValues(g: Group, curr: map<Symbol, Tristate>, res: Option<Symbol>, s: Symbol)
    ensures Level(Decided(g, curr, res), s) ==
      if Some(s) in g.entries && Shown(g, s) then (if res == Some(s) then YES else NO) else Level(curr, s)
  {
    SettleLookup(g, curr, g.entries, res, s);
  }

  // ----- the list after a selection -----

  /** The last place among the entries at which the symbol stands and is visible. */
  ghost predicate LastPlace(g: Group, l: seq<Option<Symbol>>, s: Symbol, i: int) {
    -1 <= i < |l| && (i >= 0 ==> l[i] == Some(s) && Shown(g, s)) &&
    forall j :: i < j < |l| ==> !(l[j] == Some(s) && Shown(g, s))
  }

  lemma {:induction false} LastPlaceIsLast(g: Group, l: seq<Option<Symbol>>, s: Symbol, i: int)
    requires l != [] && LastPlace(g, l, s, i)
    ensures i == |l| - 1 <==> l[|l| - 1] == Some(s) && Shown(g, s)
  {
  }

  lemma PromotedOnce(g: Group, l: seq<Option<Symbol>>)
    requires l != []
    ensures var before, e := Promote(g, l[..|l| - 1]), l[|l| - 1];
      Promote(g, l) == if ShownIn(g, e) then MoveToFront(before, e.value) else before
  {
  }

  /** After a selection the visible entries come first, the last of the menu before all
      others, and the rest follow in the order they had. */
  lemma {:induction false} PromotedOrder(g: Group, l: seq<Option<Symbol>>, a: Symbol, b: Symbol, i: int, j: int)
    requires a in g.members && b in g.members && a != b && LastPlace(g, l, a, i) && LastPlace(g, l, b, j)
    ensures a in Promote(g, l) && b in Promote(g, l)
    ensures Precedes(Promote(g, l), a, b) <==> i > j || (i == j == -1 && Precedes(g.members, a, b))
  {
    if l != [] {
      var before, e := Promote(g, l[..|l| - 1]), l[|l| - 1];
      var i' := PlaceBefore(g, l, a, i);
      var j' := PlaceBefore(g, l, b, j);
      PromotedOrder(g, l[..|l| - 1], a, b, i', j');
      PromotedOnce(g, l);
      LastPlaceIsLast(g, l, a, i);
      LastPlaceIsLast(g, l, b, j);
      if ShownIn(g, e) { MoveToFrontOrder(before, e.value, a, b); }
    }
  }

  lemma {:induction false} PlaceBefore(g: Group, l: seq<Option<Symbol>>, s: Symbol, i: int) returns (i': int)
    requires l != [] && LastPlace(g, l, s, i)
    ensures LastPlace(g, l[..|l| - 1], s, i') && (i < |l| - 1 ==> i' == i)
  {
    i' := if i < |l| - 1 then i else |l| - 2;
    while i' >= 0 && !(l[i'] == Some(s) && Shown(g, s))
      invariant -1 <= i' < |l| - 1 && (i < |l| - 1 ==> i' == i)
      invariant forall j :: i' < j < |l| - 1 ==> !(l[j] == Some(s) && Shown(g, s))
    {
      i' := i' - 1;
    }
  }

  /** A selection sets the visible entries to y or n for the user, and no others. */
  lemma SelectionSets(g: Group, sym: Symbol, s: Symbol)
    ensures var u := Chosen(g, sym).user;
      if Some(s) in g.entries && Shown(g, s) then s in u && u[s] == (if s == sym then YES else NO)
      else (s in u <==> s in g.user) && (s in u ==> u[s] == g.user[s])
    ensures Chosen(g, sym).visible == g.visible && Chosen(g, sym).entries == g.entries
  {
    SettleLookup(g, g.user, g.entries, Some(sym), s);
  }
}
