/** Choice blocks: which member of a group of mutually exclusive symbols is the one
    with value y. */
module ChoiceGroup {
  import opened Symbols
  import opened Exprs
  import opened Sequences

  /** The visibility a symbol has when it is calculated now. */
  type Levels = Symbol -> Tristate

  /** A default of the choice: the value of its condition and the symbol it names. */
  datatype Default = Default(condition: Tristate, sym: Symbol)

  /** `entries` are the menu entries of the block (a comment has no symbol); `members`
      is the priority list; `visible` holds the visibilities stored so far, and `user`
      the user values, absent where none was given. */
  datatype Group = Group(entries: seq<Option<Symbol>>, members: seq<Symbol>,
    visible: map<Symbol, Tristate>, user: map<Symbol, Tristate>)

  function Level(m: map<Symbol, Tristate>, s: Symbol): Tristate { if s in m then m[s] else NO }

  predicate Listed(entries: seq<Option<Symbol>>, s: Symbol) { Some(s) in entries }

  function SymbolsIn(entries: seq<Option<Symbol>>): set<Symbol> {
    set e | e in entries && e.Some? :: e.value
  }

  predicate Visible(g: Group, s: Symbol) { Level(g.visible, s) != NO }

  /** The stored-visible symbols among the entries. */
  function VisibleEntries(g: Group): set<Symbol> {
    set s | s in SymbolsIn(g.entries) && Visible(g, s)
  }

  predicate UserYes(user: map<Symbol, Tristate>, s: Symbol) { s in user && user[s] == YES }

  predicate Wanted(g: Group, s: Symbol) { Visible(g, s) && UserYes(g.user, s) }

  predicate Refused(g: Group, s: Symbol) { s in g.user && g.user[s] == NO }

  // ----- the pick -----

  function FirstWanted(g: Group, l: seq<Symbol>): Option<Symbol> {
    if l == [] then None else if Wanted(g, l[0]) then Some(l[0]) else FirstWanted(g, l[1..])
  }

  function FirstVisible(g: Group, l: seq<Option<Symbol>>): Option<Symbol> {
    if l == [] then None
    else if l[0].Some? && Visible(g, l[0].value) then l[0]
    else FirstVisible(g, l[1..])
  }

  function FirstUnset(g: Group, l: seq<Option<Symbol>>): Option<Symbol> {
    if l == [] then None
    else if l[0].Some? && Visible(g, l[0].value) && l[0].value !in g.user then l[0]
    else FirstUnset(g, l[1..])
  }

  function LastVisible(g: Group, l: seq<Symbol>): Option<Symbol> {
    if l == [] then None
    else if Visible(g, l[|l| - 1]) then Some(l[|l| - 1])
    else LastVisible(g, l[..|l| - 1])
  }

  function NamedDefault(g: Group, defaults: seq<Default>): Option<Symbol> {
    if defaults == [] then None
    else if defaults[0].condition != NO && Visible(g, defaults[0].sym) then Some(defaults[0].sym)
    else NamedDefault(g, defaults[1..])
  }

  function DefaultOf(g: Group, defaults: seq<Default>): Option<Symbol> {
    var d := NamedDefault(g, defaults);
    if d.Some? then d else FirstVisible(g, g.entries)
  }

  function Pick(g: Group, defaults: seq<Default>): Option<Symbol> {
    var wanted, d, unset := FirstWanted(g, g.members), DefaultOf(g, defaults), FirstUnset(g, g.entries);
    if wanted.Some? then wanted
    else if d.Some? && !Refused(g, d.value) then d
    else if unset.Some? then unset
    else LastVisible(g, g.members)
  }

  // ----- refreshing the stored visibilities -----

  /** How many members are looked at: up to the first one that is visible and wanted. */
  function Scanned(l: seq<Symbol>, user: map<Symbol, Tristate>, now: Levels): (n: nat)
    ensures n <= |l|
  {
    if l == [] then 0
    else if now(l[0]) != NO && UserYes(user, l[0]) then 1
    else 1 + Scanned(l[1..], user, now)
  }

  function RefreshAll(visible: map<Symbol, Tristate>, l: seq<Symbol>, now: Levels): map<Symbol, Tristate> {
    if l == [] then visible else RefreshAll(visible, l[..|l| - 1], now)[l[|l| - 1] := now(l[|l| - 1])]
  }

  function Refreshed(g: Group, now: Levels): Group {
    g.(visible := RefreshAll(g.visible, g.members[..Scanned(g.members, g.user, now)], now))
  }

  /** The visible entries of `l` get y if picked and n otherwise. */
  function Settle(g: Group, m: map<Symbol, Tristate>, l: seq<Option<Symbol>>, pick: Option<Symbol>): map<Symbol, Tristate> {
    if l == [] then m
    else
      var e, before := l[|l| - 1], Settle(g, m, l[..|l| - 1], pick);
      if e.Some? && Visible(g, e.value) then before[e.value := if pick == e then YES else NO] else before
  }

  /** The values once `res` is picked. */
  function Decided(g: Group, curr: map<Symbol, Tristate>, res: Option<Symbol>): map<Symbol, Tristate> {
    Settle(g, curr, g.entries, res)
  }

  lemma {:induction false} RefreshAllLevel(visible: map<Symbol, Tristate>, l: seq<Symbol>, now: Levels, s: Symbol)
    ensures Level(RefreshAll(visible, l, now), s) == if s in l then now(s) else Level(visible, s)
  {
    if l != [] {
      RefreshAllLevel(visible, l[..|l| - 1], now, s);
      assert l == l[..|l| - 1] + [l[|l| - 1]];
    }
  }

  lemma {:induction false} SettleLookup(g: Group, m: map<Symbol, Tristate>, l: seq<Option<Symbol>>, pick: Option<Symbol>, s: Symbol)
    ensures var r := Settle(g, m, l, pick);
      if Listed(l, s) && Visible(g, s) then s in r && r[s] == (if pick == Some(s) then YES else NO)
      else (s in r <==> s in m) && (s in r ==> r[s] == m[s])
  {
    if l != [] {
      SettleLookup(g, m, l[..|l| - 1], pick, s);
      assert l == l[..|l| - 1] + [l[|l| - 1]];
    }
  }

  // ----- the priority list -----

  function Dropping(l: seq<Symbol>, s: Symbol): seq<Symbol> {
    if l == [] then [] else if l[0] == s then Dropping(l[1..], s) else [l[0]] + Dropping(l[1..], s)
  }

  function MoveToFront(l: seq<Symbol>, s: Symbol): seq<Symbol> { [s] + Dropping(l, s) }

  function Index(l: seq<Symbol>, s: Symbol): (i: nat)
    requires s in l
    ensures i < |l| && l[i] == s && s !in l[..i]
  {
    if l[0] == s then 0
    else
      assert l[1..][..Index(l[1..], s)] == l[1..1 + Index(l[1..], s)];
      1 + Index(l[1..], s)
  }

  predicate Precedes(l: seq<Symbol>, a: Symbol, b: Symbol)
    requires a in l && b in l
  {
    Index(l, a) < Index(l, b)
  }

  lemma {:induction false} WithoutMembers(l: seq<Symbol>, s: Symbol)
    ensures forall x :: x in Dropping(l, s) <==> x in l && x != s
    ensures Distinct(l) ==> Distinct(Dropping(l, s))
  {
    if l != [] {
      WithoutMembers(l[1..], s);
      assert forall x :: x in l <==> x == l[0] || x in l[1..];
      if Distinct(l) {
        assert l[0] !in l[1..];
      }
    }
  }

  lemma {:induction false} WithoutKeepsOrder(l: seq<Symbol>, s: Symbol, a: Symbol, b: Symbol)
    requires a in l && b in l && a != s && b != s
    ensures a in Dropping(l, s) && b in Dropping(l, s)
    ensures Precedes(Dropping(l, s), a, b) <==> Precedes(l, a, b)
  {
    WithoutMembers(l, s);
    WithoutMembers(l[1..], s);
    var w := Dropping(l[1..], s);
    assert l[0] != s ==> Dropping(l, s)[1..] == w;
    if a in l[1..] && b in l[1..] {
      WithoutKeepsOrder(l[1..], s, a, b);
    }
  }

  /** Moving an entry to the front puts it before all others and keeps their order. */
  lemma MoveToFrontOrder(l: seq<Symbol>, s: Symbol, a: Symbol, b: Symbol)
    requires a in l && b in l && a != b
    ensures a in MoveToFront(l, s) && b in MoveToFront(l, s)
    ensures Precedes(MoveToFront(l, s), a, b) <==> a == s || (b != s && Precedes(l, a, b))
  {
    WithoutMembers(l, s);
    var r := MoveToFront(l, s);
    assert r[1..] == Dropping(l, s);
    if a != s && b != s {
      WithoutKeepsOrder(l, s, a, b);
    }
  }

  lemma MoveToFrontMembers(l: seq<Symbol>, s: Symbol)
    requires Distinct(l) && s in l
    ensures Distinct(MoveToFront(l, s)) && forall x :: x in MoveToFront(l, s) <==> x in l
  {
    WithoutMembers(l, s);
  }

  // ----- the pick follows the user -----

  /** A member the user wants and that is visible when calculated now. */
  predicate WantedNow(g: Group, now: Levels, s: Symbol) {
    s in g.members && now(s) != NO && UserYes(g.user, s)
  }

  function FirstWantedNow(l: seq<Symbol>, user: map<Symbol, Tristate>, now: Levels): Option<Symbol> {
    if l == [] then None
    else if now(l[0]) != NO && UserYes(user, l[0]) then Some(l[0])
    else FirstWantedNow(l[1..], user, now)
  }

  lemma {:induction false} RefreshSeesFirst(r: Group, l: seq<Symbol>, now: Levels)
    requires forall s :: s in l[..Scanned(l, r.user, now)] ==> Level(r.visible, s) == now(s)
    ensures FirstWanted(r, l) == FirstWantedNow(l, r.user, now)
  {
    if l != [] {
      var n := Scanned(l, r.user, now);
      assert l[0] in l[..n];
      if n > 1 {
        assert l[1..][..n - 1] == l[1..n] && l[..n] == [l[0]] + l[1..n];
        RefreshSeesFirst(r, l[1..], now);
      } else if !Wanted(r, l[0]) {
        assert l[1..] == [];
      }
    }
  }

  lemma {:induction false} FirstWantedNowIsFirst(l: seq<Symbol>, user: map<Symbol, Tristate>, now: Levels, p: Symbol)
    requires p in l && now(p) != NO && UserYes(user, p)
    ensures var r := FirstWantedNow(l, user, now);
      r.Some? && r.value in l && now(r.value) != NO && UserYes(user, r.value) && (r.value == p || Precedes(l, r.value, p))
  {
    if !(now(l[0]) != NO && UserYes(user, l[0])) {
      FirstWantedNowIsFirst(l[1..], user, now, p);
    }
  }

  lemma RefreshedLevels(g: Group, now: Levels)
    ensures forall s :: s in g.members[..Scanned(g.members, g.user, now)] ==> Level(Refreshed(g, now).visible, s) == now(s)
  {
    var l := g.members[..Scanned(g.members, g.user, now)];
    forall s | s in l ensures Level(Refreshed(g, now).visible, s) == now(s) {
      RefreshAllLevel(g.visible, l, now, s);
    }
  }

  /** Although refreshing stops early, the pick is the member of highest priority among
      those wanted by the user and visible now; every stale visibility lies behind it. */
  lemma PickIsWantedNow(g: Group, now: Levels, defaults: seq<Default>, p: Symbol)
    requires WantedNow(g, now, p)
    ensures var pick := Pick(Refreshed(g, now), defaults);
      pick.Some? && WantedNow(g, now, pick.value) && (pick.value == p || Precedes(g.members, pick.value, p))
  {
    RefreshedLevels(g, now);
    RefreshSeesFirst(Refreshed(g, now), g.members, now);
    FirstWantedNowIsFirst(g.members, g.user, now, p);
  }

  /** A member is refreshed unless one that is wanted now stands before it. */
  lemma {:induction false} RefreshReaches(l: seq<Symbol>, user: map<Symbol, Tristate>, now: Levels, s: Symbol)
    requires s in l
    requires forall q :: q in l && now(q) != NO && UserYes(user, q) ==> !Precedes(l, q, s)
    ensures s in l[..Scanned(l, user, now)]
  {
    var n := Scanned(l, user, now);
    assert l[0] in l[..n];
    if s != l[0] {
      assert !(now(l[0]) != NO && UserYes(user, l[0])) by { assert Precedes(l, l[0], s); }
      forall q | q in l[1..] && now(q) != NO && UserYes(user, q)
        ensures !Precedes(l[1..], q, s)
      {
        assert !Precedes(l, q, s);
      }
      RefreshReaches(l[1..], user, now, s);
      assert l[..n] == [l[0]] + l[1..][..n - 1];
    }
  }

  // ----- exactly one visible entry is y -----

  ghost predicate Covers(g: Group) {
    forall s :: s in SymbolsIn(g.entries) <==> s in g.members
  }

  /** One entry is y, all other visible ones are n. */
  predicate OneIsYes(g: Group, curr: map<Symbol, Tristate>, s: Symbol) {
    s in VisibleEntries(g) && Level(curr, s) == YES && forall t :: t in VisibleEntries(g) && t != s ==> Level(curr, t) == NO
  }

  /** No visible member is wanted, and the default in force is a visible symbol that is
      not in the block and not refused. */
  predicate DefaultsOutside(g: Group, defaults: seq<Default>) {
    var d := NamedDefault(g, defaults);
    (forall s :: s in g.members ==> !Wanted(g, s)) && d.Some? && d.value !in SymbolsIn(g.entries) && !Refused(g, d.value)
  }

  lemma {:induction false} FirstWantedIsMember(g: Group, l: seq<Symbol>)
    ensures FirstWanted(g, l).Some? ==> FirstWanted(g, l).value in l && Wanted(g, FirstWanted(g, l).value)
    ensures FirstWanted(g, l) == None ==> forall s :: s in l ==> !Wanted(g, s)
  {
    if l != [] { FirstWantedIsMember(g, l[1..]); }
  }

  lemma {:induction false} FirstVisibleIsEntry(g: Group, l: seq<Option<Symbol>>)
    ensures FirstVisible(g, l).Some? ==> FirstVisible(g, l) in l && Visible(g, FirstVisible(g, l).value)
    ensures FirstVisible(g, l) == None ==> forall s :: Listed(l, s) ==> !Visible(g, s)
  {
    if l != [] { FirstVisibleIsEntry(g, l[1..]); }
  }

  lemma {:induction false} FirstUnsetIsEntry(g: Group, l: seq<Option<Symbol>>)
    ensures FirstUnset(g, l).Some? ==> FirstUnset(g, l) in l && Visible(g, FirstUnset(g, l).value)
  {
    if l != [] { FirstUnsetIsEntry(g, l[1..]); }
  }

  lemma {:induction false} LastVisibleIsMember(g: Group, l: seq<Symbol>)
    ensures LastVisible(g, l).Some? ==> LastVisible(g, l).value in l && Visible(g, LastVisible(g, l).value)
    ensures LastVisible(g, l) == None ==> forall s :: s in l ==> !Visible(g, s)
  {
    if l != [] {
      LastVisibleIsMember(g, l[..|l| - 1]);
      assert l == l[..|l| - 1] + [l[|l| - 1]];
    }
  }

  lemma {:induction false} NamedDefaultIsVisible(g: Group, defaults: seq<Default>)
    ensures NamedDefault(g, defaults).Some? ==> Visible(g, NamedDefault(g, defaults).value)
  {
    if defaults != [] { NamedDefaultIsVisible(g, defaults[1..]); }
  }

  /** The pick is visible, and outside the block only if the default is. */
  lemma PickIsVisible(g: Group, defaults: seq<Default>)
    requires Covers(g)
    ensures var pick := Pick(g, defaults); pick.Some? ==> Visible(g, pick.value)
    ensures var pick := Pick(g, defaults); pick.Some? && pick.value !in VisibleEntries(g) <==> DefaultsOutside(g, defaults)
    ensures Pick(g, defaults) == None ==> VisibleEntries(g) == {}
  {
    FirstWantedIsMember(g, g.members);
    NamedDefaultIsVisible(g, defaults);
    FirstVisibleIsEntry(g, g.entries);
    FirstUnsetIsEntry(g, g.entries);
    LastVisibleIsMember(g, g.members);
  }

  lemma DecidedLevels(g: Group, curr: map<Symbol, Tristate>, pick: Option<Symbol>)
    ensures forall s :: s in VisibleEntries(g) ==> Level(Decided(g, curr, pick), s) == if pick == Some(s) then YES else NO
  {
    forall s | s in VisibleEntries(g)
      ensures Level(Decided(g, curr, pick), s) == if pick == Some(s) then YES else NO
    {
      assert Listed(g.entries, s);
      SettleLookup(g, curr, g.entries, pick, s);
    }
  }

  /** With any entry visible, exactly one of them is y, unless the default that is in
      force names a symbol from elsewhere: then none is. */
  lemma ExactlyOneIsYes(g: Group, defaults: seq<Default>, curr: map<Symbol, Tristate>)
    requires Covers(g) && VisibleEntries(g) != {}
    ensures (exists s :: OneIsYes(g, Decided(g, curr, Pick(g, defaults)), s)) <==> !DefaultsOutside(g, defaults)
  {
    var pick := Pick(g, defaults);
    PickIsVisible(g, defaults);
    DecidedLevels(g, curr, pick);
    if !DefaultsOutside(g, defaults) {
      assert OneIsYes(g, Decided(g, curr, pick), pick.value);
    }
  }

  /** A default outside the block leaves every member n. */
  lemma DefaultOutsideLeavesNone()
    ensures var a, b := Config("A", Boolean), Config("B", Boolean);
      var g := Group([Some(a)], [a], map[a := YES, b := YES], map[]);
      Covers(g) && Pick(g, [Default(YES, b)]) == Some(b) && Level(Decided(g, map[], Some(b)), a) == NO
  {
    var a := Config("A", Boolean);
    var b := Config("B", Boolean);
    var g := Group([Some(a)], [a], map[a := YES, b := YES], map[]);
    assert SymbolsIn(g.entries) == {a} by { assert Some(a) in g.entries; }
    DecidedLevels(g, map[], Some(b));
    assert !Wanted(g, a) && [a][1..] == [];
    assert FirstWanted(g, [a]) == None;
    var d := Default(YES, b);
    assert d.condition != NO && Visible(g, d.sym) && [d][0] == d;
    assert NamedDefault(g, [d]) == Some(b);
    assert a in VisibleEntries(g);
  }

  // ----- values read from a file -----

  type Assignment = (Symbol, Tristate)

  function UserAfter(log: seq<Assignment>): map<Symbol, Tristate> {
    if log == [] then map[]
    else
      var (s, t) := log[|log| - 1];
      UserAfter(log[..|log| - 1])[s := t]
  }

  function OrderAfter(l: seq<Symbol>, log: seq<Assignment>): seq<Symbol> {
    if log == [] then l
    else
      var s, before := log[|log| - 1].0, OrderAfter(l, log[..|log| - 1]);
      if s in l then MoveToFront(before, s) else before
  }

  /** When a symbol was assigned last; -1 for never. */
  function LastAssigned(log: seq<Assignment>, s: Symbol): (i: int)
    ensures -1 <= i < |log| && (i == -1 <==> forall k :: 0 <= k < |log| ==> log[k].0 != s)
    ensures i >= 0 ==> log[i].0 == s && forall k :: i < k < |log| ==> log[k].0 != s
  {
    if log == [] then -1
    else if log[|log| - 1].0 == s then |log| - 1
    else LastAssigned(log[..|log| - 1], s)
  }

  lemma {:induction false} OrderAfterMembers(l: seq<Symbol>, log: seq<Assignment>)
    requires Distinct(l)
    ensures Distinct(OrderAfter(l, log)) && forall x :: x in OrderAfter(l, log) <==> x in l
  {
    if log != [] {
      OrderAfterMembers(l, log[..|log| - 1]);
      if log[|log| - 1].0 in l { MoveToFrontMembers(OrderAfter(l, log[..|log| - 1]), log[|log| - 1].0); }
    }
  }

  lemma {:induction false} UserAfterLast(log: seq<Assignment>, s: Symbol)
    ensures s in UserAfter(log) <==> LastAssigned(log, s) >= 0
    ensures s in UserAfter(log) ==> UserAfter(log)[s] == log[LastAssigned(log, s)].1
  {
    if log != [] { UserAfterLast(log[..|log| - 1], s); }
  }

  /** After reading, members stand in the order of their last assignments, latest first;
      the others follow in the order they had. */
  lemma {:induction false} OrderIsRecency(l: seq<Symbol>, log: seq<Assignment>, a: Symbol, b: Symbol)
    requires a in l && b in l && a != b
    ensures a in OrderAfter(l, log) && b in OrderAfter(l, log)
    ensures Precedes(OrderAfter(l, log), a, b) <==>
      LastAssigned(log, a) > LastAssigned(log, b) || (LastAssigned(log, a) == LastAssigned(log, b) == -1 && Precedes(l, a, b))
  {
    if log != [] {
      var before, s := log[..|log| - 1], log[|log| - 1].0;
      OrderIsRecency(l, before, a, b);
      if s in l { MoveToFrontOrder(OrderAfter(l, before), s, a, b); }
    }
  }

  function AfterReading(g: Group, log: seq<Assignment>): Group {
    g.(members := OrderAfter(g.members, log), user := UserAfter(log))
  }

  /** Of the visible members that a file leaves at y, the one assigned last is picked. */
  lemma LastAssignedWins(g: Group, log: seq<Assignment>, now: Levels, defaults: seq<Default>, p: Symbol)
    requires Distinct(g.members) && WantedNow(AfterReading(g, log), now, p)
    requires forall q :: WantedNow(AfterReading(g, log), now, q) ==> LastAssigned(log, q) <= LastAssigned(log, p)
    ensures Pick(Refreshed(AfterReading(g, log), now), defaults) == Some(p)
  {
    var r := AfterReading(g, log);
    PickIsWantedNow(r, now, defaults, p);
    var q := Pick(Refreshed(r, now), defaults).value;
    if q != p {
      OrderAfterMembers(g.members, log);
      OrderIsRecency(g.members, log, q, p);
      UserAfterLast(log, p);
    }
  }

  // ----- the user selects a member -----

  /** The priority list after every visible entry, in menu order, was moved to its front. */
  function Promote(g: Group, l: seq<Option<Symbol>>): seq<Symbol> {
    if l == [] then g.members
    else
      var e, before := l[|l| - 1], Promote(g, l[..|l| - 1]);
      if e.Some? && Visible(g, e.value) then MoveToFront(before, e.value) else before
  }

  function Chosen(g: Group, sym: Symbol): Group {
    g.(members := Promote(g, g.entries),
       user := Settle(g, g.user, g.entries, Some(sym)))
  }

  lemma {:induction false} PromoteMembers(g: Group, l: seq<Option<Symbol>>)
    requires Distinct(g.members) && forall s :: Listed(l, s) ==> s in g.members
    ensures Distinct(Promote(g, l)) && forall x :: x in Promote(g, l) <==> x in g.members
  {
    if l != [] {
      var front, e := l[..|l| - 1], l[|l| - 1];
      assert forall s :: Listed(front, s) ==> Listed(l, s);
      PromoteMembers(g, front);
      if e.Some? && Visible(g, e.value) {
        assert Listed(l, e.value);
        MoveToFrontMembers(Promote(g, front), e.value);
      }
    }
  }

  /** Visible entries come before everything else. */
  lemma {:induction false} PromotedFirst(g: Group, l: seq<Option<Symbol>>, a: Symbol, b: Symbol)
    requires Distinct(g.members) && (forall s :: Listed(l, s) ==> s in g.members)
    requires Listed(l, a) && Visible(g, a) && b in g.members && !(Listed(l, b) && Visible(g, b))
    ensures a in Promote(g, l) && b in Promote(g, l) && Precedes(Promote(g, l), a, b)
  {
    var front, e := l[..|l| - 1], l[|l| - 1];
    assert forall s :: Listed(front, s) ==> Listed(l, s);
    PromoteMembers(g, l);
    PromoteMembers(g, front);
    if e.Some? && Visible(g, e.value) {
      assert Listed(l, e.value);
      if e.value != a { PromotedFirst(g, front, a, b); }
      MoveToFrontOrder(Promote(g, front), e.value, a, b);
    } else {
      PromotedFirst(g, front, a, b);
    }
  }

  /** After a selection every other member with user value y stands behind the selected one. */
  lemma SelectedComesFirst(g: Group, sym: Symbol, q: Symbol)
    requires Distinct(g.members) && Covers(g) && sym in VisibleEntries(g)
    requires q in g.members && q != sym && UserYes(Chosen(g, sym).user, q)
    ensures q in Chosen(g, sym).members && sym in Chosen(g, sym).members && Precedes(Chosen(g, sym).members, sym, q)
  {
    assert forall s :: Listed(g.entries, s) <==> s in SymbolsIn(g.entries);
    SettleLookup(g, g.user, g.entries, Some(sym), q);
    PromotedFirst(g, g.entries, sym, q);
  }

  lemma ChosenKeepsMembers(g: Group, sym: Symbol)
    requires Distinct(g.members) && Covers(g)
    ensures Distinct(Chosen(g, sym).members) && forall x :: x in Chosen(g, sym).members <==> x in g.members
  {
    assert forall s :: Listed(g.entries, s) <==> s in SymbolsIn(g.entries);
    PromoteMembers(g, g.entries);
  }

  /** After the user selected a visible member, that member is picked if and only if it
      is visible when calculated the next time. */
  lemma SelectedIsPicked(g: Group, sym: Symbol, now: Levels, defaults: seq<Default>)
    requires Distinct(g.members) && Covers(g) && sym in VisibleEntries(g)
    ensures Pick(Refreshed(Chosen(g, sym), now), defaults) == Some(sym) <==> now(sym) != NO
  {
    var c := Chosen(g, sym);
    var r := Refreshed(c, now);
    ChosenKeepsMembers(g, sym);
    SettleLookup(g, g.user, g.entries, Some(sym), sym);
    if now(sym) != NO {
      PickIsWantedNow(c, now, defaults, sym);
      var q := Pick(r, defaults).value;
      if q != sym { SelectedComesFirst(g, sym, q); }
    } else {
      SelectedIsHidden(g, sym, now);
      PickIsVisible(r, defaults);
    }
  }

  lemma SelectedIsHidden(g: Group, sym: Symbol, now: Levels)
    requires Distinct(g.members) && Covers(g) && sym in VisibleEntries(g) && now(sym) == NO
    ensures !Visible(Refreshed(Chosen(g, sym), now), sym)
  {
    var c := Chosen(g, sym);
    ChosenKeepsMembers(g, sym);
    forall q | q in c.members && now(q) != NO && UserYes(c.user, q)
      ensures !Precedes(c.members, q, sym)
    {
      SelectedComesFirst(g, sym, q);
    }
    RefreshReaches(c.members, c.user, now, sym);
    RefreshedLevels(c, now);
  }
}
