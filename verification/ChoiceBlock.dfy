/** The choice block with its stored state, updated in place. */
module ChoiceBlock {
  import opened Symbols
  import opened Exprs
  import opened ChoiceGroup
  import opened Sequences

  /** Some visible entry does not have the value the selection gives it. */
  ghost predicate Differs(g: Group, curr: map<Symbol, Tristate>, l: seq<Option<Symbol>>, sym: Symbol) {
    exists s :: Listed(l, s) && Visible(g, s) && Level(curr, s) != if s == sym then YES else NO
  }

  class Choice {
    const entries: seq<Option<Symbol>>
    var members: seq<Symbol>
    var visible: map<Symbol, Tristate>
    var user: map<Symbol, Tristate>
    var curr: map<Symbol, Tristate>

    constructor (entries: seq<Option<Symbol>>, members: seq<Symbol>)
      ensures Contents() == Group(entries, members, map[], map[]) && curr == map[]
    {
      this.entries, this.members := entries, members;
      visible, user, curr := map[], map[], map[];
    }

    ghost function Contents(): Group
      reads this
    {
      Group(entries, members, visible, user)
    }

    function VisibleOf(s: Symbol): Tristate
      reads this
    {
      Level(visible, s)
    }

    /** Refreshes visibilities, picks a member and sets the values of the visible entries. */
    method CalcChoice(now: Levels, defaults: seq<Default>) returns (res: Option<Symbol>)
      modifies `visible, `curr
      ensures Contents() == Refreshed(old(Contents()), now)
      ensures res == Pick(Contents(), defaults)
      ensures curr == Decided(Contents(), old(curr), res)
    {
      res := Refresh(now);
      ghost var g := Contents();
      if res == None {
        res := DefaultSymbol(defaults);
        if res.Some? && res.value in user && user[res.value] == NO {
          res := None;
        }
      }
      if res == None {
        res := UnsetEntry();
      }
      if res == None {
        res := LastMember();
      }
      SetValues(res);
    }

    /** Refreshes the visibilities in priority order up to the first wanted member. */
    method Refresh(now: Levels) returns (res: Option<Symbol>)
      modifies `visible
      ensures Contents() == Refreshed(old(Contents()), now)
      ensures res == FirstWanted(Contents(), members)
    {
      res := None;
      var i := 0;
      ghost var n := Scanned(members, user, now);
      while i < |members| && res == None
        invariant i <= n && Scanned(members, user, now) == i + (if res == None then Scanned(members[i..], user, now) else 0)
        invariant FirstWantedNow(members, user, now) == if res == None then FirstWantedNow(members[i..], user, now) else res
        invariant visible == RefreshAll(old(visible), members[..i], now)
      {
        var s := members[i];
        assert members[..i + 1][..i] == members[..i];
        visible := visible[s := now(s)];
        if now(s) != NO && s in user && user[s] == YES {
          res := Some(s);
        }
        i := i + 1;
      }
      assert i == n && (res == None ==> members[..n] == members);
      RefreshedLevels(old(Contents()), now);
      RefreshSeesFirst(Contents(), members, now);
    }

    /** The first visible default, else the first visible entry. */
    method DefaultSymbol(defaults: seq<Default>) returns (res: Option<Symbol>)
      ensures res == DefaultOf(Contents(), defaults)
    {
      ghost var g := Contents();
      for i := 0 to |defaults|
        invariant NamedDefault(g, defaults) == NamedDefault(g, defaults[i..])
      {
        if defaults[i].condition != NO && VisibleOf(defaults[i].sym) != NO {
          return Some(defaults[i].sym);
        }
      }
      for i := 0 to |entries|
        invariant FirstVisible(g, entries) == FirstVisible(g, entries[i..])
      {
        if entries[i].Some? && VisibleOf(entries[i].value) != NO {
          return entries[i];
        }
      }
      return None;
    }

    /** The first visible entry without a user value. */
    method UnsetEntry() returns (res: Option<Symbol>)
      ensures res == FirstUnset(Contents(), entries)
    {
      ghost var g := Contents();
      for i := 0 to |entries|
        invariant FirstUnset(g, entries) == FirstUnset(g, entries[i..])
      {
        if entries[i].Some? && VisibleOf(entries[i].value) != NO && entries[i].value !in user {
          return entries[i];
        }
      }
      return None;
    }

    /** The visible member of lowest priority. */
    method LastMember() returns (res: Option<Symbol>)
      ensures res == LastVisible(Contents(), members)
    {
      ghost var g := Contents();
      assert members[..|members|] == members;
      for i := |members| downto 0
        invariant LastVisible(g, members) == LastVisible(g, members[..i])
      {
        assert members[..i + 1][..i] == members[..i];
        if VisibleOf(members[i]) != NO {
          return Some(members[i]);
        }
      }
      return None;
    }

    /** The picked entry becomes y and every other visible one n. */
    method SetValues(res: Option<Symbol>)
      modifies `curr
      ensures curr == Decided(Contents(), old(curr), res)
    {
      ghost var g := Contents();
      for i := 0 to |entries|
        invariant curr == Settle(g, old(curr), entries[..i], res)
      {
        assert entries[..i + 1][..i] == entries[..i];
        if entries[i].Some? && VisibleOf(entries[i].value) != NO {
          curr := curr[entries[i].value := if res == entries[i] then YES else NO];
        }
      }
      assert entries[..|entries|] == entries;
    }

    /** The user selects a member: every visible entry gets a user value and moves to the
        front. Returns whether any value differs, so that everything has to be recalculated. */
    method SetValue(sym: Symbol) returns (changed: bool)
      modifies `members, `user
      ensures Contents() == Chosen(old(Contents()), sym)
      ensures changed <==> Differs(old(Contents()), curr, entries, sym)
    {
      ghost var g := Contents();
      changed := false;
      for i := 0 to |entries|
        invariant members == Promote(g, entries[..i])
        invariant user == Settle(g, g.user, entries[..i], Some(sym))
        invariant changed <==> Differs(g, curr, entries[..i], sym)
      {
        assert entries[..i + 1] == entries[..i] + [entries[i]];
        assert entries[..i + 1][..i] == entries[..i];
        if entries[i].Some? && VisibleOf(entries[i].value) != NO {
          var s := entries[i].value;
          var val := if s == sym then YES else NO;
          if (if s in curr then curr[s] else NO) != val {
            changed := true;
          }
          user := user[s := val];
          members := MoveToFront(members, s);
        }
      }
      assert entries[..|entries|] == entries;
    }

    /** Reads a file: user values are forgotten, and each assignment to a member gives it
        the highest priority. */
    method ReadAssignments(log: seq<Assignment>)
      modifies `members, `user
      ensures Contents() == AfterReading(old(Contents()), log)
    {
      user := map[];
      ghost var first := members;
      assert forall x :: x in OrderAfter(first, log[..0]) <==> x in first;
      for i := 0 to |log|
        invariant members == OrderAfter(first, log[..i]) && user == UserAfter(log[..i])
        invariant forall x :: x in members <==> x in first
      {
        var (s, t) := log[i];
        assert log[..i + 1][..i] == log[..i];
        user := user[s := t];
        if s in members {
          WithoutMembers(members, s);
          members := MoveToFront(members, s);
        }
      }
      assert log[..|log|] == log;
    }
  }

  /** A user who selects a visible member gets it, whatever was set before, as long as
      it is still visible when the block is calculated again. */
  method SelectAndCalc(c: Choice, sym: Symbol, now: Levels, defaults: seq<Default>) returns (res: Option<Symbol>)
    requires Distinct(c.members) && Covers(c.Contents()) && sym in VisibleEntries(c.Contents())
    modifies c
    ensures res == Some(sym) <==> now(sym) != NO
    ensures res == Some(sym) ==> OneIsYes(c.Contents(), c.curr, sym)
  {
    ghost var g := c.Contents();
    var _ := c.SetValue(sym);
    ChosenKeepsMembers(g, sym);
    SelectedIsPicked(g, sym, now, defaults);
    ghost var before := c.curr;
    res := c.CalcChoice(now, defaults);
    PickIsVisible(c.Contents(), defaults);
    DecidedLevels(c.Contents(), before, res);
  }
}
