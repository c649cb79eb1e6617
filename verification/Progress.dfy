/** The progress display of a build: the list of packages being built, the counters, and
    the bar. */
module Progress {
  import opened Sequences

  datatype Event = Total(n: int) | Begin(text: string) | End(text: string)

  const TMP_SIZE: nat := 128
  const SINGLE: string := "_single"

  /** The package name in a message: cut to the size of the buffer, without the suffix. */
  function PackageName(text: string): string {
    var t := if |text| < TMP_SIZE - 1 then text else text[..TMP_SIZE - 1];
    if |t| > 7 && t[|t| - 7..] == SINGLE then t[..|t| - 7] else t
  }

  // ----- the counters as values -----

  datatype Counters = Counters(total: int, finished: nat, live: seq<string>)

  const IDLE: Counters := Counters(0, 0, [])

  function RemoveFirst(s: seq<string>, x: string): seq<string> {
    if s == [] then [] else if s[0] == x then s[1..] else [s[0]] + RemoveFirst(s[1..], x)
  }

  function Handle(c: Counters, e: Event): Counters {
    match e
    case Total(n) => c.(total := n)
    case Begin(text) => c.(live := c.live + [PackageName(text)])
    case End(text) =>
      if c.total == 0 then c
      else Counters(c.total, if c.finished < c.total then c.finished + 1 else c.finished, RemoveFirst(c.live, PackageName(text)))
  }

  function Run(events: seq<Event>): Counters {
    if events == [] then IDLE else Handle(Run(events[..|events| - 1]), events[|events| - 1])
  }

  /** An accepted end takes one package of that name away, if there is one, and no other. */
  lemma {:induction false} RemoveFirstRemovesOne(s: seq<string>, x: string)
    ensures multiset(RemoveFirst(s, x)) == multiset(s) - multiset{x}
    ensures |RemoveFirst(s, x)| == if x in s then |s| - 1 else |s|
  {
    if s != [] {
      var tail := s[1..];
      assert s == [s[0]] + tail;
      assert multiset(s) == multiset{s[0]} + multiset(tail);
      if s[0] != x {
        RemoveFirstRemovesOne(tail, x);
        assert multiset(RemoveFirst(s, x)) == multiset{s[0]} + multiset(RemoveFirst(tail, x));
      }
    }
  }

  function Totals(events: seq<Event>): nat {
    if events == [] then 0 else Totals(events[..|events| - 1]) + (if events[|events| - 1].Total? then 1 else 0)
  }

  predicate NoNegativeTotal(events: seq<Event>) { forall i :: 0 <= i < |events| && events[i].Total? ==> events[i].n >= 0 }

  lemma {:induction false} NothingCountsBeforeTotal(events: seq<Event>)
    requires Totals(events) == 0
    ensures Run(events).total == 0 && Run(events).finished == 0
  {
    if events != [] { NothingCountsBeforeTotal(events[..|events| - 1]); }
  }

  /** Every total, when it is announced, covers what is finished by then. */
  predicate TotalsCover(events: seq<Event>) {
    forall i :: 0 <= i < |events| && events[i].Total? ==> events[i].n >= Run(events[..i]).finished
  }

  predicate Within(c: Counters) { c.finished <= c.total }

  lemma PrefixOfPrefix<T>(s: seq<T>, i: nat, j: nat)
    requires i <= j <= |s|
    ensures s[..j][..i] == s[..i]
  {
  }

  /** After every message no more packages are finished than there are, exactly when
      every total that arrives covers those finished so far. */
  lemma {:induction false} NeverMoreThanTotal(events: seq<Event>)
    ensures (forall i :: 0 <= i <= |events| ==> Within(Run(events[..i]))) <==> TotalsCover(events)
  {
    if forall i :: 0 <= i <= |events| ==> Within(Run(events[..i])) {
      forall i | 0 <= i < |events| && events[i].Total?
        ensures events[i].n >= Run(events[..i]).finished
      {
        PrefixOfPrefix(events, i, i + 1);
        assert Within(Run(events[..i + 1]));
      }
    }
    if TotalsCover(events) {
      forall i | 0 <= i <= |events|
        ensures Within(Run(events[..i]))
      {
        CoveredIsWithin(events, i);
      }
    }
  }

  lemma {:induction false} CoveredIsWithin(events: seq<Event>, i: nat)
    requires TotalsCover(events) && i <= |events|
    ensures Within(Run(events[..i]))
  {
    if i > 0 {
      PrefixOfPrefix(events, i - 1, i);
      CoveredIsWithin(events, i - 1);
    }
  }

  /** A total that is announced once, and is not negative, covers. */
  lemma {:induction false} AnnouncedOnceCovers(events: seq<Event>)
    requires Totals(events) <= 1 && NoNegativeTotal(events)
    ensures TotalsCover(events)
  {
    if events != [] {
      var front := events[..|events| - 1];
      AnnouncedOnceCovers(front);
      if events[|events| - 1].Total? { NothingCountsBeforeTotal(front); }
      forall i | 0 <= i < |events| && events[i].Total?
        ensures events[i].n >= Run(events[..i]).finished
      {
        if i < |front| {
          PrefixOfPrefix(events, i, |front|);
          assert front[i] == events[i];
        }
      }
    }
  }

  // ----- what a run counts -----

  /** The suffix is dropped from a name that fits the buffer, and a longer text is cut first. */
  lemma PackageNames(name: string)
    ensures 0 < |name| < 120 ==> PackageName(name + "_single") == name
    ensures |name| < 127 && (|name| < 8 || name[|name| - 7..] != "_single") ==> PackageName(name) == name
    ensures |name| >= 127 && name[120..127] != "_single" ==> PackageName(name) == name[..127]
  {
    assert (name + "_single")[|name|..] == "_single" && (name + "_single")[..|name|] == name;
    if |name| >= 127 { assert name[..127][120..] == name[120..127]; }
  }

  function Ends(events: seq<Event>): nat {
    if events == [] then 0 else Ends(events[..|events| - 1]) + (if events[|events| - 1].End? then 1 else 0)
  }

  /** Before a total is announced, ends are passed over. */
  lemma {:induction false} BegunBeforeTotal(events: seq<Event>)
    requires Totals(events) == 0
    ensures Run(events) == Counters(0, 0, BegunIn(events))
  {
    if events != [] { BegunBeforeTotal(events[..|events| - 1]); }
  }

  /** The packages begun, in order. */
  function BegunIn(events: seq<Event>): seq<string> {
    if events == [] then []
    else
      var front, last := BegunIn(events[..|events| - 1]), events[|events| - 1];
      if last.Begin? then front + [PackageName(last.text)] else front
  }

  predicate SingleTotal(events: seq<Event>, i: nat) { i < |events| && events[i].Total? && Totals(events) == 1 }

  lemma {:induction false} TotalsOfPrefix(events: seq<Event>, i: nat)
    requires i <= |events|
    ensures Totals(events[..i]) <= Totals(events)
    ensures forall j :: i <= j < |events| && events[j].Total? ==> Totals(events[..i]) < Totals(events)
  {
    if i < |events| {
      TotalsOfPrefix(events[..|events| - 1], i);
      assert events[..|events| - 1][..i] == events[..i];
    } else {
      assert events[..i] == events;
    }
  }

  /** With one total announced, each end after it counts until the total is reached. */
  lemma {:induction false} FinishedAfterTotal(events: seq<Event>, i: nat)
    requires SingleTotal(events, i)
    ensures var n, ends := events[i].n, Ends(events) - Ends(events[..i]);
      Run(events).total == n && Run(events).finished == if n <= 0 then 0 else if ends < n then ends else n
    decreases |events|
  {
    var last := |events| - 1;
    var front := events[..last];
    if i == last {
      TotalsOfPrefix(events, last);
      NothingCountsBeforeTotal(front);
    } else {
      TotalsOfPrefix(events, last);
      assert front[i] == events[i] && front[..i] == events[..i];
      TotalsOfPrefix(front, i);
      FinishedAfterTotal(front, i);
      EndsGrow(front, i);
    }
  }

  lemma {:induction false} EndsGrow(events: seq<Event>, i: nat)
    requires i <= |events|
    ensures Ends(events[..i]) <= Ends(events)
  {
    if i < |events| {
      EndsGrow(events[..|events| - 1], i);
      assert events[..|events| - 1][..i] == events[..i];
    } else {
      assert events[..i] == events;
    }
  }

  /** A begun package is shown last; an end that counts takes the one of its name that has
      been shown longest, and leaves all others in their places. */
  lemma {:induction false} RemoveFirstTakesEarliest(s: seq<string>, x: string, i: nat)
    requires i < |s| && s[i] == x && x !in s[..i]
    ensures RemoveFirst(s, x) == s[..i] + s[i + 1..]
  {
    if i > 0 {
      assert s[..i][0] == s[0] && s[1..][..i - 1] == s[..i][1..];
      RemoveFirstTakesEarliest(s[1..], x, i - 1);
      assert [s[0]] + (s[1..][..i - 1] + s[1..][i..]) == s[..i] + s[i + 1..];
    }
  }

  // ----- the percentage and the bar -----

  /** Division as in C, towards zero. */
  function Quotient(a: int, b: int): int
    requires b != 0
  {
    if a < 0 && b < 0 then -a / -b else if a < 0 then -(-a / b) else if b < 0 then -(a / -b) else a / b
  }

  /** What is shown after a message: the two parts of the bar. The blanks are cut out of
      one buffer of 51 and the end mark; `Overrun` is the place where a part would be
      written or read beyond it. */
  datatype Shown = Nothing | Line(percent: int, filled: string, empty: string) | Overrun(index: int)

  const SPACE_SIZE: nat := 52

  function Blanks(n: nat): (s: string)
    ensures |s| == n && forall c :: c in s ==> c == ' '
  {
    seq(n, i => ' ')
  }

  /** With the counters as they are after the message. */
  function Shows(c: Counters, e: Event): Shown {
    if !e.End? || c.total == 0 then Nothing
    else
      var percent := Quotient(100 * c.finished, c.total);
      var index := Quotient(percent, 2);
      if percent == 0 then Line(percent, "", Blanks(50))
      else if percent == 100 then Line(percent, Blanks(50), "")
      else if 0 <= index && index + 1 < SPACE_SIZE then Line(percent, Blanks(index), Blanks(SPACE_SIZE - 2 - index))
      else Overrun(index)
  }

  /** The buffer is overrun exactly when more than 2 in 100 too many are finished, or the
      total is negative and not large beside those finished. */
  lemma OverrunIff(c: Counters, e: Event)
    requires e.End? && c.total != 0
    ensures Shows(c, e).Overrun? <==> (if c.total > 0 then 100 * c.finished >= 102 * c.total else 50 * c.finished >= -c.total)
  {
    var n, t := 100 * c.finished, if c.total > 0 then c.total else -c.total;
    var p := n / t;
    QuotientBounds(n, t, 100);
    QuotientBounds(n, t, 102);
    QuotientBounds(n, t, 2);
    assert c.total > 0 ==> Quotient(n, c.total) == p;
    assert c.total < 0 ==> Quotient(n, c.total) == -p;
  }

  lemma QuotientBounds(n: nat, t: nat, k: nat)
    requires t > 0
    ensures n / t >= k <==> n >= k * t
  {
    var p, rest := n / t, n % t;
    assert p * t + rest == n;
    if p >= k { Scale(k, p, t); } else { Scale(p + 1, k, t); }
  }

  lemma Scale(a: nat, b: nat, t: nat)
    requires a <= b
    ensures a * t <= b * t
  {
  }

  /** Within the total the bar is fifty columns wide, inside the buffer, and full exactly
      when every package is finished. */
  lemma WithinShowsBar(c: Counters, e: Event)
    requires e.End? && c.total != 0 && Within(c)
    ensures var b := Shows(c, e);
      b.Line? && 0 <= b.percent <= 100 && |b.filled| == b.percent / 2 && |b.filled| + |b.empty| == 50 &&
      (b.percent == 100 <==> c.finished == c.total)
  {
    var n := 100 * c.finished;
    QuotientBounds(n, c.total, 100);
    QuotientBounds(n, c.total, 101);
  }

  /** The percentage is that of the finished packages, rounded down; nothing is shown for
      any other message, or before a total is known. */
  lemma PercentIsFloor(c: Counters, e: Event)
    ensures !e.End? || c.total == 0 ==> Shows(c, e) == Nothing
    ensures var b := Shows(c, e);
      e.End? && c.total > 0 && b.Line? ==> b.percent * c.total <= 100 * c.finished < (b.percent + 1) * c.total
  {
    if e.End? && c.total > 0 {
      var p := 100 * c.finished / c.total;
      assert p * c.total + 100 * c.finished % c.total == 100 * c.finished;
      assert (p + 1) * c.total == p * c.total + c.total;
    }
  }

  /** What is shown after each message of a run. */
  function ShownBy(events: seq<Event>): (r: seq<Shown>)
    ensures |r| == |events|
  {
    if events == [] then []
    else ShownBy(events[..|events| - 1]) + [Shows(Run(events), events[|events| - 1])]
  }

  /** Over a whole run whose totals cover, the buffer is never overrun. */
  lemma {:induction false} BarStaysInside(events: seq<Event>)
    requires TotalsCover(events)
    ensures forall b :: b in ShownBy(events) ==> !b.Overrun?
  {
    if events != [] {
      var last := |events| - 1;
      CoversBefore(events, last);
      BarStaysInside(events[..last]);
      CoveredIsWithin(events, |events|);
      assert events[..|events|] == events;
      if events[last].End? && Run(events).total != 0 { WithinShowsBar(Run(events), events[last]); }
    }
  }

  lemma CoversBefore(events: seq<Event>, n: nat)
    requires TotalsCover(events) && n <= |events|
    ensures TotalsCover(events[..n])
  {
    forall i | 0 <= i < n && events[i].Total?
      ensures events[i].n >= Run(events[..n][..i]).finished
    {
      PrefixOfPrefix(events, i, n);
    }
  }

  /** A smaller total announced later breaks it: with two packages finished of one, the
      next end is at 200 per cent, and writes at place 100 of the buffer of 52. */
  lemma SmallerTotalLater()
    ensures var c := Run([Total(2), End("a"), End("b"), Total(1)]);
      c.finished > c.total && Shows(Handle(c, End("c")), End("c")) == Overrun(100)
  {
    var e := [Total(2), End("a"), End("b"), Total(1)];
    assert e[..3][..2][..1] == [Total(2)] && e[..3][..2] == [Total(2), End("a")] && e[..3] == [Total(2), End("a"), End("b")];
    assert Run([Total(2)]) == Counters(2, 0, []) by { assert [Total(2)][..0] == []; }
    assert Run(e[..3][..2]).total == 2 && Run(e[..3][..2]).finished == 1;
    assert Run(e[..3]).total == 2 && Run(e[..3]).finished == 2;
  }

  /** The buffer of blanks, as it is between two messages. */
  predicate IsBlank(space: array<char>)
    reads space
  {
    space.Length == SPACE_SIZE && space[51] == '\0' && forall i :: 0 <= i < 51 ==> space[i] == ' '
  }

  /** The two parts of a partial bar, cut out of the buffer, which is left as it was. */
  method Bar(space: array<char>, index: nat) returns (filled: string, empty: string)
    requires IsBlank(space) && index + 1 < SPACE_SIZE
    modifies space
    ensures filled == Blanks(index) && empty == Blanks(SPACE_SIZE - 2 - index)
    ensures IsBlank(space)
  {
    space[index] := '\0';
    filled := CString(space, 0, index);
    empty := CString(space, index + 1, 51);
    space[index] := ' ';
  }

  /** The text from `p` up to the next terminator. */
  method CString(buf: array<char>, p: nat, ghost end: nat) returns (s: string)
    requires p <= end < buf.Length && buf[end] == '\0' && forall i :: p <= i < end ==> buf[i] != '\0'
    ensures s == buf[p..end]
  {
    s := "";
    while buf[p + |s|] != '\0'
      invariant p + |s| <= end && s == buf[p..p + |s|]
      decreases end - |s|
    {
      s := s + [buf[p + |s|]];
    }
  }

  // ----- the list of packages -----

  class Package {
    var next: Package?
    const name: string

    constructor (name: string)
      ensures this.name == name
    {
      this.name := name;
    }
  }

  function Names(s: seq<Package>): (r: seq<string>)
    ensures |r| == |s| && forall i :: 0 <= i < |s| ==> r[i] == s[i].name
  {
    if s == [] then [] else [s[0].name] + Names(s[1..])
  }

  predicate LinksOn(c: seq<Package>, i: nat)
    requires i < |c|
    reads c
  {
    c[i].next == c[After(|c|, i)]
  }

  /** Each links to the next one, the last to the first. */
  ghost predicate Circle(c: seq<Package>)
    reads c
  {
    Distinct(c) && forall i :: 0 <= i < |c| ==> LinksOn(c, i)
  }

  function Objects(c: seq<Package>): set<Package> { set p | p in c }

  lemma FewerObjects(c: seq<Package>, i: nat)
    requires i < |c|
    ensures Objects(Without(c, i)) <= Objects(c)
  {
  }

  lemma LastLinksBack(c: seq<Package>, i: nat)
    requires Circle(c) && i < |c|
    ensures c[i].next == c[0] <==> i == |c| - 1
  {
    assert LinksOn(c, i);
  }

  /** Lets the predecessor of an entry skip it. */
  method Skip(p: Package, prev: Package, ghost c: seq<Package>, ghost i: nat)
    requires Circle(c) && i + 1 < |c| && prev == c[i] && p == c[i + 1]
    modifies p, prev
    ensures Circle(Without(c, i + 1)) && p.next == null
  {
    ghost var d := Without(c, i + 1);
    DistinctWithout(c, i + 1);
    assert LinksOn(c, i) && LinksOn(c, i + 1);
    prev.next := p.next;
    p.next := null;
    forall k | 0 <= k < |d|
      ensures LinksOn(d, k)
    {
      WithoutAt(c, i + 1, k);
      WithoutNext(c, i + 1, k);
      if k < i {
        assert old(LinksOn(c, k));
      } else if k > i {
        assert old(LinksOn(c, k + 1));
      }
    }
  }

  /** The packages under way, in a circle through `head`; `tail` is the last of them, or
      the head itself. */
  class Display {
    const head: Package
    const space: array<char>
    var tail: Package
    var live: int
    var finished: nat
    var total: int
    ghost var packages: seq<Package>

    ghost predicate Valid()
      reads this, head, packages, space
    {
      IsBlank(space) && live == |packages| && tail == ([head] + packages)[|packages|] && Circle([head] + packages)
    }

    ghost function State(): Counters
      reads this
    {
      Counters(total, finished, Names(packages))
    }

    constructor ()
      ensures Valid() && State() == IDLE && fresh(head) && fresh(space)
    {
      var h := new Package("");
      head, tail := h, h;
      space := new char[SPACE_SIZE](i => if i < 51 then ' ' else '\0');
      live, finished, total, packages := 0, 0, 0, [];
      new;
      head.next := head;
    }

    method AddTail(p: Package)
      requires Valid() && p != head && p !in packages
      modifies `tail, `live, `packages, tail, p
      ensures Valid() && packages == old(packages) + [p]
    {
      ghost var c := [head] + packages;
      assert LinksOn(c, |c| - 1);
      p.next := tail.next;
      tail.next := p;
      tail := p;
      live := live + 1;
      packages := packages + [p];
      ghost var d := c + [p];
      assert [head] + packages == d;
      forall k | 0 <= k < |d|
        ensures LinksOn(d, k)
      {
        if k + 1 < |c| { assert old(LinksOn(c, k)); }
      }
    }

    /** Takes out the package at a position, which its predecessor leads to. */
    method Delete(p: Package, prev: Package, ghost i: nat)
      requires Valid() && i < |packages| && p == packages[i] && prev == ([head] + packages)[i]
      modifies `tail, `live, `packages, p, prev
      ensures Valid() && packages == Without(old(packages), i)
    {
      ghost var c := [head] + packages;
      assert c[i + 1] == p && c[0] == head;
      LastLinksBack(c, i + 1);
      if p.next == head {
        tail := prev;
      }
      Skip(p, prev, c, i);
      live := live - 1;
      packages := Without(packages, i);
      WithoutLater(head, old(packages), i);
    }

    /** The first package with a name and the entry before it; the head if there is none. */
    method Find(name: string) returns (prev: Package, p: Package, ghost i: nat)
      requires Valid()
      ensures i <= |packages| && prev == ([head] + packages)[i] && p == if i < |packages| then packages[i] else head
      ensures (forall k :: 0 <= k < i ==> packages[k].name != name) && (i < |packages| ==> p.name == name)
      ensures p == head <==> i == |packages|
    {
      ghost var c := [head] + packages;
      i := 0;
      assert LinksOn(c, 0);
      prev, p := head, head.next;
      while p != head && p.name != name
        invariant i <= |packages| && prev == c[i] && p == c[After(|c|, i)]
        invariant forall k :: 0 <= k < i ==> packages[k].name != name
        decreases |packages| - i
      {
        assert p == packages[i];
        assert LinksOn(c, i + 1);
        prev, p := p, p.next;
        i := i + 1;
      }
      assert i < |packages| ==> c[i + 1] == packages[i];
    }

    /** Takes the first package with a name out of the list, if there is one. */
    method Remove(name: string)
      requires Valid()
      modifies `tail, `live, `packages, head, Objects(packages)
      ensures Valid() && Names(packages) == RemoveFirst(old(Names(packages)), name)
      ensures Objects(packages) <= old(Objects(packages))
    {
      ghost var i;
      var prev, p;
      prev, p, i := Find(name);
      if p != head {
        RemoveFirstNamed(packages, name, i);
        FewerObjects(packages, i);
        Delete(p, prev, i);
      } else {
        RemoveNoneNamed(packages, name);
      }
    }

    method Start(name: string)
      requires Valid()
      modifies `tail, `live, `packages, head, Objects(packages)
      ensures Valid() && Names(packages) == old(Names(packages)) + [name]
      ensures fresh(Objects(packages) - old(Objects(packages)))
    {
      var p := new Package(name);
      NamesAppend(packages, [p]);
      AddTail(p);
    }

    /** The line for the counters as they are. */
    method Show() returns (shown: Shown)
      requires Valid() && total != 0
      modifies space
      ensures Valid() && forall text :: shown == Shows(State(), End(text))
    {
      var percent := Quotient(100 * finished, total);
      var index := Quotient(percent, 2);
      if percent == 0 {
        shown := Line(percent, "", Blanks(50));
      } else if percent == 100 {
        shown := Line(percent, Blanks(50), "");
      } else if 0 <= index && index + 1 < SPACE_SIZE {
        var filled, empty := Bar(space, index);
        shown := Line(percent, filled, empty);
      } else {
        shown := Overrun(index);
      }
    }

    /** An end that is accepted. */
    method Finish(text: string) returns (shown: Shown)
      requires Valid() && total != 0
      modifies this, head, Objects(packages), space
      ensures Valid() && State() == Handle(old(State()), End(text))
      ensures shown == Shows(State(), End(text))
      ensures Objects(packages) <= old(Objects(packages))
    {
      if finished < total {
        finished := finished + 1;
      }
      Remove(PackageName(text));
      shown := Show();
    }

    /** Handles one message; the state becomes what the counters say, and an end that is
        accepted shows the bar for the new state. */
    method Process(e: Event) returns (shown: Shown)
      requires Valid()
      modifies this, head, Objects(packages), space
      ensures Valid() && State() == Handle(old(State()), e)
      ensures shown == Shows(State(), e)
      ensures fresh(Objects(packages) - old(Objects(packages)))
    {
      shown := Nothing;
      match e {
        case Total(n) => total := n;
        case Begin(text) =>
          Start(PackageName(text));
        case End(text) =>
          if total != 0 {
            shown := Finish(text);
          }
      }
    }
  }

  lemma {:induction false} NamesAppend(s: seq<Package>, t: seq<Package>)
    ensures Names(s + t) == Names(s) + Names(t)
  {
    assert forall i :: 0 <= i < |s + t| ==> Names(s + t)[i] == (Names(s) + Names(t))[i];
  }

  lemma {:induction false} RemoveFirstNamed(s: seq<Package>, name: string, i: nat)
    requires i < |s| && s[i].name == name && forall k :: 0 <= k < i ==> s[k].name != name
    ensures Names(Without(s, i)) == RemoveFirst(Names(s), name)
  {
    if i == 0 {
      assert s[..0] + s[1..] == s[1..];
    } else {
      RemoveFirstNamed(s[1..], name, i - 1);
      assert s[..i] + s[i + 1..] == [s[0]] + (s[1..][..i - 1] + s[1..][i..]);
    }
  }

  lemma {:induction false} RemoveNoneNamed(s: seq<Package>, name: string)
    requires forall k :: 0 <= k < |s| ==> s[k].name != name
    ensures RemoveFirst(Names(s), name) == Names(s)
  {
    if s != [] { RemoveNoneNamed(s[1..], name); }
  }

  /** A whole run of messages: the list holds exactly the packages that are under way,
      and what is shown after each message is what the counters say. When every total
      covers what is finished by then, nothing is read or written outside the buffer. */
  method RunDisplay(events: seq<Event>) returns (d: Display, shown: seq<Shown>)
    ensures fresh(d) && d.Valid() && d.State() == Run(events) && d.live == |Run(events).live|
    ensures shown == ShownBy(events)
    ensures TotalsCover(events) ==> forall b :: b in shown ==> !b.Overrun?
  {
    d := new Display();
    shown := [];
    for i := 0 to |events|
      invariant fresh(d) && fresh(d.head) && fresh(Objects(d.packages)) && fresh(d.space)
      invariant d.Valid() && d.State() == Run(events[..i]) && shown == ShownBy(events[..i])
    {
      assert events[..i + 1][..i] == events[..i] && events[..i + 1][i] == events[i];
      var line := d.Process(events[i]);
      shown := shown + [line];
    }
    assert events[..|events|] == events;
    if TotalsCover(events) { BarStaysInside(events); }
  }
}
