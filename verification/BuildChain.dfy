/** The order in which packages are built: layer by layer, each package after those it
    depends on, with the packages marked "finally" held back until nothing else is ready. */
module BuildChain {
  import opened Digraph
  import opened Sequences

  /** An internal dependency may carry options after one or more @ signs. */
  function BaseName(dep: string): string {
    if dep == [] || dep[0] == '@' then [] else [dep[0]] + BaseName(dep[1..])
  }

  function BaseNames(deps: seq<string>): (r: seq<string>)
    ensures |r| == |deps| && forall i :: 0 <= i < |deps| ==> r[i] == BaseName(deps[i])
  {
    if deps == [] then [] else [BaseName(deps[0])] + BaseNames(deps[1..])
  }

  /** Without an @ sign the whole text is the name, and else what stands before the first. */
  lemma {:induction false} BaseNameIsBeforeAt(name: string, options: string)
    requires '@' !in name
    ensures BaseName(name) == name && BaseName(name + "@" + options) == name
  {
    if name != "" {
      BaseNameIsBeforeAt(name[1..], options);
      assert (name + "@" + options)[1..] == name[1..] + "@" + options;
      assert [name[0]] + name[1..] == name;
    }
  }

  class Item {
    const target: string
    const asdeps: seq<string>
    const awdeps: seq<string>
    const ideps: seq<string>
    var acount: int

    constructor (target: string, asdeps: seq<string>, awdeps: seq<string>, ideps: seq<string>, acount: int)
      ensures this.target == target && this.asdeps == asdeps && this.awdeps == awdeps && this.ideps == ideps
      ensures this.acount == acount
    {
      this.target, this.asdeps, this.awdeps, this.ideps, this.acount := target, asdeps, awdeps, ideps, acount;
    }

    predicate DependsOn(name: string) { name in asdeps || name in awdeps || name in BaseNames(ideps) }

    /** How many of the three dependency lists name the package. */
    function Mentions(name: string): nat {
      (if name in asdeps then 1 else 0) + (if name in awdeps then 1 else 0) + (if name in BaseNames(ideps) then 1 else 0)
    }

    /** The count goes down once for each dependency list that names the package. */
    method CrossOff(name: string)
      modifies this
      ensures acount == old(acount) - Mentions(name)
    {
      if name in asdeps { acount := acount - 1; }
      if name in awdeps { acount := acount - 1; }
      if name in BaseNames(ideps) { acount := acount - 1; }
    }

    /** The dependencies still missing once `placed` are built. */
    function Missing(placed: set<string>): nat {
      Absent(asdeps, placed) + Absent(awdeps, placed) + Absent(BaseNames(ideps), placed)
    }
  }

  function Absent(deps: seq<string>, placed: set<string>): nat {
    if deps == [] then 0 else (if deps[0] in placed then 0 else 1) + Absent(deps[1..], placed)
  }

  lemma {:induction false} AbsentAfter(deps: seq<string>, placed: set<string>, name: string)
    requires Distinct(deps) && name !in placed
    ensures Absent(deps, placed) == Absent(deps, placed + {name}) + if name in deps then 1 else 0
  {
    if deps != [] {
      AbsentAfter(deps[1..], placed, name);
      if name in deps[1..] { assert deps[0] != name; }
    }
  }

  lemma {:induction false} AbsentNone(deps: seq<string>, placed: set<string>)
    ensures Absent(deps, placed) == 0 <==> forall d :: d in deps ==> d in placed
  {
    if deps != [] { AbsentNone(deps[1..], placed); }
  }

  lemma {:induction false} AbsentAll(deps: seq<string>)
    ensures Absent(deps, {}) == |deps|
  {
    if deps != [] { AbsentAll(deps[1..]); }
  }

  lemma MissingAfter(it: Item, placed: set<string>, name: string)
    requires Distinct(it.asdeps) && Distinct(it.awdeps) && Distinct(BaseNames(it.ideps)) && name !in placed
    ensures it.Missing(placed) == it.Missing(placed + {name}) + it.Mentions(name)
  {
    AbsentAfter(it.asdeps, placed, name);
    AbsentAfter(it.awdeps, placed, name);
    AbsentAfter(BaseNames(it.ideps), placed, name);
  }

  lemma MissingNone(it: Item, placed: set<string>)
    ensures it.Missing(placed) == 0 <==> forall d :: it.DependsOn(d) ==> d in placed
  {
    AbsentNone(it.asdeps, placed);
    AbsentNone(it.awdeps, placed);
    AbsentNone(BaseNames(it.ideps), placed);
    if forall d :: it.DependsOn(d) ==> d in placed {
      forall d | d in it.asdeps ensures d in placed { assert it.DependsOn(d); }
      forall d | d in it.awdeps ensures d in placed { assert it.DependsOn(d); }
      forall d | d in BaseNames(it.ideps) ensures d in placed { assert it.DependsOn(d); }
    }
  }

  // ----- the dependency graph -----

  ghost predicate Edge(items: seq<Item>, a: string, b: string) {
    exists i :: 0 <= i < |items| && items[i].target == a && items[i].DependsOn(b)
  }

  ghost function EdgeOf(items: seq<Item>): (string, string) -> bool { (a: string, b: string) => Edge(items, a, b) }

  function Targets(items: seq<Item>): set<string> { set i | 0 <= i < |items| :: items[i].target }

  /** Targets are unique, dependencies are known and listed once. */
  ghost predicate WellFormed(items: seq<Item>) {
    (forall i, j :: 0 <= i < j < |items| ==> items[i].target != items[j].target) &&
    (forall i, d :: 0 <= i < |items| && items[i].DependsOn(d) ==> d in Targets(items)) &&
    (forall i :: 0 <= i < |items| ==>
      Distinct(items[i].asdeps) && Distinct(items[i].awdeps) && Distinct(BaseNames(items[i].ideps)))
  }

  /** The count that a package starts with: its dependencies, and one more when it is
      to be built finally. */
  ghost predicate Counted(items: seq<Item>, finallyList: seq<string>)
    reads items
  {
    forall i :: 0 <= i < |items| ==>
      items[i].acount == |items[i].asdeps| + |items[i].awdeps| + |items[i].ideps| + if items[i].target in finallyList then 1 else 0
  }

  /** Every package comes after all it depends on. */
  ghost predicate Ordered(list: seq<Item>) {
    forall i, d :: 0 <= i < |list| && list[i].DependsOn(d) ==> d in Targets(list[..i])
  }

  /** The package is a "finally" package, or needs one directly or indirectly. */
  ghost predicate NeedsFinally(items: seq<Item>, finallyList: seq<string>, name: string) {
    exists p: seq<string> :: p != [] && p[0] == name && p[|p| - 1] in finallyList && IsWalk(EdgeOf(items), p)
  }

  predicate UniqueTargets(list: seq<Item>) {
    forall i, j :: 0 <= i < j < |list| ==> list[i].target != list[j].target
  }

  function Objects(list: seq<Item>): set<Item> { set x | x in list }

  lemma AppendUnique(list: seq<Item>, x: Item)
    requires UniqueTargets(list) && forall y :: y in list ==> y.target != x.target
    ensures UniqueTargets(list + [x])
  {}

  lemma TargetsOfSum(a: seq<Item>, b: seq<Item>)
    ensures Targets(a + b) == Targets(a) + Targets(b)
  {
    forall t | t in Targets(a) + Targets(b)
      ensures t in Targets(a + b)
    {
      if t in Targets(a) {
        var i :| 0 <= i < |a| && a[i].target == t;
        assert (a + b)[i].target == t;
      } else {
        var i :| 0 <= i < |b| && b[i].target == t;
        assert (a + b)[|a| + i].target == t;
      }
    }
  }

  /** A list in which each package follows its dependencies has no circular ones. */
  lemma OrderedHasNoCycle(items: seq<Item>, list: seq<Item>)
    requires UniqueTargets(items) && Ordered(list) && forall x :: x in items <==> x in list
    ensures !HasCycle(EdgeOf(items))
  {
    var edge := EdgeOf(items);
    var rank := map i | 0 <= i < |list| :: list[i].target := Position(list, list[i].target);
    forall a: string, b: string | edge(a, b)
      ensures a in rank && b in rank && rank[b] < rank[a]
    {
      assert Edge(items, a, b);
      var i :| 0 <= i < |items| && items[i].target == a && items[i].DependsOn(b);
      assert items[i] in list;
      var k := Position(list, a);
      assert list[k] in items;
      assert list[k] == items[i];
      assert b in Targets(list[..k]);
      var j :| 0 <= j < k && list[..k][j].target == b;
      assert list[j].target == b;
    }
    RankedHasNoCycle(edge, rank);
  }

  function Position(list: seq<Item>, t: string): (i: nat)
    requires t in Targets(list)
    ensures i < |list| && list[i].target == t && forall j :: 0 <= j < i ==> list[j].target != t
  {
    if list[0].target == t then 0
    else
      assert t in Targets(list[1..]) by {
        var k :| 0 <= k < |list| && list[k].target == t;
        assert list[1..][k - 1].target == t;
      }
      1 + Position(list[1..], t)
  }

  // ----- what holds between two rounds -----

  /** A list split in two parts keeps its packages, each in one part. */
  ghost predicate Split(whole: seq<Item>, a: seq<Item>, b: seq<Item>) {
    multiset(whole) == multiset(a) + multiset(b) && Targets(whole) == Targets(a) + Targets(b) && UniqueTargets(a + b)
  }

  ghost predicate Due(x: Item, placed: set<string>, held: bool)
    reads x
  {
    x.acount == x.Missing(placed) + if held then 1 else 0
  }

  /** Every package still waiting counts the dependencies that are not placed yet, and
      one more while the "finally" packages are held back. */
  ghost predicate Counts(waiting: seq<Item>, placed: set<string>, finallyList: seq<string>, holding: bool)
    reads waiting
  {
    forall x :: x in waiting ==> Due(x, placed, holding && x.target in finallyList)
  }

  // ----- why the loop can only get stuck on a cycle -----

  /** All packages that wait are blocked by a package that waits. */
  ghost predicate Blocked(waiting: seq<Item>)
    reads waiting
  {
    forall x :: x in waiting ==> x.acount != 0
  }

  lemma SplitInTwo(whole: seq<Item>, a: seq<Item>, b: seq<Item>)
    requires UniqueTargets(whole) && UniqueTargets(a) && UniqueTargets(b)
    requires multiset(whole) == multiset(a) + multiset(b) && forall x :: x in a ==> x !in b
    ensures Split(whole, a, b)
  {
    forall x ensures x in whole <==> x in a || x in b {
      assert x in whole <==> x in multiset(whole);
      assert x in a <==> x in multiset(a);
      assert x in b <==> x in multiset(b);
    }
    forall i, j | 0 <= i < |a| && 0 <= j < |b|
      ensures a[i].target != b[j].target
    {
      assert a[i] in whole && b[j] in whole && a[i] != b[j];
    }
    forall t ensures t in Targets(whole) <==> t in Targets(a) + Targets(b) {
      if t in Targets(whole) {
        var i :| 0 <= i < |whole| && whole[i].target == t;
        assert whole[i] in a || whole[i] in b;
      }
      if t in Targets(a) {
        var i :| 0 <= i < |a| && a[i].target == t;
        assert a[i] in whole;
      }
      if t in Targets(b) {
        var i :| 0 <= i < |b| && b[i].target == t;
        assert b[i] in whole;
      }
    }
  }

  /** The "finally" packages come after all that do not need one. */
  ghost predicate HeldBack(items: seq<Item>, finallyList: seq<string>, list: seq<Item>) {
    forall i, j :: 0 <= i < |list| && 0 <= j < |list| ==>
      list[i].target in finallyList && !NeedsFinally(items, finallyList, list[j].target) ==> j < i
  }

  /** All packages are placed or wait; up to `cut` no "finally" package was placed, and
      what came later needs one. */
  ghost predicate Between(items: seq<Item>, actual: seq<Item>, temp: seq<Item>, finallyList: seq<string>, holding: bool, cut: nat) {
    Split(items, actual, temp) && Ordered(actual) && (forall x :: x in temp ==> x in items) &&
    cut <= |actual| && (holding ==> cut == |actual|) &&
    (forall i :: 0 <= i < cut ==> actual[i].target !in finallyList) &&
    (HasCycle(EdgeOf(items)) ||
     ((forall i :: cut <= i < |actual| ==> NeedsFinally(items, finallyList, actual[i].target)) &&
      (!holding ==> forall x :: x in temp ==> NeedsFinally(items, finallyList, x.target))))
  }

  lemma StartCounts(items: seq<Item>, finallyList: seq<string>)
    requires WellFormed(items) && Counted(items, finallyList)
    ensures Split(items, [], items) && Counts(items, {}, finallyList, true) && Targets([]) == {}
  {
    assert [] + items == items;
    forall x | x in items
      ensures Due(x, {}, x.target in finallyList)
    {
      AbsentAll(x.asdeps);
      AbsentAll(x.awdeps);
      AbsentAll(BaseNames(x.ideps));
    }
  }

  lemma WaitingIsNotPlaced(actual: seq<Item>, temp: seq<Item>, k: nat)
    requires UniqueTargets(actual + temp) && k < |temp|
    ensures temp[k].target !in Targets(actual)
  {
    forall i | 0 <= i < |actual|
      ensures actual[i].target != temp[k].target
    {
      assert (actual + temp)[i] == actual[i] && (actual + temp)[|actual| + k] == temp[k];
    }
  }

  lemma LayerIsReady(items: seq<Item>, actual: seq<Item>, temp: seq<Item>, lista: seq<Item>, listb: seq<Item>,
                     finallyList: seq<string>, holding: bool)
    requires WellFormed(items) && Split(items, actual, temp) && forall x :: x in temp ==> x in items
    requires Counts(temp, Targets(actual), finallyList, holding)
    requires (forall x :: x in lista ==> x in temp && x.acount == 0) && (forall x :: x in listb ==> x in temp)
    ensures forall x :: x in lista ==> x.Missing(Targets(actual)) == 0 && x.target !in Targets(actual)
    ensures holding ==> forall x :: x in lista ==> x.target !in finallyList
    ensures forall x :: x in listb ==> Distinct(x.asdeps) && Distinct(x.awdeps) && Distinct(BaseNames(x.ideps))
  {
    forall x | x in lista
      ensures x.Missing(Targets(actual)) == 0 && x.target !in Targets(actual) && (holding ==> x.target !in finallyList)
    {
      assert Due(x, Targets(actual), holding && x.target in finallyList);
      var k :| 0 <= k < |temp| && temp[k] == x;
      assert (actual + temp)[|actual| + k] == x;
      WaitingIsNotPlaced(actual, temp, k);
    }
  }

  lemma WaitingDependency(items: seq<Item>, actual: seq<Item>, temp: seq<Item>, x: Item) returns (d: string)
    requires WellFormed(items) && Split(items, actual, temp) && x in temp && x.Missing(Targets(actual)) != 0
    ensures d in Targets(temp) && EdgeOf(items)(x.target, d)
  {
    MissingNone(x, Targets(actual));
    d :| x.DependsOn(d) && d !in Targets(actual);
    assert x in multiset(actual) + multiset(temp);
    assert x in multiset(items);
    var i :| 0 <= i < |items| && items[i] == x;
    assert items[i].DependsOn(d) && d in Targets(items);
    assert Edge(items, x.target, d);
  }

  lemma StuckMeansCycle(items: seq<Item>, actual: seq<Item>, temp: seq<Item>, finallyList: seq<string>)
    requires WellFormed(items) && Split(items, actual, temp) && temp != []
    requires Counts(temp, Targets(actual), finallyList, false) && Blocked(temp)
    ensures HasCycle(EdgeOf(items))
  {
    var nodes := Targets(temp);
    assert temp[0].target in nodes;
    forall t | t in nodes
      ensures StaysInside(EdgeOf(items), nodes, t)
    {
      var i :| 0 <= i < |temp| && temp[i].target == t;
      assert Due(temp[i], Targets(actual), false);
      var d := WaitingDependency(items, actual, temp, temp[i]);
    }
    NoSinkMeansCycle(EdgeOf(items), nodes);
  }

  lemma FinallyNeedsFinally(items: seq<Item>, finallyList: seq<string>, t: string)
    ensures t in finallyList ==> NeedsFinally(items, finallyList, t)
  {
    if t in finallyList {
      assert [t][0] == t && IsWalk(EdgeOf(items), [t]);
    }
  }

  lemma NeedsFinallyThrough(items: seq<Item>, finallyList: seq<string>, a: string, b: string)
    requires EdgeOf(items)(a, b) && NeedsFinally(items, finallyList, b)
    ensures NeedsFinally(items, finallyList, a)
  {
    var p: seq<string> :| p != [] && p[0] == b && p[|p| - 1] in finallyList && IsWalk(EdgeOf(items), p);
    var q := [a] + p;
    forall i, j | 0 <= i < j < |q| && j == i + 1
      ensures EdgeOf(items)(q[i], q[j])
    {
      if i > 0 { assert EdgeOf(items)(p[i - 1], p[j - 1]); }
    }
    assert q[|q| - 1] == p[|p| - 1];
  }

  /** While "finally" packages are held back, what waits needs one of them, unless
      there is a cycle. */
  lemma HeldBackNeedFinally(items: seq<Item>, actual: seq<Item>, temp: seq<Item>, finallyList: seq<string>)
    requires WellFormed(items) && Split(items, actual, temp)
    requires Counts(temp, Targets(actual), finallyList, true) && Blocked(temp)
    ensures HasCycle(EdgeOf(items)) || forall x :: x in temp ==> NeedsFinally(items, finallyList, x.target)
  {
    var nodes := set t | t in Targets(temp) && !NeedsFinally(items, finallyList, t);
    if nodes != {} {
      forall t | t in nodes
        ensures StaysInside(EdgeOf(items), nodes, t)
      {
        var i :| 0 <= i < |temp| && temp[i].target == t;
        var x := temp[i];
        FinallyNeedsFinally(items, finallyList, t);
        assert Due(x, Targets(actual), x.target in finallyList);
        var d := WaitingDependency(items, actual, temp, x);
        if NeedsFinally(items, finallyList, d) { NeedsFinallyThrough(items, finallyList, t, d); }
      }
      NoSinkMeansCycle(EdgeOf(items), nodes);
    } else {
      forall x | x in temp
        ensures NeedsFinally(items, finallyList, x.target)
      {
        var i :| 0 <= i < |temp| && temp[i] == x;
        assert x.target in Targets(temp) && x.target !in nodes;
      }
    }
  }

  lemma BetweenAfterLayer(items: seq<Item>, actual: seq<Item>, temp: seq<Item>, lista: seq<Item>, listb: seq<Item>,
                          finallyList: seq<string>, holding: bool, cut: nat)
    requires Between(items, actual, temp, finallyList, holding, cut) && Split(temp, lista, listb)
    requires (forall x :: x in lista ==> x in temp && x.Missing(Targets(actual)) == 0) && forall x :: x in listb ==> x in temp
    requires holding ==> forall x :: x in lista ==> x.target !in finallyList
    ensures Between(items, actual + lista, listb, finallyList, holding, if holding then |actual + lista| else cut)
  {
    PlaceLayer(items, actual, temp, lista, listb);
    var list := actual + lista;
    forall i | |actual| <= i < |list| ensures list[i] in lista { assert list[i] == lista[i - |actual|]; }
  }

  lemma StopHolding(items: seq<Item>, actual: seq<Item>, temp: seq<Item>, finallyList: seq<string>, cut: nat)
    requires WellFormed(items) && Between(items, actual, temp, finallyList, true, cut)
    requires Counts(temp, Targets(actual), finallyList, true) && Blocked(temp)
    ensures Between(items, actual, temp, finallyList, false, cut)
  {
    HeldBackNeedFinally(items, actual, temp, finallyList);
  }

  lemma PlaceLayer(items: seq<Item>, actual: seq<Item>, temp: seq<Item>, lista: seq<Item>, listb: seq<Item>)
    requires Split(items, actual, temp) && Split(temp, lista, listb)
    requires Ordered(actual) && forall x :: x in lista ==> x.Missing(Targets(actual)) == 0
    ensures Split(items, actual + lista, listb) && Ordered(actual + lista)
  {
    TargetsOfSum(actual, lista);
    var list := actual + lista + listb;
    forall x | x in lista + listb ensures x in temp { assert x in multiset(temp); }
    forall i, j | 0 <= i < j < |list|
      ensures list[i].target != list[j].target
    {
      if i >= |actual| {
        assert list[i] == (lista + listb)[i - |actual|] && list[j] == (lista + listb)[j - |actual|];
      } else {
        assert list[i] == (actual + temp)[i];
        if j < |actual| {
          assert list[j] == (actual + temp)[j];
        } else {
          assert list[j] == (lista + listb)[j - |actual|] && list[j] in lista + listb;
          var k :| 0 <= k < |temp| && temp[k] == list[j];
          assert (actual + temp)[|actual| + k] == list[j];
        }
      }
    }
    forall i, d | 0 <= i < |actual + lista| && (actual + lista)[i].DependsOn(d)
      ensures d in Targets((actual + lista)[..i])
    {
      if i < |actual| {
        assert (actual + lista)[..i] == actual[..i];
      } else {
        MissingNone(lista[i - |actual|], Targets(actual));
        assert (actual + lista)[..i] == actual + lista[..i - |actual|];
        TargetsOfSum(actual, lista[..i - |actual|]);
      }
    }
  }

  class Deps {
    var actualList: seq<Item>
    const finallyList: seq<string>

    constructor (items: seq<Item>, finallyList: seq<string>)
      ensures actualList == items && this.finallyList == finallyList
    {
      actualList, this.finallyList := items, finallyList;
    }

    /** Separates the packages whose count is zero from the rest, keeping both in order. */
    method Partition(temp: seq<Item>) returns (lista: seq<Item>, listb: seq<Item>)
      requires UniqueTargets(temp)
      ensures Split(temp, lista, listb)
      ensures (forall x :: x in lista ==> x in temp && x.acount == 0) && (forall x :: x in listb ==> x in temp && x.acount != 0)
      ensures |lista| + |listb| == |temp| && (lista == [] ==> listb == temp)
    {
      lista, listb := [], [];
      for i := 0 to |temp|
        invariant multiset(temp[..i]) == multiset(lista) + multiset(listb) && |lista| + |listb| == i
        invariant forall x :: x in lista ==> x in temp[..i] && x.acount == 0
        invariant forall x :: x in listb ==> x in temp[..i] && x.acount != 0
        invariant UniqueTargets(lista) && UniqueTargets(listb) && (lista == [] ==> listb == temp[..i])
      {
        var x := temp[i];
        assert temp[..i + 1] == temp[..i] + [x];
        assert forall y :: y in temp[..i] ==> y.target != x.target;
        if x.acount == 0 {
          AppendUnique(lista, x);
          lista := lista + [x];
        } else {
          AppendUnique(listb, x);
          listb := listb + [x];
        }
      }
      assert temp[..|temp|] == temp;
      assert forall x :: x in lista ==> x !in listb;
      SplitInTwo(temp, lista, listb);
    }

    /** One placed package is crossed off in every waiting one. */
    method Release(a: Item, listb: seq<Item>, ghost placed: set<string>, ghost holding: bool)
      requires a.target !in placed && UniqueTargets(listb)
      requires Counts(listb, placed, finallyList, holding)
      requires forall x :: x in listb ==> Distinct(x.asdeps) && Distinct(x.awdeps) && Distinct(BaseNames(x.ideps))
      modifies Objects(listb)
      ensures Counts(listb, placed + {a.target}, finallyList, holding)
    {
      assert forall k :: 0 <= k < |listb| ==> listb[k] in listb;
      for i := 0 to |listb|
        invariant forall k :: 0 <= k < i ==> Due(listb[k], placed + {a.target}, holding && listb[k].target in finallyList)
        invariant forall k :: i <= k < |listb| ==> Due(listb[k], placed, holding && listb[k].target in finallyList)
      {
        var b := listb[i];
        assert b in listb;
        MissingAfter(b, placed, a.target);
        b.CrossOff(a.target);
      }
    }

    method ReleaseAll(lista: seq<Item>, listb: seq<Item>, ghost placed: set<string>, ghost holding: bool)
      requires UniqueTargets(lista + listb) && forall x :: x in lista ==> x.target !in placed
      requires Counts(listb, placed, finallyList, holding)
      requires forall x :: x in listb ==> Distinct(x.asdeps) && Distinct(x.awdeps) && Distinct(BaseNames(x.ideps))
      modifies Objects(listb)
      ensures Counts(listb, placed + Targets(lista), finallyList, holding)
    {
      assert UniqueTargets(lista) && UniqueTargets(listb) by {
        assert forall i :: 0 <= i < |lista| ==> (lista + listb)[i] == lista[i];
        assert forall i :: 0 <= i < |listb| ==> (lista + listb)[|lista| + i] == listb[i];
      }
      assert placed + Targets(lista[..0]) == placed;
      for i := 0 to |lista|
        invariant Counts(listb, placed + Targets(lista[..i]), finallyList, holding)
      {
        assert lista[..i + 1] == lista[..i] + [lista[i]];
        TargetsOfSum(lista[..i], [lista[i]]);
        assert Targets([lista[i]]) == {lista[i].target} by { assert [lista[i]][0].target == lista[i].target; }
        Release(lista[i], listb, placed + Targets(lista[..i]), holding);
        assert placed + Targets(lista[..i]) + {lista[i].target} == placed + Targets(lista[..i + 1]);
      }
      assert lista[..|lista|] == lista;
    }

    /** Nothing else is ready: the "finally" packages are held back no longer. */
    method ReleaseFinally(listb: seq<Item>, ghost placed: set<string>)
      requires UniqueTargets(listb) && Counts(listb, placed, finallyList, true)
      modifies Objects(listb)
      ensures Counts(listb, placed, finallyList, false)
    {
      for i := 0 to |listb|
        invariant forall k :: 0 <= k < i ==> Due(listb[k], placed, false)
        invariant forall k :: i <= k < |listb| ==> Due(listb[k], placed, listb[k].target in finallyList)
      {
        var b := listb[i];
        if b.target in finallyList {
          b.acount := b.acount - 1;
        }
      }
    }

    /** Places the packages that are ready and crosses them off in the others. */
    method PlaceReady(ghost items: seq<Item>, ghost temp: seq<Item>, lista: seq<Item>, listb: seq<Item>,
                      ghost holding: bool, ghost cut: nat)
      requires WellFormed(items) && Between(items, actualList, temp, finallyList, holding, cut)
      requires Counts(temp, Targets(actualList), finallyList, holding) && Split(temp, lista, listb)
      requires (forall x :: x in lista ==> x in temp && x.acount == 0) && (forall x :: x in listb ==> x in temp)
      modifies this, Objects(listb)
      ensures actualList == old(actualList) + lista
      ensures Between(items, actualList, listb, finallyList, holding, if holding then |actualList| else cut)
      ensures Counts(listb, Targets(actualList), finallyList, holding)
    {
      LayerIsReady(items, actualList, temp, lista, listb, finallyList, holding);
      BetweenAfterLayer(items, actualList, temp, lista, listb, finallyList, holding, cut);
      ReleaseAll(lista, listb, Targets(actualList), holding);
      TargetsOfSum(actualList, lista);
      actualList := actualList + lista;
    }

    /** The build order exists exactly when no dependencies are circular. It then holds
        the same packages, each after all it depends on; and a package that needs no
        "finally" package, directly or indirectly, comes before all of those. */
    method CheckCircularDep() returns (ret: int)
      requires WellFormed(actualList) && Counted(actualList, finallyList)
      modifies this, Objects(actualList)
      ensures ret == 0 || ret == -1
      ensures ret == 0 <==> !HasCycle(EdgeOf(old(actualList)))
      ensures ret == 0 ==> multiset(actualList) == multiset(old(actualList)) && Ordered(actualList)
      ensures ret == 0 ==> HeldBack(old(actualList), finallyList, actualList)
    {
      ghost var items := actualList;
      var temp := actualList;
      actualList := [];
      var finallyFlag := true;
      ghost var cut: nat := 0;
      StartCounts(items, finallyList);
      while temp != []
        invariant Between(items, actualList, temp, finallyList, finallyFlag, cut)
        invariant Counts(temp, Targets(actualList), finallyList, finallyFlag)
        decreases |temp|, finallyFlag
      {
        RestIsUnique(actualList, temp);
        var lista, listb := Partition(temp);
        if lista != [] {
          assert Objects(listb) <= Objects(items);
          PlaceReady(items, temp, lista, listb, finallyFlag, cut);
          if finallyFlag {
            cut := |actualList|;
          }
          temp := listb;
        } else if finallyFlag {
          StopHolding(items, actualList, listb, finallyList, cut);
          finallyFlag := false;
          assert Objects(listb) <= Objects(items);
          ReleaseFinally(listb, Targets(actualList));
          temp := listb;
        } else {
          StuckMeansCycle(items, actualList, listb, finallyList);
          return -1;
        }
      }
      AllPlaced(items, actualList, finallyList, finallyFlag, cut);
      return 0;
    }
  }

  lemma RestIsUnique(a: seq<Item>, b: seq<Item>)
    requires UniqueTargets(a + b)
    ensures UniqueTargets(b)
  {
    assert forall i :: 0 <= i < |b| ==> (a + b)[|a| + i] == b[i];
  }

  lemma AllPlaced(items: seq<Item>, actual: seq<Item>, finallyList: seq<string>, holding: bool, cut: nat)
    requires WellFormed(items) && Between(items, actual, [], finallyList, holding, cut)
    ensures multiset(actual) == multiset(items) && !HasCycle(EdgeOf(items)) && HeldBack(items, finallyList, actual)
  {
    forall x ensures x in items <==> x in actual {
      assert x in items <==> x in multiset(items);
      assert x in actual <==> x in multiset(actual);
    }
    OrderedHasNoCycle(items, actual);
  }
}
