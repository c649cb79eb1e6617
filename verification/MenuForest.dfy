/** Menu trees as values: what finalizing does to the nodes below a node and to the
    siblings that follow it. */
module MenuForest {

  /** A node of the menu tree. The links are rewired in place; what kind of entry the
      node is never changes. */
  class Menu {
    var next: Menu?
    var parent: Menu?
    var list: Menu?
    const hasSym: bool
    const isChoice: bool
    const prompted: bool

    constructor (parent: Menu?, hasSym: bool, isChoice: bool, prompted: bool)
      ensures next == null && list == null && this.parent == parent
      ensures this.hasSym == hasSym && this.isChoice == isChoice && this.prompted == prompted
    {
      this.next, this.list, this.parent := null, null, parent;
      this.hasSym, this.isChoice, this.prompted := hasSym, isChoice, prompted;
    }
  }

  datatype Tree = Node(m: Menu, kids: Forest)

  datatype Forest = Nil | Cons(t: Tree, rest: Forest)

  /** Whether the second node depends on the first one's symbol (see Submenu). */
  type Oracle = (Menu, Menu) -> bool

  function Preorder(f: Forest): seq<Menu> {
    match f
    case Nil => []
    case Cons(Node(m, kids), rest) => [m] + Preorder(kids) + Preorder(rest)
  }

  function Count(f: Forest): nat {
    match f
    case Nil => 0
    case Cons(Node(_, kids), rest) => 1 + Count(kids) + Count(rest)
  }

  function Append(f: Forest, g: Forest): (r: Forest)
    ensures Count(r) == Count(f) + Count(g)
  {
    match f
    case Nil => g
    case Cons(t, rest) => Cons(t, Append(rest, g))
  }

  function Single(t: Tree): (r: Forest)
    ensures Count(r) == 1 + Count(t.kids)
  {
    Cons(t, Nil)
  }

  /** The children of a node without prompt are lifted to stand after it. */
  function Flatten(f: Forest): (r: Forest)
    ensures Count(r) == Count(f)
    decreases Count(f)
  {
    match f
    case Nil => Nil
    case Cons(Node(m, kids), rest) =>
      if kids.Cons? && !m.prompted then Cons(Node(m, Nil), Flatten(Append(kids, rest)))
      else Cons(Node(m, kids), Flatten(rest))
  }

  /** What is done to a menu tree besides restructuring it: `visit` passes a node's
      conditions down to a child, `test` reads off whether an item depends on a node's
      symbol by the conditions so far. */
  datatype Rules<!S> = Rules(visit: (S, Menu, Menu) -> S, test: (S, Menu, Menu) -> bool)

  /** With nothing to pass down, the outcome of the test is fixed. */
  function Fixed(o: Oracle): Rules<()> { Rules((u: (), m: Menu, n: Menu) => u, (u: (), m: Menu, n: Menu) => o(m, n)) }

  /** Passes the conditions of a node to each of its children. */
  function VisitLevel<S>(c: Rules<S>, st: S, m: Menu, f: Forest): S {
    match f
    case Nil => st
    case Cons(t, rest) => VisitLevel(c, c.visit(st, m, t.m), m, rest)
  }

  /** Finalizes a node: first what is below it, then the children are flattened. */
  function Finalize<S>(c: Rules<S>, st: S, t: Tree, rest: Forest, insideChoice: bool): (r: (S, Tree, Forest))
    ensures r.1.m == t.m && Count(Single(r.1)) + Count(r.2) == Count(Single(t)) + Count(rest)
    decreases Count(Single(t)) + Count(rest), 1
  {
    var (st', kids, after) := Gather(c, st, t, rest, insideChoice);
    (st', Node(t.m, Flatten(kids)), after)
  }

  /** The finalized children of a node; a leaf symbol may take over siblings that follow it. */
  function Gather<S>(c: Rules<S>, st: S, t: Tree, rest: Forest, insideChoice: bool): (r: (S, Forest, Forest))
    ensures Count(r.1) + Count(r.2) == Count(t.kids) + Count(rest)
    decreases Count(Single(t)) + Count(rest), 0
  {
    if t.kids.Cons? then
      var (st', kids) := FinalizeAll(c, VisitLevel(c, st, t.m, t.kids), t.kids, t.m.isChoice);
      (st', kids, rest)
    else if !insideChoice && t.m.hasSym then Take(c, st, t.m, rest)
    else (st, Nil, rest)
  }

  function FinalizeAll<S>(c: Rules<S>, st: S, f: Forest, insideChoice: bool): (r: (S, Forest))
    ensures Count(r.1) == Count(f)
    decreases Count(f), 2
  {
    match f
    case Nil => (st, Nil)
    case Cons(t, rest) =>
      var (st', t', rest') := Finalize(c, st, t, rest, insideChoice);
      var (st'', done) := FinalizeAll(c, st', rest', insideChoice);
      (st'', Cons(t', done))
  }

  /** Takes siblings, finalizing each, as long as they depend on the symbol of `m`. */
  function Take<S>(c: Rules<S>, st: S, m: Menu, f: Forest): (r: (S, Forest, Forest))
    ensures Count(r.1) + Count(r.2) == Count(f)
    decreases Count(f), 2
  {
    match f
    case Nil => (st, Nil, Nil)
    case Cons(t, rest) =>
      if !c.test(st, m, t.m) then (st, Nil, f)
      else
        var (st', t', rest') := Finalize(c, st, t, rest, false);
        var (st'', taken, left) := Take(c, st', m, rest');
        (st'', Cons(t', taken), left)
  }

  // ----- the order in which conditions are passed down -----

  /** The child's conditions are conjoined with its parent's. */
  datatype Visit = Visit(parent: Menu, child: Menu)

  /** All children of a node one after the other, before any of them is looked into. */
  function LevelVisits(parent: Menu, f: Forest): seq<Visit> {
    match f
    case Nil => []
    case Cons(t, rest) => [Visit(parent, t.m)] + LevelVisits(parent, rest)
  }

  /** What is left to visit once the nodes at the top have been. */
  function DeepVisits(f: Forest): seq<Visit> {
    match f
    case Nil => []
    case Cons(t, rest) => LevelVisits(t.m, t.kids) + DeepVisits(t.kids) + DeepVisits(rest)
  }

  // ----- every node keeps its place in preorder -----

  lemma Assoc(a: seq<Menu>, b: seq<Menu>, c: seq<Menu>)
    ensures a + b + c == a + (b + c) && a + [] == a && [] + c == c
  {
  }

  lemma {:induction false} AppendPreorder(f: Forest, g: Forest)
    ensures Preorder(Append(f, g)) == Preorder(f) + Preorder(g)
  {
    match f
    case Nil => Assoc([], [], Preorder(g));
    case Cons(t, rest) =>
      AppendPreorder(rest, g);
      Assoc([t.m] + Preorder(t.kids), Preorder(rest), Preorder(g));
  }

  lemma SinglePreorder(t: Tree, rest: Forest)
    ensures Preorder(Single(t)) == [t.m] + Preorder(t.kids)
    ensures Preorder(Cons(t, rest)) == Preorder(Single(t)) + Preorder(rest)
  {
    Assoc([t.m], Preorder(t.kids), []);
  }

  lemma {:induction false} FlattenPreorder(f: Forest)
    ensures Preorder(Flatten(f)) == Preorder(f)
    decreases Count(f)
  {
    match f
    case Nil =>
    case Cons(Node(m, kids), rest) =>
      if kids.Cons? && !m.prompted {
        FlattenPreorder(Append(kids, rest));
        AppendPreorder(kids, rest);
        Assoc([m], Preorder(kids), Preorder(rest));
        Assoc([m], [], Preorder(kids) + Preorder(rest));
      } else {
        FlattenPreorder(rest);
      }
  }

  lemma {:induction false} FinalizePreorder<S>(c: Rules<S>, st: S, t: Tree, rest: Forest, insideChoice: bool)
    ensures var (_, t', rest') := Finalize(c, st, t, rest, insideChoice);
      Preorder(Cons(t', rest')) == Preorder(Cons(t, rest))
    decreases Count(Single(t)) + Count(rest), 1
  {
    GatherPreorder(c, st, t, rest, insideChoice);
    FlattenPreorder(Gather(c, st, t, rest, insideChoice).1);
  }

  lemma {:induction false} GatherPreorder<S>(c: Rules<S>, st: S, t: Tree, rest: Forest, insideChoice: bool)
    ensures var (_, kids, after) := Gather(c, st, t, rest, insideChoice);
      Preorder(Cons(Node(t.m, kids), after)) == Preorder(Cons(t, rest))
    decreases Count(Single(t)) + Count(rest), 0
  {
    if t.kids.Cons? {
      FinalizeAllPreorder(c, VisitLevel(c, st, t.m, t.kids), t.kids, t.m.isChoice);
    } else if !insideChoice && t.m.hasSym {
      var (_, taken, left) := Take(c, st, t.m, rest);
      TakePreorder(c, st, t.m, rest);
      Assoc([t.m], Preorder(taken), Preorder(left));
      Assoc([t.m], [], Preorder(rest));
    }
  }

  lemma {:induction false} FinalizeAllPreorder<S>(c: Rules<S>, st: S, f: Forest, insideChoice: bool)
    ensures Preorder(FinalizeAll(c, st, f, insideChoice).1) == Preorder(f)
    decreases Count(f), 2
  {
    if f.Cons? {
      var (st', t', rest') := Finalize(c, st, f.t, f.rest, insideChoice);
      FinalizePreorder(c, st, f.t, f.rest, insideChoice);
      FinalizeAllPreorder(c, st', rest', insideChoice);
    }
  }

  lemma {:induction false} TakePreorder<S>(c: Rules<S>, st: S, m: Menu, f: Forest)
    ensures var (_, taken, left) := Take(c, st, m, f); Preorder(taken) + Preorder(left) == Preorder(f)
    decreases Count(f), 2
  {
    if f.Cons? && c.test(st, m, f.t.m) {
      var (st', t', rest') := Finalize(c, st, f.t, f.rest, false);
      var (_, taken, left) := Take(c, st', m, rest');
      FinalizePreorder(c, st, f.t, f.rest, false);
      TakePreorder(c, st', m, rest');
      Assoc([t'.m] + Preorder(t'.kids), Preorder(taken), Preorder(left));
    } else {
      Assoc([], [], Preorder(f));
    }
  }

  lemma FinalizeSteps<S>(c: Rules<S>, st: S, t: Tree, rest: Forest, insideChoice: bool)
    ensures Finalize(c, st, t, rest, insideChoice) ==
            if t.kids.Cons? then
              (var (st', kids) := FinalizeAll(c, VisitLevel(c, st, t.m, t.kids), t.kids, t.m.isChoice);
              (st', Node(t.m, Flatten(kids)), rest))
            else if !insideChoice && t.m.hasSym then
              (var (st', taken, left) := Take(c, st, t.m, rest); (st', Node(t.m, Flatten(taken)), left))
            else (st, Node(t.m, Nil), rest)
  {
    assert Flatten(Nil) == Nil;
  }

  // ----- what is taken, by the fixed outcome of the test -----

  /** The tree and what is left of the siblings, or what is taken and what is left. */
  function Settled(o: Oracle, t: Tree, rest: Forest, insideChoice: bool): (Tree, Forest) {
    var (_, t', rest') := Finalize(Fixed(o), (), t, rest, insideChoice);
    (t', rest')
  }

  function Taken(o: Oracle, m: Menu, f: Forest): (Forest, Forest) {
    var (_, taken, left) := Take(Fixed(o), (), m, f);
    (taken, left)
  }

  function SettledAll(o: Oracle, f: Forest, insideChoice: bool): Forest { FinalizeAll(Fixed(o), (), f, insideChoice).1 }

  lemma SettledSteps(o: Oracle, t: Tree, rest: Forest, insideChoice: bool)
    ensures Settled(o, t, rest, insideChoice) ==
            if t.kids.Cons? then (Node(t.m, Flatten(SettledAll(o, t.kids, t.m.isChoice))), rest)
            else if !insideChoice && t.m.hasSym then (Node(t.m, Flatten(Taken(o, t.m, rest).0)), Taken(o, t.m, rest).1)
            else (Node(t.m, Nil), rest)
  {
    assert VisitLevel(Fixed(o), (), t.m, t.kids) == ();
    FinalizeSteps(Fixed(o), (), t, rest, insideChoice);
  }

  lemma SettledAllSteps(o: Oracle, t: Tree, rest: Forest, insideChoice: bool)
    ensures var (t', rest') := Settled(o, t, rest, insideChoice);
      SettledAll(o, Cons(t, rest), insideChoice) == Cons(t', SettledAll(o, rest', insideChoice))
  {
    assert Finalize(Fixed(o), (), t, rest, insideChoice).0 == ();
  }

  lemma TakenSteps(o: Oracle, m: Menu, t: Tree, rest: Forest)
    ensures var (t', rest') := Settled(o, t, rest, false);
      Taken(o, m, Cons(t, rest)) == if o(m, t.m) then (Cons(t', Taken(o, m, rest').0), Taken(o, m, rest').1) else (Nil, Cons(t, rest))
  {
    assert Finalize(Fixed(o), (), t, rest, false).0 == ();
  }

  predicate AllDepend(o: Oracle, m: Menu, f: Forest) { f.Cons? ==> o(m, f.t.m) && AllDepend(o, m, f.rest) }

  /** Exactly the run of siblings that depend on the symbol is taken: everything taken
      does, and the first one left behind does not. */
  lemma {:induction false} TakesTheWholeRun(o: Oracle, m: Menu, f: Forest)
    ensures AllDepend(o, m, Taken(o, m, f).0)
    ensures var left := Taken(o, m, f).1; left.Cons? ==> !o(m, left.t.m)
    decreases Count(f)
  {
    if f.Cons? { TakenSteps(o, m, f.t, f.rest); }
    if f.Cons? && o(m, f.t.m) {
      TakesTheWholeRun(o, m, Settled(o, f.t, f.rest, false).1);
    }
  }

  // ----- after finalizing, only nodes with a prompt have children -----

  predicate Tidy(f: Forest) {
    match f
    case Nil => true
    case Cons(Node(m, kids), rest) => (kids.Cons? ==> m.prompted) && Tidy(kids) && Tidy(rest)
  }

  predicate TidyBelow(f: Forest) { f.Cons? ==> Tidy(f.t.kids) && TidyBelow(f.rest) }

  lemma {:induction false} TidyIsTidyBelow(f: Forest)
    requires Tidy(f)
    ensures TidyBelow(f)
  {
    if f.Cons? { TidyIsTidyBelow(f.rest); }
  }

  lemma {:induction false} TidyBelowAppend(f: Forest, g: Forest)
    requires TidyBelow(f) && TidyBelow(g)
    ensures TidyBelow(Append(f, g))
  {
    if f.Cons? { TidyBelowAppend(f.rest, g); }
  }

  lemma {:induction false} FlattenTidies(f: Forest)
    requires TidyBelow(f)
    ensures Tidy(Flatten(f))
    decreases Count(f)
  {
    match f
    case Nil =>
    case Cons(Node(m, kids), rest) =>
      if kids.Cons? && !m.prompted {
        TidyIsTidyBelow(kids);
        TidyBelowAppend(kids, rest);
        FlattenTidies(Append(kids, rest));
      } else {
        FlattenTidies(rest);
      }
  }

  lemma {:induction false} FinalizeTidies<S>(c: Rules<S>, st: S, t: Tree, rest: Forest, insideChoice: bool)
    ensures Tidy(Finalize(c, st, t, rest, insideChoice).1.kids)
    decreases Count(Single(t)) + Count(rest), 0
  {
    if t.kids.Cons? {
      FinalizeAllTidies(c, VisitLevel(c, st, t.m, t.kids), t.kids, t.m.isChoice);
    } else if !insideChoice && t.m.hasSym {
      TakeTidies(c, st, t.m, rest);
    }
    FlattenTidies(Gather(c, st, t, rest, insideChoice).1);
  }

  lemma {:induction false} FinalizeAllTidies<S>(c: Rules<S>, st: S, f: Forest, insideChoice: bool)
    ensures TidyBelow(FinalizeAll(c, st, f, insideChoice).1)
    decreases Count(f), 2
  {
    if f.Cons? {
      FinalizeTidies(c, st, f.t, f.rest, insideChoice);
      var (st', _, rest') := Finalize(c, st, f.t, f.rest, insideChoice);
      FinalizeAllTidies(c, st', rest', insideChoice);
    }
  }

  lemma {:induction false} TakeTidies<S>(c: Rules<S>, st: S, m: Menu, f: Forest)
    ensures TidyBelow(Take(c, st, m, f).1)
    decreases Count(f), 2
  {
    if f.Cons? && c.test(st, m, f.t.m) {
      FinalizeTidies(c, st, f.t, f.rest, false);
      var (st', _, rest') := Finalize(c, st, f.t, f.rest, false);
      TakeTidies(c, st', m, rest');
    }
  }

  /** Finalizing the whole tree keeps every node in its place in preorder, and leaves
      no node but the root with children and without a prompt. */
  lemma FinalizedTree<S>(c: Rules<S>, st: S, root: Tree)
    ensures var (_, t, rest) := Finalize(c, st, root, Nil, false);
      rest == Nil && Preorder(Single(t)) == Preorder(Single(root)) && Tidy(t.kids)
  {
    FinalizeTidies(c, st, root, Nil, false);
    FinalizePreorder(c, st, root, Nil, false);
  }

  // ----- what moves where -----

  /** The items that finalizing moves, each with the node it moves under. */
  function Moves(o: Oracle, t: Tree, rest: Forest, insideChoice: bool): seq<Visit>
    decreases Count(Single(t)) + Count(rest), 0
  {
    if t.kids.Cons? then MovesAll(o, t.kids, t.m.isChoice)
    else if !insideChoice && t.m.hasSym then MovesTaking(o, t.m, rest)
    else []
  }

  function MovesAll(o: Oracle, f: Forest, insideChoice: bool): seq<Visit>
    decreases Count(f), 2
  {
    match f
    case Nil => []
    case Cons(t, rest) => Moves(o, t, rest, insideChoice) + MovesAll(o, Settled(o, t, rest, insideChoice).1, insideChoice)
  }

  function MovesTaking(o: Oracle, m: Menu, f: Forest): seq<Visit>
    decreases Count(f), 2
  {
    match f
    case Nil => []
    case Cons(t, rest) =>
      if !o(m, t.m) then []
      else [Visit(m, t.m)] + Moves(o, t, rest, false) + MovesTaking(o, m, Settled(o, t, rest, false).1)
  }

  /** An item moves only under a symbol it depends on, and both are of the tree. */
  ghost predicate MovesRightly(o: Oracle, v: Visit, all: seq<Menu>) {
    o(v.parent, v.child) && v.parent.hasSym && v.parent in all && v.child in all
  }

  lemma {:induction false} MovesDepend(o: Oracle, t: Tree, rest: Forest, insideChoice: bool, all: seq<Menu>)
    requires forall n: Menu :: n in Preorder(Cons(t, rest)) ==> n in all
    ensures forall v: Visit :: v in Moves(o, t, rest, insideChoice) ==> MovesRightly(o, v, all)
    decreases Count(Single(t)) + Count(rest), 0
  {
    assert Preorder(Cons(t, rest)) == [t.m] + Preorder(t.kids) + Preorder(rest);
    assert t.m in Preorder(Cons(t, rest));
    if t.kids.Cons? {
      MovesAllDepend(o, t.kids, t.m.isChoice, all);
    } else if !insideChoice && t.m.hasSym {
      MovesTakingDepend(o, t.m, rest, all);
    }
  }

  lemma {:induction false} MovesAllDepend(o: Oracle, f: Forest, insideChoice: bool, all: seq<Menu>)
    requires forall n: Menu :: n in Preorder(f) ==> n in all
    ensures forall v: Visit :: v in MovesAll(o, f, insideChoice) ==> MovesRightly(o, v, all)
    decreases Count(f), 2
  {
    if f.Cons? {
      var (t', rest') := Settled(o, f.t, f.rest, insideChoice);
      FinalizePreorder(Fixed(o), (), f.t, f.rest, insideChoice);
      assert Preorder(f) == [t'.m] + Preorder(t'.kids) + Preorder(rest');
      MovesDepend(o, f.t, f.rest, insideChoice, all);
      MovesAllDepend(o, rest', insideChoice, all);
    }
  }

  lemma {:induction false} MovesTakingDepend(o: Oracle, m: Menu, f: Forest, all: seq<Menu>)
    requires m.hasSym && m in all && forall n: Menu :: n in Preorder(f) ==> n in all
    ensures forall v: Visit :: v in MovesTaking(o, m, f) ==> MovesRightly(o, v, all)
    decreases Count(f), 2
  {
    if f.Cons? && o(m, f.t.m) {
      var (t', rest') := Settled(o, f.t, f.rest, false);
      FinalizePreorder(Fixed(o), (), f.t, f.rest, false);
      assert Preorder(f) == [t'.m] + Preorder(t'.kids) + Preorder(rest');
      assert f.t.m in Preorder(f);
      MovesDepend(o, f.t, f.rest, false, all);
      MovesTakingDepend(o, m, rest', all);
    }
  }

  /** Every node of the forest under `parent` stands where the relation allows. */
  predicate Stands(parent: Menu, f: Forest, places: set<Visit>) {
    f.Cons? ==> Visit(parent, f.t.m) in places && Stands(f.t.m, f.t.kids, places) && Stands(parent, f.rest, places)
  }

  /** What stands under a node without prompt may stand under that node's parent. */
  ghost predicate Lifting(places: set<Visit>) {
    forall u: Visit, v: Visit :: u in places && v in places && u.child == v.parent && !v.parent.prompted ==>
      Visit(u.parent, v.child) in places
  }

  ghost predicate Within(vs: seq<Visit>, places: set<Visit>) { forall v: Visit :: v in vs ==> v in places }

  lemma {:induction false} LiftedStand(parent: Menu, m: Menu, kids: Forest, places: set<Visit>)
    requires Lifting(places) && Visit(parent, m) in places && !m.prompted && Stands(m, kids, places)
    ensures Stands(parent, kids, places)
  {
    if kids.Cons? {
      assert Visit(m, kids.t.m) in places;
      LiftedStand(parent, m, kids.rest, places);
    }
  }

  lemma {:induction false} AppendStands(parent: Menu, f: Forest, g: Forest, places: set<Visit>)
    requires Stands(parent, f, places) && Stands(parent, g, places)
    ensures Stands(parent, Append(f, g), places)
  {
    if f.Cons? { AppendStands(parent, f.rest, g, places); }
  }

  lemma {:induction false} FlattenStands(parent: Menu, f: Forest, places: set<Visit>)
    requires Lifting(places) && Stands(parent, f, places)
    ensures Stands(parent, Flatten(f), places)
    decreases Count(f)
  {
    match f
    case Nil =>
    case Cons(Node(m, kids), rest) =>
      if kids.Cons? && !m.prompted {
        LiftedStand(parent, m, kids, places);
        AppendStands(parent, kids, rest, places);
        FlattenStands(parent, Append(kids, rest), places);
      } else {
        FlattenStands(parent, rest, places);
      }
  }

  lemma {:induction false} FinalizeStands(
    o: Oracle, t: Tree, rest: Forest, insideChoice: bool, parent: Menu, places: set<Visit>)
    requires Lifting(places) && Within(Moves(o, t, rest, insideChoice), places)
    requires Stands(t.m, t.kids, places) && Stands(parent, rest, places)
    ensures var (t', rest') := Settled(o, t, rest, insideChoice);
      Stands(t.m, t'.kids, places) && Stands(parent, rest', places)
    decreases Count(Single(t)) + Count(rest), 0
  {
    SettledSteps(o, t, rest, insideChoice);
    if t.kids.Cons? {
      FinalizeAllStands(o, t.kids, t.m.isChoice, t.m, places);
      FlattenStands(t.m, SettledAll(o, t.kids, t.m.isChoice), places);
    } else if !insideChoice && t.m.hasSym {
      TakeStands(o, t.m, rest, parent, places);
      FlattenStands(t.m, Taken(o, t.m, rest).0, places);
    }
  }

  lemma {:induction false} FinalizeAllStands(o: Oracle, f: Forest, insideChoice: bool, parent: Menu, places: set<Visit>)
    requires Lifting(places) && Within(MovesAll(o, f, insideChoice), places) && Stands(parent, f, places)
    ensures Stands(parent, SettledAll(o, f, insideChoice), places)
    decreases Count(f), 2
  {
    if f.Cons? {
      SettledAllSteps(o, f.t, f.rest, insideChoice);
      FinalizeStands(o, f.t, f.rest, insideChoice, parent, places);
      FinalizeAllStands(o, Settled(o, f.t, f.rest, insideChoice).1, insideChoice, parent, places);
    }
  }

  lemma {:induction false} TakeStands(o: Oracle, m: Menu, f: Forest, parent: Menu, places: set<Visit>)
    requires Lifting(places) && Within(MovesTaking(o, m, f), places) && Stands(parent, f, places)
    ensures Stands(m, Taken(o, m, f).0, places) && Stands(parent, Taken(o, m, f).1, places)
    decreases Count(f), 2
  {
    if f.Cons? { TakenSteps(o, m, f.t, f.rest); }
    if f.Cons? && o(m, f.t.m) {
      FinalizeStands(o, f.t, f.rest, false, parent, places);
      TakeStands(o, m, Settled(o, f.t, f.rest, false).1, parent, places);
    }
  }

  /** Nothing stands anywhere else: in the finalized tree a node is under the one it was
      parsed under, or one it moved under, or has been lifted from there past nodes
      without a prompt. */
  lemma FinalizedPlaces(o: Oracle, root: Tree, places: set<Visit>)
    requires Lifting(places) && Stands(root.m, root.kids, places) && Within(Moves(o, root, Nil, false), places)
    ensures Stands(root.m, Settled(o, root, Nil, false).0.kids, places)
  {
    FinalizeStands(o, root, Nil, false, root.m, places);
  }

  // ----- what does not stay -----

  /** Of the nodes at the top, those in `leaves` have no children as parsed. */
  ghost predicate Leaves(f: Forest, leaves: set<Menu>) {
    f.Cons? ==> (f.t.m in leaves ==> f.t.kids == Nil) && Leaves(f.rest, leaves)
  }

  /** No leaf with a symbol is followed by a node that depends on it. */
  ghost predicate NoneFollows(o: Oracle, f: Forest, leaves: set<Menu>) {
    f.Cons? ==>
      (f.rest.Cons? && f.t.m in leaves && f.t.m.hasSym ==> !o(f.t.m, f.rest.t.m)) && NoneFollows(o, f.rest, leaves)
  }

  lemma {:induction false} LeafTakesItsRun(o: Oracle, t: Tree, rest: Forest, leaves: set<Menu>)
    requires Leaves(Cons(t, rest), leaves)
    ensures var after := Settled(o, t, rest, false).1;
      Leaves(after, leaves) && (after.Cons? && t.m in leaves && t.m.hasSym ==> !o(t.m, after.t.m))
    decreases Count(Single(t)) + Count(rest), 0
  {
    SettledSteps(o, t, rest, false);
    if !t.kids.Cons? && t.m.hasSym {
      TakesTheWholeRun(o, t.m, rest);
      TakenLeavesLeaves(o, t.m, rest, leaves);
    }
  }

  lemma {:induction false} TakenLeavesLeaves(o: Oracle, m: Menu, f: Forest, leaves: set<Menu>)
    requires Leaves(f, leaves)
    ensures Leaves(Taken(o, m, f).1, leaves)
    decreases Count(f), 2
  {
    if f.Cons? {
      TakenSteps(o, m, f.t, f.rest);
      if o(m, f.t.m) {
        LeafTakesItsRun(o, f.t, f.rest, leaves);
        TakenLeavesLeaves(o, m, Settled(o, f.t, f.rest, false).1, leaves);
      }
    }
  }

  /** Outside choices, among the finalized children of a node and among those it has taken,
      no item is left behind a leaf on whose symbol it depends. */
  lemma {:induction false} NoneIsLeftBehind(o: Oracle, f: Forest, leaves: set<Menu>)
    requires Leaves(f, leaves)
    ensures NoneFollows(o, SettledAll(o, f, false), leaves)
    decreases Count(f)
  {
    if f.Cons? {
      var (t', after) := Settled(o, f.t, f.rest, false);
      SettledAllSteps(o, f.t, f.rest, false);
      LeafTakesItsRun(o, f.t, f.rest, leaves);
      NoneIsLeftBehind(o, after, leaves);
      if after.Cons? { SettledAllSteps(o, after.t, after.rest, false); }
    }
  }

  lemma {:induction false} NoneIsLeftBehindTaken(o: Oracle, m: Menu, f: Forest, leaves: set<Menu>)
    requires Leaves(f, leaves)
    ensures NoneFollows(o, Taken(o, m, f).0, leaves)
    decreases Count(f)
  {
    if f.Cons? {
      TakenSteps(o, m, f.t, f.rest);
      if o(m, f.t.m) {
        var after := Settled(o, f.t, f.rest, false).1;
        LeafTakesItsRun(o, f.t, f.rest, leaves);
        NoneIsLeftBehindTaken(o, m, after, leaves);
        if after.Cons? { TakenSteps(o, m, after.t, after.rest); }
      }
    }
  }

  function Tops(f: Forest): seq<Menu> { if f.Nil? then [] else [f.t.m] + Tops(f.rest) }

  /** The members of a choice stay where they are, and so do the siblings after a node that
      has children of its own. */
  lemma {:induction false} ChoiceKeepsMembers(o: Oracle, f: Forest)
    ensures Tops(SettledAll(o, f, true)) == Tops(f)
    decreases Count(f)
  {
    if f.Cons? {
      SettledAllSteps(o, f.t, f.rest, true);
      SettledSteps(o, f.t, f.rest, true);
      ChoiceKeepsMembers(o, f.rest);
    }
  }

  lemma ParentKeepsSiblings(o: Oracle, t: Tree, rest: Forest, insideChoice: bool)
    requires t.kids.Cons? || !t.m.hasSym
    ensures Settled(o, t, rest, insideChoice).1 == rest
  {
    SettledSteps(o, t, rest, insideChoice);
  }
}
