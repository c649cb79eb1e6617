/** The menu tree as linked nodes, rewired in place while conditions are passed down it,
    and the walk that visits every node once. */
module MenuTree {
  import opened MenuForest
  import opened Sequences

  function Nodes(f: Forest): set<Menu> {
    match f
    case Nil => {}
    case Cons(Node(m, kids), rest) => {m} + Nodes(kids) + Nodes(rest)
  }

  lemma {:induction false} NodesAreListed(f: Forest)
    ensures Nodes(f) == set m | m in Preorder(f)
  {
    match f
    case Nil =>
    case Cons(Node(m, kids), rest) =>
      NodesAreListed(kids);
      NodesAreListed(rest);
      assert Preorder(f) == [m] + Preorder(kids) + Preorder(rest);
  }

  /** From `p` the sibling links lead through the trees of the forest to `q`; every
      node knows its parent and links to its children. */
  ghost predicate Segment(p: Menu?, f: Forest, q: Menu?, par: Menu?)
    reads Nodes(f)
    decreases f
  {
    match f
    case Nil => p == q
    case Cons(Node(m, kids), rest) =>
      p == m && m.parent == par && Segment(m.list, kids, null, m) && Segment(m.next, rest, q, par)
  }

  lemma {:induction false} NodesAppend(f: Forest, g: Forest)
    ensures Nodes(Append(f, g)) == Nodes(f) + Nodes(g)
  {
    if f.Cons? { NodesAppend(f.rest, g); }
  }

  lemma {:induction false} SegmentAppend(p: Menu?, f: Forest, q: Menu?, g: Forest, r: Menu?, par: Menu?)
    requires Segment(p, f, q, par) && Segment(q, g, r, par)
    ensures Segment(p, Append(f, g), r, par)
    decreases f
  {
    match f
    case Nil =>
    case Cons(Node(m, kids), rest) => SegmentAppend(m.next, rest, q, g, r, par);
  }

  /** Where the list passes from the first part to the second. */
  ghost function Border(g: Forest, r: Menu?): Menu? {
    if g.Cons? then g.t.m else r
  }

  lemma {:induction false} SegmentSplit(p: Menu?, f: Forest, g: Forest, r: Menu?, par: Menu?)
    requires Segment(p, Append(f, g), r, par)
    ensures Segment(p, f, Border(g, r), par) && Segment(Border(g, r), g, r, par)
    decreases f
  {
    match f
    case Nil =>
    case Cons(Node(m, kids), rest) => SegmentSplit(m.next, rest, g, r, par);
  }

  /** A whole list of siblings, none of whose nodes occurs twice. */
  ghost predicate Siblings(p: Menu?, f: Forest, par: Menu?)
    reads Nodes(f)
  {
    Segment(p, f, null, par) && Distinct(Preorder(f))
  }

  lemma {:induction false} DistinctParts(a: seq<Menu>, b: seq<Menu>)
    requires Distinct(a + b)
    ensures Distinct(a) && Distinct(b) && forall x :: x in a ==> x !in b
  {
    assert forall i :: 0 <= i < |a| ==> (a + b)[i] == a[i];
    assert forall i :: 0 <= i < |b| ==> (a + b)[|a| + i] == b[i];
  }

  lemma Members(a: seq<Menu>, b: seq<Menu>)
    ensures (set m | m in a + b) == (set m | m in a) + (set m | m in b)
  {
  }

  /** The two halves of a forest that is being walked. */
  lemma {:induction false} Halves(f: Forest, g: Forest, h: Forest)
    requires Preorder(f) + Preorder(g) == Preorder(h)
    ensures Nodes(f) + Nodes(g) == Nodes(h)
    ensures Distinct(Preorder(h)) ==> Distinct(Preorder(f)) && Distinct(Preorder(g)) && Nodes(f) !! Nodes(g)
  {
    NodesAreListed(f);
    NodesAreListed(g);
    NodesAreListed(h);
    Members(Preorder(f), Preorder(g));
    if Distinct(Preorder(h)) {
      DistinctParts(Preorder(f), Preorder(g));
    }
  }

  lemma SameNodes(f: Forest, g: Forest)
    requires Preorder(f) == Preorder(g)
    ensures Nodes(f) == Nodes(g)
  {
    NodesAreListed(f);
    NodesAreListed(g);
  }

  lemma {:induction false} DistinctForest(m: Menu, kids: Forest, rest: Forest)
    requires Distinct(Preorder(Cons(Node(m, kids), rest)))
    ensures Distinct(Preorder(kids)) && Distinct(Preorder(rest))
    ensures m !in Nodes(kids) && m !in Nodes(rest) && Nodes(kids) !! Nodes(rest)
  {
    var a := [m] + Preorder(kids);
    DistinctParts(a, Preorder(rest));
    DistinctParts([m], Preorder(kids));
    assert m in [m] && m in a;
    assert forall x :: x in Preorder(kids) ==> x in a;
    NodesAreListed(kids);
    NodesAreListed(rest);
  }

  lemma LiftPreorder(m: Menu, kids: Forest, rest: Forest)
    ensures Preorder(Cons(Node(m, Nil), Append(kids, rest))) == Preorder(Cons(Node(m, kids), rest))
  {
    AppendPreorder(kids, rest);
    Assoc([m], [], Preorder(kids) + Preorder(rest));
    Assoc([m], Preorder(kids), Preorder(rest));
  }

  lemma TakenPreorder(m: Menu, taken: Forest, left: Forest, rest: Forest)
    requires Preorder(taken) + Preorder(left) == Preorder(rest)
    ensures Preorder(Cons(Node(m, taken), left)) == Preorder(Cons(Node(m, Nil), rest))
  {
    Assoc([m], Preorder(taken), Preorder(left));
    Assoc([m], [], Preorder(rest));
  }

  lemma {:induction false} AppendNil(f: Forest)
    ensures Append(f, Nil) == f
  {
    if f.Cons? { AppendNil(f.rest); }
  }

  lemma {:induction false} AppendMove(f: Forest, t: Tree, g: Forest)
    ensures Append(f, Cons(t, g)) == Append(Append(f, Single(t)), g)
  {
    if f.Cons? { AppendMove(f.rest, t, g); }
  }

  /** The part of the list before the cursor grown by the tree under it. */
  lemma {:induction false} MoveOver(p: Menu?, f: Forest, t: Tree, par: Menu?, rest: Forest) returns (g: Forest)
    requires Segment(p, f, t.m, par) && Segment(t.m, Single(t), t.m.next, par)
    ensures g == Append(f, Single(t)) && Segment(p, g, t.m.next, par)
    ensures Preorder(g) == Preorder(f) + Preorder(Single(t))
    ensures Preorder(g) + Preorder(rest) == Preorder(f) + Preorder(Cons(t, rest))
  {
    g := Append(f, Single(t));
    SegmentAppend(p, f, t.m, Single(t), t.m.next, par);
    AppendPreorder(f, Single(t));
    SinglePreorder(t, rest);
    Assoc(Preorder(f), Preorder(Single(t)), Preorder(rest));
  }

  class Finalizer<S> {
    const c: Rules<S>
    // What has been passed down so far.
    var state: S
    // The nodes finalized so far, in order.
    ghost var visited: seq<Menu>

    constructor (c: Rules<S>, state: S)
      ensures this.c == c && this.state == state && visited == []
    {
      this.c, this.state, visited := c, state, [];
    }

    /** Passes the conditions of a node to each of its children. */
    method VisitChildren(parent: Menu, ghost f: Forest)
      requires Segment(parent.list, f, null, parent)
      modifies `state
      ensures state == VisitLevel(c, old(state), parent, f)
    {
      var menu := parent.list;
      ghost var todo := f;
      while menu != null
        invariant Segment(menu, todo, null, parent)
        invariant VisitLevel(c, state, parent, todo) == VisitLevel(c, old(state), parent, f)
        decreases todo
      {
        assert allocated(Nodes(todo));
        state := c.visit(state, parent, menu);
        menu, todo := menu.next, todo.rest;
      }
    }

    /** Gives one node a new parent; its children and the siblings after it stay. */
    method AdoptNode(m: Menu, parent: Menu, ghost t: Tree, ghost rest: Forest, ghost from: Menu?)
      requires Siblings(m, Cons(t, rest), from)
      modifies m`parent
      ensures Segment(m, Single(t), m.next, parent) && Siblings(m.next, rest, from)
    {
      DistinctForest(t.m, t.kids, rest);
      m.parent := parent;
    }

    /** Gives every node of a sibling list a new parent and returns the last one. */
    method Adopt(first: Menu, parent: Menu, ghost kids: Forest, ghost from: Menu?)
      returns (last: Menu, ghost front: Forest, ghost lt: Tree)
      requires kids.Cons? && Siblings(first, kids, from)
      modifies Nodes(kids)
      ensures kids == Append(front, Single(lt)) && lt.m == last
      ensures Segment(first, front, last, parent) && Segment(last, Single(lt), null, parent)
    {
      last := first;
      front, lt := Nil, kids.t;
      ghost var todo := kids.rest;
      AdoptNode(last, parent, lt, todo, from);
      while last.next != null
        invariant kids == Append(front, Cons(lt, todo)) && lt.m == last
        invariant Segment(first, front, last, parent) && Segment(last, Single(lt), last.next, parent)
        invariant Siblings(last.next, todo, from)
        decreases Count(todo)
      {
        ghost var front' := MoveOver(first, front, lt, parent, todo);
        AppendMove(front, lt, todo);
        AppendPreorder(front', todo);
        Halves(front', todo, kids);
        last := last.next;
        assert last == todo.t.m && last in Nodes(todo);
        assert allocated(Nodes(front'));
        AdoptNode(last, parent, todo.t, todo.rest, from);
        front, lt, todo := front', todo.t, todo.rest;
      }
      assert todo == Nil;
    }

    /** Hangs the siblings at `next` behind the last tree of a list. */
    method Join(ghost first: Menu?, last: Menu, next: Menu?, ghost kids: Forest, ghost front: Forest, ghost lt: Tree,
        ghost rest: Forest, ghost par: Menu?)
      requires kids == Append(front, Single(lt)) && lt.m == last && Distinct(Preorder(kids)) && Nodes(kids) !! Nodes(rest)
      requires Segment(first, kids, last.next, par) && Segment(next, rest, null, par)
      modifies last`next
      ensures Segment(first, Append(kids, rest), null, par)
    {
      AppendPreorder(front, Single(lt));
      Halves(front, Single(lt), kids);
      DistinctForest(lt.m, lt.kids, Nil);
      SegmentSplit(first, front, Single(lt), last.next, par);
      last.next := next;
      SegmentAppend(first, front, last, Single(lt), next, par);
      SegmentAppend(first, kids, next, rest, null, par);
    }

    /** Lifts the children of a node without prompt to stand after it. */
    method Lift(menu: Menu, parent: Menu, ghost kids: Forest, ghost rest: Forest)
      requires kids.Cons? && Siblings(menu, Cons(Node(menu, kids), rest), parent)
      modifies menu, Nodes(kids)
      ensures Siblings(menu, Cons(Node(menu, Nil), Append(kids, rest)), parent)
    {
      DistinctForest(menu, kids, rest);
      LiftPreorder(menu, kids, rest);
      assert Siblings(menu.list, kids, menu);
      assert allocated(Nodes(rest)) && allocated(Nodes(kids));
      var last, front, lt := Adopt(menu.list, parent, kids, menu);
      NodesAppend(front, Single(lt));
      assert last in Nodes(Single(lt));
      SegmentAppend(menu.list, front, last, Single(lt), null, parent);
      assert last.next == null;
      Join(menu.list, last, menu.next, kids, front, lt, rest, parent);
      NodesAppend(kids, rest);
      menu.next := menu.list;
      menu.list := null;
    }

    /** Lifts the children of every child without prompt. */
    method FlattenChildren(parent: Menu, ghost f: Forest)
      requires Siblings(parent.list, f, parent) && parent !in Nodes(f)
      modifies Nodes(f)
      ensures Siblings(parent.list, Flatten(f), parent) && Nodes(Flatten(f)) == Nodes(f)
    {
      var menu := parent.list;
      ghost var done, todo := Nil, f;
      Assoc([], [], Preorder(f));
      while menu != null
        invariant Segment(parent.list, done, menu, parent) && Segment(menu, todo, null, parent)
        invariant Preorder(done) + Preorder(todo) == Preorder(f)
        invariant Flatten(f) == Append(done, Flatten(todo))
        decreases Count(todo)
      {
        Halves(done, todo, f);
        assert allocated(Nodes(done));
        ghost var t, rest := FlattenChild(menu, parent, todo);
        AppendMove(done, t, Flatten(rest));
        done := MoveOver(parent.list, done, t, parent, rest);
        menu, todo := menu.next, rest;
      }
      AppendNil(done);
      FlattenPreorder(f);
      SameNodes(Flatten(f), f);
    }

    /** Lifts the children of one child if it has no prompt. */
    method FlattenChild(menu: Menu, parent: Menu, ghost f: Forest) returns (ghost t: Tree, ghost rest: Forest)
      requires Siblings(menu, f, parent)
      modifies Nodes(f)
      ensures Flatten(f) == Cons(t, Flatten(rest)) && Preorder(Cons(t, rest)) == Preorder(f) && Count(rest) < Count(f)
      ensures t.m == menu && Segment(menu, Single(t), menu.next, parent) && Segment(menu.next, rest, null, parent)
    {
      t, rest := f.t, f.rest;
      assert Segment(menu.list, t.kids, null, menu);
      assert t.kids.Cons? <==> menu.list != null;
      if menu.list != null && !menu.prompted {
        Lift(menu, parent, t.kids, rest);
        LiftPreorder(menu, t.kids, rest);
        t, rest := Node(menu, Nil), Append(t.kids, rest);
      }
    }

    /** Finalizes a node, and on the way every node that ends up below it. */
    method Finalize(parent: Menu, insideChoice: bool, ghost t: Tree, ghost rest: Forest, ghost par: Menu?)
      returns (ghost t': Tree, ghost rest': Forest)
      requires parent == t.m && Siblings(parent, Cons(t, rest), par)
      modifies `state, `visited, Nodes(Cons(t, rest))
      ensures (state, t', rest') == MenuForest.Finalize(c, old(state), t, rest, insideChoice)
      ensures Siblings(parent, Cons(t', rest'), par)
      ensures visited == old(visited) + Preorder(Single(t'))
      decreases Count(Single(t)) + Count(rest), 1
    {
      ghost var kids;
      GatheredNodes(t, rest, insideChoice);
      kids, rest' := Gather(parent, insideChoice, t, rest, par);
      Assoc(old(visited), [parent], Preorder(kids));
      t' := FlattenBelow(parent, kids, rest', par);
    }

    lemma GatheredNodes(t: Tree, rest: Forest, insideChoice: bool)
      ensures var (_, kids, after) := MenuForest.Gather(c, state, t, rest, insideChoice);
        Nodes(Cons(Node(t.m, kids), after)) == Nodes(Cons(t, rest))
    {
      var (_, kids, after) := MenuForest.Gather(c, state, t, rest, insideChoice);
      GatherPreorder(c, state, t, rest, insideChoice);
      SameNodes(Cons(Node(t.m, kids), after), Cons(t, rest));
    }

    method FlattenBelow(parent: Menu, ghost kids: Forest, ghost rest: Forest, ghost par: Menu?) returns (ghost t: Tree)
      requires Siblings(parent, Cons(Node(parent, kids), rest), par)
      modifies Nodes(kids)
      ensures t == Node(parent, Flatten(kids)) && Siblings(parent, Cons(t, rest), par)
      ensures Preorder(Single(t)) == [parent] + Preorder(kids)
    {
      DistinctForest(parent, kids, rest);
      assert allocated(Nodes(rest));
      FlattenChildren(parent, kids);
      FlattenPreorder(kids);
      t := Node(parent, Flatten(kids));
      SinglePreorder(t, rest);
    }

    /** Passes the conditions of a node to its children, then finalizes each of them. */
    method FinalizeBelow(parent: Menu, ghost f: Forest, ghost rest: Forest, ghost par: Menu?) returns (ghost kids: Forest)
      requires Siblings(parent, Cons(Node(parent, f), rest), par)
      modifies `state, `visited, Nodes(f)
      ensures (state, kids) == FinalizeAll(c, VisitLevel(c, old(state), parent, f), f, parent.isChoice)
      ensures Siblings(parent, Cons(Node(parent, kids), rest), par)
      ensures visited == old(visited) + Preorder(kids)
      decreases Count(f), 4
    {
      DistinctForest(parent, f, rest);
      assert allocated(Nodes(f)) && allocated(Nodes(rest));
      VisitChildren(parent, f);
      FinalizeAllPreorder(c, state, f, parent.isChoice);
      kids := FinalizeChildren(parent, f, parent.isChoice);
    }

    /** Finalizes the children of a node, or takes over the siblings that depend on it. */
    method Gather(parent: Menu, insideChoice: bool, ghost t: Tree, ghost rest: Forest, ghost par: Menu?)
      returns (ghost kids: Forest, ghost after: Forest)
      requires parent == t.m && Siblings(parent, Cons(t, rest), par)
      modifies `state, `visited, Nodes(Cons(t, rest))
      ensures (state, kids, after) == MenuForest.Gather(c, old(state), t, rest, insideChoice)
      ensures Siblings(parent, Cons(Node(parent, kids), after), par)
      ensures visited == old(visited) + [parent] + Preorder(kids)
      decreases Count(Single(t)) + Count(rest), 0
    {
      visited := visited + [parent];
      kids, after := t.kids, rest;
      DistinctForest(parent, t.kids, rest);
      assert allocated(Nodes(rest));
      assert Segment(parent.list, t.kids, null, parent);
      if parent.list != null {
        kids := FinalizeBelow(parent, t.kids, rest, par);
      } else if !insideChoice && parent.hasSym {
        kids, after := TakeFollowing(parent, rest, par);
      } else {
        Assoc(visited, [], []);
      }
    }

    /** Finalizes the next sibling; those before it stay as they are. */
    method FinalizeNext(menu: Menu, insideChoice: bool, ghost first: Menu?, ghost done: Forest, ghost todo: Forest, ghost par: Menu?)
      returns (ghost t: Tree, ghost done': Forest, ghost rest: Forest)
      requires Segment(first, done, menu, par) && Siblings(menu, todo, par) && Nodes(done) !! Nodes(todo)
      modifies `state, `visited, Nodes(todo)
      ensures (state, t, rest) == MenuForest.Finalize(c, old(state), todo.t, todo.rest, insideChoice)
      ensures done' == Append(done, Single(t)) && Preorder(done') == Preorder(done) + Preorder(Single(t))
      ensures Segment(first, done', menu.next, par) && Segment(menu.next, rest, null, par)
      ensures Preorder(done') + Preorder(rest) == Preorder(done) + Preorder(todo)
      ensures visited == old(visited) + Preorder(Single(t))
      decreases Count(todo), 2
    {
      assert allocated(Nodes(done));
      FinalizePreorder(c, state, todo.t, todo.rest, insideChoice);
      t, rest := Finalize(menu, insideChoice, todo.t, todo.rest, par);
      done' := MoveOver(first, done, t, par, rest);
    }

    /** Finalizes the children of a node one after the other. */
    method FinalizeChildren(parent: Menu, ghost f: Forest, isChoice: bool) returns (ghost kids: Forest)
      requires Siblings(parent.list, f, parent) && parent !in Nodes(f)
      modifies `state, `visited, Nodes(f)
      ensures (state, kids) == FinalizeAll(c, old(state), f, isChoice) && Nodes(kids) == Nodes(f)
      ensures Siblings(parent.list, kids, parent)
      ensures visited == old(visited) + Preorder(kids)
      decreases Count(f), 3
    {
      ghost var all := FinalizeAll(c, state, f, isChoice);
      FinalizeAllPreorder(c, state, f, isChoice);
      var menu := parent.list;
      ghost var done, todo := Nil, f;
      Assoc([], [], Preorder(f));
      Assoc(visited, [], []);
      while menu != null
        invariant Segment(parent.list, done, menu, parent) && Segment(menu, todo, null, parent)
        invariant Preorder(done) + Preorder(todo) == Preorder(f) && Count(todo) <= Count(f)
        invariant all.0 == FinalizeAll(c, state, todo, isChoice).0
        invariant all.1 == Append(done, FinalizeAll(c, state, todo, isChoice).1)
        invariant visited == old(visited) + Preorder(done)
        decreases Count(todo)
      {
        Halves(done, todo, f);
        ghost var t, done', rest := FinalizeNext(menu, isChoice, parent.list, done, todo, parent);
        AppendMove(done, t, FinalizeAll(c, state, rest, isChoice).1);
        Assoc(old(visited), Preorder(done), Preorder(Single(t)));
        done, menu, todo := done', menu.next, rest;
      }
      AppendNil(done);
      SameNodes(done, f);
      kids := done;
    }

    /** Makes the list up to the last taken node the children of `parent`. */
    method Cut(parent: Menu, last: Menu, ghost done: Forest, ghost front: Forest, ghost lt: Tree, ghost left: Forest, ghost par: Menu?)
      requires done == Append(front, Single(lt)) && lt.m == last && parent.parent == par
      requires Segment(parent.next, done, last.next, parent) && Segment(last.next, left, null, par)
      requires Distinct(Preorder(Cons(Node(parent, done), left)))
      modifies parent, last
      ensures Siblings(parent, Cons(Node(parent, done), left), par)
    {
      DistinctForest(parent, done, left);
      NodesAppend(front, Single(lt));
      assert allocated(Nodes(left)) && last in Nodes(Single(lt));
      ghost var first, border := parent.next, last.next;
      parent.list := parent.next;
      parent.next := last.next;
      Join(first, last, null, done, front, lt, Nil, parent);
      AppendNil(done);
      assert Segment(border, left, null, par);
    }

    /** Finalizes one sibling and makes it a child of `parent`. */
    method TakeOne(menu: Menu, parent: Menu, ghost f: Forest, ghost par: Menu?) returns (ghost t: Tree, ghost after: Forest)
      requires Siblings(menu, f, par)
      modifies `state, `visited, Nodes(f)
      ensures (state, t, after) == MenuForest.Finalize(c, old(state), f.t, f.rest, false)
      ensures t.m == menu && Segment(menu, Single(t), menu.next, parent) && Segment(menu.next, after, null, par)
      ensures Preorder(Cons(t, after)) == Preorder(f) && visited == old(visited) + Preorder(Single(t))
      decreases Count(f), 2
    {
      FinalizePreorder(c, state, f.t, f.rest, false);
      t, after := Finalize(menu, false, f.t, f.rest, par);
      SameNodes(Cons(t, after), f);
      AdoptNode(menu, parent, t, after, par);
    }

    /** Takes the next sibling; those taken before it stay as they are. */
    method TakeNext(menu: Menu, parent: Menu, ghost first: Menu?, ghost done: Forest, ghost todo: Forest, ghost par: Menu?)
      returns (ghost t: Tree, ghost done': Forest, ghost after: Forest)
      requires Segment(first, done, menu, parent) && Siblings(menu, todo, par) && Nodes(done) !! Nodes(todo)
      modifies `state, `visited, Nodes(todo)
      ensures (state, t, after) == MenuForest.Finalize(c, old(state), todo.t, todo.rest, false) && t.m == menu
      ensures done' == Append(done, Single(t)) && Preorder(done') == Preorder(done) + Preorder(Single(t))
      ensures Segment(first, done', menu.next, parent) && Segment(menu.next, after, null, par)
      ensures Preorder(done') + Preorder(after) == Preorder(done) + Preorder(todo)
      ensures visited == old(visited) + Preorder(Single(t))
      decreases Count(todo), 3
    {
      assert allocated(Nodes(done));
      t, after := TakeOne(menu, parent, todo, par);
      done' := MoveOver(first, done, t, parent, after);
    }

    /** Finalizes the siblings after a node that depend on its symbol and makes them its
        children, without relinking the lists yet. */
    method TakeRun(parent: Menu, ghost rest: Forest, ghost par: Menu?)
      returns (last: Menu?, ghost taken: Forest, ghost left: Forest, ghost front: Forest, ghost lt: Tree)
      requires parent !in Nodes(rest) && Siblings(parent.next, rest, par)
      modifies `state, `visited, Nodes(rest)
      ensures (state, taken, left) == Take(c, old(state), parent, rest)
      ensures last == null ==> taken == Nil && Segment(parent.next, left, null, par)
      ensures last != null ==> last == lt.m && taken == Append(front, Single(lt)) && last in Nodes(rest)
      ensures last != null ==> Segment(parent.next, taken, last.next, parent) && Segment(last.next, left, null, par)
      ensures visited == old(visited) + Preorder(taken)
      decreases Count(rest), 4
    {
      var menu := parent.next;
      last := null;
      ghost var all := Take(c, state, parent, rest);
      ghost var done, todo := Nil, rest;
      front, lt := Nil, Node(parent, Nil);
      Assoc([], [], Preorder(rest));
      Assoc(visited, [], []);
      while menu != null && c.test(state, parent, menu)
        invariant Segment(parent.next, done, menu, parent) && Segment(menu, todo, null, par)
        invariant Preorder(done) + Preorder(todo) == Preorder(rest) && Count(todo) <= Count(rest)
        invariant all.0 == Take(c, state, parent, todo).0 && all.2 == Take(c, state, parent, todo).2
        invariant all.1 == Append(done, Take(c, state, parent, todo).1)
        invariant visited == old(visited) + Preorder(done)
        invariant last == null ==> done == Nil
        invariant last != null ==> last == lt.m && done == Append(front, Single(lt)) && last.next == menu && last in Nodes(rest)
        decreases Count(todo)
      {
        Halves(done, todo, rest);
        ghost var t, done', after := TakeNext(menu, parent, parent.next, done, todo, par);
        AppendMove(done, t, Take(c, state, parent, after).1);
        Assoc(old(visited), Preorder(done), Preorder(Single(t)));
        last, front, lt := menu, done, t;
        done, menu, todo := done', menu.next, after;
      }
      AppendNil(done);
      taken, left := done, todo;
    }

    /** Takes the siblings after a node that depend on its symbol as its children. */
    method TakeFollowing(parent: Menu, ghost rest: Forest, ghost par: Menu?)
      returns (ghost taken: Forest, ghost left: Forest)
      requires Siblings(parent, Cons(Node(parent, Nil), rest), par)
      modifies `state, `visited, parent, Nodes(rest)
      ensures (state, taken, left) == Take(c, old(state), parent, rest)
      ensures Siblings(parent, Cons(Node(parent, taken), left), par)
      ensures visited == old(visited) + Preorder(taken)
      decreases Count(rest), 5
    {
      DistinctForest(parent, Nil, rest);
      assert Segment(parent.list, Nil, null, parent);
      var last;
      ghost var front, lt;
      TakePreorder(c, state, parent, rest);
      last, taken, left, front, lt := TakeRun(parent, rest, par);
      TakenPreorder(parent, taken, left, rest);
      if last != null {
        Cut(parent, last, taken, front, lt, left, par);
      }
    }

    /** Finalizes the menu tree: a well-formed tree with the same nodes in the same order,
        in which no node but the root has children and no prompt. */
    method FinalizeTree(root: Menu, ghost t: Tree) returns (ghost t': Tree)
      requires root == t.m && Siblings(root, Single(t), root.parent)
      modifies `state, `visited, Nodes(Single(t))
      ensures Siblings(root, Single(t'), old(root.parent)) && Tidy(t'.kids)
      ensures Preorder(Single(t')) == Preorder(Single(t)) && visited == old(visited) + Preorder(Single(t))
      ensures (state, t', Nil) == MenuForest.Finalize(c, old(state), t, Nil, false)
    {
      ghost var rest;
      FinalizedTree(c, state, t);
      t', rest := Finalize(root, false, t, Nil, root.parent);
    }
  }

  // ----- the walk -----

  /** What follows the subtree of a node in preorder. */
  function Rest(f: Forest, m: Menu): seq<Menu>
    requires m in Nodes(f)
  {
    var Node(n, kids) := f.t;
    if m == n then Preorder(f.rest)
    else if m in Nodes(kids) then Rest(kids, m) + Preorder(f.rest)
    else Rest(f.rest, m)
  }

  function Children(f: Forest, m: Menu): Forest
    requires m in Nodes(f)
  {
    var Node(n, kids) := f.t;
    if m == n then kids else if m in Nodes(kids) then Children(kids, m) else Children(f.rest, m)
  }

  function Depth(f: Forest, m: Menu): nat
    requires m in Nodes(f)
  {
    var Node(n, kids) := f.t;
    if m == n then 0 else if m in Nodes(kids) then 1 + Depth(kids, m) else Depth(f.rest, m)
  }

  /** The part of a sequence after the first occurrence of a node. */
  function Following(s: seq<Menu>, m: Menu): seq<Menu>
    requires m in s
  {
    if s[0] == m then s[1..] else Following(s[1..], m)
  }

  lemma {:induction false} AfterConcat(a: seq<Menu>, b: seq<Menu>, m: Menu)
    requires m in a + b
    ensures m in a ==> Following(a + b, m) == Following(a, m) + b
    ensures m !in a ==> m in b && Following(a + b, m) == Following(b, m)
  {
    if a == [] {
      assert a + b == b;
    } else {
      assert (a + b)[0] == a[0] && (a + b)[1..] == a[1..] + b;
      if a[0] != m {
        assert m in a <==> m in a[1..];
        AfterConcat(a[1..], b, m);
      }
    }
  }

  /** In preorder a node is followed by its children and then by what follows its subtree. */
  lemma {:induction false} AfterInPreorder(f: Forest, m: Menu)
    requires m in Nodes(f) && Distinct(Preorder(f))
    ensures m in Preorder(f) && Following(Preorder(f), m) == Preorder(Children(f, m)) + Rest(f, m)
  {
    var Node(n, kids) := f.t;
    DistinctForest(n, kids, f.rest);
    NodesAreListed(f);
    NodesAreListed(kids);
    var s, r := Preorder(kids), Preorder(f.rest);
    Assoc([n], s, r);
    if m == n {
      assert ([n] + (s + r))[1..] == s + r;
    } else {
      AfterConcat([n], s + r, m);
      AfterConcat(s, r, m);
      if m in Nodes(kids) {
        AfterInPreorder(kids, m);
        Assoc(Preorder(Children(kids, m)), Rest(kids, m), r);
      } else {
        AfterInPreorder(f.rest, m);
      }
    }
  }

  /** The links of a node lead where preorder goes on after its subtree: to the next
      sibling, or to where it goes on after the parent's subtree. */
  lemma {:induction false} LinksFollowPreorder(p: Menu?, f: Forest, par: Menu?, m: Menu)
    requires m in Nodes(f) && Segment(p, f, null, par) && Distinct(Preorder(f)) && (par == null || par !in Nodes(f))
    ensures Segment(m.list, Children(f, m), null, m)
    ensures m.next != null ==> Rest(f, m) != [] && Rest(f, m)[0] == m.next
    ensures m.next == null && m.parent == par ==> Rest(f, m) == []
    ensures m.parent != par ==> m.parent != null && m.parent in Nodes(f) && Depth(f, m.parent) < Depth(f, m)
    ensures m.next == null && m.parent != par ==> Rest(f, m) == Rest(f, m.parent)
  {
    var Node(n, kids) := f.t;
    DistinctForest(n, kids, f.rest);
    if m != n {
      if m in Nodes(kids) {
        LinksFollowPreorder(n.list, kids, n, m);
      } else {
        LinksFollowPreorder(n.next, f.rest, par, m);
      }
    }
  }

  /** The next node of the tree under `root` in depth-first order, or null after the last. */
  method Next(menu: Menu, root: Menu, ghost t: Tree) returns (r: Menu?)
    requires root == t.m && Segment(root.list, t.kids, null, root) && Distinct(Preorder(Single(t))) && menu in Nodes(Single(t))
    ensures menu in Preorder(Single(t))
    ensures r == null <==> Following(Preorder(Single(t)), menu) == []
    ensures r != null ==> r == Following(Preorder(Single(t)), menu)[0]
  {
    ghost var f := t.kids;
    DistinctForest(root, f, Nil);
    AfterInPreorder(Single(t), menu);
    if menu != root {
      LinksFollowPreorder(root.list, f, root, menu);
    }
    if menu.list != null {
      return menu.list;
    }
    var m := menu;
    while m != root && m.next == null
      invariant Segment(root.list, f, null, root)
      invariant m in Nodes(Single(t)) && Rest(Single(t), m) == Rest(Single(t), menu)
      decreases Depth(Single(t), m)
    {
      LinksFollowPreorder(root.list, f, root, m);
      m := m.parent;
    }
    if m == root {
      return null;
    }
    LinksFollowPreorder(root.list, f, root, m);
    return m.next;
  }

  /** The step of a walk from the node at one position of preorder to the next. */
  method NextAt(menu: Menu, root: Menu, ghost t: Tree, ghost all: seq<Menu>, ghost i: nat) returns (r: Menu?)
    requires root == t.m && Segment(root.list, t.kids, null, root) && all == Preorder(Single(t)) && Distinct(all)
    requires i < |all| && menu == all[i]
    ensures if r == null then i + 1 == |all| else i + 1 < |all| && all[i + 1] == r
  {
    NodesAreListed(Single(t));
    AfterInDistinct(all, i);
    r := Next(menu, root, t);
  }

  /** Walking from the root visits every node below it exactly once, in preorder. */
  method Walk(root: Menu, ghost t: Tree) returns (order: seq<Menu>)
    requires root == t.m && Segment(root.list, t.kids, null, root) && Distinct(Preorder(Single(t)))
    ensures order == Preorder(t.kids)
  {
    ghost var all := Preorder(Single(t));
    SinglePreorder(t, Nil);
    assert all == [root] + Preorder(t.kids);
    order := [];
    assert allocated(Nodes(t.kids));
    var menu := NextAt(root, root, t, all, 0);
    while menu != null
      invariant Segment(root.list, t.kids, null, root)
      invariant |order| + 1 <= |all| && [root] + order == all[..|order| + 1]
      invariant if menu == null then |order| + 1 == |all| else |order| + 1 < |all| && all[|order| + 1] == menu
      decreases |all| - |order|
    {
      ghost var i := |order| + 1;
      assert allocated(Nodes(t.kids));
      order := order + [menu];
      menu := NextAt(menu, root, t, all, i);
    }
    assert [root] + order == [root] + Preorder(t.kids);
    assert order == ([root] + order)[1..] && Preorder(t.kids) == ([root] + Preorder(t.kids))[1..];
  }

  /** The same step as the writer of the configuration file takes it: it climbs to the end
      of the whole tree, looking at every menu it leaves. */
  method NextWritten(menu: Menu, ghost root: Menu, ghost t: Tree, ghost all: seq<Menu>, ghost i: nat) returns (r: Menu?)
    requires root == t.m && Segment(root.list, t.kids, null, root) && all == Preorder(Single(t)) && Distinct(all)
    requires root.next == null && root.parent == null && 0 < i < |all| && menu == all[i]
    ensures if r == null then i + 1 == |all| else i + 1 < |all| && all[i + 1] == r
  {
    ghost var f := t.kids;
    DistinctForest(root, f, Nil);
    NodesAreListed(Single(t));
    AfterInDistinct(all, i);
    AfterInPreorder(Single(t), menu);
    assert menu != root by { assert all[0] == root; }
    LinksFollowPreorder(root.list, f, root, menu);
    if menu.list != null {
      return menu.list;
    }
    var m: Menu? := menu;
    while m != null && m.next == null
      invariant Segment(root.list, f, null, root)
      invariant m == null ==> Rest(Single(t), menu) == []
      invariant m != null ==> m in Nodes(Single(t)) && Rest(Single(t), m) == Rest(Single(t), menu)
      decreases m != null, if m == null then 0 else Depth(Single(t), m)
    {
      if m != root { LinksFollowPreorder(root.list, f, root, m); }
      m := m.parent;
    }
    if m == null {
      return null;
    }
    LinksFollowPreorder(root.list, f, root, m);
    return m.next;
  }

  /** The configuration file is written in preorder, every entry once. */
  method WriteOrder(root: Menu, ghost t: Tree) returns (order: seq<Menu>)
    requires root == t.m && Segment(root.list, t.kids, null, root) && Distinct(Preorder(Single(t)))
    requires root.next == null && root.parent == null
    ensures order == Preorder(t.kids)
  {
    ghost var all := Preorder(Single(t));
    SinglePreorder(t, Nil);
    assert all == [root] + Preorder(t.kids);
    order := [];
    assert allocated(Nodes(t.kids));
    var menu := root.list;
    assert t.kids.Cons? ==> all[1] == menu;
    while menu != null
      invariant Segment(root.list, t.kids, null, root)
      invariant |order| + 1 <= |all| && [root] + order == all[..|order| + 1]
      invariant if menu == null then |order| + 1 == |all| else |order| + 1 < |all| && all[|order| + 1] == menu
      decreases |all| - |order|
    {
      ghost var i := |order| + 1;
      assert allocated(Nodes(t.kids));
      order := order + [menu];
      menu := NextWritten(menu, root, t, all, i);
    }
    assert [root] + order == [root] + Preorder(t.kids);
    assert order == ([root] + order)[1..] && Preorder(t.kids) == ([root] + Preorder(t.kids))[1..];
  }

  lemma {:induction false} AfterInDistinct(s: seq<Menu>, i: nat)
    requires i < |s| && Distinct(s)
    ensures Following(s, s[i]) == s[i + 1..]
  {
    if i > 0 {
      AfterInDistinct(s[1..], i - 1);
    }
  }
}
