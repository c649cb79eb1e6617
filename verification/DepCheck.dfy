/** The search for recursive dependencies: a depth-first walk with two flags per
    symbol, in which a choice and its members are walked as one node. */
module DepCheck {
  import opened Symbols
  import opened Exprs
  import opened Digraph

  /** `exprs` holds the expressions checked for each symbol, in rank; `members` the
      symbols of each choice block. */
  datatype Graph = Graph(exprs: map<Symbol, seq<Expr>>, members: map<Symbol, seq<Symbol>>, choiceOf: map<Symbol, Symbol>)

  function ExprsOf(g: Graph, s: Symbol): seq<Expr> { if s in g.exprs then g.exprs[s] else [] }

  predicate MentionsChoice(e: Expr) { exists s :: s in SymbolsOf(e) && s.Choice? }

  /** Members and choices refer to each other, and no expression can name a choice. */
  ghost predicate WellFormed(g: Graph) {
    (forall m :: m in g.choiceOf ==> !m.Choice? && g.choiceOf[m] in g.members && m in g.members[g.choiceOf[m]]) &&
    (forall c :: c in g.members ==> c.Choice? && forall m :: m in g.members[c] ==> m in g.choiceOf && g.choiceOf[m] == c) &&
    (forall s: Symbol, e :: e in ExprsOf(g, s) ==> !MentionsChoice(e))
  }

  /** The node a symbol belongs to once choices are contracted. */
  function Node(g: Graph, s: Symbol): Symbol { if s in g.choiceOf then g.choiceOf[s] else s }

  ghost predicate SymbolEdge(g: Graph, s: Symbol, t: Symbol) {
    exists e :: e in ExprsOf(g, s) && t in SymbolsOf(e)
  }

  ghost predicate Edge(g: Graph, a: Symbol, b: Symbol) {
    exists s: Symbol, t: Symbol :: SymbolEdge(g, s, t) && Node(g, s) == a && Node(g, t) == b
  }

  ghost function EdgeOf(g: Graph): (Symbol, Symbol) -> bool { (a: Symbol, b: Symbol) => Edge(g, a, b) }

  lemma SymbolEdgeIsEdge(g: Graph, s: Symbol, e: Expr, t: Symbol)
    requires e in ExprsOf(g, s) && t in SymbolsOf(e)
    ensures EdgeOf(g)(Node(g, s), Node(g, t))
  {
    assert SymbolEdge(g, s, t);
    assert Edge(g, Node(g, s), Node(g, t));
  }

  /** All nodes that the symbol has edges to are among those given. */
  ghost predicate Satisfied(g: Graph, s: Symbol, nodes: set<Symbol>) {
    forall e, t :: e in ExprsOf(g, s) && t in SymbolsOf(e) ==> Node(g, t) in nodes
  }

  lemma SatisfiedGrows(g: Graph, s: Symbol, nodes: set<Symbol>, more: set<Symbol>)
    requires Satisfied(g, s, nodes) && nodes <= more
    ensures Satisfied(g, s, more)
  {}

  ghost predicate AllSatisfied(g: Graph, ms: seq<Symbol>, nodes: set<Symbol>) {
    forall m :: m in ms ==> Satisfied(g, m, nodes)
  }

  lemma OneMoreSatisfied(g: Graph, ms: seq<Symbol>, i: nat, nodes: set<Symbol>, more: set<Symbol>)
    requires i < |ms| && AllSatisfied(g, ms[..i], nodes) && nodes <= more && Satisfied(g, ms[i], more)
    ensures AllSatisfied(g, ms[..i + 1], more)
  {
    forall m | m in ms[..i + 1]
      ensures Satisfied(g, m, more)
    {
      if m in ms[..i] { SatisfiedGrows(g, m, nodes, more); } else { assert ms[..i + 1] == ms[..i] + [ms[i]]; }
    }
  }

  /** The symbols of the expressions are among the nodes. */
  ghost predicate Reached(g: Graph, es: seq<Expr>, nodes: set<Symbol>) {
    forall e, t :: e in es && t in SymbolsOf(e) ==> Node(g, t) in nodes
  }

  lemma OneMoreReached(g: Graph, es: seq<Expr>, i: nat, nodes: set<Symbol>, more: set<Symbol>)
    requires i < |es| && Reached(g, es[..i], nodes) && nodes <= more && forall t :: t in SymbolsOf(es[i]) ==> Node(g, t) in more
    ensures Reached(g, es[..i + 1], more)
  {
    assert es[..i + 1] == es[..i] + [es[i]];
  }

  lemma SatisfiedPlain(g: Graph, s: Symbol, nodes: set<Symbol>)
    requires WellFormed(g) && s !in g.choiceOf && !s.Choice? && Satisfied(g, s, nodes)
    ensures forall b: Symbol :: EdgeOf(g)(s, b) ==> b in nodes
  {
    forall b: Symbol | EdgeOf(g)(s, b)
      ensures b in nodes
    {
      assert Edge(g, s, b);
      var x: Symbol, t: Symbol :| SymbolEdge(g, x, t) && Node(g, x) == s && Node(g, t) == b;
      var e :| e in ExprsOf(g, x) && t in SymbolsOf(e);
    }
  }

  lemma SatisfiedGroup(g: Graph, c: Symbol, nodes: set<Symbol>)
    requires WellFormed(g) && c in g.members && Satisfied(g, c, nodes)
    requires forall m :: m in g.members[c] ==> Satisfied(g, m, nodes)
    ensures forall b: Symbol :: EdgeOf(g)(c, b) ==> b in nodes
  {
    forall b: Symbol | EdgeOf(g)(c, b)
      ensures b in nodes
    {
      assert Edge(g, c, b);
      var x: Symbol, t: Symbol :| SymbolEdge(g, x, t) && Node(g, x) == c && Node(g, t) == b;
      var e :| e in ExprsOf(g, x) && t in SymbolsOf(e);
      assert x == c || x in g.members[c];
    }
  }

  lemma ChoiceGroup(g: Graph, universe: set<Symbol>, c: Symbol, group: set<Symbol>)
    requires WellFormed(g) && Closed(g, universe) && c in g.members && c in universe
    requires group == {c} + set m | m in g.members[c]
    ensures group <= universe && (forall m :: m in group ==> Node(g, m) == c)
    ensures forall m :: m in g.members[c] ==> m in universe && m != c && Node(g, m) == c
    ensures forall m :: m in g.choiceOf && g.choiceOf[m] == c ==> m in group
  {}

  lemma Unmark<T>(s: set<T>, group: set<T>, c: T)
    requires s !! group && c in group
    ensures ((s + group) - {c}) - group == s
  {}

  ghost predicate NodesAmong(g: Graph, ms: seq<Symbol>, nodes: set<Symbol>) {
    forall s :: s in ms ==> Node(g, s) in nodes
  }

  lemma OneMoreAmong(g: Graph, ms: seq<Symbol>, i: nat, nodes: set<Symbol>, more: set<Symbol>)
    requires i < |ms| && NodesAmong(g, ms[..i], nodes) && nodes <= more && Node(g, ms[i]) in more
    ensures NodesAmong(g, ms[..i + 1], more)
  {
    assert ms[..i + 1] == ms[..i] + [ms[i]];
  }

  /** `path` lists the nodes being walked, outermost first, and only their symbols are
      flagged. Every other symbol reached belongs to a node that is ranked above all
      it depends on, unless a cycle has been found. */
  ghost predicate Consistent(g: Graph, universe: set<Symbol>, path: seq<Symbol>, check: set<Symbol>, checked: set<Symbol>,
                             rank: map<Symbol, nat>, clean: bool) {
    IsWalk(EdgeOf(g), path) && checked <= universe && rank.Keys <= checked &&
    (forall s :: s in check ==> Node(g, s) in path) &&
    (forall n :: n in path ==> n in checked && n !in rank) &&
    (forall s :: s in g.choiceOf && g.choiceOf[s] in path ==> s in checked) &&
    (clean ==>
      Descends(EdgeOf(g), rank) &&
      forall s :: s in checked && s !in check ==> Node(g, s) in rank || (s.Choice? && s in path))
  }

  lemma EnterNode(g: Graph, universe: set<Symbol>, path: seq<Symbol>, check: set<Symbol>, checked: set<Symbol>,
                  rank: map<Symbol, nat>, clean: bool, n: Symbol, group: set<Symbol>)
    requires Consistent(g, universe, path, check, checked, rank, clean)
    requires n !in checked && (path != [] ==> EdgeOf(g)(path[|path| - 1], n))
    requires n in group && group <= universe && forall m :: m in group ==> Node(g, m) == n
    requires forall m :: m in g.choiceOf && g.choiceOf[m] == n ==> m in group
    ensures Consistent(g, universe, path + [n], check + group, checked + group, rank, clean)
    ensures check !! group && n !in path && universe - (checked + group) < universe - checked
  {
    ExtendWalk(EdgeOf(g), path, n);
    assert n in universe - checked;
  }

  lemma LeaveNode(g: Graph, universe: set<Symbol>, path: seq<Symbol>, check0: set<Symbol>, checked0: set<Symbol>,
                  rank0: map<Symbol, nat>, clean0: bool, n: Symbol, group: set<Symbol>,
                  check: set<Symbol>, checked: set<Symbol>, rank: map<Symbol, nat>, clean: bool)
    requires Consistent(g, universe, path, check0, checked0, rank0, clean0)
    requires Consistent(g, universe, path + [n], check, checked, rank, clean)
    requires checked0 <= checked && check - group == check0 && n !in path && n in checked
    requires n in group && forall m :: m in group ==> Node(g, m) == n
    requires clean ==> forall b: Symbol :: EdgeOf(g)(n, b) ==> b in rank
    ensures clean ==> Consistent(g, universe, path, check0, checked, rank[n := Above(rank)], clean)
    ensures !clean ==> Consistent(g, universe, path, check0, checked, rank, clean)
  {
    assert forall i :: 0 <= i < |path| ==> (path + [n])[i] == path[i];
    assert n in path + [n];
  }

  ghost predicate Bounds(rank: map<Symbol, nat>, r: nat) { forall n :: n in rank ==> rank[n] < r }

  /** A rank above all that are given. */
  ghost function Above(rank: map<Symbol, nat>): (r: nat)
    ensures Bounds(rank, r)
  {
    BoundExists(rank);
    var r: nat :| Bounds(rank, r);
    r
  }

  lemma {:induction false} BoundExists(rank: map<Symbol, nat>)
    ensures exists r: nat :: Bounds(rank, r)
    decreases |rank|
  {
    if rank == map[] {
      assert Bounds(rank, 0);
    } else {
      var n :| n in rank;
      var rest := rank - {n};
      BoundExists(rest);
      var r: nat :| Bounds(rest, r);
      var top := if rank[n] < r then r else rank[n] + 1;
      forall m | m in rank
        ensures rank[m] < top
      {
        if m != n { assert m in rest && rest[m] == rank[m]; }
      }
      assert Bounds(rank, top);
    }
  }

  /** The dependency leads from the node being walked to a known symbol. */
  ghost predicate Follows(g: Graph, universe: set<Symbol>, path: seq<Symbol>, t: Symbol) {
    t in universe && !t.Choice? && path != [] && EdgeOf(g)(path[|path| - 1], Node(g, t))
  }

  lemma DependencyFollows(g: Graph, universe: set<Symbol>, path: seq<Symbol>, s: Symbol, e: Expr, t: Symbol)
    requires WellFormed(g) && Closed(g, universe) && path != [] && Node(g, s) == path[|path| - 1] && s in universe
    requires e in ExprsOf(g, s) && t in SymbolsOf(e)
    ensures Follows(g, universe, path, t)
  {
    SymbolEdgeIsEdge(g, s, e, t);
    assert SymbolEdge(g, s, t);
    assert !MentionsChoice(e);
  }

  class Checker {
    const g: Graph
    ghost const universe: set<Symbol>
    var check: set<Symbol>
    var checked: set<Symbol>
    var stack: seq<Symbol>
    // The rank of each finished node, until a cycle is found.
    ghost var rank: map<Symbol, nat>
    ghost var clean: bool

    constructor (g: Graph, ghost universe: set<Symbol>)
      requires WellFormed(g) && Closed(g, universe)
      ensures this.g == g && this.universe == universe && Valid([]) && check == {} && clean
    {
      this.g, this.universe := g, universe;
      check, checked, stack := {}, {}, [];
      rank, clean := map[], true;
    }

    ghost predicate Valid(path: seq<Symbol>)
      reads this
    {
      WellFormed(g) && Closed(g, universe) && Consistent(g, universe, path, check, checked, rank, clean)
    }

    /** What every call of the walk leaves behind. */
    twostate predicate Walked(new found: Option<Symbol>)
      reads this
    {
      check == old(check) && stack == old(stack) && old(checked) <= checked && old(rank).Keys <= rank.Keys &&
      (found.Some? ==> HasCycle(EdgeOf(g)) && !clean) && (found.None? ==> clean == old(clean))
    }

    method CheckExprDeps(e: Expr, ghost path: seq<Symbol>) returns (found: Option<Symbol>)
      requires Valid(path) && forall t :: t in SymbolsOf(e) ==> Follows(g, universe, path, t)
      modifies this
      ensures Valid(path) && Walked(found)
      ensures found.None? && clean ==> forall t :: t in SymbolsOf(e) ==> Node(g, t) in rank
      decreases universe - checked, 4, Size(e)
    {
      match e
      case Sym(t) =>
        assert Follows(g, universe, path, t);
        found := CheckDeps(t, path);
      case Not(x) => found := CheckExprDeps(x, path);
      case Bin(_, l, r) =>
        SizePositive(l);
        SizePositive(r);
        found := CheckExprDeps(l, path);
        if found.None? {
          found := CheckExprDeps(r, path);
        }
      case Comp(_, a, b) =>
        assert Follows(g, universe, path, a) && Follows(g, universe, path, b);
        found := CheckDeps(a, path);
        if found.None? {
          found := CheckDeps(b, path);
        }
    }

    method CheckSymDeps(s: Symbol, ghost path: seq<Symbol>) returns (found: Option<Symbol>)
      requires Valid(path) && path != [] && Node(g, s) == path[|path| - 1] && s in universe
      modifies this
      ensures Valid(path) && Walked(found)
      ensures found.None? && clean ==> Satisfied(g, s, rank.Keys)
      decreases universe - checked, 5
    {
      stack := stack + [s];
      var es := ExprsOf(g, s);
      found := None;
      var i := 0;
      while i < |es| && found.None?
        invariant 0 <= i <= |es|
        invariant Valid(path) && check == old(check) && stack == old(stack) + [s]
        invariant old(checked) <= checked && old(rank).Keys <= rank.Keys
        invariant found.Some? ==> HasCycle(EdgeOf(g)) && !clean
        invariant found.None? ==> clean == old(clean)
        invariant found.None? && clean ==> Reached(g, es[..i], rank.Keys)
        decreases |es| - i
      {
        forall t | t in SymbolsOf(es[i]) ensures Follows(g, universe, path, t) {
          DependencyFollows(g, universe, path, s, es[i], t);
        }
        ghost var before := rank.Keys;
        found := CheckExprDeps(es[i], path);
        if found.None? && clean {
          OneMoreReached(g, es, i, before, rank.Keys);
        }
        i := i + 1;
      }
      if found.None? {
        assert es[..i] == es;
      }
      stack := stack[..|stack| - 1];
    }

    method CheckMembers(c: Symbol, members: seq<Symbol>, ghost path: seq<Symbol>) returns (found: Option<Symbol>)
      requires Valid(path) && path != [] && c == path[|path| - 1]
      requires forall m :: m in members ==> m in universe && Node(g, m) == c
      modifies this
      ensures Valid(path) && Walked(found)
      ensures found.None? && clean ==> AllSatisfied(g, members, rank.Keys)
      decreases universe - checked, 6
    {
      found := None;
      var i := 0;
      while i < |members| && found.None?
        invariant 0 <= i <= |members|
        invariant Valid(path) && Walked(found)
        invariant found.None? && clean ==> AllSatisfied(g, members[..i], rank.Keys)
        decreases |members| - i
      {
        assert members[i] in members;
        ghost var before := rank.Keys;
        found := CheckSymDeps(members[i], path);
        if found.None? && clean {
          OneMoreSatisfied(g, members, i, before, rank.Keys);
        }
        i := i + 1;
      }
      if found.None? {
        assert members[..i] == members;
      }
    }

    /** Walks the choice symbol and then its members; the choice gives up its own flag
        before the members are walked. */
    method CheckGroup(c: Symbol, ghost path: seq<Symbol>) returns (found: Option<Symbol>)
      requires Valid(path) && path != [] && c == path[|path| - 1] && c in g.members && c in universe && c in check
      requires Node(g, c) == c && forall m :: m in g.members[c] ==> m in universe && m != c && Node(g, m) == c
      requires c.Choice? && c in checked
      modifies this
      ensures Valid(path) && check == old(check) - {c} && stack == old(stack)
      ensures old(checked) <= checked && old(rank).Keys <= rank.Keys
      ensures found.Some? ==> HasCycle(EdgeOf(g)) && !clean
      ensures found.None? ==> clean == old(clean)
      ensures found.None? && clean ==> forall b: Symbol :: EdgeOf(g)(c, b) ==> b in rank
      decreases universe - checked, 7
    {
      found := CheckSymDeps(c, path);
      ghost var before := rank.Keys;
      check := check - {c};
      if found.None? {
        found := CheckMembers(c, g.members[c], path);
      }
      if found.None? && clean {
        SatisfiedGrows(g, c, before, rank.Keys);
        SatisfiedGroup(g, c, rank.Keys);
      }
    }

    /** Flags a node that is now being walked. */
    method Enter(n: Symbol, group: set<Symbol>, ghost path: seq<Symbol>)
      requires Valid(path) && n !in checked && (path != [] ==> EdgeOf(g)(path[|path| - 1], n))
      requires n in group && group <= universe && forall m :: m in group ==> Node(g, m) == n
      requires forall m :: m in g.choiceOf && g.choiceOf[m] == n ==> m in group
      modifies `check, `checked
      ensures Valid(path + [n]) && check == old(check) + group && checked == old(checked) + group
      ensures old(check) !! group && n !in path && universe - checked < universe - old(checked)
    {
      EnterNode(g, universe, path, check, checked, rank, clean, n, group);
      check, checked := check + group, checked + group;
    }

    /** Takes the flags back, and ranks the node unless a cycle has been found. */
    method Leave(n: Symbol, group: set<Symbol>, ghost path: seq<Symbol>, ghost check0: set<Symbol>, ghost checked0: set<Symbol>,
                 ghost rank0: map<Symbol, nat>, ghost clean0: bool)
      requires WellFormed(g) && Closed(g, universe) && Consistent(g, universe, path, check0, checked0, rank0, clean0)
      requires Valid(path + [n]) && checked0 <= checked && check - group == check0 && n !in path && n in checked
      requires n in group && forall m :: m in group ==> Node(g, m) == n
      requires clean ==> forall b: Symbol :: EdgeOf(g)(n, b) ==> b in rank
      modifies `check, `rank
      ensures Valid(path) && check == check0
      ensures rank == if clean then old(rank)[n := Above(old(rank))] else old(rank)
    {
      LeaveNode(g, universe, path, check0, checked0, rank0, clean0, n, group, check, checked, rank, clean);
      check := check - group;
      if clean {
        rank := rank[n := Above(rank)];
      }
    }

    /** Flags the whole group, walks it, and ranks the choice if no cycle was found. */
    method WalkGroup(c: Symbol, group: set<Symbol>, ghost path: seq<Symbol>) returns (found: Option<Symbol>)
      requires Valid(path) && c in g.members && c.Choice? && c in universe && c !in checked
      requires path != [] ==> EdgeOf(g)(path[|path| - 1], c)
      requires c in group && group <= universe && (forall m :: m in group ==> Node(g, m) == c)
      requires forall m :: m in g.members[c] ==> m in universe && m != c && Node(g, m) == c
      requires forall m :: m in g.choiceOf && g.choiceOf[m] == c ==> m in group
      modifies this
      ensures Valid(path) && Walked(found)
      ensures found.None? && clean ==> c in rank
      decreases universe - checked, 0
    {
      ghost var check0, checked0, rank0, clean0 := check, checked, rank, clean;
      Enter(c, group, path);
      found := CheckGroup(c, path + [c]);
      Unmark(check0, group, c);
      Leave(c, group, path, check0, checked0, rank0, clean0);
    }

    method CheckChoiceDeps(c: Symbol, ghost path: seq<Symbol>) returns (found: Option<Symbol>)
      requires Valid(path) && c in g.members && c in universe && c !in checked
      requires path != [] ==> EdgeOf(g)(path[|path| - 1], c)
      modifies this
      ensures Valid(path) && Walked(found)
      ensures found.None? && clean ==> c in rank
      decreases universe - checked, 1
    {
      var group := {c} + set m | m in g.members[c];
      ChoiceGroup(g, universe, c, group);
      stack := stack + [c];
      found := WalkGroup(c, group, path);
      if found.Some? && found.value in g.choiceOf && g.choiceOf[found.value] == c {
        found := Some(c);
      }
      stack := stack[..|stack| - 1];
    }

    /** Flags one symbol outside choices, walks it, and ranks it if no cycle was found. */
    method WalkOne(s: Symbol, ghost path: seq<Symbol>) returns (found: Option<Symbol>)
      requires Valid(path) && s in universe && s !in checked && s !in g.choiceOf && !s.Choice?
      requires path != [] ==> EdgeOf(g)(path[|path| - 1], s)
      modifies this
      ensures Valid(path) && Walked(found)
      ensures found.None? && clean ==> s in rank
      decreases universe - checked, 1
    {
      ghost var check0, checked0, rank0, clean0 := check, checked, rank, clean;
      Enter(s, {s}, path);
      found := CheckSymDeps(s, path + [s]);
      assert check - {s} == check0;
      if found.None? && clean {
        SatisfiedPlain(g, s, rank.Keys);
      }
      Leave(s, {s}, path, check0, checked0, rank0, clean0);
    }

    /** Returns a symbol when the walk runs into a symbol it is still walking. */
    method CheckDeps(s: Symbol, ghost path: seq<Symbol>) returns (found: Option<Symbol>)
      requires Valid(path) && s in universe && (s.Choice? ==> s !in path)
      requires path != [] ==> EdgeOf(g)(path[|path| - 1], Node(g, s))
      modifies this
      ensures Valid(path) && Walked(found)
      ensures found.None? && clean ==> Node(g, s) in rank
      decreases universe - checked, if s in g.choiceOf then 3 else 2
    {
      if s in check {
        WalkClosesCycle(EdgeOf(g), path, Node(g, s));
        clean := false;
        return Some(s);
      }
      if s in checked {
        assert clean ==> Node(g, s) in rank;
        return None;
      }
      if s in g.choiceOf {
        assert Node(g, s) == g.choiceOf[s] && Node(g, g.choiceOf[s]) == g.choiceOf[s];
        stack := stack + [s];
        found := CheckDeps(g.choiceOf[s], path);
        stack := stack[..|stack| - 1];
      } else if s.Choice? {
        found := CheckChoiceDeps(s, path);
      } else {
        assert Node(g, s) == s;
        found := WalkOne(s, path);
      }
    }

    /** Checks each symbol in turn, as the parser does for every menu entry. When these
        include every symbol that has dependencies, errors are reported exactly when
        the contracted graph has a cycle. */
    method CheckAll(syms: seq<Symbol>) returns (errors: nat)
      requires Valid([]) && check == {} && clean
      requires forall s :: s in syms ==> s in universe
      modifies this
      ensures errors > 0 ==> HasCycle(EdgeOf(g))
      ensures errors == 0 ==> Descends(EdgeOf(g), rank) && forall s :: s in syms ==> Node(g, s) in rank
      ensures (forall s :: s in g.exprs ==> s in syms) ==> (errors == 0 <==> !HasCycle(EdgeOf(g)))
    {
      errors := 0;
      for i := 0 to |syms|
        invariant Valid([]) && check == {}
        invariant errors > 0 ==> HasCycle(EdgeOf(g))
        invariant errors == 0 ==> clean && NodesAmong(g, syms[..i], rank.Keys)
      {
        ghost var before := rank.Keys;
        var found := CheckDeps(syms[i], []);
        if found.Some? {
          errors := errors + 1;
        } else if errors == 0 {
          OneMoreAmong(g, syms, i, before, rank.Keys);
        }
      }
      assert syms[..|syms|] == syms;
      if errors == 0 && (forall s :: s in g.exprs ==> s in syms) {
        AllRanked(g, syms, rank);
      }
    }
  }

  lemma AllRanked(g: Graph, syms: seq<Symbol>, rank: map<Symbol, nat>)
    requires forall s :: s in g.exprs ==> s in syms
    requires Descends(EdgeOf(g), rank) && forall s :: s in syms ==> Node(g, s) in rank
    ensures !HasCycle(EdgeOf(g))
  {
    forall a: Symbol, b: Symbol | EdgeOf(g)(a, b)
      ensures a in rank
    {
      assert Edge(g, a, b);
      var s: Symbol, t: Symbol :| SymbolEdge(g, s, t) && Node(g, s) == a && Node(g, t) == b;
    }
    RankedHasNoCycle(EdgeOf(g), rank);
  }

  /** The set contains all symbols that are reachable from it, by whole nodes. */
  ghost predicate Closed(g: Graph, universe: set<Symbol>) {
    (forall s, t :: s in universe && SymbolEdge(g, s, t) ==> t in universe) &&
    (forall s :: s in universe ==> Node(g, s) in universe && (s.Choice? ==> s in g.members)) &&
    (forall c, m :: c in universe && c in g.members && m in g.members[c] ==> m in universe)
  }
}
