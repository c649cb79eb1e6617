/** The table of expression nodes: a node is allocated only if there is none with the same
    type and operands, so equal expressions are one node. */
module ExprTable {
  import opened Symbols
  import opened Exprs

  datatype Kind = SymbolNode | NotNode | BinaryNode(c: Conn) | CompareNode(op: Cmp)

  datatype Operand = Nothing | SymbolOperand(s: Symbol) | NodeOperand(n: Node)

  datatype Key = Key(kind: Kind, left: Operand, right: Operand)

  /** Where the link to a node is stored: in the bucket or in the node before it. */
  datatype Slot = InBucket(b: nat) | InNode(n: Node)

  class Node {
    const key: Key
    var val: Tristate
    var valIsValid: bool
    var next: Node?
    var pprev: Slot

    constructor (key: Key)
      ensures this.key == key && !valIsValid && next == null
    {
      this.key := key;
      valIsValid, next, pprev := false, null, InBucket(0);
    }
  }

  /** The links from `p` on pass through these nodes, each of which knows the slot that
      points to it. */
  ghost predicate Chain(p: Node?, s: seq<Node>, slot: Slot)
    reads s`next, s`pprev
    decreases |s|
  {
    if s == [] then p == null
    else p == s[0] && s[0].pprev == slot && Chain(s[0].next, s[1..], InNode(s[0]))
  }

  predicate OneEach(s: seq<Node>) { forall i, j :: 0 <= i < j < |s| ==> s[i].key != s[j].key }

  /** The node stands for the expression. */
  ghost predicate Represents(n: Node, e: Expr)
    decreases e
  {
    match e
    case Sym(s) => n.key == Key(SymbolNode, SymbolOperand(s), Nothing)
    case Comp(op, a, b) => n.key == Key(CompareNode(op), SymbolOperand(a), SymbolOperand(b))
    case Not(x) => n.key.kind.NotNode? && n.key.right.Nothing? && n.key.left.NodeOperand? && Represents(n.key.left.n, x)
    case Bin(c, l, r) =>
      n.key.kind == BinaryNode(c) && n.key.left.NodeOperand? && n.key.right.NodeOperand? &&
      Represents(n.key.left.n, l) && Represents(n.key.right.n, r)
  }

  /** All operands of the nodes are nodes of the set. */
  predicate Closed(nodes: set<Node>) {
    forall n :: n in nodes ==>
      (n.key.left.NodeOperand? ==> n.key.left.n in nodes) && (n.key.right.NodeOperand? ==> n.key.right.n in nodes)
  }

  predicate UniqueKeys(nodes: set<Node>) {
    forall n, m :: n in nodes && m in nodes && n.key == m.key ==> n == m
  }

  /** In a table without duplicate keys an expression has at most one node. */
  lemma {:induction false} OneNodePerExpression(nodes: set<Node>, n: Node, m: Node, e: Expr)
    requires Closed(nodes) && UniqueKeys(nodes) && n in nodes && m in nodes
    requires Represents(n, e) && Represents(m, e)
    ensures n == m
    decreases e
  {
    match e
    case Not(x) => OneNodePerExpression(nodes, n.key.left.n, m.key.left.n, x);
    case Bin(c, l, r) =>
      OneNodePerExpression(nodes, n.key.left.n, m.key.left.n, l);
      OneNodePerExpression(nodes, n.key.right.n, m.key.right.n, r);
    case _ =>
  }

  /** And a node has only one expression: comparing nodes is comparing expressions. */
  lemma {:induction false} OneExpressionPerNode(n: Node, e: Expr, f: Expr)
    requires Represents(n, e) && Represents(n, f)
    ensures e == f
    decreases e
  {
    match e
    case Not(x) => OneExpressionPerNode(n.key.left.n, x, f.e);
    case Bin(c, l, r) =>
      OneExpressionPerNode(n.key.left.n, l, f.l);
      OneExpressionPerNode(n.key.right.n, r, f.r);
    case _ =>
  }

  type Hash = Key -> nat

  /** A chain of nodes that all belong into this bucket, no two with the same key. */
  ghost predicate Bucket(hash: Hash, size: nat, p: Node?, s: seq<Node>, b: nat)
    requires size > 0
    reads s`next, s`pprev
  {
    (forall n :: n in s ==> hash(n.key) % size == b) && OneEach(s) && Chain(p, s, InBucket(b))
  }

  /** Every node is in the chain of its hash value, and nothing else is in a chain. */
  ghost predicate Placed(hash: Hash, chains: seq<seq<Node>>, nodes: set<Node>)
    requires |chains| > 0
  {
    (forall n :: n in nodes ==> n in chains[hash(n.key) % |chains|]) &&
    forall b, n :: 0 <= b < |chains| && n in chains[b] ==> n in nodes
  }

  lemma PlacedMore(hash: Hash, cs: seq<seq<Node>>, nodes: set<Node>, e: Node, b: nat) returns (ds: seq<seq<Node>>)
    requires |cs| > 0 && Closed(nodes) && Placed(hash, cs, nodes) && b == hash(e.key) % |cs| && e !in nodes
    requires e.key.left.NodeOperand? ==> e.key.left.n in nodes
    requires e.key.right.NodeOperand? ==> e.key.right.n in nodes
    ensures ds == cs[b := [e] + cs[b]] && Closed(nodes + {e}) && Placed(hash, ds, nodes + {e})
    ensures forall k :: 0 <= k < |cs| ==> e !in cs[k]
  {
    ds := cs[b := [e] + cs[b]];
  }

  class Table {
    const hash: Hash
    const buckets: array<Node?>
    ghost var chains: seq<seq<Node>>
    ghost var nodes: set<Node>

    ghost predicate Valid()
      reads this, buckets, nodes`next, nodes`pprev
    {
      buckets.Length == |chains| > 0 && Closed(nodes) && Placed(hash, chains, nodes) &&
      forall b :: 0 <= b < |chains| ==> Bucket(hash, |chains|, buckets[b], chains[b], b)
    }

    constructor (hash: Hash, size: nat)
      requires size > 0
      ensures Valid() && nodes == {}
    {
      this.hash := hash;
      buckets := new Node?[size](_ => null);
      chains := seq(size, _ => []);
      nodes := {};
    }

    lemma KeysAreUnique()
      requires Valid()
      ensures UniqueKeys(nodes)
    {
      forall n, m | n in nodes && m in nodes && n.key == m.key
        ensures n == m
      {
        var b := hash(n.key) % |chains|;
        assert Bucket(hash, |chains|, buckets[b], chains[b], b) && n in chains[b] && m in chains[b];
      }
    }

    /** The node with a key, allocated if there is none. */
    method Lookup(key: Key) returns (e: Node)
      requires Valid()
      requires key.left.NodeOperand? ==> key.left.n in nodes
      requires key.right.NodeOperand? ==> key.right.n in nodes
      modifies this, buckets, nodes
      ensures Valid() && e in nodes && e.key == key
      ensures if e in old(nodes) then nodes == old(nodes) else fresh(e) && !e.valIsValid && nodes == old(nodes) + {e}
      ensures (exists n :: n in old(nodes) && n.key == key) <==> e in old(nodes)
      ensures forall n :: n in old(nodes) ==> n.val == old(n.val) && n.valIsValid == old(n.valIsValid)
    {
      var b := hash(key) % buckets.Length;
      assert Bucket(hash, |chains|, buckets[b], chains[b], b);
      var p := buckets[b];
      ghost var rest, slot := chains[b], InBucket(b);
      while p != null
        invariant Chain(p, rest, slot) && (forall n :: n in rest ==> n in chains[b])
        invariant forall n :: n in chains[b] ==> n in rest || n.key != key
        decreases |rest|
      {
        if p.key == key {
          return p;
        }
        rest, slot := rest[1..], InNode(p);
        p := p.next;
      }
      e := new Node(key);
      AddHead(e, b);
    }

    /** Puts a node at the head of its chain. */
    method AddHead(e: Node, b: nat)
      requires Valid() && b < buckets.Length && b == hash(e.key) % buckets.Length
      requires e !in nodes && forall n :: n in chains[b] ==> n.key != e.key
      requires e.key.left.NodeOperand? ==> e.key.left.n in nodes
      requires e.key.right.NodeOperand? ==> e.key.right.n in nodes
      modifies this, buckets, e`next, e`pprev, (if buckets[b] == null then {} else {buckets[b]})`pprev
      ensures Valid() && nodes == old(nodes) + {e} && chains == old(chains)[b := [e] + old(chains)[b]]
    {
      ghost var cs := chains;
      ghost var ds := PlacedMore(hash, cs, nodes, e, b);
      Push(e, b, cs, ds);
      chains, nodes := ds, nodes + {e};
    }

    /** Puts a node into a bucket; the other buckets keep their chains. */
    method Push(e: Node, b: nat, ghost cs: seq<seq<Node>>, ghost ds: seq<seq<Node>>)
      requires buckets.Length == |cs| && b < |cs| && hash(e.key) % |cs| == b
      requires forall k :: 0 <= k < |cs| ==> e !in cs[k] && Bucket(hash, |cs|, buckets[k], cs[k], k)
      requires ds == cs[b := [e] + cs[b]] && forall n :: n in cs[b] ==> n.key != e.key
      modifies buckets, e`next, e`pprev, (if buckets[b] == null then {} else {buckets[b]})`pprev
      ensures forall k :: 0 <= k < |ds| ==> Bucket(hash, |ds|, buckets[k], ds[k], k)
    {
      var first := buckets[b];
      ghost var c := cs[b];
      assert Bucket(hash, |cs|, first, c, b);
      Relink(e, first, b, c);
      buckets[b] := e;
      assert ([e] + c)[1..] == c;
      assert Bucket(hash, |cs|, e, [e] + c, b);
      forall k | 0 <= k < |cs| && k != b
        ensures Bucket(hash, |cs|, buckets[k], cs[k], k)
      {
        assert old(Bucket(hash, |cs|, buckets[k], cs[k], k));
        assert first != null ==> first !in cs[k];
      }
    }

    /** The link changes of putting `e` before the first node of a chain. */
    method Relink(e: Node, first: Node?, b: nat, ghost s: seq<Node>)
      requires Chain(first, s, InBucket(b)) && OneEach(s) && e !in s
      modifies e`next, e`pprev, (if first == null then {} else {first})`pprev
      ensures e.next == first && e.pprev == InBucket(b) && Chain(first, s, InNode(e))
    {
      e.next := first;
      if first != null {
        assert first !in s[1..];
        first.pprev := InNode(e);
      }
      e.pprev := InBucket(b);
    }

    /** Forgets every cached value and changes nothing else. */
    method InvalidateAll()
      requires Valid()
      modifies nodes`valIsValid
      ensures Valid() && forall n :: n in nodes ==> !n.valIsValid
    {
      for b := 0 to buckets.Length
        invariant Valid()
        invariant forall n :: n in nodes && hash(n.key) % |chains| < b ==> !n.valIsValid
      {
        assert Bucket(hash, |chains|, buckets[b], chains[b], b);
        InvalidateChain(buckets[b], chains[b], InBucket(b), nodes);
      }
    }

    method InvalidateChain(first: Node?, ghost s: seq<Node>, ghost slot: Slot, ghost all: set<Node>)
      requires Chain(first, s, slot) && forall n :: n in s ==> n in all
      modifies all`valIsValid
      ensures forall n :: n in all ==> n.valIsValid == (old(n.valIsValid) && n !in s)
    {
      var p := first;
      ghost var done, rest, at := [], s, slot;
      while p != null
        invariant Chain(p, rest, at) && s == done + rest
        invariant forall n :: n in all ==> n.valIsValid == (old(n.valIsValid) && n !in done)
        decreases |rest|
      {
        p.valIsValid := false;
        done, rest, at := done + [p], rest[1..], InNode(p);
        p := p.next;
      }
    }

    method AllocTwo(c: Conn, l: Node, r: Node) returns (n: Node)
      requires Valid() && l in nodes && r in nodes
      modifies this, buckets, nodes
      ensures Valid() && n in nodes && n.key == Key(BinaryNode(c), NodeOperand(l), NodeOperand(r))
      ensures old(nodes) <= nodes && fresh(nodes - old(nodes))
    {
      n := Lookup(Key(BinaryNode(c), NodeOperand(l), NodeOperand(r)));
    }

    method AllocOne(l: Node) returns (n: Node)
      requires Valid() && l in nodes
      modifies this, buckets, nodes
      ensures Valid() && n in nodes && n.key == Key(NotNode, NodeOperand(l), Nothing)
      ensures old(nodes) <= nodes && fresh(nodes - old(nodes))
    {
      n := Lookup(Key(NotNode, NodeOperand(l), Nothing));
    }

    method AllocSymbols(kind: Kind, a: Symbol, b: Operand) returns (n: Node)
      requires Valid() && !b.NodeOperand?
      modifies this, buckets, nodes
      ensures Valid() && n in nodes && n.key == Key(kind, SymbolOperand(a), b)
      ensures old(nodes) <= nodes && fresh(nodes - old(nodes))
    {
      n := Lookup(Key(kind, SymbolOperand(a), b));
    }

    /** Builds an expression from the leaves up. */
    method Build(e: Expr) returns (n: Node)
      requires Valid()
      modifies this, buckets, nodes
      ensures Valid() && old(nodes) <= nodes && fresh(nodes - old(nodes))
      ensures n in nodes && Represents(n, e)
      decreases e, 2
    {
      match e {
        case Sym(s) => n := AllocSymbols(SymbolNode, s, Nothing);
        case Comp(op, a, b) => n := AllocSymbols(CompareNode(op), a, SymbolOperand(b));
        case Not(x) =>
          var l := Build(x);
          n := AllocOne(l);
        case Bin(_, _, _) => n := BuildTwo(e);
      }
    }

    method BuildTwo(e: Expr) returns (n: Node)
      requires Valid() && e.Bin?
      modifies this, buckets, nodes
      ensures Valid() && old(nodes) <= nodes && fresh(nodes - old(nodes))
      ensures n in nodes && Represents(n, e)
      decreases e, 1
    {
      var l, r := BuildOperands(e);
      n := AllocTwo(e.c, l, r);
    }

    method BuildOperands(e: Expr) returns (l: Node, r: Node)
      requires Valid() && e.Bin?
      modifies this, buckets, nodes
      ensures Valid() && old(nodes) <= nodes && fresh(nodes - old(nodes))
      ensures l in nodes && r in nodes && Represents(l, e.l) && Represents(r, e.r)
      decreases e, 0
    {
      l := Build(e.l);
      r := Build(e.r);
    }

    /** Allocating an expression finds the node of an equal one that was allocated before. */
    method Allocate(e: Expr) returns (n: Node)
      requires Valid()
      modifies this, buckets, nodes
      ensures Valid() && old(nodes) <= nodes && n in nodes && Represents(n, e)
      ensures forall m :: m in old(nodes) && Represents(m, e) ==> m == n
    {
      n := Build(e);
      KeysAreUnique();
      forall m | m in old(nodes) && Represents(m, e) ensures m == n { OneNodePerExpression(nodes, m, n, e); }
    }
  }
}
