/** Circular doubly linked lists whose head is an entry of its own, and hash chains, both
    as pointer structures that stand for sequences. */
module ListHead {
  import opened Sequences

  class Entry {
    var next: Entry?
    var prev: Entry?

    /** An empty list. */
    constructor ()
      ensures Ring([this])
    {
      next, prev := this, this;
    }
  }

  predicate Linked(c: seq<Entry>, i: nat)
    requires i < |c|
    reads c
  {
    c[i].next == c[After(|c|, i)] && c[After(|c|, i)].prev == c[i]
  }

  /** The entries are linked into a circle in this order, forwards and backwards. */
  ghost predicate Ring(c: seq<Entry>)
    reads c
  {
    |c| > 0 && Distinct(c) && forall i :: 0 <= i < |c| ==> Linked(c, i)
  }

  /** The list at `head` holds these entries. */
  ghost predicate List(head: Entry, s: seq<Entry>)
    reads {head}, s
  {
    Ring([head] + s)
  }

  function Inserted(c: seq<Entry>, i: nat, e: Entry): seq<Entry>
    requires i < |c|
  {
    c[..i + 1] + [e] + c[i + 1..]
  }

  /** Links an entry between two neighbours. */
  method Insert(e: Entry, prev: Entry, next: Entry, ghost c: seq<Entry>, ghost i: nat)
    requires Ring(c) && e !in c && i < |c| && prev == c[i] && next == c[After(|c|, i)]
    modifies e, prev, next
    ensures Ring(Inserted(c, i, e))
  {
    next.prev := e;
    e.next := next;
    e.prev := prev;
    prev.next := e;
    ghost var d := Inserted(c, i, e);
    forall k | 0 <= k < |d|
      ensures Linked(d, k)
    {
      if k < i {
        assert old(Linked(c, k)) && d[k] == c[k] && d[k + 1] == c[k + 1];
      } else if k > i + 1 {
        assert old(Linked(c, k - 1)) && d[k] == c[k - 1];
        assert d[After(|d|, k)] == c[After(|c|, k - 1)];
      }
    }
  }

  /** Makes the neighbours of an entry point to each other. */
  method Unlink(e: Entry, ghost c: seq<Entry>, ghost i: nat)
    requires Ring(c) && 0 < i < |c| && c[i] == e
    modifies e.prev, e.next
    ensures Ring(Without(c, i)) && e.next == old(e.next) && e.prev == old(e.prev)
  {
    assert Linked(c, i - 1) && Linked(c, i);
    ghost var d := Without(c, i);
    e.next.prev := e.prev;
    e.prev.next := e.next;
    forall k | 0 <= k < |d|
      ensures Linked(d, k)
    {
      WithoutAt(c, i, k);
      WithoutNext(c, i, k);
      if k < i - 1 {
        assert old(Linked(c, k));
      } else if k >= i {
        assert old(Linked(c, k + 1));
      }
    }
  }

  /** Adds an entry as the first of a list. */
  method Add(e: Entry, head: Entry, ghost s: seq<Entry>)
    requires List(head, s) && e != head && e !in s
    modifies e, head, head.next
    ensures List(head, [e] + s)
  {
    ghost var c := [head] + s;
    assert Linked(c, 0);
    Insert(e, head, head.next, c, 0);
    assert Inserted(c, 0, e) == [head] + ([e] + s);
  }

  /** Adds an entry as the last of a list. */
  method AddTail(e: Entry, head: Entry, ghost s: seq<Entry>)
    requires List(head, s) && e != head && e !in s
    modifies e, head, head.prev
    ensures List(head, s + [e])
  {
    ghost var c := [head] + s;
    assert Linked(c, |s|);
    Insert(e, head.prev, head, c, |s|);
    assert Inserted(c, |s|, e) == [head] + (s + [e]);
  }

  /** Takes an entry out of a list and leaves its links unusable. */
  method Delete(e: Entry, ghost head: Entry, ghost a: seq<Entry>, ghost b: seq<Entry>)
    requires List(head, a + [e] + b)
    modifies e, e.prev, e.next
    ensures List(head, a + b) && e.next == null && e.prev == null
  {
    ghost var c := [head] + (a + [e] + b);
    assert c[|a| + 1] == e && Linked(c, |a|) && Linked(c, |a| + 1);
    assert Without(c, |a| + 1) == [head] + (a + b);
    Unlink(e, c, |a| + 1);
    assert e !in [head] + (a + b) by { DistinctWithout(c, |a| + 1); }
    e.next := null;
    e.prev := null;
  }

  /** Takes an entry out of a list, to be put elsewhere. */
  method TakeOut(e: Entry, ghost head: Entry, ghost a: seq<Entry>, ghost b: seq<Entry>)
    requires List(head, a + [e] + b)
    modifies e.prev, e.next
    ensures List(head, a + b) && e !in [head] + (a + b)
  {
    ghost var c := [head] + (a + [e] + b);
    assert c[|a| + 1] == e && Linked(c, |a|) && Linked(c, |a| + 1);
    assert Without(c, |a| + 1) == [head] + (a + b);
    Unlink(e, c, |a| + 1);
    DistinctWithout(c, |a| + 1);
  }

  /** The lists share no entry, unless they are one and the same. */
  ghost predicate Apart(from: Entry, s: seq<Entry>, head: Entry, t: seq<Entry>) {
    if from == head then t == s else from !in t && head !in s && forall x :: x in t ==> x !in s
  }

  lemma Neighbours(head: Entry, s: seq<Entry>)
    requires List(head, s)
    ensures (head.next == head || head.next in s) && (head.prev == head || head.prev in s)
  {
    assert Linked([head] + s, 0) && Linked([head] + s, |s|);
  }

  lemma EntryNeighbours(head: Entry, a: seq<Entry>, e: Entry, b: seq<Entry>)
    requires List(head, a + [e] + b)
    ensures e.next != null && e.prev != null
    ensures (e.next == head || e.next in a + b) && (e.prev == head || e.prev in a + b)
  {
    var c := [head] + (a + [e] + b);
    assert c[|a| + 1] == e && Linked(c, |a|) && Linked(c, |a| + 1);
    assert a != [] ==> e.prev == (a + b)[|a| - 1];
    assert b != [] ==> e.next == (a + b)[|a|];
  }

  /** Moves an entry to the front of its list or of another; all others keep their order. */
  method Move(e: Entry, head: Entry, ghost from: Entry, ghost a: seq<Entry>, ghost b: seq<Entry>, ghost t: seq<Entry>)
    requires List(from, a + [e] + b) && List(head, t) && Apart(from, a + [e] + b, head, t)
    modifies e, from, head, a, b, t
    ensures if head == from then List(head, [e] + (a + b)) else List(from, a + b) && List(head, [e] + t)
  {
    EntryNeighbours(from, a, e, b);
    assert forall x :: x in a + b || x == e ==> x in a + [e] + b;
    TakeOut(e, from, a, b);
    ghost var s := if head == from then a + b else t;
    assert List(head, s);
    Neighbours(head, s);
    Add(e, head, s);
  }

  /** Moves an entry to the end of its list or of another; all others keep their order. */
  method MoveTail(e: Entry, head: Entry, ghost from: Entry, ghost a: seq<Entry>, ghost b: seq<Entry>, ghost t: seq<Entry>)
    requires List(from, a + [e] + b) && List(head, t) && Apart(from, a + [e] + b, head, t)
    modifies e, from, head, a, b, t
    ensures if head == from then List(head, a + b + [e]) else List(from, a + b) && List(head, t + [e])
  {
    EntryNeighbours(from, a, e, b);
    assert forall x :: x in a + b || x == e ==> x in a + [e] + b;
    TakeOut(e, from, a, b);
    ghost var s := if head == from then a + b else t;
    assert List(head, s);
    Neighbours(head, s);
    AddTail(e, head, s);
  }

  /** Walking forwards from the head meets every entry once, in order. */
  method Forwards(head: Entry, ghost s: seq<Entry>) returns (order: seq<Entry>)
    requires List(head, s)
    ensures order == s
  {
    ghost var c := [head] + s;
    assert Linked(c, 0);
    order := [];
    var pos := head.next;
    while pos != head
      invariant |order| <= |s| && order == s[..|order|] && pos == c[After(|c|, |order|)]
      decreases |s| - |order|
    {
      assert Linked(c, |order| + 1);
      order := order + [pos];
      pos := pos.next;
    }
  }

  /** Walking backwards meets them in reverse. */
  method Backwards(head: Entry, ghost s: seq<Entry>) returns (order: seq<Entry>)
    requires List(head, s)
    ensures |order| == |s| && forall i :: 0 <= i < |s| ==> order[i] == s[|s| - 1 - i]
  {
    ghost var c := [head] + s;
    assert Linked(c, |s|);
    order := [];
    var pos := head.prev;
    while pos != head
      invariant |order| <= |s| && pos == c[|s| - |order|]
      invariant forall i :: 0 <= i < |order| ==> order[i] == s[|s| - 1 - i]
      decreases |s| - |order|
    {
      assert Linked(c, |s| - |order| - 1);
      order := order + [pos];
      pos := pos.prev;
    }
  }
}
