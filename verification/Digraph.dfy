/** Cycles and orders of a directed graph given by its edge relation. */
module Digraph {
  ghost predicate IsWalk<T>(edge: (T, T) -> bool, p: seq<T>) {
    forall i, j :: 0 <= i < j < |p| && j == i + 1 ==> edge(p[i], p[j])
  }

  ghost predicate HasCycle<T(!new)>(edge: (T, T) -> bool) {
    exists p: seq<T> :: |p| >= 2 && p[0] == p[|p| - 1] && IsWalk(edge, p)
  }

  /** Every edge of a ranked node leads to a node of lower rank. */
  ghost predicate Descends<T(!new)>(edge: (T, T) -> bool, rank: map<T, nat>) {
    forall a: T, b: T :: a in rank && edge(a, b) ==> b in rank && rank[b] < rank[a]
  }

  ghost predicate Covers<T(!new)>(edge: (T, T) -> bool, nodes: set<T>) {
    forall a: T, b: T :: edge(a, b) ==> a in nodes
  }

  lemma {:induction false} WalkDescends<T(!new)>(edge: (T, T) -> bool, rank: map<T, nat>, p: seq<T>, n: nat)
    requires Descends(edge, rank) && IsWalk(edge, p) && 0 < n < |p| && p[0] in rank
    ensures p[n] in rank && rank[p[n]] < rank[p[0]]
    decreases n
  {
    if n > 1 { WalkDescends(edge, rank, p, n - 1); }
    assert edge(p[n - 1], p[n]);
  }

  /** Ranks rule out cycles. */
  lemma RankedHasNoCycle<T(!new)>(edge: (T, T) -> bool, rank: map<T, nat>)
    requires Descends(edge, rank) && Covers(edge, rank.Keys)
    ensures !HasCycle(edge)
  {
    if HasCycle(edge) {
      var p: seq<T> :| |p| >= 2 && p[0] == p[|p| - 1] && IsWalk(edge, p);
      assert edge(p[0], p[1]);
      WalkDescends(edge, rank, p, |p| - 1);
      assert false;
    }
  }

  lemma ExtendWalk<T>(edge: (T, T) -> bool, p: seq<T>, b: T)
    requires IsWalk(edge, p) && (p != [] ==> edge(p[|p| - 1], b))
    ensures IsWalk(edge, p + [b])
  {
    var q := p + [b];
    forall i, j | 0 <= i < j < |q| && j == i + 1
      ensures edge(q[i], q[j])
    {
      if j < |p| { assert edge(p[i], p[j]); }
    }
  }

  lemma SegmentIsWalk<T>(edge: (T, T) -> bool, p: seq<T>, i: nat, j: nat)
    requires IsWalk(edge, p) && i <= j <= |p|
    ensures IsWalk(edge, p[i..j])
  {
    var q := p[i..j];
    forall k, l | 0 <= k < l < |q| && l == k + 1
      ensures edge(q[k], q[l])
    {
      assert edge(p[i + k], p[i + l]);
    }
  }

  lemma WalkClosesCycle<T(!new)>(edge: (T, T) -> bool, path: seq<T>, b: T)
    requires IsWalk(edge, path) && b in path && edge(path[|path| - 1], b)
    ensures HasCycle(edge)
  {
    var i :| 0 <= i < |path| && path[i] == b;
    ExtendWalk(edge, path, b);
    RepetitionClosesCycle(edge, path + [b], i, |path|);
  }

  ghost predicate StaysInside<T>(edge: (T, T) -> bool, nodes: set<T>, x: T) {
    exists y :: y in nodes && edge(x, y)
  }

  lemma {:induction false} WalkInside<T(!new)>(edge: (T, T) -> bool, nodes: set<T>, a: T, n: nat) returns (p: seq<T>)
    requires a in nodes && forall x :: x in nodes ==> StaysInside(edge, nodes, x)
    ensures |p| == n + 1 && IsWalk(edge, p) && forall i :: 0 <= i < |p| ==> p[i] in nodes
    decreases n
  {
    if n == 0 {
      p := [a];
    } else {
      var q := WalkInside(edge, nodes, a, n - 1);
      assert StaysInside(edge, nodes, q[|q| - 1]);
      var y :| y in nodes && edge(q[|q| - 1], y);
      ExtendWalk(edge, q, y);
      p := q + [y];
    }
  }

  lemma {:induction false} Pigeonhole<T>(p: seq<T>, nodes: set<T>) returns (i: nat, j: nat)
    requires |p| > |nodes| && forall k :: 0 <= k < |p| ==> p[k] in nodes
    ensures i < j < |p| && p[i] == p[j]
    decreases |p|
  {
    var last := |p| - 1;
    if exists k :: 0 <= k < last && p[k] == p[last] {
      i :| 0 <= i < last && p[i] == p[last];
      j := last;
    } else {
      i, j := Pigeonhole(p[..last], nodes - {p[last]});
    }
  }

  /** When every node of a finite set has an edge that stays inside, there is a cycle. */
  lemma NoSinkMeansCycle<T(!new)>(edge: (T, T) -> bool, nodes: set<T>)
    requires nodes != {} && forall x :: x in nodes ==> StaysInside(edge, nodes, x)
    ensures HasCycle(edge)
  {
    var a :| a in nodes;
    var p := WalkInside(edge, nodes, a, |nodes|);
    var i, j := Pigeonhole(p, nodes);
    RepetitionClosesCycle(edge, p, i, j);
  }

  lemma RepetitionClosesCycle<T(!new)>(edge: (T, T) -> bool, p: seq<T>, i: nat, j: nat)
    requires IsWalk(edge, p) && i < j < |p| && p[i] == p[j]
    ensures HasCycle(edge)
  {
    var q := p[i..j + 1];
    SegmentIsWalk(edge, p, i, j + 1);
    assert q[0] == p[i] && q[|q| - 1] == p[j];
  }

  ghost predicate Connected<T(!new)>(edge: (T, T) -> bool, a: T, b: T) {
    exists p: seq<T> :: p != [] && p[0] == a && p[|p| - 1] == b && IsWalk(edge, p)
  }

  lemma JoinWalks<T>(edge: (T, T) -> bool, p: seq<T>, q: seq<T>)
    requires IsWalk(edge, p) && IsWalk(edge, q) && p != [] && q != [] && edge(p[|p| - 1], q[0])
    ensures IsWalk(edge, p + q)
  {
    var r := p + q;
    forall i, j | 0 <= i < j < |r| && j == i + 1
      ensures edge(r[i], r[j])
    {
      if j < |p| {
        assert edge(p[i], p[j]);
      } else if i >= |p| {
        assert edge(q[i - |p|], q[j - |p|]);
      }
    }
  }

  lemma SinkLeadsNowhere<T(!new)>(edge: (T, T) -> bool, a: T, b: T)
    requires a != b && forall x: T :: !edge(a, x)
    ensures !Connected(edge, a, b)
  {
    forall p: seq<T> | p != [] && p[0] == a && p[|p| - 1] == b
      ensures !IsWalk(edge, p)
    {
      assert |p| >= 2 && !edge(p[0], p[1]);
    }
  }

  /** An edge of a cycle is closed by the rest of the cycle. */
  lemma CycleConnects<T(!new)>(edge: (T, T) -> bool, p: seq<T>, i: nat)
    requires IsWalk(edge, p) && i + 1 < |p| && p[0] == p[|p| - 1]
    ensures Connected(edge, p[i + 1], p[i])
  {
    var last := |p| - 1;
    SegmentIsWalk(edge, p, i + 1, last);
    SegmentIsWalk(edge, p, 0, i + 1);
    var a, b := p[i + 1..last], p[0..i + 1];
    var q := if a == [] then b else a + b;
    if a != [] {
      assert edge(p[last - 1], p[last]);
      JoinWalks(edge, a, b);
    }
    assert q != [] && q[0] == p[i + 1] && q[|q| - 1] == p[i];
  }

  lemma ConnectedClosesCycle<T(!new)>(edge: (T, T) -> bool, a: T, b: T)
    requires edge(a, b) && Connected(edge, b, a)
    ensures HasCycle(edge)
  {
    var p: seq<T> :| p != [] && p[0] == b && p[|p| - 1] == a && IsWalk(edge, p);
    assert IsWalk(edge, [a]);
    JoinWalks(edge, [a], p);
    var q := [a] + p;
    assert |q| >= 2 && q[0] == q[|q| - 1];
  }

  /** Numbers descending along all edges rule out cycles ... */
  lemma {:induction false} NumberingDescends<T(!new)>(edge: (T, T) -> bool, rank: T -> nat, p: seq<T>, n: nat)
    requires (forall a: T, b: T :: edge(a, b) ==> rank(b) < rank(a)) && IsWalk(edge, p) && 0 < n < |p|
    ensures rank(p[n]) < rank(p[0])
    decreases n
  {
    if n > 1 { NumberingDescends(edge, rank, p, n - 1); }
    assert edge(p[n - 1], p[n]);
  }

  /** ... and exist for the nodes of every finite graph without a cycle. */
  lemma {:induction false} AcyclicIsRanked<T(!new)>(edge: (T, T) -> bool, nodes: set<T>) returns (rank: map<T, nat>)
    requires !HasCycle(edge)
    ensures rank.Keys == nodes && forall a: T, b: T :: a in nodes && b in nodes && edge(a, b) ==> rank[b] < rank[a]
    decreases |nodes|
  {
    if nodes == {} {
      rank := map[];
    } else {
      if forall x :: x in nodes ==> StaysInside(edge, nodes, x) {
        NoSinkMeansCycle(edge, nodes);
        assert false;
      }
      var x :| x in nodes && !StaysInside(edge, nodes, x);
      var above := AcyclicIsRanked(edge, nodes - {x});
      rank := map a | a in nodes :: if a == x then 0 else above[a] + 1;
      forall a: T, b: T | a in nodes && b in nodes && edge(a, b)
        ensures rank[b] < rank[a]
      {
        assert a == x ==> StaysInside(edge, nodes, x);
      }
    }
  }
}
