/** Sequences without repetitions, and positions on a circle. */
module Sequences {

  predicate Distinct<T(==)>(s: seq<T>) { forall i, j :: 0 <= i < j < |s| ==> s[i] != s[j] }

  function Without<T>(s: seq<T>, i: nat): seq<T>
    requires i < |s|
  {
    s[..i] + s[i + 1..]
  }

  lemma WithoutAt<T>(s: seq<T>, i: nat, k: nat)
    requires i < |s| && k + 1 < |s|
    ensures |Without(s, i)| == |s| - 1 && Without(s, i)[k] == if k < i then s[k] else s[k + 1]
  {
  }

  lemma WithoutNext<T>(s: seq<T>, i: nat, k: nat)
    requires i < |s| && k + 1 < |s|
    ensures After(|s| - 1, k) < |Without(s, i)|
    ensures k + 1 < i ==> Without(s, i)[After(|s| - 1, k)] == s[k + 1]
    ensures i <= k && i > 0 ==> Without(s, i)[After(|s| - 1, k)] == s[After(|s|, k + 1)]
  {
    WithoutAt(s, i, After(|s| - 1, k));
  }

  lemma DistinctWithout<T>(s: seq<T>, i: nat)
    requires Distinct(s) && i < |s|
    ensures Distinct(Without(s, i)) && s[i] !in Without(s, i)
  {
    var d := Without(s, i);
    assert forall k :: 0 <= k < |d| ==> d[k] == if k < i then s[k] else s[k + 1];
  }

  lemma WithoutLater<T>(x: T, s: seq<T>, i: nat)
    requires i < |s|
    ensures [x] + Without(s, i) == Without([x] + s, i + 1)
  {
    assert ([x] + s)[..i + 1] == [x] + s[..i] && ([x] + s)[i + 2..] == s[i + 1..];
  }

  /** The position after `i` on a circle of `n`. */
  function After(n: nat, i: nat): (j: nat)
    requires i < n
    ensures j < n
  {
    if i + 1 < n then i + 1 else 0
  }

  lemma DistinctSplit<T>(x: T, p: seq<T>, q: seq<T>)
    requires Distinct([x] + p + q)
    ensures Distinct(p) && Distinct(q) && x !in p && x !in q && forall y :: y in p ==> y !in q
  {
    var all := [x] + p + q;
    assert all[0] == x;
    assert forall i :: 0 <= i < |p| ==> p[i] == all[1 + i];
    assert forall i :: 0 <= i < |q| ==> q[i] == all[1 + |p| + i];
    forall i, j | 0 <= i < |p| && 0 <= j < |q|
      ensures p[i] != q[j]
    {
      assert all[1 + i] != all[1 + |p| + j];
    }
  }
}
