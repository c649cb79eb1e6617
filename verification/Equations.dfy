/** Systems of equations x(s) = step(s, x) in which every unknown depends only on
    unknowns of lower rank. */
module Equations {
  type Unknowns<!K, V> = K -> V

  ghost predicate AgreeBelow<K(!new), V>(dep: (K, K) -> bool, s: K, x: Unknowns<K, V>, y: Unknowns<K, V>) {
    forall t: K :: dep(s, t) ==> x(t) == y(t)
  }

  /** Each right-hand side reads only the unknowns it depends on. */
  ghost predicate Local<K(!new), V(!new)>(step: (K, Unknowns<K, V>) -> V, dep: (K, K) -> bool) {
    forall s: K, x: Unknowns<K, V>, y: Unknowns<K, V> :: AgreeBelow(dep, s, x, y) ==> step(s, x) == step(s, y)
  }

  ghost predicate Descends<K(!new)>(dep: (K, K) -> bool, rank: K -> nat) {
    forall s: K, t: K :: dep(s, t) ==> rank(t) < rank(s)
  }

  ghost predicate Solution<K(!new), V>(step: (K, Unknowns<K, V>) -> V, x: Unknowns<K, V>) {
    forall s: K :: x(s) == step(s, x)
  }

  /** The equations applied n times from an arbitrary start. */
  ghost function Level<K, V>(step: (K, Unknowns<K, V>) -> V, start: V, n: nat): Unknowns<K, V> {
    if n == 0 then (s: K) => start
    else
      var p := Level(step, start, n - 1);
      (s: K) => step(s, p)
  }

  lemma {:induction false} LevelSettles<K(!new), V(!new)>(
    step: (K, Unknowns<K, V>) -> V, dep: (K, K) -> bool, rank: K -> nat, start: V, s: K, m: nat, n: nat)
    requires Local(step, dep) && Descends(dep, rank) && rank(s) < m && rank(s) < n
    ensures Level(step, start, m)(s) == Level(step, start, n)(s)
    decreases rank(s)
  {
    var x, y := Level(step, start, m - 1), Level(step, start, n - 1);
    forall t: K | dep(s, t)
      ensures x(t) == y(t)
    {
      LevelSettles(step, dep, rank, start, t, m - 1, n - 1);
    }
    assert AgreeBelow(dep, s, x, y);
  }

  lemma SolutionExists<K(!new), V(!new)>(
    step: (K, Unknowns<K, V>) -> V, dep: (K, K) -> bool, rank: K -> nat, start: V) returns (x: Unknowns<K, V>)
    requires Local(step, dep) && Descends(dep, rank)
    ensures Solution(step, x)
  {
    x := (s: K) => Level(step, start, rank(s) + 1)(s);
    forall s: K
      ensures x(s) == step(s, x)
    {
      var y := Level(step, start, rank(s));
      forall t: K | dep(s, t)
        ensures y(t) == x(t)
      {
        LevelSettles(step, dep, rank, start, t, rank(t) + 1, rank(s));
      }
      assert AgreeBelow(dep, s, y, x);
    }
  }

  lemma {:induction false} SolutionIsUnique<K(!new), V(!new)>(
    step: (K, Unknowns<K, V>) -> V, dep: (K, K) -> bool, rank: K -> nat, x: Unknowns<K, V>, y: Unknowns<K, V>, s: K)
    requires Local(step, dep) && Descends(dep, rank) && Solution(step, x) && Solution(step, y)
    ensures x(s) == y(s)
    decreases rank(s)
  {
    forall t: K | dep(s, t)
      ensures x(t) == y(t)
    {
      SolutionIsUnique(step, dep, rank, x, y, t);
    }
    assert AgreeBelow(dep, s, x, y);
  }
}
