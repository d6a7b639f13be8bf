/** Sizes of finite sets, and the pigeonhole principle for lists of numbers. */
module Counting {

  /** Distinct numbers below `n`: at most `n`, and exactly `n` iff none is missing. */
  lemma Pigeonhole(order: seq<nat>, n: nat)
    requires forall i :: 0 <= i < |order| ==> order[i] < n
    requires forall i, j :: 0 <= i < j < |order| ==> order[i] != order[j]
    ensures |order| <= n
    ensures (forall s :: 0 <= s < n ==> s in order) <==> |order| == n
  {
    hide Members, Below;
    MembersSize(order);
    var here, all := Members(order), Below(n);
    assert here <= all;
    SubsetSize(here, all);
    if x: nat :| x < n && x !in order {
      SubsetSize(here, all - {x});
    } else {
      assert here == all;
    }
  }

  ghost function Below(n: nat): (r: set<nat>)
    ensures forall s: nat :: s in r <==> s < n
    ensures |r| == n
  {
    if n == 0 then {} else Below(n - 1) + {n - 1}
  }

  ghost function Members(order: seq<nat>): (r: set<nat>)
    ensures forall s :: s in r <==> s in order
  {
    if order == [] then {} else {order[0]} + Members(order[1..])
  }

  lemma {:induction false} MembersSize(order: seq<nat>)
    requires forall i, j :: 0 <= i < j < |order| ==> order[i] != order[j]
    ensures |Members(order)| == |order|
  {
    if order != [] {
      MembersSize(order[1..]);
      assert order[0] !in order[1..];
    }
  }

  lemma SubsetSize<T>(a: set<T>, b: set<T>)
    requires a <= b
    ensures |a| <= |b|
  {
    assert b == a + (b - a);
  }
}
