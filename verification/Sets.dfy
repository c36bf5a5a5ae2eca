/**
  Finite sets of numbers: initial segments, and the rank of a number in a set.
 */
module Sets {

  /** The numbers below n. */
  function Below(n: nat): (r: set<nat>)
    ensures forall i: nat :: i in r <==> i < n
    ensures |r| == n
  {
    if n == 0 then {} else Below(n - 1) + {n - 1}
  }

  /** How many members are below i. */
  function Rank(s: set<nat>, i: nat): (r: nat)
    ensures r <= i
  {
    if i == 0 then 0 else Rank(s, i - 1) + if i - 1 in s then 1 else 0
  }

  lemma {:induction false} RankMonotone(s: set<nat>, i: nat, j: nat)
    requires i <= j
    ensures Rank(s, i) <= Rank(s, j)
    ensures i < j && i in s ==> Rank(s, i) < Rank(s, j)
  {
    if i < j { RankMonotone(s, i, j - 1); }
  }

  /** The rank of a number is the number of members below it. */
  lemma {:induction false} RankCounts(s: set<nat>, i: nat)
    ensures Rank(s, i) == |set a | a in s && a < i|
  {
    if i > 0 {
      RankCounts(s, i - 1);
      var a, b := set a | a in s && a < i - 1, set a | a in s && a < i;
      assert b == if i - 1 in s then a + {i - 1} else a;
    } else {
      assert (set a | a in s && a < 0) == {};
    }
  }

  /** Members are in the order of their ranks. */
  lemma RankOrder(s: set<nat>, x: nat, y: nat)
    requires x in s && y in s
    ensures x <= y <==> Rank(s, x) <= Rank(s, y)
    ensures x == y <==> Rank(s, x) == Rank(s, y)
  {
    hide Rank;
    if x < y { RankMonotone(s, x, y); }
    if y < x { RankMonotone(s, y, x); }
  }

  /** The rank of an upper bound is the number of members. */
  lemma {:induction false} RankIsCardinality(s: set<nat>, n: nat)
    requires forall a :: a in s ==> a < n
    ensures Rank(s, n) == |s|
  {
    if n > 0 {
      RankWithout(s, n - 1, n - 1);
      RankIsCardinality(s - {n - 1}, n - 1);
    } else {
      assert s == {};
    }
  }

  lemma {:induction false} RankWithout(s: set<nat>, i: nat, x: nat)
    requires i <= x
    ensures Rank(s - {x}, i) == Rank(s, i)
  {
    if i > 0 { RankWithout(s, i - 1, x); }
  }

  lemma SubsetOfSameSize(a: set<nat>, b: set<nat>)
    requires a <= b && |a| == |b|
    ensures a == b
  {
    assert |b - a| == 0;
  }

  /** A set that is not 0..n has a member beyond its size. */
  lemma BeyondCount(s: set<nat>) returns (x: nat)
    requires s != Below(|s|)
    ensures x in s && x >= |s|
  {
    if s <= Below(|s|) { SubsetOfSameSize(s, Below(|s|)); }
    x :| x in s && x !in Below(|s|);
  }
}
