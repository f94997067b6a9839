/**
 * A termination measure for the descendant flood: a worklist of ids whose
 * weight is the sum of base^rank over its members. Removing one member and
 * adding any number of strictly lower-ranked members (at most base - 1 of
 * them) strictly lowers the weight.
 */
module Measure {

  function Pow(b: nat, e: nat): nat {
    if e == 0 then 1 else b * Pow(b, e - 1)
  }

  lemma {:induction false} PowPositive(b: nat, e: nat)
    requires b >= 1
    ensures Pow(b, e) >= 1
  {
    if e > 0 {
      PowPositive(b, e - 1);
      MulAtLeast(b, Pow(b, e - 1));
    }
  }

  lemma MulAtLeast(a: nat, c: nat)
    requires a >= 1 && c >= 1
    ensures a * c >= c
  {
  }

  lemma {:induction false} PowMonotone(b: nat, e1: nat, e2: nat)
    requires b >= 1 && e1 <= e2
    ensures Pow(b, e1) <= Pow(b, e2)
    decreases e2
  {
    if e1 < e2 {
      PowMonotone(b, e1, e2 - 1);
      PowPositive(b, e2 - 1);
      MulAtLeast(b, Pow(b, e2 - 1));
    }
  }

  lemma NonEmpty(s: set<int>)
    ensures s == {} || exists x :: x in s
  {
    if !exists x :: x in s {
      assert s == {};
    }
  }

  ghost function W(rank: map<int, nat>, b: nat, x: int): nat {
    if x in rank then Pow(b, rank[x]) else 0
  }

  ghost function Weight(s: set<int>, rank: map<int, nat>, b: nat): nat
    decreases s
  {
    if s == {} then 0
    else
      NonEmpty(s);
      var x :| x in s;
      W(rank, b, x) + Weight(s - {x}, rank, b)
  }

  lemma {:induction false} WeightRemove(s: set<int>, rank: map<int, nat>, b: nat, x: int)
    requires x in s
    ensures Weight(s, rank, b) == W(rank, b, x) + Weight(s - {x}, rank, b)
    decreases s
  {
    NonEmpty(s);
    var y :| y in s && Weight(s, rank, b) == W(rank, b, y) + Weight(s - {y}, rank, b);
    if y != x {
      WeightRemove(s - {y}, rank, b, x);
      WeightRemove(s - {x}, rank, b, y);
      assert s - {y} - {x} == s - {x} - {y};
    }
  }

  lemma {:induction false} WeightUnion(a: set<int>, c: set<int>, rank: map<int, nat>, b: nat)
    ensures Weight(a + c, rank, b) <= Weight(a, rank, b) + Weight(c, rank, b)
    decreases c
  {
    if c != {} {
      NonEmpty(c);
      var y :| y in c;
      WeightRemove(c, rank, b, y);
      WeightUnion(a, c - {y}, rank, b);
      if y in a {
        assert a + c == a + (c - {y});
      } else {
        WeightRemove(a + c, rank, b, y);
        assert (a + c) - {y} == a + (c - {y});
      }
    } else {
      assert a + c == a;
    }
  }

  lemma {:induction false} WeightBound(c: set<int>, rank: map<int, nat>, b: nat, m: nat)
    requires forall y :: y in c ==> W(rank, b, y) <= m
    ensures Weight(c, rank, b) <= |c| * m
    decreases c
  {
    if c != {} {
      NonEmpty(c);
      var y :| y in c;
      WeightRemove(c, rank, b, y);
      WeightBound(c - {y}, rank, b, m);
      assert |c - {y}| == |c| - 1;
      MulPred(|c|, m);
    }
  }

  lemma MulPred(n: nat, m: nat)
    requires n >= 1
    ensures (n - 1) * m + m == n * m
  {
  }

  lemma {:induction false} SubsetCard(a: set<int>, c: set<int>)
    requires a <= c
    ensures |a| <= |c|
  {
    assert c == a + (c - a);
  }

  /** One step of the flood: `x` leaves the worklist and the lower-ranked
      `kids` (a subset of the universe of ids) join it. */
  lemma WorklistStep(w: set<int>, x: int, kids: set<int>, universe: set<int>, rank: map<int, nat>)
    requires x in w && x in rank
    requires kids <= universe
    requires forall y :: y in kids ==> y in rank && rank[y] < rank[x]
    ensures Weight((w - {x}) + kids, rank, |universe| + 1) < Weight(w, rank, |universe| + 1)
  {
    var b := |universe| + 1;
    WeightRemove(w, rank, b, x);
    WeightUnion(w - {x}, kids, rank, b);
    KidsLighter(x, kids, universe, rank);
  }

  lemma KidsLighter(x: int, kids: set<int>, universe: set<int>, rank: map<int, nat>)
    requires x in rank && kids <= universe
    requires forall y :: y in kids ==> y in rank && rank[y] < rank[x]
    ensures Weight(kids, rank, |universe| + 1) < W(rank, |universe| + 1, x)
  {
    var b := |universe| + 1;
    PowPositive(b, rank[x]);
    if kids != {} {
      NonEmpty(kids);
      var y :| y in kids;
      var r := rank[x] - 1;
      forall z | z in kids
        ensures W(rank, b, z) <= Pow(b, r)
      {
        PowMonotone(b, rank[z], r);
      }
      WeightBound(kids, rank, b, Pow(b, r));
      SubsetCard(kids, universe);
      PowPositive(b, r);
      BoundStep(|kids|, |universe|, Pow(b, r));
      assert Pow(b, rank[x]) == b * Pow(b, r);
    } else {
      assert kids == {};
    }
  }

  lemma BoundStep(k: nat, n: nat, p: nat)
    requires k <= n && p >= 1
    ensures k * p < (n + 1) * p
  {
    assert k * p <= n * p;
  }
}
