/** The cyclic tour cost `distance_between_cities_in_order`. The pairwise
    cost `City.distance_to` is a function parameter over an opaque item type. */
module Cost {
  import opened Outcomes

  /** Left-to-right sum, in the order the source loop accumulates. */
  function Sum(s: seq<real>): real {
    if s == [] then 0.0 else Sum(s[..|s| - 1]) + s[|s| - 1]
  }

  /** The legs of the closed tour: leg k goes from item k to the next one,
      and the last leg goes back to the first item. */
  function Legs<T>(p: seq<T>, cost: (T, T) -> real): (r: seq<real>)
    ensures |r| == |p|
  {
    seq(|p|, k requires 0 <= k < |p| => cost(p[k], if k + 1 < |p| then p[k + 1] else p[0]))
  }

  /** Reference definition of the tour cost: the sum of exactly |p| legs. */
  function TourCost<T>(p: seq<T>, cost: (T, T) -> real): real {
    Sum(Legs(p, cost))
  }

  /** Cost of the open path through p, without the closing leg. */
  function PathCost<T>(p: seq<T>, cost: (T, T) -> real): real {
    if |p| < 2 then 0.0 else PathCost(p[..|p| - 1], cost) + cost(p[|p| - 2], p[|p| - 1])
  }

  /** The pairwise cost is non-negative between any two items of p. */
  ghost predicate NonNegativeOn<T>(p: seq<T>, cost: (T, T) -> real) {
    forall a, b :: 0 <= a < |p| && 0 <= b < |p| ==> cost(p[a], p[b]) >= 0.0
  }

  /** `distance_between_cities_in_order`: adds the cost between consecutive
      items, then the closing leg from the last item to the first; an empty
      ordering fails on `p[-1]`. */
  method DistanceBetweenCitiesInOrder<T>(p: seq<T>, cost: (T, T) -> real) returns (r: Result<real>)
    ensures |p| == 0 <==> r == Err(IndexError)
    ensures |p| > 0 ==> r == Ok(TourCost(p, cost))
  {
    ghost var legs := Legs(p, cost);
    var distance := 0.0;
    var i := 1;
    while i < |p|
      invariant 1 <= i && i - 1 <= |p|
      invariant |p| > 0 ==> i <= |p|
      invariant distance == Sum(legs[..i - 1])
    {
      assert legs[..i][..i - 1] == legs[..i - 1];
      distance := distance + cost(p[i - 1], p[i]);
      i := i + 1;
    }
    if |p| == 0 {
      return Err(IndexError);
    }
    assert legs[..|p|] == legs;
    distance := distance + cost(p[|p| - 1], p[0]);
    r := Ok(distance);
  }

  lemma {:induction false} SumAppend(a: seq<real>, b: seq<real>)
    ensures Sum(a + b) == Sum(a) + Sum(b)
  {
    if b != [] {
      assert (a + b)[..|a + b| - 1] == a + b[..|b| - 1];
      SumAppend(a, b[..|b| - 1]);
    } else {
      assert a + b == a;
    }
  }

  lemma {:induction false} SumNonNegative(s: seq<real>)
    requires forall k :: 0 <= k < |s| ==> s[k] >= 0.0
    ensures Sum(s) >= 0.0
  {
    if s != [] {
      SumNonNegative(s[..|s| - 1]);
    }
  }

  /** The prefix of n - 1 legs of the tour is the open path through the
      first n items. */
  lemma {:induction false} LegsPrefixIsPath<T>(p: seq<T>, cost: (T, T) -> real, n: nat)
    requires 1 <= n <= |p|
    ensures Sum(Legs(p, cost)[..n - 1]) == PathCost(p[..n], cost)
  {
    if n > 1 {
      LegsPrefixIsPath(p, cost, n - 1);
      var legs := Legs(p, cost);
      assert legs[..n - 1][..n - 2] == legs[..n - 2];
      assert p[..n][..n - 1] == p[..n - 1];
    }
  }

  /** The tour cost is the open-path cost plus one wrap-around leg, which
      is the shape of the source loop followed by its last addition. */
  lemma TourCostIsPathPlusWrap<T>(p: seq<T>, cost: (T, T) -> real)
    requires |p| > 0
    ensures TourCost(p, cost) == PathCost(p, cost) + cost(p[|p| - 1], p[0])
  {
    var legs := Legs(p, cost);
    LegsPrefixIsPath(p, cost, |p|);
    assert p[..|p|] == p;
    assert legs[..|legs|] == legs;
  }

  /** With non-negative pairwise costs the tour cost is non-negative. */
  lemma TourCostNonNegative<T>(p: seq<T>, cost: (T, T) -> real)
    requires NonNegativeOn(p, cost)
    ensures TourCost(p, cost) >= 0.0
  {
    var legs := Legs(p, cost);
    forall k | 0 <= k < |legs| ensures legs[k] >= 0.0 {
      var next := if k + 1 < |p| then k + 1 else 0;
      assert cost(p[k], p[next]) >= 0.0;
      assert legs[k] == cost(p[k], p[next]);
    }
    SumNonNegative(legs);
  }

  /** The cost is cyclic: starting the tour at the second item instead of
      the first does not change it. */
  lemma TourCostRotation<T>(p: seq<T>, cost: (T, T) -> real)
    requires |p| > 0
    ensures TourCost(p[1..] + [p[0]], cost) == TourCost(p, cost)
  {
    var q := p[1..] + [p[0]];
    var legs := Legs(p, cost);
    var rotated := legs[1..] + [legs[0]];
    forall k | 0 <= k < |q| ensures Legs(q, cost)[k] == rotated[k] {
    }
    assert Legs(q, cost) == rotated;
    SumAppend(legs[1..], [legs[0]]);
    SumAppend([legs[0]], legs[1..]);
    assert [legs[0]] + legs[1..] == legs;
    assert Sum([legs[0]]) == legs[0] by {
      assert [legs[0]][..0] == [];
    }
  }
}
