/** `greedy_hybrid_neighbour`: builds the three neighbours of one shared pair
    of positions and keeps the first one of strictly smallest energy. The
    pair that `random.sample` draws is a parameter. */
module Selector {
  import opened Neighbours

  /** The running minimum's starting value, `1e12`. */
  const Sentinel: real := 1000000000000.0

  /** The candidates in the order the selector visits them. */
  function Candidates<T>(p: seq<T>, i: nat, j: nat): (c: seq<seq<T>>)
    requires i < |p| && j < |p|
    ensures |c| == 3
  {
    [InverseNeighbour(p, i, j), InsertNeighbour(p, i, j), Swapped(p, i, j)]
  }

  method GreedyHybridNeighbour<T>(p: seq<T>, energy: seq<T> -> real, i: nat, j: nat)
    returns (best: seq<T>, minEnergy: real)
    requires i < |p| && j < |p| && i != j
    // the result is one of the three candidates, hence a permutation of p
    ensures best in Candidates(p, i, j)
    ensures multiset(best) == multiset(p)
    // on distinct items the result always differs from the input
    ensures Distinct(p) ==> best != p
    // the reported energy is a lower bound of every candidate's energy and of the sentinel
    ensures minEnergy <= Sentinel
    ensures forall k :: 0 <= k < 3 ==> minEnergy <= energy(Candidates(p, i, j)[k])
    // below the sentinel it is the energy of the first candidate that attains it
    ensures minEnergy < Sentinel ==>
      exists k :: 0 <= k < 3 && best == Candidates(p, i, j)[k] && minEnergy == energy(best) &&
        forall m :: 0 <= m < k ==> energy(Candidates(p, i, j)[m]) > minEnergy
    // no candidate below the sentinel: the first candidate is returned with the sentinel
    ensures minEnergy == Sentinel ==> best == InverseNeighbour(p, i, j)
  {
    var inverse := InverseNeighbour(p, i, j);
    var insert := InsertNeighbour(p, i, j);
    var swap := SwapNeighbour(p, i, j);
    var neighbours := [inverse, insert, swap];
    assert neighbours == Candidates(p, i, j);
    var minIdx := 0;
    minEnergy := Sentinel;
    for k := 0 to |neighbours|
      invariant 0 <= minIdx < 3
      invariant minEnergy <= Sentinel
      invariant forall m :: 0 <= m < k ==> minEnergy <= energy(neighbours[m])
      invariant minEnergy < Sentinel ==>
        minIdx < k && minEnergy == energy(neighbours[minIdx]) &&
        forall m :: 0 <= m < minIdx ==> energy(neighbours[m]) > minEnergy
      invariant minEnergy == Sentinel ==> minIdx == 0
    {
      var e := energy(neighbours[k]);
      if e < minEnergy {
        minIdx := k;
        minEnergy := e;
      }
    }
    best := neighbours[minIdx];
    InversePreservesItems(p, i, j);
    InsertPreservesItems(p, i, j);
    SwapPreservesItems(p, i, j);
    if Distinct(p) {
      NeighboursDiffer(p, i, j);
    }
  }
}
