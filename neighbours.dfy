/** The three perturbation operators of the annealing engine: segment
    reversal, segment rotation by one, and pairwise swap. Each takes an
    ordering and two positions and builds a new ordering. */
module Neighbours {

  /** The smaller of the two positions, as `(i, j) if i < j else (j, i)` picks it. */
  function Lo(i: nat, j: nat): nat { if i < j then i else j }

  /** The larger of the two positions. */
  function Hi(i: nat, j: nat): nat { if i < j then j else i }

  /** `inverse_neighbour`: position t of the closed block [lo, hi] takes the
      item at lo + hi - t; every other position keeps its item. */
  function InverseNeighbour<T>(p: seq<T>, i: nat, j: nat): (r: seq<T>)
    requires i < |p| && j < |p|
    ensures |r| == |p|
  {
    var lo, hi := Lo(i, j), Hi(i, j);
    seq(|p|, t requires 0 <= t < |p| => if lo <= t <= hi then p[lo + hi - t] else p[t])
  }

  /** `insert_neighbour`: position lo takes the item at hi, positions
      lo < t <= hi take the item at t - 1; every other position keeps its item. */
  function InsertNeighbour<T>(p: seq<T>, i: nat, j: nat): (r: seq<T>)
    requires i < |p| && j < |p|
    ensures |r| == |p|
  {
    var lo, hi := Lo(i, j), Hi(i, j);
    seq(|p|, t requires 0 <= t < |p| =>
      if lo <= t <= hi then p[if t == lo then hi else t - 1] else p[t])
  }

  /** The ordering `swap_neighbour` builds: the items at i and j exchanged. */
  function Swapped<T>(p: seq<T>, i: nat, j: nat): (r: seq<T>)
    requires i < |p| && j < |p|
    ensures |r| == |p|
  {
    seq(|p|, t requires 0 <= t < |p| => if t == i then p[j] else if t == j then p[i] else p[t])
  }

  /** `swap_neighbour`: copies the ordering into a fresh buffer, then assigns
      the two positions; the input is a value and stays as it was. */
  method SwapNeighbour<T>(p: seq<T>, i: nat, j: nat) returns (r: seq<T>)
    requires i < |p| && j < |p|
    ensures |r| == |p| && r[i] == p[j] && r[j] == p[i]
    ensures forall t :: 0 <= t < |p| && t != i && t != j ==> r[t] == p[t]
    ensures r == Swapped(p, i, j)
  {
    var swap := new T[|p|](t requires 0 <= t < |p| => p[t]);
    swap[i] := p[j];
    swap[j] := p[i];
    r := swap[..];
  }

  /** The items of s in the opposite order. */
  function Reverse<T>(s: seq<T>): (r: seq<T>)
    ensures |r| == |s|
  {
    if s == [] then [] else [s[|s| - 1]] + Reverse(s[..|s| - 1])
  }

  lemma {:induction false} ReverseAt<T>(s: seq<T>, t: nat)
    requires t < |s|
    ensures Reverse(s)[t] == s[|s| - 1 - t]
  {
    if t > 0 {
      ReverseAt(s[..|s| - 1], t - 1);
    }
  }

  lemma {:induction false} ReversePreservesItems<T>(s: seq<T>)
    ensures multiset(Reverse(s)) == multiset(s)
  {
    if s != [] {
      ReversePreservesItems(s[..|s| - 1]);
      assert s == s[..|s| - 1] + [s[|s| - 1]];
    }
  }

  /** The 2-opt reading of `inverse_neighbour`: the prefix before lo and the
      suffix after hi are kept, and the block [lo, hi] is reversed. */
  lemma InverseIsBlockReversal<T>(p: seq<T>, i: nat, j: nat)
    requires i < |p| && j < |p|
    ensures InverseNeighbour(p, i, j)
         == p[..Lo(i, j)] + Reverse(p[Lo(i, j)..Hi(i, j) + 1]) + p[Hi(i, j) + 1..]
  {
    var lo, hi := Lo(i, j), Hi(i, j);
    var block := p[lo..hi + 1];
    var rhs := p[..lo] + Reverse(block) + p[hi + 1..];
    forall t | 0 <= t < |p| ensures InverseNeighbour(p, i, j)[t] == rhs[t] {
      if lo <= t <= hi {
        ReverseAt(block, t - lo);
      }
    }
  }

  /** The rotation reading of `insert_neighbour`: the item at hi moves to lo
      and the items from lo to hi - 1 move one place up. */
  lemma InsertIsBlockRotation<T>(p: seq<T>, i: nat, j: nat)
    requires i < |p| && j < |p|
    ensures InsertNeighbour(p, i, j)
         == p[..Lo(i, j)] + [p[Hi(i, j)]] + p[Lo(i, j)..Hi(i, j)] + p[Hi(i, j) + 1..]
  {
  }

  lemma InversePreservesItems<T>(p: seq<T>, i: nat, j: nat)
    requires i < |p| && j < |p|
    ensures multiset(InverseNeighbour(p, i, j)) == multiset(p)
  {
    var lo, hi := Lo(i, j), Hi(i, j);
    InverseIsBlockReversal(p, i, j);
    ReversePreservesItems(p[lo..hi + 1]);
    assert p == p[..lo] + p[lo..hi + 1] + p[hi + 1..];
  }

  lemma InsertPreservesItems<T>(p: seq<T>, i: nat, j: nat)
    requires i < |p| && j < |p|
    ensures multiset(InsertNeighbour(p, i, j)) == multiset(p)
  {
    var lo, hi := Lo(i, j), Hi(i, j);
    InsertIsBlockRotation(p, i, j);
    assert p == p[..lo] + p[lo..hi] + [p[hi]] + p[hi + 1..];
  }

  lemma SwapPreservesItems<T>(p: seq<T>, i: nat, j: nat)
    requires i < |p| && j < |p|
    ensures multiset(Swapped(p, i, j)) == multiset(p)
  {
    assert Swapped(p, i, j) == p[i := p[j]][j := p[i]];
  }

  /** Positions are unordered: the operator's result does not depend on
      which of the two sampled positions comes first. */
  lemma InverseSymmetric<T>(p: seq<T>, i: nat, j: nat)
    requires i < |p| && j < |p|
    ensures InverseNeighbour(p, i, j) == InverseNeighbour(p, j, i)
  {
  }

  lemma InsertSymmetric<T>(p: seq<T>, i: nat, j: nat)
    requires i < |p| && j < |p|
    ensures InsertNeighbour(p, i, j) == InsertNeighbour(p, j, i)
  {
  }

  lemma SwapSymmetric<T>(p: seq<T>, i: nat, j: nat)
    requires i < |p| && j < |p|
    ensures Swapped(p, i, j) == Swapped(p, j, i)
  {
  }

  /** Reversing the same block twice restores the ordering. */
  lemma InverseInvolution<T>(p: seq<T>, i: nat, j: nat)
    requires i < |p| && j < |p|
    ensures InverseNeighbour(InverseNeighbour(p, i, j), i, j) == p
  {
  }

  /** Swapping the same two positions twice restores the ordering. */
  lemma SwapInvolution<T>(p: seq<T>, i: nat, j: nat)
    requires i < |p| && j < |p|
    ensures Swapped(Swapped(p, i, j), i, j) == p
  {
  }

  /** No item occurs twice, as in an ordering of distinct cities. */
  ghost predicate Distinct<T>(p: seq<T>) {
    forall a, b :: 0 <= a < b < |p| ==> p[a] != p[b]
  }

  /** On an ordering of distinct items and two distinct positions, every
      operator really moves something. */
  lemma NeighboursDiffer<T>(p: seq<T>, i: nat, j: nat)
    requires i < |p| && j < |p| && i != j && Distinct(p)
    ensures InverseNeighbour(p, i, j) != p
    ensures InsertNeighbour(p, i, j) != p
    ensures Swapped(p, i, j) != p
  {
    var lo, hi := Lo(i, j), Hi(i, j);
    assert p[lo] != p[hi];
    assert InverseNeighbour(p, i, j)[lo] == p[hi];
    assert InsertNeighbour(p, i, j)[lo] == p[hi];
    assert Swapped(p, i, j)[i] == p[j] && p[i] != p[j];
  }
}
