/** The neighbourhood of a tour: one inversion per index pair, for
    `numCities` distinct pairs. */
module Neighbourhood {
  import opened Tours

  /** An index pair the generator may draw: 0 <= i < j <= n-1. */
  predicate ValidPair(p: (int, int), n: nat)
  {
    0 <= p.0 < p.1 < n
  }

  /** `t` is one inversion away from `s`. */
  ghost predicate IsNeighbour(s: seq<int>, t: seq<int>, n: nat)
  {
    |s| == n && exists i: nat, j: nat :: i < j < n && t == Inverted(s, i, j)
  }

  /** Every value of `s` except `x`. */
  function Without<T(==)>(s: seq<T>, x: T): (r: seq<T>)
    ensures |r| <= |s| && (x in s ==> |r| < |s|)
    ensures forall y :: y in s && y != x ==> y in r
  {
    if s == [] then []
    else if s[0] == x then Without(s[1..], x)
    else [s[0]] + Without(s[1..], x)
  }

  /** If there are more distinct candidates than tried values, some
      candidate has not been tried. */
  lemma {:induction false} Pigeonhole<T>(cands: seq<T>, tried: seq<T>)
    requires Distinct(cands) && |tried| < |cands|
    ensures exists c :: c in cands && c !in tried
  {
    if cands[0] !in tried {
      assert cands[0] in cands;
    } else {
      var rest := cands[1..];
      var tried' := Without(tried, cands[0]);
      Pigeonhole(rest, tried');
      var c :| c in rest && c !in tried';
      assert c != cands[0] by {
        var k :| 0 <= k < |rest| && rest[k] == c;
        assert cands[k + 1] == c;
      }
    }
  }

  /** n distinct valid pairs: (0,1), (0,2), ..., (0,n-1) and (1,2). */
  function Candidates(n: nat): (r: seq<(int, int)>)
    requires n >= 3
    ensures |r| == n && Distinct(r)
    ensures forall k :: 0 <= k < |r| ==> ValidPair(r[k], n)
  {
    seq(n - 1, k requires 0 <= k < n - 1 => (0, k + 1)) + [(1, 2)]
  }

  /** While fewer than n pairs have been tried, with n >= 3, an untried
      pair remains to be drawn. */
  lemma UntriedPairExists(tried: seq<(int, int)>, n: nat)
    requires n >= 3 && |tried| < n
    ensures exists p :: ValidPair(p, n) && p !in tried
  {
    var cands := Candidates(n);
    Pigeonhole(cands, tried);
    var c :| c in cands && c !in tried;
    assert ValidPair(c, n);
  }

  /** With two cities (0,1) is the only pair, so once it has been tried no
      draw is ever accepted and a second neighbour is never built; this is
      why the generator needs at least three cities. */
  lemma TwoCitiesOnePair(tried: seq<(int, int)>)
    requires (0, 1) in tried
    ensures !exists p :: ValidPair(p, 2) && p !in tried
  {
    forall p | ValidPair(p, 2)
      ensures p in tried
    {
      assert p == (0, 1);
    }
  }

  /** Builds `numCities` neighbours of `current`, one inversion per index
      pair, never using a pair twice. `pairs` lists the pairs in the order
      their neighbours appear. A draw of a pair already tried is rejected
      and drawn again; the model chooses directly among the untried pairs,
      which is the pair the redrawing finally accepts. */
  method Mutants(current: seq<int>, numCities: nat) returns (neighbors: seq<seq<int>>, ghost pairs: seq<(int, int)>)
    requires numCities >= 3 && |current| == numCities
    ensures |neighbors| == numCities && |pairs| == numCities
    ensures Distinct(pairs)
    ensures forall k :: 0 <= k < numCities ==>
      ValidPair(pairs[k], numCities) && neighbors[k] == Inverted(current, pairs[k].0, pairs[k].1)
  {
    neighbors := [];
    var triedPairs: seq<(int, int)> := [];
    while |neighbors| < numCities
      invariant |neighbors| == |triedPairs| <= numCities
      invariant Distinct(triedPairs)
      invariant forall k :: 0 <= k < |triedPairs| ==>
        ValidPair(triedPairs[k], numCities) && neighbors[k] == Inverted(current, triedPairs[k].0, triedPairs[k].1)
      decreases numCities - |neighbors|
    {
      UntriedPairExists(triedPairs, numCities);
      var i: int, j: int :| ValidPair((i, j), numCities) && (i, j) !in triedPairs;
      triedPairs := triedPairs + [(i, j)];
      var neighbor := Inversion(current, i, j);
      neighbors := neighbors + [neighbor];
    }
    pairs := triedPairs;
  }

  /** `hood` is what `Mutants` builds from tour `s`: n neighbours, neighbour k
      the inversion of `s` at the k-th of n pairwise distinct valid pairs. */
  predicate GeneratedFrom(s: seq<int>, hood: seq<seq<int>>, pairs: seq<(int, int)>, n: nat)
  {
    |s| == n && |hood| == n && |pairs| == n && Distinct(pairs) &&
    forall k :: 0 <= k < n ==>
      ValidPair(pairs[k], n) && hood[k] == Inverted(s, pairs[k].0, pairs[k].1)
  }

  /** Every neighbour of a tour is a tour and one inversion away from it. */
  lemma MutantsAreTours(current: seq<int>, numCities: nat, neighbors: seq<seq<int>>, pairs: seq<(int, int)>)
    requires IsTour(current, numCities)
    requires |neighbors| == |pairs|
    requires forall k :: 0 <= k < |pairs| ==>
      ValidPair(pairs[k], numCities) && neighbors[k] == Inverted(current, pairs[k].0, pairs[k].1)
    ensures forall k :: 0 <= k < |neighbors| ==>
      IsTour(neighbors[k], numCities) && IsNeighbour(current, neighbors[k], numCities)
  {
    forall k | 0 <= k < |neighbors|
      ensures IsTour(neighbors[k], numCities) && IsNeighbour(current, neighbors[k], numCities)
    {
      var p := pairs[k];
      InvertedIsTour(current, numCities, p.0, p.1);
    }
  }
}
