/** Steepest-ascent hill climbing over open-path tours: start from a random
    tour, move to the best of its neighbours while that is strictly
    cheaper, and count every cost evaluation. */
module HillClimbing {
  import opened Tours
  import opened Costs
  import opened Neighbourhood

  /** Shuffles `list(range(numCities))`; which rearrangement the shuffle
      yields is left open. */
  method RandomInit(numCities: nat) returns (init: seq<int>)
    ensures multiset(init) == multiset(Iota(numCities))
    ensures IsTour(init, numCities)
  {
    init := Iota(numCities);
    init :| multiset(init) == multiset(Iota(numCities));
    ShuffledIsTour(init, numCities);
  }

  /** Moving from tour `s` to tour `t` is one inversion and strictly lowers
      the cost. */
  ghost predicate ImprovingMove(table: seq<seq<nat>>, s: seq<int>, t: seq<int>)
    requires Square(table)
  {
    IsTour(s, |table|) && IsTour(t, |table|) && IsNeighbour(s, t, |table|) &&
    PathCost(table, t) < PathCost(table, s)
  }

  /** `hood[k]` is the first neighbour of least cost in `hood`, the choice
      `bestOf` makes with its strict comparison. */
  ghost predicate FirstCheapest(table: seq<seq<nat>>, hood: seq<seq<int>>, k: nat)
    requires Square(table)
  {
    k < |hood| && IsTour(hood[k], |table|) &&
    (forall x :: 0 <= x < |hood| ==>
      IsTour(hood[x], |table|) && PathCost(table, hood[k]) <= PathCost(table, hood[x])) &&
    (forall x :: 0 <= x < k ==> PathCost(table, hood[k]) < PathCost(table, hood[x]))
  }

  /** `hood` is a neighbourhood of tour `s` (|table| tours, each one
      inversion away from `s`) and `t` is its first cheapest member. */
  ghost predicate SteepestChoice(table: seq<seq<nat>>, s: seq<int>, hood: seq<seq<int>>, t: seq<int>)
    requires Square(table)
  {
    |hood| == |table| &&
    (forall x :: 0 <= x < |hood| ==> IsNeighbour(s, hood[x], |table|)) &&
    exists k: nat :: FirstCheapest(table, hood, k) && hood[k] == t
  }

  /** `path` is a climb: a chain of tours in which each next tour is an
      improving move from the one before and is the first cheapest member of
      `hoods[m]`, the neighbourhood generated from `path[m]`. */
  ghost predicate Climb(table: seq<seq<nat>>, path: seq<seq<int>>, hoods: seq<seq<seq<int>>>)
    requires Square(table)
  {
    |path| >= 1 && |path| - 1 <= |hoods| &&
    (forall m :: 0 <= m < |path| ==> IsTour(path[m], |table|)) &&
    (forall m :: 0 <= m < |path| - 1 ==>
      ImprovingMove(table, path[m], path[m + 1]) && SteepestChoice(table, path[m], hoods[m], path[m + 1]))
  }

  /** A climb extended by one more round stays a climb. */
  lemma ClimbStep(table: seq<seq<nat>>, path: seq<seq<int>>, hoods: seq<seq<seq<int>>>, t: seq<int>)
    requires Square(table) && Climb(table, path, hoods) && |hoods| == |path|
    requires ImprovingMove(table, path[|path| - 1], t)
    requires SteepestChoice(table, path[|path| - 1], hoods[|path| - 1], t)
    ensures Climb(table, path + [t], hoods)
  {
    var path' := path + [t];
    forall m | 0 <= m < |path'| - 1
      ensures ImprovingMove(table, path'[m], path'[m + 1]) && SteepestChoice(table, path'[m], hoods[m], path'[m + 1])
    {
      if m < |path| - 1 {
        assert path'[m] == path[m] && path'[m + 1] == path[m + 1];
      }
    }
  }

  /** Every neighbourhood in `hoods` was generated by `Mutants` from the tour
      of its round: `hoods[m]` from `path[m]` at the distinct pairs
      `hoodPairs[m]`. */
  predicate Generated(path: seq<seq<int>>, hoods: seq<seq<seq<int>>>, hoodPairs: seq<seq<(int, int)>>, n: nat)
  {
    |hoods| == |hoodPairs| <= |path| &&
    forall m :: 0 <= m < |hoods| ==> GeneratedFrom(path[m], hoods[m], hoodPairs[m], n)
  }

  /** Recording one more round's neighbourhood keeps `Generated`. */
  lemma GeneratedStep(path: seq<seq<int>>, hoods: seq<seq<seq<int>>>, hoodPairs: seq<seq<(int, int)>>, n: nat,
                      hood: seq<seq<int>>, pairs: seq<(int, int)>)
    requires Generated(path, hoods, hoodPairs, n) && |hoods| < |path|
    requires GeneratedFrom(path[|hoods|], hood, pairs, n)
    ensures Generated(path, hoods + [hood], hoodPairs + [pairs], n)
  {
    var hoods', hoodPairs' := hoods + [hood], hoodPairs + [pairs];
    forall m | 0 <= m < |hoods'|
      ensures GeneratedFrom(path[m], hoods'[m], hoodPairs'[m], n)
    {
      if m < |hoods| {
        assert hoods'[m] == hoods[m] && hoodPairs'[m] == hoodPairs[m];
      }
    }
  }

  /** Adopting one more tour keeps `Generated`. */
  lemma GeneratedExtend(path: seq<seq<int>>, hoods: seq<seq<seq<int>>>, hoodPairs: seq<seq<(int, int)>>, n: nat,
                        t: seq<int>)
    requires Generated(path, hoods, hoodPairs, n)
    ensures Generated(path + [t], hoods, hoodPairs, n)
  {
    forall m | 0 <= m < |hoods|
      ensures GeneratedFrom((path + [t])[m], hoods[m], hoodPairs[m], n)
    {
      assert (path + [t])[m] == path[m];
    }
  }

  /** Along a chain of improving moves each tour is cheaper than the one
      before by at least one tenth, so the chain has at most as many moves
      as its first tour's cost. */
  lemma {:induction false} ClimbBound(table: seq<seq<nat>>, path: seq<seq<int>>)
    requires Square(table) && |path| >= 1
    requires forall m :: 0 <= m < |path| - 1 ==> ImprovingMove(table, path[m], path[m + 1])
    requires IsTour(path[0], |table|) && IsTour(path[|path| - 1], |table|)
    ensures PathCost(table, path[|path| - 1]) + (|path| - 1) <= PathCost(table, path[0])
  {
    if |path| > 1 {
      var front := path[..|path| - 1];
      assert ImprovingMove(table, path[|path| - 2], path[|path| - 1]);
      forall m | 0 <= m < |front| - 1
        ensures ImprovingMove(table, front[m], front[m + 1])
      {
        assert front[m] == path[m] && front[m + 1] == path[m + 1];
      }
      ClimbBound(table, front);
    }
  }

  /** A problem instance (the number of cities and the distance table)
      together with the count of evaluations done so far. */
  class Climber {
    const numCities: nat
    const table: seq<seq<nat>>
    /** Total number of tour evaluations. */
    var numEval: nat

    /** The table has one row and one column per city. */
    predicate Valid()
    {
      |table| == numCities && Square(table)
    }

    constructor (numCities: nat, table: seq<seq<nat>>)
      requires |table| == numCities && Square(table)
      ensures Valid()
      ensures this.numCities == numCities && this.table == table && numEval == 0
    {
      this.numCities := numCities;
      this.table := table;
      numEval := 0;
    }

    /** The cost of visiting the cities in the order `current`, counted as
      one more evaluation. */
    method Evaluate(current: seq<int>) returns (cost: nat)
      requires Valid() && |current| == numCities && InRange(current, numCities)
      modifies this`numEval
      ensures numEval == old(numEval) + 1
      ensures cost == PathCost(table, current)
    {
      numEval := numEval + 1;
      cost := 0;
      var i := 0;
      while i + 1 < numCities
        invariant numCities >= 1 ==> i < numCities && cost == PathCost(table, current[..i + 1])
        invariant numCities == 0 ==> i == 0 && cost == 0
      {
        assert current[..i + 2][..i + 1] == current[..i + 1];
        cost := cost + table[current[i]][current[i + 1]];
        i := i + 1;
      }
      assert numCities >= 1 ==> current[..i + 1] == current;
    }

    /** Evaluates every neighbour once, in order, and returns the first one
        of least cost with that cost. */
    method BestOf(neighbors: seq<seq<int>>) returns (best: seq<int>, bestValue: nat, ghost index: nat)
      requires Valid() && |neighbors| >= 1
      requires forall k :: 0 <= k < |neighbors| ==>
        |neighbors[k]| == numCities && InRange(neighbors[k], numCities)
      modifies this`numEval
      ensures index < |neighbors| && best == neighbors[index]
      ensures bestValue == PathCost(table, best)
      ensures forall k :: 0 <= k < |neighbors| ==> bestValue <= PathCost(table, neighbors[k])
      ensures forall k :: 0 <= k < index ==> bestValue < PathCost(table, neighbors[k])
      ensures numEval == old(numEval) + |neighbors|
    {
      best := neighbors[0];
      bestValue := Evaluate(best);
      index := 0;
      for i := 1 to |neighbors|
        invariant index < i && best == neighbors[index]
        invariant bestValue == PathCost(table, best)
        invariant forall k :: 0 <= k < i ==> bestValue <= PathCost(table, neighbors[k])
        invariant forall k :: 0 <= k < index ==> bestValue < PathCost(table, neighbors[k])
        invariant numEval == old(numEval) + i
      {
        var newValue := Evaluate(neighbors[i]);
        if newValue < bestValue {
          best := neighbors[i];
          bestValue := newValue;
          index := i;
        }
      }
    }

    /** Climbs from a random tour until no neighbour is strictly cheaper.
        `path` is the sequence of tours adopted, starting with the random
        one; `lastNeighbors` is the neighbourhood generated in the final,
        non-improving round; `rounds` is the number of neighbourhoods
        generated; `hoods[m]` is the neighbourhood generated in round m, from
        `path[m]` at the pairwise distinct index pairs `hoodPairs[m]`. */
    method SteepestAscent() returns (current: seq<int>, valueC: nat,
                                     ghost path: seq<seq<int>>, ghost hoods: seq<seq<seq<int>>>,
                                     ghost hoodPairs: seq<seq<(int, int)>>,
                                     ghost lastNeighbors: seq<seq<int>>, ghost rounds: nat)
      requires Valid() && numCities >= 3
      modifies this`numEval
      ensures IsTour(current, numCities) && valueC == PathCost(table, current)
      ensures Climb(table, path, hoods) && path[|path| - 1] == current
      ensures rounds == |path| && |hoods| == rounds && hoods[rounds - 1] == lastNeighbors
      ensures Generated(path, hoods, hoodPairs, numCities)
      ensures IsTour(path[0], numCities) && valueC <= PathCost(table, path[0])
      ensures rounds <= PathCost(table, path[0]) + 1
      ensures |lastNeighbors| == numCities
      ensures forall k :: 0 <= k < |lastNeighbors| ==>
        IsTour(lastNeighbors[k], numCities) && IsNeighbour(current, lastNeighbors[k], numCities) &&
        valueC <= PathCost(table, lastNeighbors[k])
      ensures numEval == old(numEval) + 1 + numCities * rounds
    {
      current := RandomInit(numCities);
      valueC := Evaluate(current);
      path := [current];
      hoods := [];
      hoodPairs := [];
      lastNeighbors := [];
      rounds := 0;
      while true
        invariant IsTour(current, numCities) && valueC == PathCost(table, current)
        invariant Climb(table, path, hoods) && path[|path| - 1] == current
        invariant |hoods| == |path| - 1
        invariant Generated(path, hoods, hoodPairs, numCities)
        invariant valueC <= PathCost(table, path[0])
        invariant rounds == |path| - 1
        invariant numEval == old(numEval) + 1 + numCities * rounds
        decreases valueC
      {
        var neighbors, pairs := Mutants(current, numCities);
        MutantsAreTours(current, numCities, neighbors, pairs);
        var best, bestValue, index := BestOf(neighbors);
        assert numCities * (rounds + 1) == numCities * rounds + numCities;
        rounds := rounds + 1;
        assert GeneratedFrom(path[|hoods|], neighbors, pairs, numCities);
        GeneratedStep(path, hoods, hoodPairs, numCities, neighbors, pairs);
        hoods := hoods + [neighbors];
        hoodPairs := hoodPairs + [pairs];
        if bestValue < valueC {
          assert FirstCheapest(table, neighbors, index);
          assert SteepestChoice(table, current, neighbors, best);
          ClimbStep(table, path, hoods, best);
          GeneratedExtend(path, hoods, hoodPairs, numCities, best);
          current := best;
          valueC := bestValue;
          path := path + [current];
        } else {
          lastNeighbors := neighbors;
          break;
        }
      }
      ClimbBound(table, path);
    }
  }
}
