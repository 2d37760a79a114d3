/** The open-path cost of a tour over a distance table. Distances are
    kept in tenths of a unit, so every entry is a natural number. */
module Costs {
  import opened Tours

  /** `table` is an |table| x |table| matrix. */
  predicate Square(table: seq<seq<nat>>)
  {
    forall r :: 0 <= r < |table| ==> |table[r]| == |table|
  }

  /** The distance from city a to city b is the distance from b to a. */
  predicate Symmetric(table: seq<seq<nat>>)
    requires Square(table)
  {
    forall a, b :: 0 <= a < |table| && 0 <= b < |table| ==> table[a][b] == table[b][a]
  }

  /** Sum of the distances between consecutive cities of `t`; there is no
      edge back from the last city to the first. */
  function PathCost(table: seq<seq<nat>>, t: seq<int>): nat
    requires Square(table) && InRange(t, |table|)
  {
    if |t| < 2 then 0
    else PathCost(table, t[..|t| - 1]) + table[t[|t| - 2]][t[|t| - 1]]
  }

  /** The distance from the last city of `a` to the first city of `b`,
      or 0 when either is empty. */
  function Link(table: seq<seq<nat>>, a: seq<int>, b: seq<int>): nat
    requires Square(table) && InRange(a, |table|) && InRange(b, |table|)
  {
    if a == [] || b == [] then 0 else table[a[|a| - 1]][b[0]]
  }

  /** The cost of a concatenation is the two costs plus the joining edge. */
  lemma {:induction false} PathCostAppend(table: seq<seq<nat>>, a: seq<int>, b: seq<int>)
    requires Square(table) && InRange(a, |table|) && InRange(b, |table|)
    ensures PathCost(table, a + b) == PathCost(table, a) + Link(table, a, b) + PathCost(table, b)
    decreases |b|
  {
    if a == [] {
      assert a + b == b;
    } else if b == [] {
      assert a + b == a;
    } else if |b| == 1 {
      assert (a + b)[..|a + b| - 1] == a;
    } else {
      var b' := b[..|b| - 1];
      assert (a + b)[..|a + b| - 1] == a + b';
      PathCostAppend(table, a, b');
    }
  }

  /** With a symmetric table, a tour and its reverse cost the same. */
  lemma {:induction false} PathCostReversed(table: seq<seq<nat>>, t: seq<int>)
    requires Square(table) && Symmetric(table) && InRange(t, |table|)
    ensures InRange(Reversed(t), |table|)
    ensures PathCost(table, Reversed(t)) == PathCost(table, t)
  {
    ReversedInRange(t, |table|);
    if |t| >= 2 {
      var rest := t[1..];
      ReversedInRange(rest, |table|);
      PathCostReversed(table, rest);
      PathCostAppend(table, Reversed(rest), [t[0]]);
      ReversedAt(rest, |rest| - 1);
      PathCostAppend(table, [t[0]], rest);
      assert [t[0]] + rest == t;
    }
  }

  /** With a symmetric table, reversing the middle part `m` of a + m + b
      changes the cost only in the two edges that join `m` to `a` and `b`. */
  lemma SegmentReversedCost(table: seq<seq<nat>>, a: seq<int>, m: seq<int>, b: seq<int>)
    requires Square(table) && Symmetric(table)
    requires InRange(a, |table|) && InRange(m, |table|) && InRange(b, |table|)
    ensures InRange(Reversed(m), |table|)
    ensures PathCost(table, a + Reversed(m) + b) + Link(table, a, m) + Link(table, m, b)
         == PathCost(table, a + m + b) + Link(table, a, Reversed(m)) + Link(table, Reversed(m), b)
  {
    var n := |table|;
    var r := Reversed(m);
    ReversedInRange(m, n);
    assert InRange(a + r, n) && InRange(a + m, n);
    PathCostReversed(table, m);
    PathCostAppend(table, a, m);
    PathCostAppend(table, a + m, b);
    PathCostAppend(table, a, r);
    PathCostAppend(table, a + r, b);
    if m != [] {
      assert Link(table, a + m, b) == Link(table, m, b);
      assert Link(table, a + r, b) == Link(table, r, b);
    } else {
      assert r == [];
    }
  }

  /** With a symmetric table, inverting the segment i .. j changes the cost
      only in the two edges at the ends of the segment: the edge into t[i]
      becomes an edge into t[j], and the edge out of t[j] becomes an edge out
      of t[i]. */
  lemma InvertedCost(table: seq<seq<nat>>, t: seq<int>, i: nat, j: nat)
    requires Square(table) && Symmetric(table) && InRange(t, |table|)
    requires i <= j < |t|
    ensures InRange(Inverted(t, i, j), |table|)
    ensures PathCost(table, Inverted(t, i, j))
      == PathCost(table, t)
       - (if 0 < i then table[t[i - 1]][t[i]] else 0)
       - (if j + 1 < |t| then table[t[j]][t[j + 1]] else 0)
       + (if 0 < i then table[t[i - 1]][t[j]] else 0)
       + (if j + 1 < |t| then table[t[i]][t[j + 1]] else 0)
  {
    var a, m, b := t[..i], t[i..j + 1], t[j + 1..];
    assert t == a + m + b;
    SegmentReversedCost(table, a, m, b);
    InvertedLinks(table, t, i, j);
  }

  /** The parts of t around the segment i .. j, and the edges joining them. */
  lemma InvertedLinks(table: seq<seq<nat>>, t: seq<int>, i: nat, j: nat)
    requires Square(table) && InRange(t, |table|)
    requires i <= j < |t|
    ensures InRange(t[..i], |table|) && InRange(t[i..j + 1], |table|) && InRange(t[j + 1..], |table|)
    ensures InRange(Reversed(t[i..j + 1]), |table|)
    ensures InRange(Inverted(t, i, j), |table|)
    ensures Link(table, t[..i], t[i..j + 1]) == (if 0 < i then table[t[i - 1]][t[i]] else 0)
    ensures Link(table, t[..i], Reversed(t[i..j + 1])) == (if 0 < i then table[t[i - 1]][t[j]] else 0)
    ensures Link(table, t[i..j + 1], t[j + 1..]) == (if j + 1 < |t| then table[t[j]][t[j + 1]] else 0)
    ensures Link(table, Reversed(t[i..j + 1]), t[j + 1..]) == (if j + 1 < |t| then table[t[i]][t[j + 1]] else 0)
  {
    var n := |table|;
    var a, m, b := t[..i], t[i..j + 1], t[j + 1..];
    var r := Reversed(m);
    ReversedInRange(m, n);
    InRangeAppend(a, r, n);
    InRangeAppend(a + r, b, n);
    assert Inverted(t, i, j) == a + r + b;
    ReversedAt(m, 0);
    ReversedAt(m, |m| - 1);
  }
}
