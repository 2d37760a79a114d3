/** Tours (visiting orders of city indices) and the inversion move that
    reverses one segment of a tour. */
module Tours {

  /** Every entry of `t` names one of the `n` cities. */
  predicate InRange(t: seq<int>, n: nat)
  {
    forall k :: 0 <= k < |t| ==> 0 <= t[k] < n
  }

  /** No value occurs twice in `s`. */
  predicate Distinct<T(==)>(s: seq<T>)
  {
    forall a, b :: 0 <= a < b < |s| ==> s[a] != s[b]
  }

  lemma InRangeAppend(a: seq<int>, b: seq<int>, n: nat)
    requires InRange(a, n) && InRange(b, n)
    ensures InRange(a + b, n)
  {
  }

  /** `t` visits each of the cities 0 .. n-1 exactly once. */
  predicate IsTour(t: seq<int>, n: nat)
  {
    |t| == n && InRange(t, n) && Distinct(t)
  }

  /** The tour 0, 1, ..., n-1 (`list(range(n))`). */
  function Iota(n: nat): (r: seq<int>)
    ensures IsTour(r, n)
  {
    seq(n, k requires 0 <= k < n => k)
  }

  /** A value occurs at most once in a sequence without repeats. */
  lemma {:induction false} DistinctCount<T>(s: seq<T>, x: T)
    requires Distinct(s)
    ensures multiset(s)[x] <= 1
  {
    if s != [] {
      var rest := s[1..];
      assert Distinct(rest) by {
        forall a, b | 0 <= a < b < |rest| ensures rest[a] != rest[b] {
          assert rest[a] == s[a + 1] && rest[b] == s[b + 1];
        }
      }
      DistinctCount(rest, x);
      assert s == [s[0]] + rest;
    }
  }

  /** A value found at two positions occurs at least twice. */
  lemma RepeatCount<T>(s: seq<T>, a: nat, b: nat)
    requires a < b < |s| && s[a] == s[b]
    ensures multiset(s)[s[a]] >= 2
  {
    assert s == s[..a] + [s[a]] + s[a + 1..b] + [s[b]] + s[b + 1..];
  }

  /** Any rearrangement of 0 .. n-1 (what shuffling `list(range(n))`
      yields) is a tour. */
  lemma ShuffledIsTour(t: seq<int>, n: nat)
    requires multiset(t) == multiset(Iota(n))
    ensures IsTour(t, n)
  {
    var iota := Iota(n);
    assert |t| == |multiset(t)| == |multiset(iota)| == n;
    forall k | 0 <= k < |t|
      ensures 0 <= t[k] < n
    {
      assert t[k] in multiset(t);
      assert t[k] in iota;
    }
    forall a, b | 0 <= a < b < |t|
      ensures t[a] != t[b]
    {
      if t[a] == t[b] {
        RepeatCount(t, a, b);
        DistinctCount(iota, t[a]);
      }
    }
  }

  /** `s` read backwards. */
  function Reversed(s: seq<int>): (r: seq<int>)
    ensures |r| == |s|
  {
    if s == [] then [] else Reversed(s[1..]) + [s[0]]
  }

  lemma {:induction false} ReversedAt(s: seq<int>, k: nat)
    requires k < |s|
    ensures Reversed(s)[k] == s[|s| - 1 - k]
  {
    if k < |s| - 1 {
      ReversedAt(s[1..], k);
    }
  }

  lemma {:induction false} ReversedMultiset(s: seq<int>)
    ensures multiset(Reversed(s)) == multiset(s)
  {
    if s != [] {
      ReversedMultiset(s[1..]);
      assert s == [s[0]] + s[1..];
    }
  }

  lemma ReversedInRange(s: seq<int>, n: nat)
    requires InRange(s, n)
    ensures InRange(Reversed(s), n)
  {
    forall k | 0 <= k < |s|
      ensures 0 <= Reversed(s)[k] < n
    {
      ReversedAt(s, k);
    }
  }

  /** The tour `s` with its segment from index `i` to index `j` (both
      inclusive) reversed and every other position left as it was. */
  function Inverted(s: seq<int>, i: nat, j: nat): (r: seq<int>)
    requires i <= j < |s|
    ensures |r| == |s|
  {
    s[..i] + Reversed(s[i..j + 1]) + s[j + 1..]
  }

  /** Position `k` of the inverted tour holds `s[i + j - k]` inside the
      segment and `s[k]` outside it. */
  lemma InvertedAt(s: seq<int>, i: nat, j: nat)
    requires i <= j < |s|
    ensures |Inverted(s, i, j)| == |s|
    ensures forall k :: 0 <= k < |s| ==>
      Inverted(s, i, j)[k] == if i <= k <= j then s[i + j - k] else s[k]
  {
    var r := Inverted(s, i, j);
    var mid := s[i..j + 1];
    forall k | 0 <= k < |s|
      ensures r[k] == if i <= k <= j then s[i + j - k] else s[k]
    {
      if i <= k <= j {
        ReversedAt(mid, k - i);
      }
    }
  }

  /** Inversion only rearranges the cities of a tour. */
  lemma InvertedMultiset(s: seq<int>, i: nat, j: nat)
    requires i <= j < |s|
    ensures multiset(Inverted(s, i, j)) == multiset(s)
  {
    ReversedMultiset(s[i..j + 1]);
    assert s == s[..i] + s[i..j + 1] + s[j + 1..];
  }

  /** Inversion maps a permutation of 0 .. n-1 to a permutation of 0 .. n-1. */
  lemma InvertedIsTour(s: seq<int>, n: nat, i: nat, j: nat)
    requires IsTour(s, n) && i <= j < n
    ensures IsTour(Inverted(s, i, j), n)
  {
    InvertedAt(s, i, j);
    var r := Inverted(s, i, j);
    forall k | 0 <= k < n
      ensures 0 <= r[k] < n
    {
      var k' := if i <= k <= j then i + j - k else k;
      assert r[k] == s[k'];
    }
    forall a, b | 0 <= a < b < n
      ensures r[a] != r[b]
    {
      var a' := if i <= a <= j then i + j - a else a;
      var b' := if i <= b <= j then i + j - b else b;
      assert a' != b';
      if a' < b' { assert s[a'] != s[b']; } else { assert s[b'] != s[a']; }
    }
  }

  /** Applying the same inversion twice gives the tour back. */
  lemma InvertedInvolution(s: seq<int>, i: nat, j: nat)
    requires i <= j < |s|
    ensures Inverted(Inverted(s, i, j), i, j) == s
  {
    var r := Inverted(s, i, j);
    InvertedAt(s, i, j);
    InvertedAt(r, i, j);
    var rr := Inverted(r, i, j);
    forall k | 0 <= k < |s|
      ensures rr[k] == s[k]
    {
      if i <= k <= j {
        assert rr[k] == r[i + j - k];
      }
    }
  }

  /** Copies `current` and reverses the slice of the copy from index `i` to
      index `j` inclusive in place. The in-place reversal of the slice is
      written as swaps from both ends of the segment inwards. */
  method Inversion(current: seq<int>, i: nat, j: nat) returns (r: seq<int>)
    requires i <= j < |current|
    ensures r == Inverted(current, i, j)
  {
    var curCopy := new int[|current|](k requires 0 <= k < |current| => current[k]);
    var lo, hi := i, j;
    while lo < hi
      invariant i <= lo && hi <= j && lo - i == j - hi
      invariant lo <= hi + 1
      invariant forall k :: 0 <= k < curCopy.Length && !(i <= k <= j) ==> curCopy[k] == current[k]
      invariant forall k :: lo <= k <= hi ==> curCopy[k] == current[k]
      invariant forall k :: i <= k < lo || hi < k <= j ==> curCopy[k] == current[i + j - k]
      decreases hi - lo
    {
      curCopy[lo], curCopy[hi] := curCopy[hi], curCopy[lo];
      lo, hi := lo + 1, hi - 1;
    }
    r := curCopy[..];
    InvertedAt(current, i, j);
  }
}
