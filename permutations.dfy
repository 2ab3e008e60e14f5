/** Index sequences, permutations of [0, n), and the counting facts about them. */
module Permutations {

  /** The sequence 0, 1, ..., n - 1. */
  function Iota(n: nat): (s: seq<int>)
    ensures |s| == n
    ensures forall i :: 0 <= i < n ==> s[i] == i
  {
    seq(n, i => i)
  }

  /** The integers 0 .. n - 1 as a set. */
  function Range(n: nat): (r: set<int>)
    ensures forall v :: v in r <==> 0 <= v < n
  {
    if n == 0 then {} else Range(n - 1) + {n - 1}
  }

  predicate Distinct(s: seq<int>) {
    forall i, j :: 0 <= i < j < |s| ==> s[i] != s[j]
  }

  predicate InRange(s: seq<int>, n: int) {
    forall i :: 0 <= i < |s| ==> 0 <= s[i] < n
  }

  /** `s` lists every value of [0, n) exactly once. */
  predicate IsPermutation(s: seq<int>, n: nat) {
    |s| == n && InRange(s, n) && Distinct(s)
  }

  function Elems(s: seq<int>): set<int> {
    set x | x in s
  }

  lemma {:induction false} RangeCard(n: nat)
    ensures |Range(n)| == n
  {
    if n > 0 {
      RangeCard(n - 1);
    }
  }

  lemma {:induction false} DistinctElemsCard(s: seq<int>)
    requires Distinct(s)
    ensures |Elems(s)| == |s|
  {
    if s == [] {
      assert Elems(s) == {};
    } else {
      var t := s[..|s| - 1];
      var last := s[|s| - 1];
      assert Distinct(t);
      DistinctElemsCard(t);
      assert s == t + [last];
      assert Elems(s) == Elems(t) + {last};
      assert last !in Elems(t);
    }
  }

  lemma SubsetCard(a: set<int>, b: set<int>)
    requires a <= b
    ensures |a| <= |b|
  {
    assert b == a + (b - a);
  }

  lemma SubsetSameCardEqual(a: set<int>, b: set<int>)
    requires a <= b && |a| == |b|
    ensures a == b
  {
    assert b == a + (b - a);
    assert |b - a| == 0;
  }

  /** Pigeonhole: a permutation of [0, n) hits every value of [0, n). */
  lemma PermutationCovers(s: seq<int>, n: nat)
    requires IsPermutation(s, n)
    ensures forall v :: 0 <= v < n ==> v in s
  {
    DistinctElemsCard(s);
    RangeCard(n);
    assert Elems(s) <= Range(n);
    SubsetSameCardEqual(Elems(s), Range(n));
    forall v | 0 <= v < n ensures v in s {
      assert v in Range(n);
    }
  }

  /** A duplicate-free sequence of values in [0, n) has at most n elements. */
  lemma DistinctInRangeLength(s: seq<int>, n: nat)
    requires InRange(s, n) && Distinct(s)
    ensures |s| <= n
  {
    DistinctElemsCard(s);
    RangeCard(n);
    assert Elems(s) <= Range(n);
    SubsetCard(Elems(s), Range(n));
  }

  /** Fewer than n values cannot exhaust [0, n). */
  lemma FreeValueExists(taken: set<int>, n: nat)
    requires |taken| < n
    ensures exists t :: 0 <= t < n && t !in taken
  {
    if forall t :: 0 <= t < n ==> t in taken {
      assert Range(n) <= taken;
      SubsetCard(Range(n), taken);
      RangeCard(n);
      assert false;
    }
  }

  /** A sequence is duplicate-free exactly when no value occurs twice in its multiset. */
  lemma {:induction false} DistinctMultiplicity(s: seq<int>)
    ensures Distinct(s) <==> forall v :: multiset(s)[v] <= 1
  {
    if s != [] {
      var t := s[1..];
      DistinctMultiplicity(t);
      assert s == [s[0]] + t;
      assert multiset(s) == multiset{s[0]} + multiset(t);
      if Distinct(s) {
        assert Distinct(t);
        assert s[0] !in t;
      } else {
        var i, j :| 0 <= i < j < |s| && s[i] == s[j];
        if i == 0 {
          assert t[j - 1] == s[0];
          assert multiset(s)[s[0]] >= 2;
        } else {
          assert t[i - 1] == t[j - 1];
          assert !Distinct(t);
          var v :| multiset(t)[v] > 1;
          assert multiset(s)[v] > 1;
        }
      }
    }
  }

  /** Permutations of [0, n) are exactly the arrangements of Iota(n). */
  lemma PermutationMultiset(s: seq<int>, n: nat)
    ensures IsPermutation(s, n) <==> multiset(s) == multiset(Iota(n))
  {
    var io := Iota(n);
    DistinctMultiplicity(io);
    DistinctMultiplicity(s);
    if IsPermutation(s, n) {
      PermutationCovers(s, n);
      forall v ensures multiset(s)[v] == multiset(io)[v] {
        if 0 <= v < n {
          assert io[v] == v;
          assert v in io && v in s;
          assert v in multiset(io) && v in multiset(s);
          assert multiset(s)[v] == 1 && multiset(io)[v] == 1;
        } else {
          assert v !in s;
          assert v !in io;
        }
      }
    }
    if multiset(s) == multiset(io) {
      assert |s| == |multiset(s)| == |multiset(io)| == n;
      forall i | 0 <= i < |s| ensures 0 <= s[i] < n {
        assert s[i] in multiset(s);
        assert s[i] in multiset(io);
      }
    }
  }
}
