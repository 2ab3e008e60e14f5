/** Index sorting as numpy's `lexsort` and `argsort` provide it to the assignment engine:
    the indices 0 .. n - 1 arranged so that their keys ascend lexicographically, equal
    keys keeping index order. */
module Sorting {
  import opened Permutations

  /** A sort key, compared lexicographically (primary component first). */
  type Key = seq<real>

  /** Strict lexicographic order on keys of equal length. */
  predicate LexLess(a: Key, b: Key)
    decreases |a|
  {
    |a| > 0 && |b| > 0 && (a[0] < b[0] || (a[0] == b[0] && LexLess(a[1..], b[1..])))
  }

  lemma {:induction false} LexAsymmetric(a: Key, b: Key)
    ensures LexLess(a, b) ==> !LexLess(b, a)
    decreases |a|
  {
    if |a| > 0 && |b| > 0 && a[0] == b[0] {
      LexAsymmetric(a[1..], b[1..]);
    }
  }

  lemma {:induction false} LexTransitive(a: Key, b: Key, c: Key)
    requires LexLess(a, b) && LexLess(b, c)
    ensures LexLess(a, c)
    decreases |a|
  {
    if a[0] == b[0] && b[0] == c[0] {
      LexTransitive(a[1..], b[1..], c[1..]);
    }
  }

  lemma {:induction false} LexTotal(a: Key, b: Key)
    requires |a| == |b| && a != b
    ensures LexLess(a, b) || LexLess(b, a)
    decreases |a|
  {
    if a[0] == b[0] {
      assert a == [a[0]] + a[1..] && b == [b[0]] + b[1..];
      LexTotal(a[1..], b[1..]);
    }
  }

  /** All keys have `width` components. */
  predicate Uniform(keys: seq<Key>, width: nat) {
    forall i :: 0 <= i < |keys| ==> |keys[i]| == width
  }

  /** The stable sort order: index i comes before j when its key is smaller, or when
      the keys are equal and i < j. */
  predicate Before(keys: seq<Key>, i: int, j: int)
    requires 0 <= i < |keys| && 0 <= j < |keys|
  {
    LexLess(keys[i], keys[j]) || (keys[i] == keys[j] && i < j)
  }

  /** Before is a strict total order on the indices of uniform keys. */
  lemma BeforeOrder(keys: seq<Key>, width: nat, i: int, j: int, k: int)
    requires Uniform(keys, width)
    requires 0 <= i < |keys| && 0 <= j < |keys| && 0 <= k < |keys|
    ensures !Before(keys, i, i)
    ensures Before(keys, i, j) ==> !Before(keys, j, i)
    ensures Before(keys, i, j) && Before(keys, j, k) ==> Before(keys, i, k)
    ensures i != j ==> Before(keys, i, j) || Before(keys, j, i)
  {
    LexAsymmetric(keys[i], keys[i]);
    LexAsymmetric(keys[i], keys[j]);
    if LexLess(keys[i], keys[j]) && LexLess(keys[j], keys[k]) {
      LexTransitive(keys[i], keys[j], keys[k]);
    }
    if keys[i] != keys[j] {
      LexTotal(keys[i], keys[j]);
    }
  }

  /** `s` lists indices of `keys` in ascending Before order. */
  predicate Sorted(keys: seq<Key>, s: seq<int>) {
    InRange(s, |keys|) && forall a, b :: 0 <= a < b < |s| ==> Before(keys, s[a], s[b])
  }

  /** Inserts index i into the sorted sequence s at its place. */
  function Insert(keys: seq<Key>, width: nat, i: int, s: seq<int>): (r: seq<int>)
    requires Uniform(keys, width) && 0 <= i < |keys| && Sorted(keys, s) && i !in s
    ensures multiset(r) == multiset(s) + multiset{i}
    ensures Sorted(keys, r)
  {
    if s == [] then [i]
    else if Before(keys, i, s[0]) then
      InsertedFirst(keys, width, i, s);
      ConsSorted(keys, i, s);
      [i] + s
    else
      var rest := s[1..];
      BeforeOrder(keys, width, i, s[0], i);
      SortedTail(keys, s);
      var tail := Insert(keys, width, i, rest);
      HeadStaysFirst(keys, s, i, tail);
      ConsSorted(keys, s[0], tail);
      assert s == [s[0]] + rest;
      [s[0]] + tail
  }

  /** An index before the head of a sorted sequence is before all of it. */
  lemma InsertedFirst(keys: seq<Key>, width: nat, i: int, s: seq<int>)
    requires Uniform(keys, width) && 0 <= i < |keys| && Sorted(keys, s) && s != []
    requires Before(keys, i, s[0])
    ensures forall b :: 0 <= b < |s| ==> Before(keys, i, s[b])
  {
    forall b | 0 <= b < |s| ensures Before(keys, i, s[b]) {
      if b > 0 {
        BeforeOrder(keys, width, i, s[0], s[b]);
      }
    }
  }

  /** The head of a sorted sequence is before everything that is inserted behind it. */
  lemma HeadStaysFirst(keys: seq<Key>, s: seq<int>, i: int, tail: seq<int>)
    requires Sorted(keys, s) && s != [] && 0 <= i < |keys| && Before(keys, s[0], i)
    requires InRange(tail, |keys|) && multiset(tail) == multiset(s[1..]) + multiset{i}
    ensures forall b :: 0 <= b < |tail| ==> Before(keys, s[0], tail[b])
  {
    var rest := s[1..];
    forall b | 0 <= b < |tail| ensures Before(keys, s[0], tail[b]) {
      assert tail[b] in multiset(tail);
      if tail[b] != i {
        assert tail[b] in multiset(rest);
        var c :| 0 <= c < |rest| && rest[c] == tail[b];
        assert s[c + 1] == tail[b];
      }
    }
  }

  lemma ConsSorted(keys: seq<Key>, x: int, t: seq<int>)
    requires 0 <= x < |keys| && Sorted(keys, t)
    requires forall b :: 0 <= b < |t| ==> Before(keys, x, t[b])
    ensures Sorted(keys, [x] + t)
  {
    var r := [x] + t;
    forall a, b | 0 <= a < b < |r| ensures Before(keys, r[a], r[b]) {
      assert r[b] == t[b - 1];
      if a > 0 {
        assert r[a] == t[a - 1];
      }
    }
  }

  lemma SortedTail(keys: seq<Key>, s: seq<int>)
    requires Sorted(keys, s) && s != []
    ensures Sorted(keys, s[1..])
  {
    forall a, b | 0 <= a < b < |s| - 1 ensures Before(keys, s[1..][a], s[1..][b]) {
      assert s[1..][a] == s[a + 1] && s[1..][b] == s[b + 1];
    }
  }

  /** The indices 0 .. n - 1 in Before order (an insertion sort). */
  function SortIndices(keys: seq<Key>, width: nat, n: nat): (r: seq<int>)
    requires Uniform(keys, width) && n <= |keys|
    ensures multiset(r) == multiset(Iota(n))
    ensures Sorted(keys, r)
  {
    if n == 0 then []
    else
      var prefix := SortIndices(keys, width, n - 1);
      IotaStep(n);
      Insert(keys, width, n - 1, prefix)
  }

  lemma IotaStep(n: nat)
    requires n > 0
    ensures multiset(Iota(n)) == multiset(Iota(n - 1)) + multiset{n - 1}
    ensures n - 1 !in multiset(Iota(n - 1))
  {
    assert Iota(n) == Iota(n - 1) + [n - 1];
  }

  /** `np.lexsort`: the stable ascending order of the indices of `keys`. */
  function LexSort(keys: seq<Key>, width: nat): (order: seq<int>)
    requires Uniform(keys, width)
    ensures IsPermutation(order, |keys|)
    ensures Sorted(keys, order)
  {
    var r := SortIndices(keys, width, |keys|);
    PermutationMultiset(r, |keys|);
    r
  }

  /** There is only one sorted arrangement of a set of indices: a stable sort's output
      is determined by the keys alone. */
  lemma {:induction false} SortedUnique(keys: seq<Key>, width: nat, s: seq<int>, t: seq<int>)
    requires Uniform(keys, width)
    requires Sorted(keys, s) && Sorted(keys, t) && multiset(s) == multiset(t)
    ensures s == t
  {
    if s != [] {
      SameHead(keys, width, s, t);
      var s', t' := s[1..], t[1..];
      assert s == [s[0]] + s' && t == [t[0]] + t';
      assert multiset(s') == multiset(s) - multiset{s[0]};
      assert multiset(t') == multiset(t) - multiset{t[0]};
      SortedTail(keys, s);
      SortedTail(keys, t);
      SortedUnique(keys, width, s', t');
    }
  }

  /** Two sorted arrangements of the same indices start with the same index. */
  lemma SameHead(keys: seq<Key>, width: nat, s: seq<int>, t: seq<int>)
    requires Uniform(keys, width)
    requires Sorted(keys, s) && Sorted(keys, t) && multiset(s) == multiset(t) && s != []
    ensures t != [] && s[0] == t[0]
  {
    assert s[0] in multiset(t);
    var j :| 0 <= j < |t| && t[j] == s[0];
    assert t[0] in multiset(s);
    var m :| 0 <= m < |s| && s[m] == t[0];
    if m > 0 && j > 0 {
      BeforeOrder(keys, width, s[0], t[0], s[0]);
      assert false;
    }
  }

  /** The one-component keys of a row of costs. */
  function CostKeys(row: seq<real>): (keys: seq<Key>)
    ensures |keys| == |row| && Uniform(keys, 1)
  {
    seq(|row|, j requires 0 <= j < |row| => [row[j]])
  }

  /** `np.argsort(row)`: target indices by ascending cost. */
  function ArgSort(row: seq<real>): (order: seq<int>)
    ensures IsPermutation(order, |row|)
    ensures forall a, b :: 0 <= a < b < |order| ==> row[order[a]] <= row[order[b]]
  {
    var keys := CostKeys(row);
    var order := LexSort(keys, 1);
    assert forall a, b :: 0 <= a < b < |order| ==> row[order[a]] <= row[order[b]] by {
      forall a, b | 0 <= a < b < |order| ensures row[order[a]] <= row[order[b]] {
        assert Before(keys, order[a], order[b]);
        assert keys[order[a]] == [row[order[a]]] && keys[order[b]] == [row[order[b]]];
      }
    }
    order
  }
}
