/** The assignment engine: which target cell each source cell travels to. A cost
    matrix mixes colour and position distance; four strategies turn it (or, for
    `sort`, the cells' luminance ranks) into an assignment. */
module Assignment {
  import opened Wrappers
  import opened Permutations
  import opened Pixels
  import opened Sorting
  import opened Arith

  /** A dense matrix of reals, row by row. */
  type Matrix = seq<seq<real>>

  predicate IsMatrix(m: Matrix, rows: nat, cols: nat) {
    |m| == rows && forall i :: 0 <= i < rows ==> |m[i]| == cols
  }

  // ---------------------------------------------------------------- cost matrix

  /** The cost of sending a source cell to a target cell: squared colour distance and
      squared position distance, weighted by the proximity importance p. */
  function PairCost(sf: Color, sp: Pos, tf: Color, tp: Pos, p: real): (c: real)
    ensures 0.0 <= p <= 1.0 ==> 0.0 <= c
    ensures 0.0 <= p <= 1.0 && InUnitCube(sf) && InUnitCube(tf) && InUnitSquare(sp) && InUnitSquare(tp)
      ==> c <= 3.0
    ensures p == 0.0 ==> c == ColorDist(sf, tf)
    ensures p == 1.0 ==> c == PosDist(sp, tp)
    ensures sf == tf && sp == tp ==> c == 0.0
  {
    var cd, pd := ColorDist(sf, tf), PosDist(sp, tp);
    var c := (1.0 - p) * cd + p * pd;
    if 0.0 <= p <= 1.0 then WeightedBounds(cd, pd, p); c else c
  }

  /** `compute_cost_matrix`: entry (i, j) is the cost of sending source i to target j. */
  function CostMatrix(srcF: seq<Color>, srcP: seq<Pos>, tgtF: seq<Color>, tgtP: seq<Pos>, p: real): (cost: Matrix)
    requires |srcF| == |srcP| && |tgtF| == |tgtP|
    ensures IsMatrix(cost, |srcF|, |tgtF|)
    ensures forall i, j :: 0 <= i < |srcF| && 0 <= j < |tgtF| ==>
      cost[i][j] == PairCost(srcF[i], srcP[i], tgtF[j], tgtP[j], p)
  {
    seq(|srcF|, i requires 0 <= i < |srcF| =>
      seq(|tgtF|, j requires 0 <= j < |tgtF| => PairCost(srcF[i], srcP[i], tgtF[j], tgtP[j], p)))
  }

  /** With the proximity importance in [0, 1] no entry is negative, and with colours in
      the unit cube and positions in the unit square none exceeds 3. */
  lemma CostMatrixBounds(srcF: seq<Color>, srcP: seq<Pos>, tgtF: seq<Color>, tgtP: seq<Pos>, p: real, i: int, j: int)
    requires |srcF| == |srcP| && |tgtF| == |tgtP| && 0.0 <= p <= 1.0
    requires 0 <= i < |srcF| && 0 <= j < |tgtF|
    ensures 0.0 <= CostMatrix(srcF, srcP, tgtF, tgtP, p)[i][j]
    ensures InUnitCube(srcF[i]) && InUnitCube(tgtF[j]) && InUnitSquare(srcP[i]) && InUnitSquare(tgtP[j])
      ==> CostMatrix(srcF, srcP, tgtF, tgtP, p)[i][j] <= 3.0
  {
  }

  // ---------------------------------------------------------------- total cost

  /** cost[i][j], or 0 outside the matrix. */
  function Entry(cost: Matrix, i: int, j: int): real {
    if 0 <= i < |cost| && 0 <= j < |cost[i]| then cost[i][j] else 0.0
  }

  /** The cost of sending sources row, row + 1, ... to the targets listed in s. */
  function SuffixCost(cost: Matrix, row: int, s: seq<int>): real
    decreases |s|
  {
    if s == [] then 0.0 else Entry(cost, row, s[0]) + SuffixCost(cost, row + 1, s[1..])
  }

  /** The total cost of an assignment: the sum of cost[i][a[i]]. */
  function TotalCost(cost: Matrix, a: seq<int>): real {
    SuffixCost(cost, 0, a)
  }

  // ---------------------------------------------------------------- optimal

  /** s without its element at position j. */
  function RemoveAt(s: seq<int>, j: nat): (r: seq<int>)
    requires j < |s|
    ensures |r| == |s| - 1
    ensures multiset(r) == multiset(s) - multiset{s[j]}
  {
    assert s == s[..j] + [s[j]] + s[j + 1..];
    s[..j] + s[j + 1..]
  }

  /** x put in front of each of the sequences ss. */
  function Prepend(x: int, ss: seq<seq<int>>): (r: seq<seq<int>>)
    ensures |r| == |ss|
    ensures forall k :: 0 <= k < |ss| ==> r[k] == [x] + ss[k]
  {
    seq(|ss|, k requires 0 <= k < |ss| => [x] + ss[k])
  }

  lemma PrependKeepsValues(x: int, tails: seq<seq<int>>, rest: seq<int>, avail: seq<int>)
    requires multiset(rest) == multiset(avail) - multiset{x} && x in avail
    requires forall s :: s in tails ==> multiset(s) == multiset(rest)
    ensures forall s :: s in Prepend(x, tails) ==> multiset(s) == multiset(avail)
  {
    var first := Prepend(x, tails);
    assert multiset(avail) == multiset(rest) + multiset{x};
    forall s | s in first ensures multiset(s) == multiset(avail) {
      var k :| 0 <= k < |first| && first[k] == s;
      assert tails[k] in tails;
      assert s == [x] + tails[k];
    }
  }

  /** Every arrangement of the values in avail. */
  function Arrangements(avail: seq<int>): (r: seq<seq<int>>)
    ensures forall s :: s in r ==> multiset(s) == multiset(avail)
    decreases |avail|, 1, 0
  {
    if avail == [] then [[]] else ArrangementsFrom(avail, 0)
  }

  /** The arrangements of avail that start with avail[j], avail[j + 1], ... */
  function ArrangementsFrom(avail: seq<int>, j: nat): (r: seq<seq<int>>)
    requires j <= |avail|
    ensures forall s :: s in r ==> multiset(s) == multiset(avail)
    decreases |avail|, 0, |avail| - j
  {
    if j == |avail| then []
    else
      var rest := RemoveAt(avail, j);
      var first := Prepend(avail[j], Arrangements(rest));
      PrependKeepsValues(avail[j], Arrangements(rest), rest, avail);
      var later := ArrangementsFrom(avail, j + 1);
      assert forall s :: s in first + later ==> s in first || s in later;
      first + later
  }

  /** Every sequence holding exactly the values of avail is one of its arrangements. */
  lemma {:induction false} ArrangementsComplete(avail: seq<int>, s: seq<int>)
    requires multiset(s) == multiset(avail)
    ensures s in Arrangements(avail)
    decreases |avail|
  {
    assert |s| == |multiset(s)| == |multiset(avail)| == |avail|;
    if avail != [] {
      assert s[0] in multiset(avail);
      var j :| 0 <= j < |avail| && avail[j] == s[0];
      var rest := RemoveAt(avail, j);
      assert s == [s[0]] + s[1..];
      assert multiset(s[1..]) == multiset(rest);
      ArrangementsComplete(rest, s[1..]);
      ArrangementsFromContains(avail, 0, j, s[1..]);
    }
  }

  lemma {:induction false} ArrangementsFromContains(avail: seq<int>, j: nat, c: nat, t: seq<int>)
    requires j <= c < |avail| && t in Arrangements(RemoveAt(avail, c))
    ensures [avail[c]] + t in ArrangementsFrom(avail, j)
    decreases c - j
  {
    var first := Prepend(avail[j], Arrangements(RemoveAt(avail, j)));
    assert ArrangementsFrom(avail, j) == first + ArrangementsFrom(avail, j + 1);
    if j == c {
      var k :| 0 <= k < |Arrangements(RemoveAt(avail, c))| && Arrangements(RemoveAt(avail, c))[k] == t;
      assert first[k] == [avail[c]] + t;
    } else {
      ArrangementsFromContains(avail, j + 1, c, t);
    }
  }

  /** A cheapest assignment among the candidates (the first, on ties). */
  function Cheapest(cost: Matrix, cands: seq<seq<int>>): (best: seq<int>)
    requires cands != []
    ensures best in cands
    ensures forall s :: s in cands ==> TotalCost(cost, best) <= TotalCost(cost, s)
  {
    if |cands| == 1 then cands[0]
    else
      var rest := Cheapest(cost, cands[1..]);
      assert forall s :: s in cands ==> s == cands[0] || s in cands[1..];
      if TotalCost(cost, cands[0]) <= TotalCost(cost, rest) then cands[0] else rest
  }

  /** `linear_sum_assignment` on a square matrix: a minimum-cost perfect matching, here
      found by exhaustive search over all permutations. */
  function Optimal(cost: Matrix): (a: seq<int>)
    ensures IsPermutation(a, |cost|)
  {
    var all := Arrangements(Iota(|cost|));
    ArrangementsComplete(Iota(|cost|), Iota(|cost|));
    var a := Cheapest(cost, all);
    PermutationMultiset(a, |cost|);
    a
  }

  /** No permutation costs less than the optimal assignment. */
  lemma OptimalIsMinimal(cost: Matrix, a: seq<int>)
    requires IsPermutation(a, |cost|)
    ensures TotalCost(cost, Optimal(cost)) <= TotalCost(cost, a)
  {
    PermutationMultiset(a, |cost|);
    ArrangementsComplete(Iota(|cost|), a);
  }

  // ---------------------------------------------------------------- sort

  /** Rec. 601 luminance. */
  function Luminance(c: Color): (l: real)
    ensures c.r == c.g == c.b ==> l == c.r
    ensures InUnitCube(c) ==> 0.0 <= l <= 1.0
  {
    0.299 * c.r + 0.587 * c.g + 0.114 * c.b
  }

  /** The (luminance, y, x) key of every cell, compared lexicographically. */
  function SortKeys(features: seq<Color>, pos: seq<Pos>): (keys: seq<Key>)
    requires |features| == |pos|
    ensures |keys| == |features| && Uniform(keys, 3)
    ensures forall i :: 0 <= i < |keys| ==> keys[i] == [Luminance(features[i]), pos[i].y, pos[i].x]
  {
    seq(|features|, i requires 0 <= i < |features| => [Luminance(features[i]), pos[i].y, pos[i].x])
  }

  /** The cells by rank: ascending luminance, then y, then x, then index. */
  function RankOrder(features: seq<Color>, pos: seq<Pos>): (order: seq<int>)
    requires |features| == |pos|
    ensures IsPermutation(order, |features|)
    ensures forall a, b :: 0 <= a < b < |order| ==> Luminance(features[order[a]]) <= Luminance(features[order[b]])
  {
    var keys := SortKeys(features, pos);
    var order := LexSort(keys, 3);
    assert forall a, b :: 0 <= a < b < |order| ==> Luminance(features[order[a]]) <= Luminance(features[order[b]]) by {
      forall a, b | 0 <= a < b < |order|
        ensures Luminance(features[order[a]]) <= Luminance(features[order[b]])
      {
        assert Before(keys, order[a], order[b]);
        assert keys[order[a]][0] == Luminance(features[order[a]]);
        assert keys[order[b]][0] == Luminance(features[order[b]]);
      }
    }
    order
  }

  /** Equal-luminance cells are ranked top to bottom, then left to right. */
  lemma RankOrderTieBreak(features: seq<Color>, pos: seq<Pos>, a: int, b: int)
    requires |features| == |pos|
    requires 0 <= a < b < |features|
    requires Luminance(features[RankOrder(features, pos)[a]]) == Luminance(features[RankOrder(features, pos)[b]])
    ensures pos[RankOrder(features, pos)[a]].y <= pos[RankOrder(features, pos)[b]].y
    ensures pos[RankOrder(features, pos)[a]].y == pos[RankOrder(features, pos)[b]].y
      ==> pos[RankOrder(features, pos)[a]].x <= pos[RankOrder(features, pos)[b]].x
  {
    var keys := SortKeys(features, pos);
    var order := RankOrder(features, pos);
    var i, j := order[a], order[b];
    assert Before(keys, i, j);
    var ki, kj := keys[i], keys[j];
    assert ki == [Luminance(features[i]), pos[i].y, pos[i].x];
    assert kj == [Luminance(features[j]), pos[j].y, pos[j].x];
    assert ki[1..] == [pos[i].y, pos[i].x] && kj[1..] == [pos[j].y, pos[j].x];
    assert ki[1..][1..] == [pos[i].x] && kj[1..][1..] == [pos[j].x];
    assert LexLess(ki, kj) <==> LexLess(ki[1..], kj[1..]);
    assert LexLess(ki[1..], kj[1..]) <==> pos[i].y < pos[j].y || (pos[i].y == pos[j].y && LexLess(ki[1..][1..], kj[1..][1..]));
    assert ki[1..][1..][1..] == [] && !LexLess([], []);
    assert LexLess(ki[1..][1..], kj[1..][1..]) ==> pos[i].x < pos[j].x;
  }

  /** Source srcOrder[k] is sent to target tgtOrder[k]: rank k to rank k. */
  predicate IsRankMatching(a: seq<int>, srcOrder: seq<int>, tgtOrder: seq<int>) {
    |srcOrder| == |tgtOrder| &&
    forall k :: 0 <= k < |srcOrder| ==> 0 <= srcOrder[k] < |a| && a[srcOrder[k]] == tgtOrder[k]
  }

  /** `assignment[src_keys] = tgt_keys` on a zero array. */
  method Scatter(srcOrder: seq<int>, tgtOrder: seq<int>) returns (assignment: seq<int>)
    requires IsPermutation(srcOrder, |srcOrder|) && |tgtOrder| == |srcOrder|
    ensures |assignment| == |srcOrder|
    ensures IsRankMatching(assignment, srcOrder, tgtOrder)
  {
    var n := |srcOrder|;
    var a := new int[n](_ => 0);
    for k := 0 to n
      invariant forall m :: 0 <= m < k ==> a[srcOrder[m]] == tgtOrder[m]
    {
      a[srcOrder[k]] := tgtOrder[k];
    }
    assignment := a[..];
  }

  /** Matching two permutations rank by rank gives a permutation. */
  lemma RankMatchingIsPermutation(a: seq<int>, srcOrder: seq<int>, tgtOrder: seq<int>, n: nat)
    requires IsPermutation(srcOrder, n) && IsPermutation(tgtOrder, n) && |a| == n
    requires IsRankMatching(a, srcOrder, tgtOrder)
    ensures IsPermutation(a, n)
  {
    PermutationCovers(srcOrder, n);
    forall i | 0 <= i < n ensures 0 <= a[i] < n {
      assert i in srcOrder;
      var k :| 0 <= k < n && srcOrder[k] == i;
    }
    forall i1, i2 | 0 <= i1 < i2 < n ensures a[i1] != a[i2] {
      assert i1 in srcOrder && i2 in srcOrder;
      var k1 :| 0 <= k1 < n && srcOrder[k1] == i1;
      var k2 :| 0 <= k2 < n && srcOrder[k2] == i2;
    }
  }

  /** The rank matching of two orders is unique. */
  lemma RankMatchingUnique(a: seq<int>, b: seq<int>, srcOrder: seq<int>, tgtOrder: seq<int>, n: nat)
    requires IsPermutation(srcOrder, n) && |a| == n && |b| == n
    requires IsRankMatching(a, srcOrder, tgtOrder) && IsRankMatching(b, srcOrder, tgtOrder)
    ensures a == b
  {
    PermutationCovers(srcOrder, n);
    forall i | 0 <= i < n ensures a[i] == b[i] {
      assert i in srcOrder;
      var k :| 0 <= k < n && srcOrder[k] == i;
    }
  }

  // ---------------------------------------------------------------- greedy and approx

  /** The position in `sorted` of the first target not yet taken. */
  function FirstFree(sorted: seq<int>, taken: set<int>): (r: Option<nat>)
    ensures r.Some? ==> r.value < |sorted| && sorted[r.value] !in taken
    ensures r.Some? ==> forall m :: 0 <= m < r.value ==> sorted[m] in taken
    ensures r.None? <==> forall m :: 0 <= m < |sorted| ==> sorted[m] in taken
  {
    if sorted == [] then None
    else if sorted[0] !in taken then Some(0)
    else match FirstFree(sorted[1..], taken)
      case None => None
      case Some(m) => Some(m + 1)
  }

  /** Over a permutation of the targets, no target is free exactly when all are taken. */
  lemma FirstFreeNone(sorted: seq<int>, n: nat, taken: set<int>)
    requires IsPermutation(sorted, n)
    ensures FirstFree(sorted, taken).None? <==> forall t :: 0 <= t < n ==> t in taken
  {
    PermutationCovers(sorted, n);
    if FirstFree(sorted, taken).None? {
      forall t | 0 <= t < n ensures t in taken {
        assert t in sorted;
        var q :| 0 <= q < n && sorted[q] == t;
      }
    }
  }

  /** The first free target in ascending-cost order is a cheapest free target. */
  lemma FirstFreeIsCheapest(row: seq<real>, sorted: seq<int>, taken: set<int>)
    requires IsPermutation(sorted, |row|)
    requires forall a, b :: 0 <= a < b < |sorted| ==> row[sorted[a]] <= row[sorted[b]]
    ensures FirstFree(sorted, taken).Some? ==>
      var t0 := sorted[FirstFree(sorted, taken).value];
      0 <= t0 < |row| && t0 !in taken &&
      forall t :: 0 <= t < |row| && t !in taken ==> row[t0] <= row[t]
  {
    PermutationCovers(sorted, |row|);
    match FirstFree(sorted, taken)
    case None =>
    case Some(m) =>
      forall t | 0 <= t < |row| && t !in taken ensures row[sorted[m]] <= row[t] {
        assert t in sorted;
        var q :| 0 <= q < |row| && sorted[q] == t;
        assert m <= q;
      }
  }

  /** Every row's targets in ascending-cost order (`np.argsort(cost_matrix[i])`). */
  function RowOrders(cost: Matrix): (ranked: seq<seq<int>>)
    ensures |ranked| == |cost|
    ensures forall i :: 0 <= i < |cost| ==> ranked[i] == ArgSort(cost[i])
  {
    seq(|cost|, i requires 0 <= i < |cost| => ArgSort(cost[i]))
  }

  /** Each row ranks all n targets. */
  predicate RanksAll(ranked: seq<seq<int>>, n: nat) {
    forall i :: 0 <= i < |ranked| ==> IsPermutation(ranked[i], n)
  }

  lemma RowOrdersRankAll(cost: Matrix, rows: nat, cols: nat)
    requires IsMatrix(cost, rows, cols)
    ensures RanksAll(RowOrders(cost), cols)
  {
  }

  /** The claims made so far: the assignment (-1 for unassigned sources) and the set of
      targets taken. */
  datatype Claims = Claims(assignment: seq<int>, taken: set<int>)

  /** The claims once sources order[0 .. k - 1] have, in turn, taken the first target of
      their ranking that is still free; a source finding none stays -1. */
  function ClaimsAfter(ranked: seq<seq<int>>, order: seq<int>, k: nat): (st: Claims)
    requires InRange(order, |ranked|) && k <= |order|
    ensures |st.assignment| == |ranked|
  {
    if k == 0 then Claims(seq(|ranked|, _ => -1), {})
    else Claim(ClaimsAfter(ranked, order, k - 1), order[k - 1], ranked[order[k - 1]])
  }

  /** Source i takes the first target of its ranking that is still free, if any. */
  function Claim(st: Claims, i: int, sorted: seq<int>): (r: Claims)
    requires 0 <= i < |st.assignment|
    ensures |r.assignment| == |st.assignment|
  {
    match FirstFree(sorted, st.taken)
    case None => st
    case Some(m) => Claims(st.assignment[i := sorted[m]], st.taken + {sorted[m]})
  }

  /** One claiming step on a rows x cols cost matrix: source order[k] takes a cheapest
      target still free and nothing else changes, or, when every target is taken,
      nothing changes at all. */
  lemma ClaimStep(cost: Matrix, cols: nat, order: seq<int>, k: nat)
    requires IsMatrix(cost, |cost|, cols) && InRange(order, |cost|) && k < |order|
    ensures var ranked := RowOrders(cost);
      var before, after, i := ClaimsAfter(ranked, order, k), ClaimsAfter(ranked, order, k + 1), order[k];
      ((forall t :: 0 <= t < cols ==> t in before.taken) ==> after == before) &&
      ((exists t :: 0 <= t < cols && t !in before.taken) ==>
         var t0 := after.assignment[i];
         0 <= t0 < cols && t0 !in before.taken && after.taken == before.taken + {t0} &&
         (forall t :: 0 <= t < cols && t !in before.taken ==> cost[i][t0] <= cost[i][t]) &&
         (forall j :: 0 <= j < |cost| && j != i ==> after.assignment[j] == before.assignment[j]))
  {
    var ranked := RowOrders(cost);
    var i := order[k];
    FirstFreeNone(ranked[i], cols, ClaimsAfter(ranked, order, k).taken);
    FirstFreeIsCheapest(cost[i], ranked[i], ClaimsAfter(ranked, order, k).taken);
  }

  /** While fewer than n of the n targets are taken, the next source takes a free one. */
  lemma ClaimTakesFree(ranked: seq<seq<int>>, n: nat, order: seq<int>, k: nat)
    requires |ranked| == n && RanksAll(ranked, n) && InRange(order, n) && k < |order|
    requires |ClaimsAfter(ranked, order, k).taken| < n
    ensures var before, after, i := ClaimsAfter(ranked, order, k), ClaimsAfter(ranked, order, k + 1), order[k];
      0 <= after.assignment[i] < n && after.assignment[i] !in before.taken &&
      after.taken == before.taken + {after.assignment[i]} &&
      forall j :: 0 <= j < n && j != i ==> after.assignment[j] == before.assignment[j]
  {
    FreeValueExists(ClaimsAfter(ranked, order, k).taken, n);
    FirstFreeNone(ranked[order[k]], n, ClaimsAfter(ranked, order, k).taken);
  }

  /** The invariant of the claiming loop over n sources and n targets once
      order[0 .. k - 1] have been visited: every visited source holds a distinct target,
      and the taken set is exactly theirs. */
  predicate ClaimedSoFar(st: Claims, n: nat, order: seq<int>, k: nat)
    requires InRange(order, |st.assignment|) && k <= |order|
  {
    |st.taken| == k &&
    (forall t :: t in st.taken ==> 0 <= t < n) &&
    (forall m :: 0 <= m < k ==> st.assignment[order[m]] in st.taken) &&
    (forall m1, m2 :: 0 <= m1 < m2 < k ==> st.assignment[order[m1]] != st.assignment[order[m2]])
  }

  lemma ClaimedSoFarStep(before: Claims, after: Claims, n: nat, order: seq<int>, k: nat)
    requires |before.assignment| == |after.assignment| == n
    requires InRange(order, n) && Distinct(order) && k < |order|
    requires ClaimedSoFar(before, n, order, k)
    requires 0 <= after.assignment[order[k]] < n && after.assignment[order[k]] !in before.taken
    requires after.taken == before.taken + {after.assignment[order[k]]}
    requires forall j :: 0 <= j < n && j != order[k] ==> after.assignment[j] == before.assignment[j]
    ensures ClaimedSoFar(after, n, order, k + 1)
  {
    forall m | 0 <= m < k ensures after.assignment[order[m]] == before.assignment[order[m]] {
      assert order[m] != order[k];
    }
  }

  lemma {:induction false} ClaimInvariant(ranked: seq<seq<int>>, n: nat, order: seq<int>, k: nat)
    requires |ranked| == n && RanksAll(ranked, n) && InRange(order, n) && Distinct(order) && k <= |order|
    ensures ClaimedSoFar(ClaimsAfter(ranked, order, k), n, order, k)
  {
    if k > 0 {
      ClaimInvariant(ranked, n, order, k - 1);
      DistinctInRangeLength(order, n);
      ClaimTakesFree(ranked, n, order, k - 1);
      ClaimedSoFarStep(ClaimsAfter(ranked, order, k - 1), ClaimsAfter(ranked, order, k), n, order, k - 1);
    }
  }

  /** With the sources visited in the order of a permutation, every one of the n sources
      ends up with its own target. */
  lemma ClaimsArePermutation(ranked: seq<seq<int>>, n: nat, order: seq<int>)
    requires |ranked| == n && RanksAll(ranked, n) && IsPermutation(order, n)
    ensures IsPermutation(ClaimsAfter(ranked, order, n).assignment, n)
  {
    ClaimInvariant(ranked, n, order, n);
    PermutationCovers(order, n);
    var a := ClaimsAfter(ranked, order, n).assignment;
    forall i | 0 <= i < n ensures 0 <= a[i] < n {
      assert i in order;
      var k :| 0 <= k < n && order[k] == i;
    }
    forall i1, i2 | 0 <= i1 < i2 < n ensures a[i1] != a[i2] {
      assert i1 in order && i2 in order;
      var k1 :| 0 <= k1 < n && order[k1] == i1;
      var k2 :| 0 <= k2 < n && order[k2] == i2;
      if k1 > k2 {
        assert a[order[k2]] != a[order[k1]];
      }
    }
  }

  /** A later claim never changes the target an earlier source holds. */
  lemma {:induction false} ClaimsStable(ranked: seq<seq<int>>, order: seq<int>, k: nat, k2: nat)
    requires InRange(order, |ranked|) && Distinct(order) && k < k2 <= |order|
    ensures ClaimsAfter(ranked, order, k2).assignment[order[k]] ==
            ClaimsAfter(ranked, order, k + 1).assignment[order[k]]
    decreases k2
  {
    if k2 > k + 1 {
      ClaimsStable(ranked, order, k, k2 - 1);
      assert order[k2 - 1] != order[k];
    }
  }

  /** What source order[m] holds once order[0 .. k - 1] have claimed is what it holds
      at the end. */
  lemma HeldToTheEnd(ranked: seq<seq<int>>, order: seq<int>, m: nat, k: nat)
    requires InRange(order, |ranked|) && Distinct(order) && m < k <= |order|
    ensures ClaimsAfter(ranked, order, |order|).assignment[order[m]] ==
            ClaimsAfter(ranked, order, k).assignment[order[m]]
  {
    ClaimsStable(ranked, order, m, |order|);
    ClaimsStable(ranked, order, m, k);
  }

  /** The targets taken after k claims are exactly those that the first k visited sources
      hold. */
  lemma TakenByVisited(ranked: seq<seq<int>>, n: nat, order: seq<int>, k: nat)
    requires |ranked| == n && RanksAll(ranked, n) && InRange(order, n) && Distinct(order) && k <= |order|
    ensures var st := ClaimsAfter(ranked, order, k);
      st.taken == Elems(seq(k, m requires 0 <= m < k => st.assignment[order[m]]))
  {
    ClaimInvariant(ranked, n, order, k);
    var st := ClaimsAfter(ranked, order, k);
    var held := seq(k, m requires 0 <= m < k => st.assignment[order[m]]);
    assert Distinct(held) by {
      forall m1, m2 | 0 <= m1 < m2 < k ensures held[m1] != held[m2] {
        assert held[m1] == st.assignment[order[m1]] && held[m2] == st.assignment[order[m2]];
      }
    }
    DistinctElemsCard(held);
    assert Elems(held) <= st.taken by {
      forall x | x in Elems(held) ensures x in st.taken {
        var m :| 0 <= m < k && held[m] == x;
      }
    }
    SubsetSameCardEqual(Elems(held), st.taken);
  }

  /** The claiming rule on the final result, for n sources and n targets visited in the
      order of a permutation: the k-th visited source holds a target that none of the
      sources visited before it holds, and that costs it no more than any such target. */
  lemma ClaimsCheapestFree(cost: Matrix, n: nat, order: seq<int>, k: nat)
    requires IsMatrix(cost, n, n) && IsPermutation(order, n) && k < n
    ensures var a := ClaimsAfter(RowOrders(cost), order, n).assignment;
      var i := order[k];
      0 <= a[i] < n && (forall m :: 0 <= m < k ==> a[order[m]] != a[i]) &&
      forall t :: 0 <= t < n && (forall m :: 0 <= m < k ==> a[order[m]] != t) ==> cost[i][a[i]] <= cost[i][t]
  {
    var ranked := RowOrders(cost);
    RowOrdersRankAll(cost, n, n);
    var before := ClaimsAfter(ranked, order, k);
    var after := ClaimsAfter(ranked, order, k + 1);
    var a := ClaimsAfter(ranked, order, n).assignment;
    var i := order[k];
    ClaimInvariant(ranked, n, order, k);
    ClaimTakesFree(ranked, n, order, k);
    FreeValueExists(before.taken, n);
    ClaimStep(cost, n, order, k);
    ClaimsStable(ranked, order, k, n);
    assert a[i] == after.assignment[i];
    FinalHeldWereTaken(ranked, n, order, k);
  }

  /** The targets held at the end by the first k visited sources are exactly the ones
      taken after k claims. */
  lemma FinalHeldWereTaken(ranked: seq<seq<int>>, n: nat, order: seq<int>, k: nat)
    requires |ranked| == n && RanksAll(ranked, n) && InRange(order, n) && Distinct(order) && k <= |order|
    ensures var a, taken := ClaimsAfter(ranked, order, |order|).assignment, ClaimsAfter(ranked, order, k).taken;
      (forall m :: 0 <= m < k ==> a[order[m]] in taken) &&
      forall t :: t in taken ==> exists m :: 0 <= m < k && a[order[m]] == t
  {
    var before := ClaimsAfter(ranked, order, k);
    var a := ClaimsAfter(ranked, order, |order|).assignment;
    TakenByVisited(ranked, n, order, k);
    ClaimInvariant(ranked, n, order, k);
    forall m | 0 <= m < k ensures a[order[m]] == before.assignment[order[m]] {
      HeldToTheEnd(ranked, order, m, k);
    }
    var held := seq(k, m requires 0 <= m < k => before.assignment[order[m]]);
    forall t | t in before.taken ensures exists m :: 0 <= m < k && a[order[m]] == t {
      var m :| 0 <= m < k && held[m] == t;
      assert a[order[m]] == t;
    }
  }

  /** The claiming rule independent of how ties are broken: every source holds its own
      target, and the k-th visited source holds one that no earlier source holds and that
      costs it no more than any other such target. */
  predicate ClaimsCheapest(cost: Matrix, n: nat, order: seq<int>, a: seq<int>)
    requires IsMatrix(cost, n, n) && IsPermutation(order, n)
  {
    IsPermutation(a, n) &&
    forall k :: 0 <= k < n ==>
      (forall m :: 0 <= m < k ==> a[order[m]] != a[order[k]]) &&
      forall t :: 0 <= t < n && (forall m :: 0 <= m < k ==> a[order[m]] != t) ==>
        cost[order[k]][a[order[k]]] <= cost[order[k]][t]
  }

  /** The claims in a permutation order follow the claiming rule. */
  lemma ClaimsFollowRule(cost: Matrix, n: nat, order: seq<int>)
    requires IsMatrix(cost, n, n) && IsPermutation(order, n)
    ensures ClaimsCheapest(cost, n, order, ClaimsAfter(RowOrders(cost), order, n).assignment)
  {
    RowOrdersRankAll(cost, n, n);
    ClaimsArePermutation(RowOrders(cost), n, order);
    forall k | 0 <= k < n
      ensures var a := ClaimsAfter(RowOrders(cost), order, n).assignment;
        (forall m :: 0 <= m < k ==> a[order[m]] != a[order[k]]) &&
        forall t :: 0 <= t < n && (forall m :: 0 <= m < k ==> a[order[m]] != t) ==>
          cost[order[k]][a[order[k]]] <= cost[order[k]][t]
    {
      ClaimsCheapestFree(cost, n, order, k);
    }
  }

  /** The inner loop: walks `sorted` and stops at the first target not in `taken`. */
  method ScanForFree(sorted: seq<int>, taken: set<int>) returns (r: Option<nat>)
    ensures r == FirstFree(sorted, taken)
  {
    var m := 0;
    while m < |sorted|
      invariant 0 <= m <= |sorted|
      invariant forall q :: 0 <= q < m ==> sorted[q] in taken
    {
      if sorted[m] !in taken {
        return Some(m);
      }
      m := m + 1;
    }
    return None;
  }

  /** The claiming loop shared by `greedy` (shuffled order) and `approx` (row order): each
      source in turn claims the first free target of its argsort ranking. */
  method ClaimTargets(cost: Matrix, order: seq<int>) returns (assignment: seq<int>)
    requires InRange(order, |cost|)
    ensures assignment == ClaimsAfter(RowOrders(cost), order, |order|).assignment
  {
    ghost var ranked := RowOrders(cost);
    assignment := seq(|cost|, _ => -1);
    var taken: set<int> := {};
    for k := 0 to |order|
      invariant assignment == ClaimsAfter(ranked, order, k).assignment
      invariant taken == ClaimsAfter(ranked, order, k).taken
    {
      ghost var before := ClaimsAfter(ranked, order, k);
      var i := order[k];
      var sorted := ArgSort(cost[i]);
      assert sorted == ranked[i];
      var found := ScanForFree(sorted, taken);
      if found.Some? {
        var t := sorted[found.value];
        assignment := assignment[i := t];
        taken := taken + {t};
      }
      assert ClaimsAfter(ranked, order, k + 1) == Claim(before, i, sorted);
    }
  }

  // ---------------------------------------------------------------- solve_assignment

  /** `solve_assignment`: the target of every source cell under the named strategy.
      `shuffled` is the visiting order `random.shuffle` produced for `greedy`. */
  method SolveAssignment(srcF: seq<Color>, srcP: seq<Pos>, tgtF: seq<Color>, tgtP: seq<Pos>,
                         algorithm: string, proximity: real, shuffled: seq<int>)
      returns (r: Result<seq<int>>)
    requires |srcF| == |srcP| == |tgtF| == |tgtP|
    requires algorithm == "greedy" ==> IsPermutation(shuffled, |srcF|)
    ensures r.Failure? <==> algorithm !in {"sort", "optimal", "greedy", "approx"}
    ensures r.Failure? ==> r.error == "Unknown algorithm: " + algorithm
    ensures r.Success? ==> IsPermutation(r.value, |srcF|)
    ensures algorithm == "sort" ==>
      IsRankMatching(r.value, RankOrder(srcF, srcP), RankOrder(tgtF, tgtP))
    ensures algorithm == "optimal" ==> forall a :: IsPermutation(a, |srcF|) ==>
      TotalCost(CostMatrix(srcF, srcP, tgtF, tgtP, proximity), r.value)
        <= TotalCost(CostMatrix(srcF, srcP, tgtF, tgtP, proximity), a)
    ensures algorithm == "greedy" ==>
      ClaimsCheapest(CostMatrix(srcF, srcP, tgtF, tgtP, proximity), |srcF|, shuffled, r.value)
    ensures algorithm == "approx" ==>
      ClaimsCheapest(CostMatrix(srcF, srcP, tgtF, tgtP, proximity), |srcF|, Iota(|srcF|), r.value)
    ensures algorithm == "greedy" ==>
      r.value == ClaimsAfter(RowOrders(CostMatrix(srcF, srcP, tgtF, tgtP, proximity)), shuffled, |srcF|).assignment
    ensures algorithm == "approx" ==>
      r.value == ClaimsAfter(RowOrders(CostMatrix(srcF, srcP, tgtF, tgtP, proximity)), Iota(|srcF|), |srcF|).assignment
  {
    var n := |srcF|;
    if algorithm == "sort" {
      var srcOrder := RankOrder(srcF, srcP);
      var tgtOrder := RankOrder(tgtF, tgtP);
      var a := Scatter(srcOrder, tgtOrder);
      RankMatchingIsPermutation(a, srcOrder, tgtOrder, n);
      return Success(a);
    }
    var cost := CostMatrix(srcF, srcP, tgtF, tgtP, proximity);
    RowOrdersRankAll(cost, n, n);
    if algorithm == "optimal" {
      var a := Optimal(cost);
      forall b | IsPermutation(b, n) ensures TotalCost(cost, a) <= TotalCost(cost, b) {
        OptimalIsMinimal(cost, b);
      }
      r := Success(a);
    } else if algorithm == "greedy" {
      var a := ClaimTargets(cost, shuffled);
      ClaimsArePermutation(RowOrders(cost), n, shuffled);
      ClaimsFollowRule(cost, n, shuffled);
      r := Success(a);
    } else if algorithm == "approx" {
      var rows := Iota(n);
      assert IsPermutation(rows, n);
      var a := ClaimTargets(cost, rows);
      ClaimsArePermutation(RowOrders(cost), n, rows);
      ClaimsFollowRule(cost, n, rows);
      r := Success(a);
    } else {
      r := Failure("Unknown algorithm: " + algorithm);
    }
  }
}
