/** Small facts about multiplication and division that the solver does not find on its
    own; every other module proves its nonlinear steps through these. */
module Arith {
  /** Multiplying by a non-negative integer keeps the order. */
  lemma MulMono(a: int, b: int, n: int)
    requires 0 <= a <= b && 0 <= n
    ensures a * n <= b * n
  {
    assert b * n - a * n == (b - a) * n;
  }

  /** Integer block indexing: offset `off` in block `q` of `n` blocks of `size` stays
      below n * size. */
  lemma BlockIndexBound(q: int, n: int, size: nat, off: int)
    requires 0 <= q < n && 0 <= off < size
    ensures 0 <= q * size + off < n * size
  {
    MulMono(0, q, size);
    MulMono(q, n - 1, size);
    assert (n - 1) * size + size == n * size;
  }

  /** Euclidean division is determined by its quotient/remainder decomposition. */
  lemma DivModUnique(a: int, n: int, q: int, r: int)
    requires n > 0 && a == q * n + r && 0 <= r < n
    ensures a / n == q && a % n == r
  {
    var q', r' := a / n, a % n;
    assert a == q' * n + r';
    assert (q - q') * n == r' - r;
    if q > q' {
      MulMono(1, q - q', n);
    } else if q < q' {
      MulMono(1, q' - q, n);
    }
  }

  /** A position below n * size lies in one of the first n blocks of `size`. */
  lemma DivBelow(p: nat, n: nat, size: nat)
    requires 0 < size && p < n * size
    ensures p / size < n
  {
    assert p == (p / size) * size + p % size;
    if p / size >= n {
      MulMono(n, p / size, size);
    }
  }

  /** Truncating a length to a multiple of n keeps length / n blocks of n, and no more
      than the length. */
  lemma TruncatedLength(len: nat, n: int)
    requires n > 0
    ensures ((len / n) * n) / n == len / n
    ensures n * (len / n) <= len
  {
    DivModUnique((len / n) * n, n, len / n, 0);
    assert len == (len / n) * n + len % n;
  }

  /** The sign of a real is that of its product with a positive real. */
  lemma MulSign(x: real, y: real)
    requires y > 0.0
    ensures x > 0.0 <==> x * y > 0.0
    ensures x >= 0.0 <==> x * y >= 0.0
  {
  }

  /** A quotient of 0 < a < n is strictly between 0 and 1. */
  lemma DivBetween(a: real, n: real)
    requires 0.0 < a < n
    ensures 0.0 < a / n < 1.0
  {
    var q := a / n;
    assert q * n == a;
    MulSign(q, n);
    assert (1.0 - q) * n == n - a;
    MulSign(1.0 - q, n);
  }

  /** A value q with q * n == s, where s lies between n * lo and n * hi for a positive n,
      lies between lo and hi. */
  lemma ScaledBounds(q: real, s: real, n: real, lo: real, hi: real)
    requires n > 0.0 && q * n == s && n * lo <= s <= n * hi
    ensures lo <= q <= hi
  {
    assert (q - lo) * n == s - n * lo;
    MulSign(q - lo, n);
    assert (hi - q) * n == n * hi - s;
    MulSign(hi - q, n);
  }

  /** A convex combination (1 - p) * a + p * b of non-negative values is non-negative,
      and at most 3 when a <= 3 and b <= 2. */
  lemma WeightedBounds(a: real, b: real, p: real)
    requires 0.0 <= p <= 1.0 && 0.0 <= a && 0.0 <= b
    ensures 0.0 <= (1.0 - p) * a + p * b
    ensures a <= 3.0 && b <= 2.0 ==> (1.0 - p) * a + p * b <= 3.0
  {
    MulNonNeg(1.0 - p, a);
    MulNonNeg(p, b);
    if a <= 3.0 && b <= 2.0 {
      MulNonNeg(1.0 - p, 3.0 - a);
      MulNonNeg(p, 2.0 - b);
      assert (1.0 - p) * a + p * b == 3.0 - p - (1.0 - p) * (3.0 - a) - p * (2.0 - b);
    }
  }

  lemma MulNonNeg(x: real, y: real)
    requires 0.0 <= x && 0.0 <= y
    ensures 0.0 <= x * y
  {
    if y > 0.0 {
      MulSign(x, y);
    }
  }

  lemma MulMonoReal(a: real, b: real, c: real)
    requires a <= b && 0.0 <= c
    ensures a * c <= b * c
  {
    MulNonNeg(b - a, c);
    assert b * c - a * c == (b - a) * c;
  }

  /** A factor in [-1, 1] scales a by no more than a itself. */
  lemma ProductBelow(a: real, c: real, p: real)
    requires 0.0 <= a <= 1.0 && 0.0 <= c && p == a * c
    ensures 0.0 <= p <= c
  {
    MulNonNeg(a, c);
    MulNonNeg(1.0 - a, c);
    assert (1.0 - a) * c == c - a * c;
  }

  lemma UnitScale(c: real, a: real)
    requires -1.0 <= c <= 1.0 && 0.0 <= a
    ensures -a <= c * a <= a
  {
    MulNonNeg(1.0 - c, a);
    MulNonNeg(1.0 + c, a);
    assert (1.0 - c) * a == a - c * a;
    assert (1.0 + c) * a == a + c * a;
  }

  /** Quotients by the same positive n keep the order of their numerators. */
  lemma QuotientMono(p: real, q: real, s: real, t: real, n: real)
    requires n > 0.0 && p * n == s && q * n == t && s <= t
    ensures p <= q
  {
    assert (q - p) * n == t - s;
    MulSign(q - p, n);
  }

  predicate IsQuotient(q: real, s: real, n: real) {
    q * n == s
  }

  /** The real quotient s / n for a positive n, given by the property that defines it:
      the one q with q * n == s. */
  function Quotient(s: real, n: real): (q: real)
    requires n > 0.0
    ensures q * n == s
  {
    assert IsQuotient(s / n, s, n);
    var q :| IsQuotient(q, s, n); q
  }

  /** Quotient is real division. */
  lemma QuotientIsDivision(s: real, n: real)
    requires n > 0.0
    ensures Quotient(s, n) == s / n
  {
    var q, d := Quotient(s, n), s / n;
    assert d * n == s;
    QuotientMono(q, d, s, s, n);
    QuotientMono(d, q, s, s, n);
  }
}
