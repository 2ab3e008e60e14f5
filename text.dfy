/** The few string operations the entry points use: ASCII lower-casing, prefix and
    suffix tests, and the text after the last occurrence of a character. */
module Text {
  /** `str.lower` on one character. Only ASCII letters are mapped. */
  function LowerChar(c: char): char {
    if 'A' <= c <= 'Z' then (c as int + 32) as char else c
  }

  /** `str.lower`: every character lower-cased, the length kept. */
  function Lower(s: string): (r: string)
    ensures |r| == |s|
    ensures forall i :: 0 <= i < |s| ==> r[i] == LowerChar(s[i])
  {
    seq(|s|, i requires 0 <= i < |s| => LowerChar(s[i]))
  }

  /** Lower-casing distributes over concatenation. */
  lemma LowerConcat(a: string, b: string)
    ensures Lower(a + b) == Lower(a) + Lower(b)
  {
    assert forall i :: 0 <= i < |a + b| ==> Lower(a + b)[i] == (Lower(a) + Lower(b))[i] by {
      forall i | 0 <= i < |a + b| ensures Lower(a + b)[i] == (Lower(a) + Lower(b))[i] {
        if i < |a| {
          assert (a + b)[i] == a[i];
        } else {
          assert (a + b)[i] == b[i - |a|];
        }
      }
    }
  }

  /** Lower-casing a slice is slicing the lower-cased text. */
  lemma LowerSuffix(s: string, k: nat)
    requires k <= |s|
    ensures Lower(s[k..]) == Lower(s)[k..]
  {
  }

  /** `s.startswith(p)`. */
  predicate StartsWith(s: string, p: string) {
    |p| <= |s| && s[..|p|] == p
  }

  /** `s.endswith(q)`. */
  predicate EndsWith(s: string, q: string) {
    |q| <= |s| && s[|s| - |q|..] == q
  }

  lemma StartsWithConcat(a: string, b: string, p: string)
    requires StartsWith(a, p)
    ensures StartsWith(a + b, p)
  {
    assert (a + b)[..|p|] == a[..|p|];
  }

  lemma EndsWithConcat(a: string, q: string)
    ensures EndsWith(a + q, q)
  {
    assert (a + q)[|a + q| - |q|..] == q;
  }

  /** The text after the last `c` in `s`, or all of `s` when `c` does not occur:
      `s.rsplit(c, 1)[-1]`, and `os.path.basename` for `c == '/'`. */
  function AfterLast(s: string, c: char): (r: string)
    ensures c !in r
    ensures |r| <= |s| && r == s[|s| - |r|..]
    ensures c !in s ==> r == s
    ensures c in s ==> |r| < |s| && s[|s| - |r| - 1] == c
    decreases |s|
  {
    if s == [] then []
    else if s[|s| - 1] == c then []
    else
      var init := s[..|s| - 1];
      var r := AfterLast(init, c) + [s[|s| - 1]];
      assert s == init + [s[|s| - 1]];
      assert c in s ==> c in init;
      r
  }

  /** Whatever comes before the last `c`, the text after it is what follows that `c`. */
  lemma {:induction false} AfterLastSplit(stem: string, c: char, tail: string)
    requires c !in tail
    ensures AfterLast(stem + [c] + tail, c) == tail
    decreases |tail|
  {
    var s := stem + [c] + tail;
    if tail == [] {
      assert s[|s| - 1] == c;
    } else {
      var init := tail[..|tail| - 1];
      assert s[..|s| - 1] == stem + [c] + init;
      assert tail[|tail| - 1] in tail;
      assert c !in init by {
        forall i | 0 <= i < |init| ensures init[i] != c {
          assert init[i] == tail[i];
        }
      }
      AfterLastSplit(stem, c, init);
      assert tail == init + [tail[|tail| - 1]];
    }
  }
}
