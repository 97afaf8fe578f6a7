/**
 String helpers with the meaning Python's `str` methods give them on ASCII
 text: whitespace classification, `strip`, the `in` substring test and the
 last element of `split`.
 */
module Text {

  /** `c.isspace()` for an ASCII character: space, TAB, LF, VT, FF, CR and the
      four separators 0x1C..0x1F. */
  predicate IsSpace(c: char) {
    var k := c as int;
    k == 32 || 9 <= k <= 13 || 28 <= k <= 31
  }

  predicate AllSpace(s: string) {
    forall i :: 0 <= i < |s| ==> IsSpace(s[i])
  }

  /** `s.lstrip()`: drops the leading whitespace and nothing else. */
  function StripLeft(s: string): (r: string)
    ensures |r| <= |s| && r == s[|s| - |r|..]
    ensures AllSpace(s[..|s| - |r|])
    ensures r == [] || !IsSpace(r[0])
  {
    if |s| > 0 && IsSpace(s[0]) then
      var t := StripLeft(s[1..]);
      assert s[..|s| - |t|] == [s[0]] + s[1..][..|s| - 1 - |t|];
      t
    else s
  }

  /** `s.rstrip()`: drops the trailing whitespace and nothing else. */
  function StripRight(s: string): (r: string)
    ensures |r| <= |s| && r == s[..|r|]
    ensures AllSpace(s[|r|..])
    ensures r == [] || !IsSpace(r[|r| - 1])
  {
    if |s| > 0 && IsSpace(s[|s| - 1]) then
      var t := StripRight(s[..|s| - 1]);
      assert s[|t|..] == s[..|s| - 1][|t|..] + [s[|s| - 1]];
      t
    else s
  }

  /** `s.strip()`: whitespace removed at both ends; empty exactly when `s`
      is all whitespace. */
  function Strip(s: string): (r: string)
    ensures |r| <= |s|
    ensures r == [] <==> AllSpace(s)
    ensures r != [] ==> !IsSpace(r[0]) && !IsSpace(r[|r| - 1])
  {
    var l := StripLeft(s);
    var r := StripRight(l);
    assert r == [] ==> AllSpace(s) by {
      if r == [] {
        assert l[0..] == l;
        assert s == s[..|s| - |l|] + l;
      }
    }
    assert r != [] ==> r[0] == s[|s| - |l|];
    r
  }

  /** What `strip` removes is whitespace and nothing else: the result is the
      infix of `s` between a blank prefix and a blank suffix. */
  lemma {:induction false} StripIsInfix(s: string)
    ensures exists lo, hi | 0 <= lo <= hi <= |s| ::
              Strip(s) == s[lo..hi] && AllSpace(s[..lo]) && AllSpace(s[hi..])
  {
    var l := StripLeft(s);
    var r := StripRight(l);
    var lo := |s| - |l|;
    var hi := lo + |r|;
    assert Strip(s) == r;
    assert r == s[lo..hi];
    assert s[hi..] == l[|r|..];
  }

  /** Stripping twice is stripping once. */
  lemma {:induction false} StripIdempotent(s: string)
    ensures Strip(Strip(s)) == Strip(s)
  {
    var t := Strip(s);
    if t == [] {
      assert Strip(t) == t by { assert AllSpace(t); }
    } else {
      assert Strip(t) == t by { StripTrimmed(t); }
    }
  }

  /** A text that neither starts nor ends with whitespace is its own strip. */
  lemma {:induction false} StripTrimmed(s: string)
    requires s != [] && !IsSpace(s[0]) && !IsSpace(s[|s| - 1])
    ensures Strip(s) == s
  {
    assert StripLeft(s) == s;
    assert StripRight(s) == s;
  }

  /** Stripping the right end changes nothing when the last character is
      not blank. */
  lemma {:induction false} StripRightKeeps(s: string)
    requires s != [] && !IsSpace(s[|s| - 1])
    ensures StripRight(s) == s
  {
    var r := StripRight(s);
    assert |r| == |s|;
  }

  /** A text whose last character is not blank keeps that character last
      when stripped. */
  lemma {:induction false} StripKeepsLast(s: string)
    requires s != [] && !IsSpace(s[|s| - 1])
    ensures Strip(s) != [] && Strip(s)[|Strip(s)| - 1] == s[|s| - 1]
  {
    var l := StripLeft(s);
    assert s[..|s|] == s;
    assert l != [];
    assert l[|l| - 1] == s[|s| - 1];
    StripRightKeeps(l);
  }

  /** Trailing whitespace after a non-blank last character is all that
      `rstrip` removes. */
  lemma {:induction false} StripRightDropsBlanks(t: string, w: string)
    requires t != [] && !IsSpace(t[|t| - 1]) && AllSpace(w)
    ensures StripRight(t + w) == t
    decreases |w|
  {
    var s := t + w;
    if w == [] {
      assert s == t;
      StripRightKeeps(t);
    } else {
      assert s[|s| - 1] == w[|w| - 1];
      assert s[..|s| - 1] == t + w[..|w| - 1];
      StripRightDropsBlanks(t, w[..|w| - 1]);
    }
  }

  /** Leading whitespace before a non-blank first character is all that
      `lstrip` removes. */
  lemma {:induction false} StripLeftDropsBlanks(w: string, t: string)
    requires AllSpace(w) && t != [] && !IsSpace(t[0])
    ensures StripLeft(w + t) == t
    decreases |w|
  {
    var s := w + t;
    if w == [] {
      assert s == t;
    } else {
      assert s[0] == w[0];
      assert s[1..] == w[1..] + t;
      StripLeftDropsBlanks(w[1..], t);
    }
  }

  /** A text with non-blank ends, with whitespace on either side, strips
      back to that text. */
  lemma {:induction false} StripSurrounded(w1: string, t: string, w2: string)
    requires AllSpace(w1) && AllSpace(w2)
    requires t != [] && !IsSpace(t[0]) && !IsSpace(t[|t| - 1])
    ensures Strip(w1 + t + w2) == t
  {
    var u := t + w2;
    assert u[0] == t[0];
    assert w1 + t + w2 == w1 + u;
    StripLeftDropsBlanks(w1, u);
    StripRightDropsBlanks(t, w2);
  }

  /** A text with non-blank ends, followed by whitespace, strips back to
      that text. */
  lemma {:induction false} StripDropsTrailing(t: string, w: string)
    requires t != [] && !IsSpace(t[0]) && !IsSpace(t[|t| - 1]) && AllSpace(w)
    ensures Strip(t + w) == t
  {
    var s := t + w;
    assert s[0] == t[0];
    assert StripLeft(s) == s;
    StripRightDropsBlanks(t, w);
  }

  /** `needle` occurs in `hay` starting at index `i`. */
  predicate OccursAt(needle: string, hay: string, i: int) {
    0 <= i && i + |needle| <= |hay| && hay[i..i + |needle|] == needle
  }

  /** Python's `needle in hay` on strings. */
  predicate IsInfix(needle: string, hay: string) {
    exists i | 0 <= i <= |hay| - |needle| :: OccursAt(needle, hay, i)
  }

  /** `s.split(c)[-1]`: the text after the last `c`, or all of `s` when it
      holds no `c`. */
  function LastSegment(s: string, c: char): (r: string)
    ensures c !in r
    ensures |r| <= |s| && r == s[|s| - |r|..]
    ensures c in s ==> |r| < |s| && s[|s| - |r| - 1] == c
    ensures c !in s ==> r == s
  {
    if |s| == 0 then []
    else if s[|s| - 1] == c then []
    else
      var t := LastSegment(s[..|s| - 1], c);
      assert s == s[..|s| - 1] + [s[|s| - 1]];
      t + [s[|s| - 1]]
  }

  /** Whatever precedes the last marker, the segment after it is recovered
      exactly: the split is by the LAST occurrence of `c`. */
  lemma {:induction false} LastSegmentAfterMarker(prefix: string, c: char, tail: string)
    requires c !in tail
    ensures LastSegment(prefix + [c] + tail, c) == tail
  {
    var s := prefix + [c] + tail;
    assert s[|prefix|] == c;
    assert s[|s| - |tail|..] == tail;
  }
}
