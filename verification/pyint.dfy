/**
 Python's decimal `str(n)` and `int(text)` on ASCII text: `int` accepts
 surrounding C whitespace (space, TAB, LF, VT, FF, CR), one optional sign,
 and decimal digits in which a single underscore may separate two digits.
 */
module PyInt {
  import opened Wrappers
  import opened Text

  /** CPython's default `sys.get_int_max_str_digits()`: `int()` rejects a
      decimal text with more digits than this. */
  const IntMaxStrDigits: nat := 4300

  predicate IsDigit(c: char) {
    '0' <= c <= '9'
  }

  function DigitChar(d: nat): (c: char)
    requires d < 10
    ensures IsDigit(c) && c as int - '0' as int == d
  {
    ('0' as int + d) as char
  }

  predicate AllDigits(s: string) {
    forall i :: 0 <= i < |s| ==> IsDigit(s[i])
  }

  /** The base-10 digit grammar of `int()`: a digit, then digits each of
      which may be preceded by one underscore. */
  predicate IsDigitRun(s: string) {
    |s| > 0 && IsDigit(s[0]) && IsRunTail(s[1..])
  }

  /** What may follow a digit inside a digit run. */
  predicate IsRunTail(s: string) {
    if s == [] then true
    else if IsDigit(s[0]) then IsRunTail(s[1..])
    else s[0] == '_' && |s| > 1 && IsDigit(s[1]) && IsRunTail(s[2..])
  }

  lemma {:induction false} RunTailChars(s: string)
    requires IsRunTail(s)
    ensures forall i :: 0 <= i < |s| ==> IsDigit(s[i]) || s[i] == '_'
    ensures s != [] ==> IsDigit(s[|s| - 1])
  {
    if s != [] && IsDigit(s[0]) {
      RunTailChars(s[1..]);
      assert forall i :: 1 <= i < |s| ==> s[i] == s[1..][i - 1];
    } else if s != [] {
      RunTailChars(s[2..]);
      assert forall i :: 2 <= i < |s| ==> s[i] == s[2..][i - 2];
    }
  }

  lemma {:induction false} DigitRunChars(s: string)
    requires IsDigitRun(s)
    ensures forall i :: 0 <= i < |s| ==> IsDigit(s[i]) || s[i] == '_'
    ensures IsDigit(s[|s| - 1])
  {
    RunTailChars(s[1..]);
    assert forall i :: 1 <= i < |s| ==> s[i] == s[1..][i - 1];
  }

  /** The text with every underscore removed and every other character
      kept: the same characters apart from `_`, in the same order (see
      `DropUnderscoresConcat` and `DropUnderscoresSeparator`). */
  function DropUnderscores(s: string): (r: string)
    ensures '_' !in r && |r| <= |s|
    ensures forall c :: c != '_' ==> (c in r <==> c in s)
    ensures (forall i :: 0 <= i < |s| ==> IsDigit(s[i]) || s[i] == '_') ==> AllDigits(r)
    ensures '_' !in s ==> r == s
  {
    if s == [] then []
    else (if s[0] == '_' then [] else [s[0]]) + DropUnderscores(s[1..])
  }

  /** Dropping underscores works piece by piece, so the order of what is
      kept is the order of the input. */
  lemma {:induction false} DropUnderscoresConcat(a: string, b: string)
    ensures DropUnderscores(a + b) == DropUnderscores(a) + DropUnderscores(b)
    decreases |a|
  {
    if a != [] {
      assert (a + b)[0] == a[0];
      assert (a + b)[1..] == a[1..] + b;
      DropUnderscoresConcat(a[1..], b);
    } else {
      assert a + b == b;
    }
  }

  /** An underscore between two digit groups is removed and nothing else:
      `1_0` reads as `10`. */
  lemma {:induction false} DropUnderscoresSeparator(a: string, b: string)
    requires '_' !in a && '_' !in b
    ensures DropUnderscores(a + "_" + b) == a + b
  {
    DropUnderscoresConcat(a + "_", b);
    DropUnderscoresConcat(a, "_");
  }

  /** The number a string of decimal digits denotes, most significant first. */
  function ValueOf(ds: string): nat
    requires AllDigits(ds)
  {
    if ds == [] then 0
    else 10 * ValueOf(ds[..|ds| - 1]) + (ds[|ds| - 1] as int - '0' as int)
  }

  /** The whitespace `int()` skips around the number of an ASCII text: the
      C `isspace` set, space, TAB, LF, VT, FF and CR. Unlike `str.isspace`
      it does not include the separators 0x1C..0x1F. (A text holding a
      non-ASCII character is first rewritten with every Unicode space
      turned into a space; the driver's replies are always ASCII.) */
  predicate IsIntSpace(c: char) {
    var k := c as int;
    k == 32 || 9 <= k <= 13
  }

  predicate AllIntSpace(s: string) {
    forall i :: 0 <= i < |s| ==> IsIntSpace(s[i])
  }

  /** The leading C whitespace `int()` skips, and nothing else. */
  function IntStripLeft(s: string): (r: string)
    ensures |r| <= |s| && r == s[|s| - |r|..]
    ensures AllIntSpace(s[..|s| - |r|])
    ensures r == [] || !IsIntSpace(r[0])
  {
    if |s| > 0 && IsIntSpace(s[0]) then
      var t := IntStripLeft(s[1..]);
      assert s[..|s| - |t|] == [s[0]] + s[1..][..|s| - 1 - |t|];
      t
    else s
  }

  /** The trailing C whitespace `int()` skips, and nothing else. */
  function IntStripRight(s: string): (r: string)
    ensures |r| <= |s| && r == s[..|r|]
    ensures AllIntSpace(s[|r|..])
    ensures r == [] || !IsIntSpace(r[|r| - 1])
  {
    if |s| > 0 && IsIntSpace(s[|s| - 1]) then
      var t := IntStripRight(s[..|s| - 1]);
      assert s[|t|..] == s[..|s| - 1][|t|..] + [s[|s| - 1]];
      t
    else s
  }

  /** The text `int()` reads once the surrounding C whitespace is gone;
      empty exactly when `s` is all C whitespace. */
  function IntStrip(s: string): (r: string)
    ensures |r| <= |s|
    ensures r == [] <==> AllIntSpace(s)
    ensures r != [] ==> !IsIntSpace(r[0]) && !IsIntSpace(r[|r| - 1])
  {
    var l := IntStripLeft(s);
    var r := IntStripRight(l);
    assert r == [] ==> AllIntSpace(s) by {
      if r == [] {
        assert l[0..] == l;
        assert s == s[..|s| - |l|] + l;
      }
    }
    assert r != [] ==> r[0] == s[|s| - |l|];
    r
  }

  /** A text that neither starts nor ends with C whitespace is read whole. */
  lemma {:induction false} IntStripTrimmed(s: string)
    requires s != [] && !IsIntSpace(s[0]) && !IsIntSpace(s[|s| - 1])
    ensures IntStrip(s) == s
  {
    assert IntStripLeft(s) == s;
    assert IntStripRight(s) == s;
  }

  lemma {:induction false} IntStripRightKeeps(s: string)
    requires s != [] && !IsIntSpace(s[|s| - 1])
    ensures IntStripRight(s) == s
  {
    var r := IntStripRight(s);
    assert |r| == |s|;
  }

  /** A text whose last character is not C whitespace keeps that character
      last once the padding is skipped. */
  lemma {:induction false} IntStripKeepsLast(s: string)
    requires s != [] && !IsIntSpace(s[|s| - 1])
    ensures IntStrip(s) != [] && IntStrip(s)[|IntStrip(s)| - 1] == s[|s| - 1]
  {
    var l := IntStripLeft(s);
    assert s[..|s|] == s;
    assert l != [];
    assert l[|l| - 1] == s[|s| - 1];
    IntStripRightKeeps(l);
  }

  /** Trailing C whitespace after a character that is not is all that is
      skipped at the right end. */
  lemma {:induction false} IntStripRightDropsBlanks(t: string, w: string)
    requires t != [] && !IsIntSpace(t[|t| - 1]) && AllIntSpace(w)
    ensures IntStripRight(t + w) == t
    decreases |w|
  {
    var s := t + w;
    if w == [] {
      assert s == t;
      IntStripRightKeeps(t);
    } else {
      assert s[|s| - 1] == w[|w| - 1];
      assert s[..|s| - 1] == t + w[..|w| - 1];
      IntStripRightDropsBlanks(t, w[..|w| - 1]);
    }
  }

  /** Leading C whitespace before a character that is not is all that is
      skipped at the left end. */
  lemma {:induction false} IntStripLeftDropsBlanks(w: string, t: string)
    requires AllIntSpace(w) && t != [] && !IsIntSpace(t[0])
    ensures IntStripLeft(w + t) == t
    decreases |w|
  {
    var s := w + t;
    if w == [] {
      assert s == t;
    } else {
      assert s[0] == w[0];
      assert s[1..] == w[1..] + t;
      IntStripLeftDropsBlanks(w[1..], t);
    }
  }

  /** C whitespace on either side of a text is skipped, and the text is read
      whole. */
  lemma {:induction false} IntStripSurrounded(w1: string, t: string, w2: string)
    requires AllIntSpace(w1) && AllIntSpace(w2)
    requires t != [] && !IsIntSpace(t[0]) && !IsIntSpace(t[|t| - 1])
    ensures IntStrip(w1 + t + w2) == t
  {
    var u := t + w2;
    assert u[0] == t[0];
    assert w1 + t + w2 == w1 + u;
    IntStripLeftDropsBlanks(w1, u);
    IntStripRightDropsBlanks(t, w2);
  }

  /** `int(s)` for base 10, with `None` for the `ValueError` it raises. */
  function ParseInt(s: string): (r: Option<int>)
    ensures AllSpace(s) ==> r == None
    ensures r.Some? ==> IntStrip(s) != [] && IsDigit(IntStrip(s)[|IntStrip(s)| - 1])
    ensures r.Some? && r.value < 0 ==> IntStrip(s)[0] == '-'
  {
    var t := IntStrip(s);
    assert t != [] ==> t[|t| - 1] == s[|s| - |IntStripLeft(s)| + |t| - 1];
    ParseSigned(t)
  }

  /** The part of `int()` after the surrounding whitespace is stripped: an
      optional sign, then an unsigned digit run. */
  function ParseSigned(t: string): (r: Option<int>)
    ensures r.Some? ==> t != [] && IsDigit(t[|t| - 1])
    ensures r.Some? && r.value < 0 ==> t[0] == '-'
  {
    if t == [] then None
    else if t[0] == '-' then
      match ParseUnsigned(t[1..])
      case None => None
      case Some(v) => Some(-(v as int))
    else if t[0] == '+' then
      match ParseUnsigned(t[1..])
      case None => None
      case Some(v) => Some(v)
    else
      match ParseUnsigned(t)
      case None => None
      case Some(v) => Some(v)
  }

  /** A digit run within the digit limit, read as a natural number. */
  function ParseUnsigned(body: string): (r: Option<nat>)
    ensures r.Some? ==> body != [] && IsDigit(body[|body| - 1])
    ensures r.Some? <==> IsDigitRun(body) && |DropUnderscores(body)| <= IntMaxStrDigits
    ensures r.Some? ==> AllDigits(DropUnderscores(body)) && r.value == ValueOf(DropUnderscores(body))
  {
    if IsDigitRun(body) then
      DigitRunChars(body);
      var ds := DropUnderscores(body);
      if |ds| <= IntMaxStrDigits then Some(ValueOf(ds)) else None
    else None
  }

  /** A text whose last character is neither a digit nor blank is not a
      number: `int("?")` raises. */
  lemma {:induction false} NoTrailingDigitNoInt(s: string)
    requires s != [] && !IsIntSpace(s[|s| - 1]) && !IsDigit(s[|s| - 1])
    ensures ParseInt(s) == None
  {
    IntStripKeepsLast(s);
  }

  /** A text whose first character is neither C whitespace, a sign nor a
      digit is not a number. */
  lemma {:induction false} NoLeadingNumberNoInt(s: string)
    requires s != [] && !IsIntSpace(s[0]) && !IsDigit(s[0]) && s[0] != '+' && s[0] != '-'
    ensures ParseInt(s) == None
  {
    assert IntStripLeft(s) == s;
    var t := IntStripRight(s);
    assert t == s[..|t|];
    assert t != [] ==> t[0] == s[0];
  }

  /** The separators 0x1C..0x1F are not skipped: `int("\x1c5")` raises,
      although `"\x1c5".strip()` is `"5"`. */
  lemma {:induction false} SeparatorNotSkipped(s: string)
    requires s != [] && 28 <= s[0] as int <= 31
    ensures IsSpace(s[0])
    ensures ParseInt(s) == None
  {
    NoLeadingNumberNoInt(s);
  }

  /** Leading zeros do not change the value: `int("07") == 7`. */
  lemma {:induction false} LeadingZeroValue(ds: string)
    requires AllDigits(ds)
    ensures AllDigits("0" + ds) && ValueOf("0" + ds) == ValueOf(ds)
  {
    var d := "0" + ds;
    assert AllDigits(d) by {
      assert forall i :: 1 <= i < |d| ==> d[i] == ds[i - 1];
    }
    if ds != [] {
      assert d[..|d| - 1] == "0" + ds[..|ds| - 1];
      LeadingZeroValue(ds[..|ds| - 1]);
    }
  }

  /** `str(n)` for a natural number: its digits, without leading zeros. */
  function NatDigits(n: nat): (r: string)
    ensures r != [] && AllDigits(r)
    ensures r[0] == '0' ==> n == 0
    ensures n < 10 ==> r == [DigitChar(n)]
    ensures n >= 10 ==> |r| >= 2
    ensures ValueOf(r) == n
  {
    if n < 10 then [DigitChar(n)]
    else
      var h := NatDigits(n / 10);
      var r := h + [DigitChar(n % 10)];
      assert r[..|r| - 1] == h;
      r
  }

  /** `str(n)`: an optional minus sign, then the digits of `|n|`. */
  function Decimal(n: int): (r: string)
    ensures r != []
    ensures r[0] == '-' <==> n < 0
    ensures forall i :: 0 <= i < |r| ==> IsDigit(r[i]) || (i == 0 && r[i] == '-')
    ensures 0 <= n < 10 ==> r == [DigitChar(n)]
    ensures n >= 10 || n < 0 ==> |r| >= 2
  {
    if n < 0 then "-" + NatDigits(-n) else NatDigits(n)
  }

  /** Plain digits, without underscores, are a digit run that denotes itself. */
  lemma {:induction false} PlainDigitsAreRun(s: string)
    requires s != [] && AllDigits(s)
    ensures IsDigitRun(s) && DropUnderscores(s) == s
  {
    PlainDigitsAreTail(s[1..]);
  }

  lemma {:induction false} PlainDigitsAreTail(s: string)
    requires AllDigits(s)
    ensures IsRunTail(s)
  {
    if s != [] {
      PlainDigitsAreTail(s[1..]);
    }
  }

  /** On text without surrounding whitespace `int()` is the sign step alone. */
  lemma {:induction false} ParseTrimmed(t: string, r: Option<int>)
    requires IntStrip(t) == t && ParseSigned(t) == r
    ensures ParseInt(t) == r
  {
  }

  /** Plain digits read as the number they denote. */
  lemma {:induction false} ParseUnsignedDigits(body: string)
    requires body != [] && AllDigits(body) && |body| <= IntMaxStrDigits
    ensures ParseUnsigned(body) == Some(ValueOf(body))
  {
    PlainDigitsAreRun(body);
  }

  /** `int()` of plain digits is the number they denote. */
  lemma {:induction false} ParseDigits(body: string)
    requires body != [] && AllDigits(body) && |body| <= IntMaxStrDigits
    ensures ParseInt(body) == Some(ValueOf(body) as int)
  {
    IntStripTrimmed(body);
    ParseUnsignedDigits(body);
    ParseTrimmed(body, Some(ValueOf(body) as int));
  }

  /** A minus sign followed by digits has no whitespace to strip. */
  lemma {:induction false} NegatedDigitsTrimmed(body: string)
    requires body != [] && AllDigits(body)
    ensures IntStrip("-" + body) == "-" + body
  {
    var t := "-" + body;
    assert t[|t| - 1] == body[|body| - 1];
    IntStripTrimmed(t);
  }

  /** The sign step reads a leading minus as negation of the number after it. */
  lemma {:induction false} ParseSignedNegated(body: string, v: nat)
    requires ParseUnsigned(body) == Some(v)
    ensures ParseSigned("-" + body) == Some(-(v as int))
  {
    var t := "-" + body;
    assert t[0] == '-' && t[1..] == body;
  }

  /** `int(str(n)) == n` for every integer within the digit limit. */
  lemma {:induction false} DecimalRoundTrip(n: int)
    requires |Decimal(n)| <= IntMaxStrDigits
    ensures ParseInt(Decimal(n)) == Some(n)
  {
    if n < 0 {
      var m: nat := -n;
      var body := NatDigits(m);
      assert Decimal(n) == "-" + body;
      assert |body| < |Decimal(n)|;
      NegatedDigitsTrimmed(body);
      ParseUnsignedDigits(body);
      ParseSignedNegated(body, m);
      ParseTrimmed("-" + body, Some(n));
    } else {
      ParseDigits(NatDigits(n));
    }
  }

  const NegativeSign: string := "-"

  /** The optional sign `int()` accepts: nothing, `+` or `-`. */
  predicate IsSign(sign: string) {
    sign == [] || (|sign| == 1 && (sign[0] == '+' || sign[0] == '-'))
  }

  /** The sign step on an optional sign followed by a digit run. */
  lemma {:induction false} ParseSignedAccepts(sign: string, body: string)
    requires IsSign(sign)
    requires IsDigitRun(body) && |DropUnderscores(body)| <= IntMaxStrDigits
    ensures AllDigits(DropUnderscores(body))
    ensures ParseSigned(sign + body)
            == Some(if sign == NegativeSign then -(ValueOf(DropUnderscores(body)) as int)
                    else ValueOf(DropUnderscores(body)))
  {
    DigitRunChars(body);
    var v := ValueOf(DropUnderscores(body));
    assert ParseUnsigned(body) == Some(v);
    var t := sign + body;
    if sign == [] {
      assert t == body;
    } else if sign[0] == '-' {
      assert sign == NegativeSign;
      ParseSignedNegated(body, v);
    } else {
      assert t[0] == '+' && t[1..] == body;
    }
  }

  /** `int()` accepts surrounding C whitespace, one optional sign and a
      digit run with single underscores between digits, within the digit
      limit, and gives the number the digits denote, negated after `-`. */
  lemma {:induction false} ParseIntAccepts(w1: string, sign: string, body: string, w2: string)
    requires AllIntSpace(w1) && AllIntSpace(w2)
    requires IsSign(sign)
    requires IsDigitRun(body) && |DropUnderscores(body)| <= IntMaxStrDigits
    ensures AllDigits(DropUnderscores(body))
    ensures ParseInt(w1 + sign + body + w2)
            == Some(if sign == NegativeSign then -(ValueOf(DropUnderscores(body)) as int)
                    else ValueOf(DropUnderscores(body)))
  {
    DigitRunChars(body);
    var t := sign + body;
    assert t[|t| - 1] == body[|body| - 1];
    assert t[0] == if sign == [] then body[0] else sign[0];
    assert w1 + sign + body + w2 == w1 + t + w2;
    IntStripSurrounded(w1, t, w2);
    ParseSignedAccepts(sign, body);
  }

  /** Conversely, whatever `int()` accepts is, once the C whitespace around
      it is skipped, an optional sign and a digit run within the digit
      limit, and its value is the one `ParseIntAccepts` gives. */
  lemma {:induction false} ParseIntSound(s: string)
    requires ParseInt(s).Some?
    ensures var t := IntStrip(s);
            var body := if t[0] == '-' || t[0] == '+' then t[1..] else t;
            && IsDigitRun(body) && |DropUnderscores(body)| <= IntMaxStrDigits
            && AllDigits(DropUnderscores(body))
            && ParseInt(s).value == if t[0] == '-' then -(ValueOf(DropUnderscores(body)) as int)
                                    else ValueOf(DropUnderscores(body))
  {
    var t := IntStrip(s);
    assert ParseInt(s) == ParseSigned(t);
  }
}
