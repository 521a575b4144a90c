/** The few string operations of Python that the batch script relies on:
    `str(n)` for an int, `str.upper()` on an ASCII extension, `str.endswith`
    (as used by a `*<suffix>` glob) and `', '.join`. */
module Text {

  /** The decimal digit character for `d`. */
  function Digit(d: nat): (c: char)
    requires d < 10
    ensures '0' <= c <= '9'
  {
    (48 + d) as char
  }

  predicate IsDigit(c: char) {
    '0' <= c <= '9'
  }

  /** The value of a decimal digit character. */
  function DigitValue(c: char): (d: nat)
    requires IsDigit(c)
    ensures d < 10
  {
    c as int - 48
  }

  /** The number a string of decimal digits denotes, read as `int(s)` would. */
  function DecimalValue(s: string): (n: nat)
    requires forall k :: 0 <= k < |s| ==> IsDigit(s[k])
  {
    if s == [] then 0
    else DecimalValue(s[..|s| - 1]) * 10 + DigitValue(s[|s| - 1])
  }

  /** `int(s)` for the text of an int: an optional '-' and decimal digits. */
  predicate IsNumeral(s: string) {
    |s| >= 1
    && (s[0] == '-' ==> |s| >= 2)
    && forall k :: (if s[0] == '-' then 1 else 0) <= k < |s| ==> IsDigit(s[k])
  }

  function NumeralValue(s: string): int
    requires IsNumeral(s)
  {
    if s[0] == '-' then -(DecimalValue(s[1..]) as int) else DecimalValue(s)
  }

  /** `str(n)` for a non-negative int: decimal digits without leading zeros. */
  function NatToString(n: nat): (s: string)
    ensures |s| >= 1
    ensures n < 10 <==> |s| == 1
    ensures IsDigit(s[0])
    ensures s[0] == '0' <==> n == 0
  {
    if n < 10 then [Digit(n)] else NatToString(n / 10) + [Digit(n % 10)]
  }

  /** `str(n)` for any int: a leading '-' exactly when `n` is negative. */
  function IntToString(n: int): (s: string)
    ensures |s| >= 1
    ensures s[0] == '-' <==> n < 0
    ensures s[0] == '-' || IsDigit(s[0])
  {
    if n < 0 then "-" + NatToString(-n) else NatToString(n)
  }

  /** The text of a non-negative int is digits only, with no leading zero
      unless it is "0", and reads back as the same number. */
  lemma {:induction false} NatToStringRoundTrip(n: nat)
    ensures var s := NatToString(n);
            && (forall k :: 0 <= k < |s| ==> IsDigit(s[k]))
            && (s[0] == '0' ==> |s| == 1)
            && DecimalValue(s) == n
  {
    var s := NatToString(n);
    if n >= 10 {
      NatToStringRoundTrip(n / 10);
      var init := NatToString(n / 10);
      assert s == init + [Digit(n % 10)];
      assert s[..|s| - 1] == init;
      assert DigitValue(Digit(n % 10)) == n % 10;
    } else {
      assert DigitValue(Digit(n)) == n;
      assert s[..0] == [];
    }
  }

  /** `str(n)` is a numeral and `int(str(n)) == n`, with '-' only for
      negative numbers and no leading zero. */
  lemma IntToStringRoundTrip(n: int)
    ensures var s := IntToString(n);
            && IsNumeral(s)
            && NumeralValue(s) == n
            && (forall k :: 1 <= k < |s| ==> IsDigit(s[k]))
            && (var digits := if n < 0 then s[1..] else s; digits[0] == '0' ==> digits == "0")
  {
    var s := IntToString(n);
    if n < 0 {
      NatToStringRoundTrip(-n);
      assert s[1..] == NatToString(-n);
    } else {
      NatToStringRoundTrip(n);
    }
  }

  /** `str` is injective on ints: distinct widths never share a directory name. */
  lemma IntToStringInjective(a: int, b: int)
    requires IntToString(a) == IntToString(b)
    ensures a == b
  {
    IntToStringRoundTrip(a);
    IntToStringRoundTrip(b);
  }

  /** The text of the default widths. */
  lemma DefaultWidthTexts()
    ensures IntToString(320) == "320" && IntToString(640) == "640" && IntToString(960) == "960"
    ensures IntToString(-5) == "-5"
  {
    assert NatToString(3) == "3" && NatToString(32) == "32";
    assert NatToString(6) == "6" && NatToString(64) == "64";
    assert NatToString(9) == "9" && NatToString(96) == "96";
  }

  /** Python's `str.upper()` restricted to ASCII letters, which is all it meets here. */
  function UpperChar(c: char): (u: char)
    ensures 'a' <= c <= 'z' ==> 'A' <= u <= 'Z' && u as int == c as int - 32
    ensures !('a' <= c <= 'z') ==> u == c
  {
    if 'a' <= c <= 'z' then (c as int - 32) as char else c
  }

  function Upper(s: string): (u: string)
    ensures |u| == |s|
    ensures forall k :: 0 <= k < |s| ==> u[k] == UpperChar(s[k])
  {
    seq(|s|, k requires 0 <= k < |s| => UpperChar(s[k]))
  }

  /** `name.endswith(suffix)`, which is what the glob pattern `*<suffix>` tests. */
  predicate EndsWith(name: string, suffix: string) {
    |suffix| <= |name| && name[|name| - |suffix|..] == suffix
  }

  /** `', '.join(map(str, xs))`. */
  function JoinInts(xs: seq<int>): (s: string)
    ensures xs == [] <==> s == ""
  {
    if xs == [] then ""
    else if |xs| == 1 then IntToString(xs[0])
    else IntToString(xs[0]) + ", " + JoinInts(xs[1..])
  }

  /** The text of an int never contains the separator's comma. */
  lemma IntToStringNoComma(n: int)
    ensures forall k :: 0 <= k < |IntToString(n)| ==> IntToString(n)[k] != ','
  {
    IntToStringRoundTrip(n);
  }

  /** A comma-free first field, followed by nothing or by text that starts
      with a comma, is determined by the whole string. */
  lemma {:induction false} FirstFieldUnique(p: string, q: string, p': string, q': string)
    requires forall k :: 0 <= k < |p| ==> p[k] != ','
    requires forall k :: 0 <= k < |p'| ==> p'[k] != ','
    requires q == [] || q[0] == ','
    requires q' == [] || q'[0] == ','
    requires p + q == p' + q'
    ensures p == p' && q == q'
  {
    assert p == (p + q)[..|p|] && p' == (p' + q')[..|p'|];
  }

  /** The text after the first field of a join: empty for one element,
      otherwise the separator and the join of the rest. */
  lemma JoinSplit(xs: seq<int>)
    requires xs != []
    ensures var r := JoinInts(xs)[|IntToString(xs[0])|..];
            && JoinInts(xs) == IntToString(xs[0]) + r
            && (|xs| == 1 <==> r == [])
            && (r == [] || r[0] == ',')
            && (|xs| > 1 ==> |r| >= 2 && r[2..] == JoinInts(xs[1..]))
  {
    var h := IntToString(xs[0]);
    if |xs| > 1 {
      var r := ", " + JoinInts(xs[1..]);
      assert JoinInts(xs) == h + r;
      assert JoinInts(xs)[|h|..] == r;
    }
  }

  /** Equal joins of non-empty lists agree on the first element and on
      the join of the rest. */
  lemma JoinHeadStep(a: seq<int>, b: seq<int>)
    requires a != [] && b != [] && JoinInts(a) == JoinInts(b)
    ensures a[0] == b[0]
    ensures |a| > 1 <==> |b| > 1
    ensures |a| > 1 ==> JoinInts(a[1..]) == JoinInts(b[1..])
  {
    var s := JoinInts(a);
    var ha, hb := IntToString(a[0]), IntToString(b[0]);
    JoinSplit(a);
    JoinSplit(b);
    IntToStringNoComma(a[0]);
    IntToStringNoComma(b[0]);
    FirstFieldUnique(ha, s[|ha|..], hb, s[|hb|..]);
    IntToStringInjective(a[0], b[0]);
  }

  /** The joined text splits back into the list: two lists with the same
      `', '.join(map(str, ...))` are equal. */
  lemma {:induction false} JoinIntsInjective(a: seq<int>, b: seq<int>)
    requires JoinInts(a) == JoinInts(b)
    ensures a == b
  {
    if a != [] && b != [] {
      JoinHeadStep(a, b);
      if |a| > 1 {
        JoinIntsInjective(a[1..], b[1..]);
        assert a == [a[0]] + a[1..] && b == [b[0]] + b[1..];
      }
    }
  }

  /** The "Target widths" text for the default widths. */
  lemma JoinDefaultWidths()
    ensures JoinInts([320, 640, 960]) == "320, 640, 960"
  {
    DefaultWidthTexts();
    assert [320, 640, 960][1..] == [640, 960];
    assert [640, 960][1..] == [960];
  }
}
