/** Character classes, trimming and decimal rendering as the Rust standard library does them. */
module Text {

  /** Unicode White_Space, the set `char::is_whitespace` (and hence `str::trim`) uses. */
  predicate IsWhitespace(c: char) {
    || ('\t' <= c <= '\r')
    || c == ' '
    || c == '\U{85}'
    || c == '\U{A0}'
    || c == '\U{1680}'
    || ('\U{2000}' <= c <= '\U{200A}')
    || c == '\U{2028}'
    || c == '\U{2029}'
    || c == '\U{202F}'
    || c == '\U{205F}'
    || c == '\U{3000}'
  }

  predicate AllWhitespace(s: string) {
    forall i :: 0 <= i < |s| ==> IsWhitespace(s[i])
  }

  /** Neither the first nor the last character is whitespace. */
  predicate NoSurroundingWhitespace(s: string) {
    |s| == 0 || (!IsWhitespace(s[0]) && !IsWhitespace(s[|s| - 1]))
  }

  /** The end of the whitespace run starting at `i`. */
  function SkipForward(s: string, i: nat): (n: nat)
    requires i <= |s|
    ensures i <= n <= |s|
    ensures forall k :: i <= k < n ==> IsWhitespace(s[k])
    ensures n == |s| || !IsWhitespace(s[n])
    decreases |s| - i
  {
    if i < |s| && IsWhitespace(s[i]) then SkipForward(s, i + 1) else i
  }

  /** The start of the whitespace run ending at `j`, going no further left than `lo`. */
  function SkipBackward(s: string, lo: nat, j: nat): (e: nat)
    requires lo <= j <= |s|
    ensures lo <= e <= j
    ensures forall k :: e <= k < j ==> IsWhitespace(s[k])
    ensures e == lo || !IsWhitespace(s[e - 1])
    decreases j
  {
    if j > lo && IsWhitespace(s[j - 1]) then SkipBackward(s, lo, j - 1) else j
  }

  /** The whitespace run starting at `i` is determined by where it stops. */
  lemma {:induction false} SkipForwardStops(s: string, i: nat, n: nat)
    requires i <= n <= |s|
    requires forall k :: i <= k < n ==> IsWhitespace(s[k])
    requires n == |s| || !IsWhitespace(s[n])
    ensures SkipForward(s, i) == n
    decreases n - i
  {
    if i < n {
      SkipForwardStops(s, i + 1, n);
    }
  }

  /** The whitespace run ending at `j` is determined by where it starts. */
  lemma {:induction false} SkipBackwardStops(s: string, lo: nat, e: nat, j: nat)
    requires lo <= e <= j <= |s|
    requires forall k :: e <= k < j ==> IsWhitespace(s[k])
    requires e == lo || !IsWhitespace(s[e - 1])
    ensures SkipBackward(s, lo, j) == e
    decreases j - e
  {
    if e < j {
      SkipBackwardStops(s, lo, e, j - 1);
    }
  }

  /** `str::trim`: `s` with all leading and trailing whitespace removed. */
  function Trim(s: string): (r: string)
    ensures NoSurroundingWhitespace(r)
    ensures |r| <= |s|
  {
    var i := SkipForward(s, 0);
    s[i..SkipBackward(s, i, |s|)]
  }

  /** What trimming keeps: a contiguous piece of `s`, with nothing but whitespace cut off on
      either side. */
  lemma TrimIsSlice(s: string)
    ensures var i, r := SkipForward(s, 0), Trim(s);
            && i + |r| <= |s|
            && r == s[i..i + |r|]
            && (forall k :: 0 <= k < i ==> IsWhitespace(s[k]))
            && (forall k :: i + |r| <= k < |s| ==> IsWhitespace(s[k]))
  {
    var i := SkipForward(s, 0);
    var e := SkipBackward(s, i, |s|);
    assert Trim(s) == s[i..e];
  }

  /** Trimming is characterised by its result: whatever whitespace surrounds a string
      free of surrounding whitespace, trimming returns exactly that string. */
  lemma TrimOf(pre: string, mid: string, post: string)
    requires AllWhitespace(pre) && AllWhitespace(post)
    requires NoSurroundingWhitespace(mid)
    ensures Trim(pre + mid + post) == mid
  {
    var s := pre + mid + post;
    var a, b := |pre|, |pre| + |mid|;
    assert forall k :: 0 <= k < a ==> s[k] == pre[k];
    assert forall k :: b <= k < |s| ==> s[k] == post[k - b];
    if |mid| == 0 {
      SkipForwardStops(s, 0, |s|);
      assert s[|s|..|s|] == [];
    } else {
      assert s[a] == mid[0] && s[b - 1] == mid[|mid| - 1];
      SkipForwardStops(s, 0, a);
      SkipBackwardStops(s, a, b, |s|);
      assert s[a..b] == mid;
    }
  }

  /** A string already free of surrounding whitespace is left unchanged by trimming. */
  lemma {:induction false} TrimFixpoint(s: string)
    requires NoSurroundingWhitespace(s)
    ensures Trim(s) == s
  {
    TrimOf([], s, []);
    assert [] + s + [] == s;
  }

  /** Trimming removes whitespace and nothing else, so a second trim changes nothing. */
  lemma TrimIdempotent(s: string)
    ensures Trim(Trim(s)) == Trim(s)
  {
    TrimFixpoint(Trim(s));
  }

  predicate IsDigit(c: char) {
    '0' <= c <= '9'
  }

  predicate AllDigits(s: string) {
    forall i :: 0 <= i < |s| ==> IsDigit(s[i])
  }

  function DigitChar(d: nat): (c: char)
    requires d < 10
    ensures IsDigit(c) && c as int - '0' as int == d
  {
    ('0' as int + d) as char
  }

  /** The number a string of decimal digits denotes (leading zeros allowed). */
  function DigitsValue(s: string): nat
    requires AllDigits(s)
  {
    if |s| == 0 then 0
    else 10 * DigitsValue(s[..|s| - 1]) + (s[|s| - 1] as int - '0' as int)
  }

  /** `format!("{}", n)` for a non-negative integer: base-10 digits without leading zeros. */
  function Decimal(n: nat): (r: string)
    ensures |r| >= 1 && AllDigits(r)
    ensures DigitsValue(r) == n
    ensures r[0] == '0' ==> r == "0"
    ensures |r| == 1 <==> n < 10
    decreases n
  {
    if n < 10 then [DigitChar(n)]
    else
      var r := Decimal(n / 10) + [DigitChar(n % 10)];
      assert r[..|r| - 1] == Decimal(n / 10);
      r
  }

  /** `Decimal` is the only rendering of `n` without leading zeros: any digit string with
      value `n` that starts with `0` only when it is `"0"` is `Decimal(n)`. */
  lemma {:induction false} DecimalUnique(s: string, n: nat)
    requires |s| >= 1 && AllDigits(s) && DigitsValue(s) == n
    requires s[0] == '0' ==> s == "0"
    ensures s == Decimal(n)
    decreases |s|
  {
    var last := s[|s| - 1];
    if |s| == 1 {
      assert s == [last];
      assert DigitsValue(s[..0]) == 0;
    } else {
      var p := s[..|s| - 1];
      assert p[0] == s[0];
      DecimalUnique(p, DigitsValue(p));
      assert n / 10 == DigitsValue(p) && n % 10 == last as int - '0' as int;
      assert n >= 10;
      assert s == p + [last];
    }
  }

  /** A leading zero does not change the value of a digit string. */
  lemma {:induction false} LeadingZeroValue(s: string)
    requires AllDigits(s)
    ensures AllDigits("0" + s) && DigitsValue("0" + s) == DigitsValue(s)
    decreases |s|
  {
    var z := "0" + s;
    if |s| > 0 {
      assert z[..|z| - 1] == "0" + s[..|s| - 1];
      LeadingZeroValue(s[..|s| - 1]);
    } else {
      assert z[..|z| - 1] == [];
    }
  }

  /** The maximal run of decimal digits at the start of `s`. */
  function LeadingDigits(s: string): (r: string)
    ensures AllDigits(r)
    ensures r <= s
    ensures |r| == |s| || !IsDigit(s[|r|])
    decreases |s|
  {
    if |s| > 0 && IsDigit(s[0]) then [s[0]] + LeadingDigits(s[1..]) else []
  }

  /** A digit string followed by a non-digit is recovered as the leading digit run. */
  lemma {:induction false} LeadingDigitsOfPrefix(d: string, rest: string)
    requires AllDigits(d)
    requires |rest| == 0 || !IsDigit(rest[0])
    ensures LeadingDigits(d + rest) == d
    decreases |d|
  {
    if |d| > 0 {
      assert (d + rest)[1..] == d[1..] + rest;
      LeadingDigitsOfPrefix(d[1..], rest);
    } else {
      assert d + rest == rest;
    }
  }

  /** `str::ends_with`. */
  predicate EndsWith(s: string, suffix: string) {
    |suffix| <= |s| && s[|s| - |suffix|..] == suffix
  }

  /** Putting anything in front keeps a suffix. */
  lemma EndsWithPrepend(a: string, s: string, suffix: string)
    requires EndsWith(s, suffix)
    ensures EndsWith(a + s, suffix)
  {
    assert (a + s)[|a + s| - |suffix|..] == s[|s| - |suffix|..];
  }
}
