/** Character classes and decimal formatting shared by the text filters, the
    path model and the output naming. */
module Strings {

  predicate IsAsciiLetter(c: char) {
    'a' <= c <= 'z' || 'A' <= c <= 'Z'
  }

  predicate IsAsciiDigit(c: char) {
    '0' <= c <= '9'
  }

  /** The regex class `[a-zA-Z0-9]`. */
  predicate IsAsciiAlnum(c: char) {
    IsAsciiLetter(c) || IsAsciiDigit(c)
  }

  /** A character on the word side of a regex `\b`, restricted to ASCII. */
  predicate IsWordChar(c: char) {
    IsAsciiAlnum(c) || c == '_'
  }

  /** Python's `str.isspace`, which decides both `str.strip()` and the regex
      class `\s` for text patterns. */
  predicate IsSpace(c: char) {
    || '\t' <= c <= '\r'
    || '\U{1C}' <= c <= '\U{1F}'
    || c == ' '
    || c == '\U{85}'
    || c == '\U{A0}'
    || c == '\U{1680}'
    || '\U{2000}' <= c <= '\U{200A}'
    || c == '\U{2028}'
    || c == '\U{2029}'
    || c == '\U{202F}'
    || c == '\U{205F}'
    || c == '\U{3000}'
  }

  /** Lower-casing of one character, restricted to ASCII. */
  function LowerChar(c: char): (r: char)
    ensures IsAsciiLetter(c) <==> IsAsciiLetter(r)
    ensures !IsAsciiLetter(c) ==> r == c
    ensures !('A' <= r <= 'Z')
  {
    if 'A' <= c <= 'Z' then (c as int + 32) as char else c
  }

  /** `str.lower()`: position by position, letters lowered, all else kept. */
  function Lower(s: string): (r: string)
    ensures |r| == |s|
    ensures forall i :: 0 <= i < |s| ==> r[i] == LowerChar(s[i])
  {
    seq(|s|, i requires 0 <= i < |s| => LowerChar(s[i]))
  }

  function DigitChar(d: nat): (c: char)
    requires d < 10
    ensures IsAsciiDigit(c)
  {
    ('0' as int + d) as char
  }

  function DigitValue(c: char): (d: nat)
    requires IsAsciiDigit(c)
    ensures d < 10
  {
    c as int - '0' as int
  }

  predicate AllDigits(s: string) {
    forall i :: 0 <= i < |s| ==> IsAsciiDigit(s[i])
  }

  /** `str(n)` for a natural number: its decimal digits, most significant
      first, with no leading zero. */
  function Decimal(n: nat): (r: string)
    ensures |r| >= 1
    ensures AllDigits(r)
    ensures |r| > 1 ==> r[0] != '0'
    decreases n
  {
    if n < 10 then [DigitChar(n)] else Decimal(n / 10) + [DigitChar(n % 10)]
  }

  /** The value of a string of decimal digits. */
  function ParseDecimal(s: string): nat
    requires AllDigits(s)
  {
    if |s| == 0 then 0 else ParseDecimal(s[..|s| - 1]) * 10 + DigitValue(s[|s| - 1])
  }

  /** `n` printed and read back is `n`. */
  lemma {:induction false} ParseDecimalOfDecimal(n: nat)
    ensures ParseDecimal(Decimal(n)) == n
    decreases n
  {
    if n >= 10 {
      var d := Decimal(n);
      assert d[..|d| - 1] == Decimal(n / 10);
      ParseDecimalOfDecimal(n / 10);
    }
  }

  function Repeat(c: char, k: nat): (r: string)
    ensures |r| == k
    ensures forall i :: 0 <= i < k ==> r[i] == c
  {
    seq(k, i => c)
  }

  /** A format spec `{n:0W}` for a natural number: the decimal digits with
      zeros in front up to width `width`; longer numbers are not cut. */
  function ZeroPad(n: nat, width: nat): (r: string)
    ensures AllDigits(r)
    ensures |r| == if |Decimal(n)| < width then width else |Decimal(n)|
    ensures r[|r| - |Decimal(n)|..] == Decimal(n)
    ensures forall i :: 0 <= i < |r| - |Decimal(n)| ==> r[i] == '0'
  {
    var d := Decimal(n);
    (if |d| < width then Repeat('0', width - |d|) else []) + d
  }

  lemma {:induction false} LeadingZerosDoNotCount(k: nat, s: string)
    requires AllDigits(s)
    ensures AllDigits(Repeat('0', k) + s)
    ensures ParseDecimal(Repeat('0', k) + s) == ParseDecimal(s)
    decreases |s|, k
  {
    var z := Repeat('0', k);
    if |s| == 0 {
      assert z + s == z;
      if k > 0 {
        assert z[..k - 1] == Repeat('0', k - 1);
        LeadingZerosDoNotCount(k - 1, s);
        assert Repeat('0', k - 1) + s == Repeat('0', k - 1);
      }
    } else {
      var t := z + s;
      assert t[..|t| - 1] == z + s[..|s| - 1];
      assert t[|t| - 1] == s[|s| - 1];
      LeadingZerosDoNotCount(k, s[..|s| - 1]);
    }
  }

  /** A zero-padded number reads back as the number. */
  lemma ZeroPadRoundTrip(n: nat, width: nat)
    ensures ParseDecimal(ZeroPad(n, width)) == n
  {
    var d := Decimal(n);
    ParseDecimalOfDecimal(n);
    if |d| < width {
      LeadingZerosDoNotCount(width - |d|, d);
    } else {
      assert ZeroPad(n, width) == d;
    }
  }

  function Pow10(k: nat): (r: nat)
    ensures r >= 1
  {
    if k == 0 then 1 else 10 * Pow10(k - 1)
  }

  /** Numbers below 10^k need at most k digits, so padding them to width k
      gives exactly k characters. */
  lemma {:induction false} DecimalLength(n: nat, k: nat)
    requires 1 <= k && n < Pow10(k)
    ensures |Decimal(n)| <= k
    ensures |ZeroPad(n, k)| == k
    decreases k
  {
    if n >= 10 {
      DecimalLength(n / 10, k - 1);
    }
  }
}
