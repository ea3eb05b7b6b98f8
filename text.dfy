/**
 * Character-level helpers that the ingestion routine relies on: Python's
 * `str(int)` for page numbers, `str.lower()` (ASCII only) and
 * `str.endswith`.
 */
module Text {

  predicate IsDigit(c: char) {
    '0' <= c <= '9'
  }

  predicate AllDigits(s: string) {
    forall i :: 0 <= i < |s| ==> IsDigit(s[i])
  }

  function DigitChar(d: nat): (c: char)
    requires d < 10
    ensures IsDigit(c) && c as int - '0' as int == d
  {
    (d + '0' as int) as char
  }

  /** Decimal rendering of a natural number, as Python's `str(n)`. */
  function NatToString(n: nat): (s: string)
    ensures s != [] && AllDigits(s)
    ensures (s[0] == '0') <==> (n == 0)
    decreases n
  {
    if n < 10 then [DigitChar(n)] else NatToString(n / 10) + [DigitChar(n % 10)]
  }

  /** Reads a string of decimal digits back as a number. */
  function ParseNat(s: string): nat
    requires AllDigits(s)
  {
    if s == [] then 0
    else ParseNat(s[..|s| - 1]) * 10 + (s[|s| - 1] as int - '0' as int)
  }

  lemma {:induction false} NatToStringRoundTrip(n: nat)
    ensures ParseNat(NatToString(n)) == n
    decreases n
  {
    if n >= 10 {
      var s := NatToString(n);
      assert s[..|s| - 1] == NatToString(n / 10);
      NatToStringRoundTrip(n / 10);
    }
  }

  /** Number of consecutive digits at the end of `s`. */
  function TrailingDigits(s: string): (k: nat)
    ensures k <= |s|
    ensures forall i :: |s| - k <= i < |s| ==> IsDigit(s[i])
    ensures k < |s| ==> !IsDigit(s[|s| - k - 1])
  {
    if s == [] || !IsDigit(s[|s| - 1]) then 0
    else 1 + TrailingDigits(s[..|s| - 1])
  }

  lemma {:induction false} TrailingDigitsOfSuffix(x: string, d: string)
    requires x != [] && !IsDigit(x[|x| - 1]) && AllDigits(d)
    ensures TrailingDigits(x + d) == |d|
    decreases |d|
  {
    if d != [] {
      var d' := d[..|d| - 1];
      assert (x + d)[..|x + d| - 1] == x + d';
      TrailingDigitsOfSuffix(x, d');
    } else {
      assert x + d == x;
    }
  }

  function LowerChar(c: char): char {
    if 'A' <= c <= 'Z' then (c as int - 'A' as int + 'a' as int) as char else c
  }

  /** ASCII lower-casing; Python's `str.lower()` restricted to ASCII. */
  function AsciiLower(s: string): string {
    seq(|s|, i requires 0 <= i < |s| => LowerChar(s[i]))
  }

  predicate StartsWith(s: string, prefix: string) {
    |prefix| <= |s| && s[..|prefix|] == prefix
  }

  predicate EndsWith(s: string, suffix: string) {
    |suffix| <= |s| && s[|s| - |suffix|..] == suffix
  }

  /** An independent, character-by-character statement of "ends in .pdf, ignoring case". */
  predicate HasPdfExtension(name: string) {
    var n := |name|;
    n >= 4 && name[n - 4] == '.' && name[n - 3] in "pP" && name[n - 2] in "dD" && name[n - 1] in "fF"
  }

  lemma LowerSuffixIsPdf(name: string)
    ensures EndsWith(AsciiLower(name), ".pdf") <==> HasPdfExtension(name)
  {
    var n := |name|;
    var low := AsciiLower(name);
    if n >= 4 {
      assert EndsWith(low, ".pdf") <==> low[n - 4] == '.' && low[n - 3] == 'p' && low[n - 2] == 'd' && low[n - 1] == 'f';
    }
  }
}
