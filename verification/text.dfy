/** String operations the service code borrows from the JavaScript runtime:
    `toLowerCase`, number-to-string in a template literal, `includes`, and
    the quote-stripping `replace(/['"]/g, '')`. */
module Text {

  // ---------------------------------------------------------------------
  // Lower-casing (ASCII letters; see README for what is left out)
  // ---------------------------------------------------------------------

  predicate IsUpper(c: char) {
    'A' <= c <= 'Z'
  }

  function LowerChar(c: char): (d: char)
    ensures !IsUpper(d)
    ensures IsUpper(c) ==> d as int == c as int + 32
    ensures !IsUpper(c) ==> d == c
  {
    if IsUpper(c) then (c as int + 32) as char else c
  }

  /** No upper-case ASCII letter occurs in `s`. */
  predicate IsLower(s: string) {
    forall i :: 0 <= i < |s| ==> !IsUpper(s[i])
  }

  function ToLower(s: string): (r: string)
    ensures |r| == |s|
    ensures forall i :: 0 <= i < |s| ==> r[i] == LowerChar(s[i])
    ensures IsLower(r)
  {
    if |s| == 0 then "" else [LowerChar(s[0])] + ToLower(s[1..])
  }

  /** Lower-casing a string that is already lower case changes nothing. */
  lemma LowerIsFixed(s: string)
    requires IsLower(s)
    ensures ToLower(s) == s
  {
    assert forall i :: 0 <= i < |s| ==> ToLower(s)[i] == s[i];
  }

  /** Lower-casing twice is lower-casing once. */
  lemma ToLowerIdempotent(s: string)
    ensures ToLower(ToLower(s)) == ToLower(s)
  {
    LowerIsFixed(ToLower(s));
  }

  // ---------------------------------------------------------------------
  // Decimal rendering of a non-negative integer, as in `${n}`
  // ---------------------------------------------------------------------

  predicate IsDigit(c: char) {
    '0' <= c <= '9'
  }

  predicate AllDigits(s: string) {
    forall i :: 0 <= i < |s| ==> IsDigit(s[i])
  }

  function DigitChar(d: nat): (c: char)
    requires d < 10
    ensures IsDigit(c)
    ensures c as int - '0' as int == d
  {
    ('0' as int + d) as char
  }

  function Decimal(n: nat): (r: string)
    ensures |r| >= 1
    ensures AllDigits(r)
    ensures |r| > 1 ==> r[0] != '0'
    decreases n
  {
    if n < 10 then [DigitChar(n)] else Decimal(n / 10) + [DigitChar(n % 10)]
  }

  /** The value of a string of decimal digits (the empty string has value 0). */
  function DigitsValue(s: string): nat
    requires AllDigits(s)
  {
    if |s| == 0 then 0
    else DigitsValue(s[..|s| - 1]) * 10 + (s[|s| - 1] as int - '0' as int)
  }

  /** Reading back a rendered number gives the number. */
  lemma {:induction false} DecimalRoundTrip(n: nat)
    ensures DigitsValue(Decimal(n)) == n
    decreases n
  {
    if n >= 10 {
      var d := Decimal(n);
      assert d[..|d| - 1] == Decimal(n / 10);
      DecimalRoundTrip(n / 10);
    }
  }

  /** Two numbers render the same only when they are equal. */
  lemma DecimalInjective(a: nat, b: nat)
    requires Decimal(a) == Decimal(b)
    ensures a == b
  {
    DecimalRoundTrip(a);
    DecimalRoundTrip(b);
  }

  // ---------------------------------------------------------------------
  // Substring test, as in `s.includes(t)`
  // ---------------------------------------------------------------------

  predicate OccursAt(s: string, i: nat, t: string) {
    i + |t| <= |s| && s[i..i + |t|] == t
  }

  predicate Includes(s: string, t: string) {
    exists i :: 0 <= i <= |s| && OccursAt(s, i, t)
  }

  // ---------------------------------------------------------------------
  // Removing quote characters, as in `replace(/['"]/g, '')`
  // ---------------------------------------------------------------------

  predicate IsQuote(c: char) {
    c == '\'' || c == '"'
  }

  predicate QuoteFree(s: string) {
    forall i :: 0 <= i < |s| ==> !IsQuote(s[i])
  }

  function StripQuotes(s: string): (r: string)
    ensures QuoteFree(r)
    ensures |r| <= |s|
    ensures forall i :: 0 <= i < |r| ==> r[i] in s
  {
    if |s| == 0 then ""
    else if IsQuote(s[0]) then StripQuotes(s[1..])
    else [s[0]] + StripQuotes(s[1..])
  }

  /** Stripping works piecewise: the quotes of a concatenation are the quotes of its parts. */
  lemma {:induction false} StripQuotesAppend(a: string, b: string)
    ensures StripQuotes(a + b) == StripQuotes(a) + StripQuotes(b)
    decreases |a|
  {
    if |a| > 0 {
      assert (a + b)[1..] == a[1..] + b;
      StripQuotesAppend(a[1..], b);
    } else {
      assert a + b == b;
    }
  }

  /** A string without quotes is left as it is. */
  lemma {:induction false} StripQuotesKeepsQuoteFree(s: string)
    requires QuoteFree(s)
    ensures StripQuotes(s) == s
    decreases |s|
  {
    if |s| > 0 {
      StripQuotesKeepsQuoteFree(s[1..]);
    }
  }

  /** Stripping quotes is idempotent. */
  lemma StripQuotesIdempotent(s: string)
    ensures StripQuotes(StripQuotes(s)) == StripQuotes(s)
  {
    StripQuotesKeepsQuoteFree(StripQuotes(s));
  }
}
