/**
  Decimal digit strings: the `%0Nd`-style rendering PHP's date formatter uses,
  and the greedy digit reader its date parser uses.
*/
module Decimal {

  predicate IsDigit(c: char) {
    '0' <= c <= '9'
  }

  predicate AllDigits(s: string) {
    forall i :: 0 <= i < |s| ==> IsDigit(s[i])
  }

  function DigitValue(c: char): nat
    requires IsDigit(c)
  {
    c as int - '0' as int
  }

  function DigitChar(n: nat): (c: char)
    requires n < 10
    ensures IsDigit(c) && DigitValue(c) == n
  {
    ('0' as int + n) as char
  }

  function Pow10(n: nat): (p: nat)
    ensures p >= 1
  {
    if n == 0 then 1 else 10 * Pow10(n - 1)
  }

  /** The number a string of decimal digits denotes (most significant digit first). */
  function ValueOf(s: string): nat
    requires AllDigits(s)
  {
    if s == [] then 0 else ValueOf(s[..|s| - 1]) * 10 + DigitValue(s[|s| - 1])
  }

  /** The last `w` decimal digits of `n`, with leading zeros. */
  function FixedDigits(n: nat, w: nat): (s: string)
    ensures |s| == w && AllDigits(s)
  {
    if w == 0 then [] else FixedDigits(n / 10, w - 1) + [DigitChar(n % 10)]
  }

  /** The shortest decimal rendering of `n`. */
  function Digits(n: nat): (s: string)
    ensures 1 <= |s| && AllDigits(s)
  {
    if n < 10 then [DigitChar(n)] else Digits(n / 10) + [DigitChar(n % 10)]
  }

  /** `n` rendered with at least `w` digits, zero-padded on the left: C's `%0*d`. */
  function Pad(n: nat, w: nat): (s: string)
    ensures AllDigits(s)
  {
    if n < Pow10(w) then FixedDigits(n, w) else Digits(n)
  }

  lemma {:induction false} ValueOfFixedDigits(n: nat, w: nat)
    requires n < Pow10(w)
    ensures ValueOf(FixedDigits(n, w)) == n
    decreases w
  {
    if w > 0 {
      var s := FixedDigits(n, w);
      assert s[..|s| - 1] == FixedDigits(n / 10, w - 1);
      ValueOfFixedDigits(n / 10, w - 1);
    }
  }

  lemma {:induction false} DigitsLength(n: nat, w: nat)
    requires Pow10(w) <= n
    ensures w < |Digits(n)|
    decreases w
  {
    if w > 0 {
      DigitsLength(n / 10, w - 1);
    }
  }

  /** A padded number fills exactly its width when it fits and overflows it otherwise. */
  lemma PadLength(n: nat, w: nat)
    ensures n < Pow10(w) ==> |Pad(n, w)| == w
    ensures Pow10(w) <= n ==> w < |Pad(n, w)|
  {
    if Pow10(w) <= n {
      DigitsLength(n, w);
    }
  }

  /** Reading back a padded number that fits its width gives the number. */
  lemma PadRoundTrip(n: nat, w: nat)
    requires n < Pow10(w)
    ensures |Pad(n, w)| == w
    ensures ValueOf(Pad(n, w)) == n
  {
    ValueOfFixedDigits(n, w);
  }

  /** How many leading digits of `s` a reader that takes at most `max` of them consumes. */
  function LeadingDigits(s: string, max: nat): (k: nat)
    ensures k <= max && k <= |s|
    ensures AllDigits(s[..k])
    ensures k < max && k < |s| ==> !IsDigit(s[k])
  {
    if max == 0 || s == [] || !IsDigit(s[0]) then 0
    else
      var k := 1 + LeadingDigits(s[1..], max - 1);
      assert s[..k] == [s[0]] + s[1..][..k - 1];
      k
  }

  /** A reader capped at `w` digits takes exactly the `w` digits of a full-width field. */
  lemma {:induction false} LeadingDigitsOfField(a: string, rest: string, w: nat)
    requires AllDigits(a) && |a| == w
    ensures LeadingDigits(a + rest, w) == w
    decreases w
  {
    if w > 0 {
      assert (a + rest)[1..] == a[1..] + rest;
      LeadingDigitsOfField(a[1..], rest, w - 1);
    }
  }
}
