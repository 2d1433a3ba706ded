/** Go's `strconv.FormatInt(n, 10)` on a 64-bit signed integer, the form in
    which the token generator renders the clock reading, and its inverse. */
module Decimal {
  import opened Results
  import opened Text

  type Int64 = x: int | -0x8000_0000_0000_0000 <= x < 0x8000_0000_0000_0000

  const Minus: byte := 45

  predicate IsDigit(b: byte) {
    48 <= b <= 57
  }

  predicate AllDigits(d: Bytes) {
    forall i :: 0 <= i < |d| ==> IsDigit(d[i])
  }

  /** The ASCII decimal digits of n, most significant first, without
      leading zeros. */
  function Digits(n: nat): (d: Bytes)
    ensures |d| >= 1 && AllDigits(d)
    ensures d[0] == 48 <==> n == 0
  {
    if n < 10 then [48 + n] else Digits(n / 10) + [48 + n % 10]
  }

  /** The number a string of ASCII digits denotes. */
  function ValueOf(d: Bytes): nat
    requires AllDigits(d)
  {
    if d == [] then 0 else 10 * ValueOf(d[..|d| - 1]) + (d[|d| - 1] - 48)
  }

  lemma {:induction false} DigitsValue(n: nat)
    ensures ValueOf(Digits(n)) == n
  {
    if n >= 10 {
      var d := Digits(n);
      assert d[..|d| - 1] == Digits(n / 10);
      DigitsValue(n / 10);
    }
  }

  /** `strconv.FormatInt(n, 10)`: a minus sign for negative n, then the
      digits of |n|. */
  function FormatInt(n: Int64): (s: Bytes)
    ensures |s| >= 1
    ensures s[0] == Minus <==> n < 0
    ensures AllDigits(s[1..]) && (n >= 0 ==> IsDigit(s[0]))
  {
    if n < 0 then [Minus] + Digits(-(n as int)) else Digits(n)
  }

  /** Reads back what FormatInt writes: an optional minus sign followed by
      one or more digits. */
  function ParseInt(s: Bytes): (r: Option<int>)
  {
    if s == [] then None
    else if s[0] == Minus then
      if |s| >= 2 && AllDigits(s[1..]) then Some(-(ValueOf(s[1..]) as int)) else None
    else if AllDigits(s) then Some(ValueOf(s))
    else None
  }

  /** Parsing undoes formatting. */
  lemma FormatIntRoundTrip(n: Int64)
    ensures ParseInt(FormatInt(n)) == Some(n)
  {
    if n < 0 {
      assert FormatInt(n)[1..] == Digits(-(n as int));
      DigitsValue(-(n as int));
    } else {
      DigitsValue(n);
    }
  }

  /** Distinct clock readings render differently. */
  lemma FormatIntInjective(a: Int64, b: Int64)
    requires FormatInt(a) == FormatInt(b)
    ensures a == b
  {
    FormatIntRoundTrip(a);
    FormatIntRoundTrip(b);
  }
}
