/** Go's `encoding/hex`: `EncodeToString` (lower-case digits, two per byte)
    and, as its inverse, `DecodeString` (either case accepted). */
module Hex {
  import opened Results
  import opened Text

  predicate IsLowerHexDigit(c: char) {
    ('0' <= c <= '9') || ('a' <= c <= 'f')
  }

  predicate IsHexDigit(c: char) {
    IsLowerHexDigit(c) || ('A' <= c <= 'F')
  }

  /** The lower-case digit for a nibble. */
  function Digit(n: nat): (c: char)
    requires n < 16
    ensures IsLowerHexDigit(c)
  {
    if n < 10 then ('0' as int + n) as char else ('a' as int + n - 10) as char
  }

  predicate AllHex(s: string) {
    forall i :: 0 <= i < |s| ==> IsHexDigit(s[i])
  }

  lemma AllHexSplit(s: string)
    requires |s| >= 2
    ensures AllHex(s) <==> IsHexDigit(s[0]) && IsHexDigit(s[1]) && AllHex(s[2..])
  {
    assert forall i :: 2 <= i < |s| ==> s[i] == s[2..][i - 2];
  }

  /** The nibble a hex digit denotes, or None for any other character. */
  function Value(c: char): (v: Option<nat>)
    ensures v.Some? <==> IsHexDigit(c)
    ensures v.Some? ==> v.value < 16
  {
    if '0' <= c <= '9' then Some(c as int - '0' as int)
    else if 'a' <= c <= 'f' then Some(c as int - 'a' as int + 10)
    else if 'A' <= c <= 'F' then Some(c as int - 'A' as int + 10)
    else None
  }

  lemma ValueOfDigit(n: nat)
    requires n < 16
    ensures Value(Digit(n)) == Some(n)
  {
  }

  /** `hex.EncodeToString`: two lower-case digits per byte, high nibble first. */
  function Encode(b: Bytes): (s: string)
    ensures |s| == 2 * |b|
    ensures forall i :: 0 <= i < |s| ==> IsLowerHexDigit(s[i])
  {
    if b == [] then "" else [Digit(b[0] / 16), Digit(b[0] % 16)] + Encode(b[1..])
  }

  /** `hex.DecodeString`: None on an odd length or a non-hex character. */
  function Decode(s: string): (r: Option<Bytes>)
    ensures r.Some? ==> 2 * |r.value| == |s|
    ensures r.Some? <==> |s| % 2 == 0 && AllHex(s)
  {
    if s == [] then Some([])
    else if |s| == 1 then None
    else
      var hi, lo, rest := Value(s[0]), Value(s[1]), Decode(s[2..]);
      AllHexSplit(s);
      assert |s[2..]| == |s| - 2 && (|s| % 2 == 0 <==> (|s| - 2) % 2 == 0);
      if hi.Some? && lo.Some? && rest.Some? then Some([hi.value * 16 + lo.value] + rest.value)
      else None
  }

  /** Decoding undoes encoding. */
  lemma {:induction false} DecodeEncode(b: Bytes)
    ensures Decode(Encode(b)) == Some(b)
  {
    if b != [] {
      var s := Encode(b);
      ValueOfDigit(b[0] / 16);
      ValueOfDigit(b[0] % 16);
      assert s[2..] == Encode(b[1..]);
      DecodeEncode(b[1..]);
      assert [b[0]] + b[1..] == b;
    }
  }

  lemma DigitOfValue(c: char)
    requires IsLowerHexDigit(c)
    ensures Value(c).Some? && Digit(Value(c).value) == c
  {
  }

  /** Encoding undoes decoding on lower-case input: an even-length string of
      lower-case hex digits is the encoding of the bytes it decodes to. */
  lemma {:induction false} EncodeDecode(s: string)
    requires |s| % 2 == 0
    requires forall i :: 0 <= i < |s| ==> IsLowerHexDigit(s[i])
    ensures Decode(s).Some? && Encode(Decode(s).value) == s
  {
    if s != [] {
      var b := Decode(s).value;
      var hi, lo := Value(s[0]).value, Value(s[1]).value;
      DigitOfValue(s[0]);
      DigitOfValue(s[1]);
      assert b[0] == hi * 16 + lo && b[1..] == Decode(s[2..]).value;
      assert b[0] / 16 == hi && b[0] % 16 == lo;
      assert forall i :: 0 <= i < |s[2..]| ==> s[2..][i] == s[i + 2];
      EncodeDecode(s[2..]);
      assert s == [s[0], s[1]] + s[2..];
    }
  }

  /** Distinct byte strings have distinct encodings. */
  lemma EncodeInjective(a: Bytes, b: Bytes)
    requires Encode(a) == Encode(b)
    ensures a == b
  {
    DecodeEncode(a);
    DecodeEncode(b);
  }
}
