/** UTF-8 (RFC 3629), with the replacement rule of `String::from_utf8_lossy`. */
module Utf8 {
  import opened Wire

  const REPLACEMENT: char := '\U{FFFD}'

  function EncodeChar(c: char): (r: Bytes)
    ensures 1 <= |r| <= 4
  {
    var n := c as int;
    if n < 0x80 then [n]
    else if n < 0x800 then [0xC0 + n / 0x40, 0x80 + n % 0x40]
    else if n < 0x1_0000 then [0xE0 + n / 0x1000, 0x80 + n / 0x40 % 0x40, 0x80 + n % 0x40]
    else [0xF0 + n / 0x4_0000, 0x80 + n / 0x1000 % 0x40, 0x80 + n / 0x40 % 0x40, 0x80 + n % 0x40]
  }

  function Encode(s: string): Bytes {
    if s == [] then [] else EncodeChar(s[0]) + Encode(s[1..])
  }

  /** The byte length of a string, `str::len`. */
  function Len(s: string): nat { |Encode(s)| }

  datatype Scalar = Good(c: char, used: nat) | Bad(used: nat)

  predicate Continues(b: Bytes, i: nat) {
    i < |b| && 0x80 <= b[i] < 0xC0
  }

  /** The second byte of a three-byte form: no overlong form, no surrogate. */
  predicate SecondOfThree(b: Bytes) {
    && Continues(b, 1)
    && (b[0] == 0xE0 ==> b[1] >= 0xA0)
    && (b[0] == 0xED ==> b[1] < 0xA0)
  }

  /** The second byte of a four-byte form: no overlong form, nothing above U+10FFFF. */
  predicate SecondOfFour(b: Bytes) {
    && Continues(b, 1)
    && (b[0] == 0xF0 ==> b[1] >= 0x90)
    && (b[0] == 0xF4 ==> b[1] < 0x90)
  }

  /** The scalar at the front, or the length of the longest front part that could have begun one. */
  function DecodeScalar(b: Bytes): (r: Scalar)
    requires b != []
    ensures 0 < r.used <= |b|
  {
    var first: int := b[0];
    if first < 0x80 then Good(first as char, 1)
    else if 0xC2 <= first < 0xE0 then
      if !Continues(b, 1) then Bad(1)
      else Good(((first - 0xC0) * 0x40 + (b[1] - 0x80)) as char, 2)
    else if 0xE0 <= first < 0xF0 then
      if !SecondOfThree(b) then Bad(1)
      else if !Continues(b, 2) then Bad(2)
      else Good(((first - 0xE0) * 0x1000 + (b[1] as int - 0x80) * 0x40 + (b[2] - 0x80)) as char, 3)
    else if 0xF0 <= first < 0xF5 then
      if !SecondOfFour(b) then Bad(1)
      else if !Continues(b, 2) then Bad(2)
      else if !Continues(b, 3) then Bad(3)
      else
        Good(((first - 0xF0) * 0x4_0000 + (b[1] as int - 0x80) * 0x1000
              + (b[2] as int - 0x80) * 0x40 + (b[3] - 0x80)) as char, 4)
    else Bad(1)
  }

  /** `String::from_utf8_lossy`. */
  function DecodeLossy(b: Bytes): string
    decreases |b|
  {
    if b == [] then ""
    else match DecodeScalar(b)
      case Good(c, n) => [c] + DecodeLossy(b[n..])
      case Bad(n) => [REPLACEMENT] + DecodeLossy(b[n..])
  }

  /** `str::from_utf8`. */
  function DecodeStrict(b: Bytes): Option<string>
    decreases |b|
  {
    if b == [] then Some("")
    else match DecodeScalar(b)
      case Good(c, n) =>
        (match DecodeStrict(b[n..])
         case Some(rest) => Some([c] + rest)
         case None => None)
      case Bad(_) => None
  }

  lemma DivideTwice(n: nat, d: nat)
    requires d == 0x40 || d == 0x1000
    ensures n / d / 0x40 == n / (d * 0x40)
  {
    var a := n / d;
    var c := a / 0x40;
    assert n == d * a + n % d && a == 0x40 * c + a % 0x40;
    if d == 0x40 {
      assert n == 0x1000 * c + (0x40 * (a % 0x40) + n % 0x40);
    } else {
      assert n == 0x4_0000 * c + (0x1000 * (a % 0x40) + n % 0x1000);
    }
  }

  lemma Base64Digits(n: nat)
    ensures n == n / 0x1000 * 0x1000 + n / 0x40 % 0x40 * 0x40 + n % 0x40
    ensures n == n / 0x4_0000 * 0x4_0000 + n / 0x1000 % 0x40 * 0x1000 + n / 0x40 % 0x40 * 0x40 + n % 0x40
  {
    DivideTwice(n, 0x40);
    DivideTwice(n, 0x1000);
    var a, b, c := n / 0x40, n / 0x1000, n / 0x4_0000;
    assert n == a * 0x40 + n % 0x40 && a == b * 0x40 + a % 0x40 && b == c * 0x40 + b % 0x40;
  }

  lemma ShortScalar(c: char, rest: Bytes)
    requires c as int < 0x800
    ensures DecodeScalar(EncodeChar(c) + rest) == Good(c, |EncodeChar(c)|)
  {
    var b := EncodeChar(c) + rest;
    assert forall i :: 0 <= i < |EncodeChar(c)| ==> b[i] == EncodeChar(c)[i];
  }

  lemma ThreeByteScalar(c: char, rest: Bytes)
    requires 0x800 <= c as int < 0x1_0000
    ensures DecodeScalar(EncodeChar(c) + rest) == Good(c, 3)
  {
    var b := EncodeChar(c) + rest;
    var n := c as int;
    Base64Digits(n);
    assert b[0] == 0xE0 + n / 0x1000 && b[1] == 0x80 + n / 0x40 % 0x40 && b[2] == 0x80 + n % 0x40;
    assert n < 0xD800 || n >= 0xE000;
    assert SecondOfThree(b);
  }

  lemma FourByteScalar(c: char, rest: Bytes)
    requires 0x1_0000 <= c as int
    ensures DecodeScalar(EncodeChar(c) + rest) == Good(c, 4)
  {
    var b := EncodeChar(c) + rest;
    var n := c as int;
    Base64Digits(n);
    assert n < 0x11_0000;
    assert b[0] == 0xF0 + n / 0x4_0000 && b[1] == 0x80 + n / 0x1000 % 0x40;
    assert b[2] == 0x80 + n / 0x40 % 0x40 && b[3] == 0x80 + n % 0x40;
    assert SecondOfFour(b);
  }

  lemma ScalarRoundTrip(c: char, rest: Bytes)
    ensures DecodeScalar(EncodeChar(c) + rest) == Good(c, |EncodeChar(c)|)
  {
    if c as int < 0x800 {
      ShortScalar(c, rest);
    } else if c as int < 0x1_0000 {
      ThreeByteScalar(c, rest);
    } else {
      FourByteScalar(c, rest);
    }
  }

  /** Valid text survives the wire, and the lossy decoder replaces nothing in it. */
  lemma {:induction false} RoundTrip(s: string)
    ensures DecodeLossy(Encode(s)) == s
    ensures DecodeStrict(Encode(s)) == Some(s)
  {
    if s != [] {
      ScalarRoundTrip(s[0], Encode(s[1..]));
      assert Encode(s)[|EncodeChar(s[0])|..] == Encode(s[1..]);
      RoundTrip(s[1..]);
      assert [s[0]] + s[1..] == s;
    }
  }

  lemma {:induction false} AsciiLen(s: string)
    requires forall i :: 0 <= i < |s| ==> s[i] as int < 0x80
    ensures Len(s) == |s|
  {
    if s != "" {
      AsciiLen(s[1..]);
    }
  }
}
