/** The positional XOR cipher for SNX passwords, and its hex form. */
module Cipher {
  import opened Wire
  import opened Errors

  const FIRST_KEYS: seq<bv8> := [
    0x2D, 0x4F, 0x44, 0x49, 0x46, 0x49, 0x45, 0x44, 0x26, 0x57, 0x30, 0x52, 0x4F,
    0x50, 0x45, 0x52, 0x54, 0x59, 0x33, 0x48, 0x45, 0x45, 0x54, 0x37, 0x49, 0x54
  ]

  const SECOND_KEYS: seq<bv8> := [
    0x48, 0x2F, 0x2B, 0x34, 0x48, 0x45, 0x33, 0x48, 0x45, 0x45, 0x54, 0x29, 0x24,
    0x33, 0x3F, 0x2C, 0x24, 0x21, 0x30, 0x3F, 0x21, 0x35, 0x3F, 0x30, 0x32, 0x2F
  ]

  const THIRD_KEYS: seq<bv8> := [
    0x30, 0x25, 0x32, 0x34, 0x29, 0x25, 0x33, 0x2E, 0x35, 0x2C, 0x2C, 0x10, 0x26,
    0x37, 0x3F, 0x37, 0x30, 0x3F, 0x2F, 0x22, 0x2A, 0x25, 0x23, 0x34, 0x33
  ]

  const KEY_TABLE: seq<bv8> := FIRST_KEYS + SECOND_KEYS + THIRD_KEYS

  // ---------------------------------------------------------------------------
  // One byte
  // ---------------------------------------------------------------------------

  function KeyAt(i: nat): bv8
  {
    KeyTableIsAscii(i % 77);
    KEY_TABLE[i % 77]
  }

  lemma FirstKeysAreAscii(i: nat)
    requires i < 26
    ensures |FIRST_KEYS| == 26 && 0 < FIRST_KEYS[i] < 0x80
  {
  }

  lemma SecondKeysAreAscii(i: nat)
    requires i < 26
    ensures |SECOND_KEYS| == 26 && 0 < SECOND_KEYS[i] < 0x80
  {
  }

  lemma ThirdKeysAreAscii(i: nat)
    requires i < 25
    ensures |THIRD_KEYS| == 25 && 0 < THIRD_KEYS[i] < 0x80
  {
  }

  lemma KeyTableIsAscii(i: nat)
    requires i < 77
    ensures |KEY_TABLE| == 77 && 0 < KEY_TABLE[i] < 0x80
  {
    FirstKeysAreAscii(if i < 26 then i else 0);
    SecondKeysAreAscii(if 26 <= i < 52 then i - 26 else 0);
    ThirdKeysAreAscii(if 52 <= i then i - 52 else 0);
  }

  function Mix(key: bv8, c: bv8): bv8 {
    var x := (if c == 0xFF then 0 else c) ^ key;
    if x == 0 then 0xFF else x
  }

  function Translate(i: nat, c: bv8): bv8 { Mix(KeyAt(i), c) }

  /** Translating twice at the same position gives the byte back for all but two byte values. */
  lemma MixTwice(key: bv8, c: bv8)
    requires 0 < key < 0x80
    ensures Mix(key, Mix(key, c)) == c <==> c != 0 && c != 0xFF ^ key
  {
  }

  // ---------------------------------------------------------------------------
  // Whole passwords
  // ---------------------------------------------------------------------------

  type Positional = (nat, bv8) -> bv8

  /** Each byte mapped at its position, then back to front. */
  function MapThenReverse(f: Positional, b: seq<bv8>): seq<bv8> {
    seq(|b|, j requires 0 <= j < |b| => f(|b| - 1 - j, b[|b| - 1 - j]))
  }

  /** Front to back again, then each byte mapped at its position. */
  function ReverseThenMap(f: Positional, b: seq<bv8>): seq<bv8> {
    seq(|b|, i requires 0 <= i < |b| => f(i, b[|b| - 1 - i]))
  }

  function Obfuscated(b: seq<bv8>): seq<bv8> { MapThenReverse(Translate, b) }

  function Deobfuscated(b: seq<bv8>): seq<bv8> { ReverseThenMap(Translate, b) }

  /** Mapping twice at this position gives the byte back. */
  predicate Restores(f: Positional, i: nat, c: bv8) { f(i, f(i, c)) == c }

  predicate SameAt(f: Positional, back: seq<bv8>, b: seq<bv8>, i: nat) {
    i < |b| == |back| && (back[i] == b[i] <==> Restores(f, i, b[i]))
  }

  lemma ByteThereAndBack(f: Positional, b: seq<bv8>, i: nat)
    requires i < |b|
    ensures SameAt(f, ReverseThenMap(f, MapThenReverse(f, b)), b, i)
  {
    assert MapThenReverse(f, b)[|b| - 1 - i] == f(i, b[i]);
  }

  lemma SameEverywhere(f: Positional, back: seq<bv8>, b: seq<bv8>)
    requires |back| == |b| && forall i: nat :: i < |b| ==> SameAt(f, back, b, i)
    ensures back == b <==> forall i :: 0 <= i < |b| ==> Restores(f, i, b[i])
  {
    forall i | 0 <= i < |b|
      ensures back[i] == b[i] <==> Restores(f, i, b[i])
    {
      assert SameAt(f, back, b, i);
    }
  }

  /** The reversals cancel: each byte is mapped twice at its own position. */
  lemma ThereAndBack(f: Positional, b: seq<bv8>)
    ensures ReverseThenMap(f, MapThenReverse(f, b)) == b <==> forall i :: 0 <= i < |b| ==> Restores(f, i, b[i])
  {
    forall i: nat | i < |b|
      ensures SameAt(f, ReverseThenMap(f, MapThenReverse(f, b)), b, i)
    {
      ByteThereAndBack(f, b, i);
    }
    SameEverywhere(f, ReverseThenMap(f, MapThenReverse(f, b)), b);
  }

  /** `bytes.iter().enumerate().map(f).collect()`. */
  method MapEach(f: Positional, bytes: seq<bv8>) returns (out: array<bv8>)
    ensures fresh(out) && out.Length == |bytes|
    ensures forall i :: 0 <= i < |bytes| ==> out[i] == f(i, bytes[i])
  {
    out := new bv8[|bytes|];
    for i := 0 to |bytes|
      invariant forall k :: 0 <= k < i ==> out[k] == f(k, bytes[k])
    {
      out[i] := f(i, bytes[i]);
    }
  }

  method ReverseInPlace(a: array<bv8>)
    modifies a
    ensures forall k :: 0 <= k < a.Length ==> a[k] == old(a[a.Length - 1 - k])
  {
    var n, i := a.Length, 0;
    while i < n / 2
      invariant 0 <= i <= n / 2
      invariant forall k :: 0 <= k < i ==> a[k] == old(a[n - 1 - k]) && a[n - 1 - k] == old(a[k])
      invariant forall k :: i <= k < n - i ==> a[k] == old(a[k])
    {
      a[i], a[n - 1 - i] := a[n - 1 - i], a[i];
      i := i + 1;
    }
  }

  method Obfuscate(f: Positional, bytes: seq<bv8>) returns (out: seq<bv8>)
    ensures out == MapThenReverse(f, bytes)
  {
    var a := MapEach(f, bytes);
    ReverseInPlace(a);
    out := a[..];
  }

  method Deobfuscate(f: Positional, bytes: seq<bv8>) returns (out: seq<bv8>)
    ensures out == ReverseThenMap(f, bytes)
  {
    var a := new bv8[|bytes|](i requires 0 <= i < |bytes| => bytes[i]);
    ReverseInPlace(a);
    var reversed := a[..];
    var b := MapEach(f, reversed);
    out := b[..];
  }

  // ---------------------------------------------------------------------------
  // Hex
  // ---------------------------------------------------------------------------

  function HexDigit(nibble: bv8): bv8
    requires nibble < 16
  {
    if nibble < 10 then 0x30 + nibble else 0x57 + nibble
  }

  function HexVal(c: bv8): Option<bv8> {
    if 0x30 <= c <= 0x39 then Some(c - 0x30)
    else if 0x61 <= c <= 0x66 then Some(c - 0x61 + 10)
    else if 0x41 <= c <= 0x46 then Some(c - 0x41 + 10)
    else None
  }

  function HexPair(b: bv8): seq<bv8> { [HexDigit(b >> 4), HexDigit(b & 0x0F)] }

  function HexLower(b: seq<bv8>): seq<bv8> {
    if b == [] then [] else HexPair(b[0]) + HexLower(b[1..])
  }

  function Paired(hi: Option<bv8>, lo: Option<bv8>): Result<bv8, VpnError> {
    if hi.None? || lo.None? then Err(Protocol(BadHex)) else Ok((hi.value << 4) | lo.value)
  }

  function InFront(first: Result<bv8, VpnError>, later: Result<seq<bv8>, VpnError>): Result<seq<bv8>, VpnError> {
    if first.Err? then Err(first.error) else if later.Err? then later else Ok([first.value] + later.value)
  }

  function FromHex(s: seq<bv8>): Result<seq<bv8>, VpnError> {
    if |s| == 0 then Ok([])
    else if |s| == 1 then Err(Protocol(BadHex))
    else InFront(Paired(HexVal(s[0]), HexVal(s[1])), FromHex(s[2..]))
  }

  method ToHexLower(bytes: seq<bv8>) returns (s: seq<bv8>)
    ensures s == HexLower(bytes)
  {
    s := [];
    for i := 0 to |bytes|
      invariant s + HexLower(bytes[i..]) == HexLower(bytes)
    {
      assert bytes[i..][1..] == bytes[i + 1..];
      assert s + (HexPair(bytes[i]) + HexLower(bytes[i + 1..])) == s + HexPair(bytes[i]) + HexLower(bytes[i + 1..]);
      s := s + [HexDigit(bytes[i] >> 4)];
      s := s + [HexDigit(bytes[i] & 0x0F)];
    }
  }

  lemma {:induction false} OddIsRefused(s: seq<bv8>)
    requires |s| % 2 == 1
    ensures FromHex(s) == Err(Protocol(BadHex))
  {
    if |s| > 1 {
      OddIsRefused(s[2..]);
    }
  }

  function Joined(out: seq<bv8>, later: Result<seq<bv8>, VpnError>): Result<seq<bv8>, VpnError> {
    match later case Ok(b) => Ok(out + b) case Err(e) => Err(e)
  }

  lemma JoinedStep(out: seq<bv8>, first: Result<bv8, VpnError>, later: Result<seq<bv8>, VpnError>)
    ensures Joined([], later) == later
    ensures first.Err? ==> Joined(out, InFront(first, later)) == Err(first.error)
    ensures first.Ok? ==> Joined(out, InFront(first, later)) == Joined(out + [first.value], later)
  {
    if later.Ok? {
      assert [] + later.value == later.value;
      if first.Ok? {
        assert out + ([first.value] + later.value) == out + [first.value] + later.value;
      }
    }
  }

  method ParseHex(s: seq<bv8>) returns (r: Result<seq<bv8>, VpnError>)
    ensures r == FromHex(s)
  {
    if |s| % 2 != 0 {
      OddIsRefused(s);
      return Err(Protocol(BadHex));
    }
    var out: seq<bv8> := [];
    var i := 0;
    ghost var all := FromHex(s);
    assert s[0..] == s;
    JoinedStep([], Paired(None, None), all);
    while i < |s|
      invariant 0 <= i <= |s| && i % 2 == 0
      invariant Joined(out, FromHex(s[i..])) == all
    {
      ghost var rest := s[i..];
      assert rest[2..] == s[i + 2..];
      var pair := Paired(HexVal(s[i]), HexVal(s[i + 1]));
      JoinedStep(out, pair, FromHex(s[i + 2..]));
      if pair.Err? {
        return Err(pair.error);
      }
      out := out + [pair.value];
      i := i + 2;
    }
    assert out + [] == out;
    r := Ok(out);
  }

  lemma ByteBack(b: bv8)
    ensures b >> 4 < 16 && b & 0x0F < 16
    ensures HexVal(HexDigit(b >> 4)) == Some(b >> 4) && HexVal(HexDigit(b & 0x0F)) == Some(b & 0x0F)
    ensures ((b >> 4) << 4) | (b & 0x0F) == b
  {
  }

  lemma {:induction false} HexRoundTrip(b: seq<bv8>)
    ensures FromHex(HexLower(b)) == Ok(b)
  {
    if b != [] {
      var s := HexLower(b);
      ByteBack(b[0]);
      HexRoundTrip(b[1..]);
      assert s[0] == HexDigit(b[0] >> 4) && s[1] == HexDigit(b[0] & 0x0F) && s[2..] == HexLower(b[1..]);
      assert Paired(HexVal(s[0]), HexVal(s[1])) == Ok(b[0]);
      assert [b[0]] + b[1..] == b;
    }
  }

  // ---------------------------------------------------------------------------
  // Encode and decode
  // ---------------------------------------------------------------------------

  function Encoded(password: seq<bv8>): seq<bv8> { HexLower(Obfuscated(password)) }

  function Decoded(hex: seq<bv8>): Result<seq<bv8>, VpnError> {
    match FromHex(hex) case Err(e) => Err(e) case Ok(b) => Ok(Deobfuscated(b))
  }

  method Encode(password: seq<bv8>) returns (hex: seq<bv8>)
    ensures hex == Encoded(password)
  {
    var b := Obfuscate(Translate, password);
    hex := ToHexLower(b);
  }

  method Decode(hex: seq<bv8>) returns (r: Result<seq<bv8>, VpnError>)
    ensures r == Decoded(hex)
  {
    var b := ParseHex(hex);
    if b.Err? {
      return Err(b.error);
    }
    var p := Deobfuscate(Translate, b.value);
    r := Ok(p);
  }

  /** A password comes back exactly when no byte is zero or the complement of the key byte at its place. */
  lemma PasswordComesBack(password: seq<bv8>)
    ensures Decoded(Encoded(password)) == Ok(password)
       <==> forall i :: 0 <= i < |password| ==> password[i] != 0 && password[i] != 0xFF ^ KeyAt(i)
  {
    HexRoundTrip(Obfuscated(password));
    ThereAndBack(Translate, password);
    forall i | 0 <= i < |password|
      ensures Restores(Translate, i, password[i]) <==> password[i] != 0 && password[i] != 0xFF ^ KeyAt(i)
    {
      KeyTableIsAscii(i % 77);
      MixTwice(KeyAt(i), password[i]);
    }
  }

  /** Every NUL-free ASCII password comes back, however long. */
  lemma AsciiPasswordComesBack(password: seq<bv8>)
    requires forall i :: 0 <= i < |password| ==> 0 < password[i] < 0x80
    ensures Decoded(Encoded(password)) == Ok(password)
  {
    forall i | 0 <= i < |password|
      ensures password[i] != 0xFF ^ KeyAt(i)
    {
      KeyTableIsAscii(i % 77);
      ComplementIsNotAscii(KeyAt(i));
    }
    PasswordComesBack(password);
  }

  lemma ComplementIsNotAscii(key: bv8)
    requires key < 0x80
    ensures 0xFF ^ key >= 0x80
  {
  }
}
