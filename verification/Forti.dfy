/** The FortiGate envelope: big-endian u16 total, 0x5050, u16 body length, then the body. */
module Forti {
  import opened Wire
  import opened Errors
  import opened StreamDecoding

  const HEADER_LEN: nat := 6
  const MAGIC: nat := 0x5050
  const MAX_BODY: nat := 16 * 1024

  /** The three header fields, each cast to 16 bits. */
  function Header(bodyLen: nat): (r: Bytes)
    ensures |r| == HEADER_LEN
  {
    Be16(AsU16(HEADER_LEN + bodyLen)) + Be16(MAGIC) + Be16(AsU16(bodyLen))
  }

  function EncodeFrame(body: Bytes): Result<Bytes, VpnError> {
    if |body| > MAX_BODY then Err(Protocol(FrameTooLong)) else Ok(Header(|body|) + body)
  }

  /** Appends one frame; a rejected body leaves `out` as it was. */
  method EncodeFrameAppend(body: Bytes, out: BytesMut) returns (r: Result<(), VpnError>)
    modifies out
    ensures match EncodeFrame(body)
            case Ok(frame) => r == Ok(()) && out.data == old(out.data) + frame
            case Err(e) => r == Err(e) && out.data == old(out.data)
  {
    if |body| > MAX_BODY {
      return Err(Protocol(FrameTooLong));
    }
    out.data := out.data + Be16(AsU16(HEADER_LEN + |body|));
    out.data := out.data + Be16(MAGIC);
    out.data := out.data + Be16(AsU16(|body|));
    out.data := out.data + body;
    assert out.data == old(out.data) + (Header(|body|) + body);
    return Ok(());
  }

  function Decode(buf: Bytes): Step<Bytes, VpnError> {
    if |buf| < HEADER_LEN then NeedMore
    else
      var bodyLen := U16At(buf, 4);
      if U16At(buf, 2) != MAGIC then Malformed(Protocol(BadMagic))
      else if U16At(buf, 0) != HEADER_LEN + bodyLen then Malformed(Protocol(LengthMismatch))
      else if bodyLen > MAX_BODY then Malformed(Protocol(FrameTooLong))
      else if |buf| < HEADER_LEN + bodyLen then NeedMore
      else Frame(buf[HEADER_LEN..HEADER_LEN + bodyLen], HEADER_LEN + bodyLen)
  }

  method TryDecode(buf: BytesMut) returns (r: Result<Option<Bytes>, VpnError>)
    modifies buf
    ensures Took(Decode(old(buf.data)), old(buf.data), buf.data, r)
  {
    if |buf.data| < HEADER_LEN {
      return Ok(None);
    }
    var total := U16At(buf.data, 0);
    var magic := U16At(buf.data, 2);
    var bodyLen := U16At(buf.data, 4);
    if magic != MAGIC {
      return Err(Protocol(BadMagic));
    }
    if total != HEADER_LEN + bodyLen {
      return Err(Protocol(LengthMismatch));
    }
    if bodyLen > MAX_BODY {
      return Err(Protocol(FrameTooLong));
    }
    if |buf.data| < HEADER_LEN + bodyLen {
      return Ok(None);
    }
    SliceBehind(buf.data, HEADER_LEN, bodyLen);
    buf.Advance(HEADER_LEN);
    var body := buf.SplitTo(bodyLen);
    return Ok(Some(body));
  }

  lemma DecodeIsStable()
    ensures PrefixStable(Decode)
  {
    forall b: Bytes, more: Bytes | !Decode(b).NeedMore?
      ensures Decode(b + more) == Decode(b)
    {
      StableOn(b, more);
    }
  }

  lemma StableOn(b: Bytes, more: Bytes)
    requires !Decode(b).NeedMore?
    ensures Decode(b + more) == Decode(b)
  {
    var all := b + more;
    assert forall i :: 0 <= i < HEADER_LEN ==> all[i] == b[i];
    var len := U16At(b, 4);
    if Decode(b).Frame? {
      assert all[HEADER_LEN..HEADER_LEN + len] == b[HEADER_LEN..HEADER_LEN + len];
    }
  }

  lemma HeaderBack(bodyLen: nat, body: Bytes)
    ensures var b := Header(bodyLen) + body;
      U16At(b, 0) == AsU16(HEADER_LEN + bodyLen) && U16At(b, 2) == MAGIC && U16At(b, 4) == AsU16(bodyLen)
  {
    var t, m, l := Be16(AsU16(HEADER_LEN + bodyLen)), Be16(MAGIC), Be16(AsU16(bodyLen));
    var b := Header(bodyLen) + body;
    assert b[0] == t[0] && b[1] == t[1] && b[2] == m[0] && b[3] == m[1] && b[4] == l[0] && b[5] == l[1];
  }

  /** A framed body comes back whole exactly when it is within the cap, whatever the casts did. */
  lemma FrameBack(body: Bytes)
    ensures var b := Header(|body|) + body;
      Decode(b) == Frame(body, |b|) <==> |body| <= MAX_BODY
  {
    HeaderBack(|body|, body);
    var b := Header(|body|) + body;
    if |body| <= MAX_BODY {
      assert b[HEADER_LEN..HEADER_LEN + |body|] == body;
    }
  }

  /** A body over the cap is refused as soon as its header is there, provided the header can state its length. */
  lemma TooLongIsRefused(body: Bytes)
    requires MAX_BODY < |body| && HEADER_LEN + |body| < 0x1_0000
    ensures Decode(Header(|body|) + body) == Malformed(Protocol(FrameTooLong))
  {
    HeaderBack(|body|, body);
  }
}
