/** The Cisco CSTP packet codec: an 8-byte header `STF`, version, big-endian length, type, 0. */
module Cstp {
  import opened Wire
  import opened Errors
  import opened StreamDecoding

  const HEADER_LEN: nat := 8

  datatype CstpType = Data | DpdOut | DpdResp | Disconnect | Keepalive | Compressed | TermServer

  datatype Packet = Packet(packetType: CstpType, payload: Bytes)

  function ToU8(t: CstpType): Byte {
    match t
    case Data => 0x00
    case DpdOut => 0x03
    case DpdResp => 0x04
    case Disconnect => 0x05
    case Keepalive => 0x07
    case Compressed => 0x08
    case TermServer => 0x09
  }

  function FromU8(b: Byte): Option<CstpType> {
    if b == 0x00 then Some(Data)
    else if b == 0x03 then Some(DpdOut)
    else if b == 0x04 then Some(DpdResp)
    else if b == 0x05 then Some(Disconnect)
    else if b == 0x07 then Some(Keepalive)
    else if b == 0x08 then Some(Compressed)
    else if b == 0x09 then Some(TermServer)
    else None
  }

  function WriteHeader(t: CstpType, payloadLen: nat): (r: Bytes)
    ensures |r| == HEADER_LEN
  {
    [0x53, 0x54, 0x46, 0x01] + Be16(AsU16(payloadLen)) + [ToU8(t), 0x00]
  }

  /** The type and the payload length; the version and the last byte are not looked at. */
  function ParseHeader(b: Bytes): Result<(CstpType, nat), VpnError>
    requires |b| >= HEADER_LEN
  {
    if !(b[0] == 0x53 && b[1] == 0x54 && b[2] == 0x46) then Err(Protocol(BadMagic))
    else
      match FromU8(b[6])
      case None => Err(Protocol(UnknownPacketType))
      case Some(t) => Ok((t, U16At(b, 4)))
  }

  function Decode(buf: Bytes): Step<Packet, VpnError> {
    if |buf| < HEADER_LEN then NeedMore
    else
      match ParseHeader(buf)
      case Err(e) => Malformed(e)
      case Ok((t, len)) =>
        if |buf| < HEADER_LEN + len then NeedMore
        else Frame(Packet(t, buf[HEADER_LEN..HEADER_LEN + len]), HEADER_LEN + len)
  }

  method TryDecode(buf: BytesMut) returns (r: Result<Option<Packet>, VpnError>)
    modifies buf
    ensures Took(Decode(old(buf.data)), old(buf.data), buf.data, r)
  {
    if |buf.data| < HEADER_LEN {
      return Ok(None);
    }
    var header := ParseHeader(buf.data);
    if header.Err? {
      return Err(header.error);
    }
    var (t, len) := header.value;
    if |buf.data| < HEADER_LEN + len {
      return Ok(None);
    }
    SliceBehind(buf.data, HEADER_LEN, len);
    buf.Advance(HEADER_LEN);
    var payload := buf.SplitTo(len);
    return Ok(Some(Packet(t, payload)));
  }

  lemma DecodeIsStable()
    ensures PrefixStable(Decode)
  {
    forall b: Bytes, more: Bytes | !Decode(b).NeedMore?
      ensures Decode(b + more) == Decode(b)
    {
      var all := b + more;
      assert forall i :: 0 <= i < HEADER_LEN ==> all[i] == b[i];
      if ParseHeader(b).Ok? {
        var len := U16At(b, 4);
        assert all[HEADER_LEN..HEADER_LEN + len] == b[HEADER_LEN..HEADER_LEN + len];
      }
    }
  }

  lemma HeaderBack(t: CstpType, payloadLen: nat, payload: Bytes)
    ensures ParseHeader(WriteHeader(t, payloadLen) + payload) == Ok((t, AsU16(payloadLen)))
  {
    var h := WriteHeader(t, payloadLen);
    var b := h + payload;
    assert forall i :: 0 <= i < HEADER_LEN ==> b[i] == h[i];
    var len := Be16(AsU16(payloadLen));
    assert h[4] == len[0] && h[5] == len[1];
  }

  /**
   * A written packet decodes to itself, taking exactly its own bytes, precisely
   * when its length fits the 16-bit field; a longer one loses the high bits of
   * its length and is cut.
   */
  lemma EncodeDecode(t: CstpType, payload: Bytes)
    ensures var frame := WriteHeader(t, |payload|) + payload;
      && (Decode(frame) == Frame(Packet(t, payload), |frame|) <==> |payload| < 0x1_0000)
      && Decode(frame) == Frame(Packet(t, payload[..AsU16(|payload|)]), HEADER_LEN + AsU16(|payload|))
  {
    var frame := WriteHeader(t, |payload|) + payload;
    HeaderBack(t, |payload|, payload);
    var len := AsU16(|payload|);
    assert frame[HEADER_LEN..HEADER_LEN + len] == payload[..len];
    if |payload| < 0x1_0000 {
      assert payload[..len] == payload;
    }
  }
}
