/** The Check Point SLIM frame codec: big-endian u32 length and type, then the payload. */
module Slim {
  import opened Wire
  import opened Errors
  import opened StreamDecoding
  import opened Ccc
  import CccParser
  import CccRoundTrip
  import Utf8

  const HEADER_LEN: nat := 8
  const PKT_CONTROL: nat := 1
  const PKT_DATA: nat := 2
  const MAX_PAYLOAD: nat := 1_048_576

  datatype SlimPacket = Control(tree: Value) | Data(payload: Bytes)

  function FrameOf(packetType: nat, payload: Bytes): Bytes
    requires packetType < 0x1_0000_0000
  {
    Be32(AsU32(|payload|)) + Be32(packetType) + payload
  }

  function EncodeData(payload: Bytes): Bytes { FrameOf(PKT_DATA, payload) }

  function EncodeControl(text: string): Bytes { FrameOf(PKT_CONTROL, Utf8.Encode(text) + [0x00]) }

  const KEEPALIVE: Value := Node(Some("keepalive"), [Field("id", Atom("0"))])

  function EncodeKeepalive(): Bytes { EncodeControl(ToWire(KEEPALIVE)) }

  /** One trailing NUL is not part of the document. */
  function StripNul(payload: Bytes): Bytes {
    if payload != [] && payload[|payload| - 1] == 0x00 then payload[..|payload| - 1] else payload
  }

  function DecodePayload(packetType: nat, payload: Bytes): Result<SlimPacket, VpnError> {
    if packetType == PKT_CONTROL then
      match CccParser.Parse(Utf8.DecodeLossy(StripNul(payload)))
      case Ok(tree) => Ok(Control(tree))
      case Err(e) => Err(e)
    else if packetType == PKT_DATA then Ok(Data(payload))
    else Err(Protocol(UnknownPacketType))
  }

  function Decode(buf: Bytes): Step<SlimPacket, VpnError> {
    if |buf| < HEADER_LEN then NeedMore
    else
      var len := U32At(buf, 0);
      if len > MAX_PAYLOAD then Malformed(Protocol(FrameTooLong))
      else if |buf| < HEADER_LEN + len then NeedMore
      else
        Whole(DecodePayload(U32At(buf, 4), buf[HEADER_LEN..HEADER_LEN + len]), HEADER_LEN + len)
  }

  method TryDecode(buf: BytesMut) returns (r: Result<Option<SlimPacket>, VpnError>)
    modifies buf
    ensures Took(Decode(old(buf.data)), old(buf.data), buf.data, r)
  {
    if |buf.data| < HEADER_LEN {
      return Ok(None);
    }
    var len := U32At(buf.data, 0);
    if len > MAX_PAYLOAD {
      return Err(Protocol(FrameTooLong));
    }
    var packetType := U32At(buf.data, 4);
    if |buf.data| < HEADER_LEN + len {
      return Ok(None);
    }
    SliceBehind(buf.data, HEADER_LEN, len);
    buf.Advance(HEADER_LEN);
    var payload := buf.SplitTo(len);
    if packetType == PKT_CONTROL {
      var tree := CccParser.ParseDocument(Utf8.DecodeLossy(StripNul(payload)));
      return if tree.Ok? then Ok(Some(Control(tree.value))) else Err(tree.error);
    }
    if packetType == PKT_DATA {
      return Ok(Some(Data(payload)));
    }
    return Err(Protocol(UnknownPacketType));
  }

  lemma DecodeIsStable()
    ensures PrefixStable(Decode)
  {
    forall b: Bytes, more: Bytes | !Decode(b).NeedMore?
      ensures Decode(b + more) == Decode(b)
    {
      var all := b + more;
      assert forall i :: 0 <= i < HEADER_LEN ==> all[i] == b[i];
      var len := U32At(b, 0);
      if len <= MAX_PAYLOAD {
        assert all[HEADER_LEN..HEADER_LEN + len] == b[HEADER_LEN..HEADER_LEN + len];
      }
    }
  }

  lemma HeaderBack(packetType: nat, payload: Bytes)
    requires packetType < 0x1_0000_0000
    ensures var b := FrameOf(packetType, payload);
      |b| == HEADER_LEN + |payload| && U32At(b, 0) == AsU32(|payload|) && U32At(b, 4) == packetType
  {
    var l, t := Be32(AsU32(|payload|)), Be32(packetType);
    var b := FrameOf(packetType, payload);
    assert forall i :: 0 <= i < 4 ==> b[i] == l[i] && b[4 + i] == t[i];
  }

  function Whole(r: Result<SlimPacket, VpnError>, n: nat): Step<SlimPacket, VpnError> {
    if r.Ok? then Frame(r.value, n) else Malformed(r.error)
  }

  lemma FrameBack(packetType: nat, payload: Bytes)
    requires packetType < 0x1_0000_0000 && |payload| <= MAX_PAYLOAD
    ensures Decode(FrameOf(packetType, payload))
         == Whole(DecodePayload(packetType, payload), HEADER_LEN + |payload|)
    ensures |FrameOf(packetType, payload)| == HEADER_LEN + |payload|
  {
    var b := FrameOf(packetType, payload);
    HeaderBack(packetType, payload);
    assert AsU32(|payload|) == |payload|;
    assert b[HEADER_LEN..HEADER_LEN + |payload|] == payload;
    assert Decode(b) == Whole(DecodePayload(packetType, payload), HEADER_LEN + |payload|);
  }

  /** A frame over the cap is never taken as a whole, even when its length wraps around. */
  lemma OversizedIsNotWhole(packetType: nat, payload: Bytes)
    requires packetType < 0x1_0000_0000 && |payload| > MAX_PAYLOAD
    ensures var b := FrameOf(packetType, payload); Decode(b).Frame? ==> Decode(b).used < |b|
  {
    HeaderBack(packetType, payload);
  }

  /** A data frame comes back whole exactly when its payload is within the cap. */
  lemma DataRoundTrip(payload: Bytes)
    ensures Decode(EncodeData(payload)) == Frame(Data(payload), |EncodeData(payload)|) <==> |payload| <= MAX_PAYLOAD
  {
    if |payload| <= MAX_PAYLOAD {
      FrameBack(PKT_DATA, payload);
    } else {
      OversizedIsNotWhole(PKT_DATA, payload);
    }
  }

  lemma ControlPayloadBack(text: string)
    ensures Utf8.DecodeLossy(StripNul(Utf8.Encode(text) + [0x00])) == text
  {
    var p := Utf8.Encode(text) + [0x00];
    assert p[..|p| - 1] == Utf8.Encode(text);
    Utf8.RoundTrip(text);
  }

  /**
   * A tree sent as a control frame decodes to the same tree and takes exactly its
   * frame if and only if it is printable and the trailing NUL does not push it
   * over the frame cap: one text length, the document cap itself, is parseable
   * but not sendable.
   */
  lemma ControlRoundTrip(v: Value)
    ensures var b := EncodeControl(ToWire(v));
      Decode(b) == Frame(Control(v), |b|) <==> CccRoundTrip.Printable(v) && Utf8.Len(ToWire(v)) < MAX_PAYLOAD
  {
    var text := ToWire(v);
    var payload := Utf8.Encode(text) + [0x00];
    ControlPayloadBack(text);
    CccRoundTrip.SurvivesExactlyWhenPrintable(v);
    if |payload| <= MAX_PAYLOAD {
      FrameBack(PKT_CONTROL, payload);
    } else {
      OversizedIsNotWhole(PKT_CONTROL, payload);
    }
  }

  /** A node with one field, an atom of `text`. */
  function OneField(text: string): Value { Node(Some("x"), [Field("k", Atom(text))]) }

  lemma OneFieldText(text: string)
    ensures ToWire(OneField(text)) == "(x\n\t:k (" + text + ")\n)"
  {
    var f := Field("k", Atom(text));
    assert [f][1..] == [] && FieldsText([f], 1) == FieldText(f, 1) + FieldsText([], 1);
    assert Tabs(1) == "\t" && Tabs(0) == "";
  }

  /** A tree of exactly the document cap: the parser takes its text, no frame can carry it. */
  lemma FullDocumentIsNotSendable(text: string)
    requires |text| == MAX_PAYLOAD - 11 && forall i :: 0 <= i < |text| ==> text[i] == 'a'
    ensures var v := OneField(text);
      && Utf8.Len(ToWire(v)) == MAX_PAYLOAD && CccParser.Parse(ToWire(v)) == Ok(v)
      && Decode(EncodeControl(ToWire(v))) != Frame(Control(v), |EncodeControl(ToWire(v))|)
  {
    var v := OneField(text);
    OneFieldText(text);
    Utf8.AsciiLen(ToWire(v));
    assert CccRoundTrip.LegalHead(text) && CccRoundTrip.LegalHead("x") && CccRoundTrip.LegalKey("k");
    assert v.fields[1..] == [];
    assert CccRoundTrip.FieldsDepth([]) == 0 && CccRoundTrip.FieldsDepth(v.fields) == 1;
    CccRoundTrip.ParserUndoesPrinter(v);
    ControlRoundTrip(v);
  }

  lemma OneAtomNode(name: string, key: string, text: string)
    requires CccRoundTrip.LegalHead(name) && CccRoundTrip.LegalKey(key) && CccRoundTrip.LegalHead(text)
    requires |name| + |key| + |text| <= 1000
    ensures var v := Node(Some(name), [Field(key, Atom(text))]);
      CccRoundTrip.Printable(v) && Utf8.Len(ToWire(v)) < MAX_PAYLOAD
  {
    var f := Field(key, Atom(text));
    var v := Node(Some(name), [f]);
    assert [f][1..] == [];
    assert FieldsText([f], 1) == FieldText(f, 1) + FieldsText([], 1);
    LenBound(ToWire(v));
    assert CccRoundTrip.FieldsDepth([]) == 0;
    assert CccRoundTrip.FieldsDepth([f]) == 1;
  }

  lemma KeepaliveIsPrintable()
    ensures CccRoundTrip.Printable(KEEPALIVE) && Utf8.Len(ToWire(KEEPALIVE)) < MAX_PAYLOAD
  {
    assert CccRoundTrip.LegalBare("keepalive") && CccRoundTrip.LegalBare("id") && CccRoundTrip.LegalBare("0");
    OneAtomNode("keepalive", "id", "0");
  }

  lemma {:induction false} LenBound(s: string)
    ensures Utf8.Len(s) <= 4 * |s|
  {
    if s != "" {
      LenBound(s[1..]);
    }
  }

  lemma KeepaliveBack()
    ensures Decode(EncodeKeepalive()) == Frame(Control(KEEPALIVE), |EncodeKeepalive()|)
  {
    KeepaliveIsPrintable();
    ControlRoundTrip(KEEPALIVE);
  }
}
