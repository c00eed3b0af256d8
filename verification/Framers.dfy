/** The three wire protocols behind one framer: encode, decode and classify frames. */
module Framers {
  import opened Wire
  import opened Errors
  import opened StreamDecoding
  import C = Cstp
  import S = Slim
  import Forti
  import Ppp
  import Text
  import Ccc

  /** What the forwarding loop should do with one inbound frame. */
  datatype FrameEvent =
    | Data(payload: Bytes)
    | Reply(bytes: Bytes)
    | Ignore
    | Disconnect(reason: Reason)

  datatype Framer = Cstp | Slim | Fortinet(magic: Word)

  // ---------------------------------------------------------------------------
  // Classification
  // ---------------------------------------------------------------------------

  function ClassifyCstp(p: C.Packet): FrameEvent {
    match p.packetType
    case Data => Data(p.payload)
    case DpdOut => Reply(C.WriteHeader(C.DpdResp, 0))
    case Disconnect => Disconnect(CstpDisconnect)
    case TermServer => Disconnect(CstpTerminate)
    case _ => Ignore
  }

  function AtomAt(tree: Ccc.Value, key: string): Option<string> {
    var v := tree.Get(key);
    if v.Some? then v.value.AsAtom() else None
  }

  /** The code and the unquoted message of a disconnect document. */
  function DescribeDisconnect(tree: Ccc.Value): Reason {
    var message := AtomAt(tree, "message");
    SlimDisconnect(AtomAt(tree, "code"), if message.Some? then Some(Text.TrimQuotes(message.value)) else None)
  }

  function ClassifySlim(p: S.SlimPacket): FrameEvent {
    match p
    case Data(payload) => Data(payload)
    case Control(tree) => if tree.Name() == Some("disconnect") then Disconnect(DescribeDisconnect(tree)) else Ignore
  }

  /** A malformed control packet in a good envelope is skipped, not an error. */
  function ClassifyPpp(magic: Word, f: Ppp.PppFrame): FrameEvent
    requires f.proto < 0x1_0000
  {
    if f.proto == Ppp.PPP_IPV4 then Data(f.payload)
    else
      match Ppp.ParseCp(f.payload)
      case Err(_) => Ignore
      case Ok(pkt) =>
        if f.proto == Ppp.PPP_LCP && pkt.code == Ppp.ECHO_REQ then Reply(Ppp.EchoReply(magic, pkt))
        else if (f.proto == Ppp.PPP_LCP || f.proto == Ppp.PPP_IPCP) && pkt.code == Ppp.CONF_REQ then
          Reply(Ppp.EncodePpp(f.proto, Ppp.BuildCp(Ppp.CONF_ACK, pkt.id, pkt.data)))
        else if f.proto == Ppp.PPP_LCP && pkt.code == Ppp.TERM_REQ then Disconnect(PppTerminate)
        else Ignore
  }

  // ---------------------------------------------------------------------------
  // The framer interface
  // ---------------------------------------------------------------------------

  function Decode(f: Framer, buf: Bytes): Step<FrameEvent, VpnError> {
    match f
    case Cstp =>
      (match C.Decode(buf)
       case NeedMore => NeedMore
       case Malformed(e) => Malformed(e)
       case Frame(p, n) => Frame(ClassifyCstp(p), n))
    case Slim =>
      (match S.Decode(buf)
       case NeedMore => NeedMore
       case Malformed(e) => Malformed(e)
       case Frame(p, n) => Frame(ClassifySlim(p), n))
    case Fortinet(magic) =>
      (match Ppp.Decode(buf)
       case NeedMore => NeedMore
       case Malformed(e) => Malformed(e)
       case Frame(p, n) => if p.proto < 0x1_0000 then Frame(ClassifyPpp(magic, p), n) else NeedMore)
  }

  function DecoderOf(f: Framer): Bytes -> Step<FrameEvent, VpnError> {
    (buf: Bytes) => Decode(f, buf)
  }

  function EncodeData(f: Framer, payload: Bytes): Bytes {
    match f
    case Cstp => C.WriteHeader(C.Data, |payload|) + payload
    case Slim => S.EncodeData(payload)
    case Fortinet(_) => Ppp.EncodePpp(Ppp.PPP_IPV4, payload)
  }

  /** The echo id is bumped before it is used. */
  function EncodeKeepalive(f: Framer, echoId: Byte): Bytes {
    match f
    case Cstp => C.WriteHeader(C.DpdOut, 0)
    case Slim => S.EncodeKeepalive()
    case Fortinet(magic) => Ppp.EchoRequest(magic, NextEchoId(f, echoId))
  }

  function NextEchoId(f: Framer, echoId: Byte): Byte {
    if f.Fortinet? then (echoId + 1) % 0x100 else echoId
  }

  function EncodeShutdown(f: Framer): Option<Bytes> {
    match f
    case Cstp => Some(C.WriteHeader(C.Disconnect, 0))
    case Slim => None
    case Fortinet(_) => Some(Ppp.TerminateRequest(0))
  }

  /** The longest packet whose frame the peer takes as sent. */
  function Limit(f: Framer): nat {
    match f
    case Cstp => 0xFFFF
    case Slim => S.MAX_PAYLOAD
    case Fortinet(_) => Forti.MAX_BODY - 2
  }

  /** Two ends of one tunnel: the same codec, each with its own magic number. */
  predicate SameCodec(f: Framer, g: Framer) {
    f.Cstp? == g.Cstp? && f.Slim? == g.Slim?
  }

  /** The framer object the loop owns. */
  class TunnelFramer {
    const kind: Framer
    var echoId: Byte

    constructor (kind: Framer)
      ensures this.kind == kind && echoId == 0
    {
      this.kind := kind;
      echoId := 0;
    }

    /** Does not clear `out`. */
    method EncodeDataAppend(payload: Bytes, out: BytesMut)
      modifies out
      ensures out.data == old(out.data) + EncodeData(kind, payload)
    {
      match kind {
        case Cstp =>
          out.data := out.data + C.WriteHeader(C.Data, |payload|);
          out.data := out.data + payload;
          assert out.data == old(out.data) + (C.WriteHeader(C.Data, |payload|) + payload);
        case Slim =>
          out.data := out.data + Be32(AsU32(|payload|));
          out.data := out.data + Be32(S.PKT_DATA);
          out.data := out.data + payload;
          assert out.data == old(out.data) + (Be32(AsU32(|payload|)) + Be32(S.PKT_DATA) + payload);
        case Fortinet(_) =>
          Ppp.EncodePppAppend(Ppp.PPP_IPV4, payload, out);
      }
    }

    method Keepalive() returns (frame: Bytes)
      modifies this
      ensures frame == EncodeKeepalive(kind, old(echoId)) && echoId == NextEchoId(kind, old(echoId))
    {
      match kind {
        case Cstp =>
          frame := C.WriteHeader(C.DpdOut, 0);
        case Slim =>
          frame := S.EncodeKeepalive();
        case Fortinet(magic) =>
          echoId := (echoId + 1) % 0x100;
          frame := Ppp.EchoRequest(magic, echoId);
      }
    }

    method TryDecode(buf: BytesMut) returns (r: Result<Option<FrameEvent>, VpnError>)
      modifies buf
      ensures Took(Decode(kind, old(buf.data)), old(buf.data), buf.data, r)
    {
      match kind {
        case Cstp =>
          var p := C.TryDecode(buf);
          if p.Err? {
            return Err(p.error);
          }
          return if p.value.None? then Ok(None) else Ok(Some(ClassifyCstp(p.value.value)));
        case Slim =>
          var p := S.TryDecode(buf);
          if p.Err? {
            return Err(p.error);
          }
          return if p.value.None? then Ok(None) else Ok(Some(ClassifySlim(p.value.value)));
        case Fortinet(magic) =>
          Ppp.DecodedFrameIsSmall(buf.data);
          var p := Ppp.TryDecode(buf);
          if p.Err? {
            return Err(p.error);
          }
          return if p.value.None? then Ok(None) else Ok(Some(ClassifyPpp(magic, p.value.value)));
      }
    }
  }

  // ---------------------------------------------------------------------------
  // All three are prefix-stable
  // ---------------------------------------------------------------------------

  lemma StableOn(f: Framer, b: Bytes, more: Bytes)
    ensures !Decode(f, b).NeedMore? ==> Decode(f, b + more) == Decode(f, b)
    ensures Decode(f, b).Frame? ==> 0 < Decode(f, b).used <= |b|
  {
    match f {
      case Cstp =>
        C.DecodeIsStable();
        assert !C.Decode(b).NeedMore? ==> C.Decode(b + more) == C.Decode(b);
      case Slim =>
        S.DecodeIsStable();
        assert !S.Decode(b).NeedMore? ==> S.Decode(b + more) == S.Decode(b);
      case Fortinet(_) =>
        Ppp.DecodeIsStable();
        Ppp.DecodedFrameIsSmall(b);
        assert !Ppp.Decode(b).NeedMore? ==> Ppp.Decode(b + more) == Ppp.Decode(b);
    }
  }

  lemma FramerIsStable(f: Framer)
    ensures PrefixStable(DecoderOf(f))
  {
    forall b: Bytes
      ensures DecoderOf(f)(b).Frame? ==> 0 < DecoderOf(f)(b).used <= |b|
    {
      StableOn(f, b, []);
    }
    forall b: Bytes, more: Bytes | !DecoderOf(f)(b).NeedMore?
      ensures DecoderOf(f)(b + more) == DecoderOf(f)(b)
    {
      StableOn(f, b, more);
    }
  }

  /**
   * However a byte stream is split into reads, each framer yields the same
   * events, keeps the same leftover and stops at the same first error.
   */
  lemma FramerChunking(f: Framer, chunks: seq<Bytes>)
    ensures PrefixStable(DecoderOf(f))
    ensures FeedAll(DecoderOf(f), Drained([], Pending([])), chunks) == Drain(DecoderOf(f), Concat(chunks))
  {
    FramerIsStable(f);
    ChunkingIndependence(DecoderOf(f), [], chunks);
    assert [] + Concat(chunks) == Concat(chunks);
    assert DecoderOf(f)([]).NeedMore?;
  }

  /** The packets for the TUN device among some events. */
  function DataOf(events: seq<FrameEvent>): seq<Bytes> {
    if events == [] then []
    else (if events[0].Data? then [events[0].payload] else []) + DataOf(events[1..])
  }

  lemma DataOfCons(e: FrameEvent, events: seq<FrameEvent>)
    ensures DataOf([e] + events) == (if e.Data? then [e.payload] else []) + DataOf(events)
  {
    assert ([e] + events)[1..] == events;
  }

  lemma {:induction false} DataOfConcat(a: seq<FrameEvent>, b: seq<FrameEvent>)
    ensures DataOf(a + b) == DataOf(a) + DataOf(b)
  {
    if a == [] {
      assert a + b == b;
    } else {
      assert (a + b)[1..] == a[1..] + b;
      DataOfConcat(a[1..], b);
    }
  }

  // ---------------------------------------------------------------------------
  // What the peer makes of what we send
  // ---------------------------------------------------------------------------

  /** A frame the peer takes whole, and not as a packet for its TUN device. */
  ghost predicate IsControlFrame(peer: Framer, frame: Bytes) {
    exists e: FrameEvent :: !e.Data? && Decode(peer, frame) == Frame(e, |frame|)
  }

  /** A packet arrives exactly as it was sent if and only if it is within the codec's limit. */
  lemma DataArrives(f: Framer, peer: Framer, payload: Bytes)
    requires SameCodec(f, peer)
    ensures Decode(peer, EncodeData(f, payload)) == Frame(Data(payload), |EncodeData(f, payload)|)
       <==> |payload| <= Limit(f)
  {
    match f {
      case Cstp =>
        C.EncodeDecode(C.Data, payload);
      case Slim =>
        S.DataRoundTrip(payload);
        if |payload| > S.MAX_PAYLOAD {
          S.OversizedIsNotWhole(S.PKT_DATA, payload);
        }
      case Fortinet(_) =>
        Ppp.FrameBack(Ppp.PPP_IPV4, payload);
        var frame := EncodeData(f, payload);
        if Ppp.Decode(frame).Frame? {
          Ppp.DecodedFrameIsSmall(frame);
        }
    }
  }

  lemma HeaderIsControl(peer: Framer, t: C.CstpType)
    requires peer.Cstp? && t != C.Data
    ensures IsControlFrame(peer, C.WriteHeader(t, 0))
  {
    C.EncodeDecode(t, []);
    var frame := C.WriteHeader(t, 0);
    assert frame + [] == frame;
    var e := ClassifyCstp(C.Packet(t, []));
    assert !e.Data? && Decode(peer, frame) == Frame(e, |frame|);
  }

  lemma PppIsControl(peer: Framer, proto: nat, payload: Bytes)
    requires peer.Fortinet? && (proto == Ppp.PPP_LCP || proto == Ppp.PPP_IPCP)
    requires 2 + |payload| <= Forti.MAX_BODY
    ensures IsControlFrame(peer, Ppp.EncodePpp(proto, payload))
  {
    var frame := Ppp.EncodePpp(proto, payload);
    Ppp.FrameBack(proto, payload);
    var e := ClassifyPpp(peer.magic, Ppp.PppFrame(proto, payload));
    assert !e.Data? && Decode(peer, frame) == Frame(e, |frame|);
  }

  lemma KeepaliveIsControl(f: Framer, peer: Framer, echoId: Byte)
    requires SameCodec(f, peer)
    ensures IsControlFrame(peer, EncodeKeepalive(f, echoId))
    ensures EncodeKeepalive(f, echoId) != []
  {
    match f {
      case Cstp =>
        HeaderIsControl(peer, C.DpdOut);
      case Slim =>
        S.KeepaliveBack();
        var frame := S.EncodeKeepalive();
        var e := ClassifySlim(S.Control(S.KEEPALIVE));
        assert !e.Data? && Decode(peer, frame) == Frame(e, |frame|);
      case Fortinet(magic) =>
        PppIsControl(peer, Ppp.PPP_LCP, Ppp.BuildCp(Ppp.ECHO_REQ, NextEchoId(f, echoId), Be32(magic)));
    }
  }

  lemma ShutdownIsControl(f: Framer, peer: Framer)
    requires SameCodec(f, peer) && EncodeShutdown(f).Some?
    ensures IsControlFrame(peer, EncodeShutdown(f).value)
  {
    match f {
      case Cstp =>
        HeaderIsControl(peer, C.Disconnect);
      case Fortinet(_) =>
        PppIsControl(peer, Ppp.PPP_LCP, Ppp.BuildCp(Ppp.TERM_REQ, 0, [0x62, 0x79, 0x65]));
    }
  }

  lemma ReplyIsControl(f: Framer, peer: Framer, buf: Bytes)
    requires SameCodec(f, peer) && Decode(f, buf).Frame? && Decode(f, buf).event.Reply?
    ensures IsControlFrame(peer, Decode(f, buf).event.bytes)
  {
    match f {
      case Cstp =>
        HeaderIsControl(peer, C.DpdResp);
      case Fortinet(magic) =>
        Ppp.DecodedFrameIsSmall(buf);
        var p := Ppp.Decode(buf).event;
        var pkt := Ppp.ParseCp(p.payload).value;
        if p.proto == Ppp.PPP_LCP && pkt.code == Ppp.ECHO_REQ {
          PppIsControl(peer, Ppp.PPP_LCP, Ppp.BuildCp(Ppp.ECHO_REP, pkt.id, Ppp.EchoReplyData(magic, pkt)));
        } else {
          PppIsControl(peer, p.proto, Ppp.BuildCp(Ppp.CONF_ACK, pkt.id, pkt.data));
        }
    }
  }
}
