/** PPP inside the FortiGate envelope: control packets, option lists, framing (RFC 1661 sections 5 and 6). */
module Ppp {
  import opened Wire
  import opened Errors
  import opened StreamDecoding
  import Forti

  const PPP_LCP: nat := 0xC021
  const PPP_IPCP: nat := 0x8021
  const PPP_IPV4: nat := 0x0021
  const PPP_PAP: nat := 0xC023
  const PPP_CHAP: nat := 0xC223

  const CONF_REQ: Byte := 1
  const CONF_ACK: Byte := 2
  const CONF_NAK: Byte := 3
  const CONF_REJ: Byte := 4
  const TERM_REQ: Byte := 5
  const TERM_ACK: Byte := 6
  const ECHO_REQ: Byte := 9
  const ECHO_REP: Byte := 10

  datatype CpPacket = CpPacket(code: Byte, id: Byte, data: Bytes)

  datatype Opt = Opt(typ: Byte, val: Bytes)

  // ---------------------------------------------------------------------------
  // Control packets
  // ---------------------------------------------------------------------------

  function ParseCp(b: Bytes): (r: Result<CpPacket, VpnError>)
    ensures r.Ok? ==> |r.value.data| + 4 <= |b|
  {
    if |b| < 4 then Err(Protocol(MalformedControlPacket))
    else
      var len := U16At(b, 2);
      if len < 4 || len > |b| then Err(Protocol(MalformedControlPacket))
      else Ok(CpPacket(b[0], b[1], b[4..len]))
  }

  function BuildCp(code: Byte, id: Byte, data: Bytes): (r: Bytes)
    ensures |r| == |data| + 4
  {
    [code, id] + Be16(AsU16(|data| + 4)) + data
  }

  /** A built packet parses back exactly when its length fits the 16-bit field. */
  lemma CpRoundTrip(code: Byte, id: Byte, data: Bytes)
    ensures ParseCp(BuildCp(code, id, data)) == Ok(CpPacket(code, id, data)) <==> |data| + 4 < 0x1_0000
  {
    var b := BuildCp(code, id, data);
    var len := Be16(AsU16(|data| + 4));
    assert b[2] == len[0] && b[3] == len[1];
    if |data| + 4 < 0x1_0000 {
      assert b[4..|data| + 4] == data;
    }
  }

  // ---------------------------------------------------------------------------
  // Option lists
  // ---------------------------------------------------------------------------

  /** The first entry has a length byte of at least 2 that does not run past the end. */
  predicate HasOption(b: Bytes) {
    |b| >= 2 && 2 <= b[1] <= |b|
  }

  /** Well-formed entries in order, up to the first malformed one. */
  function ParseOptions(b: Bytes): (r: seq<Opt>)
    decreases |b|
  {
    if !HasOption(b) then [] else [Opt(b[0], b[2..b[1]])] + ParseOptions(b[b[1]..])
  }

  lemma OptionAt(b: Bytes, i: nat)
    requires i + 2 <= |b| && 2 <= b[i + 1] && i + b[i + 1] as int <= |b|
    ensures var next := i + b[i + 1] as int;
      ParseOptions(b[i..]) == [Opt(b[i], b[i + 2..next])] + ParseOptions(b[next..])
  {
    var here, len := b[i..], b[i + 1] as int;
    assert here[2..len] == b[i + 2..i + len] && here[len..] == b[i + len..];
  }

  method ParseOptionList(b: Bytes) returns (out: seq<Opt>)
    ensures out == ParseOptions(b)
  {
    out := [];
    var i: nat := 0;
    while i + 2 <= |b|
      invariant i <= |b|
      invariant out + ParseOptions(b[i..]) == ParseOptions(b)
      decreases |b| - i
    {
      var typ := b[i];
      var len := b[i + 1];
      if len < 2 || i + len > |b| {
        break;
      }
      OptionAt(b, i);
      Assoc(out, [Opt(typ, b[i + 2..i + len])], ParseOptions(b[i + len..]));
      out := out + [Opt(typ, b[i + 2..i + len])];
      i := i + len;
    }
    assert ParseOptions(b[i..]) == [];
  }

  /** One entry, `[type][len][value]`; a value over 253 bytes cannot be expressed and is skipped. */
  function BuildOption(o: Opt): (r: Bytes)
    ensures |r| <= 255
  {
    if |o.val| > 253 then [] else [o.typ, AsU8(|o.val| + 2)] + o.val
  }

  function BuildOptions(opts: seq<Opt>): Bytes {
    if opts == [] then [] else BuildOption(opts[0]) + BuildOptions(opts[1..])
  }

  lemma {:induction false} BuildOptionsConcat(a: seq<Opt>, b: seq<Opt>)
    ensures BuildOptions(a + b) == BuildOptions(a) + BuildOptions(b)
  {
    if a == [] {
      assert a + b == b;
    } else {
      assert (a + b)[1..] == a[1..] + b;
      BuildOptionsConcat(a[1..], b);
    }
  }

  lemma OneMoreOption(opts: seq<Opt>, k: nat)
    requires k < |opts|
    ensures BuildOptions(opts[..k + 1]) == BuildOptions(opts[..k]) + BuildOption(opts[k])
    ensures |opts[k].val| > 253 ==> BuildOptions(opts[..k + 1]) == BuildOptions(opts[..k])
  {
    assert opts[..k + 1] == opts[..k] + [opts[k]];
    BuildOptionsConcat(opts[..k], [opts[k]]);
    assert BuildOptions([opts[k]]) == BuildOption(opts[k]) + [] == BuildOption(opts[k]);
  }

  method BuildOptionList(opts: seq<Opt>) returns (out: Bytes)
    ensures out == BuildOptions(opts)
  {
    out := [];
    for k := 0 to |opts|
      invariant out == BuildOptions(opts[..k])
    {
      ghost var before := out;
      OneMoreOption(opts, k);
      if |opts[k].val| > 253 {
        continue;
      }
      out := out + [opts[k].typ];
      out := out + [AsU8(|opts[k].val| + 2)];
      out := out + opts[k].val;
      assert out == before + ([opts[k].typ, AsU8(|opts[k].val| + 2)] + opts[k].val);
    }
    assert opts[..|opts|] == opts;
  }

  predicate Expressible(opts: seq<Opt>) {
    forall o :: o in opts ==> |o.val| <= 253
  }

  lemma {:induction false} ParsedIsExpressible(b: Bytes)
    ensures Expressible(ParseOptions(b))
    decreases |b|
  {
    if HasOption(b) {
      ParsedIsExpressible(b[b[1]..]);
    }
  }

  /** Parsing undoes building on every list the wire can carry, and on no other. */
  lemma {:induction false} OptionsRoundTrip(opts: seq<Opt>)
    ensures ParseOptions(BuildOptions(opts)) == opts <==> Expressible(opts)
  {
    if Expressible(opts) {
      ExpressibleComesBack(opts, []);
      assert BuildOptions(opts) + [] == BuildOptions(opts) && opts + [] == opts;
      assert ParseOptions([]) == [];
    } else {
      ParsedIsExpressible(BuildOptions(opts));
    }
  }

  lemma FirstOptionBack(o: Opt, later: Bytes)
    requires |o.val| <= 253
    ensures ParseOptions(BuildOption(o) + later) == [o] + ParseOptions(later)
  {
    var b := BuildOption(o) + later;
    assert b[0] == o.typ && b[1] == |o.val| + 2;
    assert b[2..b[1]] == o.val;
    assert b[b[1]..] == later;
  }

  lemma BuildOptionsCons(o: Opt, more: seq<Opt>)
    ensures BuildOptions([o] + more) == BuildOption(o) + BuildOptions(more)
  {
    assert ([o] + more)[1..] == more;
  }

  lemma {:induction false} ExpressibleComesBack(opts: seq<Opt>, junk: Bytes)
    requires Expressible(opts)
    ensures ParseOptions(BuildOptions(opts) + junk) == opts + ParseOptions(junk)
  {
    if opts == [] {
      assert BuildOptions(opts) + junk == junk;
    } else {
      ExpressibleComesBack(opts[1..], junk);
      FirstOptionBack(opts[0], BuildOptions(opts[1..]) + junk);
      Assoc(BuildOption(opts[0]), BuildOptions(opts[1..]), junk);
      Assoc([opts[0]], opts[1..], ParseOptions(junk));
      assert [opts[0]] + opts[1..] == opts;
    }
  }

  lemma Assoc<T>(a: seq<T>, b: seq<T>, c: seq<T>)
    ensures (a + b) + c == a + (b + c)
  {
  }

  lemma OptionBytes(b: Bytes)
    requires HasOption(b)
    ensures BuildOption(Opt(b[0], b[2..b[1]])) == b[..b[1]]
  {
    var n: nat := b[1];
    var built := BuildOption(Opt(b[0], b[2..n]));
    assert |built| == n;
    assert forall i :: 2 <= i < n ==> built[i] == b[i];
  }

  lemma FirstOptionRebuilt(b: Bytes)
    requires HasOption(b)
    ensures BuildOptions(ParseOptions(b)) == b[..b[1]] + BuildOptions(ParseOptions(b[b[1]..]))
  {
    BuildOptionsCons(Opt(b[0], b[2..b[1]]), ParseOptions(b[b[1]..]));
    OptionBytes(b);
  }

  lemma PrefixOfRest(b: Bytes, n: nat, kept: Bytes)
    requires n <= |b| && |kept| <= |b| - n && kept == b[n..][..|kept|]
    ensures b[..n] + kept == b[..n + |kept|] && b[n..][|kept|..] == b[n + |kept|..]
  {
  }

  /**
   * Re-building what was parsed gives back a prefix of the input, and the first
   * byte behind that prefix starts no well-formed entry.
   */
  lemma {:induction false} RebuildIsPrefix(b: Bytes)
    ensures var kept := BuildOptions(ParseOptions(b));
      && |kept| <= |b| && kept == b[..|kept|] && !HasOption(b[|kept|..])
    decreases |b|
  {
    if !HasOption(b) {
      assert b[0..] == b;
    } else {
      var rest := b[b[1]..];
      RebuildIsPrefix(rest);
      FirstOptionRebuilt(b);
      PrefixOfRest(b, b[1], BuildOptions(ParseOptions(rest)));
    }
  }

  // ---------------------------------------------------------------------------
  // Framing
  // ---------------------------------------------------------------------------

  function EncodePpp(proto: nat, payload: Bytes): Bytes
    requires proto < 0x1_0000
  {
    Forti.Header(2 + |payload|) + (Be16(proto) + payload)
  }

  method EncodePppAppend(proto: nat, payload: Bytes, out: BytesMut)
    requires proto < 0x1_0000
    modifies out
    ensures out.data == old(out.data) + EncodePpp(proto, payload)
  {
    var bodyLen := 2 + |payload|;
    out.data := out.data + Be16(AsU16(Forti.HEADER_LEN + bodyLen));
    out.data := out.data + Be16(Forti.MAGIC);
    out.data := out.data + Be16(AsU16(bodyLen));
    out.data := out.data + Be16(proto);
    out.data := out.data + payload;
    assert out.data == old(out.data) + (Forti.Header(bodyLen) + (Be16(proto) + payload));
  }

  datatype PppFrame = PppFrame(proto: nat, payload: Bytes)

  /** The protocol and payload of an envelope body, behind an optional HDLC `FF 03`. */
  function SplitPpp(body: Bytes): (r: Option<PppFrame>)
    ensures r.Some? ==> r.value.proto < 0x1_0000 && |r.value.payload| + 2 <= |body|
  {
    var off := if |body| >= 2 && body[0] == 0xFF && body[1] == 0x03 then 2 else 0;
    if |body| < off + 2 then None
    else Some(PppFrame(U16At(body, off), body[off + 2..]))
  }

  const HDLC: Bytes := [0xFF, 0x03]

  /** Exactly the bodies read as this frame: with the HDLC prefix, or without it unless the protocol would pass for one. */
  lemma SplitPppExactly(body: Bytes, proto: nat, payload: Bytes)
    requires proto < 0x1_0000
    ensures SplitPpp(body) == Some(PppFrame(proto, payload)) <==>
      body == HDLC + Be16(proto) + payload || (body == Be16(proto) + payload && proto != 0xFF03)
    ensures SplitPpp(body).None? <==> |body| < 2 || (HDLC <= body && |body| < 4)
  {
    var b := Be16(proto);
    if SplitPpp(body) == Some(PppFrame(proto, payload)) {
      var off := if HDLC <= body then 2 else 0;
      assert body[off..off + 2] == b && body == body[..off] + body[off..off + 2] + body[off + 2..];
    }
    if body == HDLC + b + payload {
      assert body[2] == b[0] && body[3] == b[1] && body[4..] == payload;
    } else if body == b + payload && proto != 0xFF03 {
      assert body[0] == b[0] && body[1] == b[1] && body[2..] == payload;
    }
  }

  function Decode(buf: Bytes): Step<PppFrame, VpnError> {
    match Forti.Decode(buf)
    case NeedMore => NeedMore
    case Malformed(e) => Malformed(e)
    case Frame(body, n) =>
      match SplitPpp(body)
      case Some(f) => Frame(f, n)
      case None => Malformed(Protocol(BodyTooShort))
  }

  method TryDecode(buf: BytesMut) returns (r: Result<Option<PppFrame>, VpnError>)
    modifies buf
    ensures Took(Decode(old(buf.data)), old(buf.data), buf.data, r)
  {
    var body := Forti.TryDecode(buf);
    if body.Err? {
      return Err(body.error);
    }
    if body.value.None? {
      return Ok(None);
    }
    var f := SplitPpp(body.value.value);
    return if f.Some? then Ok(Some(f.value)) else Err(Protocol(BodyTooShort));
  }

  lemma StableOn(b: Bytes, more: Bytes)
    ensures !Decode(b).NeedMore? ==> Decode(b + more) == Decode(b)
    ensures Decode(b).Frame? ==> 0 < Decode(b).used <= |b|
  {
    if !Decode(b).NeedMore? {
      Forti.StableOn(b, more);
    }
  }

  lemma DecodeIsStable()
    ensures PrefixStable(Decode)
  {
    forall b: Bytes
      ensures Decode(b).Frame? ==> 0 < Decode(b).used <= |b|
    {
      StableOn(b, []);
    }
    forall b: Bytes, more: Bytes | !Decode(b).NeedMore?
      ensures Decode(b + more) == Decode(b)
    {
      StableOn(b, more);
    }
  }

  lemma DecodedFrameIsSmall(buf: Bytes)
    ensures Decode(buf).Frame? ==>
      Decode(buf).event.proto < 0x1_0000 && |Decode(buf).event.payload| + 2 <= Forti.MAX_BODY
  {
  }

  /**
   * A framed payload comes back whole exactly when its body is within the cap,
   * unless the protocol field itself reads as an HDLC prefix.
   */
  lemma FrameBack(proto: nat, payload: Bytes)
    requires proto < 0x1_0000 && proto != 0xFF03
    ensures Decode(EncodePpp(proto, payload)) == Frame(PppFrame(proto, payload), |EncodePpp(proto, payload)|)
       <==> 2 + |payload| <= Forti.MAX_BODY
  {
    var p := Be16(proto);
    var body := p + payload;
    Forti.FrameBack(body);
    assert body[0] == p[0] && body[1] == p[1] && body[2..] == payload;
    Forti.HeaderBack(2 + |payload|, body);
  }

  // ---------------------------------------------------------------------------
  // LCP liveness and shutdown
  // ---------------------------------------------------------------------------

  function EchoRequest(magic: Word, id: Byte): Bytes {
    EncodePpp(PPP_LCP, BuildCp(ECHO_REQ, id, Be32(magic)))
  }

  /** Our magic number, then whatever the request carried behind the peer's. */
  function EchoReplyData(magic: Word, request: CpPacket): Bytes {
    Be32(magic) + if |request.data| > 4 then request.data[4..] else []
  }

  function EchoReply(magic: Word, request: CpPacket): Bytes {
    EncodePpp(PPP_LCP, BuildCp(ECHO_REP, request.id, EchoReplyData(magic, request)))
  }

  function TerminateRequest(id: Byte): Bytes {
    EncodePpp(PPP_LCP, BuildCp(TERM_REQ, id, [0x62, 0x79, 0x65]))
  }
}
