/** What holds in every state the client can reach, whatever the peer sends. */
module NegotiationSafety {
  import opened Wire
  import opened Errors
  import opened StreamDecoding
  import opened Ppp
  import opened Negotiation
  import Forti

  // ---------------------------------------------------------------------------
  // Option lists stay short enough for their 16-bit lengths
  // ---------------------------------------------------------------------------

  predicate DistinctTypes(opts: seq<Opt>) {
    forall i, j :: 0 <= i < j < |opts| ==> opts[i].typ != opts[j].typ
  }

  /** The lists a request can be built from. */
  predicate Sound(opts: seq<Opt>) {
    DistinctTypes(opts) && Expressible(opts)
  }

  lemma {:induction false} SetFirstKeepsTypes(opts: seq<Opt>, o: Opt)
    ensures forall i :: 0 <= i < |opts| ==> SetFirst(opts, o)[i].typ == opts[i].typ
    ensures Expressible(opts) && |o.val| <= 253 ==> Expressible(SetFirst(opts, o))
  {
    if opts != [] && opts[0].typ != o.typ {
      SetFirstKeepsTypes(opts[1..], o);
      assert forall p :: p in opts[1..] ==> p in opts;
    }
  }

  lemma SetFirstSound(opts: seq<Opt>, o: Opt)
    requires Sound(opts) && |o.val| <= 253
    ensures Sound(SetFirst(opts, o))
  {
    SetFirstKeepsTypes(opts, o);
  }

  lemma {:induction false} AdoptKnownSound(opts: seq<Opt>, naked: seq<Opt>)
    requires Sound(opts) && Expressible(naked)
    ensures Sound(AdoptKnown(opts, naked)) && |AdoptKnown(opts, naked)| == |opts|
    decreases |naked|
  {
    if naked != [] {
      SetFirstSound(opts, naked[0]);
      AdoptKnownSound(SetFirst(opts, naked[0]), naked[1..]);
    }
  }

  lemma {:induction false} AdoptAllSound(opts: seq<Opt>, naked: seq<Opt>)
    requires Sound(opts) && Expressible(naked)
    ensures Sound(AdoptAll(opts, naked))
    decreases |naked|
  {
    if naked != [] {
      SetFirstSound(opts, naked[0]);
      AdoptAllSound(Adopt(opts, naked[0]), naked[1..]);
    }
  }

  lemma {:induction false} WithoutHas(opts: seq<Opt>, rejected: seq<Opt>)
    ensures forall o :: o in Without(opts, rejected) <==> o in opts && !HasType(rejected, o.typ)
    ensures |Without(opts, rejected)| <= |opts|
  {
    if opts != [] {
      WithoutHas(opts[1..], rejected);
      assert opts == [opts[0]] + opts[1..];
    }
  }

  lemma {:induction false} WithoutIsSublist(opts: seq<Opt>, rejected: seq<Opt>)
    ensures forall o :: o in Without(opts, rejected) <==> o in opts && !HasType(rejected, o.typ)
    ensures |Without(opts, rejected)| <= |opts|
    ensures DistinctTypes(opts) ==> DistinctTypes(Without(opts, rejected))
  {
    WithoutHas(opts, rejected);
    if opts != [] && DistinctTypes(opts) {
      var first, later := opts[0], Without(opts[1..], rejected);
      WithoutIsSublist(opts[1..], rejected);
      forall i | 0 <= i < |later|
        ensures later[i].typ != first.typ
      {
        assert later[i] in opts[1..];
      }
    }
  }

  function Types(opts: seq<Opt>): set<Byte> {
    set i | 0 <= i < |opts| :: opts[i].typ
  }

  lemma {:induction false} DistinctCount(opts: seq<Opt>)
    requires DistinctTypes(opts)
    ensures |Types(opts)| == |opts|
  {
    if opts != [] {
      var last := |opts| - 1;
      DistinctCount(opts[..last]);
      assert Types(opts) == Types(opts[..last]) + {opts[last].typ};
      assert opts[last].typ !in Types(opts[..last]);
    }
  }

  lemma {:induction false} BytesBelow(s: set<Byte>, n: nat)
    requires forall b :: b in s ==> b < n
    ensures |s| <= n
    decreases n
  {
    if n > 0 {
      var last: int := n - 1;
      if last < 0x100 && last in s {
        BytesBelow(s - {last}, n - 1);
      } else {
        BytesBelow(s, n - 1);
      }
    } else {
      assert s == {};
    }
  }

  lemma {:induction false} BuiltLength(opts: seq<Opt>)
    ensures |BuildOptions(opts)| <= 255 * |opts|
  {
    if opts != [] {
      BuiltLength(opts[1..]);
    }
  }

  /** At most one option per type byte, each at most 255 bytes: the list fits 65280 bytes. */
  lemma SoundListFits(opts: seq<Opt>)
    requires Sound(opts)
    ensures |opts| <= 256 && |BuildOptions(opts)| <= 65280
  {
    DistinctCount(opts);
    BytesBelow(Types(opts), 256);
    BuiltLength(opts);
  }

  /** No cast in the framing of this packet drops a bit. */
  ghost predicate Exact(o: Out) {
    && o.proto < 0x1_0000
    && var frame := EncodePpp(o.proto, o.payload);
    && |frame| < 0x1_0000
    && U16At(frame, 0) == |frame| && U16At(frame, 4) == 2 + |o.payload|
  }

  lemma FitsTheField(n: nat)
    requires n < 0x1_0000
    ensures AsU16(n) == n
  {
  }

  lemma ShortIsExact(o: Out)
    requires o.proto < 0x1_0000 && |o.payload| + 8 < 0x1_0000
    ensures Exact(o)
  {
    var body := Be16(o.proto) + o.payload;
    var frame := Forti.Header(|body|) + body;
    Forti.HeaderBack(|body|, body);
    FitsTheField(Forti.HEADER_LEN + |body|);
    FitsTheField(|body|);
    assert frame == EncodePpp(o.proto, o.payload) && |frame| == Forti.HEADER_LEN + |body|;
  }

  /**
   * A Configure-Request built from a sound list is at most 65292 bytes on the
   * wire, loses nothing to the 16-bit casts, and parses back to the same list;
   * the client's own decoder takes its frame exactly when it is within the cap.
   */
  lemma RequestIsExact(proto: nat, id: Byte, opts: seq<Opt>)
    requires Sound(opts) && (proto == PPP_LCP || proto == PPP_IPCP)
    ensures var o := ConfigureRequest(proto, id, opts);
      && Exact(o) && |EncodePpp(proto, o.payload)| <= 65292
      && ParseCp(o.payload) == Ok(CpPacket(CONF_REQ, id, BuildOptions(opts)))
      && ParseOptions(BuildOptions(opts)) == opts
      && (Ppp.Decode(EncodePpp(proto, o.payload)) == WholeFrame(o) <==> 2 + |o.payload| <= Forti.MAX_BODY)
  {
    var o := ConfigureRequest(proto, id, opts);
    SoundListFits(opts);
    ShortIsExact(o);
    CpRoundTrip(CONF_REQ, id, BuildOptions(opts));
    OptionsRoundTrip(opts);
    FrameBack(proto, o.payload);
    Forti.HeaderBack(2 + |o.payload|, Be16(proto) + o.payload);
  }

  function WholeFrame(o: Out): Step<PppFrame, VpnError>
    requires o.proto < 0x1_0000
  {
    Frame(PppFrame(o.proto, o.payload), |EncodePpp(o.proto, o.payload)|)
  }

  // ---------------------------------------------------------------------------
  // Runs
  // ---------------------------------------------------------------------------

  datatype Point = Point(client: Client, sent: seq<Out>)

  /** Where the client is, and what it has sent, after these receives. */
  function Play(magic: Magic, got: seq<Recv>): Point {
    if got == [] then Point(Begin(magic), [LcpRequest(FirstLcp(magic))])
    else
      var before := Play(magic, got[..|got| - 1]);
      var (c, out) := Proceed(magic, before.client, got[|got| - 1]);
      Point(c, before.sent + out)
  }

  /** Every receive happened in a loop that still had rounds left. */
  ghost predicate Live(magic: Magic, got: seq<Recv>) {
    forall k :: 0 <= k < |got| ==>
      Play(magic, got[..k]).client.Negotiating() && !Play(magic, got[..k]).client.Exhausted()
  }

  /** What the framer's cap guarantees of received frames. */
  ghost predicate Capped(got: seq<Recv>) {
    forall k :: 0 <= k < |got| && got[k].Got? ==>
      got[k].frame.proto < 0x1_0000 && |got[k].frame.payload| + 2 <= Forti.MAX_BODY
  }

  ghost predicate HeardIs(r: Recv, proto: nat, pkt: CpPacket) {
    r.Got? && r.frame.proto == proto && ParseCp(r.frame.payload) == Ok(pkt)
  }

  /** Receive `k` is the Ack of a request that had been sent by then. */
  ghost predicate OursAckedAt(magic: Magic, got: seq<Recv>, proto: nat, k: nat, id: Byte, opts: seq<Opt>, data: Bytes) {
    && k < |got|
    && HeardIs(got[k], proto, CpPacket(CONF_ACK, id, data))
    && ConfigureRequest(proto, id, opts) in Play(magic, got[..k]).sent
  }

  /** Receive `k` is a request that was answered at once by an Ack with the same id and data. */
  ghost predicate TheirsAckedAt(magic: Magic, got: seq<Recv>, proto: nat, k: nat, id: Byte, data: Bytes) {
    && k < |got|
    && HeardIs(got[k], proto, CpPacket(CONF_REQ, id, data))
    && Reply(proto, CONF_ACK, id, data) in Play(magic, got[..k + 1]).sent
    && (proto == PPP_LCP ==> forall o :: o in ParseOptions(data) ==> IsKnownLcp(o))
  }

  ghost predicate OursAcked(magic: Magic, got: seq<Recv>, proto: nat) {
    exists k: nat, id: Byte, opts: seq<Opt>, data: Bytes :: OursAckedAt(magic, got, proto, k, id, opts, data)
  }

  ghost predicate TheirsAcked(magic: Magic, got: seq<Recv>, proto: nat) {
    exists k: nat, id: Byte, data: Bytes :: TheirsAckedAt(magic, got, proto, k, id, data)
  }

  predicate GoodHarvest(h: Harvest) {
    && (h.address.Some? ==> !IsUnspecified(h.address.value))
    && (forall a :: a in h.dns ==> !IsUnspecified(a))
    && (forall i, j :: 0 <= i < j < |h.dns| ==> h.dns[i] != h.dns[j])
  }

  ghost predicate AllExact(sent: seq<Out>) {
    forall o :: o in sent ==> Exact(o)
  }

  ghost predicate SafeLcp(magic: Magic, got: seq<Recv>, l: Lcp, rounds: nat, sent: seq<Out>) {
    && Sound(l.opts) && |l.opts| <= 2
    && rounds <= MAX_ROUNDS && 1 <= l.id <= rounds + 1
    && LcpRequest(l) in sent
    && (l.ours ==> OursAcked(magic, got, PPP_LCP))
    && (l.theirs ==> TheirsAcked(magic, got, PPP_LCP))
  }

  ghost predicate LcpAgreed(magic: Magic, got: seq<Recv>) {
    OursAcked(magic, got, PPP_LCP) && TheirsAcked(magic, got, PPP_LCP)
  }

  ghost predicate SafeIpcp(magic: Magic, got: seq<Recv>, i: Ipcp, rounds: nat, sent: seq<Out>) {
    && Sound(i.opts) && GoodHarvest(i.harvest)
    && rounds <= MAX_ROUNDS && 1 <= i.id <= rounds + 1
    && IpcpRequest(i) in sent
    && LcpAgreed(magic, got)
    && (i.ours ==> OursAcked(magic, got, PPP_IPCP))
    && (i.theirs ==> TheirsAcked(magic, got, PPP_IPCP))
  }

  /** On success both sides have acknowledged, in both protocols, and the session is usable. */
  ghost predicate SafeUp(magic: Magic, got: seq<Recv>, s: Session) {
    && GoodHarvest(Harvest(Some(s.address), s.dns))
    && LcpAgreed(magic, got)
    && OursAcked(magic, got, PPP_IPCP) && TheirsAcked(magic, got, PPP_IPCP)
  }

  ghost predicate SafeClient(magic: Magic, got: seq<Recv>, c: Client, sent: seq<Out>) {
    match c
    case InLcp(l, rounds) => SafeLcp(magic, got, l, rounds, sent)
    case InIpcp(mru, i, rounds) => SafeIpcp(magic, got, i, rounds, sent)
    case Up(s) => SafeUp(magic, got, s)
    case Down(_) => true
  }

  /** The invariant of both loops. */
  ghost predicate Safe(magic: Magic, got: seq<Recv>) {
    && AllExact(Play(magic, got).sent)
    && SafeClient(magic, got, Play(magic, got).client, Play(magic, got).sent)
  }

  lemma AckedStays(magic: Magic, got: seq<Recv>, r: Recv, proto: nat)
    ensures OursAcked(magic, got, proto) ==> OursAcked(magic, got + [r], proto)
    ensures TheirsAcked(magic, got, proto) ==> TheirsAcked(magic, got + [r], proto)
  {
    var more := got + [r];
    if OursAcked(magic, got, proto) {
      var k: nat, id: Byte, opts: seq<Opt>, data: Bytes :| OursAckedAt(magic, got, proto, k, id, opts, data);
      assert more[..k] == got[..k];
      assert OursAckedAt(magic, more, proto, k, id, opts, data);
    }
    if TheirsAcked(magic, got, proto) {
      var k: nat, id: Byte, data: Bytes :| TheirsAckedAt(magic, got, proto, k, id, data);
      assert more[..k + 1] == got[..k + 1];
      assert TheirsAckedAt(magic, more, proto, k, id, data);
    }
  }

  lemma PlayMore(magic: Magic, got: seq<Recv>, r: Recv)
    ensures var (c, out) := Proceed(magic, Play(magic, got).client, r);
      Play(magic, got + [r]) == Point(c, Play(magic, got).sent + out)
  {
    assert (got + [r])[..|got|] == got;
  }

  lemma {:induction false} HarvestStaysGood(h: Harvest, opts: seq<Opt>)
    requires GoodHarvest(h)
    ensures GoodHarvest(HarvestAll(h, opts))
    decreases |opts|
  {
    if opts != [] {
      HarvestStaysGood(HarvestOne(h, opts[0]), opts[1..]);
    }
  }

  lemma {:induction false} AllKnown(opts: seq<Opt>)
    requires UnknownLcp(opts) == []
    ensures forall o :: o in opts ==> IsKnownLcp(o)
  {
    if opts != [] {
      AllKnown(opts[1..]);
    }
  }

  /** Answers echo what was received, so the receive cap bounds them too. */
  lemma AnswersAreExact(magic: Magic, pkt: CpPacket)
    requires |pkt.data| + 4 <= Forti.MAX_BODY
    ensures forall proto, code :: proto == PPP_LCP || proto == PPP_IPCP ==> Exact(Reply(proto, code, pkt.id, pkt.data))
    ensures Exact(EchoAnswer(magic, pkt)) && Exact(Reply(PPP_LCP, TERM_ACK, pkt.id, []))
    ensures Exact(Reply(PPP_LCP, CONF_REJ, pkt.id, BuildOptions(UnknownLcp(ParseOptions(pkt.data)))))
  {
    forall proto, code: Byte | proto == PPP_LCP || proto == PPP_IPCP
      ensures Exact(Reply(proto, code, pkt.id, pkt.data))
    {
      ShortIsExact(Reply(proto, code, pkt.id, pkt.data));
    }
    ShortIsExact(EchoAnswer(magic, pkt));
    ShortIsExact(Reply(PPP_LCP, TERM_ACK, pkt.id, []));
    UnknownIsShorter(ParseOptions(pkt.data));
    RebuildIsPrefix(pkt.data);
    ShortIsExact(Reply(PPP_LCP, CONF_REJ, pkt.id, BuildOptions(UnknownLcp(ParseOptions(pkt.data)))));
  }

  lemma {:induction false} UnknownIsShorter(opts: seq<Opt>)
    ensures |BuildOptions(UnknownLcp(opts))| <= |BuildOptions(opts)|
  {
    if opts != [] {
      UnknownIsShorter(opts[1..]);
      BuildOptionsCons(opts[0], UnknownLcp(opts[1..]));
      assert [] + UnknownLcp(opts[1..]) == UnknownLcp(opts[1..]);
    }
  }

  ghost predicate CappedOne(r: Recv) {
    r.Got? ==> r.frame.proto < 0x1_0000 && |r.frame.payload| + 2 <= Forti.MAX_BODY
  }

  ghost predicate HeardAck(r: Recv, proto: nat, id: Byte) {
    exists data: Bytes :: HeardIs(r, proto, CpPacket(CONF_ACK, id, data))
  }

  ghost predicate HeardAndAcked(r: Recv, sent: seq<Out>, proto: nat) {
    exists id: Byte, data: Bytes ::
      && HeardIs(r, proto, CpPacket(CONF_REQ, id, data))
      && Reply(proto, CONF_ACK, id, data) in sent
      && (proto == PPP_LCP ==> forall o :: o in ParseOptions(data) ==> IsKnownLcp(o))
  }

  /** One turn of the LCP loop, on its own. */
  ghost predicate LcpTurnIsSafe(l: Lcp, r: Recv, t: Turn<Lcp>) {
    && AllExact(t.sent)
    && (t.Go? ==>
          && Sound(t.state.opts) && |t.state.opts| <= 2
          && (t.state.id == l.id || t.state.id == NextId(l.id))
          && ((t.state.opts == l.opts && t.state.id == l.id) || LcpRequest(t.state) in t.sent)
          && (t.state.ours && !l.ours ==> HeardAck(r, PPP_LCP, l.id))
          && (t.state.theirs && !l.theirs ==> HeardAndAcked(r, t.sent, PPP_LCP)))
  }

  lemma LcpRetryIsSafe(l: Lcp, r: Recv, opts: seq<Opt>)
    requires Sound(opts) && |opts| <= 2
    ensures LcpTurnIsSafe(l, r, RetryLcp(l, opts))
  {
    RequestIsExact(PPP_LCP, NextId(l.id), opts);
  }

  lemma LcpRequestIsSafe(magic: Magic, l: Lcp, r: Recv, pkt: CpPacket)
    requires Sound(l.opts) && |l.opts| <= 2 && CappedOne(r) && HeardIs(r, PPP_LCP, pkt) && pkt.code == CONF_REQ
    ensures LcpTurnIsSafe(l, r, LcpPacket(magic, l, pkt))
  {
    AnswersAreExact(magic, pkt);
    if UnknownLcp(ParseOptions(pkt.data)) == [] {
      AllKnown(ParseOptions(pkt.data));
      assert HeardIs(r, PPP_LCP, CpPacket(CONF_REQ, pkt.id, pkt.data));
    }
  }

  lemma LcpPacketIsSafe(magic: Magic, l: Lcp, r: Recv, pkt: CpPacket)
    requires Sound(l.opts) && |l.opts| <= 2 && CappedOne(r) && HeardIs(r, PPP_LCP, pkt)
    ensures LcpTurnIsSafe(l, r, LcpPacket(magic, l, pkt))
  {
    var opts := ParseOptions(pkt.data);
    ParsedIsExpressible(pkt.data);
    if pkt.code == CONF_REQ {
      LcpRequestIsSafe(magic, l, r, pkt);
    } else if pkt.code == CONF_NAK {
      AdoptKnownSound(l.opts, opts);
      LcpRetryIsSafe(l, r, AdoptKnown(l.opts, opts));
    } else if pkt.code == CONF_REJ {
      WithoutIsSublist(l.opts, opts);
      LcpRetryIsSafe(l, r, Without(l.opts, opts));
    } else if pkt.code == CONF_ACK {
      assert HeardIs(r, PPP_LCP, CpPacket(CONF_ACK, pkt.id, pkt.data));
    } else {
      AnswersAreExact(magic, pkt);
    }
  }

  lemma LcpTurnsAreSafe(magic: Magic, l: Lcp, r: Recv)
    requires Sound(l.opts) && |l.opts| <= 2 && CappedOne(r)
    ensures LcpTurnIsSafe(l, r, LcpTurn(magic, l, r))
  {
    RequestIsExact(PPP_LCP, l.id, l.opts);
    if r.Got? && r.frame.proto == PPP_LCP && ParseCp(r.frame.payload).Ok? {
      LcpPacketIsSafe(magic, l, r, ParseCp(r.frame.payload).value);
    }
  }

  ghost predicate IpcpTurnIsSafe(i: Ipcp, r: Recv, t: Turn<Ipcp>) {
    && AllExact(t.sent)
    && (t.Go? ==>
          && Sound(t.state.opts) && GoodHarvest(t.state.harvest)
          && (t.state.id == i.id || t.state.id == NextId(i.id))
          && ((t.state.opts == i.opts && t.state.id == i.id) || IpcpRequest(t.state) in t.sent)
          && (t.state.ours && !i.ours ==> HeardAck(r, PPP_IPCP, i.id))
          && (t.state.theirs && !i.theirs ==> HeardAndAcked(r, t.sent, PPP_IPCP)))
  }

  lemma IpcpRetryIsSafe(i: Ipcp, r: Recv, opts: seq<Opt>, harvest: Harvest)
    requires Sound(opts) && GoodHarvest(harvest)
    ensures IpcpTurnIsSafe(i, r, RetryIpcp(i, opts, harvest))
  {
    RequestIsExact(PPP_IPCP, NextId(i.id), opts);
  }

  lemma IpcpRequestIsSafe(magic: Magic, i: Ipcp, r: Recv, pkt: CpPacket)
    requires Sound(i.opts) && GoodHarvest(i.harvest) && CappedOne(r)
    requires HeardIs(r, PPP_IPCP, pkt) && pkt.code == CONF_REQ
    ensures IpcpTurnIsSafe(i, r, IpcpPacket(i, pkt))
  {
    AnswersAreExact(magic, pkt);
    assert HeardIs(r, PPP_IPCP, CpPacket(CONF_REQ, pkt.id, pkt.data));
  }

  lemma IpcpPacketIsSafe(magic: Magic, i: Ipcp, r: Recv, pkt: CpPacket)
    requires Sound(i.opts) && GoodHarvest(i.harvest) && CappedOne(r) && HeardIs(r, PPP_IPCP, pkt)
    ensures IpcpTurnIsSafe(i, r, IpcpPacket(i, pkt))
  {
    var opts := ParseOptions(pkt.data);
    ParsedIsExpressible(pkt.data);
    HarvestStaysGood(i.harvest, opts);
    if pkt.code == CONF_REQ {
      IpcpRequestIsSafe(magic, i, r, pkt);
    } else if pkt.code == CONF_NAK {
      AdoptAllSound(i.opts, opts);
      IpcpRetryIsSafe(i, r, AdoptAll(i.opts, opts), HarvestAll(i.harvest, opts));
    } else if pkt.code == CONF_REJ {
      WithoutIsSublist(i.opts, opts);
      IpcpRetryIsSafe(i, r, Without(i.opts, opts), i.harvest);
    } else if pkt.code == CONF_ACK {
      assert HeardIs(r, PPP_IPCP, CpPacket(CONF_ACK, pkt.id, pkt.data));
    }
  }

  lemma LateLcpPacketIsSafe(magic: Magic, i: Ipcp, r: Recv, pkt: CpPacket)
    requires Sound(i.opts) && GoodHarvest(i.harvest) && CappedOne(r) && HeardIs(r, PPP_LCP, pkt)
    ensures IpcpTurnIsSafe(i, r, LateLcpPacket(magic, i, pkt))
  {
    AnswersAreExact(magic, pkt);
  }

  lemma IpcpTurnsAreSafe(magic: Magic, i: Ipcp, r: Recv)
    requires Sound(i.opts) && GoodHarvest(i.harvest) && CappedOne(r)
    ensures IpcpTurnIsSafe(i, r, IpcpTurn(magic, i, r))
  {
    if r.Silence? {
      RequestIsExact(PPP_IPCP, i.id, i.opts);
    } else if r.Got? && (r.frame.proto == PPP_LCP || r.frame.proto == PPP_IPCP) && ParseCp(r.frame.payload).Ok? {
      var pkt := ParseCp(r.frame.payload).value;
      assert HeardIs(r, r.frame.proto, pkt);
      if r.frame.proto == PPP_IPCP {
        IpcpPacketIsSafe(magic, i, r, pkt);
      } else {
        LateLcpPacketIsSafe(magic, i, r, pkt);
      }
    }
  }

  /** A heard Ack of the current request, or a request heard and answered, at the last receive. */
  lemma AckedNow(magic: Magic, got: seq<Recv>, r: Recv, proto: nat, id: Byte, opts: seq<Opt>)
    ensures ConfigureRequest(proto, id, opts) in Play(magic, got).sent && HeardAck(r, proto, id) ==>
      OursAcked(magic, got + [r], proto)
    ensures HeardAndAcked(r, Proceed(magic, Play(magic, got).client, r).1, proto) ==>
      TheirsAcked(magic, got + [r], proto)
  {
    var more := got + [r];
    assert more[..|got|] == got && more[..|got| + 1] == more;
    PlayMore(magic, got, r);
    if ConfigureRequest(proto, id, opts) in Play(magic, got).sent && HeardAck(r, proto, id) {
      var data: Bytes :| HeardIs(r, proto, CpPacket(CONF_ACK, id, data));
      assert OursAckedAt(magic, more, proto, |got|, id, opts, data);
    }
    var out := Proceed(magic, Play(magic, got).client, r).1;
    if HeardAndAcked(r, out, proto) {
      var id', data: Bytes :|
        && HeardIs(r, proto, CpPacket(CONF_REQ, id', data))
        && Reply(proto, CONF_ACK, id', data) in out
        && (proto == PPP_LCP ==> forall o :: o in ParseOptions(data) ==> IsKnownLcp(o));
      assert TheirsAckedAt(magic, more, proto, |got|, id', data);
    }
  }

  lemma ExactTogether(a: seq<Out>, b: seq<Out>)
    requires AllExact(a) && AllExact(b)
    ensures AllExact(a + b)
  {
  }

  lemma NextIdIsSmall(id: Byte, rounds: nat)
    requires 1 <= id <= rounds + 1 && rounds < MAX_ROUNDS
    ensures 1 <= NextId(id) <= rounds + 2
  {
  }

  lemma HeardAndAckedMore(r: Recv, sent: seq<Out>, more: seq<Out>, proto: nat)
    requires HeardAndAcked(r, sent, proto)
    ensures HeardAndAcked(r, sent + more, proto)
  {
    var id, data: Bytes :|
      && HeardIs(r, proto, CpPacket(CONF_REQ, id, data))
      && Reply(proto, CONF_ACK, id, data) in sent
      && (proto == PPP_LCP ==> forall o :: o in ParseOptions(data) ==> IsKnownLcp(o));
    assert Reply(proto, CONF_ACK, id, data) in sent + more;
  }

  lemma LcpStepIsSafe(magic: Magic, got: seq<Recv>, r: Recv)
    requires Safe(magic, got) && CappedOne(r)
    requires Play(magic, got).client.InLcp? && !Play(magic, got).client.Exhausted()
    ensures Safe(magic, got + [r])
  {
    var p := Play(magic, got);
    var l, rounds := p.client.l, p.client.rounds;
    var t := LcpTurn(magic, l, r);
    PlayMore(magic, got, r);
    LcpTurnsAreSafe(magic, l, r);
    ExactTogether(p.sent, t.sent);
    if t.Go? {
      AckedStays(magic, got, r, PPP_LCP);
      AckedNow(magic, got, r, PPP_LCP, l.id, l.opts);
      var out := Proceed(magic, p.client, r).1;
      assert out == t.sent || out == t.sent + [IpcpRequest(FIRST_IPCP)];
      if HeardAndAcked(r, t.sent, PPP_LCP) {
        HeardAndAckedMore(r, t.sent, [IpcpRequest(FIRST_IPCP)], PPP_LCP);
      }
      NextIdIsSmall(l.id, rounds);
      if t.state.ours && t.state.theirs {
        OpeningIsSafe(magic, got, r, p.sent, t.sent);
      } else {
        assert SafeLcp(magic, got + [r], t.state, rounds + 1, p.sent + t.sent);
      }
    }
  }

  /** The turn that sets the second flag also opens IPCP with a request of its own. */
  lemma FirstIpcpIsSound()
    ensures Sound(FIRST_IPCP.opts) && GoodHarvest(FIRST_IPCP.harvest)
  {
  }

  lemma OpeningIsSafe(magic: Magic, got: seq<Recv>, r: Recv, sent: seq<Out>, out: seq<Out>)
    requires AllExact(sent + out) && LcpAgreed(magic, got + [r])
    ensures AllExact(sent + (out + [IpcpRequest(FIRST_IPCP)]))
    ensures SafeIpcp(magic, got + [r], FIRST_IPCP, 0, sent + (out + [IpcpRequest(FIRST_IPCP)]))
  {
    FirstIpcpIsSound();
    RequestIsExact(PPP_IPCP, FIRST_IPCP.id, FIRST_IPCP.opts);
    ExactTogether(sent + out, [IpcpRequest(FIRST_IPCP)]);
    assert sent + (out + [IpcpRequest(FIRST_IPCP)]) == sent + out + [IpcpRequest(FIRST_IPCP)];
  }

  lemma IpcpStepIsSafe(magic: Magic, got: seq<Recv>, r: Recv)
    requires Safe(magic, got) && CappedOne(r)
    requires Play(magic, got).client.InIpcp? && !Play(magic, got).client.Exhausted()
    ensures Safe(magic, got + [r])
  {
    var p := Play(magic, got);
    var mru, i, rounds := p.client.mru, p.client.i, p.client.rounds;
    var t := IpcpTurn(magic, i, r);
    PlayMore(magic, got, r);
    IpcpTurnsAreSafe(magic, i, r);
    ExactTogether(p.sent, t.sent);
    if t.Go? {
      AckedStays(magic, got, r, PPP_LCP);
      AckedStays(magic, got, r, PPP_IPCP);
      AckedNow(magic, got, r, PPP_IPCP, i.id, i.opts);
      NextIdIsSmall(i.id, rounds);
      if !(t.state.ours && t.state.theirs) {
        assert SafeIpcp(magic, got + [r], t.state, rounds + 1, p.sent + t.sent);
      } else if t.state.harvest.address.Some? {
        assert SafeUp(magic, got + [r], Finish(magic, mru, t.state).session);
      }
    }
  }

  lemma StartIsSafe(magic: Magic)
    ensures Safe(magic, [])
  {
    var opts := FirstLcp(magic).opts;
    assert opts[0].typ != opts[1].typ;
    RequestIsExact(PPP_LCP, 1, opts);
  }

  /** Whatever the peer sends: every reachable state is safe. */
  lemma {:induction false} EveryRunIsSafe(magic: Magic, got: seq<Recv>)
    requires Capped(got) && Live(magic, got)
    ensures Safe(magic, got)
    decreases |got|
  {
    if got == [] {
      StartIsSafe(magic);
    } else {
      var before, r := got[..|got| - 1], got[|got| - 1];
      assert forall k :: 0 <= k <= |before| ==> before[..k] == got[..k];
      assert before + [r] == got;
      EveryRunIsSafe(magic, before);
      if Play(magic, before).client.InLcp? {
        LcpStepIsSafe(magic, before, r);
      } else {
        IpcpStepIsSafe(magic, before, r);
      }
    }
  }
}
