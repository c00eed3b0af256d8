/** The invariant of client, gateway and both channels, kept by every step. */
module GatewayAgreement {
  import opened Wire
  import opened Errors
  import opened Ppp
  import opened Negotiation
  import opened NegotiationSafety
  import opened Gateway

  // ---------------------------------------------------------------------------
  // Where a handshake stands
  // ---------------------------------------------------------------------------

  /** The client's request: unanswered, refused, granted but not yet heard, or settled. */
  datatype Ask = Asked | Refused(answer: Answer) | Granted | Settled

  /** The gateway's request: not sent, on its way, rejected or acknowledged by the client, or acknowledged and back home. */
  datatype Offer = Unsent | InFlight | Bounced | Echoed | Acked

  /** Both handshakes of one run. The names say how far the slower side has come. */
  datatype Stage =
    | LcpStage(ask: Ask, offer: Offer)
    | GatewayAhead
    | ClientAhead
    | IpcpStage(ask: Ask, offer: Offer)
    | Done
    | Failed

  /** A queue that holds at most these two messages, in either order. */
  predicate Mixed<T(==)>(q: seq<T>, a: Option<T>, b: Option<T>) {
    q == AsSeq(a) + AsSeq(b) || q == AsSeq(b) + AsSeq(a)
  }

  function AsSeq<T>(a: Option<T>): seq<T> {
    if a.Some? then [a.value] else []
  }

  lemma Pushed<T>(q: seq<T>, x: T, b: Option<T>)
    requires Mixed(q, None, b)
    ensures q == AsSeq(b) && Mixed(q + [x], Some(x), b) && Mixed(q + [x], b, Some(x))
  {
  }

  lemma FrontOf<T>(q: seq<T>, a: Option<T>, b: Option<T>)
    requires q != [] && Mixed(q, a, b)
    ensures (a == Some(q[0]) && q[1..] == AsSeq(b)) || (b == Some(q[0]) && q[1..] == AsSeq(a))
  {
  }

  // ---------------------------------------------------------------------------
  // The two channels, without the packets that belong to no handshake
  // ---------------------------------------------------------------------------

  function Ctl(q: seq<FromGateway>): seq<FromGateway> {
    if q == [] then [] else (if q[0].Control? then [q[0]] else []) + Ctl(q[1..])
  }

  function Extras(q: seq<FromGateway>): nat {
    if q == [] then 0 else (if q[0].Control? then 0 else 1) + Extras(q[1..])
  }

  predicate IsEchoReply(o: Out) {
    o.proto == PPP_LCP && ParseCp(o.payload).Ok? && ParseCp(o.payload).value.code == ECHO_REP
  }

  function Serious(q: seq<Out>): seq<Out> {
    if q == [] then [] else (if IsEchoReply(q[0]) then [] else [q[0]]) + Serious(q[1..])
  }

  function EchoReplies(q: seq<Out>): nat {
    if q == [] then 0 else (if IsEchoReply(q[0]) then 1 else 0) + EchoReplies(q[1..])
  }

  lemma {:induction false} Push(q: seq<FromGateway>, m: FromGateway)
    ensures Ctl(q + [m]) == Ctl(q) + if m.Control? then [m] else []
    ensures Extras(q + [m]) == Extras(q) + if m.Control? then 0 else 1
  {
    if q != [] {
      assert (q + [m])[1..] == q[1..] + [m];
      Push(q[1..], m);
    }
  }

  lemma {:induction false} PushOut(q: seq<Out>, o: Out)
    ensures Serious(q + [o]) == Serious(q) + if IsEchoReply(o) then [] else [o]
    ensures EchoReplies(q + [o]) == EchoReplies(q) + if IsEchoReply(o) then 1 else 0
  {
    if q != [] {
      assert (q + [o])[1..] == q[1..] + [o];
      PushOut(q[1..], o);
    }
  }

  lemma PopOut(q: seq<Out>)
    requires q != []
    ensures if IsEchoReply(q[0])
      then Serious(q[1..]) == Serious(q) && EchoReplies(q[1..]) == EchoReplies(q) - 1
      else Serious(q) != [] && Serious(q)[0] == q[0] && Serious(q[1..]) == Serious(q)[1..]
           && EchoReplies(q[1..]) == EchoReplies(q)
  {
    if !IsEchoReply(q[0]) {
      assert Serious(q) == [q[0]] + Serious(q[1..]);
    }
  }

  lemma Pop(q: seq<FromGateway>)
    requires q != []
    ensures if q[0].Control?
      then Ctl(q) != [] && Ctl(q)[0] == q[0] && Ctl(q[1..]) == Ctl(q)[1..] && Extras(q[1..]) == Extras(q)
      else Ctl(q[1..]) == Ctl(q) && Extras(q[1..]) == Extras(q) - 1
  {
    if q[0].Control? {
      assert Ctl(q) == [q[0]] + Ctl(q[1..]);
    }
  }

  lemma {:induction false} QueueLength(q: seq<Out>)
    ensures |q| == |Serious(q)| + EchoReplies(q)
  {
    if q != [] {
      QueueLength(q[1..]);
    }
  }

  // ---------------------------------------------------------------------------
  // The messages of the handshakes
  // ---------------------------------------------------------------------------

  function AskOut(ask: Ask, request: Out): Option<Out> {
    if ask.Asked? then Some(request) else None
  }

  function EchoOut(offer: Offer, ack: Out, reject: Out): Option<Out> {
    if offer.Echoed? then Some(ack) else if offer.Bounced? then Some(reject) else None
  }

  function AnswerIn(ask: Ask, proto: nat, id: Byte, opts: seq<Opt>): Option<FromGateway> {
    match ask
    case Refused(a) => Some(Control(proto, AnswerPacket(a, id, opts)))
    case Granted => Some(Control(proto, AnswerPacket(Ack, id, opts)))
    case _ => None
  }

  function OfferIn(offer: Offer, m: FromGateway): Option<FromGateway> {
    if offer.InFlight? then Some(m) else None
  }

  function EchoTo(proto: nat, p: Proposal): Out { Reply(proto, CONF_ACK, p.id, p.data) }

  function RejectTo(p: Proposal): Out {
    Reply(PPP_LCP, CONF_REJ, p.id, BuildOptions(UnknownLcp(ParseOptions(p.data))))
  }

  /** What the client has to say about the gateway's LCP proposal. */
  function LcpVerdict(t: Terms, g: Gateway, offer: Offer): Option<Out> {
    var p := ProposalAt(t, g.lcpAt);
    EchoOut(offer, EchoTo(PPP_LCP, p), RejectTo(p))
  }

  function IpcpVerdict(t: Terms, offer: Offer): Option<Out> {
    EchoOut(offer, EchoTo(PPP_IPCP, t.ipcp), EchoTo(PPP_IPCP, t.ipcp))
  }

  // ---------------------------------------------------------------------------
  // The invariant
  // ---------------------------------------------------------------------------

  predicate Heard(offer: Offer) { offer.Echoed? || offer.Acked? }

  predicate FairAsk(ask: Ask) { ask.Refused? ==> !ask.answer.Ack? && Sendable(ask.answer.opts) }

  /** Receives the client still has ahead of it in this handshake, at most; `left` proposals follow this one. */
  function ReceivesLeft(ask: Ask, offer: Offer, refusals: nat, left: nat): nat {
    (match ask case Asked => refusals + 1 case Refused(_) => refusals + 2 case Granted => 1 case Settled => 0)
    + (match offer case Unsent => left + 1 case InFlight => left + 1 case Bounced => left case _ => 0)
  }

  /** Moves this handshake can still make, at most. */
  function MovesLeft(ask: Ask, offer: Offer, refusals: nat, left: nat): nat {
    (match ask
     case Asked => 2 * refusals + 2
     case Refused(_) => 2 * refusals + 3
     case Granted => 1
     case Settled => 0)
    + (match offer
       case Unsent => 2 * left + 3
       case InFlight => 2 * left + 2
       case Bounced => 2 * left + 1
       case Echoed => 1
       case Acked => 0)
  }

  function Left(t: Terms, g: Gateway): nat {
    if g.lcpAt < |t.lcp| then |t.lcp| - 1 - g.lcpAt else 0
  }

  function ExtrasLeft(net: Net): nat { Extras(net.toClient) + net.gw.extras }

  predicate LcpFacts(t: Terms, l: Lcp, g: Gateway, ask: Ask, offer: Offer) {
    && Sound(l.opts) && |l.opts| <= 2 && FairAsk(ask)
    && l.ours == ask.Settled? && l.theirs == Heard(offer) && !(l.ours && l.theirs)
    && g.lcpSent == !offer.Unsent? && g.lcpAcked == offer.Acked?
    && g.lcpAt < |t.lcp| && (offer.Bounced? ==> g.lcpAt + 1 < |t.lcp|)
    && g.lcpAgreed.Some? == (ask.Granted? || ask.Settled?)
    && (ask.Granted? ==> g.lcpAgreed == Some(l.opts))
    && l.mru == (if ask.Settled? then MruIn(g.lcpAgreed.value, DEFAULT_MRU) else DEFAULT_MRU)
  }

  /** The gateway has not begun IPCP beyond sending its request. */
  predicate IpcpFresh(g: Gateway) {
    && !g.ipcpAcked && g.ipcpAgreed.None? && g.told == Harvest(None, []) && g.ipcpRefusals >= 1
  }

  predicate IpcpHasRoom(net: Net) {
    ExtrasLeft(net) + net.gw.ipcpRefusals + 2 <= MAX_ROUNDS
  }

  predicate LcpUp(g: Gateway, mru: nat) {
    g.lcpSent && g.LcpOpen() && mru == MruIn(g.lcpAgreed.value, DEFAULT_MRU)
  }

  /** What the client has heard so far is what the gateway has told it, less the Nak under way. */
  predicate HarvestTracks(i: Ipcp, g: Gateway, ask: Ask) {
    match ask
    case Refused(Nak(o)) => g.told == HarvestAll(i.harvest, o)
    case Settled => g.ipcpAgreed.Some? && i.harvest == HarvestAll(g.told, g.ipcpAgreed.value)
    case _ => g.told == i.harvest
  }

  predicate IpcpFacts(t: Terms, i: Ipcp, g: Gateway, ask: Ask, offer: Offer) {
    && Sound(i.opts) && GoodHarvest(i.harvest) && FairAsk(ask) && !offer.Bounced?
    && i.ours == ask.Settled? && i.theirs == Heard(offer) && !(i.ours && i.theirs)
    && g.ipcpSent == !offer.Unsent? && g.ipcpAcked == offer.Acked?
    && g.ipcpAgreed.Some? == (ask.Granted? || ask.Settled?)
    && (ask.Granted? ==> g.ipcpAgreed == Some(i.opts))
    && (g.ipcpAgreed.Some? ==> Acceptable(g.ipcpAgreed.value))
    && HarvestTracks(i, g, ask)
    && (g.ipcpRefusals == 0 && ask.Asked? ==> Acceptable(i.opts))
    && (g.ipcpRefusals == 0 && ask.Refused? ==> Acceptable(Revised(i.opts, ask.answer)))
    && i.peer == (if Heard(offer) then PeerIn(ParseOptions(t.ipcp.data), None) else None)
  }

  predicate LcpInv(t: Terms, net: Net, ask: Ask, offer: Offer) {
    && net.client.InLcp?
    && var (l, g) := (net.client.l, net.gw);
      && LcpFacts(t, l, g, ask, offer)
      && !g.ipcpSent && IpcpFresh(g) && IpcpHasRoom(net)
      && Mixed(Serious(net.toGw), AskOut(ask, LcpRequest(l)), LcpVerdict(t, g, offer))
      && Mixed(Ctl(net.toClient), AnswerIn(ask, PPP_LCP, l.id, l.opts), OfferIn(offer, LcpOffer(t, g.lcpAt)))
      && net.client.rounds + ExtrasLeft(net) + ReceivesLeft(ask, offer, g.lcpRefusals, Left(t, g)) <= MAX_ROUNDS
  }

  /** The gateway has opened IPCP while its LCP Ack is still on the way. */
  predicate GatewayAheadInv(t: Terms, net: Net) {
    && net.client.InLcp?
    && var l := net.client.l;
      && LcpFacts(t, l, net.gw, Granted, Acked)
      && net.gw.ipcpSent && IpcpFresh(net.gw) && IpcpHasRoom(net)
      && Serious(net.toGw) == []
      && Ctl(net.toClient) == [Control(PPP_LCP, AnswerPacket(Ack, l.id, l.opts)), IpcpOffer(t)]
      && net.client.rounds + ExtrasLeft(net) + 1 <= MAX_ROUNDS
  }

  /** The client has opened IPCP while its LCP Ack is still on the way. */
  predicate ClientAheadInv(t: Terms, net: Net) {
    && net.client.InIpcp? && net.client.i == FIRST_IPCP
    && net.client.rounds + ExtrasLeft(net) + net.gw.ipcpRefusals + 2 <= MAX_ROUNDS
    && net.gw.lcpSent && !net.gw.lcpAcked && net.gw.lcpAgreed.Some? && net.gw.lcpAt < |t.lcp|
    && net.client.mru == MruIn(net.gw.lcpAgreed.value, DEFAULT_MRU)
    && !net.gw.ipcpSent && IpcpFresh(net.gw)
    && Serious(net.toGw) == [EchoTo(PPP_LCP, ProposalAt(t, net.gw.lcpAt)), IpcpRequest(FIRST_IPCP)]
    && Ctl(net.toClient) == []
  }

  predicate IpcpInv(t: Terms, net: Net, ask: Ask, offer: Offer) {
    && net.client.InIpcp? && LcpUp(net.gw, net.client.mru)
    && var i := net.client.i;
      && IpcpFacts(t, i, net.gw, ask, offer)
      && Mixed(Serious(net.toGw), AskOut(ask, IpcpRequest(i)), IpcpVerdict(t, offer))
      && Mixed(Ctl(net.toClient), AnswerIn(ask, PPP_IPCP, i.id, i.opts), OfferIn(offer, IpcpOffer(t)))
      && net.client.rounds + ExtrasLeft(net) + ReceivesLeft(ask, offer, net.gw.ipcpRefusals, 0) <= MAX_ROUNDS
  }

  /**
   * Both sides hold the same address and far-end address. The client's MRU and
   * DNS servers follow from what was agreed and, for the servers, from all that
   * the gateway has named in Naks.
   */
  predicate Agreed(t: Terms, s: Session, g: Gateway) {
    && g.lcpAgreed.Some? && g.ipcpAgreed.Some?
    && Some(s.address) == HarvestAll(Harvest(None, []), g.ipcpAgreed.value).address
    && s.peer == PeerIn(ParseOptions(t.ipcp.data), None)
    && s.mtu == MruIn(g.lcpAgreed.value, DEFAULT_MRU)
    && s.dns == HarvestAll(g.told, g.ipcpAgreed.value).dns
  }

  predicate DoneInv(t: Terms, net: Net) {
    && net.client.Up? && Agreed(t, net.client.session, net.gw)
    && LcpUp(net.gw, net.client.session.mtu) && net.gw.ipcpSent
    && Ctl(net.toClient) == []
    && Serious(net.toGw) == if net.gw.ipcpAcked then [] else [EchoTo(PPP_IPCP, t.ipcp)]
  }

  predicate Inv(t: Terms, net: Net, s: Stage) {
    match s
    case LcpStage(ask, offer) => LcpInv(t, net, ask, offer)
    case GatewayAhead => GatewayAheadInv(t, net)
    case ClientAhead => ClientAheadInv(t, net)
    case IpcpStage(ask, offer) => IpcpInv(t, net, ask, offer)
    case Done => DoneInv(t, net)
    case Failed => net.client == Down(Protocol(FrameTooLong))
  }

  /** The moves of the handshakes; an extra takes one to send, one to hear and one to take back its reply. */
  function Measure(t: Terms, net: Net, s: Stage): nat {
    var g := net.gw;
    3 * g.extras + match s
    case LcpStage(ask, offer) => 2 * Extras(net.toClient) + EchoReplies(net.toGw)
      + MovesLeft(ask, offer, g.lcpRefusals, Left(t, g)) + MovesLeft(Asked, Unsent, g.ipcpRefusals, 0)
    case GatewayAhead => 2 * Extras(net.toClient) + EchoReplies(net.toGw) + 1 + MovesLeft(Asked, InFlight, g.ipcpRefusals, 0)
    case ClientAhead => 2 * Extras(net.toClient) + EchoReplies(net.toGw) + 1 + MovesLeft(Asked, Unsent, g.ipcpRefusals, 0)
    case IpcpStage(ask, offer) =>
      2 * Extras(net.toClient) + EchoReplies(net.toGw) + MovesLeft(ask, offer, g.ipcpRefusals, 0)
    case Done => 2 * Extras(net.toClient) + |net.toGw|
    case Failed => |net.toGw| + (if g.lcpSent then 0 else 1) + (if g.ipcpSent then 0 else 1)
  }

  predicate Steps(t: Terms, net: Net, s: Stage, net': Net, s': Stage) {
    Inv(t, net', s') && Measure(t, net', s') < Measure(t, net, s)
  }

  // ---------------------------------------------------------------------------
  // What each side makes of one message
  // ---------------------------------------------------------------------------

  /** The client took the first message, became `c` and sent `out`, no echo reply among it. */
  predicate HeardOne(net: Net, next: Net, c: Client, out: seq<Out>) {
    && net.toClient != [] && next.client == c && next.gw == net.gw && next.toClient == net.toClient[1..]
    && Serious(next.toGw) == Serious(net.toGw) + out && EchoReplies(next.toGw) == EchoReplies(net.toGw)
  }

  /** The gateway took the first handshake message, became `g` and sent `sent`. */
  predicate TookOne(net: Net, next: Net, g: Gateway, sent: seq<FromGateway>) {
    && Serious(net.toGw) != [] && next.client == net.client && next.gw == g && next.toClient == net.toClient + sent
    && Serious(next.toGw) == Serious(net.toGw)[1..] && EchoReplies(next.toGw) == EchoReplies(net.toGw)
  }

  lemma ClientNext(magic: Magic, t: Terms, net: Net, c: Client, out: seq<Out>)
    requires Enabled(net, ClientReceives) && Proceed(magic, net.client, Deliver(net.toClient[0])) == (c, out)
    requires |out| <= 2 && forall o :: o in out ==> !IsEchoReply(o)
    ensures HeardOne(net, Next(magic, t, net, ClientReceives), c, out)
  {
    if |out| == 0 {
      assert net.toGw + out == net.toGw;
    } else if |out| == 1 {
      assert out == [out[0]];
      PushOut(net.toGw, out[0]);
    } else {
      assert out == [out[0]] + [out[1]] && net.toGw + out == net.toGw + [out[0]] + [out[1]];
      PushOut(net.toGw, out[0]);
      PushOut(net.toGw + [out[0]], out[1]);
    }
  }

  lemma GatewayNext(magic: Magic, t: Terms, net: Net, a: Answer, g: Gateway, sent: seq<FromGateway>)
    requires Enabled(net, GatewayReceives(a)) && !IsEchoReply(net.toGw[0])
    requires GatewayStep(t, net.gw, net.toGw[0], a) == (g, sent)
    ensures TookOne(net, Next(magic, t, net, GatewayReceives(a)), g, sent)
  {
    PopOut(net.toGw);
  }

  lemma ReplyIsSerious(proto: nat, code: Byte, id: Byte, data: Bytes)
    requires InEnvelope(|data| + 4) && code != ECHO_REP
    ensures !IsEchoReply(Reply(proto, code, id, data))
    ensures ParseCp(Reply(proto, code, id, data).payload) == Ok(CpPacket(code, id, data))
  {
    CpRoundTrip(code, id, data);
  }

  lemma RequestIsSerious(proto: nat, id: Byte, opts: seq<Opt>)
    requires Sound(opts) && (proto == PPP_LCP || proto == PPP_IPCP)
    ensures !IsEchoReply(ConfigureRequest(proto, id, opts))
  {
    RequestIsExact(proto, id, opts);
  }

  lemma AnswerData(a: Answer, id: Byte, opts: seq<Opt>)
    requires Sound(opts) && (a.Ack? || Sendable(a.opts))
    ensures var pkt := AnswerPacket(a, id, opts);
      && InEnvelope(|pkt.data| + 4)
      && ParseOptions(pkt.data) == if a.Ack? then opts else a.opts
  {
    if a.Ack? {
      SoundListFits(opts);
      OptionsRoundTrip(opts);
    } else {
      OptionsRoundTrip(a.opts);
    }
  }

  lemma LcpHears(magic: Magic, l: Lcp, rounds: nat, pkt: CpPacket)
    requires rounds < MAX_ROUNDS && Fits(Control(PPP_LCP, pkt))
    ensures Proceed(magic, InLcp(l, rounds), Deliver(Control(PPP_LCP, pkt))) == AfterLcp(LcpPacket(magic, l, pkt), rounds)
  {
    CpRoundTrip(pkt.code, pkt.id, pkt.data);
  }

  lemma IpcpHears(magic: Magic, mru: nat, i: Ipcp, rounds: nat, pkt: CpPacket)
    requires rounds < MAX_ROUNDS && Fits(Control(PPP_IPCP, pkt))
    ensures Proceed(magic, InIpcp(mru, i, rounds), Deliver(Control(PPP_IPCP, pkt)))
         == AfterIpcp(magic, mru, IpcpPacket(i, pkt), rounds)
  {
    CpRoundTrip(pkt.code, pkt.id, pkt.data);
  }

  /** A proposal with only known options is echoed; another is rejected, and the client goes on as before. */
  lemma ProposalIsJudged(magic: Magic, l: Lcp, rounds: nat, p: Proposal)
    requires rounds < MAX_ROUNDS && Fits(Offered(PPP_LCP, p)) && !HasType(ParseOptions(p.data), LCP_OPT_AUTH)
    ensures Proceed(magic, InLcp(l, rounds), Deliver(Offered(PPP_LCP, p)))
         == if UnknownLcp(ParseOptions(p.data)) == [] then AfterLcp(Go(l.(theirs := true), [EchoTo(PPP_LCP, p)]), rounds)
            else AfterLcp(Go(l, [RejectTo(p)]), rounds)
  {
    LcpHears(magic, l, rounds, CpPacket(CONF_REQ, p.id, p.data));
  }

  lemma AckSettles(magic: Magic, l: Lcp, rounds: nat)
    requires Sound(l.opts) && rounds < MAX_ROUNDS && Fits(Control(PPP_LCP, AnswerPacket(Ack, l.id, l.opts)))
    ensures Proceed(magic, InLcp(l, rounds), Deliver(Control(PPP_LCP, AnswerPacket(Ack, l.id, l.opts))))
         == AfterLcp(Go(l.(mru := MruIn(l.opts, l.mru), ours := true), []), rounds)
  {
    AnswerData(Ack, l.id, l.opts);
    LcpHears(magic, l, rounds, AnswerPacket(Ack, l.id, l.opts));
  }

  /** What the client asks for after a refusal in LCP: it only revises options it sent. */
  function RevisedLcp(l: Lcp, a: Answer): Lcp
    requires !a.Ack?
  {
    RetryLcp(l, if a.Nak? then AdoptKnown(l.opts, a.opts) else Without(l.opts, a.opts)).state
  }

  lemma RefusalIsRetried(magic: Magic, l: Lcp, rounds: nat, a: Answer)
    requires Sound(l.opts) && rounds < MAX_ROUNDS && !a.Ack? && Sendable(a.opts)
    requires Fits(Control(PPP_LCP, AnswerPacket(a, l.id, l.opts)))
    ensures Proceed(magic, InLcp(l, rounds), Deliver(Control(PPP_LCP, AnswerPacket(a, l.id, l.opts))))
         == AfterLcp(Go(RevisedLcp(l, a), [LcpRequest(RevisedLcp(l, a))]), rounds)
    ensures Sound(RevisedLcp(l, a).opts) && |RevisedLcp(l, a).opts| <= |l.opts|
  {
    AnswerData(a, l.id, l.opts);
    LcpHears(magic, l, rounds, AnswerPacket(a, l.id, l.opts));
    if a.Nak? {
      AdoptKnownSound(l.opts, a.opts);
    } else {
      WithoutIsSublist(l.opts, a.opts);
    }
  }

  function AfterAck(i: Ipcp): Ipcp {
    i.(harvest := HarvestAll(i.harvest, i.opts), ours := true)
  }

  function AfterOffer(t: Terms, i: Ipcp): Ipcp {
    i.(peer := PeerIn(ParseOptions(t.ipcp.data), i.peer), theirs := true)
  }

  function RevisedIpcp(i: Ipcp, a: Answer): Ipcp {
    RetryIpcp(i, Revised(i.opts, a), if a.Nak? then HarvestAll(i.harvest, a.opts) else i.harvest).state
  }

  lemma IpcpOfferIsEchoed(magic: Magic, t: Terms, mru: nat, i: Ipcp, rounds: nat)
    requires rounds < MAX_ROUNDS && Fits(IpcpOffer(t))
    ensures Proceed(magic, InIpcp(mru, i, rounds), Deliver(IpcpOffer(t)))
         == AfterIpcp(magic, mru, Go(AfterOffer(t, i), [EchoTo(PPP_IPCP, t.ipcp)]), rounds)
  {
    IpcpHears(magic, mru, i, rounds, CpPacket(CONF_REQ, t.ipcp.id, t.ipcp.data));
  }

  lemma IpcpAckSettles(magic: Magic, mru: nat, i: Ipcp, rounds: nat)
    requires Sound(i.opts) && rounds < MAX_ROUNDS && Fits(Control(PPP_IPCP, AnswerPacket(Ack, i.id, i.opts)))
    ensures Proceed(magic, InIpcp(mru, i, rounds), Deliver(Control(PPP_IPCP, AnswerPacket(Ack, i.id, i.opts))))
         == AfterIpcp(magic, mru, Go(AfterAck(i), []), rounds)
  {
    AnswerData(Ack, i.id, i.opts);
    IpcpHears(magic, mru, i, rounds, AnswerPacket(Ack, i.id, i.opts));
  }

  lemma IpcpRefusalIsRetried(magic: Magic, mru: nat, i: Ipcp, rounds: nat, a: Answer)
    requires Sound(i.opts) && rounds < MAX_ROUNDS && !a.Ack? && Sendable(a.opts)
    requires Fits(Control(PPP_IPCP, AnswerPacket(a, i.id, i.opts)))
    ensures Proceed(magic, InIpcp(mru, i, rounds), Deliver(Control(PPP_IPCP, AnswerPacket(a, i.id, i.opts))))
         == AfterIpcp(magic, mru, Go(RevisedIpcp(i, a), [IpcpRequest(RevisedIpcp(i, a))]), rounds)
    ensures Sound(Revised(i.opts, a))
  {
    AnswerData(a, i.id, i.opts);
    IpcpHears(magic, mru, i, rounds, AnswerPacket(a, i.id, i.opts));
    if a.Nak? {
      AdoptAllSound(i.opts, a.opts);
    } else {
      WithoutIsSublist(i.opts, a.opts);
    }
  }

  /** The address harvested last wins; what was known before only matters when none is named. */
  lemma {:induction false} HarvestedAddress(h: Harvest, opts: seq<Opt>)
    ensures var named := HarvestAll(Harvest(None, []), opts).address;
      HarvestAll(h, opts).address == if named.Some? then named else h.address
    decreases |opts|
  {
    if opts != [] {
      HarvestedAddress(HarvestOne(h, opts[0]), opts[1..]);
      HarvestedAddress(HarvestOne(Harvest(None, []), opts[0]), opts[1..]);
    }
  }

  lemma GatewayHearsRequest(t: Terms, g: Gateway, proto: nat, id: Byte, opts: seq<Opt>, a: Answer)
    requires Sound(opts) && (proto == PPP_LCP || (proto == PPP_IPCP && g.LcpOpen()))
    ensures GatewayStep(t, g, ConfigureRequest(proto, id, opts), a)
         == (if proto == PPP_LCP then AnswerLcp(g, CpPacket(CONF_REQ, id, BuildOptions(opts)), a)
             else AnswerIpcp(g, CpPacket(CONF_REQ, id, BuildOptions(opts)), a),
             [Control(proto, AnswerPacket(a, id, opts))])
    ensures ParseOptions(BuildOptions(opts)) == opts
    ensures ParseCp(ConfigureRequest(proto, id, opts).payload) == Ok(CpPacket(CONF_REQ, id, BuildOptions(opts)))
  {
    RequestIsExact(proto, id, opts);
  }

  lemma GatewayHearsEcho(t: Terms, g: Gateway, a: Answer)
    requires FairTerms(t)
    ensures g.lcpAt < |t.lcp| ==> GatewayStep(t, g, EchoTo(PPP_LCP, ProposalAt(t, g.lcpAt)), a) == (g.(lcpAcked := true), [])
    ensures g.LcpOpen() ==> GatewayStep(t, g, EchoTo(PPP_IPCP, t.ipcp), a) == (g.(ipcpAcked := true), [])
  {
    if g.lcpAt < |t.lcp| {
      var p := ProposalAt(t, g.lcpAt);
      assert p in t.lcp;
      CpRoundTrip(CONF_ACK, p.id, p.data);
    }
    CpRoundTrip(CONF_ACK, t.ipcp.id, t.ipcp.data);
  }

  /** The client's Reject is no longer than the proposal, and parses to exactly its unknown options. */
  lemma RejectComesBack(p: Proposal)
    requires InEnvelope(|p.data| + 4)
    ensures InEnvelope(|BuildOptions(UnknownLcp(ParseOptions(p.data)))| + 4)
    ensures ParseCp(RejectTo(p).payload).Ok? && RejectsUnknown(p, ParseCp(RejectTo(p).payload).value)
    ensures !IsEchoReply(RejectTo(p))
  {
    var unknown := UnknownLcp(ParseOptions(p.data));
    UnknownIsShorter(ParseOptions(p.data));
    RebuildIsPrefix(p.data);
    ParsedIsExpressible(p.data);
    UnknownIsExpressible(ParseOptions(p.data));
    OptionsRoundTrip(unknown);
    CpRoundTrip(CONF_REJ, p.id, BuildOptions(unknown));
  }

  lemma {:induction false} UnknownIsExpressible(opts: seq<Opt>)
    requires Expressible(opts)
    ensures Expressible(UnknownLcp(opts))
  {
    if opts != [] {
      assert forall o :: o in opts[1..] ==> o in opts;
      UnknownIsExpressible(opts[1..]);
    }
  }

  lemma GatewayHearsReject(t: Terms, g: Gateway, a: Answer)
    requires FairTerms(t) && g.lcpAt + 1 < |t.lcp|
    ensures GatewayStep(t, g, RejectTo(ProposalAt(t, g.lcpAt)), a)
         == (g.(lcpAt := g.lcpAt + 1), [LcpOffer(t, g.lcpAt + 1)])
  {
    var p := ProposalAt(t, g.lcpAt);
    assert p in t.lcp;
    RejectComesBack(p);
  }
}
