/** The client's negotiation composed with a conforming gateway over two FIFO channels. */
module Gateway {
  import opened Wire
  import opened Errors
  import opened Ppp
  import opened Negotiation
  import Forti

  // ---------------------------------------------------------------------------
  // The gateway
  // ---------------------------------------------------------------------------

  /** A Configure-Request of the gateway's own. */
  datatype Proposal = Proposal(id: Byte, data: Bytes)

  /** Its LCP proposals, each to be tried when the one before is rejected, and its IPCP request. */
  datatype Terms = Terms(lcp: seq<Proposal>, ipcp: Proposal)

  /** A packet of that many bytes can be framed without a length field overflowing. */
  predicate InEnvelope(payload: nat) { payload + 8 < 0x1_0000 }

  /** No proposal asks for authentication, and the last one has only options the client knows. */
  predicate FairTerms(t: Terms) {
    && t.lcp != []
    && (forall p :: p in t.lcp ==> InEnvelope(|p.data| + 4) && !HasType(ParseOptions(p.data), LCP_OPT_AUTH))
    && UnknownLcp(ParseOptions(t.lcp[|t.lcp| - 1].data)) == []
    && InEnvelope(|t.ipcp.data| + 4)
  }

  function ProposalAt(t: Terms, k: nat): Proposal {
    if k < |t.lcp| then t.lcp[k] else Proposal(0, [])
  }

  /**
   * One direction of agreement per protocol: whether its own request is out and
   * acknowledged, which client options it has acknowledged, and how many more
   * times it may Nak or Reject. `lcpAt` is the LCP proposal under discussion,
   * `told` every address and DNS server it has named in a Nak, `extras` how many
   * data packets and LCP echo requests it may still send at any time.
   */
  datatype Gateway = Gateway(
    lcpSent: bool, lcpAt: nat, lcpAcked: bool, lcpAgreed: Option<seq<Opt>>, lcpRefusals: nat,
    ipcpSent: bool, ipcpAcked: bool, ipcpAgreed: Option<seq<Opt>>, ipcpRefusals: nat,
    told: Harvest, extras: nat)
  {
    predicate LcpOpen() { lcpAcked && lcpAgreed.Some? }
  }

  datatype FromGateway = Control(proto: nat, pkt: CpPacket) | Data(payload: Bytes) | Echo(id: Byte, data: Bytes)

  function FrameFrom(m: FromGateway): PppFrame {
    match m
    case Control(proto, pkt) => PppFrame(proto, BuildCp(pkt.code, pkt.id, pkt.data))
    case Data(payload) => PppFrame(PPP_IPV4, payload)
    case Echo(id, data) => PppFrame(PPP_LCP, BuildCp(ECHO_REQ, id, data))
  }

  /** The client's decoder takes bodies up to its own cap, far below what the envelope can describe. */
  predicate Fits(m: FromGateway) { |FrameFrom(m).payload| + 2 <= Forti.MAX_BODY }

  predicate AllFit(msgs: seq<FromGateway>) {
    forall m :: m in msgs ==> Fits(m)
  }

  function Deliver(m: FromGateway): Recv {
    if Fits(m) then Got(FrameFrom(m)) else Lost(Protocol(FrameTooLong))
  }

  /** Exactly one of these per request, with the request's id; an Ack is verbatim. */
  datatype Answer = Ack | Nak(opts: seq<Opt>) | Rej(opts: seq<Opt>)

  function AnswerPacket(a: Answer, id: Byte, opts: seq<Opt>): CpPacket {
    match a
    case Ack => CpPacket(CONF_ACK, id, BuildOptions(opts))
    case Nak(o) => CpPacket(CONF_NAK, id, BuildOptions(o))
    case Rej(o) => CpPacket(CONF_REJ, id, BuildOptions(o))
  }

  predicate Sendable(opts: seq<Opt>) {
    Expressible(opts) && InEnvelope(|BuildOptions(opts)| + 4)
  }

  /** An IPCP request the gateway can live with names an address. */
  predicate Acceptable(opts: seq<Opt>) {
    HarvestAll(Harvest(None, []), opts).address.Some?
  }

  predicate LcpAllowed(g: Gateway, a: Answer) {
    a.Ack? || (g.lcpRefusals > 0 && Sendable(a.opts))
  }

  /** What the client asks for next. */
  function Revised(opts: seq<Opt>, a: Answer): seq<Opt> {
    match a
    case Ack => opts
    case Nak(o) => AdoptAll(opts, o)
    case Rej(o) => Without(opts, o)
  }

  /** The last refusal must leave a request the gateway can acknowledge. */
  predicate IpcpAllowed(g: Gateway, opts: seq<Opt>, a: Answer) {
    if a.Ack? then Acceptable(opts)
    else g.ipcpRefusals > 0 && Sendable(a.opts) && (g.ipcpRefusals == 1 ==> Acceptable(Revised(opts, a)))
  }

  // ---------------------------------------------------------------------------
  // The composed system
  // ---------------------------------------------------------------------------

  datatype Net = Net(client: Client, gw: Gateway, toGw: seq<Out>, toClient: seq<FromGateway>)

  datatype Move =
    | ClientReceives
    | GatewayReceives(answer: Answer)
    | GatewayOpensLcp
    | GatewayOpensIpcp
    | GatewaySendsExtra(m: FromGateway)

  function HeadPacket(net: Net): Result<CpPacket, VpnError>
    requires net.toGw != []
  {
    ParseCp(net.toGw[0].payload)
  }

  predicate IsRequest(net: Net, proto: nat)
    requires net.toGw != []
  {
    net.toGw[0].proto == proto && HeadPacket(net).Ok? && HeadPacket(net).value.code == CONF_REQ
  }

  predicate Enabled(net: Net, m: Move) {
    match m
    case ClientReceives => net.client.Negotiating() && net.toClient != []
    case GatewayReceives(a) =>
      && net.toGw != []
      && (IsRequest(net, PPP_LCP) ==> LcpAllowed(net.gw, a))
      && (IsRequest(net, PPP_IPCP) && net.gw.LcpOpen() ==>
            IpcpAllowed(net.gw, ParseOptions(HeadPacket(net).value.data), a))
    case GatewayOpensLcp => !net.gw.lcpSent
    case GatewayOpensIpcp => net.gw.LcpOpen() && !net.gw.ipcpSent
    case GatewaySendsExtra(m) => net.gw.extras > 0 && !m.Control? && InEnvelope(|FrameFrom(m).payload|)
  }

  function AnswerLcp(g: Gateway, pkt: CpPacket, a: Answer): Gateway {
    if a.Ack? then g.(lcpAgreed := Some(ParseOptions(pkt.data)))
    else if g.lcpRefusals > 0 then g.(lcpRefusals := g.lcpRefusals - 1)
    else g
  }

  function AnswerIpcp(g: Gateway, pkt: CpPacket, a: Answer): Gateway {
    if a.Ack? then g.(ipcpAgreed := Some(ParseOptions(pkt.data)))
    else if g.ipcpRefusals > 0 then
      g.(ipcpRefusals := g.ipcpRefusals - 1, told := if a.Nak? then HarvestAll(g.told, a.opts) else g.told)
    else g
  }

  function AckOf(p: Proposal): CpPacket { CpPacket(CONF_ACK, p.id, p.data) }

  /** A Reject that parses to exactly the options of `p` that the client does not know. */
  predicate RejectsUnknown(p: Proposal, pkt: CpPacket) {
    pkt.code == CONF_REJ && pkt.id == p.id && ParseOptions(pkt.data) == UnknownLcp(ParseOptions(p.data))
  }

  /**
   * An Ack or a Reject counts when it matches the gateway's own request; after a
   * Reject it tries its next proposal.
   */
  function GatewayStep(t: Terms, g: Gateway, o: Out, a: Answer): (Gateway, seq<FromGateway>) {
    match ParseCp(o.payload)
    case Err(_) => (g, [])
    case Ok(pkt) =>
      if o.proto == PPP_LCP && pkt.code == CONF_REQ then
        (AnswerLcp(g, pkt, a), [Control(PPP_LCP, AnswerPacket(a, pkt.id, ParseOptions(pkt.data)))])
      else if o.proto == PPP_LCP && pkt == AckOf(ProposalAt(t, g.lcpAt)) then (g.(lcpAcked := true), [])
      else if o.proto == PPP_LCP && RejectsUnknown(ProposalAt(t, g.lcpAt), pkt) && g.lcpAt + 1 < |t.lcp| then
        (g.(lcpAt := g.lcpAt + 1), [LcpOffer(t, g.lcpAt + 1)])
      else if o.proto == PPP_IPCP && g.LcpOpen() && pkt.code == CONF_REQ then
        (AnswerIpcp(g, pkt, a), [Control(PPP_IPCP, AnswerPacket(a, pkt.id, ParseOptions(pkt.data)))])
      else if o.proto == PPP_IPCP && g.LcpOpen() && pkt == AckOf(t.ipcp) then (g.(ipcpAcked := true), [])
      else (g, [])
  }

  function Offered(proto: nat, p: Proposal): FromGateway { Control(proto, CpPacket(CONF_REQ, p.id, p.data)) }

  function LcpOffer(t: Terms, k: nat): FromGateway { Offered(PPP_LCP, ProposalAt(t, k)) }

  function IpcpOffer(t: Terms): FromGateway { Offered(PPP_IPCP, t.ipcp) }

  function Next(magic: Magic, t: Terms, net: Net, m: Move): Net
    requires Enabled(net, m)
  {
    match m
    case ClientReceives =>
      var (c, out) := Proceed(magic, net.client, Deliver(net.toClient[0]));
      Net(c, net.gw, net.toGw + out, net.toClient[1..])
    case GatewayReceives(a) =>
      var (g, sent) := GatewayStep(t, net.gw, net.toGw[0], a);
      Net(net.client, g, net.toGw[1..], net.toClient + sent)
    case GatewayOpensLcp =>
      net.(gw := net.gw.(lcpSent := true), toClient := net.toClient + [LcpOffer(t, net.gw.lcpAt)])
    case GatewayOpensIpcp =>
      net.(gw := net.gw.(ipcpSent := true), toClient := net.toClient + [IpcpOffer(t)])
    case GatewaySendsExtra(m) =>
      net.(gw := net.gw.(extras := net.gw.extras - 1), toClient := net.toClient + [m])
  }

  /** Everything the gateway may have the client receive in one phase is within the client's round budget. */
  predicate FairBudget(t: Terms, lcpRefusals: nat, ipcpRefusals: nat, extras: nat) {
    && lcpRefusals + 1 + |t.lcp| + extras <= MAX_ROUNDS
    && 1 <= ipcpRefusals && ipcpRefusals + 2 + extras <= MAX_ROUNDS
  }

  function Initial(magic: Magic, lcpRefusals: nat, ipcpRefusals: nat, extras: nat): Net {
    Net(Begin(magic),
        Gateway(false, 0, false, None, lcpRefusals, false, false, None, ipcpRefusals, Harvest(None, []), extras),
        [LcpRequest(FirstLcp(magic))], [])
  }
}
