/** Every move of either side, whatever it is and whenever it comes, is a step of the invariant. */
module GatewayMoves {
  import opened Wire
  import opened Errors
  import opened Ppp
  import opened Negotiation
  import opened NegotiationSafety
  import opened Gateway
  import opened GatewayAgreement
  import opened GatewaySteps

  // ---------------------------------------------------------------------------
  // Packets outside the handshakes
  // ---------------------------------------------------------------------------

  function OneMoreRound(c: Client): Client
    requires c.Negotiating()
  {
    if c.InLcp? then InLcp(c.l, c.rounds + 1) else InIpcp(c.mru, c.i, c.rounds + 1)
  }

  /** Neither loop is about to end by itself. */
  predicate GoesOn(c: Client) {
    && c.Negotiating() && !c.Exhausted()
    && (c.InLcp? ==> !(c.l.ours && c.l.theirs)) && (c.InIpcp? ==> !(c.i.ours && c.i.theirs))
  }

  lemma InvGoesOn(t: Terms, net: Net, s: Stage)
    requires Inv(t, net, s) && net.client.Negotiating() && net.toClient != []
    ensures GoesOn(net.client) && !s.Done? && !s.Failed?
  {
    Pop(net.toClient);
  }

  /** Data is staged and an echo request is answered; the loops go on as they were. */
  lemma ExtraIsHandled(magic: Magic, c: Client, m: FromGateway)
    requires GoesOn(c) && !m.Control? && Fits(m)
    ensures var (c', out) := Proceed(magic, c, Deliver(m));
      && c' == OneMoreRound(c) && |out| <= 1 && forall o :: o in out ==> IsEchoReply(o)
  {
    if m.Echo? {
      var pkt := CpPacket(ECHO_REQ, m.id, m.data);
      CpRoundTrip(ECHO_REQ, m.id, m.data);
      CpRoundTrip(ECHO_REP, m.id, EchoReplyData(magic, pkt));
    }
  }

  /** The client took an extra: one round, and at most one echo reply. */
  predicate HeardExtra(net: Net, next: Net) {
    && net.client.Negotiating() && net.toClient != [] && !net.toClient[0].Control?
    && next.client == OneMoreRound(net.client) && next.gw == net.gw && next.toClient == net.toClient[1..]
    && Serious(next.toGw) == Serious(net.toGw) && EchoReplies(next.toGw) <= EchoReplies(net.toGw) + 1
  }

  lemma ExtraNext(magic: Magic, t: Terms, net: Net)
    requires Enabled(net, ClientReceives) && GoesOn(net.client) && !net.toClient[0].Control? && Fits(net.toClient[0])
    ensures HeardExtra(net, Next(magic, t, net, ClientReceives))
  {
    ExtraIsHandled(magic, net.client, net.toClient[0]);
    var out := Proceed(magic, net.client, Deliver(net.toClient[0])).1;
    if out == [] {
      assert net.toGw + out == net.toGw;
    } else {
      assert out == [out[0]];
      PushOut(net.toGw, out[0]);
    }
  }

  lemma ExtraInLcp(t: Terms, net: Net, next: Net, s: Stage)
    requires Inv(t, net, s) && HeardExtra(net, next) && net.client.InLcp?
    ensures Steps(t, net, s, next, s)
  {
    Pop(net.toClient);
  }

  lemma ExtraInIpcp(t: Terms, net: Net, next: Net, s: Stage)
    requires Inv(t, net, s) && HeardExtra(net, next) && net.client.InIpcp?
    ensures Steps(t, net, s, next, s)
  {
    Pop(net.toClient);
  }

  lemma NextOnEchoReply(magic: Magic, t: Terms, net: Net, a: Answer)
    requires Enabled(net, GatewayReceives(a)) && IsEchoReply(net.toGw[0])
    ensures Next(magic, t, net, GatewayReceives(a)) == net.(toGw := net.toGw[1..])
    ensures Serious(net.toGw[1..]) == Serious(net.toGw) && EchoReplies(net.toGw) == EchoReplies(net.toGw[1..]) + 1
  {
    PopOut(net.toGw);
    assert GatewayStep(t, net.gw, net.toGw[0], a) == (net.gw, []);
    assert net.toClient + [] == net.toClient;
  }

  lemma OneReplyLess(t: Terms, net: Net, s: Stage)
    requires Inv(t, net, s) && net.toGw != []
    requires Serious(net.toGw[1..]) == Serious(net.toGw) && EchoReplies(net.toGw) == EchoReplies(net.toGw[1..]) + 1
    ensures Steps(t, net, s, net.(toGw := net.toGw[1..]), s)
  {
  }

  lemma EchoReplyIsTaken(magic: Magic, t: Terms, net: Net, s: Stage, a: Answer)
    requires FairTerms(t) && Inv(t, net, s) && Enabled(net, GatewayReceives(a)) && IsEchoReply(net.toGw[0])
    ensures Steps(t, net, s, Next(magic, t, net, GatewayReceives(a)), s)
  {
    NextOnEchoReply(magic, t, net, a);
    OneReplyLess(t, net, s);
  }

  // ---------------------------------------------------------------------------
  // Messages over the client's cap
  // ---------------------------------------------------------------------------

  lemma TooLongEnds(magic: Magic, t: Terms, net: Net)
    requires Enabled(net, ClientReceives) && GoesOn(net.client) && !Fits(net.toClient[0])
    ensures var next := Next(magic, t, net, ClientReceives);
      next.client == Down(Protocol(FrameTooLong)) && next.gw == net.gw && next.toGw == net.toGw
  {
    assert net.toGw + [] == net.toGw;
  }

  lemma TooLongInLcp(t: Terms, net: Net, next: Net, s: Stage)
    requires Inv(t, net, s) && (s.LcpStage? || s.GatewayAhead?) && |net.toGw| == |Serious(net.toGw)| + EchoReplies(net.toGw)
    requires next.client == Down(Protocol(FrameTooLong)) && next.gw == net.gw && next.toGw == net.toGw
    ensures Steps(t, net, s, next, Failed)
  {
  }

  lemma TooLongInIpcp(t: Terms, net: Net, next: Net, s: Stage)
    requires Inv(t, net, s) && (s.IpcpStage? || s.ClientAhead?) && |net.toGw| == |Serious(net.toGw)| + EchoReplies(net.toGw)
    requires Ctl(net.toClient) != [] || Extras(net.toClient) > 0
    requires next.client == Down(Protocol(FrameTooLong)) && next.gw == net.gw && next.toGw == net.toGw
    ensures Steps(t, net, s, next, Failed)
  {
  }

  /** What is left to do once the client has gone down is less than what was left before. */
  lemma TooLongIsAStep(t: Terms, net: Net, next: Net, s: Stage)
    requires Inv(t, net, s) && !s.Done? && !s.Failed? && net.toClient != []
    requires next.client == Down(Protocol(FrameTooLong)) && next.gw == net.gw && next.toGw == net.toGw
    ensures Steps(t, net, s, next, Failed)
  {
    QueueLength(net.toGw);
    Pop(net.toClient);
    if s.LcpStage? || s.GatewayAhead? {
      TooLongInLcp(t, net, next, s);
    } else {
      TooLongInIpcp(t, net, next, s);
    }
  }

  lemma GatewayAfterFailure(magic: Magic, t: Terms, net: Net, m: Move)
    requires Inv(t, net, Failed) && Enabled(net, m)
    ensures Steps(t, net, Failed, Next(magic, t, net, m), Failed)
  {
  }

  // ---------------------------------------------------------------------------
  // The client's moves
  // ---------------------------------------------------------------------------

  /** The next control packet is one of the two under way; extras in front of it are heard first. */
  lemma Front(q: seq<FromGateway>, a: Option<FromGateway>, b: Option<FromGateway>)
    requires q != [] && q[0].Control? && Mixed(Ctl(q), a, b)
    ensures (a == Some(q[0]) && Ctl(q[1..]) == AsSeq(b)) || (b == Some(q[0]) && Ctl(q[1..]) == AsSeq(a))
  {
    Pop(q);
    FrontOf(Ctl(q), a, b);
  }

  /** The next state, from as little of the invariant as it takes. */
  lemma NextOnUnknown(magic: Magic, t: Terms, net: Net, p: Proposal)
    requires net.client.InLcp? && GoesOn(net.client) && net.toClient != []
    requires net.toClient[0] == Offered(PPP_LCP, p) && Fits(net.toClient[0]) && InEnvelope(|p.data| + 4)
    requires !HasType(ParseOptions(p.data), LCP_OPT_AUTH) && UnknownLcp(ParseOptions(p.data)) != []
    ensures HeardOne(net, Next(magic, t, net, ClientReceives), InLcp(net.client.l, net.client.rounds + 1), [RejectTo(p)])
  {
    ProposalIsJudged(magic, net.client.l, net.client.rounds, p);
    RejectComesBack(p);
    ClientNext(magic, t, net, InLcp(net.client.l, net.client.rounds + 1), [RejectTo(p)]);
  }

  lemma NextOnKnown(magic: Magic, t: Terms, net: Net, p: Proposal)
    requires net.client.InLcp? && GoesOn(net.client) && net.toClient != []
    requires net.toClient[0] == Offered(PPP_LCP, p) && Fits(net.toClient[0]) && InEnvelope(|p.data| + 4)
    requires !HasType(ParseOptions(p.data), LCP_OPT_AUTH) && UnknownLcp(ParseOptions(p.data)) == []
    ensures var (l, rounds) := (net.client.l, net.client.rounds);
      var next := Next(magic, t, net, ClientReceives);
      if l.ours then
        HeardOne(net, next, InIpcp(l.mru, FIRST_IPCP, 0), [EchoTo(PPP_LCP, p), IpcpRequest(FIRST_IPCP)])
      else HeardOne(net, next, InLcp(l.(theirs := true), rounds + 1), [EchoTo(PPP_LCP, p)])
  {
    var l, rounds := net.client.l, net.client.rounds;
    ProposalIsJudged(magic, l, rounds, p);
    ReplyIsSerious(PPP_LCP, CONF_ACK, p.id, p.data);
    if l.ours {
      var out := [EchoTo(PPP_LCP, p), IpcpRequest(FIRST_IPCP)];
      FirstIpcpIsSound();
      RequestIsSerious(PPP_IPCP, FIRST_IPCP.id, FIRST_IPCP.opts);
      assert [EchoTo(PPP_LCP, p)] + [IpcpRequest(FIRST_IPCP)] == out;
      ClientNext(magic, t, net, InIpcp(l.mru, FIRST_IPCP, 0), out);
    } else {
      ClientNext(magic, t, net, InLcp(l.(theirs := true), rounds + 1), [EchoTo(PPP_LCP, p)]);
    }
  }

  lemma NextOnLcpAck(magic: Magic, t: Terms, net: Net)
    requires net.client.InLcp? && GoesOn(net.client) && Sound(net.client.l.opts) && net.toClient != []
    requires net.toClient[0] == Control(PPP_LCP, AnswerPacket(Ack, net.client.l.id, net.client.l.opts))
    requires Fits(net.toClient[0])
    ensures var (l, rounds) := (net.client.l, net.client.rounds);
      var (next, mru) := (Next(magic, t, net, ClientReceives), MruIn(l.opts, l.mru));
      if l.theirs then HeardOne(net, next, InIpcp(mru, FIRST_IPCP, 0), [IpcpRequest(FIRST_IPCP)])
      else HeardOne(net, next, InLcp(l.(mru := mru, ours := true), rounds + 1), [])
  {
    AckSettles(magic, net.client.l, net.client.rounds);
    FirstIpcpIsSound();
    RequestIsSerious(PPP_IPCP, FIRST_IPCP.id, FIRST_IPCP.opts);
    assert [] + [IpcpRequest(FIRST_IPCP)] == [IpcpRequest(FIRST_IPCP)];
    var (c, out) := Proceed(magic, net.client, Deliver(net.toClient[0]));
    ClientNext(magic, t, net, c, out);
  }

  lemma NextOnLcpRefusal(magic: Magic, t: Terms, net: Net, a: Answer)
    requires net.client.InLcp? && GoesOn(net.client) && Sound(net.client.l.opts) && |net.client.l.opts| <= 2
    requires !a.Ack? && Sendable(a.opts) && net.toClient != [] && Fits(net.toClient[0])
    requires net.toClient[0] == Control(PPP_LCP, AnswerPacket(a, net.client.l.id, net.client.l.opts))
    ensures var (l, rounds) := (net.client.l, net.client.rounds);
      && Sound(RevisedLcp(l, a).opts) && |RevisedLcp(l, a).opts| <= 2
      && HeardOne(net, Next(magic, t, net, ClientReceives), InLcp(RevisedLcp(l, a), rounds + 1),
                  [LcpRequest(RevisedLcp(l, a))])
  {
    var l := net.client.l;
    RefusalIsRetried(magic, l, net.client.rounds, a);
    RequestIsSerious(PPP_LCP, RevisedLcp(l, a).id, RevisedLcp(l, a).opts);
    ClientNext(magic, t, net, InLcp(RevisedLcp(l, a), net.client.rounds + 1), [LcpRequest(RevisedLcp(l, a))]);
  }

  lemma NextOnIpcpOffer(magic: Magic, t: Terms, net: Net)
    requires FairTerms(t) && net.client.InIpcp? && GoesOn(net.client)
    requires net.toClient != [] && net.toClient[0] == IpcpOffer(t) && Fits(net.toClient[0])
    ensures var (mru, i, rounds) := (net.client.mru, net.client.i, net.client.rounds);
      var next := Next(magic, t, net, ClientReceives);
      if i.ours then HeardOne(net, next, Finish(magic, mru, AfterOffer(t, i)), [EchoTo(PPP_IPCP, t.ipcp)])
      else HeardOne(net, next, InIpcp(mru, AfterOffer(t, i), rounds + 1), [EchoTo(PPP_IPCP, t.ipcp)])
  {
    IpcpOfferIsEchoed(magic, t, net.client.mru, net.client.i, net.client.rounds);
    var (c, out) := Proceed(magic, net.client, Deliver(net.toClient[0]));
    ClientNext(magic, t, net, c, out);
  }

  lemma NextOnIpcpAck(magic: Magic, t: Terms, net: Net)
    requires net.client.InIpcp? && GoesOn(net.client) && Sound(net.client.i.opts) && net.toClient != []
    requires net.toClient[0] == Control(PPP_IPCP, AnswerPacket(Ack, net.client.i.id, net.client.i.opts))
    requires Fits(net.toClient[0])
    ensures var (mru, i, rounds) := (net.client.mru, net.client.i, net.client.rounds);
      var next := Next(magic, t, net, ClientReceives);
      if i.theirs then HeardOne(net, next, Finish(magic, mru, AfterAck(i)), [])
      else HeardOne(net, next, InIpcp(mru, AfterAck(i), rounds + 1), [])
  {
    IpcpAckSettles(magic, net.client.mru, net.client.i, net.client.rounds);
    var (c, out) := Proceed(magic, net.client, Deliver(net.toClient[0]));
    ClientNext(magic, t, net, c, out);
  }

  lemma NextOnIpcpRefusal(magic: Magic, t: Terms, net: Net, a: Answer)
    requires net.client.InIpcp? && GoesOn(net.client) && Sound(net.client.i.opts)
    requires !a.Ack? && Sendable(a.opts) && net.toClient != [] && Fits(net.toClient[0])
    requires net.toClient[0] == Control(PPP_IPCP, AnswerPacket(a, net.client.i.id, net.client.i.opts))
    ensures Sound(Revised(net.client.i.opts, a))
    ensures var (mru, i, rounds) := (net.client.mru, net.client.i, net.client.rounds);
      HeardOne(net, Next(magic, t, net, ClientReceives), InIpcp(mru, RevisedIpcp(i, a), rounds + 1),
               [IpcpRequest(RevisedIpcp(i, a))])
  {
    var (mru, i, rounds) := (net.client.mru, net.client.i, net.client.rounds);
    IpcpRefusalIsRetried(magic, mru, i, rounds, a);
    ClientNext(magic, t, net, InIpcp(mru, RevisedIpcp(i, a), rounds + 1), [IpcpRequest(RevisedIpcp(i, a))]);
  }

  lemma LcpHearsKnown(magic: Magic, t: Terms, net: Net, ask: Ask, p: Proposal)
    requires LcpInv(t, net, ask, InFlight) && GoesOn(net.client) && net.toClient != [] && p == ProposalAt(t, net.gw.lcpAt)
    requires net.toClient[0] == Offered(PPP_LCP, p) && Fits(net.toClient[0]) && InEnvelope(|p.data| + 4)
    requires !HasType(ParseOptions(p.data), LCP_OPT_AUTH) && UnknownLcp(ParseOptions(p.data)) == []
    requires Ctl(net.toClient[1..]) == AsSeq(AnswerIn(ask, PPP_LCP, net.client.l.id, net.client.l.opts))
    ensures Steps(t, net, LcpStage(ask, InFlight), Next(magic, t, net, ClientReceives),
                  if ask.Settled? then ClientAhead else LcpStage(ask, Echoed))
  {
    NextOnKnown(magic, t, net, p);
    if ask.Settled? {
      EchoedLastInLcp(t, net, Next(magic, t, net, ClientReceives));
    } else {
      EchoedInLcp(t, net, Next(magic, t, net, ClientReceives), ask);
    }
  }

  lemma LcpHearsUnknown(magic: Magic, t: Terms, net: Net, ask: Ask, p: Proposal)
    requires LcpInv(t, net, ask, InFlight) && GoesOn(net.client) && net.toClient != [] && p == ProposalAt(t, net.gw.lcpAt)
    requires net.toClient[0] == Offered(PPP_LCP, p) && Fits(net.toClient[0]) && InEnvelope(|p.data| + 4)
    requires !HasType(ParseOptions(p.data), LCP_OPT_AUTH) && UnknownLcp(ParseOptions(p.data)) != []
    requires net.gw.lcpAt + 1 < |t.lcp|
    requires Ctl(net.toClient[1..]) == AsSeq(AnswerIn(ask, PPP_LCP, net.client.l.id, net.client.l.opts))
    ensures Steps(t, net, LcpStage(ask, InFlight), Next(magic, t, net, ClientReceives), LcpStage(ask, Bounced))
  {
    NextOnUnknown(magic, t, net, p);
    BouncedInLcp(t, net, Next(magic, t, net, ClientReceives), ask);
  }

  lemma FairProposal(t: Terms, k: nat)
    requires FairTerms(t) && k < |t.lcp|
    ensures var p := ProposalAt(t, k);
      && LcpOffer(t, k) == Offered(PPP_LCP, p) && InEnvelope(|p.data| + 4)
      && !HasType(ParseOptions(p.data), LCP_OPT_AUTH)
      && (UnknownLcp(ParseOptions(p.data)) != [] ==> k + 1 < |t.lcp|)
  {
    assert ProposalAt(t, k) in t.lcp;
  }

  lemma LcpHearsOffer(magic: Magic, t: Terms, net: Net, ask: Ask) returns (s': Stage)
    requires FairTerms(t) && LcpInv(t, net, ask, InFlight) && GoesOn(net.client) && net.toClient != []
    requires net.toClient[0] == LcpOffer(t, net.gw.lcpAt) && Fits(net.toClient[0])
    requires Ctl(net.toClient[1..]) == AsSeq(AnswerIn(ask, PPP_LCP, net.client.l.id, net.client.l.opts))
    ensures Steps(t, net, LcpStage(ask, InFlight), Next(magic, t, net, ClientReceives), s') && !s'.Failed?
  {
    var p := ProposalAt(t, net.gw.lcpAt);
    FairProposal(t, net.gw.lcpAt);
    if UnknownLcp(ParseOptions(p.data)) != [] {
      LcpHearsUnknown(magic, t, net, ask, p);
      s' := LcpStage(ask, Bounced);
    } else {
      LcpHearsKnown(magic, t, net, ask, p);
      s' := if ask.Settled? then ClientAhead else LcpStage(ask, Echoed);
    }
  }

  lemma LcpHearsAck(magic: Magic, t: Terms, net: Net, offer: Offer) returns (s': Stage)
    requires LcpInv(t, net, Granted, offer) && GoesOn(net.client) && net.toClient != [] && Fits(net.toClient[0])
    requires net.toClient[0] == Control(PPP_LCP, AnswerPacket(Ack, net.client.l.id, net.client.l.opts))
    requires Ctl(net.toClient[1..]) == AsSeq(OfferIn(offer, LcpOffer(t, net.gw.lcpAt)))
    ensures Steps(t, net, LcpStage(Granted, offer), Next(magic, t, net, ClientReceives), s') && !s'.Failed?
  {
    NextOnLcpAck(magic, t, net);
    if Heard(offer) {
      SettledLastInLcp(t, net, Next(magic, t, net, ClientReceives), offer);
      s' := if offer.Echoed? then ClientAhead else IpcpStage(Asked, Unsent);
    } else {
      SettledInLcp(t, net, Next(magic, t, net, ClientReceives), offer);
      s' := LcpStage(Settled, offer);
    }
  }

  lemma LcpHearsRefusal(magic: Magic, t: Terms, net: Net, a: Answer, offer: Offer)
    requires LcpInv(t, net, Refused(a), offer) && GoesOn(net.client) && net.toClient != [] && Fits(net.toClient[0])
    requires net.toClient[0] == Control(PPP_LCP, AnswerPacket(a, net.client.l.id, net.client.l.opts))
    requires Ctl(net.toClient[1..]) == AsSeq(OfferIn(offer, LcpOffer(t, net.gw.lcpAt)))
    ensures Steps(t, net, LcpStage(Refused(a), offer), Next(magic, t, net, ClientReceives), LcpStage(Asked, offer))
  {
    NextOnLcpRefusal(magic, t, net, a);
    RetriedInLcp(t, net, Next(magic, t, net, ClientReceives), a, offer);
  }

  lemma ClientInLcp(magic: Magic, t: Terms, net: Net, ask: Ask, offer: Offer) returns (s': Stage)
    requires FairTerms(t) && LcpInv(t, net, ask, offer) && GoesOn(net.client)
    requires net.toClient != [] && net.toClient[0].Control? && Fits(net.toClient[0])
    ensures Steps(t, net, LcpStage(ask, offer), Next(magic, t, net, ClientReceives), s') && !s'.Failed?
  {
    var answer := AnswerIn(ask, PPP_LCP, net.client.l.id, net.client.l.opts);
    var sent := OfferIn(offer, LcpOffer(t, net.gw.lcpAt));
    Front(net.toClient, answer, sent);
    if answer == Some(net.toClient[0]) && Ctl(net.toClient[1..]) == AsSeq(sent) {
      if ask.Granted? {
        s' := LcpHearsAck(magic, t, net, offer);
      } else {
        LcpHearsRefusal(magic, t, net, ask.answer, offer);
        s' := LcpStage(Asked, offer);
      }
    } else {
      s' := LcpHearsOffer(magic, t, net, ask);
    }
  }

  lemma ClientBetween(magic: Magic, t: Terms, net: Net)
    requires GatewayAheadInv(t, net) && GoesOn(net.client)
    requires net.toClient != [] && net.toClient[0].Control? && Fits(net.toClient[0])
    ensures Steps(t, net, GatewayAhead, Next(magic, t, net, ClientReceives), IpcpStage(Asked, InFlight))
  {
    Pop(net.toClient);
    NextOnLcpAck(magic, t, net);
    ClientCatchesUp(t, net, Next(magic, t, net, ClientReceives));
  }

  lemma IpcpHearsOffer(magic: Magic, t: Terms, net: Net, ask: Ask) returns (s': Stage)
    requires FairTerms(t) && IpcpInv(t, net, ask, InFlight) && GoesOn(net.client) && net.toClient != []
    requires net.toClient[0] == IpcpOffer(t) && Fits(net.toClient[0])
    requires Ctl(net.toClient[1..]) == AsSeq(AnswerIn(ask, PPP_IPCP, net.client.i.id, net.client.i.opts))
    ensures Steps(t, net, IpcpStage(ask, InFlight), Next(magic, t, net, ClientReceives), s') && !s'.Failed?
  {
    NextOnIpcpOffer(magic, t, net);
    if ask.Settled? {
      EchoedLastInIpcp(magic, t, net, Next(magic, t, net, ClientReceives));
      s' := Done;
    } else {
      EchoedInIpcp(t, net, Next(magic, t, net, ClientReceives), ask);
      s' := IpcpStage(ask, Echoed);
    }
  }

  lemma IpcpHearsAck(magic: Magic, t: Terms, net: Net, offer: Offer) returns (s': Stage)
    requires IpcpInv(t, net, Granted, offer) && GoesOn(net.client) && net.toClient != [] && Fits(net.toClient[0])
    requires net.toClient[0] == Control(PPP_IPCP, AnswerPacket(Ack, net.client.i.id, net.client.i.opts))
    requires Ctl(net.toClient[1..]) == AsSeq(OfferIn(offer, IpcpOffer(t)))
    ensures Steps(t, net, IpcpStage(Granted, offer), Next(magic, t, net, ClientReceives), s') && !s'.Failed?
  {
    NextOnIpcpAck(magic, t, net);
    if Heard(offer) {
      SettledLastInIpcp(magic, t, net, Next(magic, t, net, ClientReceives), offer);
      s' := Done;
    } else {
      SettledInIpcp(t, net, Next(magic, t, net, ClientReceives), offer);
      s' := IpcpStage(Settled, offer);
    }
  }

  lemma IpcpHearsRefusal(magic: Magic, t: Terms, net: Net, a: Answer, offer: Offer)
    requires IpcpInv(t, net, Refused(a), offer) && GoesOn(net.client) && net.toClient != [] && Fits(net.toClient[0])
    requires net.toClient[0] == Control(PPP_IPCP, AnswerPacket(a, net.client.i.id, net.client.i.opts))
    requires Ctl(net.toClient[1..]) == AsSeq(OfferIn(offer, IpcpOffer(t)))
    ensures Steps(t, net, IpcpStage(Refused(a), offer), Next(magic, t, net, ClientReceives), IpcpStage(Asked, offer))
  {
    NextOnIpcpRefusal(magic, t, net, a);
    RetriedInIpcp(t, net, Next(magic, t, net, ClientReceives), a, offer);
  }

  lemma ClientInIpcp(magic: Magic, t: Terms, net: Net, ask: Ask, offer: Offer) returns (s': Stage)
    requires FairTerms(t) && IpcpInv(t, net, ask, offer) && GoesOn(net.client)
    requires net.toClient != [] && net.toClient[0].Control? && Fits(net.toClient[0])
    ensures Steps(t, net, IpcpStage(ask, offer), Next(magic, t, net, ClientReceives), s') && !s'.Failed?
  {
    var answer, sent := AnswerIn(ask, PPP_IPCP, net.client.i.id, net.client.i.opts), OfferIn(offer, IpcpOffer(t));
    Front(net.toClient, answer, sent);
    if answer == Some(net.toClient[0]) && Ctl(net.toClient[1..]) == AsSeq(sent) {
      if ask.Granted? {
        s' := IpcpHearsAck(magic, t, net, offer);
      } else {
        IpcpHearsRefusal(magic, t, net, ask.answer, offer);
        s' := IpcpStage(Asked, offer);
      }
    } else {
      s' := IpcpHearsOffer(magic, t, net, ask);
    }
  }

  lemma ClientHearsControl(magic: Magic, t: Terms, net: Net, s: Stage) returns (s': Stage)
    requires FairTerms(t) && Inv(t, net, s) && GoesOn(net.client)
    requires net.toClient != [] && net.toClient[0].Control? && Fits(net.toClient[0])
    ensures Steps(t, net, s, Next(magic, t, net, ClientReceives), s') && !s'.Failed?
  {
    match s
    case LcpStage(ask, offer) => s' := ClientInLcp(magic, t, net, ask, offer);
    case GatewayAhead => s' := IpcpStage(Asked, InFlight); ClientBetween(magic, t, net);
    case ClientAhead => Pop(net.toClient); s' := s;
    case IpcpStage(ask, offer) => s' := ClientInIpcp(magic, t, net, ask, offer);
    case _ => s' := s;
  }

  lemma ClientMoves(magic: Magic, t: Terms, net: Net, s: Stage) returns (s': Stage)
    requires FairTerms(t) && Inv(t, net, s) && Enabled(net, ClientReceives)
    ensures Steps(t, net, s, Next(magic, t, net, ClientReceives), s')
    ensures s'.Failed? <==> !Fits(net.toClient[0])
  {
    var next := Next(magic, t, net, ClientReceives);
    InvGoesOn(t, net, s);
    if !Fits(net.toClient[0]) {
      TooLongEnds(magic, t, net);
      TooLongIsAStep(t, net, next, s);
      s' := Failed;
    } else if net.toClient[0].Control? {
      s' := ClientHearsControl(magic, t, net, s);
    } else {
      ExtraNext(magic, t, net);
      if net.client.InLcp? {
        ExtraInLcp(t, net, next, s);
      } else {
        ExtraInIpcp(t, net, next, s);
      }
      s' := s;
    }
  }

  // ---------------------------------------------------------------------------
  // The gateway's moves
  // ---------------------------------------------------------------------------

  lemma FrontOut(q: seq<Out>, a: Option<Out>, b: Option<Out>)
    requires q != [] && !IsEchoReply(q[0]) && Mixed(Serious(q), a, b)
    ensures (a == Some(q[0]) && Serious(q[1..]) == AsSeq(b)) || (b == Some(q[0]) && Serious(q[1..]) == AsSeq(a))
  {
    PopOut(q);
    FrontOf(Serious(q), a, b);
  }

  lemma GatewayAnswersLcp(magic: Magic, t: Terms, net: Net, offer: Offer, a: Answer) returns (s': Stage)
    requires LcpInv(t, net, Asked, offer) && Enabled(net, GatewayReceives(a)) && !IsEchoReply(net.toGw[0])
    requires net.toGw[0] == LcpRequest(net.client.l) && Serious(net.toGw[1..]) == AsSeq(LcpVerdict(t, net.gw, offer))
    ensures Steps(t, net, LcpStage(Asked, offer), Next(magic, t, net, GatewayReceives(a)), s') && !s'.Failed?
  {
    var l, next := net.client.l, Next(magic, t, net, GatewayReceives(a));
    var reply := [Control(PPP_LCP, AnswerPacket(a, l.id, l.opts))];
    GatewayHearsRequest(t, net.gw, PPP_LCP, l.id, l.opts, a);
    if a.Ack? {
      GatewayNext(magic, t, net, a, net.gw.(lcpAgreed := Some(l.opts)), reply);
      GrantedInLcp(t, net, next, offer);
      s' := LcpStage(Granted, offer);
    } else {
      GatewayNext(magic, t, net, a, net.gw.(lcpRefusals := net.gw.lcpRefusals - 1), reply);
      RefusedInLcp(t, net, next, offer, a);
      s' := LcpStage(Refused(a), offer);
    }
  }

  lemma NextOnEcho(magic: Magic, t: Terms, net: Net, a: Answer)
    requires FairTerms(t) && net.gw.lcpAt < |t.lcp| && Enabled(net, GatewayReceives(a))
    requires !IsEchoReply(net.toGw[0]) && net.toGw[0] == EchoTo(PPP_LCP, ProposalAt(t, net.gw.lcpAt))
    ensures var next := Next(magic, t, net, GatewayReceives(a));
      && TookOne(net, next, net.gw.(lcpAcked := true), [])
      && next.toGw == net.toGw[1..]
  {
    GatewayHearsEcho(t, net.gw, a);
    GatewayNext(magic, t, net, a, net.gw.(lcpAcked := true), []);
  }

  lemma GatewayHearsLcpEcho(magic: Magic, t: Terms, net: Net, ask: Ask, a: Answer)
    requires FairTerms(t) && LcpInv(t, net, ask, Echoed) && Enabled(net, GatewayReceives(a)) && !IsEchoReply(net.toGw[0])
    requires LcpVerdict(t, net.gw, Echoed) == Some(net.toGw[0])
    requires Serious(net.toGw[1..]) == AsSeq(AskOut(ask, LcpRequest(net.client.l)))
    ensures Steps(t, net, LcpStage(ask, Echoed), Next(magic, t, net, GatewayReceives(a)), LcpStage(ask, Acked))
  {
    NextOnEcho(magic, t, net, a);
    AckedInLcp(t, net, Next(magic, t, net, GatewayReceives(a)), ask);
  }

  lemma NextOnReject(magic: Magic, t: Terms, net: Net, a: Answer)
    requires FairTerms(t) && net.gw.lcpAt + 1 < |t.lcp| && Enabled(net, GatewayReceives(a))
    requires !IsEchoReply(net.toGw[0]) && net.toGw[0] == RejectTo(ProposalAt(t, net.gw.lcpAt))
    ensures var next := Next(magic, t, net, GatewayReceives(a));
      && TookOne(net, next, net.gw.(lcpAt := net.gw.lcpAt + 1), [LcpOffer(t, net.gw.lcpAt + 1)])
      && next.toGw == net.toGw[1..]
  {
    GatewayHearsReject(t, net.gw, a);
    GatewayNext(magic, t, net, a, net.gw.(lcpAt := net.gw.lcpAt + 1), [LcpOffer(t, net.gw.lcpAt + 1)]);
  }

  lemma GatewayHearsLcpReject(magic: Magic, t: Terms, net: Net, ask: Ask, a: Answer)
    requires FairTerms(t) && LcpInv(t, net, ask, Bounced) && Enabled(net, GatewayReceives(a)) && !IsEchoReply(net.toGw[0])
    requires LcpVerdict(t, net.gw, Bounced) == Some(net.toGw[0])
    requires Serious(net.toGw[1..]) == AsSeq(AskOut(ask, LcpRequest(net.client.l)))
    ensures Steps(t, net, LcpStage(ask, Bounced), Next(magic, t, net, GatewayReceives(a)), LcpStage(ask, InFlight))
  {
    NextOnReject(magic, t, net, a);
    ReproposedInLcp(t, net, Next(magic, t, net, GatewayReceives(a)), ask);
  }

  lemma GatewayHearsVerdict(magic: Magic, t: Terms, net: Net, ask: Ask, offer: Offer, a: Answer) returns (s': Stage)
    requires FairTerms(t) && LcpInv(t, net, ask, offer) && Enabled(net, GatewayReceives(a)) && !IsEchoReply(net.toGw[0])
    requires LcpVerdict(t, net.gw, offer) == Some(net.toGw[0])
    requires Serious(net.toGw[1..]) == AsSeq(AskOut(ask, LcpRequest(net.client.l)))
    ensures Steps(t, net, LcpStage(ask, offer), Next(magic, t, net, GatewayReceives(a)), s') && !s'.Failed?
  {
    if offer.Echoed? {
      GatewayHearsLcpEcho(magic, t, net, ask, a);
      s' := LcpStage(ask, Acked);
    } else {
      GatewayHearsLcpReject(magic, t, net, ask, a);
      s' := LcpStage(ask, InFlight);
    }
  }

  lemma GatewayInLcp(magic: Magic, t: Terms, net: Net, ask: Ask, offer: Offer, a: Answer) returns (s': Stage)
    requires FairTerms(t) && LcpInv(t, net, ask, offer) && Enabled(net, GatewayReceives(a)) && !IsEchoReply(net.toGw[0])
    ensures Steps(t, net, LcpStage(ask, offer), Next(magic, t, net, GatewayReceives(a)), s') && !s'.Failed?
  {
    var request, verdict := AskOut(ask, LcpRequest(net.client.l)), LcpVerdict(t, net.gw, offer);
    FrontOut(net.toGw, request, verdict);
    if request == Some(net.toGw[0]) && Serious(net.toGw[1..]) == AsSeq(verdict) {
      s' := GatewayAnswersLcp(magic, t, net, offer, a);
    } else {
      s' := GatewayHearsVerdict(magic, t, net, ask, offer, a);
    }
  }

  lemma GatewayBetween(magic: Magic, t: Terms, net: Net, a: Answer)
    requires FairTerms(t) && ClientAheadInv(t, net) && Enabled(net, GatewayReceives(a)) && !IsEchoReply(net.toGw[0])
    ensures Steps(t, net, ClientAhead, Next(magic, t, net, GatewayReceives(a)), IpcpStage(Asked, Unsent))
  {
    PopOut(net.toGw);
    GatewayHearsEcho(t, net.gw, a);
    GatewayNext(magic, t, net, a, net.gw.(lcpAcked := true), []);
    GatewayCatchesUp(t, net, Next(magic, t, net, GatewayReceives(a)));
  }

  lemma GatewayAnswersIpcp(magic: Magic, t: Terms, net: Net, offer: Offer, a: Answer) returns (s': Stage)
    requires IpcpInv(t, net, Asked, offer) && Enabled(net, GatewayReceives(a)) && !IsEchoReply(net.toGw[0])
    requires net.toGw[0] == IpcpRequest(net.client.i) && Serious(net.toGw[1..]) == AsSeq(IpcpVerdict(t, offer))
    ensures Steps(t, net, IpcpStage(Asked, offer), Next(magic, t, net, GatewayReceives(a)), s') && !s'.Failed?
  {
    var i, next := net.client.i, Next(magic, t, net, GatewayReceives(a));
    var reply := [Control(PPP_IPCP, AnswerPacket(a, i.id, i.opts))];
    GatewayHearsRequest(t, net.gw, PPP_IPCP, i.id, i.opts, a);
    if a.Ack? {
      GatewayNext(magic, t, net, a, net.gw.(ipcpAgreed := Some(i.opts)), reply);
      GrantedInIpcp(t, net, next, offer);
      s' := IpcpStage(Granted, offer);
    } else {
      GatewayNext(magic, t, net, a, Refusing(net.gw, a), reply);
      RefusedInIpcp(t, net, next, offer, a);
      s' := IpcpStage(Refused(a), offer);
    }
  }

  lemma GatewayInIpcp(magic: Magic, t: Terms, net: Net, ask: Ask, offer: Offer, a: Answer) returns (s': Stage)
    requires FairTerms(t) && IpcpInv(t, net, ask, offer) && Enabled(net, GatewayReceives(a)) && !IsEchoReply(net.toGw[0])
    ensures Steps(t, net, IpcpStage(ask, offer), Next(magic, t, net, GatewayReceives(a)), s') && !s'.Failed?
  {
    var request, verdict := AskOut(ask, IpcpRequest(net.client.i)), IpcpVerdict(t, offer);
    FrontOut(net.toGw, request, verdict);
    if request == Some(net.toGw[0]) && Serious(net.toGw[1..]) == AsSeq(verdict) {
      s' := GatewayAnswersIpcp(magic, t, net, offer, a);
    } else {
      GatewayHearsEcho(t, net.gw, a);
      GatewayNext(magic, t, net, a, net.gw.(ipcpAcked := true), []);
      AckedInIpcp(t, net, Next(magic, t, net, GatewayReceives(a)), ask);
      s' := IpcpStage(ask, Acked);
    }
  }

  lemma AckedWhenDone(t: Terms, net: Net, next: Net)
    requires DoneInv(t, net) && TookOne(net, next, net.gw.(ipcpAcked := true), []) && |next.toGw| < |net.toGw|
    ensures Steps(t, net, Done, next, Done)
  {
    assert net.toClient + [] == net.toClient;
  }

  lemma GatewayAfterwards(magic: Magic, t: Terms, net: Net, a: Answer)
    requires FairTerms(t) && DoneInv(t, net) && Enabled(net, GatewayReceives(a)) && !IsEchoReply(net.toGw[0])
    ensures Steps(t, net, Done, Next(magic, t, net, GatewayReceives(a)), Done)
  {
    PopOut(net.toGw);
    assert net.toGw[0] == EchoTo(PPP_IPCP, t.ipcp);
    GatewayHearsEcho(t, net.gw, a);
    GatewayNext(magic, t, net, a, net.gw.(ipcpAcked := true), []);
    AckedWhenDone(t, net, Next(magic, t, net, GatewayReceives(a)));
  }

  lemma GatewayMoves(magic: Magic, t: Terms, net: Net, s: Stage, a: Answer) returns (s': Stage)
    requires FairTerms(t) && Inv(t, net, s) && Enabled(net, GatewayReceives(a)) && !s.Failed?
    ensures Steps(t, net, s, Next(magic, t, net, GatewayReceives(a)), s') && !s'.Failed?
  {
    if IsEchoReply(net.toGw[0]) {
      EchoReplyIsTaken(magic, t, net, s, a);
      s' := s;
    } else {
      match s
      case LcpStage(ask, offer) => s' := GatewayInLcp(magic, t, net, ask, offer, a);
      case GatewayAhead => PopOut(net.toGw); s' := s;
      case ClientAhead => s' := IpcpStage(Asked, Unsent); GatewayBetween(magic, t, net, a);
      case IpcpStage(ask, offer) => s' := GatewayInIpcp(magic, t, net, ask, offer, a);
      case Done => s' := s; GatewayAfterwards(magic, t, net, a);
      case Failed => s' := s;
    }
  }

  lemma ExtraIsSent(magic: Magic, t: Terms, net: Net, m: FromGateway)
    requires Enabled(net, GatewaySendsExtra(m))
    ensures var next := Next(magic, t, net, GatewaySendsExtra(m));
      && next.client == net.client && next.toGw == net.toGw && next.gw == net.gw.(extras := net.gw.extras - 1)
      && Ctl(next.toClient) == Ctl(net.toClient) && Extras(next.toClient) == Extras(net.toClient) + 1
  {
    Push(net.toClient, m);
    assert Ctl(net.toClient) + [] == Ctl(net.toClient);
  }

  lemma SentInLcp(t: Terms, net: Net, next: Net, ask: Ask, offer: Offer)
    requires LcpInv(t, net, ask, offer) && net.gw.extras > 0
    requires next.client == net.client && next.toGw == net.toGw && next.gw == net.gw.(extras := net.gw.extras - 1)
    requires Ctl(next.toClient) == Ctl(net.toClient) && Extras(next.toClient) == Extras(net.toClient) + 1
    ensures Steps(t, net, LcpStage(ask, offer), next, LcpStage(ask, offer))
  {
    var l := net.client.l;
    assert LcpFacts(t, l, next.gw, ask, offer);
    assert LcpVerdict(t, next.gw, offer) == LcpVerdict(t, net.gw, offer);
    assert OfferIn(offer, LcpOffer(t, next.gw.lcpAt)) == OfferIn(offer, LcpOffer(t, net.gw.lcpAt));
    assert ExtrasLeft(next) == ExtrasLeft(net) && Left(t, next.gw) == Left(t, net.gw);
  }

  lemma SentLater(t: Terms, net: Net, next: Net, s: Stage)
    requires Inv(t, net, s) && !s.LcpStage? && net.gw.extras > 0
    requires next.client == net.client && next.toGw == net.toGw && next.gw == net.gw.(extras := net.gw.extras - 1)
    requires Ctl(next.toClient) == Ctl(net.toClient) && Extras(next.toClient) == Extras(net.toClient) + 1
    ensures Steps(t, net, s, next, s)
  {
  }

  lemma GatewaySendsEarly(magic: Magic, t: Terms, net: Net, s: Stage, m: FromGateway)
    requires Inv(t, net, s) && Enabled(net, GatewaySendsExtra(m))
    ensures Steps(t, net, s, Next(magic, t, net, GatewaySendsExtra(m)), s)
  {
    ExtraIsSent(magic, t, net, m);
    if s.LcpStage? {
      SentInLcp(t, net, Next(magic, t, net, GatewaySendsExtra(m)), s.ask, s.offer);
    } else {
      SentLater(t, net, Next(magic, t, net, GatewaySendsExtra(m)), s);
    }
  }

  lemma GatewayOffersLcp(magic: Magic, t: Terms, net: Net, s: Stage)
    requires Inv(t, net, s) && Enabled(net, GatewayOpensLcp) && !s.Failed?
    ensures s.LcpStage? && s.offer.Unsent?
    ensures Steps(t, net, s, Next(magic, t, net, GatewayOpensLcp), LcpStage(s.ask, InFlight))
  {
    var l, offer := net.client.l, LcpOffer(t, net.gw.lcpAt);
    Push(net.toClient, offer);
    Pushed(Ctl(net.toClient), offer, AnswerIn(s.ask, PPP_LCP, l.id, l.opts));
  }

  lemma GatewayOffersIpcpEarly(magic: Magic, t: Terms, net: Net, ask: Ask, offer: Offer)
    requires LcpInv(t, net, ask, offer) && Enabled(net, GatewayOpensIpcp)
    ensures Steps(t, net, LcpStage(ask, offer), Next(magic, t, net, GatewayOpensIpcp), GatewayAhead)
  {
    Push(net.toClient, IpcpOffer(t));
  }

  lemma GatewayOffersIpcp(magic: Magic, t: Terms, net: Net, ask: Ask, offer: Offer)
    requires IpcpInv(t, net, ask, offer) && Enabled(net, GatewayOpensIpcp)
    ensures Steps(t, net, IpcpStage(ask, offer), Next(magic, t, net, GatewayOpensIpcp), IpcpStage(ask, InFlight))
  {
    var i := net.client.i;
    Push(net.toClient, IpcpOffer(t));
    Pushed(Ctl(net.toClient), IpcpOffer(t), AnswerIn(ask, PPP_IPCP, i.id, i.opts));
    assert IpcpFacts(t, i, Next(magic, t, net, GatewayOpensIpcp).gw, ask, InFlight);
  }

  lemma GatewayOffers(magic: Magic, t: Terms, net: Net, s: Stage, m: Move) returns (s': Stage)
    requires Inv(t, net, s) && Enabled(net, m) && !s.Failed? && (m.GatewayOpensLcp? || m.GatewayOpensIpcp?)
    ensures Steps(t, net, s, Next(magic, t, net, m), s') && !s'.Failed?
  {
    if m.GatewayOpensLcp? {
      GatewayOffersLcp(magic, t, net, s);
      s' := LcpStage(s.ask, InFlight);
    } else if s.LcpStage? {
      GatewayOffersIpcpEarly(magic, t, net, s.ask, s.offer);
      s' := GatewayAhead;
    } else {
      GatewayOffersIpcp(magic, t, net, s.ask, s.offer);
      s' := IpcpStage(s.ask, InFlight);
    }
  }

  /** The one move that takes the client down is hearing a message over its cap. */
  predicate TakesDown(net: Net, m: Move) {
    m.ClientReceives? && net.toClient != [] && !Fits(net.toClient[0])
  }

  lemma EveryMove(magic: Magic, t: Terms, net: Net, s: Stage, m: Move) returns (s': Stage)
    requires FairTerms(t) && Inv(t, net, s) && Enabled(net, m)
    ensures Steps(t, net, s, Next(magic, t, net, m), s')
    ensures s'.Failed? <==> s.Failed? || TakesDown(net, m)
  {
    if s.Failed? {
      GatewayAfterFailure(magic, t, net, m);
      s' := Failed;
    } else {
      match m
      case ClientReceives => s' := ClientMoves(magic, t, net, s);
      case GatewayReceives(a) => s' := GatewayMoves(magic, t, net, s, a);
      case GatewaySendsExtra(extra) => s' := s; GatewaySendsEarly(magic, t, net, s, extra);
      case _ => s' := GatewayOffers(magic, t, net, s, m);
    }
  }
}
