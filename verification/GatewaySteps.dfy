/** Every kind of step of the composed system keeps the invariant and lowers the measure. */
module GatewaySteps {
  import opened Wire
  import opened Ppp
  import opened Negotiation
  import opened NegotiationSafety
  import opened Gateway
  import opened GatewayAgreement

  // ---------------------------------------------------------------------------
  // Steps in LCP
  // ---------------------------------------------------------------------------

  lemma EchoedInLcp(t: Terms, net: Net, next: Net, ask: Ask)
    requires LcpInv(t, net, ask, InFlight) && !ask.Settled? && net.toClient != [] && net.toClient[0].Control?
    requires HeardOne(net, next, InLcp(net.client.l.(theirs := true), net.client.rounds + 1),
                      [EchoTo(PPP_LCP, ProposalAt(t, net.gw.lcpAt))])
    requires Ctl(next.toClient) == AsSeq(AnswerIn(ask, PPP_LCP, net.client.l.id, net.client.l.opts))
    ensures Steps(t, net, LcpStage(ask, InFlight), next, LcpStage(ask, Echoed))
  {
    var l := net.client.l;
    Pop(net.toClient);
    Pushed(Serious(net.toGw), EchoTo(PPP_LCP, ProposalAt(t, net.gw.lcpAt)), AskOut(ask, LcpRequest(l)));
    assert LcpFacts(t, l.(theirs := true), net.gw, ask, Echoed);
  }

  lemma BouncedInLcp(t: Terms, net: Net, next: Net, ask: Ask)
    requires LcpInv(t, net, ask, InFlight) && net.toClient != [] && net.toClient[0].Control?
    requires net.gw.lcpAt + 1 < |t.lcp|
    requires HeardOne(net, next, InLcp(net.client.l, net.client.rounds + 1), [RejectTo(ProposalAt(t, net.gw.lcpAt))])
    requires Ctl(next.toClient) == AsSeq(AnswerIn(ask, PPP_LCP, net.client.l.id, net.client.l.opts))
    ensures Steps(t, net, LcpStage(ask, InFlight), next, LcpStage(ask, Bounced))
  {
    var l := net.client.l;
    Pop(net.toClient);
    Pushed(Serious(net.toGw), RejectTo(ProposalAt(t, net.gw.lcpAt)), AskOut(ask, LcpRequest(l)));
    assert LcpFacts(t, l, net.gw, ask, Bounced);
  }

  lemma EchoedLastInLcp(t: Terms, net: Net, next: Net)
    requires LcpInv(t, net, Settled, InFlight) && net.toClient != [] && net.toClient[0].Control?
    requires HeardOne(net, next, InIpcp(net.client.l.mru, FIRST_IPCP, 0),
                      [EchoTo(PPP_LCP, ProposalAt(t, net.gw.lcpAt)), IpcpRequest(FIRST_IPCP)])
    requires Ctl(next.toClient) == []
    ensures Steps(t, net, LcpStage(Settled, InFlight), next, ClientAhead)
  {
    Pop(net.toClient);
    assert Serious(net.toGw) == [];
  }

  lemma SettledInLcp(t: Terms, net: Net, next: Net, offer: Offer)
    requires LcpInv(t, net, Granted, offer) && !Heard(offer) && net.toClient != [] && net.toClient[0].Control?
    requires var l := net.client.l;
      HeardOne(net, next, InLcp(l.(mru := MruIn(l.opts, l.mru), ours := true), net.client.rounds + 1), [])
    requires Ctl(next.toClient) == AsSeq(OfferIn(offer, LcpOffer(t, net.gw.lcpAt)))
    ensures Steps(t, net, LcpStage(Granted, offer), next, LcpStage(Settled, offer))
  {
    var l := net.client.l;
    Pop(net.toClient);
    assert LcpFacts(t, l.(mru := MruIn(l.opts, l.mru), ours := true), net.gw, Settled, offer);
  }

  lemma FirstIpcpFacts(t: Terms, g: Gateway)
    requires IpcpFresh(g) && !g.ipcpSent && g.ipcpRefusals >= 1
    ensures IpcpFacts(t, FIRST_IPCP, g, Asked, Unsent)
  {
    FirstIpcpIsSound();
  }

  lemma SettledLastInLcp(t: Terms, net: Net, next: Net, offer: Offer)
    requires LcpInv(t, net, Granted, offer) && Heard(offer) && net.toClient != [] && net.toClient[0].Control?
    requires HeardOne(net, next, InIpcp(MruIn(net.client.l.opts, net.client.l.mru), FIRST_IPCP, 0), [IpcpRequest(FIRST_IPCP)])
    requires Ctl(next.toClient) == []
    ensures Steps(t, net, LcpStage(Granted, offer), next, if offer.Echoed? then ClientAhead else IpcpStage(Asked, Unsent))
  {
    Pop(net.toClient);
    if offer.Acked? {
      FirstIpcpFacts(t, net.gw);
    }
  }

  lemma RetriedInLcp(t: Terms, net: Net, next: Net, a: Answer, offer: Offer)
    requires LcpInv(t, net, Refused(a), offer) && net.toClient != [] && net.toClient[0].Control?
    requires Sound(RevisedLcp(net.client.l, a).opts) && |RevisedLcp(net.client.l, a).opts| <= 2
    requires HeardOne(net, next, InLcp(RevisedLcp(net.client.l, a), net.client.rounds + 1),
                      [LcpRequest(RevisedLcp(net.client.l, a))])
    requires Ctl(next.toClient) == AsSeq(OfferIn(offer, LcpOffer(t, net.gw.lcpAt)))
    ensures Steps(t, net, LcpStage(Refused(a), offer), next, LcpStage(Asked, offer))
  {
    Pop(net.toClient);
    Pushed(Serious(net.toGw), LcpRequest(RevisedLcp(net.client.l, a)), LcpVerdict(t, net.gw, offer));
    assert LcpFacts(t, RevisedLcp(net.client.l, a), net.gw, Asked, offer);
  }

  lemma GrantedInLcp(t: Terms, net: Net, next: Net, offer: Offer)
    requires LcpInv(t, net, Asked, offer)
    requires var l := net.client.l;
      TookOne(net, next, net.gw.(lcpAgreed := Some(l.opts)), [Control(PPP_LCP, AnswerPacket(Ack, l.id, l.opts))])
    requires Serious(next.toGw) == AsSeq(LcpVerdict(t, net.gw, offer))
    ensures Steps(t, net, LcpStage(Asked, offer), next, LcpStage(Granted, offer))
  {
    var l := net.client.l;
    var answer := Control(PPP_LCP, AnswerPacket(Ack, l.id, l.opts));
    Push(net.toClient, answer);
    Pushed(Ctl(net.toClient), answer, OfferIn(offer, LcpOffer(t, net.gw.lcpAt)));
    assert LcpFacts(t, l, next.gw, Granted, offer);
  }

  lemma RefusedInLcp(t: Terms, net: Net, next: Net, offer: Offer, a: Answer)
    requires LcpInv(t, net, Asked, offer) && !a.Ack? && LcpAllowed(net.gw, a)
    requires var l := net.client.l;
      TookOne(net, next, net.gw.(lcpRefusals := net.gw.lcpRefusals - 1), [Control(PPP_LCP, AnswerPacket(a, l.id, l.opts))])
    requires Serious(next.toGw) == AsSeq(LcpVerdict(t, net.gw, offer))
    ensures Steps(t, net, LcpStage(Asked, offer), next, LcpStage(Refused(a), offer))
  {
    var l := net.client.l;
    var answer := Control(PPP_LCP, AnswerPacket(a, l.id, l.opts));
    Push(net.toClient, answer);
    Pushed(Ctl(net.toClient), answer, OfferIn(offer, LcpOffer(t, net.gw.lcpAt)));
    assert LcpFacts(t, l, next.gw, Refused(a), offer);
  }

  lemma AckedInLcp(t: Terms, net: Net, next: Net, ask: Ask)
    requires LcpInv(t, net, ask, Echoed) && TookOne(net, next, net.gw.(lcpAcked := true), [])
    requires Serious(next.toGw) == AsSeq(AskOut(ask, LcpRequest(net.client.l)))
    ensures Steps(t, net, LcpStage(ask, Echoed), next, LcpStage(ask, Acked))
  {
    assert net.toClient + [] == net.toClient;
    assert LcpFacts(t, net.client.l, next.gw, ask, Acked);
  }

  /** A rejected proposal is followed by the next one. */
  lemma ReproposedInLcp(t: Terms, net: Net, next: Net, ask: Ask)
    requires LcpInv(t, net, ask, Bounced)
    requires TookOne(net, next, net.gw.(lcpAt := net.gw.lcpAt + 1), [LcpOffer(t, net.gw.lcpAt + 1)])
    requires Serious(next.toGw) == AsSeq(AskOut(ask, LcpRequest(net.client.l)))
    ensures Steps(t, net, LcpStage(ask, Bounced), next, LcpStage(ask, InFlight))
  {
    var l, offer := net.client.l, LcpOffer(t, net.gw.lcpAt + 1);
    Push(net.toClient, offer);
    Pushed(Ctl(net.toClient), offer, AnswerIn(ask, PPP_LCP, l.id, l.opts));
    assert LcpFacts(t, l, next.gw, ask, InFlight);
  }

  // ---------------------------------------------------------------------------
  // Between the two protocols
  // ---------------------------------------------------------------------------

  lemma ClientCatchesUp(t: Terms, net: Net, next: Net)
    requires GatewayAheadInv(t, net) && net.toClient != [] && net.toClient[0].Control?
    requires HeardOne(net, next, InIpcp(MruIn(net.client.l.opts, net.client.l.mru), FIRST_IPCP, 0), [IpcpRequest(FIRST_IPCP)])
    requires Ctl(next.toClient) == [IpcpOffer(t)]
    ensures Steps(t, net, GatewayAhead, next, IpcpStage(Asked, InFlight))
  {
    Pop(net.toClient);
    assert net.gw.lcpAgreed == Some(net.client.l.opts) && net.client.l.mru == DEFAULT_MRU;
    FirstIpcpIsSound();
    assert IpcpFacts(t, FIRST_IPCP, net.gw, Asked, InFlight);
  }

  lemma GatewayCatchesUp(t: Terms, net: Net, next: Net)
    requires ClientAheadInv(t, net) && TookOne(net, next, net.gw.(lcpAcked := true), [])
    ensures Steps(t, net, ClientAhead, next, IpcpStage(Asked, Unsent))
  {
    assert net.toClient + [] == net.toClient;
    FirstIpcpIsSound();
    assert IpcpFacts(t, FIRST_IPCP, next.gw, Asked, Unsent);
  }

  // ---------------------------------------------------------------------------
  // Steps in IPCP
  // ---------------------------------------------------------------------------

  lemma EchoedInIpcp(t: Terms, net: Net, next: Net, ask: Ask)
    requires IpcpInv(t, net, ask, InFlight) && !ask.Settled? && net.toClient != [] && net.toClient[0].Control?
    requires HeardOne(net, next, InIpcp(net.client.mru, AfterOffer(t, net.client.i), net.client.rounds + 1),
                      [EchoTo(PPP_IPCP, t.ipcp)])
    requires Ctl(next.toClient) == AsSeq(AnswerIn(ask, PPP_IPCP, net.client.i.id, net.client.i.opts))
    ensures Steps(t, net, IpcpStage(ask, InFlight), next, IpcpStage(ask, Echoed))
  {
    var i := net.client.i;
    Pop(net.toClient);
    Pushed(Serious(net.toGw), EchoTo(PPP_IPCP, t.ipcp), AskOut(ask, IpcpRequest(i)));
    assert IpcpFacts(t, AfterOffer(t, i), net.gw, ask, Echoed);
  }

  /** Both flags set: the session follows from what was agreed and told. */
  lemma FinishAgrees(magic: Magic, t: Terms, g: Gateway, mru: nat, i: Ipcp)
    requires LcpUp(g, mru) && g.ipcpAgreed.Some? && Acceptable(g.ipcpAgreed.value)
    requires i.harvest == HarvestAll(g.told, g.ipcpAgreed.value) && i.peer == PeerIn(ParseOptions(t.ipcp.data), None)
    ensures var c := Finish(magic, mru, i); c.Up? && Agreed(t, c.session, g) && c.session.mtu == mru
  {
    HarvestedAddress(g.told, g.ipcpAgreed.value);
  }

  lemma EchoedLastInIpcp(magic: Magic, t: Terms, net: Net, next: Net)
    requires IpcpInv(t, net, Settled, InFlight) && net.toClient != [] && net.toClient[0].Control?
    requires HeardOne(net, next, Finish(magic, net.client.mru, AfterOffer(t, net.client.i)), [EchoTo(PPP_IPCP, t.ipcp)])
    requires Ctl(next.toClient) == []
    ensures Steps(t, net, IpcpStage(Settled, InFlight), next, Done)
  {
    Pop(net.toClient);
    QueueLength(next.toGw);
    FinishAgrees(magic, t, net.gw, net.client.mru, AfterOffer(t, net.client.i));
    assert Serious(net.toGw) == [];
  }

  lemma SettledInIpcp(t: Terms, net: Net, next: Net, offer: Offer)
    requires IpcpInv(t, net, Granted, offer) && !Heard(offer) && net.toClient != [] && net.toClient[0].Control?
    requires HeardOne(net, next, InIpcp(net.client.mru, AfterAck(net.client.i), net.client.rounds + 1), [])
    requires Ctl(next.toClient) == AsSeq(OfferIn(offer, IpcpOffer(t)))
    ensures Steps(t, net, IpcpStage(Granted, offer), next, IpcpStage(Settled, offer))
  {
    var i := net.client.i;
    Pop(net.toClient);
    HarvestStaysGood(i.harvest, i.opts);
    assert IpcpFacts(t, AfterAck(i), net.gw, Settled, offer);
  }

  lemma SettledLastInIpcp(magic: Magic, t: Terms, net: Net, next: Net, offer: Offer)
    requires IpcpInv(t, net, Granted, offer) && Heard(offer) && net.toClient != [] && net.toClient[0].Control?
    requires HeardOne(net, next, Finish(magic, net.client.mru, AfterAck(net.client.i)), [])
    requires Ctl(next.toClient) == []
    ensures Steps(t, net, IpcpStage(Granted, offer), next, Done)
  {
    Pop(net.toClient);
    QueueLength(next.toGw);
    FinishAgrees(magic, t, net.gw, net.client.mru, AfterAck(net.client.i));
  }

  lemma RetriedInIpcp(t: Terms, net: Net, next: Net, a: Answer, offer: Offer)
    requires IpcpInv(t, net, Refused(a), offer) && Sound(Revised(net.client.i.opts, a))
    requires net.toClient != [] && net.toClient[0].Control?
    requires HeardOne(net, next, InIpcp(net.client.mru, RevisedIpcp(net.client.i, a), net.client.rounds + 1),
                      [IpcpRequest(RevisedIpcp(net.client.i, a))])
    requires Ctl(next.toClient) == AsSeq(OfferIn(offer, IpcpOffer(t)))
    ensures Steps(t, net, IpcpStage(Refused(a), offer), next, IpcpStage(Asked, offer))
  {
    var i := net.client.i;
    Pop(net.toClient);
    Pushed(Serious(net.toGw), IpcpRequest(RevisedIpcp(i, a)), IpcpVerdict(t, offer));
    if a.Nak? {
      HarvestStaysGood(i.harvest, a.opts);
    }
    assert IpcpFacts(t, RevisedIpcp(i, a), net.gw, Asked, offer);
  }

  lemma GrantedInIpcp(t: Terms, net: Net, next: Net, offer: Offer)
    requires IpcpInv(t, net, Asked, offer) && Acceptable(net.client.i.opts)
    requires var i := net.client.i;
      TookOne(net, next, net.gw.(ipcpAgreed := Some(i.opts)), [Control(PPP_IPCP, AnswerPacket(Ack, i.id, i.opts))])
    requires Serious(next.toGw) == AsSeq(IpcpVerdict(t, offer))
    ensures Steps(t, net, IpcpStage(Asked, offer), next, IpcpStage(Granted, offer))
  {
    var answer := Control(PPP_IPCP, AnswerPacket(Ack, net.client.i.id, net.client.i.opts));
    Push(net.toClient, answer);
    Pushed(Ctl(net.toClient), answer, OfferIn(offer, IpcpOffer(t)));
    assert IpcpFacts(t, net.client.i, next.gw, Granted, offer);
  }

  function Refusing(g: Gateway, a: Answer): Gateway
    requires g.ipcpRefusals > 0 && !a.Ack?
  {
    g.(ipcpRefusals := g.ipcpRefusals - 1, told := if a.Nak? then HarvestAll(g.told, a.opts) else g.told)
  }

  lemma RefusedInIpcp(t: Terms, net: Net, next: Net, offer: Offer, a: Answer)
    requires IpcpInv(t, net, Asked, offer) && !a.Ack? && IpcpAllowed(net.gw, net.client.i.opts, a)
    requires var i := net.client.i;
      TookOne(net, next, Refusing(net.gw, a), [Control(PPP_IPCP, AnswerPacket(a, i.id, i.opts))])
    requires Serious(next.toGw) == AsSeq(IpcpVerdict(t, offer))
    ensures Steps(t, net, IpcpStage(Asked, offer), next, IpcpStage(Refused(a), offer))
  {
    var answer := Control(PPP_IPCP, AnswerPacket(a, net.client.i.id, net.client.i.opts));
    Push(net.toClient, answer);
    Pushed(Ctl(net.toClient), answer, OfferIn(offer, IpcpOffer(t)));
    assert IpcpFacts(t, net.client.i, next.gw, Refused(a), offer);
  }

  lemma AckedInIpcp(t: Terms, net: Net, next: Net, ask: Ask)
    requires IpcpInv(t, net, ask, Echoed) && TookOne(net, next, net.gw.(ipcpAcked := true), [])
    requires Serious(next.toGw) == AsSeq(AskOut(ask, IpcpRequest(net.client.i)))
    ensures Steps(t, net, IpcpStage(ask, Echoed), next, IpcpStage(ask, Acked))
  {
    assert net.toClient + [] == net.toClient;
    assert IpcpFacts(t, net.client.i, next.gw, ask, Acked);
  }
}
