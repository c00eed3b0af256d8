/** Whole runs of client and gateway: bounded, never stuck, nothing discarded, ending in agreement. */
module GatewayRuns {
  import opened Wire
  import opened Errors
  import opened Ppp
  import opened Negotiation
  import opened NegotiationSafety
  import opened Gateway
  import opened GatewayAgreement
  import opened GatewayMoves

  // ---------------------------------------------------------------------------
  // Never stuck
  // ---------------------------------------------------------------------------

  lemma {:induction false} AddressNamed(h: Harvest, opts: seq<Opt>, k: nat)
    requires k < |opts| && opts[k].typ == IPCP_OPT_ADDR && |opts[k].val| == 4 && opts[k].val != [0, 0, 0, 0]
    ensures HarvestAll(h, opts).address.Some?
    decreases |opts|
  {
    if k > 0 {
      AddressNamed(HarvestOne(h, opts[0]), opts[1..], k - 1);
    } else {
      AddressStays(HarvestOne(h, opts[0]), opts[1..]);
    }
  }

  lemma {:induction false} AddressStays(h: Harvest, opts: seq<Opt>)
    requires h.address.Some?
    ensures HarvestAll(h, opts).address.Some?
    decreases |opts|
  {
    if opts != [] {
      AddressStays(HarvestOne(h, opts[0]), opts[1..]);
    }
  }

  const AN_ADDRESS: Opt := Opt(IPCP_OPT_ADDR, [10, 0, 0, 1])

  lemma {:induction false} SetFirstPlaces(opts: seq<Opt>, o: Opt) returns (k: nat)
    requires HasType(opts, o.typ)
    ensures k < |opts| && SetFirst(opts, o)[k] == o
  {
    if opts[0].typ == o.typ {
      k := 0;
    } else {
      var i :| 0 <= i < |opts| && opts[i].typ == o.typ;
      assert opts[1..][i - 1].typ == o.typ;
      k := SetFirstPlaces(opts[1..], o);
      k := k + 1;
    }
  }

  /** The gateway can always make the next request acceptable by naming an address. */
  lemma NamingAnAddressHelps(opts: seq<Opt>)
    ensures Acceptable(Revised(opts, Nak([AN_ADDRESS]))) && Sendable([AN_ADDRESS])
  {
    var next := Adopt(opts, AN_ADDRESS);
    assert AdoptAll(next, []) == next;
    if HasType(opts, IPCP_OPT_ADDR) {
      var k := SetFirstPlaces(opts, AN_ADDRESS);
      AddressNamed(Harvest(None, []), next, k);
    } else {
      AddressNamed(Harvest(None, []), next, |opts|);
    }
    assert BuildOptions([AN_ADDRESS]) == BuildOption(AN_ADDRESS) + BuildOptions([]);
  }

  /** Some message can be delivered, or the gateway has a request of its own to send. */
  ghost predicate CanMove(net: Net) {
    exists m :: Enabled(net, m) && !m.GatewaySendsExtra?
  }

  /** A packet that is no request is taken as it is. */
  lemma GatewayTakes(net: Net, pkt: CpPacket)
    requires net.toGw != [] && HeadPacket(net) == Ok(pkt) && pkt.code != CONF_REQ
    ensures Enabled(net, GatewayReceives(Ack))
  {
  }

  lemma GatewayCanAnswer(t: Terms, net: Net, ask: Ask, offer: Offer)
    requires FairTerms(t) && IpcpInv(t, net, ask, offer) && net.toGw != [] && !IsEchoReply(net.toGw[0])
    ensures CanMove(net)
  {
    var i := net.client.i;
    FrontOut(net.toGw, AskOut(ask, IpcpRequest(i)), IpcpVerdict(t, offer));
    if net.toGw[0] == EchoTo(PPP_IPCP, t.ipcp) {
      ReplyIsSerious(PPP_IPCP, CONF_ACK, t.ipcp.id, t.ipcp.data);
      GatewayTakes(net, AckOf(t.ipcp));
    } else {
      var a := if Acceptable(i.opts) then Ack else Nak([AN_ADDRESS]);
      NamingAnAddressHelps(i.opts);
      RequestIsExact(PPP_IPCP, i.id, i.opts);
      assert HeadPacket(net) == Ok(CpPacket(CONF_REQ, i.id, BuildOptions(i.opts)));
      assert Enabled(net, GatewayReceives(a));
    }
  }

  lemma NeverStuck(t: Terms, net: Net, s: Stage)
    requires FairTerms(t) && Inv(t, net, s) && net.client.Negotiating()
    ensures CanMove(net)
  {
    if net.toClient != [] {
      assert Enabled(net, ClientReceives);
    } else if net.toGw != [] && IsEchoReply(net.toGw[0]) {
      GatewayTakes(net, ParseCp(net.toGw[0].payload).value);
    } else if s.IpcpStage? && net.toGw != [] {
      GatewayCanAnswer(t, net, s.ask, s.offer);
    } else if net.toGw != [] {
      PopOut(net.toGw);
      assert net.toGw[0].proto == PPP_LCP;
      assert Enabled(net, GatewayReceives(Ack));
    } else if s.LcpStage? {
      assert s.offer.Unsent?;
      assert Enabled(net, GatewayOpensLcp);
    } else {
      assert s.offer.Unsent?;
      assert Enabled(net, GatewayOpensIpcp);
    }
  }

  // ---------------------------------------------------------------------------
  // Runs
  // ---------------------------------------------------------------------------

  /** Each move is possible when its turn comes. */
  ghost predicate Possible(magic: Magic, t: Terms, net: Net, moves: seq<Move>)
    decreases |moves|
  {
    moves == [] || (Enabled(net, moves[0]) && Possible(magic, t, Next(magic, t, net, moves[0]), moves[1..]))
  }

  ghost function After(magic: Magic, t: Terms, net: Net, moves: seq<Move>): Net
    requires Possible(magic, t, net, moves)
    decreases |moves|
  {
    if moves == [] then net else After(magic, t, Next(magic, t, net, moves[0]), moves[1..])
  }

  /** The gateway's messages the client has received, in order. */
  ghost function HeardIn(magic: Magic, t: Terms, net: Net, moves: seq<Move>): seq<FromGateway>
    requires Possible(magic, t, net, moves)
    decreases |moves|
  {
    if moves == [] then []
    else
      (if moves[0].ClientReceives? then [net.toClient[0]] else [])
      + HeardIn(magic, t, Next(magic, t, net, moves[0]), moves[1..])
  }

  /** The next handshake message each side takes is one its current protocol phase handles. */
  predicate NothingDiscarded(net: Net) {
    && (net.client.InLcp? && net.toClient != [] && net.toClient[0].Control? ==> net.toClient[0].proto == PPP_LCP)
    && (net.client.InIpcp? && net.toClient != [] && net.toClient[0].Control? ==> net.toClient[0].proto == PPP_IPCP)
    && (!net.client.Down? && net.toGw != [] && net.toGw[0].proto == PPP_IPCP ==> net.gw.LcpOpen())
  }

  lemma InvDiscardsNothing(t: Terms, net: Net, s: Stage)
    requires Inv(t, net, s)
    ensures NothingDiscarded(net)
  {
    if net.toClient != [] {
      Pop(net.toClient);
    }
    if net.toGw != [] {
      PopOut(net.toGw);
    }
  }

  lemma {:induction false} RunKeepsInv(magic: Magic, t: Terms, net: Net, s: Stage, moves: seq<Move>) returns (s': Stage)
    requires FairTerms(t) && Inv(t, net, s) && Possible(magic, t, net, moves)
    ensures Inv(t, After(magic, t, net, moves), s')
    ensures Measure(t, After(magic, t, net, moves), s') + |moves| <= Measure(t, net, s)
    ensures s'.Failed? <==> s.Failed? || !AllFit(HeardIn(magic, t, net, moves))
    decreases |moves|
  {
    if moves == [] {
      s' := s;
    } else {
      var next := Next(magic, t, net, moves[0]);
      var s1 := EveryMove(magic, t, net, s, moves[0]);
      s' := RunKeepsInv(magic, t, next, s1, moves[1..]);
      var here := if moves[0].ClientReceives? then [net.toClient[0]] else [];
      FitTogether(here, HeardIn(magic, t, next, moves[1..]));
    }
  }

  lemma FitTogether(a: seq<FromGateway>, b: seq<FromGateway>)
    ensures AllFit(a + b) <==> AllFit(a) && AllFit(b)
  {
    assert forall m :: m in a + b <==> m in a || m in b;
  }

  lemma StartsRight(magic: Magic, t: Terms, lcpRefusals: nat, ipcpRefusals: nat, extras: nat)
    requires FairTerms(t) && FairBudget(t, lcpRefusals, ipcpRefusals, extras)
    ensures Inv(t, Initial(magic, lcpRefusals, ipcpRefusals, extras), LcpStage(Asked, Unsent))
    ensures Measure(t, Initial(magic, lcpRefusals, ipcpRefusals, extras), LcpStage(Asked, Unsent))
         == 2 * (lcpRefusals + ipcpRefusals + |t.lcp|) + 3 * extras + 8
  {
    var l := FirstLcp(magic);
    assert l.opts[0].typ == LCP_OPT_MRU && l.opts[1].typ == LCP_OPT_MAGIC;
    RequestIsSerious(PPP_LCP, l.id, l.opts);
    PushOut([], LcpRequest(l));
    assert [] + [LcpRequest(l)] == [LcpRequest(l)];
  }

  /**
   * Whatever the order in which messages are delivered and the gateway speaks,
   * whatever it refuses, proposes or sends besides within the budget: the run is
   * bounded and drops no handshake packet unhandled. The client goes down if and
   * only if it has heard a message over its own cap, and then with that error.
   * Otherwise the run can go on until the client is up, and both sides then hold
   * the same address and far-end address; a run that can go no further has both
   * protocols open on both sides.
   */
  lemma EveryRunAgrees(magic: Magic, t: Terms, lcpRefusals: nat, ipcpRefusals: nat, extras: nat, moves: seq<Move>)
    requires FairTerms(t) && FairBudget(t, lcpRefusals, ipcpRefusals, extras)
    requires Possible(magic, t, Initial(magic, lcpRefusals, ipcpRefusals, extras), moves)
    ensures |moves| <= 2 * (lcpRefusals + ipcpRefusals + |t.lcp|) + 3 * extras + 8
    ensures var first := Initial(magic, lcpRefusals, ipcpRefusals, extras);
      var net, heard := After(magic, t, first, moves), HeardIn(magic, t, first, moves);
      && NothingDiscarded(net)
      && (net.client.Down? <==> !AllFit(heard))
      && (net.client.Down? ==> net.client.error == Protocol(FrameTooLong))
      && (net.client.Negotiating() ==> CanMove(net))
      && (net.client.Up? ==> Agreed(t, net.client.session, net.gw))
      && ((forall m :: !Enabled(net, m)) && AllFit(heard) ==> net.client.Up? && net.gw.LcpOpen() && net.gw.ipcpAcked)
  {
    var first := Initial(magic, lcpRefusals, ipcpRefusals, extras);
    StartsRight(magic, t, lcpRefusals, ipcpRefusals, extras);
    var s := RunKeepsInv(magic, t, first, LcpStage(Asked, Unsent), moves);
    var net := After(magic, t, first, moves);
    InvDiscardsNothing(t, net, s);
    if net.client.Negotiating() {
      NeverStuck(t, net, s);
    } else if s.Done? && net.toGw != [] {
      DoneGatewayTakes(t, net);
    }
  }

  lemma DoneGatewayTakes(t: Terms, net: Net)
    requires FairTerms(t) && DoneInv(t, net) && net.toGw != []
    ensures Enabled(net, GatewayReceives(Ack))
  {
    PopOut(net.toGw);
    if IsEchoReply(net.toGw[0]) {
      GatewayTakes(net, ParseCp(net.toGw[0].payload).value);
    } else {
      ReplyIsSerious(PPP_IPCP, CONF_ACK, t.ipcp.id, t.ipcp.data);
      GatewayTakes(net, AckOf(t.ipcp));
    }
  }

  // ---------------------------------------------------------------------------
  // DNS servers and MRU
  // ---------------------------------------------------------------------------

  /** Harvesting adds the servers of the list to those already known. */
  lemma {:induction false} HarvestedDns(h: Harvest, opts: seq<Opt>)
    ensures forall d :: d in HarvestAll(h, opts).dns <==> d in h.dns || d in HarvestAll(Harvest(None, []), opts).dns
    decreases |opts|
  {
    if opts != [] {
      HarvestedDns(HarvestOne(h, opts[0]), opts[1..]);
      HarvestedDns(HarvestOne(Harvest(None, []), opts[0]), opts[1..]);
    }
  }

  predicate SameServers(a: seq<Ipv4>, b: seq<Ipv4>) {
    && (forall d :: d in a ==> d in b)
    && (forall d :: d in b ==> d in a)
  }

  /**
   * The client's servers are those of the list the gateway acknowledged exactly
   * when every server the gateway named in a Nak is still in that list.
   */
  lemma DnsAgreesExactlyWhen(t: Terms, s: Session, g: Gateway)
    requires Agreed(t, s, g)
    ensures SameServers(s.dns, HarvestAll(Harvest(None, []), g.ipcpAgreed.value).dns)
       <==> forall d :: d in g.told.dns ==> d in HarvestAll(Harvest(None, []), g.ipcpAgreed.value).dns
  {
    HarvestedDns(g.told, g.ipcpAgreed.value);
  }

  /** RFC 1661 section 6.1: what a peer assumes when no MRU was agreed. */
  const PEER_DEFAULT_MRU: nat := 1500

  /** A usable MRU option is in the list. */
  predicate NamesMru(opts: seq<Opt>) {
    exists o :: o in opts && o.typ == LCP_OPT_MRU && |o.val| == 2
  }

  lemma {:induction false} MruFromList(opts: seq<Opt>, a: nat, b: nat)
    ensures MruIn(opts, a) == MruIn(opts, b) <==> a == b || NamesMru(opts)
  {
    if opts != [] {
      var first, rest := opts[0], opts[1..];
      assert opts == [first] + rest;
      if first.typ == LCP_OPT_MRU && |first.val| == 2 {
        assert first in opts;
      } else {
        MruFromList(rest, a, b);
        assert NamesMru(rest) <==> NamesMru(opts);
      }
    }
  }

  /**
   * The client's MRU is the one the gateway takes from the acknowledged list
   * exactly when that list still names one: without it the client stays with its
   * own default, the gateway with that of the standard.
   */
  lemma MruAgreesExactlyWhen(t: Terms, s: Session, g: Gateway)
    requires Agreed(t, s, g)
    ensures s.mtu == MruIn(g.lcpAgreed.value, PEER_DEFAULT_MRU) <==> NamesMru(g.lcpAgreed.value)
  {
    MruFromList(g.lcpAgreed.value, DEFAULT_MRU, PEER_DEFAULT_MRU);
  }

  // ---------------------------------------------------------------------------
  // Every run can be completed
  // ---------------------------------------------------------------------------

  lemma {:induction false} CanFinish(magic: Magic, t: Terms, net: Net, s: Stage) returns (moves: seq<Move>)
    requires FairTerms(t) && Inv(t, net, s)
    ensures Possible(magic, t, net, moves) && !After(magic, t, net, moves).client.Negotiating()
    decreases Measure(t, net, s)
  {
    if net.client.Negotiating() {
      NeverStuck(t, net, s);
      var m :| Enabled(net, m) && !m.GatewaySendsExtra?;
      var s' := EveryMove(magic, t, net, s, m);
      var rest := CanFinish(magic, t, Next(magic, t, net, m), s');
      moves := [m] + rest;
      assert moves[1..] == rest;
    } else {
      moves := [];
    }
  }
}
