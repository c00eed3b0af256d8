/** Two concrete runs: one that ends with different MRUs and DNS servers, one in which an Ack is too long. */
module GatewayExamples {
  import opened Wire
  import opened Errors
  import opened Ppp
  import opened Negotiation
  import opened NegotiationSafety
  import opened Gateway
  import opened GatewayAgreement
  import opened GatewaySteps
  import opened GatewayRuns
  import Forti

  // ---------------------------------------------------------------------------
  // Runs, one move at a time
  // ---------------------------------------------------------------------------

  /** Some run leads from `first` to `net`. */
  ghost predicate Reaches(magic: Magic, t: Terms, first: Net, net: Net) {
    exists moves :: Possible(magic, t, first, moves) && After(magic, t, first, moves) == net
  }

  lemma {:induction false} OneMoreMove(magic: Magic, t: Terms, first: Net, moves: seq<Move>, m: Move)
    requires Possible(magic, t, first, moves) && Enabled(After(magic, t, first, moves), m)
    ensures Possible(magic, t, first, moves + [m])
    ensures After(magic, t, first, moves + [m]) == Next(magic, t, After(magic, t, first, moves), m)
    decreases |moves|
  {
    if moves == [] {
      assert [] + [m] == [m] && [m][1..] == [];
    } else {
      assert (moves + [m])[0] == moves[0] && (moves + [m])[1..] == moves[1..] + [m];
      OneMoreMove(magic, t, Next(magic, t, first, moves[0]), moves[1..], m);
    }
  }

  lemma Onward(magic: Magic, t: Terms, first: Net, net: Net, m: Move)
    requires Reaches(magic, t, first, net) && Enabled(net, m)
    ensures Reaches(magic, t, first, Next(magic, t, net, m))
  {
    var moves :| Possible(magic, t, first, moves) && After(magic, t, first, moves) == net;
    OneMoreMove(magic, t, first, moves, m);
  }

  lemma AtStart(magic: Magic, t: Terms, first: Net)
    ensures Reaches(magic, t, first, first)
  {
    assert Possible(magic, t, first, []) && After(magic, t, first, []) == first;
  }

  // ---------------------------------------------------------------------------
  // LCP, with the MRU option rejected
  // ---------------------------------------------------------------------------

  /** A gateway with nothing to ask for. */
  const PLAIN: Terms := Terms([Proposal(1, [])], Proposal(1, []))

  const NO_MRU: Answer := Rej([Opt(LCP_OPT_MRU, [])])

  function MagicOnly(magic: Magic): Lcp {
    Lcp([Opt(LCP_OPT_MAGIC, Be32(magic))], 2, DEFAULT_MRU, false, false)
  }

  function GatewayWith(agreed: Option<seq<Opt>>, lcpRefusals: nat, ipcpRefusals: nat): Gateway {
    Gateway(false, 0, false, agreed, lcpRefusals, false, false, None, ipcpRefusals, Harvest(None, []), 0)
  }

  lemma PlainIsFair()
    ensures FairTerms(PLAIN) && ParseOptions([]) == [] && UnknownLcp([]) == []
  {
  }

  lemma NoMruIsSmall(id: Byte, opts: seq<Opt>)
    ensures Sendable(NO_MRU.opts) && Fits(Control(PPP_LCP, AnswerPacket(NO_MRU, id, opts)))
  {
    assert BuildOptions(NO_MRU.opts) == BuildOption(NO_MRU.opts[0]) + BuildOptions([]);
  }

  lemma MruDropped(magic: Magic)
    ensures Sound(FirstLcp(magic).opts) && RevisedLcp(FirstLcp(magic), NO_MRU) == MagicOnly(magic)
  {
    var opts, rejected := FirstLcp(magic).opts, NO_MRU.opts;
    assert opts[0].typ == LCP_OPT_MRU && opts[1].typ == LCP_OPT_MAGIC;
    assert HasType(rejected, opts[0].typ) by {
      assert rejected[0].typ == opts[0].typ;
    }
    assert !HasType(rejected, opts[1].typ);
    assert opts[1..] == [opts[1]] && opts[1..][1..] == [];
    assert Without([], rejected) == [];
    assert Without(opts[1..], rejected) == [opts[1]] + Without([], rejected);
    assert Without(opts, rejected) == [] + Without(opts[1..], rejected);
  }

  lemma RejectMru(magic: Magic, r2: nat)
    ensures var first := Initial(magic, 1, r2, 0);
      Reaches(magic, PLAIN, first,
              Net(InLcp(MagicOnly(magic), 1), GatewayWith(None, 0, r2), [LcpRequest(MagicOnly(magic))], []))
  {
    var first, l := Initial(magic, 1, r2, 0), FirstLcp(magic);
    var packet := Control(PPP_LCP, AnswerPacket(NO_MRU, l.id, l.opts));
    MruDropped(magic);
    NoMruIsSmall(l.id, l.opts);
    AtStart(magic, PLAIN, first);
    GatewayHearsRequest(PLAIN, first.gw, PPP_LCP, l.id, l.opts, NO_MRU);
    Onward(magic, PLAIN, first, first, GatewayReceives(NO_MRU));
    var second := Next(magic, PLAIN, first, GatewayReceives(NO_MRU));
    assert second == Net(InLcp(l, 0), GatewayWith(None, 0, r2), [], [packet]);
    RefusalIsRetried(magic, l, 0, NO_MRU);
    Onward(magic, PLAIN, first, second, ClientReceives);
  }

  lemma GrantMagic(magic: Magic, r2: nat)
    ensures var (l, g) := (MagicOnly(magic), GatewayWith(Some(MagicOnly(magic).opts), 0, r2).(lcpSent := true));
      Reaches(magic, PLAIN, Initial(magic, 1, r2, 0),
              Net(InLcp(l, 1), g, [], [Control(PPP_LCP, AnswerPacket(Ack, l.id, l.opts)), LcpOffer(PLAIN, 0)]))
  {
    var first, l := Initial(magic, 1, r2, 0), MagicOnly(magic);
    var net := Net(InLcp(l, 1), GatewayWith(None, 0, r2), [LcpRequest(l)], []);
    RejectMru(magic, r2);
    GatewayHearsRequest(PLAIN, net.gw, PPP_LCP, l.id, l.opts, Ack);
    Onward(magic, PLAIN, first, net, GatewayReceives(Ack));
    var answered := Next(magic, PLAIN, net, GatewayReceives(Ack));
    assert answered == Net(InLcp(l, 1), GatewayWith(Some(l.opts), 0, r2), [],
                       [Control(PPP_LCP, AnswerPacket(Ack, l.id, l.opts))]);
    Onward(magic, PLAIN, first, answered, GatewayOpensLcp);
    var last := Next(magic, PLAIN, answered, GatewayOpensLcp);
    assert last.toClient == [Control(PPP_LCP, AnswerPacket(Ack, l.id, l.opts)), LcpOffer(PLAIN, 0)];
  }

  /** LCP open on both sides, without an MRU option, and the first IPCP request on its way. */
  function LcpOpenNet(magic: Magic, r2: nat): Net {
    Net(InIpcp(DEFAULT_MRU, FIRST_IPCP, 0),
        GatewayWith(Some(MagicOnly(magic).opts), 0, r2).(lcpSent := true, lcpAcked := true),
        [IpcpRequest(FIRST_IPCP)], [])
  }

  lemma MagicOnlyIsSmall(magic: Magic)
    ensures var l := MagicOnly(magic);
      Sound(l.opts) && MruIn(l.opts, DEFAULT_MRU) == DEFAULT_MRU && Fits(Control(PPP_LCP, AnswerPacket(Ack, l.id, l.opts)))
  {
    var opts := MagicOnly(magic).opts;
    assert opts[1..] == [];
    assert BuildOptions(opts) == BuildOption(opts[0]) + BuildOptions([]);
    assert MruIn(opts, DEFAULT_MRU) == MruIn([], DEFAULT_MRU);
  }

  lemma HearGrantAndOffer(magic: Magic, r2: nat)
    ensures var (l, g) := (MagicOnly(magic), GatewayWith(Some(MagicOnly(magic).opts), 0, r2).(lcpSent := true));
      Reaches(magic, PLAIN, Initial(magic, 1, r2, 0),
              Net(InIpcp(DEFAULT_MRU, FIRST_IPCP, 0), g, [EchoTo(PPP_LCP, Proposal(1, [])), IpcpRequest(FIRST_IPCP)], []))
  {
    var first, l := Initial(magic, 1, r2, 0), MagicOnly(magic);
    var g := GatewayWith(Some(l.opts), 0, r2).(lcpSent := true);
    var ack, settled := Control(PPP_LCP, AnswerPacket(Ack, l.id, l.opts)), l.(ours := true);
    var net := Net(InLcp(l, 1), g, [], [ack, LcpOffer(PLAIN, 0)]);
    GrantMagic(magic, r2);
    MagicOnlyIsSmall(magic);
    AckSettles(magic, l, 1);
    Onward(magic, PLAIN, first, net, ClientReceives);
    var later := Next(magic, PLAIN, net, ClientReceives);
    assert later == Net(InLcp(settled, 2), g, [], [LcpOffer(PLAIN, 0)]);
    PlainIsFair();
    ProposalIsJudged(magic, settled, 2, Proposal(1, []));
    Onward(magic, PLAIN, first, later, ClientReceives);
    var last := Next(magic, PLAIN, later, ClientReceives);
    assert last.toGw == [EchoTo(PPP_LCP, Proposal(1, [])), IpcpRequest(FIRST_IPCP)];
  }

  lemma LcpOpens(magic: Magic, r2: nat)
    ensures Reaches(magic, PLAIN, Initial(magic, 1, r2, 0), LcpOpenNet(magic, r2))
  {
    var first, l := Initial(magic, 1, r2, 0), MagicOnly(magic);
    var g := GatewayWith(Some(l.opts), 0, r2).(lcpSent := true);
    var net := Net(InIpcp(DEFAULT_MRU, FIRST_IPCP, 0), g,
                   [EchoTo(PPP_LCP, Proposal(1, [])), IpcpRequest(FIRST_IPCP)], []);
    HearGrantAndOffer(magic, r2);
    PlainIsFair();
    GatewayHearsEcho(PLAIN, g, Ack);
    ReplyIsSerious(PPP_LCP, CONF_ACK, 1, []);
    Onward(magic, PLAIN, first, net, GatewayReceives(Ack));
    assert net.toGw[1..] == [IpcpRequest(FIRST_IPCP)];
  }

  // ---------------------------------------------------------------------------
  // IPCP, with two Naks
  // ---------------------------------------------------------------------------

  lemma NakIsSent(magic: Magic, first: Net, g: Gateway, i: Ipcp, rounds: nat, naked: seq<Opt>)
    requires Reaches(magic, PLAIN, first, Net(InIpcp(DEFAULT_MRU, i, rounds), g, [IpcpRequest(i)], []))
    requires Sound(i.opts) && g.LcpOpen() && IpcpAllowed(g, i.opts, Nak(naked))
    ensures Reaches(magic, PLAIN, first,
                    Net(InIpcp(DEFAULT_MRU, i, rounds), Refusing(g, Nak(naked)), [],
                        [Control(PPP_IPCP, AnswerPacket(Nak(naked), i.id, i.opts))]))
  {
    var net := Net(InIpcp(DEFAULT_MRU, i, rounds), g, [IpcpRequest(i)], []);
    GatewayHearsRequest(PLAIN, g, PPP_IPCP, i.id, i.opts, Nak(naked));
    Onward(magic, PLAIN, first, net, GatewayReceives(Nak(naked)));
    var next := Next(magic, PLAIN, net, GatewayReceives(Nak(naked)));
    assert next.toClient == [Control(PPP_IPCP, AnswerPacket(Nak(naked), i.id, i.opts))];
    assert next.gw == Refusing(g, Nak(naked));
  }

  lemma NakIsHeard(magic: Magic, first: Net, g: Gateway, i: Ipcp, rounds: nat, naked: seq<Opt>)
    requires var packet := Control(PPP_IPCP, AnswerPacket(Nak(naked), i.id, i.opts));
      Fits(packet) && Reaches(magic, PLAIN, first, Net(InIpcp(DEFAULT_MRU, i, rounds), g, [], [packet]))
    requires Sound(i.opts) && !i.ours && !i.theirs && rounds < MAX_ROUNDS && Sendable(naked)
    ensures var next := RevisedIpcp(i, Nak(naked));
      && Sound(next.opts)
      && Reaches(magic, PLAIN, first, Net(InIpcp(DEFAULT_MRU, next, rounds + 1), g, [IpcpRequest(next)], []))
  {
    var net := Net(InIpcp(DEFAULT_MRU, i, rounds), g, [], [Control(PPP_IPCP, AnswerPacket(Nak(naked), i.id, i.opts))]);
    var next := RevisedIpcp(i, Nak(naked));
    IpcpRefusalIsRetried(magic, DEFAULT_MRU, i, rounds, Nak(naked));
    assert !next.ours && !next.theirs;
    Onward(magic, PLAIN, first, net, ClientReceives);
    assert Next(magic, PLAIN, net, ClientReceives).client == InIpcp(DEFAULT_MRU, next, rounds + 1);
    assert Next(magic, PLAIN, net, ClientReceives).toGw == [IpcpRequest(next)];
  }

  /** One Nak that the gateway may send and the client can hear, answered by the revised request. */
  lemma OneNak(magic: Magic, first: Net, g: Gateway, i: Ipcp, rounds: nat, naked: seq<Opt>)
    requires Reaches(magic, PLAIN, first, Net(InIpcp(DEFAULT_MRU, i, rounds), g, [IpcpRequest(i)], []))
    requires Sound(i.opts) && !i.ours && !i.theirs && rounds < MAX_ROUNDS && g.LcpOpen()
    requires IpcpAllowed(g, i.opts, Nak(naked)) && Fits(Control(PPP_IPCP, AnswerPacket(Nak(naked), i.id, i.opts)))
    ensures var next := RevisedIpcp(i, Nak(naked));
      && Sound(next.opts)
      && Reaches(magic, PLAIN, first,
                 Net(InIpcp(DEFAULT_MRU, next, rounds + 1), Refusing(g, Nak(naked)), [IpcpRequest(next)], []))
  {
    NakIsSent(magic, first, g, i, rounds, naked);
    NakIsHeard(magic, first, Refusing(g, Nak(naked)), i, rounds, naked);
  }

  /** The gateway acknowledges the client's request. */
  lemma Granting(magic: Magic, first: Net, g: Gateway, i: Ipcp, rounds: nat)
    requires Reaches(magic, PLAIN, first, Net(InIpcp(DEFAULT_MRU, i, rounds), g, [IpcpRequest(i)], []))
    requires Sound(i.opts) && g.LcpOpen() && Acceptable(i.opts)
    ensures Reaches(magic, PLAIN, first,
                    Net(InIpcp(DEFAULT_MRU, i, rounds), g.(ipcpAgreed := Some(i.opts)), [],
                        [Control(PPP_IPCP, AnswerPacket(Ack, i.id, i.opts))]))
  {
    var net := Net(InIpcp(DEFAULT_MRU, i, rounds), g, [IpcpRequest(i)], []);
    GatewayHearsRequest(PLAIN, g, PPP_IPCP, i.id, i.opts, Ack);
    Onward(magic, PLAIN, first, net, GatewayReceives(Ack));
    assert Next(magic, PLAIN, net, GatewayReceives(Ack)).toClient == [Control(PPP_IPCP, AnswerPacket(Ack, i.id, i.opts))];
  }

  /** The client hears the Ack and then the gateway's own request. */
  lemma Finishing(magic: Magic, first: Net, g: Gateway, i: Ipcp, rounds: nat)
    requires var ack := Control(PPP_IPCP, AnswerPacket(Ack, i.id, i.opts));
      && Reaches(magic, PLAIN, first, Net(InIpcp(DEFAULT_MRU, i, rounds), g, [], [ack])) && Fits(ack)
    requires Sound(i.opts) && !i.ours && !i.theirs && rounds + 1 < MAX_ROUNDS && g.LcpOpen() && !g.ipcpSent
    ensures Reaches(magic, PLAIN, first,
                    Net(Finish(magic, DEFAULT_MRU, AfterOffer(PLAIN, AfterAck(i))), g.(ipcpSent := true),
                        [EchoTo(PPP_IPCP, Proposal(1, []))], []))
  {
    var net := Net(InIpcp(DEFAULT_MRU, i, rounds), g, [], [Control(PPP_IPCP, AnswerPacket(Ack, i.id, i.opts))]);
    IpcpAckSettles(magic, DEFAULT_MRU, i, rounds);
    Onward(magic, PLAIN, first, net, ClientReceives);
    var settled := Next(magic, PLAIN, net, ClientReceives);
    assert settled == Net(InIpcp(DEFAULT_MRU, AfterAck(i), rounds + 1), g, [], []);
    Onward(magic, PLAIN, first, settled, GatewayOpensIpcp);
    var offered := Next(magic, PLAIN, settled, GatewayOpensIpcp);
    assert offered.toClient == [IpcpOffer(PLAIN)];
    IpcpOfferIsEchoed(magic, PLAIN, DEFAULT_MRU, AfterAck(i), rounds + 1);
    Onward(magic, PLAIN, first, offered, ClientReceives);
    assert Next(magic, PLAIN, offered, ClientReceives).toClient == [];
  }

  // ---------------------------------------------------------------------------
  // A session whose two sides differ
  // ---------------------------------------------------------------------------

  const CLIENT_ADDRESS: Ipv4 := [10, 0, 0, 2]
  const STALE: Ipv4 := [1, 1, 1, 1]
  const CURRENT: Ipv4 := [8, 8, 8, 8]

  const NAK_BOTH: seq<Opt> := [Opt(IPCP_OPT_ADDR, CLIENT_ADDRESS), Opt(IPCP_OPT_DNS1, STALE)]
  const NAK_SERVER: seq<Opt> := [Opt(IPCP_OPT_DNS1, CURRENT)]

  lemma AdoptOne(opts: seq<Opt>, o: Opt, slot: nat)
    requires slot < |opts| && opts[slot].typ == o.typ && forall i :: 0 <= i < slot ==> opts[i].typ != o.typ
    ensures Adopt(opts, o) == opts[slot := o] && AdoptAll(opts, [o]) == opts[slot := o]
  {
    SetFirstIsUpdate(opts, o, slot);
    assert [o][1..] == [];
    assert AdoptAll(opts, [o]) == AdoptAll(Adopt(opts, o), []);
  }

  lemma HarvestTwo(h: Harvest, a: Opt, b: Opt)
    ensures HarvestAll(h, [a]) == HarvestOne(h, a)
    ensures HarvestAll(h, [a, b]) == HarvestOne(HarvestOne(h, a), b)
  {
    assert [a][1..] == [] && [b][1..] == [] && [a, b][1..] == [b];
    assert HarvestAll(h, [a]) == HarvestAll(HarvestOne(h, a), []);
    assert HarvestAll(HarvestOne(h, a), [b]) == HarvestAll(HarvestOne(HarvestOne(h, a), b), []);
  }

  lemma HarvestThree(h: Harvest, a: Opt, b: Opt, c: Opt)
    ensures HarvestAll(h, [a, b, c]) == HarvestOne(HarvestOne(HarvestOne(h, a), b), c)
  {
    assert [a, b, c][1..] == [b, c];
    HarvestTwo(HarvestOne(h, a), b, c);
  }

  function AfterFirstNak(): Ipcp {
    Ipcp([NAK_BOTH[0], NAK_BOTH[1], Opt(IPCP_OPT_DNS2, [0, 0, 0, 0])], 2, false, false,
         Harvest(Some(CLIENT_ADDRESS), [STALE]), None)
  }

  function AfterSecondNak(): Ipcp {
    Ipcp([NAK_BOTH[0], NAK_SERVER[0], Opt(IPCP_OPT_DNS2, [0, 0, 0, 0])], 3, false, false,
         Harvest(Some(CLIENT_ADDRESS), [STALE, CURRENT]), None)
  }

  lemma FirstNakAdopted()
    ensures RevisedIpcp(FIRST_IPCP, Nak(NAK_BOTH)) == AfterFirstNak()
    ensures HarvestAll(Harvest(None, []), NAK_BOTH) == Harvest(Some(CLIENT_ADDRESS), [STALE])
  {
    var opts := FIRST_IPCP.opts;
    AdoptOne(opts, NAK_BOTH[0], 0);
    AdoptOne(opts[0 := NAK_BOTH[0]], NAK_BOTH[1], 1);
    assert NAK_BOTH[1..] == [NAK_BOTH[1]];
    assert AdoptAll(opts, NAK_BOTH) == AdoptAll(Adopt(opts, NAK_BOTH[0]), [NAK_BOTH[1]]);
    assert AdoptAll(opts, NAK_BOTH) == AfterFirstNak().opts;
    HarvestTwo(Harvest(None, []), NAK_BOTH[0], NAK_BOTH[1]);
  }

  lemma SecondNakAdopted()
    ensures RevisedIpcp(AfterFirstNak(), Nak(NAK_SERVER)) == AfterSecondNak()
    ensures HarvestAll(Harvest(Some(CLIENT_ADDRESS), [STALE]), NAK_SERVER)
         == Harvest(Some(CLIENT_ADDRESS), [STALE, CURRENT])
  {
    AdoptOne(AfterFirstNak().opts, NAK_SERVER[0], 1);
    HarvestTwo(Harvest(Some(CLIENT_ADDRESS), [STALE]), NAK_SERVER[0], NAK_SERVER[0]);
  }

  lemma AgreedServers()
    ensures HarvestAll(Harvest(None, []), AfterSecondNak().opts) == Harvest(Some(CLIENT_ADDRESS), [CURRENT])
    ensures HarvestAll(AfterSecondNak().harvest, AfterSecondNak().opts) == AfterSecondNak().harvest
  {
    var opts := AfterSecondNak().opts;
    HarvestThree(Harvest(None, []), opts[0], opts[1], opts[2]);
    HarvestThree(AfterSecondNak().harvest, opts[0], opts[1], opts[2]);
  }

  /** Lists of few short options fit the client's cap and the envelope. */
  lemma FewIsSmall(proto: nat, code: Byte, id: Byte, opts: seq<Opt>)
    requires |opts| <= 3 && Expressible(opts)
    ensures Sendable(opts) && Fits(Control(proto, CpPacket(code, id, BuildOptions(opts))))
  {
    BuiltLength(opts);
  }

  /** Both Naks of the first example, after which the gateway has none left. */
  lemma BothNaked(magic: Magic)
    ensures var i := AfterFirstNak();
      && Sound(i.opts)
      && Reaches(magic, PLAIN, Initial(magic, 1, 2, 0),
                 Net(InIpcp(DEFAULT_MRU, i, 1), LcpOpenNet(magic, 1).gw.(told := i.harvest), [IpcpRequest(i)], []))
  {
    LcpOpens(magic, 2);
    FirstIpcpIsSound();
    FewIsSmall(PPP_IPCP, CONF_NAK, 1, NAK_BOTH);
    FirstNakAdopted();
    OneNak(magic, Initial(magic, 1, 2, 0), LcpOpenNet(magic, 2).gw, FIRST_IPCP, 0, NAK_BOTH);
  }

  lemma ServersNaked(magic: Magic)
    ensures var g := LcpOpenNet(magic, 0).gw.(told := AfterSecondNak().harvest);
      Reaches(magic, PLAIN, Initial(magic, 1, 2, 0),
              Net(InIpcp(DEFAULT_MRU, AfterSecondNak(), 2), g, [IpcpRequest(AfterSecondNak())], []))
    ensures Sound(AfterSecondNak().opts) && Acceptable(AfterSecondNak().opts)
  {
    var i := AfterFirstNak();
    BothNaked(magic);
    FewIsSmall(PPP_IPCP, CONF_NAK, 2, NAK_SERVER);
    SecondNakAdopted();
    AgreedServers();
    OneNak(magic, Initial(magic, 1, 2, 0), LcpOpenNet(magic, 1).gw.(told := i.harvest), i, 1, NAK_SERVER);
  }

  /** Where the first example ends. */
  function DifferingNet(magic: Magic): Net {
    var i := AfterSecondNak();
    Net(Up(Session(CLIENT_ADDRESS, None, [STALE, CURRENT], DEFAULT_MRU, magic)),
        LcpOpenNet(magic, 0).gw.(told := i.harvest, ipcpSent := true, ipcpAgreed := Some(i.opts)),
        [EchoTo(PPP_IPCP, Proposal(1, []))], [])
  }

  lemma DifferingIsReached(magic: Magic)
    ensures Reaches(magic, PLAIN, Initial(magic, 1, 2, 0), DifferingNet(magic))
  {
    var first, i := Initial(magic, 1, 2, 0), AfterSecondNak();
    var g := LcpOpenNet(magic, 0).gw.(told := i.harvest);
    ServersNaked(magic);
    AgreedServers();
    PlainIsFair();
    FewIsSmall(PPP_IPCP, CONF_ACK, i.id, i.opts);
    Granting(magic, first, g, i, 2);
    Finishing(magic, first, g.(ipcpAgreed := Some(i.opts)), i, 2);
  }

  /**
   * A run within the budget, every message small, that brings the client up with
   * another MRU and other DNS servers than the gateway takes from the lists it
   * has acknowledged: the gateway rejected the MRU option, and it named one
   * server in a first Nak and another in a second.
   */
  lemma SidesCanDiffer(magic: Magic)
    ensures FairTerms(PLAIN) && FairBudget(PLAIN, 1, 2, 0)
    ensures exists moves ::
      && Possible(magic, PLAIN, Initial(magic, 1, 2, 0), moves)
      && var (c, g) := (After(magic, PLAIN, Initial(magic, 1, 2, 0), moves).client,
                        After(magic, PLAIN, Initial(magic, 1, 2, 0), moves).gw);
         && c.Up? && Agreed(PLAIN, c.session, g)
         && c.session.mtu != MruIn(g.lcpAgreed.value, PEER_DEFAULT_MRU)
         && !SameServers(c.session.dns, HarvestAll(Harvest(None, []), g.ipcpAgreed.value).dns)
  {
    var first, end := Initial(magic, 1, 2, 0), DifferingNet(magic);
    PlainIsFair();
    DifferingIsReached(magic);
    var moves :| Possible(magic, PLAIN, first, moves) && After(magic, PLAIN, first, moves) == end;
    EveryRunAgrees(magic, PLAIN, 1, 2, 0, moves);
    MruAgreesExactlyWhen(PLAIN, end.client.session, end.gw);
    AgreedServers();
    assert STALE in end.client.session.dns && STALE !in [CURRENT];
    assert MagicOnly(magic).opts[0].typ == LCP_OPT_MAGIC;
  }

  // ---------------------------------------------------------------------------
  // A request that cannot be acknowledged
  // ---------------------------------------------------------------------------

  const LONG_VALUE: Bytes := seq(253, _ => 0)

  /** `n` options of 255 bytes each, of consecutive types. */
  function LongOptions(typ: nat, n: nat): (r: seq<Opt>)
    requires typ + n <= 0x100
    ensures |r| == n && forall k :: 0 <= k < n ==> r[k].typ == typ + k && |r[k].val| == 253
  {
    seq(n, k requires 0 <= k < n => Opt(typ + k, LONG_VALUE))
  }

  lemma {:induction false} LongLength(opts: seq<Opt>)
    requires forall k :: 0 <= k < |opts| ==> |opts[k].val| == 253
    ensures |BuildOptions(opts)| == 255 * |opts|
  {
    if opts != [] {
      LongLength(opts[1..]);
    }
  }

  /** New types are appended in order. */
  lemma {:induction false} AdoptNew(opts: seq<Opt>, naked: seq<Opt>)
    requires forall k :: 0 <= k < |naked| ==> !HasType(opts, naked[k].typ)
    requires forall j, k :: 0 <= j < k < |naked| ==> naked[j].typ != naked[k].typ
    ensures AdoptAll(opts, naked) == opts + naked
    decreases |naked|
  {
    if naked == [] {
      assert opts + naked == opts;
    } else {
      var more := opts + [naked[0]];
      forall k | 0 <= k < |naked| - 1
        ensures !HasType(more, naked[1..][k].typ)
      {
        assert naked[1..][k] == naked[k + 1];
      }
      AdoptNew(more, naked[1..]);
      assert more + naked[1..] == opts + naked;
    }
  }

  function LongNak1(): seq<Opt> { [NAK_BOTH[0]] + LongOptions(4, 64) }

  function LongNak2(): seq<Opt> { LongOptions(140, 64) }

  function LongOnce(): seq<Opt> { [NAK_BOTH[0], FIRST_IPCP.opts[1], FIRST_IPCP.opts[2]] + LongOptions(4, 64) }

  function LongTwice(): seq<Opt> { LongOnce() + LongOptions(140, 64) }

  lemma ShortHead(opts: seq<Opt>)
    requires |opts| == 3 && forall k :: 0 <= k < 3 ==> |opts[k].val| == 4
    ensures |BuildOptions(opts)| == 18
  {
    assert opts == [opts[0]] + ([opts[1]] + ([opts[2]] + []));
    BuildOptionsCons(opts[0], [opts[1]] + ([opts[2]] + []));
    BuildOptionsCons(opts[1], [opts[2]] + []);
    BuildOptionsCons(opts[2], []);
  }

  lemma LongNakLengths()
    ensures |BuildOptions(LongNak1())| == 16326 && |BuildOptions(LongNak2())| == 16320
  {
    LongLength(LongNak2());
    BuildOptionsCons(NAK_BOTH[0], LongOptions(4, 64));
    LongLength(LongOptions(4, 64));
  }

  lemma LongLengths()
    ensures |BuildOptions(LongTwice())| == 32658
  {
    LongTwiceLength([NAK_BOTH[0], FIRST_IPCP.opts[1], FIRST_IPCP.opts[2]], LongOptions(4, 64), LongOptions(140, 64));
  }

  lemma LongTwiceLength(head: seq<Opt>, a: seq<Opt>, b: seq<Opt>)
    requires |head| == 3 && forall k :: 0 <= k < 3 ==> |head[k].val| == 4
    requires forall k :: 0 <= k < |a| ==> |a[k].val| == 253
    requires forall k :: 0 <= k < |b| ==> |b[k].val| == 253
    ensures |BuildOptions(head + a + b)| == 18 + 255 * |a| + 255 * |b|
  {
    ShortHead(head);
    LongLength(a);
    LongLength(b);
    JoinedLength(head, a, b);
  }

  lemma JoinedLength(a: seq<Opt>, b: seq<Opt>, c: seq<Opt>)
    ensures |BuildOptions(a + b + c)| == |BuildOptions(a)| + |BuildOptions(b)| + |BuildOptions(c)|
  {
    BuildOptionsConcat(a + b, c);
    BuildOptionsConcat(a, b);
  }

  lemma AdoptHeadThenNew(opts: seq<Opt>, head: Opt, naked: seq<Opt>)
    requires opts != [] && opts[0].typ == head.typ
    requires forall k :: 0 <= k < |naked| ==> !HasType(opts[0 := head], naked[k].typ)
    requires forall j, k :: 0 <= j < k < |naked| ==> naked[j].typ != naked[k].typ
    ensures AdoptAll(opts, [head] + naked) == opts[0 := head] + naked
  {
    AdoptOne(opts, head, 0);
    assert ([head] + naked)[1..] == naked;
    AdoptNew(opts[0 := head], naked);
  }

  lemma FirstLongNak()
    ensures AdoptAll(FIRST_IPCP.opts, LongNak1()) == LongOnce()
  {
    var opts, later := FIRST_IPCP.opts, LongOptions(4, 64);
    var head := opts[0 := NAK_BOTH[0]];
    assert head == [NAK_BOTH[0], opts[1], opts[2]];
    forall k | 0 <= k < |later|
      ensures !HasType(head, later[k].typ)
    {
      assert 4 <= later[k].typ < 68;
    }
    AdoptHeadThenNew(opts, NAK_BOTH[0], later);
  }

  lemma SecondLongNak()
    ensures AdoptAll(LongOnce(), LongNak2()) == LongTwice()
  {
    forall k | 0 <= k < 64
      ensures !HasType(LongOnce(), LongNak2()[k].typ)
    {
      assert forall j :: 0 <= j < |LongOnce()| ==> LongOnce()[j].typ < 140;
    }
    AdoptNew(LongOnce(), LongNak2());
  }

  lemma LongIsAcceptable()
    ensures Expressible(LongNak1()) && Expressible(LongNak2()) && Acceptable(LongTwice())
  {
    AddressNamed(Harvest(None, []), LongTwice(), 0);
  }

  /** What the client asks for after two Naks. */
  function AskAfter(first: seq<Opt>, second: seq<Opt>): Ipcp {
    RevisedIpcp(RevisedIpcp(FIRST_IPCP, Nak(first)), Nak(second))
  }

  function GatewayAfter(magic: Magic, first: seq<Opt>, second: seq<Opt>): Gateway {
    Refusing(Refusing(LcpOpenNet(magic, 3).gw, Nak(first)), Nak(second))
  }

  /** Two Naks that the client can hear lead to the request they add up to. */
  lemma TwoNaks(magic: Magic, a: seq<Opt>, b: seq<Opt>)
    requires Expressible(a) && Expressible(b) && |BuildOptions(a)| + 6 <= Forti.MAX_BODY
    requires |BuildOptions(b)| + 6 <= Forti.MAX_BODY
    ensures var i := AskAfter(a, b);
      && i.opts == AdoptAll(AdoptAll(FIRST_IPCP.opts, a), b) && Sound(i.opts) && !i.ours && !i.theirs
      && Reaches(magic, PLAIN, Initial(magic, 1, 3, 0),
                 Net(InIpcp(DEFAULT_MRU, i, 2), GatewayAfter(magic, a, b), [IpcpRequest(i)], []))
  {
    var first, g, i := Initial(magic, 1, 3, 0), LcpOpenNet(magic, 3).gw, RevisedIpcp(FIRST_IPCP, Nak(a));
    LcpOpens(magic, 3);
    FirstIpcpIsSound();
    OneNak(magic, first, g, FIRST_IPCP, 0, a);
    OneNak(magic, first, Refusing(g, Nak(a)), i, 1, b);
  }

  /** An Ack over the cap takes the client down. */
  lemma LongAckIsRefused(magic: Magic, first: Net, g: Gateway, i: Ipcp, rounds: nat)
    requires Reaches(magic, PLAIN, first, Net(InIpcp(DEFAULT_MRU, i, rounds), g, [IpcpRequest(i)], []))
    requires Sound(i.opts) && g.LcpOpen() && Acceptable(i.opts) && rounds < MAX_ROUNDS
    requires |BuildOptions(i.opts)| + 6 > Forti.MAX_BODY
    ensures exists net :: Reaches(magic, PLAIN, first, net) && net.client == Down(Protocol(FrameTooLong))
  {
    var net := Net(InIpcp(DEFAULT_MRU, i, rounds), g.(ipcpAgreed := Some(i.opts)), [],
                   [Control(PPP_IPCP, AnswerPacket(Ack, i.id, i.opts))]);
    Granting(magic, first, g, i, rounds);
    assert !Fits(net.toClient[0]);
    Onward(magic, PLAIN, first, net, ClientReceives);
    assert Next(magic, PLAIN, net, ClientReceives).client == Down(Protocol(FrameTooLong));
  }

  lemma LongSum()
    ensures AdoptAll(AdoptAll(FIRST_IPCP.opts, LongNak1()), LongNak2()) == LongTwice()
  {
    FirstLongNak();
    SecondLongNak();
  }

  /**
   * Two Naks within the cap make the client send a request that is over it: its
   * verbatim Ack would be, too, and takes the client down. The request itself is
   * framed exactly.
   */
  lemma RequestsCanOutgrowTheCap(magic: Magic)
    ensures FairTerms(PLAIN) && FairBudget(PLAIN, 1, 3, 0)
    ensures exists net ::
      && Reaches(magic, PLAIN, Initial(magic, 1, 3, 0), net) && net.client.InIpcp?
      && net.toGw == [IpcpRequest(net.client.i)] && Exact(net.toGw[0]) && |net.toGw[0].payload| + 2 > Forti.MAX_BODY
    ensures exists net ::
      && Reaches(magic, PLAIN, Initial(magic, 1, 3, 0), net) && net.client == Down(Protocol(FrameTooLong))
  {
    var i, g := AskAfter(LongNak1(), LongNak2()), GatewayAfter(magic, LongNak1(), LongNak2());
    PlainIsFair();
    LongNakLengths();
    LongLengths();
    LongIsAcceptable();
    LongSum();
    TwoNaks(magic, LongNak1(), LongNak2());
    RequestIsExact(PPP_IPCP, i.id, i.opts);
    var net := Net(InIpcp(DEFAULT_MRU, i, 2), g, [IpcpRequest(i)], []);
    assert net.toGw == [IpcpRequest(net.client.i)];
    LongAckIsRefused(magic, Initial(magic, 1, 3, 0), g, i, 2);
  }
}
