/** Which of our requests the peer has acknowledged when a loop ends, and whose address the session carries. */
module NegotiationAcks {
  import opened Wire
  import opened Ppp
  import opened Negotiation
  import opened NegotiationSafety
  import opened NegotiationRuns

  // ---------------------------------------------------------------------------
  // What the client is asking for
  // ---------------------------------------------------------------------------

  /** The request a loop waits to see acknowledged, and whether it counts as acknowledged. */
  datatype Bid = Bid(proto: nat, id: Byte, opts: seq<Opt>, ours: bool)

  function LcpBid(l: Lcp): Bid { Bid(PPP_LCP, l.id, l.opts, l.ours) }

  function IpcpBid(i: Ipcp): Bid { Bid(PPP_IPCP, i.id, i.opts, i.ours) }

  function BidOf(c: Client): Bid
    requires c.Negotiating()
  {
    if c.InLcp? then LcpBid(c.l) else IpcpBid(c.i)
  }

  /** What is asked for after one more receive, if the loop has not failed; the loop may end on it. */
  function NextBid(magic: Magic, c: Client, r: Recv): Option<Bid> {
    match c
    case InLcp(l, _) => if LcpTurn(magic, l, r).Go? then Some(LcpBid(LcpTurn(magic, l, r).state)) else None
    case InIpcp(_, i, _) => if IpcpTurn(magic, i, r).Go? then Some(IpcpBid(IpcpTurn(magic, i, r).state)) else None
    case _ => None
  }

  /** The control packet this receive brought. */
  function Heard(r: Recv, proto: nat): Option<CpPacket> {
    if r.Got? && r.frame.proto == proto && ParseCp(r.frame.payload).Ok? then Some(ParseCp(r.frame.payload).value) else None
  }

  predicate IsAckOf(r: Recv, proto: nat, id: Byte) {
    Heard(r, proto).Some? && Heard(r, proto).value.code == CONF_ACK && Heard(r, proto).value.id == id
  }

  predicate IsRefusal(r: Recv, proto: nat) {
    Heard(r, proto).Some? && (Heard(r, proto).value.code == CONF_NAK || Heard(r, proto).value.code == CONF_REJ)
  }

  // ---------------------------------------------------------------------------
  // The acknowledged request need not be the last one sent
  // ---------------------------------------------------------------------------

  /** A Nak or a Reject has come in since the last matching Ack of that protocol's loop. */
  predicate RefusedSinceAck(magic: Magic, got: seq<Recv>, proto: nat)
    decreases |got|
  {
    if got == [] then false
    else
      var before, r := got[..|got| - 1], got[|got| - 1];
      var c := Play(magic, before).client;
      if c.Negotiating() && BidOf(c).proto == proto && IsAckOf(r, proto, BidOf(c).id) then false
      else if c.Negotiating() && BidOf(c).proto == proto && IsRefusal(r, proto) then true
      else RefusedSinceAck(magic, before, proto)
  }

  /** The request with this id and these options was acknowledged after it was sent. */
  ghost predicate RequestAcked(magic: Magic, got: seq<Recv>, a: Bid) {
    exists k: nat, data: Bytes :: OursAckedAt(magic, got, a.proto, k, a.id, a.opts, data)
  }

  predicate IsRequestUpTo(o: Out, proto: nat, id: int) {
    o.proto == proto && |o.payload| >= 2 && o.payload[0] == CONF_REQ ==> o.payload[1] <= id
  }

  ghost predicate RequestsUpTo(sent: seq<Out>, proto: nat, id: int) {
    forall o :: o in sent ==> IsRequestUpTo(o, proto, id)
  }

  /** One turn of either loop: a refusal asks again under the next id, an Ack of this id sets the flag. */
  ghost predicate Asks(a: Bid, r: Recv, next: Bid, sent: seq<Out>) {
    && next.proto == a.proto && RequestsUpTo(sent, a.proto, next.id)
    && (if IsRefusal(r, a.proto) then next.id == a.id + 1 else next.id == a.id && next.opts == a.opts)
    && next.ours == (a.ours || IsAckOf(r, a.proto, a.id))
  }

  lemma LcpPacketAsks(magic: Magic, l: Lcp, r: Recv, pkt: CpPacket)
    requires 1 <= l.id <= 40 && Heard(r, PPP_LCP) == Some(pkt)
    ensures var t := LcpPacket(magic, l, pkt);
      t.Go? ==> Asks(LcpBid(l), r, LcpBid(t.state), t.sent) && RequestsUpTo(t.sent, PPP_IPCP, 0)
  {
  }

  lemma LcpTurnAsks(magic: Magic, l: Lcp, r: Recv)
    requires 1 <= l.id <= 40
    ensures var t := LcpTurn(magic, l, r);
      t.Go? ==> Asks(LcpBid(l), r, LcpBid(t.state), t.sent) && RequestsUpTo(t.sent, PPP_IPCP, 0)
  {
    if Heard(r, PPP_LCP).Some? {
      LcpPacketAsks(magic, l, r, Heard(r, PPP_LCP).value);
    }
  }

  lemma IpcpPacketAsks(i: Ipcp, r: Recv, pkt: CpPacket)
    requires 1 <= i.id <= 40 && Heard(r, PPP_IPCP) == Some(pkt)
    ensures var t := IpcpPacket(i, pkt);
      t.Go? && Asks(IpcpBid(i), r, IpcpBid(t.state), t.sent)
  {
  }

  lemma IpcpTurnAsks(magic: Magic, i: Ipcp, r: Recv)
    requires 1 <= i.id <= 40
    ensures var t := IpcpTurn(magic, i, r);
      t.Go? ==> Asks(IpcpBid(i), r, IpcpBid(t.state), t.sent)
  {
    if Heard(r, PPP_IPCP).Some? {
      IpcpPacketAsks(i, r, Heard(r, PPP_IPCP).value);
    }
  }

  /** The exact condition, when `a` is asked for after `got` and `sent` has been sent. */
  ghost predicate AckedUnlessRefused(magic: Magic, got: seq<Recv>, a: Bid, sent: seq<Out>) {
    && RequestsUpTo(sent, a.proto, a.id)
    && (if a.ours then RequestAcked(magic, got, a) <==> !RefusedSinceAck(magic, got, a.proto)
        else !RequestAcked(magic, got, a))
  }

  lemma {:induction false} SentOnlyGrows(magic: Magic, got: seq<Recv>, k: nat)
    requires k <= |got|
    ensures forall o :: o in Play(magic, got[..k]).sent ==> o in Play(magic, got).sent
    decreases |got|
  {
    if k < |got| {
      var before := got[..|got| - 1];
      assert before[..k] == got[..k];
      SentOnlyGrows(magic, before, k);
    } else {
      assert got[..k] == got;
    }
  }

  /** A request with a fresh id cannot have been acknowledged: nothing with that id was sent before now. */
  lemma FreshRequestUnacked(magic: Magic, got: seq<Recv>, r: Recv, a: Bid)
    requires RequestsUpTo(Play(magic, got).sent, a.proto, a.id - 1)
    ensures !RequestAcked(magic, got + [r], a)
  {
    var more, request := got + [r], ConfigureRequest(a.proto, a.id, a.opts);
    assert !IsRequestUpTo(request, a.proto, a.id - 1);
    forall k: nat, data: Bytes
      ensures !OursAckedAt(magic, more, a.proto, k, a.id, a.opts, data)
    {
      if k < |more| {
        assert more[..k] == got[..k];
        SentOnlyGrows(magic, got, k);
      }
    }
  }

  lemma SameRequestAckedBefore(magic: Magic, got: seq<Recv>, r: Recv, a: Bid)
    requires !IsAckOf(r, a.proto, a.id)
    ensures RequestAcked(magic, got + [r], a) <==> RequestAcked(magic, got, a)
  {
    var more := got + [r];
    forall k: nat, data: Bytes
      ensures OursAckedAt(magic, more, a.proto, k, a.id, a.opts, data)
         <==> OursAckedAt(magic, got, a.proto, k, a.id, a.opts, data)
    {
      if k < |got| {
        assert more[..k] == got[..k];
      }
    }
  }

  lemma AckedAtOnce(magic: Magic, got: seq<Recv>, r: Recv, a: Bid)
    requires IsAckOf(r, a.proto, a.id) && ConfigureRequest(a.proto, a.id, a.opts) in Play(magic, got).sent
    ensures RequestAcked(magic, got + [r], a)
  {
    var more := got + [r];
    assert more[..|got|] == got;
    assert OursAckedAt(magic, more, a.proto, |got|, a.id, a.opts, Heard(r, a.proto).value.data);
  }

  lemma AckedTurn(magic: Magic, got: seq<Recv>, r: Recv, next: Bid, sent: seq<Out>)
    requires Play(magic, got).client.Negotiating()
    requires var p := Play(magic, got);
      var a := BidOf(p.client);
      && Asks(a, r, next, sent) && AckedUnlessRefused(magic, got, a, p.sent)
      && ConfigureRequest(a.proto, a.id, a.opts) in p.sent
    ensures AckedUnlessRefused(magic, got + [r], next, Play(magic, got).sent + sent)
  {
    var p := Play(magic, got);
    var a := BidOf(p.client);
    assert (got + [r])[..|got|] == got;
    if IsRefusal(r, a.proto) {
      FreshRequestUnacked(magic, got, r, next);
    } else if IsAckOf(r, a.proto, a.id) {
      AckedAtOnce(magic, got, r, next);
    } else {
      SameRequestAckedBefore(magic, got, r, next);
      assert RequestAcked(magic, got, next) <==> RequestAcked(magic, got, a);
    }
  }

  /** The same, through one receive of whichever loop the client is in. */
  lemma AckedAfter(magic: Magic, got: seq<Recv>, r: Recv)
    requires Safe(magic, got) && Play(magic, got).client.Negotiating() && !Play(magic, got).client.Exhausted()
    requires AckedUnlessRefused(magic, got, BidOf(Play(magic, got).client), Play(magic, got).sent)
    ensures var c := Play(magic, got).client;
      NextBid(magic, c, r).Some? ==>
        AckedUnlessRefused(magic, got + [r], NextBid(magic, c, r).value, Play(magic, got).sent + TurnSent(magic, c, r))
  {
    var c := Play(magic, got).client;
    if NextBid(magic, c, r).Some? {
      if c.InLcp? {
        LcpTurnAsks(magic, c.l, r);
      } else {
        IpcpTurnAsks(magic, c.i, r);
      }
      AckedTurn(magic, got, r, NextBid(magic, c, r).value, TurnSent(magic, c, r));
    }
  }

  function TurnSent(magic: Magic, c: Client, r: Recv): seq<Out> {
    match c
    case InLcp(l, _) => LcpTurn(magic, l, r).sent
    case InIpcp(_, i, _) => IpcpTurn(magic, i, r).sent
    case _ => []
  }

  /** In the LCP loop nothing has been asked for in IPCP. */
  ghost predicate AckedSoFar(magic: Magic, got: seq<Recv>) {
    var p := Play(magic, got);
    p.client.Negotiating() ==>
      && AckedUnlessRefused(magic, got, BidOf(p.client), p.sent)
      && (p.client.InLcp? ==> RequestsUpTo(p.sent, PPP_IPCP, 0))
  }

  lemma IpcpStartsUnacked(magic: Magic, got: seq<Recv>, r: Recv, sent: seq<Out>)
    requires RequestsUpTo(Play(magic, got).sent + sent, PPP_IPCP, 0)
    ensures AckedUnlessRefused(magic, got + [r], IpcpBid(FIRST_IPCP), Play(magic, got).sent + (sent + [IpcpRequest(FIRST_IPCP)]))
  {
    var request, all := IpcpRequest(FIRST_IPCP), Play(magic, got).sent + (sent + [IpcpRequest(FIRST_IPCP)]);
    assert IsRequestUpTo(request, PPP_IPCP, 1);
    forall o | o in all
      ensures IsRequestUpTo(o, PPP_IPCP, 1)
    {
      assert o in Play(magic, got).sent + sent || o == request;
    }
    assert forall o :: o in Play(magic, got).sent ==> o in Play(magic, got).sent + sent;
    FreshRequestUnacked(magic, got, r, IpcpBid(FIRST_IPCP));
  }

  lemma AckedLcpStep(magic: Magic, got: seq<Recv>, r: Recv)
    requires Safe(magic, got) && Play(magic, got).client.InLcp? && !Play(magic, got).client.Exhausted()
    requires AckedSoFar(magic, got)
    ensures AckedSoFar(magic, got + [r])
  {
    var c := Play(magic, got).client;
    PlayMore(magic, got, r);
    AckedAfter(magic, got, r);
    if NextBid(magic, c, r).Some? {
      LcpTurnAsks(magic, c.l, r);
      IpcpStartsUnacked(magic, got, r, TurnSent(magic, c, r));
    }
  }

  lemma AckedIpcpStep(magic: Magic, got: seq<Recv>, r: Recv)
    requires Safe(magic, got) && Play(magic, got).client.InIpcp? && !Play(magic, got).client.Exhausted()
    requires AckedSoFar(magic, got)
    ensures AckedSoFar(magic, got + [r])
  {
    PlayMore(magic, got, r);
    AckedAfter(magic, got, r);
  }

  lemma AckedStep(magic: Magic, got: seq<Recv>, r: Recv)
    requires Safe(magic, got) && Play(magic, got).client.Negotiating() && !Play(magic, got).client.Exhausted()
    requires AckedSoFar(magic, got)
    ensures AckedSoFar(magic, got + [r])
  {
    if Play(magic, got).client.InLcp? {
      AckedLcpStep(magic, got, r);
    } else {
      AckedIpcpStep(magic, got, r);
    }
  }

  lemma {:induction false} AckedInEveryState(magic: Magic, got: seq<Recv>)
    requires Capped(got) && Live(magic, got)
    ensures AckedSoFar(magic, got)
    decreases |got|
  {
    if got != [] {
      var before, r := got[..|got| - 1], got[|got| - 1];
      assert before + [r] == got;
      LiveBefore(magic, got);
      EveryRunIsSafe(magic, before);
      AckedInEveryState(magic, before);
      AckedStep(magic, before, r);
    }
  }

  /**
   * When a loop counts our request as acknowledged, the last request sent in it
   * has been acknowledged if and only if no Nak or Reject came in after the last
   * matching Ack: the ids of Naks and Rejects are not checked, and they do not
   * clear the flag an Ack has set. So for LCP and for IPCP.
   */
  lemma LastRequestAckedExactlyWhenNotRefused(magic: Magic, got: seq<Recv>, r: Recv)
    requires Capped(got) && Live(magic, got)
    requires Play(magic, got).client.Negotiating() && !Play(magic, got).client.Exhausted()
    ensures var a := NextBid(magic, Play(magic, got).client, r);
      a.Some? && a.value.ours ==>
        (RequestAcked(magic, got + [r], a.value) <==> !RefusedSinceAck(magic, got + [r], a.value.proto))
  {
    EveryRunIsSafe(magic, got);
    AckedInEveryState(magic, got);
    AckedAfter(magic, got, r);
  }

  // ---------------------------------------------------------------------------
  // Whose address the session carries
  // ---------------------------------------------------------------------------

  /** The last usable address option. */
  function NamedIn(opts: seq<Opt>): Option<Ipv4> {
    if opts == [] then None
    else if NamedIn(opts[1..]).Some? then NamedIn(opts[1..])
    else if opts[0].typ == IPCP_OPT_ADDR && |opts[0].val| == 4 && !IsUnspecified(opts[0].val) then Some(opts[0].val)
    else None
  }

  lemma {:induction false} LastNamedIsHarvested(h: Harvest, opts: seq<Opt>)
    ensures HarvestAll(h, opts).address == if NamedIn(opts).Some? then NamedIn(opts) else h.address
    decreases |opts|
  {
    if opts != [] {
      LastNamedIsHarvested(HarvestOne(h, opts[0]), opts[1..]);
    }
  }

  function NamedBy(r: Recv): Option<Ipv4> {
    if Heard(r, PPP_IPCP).Some? then NamedIn(ParseOptions(Heard(r, PPP_IPCP).value.data)) else None
  }

  predicate IsNak(r: Recv) {
    Heard(r, PPP_IPCP).Some? && Heard(r, PPP_IPCP).value.code == CONF_NAK
  }

  /** The address that the last matching Ack names. */
  function AckNamed(magic: Magic, got: seq<Recv>): Option<Ipv4>
    decreases |got|
  {
    if got == [] then None
    else
      var before, r := got[..|got| - 1], got[|got| - 1];
      var c := Play(magic, before).client;
      if c.InIpcp? && IsAckOf(r, PPP_IPCP, c.i.id) then NamedBy(r) else AckNamed(magic, before)
  }

  /** The last address that a Nak names after the last matching Ack. */
  function NakNamed(magic: Magic, got: seq<Recv>): Option<Ipv4>
    decreases |got|
  {
    if got == [] then None
    else
      var before, r := got[..|got| - 1], got[|got| - 1];
      var c := Play(magic, before).client;
      if c.InIpcp? && IsAckOf(r, PPP_IPCP, c.i.id) then None
      else if c.InIpcp? && IsNak(r) && NamedBy(r).Some? then NamedBy(r)
      else NakNamed(magic, before)
  }

  /** A Nak after the Ack overrides what the Ack named. */
  predicate NamedRight(magic: Magic, got: seq<Recv>, address: Option<Ipv4>) {
    && (NakNamed(magic, got).Some? ==> address == NakNamed(magic, got))
    && (NakNamed(magic, got).None? && AckNamed(magic, got).Some? ==> address == AckNamed(magic, got))
  }

  predicate NamedSoFar(magic: Magic, got: seq<Recv>) {
    match Play(magic, got).client
    case InLcp(_, _) => AckNamed(magic, got).None? && NakNamed(magic, got).None?
    case InIpcp(_, i, _) => NamedRight(magic, got, i.harvest.address)
    case Up(s) => NamedRight(magic, got, Some(s.address))
    case Down(_) => true
  }

  /** What a turn makes of the address, by the packet it heard. */
  lemma AddressTurn(magic: Magic, i: Ipcp, r: Recv)
    ensures var t := IpcpTurn(magic, i, r);
      t.Go? ==> t.state.harvest.address
                == if (IsAckOf(r, PPP_IPCP, i.id) || IsNak(r)) && NamedBy(r).Some? then NamedBy(r) else i.harvest.address
  {
    if Heard(r, PPP_IPCP).Some? {
      LastNamedIsHarvested(i.harvest, ParseOptions(Heard(r, PPP_IPCP).value.data));
    }
  }

  lemma NamedTurn(magic: Magic, got: seq<Recv>, r: Recv)
    requires Play(magic, got).client.InIpcp? && NamedSoFar(magic, got)
    ensures var t := IpcpTurn(magic, Play(magic, got).client.i, r);
      t.Go? ==> NamedRight(magic, got + [r], t.state.harvest.address)
  {
    assert (got + [r])[..|got|] == got;
    AddressTurn(magic, Play(magic, got).client.i, r);
  }

  lemma NamedStep(magic: Magic, got: seq<Recv>, r: Recv)
    requires Play(magic, got).client.Negotiating() && !Play(magic, got).client.Exhausted() && NamedSoFar(magic, got)
    ensures NamedSoFar(magic, got + [r])
  {
    PlayMore(magic, got, r);
    assert (got + [r])[..|got|] == got;
    if Play(magic, got).client.InIpcp? {
      NamedTurn(magic, got, r);
    }
  }

  lemma {:induction false} NamedInEveryState(magic: Magic, got: seq<Recv>)
    requires Live(magic, got)
    ensures NamedSoFar(magic, got)
    decreases |got|
  {
    if got != [] {
      var before, r := got[..|got| - 1], got[|got| - 1];
      assert before + [r] == got;
      LiveBefore(magic, got);
      NamedInEveryState(magic, before);
      NamedStep(magic, before, r);
    }
  }

  /**
   * The session's address is the one the last matching Ack names if and only if
   * that Ack names one and no later Nak names another: a Nak's address is taken
   * over as soon as it arrives, acknowledged or not.
   */
  lemma AddressIsAckedExactlyWhen(magic: Magic, got: seq<Recv>)
    requires Live(magic, got) && Play(magic, got).client.Up?
    ensures var acked, later := AckNamed(magic, got), NakNamed(magic, got);
      acked == Some(Play(magic, got).client.session.address) <==> acked.Some? && (later.None? || later == acked)
  {
    NamedInEveryState(magic, got);
  }

  // ---------------------------------------------------------------------------
  // Two runs
  // ---------------------------------------------------------------------------

  function Packet(proto: nat, code: Byte, id: Byte, opts: seq<Opt>): Recv {
    Got(PppFrame(proto, BuildCp(code, id, BuildOptions(opts))))
  }

  lemma PacketIsHeard(proto: nat, code: Byte, id: Byte, opts: seq<Opt>)
    requires Expressible(opts) && |opts| <= 1
    ensures Heard(Packet(proto, code, id, opts), proto) == Some(CpPacket(code, id, BuildOptions(opts)))
    ensures ParseOptions(BuildOptions(opts)) == opts
  {
    if opts != [] {
      assert opts == [opts[0]] && opts[1..] == [];
      BuildOptionsCons(opts[0], []);
    }
    OptionsRoundTrip(opts);
    CpRoundTrip(code, id, BuildOptions(opts));
  }

  /** One receive that keeps the negotiation going. */
  lemma Hears(magic: Magic, got: seq<Recv>, r: Recv, next: Client)
    requires Live(magic, got) && Play(magic, got).client.Negotiating() && !Play(magic, got).client.Exhausted()
    requires Proceed(magic, Play(magic, got).client, r).0 == next
    ensures Live(magic, got + [r]) && Play(magic, got + [r]).client == next
  {
    LiveMore(magic, got, r);
    PlayMore(magic, got, r);
  }

  /** An Ack, a Nak and a request that carry no options, in the LCP loop. */
  lemma LcpHears(magic: Magic, l: Lcp, rounds: nat)
    requires 1 <= l.id <= 40 && rounds < MAX_ROUNDS
    ensures !l.theirs ==>
      Proceed(magic, InLcp(l, rounds), Packet(PPP_LCP, CONF_ACK, l.id, [])).0 == InLcp(l.(ours := true), rounds + 1)
    ensures !l.theirs ==>
      Proceed(magic, InLcp(l, rounds), Packet(PPP_LCP, CONF_NAK, 1, [])).0 == InLcp(l.(id := l.id + 1), rounds + 1)
    ensures l.ours ==>
      Proceed(magic, InLcp(l, rounds), Packet(PPP_LCP, CONF_REQ, 1, [])).0 == InIpcp(l.mru, FIRST_IPCP, 0)
  {
    PacketIsHeard(PPP_LCP, CONF_ACK, l.id, []);
    PacketIsHeard(PPP_LCP, CONF_NAK, 1, []);
    PacketIsHeard(PPP_LCP, CONF_REQ, 1, []);
  }

  lemma Extends(got: seq<Recv>)
    ensures got[..0] == [] && got[..|got|] == got
    ensures forall k :: 0 <= k < |got| ==> got[..k] + [got[k]] == got[..k + 1]
  {
  }

  function LcpAckThenNak(): seq<Recv> {
    [Packet(PPP_LCP, CONF_ACK, 1, []), Packet(PPP_LCP, CONF_NAK, 1, []), Packet(PPP_LCP, CONF_REQ, 1, [])]
  }

  lemma LcpAckThenNakOpens(magic: Magic)
    ensures var got, naked := LcpAckThenNak(), FirstLcp(magic).(ours := true, id := 2);
      && Live(magic, got) && Play(magic, got[..2]).client == InLcp(naked, 2)
      && Play(magic, got).client == InIpcp(naked.mru, FIRST_IPCP, 0)
  {
    var got, first := LcpAckThenNak(), FirstLcp(magic);
    Extends(got);
    LcpHears(magic, first, 0);
    Hears(magic, got[..0], got[0], InLcp(first.(ours := true), 1));
    LcpHears(magic, first.(ours := true), 1);
    Hears(magic, got[..1], got[1], InLcp(first.(ours := true, id := 2), 2));
    LcpHears(magic, first.(ours := true, id := 2), 2);
    Hears(magic, got[..2], got[2], InIpcp(first.mru, FIRST_IPCP, 0));
  }

  /** An Ack, then a Nak, then the peer's request: LCP opens on a request nobody acknowledged. */
  lemma OpensOnUnackedRequest(magic: Magic)
    ensures var got := LcpAckThenNak();
      var a := NextBid(magic, Play(magic, got[..2]).client, got[2]);
      && Live(magic, got) && Play(magic, got).client.InIpcp?
      && a.Some? && a.value.proto == PPP_LCP && a.value.id == 2 && a.value.ours && !RequestAcked(magic, got, a.value)
  {
    var got := LcpAckThenNak();
    LcpAckThenNakOpens(magic);
    Extends(got);
    PacketIsHeard(PPP_LCP, CONF_NAK, 1, []);
    PacketIsHeard(PPP_LCP, CONF_REQ, 1, []);
    assert got[..2][..1] == got[..1] && Live(magic, got[..2]);
    assert RefusedSinceAck(magic, got[..2], PPP_LCP);
    LastRequestAckedExactlyWhenNotRefused(magic, got[..2], got[2]);
  }

  function AddressOption(a: Ipv4): seq<Opt> { [Opt(IPCP_OPT_ADDR, a)] }

  /** Five packets: LCP opens, an Ack names `a`, a Nak names `b`, and the peer's own request ends the loop. */
  function AckThenNak(a: Ipv4, b: Ipv4): seq<Recv> {
    [Packet(PPP_LCP, CONF_ACK, 1, []), Packet(PPP_LCP, CONF_REQ, 1, []), Packet(PPP_IPCP, CONF_ACK, 1, AddressOption(a)),
     Packet(PPP_IPCP, CONF_NAK, 1, AddressOption(b)), Packet(PPP_IPCP, CONF_REQ, 1, [])]
  }

  function Acked(i: Ipcp, a: Ipv4): Ipcp { i.(ours := true, harvest := i.harvest.(address := Some(a))) }

  function Naked(i: Ipcp, a: Ipv4): Ipcp {
    i.(id := NextId(i.id), opts := AdoptAll(i.opts, AddressOption(a)), harvest := i.harvest.(address := Some(a)))
  }

  lemma IpcpHears(magic: Magic, mru: nat, i: Ipcp, a: Ipv4, rounds: nat)
    requires rounds < MAX_ROUNDS && !i.theirs && !IsUnspecified(a)
    ensures Proceed(magic, InIpcp(mru, i, rounds), Packet(PPP_IPCP, CONF_ACK, i.id, AddressOption(a))).0
         == InIpcp(mru, Acked(i, a), rounds + 1)
    ensures Proceed(magic, InIpcp(mru, i, rounds), Packet(PPP_IPCP, CONF_NAK, 1, AddressOption(a))).0
         == InIpcp(mru, Naked(i, a), rounds + 1)
    ensures i.ours ==>
      Proceed(magic, InIpcp(mru, i, rounds), Packet(PPP_IPCP, CONF_REQ, 1, [])).0 == Finish(magic, mru, i.(theirs := true))
  {
    AddressOptionRead(a, i.harvest);
    PacketIsHeard(PPP_IPCP, CONF_ACK, i.id, AddressOption(a));
    PacketIsHeard(PPP_IPCP, CONF_NAK, 1, AddressOption(a));
    PacketIsHeard(PPP_IPCP, CONF_REQ, 1, []);
  }

  /** The session then carries `b`, although the only Ack names `a`. */
  lemma SessionOnUnackedAddress(magic: Magic, a: Ipv4, b: Ipv4)
    requires !IsUnspecified(a) && !IsUnspecified(b) && a != b
    ensures var got := AckThenNak(a, b);
      && Live(magic, got)
      && Play(magic, got).client == Up(Session(b, None, [], DEFAULT_MRU, magic))
      && AckNamed(magic, got) == Some(a) && RefusedSinceAck(magic, got, PPP_IPCP)
  {
    var got := AckThenNak(a, b);
    AckThenNakPlays(magic, a, b);
    Extends(got);
    AddressOptionRead(a, Harvest(None, []));
    PacketIsHeard(PPP_IPCP, CONF_ACK, 1, AddressOption(a));
    PacketIsHeard(PPP_IPCP, CONF_NAK, 1, AddressOption(b));
    PacketIsHeard(PPP_IPCP, CONF_REQ, 1, []);
    AckedThenRefused(magic, got);
  }

  lemma LcpOpens(magic: Magic, got: seq<Recv>)
    requires |got| >= 2 && got[0] == Packet(PPP_LCP, CONF_ACK, 1, []) && got[1] == Packet(PPP_LCP, CONF_REQ, 1, [])
    ensures Live(magic, got[..2]) && Play(magic, got[..2]).client == InIpcp(DEFAULT_MRU, FIRST_IPCP, 0)
  {
    var first := FirstLcp(magic);
    Extends(got);
    LcpHears(magic, first, 0);
    Hears(magic, got[..0], got[0], InLcp(first.(ours := true), 1));
    LcpHears(magic, first.(ours := true), 1);
    Hears(magic, got[..1], got[1], InIpcp(first.mru, FIRST_IPCP, 0));
  }

  /** Further receives, each on the client the one before left. */
  lemma HearsAckThenNak(magic: Magic, got: seq<Recv>, mru: nat, a: Ipv4, b: Ipv4)
    requires Live(magic, got) && Play(magic, got).client == InIpcp(mru, FIRST_IPCP, 0)
    requires !IsUnspecified(a) && !IsUnspecified(b)
    ensures var heard := got + [Packet(PPP_IPCP, CONF_ACK, 1, AddressOption(a))];
      var more := heard + [Packet(PPP_IPCP, CONF_NAK, 1, AddressOption(b))];
      && Play(magic, heard).client.InIpcp?
      && Live(magic, more) && Play(magic, more).client == InIpcp(mru, Naked(Acked(FIRST_IPCP, a), b), 2)
  {
    var ack, nak := Packet(PPP_IPCP, CONF_ACK, 1, AddressOption(a)), Packet(PPP_IPCP, CONF_NAK, 1, AddressOption(b));
    IpcpHears(magic, mru, FIRST_IPCP, a, 0);
    Hears(magic, got, ack, InIpcp(mru, Acked(FIRST_IPCP, a), 1));
    IpcpHears(magic, mru, Acked(FIRST_IPCP, a), b, 1);
    Hears(magic, got + [ack], nak, InIpcp(mru, Naked(Acked(FIRST_IPCP, a), b), 2));
  }

  lemma HearsRequest(magic: Magic, got: seq<Recv>, mru: nat, i: Ipcp, b: Ipv4)
    requires Live(magic, got) && Play(magic, got).client == InIpcp(mru, i, 2)
    requires i.ours && !i.theirs && i.harvest == Harvest(Some(b), []) && i.peer.None? && !IsUnspecified(b)
    ensures var more := got + [Packet(PPP_IPCP, CONF_REQ, 1, [])];
      Live(magic, more) && Play(magic, more).client == Up(Session(b, None, [], mru, magic))
  {
    IpcpHears(magic, mru, i, b, 2);
    Hears(magic, got, Packet(PPP_IPCP, CONF_REQ, 1, []), Up(Session(b, None, [], mru, magic)));
  }

  lemma AckThenNakPlays(magic: Magic, a: Ipv4, b: Ipv4)
    requires !IsUnspecified(a) && !IsUnspecified(b)
    ensures var got := AckThenNak(a, b);
      && Live(magic, got) && Play(magic, got).client == Up(Session(b, None, [], DEFAULT_MRU, magic))
      && Play(magic, got[..2]).client == InIpcp(DEFAULT_MRU, FIRST_IPCP, 0)
      && Play(magic, got[..3]).client.InIpcp? && Play(magic, got[..4]).client.InIpcp?
  {
    var got := AckThenNak(a, b);
    Extends(got);
    LcpOpens(magic, got);
    HearsAckThenNak(magic, got[..2], DEFAULT_MRU, a, b);
    assert got[..3] == got[..2] + [got[2]] && got[..4] == got[..3] + [got[3]] && got == got[..4] + [got[4]];
    HearsRequest(magic, got[..4], DEFAULT_MRU, Naked(Acked(FIRST_IPCP, a), b), b);
  }

  lemma AddressOptionRead(a: Ipv4, h: Harvest)
    requires !IsUnspecified(a)
    ensures NamedIn(AddressOption(a)) == Some(a) && HarvestAll(h, AddressOption(a)) == h.(address := Some(a))
    ensures Expressible(AddressOption(a))
  {
    assert AddressOption(a)[1..] == [];
  }

  lemma AckedThenRefused(magic: Magic, got: seq<Recv>)
    requires |got| == 5
    requires Play(magic, got[..2]).client.InIpcp? && Play(magic, got[..3]).client.InIpcp? && Play(magic, got[..4]).client.InIpcp?
    requires IsAckOf(got[2], PPP_IPCP, Play(magic, got[..2]).client.i.id) && IsNak(got[3])
    requires Heard(got[4], PPP_IPCP).Some? && Heard(got[4], PPP_IPCP).value.code == CONF_REQ
    ensures AckNamed(magic, got) == NamedBy(got[2]) && RefusedSinceAck(magic, got, PPP_IPCP)
  {
    assert got[..5] == got && got[..4][..3] == got[..3] && got[..3][..2] == got[..2];
    assert AckNamed(magic, got[..3]) == NamedBy(got[2]);
    assert AckNamed(magic, got[..4]) == NamedBy(got[2]);
    assert RefusedSinceAck(magic, got[..4], PPP_IPCP);
  }
}
