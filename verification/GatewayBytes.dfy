/** The agreement, at the level of bytes: the bring-up over a stream, fed what the gateway sends in any split. */
module GatewayBytes {
  import opened Wire
  import opened StreamDecoding
  import opened Errors
  import opened Ppp
  import opened Negotiation
  import opened NegotiationSafety
  import opened PppIo
  import opened Gateway
  import G = GatewayAgreement
  import opened GatewayMoves
  import opened GatewayRuns
  import opened Arrivals
  import Forti

  // ---------------------------------------------------------------------------
  // What each side has taken off its channel
  // ---------------------------------------------------------------------------

  /** The client's packets the gateway has received, in order. */
  ghost function TakenIn(magic: Magic, t: Terms, net: Net, moves: seq<Move>): seq<Out>
    requires Possible(magic, t, net, moves)
    decreases |moves|
  {
    if moves == [] then []
    else
      (if moves[0].GatewayReceives? then [net.toGw[0]] else [])
      + TakenIn(magic, t, Next(magic, t, net, moves[0]), moves[1..])
  }

  function PlayOn(magic: Magic, p: Point, msgs: seq<FromGateway>): Point
    decreases |msgs|
  {
    if msgs == [] then p
    else
      var (c, out) := Proceed(magic, p.client, Deliver(msgs[0]));
      PlayOn(magic, Point(c, p.sent + out), msgs[1..])
  }

  /** The client is negotiating, with rounds to spare, whenever a message comes. */
  predicate Alive(magic: Magic, c: Client, msgs: seq<FromGateway>)
    decreases |msgs|
  {
    msgs == []
    || (c.Negotiating() && !c.Exhausted() && Alive(magic, Proceed(magic, c, Deliver(msgs[0])).0, msgs[1..]))
  }

  lemma HeardStep(magic: Magic, p: Point, m: FromGateway, later: seq<FromGateway>)
    ensures var (c, out) := Proceed(magic, p.client, Deliver(m));
      && PlayOn(magic, p, [m] + later) == PlayOn(magic, Point(c, p.sent + out), later)
      && (Alive(magic, p.client, [m] + later) <==>
            p.client.Negotiating() && !p.client.Exhausted() && Alive(magic, c, later))
  {
    assert ([m] + later)[1..] == later;
  }

  /** Whenever the client receives, neither of its loops is about to end by itself. */
  ghost predicate Lively(magic: Magic, t: Terms, net: Net, moves: seq<Move>)
    requires Possible(magic, t, net, moves)
    decreases |moves|
  {
    moves == []
    || ((moves[0].ClientReceives? ==> GoesOn(net.client)) && Lively(magic, t, Next(magic, t, net, moves[0]), moves[1..]))
  }

  lemma {:induction false} RunsAreLively(magic: Magic, t: Terms, net: Net, s: G.Stage, moves: seq<Move>)
    requires FairTerms(t) && G.Inv(t, net, s) && Possible(magic, t, net, moves)
    ensures Lively(magic, t, net, moves)
    decreases |moves|
  {
    if moves != [] {
      var s' := EveryMove(magic, t, net, s, moves[0]);
      if moves[0].ClientReceives? {
        InvGoesOn(t, net, s);
      }
      RunsAreLively(magic, t, Next(magic, t, net, moves[0]), s', moves[1..]);
    }
  }

  /**
   * Both channels are FIFO: the client's run is a play of what it heard, and
   * what it sent has been taken or is under way.
   */
  lemma {:induction false} RunIsPlay(magic: Magic, t: Terms, net: Net, moves: seq<Move>, taken: seq<Out>)
    requires Possible(magic, t, net, moves) && Lively(magic, t, net, moves)
    ensures var (end, heard) := (After(magic, t, net, moves), HeardIn(magic, t, net, moves));
      && PlayOn(magic, Point(net.client, taken + net.toGw), heard)
         == Point(end.client, (taken + TakenIn(magic, t, net, moves)) + end.toGw)
      && Alive(magic, net.client, heard)
    decreases |moves|
  {
    if moves == [] {
      assert taken + [] == taken;
    } else {
      var m, next := moves[0], Next(magic, t, net, moves[0]);
      var later := HeardIn(magic, t, next, moves[1..]);
      if m.GatewayReceives? {
        RunIsPlay(magic, t, next, moves[1..], taken + [net.toGw[0]]);
        assert (taken + [net.toGw[0]]) + next.toGw == taken + net.toGw;
        Assoc(taken, [net.toGw[0]], TakenIn(magic, t, next, moves[1..]));
        assert [] + later == later;
      } else {
        RunIsPlay(magic, t, next, moves[1..], taken);
        assert [] + TakenIn(magic, t, next, moves[1..]) == TakenIn(magic, t, next, moves[1..]);
        if m.ClientReceives? {
          HeardStep(magic, Point(net.client, taken + net.toGw), net.toClient[0], later);
          Assoc(taken, net.toGw, Proceed(magic, net.client, Deliver(net.toClient[0])).1);
        } else {
          assert [] + later == later;
        }
      }
    }
  }

  // ---------------------------------------------------------------------------
  // Messages as bytes
  // ---------------------------------------------------------------------------

  /** The envelope can describe the message, whether or not the client's decoder will take it. */
  predicate Framable(m: FromGateway) {
    FrameFrom(m).proto < 0x1_0000 && FrameFrom(m).proto != 0xFF03 && InEnvelope(|FrameFrom(m).payload|)
  }

  predicate AllFramable(msgs: seq<FromGateway>) {
    forall m :: m in msgs ==> Framable(m)
  }

  predicate AllShort(sent: seq<Out>) {
    forall o :: o in sent ==> InEnvelope(|o.payload|)
  }

  lemma LcpSendsExact(magic: Magic, l: Lcp, rounds: nat, r: Recv)
    requires Sound(l.opts) && |l.opts| <= 2 && CappedOne(r)
    ensures AllExact(Proceed(magic, InLcp(l, rounds), r).1)
  {
    LcpTurnsAreSafe(magic, l, r);
    FirstIpcpIsSound();
    RequestIsExact(PPP_IPCP, FIRST_IPCP.id, FIRST_IPCP.opts);
    ExactTogether(LcpTurn(magic, l, r).sent, [IpcpRequest(FIRST_IPCP)]);
  }

  lemma IpcpSendsExact(magic: Magic, mru: nat, i: Ipcp, rounds: nat, r: Recv)
    requires Sound(i.opts) && GoodHarvest(i.harvest) && CappedOne(r)
    ensures AllExact(Proceed(magic, InIpcp(mru, i, rounds), r).1)
  {
    IpcpTurnsAreSafe(magic, i, r);
  }

  lemma ExactIsShort(sent: seq<Out>)
    requires AllExact(sent)
    ensures AllShort(sent)
  {
    forall o | o in sent
      ensures InEnvelope(|o.payload|)
    {
      assert Exact(o);
    }
  }

  lemma InvIsSound(t: Terms, net: Net, s: G.Stage)
    requires G.Inv(t, net, s) && net.client.Negotiating()
    ensures net.client.InLcp? ==> Sound(net.client.l.opts) && |net.client.l.opts| <= 2
    ensures net.client.InIpcp? ==> Sound(net.client.i.opts) && GoodHarvest(net.client.i.harvest)
  {
    FirstIpcpIsSound();
  }

  lemma ClientSendsShort(magic: Magic, t: Terms, net: Net, s: G.Stage)
    requires G.Inv(t, net, s) && Enabled(net, ClientReceives) && Framable(net.toClient[0])
    ensures AllShort(Proceed(magic, net.client, Deliver(net.toClient[0])).1)
  {
    var r := Deliver(net.toClient[0]);
    InvIsSound(t, net, s);
    if net.client.InLcp? {
      LcpSendsExact(magic, net.client.l, net.client.rounds, r);
    } else {
      IpcpSendsExact(magic, net.client.mru, net.client.i, net.client.rounds, r);
    }
    ExactIsShort(Proceed(magic, net.client, r).1);
  }

  lemma GatewaySendsFramable(t: Terms, net: Net, a: Answer)
    requires FairTerms(t) && Enabled(net, GatewayReceives(a)) && InEnvelope(|net.toGw[0].payload|)
    ensures AllFramable(GatewayStep(t, net.gw, net.toGw[0], a).1)
  {
    var parsed := ParseCp(net.toGw[0].payload);
    OfferIsFramable(t, net.gw.lcpAt + 1);
    if parsed.Ok? && a.Ack? {
      RebuildIsPrefix(parsed.value.data);
    }
  }

  lemma OfferIsFramable(t: Terms, k: nat)
    requires FairTerms(t)
    ensures Framable(LcpOffer(t, k)) && Framable(IpcpOffer(t))
  {
    if k < |t.lcp| {
      assert ProposalAt(t, k) in t.lcp;
    }
  }

  lemma MoveKeepsFramable(magic: Magic, t: Terms, net: Net, s: G.Stage, m: Move)
    requires FairTerms(t) && G.Inv(t, net, s) && Enabled(net, m) && AllFramable(net.toClient) && AllShort(net.toGw)
    ensures AllFramable(Next(magic, t, net, m).toClient) && AllShort(Next(magic, t, net, m).toGw)
  {
    match m
    case ClientReceives => ClientSendsShort(magic, t, net, s);
    case GatewayReceives(a) => GatewaySendsFramable(t, net, a);
    case _ => OfferIsFramable(t, net.gw.lcpAt);
  }

  lemma {:induction false} HeardIsFramable(magic: Magic, t: Terms, net: Net, s: G.Stage, moves: seq<Move>)
    requires FairTerms(t) && G.Inv(t, net, s) && Possible(magic, t, net, moves)
    requires AllFramable(net.toClient) && AllShort(net.toGw)
    ensures AllFramable(HeardIn(magic, t, net, moves))
    decreases |moves|
  {
    if moves != [] {
      var s' := EveryMove(magic, t, net, s, moves[0]);
      MoveKeepsFramable(magic, t, net, s, moves[0]);
      HeardIsFramable(magic, t, Next(magic, t, net, moves[0]), s', moves[1..]);
    }
  }

  function OnWire(m: FromGateway): Bytes {
    EncodePpp(AsU16(FrameFrom(m).proto), FrameFrom(m).payload)
  }

  function AllOnWire(msgs: seq<FromGateway>): Bytes {
    if msgs == [] then [] else OnWire(msgs[0]) + AllOnWire(msgs[1..])
  }

  /** Every read brings at least one byte. */
  predicate Flowing(script: seq<Read>) {
    forall k :: 0 <= k < |script| ==> script[k].Arrived? && script[k].data != []
  }

  /** All the client has yet to decode. */
  function Stream(io: Inbox): Bytes { io.buf + Delivered(io.script) }

  lemma LongFrameIsRefused(proto: nat, payload: Bytes)
    requires proto < 0x1_0000 && InEnvelope(|payload|) && |payload| + 2 > Forti.MAX_BODY
    ensures Ppp.Decode(EncodePpp(proto, payload)) == Malformed(Protocol(FrameTooLong))
  {
    Forti.TooLongIsRefused(Be16(proto) + payload);
  }

  lemma ThirdByteIsMagic(proto: nat, payload: Bytes)
    requires proto < 0x1_0000
    ensures |EncodePpp(proto, payload)| == |payload| + 8 && EncodePpp(proto, payload)[2] == 0x50
  {
    Forti.HeaderBack(2 + |payload|, Be16(proto) + payload);
  }

  lemma FrameOrError(proto: nat, payload: Bytes)
    requires proto < 0x1_0000 && proto != 0xFF03 && InEnvelope(|payload|)
    ensures Ppp.Decode(EncodePpp(proto, payload))
         == if |payload| + 2 <= Forti.MAX_BODY then Frame(PppFrame(proto, payload), |EncodePpp(proto, payload)|)
            else Malformed(Protocol(FrameTooLong))
  {
    if |payload| + 2 <= Forti.MAX_BODY {
      FrameBack(proto, payload);
    } else {
      LongFrameIsRefused(proto, payload);
    }
  }

  lemma Undisturbed(frame: Bytes, later: Bytes)
    requires !Ppp.Decode(frame).NeedMore?
    ensures Ppp.Decode(frame + later) == Ppp.Decode(frame) && (frame + later)[|frame|..] == later
  {
    Ppp.StableOn(frame, later);
  }

  /** A framed message decodes to itself if it fits, and to an error if it does not. */
  lemma WireDecodes(m: FromGateway, later: Bytes)
    requires Framable(m)
    ensures Ppp.Decode(OnWire(m) + later)
         == if Fits(m) then Frame(FrameFrom(m), |OnWire(m)|) else Malformed(Protocol(FrameTooLong))
    ensures |OnWire(m)| >= 8 && OnWire(m)[2] == 0x50
    ensures (OnWire(m) + later)[|OnWire(m)|..] == later
  {
    var proto, payload := FrameFrom(m).proto, FrameFrom(m).payload;
    FitsTheField(proto);
    assert FrameFrom(m) == PppFrame(proto, payload) && OnWire(m) == EncodePpp(proto, payload);
    ThirdByteIsMagic(proto, payload);
    FrameOrError(proto, payload);
    Undisturbed(EncodePpp(proto, payload), later);
  }

  /** What `Poll` makes of a buffer that begins a framed message. */
  lemma PollOnWire(io: Inbox, m: FromGateway, later: Bytes)
    requires Framable(m) && Stream(io) == OnWire(m) + later
    ensures var (decided, now) := Poll(io);
      && (decided.None? ==> now.script == io.script && now.buf == io.buf && |io.buf| < |OnWire(m)|)
      && (decided.Some? ==> decided.value == Deliver(m))
      && (decided.Some? && Fits(m) ==> now.script == io.script && now.settled && Stream(now) == later)
  {
    WireDecodes(m, later);
    assert Stream(io)[..|io.buf|] == io.buf;
    if |io.buf| >= 5 {
      assert io.buf[2] == Stream(io)[2] == OnWire(m)[2] == 0x50;
      assert io.buf[..5][2] == 0x50;
    }
    if |io.buf| >= |OnWire(m)| {
      assert io.buf == OnWire(m) + io.buf[|OnWire(m)|..];
      WireDecodes(m, io.buf[|OnWire(m)|..]);
    }
    if !Ppp.Decode(io.buf).NeedMore? {
      Ppp.StableOn(io.buf, Delivered(io.script));
      if Fits(m) {
        DropFromFront(io.buf, Delivered(io.script), |OnWire(m)|);
      }
    }
  }

  /** When the buffer decides nothing, there is more to read, and reading loses nothing. */
  lemma ReadOn(io: Inbox, m: FromGateway, later: Bytes)
    requires Framable(m) && Flowing(io.script) && Stream(io) == OnWire(m) + later && Poll(io).0.None?
    ensures var now := Poll(io).1;
      && now.script == io.script != [] && io.script[0].Arrived?
      && Receive(io) == Receive(Fed(now)) && Stream(Fed(now)) == Stream(io) && Flowing(Fed(now).script)
  {
    PollOnWire(io, m, later);
    assert io.script != [];
    ReceiveUnfolds(io);
    Assoc(io.buf, io.script[0].data, Delivered(io.script[1..]));
  }

  /** The next receive returns the next message or its error, however the bytes are spread over the reads. */
  lemma {:induction false} ReceiveNext(io: Inbox, m: FromGateway, later: Bytes)
    requires Framable(m) && Flowing(io.script) && Stream(io) == OnWire(m) + later
    ensures var (r, next) := Receive(io);
      r == Deliver(m) && (Fits(m) ==> next.settled && Flowing(next.script) && Stream(next) == later)
    decreases |io.script|
  {
    var (decided, now) := Poll(io);
    if decided.None? {
      ReadOn(io, m, later);
      ReceiveNext(Fed(now), m, later);
    } else {
      PollOnWire(io, m, later);
    }
  }

  // ---------------------------------------------------------------------------
  // The bring-up follows the play
  // ---------------------------------------------------------------------------

  lemma LastWhenTooLong(magic: Magic, c: Client, m: FromGateway, later: seq<FromGateway>)
    requires Alive(magic, c, [m] + later) && !Fits(m)
    ensures later == [] && Proceed(magic, c, Deliver(m)) == (Down(Protocol(FrameTooLong)), [])
  {
    assert ([m] + later)[1..] == later;
  }

  lemma {:induction false} DriveFollows(magic: Magic, clock: Clock, run: Run, msgs: seq<FromGateway>, later: Bytes)
    requires AllFramable(msgs) && Flowing(run.io.script) && Stream(run.io) == AllOnWire(msgs) + later
    requires Alive(magic, run.client, msgs)
    requires !PlayOn(magic, Point(run.client, run.sent), msgs).client.Negotiating()
    requires clock.lcpRounds >= MAX_ROUNDS && clock.ipcpRounds >= MAX_ROUNDS
    ensures var end := Drive(magic, clock, run);
      && Point(end.client, end.sent) == PlayOn(magic, Point(run.client, run.sent), msgs)
      && (AllFit(msgs) ==> Stream(end.io) == later)
    decreases |msgs|
  {
    if msgs == [] {
      assert [] + later == later;
    } else {
      var m, rest := msgs[0], msgs[1..];
      assert msgs == [m] + rest;
      assert Framable(m) && AllFramable(rest);
      Assoc(OnWire(m), AllOnWire(rest), later);
      ReceiveNext(run.io, m, AllOnWire(rest) + later);
      DrivesOn(magic, clock, run);
      if Fits(m) {
        DriveFollows(magic, clock, Pass(magic, run), rest, later);
      } else {
        LastWhenTooLong(magic, run.client, m, rest);
      }
    }
  }

  /**
   * Take any run of client and gateway after which the client has ended its
   * negotiation. Feed the bring-up the bytes of the messages it received, split
   * into reads in any way and followed by anything: it ends in the same way and
   * has sent exactly the packets the gateway took or still has coming. It
   * succeeds if and only if every message fits the client's own cap; then both
   * sides agree and the bytes behind the last message are still there.
   */
  lemma BringUpAgrees(magic: Magic, t: Terms, lcpRefusals: nat, ipcpRefusals: nat, extras: nat, moves: seq<Move>,
                      clock: Clock, prime: Bytes, script: seq<Read>, later: Bytes)
    requires FairTerms(t) && FairBudget(t, lcpRefusals, ipcpRefusals, extras)
    requires Possible(magic, t, Initial(magic, lcpRefusals, ipcpRefusals, extras), moves)
    requires !After(magic, t, Initial(magic, lcpRefusals, ipcpRefusals, extras), moves).client.Negotiating()
    requires var heard := HeardIn(magic, t, Initial(magic, lcpRefusals, ipcpRefusals, extras), moves);
      prime + Delivered(script) == AllOnWire(heard) + later
    requires Flowing(script) && clock.lcpRounds >= MAX_ROUNDS && clock.ipcpRounds >= MAX_ROUNDS
    ensures var first := Initial(magic, lcpRefusals, ipcpRefusals, extras);
      var net, end := After(magic, t, first, moves), Drive(magic, clock, Start(magic, Inbox(prime, false, script)));
      var heard := HeardIn(magic, t, first, moves);
      && end.client == net.client && end.sent == TakenIn(magic, t, first, moves) + net.toGw
      && (end.client.Up? <==> AllFit(heard))
      && (end.client.Up? ==> G.Agreed(t, end.client.session, net.gw) && Stream(end.io) == later)
      && (!end.client.Up? ==> end.client == Down(Protocol(FrameTooLong)))
  {
    var first := Initial(magic, lcpRefusals, ipcpRefusals, extras);
    var heard := HeardIn(magic, t, first, moves);
    StartsRight(magic, t, lcpRefusals, ipcpRefusals, extras);
    StartsShort(magic, lcpRefusals, ipcpRefusals, extras);
    HeardIsFramable(magic, t, first, G.LcpStage(G.Asked, G.Unsent), moves);
    RunsAreLively(magic, t, first, G.LcpStage(G.Asked, G.Unsent), moves);
    RunIsPlay(magic, t, first, moves, []);
    assert [] + first.toGw == first.toGw;
    assert [] + TakenIn(magic, t, first, moves) == TakenIn(magic, t, first, moves);
    DriveFollows(magic, clock, Start(magic, Inbox(prime, false, script)), heard, later);
    EveryRunAgrees(magic, t, lcpRefusals, ipcpRefusals, extras, moves);
  }

  lemma StartsShort(magic: Magic, lcpRefusals: nat, ipcpRefusals: nat, extras: nat)
    ensures AllShort(Initial(magic, lcpRefusals, ipcpRefusals, extras).toGw)
  {
    BuiltLength(FirstLcp(magic).opts);
  }

  /** Whatever has happened so far, the run can be completed: the client ends up, or down on a message over its cap. */
  lemma EveryRunCanFinish(magic: Magic, t: Terms, lcpRefusals: nat, ipcpRefusals: nat, extras: nat, moves: seq<Move>)
    returns (more: seq<Move>)
    requires FairTerms(t) && FairBudget(t, lcpRefusals, ipcpRefusals, extras)
    requires Possible(magic, t, Initial(magic, lcpRefusals, ipcpRefusals, extras), moves)
    ensures var net := After(magic, t, Initial(magic, lcpRefusals, ipcpRefusals, extras), moves);
      && Possible(magic, t, net, more)
      && var c := After(magic, t, net, more).client; c.Up? || c == Down(Protocol(FrameTooLong))
  {
    var first := Initial(magic, lcpRefusals, ipcpRefusals, extras);
    var net := After(magic, t, first, moves);
    StartsRight(magic, t, lcpRefusals, ipcpRefusals, extras);
    var s := RunKeepsInv(magic, t, first, G.LcpStage(G.Asked, G.Unsent), moves);
    more := CanFinish(magic, t, net, s);
    var s' := RunKeepsInv(magic, t, net, s, more);
  }
}
