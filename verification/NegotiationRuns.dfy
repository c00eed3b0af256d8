/** What a whole negotiation guarantees against an arbitrary peer, and what its answers to LCP requests say. */
module NegotiationRuns {
  import opened Wire
  import opened Errors
  import opened Ppp
  import opened Negotiation
  import opened PppIo
  import opened Arrivals
  import opened NegotiationSafety

  // ---------------------------------------------------------------------------
  // A negotiation over a byte stream is a run of the step machine
  // ---------------------------------------------------------------------------

  lemma {:induction false} ReceivedIsCapped(io: Inbox)
    ensures CappedOne(Receive(io).0)
    decreases |io.script|
  {
    var (decided, now) := Poll(io);
    DecodedFrameIsSmall(io.buf);
    if !io.settled && StripPrologue(io.buf).Settled? {
      DecodedFrameIsSmall(StripPrologue(io.buf).rest);
    }
    if decided.None? && now.script != [] && now.script[0].Arrived? && now.script[0].data != [] {
      var later := now.(script := now.script[1..]);
      ReceivedIsCapped(later.(buf := later.buf + now.script[0].data));
    }
  }

  function StagedAll(got: seq<Recv>): Bytes {
    if got == [] then [] else StagedAll(got[..|got| - 1]) + Staged(got[|got| - 1])
  }

  /** How many of these receives happened in the LCP loop, and how many in the IPCP loop. */
  function Receives(magic: Magic, got: seq<Recv>): (nat, nat) {
    if got == [] then (0, 0)
    else
      var before := got[..|got| - 1];
      var (lcp, ipcp) := Receives(magic, before);
      match Play(magic, before).client
      case InLcp(_, _) => (lcp + 1, ipcp)
      case InIpcp(_, _, _) => (lcp, ipcp + 1)
      case _ => (lcp, ipcp)
  }

  lemma LiveMore(magic: Magic, got: seq<Recv>, r: Recv)
    requires Live(magic, got) && Play(magic, got).client.Negotiating() && !Play(magic, got).client.Exhausted()
    ensures Live(magic, got + [r])
  {
    var more := got + [r];
    forall k | 0 <= k < |more|
      ensures Play(magic, more[..k]).client.Negotiating() && !Play(magic, more[..k]).client.Exhausted()
    {
      assert more[..k] == got[..k];
      assert got[..|got|] == got;
    }
  }

  lemma LiveBefore(magic: Magic, got: seq<Recv>)
    requires got != [] && Live(magic, got)
    ensures var before := got[..|got| - 1];
      Live(magic, before) && Play(magic, before).client.Negotiating() && !Play(magic, before).client.Exhausted()
  {
    var before := got[..|got| - 1];
    assert forall k :: 0 <= k < |before| ==> before[..k] == got[..k];
  }

  /** The round counters count receives, so neither loop receives more than 40 times. */
  lemma {:induction false} RoundsCountReceives(magic: Magic, got: seq<Recv>)
    requires Live(magic, got)
    ensures Receives(magic, got).0 <= MAX_ROUNDS && Receives(magic, got).1 <= MAX_ROUNDS
    ensures |got| == Receives(magic, got).0 + Receives(magic, got).1
    ensures match Play(magic, got).client
            case InLcp(_, rounds) => Receives(magic, got) == (rounds, 0)
            case InIpcp(_, _, rounds) => Receives(magic, got).1 == rounds
            case _ => true
    decreases |got|
  {
    if got != [] {
      LiveBefore(magic, got);
      RoundsCountReceives(magic, got[..|got| - 1]);
    }
  }

  lemma PassPlays(magic: Magic, run: Run, before: seq<Recv>)
    requires Play(magic, before) == Point(run.client, run.sent) && run.early == StagedAll(before)
    requires Live(magic, before) && Capped(before)
    requires run.client.Negotiating() && !run.client.Exhausted()
    ensures var got, after := before + [Receive(run.io).0], Pass(magic, run);
      && Play(magic, got) == Point(after.client, after.sent) && after.early == StagedAll(got)
      && Live(magic, got) && Capped(got)
  {
    var r := Receive(run.io).0;
    ReceivedIsCapped(run.io);
    PlayMore(magic, before, r);
    LiveMore(magic, before, r);
    assert (before + [r])[..|before|] == before;
  }

  /** These receives lead to this point of the run, and their frames are what has been taken off `all`. */
  ghost predicate Tracks(magic: Magic, run: Run, got: seq<Recv>, all: Bytes) {
    && Play(magic, got) == Point(run.client, run.sent) && run.early == StagedAll(got)
    && Live(magic, got) && Capped(got)
    && Accounted(all, FramesOf(got), run.io)
  }

  /** How a run ends at this client: running out of time is the one end no receive decides. */
  function EndOf(c: Client): Client {
    if c.Negotiating() then Down(Protocol(NotConverged)) else c
  }

  /** These receives lead to the end of the run, and their frames came off `all` in this order. */
  ghost predicate TracksEnd(magic: Magic, clock: Clock, end: Run, got: seq<Recv>, all: Bytes) {
    var p := Play(magic, got);
    && Live(magic, got) && Capped(got)
    && end.client == EndOf(p.client) && end.sent == p.sent && end.early == StagedAll(got)
    && (p.client.Negotiating() ==> TimeIsUp(clock, p.client))
    && CameIn(all, FramesOf(got))
    && (end.client.Up? ==> Accounted(all, FramesOf(got), end.io))
  }

  lemma DriveStops(magic: Magic, clock: Clock, run: Run, got: seq<Recv>, all: Bytes)
    requires Tracks(magic, run, got, all) && (!run.client.Negotiating() || TimeIsUp(clock, run.client))
    ensures TracksEnd(magic, clock, Drive(magic, clock, run), got, all)
    ensures Drive(magic, clock, run).io == run.io
  {
    AccountedCameIn(all, FramesOf(got), run.io);
  }

  lemma PassTracks(magic: Magic, run: Run, got: seq<Recv>, all: Bytes) returns (used: seq<Read>)
    requires Tracks(magic, run, got, all)
    requires run.client.Negotiating() && !run.client.Exhausted() && !Receive(run.io).0.Lost?
    ensures run.io.script == used + Pass(magic, run).io.script
    ensures Tracks(magic, Pass(magic, run), got + [Receive(run.io).0], all + Delivered(used))
  {
    var r := Receive(run.io).0;
    PassPlays(magic, run, got);
    assert (got + [r])[..|got|] == got;
    used := ReceiveAccounts(all, FramesOf(got), run.io);
  }

  lemma LostIsDown(magic: Magic, run: Run)
    requires run.client.Negotiating() && !run.client.Exhausted() && Receive(run.io).0.Lost?
    ensures Pass(magic, run).client.Down?
  {
  }

  /** A receive that fails is the last, and brings no frame. */
  lemma LastPassTracks(magic: Magic, clock: Clock, run: Run, got: seq<Recv>, all: Bytes) returns (used: seq<Read>)
    requires Tracks(magic, run, got, all) && Receive(run.io).0.Lost?
    requires run.client.Negotiating() && !TimeIsUp(clock, run.client)
    ensures run.io.script == used + Drive(magic, clock, run).io.script
    ensures TracksEnd(magic, clock, Drive(magic, clock, run), got + [Receive(run.io).0], all + Delivered(used))
  {
    var r := Receive(run.io).0;
    PassPlays(magic, run, got);
    LostIsDown(magic, run);
    DrivesOn(magic, clock, run);
    assert (got + [r])[..|got|] == got && FramesOf(got) + [] == FramesOf(got);
    used := ReceiveReads(run.io);
    AccountedCameIn(all, FramesOf(got), run.io);
    CameInStays(all, FramesOf(got), Delivered(used));
  }

  lemma NextRound(magic: Magic, clock: Clock, run: Run)
    requires run.client.Negotiating() && !TimeIsUp(clock, run.client)
    ensures Drive(magic, clock, Pass(magic, run)) == Drive(magic, clock, run)
    ensures RoundsLeft(Pass(magic, run).client) < RoundsLeft(run.client)
  {
    DrivesOn(magic, clock, run);
  }

  /** Reading on: what was used first, then what the rest of the run used. */
  lemma UsedInTurn(all: Bytes, first: seq<Read>, more: seq<Read>, rest: seq<Read>)
    ensures all + Delivered(first) + Delivered(more) == all + Delivered(first + more)
    ensures first + (more + rest) == first + more + rest
  {
    DeliveredConcat(first, more);
    Assoc(all, Delivered(first), Delivered(more));
  }

  lemma {:induction false} DriveAccounts(magic: Magic, clock: Clock, run: Run, before: seq<Recv>, all: Bytes)
    returns (got: seq<Recv>, used: seq<Read>)
    requires Tracks(magic, run, before, all)
    ensures TracksEnd(magic, clock, Drive(magic, clock, run), got, all + Delivered(used))
    ensures run.io.script == used + Drive(magic, clock, run).io.script
    decreases RoundsLeft(run.client)
  {
    if !run.client.Negotiating() || TimeIsUp(clock, run.client) {
      DriveStops(magic, clock, run, before, all);
      got, used := before, [];
      assert all + Delivered([]) == all;
    } else if Receive(run.io).0.Lost? {
      used := LastPassTracks(magic, clock, run, before, all);
      got := before + [Receive(run.io).0];
    } else {
      NextRound(magic, clock, run);
      var first := PassTracks(magic, run, before, all);
      var more;
      got, more := DriveAccounts(magic, clock, Pass(magic, run), before + [Receive(run.io).0], all + Delivered(first));
      UsedInTurn(all, first, more, Drive(magic, clock, run).io.script);
      used := first + more;
    }
  }

  /**
   * Against any peer and under any timing the negotiation ends, after at most
   * 40 receives in each loop, where these receives lead; their frames are the
   * first whole frames behind the prologue of the bytes read. Every state on the
   * way is safe (ids within 1..41, option lists sound, every cast exact), and
   * success means that both sides acknowledged in both protocols and that the
   * session is usable.
   */
  lemma AnyPeer(magic: Magic, clock: Clock, prime: Bytes, script: seq<Read>) returns (got: seq<Recv>, used: seq<Read>)
    ensures Live(magic, got) && Capped(got) && Safe(magic, got)
    ensures Receives(magic, got).0 <= MAX_ROUNDS && Receives(magic, got).1 <= MAX_ROUNDS
    ensures var end := Drive(magic, clock, Start(magic, Inbox(prime, false, script)));
      && script == used + end.io.script && CameIn(prime + Delivered(used), FramesOf(got))
      && end.client == EndOf(Play(magic, got).client) && end.early == StagedAll(got)
      && end.sent == Play(magic, got).sent && AllExact(end.sent)
      && (end.client.Up? ==> SafeUp(magic, got, end.client.session))
  {
    got, used := DriveAccounts(magic, clock, Start(magic, Inbox(prime, false, script)), [], prime);
    RoundsCountReceives(magic, got);
    EveryRunIsSafe(magic, got);
  }

  // ---------------------------------------------------------------------------
  // Rejects
  // ---------------------------------------------------------------------------

  ghost predicate IsSublist(a: seq<Opt>, b: seq<Opt>) {
    if a == [] then true
    else if b == [] then false
    else if a[0] == b[0] && IsSublist(a[1..], b[1..]) then true
    else IsSublist(a, b[1..])
  }

  lemma {:induction false} UnknownIsSublist(opts: seq<Opt>)
    ensures IsSublist(UnknownLcp(opts), opts)
    ensures forall o :: multiset(UnknownLcp(opts))[o] == if IsKnownLcp(o) then 0 else multiset(opts)[o]
  {
    if opts != [] {
      UnknownIsSublist(opts[1..]);
      assert opts == [opts[0]] + opts[1..];
      var later := UnknownLcp(opts[1..]);
      if IsKnownLcp(opts[0]) {
        assert UnknownLcp(opts) == later;
      } else {
        assert UnknownLcp(opts)[1..] == later;
      }
    }
  }

  lemma {:induction false} UnknownAre(opts: seq<Opt>)
    ensures forall o :: o in UnknownLcp(opts) <==> o in opts && !IsKnownLcp(o)
  {
    if opts != [] {
      UnknownAre(opts[1..]);
      assert forall o :: o in opts <==> o == opts[0] || o in opts[1..];
    }
  }

  /** A request with unknown options, heard in the LCP loop. */
  lemma RefusedInLcp(magic: Magic, l: Lcp, pkt: CpPacket)
    requires pkt.code == CONF_REQ && exists o :: o in ParseOptions(pkt.data) && !IsKnownLcp(o)
    ensures LcpPacket(magic, l, pkt)
         == if HasType(ParseOptions(pkt.data), LCP_OPT_AUTH) then Stop(AuthFailed, []) else Go(l, [Rejection(pkt)])
    ensures ParseOptions(BuildOptions(UnknownLcp(ParseOptions(pkt.data)))) == UnknownLcp(ParseOptions(pkt.data))
  {
    var opts := ParseOptions(pkt.data);
    UnknownAre(opts);
    var odd :| odd in opts && !IsKnownLcp(odd);
    assert odd in UnknownLcp(opts);
    ParsedIsExpressible(pkt.data);
    OptionsRoundTrip(UnknownLcp(opts));
  }

  function Rejection(pkt: CpPacket): Out {
    Reply(PPP_LCP, CONF_REJ, pkt.id, BuildOptions(UnknownLcp(ParseOptions(pkt.data))))
  }

  /**
   * A refused LCP request gets a Reject with its own id that parses to exactly
   * its unknown options, every copy of them, in order (RFC 1661 section 5.4);
   * the request stays unacknowledged.
   */
  lemma RejectIsExact(magic: Magic, l: Lcp, pkt: CpPacket)
    requires pkt.code == CONF_REQ && !HasType(ParseOptions(pkt.data), LCP_OPT_AUTH)
    requires exists o :: o in ParseOptions(pkt.data) && !IsKnownLcp(o)
    ensures exists data: Bytes ::
      && LcpPacket(magic, l, pkt) == Go(l, [Reply(PPP_LCP, CONF_REJ, pkt.id, data)])
      && RejectsUnknownOf(ParseOptions(pkt.data), ParseOptions(data))
  {
    var opts := ParseOptions(pkt.data);
    RefusedInLcp(magic, l, pkt);
    UnknownIsSublist(opts);
    var data := BuildOptions(UnknownLcp(opts));
    assert RejectsUnknownOf(opts, ParseOptions(data));
  }

  /** The unknown options, each as often as it was asked for, in the same order. */
  ghost predicate RejectsUnknownOf(opts: seq<Opt>, rejected: seq<Opt>) {
    && IsSublist(rejected, opts)
    && forall o :: multiset(rejected)[o] == if IsKnownLcp(o) then 0 else multiset(opts)[o]
  }

  /**
   * A request with options the client does not know, the authentication option
   * included, is acknowledged if and only if it arrives once LCP is up: the IPCP
   * loop no longer looks at what it asks for.
   */
  lemma UnknownOptionsAckedExactlyWhenLate(magic: Magic, c: Client, r: Recv, pkt: CpPacket)
    requires HeardIs(r, PPP_LCP, pkt) && pkt.code == CONF_REQ
    requires exists o :: o in ParseOptions(pkt.data) && !IsKnownLcp(o)
    ensures Reply(PPP_LCP, CONF_ACK, pkt.id, pkt.data) in Proceed(magic, c, r).1 <==> c.InIpcp? && !c.Exhausted()
  {
    var ack := Reply(PPP_LCP, CONF_ACK, pkt.id, pkt.data);
    if c.InLcp? {
      RefusedInLcp(magic, c.l, pkt);
      var rej := Rejection(pkt);
      assert ack.payload[0] == CONF_ACK && rej.payload[0] == CONF_REJ;
      assert LcpTurn(magic, c.l, r) == LcpPacket(magic, c.l, pkt);
      assert ack !in LcpTurn(magic, c.l, r).sent && ack != IpcpRequest(FIRST_IPCP);
    } else if c.InIpcp? {
      assert IpcpTurn(magic, c.i, r) == Go(c.i, [ack]);
    }
  }
}
