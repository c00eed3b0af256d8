/** What the forwarding loop guarantees over every run. */
module ForwardingRuns {
  import opened Wire
  import opened Errors
  import opened StreamDecoding
  import opened Framers
  import opened Forwarding

  // ---------------------------------------------------------------------------
  // Inbound: every complete frame of the stream, once, in order
  // ---------------------------------------------------------------------------

  /** What the TLS stream has delivered. */
  function Received(wakes: seq<Wake>): Bytes {
    if wakes == [] then []
    else
      var w := wakes[|wakes| - 1];
      Received(wakes[..|wakes| - 1]) + if w.TlsRead? then w.data else []
  }

  ghost predicate Running(f: Framer, prime: Bytes, wakes: seq<Wake>) {
    Run(f, prime, wakes).exit.None?
  }

  /** One read of a whole stream behind `prime`: nothing is decoded before the first byte of it. */
  ghost function DecodedBy(decode: Decoder, prime: Bytes, received: Bytes): Drained<FrameEvent, VpnError>
    requires PrefixStable(decode)
  {
    if received == [] then Drained([], Pending(prime)) else Drain(decode, prime + received)
  }

  /** The frames of the whole stream so far: none before the first read, prime or not. */
  ghost function Decoded(f: Framer, prime: Bytes, wakes: seq<Wake>): Drained<FrameEvent, VpnError> {
    FramerIsStable(f);
    DecodedBy(DecoderOf(f), prime, Received(wakes))
  }

  lemma OneDrained(decode: Decoder, s: Loop, failAt: Option<nat>)
    requires Consumes(decode) && decode(s.inbound).Frame? && DrainInbound(decode, s, failAt).exit.None?
    requires s.exit.None?
    ensures var event, n := decode(s.inbound).event, decode(s.inbound).used;
      && n <= |s.inbound| && !event.Disconnect?
      && DrainInbound(decode, s, failAt)
           == DrainInbound(decode, AfterFrame(s, event, n), if Writes(event) then OneLess(failAt) else failAt)
  {
  }

  lemma DataBehind(written: seq<Bytes>, event: FrameEvent, later: seq<FrameEvent>)
    ensures (if event.Data? then written + [event.payload] else written) + DataOf(later)
         == written + DataOf([event] + later)
  {
    DataOfCons(event, later);
    if event.Data? {
      assert written + [event.payload] + DataOf(later) == written + ([event.payload] + DataOf(later));
    } else {
      assert [] + DataOf(later) == DataOf(later);
    }
  }

  /** Where draining a buffer leaves the loop, when it does not leave the loop. */
  lemma {:induction false} DrainMatches(decode: Decoder, s: Loop, failAt: Option<nat>)
    requires Consumes(decode) && s.exit.None? && DrainInbound(decode, s, failAt).exit.None?
    ensures var d, t := Drain(decode, s.inbound), DrainInbound(decode, s, failAt);
      && d.tail == Pending(t.inbound)
      && t.toTun == s.toTun + DataOf(d.events)
      && t.missed == (if d.events == [] then s.missed else 0)
    decreases |s.inbound|
  {
    var step := decode(s.inbound);
    if step.Frame? {
      OneDrained(decode, s, failAt);
      var next := AfterFrame(s, step.event, step.used);
      DrainOne(decode, s.inbound);
      DrainMatches(decode, next, if Writes(step.event) then OneLess(failAt) else failAt);
      DataBehind(s.toTun, step.event, Drain(decode, next.inbound).events);
    } else {
      assert s.toTun + [] == s.toTun;
    }
  }

  lemma RunMore(f: Framer, prime: Bytes, wakes: seq<Wake>, w: Wake)
    requires Running(f, prime, wakes)
    ensures Run(f, prime, wakes + [w]) == OnWake(f, Run(f, prime, wakes), w)
    ensures Received(wakes + [w]) == Received(wakes) + if w.TlsRead? then w.data else []
  {
    assert (wakes + [w])[..|wakes|] == wakes;
  }

  /** While the loop runs, its buffer and its TUN output are those of one read of the whole stream. */
  ghost predicate InboundMatches(f: Framer, prime: Bytes, wakes: seq<Wake>) {
    var s, d := Run(f, prime, wakes), Decoded(f, prime, wakes);
    d.tail == Pending(s.inbound) && s.toTun == DataOf(d.events)
  }

  lemma FeedPending(decode: Decoder, d: Drained<FrameEvent, VpnError>, inbound: Bytes, data: Bytes)
    requires Consumes(decode) && d.tail == Pending(inbound)
    ensures Feed(decode, d, data)
         == Drained(d.events + Drain(decode, inbound + data).events, Drain(decode, inbound + data).tail)
  {
  }

  lemma DecodedMore(decode: Decoder, prime: Bytes, received: Bytes, inbound: Bytes, data: Bytes)
    requires PrefixStable(decode) && DecodedBy(decode, prime, received).tail == Pending(inbound) && data != []
    ensures var later := Drain(decode, inbound + data);
      DecodedBy(decode, prime, received + data)
        == Drained(DecodedBy(decode, prime, received).events + later.events, later.tail)
  {
    if received == [] {
      assert [] + data == data;
      var events := Drain(decode, prime + data).events;
      assert [] + events == events;
    } else {
      assert prime + (received + data) == prime + received + data;
      DrainInTwo(decode, prime + received, data);
      FeedPending(decode, DecodedBy(decode, prime, received), inbound, data);
    }
  }

  lemma SameExactlyWhenEmpty(a: seq<FrameEvent>, b: seq<FrameEvent>)
    ensures a + b == a <==> b == []
  {
    assert |a + b| == |a| + |b|;
    assert b == [] ==> a + b == a;
  }

  lemma ReadStep(f: Framer, prime: Bytes, wakes: seq<Wake>, w: Wake)
    requires w.TlsRead?
    requires Running(f, prime, wakes) && InboundMatches(f, prime, wakes)
    requires Running(f, prime, wakes + [w])
    ensures InboundMatches(f, prime, wakes + [w])
    ensures var grew := Decoded(f, prime, wakes + [w]).events != Decoded(f, prime, wakes).events;
      Run(f, prime, wakes + [w]).missed == if grew then 0 else Run(f, prime, wakes).missed
  {
    FramerIsStable(f);
    var s := Run(f, prime, wakes);
    RunMore(f, prime, wakes, w);
    var fed := s.(inbound := s.inbound + w.data);
    assert Run(f, prime, wakes + [w]) == DrainInbound(DecoderOf(f), fed, w.failAt);
    DrainMatches(DecoderOf(f), fed, w.failAt);
    DecodedMore(DecoderOf(f), prime, Received(wakes), s.inbound, w.data);
    var seen, later := Decoded(f, prime, wakes).events, Drain(DecoderOf(f), fed.inbound).events;
    DataOfConcat(seen, later);
    SameExactlyWhenEmpty(seen, later);
  }

  lemma TickKeepsInbound(f: Framer, s: Loop, writeOk: bool)
    ensures OnTick(f, s, writeOk).inbound == s.inbound && OnTick(f, s, writeOk).toTun == s.toTun
  {
  }

  lemma BatchKeepsInbound(f: Framer, s: Loop, first: TunRead, ready: seq<TunRead>, writeOk: bool)
    ensures var t := OnTunReady(f, s, first, ready, writeOk);
      t.inbound == s.inbound && t.toTun == s.toTun && t.missed == s.missed
  {
  }

  lemma OtherArmsKeepInbound(f: Framer, s: Loop, w: Wake)
    requires !w.TlsRead?
    ensures OnWake(f, s, w).inbound == s.inbound && OnWake(f, s, w).toTun == s.toTun
    ensures !w.Tick? ==> OnWake(f, s, w).missed == s.missed
  {
    match w {
      case Shutdown(_) =>
      case Tick(ok) => TickKeepsInbound(f, s, ok);
      case TunReady(first, ready, ok) => BatchKeepsInbound(f, s, first, ready, ok);
      case TlsBroke =>
    }
  }

  lemma OtherStep(f: Framer, prime: Bytes, wakes: seq<Wake>, w: Wake)
    requires !w.TlsRead? && Running(f, prime, wakes)
    ensures Received(wakes + [w]) == Received(wakes)
    ensures Run(f, prime, wakes + [w]).inbound == Run(f, prime, wakes).inbound
    ensures Run(f, prime, wakes + [w]).toTun == Run(f, prime, wakes).toTun
    ensures !w.Tick? ==> Run(f, prime, wakes + [w]).missed == Run(f, prime, wakes).missed
  {
    RunMore(f, prime, wakes, w);
    OtherArmsKeepInbound(f, Run(f, prime, wakes), w);
    assert Received(wakes) + [] == Received(wakes);
  }

  lemma RunningBefore(f: Framer, prime: Bytes, wakes: seq<Wake>)
    requires wakes != [] && Running(f, prime, wakes)
    ensures Running(f, prime, wakes[..|wakes| - 1])
    ensures wakes[..|wakes| - 1] + [wakes[|wakes| - 1]] == wakes
  {
  }

  /**
   * While the loop runs, the packets written to the TUN device are exactly the
   * data frames of everything received, in order, whatever the reads and the
   * other arms did; bytes handed over from the handshake come first, but only
   * once something has been read.
   */
  lemma {:induction false} InboundIsFaithful(f: Framer, prime: Bytes, wakes: seq<Wake>)
    requires Running(f, prime, wakes)
    ensures InboundMatches(f, prime, wakes)
    decreases |wakes|
  {
    if wakes != [] {
      RunningBefore(f, prime, wakes);
      InboundIsFaithful(f, prime, wakes[..|wakes| - 1]);
      if wakes[|wakes| - 1].TlsRead? {
        ReadStep(f, prime, wakes[..|wakes| - 1], wakes[|wakes| - 1]);
      } else {
        OtherStep(f, prime, wakes[..|wakes| - 1], wakes[|wakes| - 1]);
      }
    }
  }

  /** Packets staged during the negotiation wait for the first read, however many ticks pass. */
  lemma PrimeWaitsForFirstRead(f: Framer, prime: Bytes, wakes: seq<Wake>)
    requires Running(f, prime, wakes) && Received(wakes) == []
    ensures Run(f, prime, wakes).toTun == [] && Run(f, prime, wakes).inbound == prime
  {
    InboundIsFaithful(f, prime, wakes);
  }

  // ---------------------------------------------------------------------------
  // Inbound, when the loop is left
  // ---------------------------------------------------------------------------

  /** How many of these frames cause a write. */
  function Writing(events: seq<FrameEvent>): nat {
    if events == [] then 0 else (if Writes(events[0]) then 1 else 0) + Writing(events[1..])
  }

  /** Frame `i` of a read ends the loop: a disconnect, or the write that fails. */
  predicate EndsOn(events: seq<FrameEvent>, failAt: Option<nat>, i: nat)
    requires i < |events|
  {
    events[i].Disconnect? || (Writes(events[i]) && failAt == Some(Writing(events[..i])))
  }

  /** The loop acts on the first `k` frames of a read, and on no more. */
  ghost predicate ActsOn(events: seq<FrameEvent>, failAt: Option<nat>, k: nat) {
    && k <= |events|
    && (forall i :: 0 <= i < k ==> !EndsOn(events, failAt, i))
    && (k < |events| ==> EndsOn(events, failAt, k))
  }

  /** How the loop goes on, or ends, when it has acted on `k` of these frames. */
  function ExitAfter(events: seq<FrameEvent>, tail: Tail<VpnError>, k: nat): Option<Exit> {
    if k < |events| then
      Some(Failed(if events[k].Disconnect? then ServerDisconnect(events[k].reason) else VpnError.Io(Transport)))
    else if tail.Broken? then Some(Failed(tail.error))
    else None
  }

  lemma ActsOnOneMore(event: FrameEvent, events: seq<FrameEvent>, failAt: Option<nat>, k: nat)
    requires !event.Disconnect? && !(Writes(event) && failAt == Some(0))
    requires ActsOn(events, if Writes(event) then OneLess(failAt) else failAt, k)
    ensures ActsOn([event] + events, failAt, k + 1)
  {
    var all, less := [event] + events, if Writes(event) then OneLess(failAt) else failAt;
    assert Writing(all[..0]) == 0;
    forall i | 0 <= i < |events|
      ensures EndsOn(all, failAt, i + 1) <==> EndsOn(events, less, i)
    {
      assert all[..i + 1] == [event] + events[..i];
      assert ([event] + events[..i])[1..] == events[..i];
    }
    forall i | 0 <= i < k + 1
      ensures !EndsOn(all, failAt, i)
    {
      if i > 0 {
        assert !EndsOn(events, less, i - 1);
      }
    }
  }

  /** `t` is where a drain of `d` leaves the loop, from `s` on, when it acts on `k` frames. */
  ghost predicate StoppedAt(d: Drained<FrameEvent, VpnError>, s: Loop, failAt: Option<nat>, k: nat, t: Loop) {
    && ActsOn(d.events, failAt, k)
    && t.toTun == s.toTun + DataOf(d.events[..k]) && t.exit == ExitAfter(d.events, d.tail, k)
  }

  lemma StoppedLater(event: FrameEvent, later: Drained<FrameEvent, VpnError>, s: Loop, next: Loop, failAt: Option<nat>,
                     k: nat, t: Loop)
    requires !event.Disconnect? && !(Writes(event) && failAt == Some(0))
    requires next.toTun == if event.Data? then s.toTun + [event.payload] else s.toTun
    requires StoppedAt(later, next, if Writes(event) then OneLess(failAt) else failAt, k, t)
    ensures StoppedAt(Drained([event] + later.events, later.tail), s, failAt, k + 1, t)
  {
    ActsOnOneMore(event, later.events, failAt, k);
    assert ([event] + later.events)[..k + 1] == [event] + later.events[..k];
    DataBehind(s.toTun, event, later.events[..k]);
  }

  /** Nothing is acted on: the drain stops where it stands. */
  lemma StoppedHere(decode: Decoder, s: Loop, failAt: Option<nat>)
    requires Consumes(decode) && s.exit.None?
    requires decode(s.inbound).Frame? ==> EndsOn([decode(s.inbound).event], failAt, 0)
    ensures StoppedAt(Drain(decode, s.inbound), s, failAt, 0, DrainInbound(decode, s, failAt))
  {
    var d := Drain(decode, s.inbound);
    assert d.events[..0] == [] && Writing([]) == 0 && s.toTun + [] == s.toTun;
    assert decode(s.inbound).Frame? ==> [decode(s.inbound).event][..0] == [];
  }

  lemma {:induction false} DrainStops(decode: Decoder, s: Loop, failAt: Option<nat>) returns (k: nat)
    requires Consumes(decode) && s.exit.None?
    ensures StoppedAt(Drain(decode, s.inbound), s, failAt, k, DrainInbound(decode, s, failAt))
    decreases |s.inbound|
  {
    var step := decode(s.inbound);
    assert Writing([]) == 0 && (step.Frame? ==> [step.event][..0] == []);
    if step.Frame? && !EndsOn([step.event], failAt, 0) {
      DrainOne(decode, s.inbound);
      var next, less := AfterFrame(s, step.event, step.used), if Writes(step.event) then OneLess(failAt) else failAt;
      k := DrainStops(decode, next, less);
      StoppedLater(step.event, Drain(decode, next.inbound), s, next, failAt, k, DrainInbound(decode, next, less));
      k := k + 1;
    } else {
      StoppedHere(decode, s, failAt);
      k := 0;
    }
  }

  /** `t` has acted on the first `k` of the frames `later` that a read completed, behind those `seen` before. */
  ghost predicate LeftAt(seen: seq<FrameEvent>, later: seq<FrameEvent>, tail: Tail<VpnError>, failAt: Option<nat>, k: nat,
                         t: Loop) {
    && ActsOn(later, failAt, k)
    && t.toTun == DataOf(seen + later[..k]) && t.exit == ExitAfter(later, tail, k)
  }

  /** One read, for any stable decoder and a loop that has kept up with the stream. */
  lemma ReadLeaves(decode: Decoder, prime: Bytes, received: Bytes, s: Loop, data: Bytes, failAt: Option<nat>)
    returns (later: seq<FrameEvent>, k: nat)
    requires PrefixStable(decode) && s.exit.None? && data != []
    requires DecodedBy(decode, prime, received).tail == Pending(s.inbound)
    requires s.toTun == DataOf(DecodedBy(decode, prime, received).events)
    ensures var before, after := DecodedBy(decode, prime, received), DecodedBy(decode, prime, received + data);
      && after.events == before.events + later
      && LeftAt(before.events, later, after.tail, failAt, k, DrainInbound(decode, s.(inbound := s.inbound + data), failAt))
  {
    var fed := s.(inbound := s.inbound + data);
    DecodedMore(decode, prime, received, s.inbound, data);
    later := Drain(decode, fed.inbound).events;
    k := DrainStops(decode, fed, failAt);
    DataOfConcat(DecodedBy(decode, prime, received).events, later[..k]);
  }

  lemma RunReads(f: Framer, prime: Bytes, wakes: seq<Wake>, data: Bytes, failAt: Option<nat>)
    requires Running(f, prime, wakes) && data != []
    ensures var s := Run(f, prime, wakes);
      Run(f, prime, wakes + [TlsRead(data, failAt)]) == DrainInbound(DecoderOf(f), s.(inbound := s.inbound + data), failAt)
    ensures Received(wakes + [TlsRead(data, failAt)]) == Received(wakes) + data
  {
    RunMore(f, prime, wakes, TlsRead(data, failAt));
  }

  /**
   * However a running loop goes on after a read that completes the frames
   * `later`, the packets written to the TUN device are the data frames of the
   * stream up to the first `k` of these. That is all of them, but for a
   * disconnect or a write that fails: then it is those before it. A malformed
   * frame ends the loop after every frame in front of it.
   */
  lemma ReadDeliversPrefix(f: Framer, prime: Bytes, wakes: seq<Wake>, data: Bytes, failAt: Option<nat>)
    returns (later: seq<FrameEvent>, k: nat)
    requires Running(f, prime, wakes) && data != []
    ensures var more := wakes + [TlsRead(data, failAt)];
      && Decoded(f, prime, more).events == Decoded(f, prime, wakes).events + later
      && LeftAt(Decoded(f, prime, wakes).events, later, Decoded(f, prime, more).tail, failAt, k, Run(f, prime, more))
  {
    FramerIsStable(f);
    InboundIsFaithful(f, prime, wakes);
    RunReads(f, prime, wakes, data, failAt);
    later, k := ReadLeaves(DecoderOf(f), prime, Received(wakes), Run(f, prime, wakes), data, failAt);
  }

  /** Left in any other way, the loop has written every data frame of the stream. */
  lemma OtherExitsDeliverAll(f: Framer, prime: Bytes, wakes: seq<Wake>, w: Wake)
    requires Running(f, prime, wakes) && (w.TlsRead? ==> w.data == [])
    ensures Decoded(f, prime, wakes + [w]) == Decoded(f, prime, wakes)
    ensures Run(f, prime, wakes + [w]).toTun == DataOf(Decoded(f, prime, wakes + [w]).events)
  {
    InboundIsFaithful(f, prime, wakes);
    RunMore(f, prime, wakes, w);
    assert Received(wakes) + [] == Received(wakes);
    if !w.TlsRead? {
      OtherArmsKeepInbound(f, Run(f, prime, wakes), w);
    }
  }

  // ---------------------------------------------------------------------------
  // Liveness
  // ---------------------------------------------------------------------------

  /** Keepalives since the last wake-up that completed a frame, read off the history alone. */
  ghost function TicksSinceFrame(f: Framer, prime: Bytes, wakes: seq<Wake>): nat
    decreases |wakes|
  {
    if wakes == [] then 0
    else
      var before, w := wakes[..|wakes| - 1], wakes[|wakes| - 1];
      if w.Tick? then TicksSinceFrame(f, prime, before) + 1
      else if Decoded(f, prime, wakes).events != Decoded(f, prime, before).events then 0
      else TicksSinceFrame(f, prime, before)
  }

  lemma TickStep(f: Framer, prime: Bytes, wakes: seq<Wake>, writeOk: bool)
    requires Running(f, prime, wakes)
    ensures var s, t := Run(f, prime, wakes), Run(f, prime, wakes + [Tick(writeOk)]);
      && (!writeOk ==> t.exit == Some(Failed(VpnError.Io(Transport))))
      && (writeOk ==> t.missed == s.missed + 1)
      && (writeOk && t.missed < MAX_MISSED_KEEPALIVES ==> t.exit == None)
      && (writeOk && t.missed >= MAX_MISSED_KEEPALIVES ==> t.exit == Some(Failed(Protocol(PeerUnresponsive))))
  {
    var s := Run(f, prime, wakes);
    RunMore(f, prime, wakes, Tick(writeOk));
    KeepaliveIsControl(f, f, s.echoId);
  }

  lemma TicksMore(f: Framer, prime: Bytes, wakes: seq<Wake>, w: Wake)
    ensures TicksSinceFrame(f, prime, wakes + [w])
         == if w.Tick? then TicksSinceFrame(f, prime, wakes) + 1
            else if Decoded(f, prime, wakes + [w]).events != Decoded(f, prime, wakes).events then 0
            else TicksSinceFrame(f, prime, wakes)
  {
    assert (wakes + [w])[..|wakes|] == wakes;
  }

  lemma MissedStep(f: Framer, prime: Bytes, wakes: seq<Wake>, w: Wake)
    requires Running(f, prime, wakes) && Running(f, prime, wakes + [w])
    requires Run(f, prime, wakes).missed == TicksSinceFrame(f, prime, wakes) < MAX_MISSED_KEEPALIVES
    ensures Run(f, prime, wakes + [w]).missed == TicksSinceFrame(f, prime, wakes + [w]) < MAX_MISSED_KEEPALIVES
  {
    TicksMore(f, prime, wakes, w);
    if w.TlsRead? {
      InboundIsFaithful(f, prime, wakes);
      ReadStep(f, prime, wakes, w);
    } else {
      OtherStep(f, prime, wakes, w);
      if w.Tick? {
        TickStep(f, prime, wakes, w.writeOk);
      }
    }
  }

  /** The counter is the number of keepalives since the last fully decoded frame, and stays below 3. */
  lemma {:induction false} MissedCountsTicks(f: Framer, prime: Bytes, wakes: seq<Wake>)
    requires Running(f, prime, wakes)
    ensures Run(f, prime, wakes).missed == TicksSinceFrame(f, prime, wakes) < MAX_MISSED_KEEPALIVES
    decreases |wakes|
  {
    if wakes != [] {
      RunningBefore(f, prime, wakes);
      MissedCountsTicks(f, prime, wakes[..|wakes| - 1]);
      MissedStep(f, prime, wakes[..|wakes| - 1], wakes[|wakes| - 1]);
    }
  }

  lemma DecodeNeverBlamesSilence(f: Framer, buf: Bytes)
    ensures Decode(f, buf).Malformed? ==> Decode(f, buf).error != Protocol(PeerUnresponsive)
  {
  }

  lemma {:induction false} DrainNeverBlamesSilence(f: Framer, s: Loop, failAt: Option<nat>)
    requires s.exit.None?
    ensures DrainInbound(DecoderOf(f), s, failAt).exit != Some(Failed(Protocol(PeerUnresponsive)))
    decreases |s.inbound|
  {
    DecodeNeverBlamesSilence(f, s.inbound);
    var step := DecoderOf(f)(s.inbound);
    if step.Frame? && 0 < step.used <= |s.inbound| {
      var next := AfterFrame(s, step.event, step.used);
      DrainNeverBlamesSilence(f, next, if Writes(step.event) then OneLess(failAt) else failAt);
    }
  }

  lemma OtherArmsNeverBlameSilence(f: Framer, s: Loop, w: Wake)
    requires s.exit.None? && !w.Tick?
    ensures OnWake(f, s, w).exit != Some(Failed(Protocol(PeerUnresponsive)))
  {
    if w.TlsRead? && w.data != [] {
      DrainNeverBlamesSilence(f, s.(inbound := s.inbound + w.data), w.failAt);
    }
  }

  /** The loop reports an unresponsive peer exactly on the third keepalive in a row without a frame. */
  lemma UnresponsiveExactlyOnThirdTick(f: Framer, prime: Bytes, wakes: seq<Wake>, w: Wake)
    requires Running(f, prime, wakes)
    ensures Run(f, prime, wakes + [w]).exit == Some(Failed(Protocol(PeerUnresponsive)))
       <==> w == Tick(true) && TicksSinceFrame(f, prime, wakes) == 2
  {
    MissedCountsTicks(f, prime, wakes);
    if w.Tick? {
      TickStep(f, prime, wakes, w.writeOk);
    } else {
      RunMore(f, prime, wakes, w);
      OtherArmsNeverBlameSilence(f, Run(f, prime, wakes), w);
    }
  }

  // ---------------------------------------------------------------------------
  // Outbound: whole frames, and the packets in order
  // ---------------------------------------------------------------------------

  predicate WritesSucceed(w: Wake) {
    match w
    case Shutdown(ok) => ok
    case Tick(ok) => ok
    case TunReady(_, _, ok) => ok
    case TlsRead(_, failAt) => failAt.None?
    case TlsBroke => true
  }

  /** The packets read from the TUN device by the wake-ups the loop got to. */
  function Taken(f: Framer, prime: Bytes, wakes: seq<Wake>): seq<Bytes> {
    if wakes == [] then []
    else
      var before, w := wakes[..|wakes| - 1], wakes[|wakes| - 1];
      Taken(f, prime, before) +
        if Run(f, prime, before).exit.None? && w.TunReady? then BatchOf(w.first, w.ready).packets else []
  }

  /** The peer finds whole frames only, and exactly these packets in them. */
  ghost predicate Carries(peer: Framer, bytes: Bytes, packets: seq<Bytes>) {
    FramerIsStable(peer);
    var d := Drain(DecoderOf(peer), bytes);
    d.tail == Pending([]) && DataOf(d.events) == packets
  }

  lemma CarriesTogether(peer: Framer, a: Bytes, b: Bytes, p: seq<Bytes>, q: seq<Bytes>)
    requires Carries(peer, a, p) && Carries(peer, b, q)
    ensures Carries(peer, a + b, p + q)
  {
    FramerIsStable(peer);
    DrainInTwo(DecoderOf(peer), a, b);
    assert [] + b == b;
    DataOfConcat(Drain(DecoderOf(peer), a).events, Drain(DecoderOf(peer), b).events);
  }

  lemma OneFrameCarries(peer: Framer, frame: Bytes, e: FrameEvent)
    requires Decode(peer, frame) == Frame(e, |frame|)
    ensures Carries(peer, frame, if e.Data? then [e.payload] else [])
  {
    FramerIsStable(peer);
    var decode := DecoderOf(peer);
    assert decode(frame) == Frame(e, |frame|) && decode([]).NeedMore?;
    FrameFirst(decode, frame, e, []);
    assert frame + [] == frame;
    assert Drain(decode, []) == Drained([], Pending([]));
    DataOfCons(e, []);
    assert [e] + [] == [e];
  }

  lemma ControlCarriesNothing(peer: Framer, frame: Bytes)
    requires IsControlFrame(peer, frame)
    ensures Carries(peer, frame, [])
  {
    var e: FrameEvent :| !e.Data? && Decode(peer, frame) == Frame(e, |frame|);
    OneFrameCarries(peer, frame, e);
  }

  lemma NothingCarriesNothing(peer: Framer)
    ensures Carries(peer, [], [])
  {
    assert DecoderOf(peer)([]).NeedMore?;
  }

  lemma PacketCarries(f: Framer, peer: Framer, p: Bytes)
    requires SameCodec(f, peer) && |p| <= Limit(f)
    ensures Carries(peer, EncodeData(f, p), [p])
  {
    DataArrives(f, peer, p);
    OneFrameCarries(peer, EncodeData(f, p), Data(p));
  }

  lemma BatchMore(f: Framer, peer: Framer, packets: seq<Bytes>, p: Bytes)
    requires SameCodec(f, peer) && |p| <= Limit(f) && Carries(peer, EncodeAll(f, packets), packets)
    ensures Carries(peer, EncodeAll(f, packets + [p]), packets + [p])
  {
    EncodeOneMore(f, packets, p);
    PacketCarries(f, peer, p);
    CarriesTogether(peer, EncodeAll(f, packets), EncodeData(f, p), packets, [p]);
  }

  /** One more packet keeps what held of the packets before it. */
  ghost predicate Keeps(holds: seq<Bytes> -> bool, packets: seq<Bytes>, p: Bytes) {
    holds(packets) ==> holds(packets + [p])
  }

  lemma HoldsOfAll(holds: seq<Bytes> -> bool, packets: seq<Bytes>)
    requires holds([]) && forall front, p :: p in packets ==> Keeps(holds, front, p)
    ensures holds(packets)
  {
    assert packets[..0] == [];
    for k := 0 to |packets|
      invariant holds(packets[..k])
    {
      assert Keeps(holds, packets[..k], packets[k]);
      assert packets[..k] + [packets[k]] == packets[..k + 1];
    }
    assert packets[..|packets|] == packets;
  }

  lemma BatchCarries(f: Framer, peer: Framer, packets: seq<Bytes>)
    requires SameCodec(f, peer)
    requires forall p :: p in packets ==> |p| <= Limit(f)
    ensures Carries(peer, EncodeAll(f, packets), packets)
  {
    var holds := ps => Carries(peer, EncodeAll(f, ps), ps);
    NothingCarriesNothing(peer);
    forall front, p | p in packets
      ensures Keeps(holds, front, p)
    {
      if holds(front) {
        BatchMore(f, peer, front, p);
      }
    }
    HoldsOfAll(holds, packets);
  }

  lemma AppendControl(peer: Framer, sent: Bytes, packets: seq<Bytes>, frame: Bytes)
    requires Carries(peer, sent, packets) && IsControlFrame(peer, frame)
    ensures Carries(peer, sent + frame, packets)
  {
    ControlCarriesNothing(peer, frame);
    CarriesTogether(peer, sent, frame, packets, []);
    assert packets + [] == packets;
  }

  lemma ReplyCarriesNothing(f: Framer, peer: Framer, s: Loop, packets: seq<Bytes>)
    requires SameCodec(f, peer) && Carries(peer, s.toTls, packets)
    requires DecoderOf(f)(s.inbound).Frame? && DecoderOf(f)(s.inbound).used <= |s.inbound|
    ensures var step := DecoderOf(f)(s.inbound);
      Carries(peer, AfterFrame(s, step.event, step.used).toTls, packets)
  {
    var step := DecoderOf(f)(s.inbound);
    if step.event.Reply? {
      ReplyIsControl(f, peer, s.inbound);
      AppendControl(peer, s.toTls, packets, step.event.bytes);
    }
  }

  lemma {:induction false} RepliesCarryNothing(f: Framer, peer: Framer, s: Loop, packets: seq<Bytes>)
    requires SameCodec(f, peer) && Carries(peer, s.toTls, packets)
    ensures Carries(peer, DrainInbound(DecoderOf(f), s, None).toTls, packets)
    decreases |s.inbound|
  {
    var step := DecoderOf(f)(s.inbound);
    if step.Frame? && 0 < step.used <= |s.inbound| {
      ReplyCarriesNothing(f, peer, s, packets);
      RepliesCarryNothing(f, peer, AfterFrame(s, step.event, step.used), packets);
    }
  }

  lemma ControlStep(f: Framer, peer: Framer, s: Loop, w: Wake, packets: seq<Bytes>)
    requires SameCodec(f, peer) && Carries(peer, s.toTls, packets)
    requires w == Shutdown(true) || w == Tick(true)
    ensures Carries(peer, OnWake(f, s, w).toTls, packets)
  {
    if w.Tick? {
      TickSends(f, s);
      KeepaliveIsControl(f, peer, s.echoId);
      AppendControl(peer, s.toTls, packets, EncodeKeepalive(f, s.echoId));
    } else {
      ShutdownSends(f, s);
      if EncodeShutdown(f).Some? {
        ShutdownIsControl(f, peer);
        AppendControl(peer, s.toTls, packets, EncodeShutdown(f).value);
      }
    }
  }

  lemma TickSends(f: Framer, s: Loop)
    ensures OnWake(f, s, Tick(true)).toTls == s.toTls + EncodeKeepalive(f, s.echoId)
  {
  }

  lemma ShutdownSends(f: Framer, s: Loop)
    ensures OnWake(f, s, Shutdown(true)).toTls
         == if EncodeShutdown(f).Some? then s.toTls + EncodeShutdown(f).value else s.toTls
  {
  }

  lemma BatchGoesOut(f: Framer, s: Loop, w: Wake)
    requires w.TunReady? && w.writeOk
    ensures OnWake(f, s, w).toTls == s.toTls + EncodeAll(f, BatchOf(w.first, w.ready).packets)
  {
  }

  lemma BatchStep(f: Framer, peer: Framer, s: Loop, w: Wake, packets: seq<Bytes>)
    requires SameCodec(f, peer) && Carries(peer, s.toTls, packets)
    requires w.TunReady? && w.writeOk
    requires forall p :: p in BatchOf(w.first, w.ready).packets ==> |p| <= Limit(f)
    ensures Carries(peer, OnWake(f, s, w).toTls, packets + BatchOf(w.first, w.ready).packets)
  {
    var batch := BatchOf(w.first, w.ready).packets;
    BatchGoesOut(f, s, w);
    BatchCarries(f, peer, batch);
    CarriesTogether(peer, s.toTls, EncodeAll(f, batch), packets, batch);
  }

  lemma OutboundStep(f: Framer, peer: Framer, s: Loop, w: Wake, packets: seq<Bytes>)
    requires SameCodec(f, peer) && Carries(peer, s.toTls, packets)
    requires WritesSucceed(w)
    requires w.TunReady? ==> forall p :: p in BatchOf(w.first, w.ready).packets ==> |p| <= Limit(f)
    ensures Carries(peer, OnWake(f, s, w).toTls,
                    packets + if w.TunReady? then BatchOf(w.first, w.ready).packets else [])
  {
    assert packets + [] == packets;
    match w {
      case Shutdown(_) => ControlStep(f, peer, s, w, packets);
      case Tick(_) => ControlStep(f, peer, s, w, packets);
      case TunReady(_, _, _) => BatchStep(f, peer, s, w, packets);
      case TlsRead(data, _) =>
        if data != [] {
          RepliesCarryNothing(f, peer, s.(inbound := s.inbound + data), packets);
        }
      case TlsBroke =>
    }
  }

  /**
   * For every interleaving of the four arms, with packets within the codec's
   * limit and writes succeeding, the TLS output consists of whole frames and the
   * peer's decoder finds in it exactly the packets read from the TUN device, in
   * read order: those of a batch cut short by an end of file or a read error too.
   */
  lemma {:induction false} OutboundIsFaithful(f: Framer, peer: Framer, prime: Bytes, wakes: seq<Wake>)
    requires SameCodec(f, peer)
    requires forall w :: w in wakes ==> WritesSucceed(w)
    requires forall p :: p in Taken(f, prime, wakes) ==> |p| <= Limit(f)
    ensures Carries(peer, Run(f, prime, wakes).toTls, Taken(f, prime, wakes))
    decreases |wakes|
  {
    if wakes == [] {
      NothingCarriesNothing(peer);
    } else {
      var before, w := wakes[..|wakes| - 1], wakes[|wakes| - 1];
      OutboundIsFaithful(f, peer, prime, before);
      assert w in wakes;
      if Run(f, prime, before).exit.None? {
        OutboundStep(f, peer, Run(f, prime, before), w, Taken(f, prime, before));
      } else {
        assert Taken(f, prime, before) + [] == Taken(f, prime, before);
      }
    }
  }
}
