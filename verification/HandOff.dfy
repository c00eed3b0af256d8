/** No byte of the inbound stream is lost between the negotiation and the forwarding loop. */
module HandOff {
  import opened Wire
  import opened Errors
  import opened StreamDecoding
  import opened Ppp
  import opened Negotiation
  import opened PppIo
  import opened NegotiationSafety
  import opened Arrivals
  import opened NegotiationRuns
  import Forti
  import F = Framers

  // ---------------------------------------------------------------------------
  // The forwarding loop's decoder on the handed-over bytes
  // ---------------------------------------------------------------------------

  function Ipv4Of(frames: seq<PppFrame>): seq<Bytes> {
    if frames == [] then []
    else (if frames[0].proto == PPP_IPV4 then [frames[0].payload] else []) + Ipv4Of(frames[1..])
  }

  lemma {:induction false} Ipv4Concat(a: seq<PppFrame>, b: seq<PppFrame>)
    ensures Ipv4Of(a + b) == Ipv4Of(a) + Ipv4Of(b)
  {
    if a == [] {
      assert a + b == b;
    } else {
      assert (a + b)[1..] == a[1..] + b;
      Ipv4Concat(a[1..], b);
    }
  }

  lemma Ipv4OfCons(f: PppFrame, frames: seq<PppFrame>)
    ensures Ipv4Of([f] + frames) == (if f.proto == PPP_IPV4 then [f.payload] else []) + Ipv4Of(frames)
  {
    assert ([f] + frames)[1..] == frames;
  }

  /** The framer's step is the PPP decoder's, with the frame classified. */
  lemma FramerStep(magic: Word, buf: Bytes)
    ensures match Ppp.Decode(buf)
            case NeedMore => F.DecoderOf(F.Fortinet(magic))(buf).NeedMore?
            case Malformed(e) => F.DecoderOf(F.Fortinet(magic))(buf) == Malformed(e)
            case Frame(f, n) =>
              && f.proto < 0x1_0000
              && F.DecoderOf(F.Fortinet(magic))(buf) == Frame(F.ClassifyPpp(magic, f), n)
  {
    DecodedFrameIsSmall(buf);
  }

  /** The framer sees the frames PPP decoding sees, and calls exactly the IPv4 ones data. */
  lemma {:induction false} FramerSeesIpv4(magic: Word, buf: Bytes)
    requires Consumes(Ppp.Decode) && Consumes(F.DecoderOf(F.Fortinet(magic)))
    ensures DecodesTo(magic, buf, Ipv4Of(Drain(Ppp.Decode, buf).events), Drain(Ppp.Decode, buf).tail)
    decreases |buf|
  {
    var decode := F.DecoderOf(F.Fortinet(magic));
    FramerStep(magic, buf);
    if Ppp.Decode(buf).Frame? {
      var f, n := Ppp.Decode(buf).event, Ppp.Decode(buf).used;
      DrainOne(Ppp.Decode, buf);
      DrainOne(decode, buf);
      FramerSeesIpv4(magic, buf[n..]);
      F.DataOfCons(F.ClassifyPpp(magic, f), Drain(decode, buf[n..]).events);
      Ipv4OfCons(f, Drain(Ppp.Decode, buf[n..]).events);
    }
  }

  ghost predicate DecodesTo(magic: Word, buf: Bytes, payloads: seq<Bytes>, tail: Tail<VpnError>)
    requires Consumes(F.DecoderOf(F.Fortinet(magic)))
  {
    var d := Drain(F.DecoderOf(F.Fortinet(magic)), buf);
    F.DataOf(d.events) == payloads && d.tail == tail
  }

  lemma OneStaged(magic: Word, r: Recv, rest: Bytes, payloads: seq<Bytes>, tail: Tail<VpnError>)
    requires PrefixStable(F.DecoderOf(F.Fortinet(magic))) && CappedOne(r)
    requires DecodesTo(magic, rest, payloads, tail)
    ensures DecodesTo(magic, Staged(r) + rest, Ipv4Of(FrameIn(r)) + payloads, tail)
  {
    if r.Got? && r.frame.proto == PPP_IPV4 {
      DataInFront(magic, r.frame.payload, rest);
      Ipv4OfCons(r.frame, []);
      assert [r.frame] + [] == [r.frame] && [r.frame.payload] + Ipv4Of([]) == [r.frame.payload];
    } else {
      NotIpv4(r);
      assert [] + rest == rest && [] + payloads == payloads;
    }
  }

  lemma NotIpv4(r: Recv)
    requires !(r.Got? && r.frame.proto == PPP_IPV4)
    ensures Staged(r) == [] && Ipv4Of(FrameIn(r)) == []
  {
    if r.Got? {
      Ipv4OfCons(r.frame, []);
      assert [r.frame] + [] == [r.frame];
    }
  }

  lemma DataInFront(magic: Word, payload: Bytes, rest: Bytes)
    requires PrefixStable(F.DecoderOf(F.Fortinet(magic))) && |payload| + 2 <= Forti.MAX_BODY
    ensures var d, later := Drain(F.DecoderOf(F.Fortinet(magic)), EncodePpp(PPP_IPV4, payload) + rest),
                            Drain(F.DecoderOf(F.Fortinet(magic)), rest);
      F.DataOf(d.events) == [payload] + F.DataOf(later.events) && d.tail == later.tail
  {
    var framer := F.Fortinet(magic);
    var frame := EncodePpp(PPP_IPV4, payload);
    F.DataArrives(framer, framer, payload);
    assert F.DecoderOf(framer)(frame) == Frame(F.Data(payload), |frame|);
    FrameFirst(F.DecoderOf(framer), frame, F.Data(payload), rest);
    F.DataOfCons(F.Data(payload), Drain(F.DecoderOf(framer), rest).events);
  }

  /** Every staged packet is decoded again as data, in order, in front of what follows. */
  lemma {:induction false} StagedIsDecoded(magic: Word, got: seq<Recv>, rest: Bytes, payloads: seq<Bytes>, tail: Tail<VpnError>)
    requires PrefixStable(F.DecoderOf(F.Fortinet(magic))) && Capped(got)
    requires DecodesTo(magic, rest, payloads, tail)
    ensures DecodesTo(magic, StagedAll(got) + rest, Ipv4Of(FramesOf(got)) + payloads, tail)
    decreases |got|
  {
    if got == [] {
      assert [] + rest == rest && [] + payloads == payloads;
    } else {
      var before, r := got[..|got| - 1], got[|got| - 1];
      OneStaged(magic, r, rest, payloads, tail);
      StagedIsDecoded(magic, before, Staged(r) + rest, Ipv4Of(FrameIn(r)) + payloads, tail);
      Assoc(StagedAll(before), Staged(r), rest);
      Ipv4Concat(FramesOf(before), FrameIn(r));
      Assoc(Ipv4Of(FramesOf(before)), Ipv4Of(FrameIn(r)), payloads);
    }
  }

  /**
   * When the negotiation succeeds, decoding the handed-over bytes followed by
   * any later bytes yields, as data, exactly the IPv4 payloads of the whole
   * stream behind the prologue, in order, none lost or doubled, and leaves the
   * same leftover or the same first error.
   */
  lemma NothingIsLost(magic: Magic, clock: Clock, prime: Bytes, script: seq<Read>, framerMagic: Word, later: Bytes)
    returns (used: seq<Read>)
    requires Drive(magic, clock, Start(magic, Inbox(prime, false, script))).client.Up?
    ensures var end := Drive(magic, clock, Start(magic, Inbox(prime, false, script)));
      var read := prime + Delivered(used);
      var decode := F.DecoderOf(F.Fortinet(framerMagic));
      && script == used + end.io.script
      && StripPrologue(read).Settled?
      && PrefixStable(decode) && PrefixStable(Ppp.Decode)
      && var stream := Drain(Ppp.Decode, StripPrologue(read).rest + later);
         var forwarded := Drain(decode, end.early + end.io.buf + later);
         F.DataOf(forwarded.events) == Ipv4Of(stream.events) && forwarded.tail == stream.tail
  {
    var start := Start(magic, Inbox(prime, false, script));
    var end := Drive(magic, clock, start);
    Ppp.DecodeIsStable();
    F.FramerIsStable(F.Fortinet(framerMagic));
    var got;
    got, used := DriveAccounts(magic, clock, start, [], prime);
    UpIsSettled(magic, clock, start);
    var all := prime + Delivered(used);
    Reassembled(all, FramesOf(got), end.io.buf, later);
    FramerSeesIpv4(framerMagic, end.io.buf + later);
    var tail := Drain(Ppp.Decode, end.io.buf + later);
    StagedIsDecoded(framerMagic, got, end.io.buf + later, Ipv4Of(tail.events), tail.tail);
    Assoc(end.early, end.io.buf, later);
  }

  /** The payloads of the whole stream are those of the frames taken, then those of the rest. */
  lemma Reassembled(all: Bytes, frames: seq<PppFrame>, buf: Bytes, later: Bytes)
    requires StripPrologue(all).Settled? && Peels(StripPrologue(all).rest, frames, buf)
    requires Consumes(Ppp.Decode)
    ensures var stream, tail := Drain(Ppp.Decode, StripPrologue(all).rest + later), Drain(Ppp.Decode, buf + later);
      Ipv4Of(stream.events) == Ipv4Of(frames) + Ipv4Of(tail.events) && stream.tail == tail.tail
  {
    PeelsMore(StripPrologue(all).rest, frames, buf, later);
    PeeledIsDrained(StripPrologue(all).rest + later, frames, buf + later);
    Ipv4Concat(frames, Drain(Ppp.Decode, buf + later).events);
  }

  lemma {:induction false} ReceiveSettles(io: Inbox)
    ensures Receive(io).0.Got? || io.settled ==> Receive(io).0.Lost? || Receive(io).1.settled
    decreases |io.script|
  {
    var (decided, now) := Poll(io);
    if decided.None? && now.script != [] && now.script[0].Arrived? && now.script[0].data != [] {
      ReceiveSettles(now.(script := now.script[1..]).(buf := now.buf + now.script[0].data));
    }
  }

  /** No loop ends on silence, so success comes with a frame, and with it the prologue is settled. */
  lemma {:induction false} UpIsSettled(magic: Magic, clock: Clock, run: Run)
    requires run.client.Negotiating() && Drive(magic, clock, run).client.Up?
    requires run.client.InLcp? ==> !(run.client.l.ours && run.client.l.theirs)
    requires run.client.InIpcp? ==> !(run.client.i.ours && run.client.i.theirs)
    ensures Drive(magic, clock, run).io.settled
    decreases RoundsLeft(run.client)
  {
    DrivesOn(magic, clock, run);
    ReceiveSettles(run.io);
    var next := Pass(magic, run);
    if next.client.Negotiating() {
      UpIsSettled(magic, clock, next);
    }
  }
}
