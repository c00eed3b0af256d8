/** What receiving takes off the stream: the prologue once, then whole frames in order, and nothing else. */
module Arrivals {
  import opened Wire
  import opened Errors
  import opened StreamDecoding
  import opened Ppp
  import opened Negotiation
  import opened PppIo
  import Forti

  // ---------------------------------------------------------------------------
  // The HTTP prologue
  // ---------------------------------------------------------------------------

  /** The prologue check never touches a stream that starts with a whole frame. */
  lemma FramesAreNotPrologue(b: Bytes)
    requires Forti.Decode(b).Frame?
    ensures StripPrologue(b) == Settled(b)
  {
    assert |b| >= 5 ==> b[..5][2] == b[2];
  }

  /** A decision on a prefix, carried over to the whole stream. */
  function Extend(p: Prologue, more: Bytes): Prologue {
    if p.Settled? then Settled(p.rest + more) else p
  }

  /** Whatever front part of the stream a read delivers first, a decision made on it stands. */
  ghost predicate SplitIndependent(all: Bytes) {
    forall cut :: 0 <= cut <= |all| && !StripPrologue(all[..cut]).Partial? ==>
      StripPrologue(all) == Extend(StripPrologue(all[..cut]), all[cut..])
  }

  /** The header block ends more than one byte past the 8 KiB guard. */
  predicate LateHeaderEnd(all: Bytes) {
    StartsLikeHttp(all) && HeaderEnd(all).Some? && HeaderEnd(all).value > PROLOGUE_GUARD + 1
  }

  lemma DecisionStands(all: Bytes, cut: nat)
    requires cut <= |all| && !StripPrologue(all[..cut]).Partial?
    requires StripPrologue(all[..cut]).Settled? || !LateHeaderEnd(all)
    ensures StripPrologue(all) == Extend(StripPrologue(all[..cut]), all[cut..])
  {
    var a := all[..cut];
    assert all == a + all[cut..];
    assert a[..5] == all[..5];
    HeaderEndCut(all, cut, 0);
    if StartsLikeHttp(a) && HeaderEnd(a).Some? {
      var end := HeaderEnd(a).value;
      assert a[..end] == all[..end] && all[end..] == a[end..] + all[cut..];
    }
  }

  /** The prologue check gives the same answer for every split exactly when the header block is not late. */
  lemma PrologueSplits(all: Bytes)
    ensures SplitIndependent(all) <==> !LateHeaderEnd(all)
  {
    if !LateHeaderEnd(all) {
      forall cut | 0 <= cut <= |all| && !StripPrologue(all[..cut]).Partial?
        ensures StripPrologue(all) == Extend(StripPrologue(all[..cut]), all[cut..])
      {
        DecisionStands(all, cut);
      }
    } else {
      var cut := PROLOGUE_GUARD + 1;
      HeaderEndCut(all, cut, 0);
      assert all[..cut][..5] == all[..5];
      assert StripPrologue(all[..cut]) == Refused(Protocol(OversizedHeader));
    }
  }

  const HTTP_SLASH: Bytes := [0x48, 0x54, 0x54, 0x50, 0x2F]

  lemma {:induction false} BlankLineFound(b: Bytes, from: nat, at: nat)
    requires from <= at && BlankLineAt(b, at) && forall i :: from <= i < at ==> b[i] != 0x0D
    ensures HeaderEndFrom(b, from) == Some(at + 4)
    decreases at - from
  {
    if from < at {
      BlankLineFound(b, from + 1, at);
    }
  }

  /** A header block padded past the guard: whole it is judged by its status, in two reads it can be refused for its size. */
  lemma LongHeaderIsLate(pad: Bytes)
    requires |pad| > PROLOGUE_GUARD - 8 && 0x0D !in pad
    ensures LateHeaderEnd(HTTP_SLASH + pad + BLANK_LINE) && !SplitIndependent(HTTP_SLASH + pad + BLANK_LINE)
  {
    var front := HTTP_SLASH + pad;
    var all := front + BLANK_LINE;
    assert all[..5] == HTTP_SLASH;
    assert forall i :: 0 <= i < 4 ==> all[|front| + i] == BLANK_LINE[i];
    assert forall i :: 5 <= i < |front| ==> all[i] == pad[i - 5];
    assert forall i :: 0 <= i < 5 ==> all[i] == HTTP_SLASH[i];
    BlankLineFound(all, 0, |front|);
    PrologueSplits(all);
  }

  lemma SettledStays(b: Bytes, more: Bytes)
    requires StripPrologue(b).Settled?
    ensures StripPrologue(b + more) == Settled(StripPrologue(b).rest + more)
  {
    assert (b + more)[..|b|] == b && (b + more)[|b|..] == more;
    DecisionStands(b + more, |b|);
  }

  // ---------------------------------------------------------------------------
  // Frames taken off the front of a stream
  // ---------------------------------------------------------------------------

  /** Decoding takes exactly `frames` off `stream` and leaves `rest`. */
  ghost predicate Peels(stream: Bytes, frames: seq<PppFrame>, rest: Bytes)
    decreases |frames|
  {
    if frames == [] then stream == rest
    else
      match Ppp.Decode(stream)
      case Frame(f, n) => f == frames[0] && 0 < n <= |stream| && Peels(stream[n..], frames[1..], rest)
      case _ => false
  }

  lemma DropFromFront(a: Bytes, b: Bytes, n: nat)
    requires n <= |a|
    ensures (a + b)[n..] == a[n..] + b
  {
  }

  lemma {:induction false} PeelsMore(stream: Bytes, frames: seq<PppFrame>, rest: Bytes, more: Bytes)
    requires Peels(stream, frames, rest)
    ensures Peels(stream + more, frames, rest + more)
    decreases |frames|
  {
    if frames != [] {
      var n := Ppp.Decode(stream).used;
      Ppp.StableOn(stream, more);
      DropFromFront(stream, more, n);
      PeelsMore(stream[n..], frames[1..], rest, more);
    }
  }

  lemma {:induction false} PeelsOneMore(stream: Bytes, frames: seq<PppFrame>, rest: Bytes, f: PppFrame, n: nat)
    requires Peels(stream, frames, rest) && Ppp.Decode(rest) == Frame(f, n) && 0 < n <= |rest|
    ensures Peels(stream, frames + [f], rest[n..])
    decreases |frames|
  {
    if frames == [] {
      assert ([] + [f])[1..] == [];
    } else {
      var m := Ppp.Decode(stream).used;
      assert (frames + [f])[1..] == frames[1..] + [f];
      PeelsOneMore(stream[m..], frames[1..], rest, f, n);
    }
  }

  lemma {:induction false} PeeledIsDrained(stream: Bytes, frames: seq<PppFrame>, rest: Bytes)
    requires Consumes(Ppp.Decode) && Peels(stream, frames, rest)
    ensures Drain(Ppp.Decode, stream)
         == Drained(frames + Drain(Ppp.Decode, rest).events, Drain(Ppp.Decode, rest).tail)
    decreases |frames|
  {
    var events := Drain(Ppp.Decode, rest).events;
    if frames == [] {
      assert [] + events == events;
    } else {
      DrainOne(Ppp.Decode, stream);
      PeeledIsDrained(stream[Ppp.Decode(stream).used..], frames[1..], rest);
      Assoc([frames[0]], frames[1..], events);
      assert [frames[0]] + frames[1..] == frames;
    }
  }

  // ---------------------------------------------------------------------------
  // What receiving does to the stream
  // ---------------------------------------------------------------------------

  function Delivered(script: seq<Read>): Bytes {
    if script == [] then []
    else (if script[0].Arrived? then script[0].data else []) + Delivered(script[1..])
  }

  lemma {:induction false} DeliveredConcat(a: seq<Read>, b: seq<Read>)
    ensures Delivered(a + b) == Delivered(a) + Delivered(b)
  {
    if a == [] {
      assert a + b == b;
    } else {
      assert (a + b)[1..] == a[1..] + b;
      DeliveredConcat(a[1..], b);
    }
  }

  function FramesOf(got: seq<Recv>): seq<PppFrame> {
    if got == [] then []
    else FramesOf(got[..|got| - 1]) + FrameIn(got[|got| - 1])
  }

  function FrameIn(r: Recv): seq<PppFrame> {
    if r.Got? then [r.frame] else []
  }

  /**
   * `all` is everything read so far, `frames` what has been handed out: the rest
   * is in the buffer, and nothing else has been dropped but the prologue.
   */
  ghost predicate Accounted(all: Bytes, frames: seq<PppFrame>, io: Inbox) {
    if io.settled then StripPrologue(all).Settled? && Peels(StripPrologue(all).rest, frames, io.buf)
    else frames == [] && io.buf == all
  }

  lemma FrameAccounts(all: Bytes, frames: seq<PppFrame>, io: Inbox)
    requires Accounted(all, frames, io) && io.settled
    requires !(PollFrame(io).0.Some? && PollFrame(io).0.value.Lost?)
    ensures var (decided, now) := PollFrame(io);
      && now.script == io.script
      && (decided.None? ==> now == io)
      && (decided.Some? ==> Accounted(all, frames + FrameIn(decided.value), now))
  {
    var step := Ppp.Decode(io.buf);
    if step.Frame? {
      Ppp.StableOn(io.buf, []);
      PeelsOneMore(StripPrologue(all).rest, frames, io.buf, step.event, step.used);
    }
  }

  lemma PollAccounts(all: Bytes, frames: seq<PppFrame>, io: Inbox)
    requires Accounted(all, frames, io)
    requires !(Poll(io).0.Some? && Poll(io).0.value.Lost?)
    ensures var (decided, now) := Poll(io);
      && now.script == io.script
      && (decided.None? ==> Accounted(all, frames, now))
      && (decided.Some? ==> Accounted(all, frames + FrameIn(decided.value), now))
  {
    if io.settled {
      FrameAccounts(all, frames, io);
    } else if StripPrologue(io.buf).Settled? {
      FrameAccounts(all, frames, Inbox(StripPrologue(io.buf).rest, true, io.script));
    }
  }

  lemma ArrivalAccounts(all: Bytes, frames: seq<PppFrame>, io: Inbox, data: Bytes, script: seq<Read>)
    requires Accounted(all, frames, io)
    ensures Accounted(all + data, frames, Inbox(io.buf + data, io.settled, script))
  {
    if io.settled {
      SettledStays(all, data);
      PeelsMore(StripPrologue(all).rest, frames, io.buf, data);
    }
  }

  /** The inbox after one arrival that did not decide anything yet. */
  function Fed(io: Inbox): Inbox
    requires io.script != [] && io.script[0].Arrived?
  {
    Inbox(io.buf + io.script[0].data, io.settled, io.script[1..])
  }

  lemma ReceiveUnfolds(io: Inbox)
    requires Poll(io).0.None? && Poll(io).1.script == io.script && io.script != []
    ensures io.script[0].Arrived? && io.script[0].data != [] ==> Receive(io) == Receive(Fed(Poll(io).1))
  {
  }

  ghost predicate ReceivedWith(all: Bytes, frames: seq<PppFrame>, io: Inbox, used: seq<Read>) {
    var (r, later) := Receive(io);
    && io.script == used + later.script
    && Accounted(all + Delivered(used), frames + FrameIn(r), later)
  }

  lemma {:induction false} ReceiveAccounts(all: Bytes, frames: seq<PppFrame>, io: Inbox) returns (used: seq<Read>)
    requires Accounted(all, frames, io) && !Receive(io).0.Lost?
    ensures ReceivedWith(all, frames, io, used)
    decreases |io.script|
  {
    var (decided, now) := Poll(io);
    PollAccounts(all, frames, io);
    if decided.Some? || now.script == [] {
      used := [];
      assert all + Delivered([]) == all && frames + [] == frames && used + now.script == now.script;
    } else if now.script[0].Quiet? {
      used := [now.script[0]];
      assert all + Delivered(used) == all && frames + [] == frames;
    } else {
      ReceiveUnfolds(io);
      ArrivalAccounts(all, frames, now, now.script[0].data, now.script[1..]);
      var more := ReceiveAccounts(all + now.script[0].data, frames, Fed(now));
      used := [now.script[0]] + more;
      OneMoreRead(all, frames, io, now, more);
    }
  }

  lemma OneMoreRead(all: Bytes, frames: seq<PppFrame>, io: Inbox, now: Inbox, more: seq<Read>)
    requires now.script == io.script != [] && io.script[0].Arrived?
    requires Receive(io) == Receive(Fed(now))
    requires ReceivedWith(all + now.script[0].data, frames, Fed(now), more)
    ensures ReceivedWith(all, frames, io, [now.script[0]] + more)
  {
    var used := [now.script[0]] + more;
    assert used[1..] == more;
    assert Delivered(used) == now.script[0].data + Delivered(more);
    Assoc(all, now.script[0].data, Delivered(more));
    assert io.script == [io.script[0]] + io.script[1..];
    Assoc([io.script[0]], more, Receive(io).1.script);
  }

  /** These frames have come in this order, each whole, right behind the prologue of what was read. */
  ghost predicate CameIn(all: Bytes, frames: seq<PppFrame>) {
    frames != [] ==> StripPrologue(all).Settled? && exists rest: Bytes :: Peels(StripPrologue(all).rest, frames, rest)
  }

  lemma AccountedCameIn(all: Bytes, frames: seq<PppFrame>, io: Inbox)
    requires Accounted(all, frames, io)
    ensures CameIn(all, frames)
  {
  }

  lemma CameInStays(all: Bytes, frames: seq<PppFrame>, more: Bytes)
    requires CameIn(all, frames)
    ensures CameIn(all + more, frames)
  {
    if frames != [] {
      var rest: Bytes :| Peels(StripPrologue(all).rest, frames, rest);
      SettledStays(all, more);
      PeelsMore(StripPrologue(all).rest, frames, rest, more);
    }
  }

  lemma PollReadsNothing(io: Inbox)
    ensures Poll(io).1.script == io.script
  {
  }

  /** Whatever a receive brings, it has read a front part of the script. */
  lemma {:induction false} ReceiveReads(io: Inbox) returns (used: seq<Read>)
    ensures io.script == used + Receive(io).1.script
    decreases |io.script|
  {
    var (decided, now) := Poll(io);
    PollReadsNothing(io);
    if decided.Some? || now.script == [] {
      used := [];
    } else if now.script[0].Arrived? && now.script[0].data != [] {
      ReceiveUnfolds(io);
      var more := ReceiveReads(Fed(now));
      used := [now.script[0]] + more;
      Assoc([now.script[0]], more, Receive(io).1.script);
    } else {
      used := [now.script[0]];
    }
  }
}
