/**
 * Decoders that take frames off the front of a growing buffer.
 *
 * The theory is about any decoder that is prefix-stable: once it has decided
 * (a frame, or an error) on a buffer, more bytes at the end do not change the
 * decision. Every framer of the client is an instance.
 */
module StreamDecoding {
  import opened Wire

  datatype Step<+E, +X> = NeedMore | Frame(event: E, used: nat) | Malformed(error: X)

  /** What draining a buffer left behind: the undecoded tail, or the first error. */
  datatype Tail<+X> = Pending(rest: Bytes) | Broken(error: X)

  datatype Drained<+E, +X> = Drained(events: seq<E>, tail: Tail<X>)

  /** A frame takes at least one byte and no more than there are. */
  ghost predicate Consumes<E(!new), X(!new)>(decode: Bytes -> Step<E, X>) {
    forall b :: decode(b).Frame? ==> 0 < decode(b).used <= |b|
  }

  ghost predicate PrefixStable<E(!new), X(!new)>(decode: Bytes -> Step<E, X>) {
    && Consumes(decode)
    && forall b, more :: !decode(b).NeedMore? ==> decode(b + more) == decode(b)
  }

  /** What a `try_decode` on a mutable buffer may do: take exactly the frame, or touch nothing. */
  ghost predicate Took<E, X>(step: Step<E, X>, before: Bytes, after: Bytes, r: Result<Option<E>, X>) {
    match step
    case NeedMore => r == Ok(None) && after == before
    case Frame(e, n) => n <= |before| && r == Ok(Some(e)) && after == before[n..]
    case Malformed(x) => r == Err(x)
  }

  /** Decode frames until none is complete or one is malformed. */
  ghost function Drain<E(!new), X(!new)>(decode: Bytes -> Step<E, X>, buf: Bytes): Drained<E, X>
    requires Consumes(decode)
    decreases |buf|
  {
    match decode(buf)
    case NeedMore => Drained([], Pending(buf))
    case Malformed(x) => Drained([], Broken(x))
    case Frame(e, n) =>
      assert 0 < n <= |buf|;
      var later := Drain(decode, buf[n..]);
      Drained([e] + later.events, later.tail)
  }

  /** Go on after one more read. Nothing is decoded after an error. */
  ghost function Feed<E(!new), X(!new)>(decode: Bytes -> Step<E, X>, d: Drained<E, X>, chunk: Bytes): Drained<E, X>
    requires Consumes(decode)
  {
    if d.tail.Broken? then d
    else
      var later := Drain(decode, d.tail.rest + chunk);
      Drained(d.events + later.events, later.tail)
  }

  ghost function FeedAll<E(!new), X(!new)>(decode: Bytes -> Step<E, X>, d: Drained<E, X>, chunks: seq<Bytes>): Drained<E, X>
    requires Consumes(decode)
    decreases |chunks|
  {
    if chunks == [] then d else FeedAll(decode, Feed(decode, d, chunks[0]), chunks[1..])
  }

  function Concat(chunks: seq<Bytes>): Bytes {
    if chunks == [] then [] else chunks[0] + Concat(chunks[1..])
  }

  lemma DrainOne<E(!new), X(!new)>(decode: Bytes -> Step<E, X>, buf: Bytes)
    requires Consumes(decode) && decode(buf).Frame?
    ensures 0 < decode(buf).used <= |buf|
    ensures Drain(decode, buf).events == [decode(buf).event] + Drain(decode, buf[decode(buf).used..]).events
    ensures Drain(decode, buf).tail == Drain(decode, buf[decode(buf).used..]).tail
  {
  }

  lemma FeedBehind<E(!new), X(!new)>(decode: Bytes -> Step<E, X>, e: E, d: Drained<E, X>, b: Bytes)
    requires Consumes(decode)
    ensures Feed(decode, Drained([e] + d.events, d.tail), b)
         == Drained([e] + Feed(decode, d, b).events, Feed(decode, d, b).tail)
  {
    if d.tail.Pending? {
      var later := Drain(decode, d.tail.rest + b).events;
      assert ([e] + d.events) + later == [e] + (d.events + later);
    }
  }

  lemma DropInFront(a: Bytes, b: Bytes, n: nat)
    requires n <= |a|
    ensures (a + b)[n..] == a[n..] + b
  {
  }

  lemma {:induction false} DrainInTwo<E(!new), X(!new)>(decode: Bytes -> Step<E, X>, a: Bytes, b: Bytes)
    requires PrefixStable(decode)
    ensures Drain(decode, a + b) == Feed(decode, Drain(decode, a), b)
    decreases |a|
  {
    match decode(a) {
      case NeedMore =>
        var later := Drain(decode, a + b);
        assert [] + later.events == later.events;
      case Malformed(x) =>
        assert decode(a + b) == decode(a);
      case Frame(e, n) =>
        assert decode(a + b) == decode(a);
        DrainOne(decode, a);
        DrainOne(decode, a + b);
        DropInFront(a, b, n);
        DrainInTwo(decode, a[n..], b);
        FeedBehind(decode, e, Drain(decode, a[n..]), b);
    }
  }

  /**
   * Feeding a stream in any split gives the same events, the same leftover and
   * the same first error as one read of the whole stream.
   */
  lemma {:induction false} ChunkingIndependence<E(!new), X(!new)>(decode: Bytes -> Step<E, X>, head: Bytes, chunks: seq<Bytes>)
    requires PrefixStable(decode)
    ensures FeedAll(decode, Drain(decode, head), chunks) == Drain(decode, head + Concat(chunks))
    decreases |chunks|
  {
    if chunks == [] {
      assert head + [] == head;
    } else {
      DrainInTwo(decode, head, chunks[0]);
      ChunkingIndependence(decode, head + chunks[0], chunks[1..]);
      assert head + chunks[0] + Concat(chunks[1..]) == head + Concat(chunks);
    }
  }

  /** The leftover is the end of the stream, and nothing can be decoded from it yet. */
  lemma {:induction false} LeftoverIsSuffix<E(!new), X(!new)>(decode: Bytes -> Step<E, X>, buf: Bytes)
    requires Consumes(decode) && Drain(decode, buf).tail.Pending?
    ensures var rest := Drain(decode, buf).tail.rest;
      |rest| <= |buf| && rest == buf[|buf| - |rest|..] && decode(rest).NeedMore?
    decreases |buf|
  {
    match decode(buf) {
      case NeedMore =>
      case Frame(e, n) =>
        assert 0 < n <= |buf|;
        LeftoverIsSuffix(decode, buf[n..]);
    }
  }

  /** A run of complete frames in front of anything is decoded off, one by one. */
  lemma FrameFirst<E(!new), X(!new)>(decode: Bytes -> Step<E, X>, frame: Bytes, event: E, rest: Bytes)
    requires PrefixStable(decode)
    requires decode(frame) == Frame(event, |frame|)
    ensures Drain(decode, frame + rest)
         == Drained([event] + Drain(decode, rest).events, Drain(decode, rest).tail)
  {
    assert decode(frame + rest) == decode(frame);
    assert (frame + rest)[|frame|..] == rest;
  }
}
