/** The loop that reads a whole response: when the split of the stream matters to it, and when the body is whole. */
module HttpResponse {
  import opened Wire
  import opened Errors
  import opened StreamDecoding
  import opened Http
  import PppIo

  /** What the loop needs from a parsed head. */
  datatype ResponseHead = ResponseHead(status: nat, chunked: bool, length: Option<nat>)

  type HeadParser = Bytes -> Result<ResponseHead, VpnError>

  datatype Response = Response(head: ResponseHead, body: Bytes)

  type Outcome = Result<Response, VpnError>

  /** How the stream ends once everything has been read. A close without notice counts as closed. */
  datatype Ending = Closed | Failed

  // ---------------------------------------------------------------------------
  // What the loop computes
  // ---------------------------------------------------------------------------

  /** The answer if the bytes so far already delimit the response. */
  ghost function Delimited(h: ResponseHead, rest: Bytes): Option<Outcome> {
    if h.chunked then
      match Dechunk(rest)
      case Whole(body) => Some(Ok(Response(h, body)))
      case Bad(e) => Some(Err(e))
      case Incomplete => None
    else if h.length.Some? then
      if h.length.value > RESPONSE_MAX then Some(Err(Protocol(OversizedBody)))
      else if |rest| >= h.length.value then Some(Ok(Response(h, rest[..h.length.value])))
      else None
    else None
  }

  ghost function Decide(parse: HeadParser, buf: Bytes): Option<Outcome> {
    match PppIo.HeaderEnd(buf)
    case None => None
    case Some(end) =>
      match parse(buf[..end])
      case Err(e) => Some(Err(e))
      case Ok(h) => Delimited(h, buf[end..])
  }

  /** At end of stream whatever follows the head is the body. */
  function AtEnd(parse: HeadParser, buf: Bytes, ending: Ending): Outcome {
    if ending.Failed? then Err(VpnError.Io(Transport))
    else
      match PppIo.HeaderEnd(buf)
      case None => Err(Protocol(HeadIncomplete))
      case Some(end) =>
        match parse(buf[..end])
        case Err(e) => Err(e)
        case Ok(h) => Ok(Response(h, buf[end..]))
  }

  ghost function Answer(parse: HeadParser, buf: Bytes, arrivals: seq<Bytes>, ending: Ending): Outcome
    decreases |arrivals|
  {
    if Decide(parse, buf).Some? then Decide(parse, buf).value
    else if |buf| > RESPONSE_MAX then Err(Protocol(OversizedResponse))
    else if arrivals == [] then AtEnd(parse, buf, ending)
    else if arrivals[0] == [] then AtEnd(parse, buf, Closed)
    else Answer(parse, buf + arrivals[0], arrivals[1..], ending)
  }

  method ReadResponse(parse: HeadParser, arrivals: seq<Bytes>, ending: Ending) returns (r: Outcome)
    ensures r == Answer(parse, [], arrivals, ending)
  {
    var buf: Bytes := [];
    var head: Option<(nat, ResponseHead)> := None;
    var k: nat := 0;
    assert arrivals[0..] == arrivals;
    while true
      invariant k <= |arrivals|
      invariant Answer(parse, buf, arrivals[k..], ending) == Answer(parse, [], arrivals, ending)
      invariant head.Some? ==> HeadAt(parse, buf, head.value.0, head.value.1)
      decreases |arrivals| - k
    {
      if head.None? {
        var end := PppIo.FindHeaderEnd(buf);
        if end.Some? {
          var parsed := parse(buf[..end.value]);
          if parsed.Err? {
            return Err(parsed.error);
          }
          head := Some((end.value, parsed.value));
        }
      }
      if head.Some? {
        var (end, h) := head.value;
        var rest := buf[end..];
        if h.chunked {
          var body := DecodeChunked(rest);
          if body.Bad? {
            return Err(body.error);
          }
          if body.Whole? {
            return Ok(Response(h, body.data));
          }
        } else if h.length.Some? {
          if h.length.value > RESPONSE_MAX {
            return Err(Protocol(OversizedBody));
          }
          if |rest| >= h.length.value {
            return Ok(Response(h, rest[..h.length.value]));
          }
        }
      }
      if |buf| > RESPONSE_MAX {
        return Err(Protocol(OversizedResponse));
      }
      if k == |arrivals| && ending.Failed? {
        return Err(VpnError.Io(Transport));
      }
      if k == |arrivals| || arrivals[k] == [] {
        return if head.Some? then Ok(Response(head.value.1, buf[head.value.0..])) else Err(Protocol(HeadIncomplete));
      }
      if head.Some? {
        HeadStays(parse, buf, arrivals[k], head.value.0, head.value.1);
      }
      assert arrivals[k..][0] == arrivals[k] && arrivals[k..][1..] == arrivals[k + 1..];
      buf := buf + arrivals[k];
      k := k + 1;
    }
  }

  ghost predicate HeadAt(parse: HeadParser, buf: Bytes, end: nat, h: ResponseHead) {
    PppIo.HeaderEnd(buf) == Some(end) && parse(buf[..end]) == Ok(h)
  }

  lemma HeaderEndStays(buf: Bytes, more: Bytes)
    requires PppIo.HeaderEnd(buf).Some?
    ensures PppIo.HeaderEnd(buf + more) == PppIo.HeaderEnd(buf)
    ensures var end := PppIo.HeaderEnd(buf).value;
      (buf + more)[..end] == buf[..end] && (buf + more)[end..] == buf[end..] + more
  {
    var all := buf + more;
    assert all[..|buf|] == buf;
    PppIo.HeaderEndCut(all, |buf|, 0);
  }

  lemma HeadStays(parse: HeadParser, buf: Bytes, more: Bytes, end: nat, h: ResponseHead)
    requires HeadAt(parse, buf, end, h)
    ensures HeadAt(parse, buf + more, end, h)
  {
    HeaderEndStays(buf, more);
  }

  // ---------------------------------------------------------------------------
  // The split of the stream does not matter
  // ---------------------------------------------------------------------------

  lemma DecideIsStable(parse: HeadParser, buf: Bytes, more: Bytes)
    requires Decide(parse, buf).Some?
    ensures Decide(parse, buf + more) == Decide(parse, buf)
  {
    HeaderEndStays(buf, more);
    var end := PppIo.HeaderEnd(buf).value;
    if parse(buf[..end]).Ok? {
      DelimitedStays(parse(buf[..end]).value, buf[end..], more);
    }
  }

  lemma DelimitedStays(h: ResponseHead, rest: Bytes, more: Bytes)
    requires Delimited(h, rest).Some?
    ensures Delimited(h, rest + more) == Delimited(h, rest)
  {
    if h.chunked {
      DechunkIsStable(rest, more);
    } else if h.length.value <= RESPONSE_MAX {
      assert (rest + more)[..h.length.value] == rest[..h.length.value];
    }
  }

  /** No read comes back empty, or longer than the read buffer. */
  predicate GoodReads(arrivals: seq<Bytes>) {
    forall k :: 0 <= k < |arrivals| ==> 1 <= |arrivals[k]| <= READ_MAX
  }

  predicate IsSplit(arrivals: seq<Bytes>, stream: Bytes) {
    GoodReads(arrivals) && Concat(arrivals) == stream
  }

  /** The stream, or its decision, stays within the guard. */
  ghost predicate Within(parse: HeadParser, stream: Bytes) {
    |stream| <= RESPONSE_MAX || Decide(parse, stream[..RESPONSE_MAX + 1]).Some?
  }

  lemma {:induction false} AnswerWithin(parse: HeadParser, buf: Bytes, arrivals: seq<Bytes>, ending: Ending)
    requires GoodReads(arrivals) && Within(parse, buf + Concat(arrivals))
    ensures var stream := buf + Concat(arrivals);
      Answer(parse, buf, arrivals, ending)
      == if Decide(parse, stream).Some? then Decide(parse, stream).value else AtEnd(parse, stream, ending)
    decreases |arrivals|
  {
    var stream := buf + Concat(arrivals);
    if Decide(parse, buf).Some? {
      DecideIsStable(parse, buf, Concat(arrivals));
    } else {
      if |buf| > RESPONSE_MAX {
        var front := stream[..RESPONSE_MAX + 1];
        assert front + buf[RESPONSE_MAX + 1..] == buf;
        DecideIsStable(parse, front, buf[RESPONSE_MAX + 1..]);
        assert false;
      }
      if arrivals == [] {
        assert stream == buf;
      } else {
        assert buf + arrivals[0] + Concat(arrivals[1..]) == stream;
        AnswerWithin(parse, buf + arrivals[0], arrivals[1..], ending);
      }
    }
  }

  /** Undecided when the guard trips, and for as long as one more read could have reached. */
  ghost predicate Beyond(parse: HeadParser, stream: Bytes) {
    |stream| > RESPONSE_MAX && Decide(parse, stream[..Reach(stream)]).None?
  }

  /** The most the buffer can hold when the guard is checked for the last time. */
  function Reach(stream: Bytes): (n: nat)
    ensures n <= |stream|
  {
    if |stream| <= RESPONSE_MAX + READ_MAX then |stream| else RESPONSE_MAX + READ_MAX
  }

  lemma UndecidedBefore(parse: HeadParser, stream: Bytes, short: nat, long: nat)
    requires short <= long <= |stream| && Decide(parse, stream[..long]).None?
    ensures Decide(parse, stream[..short]).None?
  {
    if Decide(parse, stream[..short]).Some? {
      assert stream[..short] + stream[short..long] == stream[..long];
      DecideIsStable(parse, stream[..short], stream[short..long]);
    }
  }

  lemma {:induction false} AnswerBeyond(parse: HeadParser, buf: Bytes, arrivals: seq<Bytes>, ending: Ending)
    requires GoodReads(arrivals) && |buf| <= RESPONSE_MAX + READ_MAX && Beyond(parse, buf + Concat(arrivals))
    ensures Answer(parse, buf, arrivals, ending) == Err(Protocol(OversizedResponse))
    decreases |arrivals|
  {
    var stream := buf + Concat(arrivals);
    assert stream[..|buf|] == buf;
    UndecidedBefore(parse, stream, |buf|, Reach(stream));
    if |buf| <= RESPONSE_MAX {
      assert arrivals != [];
      assert buf + arrivals[0] + Concat(arrivals[1..]) == stream;
      AnswerBeyond(parse, buf + arrivals[0], arrivals[1..], ending);
    }
  }

  // ---------------------------------------------------------------------------
  // Exactly when
  // ---------------------------------------------------------------------------

  ghost predicate SameForEverySplit(parse: HeadParser, stream: Bytes, ending: Ending) {
    forall a, b :: IsSplit(a, stream) && IsSplit(b, stream) ==>
      Answer(parse, [], a, ending) == Answer(parse, [], b, ending)
  }

  /** Reads of at most `n` bytes each, as full as they can be. */
  function Blocks(stream: Bytes, n: nat): seq<Bytes>
    requires n > 0
    decreases |stream|
  {
    if stream == [] then []
    else if |stream| <= n then [stream]
    else [stream[..n]] + Blocks(stream[n..], n)
  }

  lemma {:induction false} BlocksSplit(stream: Bytes, n: nat)
    requires 0 < n <= READ_MAX
    ensures IsSplit(Blocks(stream, n), stream)
    decreases |stream|
  {
    if |stream| > n {
      var first, later := stream[..n], Blocks(stream[n..], n);
      BlocksSplit(stream[n..], n);
      assert ([first] + later)[1..] == later;
      assert Concat([first] + later) == first + Concat(later);
    } else if stream != [] {
      assert Concat([stream]) == stream + Concat([]);
    }
  }

  lemma NextBlock(stream: Bytes, at: nat, n: nat)
    requires n > 0 && at < |stream|
    ensures var more := Blocks(stream[at..], n);
      var to := if at + n <= |stream| then at + n else |stream|;
      more != [] && stream[..at] + more[0] == stream[..to] && more[1..] == Blocks(stream[to..], n) && more[0] != []
  {
  }

  /** Read byte by byte, the guard trips at its own edge. */
  lemma {:induction false} BytewiseTrips(parse: HeadParser, stream: Bytes, at: nat, ending: Ending)
    requires |stream| > RESPONSE_MAX && at <= RESPONSE_MAX + 1 && Decide(parse, stream[..RESPONSE_MAX + 1]).None?
    ensures Answer(parse, stream[..at], Blocks(stream[at..], 1), ending) == Err(Protocol(OversizedResponse))
    decreases RESPONSE_MAX + 1 - at
  {
    UndecidedBefore(parse, stream, at, RESPONSE_MAX + 1);
    if at <= RESPONSE_MAX {
      NextBlock(stream, at, 1);
      BytewiseTrips(parse, stream, at + 1, ending);
    }
  }

  /** Read in full buffers, the last read before the guard carries the decision in. */
  lemma {:induction false} FullReadsDecide(parse: HeadParser, stream: Bytes, at: nat, ending: Ending)
    requires |stream| > RESPONSE_MAX && at <= RESPONSE_MAX && at % READ_MAX == 0
    requires Decide(parse, stream[..RESPONSE_MAX + 1]).None? && Decide(parse, stream[..Reach(stream)]).Some?
    ensures Some(Answer(parse, stream[..at], Blocks(stream[at..], READ_MAX), ending)) == Decide(parse, stream[..Reach(stream)])
    decreases RESPONSE_MAX - at
  {
    UndecidedBefore(parse, stream, at, RESPONSE_MAX + 1);
    NextBlock(stream, at, READ_MAX);
    if at < RESPONSE_MAX {
      FullReadsDecide(parse, stream, at + READ_MAX, ending);
    }
  }

  /** The head parser reports conditions of its own. */
  ghost predicate OwnErrors(parse: HeadParser) {
    forall b :: parse(b) != Err(Protocol(OversizedResponse))
  }

  lemma {:induction false} ChunkErrors(take: (Bytes, nat) -> Turn, b: Bytes, taken: nat)
    requires Shrinks(take)
    requires forall c, n :: take(c, n) != Settled(Bad(Protocol(OversizedResponse)))
    ensures Passes(take, b, taken) != Bad(Protocol(OversizedResponse))
    decreases |b|
  {
    if take(b, taken).Took? {
      ChunkErrors(take, take(b, taken).rest, taken + |take(b, taken).data|);
    }
  }

  lemma DecideNeverTrips(parse: HeadParser, buf: Bytes)
    requires OwnErrors(parse)
    ensures Decide(parse, buf) != Some(Err(Protocol(OversizedResponse)))
  {
    if PppIo.HeaderEnd(buf).Some? {
      ChunkErrors(TakeChunk, buf[PppIo.HeaderEnd(buf).value..], 0);
    }
  }

  /**
   * The answer is the same for every split exactly when the response is
   * decided, or the stream ends, by the first byte past the guard, or when not
   * even a full last read could have decided it.
   */
  lemma AnswerIgnoresSplitExactlyWhen(parse: HeadParser, stream: Bytes, ending: Ending)
    requires OwnErrors(parse)
    ensures SameForEverySplit(parse, stream, ending) <==> Within(parse, stream) || Beyond(parse, stream)
  {
    assert [] + stream == stream;
    if Within(parse, stream) {
      forall a | IsSplit(a, stream)
        ensures Answer(parse, [], a, ending)
             == if Decide(parse, stream).Some? then Decide(parse, stream).value else AtEnd(parse, stream, ending)
      {
        AnswerWithin(parse, [], a, ending);
      }
    } else if Beyond(parse, stream) {
      forall a | IsSplit(a, stream)
        ensures Answer(parse, [], a, ending) == Err(Protocol(OversizedResponse))
      {
        AnswerBeyond(parse, [], a, ending);
      }
    } else {
      assert stream[..0] == [] && stream[0..] == stream;
      BlocksSplit(stream, 1);
      BlocksSplit(stream, READ_MAX);
      BytewiseTrips(parse, stream, 0, ending);
      FullReadsDecide(parse, stream, 0, ending);
      DecideNeverTrips(parse, stream[..Reach(stream)]);
    }
  }

  /** A parser that finds this `Content-Length` in every header block. */
  function Counts(n: nat): HeadParser {
    b => Ok(ResponseHead(200, false, Some(n)))
  }

  /**
   * A header block and then a body as long as the guard: the head pushes the
   * buffer past the guard before the body is complete, so the split decides.
   */
  lemma SplitCanMatter(body: Bytes, ending: Ending)
    requires |body| == RESPONSE_MAX
    ensures var stream := PppIo.BLANK_LINE + body;
      && OwnErrors(Counts(RESPONSE_MAX))
      && !Within(Counts(RESPONSE_MAX), stream) && !Beyond(Counts(RESPONSE_MAX), stream)
      && !SameForEverySplit(Counts(RESPONSE_MAX), stream, ending)
  {
    var parse, stream, cut := Counts(RESPONSE_MAX), PppIo.BLANK_LINE + body, RESPONSE_MAX + 1;
    HeadOf(parse, stream);
    HeadOf(parse, stream[..cut]);
    assert stream[..Reach(stream)] == stream;
    assert Decide(parse, stream[..cut]).None?;
    assert Decide(parse, stream).Some?;
    AnswerIgnoresSplitExactlyWhen(parse, stream, ending);
  }

  lemma HeadOf(parse: HeadParser, stream: Bytes)
    requires PppIo.BLANK_LINE <= stream && parse(PppIo.BLANK_LINE).Ok?
    ensures HeadAt(parse, stream, 4, parse(PppIo.BLANK_LINE).value)
  {
    assert forall i :: 0 <= i < 4 ==> stream[i] == PppIo.BLANK_LINE[i];
    assert PppIo.BlankLineAt(stream, 0);
    assert stream[..4] == PppIo.BLANK_LINE;
  }

  // ---------------------------------------------------------------------------
  // When the body is whole
  // ---------------------------------------------------------------------------

  predicate HasDelimiter(h: ResponseHead) {
    h.chunked || h.length.Some?
  }

  /** What the head says the body of these bytes is (RFC 9112 section 6.3). */
  ghost predicate Delimits(h: ResponseHead, rest: Bytes, body: Bytes) {
    if h.chunked then Dechunk(rest) == Whole(body)
    else if h.length.Some? then |body| == h.length.value && body <= rest
    else body == rest
  }

  /**
   * The response handed back is the one its head delimits if and only if the
   * delimiter has arrived, within the guard; with no delimiter, if and only if
   * the peer closed. A body the head does not delimit is handed back if and
   * only if the peer closed before the delimiter: what was delivered, chunk
   * framing included, is then the body. A failed read hands back nothing.
   */
  lemma BodyIsWholeExactlyWhen(parse: HeadParser, arrivals: seq<Bytes>, ending: Ending, h: ResponseHead, end: nat)
    requires GoodReads(arrivals) && Within(parse, Concat(arrivals)) && HeadAt(parse, Concat(arrivals), end, h)
    ensures var rest, r := Concat(arrivals)[end..], Answer(parse, [], arrivals, ending);
      var arrived := Delimited(h, rest);
      && (r.Ok? && Delimits(h, rest, r.value.body)
          <==> if HasDelimiter(h) then arrived.Some? && arrived.value.Ok? else ending.Closed?)
      && (r.Ok? && !Delimits(h, rest, r.value.body)
          <==> HasDelimiter(h) && arrived.None? && ending.Closed?)
      && (r.Ok? ==> r.value.head == h)
      && (r.Ok? && !Delimits(h, rest, r.value.body) ==> r.value.body == rest)
      && (arrived.None? && ending.Failed? ==> r == Err(VpnError.Io(Transport)))
  {
    assert [] + Concat(arrivals) == Concat(arrivals);
    AnswerWithin(parse, [], arrivals, ending);
  }

  /** Two bytes announced, one delivered, then a clean close: a response with a one-byte body. */
  lemma TruncatedBodyIsAccepted()
    ensures var h, stream := ResponseHead(200, false, Some(2)), PppIo.BLANK_LINE + [0x78];
      && IsSplit([stream], stream)
      && Answer(Counts(2), [], [stream], Closed) == Ok(Response(h, [0x78]))
      && forall body :: !Delimits(h, [0x78], body)
  {
    var h, stream := ResponseHead(200, false, Some(2)), PppIo.BLANK_LINE + [0x78];
    assert Concat([stream]) == stream + Concat([]) == stream;
    HeadOf(Counts(2), stream);
    assert stream[4..] == [0x78];
    BodyIsWholeExactlyWhen(Counts(2), [stream], Closed, h, 4);
  }
}
