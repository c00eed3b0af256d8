/** The negotiation over a byte stream: buffered receive, the optional HTTP prologue, and both loops. */
module PppIo {
  import opened Wire
  import opened Errors
  import opened StreamDecoding
  import opened Ppp
  import opened Negotiation
  import Utf8

  // ---------------------------------------------------------------------------
  // The HTTP prologue
  // ---------------------------------------------------------------------------

  const PROLOGUE_GUARD: nat := 8 * 1024

  datatype Prologue = Settled(rest: Bytes) | Partial | Refused(error: VpnError)

  predicate StartsLikeHttp(b: Bytes) {
    |b| >= 5 && b[..5] == [0x48, 0x54, 0x54, 0x50, 0x2F]
  }

  const BLANK_LINE: Bytes := [0x0D, 0x0A, 0x0D, 0x0A]

  predicate BlankLineAt(b: Bytes, i: nat) {
    i + 4 <= |b| && b[i] == 0x0D && b[i + 1] == 0x0A && b[i + 2] == 0x0D && b[i + 3] == 0x0A
  }

  /** Just past the first `\r\n\r\n` that starts at `from` or later. */
  function HeaderEndFrom(b: Bytes, from: nat): (r: Option<nat>)
    ensures r.Some? ==> from + 4 <= r.value <= |b|
    decreases |b| - from
  {
    if from + 4 > |b| then None
    else if BlankLineAt(b, from) then Some(from + 4)
    else HeaderEndFrom(b, from + 1)
  }

  function HeaderEnd(b: Bytes): Option<nat> { HeaderEndFrom(b, 0) }

  /** A header block seen in the whole stream is seen in every prefix that holds it, and in no other. */
  lemma {:induction false} HeaderEndCut(all: Bytes, cut: nat, from: nat)
    requires cut <= |all|
    ensures HeaderEndFrom(all[..cut], from) ==
      var end := HeaderEndFrom(all, from); if end.Some? && end.value <= cut then end else None
    decreases |all| - from
  {
    if from + 4 <= |all| && !BlankLineAt(all, from) {
      HeaderEndCut(all, cut, from + 1);
    }
  }

  function FirstLine(text: string): string {
    if text == "" || text[0] == '\n' then "" else [text[0]] + FirstLine(text[1..])
  }

  predicate Contains200(line: string) {
    exists i :: 0 <= i && i + 3 <= |line| && line[i] == '2' && line[i + 1] == '0' && line[i + 2] == '0'
  }

  predicate StatusIs200(head: Bytes) {
    Contains200(FirstLine(Utf8.DecodeLossy(head)))
  }

  function StripPrologue(buf: Bytes): Prologue {
    if |buf| < 5 then Partial
    else if !StartsLikeHttp(buf) then Settled(buf)
    else
      match HeaderEnd(buf)
      case None => if |buf| > PROLOGUE_GUARD then Refused(Protocol(OversizedHeader)) else Partial
      case Some(end) => if StatusIs200(buf[..end]) then Settled(buf[end..]) else Refused(Tls(BadStatus))
  }

  // ---------------------------------------------------------------------------
  // Receiving as a function of what the socket will deliver
  // ---------------------------------------------------------------------------

  /**
   * One outcome of waiting for the socket: bytes (none at end of stream), no
   * byte before the deadline, or a failure. A deadline already past when a read
   * leaves no whole frame is `Quiet` too.
   */
  datatype Read = Arrived(data: Bytes) | Quiet(restartDue: bool) | Broke

  datatype Inbox = Inbox(buf: Bytes, settled: bool, script: seq<Read>)

  /** The decision `recv` makes before it reads: nothing yet, a frame, or an error. */
  function Poll(io: Inbox): (Option<Recv>, Inbox) {
    if !io.settled then
      match StripPrologue(io.buf)
      case Partial => (None, io)
      case Refused(e) => (Some(Lost(e)), io)
      case Settled(rest) => PollFrame(Inbox(rest, true, io.script))
    else PollFrame(io)
  }

  function PollFrame(io: Inbox): (Option<Recv>, Inbox) {
    match Ppp.Decode(io.buf)
    case NeedMore => (None, io)
    case Malformed(e) => (Some(Lost(e)), io)
    case Frame(f, n) => if n <= |io.buf| then (Some(Got(f)), io.(buf := io.buf[n..])) else (None, io)
  }

  /** A socket with nothing left to deliver stays quiet. */
  function Receive(io: Inbox): (Recv, Inbox)
    decreases |io.script|
  {
    var (decided, now) := Poll(io);
    if decided.Some? then (decided.value, now)
    else if now.script == [] then (Silence(true), now)
    else
      var later := now.(script := now.script[1..]);
      match now.script[0]
      case Quiet(due) => (Silence(due), later)
      case Broke => (Lost(VpnError.Io(Transport)), later)
      case Arrived(data) =>
        if data == [] then (Lost(Tls(PeerClosed)), later)
        else Receive(later.(buf := later.buf + data))
  }

  /** How many rounds of each loop begin before the 30-second deadline. */
  datatype Clock = Clock(lcpRounds: nat, ipcpRounds: nat)

  predicate TimeIsUp(clock: Clock, c: Client)
    requires c.Negotiating()
  {
    c.Exhausted() || c.rounds >= if c.InLcp? then clock.lcpRounds else clock.ipcpRounds
  }

  function RoundsLeft(c: Client): nat {
    if c.InLcp? then 2 * MAX_ROUNDS + 2 - (if c.Exhausted() then MAX_ROUNDS else c.rounds)
    else if c.InIpcp? then MAX_ROUNDS + 1 - (if c.Exhausted() then MAX_ROUNDS else c.rounds)
    else 0
  }

  datatype Run = Run(client: Client, early: Bytes, sent: seq<Out>, io: Inbox)

  /** One receive and what the client does with it. */
  function Pass(magic: Magic, run: Run): Run {
    var (r, io) := Receive(run.io);
    var (next, out) := Proceed(magic, run.client, r);
    Run(next, run.early + Staged(r), run.sent + out, io)
  }

  /** Both loops, from the state `run` on. */
  function Drive(magic: Magic, clock: Clock, run: Run): (end: Run)
    ensures !end.client.Negotiating()
    decreases RoundsLeft(run.client)
  {
    var c := run.client;
    if !c.Negotiating() then run
    else if TimeIsUp(clock, c) then run.(client := Down(Protocol(NotConverged)))
    else Drive(magic, clock, Pass(magic, run))
  }

  lemma DrivesOn(magic: Magic, clock: Clock, run: Run)
    requires run.client.Negotiating() && !TimeIsUp(clock, run.client)
    ensures Drive(magic, clock, run) == Drive(magic, clock, Pass(magic, run))
    ensures !Pass(magic, run).client.Negotiating() ==> Drive(magic, clock, run) == Pass(magic, run)
  {
  }

  /** What has been written stays written. */
  lemma {:induction false} DriveOnlyAppends(magic: Magic, clock: Clock, run: Run)
    ensures run.sent <= Drive(magic, clock, run).sent
    decreases RoundsLeft(run.client)
  {
    if run.client.Negotiating() && !TimeIsUp(clock, run.client) {
      DriveOnlyAppends(magic, clock, Pass(magic, run));
    }
  }

  function Start(magic: Magic, io: Inbox): Run {
    Run(Begin(magic), [], [LcpRequest(FirstLcp(magic))], io)
  }

  // ---------------------------------------------------------------------------
  // The same, as the source writes it
  // ---------------------------------------------------------------------------

  method FindHeaderEnd(b: Bytes) returns (end: Option<nat>)
    ensures end == HeaderEnd(b)
  {
    var i := 0;
    while i + 4 <= |b|
      invariant HeaderEndFrom(b, i) == HeaderEnd(b)
      decreases |b| - i
    {
      if BlankLineAt(b, i) {
        return Some(i + 4);
      }
      i := i + 1;
    }
    return None;
  }

  method StripHttpPrologue(buf: BytesMut) returns (r: Result<bool, VpnError>)
    modifies buf
    ensures match StripPrologue(old(buf.data))
            case Settled(rest) => r == Ok(true) && buf.data == rest
            case Partial => r == Ok(false) && buf.data == old(buf.data)
            case Refused(e) => r == Err(e) && buf.data == old(buf.data)
  {
    if |buf.data| < 5 {
      return Ok(false);
    }
    if buf.data[..5] != [0x48, 0x54, 0x54, 0x50, 0x2F] {
      return Ok(true);
    }
    var end := FindHeaderEnd(buf.data);
    if end.None? {
      return if |buf.data| > PROLOGUE_GUARD then Err(Protocol(OversizedHeader)) else Ok(false);
    }
    if !Contains200(FirstLine(Utf8.DecodeLossy(buf.data[..end.value]))) {
      return Err(Tls(BadStatus));
    }
    var head := buf.SplitTo(end.value);
    return Ok(true);
  }

  class PppStream {
    const buf: BytesMut
    var httpChecked: bool
    /** What the socket will deliver, and what was written to it. */
    var script: seq<Read>
    var written: seq<Out>
    /** How many writes succeed before one fails, if any does. */
    const limit: Option<nat>

    ghost function View(): Inbox
      reads this, buf
    {
      Inbox(buf.data, httpChecked, script)
    }

    predicate CanWrite()
      reads this
    {
      limit.None? || |written| < limit.value
    }

    constructor (prime: Bytes, script: seq<Read>, limit: Option<nat>)
      ensures fresh(buf) && View() == Inbox(prime, false, script) && written == [] && this.limit == limit
    {
      this.limit := limit;
      buf := new BytesMut(prime);
      httpChecked := false;
      this.script := script;
      written := [];
    }

    method Send(o: Out) returns (ok: bool)
      modifies this`written
      ensures ok == old(CanWrite())
      ensures written == old(written) + if ok then [o] else []
    {
      ok := CanWrite();
      written := written + if ok then [o] else [];
    }

    /** The decisions at the top of the source's receive loop. */
    method TryBuffered() returns (r: Option<Recv>)
      modifies this`httpChecked, buf
      ensures r == Poll(old(View())).0
      ensures !(r.Some? && r.value.Lost?) ==> View() == Poll(old(View())).1
    {
      if !httpChecked {
        var checked := StripHttpPrologue(buf);
        if checked.Err? {
          return Some(Lost(checked.error));
        }
        httpChecked := checked.value;
      }
      if httpChecked {
        var frame := Ppp.TryDecode(buf);
        if frame.Err? {
          return Some(Lost(frame.error));
        }
        return if frame.value.Some? then Some(Got(frame.value.value)) else None;
      }
      return None;
    }

    method Recv() returns (r: Recv)
      modifies this`httpChecked, this`script, buf
      ensures r == Receive(old(View())).0
      ensures !r.Lost? ==> View() == Receive(old(View())).1
    {
      ghost var start := View();
      while true
        invariant Receive(View()) == Receive(start)
        decreases |script|
      {
        var decided := TryBuffered();
        if decided.Some? {
          return decided.value;
        }
        if script == [] {
          return Silence(true);
        }
        var read := script[0];
        script := script[1..];
        match read {
          case Quiet(due) =>
            return Silence(due);
          case Broke =>
            return Lost(VpnError.Io(Transport));
          case Arrived(data) =>
            if data == [] {
              return Lost(Tls(PeerClosed));
            }
            buf.data := buf.data + data;
        }
      }
    }
  }
}
