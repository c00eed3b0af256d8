/** The packet-forwarding loop: one step per wake-up, whichever of the four arms wins. */
module Forwarding {
  import opened Wire
  import opened Errors
  import opened StreamDecoding
  import opened Framers
  import R = Routing

  const MAX_TX_BATCH: nat := 32
  const MAX_MISSED_KEEPALIVES: nat := 3

  /** One read of the TUN device; no bytes means it was closed. */
  datatype TunRead = Packet(data: Bytes) | TunBroke

  /**
   * Which arm ran, and what the devices answered. `ready` lists what further
   * TUN reads would return at once; `failAt` is the index of the first write
   * that fails while inbound frames are drained.
   */
  datatype Wake =
    | Shutdown(writeOk: bool)
    | Tick(writeOk: bool)
    | TunReady(first: TunRead, ready: seq<TunRead>, writeOk: bool)
    | TlsRead(data: Bytes, failAt: Option<nat>)
    | TlsBroke

  datatype Exit = Stopped | Failed(error: VpnError)

  datatype Loop = Loop(inbound: Bytes, missed: nat, echoId: Byte, toTls: Bytes, toTun: seq<Bytes>, exit: Option<Exit>)

  function Start(prime: Bytes): Loop {
    Loop(prime, 0, 0, [], [], None)
  }

  function Leave(s: Loop, e: VpnError): Loop {
    s.(exit := Some(Failed(e)))
  }

  // ---------------------------------------------------------------------------
  // The arms
  // ---------------------------------------------------------------------------

  function OnShutdown(f: Framer, s: Loop, writeOk: bool): Loop {
    var frame := EncodeShutdown(f);
    s.(toTls := if frame.Some? && writeOk then s.toTls + frame.value else s.toTls, exit := Some(Stopped))
  }

  function OnTick(f: Framer, s: Loop, writeOk: bool): Loop {
    var frame := EncodeKeepalive(f, s.echoId);
    var bumped := s.(echoId := NextEchoId(f, s.echoId));
    if frame == [] then bumped
    else if !writeOk then Leave(bumped, VpnError.Io(Transport))
    else
      var sent := bumped.(toTls := s.toTls + frame, missed := s.missed + 1);
      if sent.missed >= MAX_MISSED_KEEPALIVES then Leave(sent, VpnError.Protocol(PeerUnresponsive)) else sent
  }

  /** What ended the opportunistic reads of a batch early. */
  datatype BatchEnd = StillOpen | SawEof | SawError

  datatype Batch = Batch(packets: seq<Bytes>, end: BatchEnd)

  function Collect(ready: seq<TunRead>, room: nat): (b: Batch)
    ensures |b.packets| <= room
    decreases room
  {
    if room == 0 || ready == [] then Batch([], StillOpen)
    else if ready[0].TunBroke? then Batch([], SawError)
    else if ready[0].data == [] then Batch([], SawEof)
    else
      var later := Collect(ready[1..], room - 1);
      Batch([ready[0].data] + later.packets, later.end)
  }

  function EncodeAll(f: Framer, packets: seq<Bytes>): Bytes {
    if packets == [] then [] else EncodeAll(f, packets[..|packets| - 1]) + EncodeData(f, packets[|packets| - 1])
  }

  /** The packets of one wake-up: the one that woke the loop and those already waiting. */
  function BatchOf(first: TunRead, ready: seq<TunRead>): (b: Batch)
    ensures |b.packets| <= MAX_TX_BATCH
  {
    if first.TunBroke? then Batch([], SawError)
    else if first.data == [] then Batch([], SawEof)
    else
      var later := Collect(ready, MAX_TX_BATCH - 1);
      Batch([first.data] + later.packets, later.end)
  }

  function OnTunReady(f: Framer, s: Loop, first: TunRead, ready: seq<TunRead>, writeOk: bool): Loop {
    var b := BatchOf(first, ready);
    if b.packets != [] && !writeOk then Leave(s, VpnError.Io(Transport))
    else
      var sent := s.(toTls := s.toTls + EncodeAll(f, b.packets));
      match b.end
      case StillOpen => sent
      case SawEof => Leave(sent, VpnError.Io(TunClosed))
      case SawError => Leave(sent, VpnError.Io(Transport))
  }

  function Behind(packets: seq<Bytes>, later: Batch): Batch {
    Batch(packets + later.packets, later.end)
  }

  lemma BehindOneMore(packets: seq<Bytes>, data: Bytes, later: Batch)
    ensures Behind(packets, Batch([data] + later.packets, later.end)) == Behind(packets + [data], later)
  {
    assert packets + ([data] + later.packets) == packets + [data] + later.packets;
  }

  lemma EncodeOneMore(f: Framer, packets: seq<Bytes>, data: Bytes)
    ensures EncodeAll(f, packets + [data]) == EncodeAll(f, packets) + EncodeData(f, data)
    ensures packets == [] ==> EncodeAll(f, [data]) == EncodeData(f, data)
  {
    assert (packets + [data])[..|packets|] == packets;
    if packets == [] {
      assert [] + [data] == [data] && [] + EncodeData(f, data) == EncodeData(f, data);
    }
  }

  type Decoder = Bytes -> Step<FrameEvent, VpnError>

  /** The effect of one decoded frame of `n` bytes; any frame proves the peer alive. */
  function AfterFrame(s: Loop, event: FrameEvent, n: nat): Loop
    requires n <= |s.inbound|
  {
    s.(inbound := s.inbound[n..],
       missed := 0,
       toTun := if event.Data? then s.toTun + [event.payload] else s.toTun,
       toTls := if event.Reply? then s.toTls + event.bytes else s.toTls)
  }

  predicate Writes(event: FrameEvent) { event.Data? || event.Reply? }

  /** Decode and act on every complete frame. */
  function DrainInbound(decode: Decoder, s: Loop, failAt: Option<nat>): Loop
    decreases |s.inbound|
  {
    match decode(s.inbound)
    case NeedMore => s
    case Malformed(e) => Leave(s, e)
    case Frame(event, n) =>
      if !(0 < n <= |s.inbound|) then s
      else if event.Disconnect? then Leave(AfterFrame(s, event, n), ServerDisconnect(event.reason))
      else if !Writes(event) then DrainInbound(decode, AfterFrame(s, event, n), failAt)
      else if failAt == Some(0) then Leave(AfterFrame(s, Ignore, n), VpnError.Io(Transport))
      else DrainInbound(decode, AfterFrame(s, event, n), OneLess(failAt))
  }

  function OneLess(failAt: Option<nat>): Option<nat> {
    if failAt.Some? && failAt.value > 0 then Some(failAt.value - 1) else failAt
  }

  function OnTlsRead(f: Framer, s: Loop, data: Bytes, failAt: Option<nat>): Loop {
    if data == [] then Leave(s, VpnError.Io(PeerClosed))
    else DrainInbound(DecoderOf(f), s.(inbound := s.inbound + data), failAt)
  }

  function OnWake(f: Framer, s: Loop, w: Wake): Loop {
    match w
    case Shutdown(ok) => OnShutdown(f, s, ok)
    case Tick(ok) => OnTick(f, s, ok)
    case TunReady(first, ready, ok) => OnTunReady(f, s, first, ready, ok)
    case TlsRead(data, failAt) => OnTlsRead(f, s, data, failAt)
    case TlsBroke => Leave(s, VpnError.Io(Transport))
  }

  /** The loop over the wake-ups that happen; it ignores what comes after its exit. */
  function Run(f: Framer, prime: Bytes, wakes: seq<Wake>): Loop {
    if wakes == [] then Start(prime)
    else
      var s := Run(f, prime, wakes[..|wakes| - 1]);
      if s.exit.Some? then s else OnWake(f, s, wakes[|wakes| - 1])
  }

  // ---------------------------------------------------------------------------
  // The loop as the source writes it
  // ---------------------------------------------------------------------------

  /** The locals of the loop. */
  class Forwarder {
    const framer: TunnelFramer
    const inbound: BytesMut
    const outFrame: BytesMut
    var missed: nat
    var toTls: Bytes
    var toTun: seq<Bytes>

    constructor (kind: Framer, prime: Bytes)
      ensures fresh(framer) && fresh(inbound) && fresh(outFrame) && framer.kind == kind
      ensures Valid() && View(None) == Start(prime)
    {
      framer := new TunnelFramer(kind);
      inbound := new BytesMut(prime);
      outFrame := new BytesMut([]);
      missed, toTls, toTun := 0, [], [];
    }

    ghost predicate Valid() {
      inbound != outFrame
    }

    ghost function View(exit: Option<Exit>): Loop
      reads this, framer, inbound
    {
      Loop(inbound.data, missed, framer.echoId, toTls, toTun, exit)
    }

    method Tick(writeOk: bool) returns (exit: Option<Exit>)
      requires Valid()
      modifies this, framer
      ensures View(exit) == OnTick(framer.kind, old(View(None)), writeOk)
    {
      var frame := framer.Keepalive();
      exit := None;
      if frame != [] {
        if !writeOk {
          return Some(Failed(VpnError.Io(Transport)));
        }
        toTls := toTls + frame;
        missed := missed + 1;
        if missed >= MAX_MISSED_KEEPALIVES {
          return Some(Failed(VpnError.Protocol(PeerUnresponsive)));
        }
      }
    }

    /** Frames the waking packet and whatever is ready behind it into the batch buffer. */
    method FillBatch(first: Bytes, ready: seq<TunRead>) returns (end: BatchEnd)
      requires Valid() && first != []
      modifies outFrame
      ensures var b := BatchOf(Packet(first), ready);
        end == b.end && outFrame.data == EncodeAll(framer.kind, b.packets)
    {
      ghost var kind, all := framer.kind, BatchOf(Packet(first), ready);
      outFrame.data := [];
      framer.EncodeDataAppend(first, outFrame);
      ghost var packets := [first];
      EncodeOneMore(kind, [], first);
      end := StillOpen;
      var k := 1;
      while k < MAX_TX_BATCH && k - 1 < |ready|
        invariant 1 <= k <= MAX_TX_BATCH && k - 1 <= |ready| && end == StillOpen
        invariant outFrame.data == EncodeAll(kind, packets)
        invariant all == Behind(packets, Collect(ready[k - 1..], MAX_TX_BATCH - k))
        decreases MAX_TX_BATCH - k
      {
        var read := ready[k - 1];
        assert ready[k - 1..][0] == read && ready[k - 1..][1..] == ready[k..];
        if read.TunBroke? {
          assert packets + [] == packets;
          return SawError;
        }
        if read.data == [] {
          assert packets + [] == packets;
          return SawEof;
        }
        framer.EncodeDataAppend(read.data, outFrame);
        EncodeOneMore(kind, packets, read.data);
        BehindOneMore(packets, read.data, Collect(ready[k..], MAX_TX_BATCH - k - 1));
        packets := packets + [read.data];
        k := k + 1;
      }
      assert packets + [] == packets;
    }

    method SendBatch(first: TunRead, ready: seq<TunRead>, writeOk: bool) returns (exit: Option<Exit>)
      requires Valid()
      modifies this, outFrame
      ensures View(exit) == OnTunReady(framer.kind, old(View(None)), first, ready, writeOk)
    {
      if first.TunBroke? || first.data == [] {
        assert toTls + EncodeAll(framer.kind, []) == toTls;
        return Some(Failed(VpnError.Io(if first.TunBroke? then Transport else TunClosed)));
      }
      var end := FillBatch(first.data, ready);
      if !writeOk {
        return Some(Failed(VpnError.Io(Transport)));
      }
      toTls := toTls + outFrame.data;
      match end {
        case StillOpen => return None;
        case SawEof => return Some(Failed(VpnError.Io(TunClosed)));
        case SawError => return Some(Failed(VpnError.Io(Transport)));
      }
    }

    method ReadTls(data: Bytes, failAt: Option<nat>) returns (exit: Option<Exit>)
      requires Valid()
      modifies this, inbound
      ensures Same(View(exit), OnTlsRead(framer.kind, old(View(None)), data, failAt))
    {
      if data == [] {
        return Some(Failed(VpnError.Io(PeerClosed)));
      }
      inbound.data := inbound.data + data;
      ghost var decode := DecoderOf(framer.kind);
      ghost var spec := DrainInbound(decode, View(None), failAt);
      var writes := failAt;
      while true
        invariant DrainInbound(decode, View(None), writes) == spec
        decreases |inbound.data|
      {
        StableOn(framer.kind, inbound.data, []);
        assert decode(inbound.data) == Decode(framer.kind, inbound.data);
        var event := framer.TryDecode(inbound);
        if event.Err? {
          return Some(Failed(event.error));
        }
        if event.value.None? {
          return None;
        }
        missed := 0;
        match event.value.value {
          case Data(payload) =>
            if writes == Some(0) {
              return Some(Failed(VpnError.Io(Transport)));
            }
            writes := OneLess(writes);
            toTun := toTun + [payload];
          case Reply(bytes) =>
            if writes == Some(0) {
              return Some(Failed(VpnError.Io(Transport)));
            }
            writes := OneLess(writes);
            toTls := toTls + bytes;
          case Ignore =>
          case Disconnect(reason) =>
            return Some(Failed(ServerDisconnect(reason)));
        }
      }
    }

    method Stop(writeOk: bool)
      requires Valid()
      modifies this
      ensures View(Some(Stopped)) == OnShutdown(framer.kind, old(View(None)), writeOk)
    {
      var frame := ShutdownFrame(framer.kind);
      if frame.Some? && writeOk {
        toTls := toTls + frame.value;
      }
    }

    /** One pass through the source's `select!`. */
    method Handle(w: Wake) returns (exit: Option<Exit>)
      requires Valid()
      modifies this, framer, inbound, outFrame
      ensures Same(View(exit), OnWake(framer.kind, old(View(None)), w))
    {
      match w {
        case Shutdown(ok) =>
          Stop(ok);
          exit := Some(Stopped);
        case Tick(ok) =>
          exit := Tick(ok);
        case TunReady(first, ready, ok) =>
          exit := SendBatch(first, ready, ok);
        case TlsRead(data, failAt) =>
          exit := ReadTls(data, failAt);
        case TlsBroke =>
          exit := Some(Failed(VpnError.Io(Transport)));
      }
    }
  }

  /** The inbound buffer no longer matters once the loop has been left. */
  ghost predicate Same(a: Loop, b: Loop) {
    a.(inbound := b.inbound) == b && (b.exit.None? ==> a == b)
  }

  method ShutdownFrame(f: Framer) returns (frame: Option<Bytes>)
    ensures frame == EncodeShutdown(f)
  {
    frame := EncodeShutdown(f);
  }

  /** What one connection leaves: its exit, and what it wrote in both directions. */
  datatype Outcome = Outcome(exit: Option<Exit>, toTls: Bytes, toTun: seq<Bytes>)

  function OutcomeOf(s: Loop): Outcome { Outcome(s.exit, s.toTls, s.toTun) }

  /** The loop itself. */
  method Forward(kind: Framer, prime: Bytes, wakes: seq<Wake>) returns (out: Outcome)
    ensures out == OutcomeOf(Run(kind, prime, wakes))
  {
    var loop := new Forwarder(kind, prime);
    var exit: Option<Exit> := None;
    var k := 0;
    assert wakes[..0] == [];
    while k < |wakes| && exit.None?
      invariant k <= |wakes|
      invariant loop.Valid() && loop.framer.kind == kind
      invariant fresh(loop) && fresh(loop.framer) && fresh(loop.inbound) && fresh(loop.outFrame)
      invariant Same(loop.View(exit), Run(kind, prime, wakes[..k]))
      decreases |wakes| - k
    {
      assert wakes[..k + 1][..k] == wakes[..k];
      exit := loop.Handle(wakes[k]);
      k := k + 1;
    }
    ExitIsFinal(kind, prime, wakes, k);
    out := Outcome(exit, loop.toTls, loop.toTun);
  }

  /**
   * The loop and its teardown. On every exit the routes are removed while the
   * TUN is still open, and the TUN is closed after that; the table is then what
   * it was before, but for routes the system refused to delete.
   */
  method RunForwarding(kind: Framer, prime: Bytes, wakes: seq<Wake>, guard: R.RoutingGuard, ghost before: set<R.Route>)
    returns (out: Outcome)
    requires R.Consistent(guard.host, before) && guard.host.tunOpen
    requires guard.host.table == before + R.AsSet(guard.routes) && R.AsSet(guard.routes) !! before
    modifies guard, guard.host
    ensures out == OutcomeOf(Run(kind, prime, wakes))
    ensures R.Consistent(guard.host, before)
    ensures if out.exit.Some?
      then !guard.host.tunOpen && guard.routes == []
           && guard.host.table == before + (R.AsSet(old(guard.routes)) * guard.host.refuseDelete)
      else guard.host.tunOpen && guard.routes == old(guard.routes) && guard.host.table == old(guard.host.table)
  {
    out := Forward(kind, prime, wakes);
    if out.exit.Some? {
      guard.RemoveAll(before);
      R.DropTun(guard.host, before);
    }
  }

  lemma {:induction false} ExitIsFinal(f: Framer, prime: Bytes, wakes: seq<Wake>, k: nat)
    requires k <= |wakes| && (k == |wakes| || Run(f, prime, wakes[..k]).exit.Some?)
    ensures Run(f, prime, wakes) == Run(f, prime, wakes[..k])
    decreases |wakes|
  {
    if k == |wakes| {
      assert wakes[..k] == wakes;
    } else {
      var before := wakes[..|wakes| - 1];
      assert before[..k] == wakes[..k];
      if k < |before| {
        ExitIsFinal(f, prime, before, k);
      } else {
        assert before[..k] == before;
      }
    }
  }
}
