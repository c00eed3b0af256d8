/**
 * LCP then IPCP as a step machine: one step per received frame or receive timeout.
 * RFC 1661 sections 5.1-5.4 and 5.8, RFC 1332 section 3.3, RFC 1877 sections 1.1 and 1.3.
 */
module Negotiation {
  import opened Wire
  import opened Errors
  import opened Ppp

  const DEFAULT_MRU: nat := 1354
  const MAX_ROUNDS: nat := 40

  const LCP_OPT_MRU: Byte := 1
  const LCP_OPT_AUTH: Byte := 3
  const LCP_OPT_MAGIC: Byte := 5

  const IPCP_OPT_ADDR: Byte := 3
  const IPCP_OPT_DNS1: Byte := 129
  const IPCP_OPT_DNS2: Byte := 131

  type Magic = m: int | 0 < m < 0x1_0000_0000 witness 1

  type Ipv4 = a: Bytes | |a| == 4 witness [0, 0, 0, 0]

  predicate IsUnspecified(a: Ipv4) { a == [0, 0, 0, 0] }

  /** One framed packet on its way to the peer. */
  datatype Out = Out(proto: nat, payload: Bytes)

  /** What one receive brought. */
  datatype Recv = Got(frame: PppFrame) | Silence(restartDue: bool) | Lost(error: VpnError)

  datatype Lcp = Lcp(opts: seq<Opt>, id: Byte, mru: nat, ours: bool, theirs: bool)

  datatype Ipcp = Ipcp(opts: seq<Opt>, id: Byte, ours: bool, theirs: bool, harvest: Harvest, peer: Option<Ipv4>)

  /** The address and the DNS servers the peer has named so far. */
  datatype Harvest = Harvest(address: Option<Ipv4>, dns: seq<Ipv4>)

  datatype Session = Session(address: Ipv4, peer: Option<Ipv4>, dns: seq<Ipv4>, mtu: nat, magic: Magic)

  datatype Turn<+S> = Go(state: S, sent: seq<Out>) | Stop(error: VpnError, sent: seq<Out>)

  // ---------------------------------------------------------------------------
  // Option lists
  // ---------------------------------------------------------------------------

  /** `u8::wrapping_add(1)`. */
  function NextId(id: Byte): Byte { (id + 1) % 0x100 }

  function OptIpv4(v: Bytes): Option<Ipv4> {
    if |v| == 4 then Some(v) else None
  }

  /** Overwrite the value of the first option of that type, if there is one. */
  function SetFirst(opts: seq<Opt>, o: Opt): (r: seq<Opt>)
    ensures |r| == |opts|
  {
    if opts == [] then []
    else if opts[0].typ == o.typ then [o] + opts[1..]
    else [opts[0]] + SetFirst(opts[1..], o)
  }

  function HasType(opts: seq<Opt>, typ: Byte): bool {
    exists i :: 0 <= i < |opts| && opts[i].typ == typ
  }

  /** LCP: take over the counter-proposals for options we sent. */
  function AdoptKnown(opts: seq<Opt>, naked: seq<Opt>): seq<Opt>
    decreases |naked|
  {
    if naked == [] then opts else AdoptKnown(SetFirst(opts, naked[0]), naked[1..])
  }

  /** IPCP: take over every counter-proposal, new options included. */
  function Adopt(opts: seq<Opt>, o: Opt): seq<Opt> {
    if HasType(opts, o.typ) then SetFirst(opts, o) else opts + [o]
  }

  function AdoptAll(opts: seq<Opt>, naked: seq<Opt>): seq<Opt>
    decreases |naked|
  {
    if naked == [] then opts else AdoptAll(Adopt(opts, naked[0]), naked[1..])
  }

  function Without(opts: seq<Opt>, rejected: seq<Opt>): seq<Opt> {
    if opts == [] then []
    else (if HasType(rejected, opts[0].typ) then [] else [opts[0]]) + Without(opts[1..], rejected)
  }

  predicate IsKnownLcp(o: Opt) { o.typ == LCP_OPT_MRU || o.typ == LCP_OPT_MAGIC }

  function UnknownLcp(opts: seq<Opt>): seq<Opt> {
    if opts == [] then []
    else (if IsKnownLcp(opts[0]) then [] else [opts[0]]) + UnknownLcp(opts[1..])
  }

  /** The last two-byte MRU option, if any, replaces `mru`. */
  function MruIn(opts: seq<Opt>, mru: nat): nat {
    if opts == [] then mru
    else MruIn(opts[1..], if opts[0].typ == LCP_OPT_MRU && |opts[0].val| == 2 then U16At(opts[0].val, 0) else mru)
  }

  function HarvestOne(h: Harvest, o: Opt): Harvest {
    var a := OptIpv4(o.val);
    if a.None? || IsUnspecified(a.value) then h
    else if o.typ == IPCP_OPT_ADDR then h.(address := a)
    else if (o.typ == IPCP_OPT_DNS1 || o.typ == IPCP_OPT_DNS2) && a.value !in h.dns then h.(dns := h.dns + [a.value])
    else h
  }

  function HarvestAll(h: Harvest, opts: seq<Opt>): Harvest
    decreases |opts|
  {
    if opts == [] then h else HarvestAll(HarvestOne(h, opts[0]), opts[1..])
  }

  /** The last address option decides, even when it is not an address. */
  function PeerIn(opts: seq<Opt>, peer: Option<Ipv4>): Option<Ipv4> {
    if opts == [] then peer
    else PeerIn(opts[1..], if opts[0].typ == IPCP_OPT_ADDR then OptIpv4(opts[0].val) else peer)
  }

  // ---------------------------------------------------------------------------
  // One turn of each loop
  // ---------------------------------------------------------------------------

  function ConfigureRequest(proto: nat, id: Byte, opts: seq<Opt>): Out {
    Out(proto, BuildCp(CONF_REQ, id, BuildOptions(opts)))
  }

  function LcpRequest(l: Lcp): Out { ConfigureRequest(PPP_LCP, l.id, l.opts) }

  function IpcpRequest(i: Ipcp): Out { ConfigureRequest(PPP_IPCP, i.id, i.opts) }

  function Reply(proto: nat, code: Byte, id: Byte, data: Bytes): Out {
    Out(proto, BuildCp(code, id, data))
  }

  function EchoAnswer(magic: Magic, pkt: CpPacket): Out {
    Reply(PPP_LCP, ECHO_REP, pkt.id, EchoReplyData(magic, pkt))
  }

  function RetryLcp(l: Lcp, opts: seq<Opt>): Turn<Lcp> {
    var next := l.(opts := opts, id := NextId(l.id));
    Go(next, [LcpRequest(next)])
  }

  function LcpPacket(magic: Magic, l: Lcp, pkt: CpPacket): Turn<Lcp> {
    var opts := ParseOptions(pkt.data);
    if pkt.code == CONF_REQ then
      if HasType(opts, LCP_OPT_AUTH) then Stop(AuthFailed, [])
      else if UnknownLcp(opts) == [] then
        Go(l.(theirs := true), [Reply(PPP_LCP, CONF_ACK, pkt.id, pkt.data)])
      else Go(l, [Reply(PPP_LCP, CONF_REJ, pkt.id, BuildOptions(UnknownLcp(opts)))])
    else if pkt.code == CONF_ACK && pkt.id == l.id then
      Go(l.(mru := MruIn(opts, l.mru), ours := true), [])
    else if pkt.code == CONF_NAK then RetryLcp(l, AdoptKnown(l.opts, opts))
    else if pkt.code == CONF_REJ then RetryLcp(l, Without(l.opts, opts))
    else if pkt.code == ECHO_REQ then Go(l, [EchoAnswer(magic, pkt)])
    else if pkt.code == TERM_REQ then
      Stop(Protocol(LinkTerminated), [Reply(PPP_LCP, TERM_ACK, pkt.id, [])])
    else Go(l, [])
  }

  function LcpTurn(magic: Magic, l: Lcp, r: Recv): Turn<Lcp> {
    match r
    case Lost(e) => Stop(e, [])
    case Silence(due) => Go(l, if due && !l.ours then [LcpRequest(l)] else [])
    case Got(f) =>
      if f.proto == PPP_PAP || f.proto == PPP_CHAP then Stop(AuthFailed, [])
      else if f.proto != PPP_LCP then Go(l, [])
      else
        match ParseCp(f.payload)
        case Err(e) => Stop(e, [])
        case Ok(pkt) => LcpPacket(magic, l, pkt)
  }

  function RetryIpcp(i: Ipcp, opts: seq<Opt>, harvest: Harvest): Turn<Ipcp> {
    var next := i.(opts := opts, id := NextId(i.id), harvest := harvest);
    Go(next, [IpcpRequest(next)])
  }

  function IpcpPacket(i: Ipcp, pkt: CpPacket): Turn<Ipcp> {
    var opts := ParseOptions(pkt.data);
    if pkt.code == CONF_REQ then
      Go(i.(peer := PeerIn(opts, i.peer), theirs := true), [Reply(PPP_IPCP, CONF_ACK, pkt.id, pkt.data)])
    else if pkt.code == CONF_ACK && pkt.id == i.id then
      Go(i.(harvest := HarvestAll(i.harvest, opts), ours := true), [])
    else if pkt.code == CONF_NAK then
      RetryIpcp(i, AdoptAll(i.opts, opts), HarvestAll(i.harvest, opts))
    else if pkt.code == CONF_REJ then RetryIpcp(i, Without(i.opts, opts), i.harvest)
    else Go(i, [])
  }

  /** LCP packets that arrive once LCP is up. */
  function LateLcpPacket(magic: Magic, i: Ipcp, pkt: CpPacket): Turn<Ipcp> {
    if pkt.code == ECHO_REQ then Go(i, [EchoAnswer(magic, pkt)])
    else if pkt.code == CONF_REQ then Go(i, [Reply(PPP_LCP, CONF_ACK, pkt.id, pkt.data)])
    else if pkt.code == TERM_REQ then
      Stop(Protocol(LinkTerminated), [Reply(PPP_LCP, TERM_ACK, pkt.id, [])])
    else Go(i, [])
  }

  function IpcpTurn(magic: Magic, i: Ipcp, r: Recv): Turn<Ipcp> {
    match r
    case Lost(e) => Stop(e, [])
    case Silence(due) => Go(i, if due && !i.ours then [IpcpRequest(i)] else [])
    case Got(f) =>
      if f.proto != PPP_LCP && f.proto != PPP_IPCP then Go(i, [])
      else
        match ParseCp(f.payload)
        case Err(e) => Stop(e, [])
        case Ok(pkt) => if f.proto == PPP_LCP then LateLcpPacket(magic, i, pkt) else IpcpPacket(i, pkt)
  }

  // ---------------------------------------------------------------------------
  // Both loops
  // ---------------------------------------------------------------------------

  datatype Client =
    | InLcp(l: Lcp, rounds: nat)
    | InIpcp(mru: nat, i: Ipcp, rounds: nat)
    | Up(session: Session)
    | Down(error: VpnError)
  {
    predicate Negotiating() { InLcp? || InIpcp? }

    /** No receive is left in this phase. */
    predicate Exhausted() { Negotiating() && rounds >= MAX_ROUNDS }
  }

  function FirstLcp(magic: Magic): Lcp {
    Lcp([Opt(LCP_OPT_MRU, Be16(DEFAULT_MRU)), Opt(LCP_OPT_MAGIC, Be32(magic))], 1, DEFAULT_MRU, false, false)
  }

  const FIRST_IPCP: Ipcp :=
    Ipcp([Opt(IPCP_OPT_ADDR, [0, 0, 0, 0]), Opt(IPCP_OPT_DNS1, [0, 0, 0, 0]), Opt(IPCP_OPT_DNS2, [0, 0, 0, 0])],
         1, false, false, Harvest(None, []), None)

  function Begin(magic: Magic): Client { InLcp(FirstLcp(magic), 0) }

  /** What follows the LCP turn that set the second flag: the IPCP loop and its first request. */
  function AfterLcp(t: Turn<Lcp>, rounds: nat): (Client, seq<Out>) {
    match t
    case Stop(e, sent) => (Down(e), sent)
    case Go(l, sent) =>
      if l.ours && l.theirs then (InIpcp(l.mru, FIRST_IPCP, 0), sent + [IpcpRequest(FIRST_IPCP)])
      else (InLcp(l, rounds + 1), sent)
  }

  function Finish(magic: Magic, mru: nat, i: Ipcp): Client {
    if i.harvest.address.None? then Down(Protocol(NoAddressAssigned))
    else Up(Session(i.harvest.address.value, i.peer, i.harvest.dns, mru, magic))
  }

  function AfterIpcp(magic: Magic, mru: nat, t: Turn<Ipcp>, rounds: nat): (Client, seq<Out>) {
    match t
    case Stop(e, sent) => (Down(e), sent)
    case Go(i, sent) =>
      (if i.ours && i.theirs then Finish(magic, mru, i) else InIpcp(mru, i, rounds + 1), sent)
  }

  /** One pass through whichever loop the client is in. */
  function Proceed(magic: Magic, c: Client, r: Recv): (Client, seq<Out>) {
    if c.Exhausted() then (Down(Protocol(NotConverged)), [])
    else
      match c
      case InLcp(l, rounds) => AfterLcp(LcpTurn(magic, l, r), rounds)
      case InIpcp(mru, i, rounds) => AfterIpcp(magic, mru, IpcpTurn(magic, i, r), rounds)
      case _ => (c, [])
  }

  /** An IPv4 packet that arrives before the tunnel is up is framed again and kept. */
  function Staged(r: Recv): Bytes {
    if r.Got? && r.frame.proto == PPP_IPV4 then EncodePpp(PPP_IPV4, r.frame.payload) else []
  }

  // ---------------------------------------------------------------------------
  // The source's loops over option lists
  // ---------------------------------------------------------------------------

  method HarvestIpcp(opts: seq<Opt>, address: Option<Ipv4>, dns: seq<Ipv4>)
    returns (address': Option<Ipv4>, dns': seq<Ipv4>)
    ensures Harvest(address', dns') == HarvestAll(Harvest(address, dns), opts)
  {
    address', dns' := address, dns;
    for k := 0 to |opts|
      invariant HarvestAll(Harvest(address', dns'), opts[k..]) == HarvestAll(Harvest(address, dns), opts)
    {
      var o := opts[k];
      assert opts[k..][0] == o && opts[k..][1..] == opts[k + 1..];
      if o.typ == IPCP_OPT_ADDR {
        var a := OptIpv4(o.val);
        if a.Some? && !IsUnspecified(a.value) {
          address' := Some(a.value);
        }
      } else if o.typ == IPCP_OPT_DNS1 || o.typ == IPCP_OPT_DNS2 {
        var a := OptIpv4(o.val);
        if a.Some? && !IsUnspecified(a.value) && a.value !in dns' {
          dns' := dns' + [a.value];
        }
      }
    }
  }

  method AdoptNaked(opts: seq<Opt>, naked: seq<Opt>, addMissing: bool) returns (out: seq<Opt>)
    ensures out == if addMissing then AdoptAll(opts, naked) else AdoptKnown(opts, naked)
  {
    out := opts;
    for k := 0 to |naked|
      invariant addMissing ==> AdoptAll(out, naked[k..]) == AdoptAll(opts, naked)
      invariant !addMissing ==> AdoptKnown(out, naked[k..]) == AdoptKnown(opts, naked)
    {
      assert naked[k..][0] == naked[k] && naked[k..][1..] == naked[k + 1..];
      var slot := FindType(out, naked[k].typ);
      SetFirstIsUpdate(out, naked[k], slot);
      if slot < |out| {
        out := out[slot := naked[k]];
      } else if addMissing {
        out := out + [naked[k]];
      }
    }
  }

  /** The first slot of that type, or the length of the list. */
  method FindType(opts: seq<Opt>, typ: Byte) returns (slot: nat)
    ensures slot <= |opts| && (slot < |opts| ==> opts[slot].typ == typ)
    ensures forall i :: 0 <= i < slot ==> opts[i].typ != typ
  {
    slot := 0;
    while slot < |opts| && opts[slot].typ != typ
      invariant slot <= |opts|
      invariant forall i :: 0 <= i < slot ==> opts[i].typ != typ
    {
      slot := slot + 1;
    }
  }

  lemma {:induction false} SetFirstIsUpdate(opts: seq<Opt>, o: Opt, slot: nat)
    requires slot <= |opts| && (slot < |opts| ==> opts[slot].typ == o.typ)
    requires forall i :: 0 <= i < slot ==> opts[i].typ != o.typ
    ensures SetFirst(opts, o) == if slot < |opts| then opts[slot := o] else opts
    ensures HasType(opts, o.typ) <==> slot < |opts|
  {
    if opts != [] && slot > 0 {
      assert forall i :: 0 <= i < slot - 1 ==> opts[1..][i] == opts[i + 1];
      SetFirstIsUpdate(opts[1..], o, slot - 1);
      assert opts == [opts[0]] + opts[1..];
    }
  }
}
