/** `negotiate` with its mutable variables and two loops, proved to do what the step machine does. */
module PppNegotiate {
  import opened Wire
  import opened Errors
  import opened Ppp
  import opened Negotiation
  import opened PppIo

  /** `retain(|(t, _)| !rejected.contains(t))`. */
  method Retain(opts: seq<Opt>, rejected: seq<Opt>) returns (out: seq<Opt>)
    ensures out == Without(opts, rejected)
  {
    out := [];
    for k := 0 to |opts|
      invariant out + Without(opts[k..], rejected) == Without(opts, rejected)
    {
      assert opts[k..][0] == opts[k] && opts[k..][1..] == opts[k + 1..];
      var slot := FindType(rejected, opts[k].typ);
      if slot == |rejected| {
        assert out + ([opts[k]] + Without(opts[k + 1..], rejected)) == out + [opts[k]] + Without(opts[k + 1..], rejected);
        out := out + [opts[k]];
      } else {
        assert HasType(rejected, opts[k].typ);
        assert [] + Without(opts[k + 1..], rejected) == Without(opts[k + 1..], rejected);
      }
    }
    assert out + [] == out;
  }

  method CollectUnknown(opts: seq<Opt>) returns (out: seq<Opt>)
    ensures out == UnknownLcp(opts)
  {
    out := [];
    for k := 0 to |opts|
      invariant out + UnknownLcp(opts[k..]) == UnknownLcp(opts)
    {
      assert opts[k..][0] == opts[k] && opts[k..][1..] == opts[k + 1..];
      ghost var more := UnknownLcp(opts[k + 1..]);
      if !IsKnownLcp(opts[k]) {
        assert out + ([opts[k]] + more) == out + [opts[k]] + more;
        out := out + [opts[k]];
      } else {
        assert [] + more == more;
      }
    }
    assert out + [] == out;
  }

  method AgreedMru(opts: seq<Opt>, mru: nat) returns (agreed: nat)
    ensures agreed == MruIn(opts, mru)
  {
    agreed := mru;
    for k := 0 to |opts|
      invariant MruIn(opts[k..], agreed) == MruIn(opts, mru)
    {
      assert opts[k..][0] == opts[k] && opts[k..][1..] == opts[k + 1..];
      if opts[k].typ == LCP_OPT_MRU && |opts[k].val| == 2 {
        agreed := U16At(opts[k].val, 0);
      }
    }
  }

  method PeerAddress(opts: seq<Opt>, peer: Option<Ipv4>) returns (named: Option<Ipv4>)
    ensures named == PeerIn(opts, peer)
  {
    named := peer;
    for k := 0 to |opts|
      invariant PeerIn(opts[k..], named) == PeerIn(opts, peer)
    {
      assert opts[k..][0] == opts[k] && opts[k..][1..] == opts[k + 1..];
      if opts[k].typ == IPCP_OPT_ADDR {
        named := OptIpv4(opts[k].val);
      }
    }
  }

  /** A write failed: what went out before is all of `sent` that the socket took. */
  ghost predicate Cut(stop: Option<VpnError>, sent: seq<Out>, written: seq<Out>, limit: Option<nat>) {
    && stop == Some(VpnError.Io(Transport)) && limit.Some?
    && limit.value < |sent| && written == sent[..limit.value]
  }

  /** One turn of either loop, whose packets are written one by one. */
  ghost predicate Did<S>(t: Turn<S>, stop: Option<VpnError>, state: S, before: seq<Out>, after: seq<Out>, limit: Option<nat>) {
    || Cut(stop, before + t.sent, after, limit)
    || (&& after == before + t.sent && Took(after, limit)
        && if t.Stop? then stop == Some(t.error) else stop.None? && state == t.state)
  }

  /** The socket has taken this many writes. */
  ghost predicate Took(written: seq<Out>, limit: Option<nat>) {
    limit.None? || |written| <= limit.value
  }

  lemma CutStays(stop: Option<VpnError>, sent: seq<Out>, more: seq<Out>, written: seq<Out>, limit: Option<nat>)
    requires Cut(stop, sent, written, limit) && sent <= more
    ensures Cut(stop, more, written, limit)
  {
  }

  method SendLcpRequest(io: PppStream, id: Byte, opts: seq<Opt>) returns (ok: bool)
    modifies io`written
    ensures ok == old(io.CanWrite())
    ensures io.written == old(io.written) + if ok then [ConfigureRequest(PPP_LCP, id, opts)] else []
  {
    var data := BuildOptionList(opts);
    ok := io.Send(Out(PPP_LCP, BuildCp(CONF_REQ, id, data)));
  }

  method SendIpcpRequest(io: PppStream, id: Byte, opts: seq<Opt>) returns (ok: bool)
    modifies io`written
    ensures ok == old(io.CanWrite())
    ensures io.written == old(io.written) + if ok then [ConfigureRequest(PPP_IPCP, id, opts)] else []
  {
    var data := BuildOptionList(opts);
    ok := io.Send(Out(PPP_IPCP, BuildCp(CONF_REQ, id, data)));
  }

  /** The error of a failed write. */
  const BROKEN: Option<VpnError> := Some(VpnError.Io(Transport))

  /** The arm for an LCP packet in the LCP loop. */
  method OnLcpPacket(io: PppStream, magic: Magic, l: Lcp, pkt: CpPacket) returns (stop: Option<VpnError>, next: Lcp)
    requires Took(io.written, io.limit)
    modifies io`written
    ensures Did(LcpPacket(magic, l, pkt), stop, next, old(io.written), io.written, io.limit)
  {
    stop, next := None, l;
    var ok := true;
    var opts := ParseOptionList(pkt.data);
    if pkt.code == CONF_REQ {
      var auth := FindType(opts, LCP_OPT_AUTH);
      if auth < |opts| {
        return Some(AuthFailed), l;
      }
      var unknown := CollectUnknown(opts);
      if unknown == [] {
        ok := io.Send(Reply(PPP_LCP, CONF_ACK, pkt.id, pkt.data));
        next := next.(theirs := true);
      } else {
        var data := BuildOptionList(unknown);
        ok := io.Send(Reply(PPP_LCP, CONF_REJ, pkt.id, data));
      }
    } else if pkt.code == CONF_ACK && pkt.id == l.id {
      var mru := AgreedMru(opts, l.mru);
      next := next.(mru := mru, ours := true);
    } else if pkt.code == CONF_NAK {
      var adopted := AdoptNaked(l.opts, opts, false);
      next := next.(opts := adopted, id := NextId(l.id));
      ok := SendLcpRequest(io, next.id, next.opts);
    } else if pkt.code == CONF_REJ {
      var kept := Retain(l.opts, opts);
      next := next.(opts := kept, id := NextId(l.id));
      ok := SendLcpRequest(io, next.id, next.opts);
    } else if pkt.code == ECHO_REQ {
      ok := io.Send(EchoAnswer(magic, pkt));
    } else if pkt.code == TERM_REQ {
      ok := io.Send(Reply(PPP_LCP, TERM_ACK, pkt.id, []));
      stop := Some(Protocol(LinkTerminated));
    }
    if !ok {
      stop := BROKEN;
    }
  }

  /** The arm for an LCP packet in the IPCP loop. */
  method OnLateLcpPacket(io: PppStream, magic: Magic, ghost i: Ipcp, pkt: CpPacket) returns (stop: Option<VpnError>)
    requires Took(io.written, io.limit)
    modifies io`written
    ensures Did(LateLcpPacket(magic, i, pkt), stop, i, old(io.written), io.written, io.limit)
  {
    stop := None;
    var ok := true;
    if pkt.code == ECHO_REQ {
      ok := io.Send(EchoAnswer(magic, pkt));
    } else if pkt.code == CONF_REQ {
      ok := io.Send(Reply(PPP_LCP, CONF_ACK, pkt.id, pkt.data));
    } else if pkt.code == TERM_REQ {
      ok := io.Send(Reply(PPP_LCP, TERM_ACK, pkt.id, []));
      stop := Some(Protocol(LinkTerminated));
    }
    if !ok {
      stop := BROKEN;
    }
  }

  /** The arm for an IPCP packet in the IPCP loop. */
  method OnIpcpPacket(io: PppStream, i: Ipcp, pkt: CpPacket) returns (stop: Option<VpnError>, next: Ipcp)
    requires Took(io.written, io.limit)
    modifies io`written
    ensures Did(IpcpPacket(i, pkt), stop, next, old(io.written), io.written, io.limit)
  {
    stop, next := None, i;
    var ok := true;
    var opts := ParseOptionList(pkt.data);
    if pkt.code == CONF_REQ {
      var peer := PeerAddress(opts, i.peer);
      ok := io.Send(Reply(PPP_IPCP, CONF_ACK, pkt.id, pkt.data));
      next := next.(peer := peer, theirs := true);
    } else if pkt.code == CONF_ACK && pkt.id == i.id {
      var address, dns := HarvestIpcp(opts, i.harvest.address, i.harvest.dns);
      next := next.(harvest := Harvest(address, dns), ours := true);
    } else if pkt.code == CONF_NAK {
      var address, dns := HarvestIpcp(opts, i.harvest.address, i.harvest.dns);
      var adopted := AdoptNaked(i.opts, opts, true);
      next := next.(opts := adopted, id := NextId(i.id), harvest := Harvest(address, dns));
      ok := SendIpcpRequest(io, next.id, next.opts);
    } else if pkt.code == CONF_REJ {
      var kept := Retain(i.opts, opts);
      next := next.(opts := kept, id := NextId(i.id));
      ok := SendIpcpRequest(io, next.id, next.opts);
    }
    if !ok {
      stop := BROKEN;
    }
  }

  /** The body of the LCP loop behind a receive. */
  method OnLcpTurn(io: PppStream, magic: Magic, l: Lcp, r: Recv) returns (stop: Option<VpnError>, next: Lcp)
    requires Took(io.written, io.limit)
    modifies io`written
    ensures Did(LcpTurn(magic, l, r), stop, next, old(io.written), io.written, io.limit)
  {
    stop, next := None, l;
    match r {
      case Lost(e) =>
        stop := Some(e);
      case Silence(due) =>
        if due && !l.ours {
          var ok := SendLcpRequest(io, l.id, l.opts);
          if !ok {
            stop := BROKEN;
          }
        }
      case Got(f) =>
        if f.proto == PPP_PAP || f.proto == PPP_CHAP {
          stop := Some(AuthFailed);
        } else if f.proto == PPP_LCP {
          var pkt := ParseCp(f.payload);
          if pkt.Err? {
            stop := Some(pkt.error);
          } else {
            stop, next := OnLcpPacket(io, magic, l, pkt.value);
          }
        }
    }
  }

  /** The body of the IPCP loop behind a receive. */
  method OnIpcpTurn(io: PppStream, magic: Magic, i: Ipcp, r: Recv) returns (stop: Option<VpnError>, next: Ipcp)
    requires Took(io.written, io.limit)
    modifies io`written
    ensures Did(IpcpTurn(magic, i, r), stop, next, old(io.written), io.written, io.limit)
  {
    stop, next := None, i;
    match r {
      case Lost(e) =>
        stop := Some(e);
      case Silence(due) =>
        if due && !i.ours {
          var ok := SendIpcpRequest(io, i.id, i.opts);
          if !ok {
            stop := BROKEN;
          }
        }
      case Got(f) =>
        if f.proto == PPP_LCP || f.proto == PPP_IPCP {
          var pkt := ParseCp(f.payload);
          if pkt.Err? {
            stop := Some(pkt.error);
          } else if f.proto == PPP_LCP {
            stop := OnLateLcpPacket(io, magic, i, pkt.value);
          } else {
            stop, next := OnIpcpPacket(io, i, pkt.value);
          }
        }
    }
  }

  method StageEarly(early: BytesMut, r: Recv)
    modifies early
    ensures early.data == old(early.data) + Staged(r)
  {
    if r.Got? && r.frame.proto == PPP_IPV4 {
      EncodePppAppend(PPP_IPV4, r.frame.payload, early);
    } else {
      assert early.data + [] == early.data;
    }
  }

  /** Where both loops end when they start from these variables. */
  ghost function Rest(magic: Magic, clock: Clock, c: Client, early: BytesMut, io: PppStream): Run
    reads early, io, io.buf
  {
    Drive(magic, clock, Run(c, early.data, io.written, io.View()))
  }

  /** One pass of the LCP loop behind its guard. */
  method LcpRound(io: PppStream, magic: Magic, l: Lcp, ghost rounds: nat, early: BytesMut)
    returns (stop: Option<VpnError>, next: Lcp)
    requires early != io.buf && rounds < MAX_ROUNDS && Took(io.written, io.limit)
    modifies early, io`httpChecked, io`script, io`written, io.buf
    ensures var p := Pass(magic, old(Run(InLcp(l, rounds), early.data, io.written, io.View())));
      || Cut(stop, p.sent, io.written, io.limit)
      || (&& Took(io.written, io.limit)
          && if stop.Some? then p.client == Down(stop.value) && p.sent == io.written
             else if next.ours && next.theirs
             then p == Run(InIpcp(next.mru, FIRST_IPCP, 0), early.data, io.written + [IpcpRequest(FIRST_IPCP)], io.View())
             else p == Run(InLcp(next, rounds + 1), early.data, io.written, io.View()))
  {
    ghost var before := io.written;
    var r := io.Recv();
    StageEarly(early, r);
    stop, next := OnLcpTurn(io, magic, l, r);
    ghost var request := [IpcpRequest(FIRST_IPCP)];
    assert before + (LcpTurn(magic, l, r).sent + request) == before + LcpTurn(magic, l, r).sent + request;
    if Cut(stop, before + LcpTurn(magic, l, r).sent, io.written, io.limit) {
      CutStays(stop, before + LcpTurn(magic, l, r).sent, before + LcpTurn(magic, l, r).sent + request, io.written, io.limit);
    }
  }

  method IpcpRound(io: PppStream, magic: Magic, ghost mru: nat, i: Ipcp, ghost rounds: nat, early: BytesMut)
    returns (stop: Option<VpnError>, next: Ipcp)
    requires early != io.buf && rounds < MAX_ROUNDS && Took(io.written, io.limit)
    modifies early, io`httpChecked, io`script, io`written, io.buf
    ensures var p := Pass(magic, old(Run(InIpcp(mru, i, rounds), early.data, io.written, io.View())));
      || Cut(stop, p.sent, io.written, io.limit)
      || (&& Took(io.written, io.limit)
          && if stop.Some? then p.client == Down(stop.value) && p.sent == io.written
             else p == Run(if next.ours && next.theirs then Finish(magic, mru, next) else InIpcp(mru, next, rounds + 1),
                           early.data, io.written, io.View()))
  {
    var r := io.Recv();
    StageEarly(early, r);
    stop, next := OnIpcpTurn(io, magic, i, r);
  }

  /** The LCP loop. On success LCP is up and the first IPCP request has not been sent yet. */
  method LcpPhase(io: PppStream, magic: Magic, clock: Clock, early: BytesMut)
    returns (stop: Option<VpnError>, mru: nat)
    requires early != io.buf && io.written == [LcpRequest(FirstLcp(magic))] && Took(io.written, io.limit)
    modifies early, io`httpChecked, io`script, io`written, io.buf
    ensures var end := old(Rest(magic, clock, Begin(magic), early, io));
      || Cut(stop, end.sent, io.written, io.limit)
      || (&& Took(io.written, io.limit)
          && if stop.Some? then end.client == Down(stop.value) && io.written == end.sent
             else Drive(magic, clock, Run(InIpcp(mru, FIRST_IPCP, 0), early.data,
                                          io.written + [IpcpRequest(FIRST_IPCP)], io.View())) == end)
  {
    ghost var end := Rest(magic, clock, Begin(magic), early, io);
    var l := FirstLcp(magic);
    var rounds := 0;
    ghost var run := Start(magic, io.View()).(early := early.data);
    while !(l.ours && l.theirs)
      invariant Drive(magic, clock, run) == end
      invariant run == if l.ours && l.theirs
        then Run(InIpcp(l.mru, FIRST_IPCP, 0), early.data, io.written + [IpcpRequest(FIRST_IPCP)], io.View())
        else Run(InLcp(l, rounds), early.data, io.written, io.View())
      invariant rounds <= MAX_ROUNDS && Took(io.written, io.limit)
      decreases MAX_ROUNDS - rounds
    {
      if rounds + 1 > MAX_ROUNDS || rounds + 1 > clock.lcpRounds {
        return Some(Protocol(NotConverged)), l.mru;
      }
      DrivesOn(magic, clock, run);
      run := Pass(magic, run);
      DriveOnlyAppends(magic, clock, run);
      var failed, next := LcpRound(io, magic, l, rounds, early);
      if failed.Some? {
        return failed, l.mru;
      }
      l := next;
      rounds := rounds + 1;
    }
    return None, l.mru;
  }

  method IpcpPhase(io: PppStream, magic: Magic, clock: Clock, mru: nat, early: BytesMut)
    returns (stop: Option<VpnError>, i: Ipcp)
    requires early != io.buf && Took(io.written, io.limit)
    modifies early, io`httpChecked, io`script, io`written, io.buf
    ensures var end := old(Rest(magic, clock, InIpcp(mru, FIRST_IPCP, 0), early, io));
      || Cut(stop, end.sent, io.written, io.limit)
      || (&& Took(io.written, io.limit) && io.written == end.sent
          && if stop.Some? then end.client == Down(stop.value)
             else end.client == Finish(magic, mru, i) && early.data == end.early && io.View() == end.io)
  {
    ghost var end := Rest(magic, clock, InIpcp(mru, FIRST_IPCP, 0), early, io);
    i := FIRST_IPCP;
    var rounds := 0;
    ghost var run := Run(InIpcp(mru, i, 0), early.data, io.written, io.View());
    while !(i.ours && i.theirs)
      invariant Drive(magic, clock, run) == end
      invariant run == Run(if i.ours && i.theirs then Finish(magic, mru, i) else InIpcp(mru, i, rounds),
                           early.data, io.written, io.View())
      invariant rounds <= MAX_ROUNDS && Took(io.written, io.limit)
      decreases MAX_ROUNDS - rounds
    {
      if rounds + 1 > MAX_ROUNDS || rounds + 1 > clock.ipcpRounds {
        return Some(Protocol(NotConverged)), i;
      }
      DrivesOn(magic, clock, run);
      run := Pass(magic, run);
      DriveOnlyAppends(magic, clock, run);
      var failed, next := IpcpRound(io, magic, mru, i, rounds, early);
      if failed.Some? {
        return failed, i;
      }
      i := next;
      rounds := rounds + 1;
    }
    return None, i;
  }

  /**
   * The whole negotiation. When every write succeeds, or the first to fail would
   * come after the end, it ends exactly as the step machine does, has written
   * exactly the same packets, and hands back the staged frames in front of the
   * bytes it had read but not decoded. Otherwise it fails with the write and has
   * written exactly what the machine sends before that packet.
   */
  method Negotiate(prime: Bytes, script: seq<Read>, magic: Magic, clock: Clock, writes: Option<nat>)
    returns (r: Result<(Session, Bytes), VpnError>, written: seq<Out>, unread: seq<Read>)
    ensures var end := Drive(magic, clock, Start(magic, Inbox(prime, false, script)));
      if writes.Some? && writes.value < |end.sent|
      then r == Err(VpnError.Io(Transport)) && written == end.sent[..writes.value]
      else
        && written == end.sent
        && match end.client
           case Up(session) => r == Ok((session, end.early + end.io.buf)) && unread == end.io.script
           case Down(e) => r == Err(e)
           case _ => false
  {
    var io := new PppStream(prime, script, writes);
    var early := new BytesMut([]);
    unread := [];
    ghost var start := Start(magic, Inbox(prime, false, script));
    DriveOnlyAppends(magic, clock, start);
    var ok := SendLcpRequest(io, FirstLcp(magic).id, FirstLcp(magic).opts);
    if !ok {
      return Err(BROKEN.value), io.written, unread;
    }
    assert io.written == start.sent;
    var stop, mru := LcpPhase(io, magic, clock, early);
    if stop.Some? {
      return Err(stop.value), io.written, unread;
    }
    ghost var opening := Run(InIpcp(mru, FIRST_IPCP, 0), early.data, io.written + [IpcpRequest(FIRST_IPCP)], io.View());
    DriveOnlyAppends(magic, clock, opening);
    ok := SendIpcpRequest(io, FIRST_IPCP.id, FIRST_IPCP.opts);
    if !ok {
      return Err(BROKEN.value), io.written, unread;
    }
    var stop', i := IpcpPhase(io, magic, clock, mru, early);
    if stop'.Some? {
      return Err(stop'.value), io.written, unread;
    }
    if i.harvest.address.None? {
      return Err(Protocol(NoAddressAssigned)), io.written, unread;
    }
    var session := Session(i.harvest.address.value, i.peer, i.harvest.dns, mru, magic);
    return Ok((session, early.data + io.buf.data)), io.written, io.script;
  }
}
