/** From the first byte the FortiGate sends to the TUN device. */
module EndToEnd {
  import opened Wire
  import opened StreamDecoding
  import opened Negotiation
  import opened PppIo
  import Ppp
  import A = Arrivals
  import H = HandOff
  import F = Framers
  import L = Forwarding
  import LR = ForwardingRuns

  /**
   * While the forwarding loop of a negotiated tunnel runs and has read at least
   * once, the packets on the TUN device are exactly the IPv4 payloads the
   * gateway has sent since the prologue: those that arrived before, during and
   * after the negotiation, in order.
   */
  lemma GatewayPacketsReachTheTun(
    magic: Magic, clock: Clock, prime: Bytes, script: seq<Read>, wakes: seq<L.Wake>)
    returns (used: seq<Read>)
    requires Drive(magic, clock, Start(magic, Inbox(prime, false, script))).client.Up?
    requires var end := Drive(magic, clock, Start(magic, Inbox(prime, false, script)));
      && LR.Running(F.Fortinet(end.client.session.magic), end.early + end.io.buf, wakes)
      && LR.Received(wakes) != []
    ensures var end := Drive(magic, clock, Start(magic, Inbox(prime, false, script)));
      var read := prime + A.Delivered(used);
      && script == used + end.io.script
      && StripPrologue(read).Settled? && PrefixStable(Ppp.Decode)
      && L.Run(F.Fortinet(end.client.session.magic), end.early + end.io.buf, wakes).toTun
           == H.Ipv4Of(Drain(Ppp.Decode, StripPrologue(read).rest + LR.Received(wakes)).events)
  {
    var end := Drive(magic, clock, Start(magic, Inbox(prime, false, script)));
    var framer := F.Fortinet(end.client.session.magic);
    used := H.NothingIsLost(magic, clock, prime, script, end.client.session.magic, LR.Received(wakes));
    LR.InboundIsFaithful(framer, end.early + end.io.buf, wakes);
  }
}
