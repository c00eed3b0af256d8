# A model of the VPN engine's wire protocols and packet path

This project models the core of `crates/vpn-engine` in Dafny and proves what the code promises about it.
`dafny verify dfyconfig.toml` checks all of it.

Four clusters are modelled, each in the form its source has: codecs and list walks as methods with loops over a
mutable buffer or a growing list, objects with state as classes, pure helpers as functions.

* **FortiGate bring-up and hand-off** (`Wire`, `Ppp`, `Negotiation`, `PppIo`, `PppNegotiate`, `NegotiationSafety`,
  `Arrivals`, `NegotiationRuns`, `NegotiationAcks`, `HandOff`, `EndToEnd`, and `Gateway` with its six companions). LCP and IPCP are
  a step machine, one step per received frame or timeout. The imperative `Negotiate`, over a buffered stream whose writes
  may fail, is proved to do what the machine does. Then the machine is run against any peer (safety), and against a
  conforming gateway over two FIFO channels (agreement). That gateway may refuse, may have its own LCP proposals
  rejected and make others, and may send data and echo requests at any time. The agreement is proved message by message
  (`GatewayAgreement` states the invariant, `GatewaySteps` and `GatewayMoves` keep it, `GatewayRuns` has the theorems,
  `GatewayExamples` two runs in full), then over the bytes of those messages in any split (`GatewayBytes`).
* **Framing and forwarding** (`StreamDecoding`, `Cstp`, `Slim`, `Forti`, `Framers`, `Forwarding`, `ForwardingRuns`,
  `Routing`). One theory of prefix-stable decoders, with the three framers as instances; the forwarding loop as one step
  per wake-up, chosen freely among shutdown, keepalive tick, TUN batch and TLS read; teardown over an abstract host.
* **CCC documents and address ranges** (`Utf8`, `Text`, `Ccc`, `CccParser`, `CccRoundTrip`, `Cidr`, `HelloReply`).
* **Supporting machines** (`Http`, `HttpResponse`, `Supervisor`, `SupervisorRuns`, `Cipher`).

Lengths are unbounded integers. Every cast of the source is written out (`AsU8`, `AsU16`, `AsU32`), so that "nothing is
truncated" is a theorem. Clocks, jitter, the magic number, socket reads, TUN reads and write failures are inputs of the
model: a theorem about a run holds for every choice of them.

## Findings

Where a property turned out not to hold of the code on all inputs, the code is modelled as it is, a lemma gives an
input, and the exact condition is proved.

* `parse(x.to_wire()) == x` (`crates/vpn-engine/src/checkpoint/ccc.rs:68-69`) fails for a node without fields, which
  comes back as an atom (`NodeWithoutFieldsIsLost`). It holds exactly for the trees that `Printable` describes
  (`SurvivesExactlyWhenPrintable`).
* A document whose text has exactly the 1 MiB that the parser allows cannot be sent as a SLIM control frame: the trailing
  NUL takes it over the frame cap (`Slim.FullDocumentIsNotSendable`; exactly when: `Slim.ControlRoundTrip`).
* In both loops a Nak or Reject after an Ack does not clear the flag the Ack has set. So LCP can open on a request that
  nobody acknowledged (`OpensOnUnackedRequest`; exactly when: `LastRequestAckedExactlyWhenNotRefused`), and the session
  can carry an address from a late Nak although the Ack names another (`SessionOnUnackedAddress`; exactly when:
  `AddressIsAckedExactlyWhen`).
* DNS servers named in an early Nak stay in the session after a later Nak has replaced them. A gateway that rejects the
  MRU option takes 1500 (RFC 1661 section 6.1) while the client stays with its own 1354. `SidesCanDiffer` is one run with
  both. The servers are the same exactly when all that were named are in the acknowledged list (`DnsAgreesExactlyWhen`),
  the MRUs exactly when that list names one (`MruAgreesExactlyWhen`).
* A Configure-Request can outgrow the 16 KiB body cap of the client's own decoder, which then refuses the Ack that repeats
  it (`RequestsCanOutgrowTheCap`). A bring-up with a conforming gateway fails if and only if a message over that cap is
  heard (`EveryRunAgrees`, and over the bytes `BringUpAgrees`). The 16-bit fields of the request
  are exact all the same (`RequestIsExact`).
* Once LCP is up an LCP request is acknowledged whatever it asks for, authentication included
  (`UnknownOptionsAckedExactlyWhenLate`).
* A header block in front of the PPP stream is treated alike for every split exactly when it ends within 8193 bytes, one
  more than the guard (`PrologueSplits`); `LongHeaderIsLate` gives those that are not.
* The size guard of the response reader is checked between reads, so the split decides for a response that is complete
  only some bytes past it (`SplitCanMatter`; exactly when: `AnswerIgnoresSplitExactlyWhen`).
* A clean end of stream inside a chunked or counted body is not an error: what arrived is the body, chunk framing
  included (`TruncatedBodyIsAccepted` is a stream; exactly when: `BodyIsWholeExactlyWhen`).
* Packets staged during the negotiation reach the TUN device only after the first read of the forwarding loop, however
  many keepalives pass (`PrimeWaitsForFirstRead`); from then on nothing is missing (`InboundIsFaithful`).
* A CSTP payload of 64 KiB or more is cut to its length modulo 65536 on the way (`Cstp.EncodeDecode`).

## Model

Paths are relative to the repository root.

| member | source | states |
|---|---|---|
| `Ppp.CpRoundTrip` | crates/vpn-engine/src/fortigate/ppp.rs:118-144 | a control packet parses back to itself if and only if its length fits the 16-bit field |
| `Ppp.ParseOptionList` | crates/vpn-engine/src/fortigate/ppp.rs:149-162 | the loop returns the well-formed entries in order, up to the first malformed one |
| `Ppp.BuildOptionList` | crates/vpn-engine/src/fortigate/ppp.rs:166-177 | the loop returns the entries' bytes in order, over-long values skipped |
| `Ppp.OptionsRoundTrip` | crates/vpn-engine/src/fortigate/ppp.rs:149-177 | parsing undoes building on a list if and only if every value has at most 253 bytes |
| `Ppp.RebuildIsPrefix` | crates/vpn-engine/src/fortigate/ppp.rs:149-177 | re-building what was parsed from any bytes is a prefix of them, and the next byte starts no well-formed entry |
| `Ppp.EncodePppAppend` | crates/vpn-engine/src/fortigate/ppp.rs:208-217 | appends exactly one frame to the caller's buffer and keeps what was there |
| `Ppp.SplitPppExactly` | crates/vpn-engine/src/fortigate/ppp.rs:221-227 | a body is read as a given frame if and only if it is protocol and payload, behind `FF 03`, or without it unless the protocol would pass for that prefix; nothing is read if and only if the body is too short |
| `Ppp.TryDecode` | crates/vpn-engine/src/fortigate/ppp.rs:232-243 | takes exactly one whole frame off the buffer, or leaves it alone, or reports the error |
| `Ppp.DecodeIsStable` | crates/vpn-engine/src/fortigate/ppp.rs:232-243 | a frame or an error, once decided, does not change when more bytes arrive |
| `Ppp.FrameBack` | crates/vpn-engine/src/fortigate/ppp.rs:200-243 | a framed payload comes back whole if and only if its body is within the cap |
| `Negotiation.HarvestIpcp` | crates/vpn-engine/src/fortigate/ppp.rs:619-639 | the loop harvests the last usable address and each new non-zero DNS server, in order |
| `Negotiation.AdoptNaked` | crates/vpn-engine/src/fortigate/ppp.rs:456-463 | the loop over counter-proposals equals adopting them one by one, with or without adding new types |
| `PppIo.FindHeaderEnd` | crates/vpn-engine/src/fortigate/http.rs:130-132 | finds the first blank line, or that there is none |
| `PppIo.StripHttpPrologue` | crates/vpn-engine/src/fortigate/ppp.rs:291-315 | strips a 200 header block, passes other streams on untouched, waits, or refuses |
| `PppIo.PppStream.Recv` | crates/vpn-engine/src/fortigate/ppp.rs:337-364 | one receive: buffered frame first, then reads until a frame, silence, end of stream or failure |
| `PppNegotiate.OnLcpPacket` | crates/vpn-engine/src/fortigate/ppp.rs:418-489 | the LCP arm writes and changes exactly what the step machine says, or fails with the first write that does and has written all before it |
| `PppNegotiate.OnIpcpPacket` | crates/vpn-engine/src/fortigate/ppp.rs:547-597 | the same for the IPCP arm |
| `PppNegotiate.LcpPhase` | crates/vpn-engine/src/fortigate/ppp.rs:383-494 | the LCP loop ends, writes and stages as the step machine does, up to the write that fails |
| `PppNegotiate.IpcpPhase` | crates/vpn-engine/src/fortigate/ppp.rs:498-599 | the same for the IPCP loop |
| `PppNegotiate.Negotiate` | crates/vpn-engine/src/fortigate/ppp.rs:373-616 | the bring-up refines the step machine: same result, same packets written, staged frames in front of undecoded bytes; if a write fails, that error, with exactly the packets before it written |
| `NegotiationSafety.SoundListFits` | crates/vpn-engine/src/fortigate/ppp.rs:166-177 | option types pairwise distinct and values of at most 253 bytes: the built list has at most 65280 bytes |
| `NegotiationSafety.RequestIsExact` | crates/vpn-engine/src/fortigate/ppp.rs:136-217 | a request from such a list is at most 65292 bytes framed, no cast drops a bit, and it parses back to the list |
| `NegotiationSafety.LcpPacketIsSafe` | crates/vpn-engine/src/fortigate/ppp.rs:418-489 | whatever an LCP packet says, the option list stays sound and every packet sent is exact |
| `NegotiationSafety.IpcpPacketIsSafe` | crates/vpn-engine/src/fortigate/ppp.rs:547-597 | the same in IPCP; harvested addresses stay non-zero and DNS entries distinct |
| `NegotiationSafety.EveryRunIsSafe` | crates/vpn-engine/src/fortigate/ppp.rs:393-599 | every reachable state of both loops satisfies the safety invariant, against any peer |
| `NegotiationRuns.RoundsCountReceives` | crates/vpn-engine/src/fortigate/ppp.rs:393-398 | neither loop receives more than 40 times |
| `NegotiationRuns.AnyPeer` | crates/vpn-engine/src/fortigate/ppp.rs:337-616 | under any peer and timing the bring-up ends where its receives lead, whose frames are the first whole frames behind the prologue of the bytes read; success means both sides acknowledged in both protocols with identical id and data |
| `NegotiationRuns.RejectIsExact` | crates/vpn-engine/src/fortigate/ppp.rs:420-447 | a Reject has the request's id and parses to exactly the unknown options, every copy, in order |
| `NegotiationRuns.UnknownOptionsAckedExactlyWhenLate` | crates/vpn-engine/src/fortigate/ppp.rs:420-447 | a request with unknown options is acknowledged if and only if it arrives in the IPCP loop |
| `NegotiationAcks.LastRequestAckedExactlyWhenNotRefused` | crates/vpn-engine/src/fortigate/ppp.rs:448-597 | in LCP and in IPCP: when our request counts as acknowledged, the last one sent was, if and only if no refusal followed the last matching Ack |
| `NegotiationAcks.OpensOnUnackedRequest` | crates/vpn-engine/src/fortigate/ppp.rs:448-476 | three packets after which LCP opens on a request that was never acknowledged |
| `NegotiationAcks.AddressIsAckedExactlyWhen` | crates/vpn-engine/src/fortigate/ppp.rs:555-605 | the session's address is the one the last matching Ack names if and only if that Ack names one and no later Nak names another |
| `NegotiationAcks.SessionOnUnackedAddress` | crates/vpn-engine/src/fortigate/ppp.rs:555-605 | five packets after which the session carries a Nak's address although the Ack named another |
| `Arrivals.FramesAreNotPrologue` | crates/vpn-engine/src/fortigate/ppp.rs:291-297 | the prologue check never eats a byte of a stream that starts with a frame |
| `Arrivals.PrologueSplits` | crates/vpn-engine/src/fortigate/ppp.rs:291-315 | the prologue decision is the same for every split if and only if the header block ends within 8193 bytes |
| `Arrivals.LongHeaderIsLate` | crates/vpn-engine/src/fortigate/ppp.rs:291-315 | header blocks padded past the guard, for which it is not |
| `HandOff.NothingIsLost` | crates/vpn-engine/src/fortigate/ppp.rs:612-649 | hand-off conservation: the returned buffer and all later bytes decode to exactly the IPv4 payloads of the whole stream, same leftover, same first error |
| `EndToEnd.GatewayPacketsReachTheTun` | crates/vpn-engine/src/forward.rs:77-200 | across negotiation and forwarding, the TUN device gets exactly the IPv4 payloads the gateway sent, in order |
| `GatewayMoves.LcpHearsRefusal` | crates/vpn-engine/src/fortigate/ppp.rs:456-476 | after a Nak or Reject the client revises, asks again, and the composed invariant holds with a smaller measure |
| `GatewayMoves.LcpHearsOffer` | crates/vpn-engine/src/fortigate/ppp.rs:418-447 | a gateway proposal is rejected exactly by its unknown options or acknowledged verbatim, and the composed invariant holds with a smaller measure |
| `GatewayMoves.ClientInLcp` | crates/vpn-engine/src/fortigate/ppp.rs:393-494 | whatever handshake message the client hears in LCP, the invariant of client, gateway and both channels is kept and the measure falls |
| `GatewayMoves.ClientInIpcp` | crates/vpn-engine/src/fortigate/ppp.rs:511-599 | the same in IPCP |
| `GatewayMoves.EveryMove` | crates/vpn-engine/src/fortigate/ppp.rs:393-599 | every move of either side keeps the invariant and lowers the measure; the client fails on it if and only if it hears a message over its cap |
| `GatewayRuns.NeverStuck` | crates/vpn-engine/src/fortigate/ppp.rs:393-599 | while the client negotiates, some message can be delivered or the gateway has a request to send |
| `GatewayRuns.EveryRunAgrees` | crates/vpn-engine/src/fortigate/ppp.rs:373-616 | every interleaving with a conforming gateway, its rejected LCP proposals, data and echo requests included, is bounded, never stuck and discards no handshake packet; the client fails if and only if it hears a message over its cap, and otherwise ends with the address and far-end address the gateway holds |
| `GatewayRuns.DnsAgreesExactlyWhen` | crates/vpn-engine/src/fortigate/ppp.rs:563-567 | the client's DNS servers are those acknowledged if and only if every server named in a Nak is among them |
| `GatewayRuns.MruAgreesExactlyWhen` | crates/vpn-engine/src/fortigate/ppp.rs:448-454 | the MRU the client keeps is the one the gateway takes if and only if the acknowledged list names one; the gateway's default is 1500 |
| `GatewayExamples.SidesCanDiffer` | crates/vpn-engine/src/fortigate/ppp.rs:456-581 | a run within the budget that brings the client up with another MRU and other DNS servers than the gateway's |
| `GatewayExamples.RequestsCanOutgrowTheCap` | crates/vpn-engine/src/fortigate/ppp.rs:559-580 | a run that reaches a request over the client's own cap, and one that fails on its Ack |
| `GatewayBytes.DriveFollows` | crates/vpn-engine/src/fortigate/ppp.rs:337-599 | fed the bytes of some messages in any split, the bring-up does what the step machine does with those messages, a message over the cap included, and keeps the bytes behind them |
| `GatewayBytes.BringUpAgrees` | crates/vpn-engine/src/fortigate/ppp.rs:373-616 | the agreement at byte level: fed what the gateway sent in any ended run, in any split, the bring-up ends in the same way and has sent exactly what the gateway took or still has coming; it succeeds if and only if every message is within its cap |
| `GatewayBytes.EveryRunCanFinish` | crates/vpn-engine/src/fortigate/ppp.rs:393-599 | every run can be completed: the client comes up, or fails on a message over its cap |
| `StreamDecoding.ChunkingIndependence` | crates/vpn-engine/src/forward.rs:171-186 | for any prefix-stable decoder, any split of a stream gives the events, leftover and first error of one read |
| `StreamDecoding.LeftoverIsSuffix` | crates/vpn-engine/src/forward.rs:179-185 | what stays in the buffer is the end of the stream, and nothing decodes from it yet |
| `Cstp.TryDecode` | crates/vpn-engine/src/tunnel.rs:153-169 | takes exactly one whole packet off the buffer, or leaves it alone, or reports the error |
| `Cstp.DecodeIsStable` | crates/vpn-engine/src/tunnel.rs:95-169 | the CSTP decoder is prefix-stable |
| `Cstp.EncodeDecode` | crates/vpn-engine/src/tunnel.rs:76-119 | a packet decodes to itself if and only if its length fits 16 bits; a longer one is cut modulo 65536 |
| `Slim.TryDecode` | crates/vpn-engine/src/checkpoint/framing.rs:86-118 | takes exactly one whole frame off the buffer, or leaves it alone, or reports the error |
| `Slim.DecodeIsStable` | crates/vpn-engine/src/checkpoint/framing.rs:86-118 | the SLIM decoder is prefix-stable |
| `Slim.DataRoundTrip` | crates/vpn-engine/src/checkpoint/framing.rs:42-118 | a data frame comes back whole if and only if its payload is within the cap |
| `Slim.ControlRoundTrip` | crates/vpn-engine/src/checkpoint/framing.rs:61-118 | a tree sent as a control frame decodes to itself and takes exactly its frame if and only if it is printable and its text is below the cap |
| `Slim.FullDocumentIsNotSendable` | crates/vpn-engine/src/checkpoint/framing.rs:61-118 | a tree of exactly 1 MiB of text parses but does not come back through a frame |
| `Slim.KeepaliveBack` | crates/vpn-engine/src/checkpoint/framing.rs:72-78 | the keepalive frame decodes to the keepalive document |
| `Forti.EncodeFrameAppend` | crates/vpn-engine/src/fortigate/framing.rs:49-63 | refuses a body over the cap and writes nothing, else appends one frame |
| `Forti.TryDecode` | crates/vpn-engine/src/fortigate/framing.rs:71-101 | takes exactly one whole frame off the buffer, or leaves it alone, or reports the error |
| `Forti.DecodeIsStable` | crates/vpn-engine/src/fortigate/framing.rs:71-101 | the envelope decoder is prefix-stable |
| `Forti.FrameBack` | crates/vpn-engine/src/fortigate/framing.rs:39-101 | a body comes back whole if and only if it is within the cap |
| `Framers.TunnelFramer.EncodeDataAppend` | crates/vpn-engine/src/framer.rs:83-214 | each framer appends exactly one data frame and keeps what was there |
| `Framers.TunnelFramer.Keepalive` | crates/vpn-engine/src/framer.rs:90-220 | each framer's keepalive; only FortiGate's counts up its echo id |
| `Framers.TunnelFramer.TryDecode` | crates/vpn-engine/src/framer.rs:100-263 | decodes and classifies one frame, taking exactly its bytes |
| `Framers.FramerIsStable` | crates/vpn-engine/src/framer.rs:78-264 | all three framers are prefix-stable |
| `Framers.FramerChunking` | crates/vpn-engine/src/framer.rs:78-264 | chunking independence of each framer |
| `Framers.DataArrives` | crates/vpn-engine/src/framer.rs:79-210 | a packet arrives as it was sent if and only if it is within the codec's limit |
| `Framers.KeepaliveIsControl` | crates/vpn-engine/src/framer.rs:90-220 | the peer takes a keepalive whole and never as a packet |
| `Framers.ShutdownIsControl` | crates/vpn-engine/src/framer.rs:95-224 | the same for the shutdown frame, where there is one |
| `Framers.ReplyIsControl` | crates/vpn-engine/src/framer.rs:100-263 | the same for every reply a received frame calls for |
| `Forwarding.BatchOf` | crates/vpn-engine/src/forward.rs:133-153 | no batch holds more than 32 packets |
| `Forwarding.Forwarder.SendBatch` | crates/vpn-engine/src/forward.rs:133-166 | the batch loop writes the frames of what it read, also when an end of file or an error cuts it short |
| `Forwarding.Forwarder.ReadTls` | crates/vpn-engine/src/forward.rs:171-200 | one TLS read and the inbound drain act as the step relation says |
| `Forwarding.Forwarder.Handle` | crates/vpn-engine/src/forward.rs:93-202 | one pass through the select is one step of the relation |
| `Forwarding.Forward` | crates/vpn-engine/src/forward.rs:93-202 | the loop refines the step relation over any wake-ups |
| `Forwarding.RunForwarding` | crates/vpn-engine/src/forward.rs:48-211 | on every exit the routes go first and the TUN after; the table is as before but for routes the system refused to delete |
| `ForwardingRuns.InboundIsFaithful` | crates/vpn-engine/src/forward.rs:171-200 | while the loop runs, the TUN device has got exactly the data frames of all bytes received, in order |
| `ForwardingRuns.ReadDeliversPrefix` | crates/vpn-engine/src/forward.rs:171-200 | after any read, the last one included, the TUN device has got the data frames of a prefix of the stream's frames: those before the disconnect or the failed write, else all before the malformed frame or the end; and the exit says which |
| `ForwardingRuns.OtherExitsDeliverAll` | crates/vpn-engine/src/forward.rs:93-178 | left through any other arm, the loop has delivered every data frame received |
| `ForwardingRuns.PrimeWaitsForFirstRead` | crates/vpn-engine/src/forward.rs:171-186 | handed-over bytes stay undelivered until the first read |
| `ForwardingRuns.MissedCountsTicks` | crates/vpn-engine/src/forward.rs:112-187 | the counter equals the keepalives since the last fully decoded frame and stays below 3 |
| `ForwardingRuns.UnresponsiveExactlyOnThirdTick` | crates/vpn-engine/src/forward.rs:112-125 | an unresponsive peer is reported exactly on the third such keepalive |
| `ForwardingRuns.OutboundIsFaithful` | crates/vpn-engine/src/forward.rs:99-166 | the TLS output is whole frames, and the peer's decoder finds in it exactly the TUN packets, in read order |
| `Routing.InstallRoutes` | crates/vpn-engine/src/routing.rs:60-82 | installs every route or, at the first refusal, takes back those added |
| `Routing.RoutingGuard.RemoveAll` | crates/vpn-engine/src/routing.rs:88-105 | deletes each route once, goes on past a refusal, and does nothing when called again |
| `Routing.InstallsExactlyWhen` | crates/vpn-engine/src/routing.rs:60-82 | installing succeeds if and only if no route is refused, present, or wanted twice |
| `Ccc.WriteWire` | crates/vpn-engine/src/checkpoint/ccc.rs:70-106 | the recursive writer appends exactly the indented text of the tree |
| `CccParser.ParseDocument` | crates/vpn-engine/src/checkpoint/ccc.rs:112-262 | the positional parser, on any text, ends and computes the grammar's answer |
| `CccRoundTrip.ParserUndoesPrinter` | crates/vpn-engine/src/checkpoint/ccc.rs:68-262 | every printable tree parses back to itself |
| `CccRoundTrip.AcceptedDocumentsAreCanonical` | crates/vpn-engine/src/checkpoint/ccc.rs:112-262 | any accepted document is well-formed, at most 64 deep, and survives printing while within the cap |
| `CccRoundTrip.SurvivesExactlyWhenPrintable` | crates/vpn-engine/src/checkpoint/ccc.rs:68-107 | exactly the printable trees survive |
| `CccRoundTrip.NodeWithoutFieldsIsLost` | crates/vpn-engine/src/checkpoint/ccc.rs:68-107 | a node without fields comes back as an atom |
| `Utf8.RoundTrip` | crates/vpn-engine/src/checkpoint/framing.rs:61-112 | text survives the wire, and the lossy decoder replaces nothing in it |
| `Cidr.RangeToSubnets` | crates/vpn-engine/src/checkpoint/session.rs:148-171 | the loop ends on every pair and emits the greedy split |
| `Cidr.HostBitsIsLargestFit` | crates/vpn-engine/src/checkpoint/session.rs:155-166 | each block is the largest one that is aligned and fits |
| `Cidr.ExactCover` | crates/vpn-engine/src/checkpoint/session.rs:148-171 | the blocks cover exactly the range, each address in one block only |
| `Cidr.Optimal` | crates/vpn-engine/src/checkpoint/session.rs:148-171 | no list of aligned blocks with the same cover is shorter |
| `Cidr.SizesGrowThenShrink` | crates/vpn-engine/src/checkpoint/session.rs:155-169 | sizes strictly grow while limited by alignment, then strictly shrink |
| `Cidr.AtMost62` | crates/vpn-engine/src/checkpoint/session.rs:148-171 | no range needs more than 62 blocks |
| `Cidr.BoundIsReached` | crates/vpn-engine/src/checkpoint/session.rs:148-171 | 0.0.0.1 to 255.255.255.254 needs all 62 |
| `HelloReply.ParseHelloReply` | crates/vpn-engine/src/checkpoint/session.rs:177-293 | a disconnect, another object, a missing address, or the session with all its parts |
| `HelloReply.AddressHasOneSpelling` | crates/vpn-engine/src/checkpoint/session.rs:202-208 | an address is read from its dotted-decimal spelling and from no other text |
| `HelloReply.ServersAreThoseSpelled` | crates/vpn-engine/src/checkpoint/session.rs:219-230 | the DNS servers are the elements that spell an address, all of them, in order |
| `HelloReply.DomainsAreTheItems` | crates/vpn-engine/src/checkpoint/session.rs:232-246 | a quoted list comes apart into its items at every comma and semicolon, trimmed, blank ones dropped |
| `Text.NumberIsRead` | crates/vpn-engine/src/checkpoint/session.rs:268-280 | a timeout printed in decimal is read back if and only if it fits 64 bits |
| `HelloReply.CollectRoutes` | crates/vpn-engine/src/checkpoint/session.rs:249-266 | the loop collects the blocks of each range that parses and is not the sentinel |
| `HelloReply.RoutesCoverExactly` | crates/vpn-engine/src/checkpoint/session.rs:249-266 | the routes cover exactly the union of those ranges |
| `HelloReply.NetmaskIsTopBits` | crates/vpn-engine/src/checkpoint/session.rs:69-73 | the mask has its top bits set, min(p, 32) of them |
| `HelloReply.MaskSurvivesExactlyWhen` | crates/vpn-engine/src/checkpoint/session.rs:211-217 | counting a mask's bits and rebuilding it gives it back if and only if its ones are contiguous from the top |
| `Http.DecodeChunked` | crates/vpn-engine/src/fortigate/http.rs:156-187 | the positional loop computes the recursive decoding |
| `Http.DechunkIsStable` | crates/vpn-engine/src/fortigate/http.rs:156-187 | a body or an error, once decided, is unchanged by extra bytes |
| `Http.DechunkInverts` | crates/vpn-engine/src/fortigate/http.rs:156-187 | decoding inverts chunked encoding for every partition, spelling of sizes, extension and trailer if and only if the body is within the guard |
| `Http.PrefixAsksForMore` | crates/vpn-engine/src/fortigate/http.rs:156-187 | every prefix that stops before the zero-size line is complete asks for more |
| `Http.EveryBodyCanBeSent` | crates/vpn-engine/src/fortigate/http.rs:156-187 | every body, cut into chunks in any way, has an encoding, which decodes to it if and only if it is within the guard |
| `HttpResponse.ReadResponse` | crates/vpn-engine/src/fortigate/http.rs:191-260 | the read loop computes `Answer` for any arrivals |
| `HttpResponse.AnswerWithin` | crates/vpn-engine/src/fortigate/http.rs:191-260 | within the guard, the answer depends on the stream alone, not on its split |
| `HttpResponse.AnswerIgnoresSplitExactlyWhen` | crates/vpn-engine/src/fortigate/http.rs:191-260 | exactly when the answer is the same for every split |
| `HttpResponse.SplitCanMatter` | crates/vpn-engine/src/fortigate/http.rs:191-260 | responses whose answer depends on the split |
| `HttpResponse.BodyIsWholeExactlyWhen` | crates/vpn-engine/src/fortigate/http.rs:201-256 | the body handed back is the one the head delimits if and only if its delimiter arrived, or there is none and the peer closed; it is cut short if and only if the peer closed before the delimiter |
| `HttpResponse.TruncatedBodyIsAccepted` | crates/vpn-engine/src/fortigate/http.rs:241-256 | two bytes announced, one delivered, and a response with one byte |
| `Supervisor.BackoffDoublesToCap` | crates/vpn-engine/src/client.rs:61-64 | the base is min(1000 * 2^k, 60000) ms for every k, saturation included |
| `Supervisor.DelayWithinQuarter` | crates/vpn-engine/src/client.rs:69-84 | each delay is within 25 percent of its base |
| `Supervisor.RunPipeline` | crates/vpn-engine/src/client.rs:127-187 | TUN, routes, forwarding in this order; the first step that fails decides the outcome, the TUN is closed behind the routes, and exactly the added routes that the system refuses to delete stay |
| `Supervisor.EstablishedExactlyWhen` | crates/vpn-engine/src/client.rs:137-170 | a connection reaches forwarding if and only if no step fails and its routes are new, accepted and distinct |
| `Supervisor.ForwardingFailsTransiently` | crates/vpn-engine/src/forward.rs:93-202 | the forwarding loop never fails with a permanent error |
| `Supervisor.RunSupervised` | crates/vpn-engine/src/client.rs:397-479 | for any connections, session lengths, jitter and shutdowns, the reconnect loop reports `Supervise` of exactly these and leaves exactly the table they lead to |
| `Supervisor.RoundIsItsScripts` | crates/vpn-engine/src/client.rs:404-419 | each round is its own connection, made on a table that has gained only undeletable routes |
| `Supervisor.TableOnlyKeeps` | crates/vpn-engine/src/client.rs:404-475 | over all reconnects only undeletable routes stay |
| `SupervisorRuns.EveryRunTellsAStory` | crates/vpn-engine/src/client.rs:397-479 | every event trace matches (Connecting Established? Reconnecting)* then an end; a permanent error never follows Established |
| `SupervisorRuns.TheEndTells` | crates/vpn-engine/src/client.rs:404-472 | the result is Ok if and only if the last event is Disconnected, an error if and only if it is PermanentError |
| `SupervisorRuns.EndsOnFirstStop` | crates/vpn-engine/src/client.rs:404-472 | the loop ends in the first round that is not a retry: cleanly on a shutdown wherever it is seen, with the error on a permanent one; a shutdown seen at the top begins no further connection |
| `SupervisorRuns.WaitsFollowSchedule` | crates/vpn-engine/src/client.rs:430-475 | the i-th wait follows the retries since the start or the last sustained session |
| `SupervisorRuns.LongOutageBacksOff` | crates/vpn-engine/src/client.rs:430-475 | n >= 6 tries in a row without a sustained session wait at least 47250 + 45000 * (n - 6) ms |
| `Cipher.Encode` | crates/vpn-engine/src/checkpoint/cipher.rs:26-65 | map, in-place reversal and hex loop compute the encoded password |
| `Cipher.Decode` | crates/vpn-engine/src/checkpoint/cipher.rs:37-89 | hex loop, reversal and map compute the decoding, or the error |
| `Cipher.HexRoundTrip` | crates/vpn-engine/src/checkpoint/cipher.rs:57-89 | hex parsing undoes hex printing |
| `Cipher.PasswordComesBack` | crates/vpn-engine/src/checkpoint/cipher.rs:18-54 | a password survives if and only if no byte is 0x00 or 0xFF xor the key byte at its place |
| `Cipher.AsciiPasswordComesBack` | crates/vpn-engine/src/checkpoint/cipher.rs:18-54 | every NUL-free ASCII password of any length survives |

## Left out

- TLS, sockets, certificate checks and `connect_tls`: a stream is a byte sequence with arbitrary splits, and the HTTP and
  login exchanges before the tunnel are one input of `Supervisor.Connect`, the error they end with.
- Real time: the 30-second negotiation deadline is an arbitrary number of rounds, receive timeouts and restart intervals
  are inputs, and `lasted` and the jitter factor are arbitrary values. The product of delay and jitter is real
  arithmetic, without floating-point rounding.
- Concurrency inside one wake-up: the arms of the select run one at a time, as they do in the source; which one wins is
  arbitrary.
- Bytes of a partly failed write: a write to the TLS stream or the TUN device succeeds as a whole or not at all.
- Error texts, logging and the JSON or GUI side of events: errors keep their kind and the condition they report.
- GatewayRuns.EveryRunAgrees: no receive times out, so the client repeats no request and the gateway answers each once;
  everything the gateway may have the client receive in one loop is within its budget of 40 rounds.
- HttpResponse.ReadResponse: the head parser is a parameter, any function from the header block to a status, a chunked
  mark and a length; the header text format is not modelled. Cookies and keep-alive are left out too.
- Http.DecodeChunked: a size that overflows a 64-bit word is refused, but the sum of a size close to that bound and the
  bytes already taken is computed without overflow, and is then past the guard.
- HelloReply.ParseHelloReply: the wait for the reply and its 64 KiB bound are left out.
- Routing.InstallRoutes: Android's no-op variant and the default private ranges are left out.
- The Cisco and Check Point hand-over passes an empty buffer to the forwarding loop, so conservation is claimed for
  FortiGate only.
- AnyConnect and FortiGate login, XML and cookie scanning, profiles, helper and GUI: flat text searches and wrappers that
  would only add easy members.
