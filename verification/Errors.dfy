/** The client's error type; message texts are reduced to the condition they report. */
module Errors {
  import opened Wire

  datatype Fault =
    | BadMagic
    | LengthMismatch
    | FrameTooLong
    | UnknownPacketType
    | BodyTooShort
    | MalformedControlPacket
    | MalformedDocument
    | NotConverged
    | LinkTerminated
    | NoAddressAssigned
    | PeerUnresponsive
    | OversizedHeader
    | BadStatus
    | BadChunk
    | OversizedBody
    | OversizedResponse
    | HeadIncomplete
    | BadHex
    | PeerClosed
    | TunClosed
    | Transport

  /** Why the peer says it ended the session. */
  datatype Reason =
    | CstpDisconnect
    | CstpTerminate
    | PppTerminate
    | SlimDisconnect(code: Option<string>, message: Option<string>)

  datatype VpnError =
    | Config
    | Privilege
    | Tun
    | TunUnavailable
    | Routing
    | Tls(tls: Fault)
    | Protocol(fault: Fault)
    | AuthFailed
    | ServerDisconnect(reason: Reason)
    | Io(io: Fault)
    | NotImplemented
  {
    predicate IsPermanent() {
      Config? || Privilege? || AuthFailed? || TunUnavailable?
    }
  }
}
