/** The one-byte enumerations of the header and of option 53. */
module Enums {
  import opened Bytes

  const DHCP_SERVER_PORT: u16 := 67
  const DHCP_CLIENT_PORT: u16 := 68

  datatype DhcpOperation = BootRequest | BootReply | UnknownOperation(op: byte)

  function OperationFromByte(b: byte): DhcpOperation {
    match b
    case 1 => BootRequest
    case 2 => BootReply
    case _ => UnknownOperation(b)
  }

  function OperationToByte(o: DhcpOperation): byte {
    match o
    case BootRequest => 1
    case BootReply => 2
    case UnknownOperation(n) => n
  }

  datatype MessageType =
    | Discover
    | Offer
    | Request
    | Decline
    | Acknowledge
    | NegAcknowledge
    | Release
    | Inform
    | UnknownMessage(mt: byte)

  function MessageTypeFromByte(b: byte): MessageType {
    match b
    case 1 => Discover
    case 2 => Offer
    case 3 => Request
    case 4 => Decline
    case 5 => Acknowledge
    case 6 => NegAcknowledge
    case 7 => Release
    case 8 => Inform
    case _ => UnknownMessage(b)
  }

  function MessageTypeToByte(m: MessageType): byte {
    match m
    case Discover => 1
    case Offer => 2
    case Request => 3
    case Decline => 4
    case Acknowledge => 5
    case NegAcknowledge => 6
    case Release => 7
    case Inform => 8
    case UnknownMessage(n) => n
  }

  datatype HardwareType =
    | Ethernet
    | ExperimentalEthernet
    | AmateurRadio
    | TokenRing
    | Chaos
    | Ieee802
    | Arcnet
    | HyperChannel
    | Lanstar
    | AutonetShortAddress
    | LocalTalk
    | LocalNe
    | UltraLink
    | Smds
    | FrameRelay
    | AsynchronousTransmissionMode
    | Hdlc
    | FibreChannel
    | UnknownHardware(ht: byte)

  function HardwareFromByte(b: byte): HardwareType {
    match b
    case 1 => Ethernet
    case 2 => ExperimentalEthernet
    case 3 => AmateurRadio
    case 4 => TokenRing
    case 5 => Chaos
    case 6 => Ieee802
    case 7 => Arcnet
    case 8 => HyperChannel
    case 9 => Lanstar
    case 10 => AutonetShortAddress
    case 11 => LocalTalk
    case 12 => LocalNe
    case 13 => UltraLink
    case 14 => Smds
    case 15 => FrameRelay
    case 16 => AsynchronousTransmissionMode
    case 17 => Hdlc
    case 18 => FibreChannel
    case _ => UnknownHardware(b)
  }

  function HardwareToByte(h: HardwareType): byte {
    match h
    case Ethernet => 1
    case ExperimentalEthernet => 2
    case AmateurRadio => 3
    case TokenRing => 4
    case Chaos => 5
    case Ieee802 => 6
    case Arcnet => 7
    case HyperChannel => 8
    case Lanstar => 9
    case AutonetShortAddress => 10
    case LocalTalk => 11
    case LocalNe => 12
    case UltraLink => 13
    case Smds => 14
    case FrameRelay => 15
    case AsynchronousTransmissionMode => 16
    case Hdlc => 17
    case FibreChannel => 18
    case UnknownHardware(n) => n
  }

  datatype ClientState = Init | InitReboot | Selecting | Renewing | Rebinding

  // A value is canonical when it is the one its own byte reads back as:
  // an Unknown that carries a named value is the only exception.

  predicate CanonicalOperation(o: DhcpOperation) {
    o.UnknownOperation? ==> !(1 <= o.op <= 2)
  }

  predicate CanonicalHardware(h: HardwareType) {
    h.UnknownHardware? ==> !(1 <= h.ht <= 18)
  }

  /** The numbers of section 2 of RFC 2131 and section 9.6 of RFC 2132. */
  lemma WireNumbers(b: byte)
    ensures OperationFromByte(b) == if b == 1 then BootRequest else if b == 2 then BootReply else UnknownOperation(b)
    ensures var types := [Discover, Offer, Request, Decline, Acknowledge, NegAcknowledge, Release, Inform];
      && MessageTypeFromByte(b) == (if 1 <= b <= 8 then types[b - 1] else UnknownMessage(b))
      && (1 <= b <= 8 ==> MessageTypeToByte(types[b - 1]) == b)
    ensures var types := [Ethernet, ExperimentalEthernet, AmateurRadio, TokenRing, Chaos, Ieee802, Arcnet, HyperChannel,
                          Lanstar, AutonetShortAddress, LocalTalk, LocalNe, UltraLink, Smds, FrameRelay,
                          AsynchronousTransmissionMode, Hdlc, FibreChannel];
      HardwareFromByte(b) == if 1 <= b <= 18 then types[b - 1] else UnknownHardware(b)
  {
  }

  lemma OperationBytes(o: DhcpOperation, b: byte)
    ensures OperationFromByte(OperationToByte(o)) == o <==> CanonicalOperation(o)
    ensures OperationToByte(OperationFromByte(b)) == b && CanonicalOperation(OperationFromByte(b))
  {
  }

  lemma HardwareBytes(h: HardwareType, b: byte)
    ensures HardwareFromByte(HardwareToByte(h)) == h <==> CanonicalHardware(h)
    ensures HardwareToByte(HardwareFromByte(b)) == b && CanonicalHardware(HardwareFromByte(b))
  {
  }
}
