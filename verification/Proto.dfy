/**
 The shared wire protocol: transports, messages, fragments and the size limits.
 Follows `crates/relaystar-proto/src/lib.rs`. A bounded `heapless::Vec` is a
 sequence, and its bound is written out wherever the code relies on it.
 */
module Proto {
  import opened Wrappers

  type u8 = n: int | 0 <= n < 0x100
  type u16 = n: int | 0 <= n < 0x1_0000
  type u32 = n: int | 0 <= n < 0x1_0000_0000

  const MAX_PAYLOAD: nat := 200
  const MAX_FRAME: nat := 255
  const DEFAULT_TTL: u8 := 4

  type Addr = a: seq<u8> | |a| == 6 witness [0, 0, 0, 0, 0, 0]

  const BROADCAST_ADDR: Addr := [0xFF, 0xFF, 0xFF, 0xFF, 0xFF, 0xFF]

  datatype Transport = Lora | Mqtt | EspNow {
    function MaxPayload(): nat {
      match this
      case Lora => 180
      case EspNow => 200
      case Mqtt => 4096
    }
  }

  /** `Transport::ALL`, the order in which every fan-out visits the transports. */
  const ALL_TRANSPORTS: seq<Transport> := [Lora, Mqtt, EspNow]

  datatype MsgKind = Text | Ping | Pong | Telemetry

  /** `seqNo` is the source's `seq`. */
  datatype Fragment = Fragment(groupId: u32, seqNo: u16, total: u16)

  datatype Message = Message(
    id: u32, ttl: u8, origin: Transport, from: Addr, to: Addr, kind: MsgKind,
    payload: seq<u8>, frag: Option<Fragment>)
  {
    predicate IsBroadcast() {
      to == BROADCAST_ADDR
    }

    /** The bound that the type of `payload` carries in the source. */
    predicate WellSized() {
      |payload| <= MAX_PAYLOAD
    }

    /** The message to pass on, with one hop less; nothing once the hop budget is spent. */
    function PreparedForRelay(): Option<Message> {
      if ttl == 0 then None else Some(this.(ttl := ttl - 1))
    }
  }

  datatype ProtoError = PayloadTooLarge | BufferTooSmall | Decode

  /** Which network-level address a planned frame is sent to. */
  datatype FrameAddr = ToPeer(addr: Addr) | ToAll

  datatype Destination = Unicast(addr: Addr) | Broadcast

  /** The errors that the relay's planner and receive path can return. */
  datatype RelayError =
    | UnknownReceiver
    | NoPortsRegistered
    | PayloadUnfragmentable
    | Protocol(error: ProtoError)
    | ReceiverTableFull
}
