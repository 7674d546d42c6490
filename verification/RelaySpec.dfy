/**
 The relay engine on values: what one call of `ingest`, `plan_send` and `plan_forward`
 does to the relay's state. The class in `Relay.dfy` is proved to do just this.
 */
module RelaySpec {
  import opened Wrappers
  import opened Proto
  import opened Dedup
  import opened Receivers
  import opened Seen
  import F = Fragmenter
  import R = Reassembly
  import Wire

  /** The relay's `SeenCache<64>`. */
  const SEEN_WINDOW: nat := 64

  /** What a relay is built with: its address, its id base, and its const generics. */
  datatype Config = Config(selfAddr: Addr, idBase: u32, peersMax: nat, dims: R.Dims)

  /** `seen` is the history of the seen cache; only its last 64 entries are remembered. */
  datatype State = State(
    idCtr: u32, peers: Peers, groups: R.Groups, seen: seq<u32>, registered: set<Transport>)

  const FRESH: State := State(0, map[], map[], [], {})

  datatype IngestOutcome =
    | Duplicate
    | Buffered
    | Complete(msg: Message)
    | NotForMe(msg: Message)
    | Dropped(reason: R.RejectReason)
  {
    /** The message handed out, if any. */
    function Delivered(): Option<Message> {
      match this
      case Complete(m) => Some(m)
      case NotForMe(m) => Some(m)
      case _ => None
    }
  }

  datatype PlannedFrame = PlannedFrame(transport: Transport, addr: FrameAddr, message: Message)

  // ---- Receiving ----

  function Direct(c: Config, m: Message): IngestOutcome {
    if m.to == c.selfAddr || m.IsBroadcast() then Complete(m) else NotForMe(m)
  }

  function Route(c: Config, o: R.Outcome): IngestOutcome {
    match o
    case Passthrough(m) => Direct(c, m)
    case Complete(m) => Direct(c, m)
    case Buffered => Buffered
    case Dropped(reason) => Dropped(reason)
  }

  function Learn(c: Config, peers: Peers, from: Addr, source: Transport): Peers {
    if from != BROADCAST_ADDR && from != c.selfAddr then AddPeer(c.peersMax, peers, from, source).0 else peers
  }

  /** `Relay::ingest` after decoding: learn the sender, drop duplicates, reassemble, route. */
  function IngestMessage(c: Config, s: State, source: Transport, decoded: Message): (State, IngestOutcome) {
    var m := decoded.(origin := source);
    var learned := s.(peers := Learn(c, s.peers, m.from, source));
    if DedupKey(m) in Recent(s.seen, SEEN_WINDOW) then (learned, Duplicate)
    else
      var (groups, o) := R.Ingest(c.dims, s.groups, m);
      (learned.(groups := groups, seen := s.seen + [DedupKey(m)]), Route(c, o))
  }

  function Ingest(c: Config, s: State, source: Transport, bytes: seq<u8>): (State, Result<IngestOutcome, RelayError>) {
    match Wire.DecodeMessage(bytes)
    case Err(e) => (s, Err(Protocol(e)))
    case Ok(m) =>
      var (s', o) := IngestMessage(c, s, source, m);
      (s', Ok(o))
  }

  // ---- Allocating ids ----

  function Alloc(base: u32, n: nat): u32 {
    (base + n) % 0x1_0000_0000
  }

  function Advance(ctr: u32, n: nat): u32 {
    (ctr + n) % 0x1_0000_0000
  }

  // ---- Planning ----

  function Targets(s: State, dest: Destination): Result<seq<Transport>, RelayError> {
    if s.registered == {} then Err(NoPortsRegistered)
    else match dest
      case Broadcast => Ok(InOrder(s.registered))
      case Unicast(a) =>
        if a !in s.peers || s.peers[a] * s.registered == {} then Err(UnknownReceiver)
        else Ok(InOrder(s.peers[a] * s.registered))
  }

  function DestAddr(dest: Destination): Addr {
    match dest
    case Unicast(a) => a
    case Broadcast => BROADCAST_ADDR
  }

  function NetAddr(dest: Destination): FrameAddr {
    match dest
    case Unicast(a) => ToPeer(a)
    case Broadcast => ToAll
  }

  function Planned(frames: seq<Message>, t: Transport, addr: FrameAddr): seq<PlannedFrame> {
    seq(|frames|, (i: nat) requires i < |frames| => PlannedFrame(t, addr, frames[i]))
  }

  /** The frames for one target, which draws its own group id. */
  function PlanTarget(c: Config, ctr: u32, id: u32, kind: MsgKind, payload: seq<u8>, dest: Destination, t: Transport)
    : (u32, Result<seq<PlannedFrame>, RelayError>)
  {
    match F.Prepare(id, DEFAULT_TTL, t, c.selfAddr, DestAddr(dest), kind, payload)
    case Err(e) => (ctr, Err(e))
    case Ok(msg) =>
      (Advance(ctr, 1),
       match F.SplitAt(msg, F.Mtu(t), Alloc(c.idBase, ctr))
       case Err(e) => Err(e)
       case Ok(frames) => Ok(Planned(frames, t, NetAddr(dest))))
  }

  /** The frames for each target in turn, up to the first error. */
  function PlanTargets(c: Config, ctr: u32, id: u32, kind: MsgKind, payload: seq<u8>, dest: Destination,
                       targets: seq<Transport>): (u32, Result<seq<PlannedFrame>, RelayError>)
    decreases |targets|
  {
    if targets == [] then (ctr, Ok([]))
    else
      var (ctr1, first) := PlanTarget(c, ctr, id, kind, payload, dest, targets[0]);
      if first.Err? then (ctr1, first)
      else
        var (ctr2, rest) := PlanTargets(c, ctr1, id, kind, payload, dest, targets[1..]);
        (ctr2, if rest.Err? then rest else Ok(first.value + rest.value))
  }

  function PlanSend(c: Config, s: State, kind: MsgKind, payload: seq<u8>, dest: Destination)
    : (State, Result<seq<PlannedFrame>, RelayError>)
  {
    match Targets(s, dest)
    case Err(e) => (s, Err(e))
    case Ok(targets) =>
      var (ctr, plan) := PlanTargets(c, Advance(s.idCtr, 1), Alloc(c.idBase, s.idCtr), kind, payload, dest, targets);
      (s.(idCtr := ctr), plan)
  }

  function ForwardAddr(m: Message): FrameAddr {
    if m.IsBroadcast() then ToAll else ToPeer(m.to)
  }

  function PlanForward(c: Config, s: State, msg: Message, target: Transport)
    : (State, Result<seq<PlannedFrame>, RelayError>)
  {
    match msg.PreparedForRelay()
    case None => (s, Ok([]))
    case Some(relayed) =>
      (s.(idCtr := Advance(s.idCtr, 1)),
       match F.SplitAt(relayed, F.Mtu(target), Alloc(c.idBase, s.idCtr))
       case Err(e) => Err(e)
       case Ok(frames) => Ok(Planned(frames, target, ForwardAddr(relayed))))
  }
}
