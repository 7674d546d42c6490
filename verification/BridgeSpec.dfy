/**
 One bridge on values: the relay engine, the three outbound queues and the display feed of
 `crates/cardputer-fw/src/bridge.rs`, and what it does with one received frame.
 */
module BridgeSpec {
  import opened Proto
  import opened RelaySpec

  /** The capacity of every outbound channel and of the display feed. */
  const QUEUE_SIZE: nat := 8

  datatype OutFrame = OutFrame(addr: FrameAddr, message: Message)

  datatype Bridge = Bridge(
    relay: State, lora: seq<OutFrame>, mqtt: seq<OutFrame>, espnow: seq<OutFrame>, ui: seq<Message>)
  {
    function Queue(t: Transport): seq<OutFrame> {
      match t
      case Lora => lora
      case Mqtt => mqtt
      case EspNow => espnow
    }

    function WithQueue(t: Transport, q: seq<OutFrame>): Bridge {
      match t
      case Lora => this.(lora := q)
      case Mqtt => this.(mqtt := q)
      case EspNow => this.(espnow := q)
    }
  }

  /** `try_send`: a full channel drops what is offered to it. */
  function Offer<T>(q: seq<T>, x: T): seq<T> {
    if |q| < QUEUE_SIZE then q + [x] else q
  }

  function Enqueue(b: Bridge, p: PlannedFrame): Bridge {
    b.WithQueue(p.transport, Offer(b.Queue(p.transport), OutFrame(p.addr, p.message)))
  }

  function EnqueueAll(b: Bridge, plan: seq<PlannedFrame>): Bridge
    decreases |plan|
  {
    if plan == [] then b else EnqueueAll(Enqueue(b, plan[0]), plan[1..])
  }

  function ForwardTo(c: Config, b: Bridge, msg: Message, target: Transport): Bridge {
    var (relay, plan) := PlanForward(c, b.relay, msg, target);
    var b' := b.(relay := relay);
    if plan.Ok? then EnqueueAll(b', plan.value) else b'
  }

  /** Forwards to the given transports in turn, leaving out `skip`. */
  function Fanout(c: Config, b: Bridge, msg: Message, skip: Transport, targets: seq<Transport>): Bridge
    decreases |targets|
  {
    if targets == [] then b
    else Fanout(c, if targets[0] == skip then b else ForwardTo(c, b, msg, targets[0]), msg, skip, targets[1..])
  }

  /** One turn of `bridge_loop`: broadcasts and messages for others go to every other transport. */
  function HandleRaw(c: Config, b: Bridge, source: Transport, bytes: seq<u8>): Bridge {
    var (relay, r) := Ingest(c, b.relay, source, bytes);
    var b' := b.(relay := relay);
    match r
    case Err(_) => b'
    case Ok(Complete(m)) =>
      var shown := b'.(ui := Offer(b'.ui, m));
      if m.IsBroadcast() then Fanout(c, shown, m, source, ALL_TRANSPORTS) else shown
    case Ok(NotForMe(m)) => Fanout(c, b', m, source, ALL_TRANSPORTS)
    case Ok(_) => b'
  }

  // ---- What a bridge promises ----

  /** Nothing is forwarded onto the transport it came from. */
  lemma SourceQueueUntouched(c: Config, b: Bridge, source: Transport, bytes: seq<u8>)
    ensures HandleRaw(c, b, source, bytes).Queue(source) == b.Queue(source)
  {
    hide Ingest, PlanForward;
    var (relay, r) := Ingest(c, b.relay, source, bytes);
    if r.Ok? && r.value.Delivered().Some? {
      FanoutSkips(c, b.(relay := relay), r.value.Delivered().value, source, ALL_TRANSPORTS);
      FanoutSkips(c, b.(relay := relay, ui := Offer(b.ui, r.value.Delivered().value)), r.value.Delivered().value,
                  source, ALL_TRANSPORTS);
    }
  }

  lemma {:induction false} FanoutSkips(c: Config, b: Bridge, msg: Message, skip: Transport, targets: seq<Transport>)
    ensures Fanout(c, b, msg, skip, targets).Queue(skip) == b.Queue(skip)
    decreases |targets|
  {
    hide PlanForward;
    if targets != [] {
      var b1 := if targets[0] == skip then b else ForwardTo(c, b, msg, targets[0]);
      if targets[0] != skip {
        ForwardSkips(c, b, msg, targets[0], skip);
      }
      FanoutSkips(c, b1, msg, skip, targets[1..]);
    }
  }

  lemma ForwardSkips(c: Config, b: Bridge, msg: Message, target: Transport, skip: Transport)
    requires target != skip
    ensures ForwardTo(c, b, msg, target).Queue(skip) == b.Queue(skip)
  {
    hide PlanForward;
    var (relay, plan) := PlanForward(c, b.relay, msg, target);
    PlanStaysOnTarget(c, b.relay, msg, target);
    if plan.Ok? {
      EnqueueSkips(b.(relay := relay), plan.value, skip);
    }
  }

  lemma PlanStaysOnTarget(c: Config, s: State, msg: Message, target: Transport)
    ensures PlanForward(c, s, msg, target).1.Ok? ==>
              forall p <- PlanForward(c, s, msg, target).1.value :: p.transport == target
  {
  }

  lemma {:induction false} EnqueueSkips(b: Bridge, plan: seq<PlannedFrame>, t: Transport)
    requires forall p <- plan :: p.transport != t
    ensures EnqueueAll(b, plan).Queue(t) == b.Queue(t)
    decreases |plan|
  {
    if plan != [] {
      EnqueueSkips(Enqueue(b, plan[0]), plan[1..], t);
    }
  }
}
