/**
 What a bridge does with a received frame, queue by queue: what it shows, what it forwards
 and where, and when it stays still.
 */
module Forwarding {
  import opened Wrappers
  import opened Proto
  import opened RelaySpec
  import opened Planning
  import opened Answers
  import opened BridgeSpec
  import F = Fragmenter

  /** The frames as they wait in a queue: for everyone if the message is a broadcast, else for its addressee. */
  function Waiting(frames: seq<Message>, to: Addr): seq<OutFrame> {
    seq(|frames|, (i: nat) requires i < |frames| =>
      OutFrame(if to == [0xFF, 0xFF, 0xFF, 0xFF, 0xFF, 0xFF] then ToAll else ToPeer(to), frames[i]))
  }

  /** A queue of eight places takes what fits, in order; a full one takes nothing. */
  function Filled<T>(q: seq<T>, more: seq<T>): seq<T> {
    if |q| >= 8 then q else (q + more)[..F.Min(|q| + |more|, 8)]
  }

  /** `onward` passed on over `t`: the queue got the frames that carry it there. */
  ghost predicate Forwarded(onward: Message, t: Transport, q: seq<OutFrame>, q': seq<OutFrame>) {
    exists frames, group :: Carries(frames, onward, F.Mtu(t), group) && q' == Filled(q, Waiting(frames, onward.to))
  }

  function OneHopLess(m: Message): Message
    requires m.ttl > 0
  {
    m.(ttl := m.ttl - 1)
  }

  lemma {:induction false} EnqueueFills(b: Bridge, plan: seq<PlannedFrame>, t: Transport, addr: FrameAddr)
    requires forall p <- plan :: p.transport == t && p.addr == addr
    ensures EnqueueAll(b, plan).Queue(t)
            == Filled(b.Queue(t), seq(|plan|, (i: nat) requires i < |plan| => OutFrame(addr, plan[i].message)))
    decreases |plan|
  {
    hide Filled, Offer;
    var outs := seq(|plan|, (i: nat) requires i < |plan| => OutFrame(addr, plan[i].message));
    if plan == [] {
      assert outs == [];
      NothingFilled(b.Queue(t));
    } else {
      var b1, rest := Enqueue(b, plan[0]), plan[1..];
      EnqueueFills(b1, rest, t, addr);
      var more := seq(|rest|, (i: nat) requires i < |rest| => OutFrame(addr, rest[i].message));
      assert outs == [outs[0]] + more;
      OfferedThenFilled(b.Queue(t), outs[0], more);
    }
  }

  lemma NothingFilled<T>(q: seq<T>)
    ensures Filled(q, []) == q
  {
    assert q + [] == q;
  }

  lemma OfferedThenFilled<T>(q: seq<T>, x: T, more: seq<T>)
    ensures Filled(q, [x] + more) == Filled(Offer(q, x), more)
  {
    assert q + ([x] + more) == q + [x] + more;
  }

  lemma {:induction false} OnAll(plan: seq<PlannedFrame>, t: Transport)
    requires forall p <- plan :: p.transport == t
    ensures |On(plan, t)| == |plan| && forall i :: 0 <= i < |plan| ==> On(plan, t)[i] == plan[i].message
    decreases |plan|
  {
    if plan != [] {
      OnAll(plan[1..], t);
    }
  }

  lemma ForwardFills(c: Config, b: Bridge, msg: Message, t: Transport)
    requires msg.frag.None? && msg.WellSized() && msg.ttl > 0
    ensures Forwarded(OneHopLess(msg), t, b.Queue(t), ForwardTo(c, b, msg, t).Queue(t))
    ensures ForwardTo(c, b, msg, t).ui == b.ui
    ensures ForwardTo(c, b, msg, t).relay == b.relay.(idCtr := Advance(b.relay.idCtr, 1))
  {
    hide PlanForward, Carries, F.Mtu, Alloc, On, Filled, Advance;
    PlanForwardCorrect(c, b.relay, msg, t);
    ForwardHeaders(c, b.relay, msg, t);
    var (relay, plan) := PlanForward(c, b.relay, msg, t);
    var addr := if msg.to == [0xFF, 0xFF, 0xFF, 0xFF, 0xFF, 0xFF] then ToAll else ToPeer(msg.to);
    EnqueueFills(b.(relay := relay), plan.value, t, addr);
    EnqueueKeeps(b.(relay := relay), plan.value);
    OnAll(plan.value, t);
    assert Waiting(On(plan.value, t), msg.to)
        == seq(|plan.value|, (i: nat) requires i < |plan.value| => OutFrame(addr, plan.value[i].message));
  }

  lemma {:induction false} EnqueueKeeps(b: Bridge, plan: seq<PlannedFrame>)
    ensures EnqueueAll(b, plan).ui == b.ui && EnqueueAll(b, plan).relay == b.relay
    decreases |plan|
  {
    if plan != [] {
      EnqueueKeeps(Enqueue(b, plan[0]), plan[1..]);
    }
  }

  lemma {:induction false} FanoutElsewhere(c: Config, b: Bridge, msg: Message, skip: Transport, targets: seq<Transport>,
                                           t: Transport)
    requires t !in targets
    ensures Fanout(c, b, msg, skip, targets).Queue(t) == b.Queue(t)
    decreases |targets|
  {
    hide ForwardTo;
    if targets != [] {
      if targets[0] != skip {
        ForwardSkips(c, b, msg, targets[0], t);
      }
      var b1 := if targets[0] == skip then b else ForwardTo(c, b, msg, targets[0]);
      FanoutElsewhere(c, b1, msg, skip, targets[1..], t);
    }
  }

  lemma {:induction false} FanoutFills(c: Config, b: Bridge, msg: Message, skip: Transport, targets: seq<Transport>,
                                       t: Transport)
    requires msg.frag.None? && msg.WellSized() && msg.ttl > 0
    requires t in targets && t != skip && forall i, j :: 0 <= i < j < |targets| ==> targets[i] != targets[j]
    ensures Forwarded(OneHopLess(msg), t, b.Queue(t), Fanout(c, b, msg, skip, targets).Queue(t))
    decreases |targets|
  {
    hide ForwardTo, Forwarded;
    var b1 := if targets[0] == skip then b else ForwardTo(c, b, msg, targets[0]);
    if targets[0] == t {
      ForwardFills(c, b, msg, t);
      assert t !in targets[1..];
      FanoutElsewhere(c, b1, msg, skip, targets[1..], t);
    } else {
      if targets[0] != skip {
        ForwardSkips(c, b, msg, targets[0], t);
      }
      FanoutFills(c, b1, msg, skip, targets[1..], t);
    }
  }

  lemma {:induction false} FanoutKeeps(c: Config, b: Bridge, msg: Message, skip: Transport, targets: seq<Transport>)
    requires msg.frag.None? && msg.WellSized() && msg.ttl > 0
    ensures Fanout(c, b, msg, skip, targets).ui == b.ui
    ensures Fanout(c, b, msg, skip, targets).relay
            == b.relay.(idCtr := Advance(b.relay.idCtr, Others(targets, skip)))
    decreases |targets|
  {
    hide ForwardTo;
    if targets == [] {
      assert Advance(b.relay.idCtr, 0) == b.relay.idCtr;
    } else {
      var b1 := if targets[0] == skip then b else ForwardTo(c, b, msg, targets[0]);
      if targets[0] != skip {
        ForwardFills(c, b, msg, targets[0]);
        AdvanceTwice(b.relay.idCtr, 1, Others(targets[1..], skip));
      }
      FanoutKeeps(c, b1, msg, skip, targets[1..]);
    }
  }

  function Others(targets: seq<Transport>, skip: Transport): nat {
    if targets == [] then 0 else (if targets[0] == skip then 0 else 1) + Others(targets[1..], skip)
  }

  lemma {:induction false} SpentStays(c: Config, b: Bridge, msg: Message, skip: Transport, targets: seq<Transport>)
    requires msg.ttl == 0
    ensures Fanout(c, b, msg, skip, targets) == b
    decreases |targets|
  {
    if targets != [] {
      SpentStays(c, b, msg, skip, targets[1..]);
    }
  }

  /** The answer hands out `m`. */
  predicate HandsOut(c: Config, b: Bridge, source: Transport, bytes: seq<u8>, m: Message) {
    var r := Ingest(c, b.relay, source, bytes).1;
    r == Ok(Complete(m)) || r == Ok(NotForMe(m))
  }

  /** A message with hops left that is a broadcast or not for this node. */
  predicate GoesOn(c: Config, m: Message) {
    m.ttl > 0 && (m.to == [0xFF, 0xFF, 0xFF, 0xFF, 0xFF, 0xFF] || m.to != c.selfAddr)
  }

  /** In terms of the message handed out, a bridge fans out just what goes on. */
  lemma {:induction false} TurnOfBridge(c: Config, b: Bridge, source: Transport, bytes: seq<u8>, m: Message)
    requires HandsOut(c, b, source, bytes, m)
    ensures m.frag.None? && m.WellSized()
    ensures var shown := Shown(c, b, source, bytes, m);
      HandleRaw(c, b, source, bytes) == if GoesOn(c, m) then Fanout(c, shown, m, source, ALL_TRANSPORTS) else shown
  {
    hide Ingest, Fanout;
    HandedOutWhole(c, b.relay, source, bytes, m);
    AnswerByAddress(c, b.relay, source, bytes, m);
    if m.ttl == 0 {
      SpentStays(c, Shown(c, b, source, bytes, m), m, source, ALL_TRANSPORTS);
    }
  }

  /** The bridge after taking the message in and, if it is for this node or for all, showing it. */
  function Shown(c: Config, b: Bridge, source: Transport, bytes: seq<u8>, m: Message): Bridge {
    var forMe := m.to == c.selfAddr || m.to == [0xFF, 0xFF, 0xFF, 0xFF, 0xFF, 0xFF];
    b.(relay := Ingest(c, b.relay, source, bytes).0, ui := if forMe && |b.ui| < 8 then b.ui + [m] else b.ui)
  }

  /**
   A broadcast, or a message for another node, that has hops left is queued for every
   transport but the one it came over: as the frames that carry it there with one hop less,
   behind what the queue holds already, as far as there is room.
   */
  lemma BridgeForwards(c: Config, b: Bridge, source: Transport, bytes: seq<u8>, m: Message, t: Transport)
    requires HandsOut(c, b, source, bytes, m) && GoesOn(c, m) && t != source
    ensures Forwarded(OneHopLess(m), t, b.Queue(t), HandleRaw(c, b, source, bytes).Queue(t))
  {
    hide Ingest, Fanout, Forwarded, HandleRaw;
    TurnOfBridge(c, b, source, bytes, m);
    EveryTransport(t);
    FanoutFills(c, Shown(c, b, source, bytes, m), m, source, ALL_TRANSPORTS, t);
  }

  lemma EveryTransport(t: Transport)
    ensures t in ALL_TRANSPORTS
  {
    assert ALL_TRANSPORTS[0] == Lora && ALL_TRANSPORTS[1] == Mqtt && ALL_TRANSPORTS[2] == EspNow;
  }

  /** Anything else leaves all queues alone, and nothing is ever queued for the transport it came over. */
  lemma BridgeStaysStill(c: Config, b: Bridge, source: Transport, bytes: seq<u8>, t: Transport)
    requires t == source || forall m :: HandsOut(c, b, source, bytes, m) ==> !GoesOn(c, m)
    ensures HandleRaw(c, b, source, bytes).Queue(t) == b.Queue(t)
  {
    hide Ingest, Fanout, GoesOn;
    SourceQueueUntouched(c, b, source, bytes);
    var r := Ingest(c, b.relay, source, bytes).1;
    if r.Ok? && r.value.Delivered().Some? {
      var m := r.value.Delivered().value;
      assert HandsOut(c, b, source, bytes, m);
      TurnOfBridge(c, b, source, bytes, m);
    }
  }

  /** A message is shown exactly when it is handed out, is for this node or for all, and there is room. */
  lemma BridgeShows(c: Config, b: Bridge, source: Transport, bytes: seq<u8>)
    ensures var ui := HandleRaw(c, b, source, bytes).ui;
      && (forall m :: HandsOut(c, b, source, bytes, m) ==>
           ui == if (m.to == c.selfAddr || m.to == [0xFF, 0xFF, 0xFF, 0xFF, 0xFF, 0xFF]) && |b.ui| < 8
                 then b.ui + [m] else b.ui)
      && ((forall m :: !HandsOut(c, b, source, bytes, m)) ==> ui == b.ui)
  {
    hide Ingest, Fanout;
    var r := Ingest(c, b.relay, source, bytes).1;
    if r.Ok? && r.value.Delivered().Some? {
      var m := r.value.Delivered().value;
      assert HandsOut(c, b, source, bytes, m);
      TurnOfBridge(c, b, source, bytes, m);
      if GoesOn(c, m) {
        FanoutKeeps(c, Shown(c, b, source, bytes, m), m, source, ALL_TRANSPORTS);
      }
    }
  }

  /** The engine is left as `ingest` leaves it, but for a group id drawn for each transport forwarded to. */
  lemma BridgeDraws(c: Config, b: Bridge, source: Transport, bytes: seq<u8>)
    ensures var (s, relay) := (Ingest(c, b.relay, source, bytes).0, HandleRaw(c, b, source, bytes).relay);
      && (forall m :: HandsOut(c, b, source, bytes, m) ==>
           relay == if GoesOn(c, m) then s.(idCtr := (s.idCtr + 2) % 0x1_0000_0000) else s)
      && ((forall m :: !HandsOut(c, b, source, bytes, m)) ==> relay == s)
  {
    hide Ingest, Fanout;
    var r := Ingest(c, b.relay, source, bytes).1;
    if r.Ok? && r.value.Delivered().Some? {
      var m := r.value.Delivered().value;
      assert HandsOut(c, b, source, bytes, m);
      TurnOfBridge(c, b, source, bytes, m);
      if GoesOn(c, m) {
        FanoutKeeps(c, Shown(c, b, source, bytes, m), m, source, ALL_TRANSPORTS);
        TwoOthers(source);
      }
    }
  }

  lemma {:induction false} TwoOthers(source: Transport)
    ensures Others(ALL_TRANSPORTS, source) == 2
  {
    assert Others([EspNow], source) == if source == EspNow then 0 else 1;
    assert ALL_TRANSPORTS[1..] == [Mqtt, EspNow] && [Mqtt, EspNow][1..] == [EspNow];
  }
}
