/**
 A mesh of bridges: frames in the air, queues at the nodes, and arbitrary scheduling, loss
 and forgetting. Flooding always comes to an end.
 */
module Mesh {
  import opened Wrappers
  import opened Proto
  import opened Sums
  import opened RelaySpec
  import opened BridgeSpec
  import F = Fragmenter
  import R = Reassembly
  import P = Planning
  import Wire

  /** A frame on its way to one node. */
  datatype Packet = Packet(to: nat, source: Transport, frame: Message)

  datatype Mesh = Mesh(nodes: seq<Bridge>, air: seq<Packet>)

  datatype Event =
    /** Packet `i` is received, by a node that at this moment remembers `memory` as seen. */
    | Receive(i: nat, memory: seq<u32>)
    /** Node `n` sends the first frame queued for `t`; the copies on their way are `copies`. */
    | Transmit(n: nat, t: Transport, copies: seq<nat>)
    /** Packet `i` is lost. */
    | Lose(i: nat)

  function Without(air: seq<Packet>, i: nat): seq<Packet>
    requires i < |air|
  {
    air[..i] + air[i + 1..]
  }

  function Copies(to: seq<nat>, t: Transport, frame: Message): seq<Packet> {
    seq(|to|, (i: nat) requires i < |to| => Packet(to[i], t, frame))
  }

  /** At most `fan` receivers hear one transmission, each any number of times within `fan`. */
  predicate Enabled(fan: nat, m: Mesh, e: Event) {
    match e
    case Receive(i, _) => i < |m.air| && m.air[i].to < |m.nodes|
    case Transmit(n, t, copies) => n < |m.nodes| && m.nodes[n].Queue(t) != [] && |copies| <= fan
    case Lose(i) => i < |m.air|
  }

  function Step(cfgs: seq<Config>, fan: nat, m: Mesh, e: Event): Mesh
    requires |cfgs| == |m.nodes| && Enabled(fan, m, e)
  {
    match e
    case Receive(i, memory) =>
      var p := m.air[i];
      var node := m.nodes[p.to].(relay := m.nodes[p.to].relay.(seen := memory));
      Mesh(m.nodes[p.to := HandleRaw(cfgs[p.to], node, p.source, Wire.Encode(p.frame))], Without(m.air, i))
    case Transmit(n, t, copies) =>
      var q := m.nodes[n].Queue(t);
      Mesh(m.nodes[n := m.nodes[n].WithQueue(t, q[1..])], m.air + Copies(copies, t, q[0].message))
    case Lose(i) => Mesh(m.nodes, Without(m.air, i))
  }

  ghost predicate Possible(cfgs: seq<Config>, fan: nat, m: Mesh, events: seq<Event>)
    requires |cfgs| == |m.nodes|
    decreases |events|
  {
    events == [] || (Enabled(fan, m, events[0]) && Possible(cfgs, fan, Step(cfgs, fan, m, events[0]), events[1..]))
  }

  // ---- The measure ----

  /** A forward puts at most three frames on the queues: two for LoRa, one for another transport. */
  const FORWARD_FRAMES: nat := 3

  /** What a packet with this many hops left can still cause. */
  function PacketWeight(fan: nat, ttl: nat): nat
    decreases ttl, 1
  {
    1 + ForwardWeight(fan, ttl)
  }

  /** What forwarding a message with this many hops left can cause. */
  function ForwardWeight(fan: nat, ttl: nat): nat
    decreases ttl, 0
  {
    if ttl == 0 then 0 else FORWARD_FRAMES * QueuedWeight(fan, ttl - 1)
  }

  /** What a queued frame can cause: its transmission, and the packets that makes. */
  function QueuedWeight(fan: nat, ttl: nat): nat
    decreases ttl, 2
  {
    1 + fan * PacketWeight(fan, ttl)
  }

  function QueueWeight(fan: nat, q: seq<OutFrame>): nat {
    if q == [] then 0 else QueuedWeight(fan, q[0].message.ttl) + QueueWeight(fan, q[1..])
  }

  ghost function SlotWeight(fan: nat): R.Assembly -> nat {
    (a: R.Assembly) => ForwardWeight(fan, a.template.ttl)
  }

  ghost function SlotsWeight(fan: nat, g: R.Groups): nat {
    MapSum(g, SlotWeight(fan))
  }

  ghost function QueuesWeight(fan: nat, b: Bridge): nat {
    QueueWeight(fan, b.lora) + QueueWeight(fan, b.mqtt) + QueueWeight(fan, b.espnow)
  }

  ghost function NodeWeight(fan: nat, b: Bridge): nat {
    QueuesWeight(fan, b) + SlotsWeight(fan, b.relay.groups)
  }

  ghost function NodesWeight(fan: nat, nodes: seq<Bridge>): nat {
    if nodes == [] then 0 else NodeWeight(fan, nodes[0]) + NodesWeight(fan, nodes[1..])
  }

  function AirWeight(fan: nat, air: seq<Packet>): nat {
    if air == [] then 0 else PacketWeight(fan, air[0].frame.ttl) + AirWeight(fan, air[1..])
  }

  ghost function Weight(fan: nat, m: Mesh): nat {
    NodesWeight(fan, m.nodes) + AirWeight(fan, m.air)
  }

  /** The bounds that the source's types carry. */
  ghost predicate MeshOk(cfgs: seq<Config>, m: Mesh) {
    && |cfgs| == |m.nodes|
    && (forall p <- m.air :: p.frame.WellSized())
    && forall n :: 0 <= n < |m.nodes| ==> NodeOk(cfgs[n], m.nodes[n])
  }

  ghost predicate NodeOk(c: Config, b: Bridge) {
    R.GroupsOk(c.dims, b.relay.groups) && QueueOk(b.lora) && QueueOk(b.mqtt) && QueueOk(b.espnow)
  }

  predicate QueueOk(q: seq<OutFrame>) {
    forall f <- q :: f.message.WellSized()
  }

  // ---- Sums ----

  lemma {:induction false} QueueWeightAppend(fan: nat, q: seq<OutFrame>, f: OutFrame)
    ensures QueueWeight(fan, q + [f]) == QueueWeight(fan, q) + QueuedWeight(fan, f.message.ttl)
    decreases |q|
  {
    hide QueuedWeight;
    if q == [] {
      assert (q + [f])[1..] == [];
    } else {
      assert (q + [f])[1..] == q[1..] + [f];
      QueueWeightAppend(fan, q[1..], f);
    }
  }

  lemma {:induction false} AirWeightConcat(fan: nat, a: seq<Packet>, b: seq<Packet>)
    ensures AirWeight(fan, a + b) == AirWeight(fan, a) + AirWeight(fan, b)
    decreases |a|
  {
    hide PacketWeight;
    if a == [] {
      assert a + b == b;
    } else {
      assert (a + b)[1..] == a[1..] + b;
      AirWeightConcat(fan, a[1..], b);
    }
  }

  lemma {:induction false} AirWeightWithout(fan: nat, air: seq<Packet>, i: nat)
    requires i < |air|
    ensures AirWeight(fan, air) == AirWeight(fan, Without(air, i)) + PacketWeight(fan, air[i].frame.ttl)
  {
    hide PacketWeight;
    assert air == air[..i] + air[i..];
    AirWeightConcat(fan, air[..i], air[i..]);
    AirWeightConcat(fan, air[..i], air[i + 1..]);
  }

  lemma {:induction false} CopiesWeight(fan: nat, to: seq<nat>, t: Transport, frame: Message)
    ensures AirWeight(fan, Copies(to, t, frame)) == |to| * PacketWeight(fan, frame.ttl)
    decreases |to|
  {
    hide PacketWeight;
    if to != [] {
      assert Copies(to, t, frame)[1..] == Copies(to[1..], t, frame);
      CopiesWeight(fan, to[1..], t, frame);
      OneMoreTime(|to| - 1, PacketWeight(fan, frame.ttl));
    }
  }

  lemma OneMoreTime(n: nat, w: nat)
    ensures (n + 1) * w == n * w + w
  {
  }

  lemma Larger(n: nat, k: nat, w: nat)
    requires n <= k
    ensures n * w <= k * w
  {
  }

  lemma {:induction false} NodeChanges(fan: nat, nodes: seq<Bridge>, n: nat, b: Bridge)
    requires n < |nodes|
    ensures NodesWeight(fan, nodes[n := b]) + NodeWeight(fan, nodes[n])
            == NodesWeight(fan, nodes) + NodeWeight(fan, b)
    decreases |nodes|
  {
    hide NodeWeight;
    if n == 0 {
      assert nodes[n := b][1..] == nodes[1..];
    } else {
      assert nodes[n := b][1..] == nodes[1..][n - 1 := b];
      NodeChanges(fan, nodes[1..], n - 1, b);
    }
  }

  // ---- Forwarding ----

  /** The frames of a forward plan have one hop less and fit; there are at most two, or one. */
  lemma ForwardFrames(c: Config, s: State, msg: Message, target: Transport)
    requires msg.frag.None? && msg.WellSized()
    ensures var plan := PlanForward(c, s, msg, target).1;
      && plan.Ok? && |plan.value| <= FramesOn(target)
      && (msg.ttl == 0 ==> plan.value == [])
      && forall p <- plan.value :: p.message.ttl == msg.ttl - 1 && p.message.WellSized()
  {
    hide PlanForward, F.Joined;
    P.PlanForwardCorrect(c, s, msg, target);
    var plan := PlanForward(c, s, msg, target).1.value;
    forall p <- plan
      ensures p.message.ttl == msg.ttl - 1 && p.message.WellSized()
    {
      P.Listed(plan, p);
    }
  }

  function FramesOn(t: Transport): nat {
    if t == Lora then 2 else 1
  }

  function FanoutFrames(skip: Transport, targets: seq<Transport>): nat {
    if targets == [] then 0
    else (if targets[0] == skip then 0 else FramesOn(targets[0])) + FanoutFrames(skip, targets[1..])
  }

  lemma {:induction false} OfferedWeight(fan: nat, q: seq<OutFrame>, f: OutFrame)
    ensures QueueWeight(fan, Offer(q, f)) <= QueueWeight(fan, q) + QueuedWeight(fan, f.message.ttl)
  {
    hide QueuedWeight;
    QueueWeightAppend(fan, q, f);
  }

  lemma {:induction false} EnqueueWeight(fan: nat, b: Bridge, p: PlannedFrame)
    ensures QueuesWeight(fan, Enqueue(b, p)) <= QueuesWeight(fan, b) + QueuedWeight(fan, p.message.ttl)
    ensures Enqueue(b, p).relay == b.relay
  {
    hide QueuedWeight, QueueWeight, Offer;
    OfferedWeight(fan, b.Queue(p.transport), OutFrame(p.addr, p.message));
  }

  lemma {:induction false} EnqueueAllWeight(fan: nat, b: Bridge, plan: seq<PlannedFrame>, ttl: nat)
    requires forall p <- plan :: p.message.ttl == ttl
    ensures QueuesWeight(fan, EnqueueAll(b, plan)) <= QueuesWeight(fan, b) + |plan| * QueuedWeight(fan, ttl)
    ensures EnqueueAll(b, plan).relay == b.relay
    decreases |plan|
  {
    hide QueuedWeight, QueuesWeight, Enqueue;
    if plan != [] {
      EnqueueWeight(fan, b, plan[0]);
      EnqueueAllWeight(fan, Enqueue(b, plan[0]), plan[1..], ttl);
      OneMoreTime(|plan| - 1, QueuedWeight(fan, ttl));
    }
  }

  lemma {:induction false} EnqueueKeepsOk(c: Config, b: Bridge, plan: seq<PlannedFrame>)
    requires NodeOk(c, b) && forall p <- plan :: p.message.WellSized()
    ensures NodeOk(c, EnqueueAll(b, plan))
    decreases |plan|
  {
    hide R.GroupsOk;
    if plan != [] {
      EnqueueKeepsOk(c, Enqueue(b, plan[0]), plan[1..]);
    }
  }

  /** What forwarding to one target costs; `hops` is what a queued frame would have left. */
  lemma {:induction false} ForwardToWeight(fan: nat, c: Config, b: Bridge, msg: Message, target: Transport)
    requires msg.frag.None? && msg.WellSized() && NodeOk(c, b)
    ensures var b' := ForwardTo(c, b, msg, target);
      && NodeOk(c, b') && b'.relay.groups == b.relay.groups
      && QueuesWeight(fan, b') <= QueuesWeight(fan, b)
           + (if msg.ttl == 0 then 0 else FramesOn(target) * QueuedWeight(fan, msg.ttl - 1))
  {
    hide QueuedWeight, QueueWeight, PlanForward, R.GroupsOk, QueueOk;
    ForwardFrames(c, b.relay, msg, target);
    ForwardKeepsGroups(c, b.relay, msg, target);
    var (relay, plan) := PlanForward(c, b.relay, msg, target);
    EnqueueKeepsOk(c, b.(relay := relay), plan.value);
    if msg.ttl > 0 {
      EnqueueAllWeight(fan, b.(relay := relay), plan.value, msg.ttl - 1);
      Larger(|plan.value|, FramesOn(target), QueuedWeight(fan, msg.ttl - 1));
    }
  }

  lemma ForwardKeepsGroups(c: Config, s: State, msg: Message, target: Transport)
    ensures PlanForward(c, s, msg, target).0.groups == s.groups
  {
  }

  lemma {:induction false} FanoutWeight(fan: nat, c: Config, b: Bridge, msg: Message, skip: Transport,
                                        targets: seq<Transport>)
    requires msg.frag.None? && msg.WellSized() && NodeOk(c, b)
    ensures var b' := Fanout(c, b, msg, skip, targets);
      && NodeOk(c, b') && b'.relay.groups == b.relay.groups
      && QueuesWeight(fan, b') <= QueuesWeight(fan, b)
           + (if msg.ttl == 0 then 0 else FanoutFrames(skip, targets) * QueuedWeight(fan, msg.ttl - 1))
    decreases |targets|
  {
    hide QueuedWeight, QueuesWeight, ForwardTo, NodeOk, FramesOn;
    if targets != [] {
      var b1 := if targets[0] == skip then b else ForwardTo(c, b, msg, targets[0]);
      if targets[0] != skip {
        ForwardToWeight(fan, c, b, msg, targets[0]);
      }
      FanoutWeight(fan, c, b1, msg, skip, targets[1..]);
      if msg.ttl > 0 {
        Distribute(FramesOn(targets[0]), FanoutFrames(skip, targets[1..]), QueuedWeight(fan, msg.ttl - 1));
      }
    }
  }

  lemma Distribute(a: nat, b: nat, w: nat)
    ensures (a + b) * w == a * w + b * w
  {
  }

  /** Fanning out to all transports but one costs at most the forward weight. */
  lemma {:induction false} FullFanout(fan: nat, c: Config, b: Bridge, msg: Message, skip: Transport)
    requires msg.frag.None? && msg.WellSized() && NodeOk(c, b)
    ensures var b' := Fanout(c, b, msg, skip, ALL_TRANSPORTS);
      && NodeOk(c, b') && b'.relay.groups == b.relay.groups
      && QueuesWeight(fan, b') <= QueuesWeight(fan, b) + ForwardWeight(fan, msg.ttl)
  {
    hide QueuedWeight, QueuesWeight, Fanout, NodeOk;
    FanoutWeight(fan, c, b, msg, skip, ALL_TRANSPORTS);
    AtMostThree(skip);
    if msg.ttl > 0 {
      Larger(FanoutFrames(skip, ALL_TRANSPORTS), FORWARD_FRAMES, QueuedWeight(fan, msg.ttl - 1));
    }
  }

  lemma {:induction false} AtMostThree(skip: Transport)
    ensures FanoutFrames(skip, ALL_TRANSPORTS) <= FORWARD_FRAMES
  {
    var all := ALL_TRANSPORTS;
    assert all[1..] == [Mqtt, EspNow] && all[1..][1..] == [EspNow] && all[1..][1..][1..] == [];
    assert FanoutFrames(skip, [EspNow]) == if skip == EspNow then 0 else 1;
    assert FanoutFrames(skip, [Mqtt, EspNow]) == (if skip == Mqtt then 0 else 1) + FanoutFrames(skip, [EspNow]);
  }

  // ---- Receiving ----

  /** An open slot pays for the message it will deliver; a new one is paid for by its first slice. */
  lemma {:induction false} SlotsPay(fan: nat, d: R.Dims, g: R.Groups, m: Message)
    requires R.GroupsOk(d, g) && m.WellSized()
    ensures var (g', o) := R.Ingest(d, g, m);
      SlotsWeight(fan, g') + (if o.Passthrough? || o.Complete? then ForwardWeight(fan, o.msg.ttl) else 0)
      <= SlotsWeight(fan, g) + ForwardWeight(fan, m.ttl)
  {
    hide R.Ingest, ForwardWeight;
    if m.frag.None? {
      R.Unfragmented(d, g, m);
    } else {
      var k, a, w := R.KeyOf(m.frag.value), R.Joining(g, m), SlotWeight(fan);
      var a' := R.Assembly(a.template, a.slices[m.frag.value.seqNo := m.payload]);
      R.IngestEffect(d, g, m);
      WithoutKey(g, w, k);
      PutIn(g, w, k, a');
      assert w(a') == w(a) == ForwardWeight(fan, a.template.ttl);
      if R.Ingest(d, g, m).1.Complete? {
        CompletedHeader(d, g, m);
      }
    }
  }

  lemma CompletedHeader(d: R.Dims, g: R.Groups, m: Message)
    requires m.frag.Some? && R.Ingest(d, g, m).1.Complete?
    ensures R.Ingest(d, g, m).1.msg.ttl == R.Joining(g, m).template.ttl
  {
  }

  /** Receiving a message frees at least one unit more than the work it causes. */
  lemma {:induction false} IngestPays(fan: nat, c: Config, s: State, source: Transport, m: Message)
    requires R.GroupsOk(c.dims, s.groups) && m.WellSized()
    ensures var (s', o) := IngestMessage(c, s, source, m);
      && R.GroupsOk(c.dims, s'.groups)
      && (o.Delivered().Some? ==> o.Delivered().value.frag.None? && o.Delivered().value.WellSized())
      && SlotsWeight(fan, s'.groups) + (if o.Delivered().Some? then ForwardWeight(fan, o.Delivered().value.ttl) else 0)
         <= SlotsWeight(fan, s.groups) + ForwardWeight(fan, m.ttl)
  {
    hide R.Ingest, SlotsWeight, ForwardWeight, R.GroupsOk, Learn;
    var f := m.(origin := source);
    SlotsPay(fan, c.dims, s.groups, f);
    R.IngestKeepsGroups(c.dims, s.groups, f);
    DeliveredShape(c.dims, s.groups, f);
  }

  lemma DeliveredShape(d: R.Dims, g: R.Groups, m: Message)
    requires m.WellSized()
    ensures var o := R.Ingest(d, g, m).1;
      o.Passthrough? || o.Complete? ==> o.msg.frag.None? && o.msg.WellSized()
  {
    if R.Ingest(d, g, m).1.Complete? {
      R.DeliveredIsWhole(d, g, m);
    }
  }

  lemma {:induction false} HandleRawPays(fan: nat, c: Config, b: Bridge, source: Transport, frame: Message)
    requires NodeOk(c, b) && frame.WellSized()
    ensures var b' := HandleRaw(c, b, source, Wire.Encode(frame));
      NodeOk(c, b') && NodeWeight(fan, b') + 1 <= NodeWeight(fan, b) + PacketWeight(fan, frame.ttl)
  {
    hide Ingest, IngestMessage, Fanout, SlotsWeight, ForwardWeight, QueueWeight, R.GroupsOk, QueueOk, Wire.Encode;
    IngestOfEncoded(c, b.relay, source, frame);
    IngestPays(fan, c, b.relay, source, frame);
    var (relay, o) := IngestMessage(c, b.relay, source, frame);
    var b1 := b.(relay := relay);
    if o.Delivered().Some? {
      var m := o.Delivered().value;
      FullFanout(fan, c, b1, m, source);
      FullFanout(fan, c, b1.(ui := Offer(b1.ui, m)), m, source);
    }
  }

  lemma IngestOfEncoded(c: Config, s: State, source: Transport, frame: Message)
    requires frame.WellSized()
    ensures var (s', o) := IngestMessage(c, s, source, frame);
      Ingest(c, s, source, Wire.Encode(frame)) == (s', Ok(o))
  {
    hide IngestMessage;
    Wire.MessageRoundTrip(frame, []);
  }

  // ---- Steps and runs ----

  lemma ReceiveDecreases(cfgs: seq<Config>, fan: nat, m: Mesh, i: nat, memory: seq<u32>)
    requires MeshOk(cfgs, m) && Enabled(fan, m, Receive(i, memory))
    ensures var m' := Step(cfgs, fan, m, Receive(i, memory));
      MeshOk(cfgs, m') && Weight(fan, m') < Weight(fan, m)
  {
    hide HandleRaw, PacketWeight, NodeOk, QueuesWeight, SlotsWeight;
    var p := m.air[i];
    var node := m.nodes[p.to].(relay := m.nodes[p.to].relay.(seen := memory));
    MemoryIsFree(fan, cfgs[p.to], m.nodes[p.to], memory);
    HandleRawPays(fan, cfgs[p.to], node, p.source, p.frame);
    NodeChanges(fan, m.nodes, p.to, HandleRaw(cfgs[p.to], node, p.source, Wire.Encode(p.frame)));
    AirWeightWithout(fan, m.air, i);
  }

  /** What a node remembers as seen plays no part in the measure. */
  lemma MemoryIsFree(fan: nat, c: Config, b: Bridge, memory: seq<u32>)
    ensures NodeOk(c, b.(relay := b.relay.(seen := memory))) <==> NodeOk(c, b)
    ensures NodeWeight(fan, b.(relay := b.relay.(seen := memory))) == NodeWeight(fan, b)
  {
    hide R.GroupsOk, QueueWeight, SlotsWeight;
  }

  lemma TransmitDecreases(cfgs: seq<Config>, fan: nat, m: Mesh, n: nat, t: Transport, copies: seq<nat>)
    requires MeshOk(cfgs, m) && Enabled(fan, m, Transmit(n, t, copies))
    ensures var m' := Step(cfgs, fan, m, Transmit(n, t, copies));
      MeshOk(cfgs, m') && Weight(fan, m') < Weight(fan, m)
  {
    hide PacketWeight, SlotsWeight, R.GroupsOk;
    var b := m.nodes[n];
    var q := b.Queue(t);
    var b' := b.WithQueue(t, q[1..]);
    DequeueWeight(fan, cfgs[n], b, t);
    NodeChanges(fan, m.nodes, n, b');
    AirWeightConcat(fan, m.air, Copies(copies, t, q[0].message));
    CopiesWeight(fan, copies, t, q[0].message);
    Larger(|copies|, fan, PacketWeight(fan, q[0].message.ttl));
  }

  lemma {:induction false} DequeueWeight(fan: nat, c: Config, b: Bridge, t: Transport)
    requires NodeOk(c, b) && b.Queue(t) != []
    ensures var b' := b.WithQueue(t, b.Queue(t)[1..]);
      && NodeOk(c, b') && b.Queue(t)[0].message.WellSized()
      && NodeWeight(fan, b') + QueuedWeight(fan, b.Queue(t)[0].message.ttl) == NodeWeight(fan, b)
  {
    hide QueuedWeight, SlotsWeight, R.GroupsOk;
  }

  lemma StepDecreases(cfgs: seq<Config>, fan: nat, m: Mesh, e: Event)
    requires MeshOk(cfgs, m) && Enabled(fan, m, e)
    ensures MeshOk(cfgs, Step(cfgs, fan, m, e)) && Weight(fan, Step(cfgs, fan, m, e)) < Weight(fan, m)
  {
    match e
    case Receive(i, memory) => ReceiveDecreases(cfgs, fan, m, i, memory);
    case Transmit(n, t, copies) => TransmitDecreases(cfgs, fan, m, n, t, copies);
    case Lose(i) =>
      hide NodesWeight, NodeOk;
      AirWeightWithout(fan, m.air, i);
  }

  /**
   Flooding terminates: from any state of the mesh, under every schedule, with any loss and
   duplication within the fan-out, and even if the seen caches forget everything at any
   time, no run without new messages is longer than the weight of its first state.
   */
  lemma {:induction false} FloodTerminates(cfgs: seq<Config>, fan: nat, m: Mesh, events: seq<Event>)
    requires MeshOk(cfgs, m) && |cfgs| == |m.nodes| && Possible(cfgs, fan, m, events)
    ensures |events| <= Weight(fan, m)
    decreases |events|
  {
    hide MeshOk, Step, Enabled, Weight;
    if events != [] {
      StepDecreases(cfgs, fan, m, events[0]);
      OkLength(cfgs, Step(cfgs, fan, m, events[0]));
      FloodTerminates(cfgs, fan, Step(cfgs, fan, m, events[0]), events[1..]);
    }
  }

  lemma OkLength(cfgs: seq<Config>, m: Mesh)
    requires MeshOk(cfgs, m)
    ensures |cfgs| == |m.nodes|
  {
  }
}
