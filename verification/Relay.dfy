/**
 The relay engine itself (`Relay<NR, NA, NF>` of `crates/relaystar-relay/src/lib.rs`):
 a receiver table, a reassembler, a seen cache, the registered ports and an id counter,
 all updated in place, and the proof that every call does what `RelaySpec` says.
 */
module RelayEngine {
  import opened Wrappers
  import opened Proto
  import opened Dedup
  import opened Receivers
  import opened Seen
  import opened RelaySpec
  import F = Fragmenter
  import R = Reassembly
  import SlotArray
  import Wire

  /** The first `n` transports of `Transport::ALL`. */
  function First(n: nat): set<Transport>
    requires n <= 3
  {
    if n == 0 then {} else First(n - 1) + {ALL_TRANSPORTS[n - 1]}
  }

  lemma InOrderStep(keep: set<Transport>, n: nat)
    requires n < 3
    ensures InOrder(keep * First(n + 1))
            == InOrder(keep * First(n)) + (if ALL_TRANSPORTS[n] in keep then [ALL_TRANSPORTS[n]] else [])
  {
    assert First(0) == {} && First(1) == {Lora};
    assert First(2) == {Lora, Mqtt} && First(3) == {Lora, Mqtt, EspNow};
  }

  lemma FirstIsAll(keep: set<Transport>)
    ensures InOrder(keep * First(3)) == InOrder(keep) && InOrder(keep * First(0)) == []
  {
    assert First(1) == {Lora};
    assert First(2) == {Lora, Mqtt} && First(3) == {Lora, Mqtt, EspNow};
    assert keep * First(0) == {};
  }

  class Relay {
    const selfAddr: Addr
    const idBase: u32
    var idCtr: u32
    const receivers: ReceiverTable
    const reassembler: SlotArray.Reassembler
    const seen: SeenCache
    const registered: array<bool>

    ghost predicate Valid()
      reads this, receivers, seen, seen.ids, seen.valid, registered
      reads reassembler, reassembler.repr, reassembler.slots
    {
      && receivers.Valid() && reassembler.Valid() && seen.Valid()
      && seen.ids.Length == SEEN_WINDOW && registered.Length == 3
      && registered != seen.valid
      && {this, receivers, seen, seen.ids, seen.valid, registered} !! reassembler.repr
      && reassembler.slots as object != seen.ids && reassembler.slots as object != seen.valid
      && reassembler.slots as object != registered
    }

    /** Everything the relay owns and may change. */
    ghost function Owned(): set<object>
    {
      {this, receivers, seen, seen.ids, seen.valid, registered} + reassembler.repr
    }

    ghost function Ports(): set<Transport>
      requires registered.Length == 3
      reads registered
    {
      (if registered[0] then {Lora} else {}) + (if registered[1] then {Mqtt} else {})
      + (if registered[2] then {EspNow} else {})
    }

    ghost function Cfg(): Config {
      Config(selfAddr, idBase, receivers.capacity, reassembler.Dimensions())
    }

    ghost function View(): State
      requires registered.Length == 3
      reads this, receivers, seen, registered, reassembler
    {
      State(idCtr, receivers.peers, reassembler.groups, seen.history, Ports())
    }

    constructor (selfAddr: Addr, idBase: u32, peersMax: nat, slots: nat, perSlot: nat)
      ensures Valid() && fresh(Owned()) && fresh(reassembler.slots)
      ensures Cfg() == Config(selfAddr, idBase, peersMax, R.Dims(slots, perSlot))
      ensures View() == State(0, map[], map[], [], {})
    {
      hide ReceiverTable.Valid, SeenCache.Valid, SlotArray.Reassembler.Valid;
      this.selfAddr := selfAddr;
      this.idBase := idBase;
      idCtr := 0;
      receivers := new ReceiverTable(peersMax);
      reassembler := new SlotArray.Reassembler(slots, perSlot);
      seen := new SeenCache(SEEN_WINDOW);
      registered := new bool[3](_ => false);
    }

    /** Allocates a message or group id. */
    method NextId() returns (id: u32)
      requires Valid()
      modifies this`idCtr
      ensures Valid() && id == Alloc(idBase, old(idCtr)) && idCtr == Advance(old(idCtr), 1)
    {
      id := (idBase + idCtr) % 0x1_0000_0000;
      idCtr := (idCtr + 1) % 0x1_0000_0000;
    }

    method RegisterPort(t: Transport)
      requires Valid()
      modifies registered
      ensures Valid() && View() == old(View()).(registered := old(Ports()) + {t})
    {
      hide ReceiverTable.Valid, SeenCache.Valid, SlotArray.Reassembler.Valid;
      registered[Index(t)] := true;
    }

    method UnregisterPort(t: Transport)
      requires Valid()
      modifies registered
      ensures Valid() && View() == old(View()).(registered := old(Ports()) - {t})
    {
      hide ReceiverTable.Valid, SeenCache.Valid, SlotArray.Reassembler.Valid;
      registered[Index(t)] := false;
    }

    method HasPorts() returns (any: bool)
      requires Valid()
      ensures any <==> Ports() != {}
    {
      hide ReceiverTable.Valid, SeenCache.Valid, SlotArray.Reassembler.Valid;
      any := registered[0] || registered[1] || registered[2];
      assert Lora in Ports() <==> registered[0];
      assert Mqtt in Ports() <==> registered[1];
      assert EspNow in Ports() <==> registered[2];
    }

    lemma PortRegistered(t: Transport)
      requires registered.Length == 3
      ensures t in Ports() <==> registered[Index(t)]
    {
    }

    /** Takes one frame off the network. */
    method Ingest(source: Transport, frame: seq<u8>) returns (r: Result<IngestOutcome, RelayError>)
      requires Valid()
      modifies Owned()
      ensures Valid() && (View(), r) == RelaySpec.Ingest(Cfg(), old(View()), source, frame)
    {
      hide ReceiverTable.Valid, SeenCache.Valid, SlotArray.Reassembler.Valid;
      hide Wire.DecodeMessage, R.Ingest, DedupKey, AddPeer, Ports;
      var decoded := Wire.DecodeMessage(frame);
      if decoded.Err? {
        return Err(Protocol(decoded.error));
      }
      var msg := decoded.value.(origin := source);
      if msg.from != BROADCAST_ADDR && msg.from != selfAddr {
        var _ := receivers.Add(msg.from, source);
      }
      var isNew := seen.CheckAndInsert(DedupKey(msg));
      if !isNew {
        return Ok(Duplicate);
      }
      var outcome := reassembler.Ingest(msg);
      match outcome
      case Passthrough(m) => r := Ok(DirectTo(m));
      case Complete(m) => r := Ok(DirectTo(m));
      case Buffered => r := Ok(Buffered);
      case Dropped(reason) => r := Ok(Dropped(reason));
    }

    function DirectTo(m: Message): (o: IngestOutcome)
      ensures o == Direct(Cfg(), m)
    {
      if m.to == selfAddr || m.IsBroadcast() then IngestOutcome.Complete(m) else NotForMe(m)
    }

    /** The transports to send on. */
    method ResolveTargets(dest: Destination) returns (r: Result<seq<Transport>, RelayError>)
      requires Valid()
      ensures r == Targets(View(), dest)
    {
      hide ReceiverTable.Valid, SeenCache.Valid, SlotArray.Reassembler.Valid, InOrder, First;
      var any := HasPorts();
      if !any {
        return Err(NoPortsRegistered);
      }
      match dest
      case Broadcast =>
        var out: seq<Transport> := [];
        FirstIsAll(Ports());
        for i := 0 to 3
          invariant out == InOrder(Ports() * First(i))
        {
          var t := ALL_TRANSPORTS[i];
          InOrderStep(Ports(), i);
          PortRegistered(t);
          if registered[Index(t)] {
            out := out + [t];
          }
        }
        return Ok(out);
      case Unicast(addr) =>
        var row := receivers.Lookup(addr);
        if row.None? {
          return Err(UnknownReceiver);
        }
        var bits := receivers.entries[row.value].bits;
        var out: seq<Transport> := [];
        ghost var keep := receivers.peers[addr] * Ports();
        FirstIsAll(keep);
        for i := 0 to 3
          invariant out == InOrder(keep * First(i))
        {
          var t := ALL_TRANSPORTS[i];
          InOrderStep(keep, i);
          PortRegistered(t);
          if Contains(bits, t) && registered[Index(t)] {
            out := out + [t];
          }
        }
        EmptyOrder(keep);
        return if out == [] then Err(UnknownReceiver) else Ok(out);
    }

    /** The frames for one target transport, appended to `out`. */
    method PlanOne(out: seq<PlannedFrame>, id: u32, kind: MsgKind, payload: seq<u8>, dest: Destination, t: Transport)
      returns (r: Result<seq<PlannedFrame>, RelayError>)
      requires Valid() && |out| <= 2 * F.MAX_FRAGMENTS
      modifies this`idCtr
      ensures Valid()
      ensures var (ctr, plan) := PlanTarget(Cfg(), old(idCtr), id, kind, payload, dest, t);
        && idCtr == ctr
        && r == (if plan.Err? then plan else Ok(out + plan.value))
        && (plan.Ok? ==> |plan.value| <= F.MAX_FRAGMENTS)
    {
      hide ReceiverTable.Valid, SeenCache.Valid, SlotArray.Reassembler.Valid, F.SplitAt, Ports;
      var prepared := F.Prepare(id, DEFAULT_TTL, t, selfAddr, DestAddr(dest), kind, payload);
      if prepared.Err? {
        return Err(prepared.error);
      }
      var group := NextId();
      var frames := F.Split(prepared.value, t, group);
      if frames.Err? {
        return Err(frames.error);
      }
      SplitBound(prepared.value, t, group);
      var plan := PushAll(out, frames.value, t, NetAddr(dest), 3 * F.MAX_FRAGMENTS);
      return Ok(plan);
    }

    /** The frames to send `payload` to `dest` on every target transport. */
    method PlanSend(kind: MsgKind, payload: seq<u8>, dest: Destination)
      returns (r: Result<seq<PlannedFrame>, RelayError>)
      requires Valid()
      modifies this`idCtr
      ensures Valid() && (View(), r) == RelaySpec.PlanSend(Cfg(), old(View()), kind, payload, dest)
    {
      hide ReceiverTable.Valid, SeenCache.Valid, SlotArray.Reassembler.Valid, Ports, PlanTarget, Targets;
      var resolved := ResolveTargets(dest);
      if resolved.Err? {
        return Err(resolved.error);
      }
      var targets := resolved.value;
      TargetsBound(View(), dest);
      var id := NextId();
      ghost var whole := PlanTargets(Cfg(), idCtr, id, kind, payload, dest, targets);
      var out: seq<PlannedFrame> := [];
      assert targets[0..] == targets;
      PlanWithMore([], [], whole);
      for i := 0 to |targets|
        invariant Valid() && |out| <= i * F.MAX_FRAGMENTS
        invariant whole == PlanWith(out, PlanTargets(Cfg(), idCtr, id, kind, payload, dest, targets[i..]))
      {
        assert targets[i..][0] == targets[i] && targets[i..][1..] == targets[i + 1..];
        ghost var (ctr, plan) := PlanTarget(Cfg(), idCtr, id, kind, payload, dest, targets[i]);
        if plan.Ok? {
          PlanWithMore(out, plan.value, PlanTargets(Cfg(), ctr, id, kind, payload, dest, targets[i + 1..]));
        }
        var more := PlanOne(out, id, kind, payload, dest, targets[i]);
        if more.Err? {
          return Err(more.error);
        }
        out := more.value;
      }
      assert targets[|targets|..] == [] && out + [] == out;
      return Ok(out);
    }

    /** The frames to pass `msg` on to `target`, with one hop less; none once its hops are spent. */
    method PlanForward(msg: Message, target: Transport) returns (r: Result<seq<PlannedFrame>, RelayError>)
      requires Valid()
      modifies this`idCtr
      ensures Valid() && (View(), r) == RelaySpec.PlanForward(Cfg(), old(View()), msg, target)
    {
      hide ReceiverTable.Valid, SeenCache.Valid, SlotArray.Reassembler.Valid, F.SplitAt, Ports;
      var relayed := msg.PreparedForRelay();
      if relayed.None? {
        return Ok([]);
      }
      var group := NextId();
      var frames := F.Split(relayed.value, target, group);
      if frames.Err? {
        return Err(frames.error);
      }
      SplitBound(relayed.value, target, group);
      PlanWithMore([], [], (0, Ok(Planned(frames.value, target, ForwardAddr(relayed.value)))));
      var out := PushAll([], frames.value, target, ForwardAddr(relayed.value), F.MAX_FRAGMENTS);
      return Ok(out);
    }
  }

  /** What has been planned so far, followed by a plan for the rest. */
  ghost function PlanWith(out: seq<PlannedFrame>, rest: (u32, Result<seq<PlannedFrame>, RelayError>))
    : (u32, Result<seq<PlannedFrame>, RelayError>)
  {
    match rest.1
    case Err(e) => (rest.0, Err(e))
    case Ok(more) => (rest.0, Ok(out + more))
  }

  lemma PlanWithMore(out: seq<PlannedFrame>, next: seq<PlannedFrame>,
                     rest: (u32, Result<seq<PlannedFrame>, RelayError>))
    ensures PlanWith([], rest) == rest
    ensures PlanWith(out + next, rest) == PlanWith(out, PlanWith(next, rest))
  {
    if rest.1.Ok? {
      assert [] + rest.1.value == rest.1.value;
      assert (out + next) + rest.1.value == out + (next + rest.1.value);
    }
  }

  /** Appends the frames to a plan with room for `capacity` of them. */
  method PushAll(out: seq<PlannedFrame>, frames: seq<Message>, t: Transport, addr: FrameAddr, capacity: nat)
    returns (plan: seq<PlannedFrame>)
    requires |out| + |frames| <= capacity
    ensures plan == out + Planned(frames, t, addr)
  {
    plan := out;
    for i := 0 to |frames|
      invariant plan == out + Planned(frames, t, addr)[..i]
    {
      assert |plan| < capacity;
      plan := plan + [PlannedFrame(t, addr, frames[i])];
      assert Planned(frames, t, addr)[..i + 1] == Planned(frames, t, addr)[..i] + [PlannedFrame(t, addr, frames[i])];
    }
  }

  lemma TargetsBound(s: State, dest: Destination)
    ensures Targets(s, dest).Ok? ==> 1 <= |Targets(s, dest).value| <= 3
  {
    match dest
    case Broadcast =>
      InOrderMembers(s.registered);
      EmptyOrder(s.registered);
    case Unicast(a) =>
      if a in s.peers {
        InOrderMembers(s.peers[a] * s.registered);
        EmptyOrder(s.peers[a] * s.registered);
      }
  }

  lemma SplitBound(msg: Message, target: Transport, group: u32)
    ensures F.SplitAt(msg, F.Mtu(target), group).Ok? ==>
              |F.SplitAt(msg, F.Mtu(target), group).value| <= F.MAX_FRAGMENTS
  {
    if msg.frag.None? {
      F.SplitCorrect(msg, F.Mtu(target), group);
    }
  }

  lemma EmptyOrder(keep: set<Transport>)
    ensures InOrder(keep) == [] <==> keep == {}
  {
    InOrderMembers(keep);
    if keep != {} {
      var t :| t in keep;
      assert t in InOrder(keep);
    }
  }
}
