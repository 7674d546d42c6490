/**
 The bridge itself: `bridge_loop`, `fanout_forward` and `enqueue` of
 `crates/cardputer-fw/src/bridge.rs` over the relay engine and the static channels.
 */
module BridgeLoop {
  import opened Proto
  import opened RelaySpec
  import opened RelayEngine
  import opened BridgeSpec

  class BridgeNode {
    const relay: Relay
    var loraOut: seq<OutFrame>
    var mqttOut: seq<OutFrame>
    var espnowOut: seq<OutFrame>
    var uiIn: seq<Message>

    ghost predicate Valid()
      reads this, relay, relay.receivers, relay.seen, relay.seen.ids, relay.seen.valid, relay.registered
      reads relay.reassembler, relay.reassembler.repr, relay.reassembler.slots
    {
      && relay.Valid() && relay.registered.Length == 3
      && this !in relay.Owned() && relay.reassembler.slots as object != this
    }

    ghost function View(): Bridge
      requires relay.registered.Length == 3
      reads this, relay, relay.receivers, relay.seen, relay.registered, relay.reassembler
    {
      Bridge(relay.View(), loraOut, mqttOut, espnowOut, uiIn)
    }

    /** Takes over a relay and advertises the three transports. */
    constructor (relay: Relay)
      requires relay.Valid()
      modifies relay.registered
      ensures this.relay == relay && Valid()
      ensures View() == Bridge(old(relay.View()).(registered := {Lora, EspNow, Mqtt}), [], [], [], [])
    {
      hide Relay.Valid;
      this.relay := relay;
      loraOut := [];
      mqttOut := [];
      espnowOut := [];
      uiIn := [];
      new;
      HasThreePorts(relay);
      relay.RegisterPort(Lora);
      relay.RegisterPort(EspNow);
      relay.RegisterPort(Mqtt);
      AllPorts(old(relay.Ports()));
    }

    /** Offers a planned frame to the channel of its transport; a full channel drops it. */
    method EnqueueFrame(p: PlannedFrame)
      requires Valid()
      modifies this
      ensures Valid() && View() == Enqueue(old(View()), p)
      ensures p.transport != Lora ==> loraOut == old(loraOut)
      ensures p.transport != Mqtt ==> mqttOut == old(mqttOut)
      ensures p.transport != EspNow ==> espnowOut == old(espnowOut)
    {
      hide Relay.Valid;
      var f := OutFrame(p.addr, p.message);
      match p.transport
      case Lora => loraOut := Offer(loraOut, f);
      case Mqtt => mqttOut := Offer(mqttOut, f);
      case EspNow => espnowOut := Offer(espnowOut, f);
    }

    method ForwardOnto(msg: Message, target: Transport)
      requires Valid()
      modifies this, relay
      ensures Valid() && View() == ForwardTo(relay.Cfg(), old(View()), msg, target)
    {
      hide Relay.Valid, PlanForward, Enqueue;
      var plan := relay.PlanForward(msg, target);
      if plan.Ok? {
        ghost var goal := EnqueueAll(View(), plan.value);
        assert plan.value[0..] == plan.value;
        for i := 0 to |plan.value|
          invariant Valid()
          invariant goal == EnqueueAll(View(), plan.value[i..])
        {
          assert plan.value[i..][0] == plan.value[i] && plan.value[i..][1..] == plan.value[i + 1..];
          EnqueueFrame(plan.value[i]);
        }
      }
    }

    /** Forwards `msg` to every transport but `skip`. */
    method FanoutForward(msg: Message, skip: Transport)
      requires Valid()
      modifies this, relay
      ensures Valid() && View() == Fanout(relay.Cfg(), old(View()), msg, skip, ALL_TRANSPORTS)
    {
      hide Relay.Valid, ForwardTo;
      var all := ALL_TRANSPORTS;
      assert all[0..] == all;
      for i := 0 to |all|
        invariant Valid()
        invariant Fanout(relay.Cfg(), old(View()), msg, skip, all) == Fanout(relay.Cfg(), View(), msg, skip, all[i..])
      {
        assert all[i..][0] == all[i] && all[i..][1..] == all[i + 1..];
        if all[i] != skip {
          ForwardOnto(msg, all[i]);
        }
      }
    }

    /** One turn of the bridge loop. */
    method HandleFrame(source: Transport, bytes: seq<u8>)
      requires Valid()
      modifies this, relay.Owned()
      ensures Valid() && View() == HandleRaw(relay.Cfg(), old(View()), source, bytes)
    {
      hide Relay.Valid, Ingest, Fanout;
      var outcome := relay.Ingest(source, bytes);
      if outcome.Err? {
        return;
      }
      match outcome.value {
        case Complete(msg) =>
          uiIn := Offer(uiIn, msg);
          if msg.IsBroadcast() {
            FanoutForward(msg, source);
          }
        case NotForMe(msg) =>
          FanoutForward(msg, source);
        case _ =>
      }
    }
  }

  lemma HasThreePorts(relay: Relay)
    requires relay.Valid()
    ensures relay.registered.Length == 3
  {
  }

  lemma AllPorts(ports: set<Transport>)
    ensures ports + {Lora} + {EspNow} + {Mqtt} == {Lora, EspNow, Mqtt}
  {
    forall t | t in ports
      ensures t in {Lora, EspNow, Mqtt}
    {
      match t
      case Lora =>
      case Mqtt =>
      case EspNow =>
    }
  }
}
