/**
 What survives a chain of relays. At every hop the message is planned anew for another
 transport, split for its mtu under a new group id, carried in any order among other
 traffic, and put together again.
 */
module MultiHop {
  import opened Wrappers
  import opened Proto
  import opened RelaySpec
  import opened AtMostOnce
  import opened Transfers
  import opened ExactlyOnce
  import opened Planning
  import F = Fragmenter
  import Wire

  /**
   One hop: a relay forwards onto `target`, and the frames reach the next relay during
   `run`, which finds it in state `at`.
   */
  datatype Hop = Hop(from: Config, fromState: State, target: Transport, to: Config, at: State, run: seq<Arrival>)

  function Onward(m: Message, target: Transport): Message
    requires m.ttl > 0
  {
    m.(ttl := m.ttl - 1, origin := target)
  }

  /** The planned frames as they arrive over the hop's transport. */
  function Carried(m: Message, h: Hop): Transfer {
    var plan := PlanForward(h.from, h.fromState, m, h.target).1;
    Received(if m.ttl > 0 then m.(ttl := m.ttl - 1) else m,
             if plan.Ok? then On(plan.value, h.target) else [],
             Alloc(h.from.idBase, h.fromState.idCtr), h.target)
  }

  /** The next relay has not seen the message, and all its frames arrive, whatever else does. */
  ghost predicate GoodHop(m: Message, h: Hop) {
    var x := Carried(m, h);
    && 2 <= h.to.dims.perSlot && 0 < |x.frames| < 0x1_0000
    && NewTo(h.at, x)
    && (forall a <- h.run :: IsPart(a, x) || Unrelated(a, x))
    && SlotAvailable(h.to, h.at, h.run, x)
    && |RunRelay(h.to, h.at, h.run).0.seen| <= |h.at.seen| + SEEN_WINDOW
    && AllArrive(h.run, x)
  }

  /** The next relay hands out `out` at some point of the run, under the id of the message. */
  ghost predicate HandsOut(m: Message, h: Hop, out: Message) {
    var rs := RunRelay(h.to, h.at, h.run).1;
    out.id == m.id && exists i :: 0 <= i < |h.run| && rs[i].Ok? && rs[i].value.Delivered() == Some(out)
  }

  lemma CarriedIsSound(m: Message, h: Hop)
    requires m.frag.None? && m.WellSized() && m.ttl > 0 && 2 <= h.to.dims.perSlot
    ensures Carried(m, h).whole == Onward(m, h.target)
    ensures Sound(h.to, Carried(m, h))
    ensures var plan := PlanForward(h.from, h.fromState, m, h.target).1;
      && plan.Ok? && |On(plan.value, h.target)| == |Carried(m, h).frames|
      && forall i :: 0 <= i < |Carried(m, h).frames| ==>
           IsCopy(Arrival(h.target, Wire.Encode(On(plan.value, h.target)[i])), Carried(m, h), i)
  {
    hide PlanForward, F.SplitAt, F.Mtu, Sound, IsCopy, Alloc, Wire.Encode, On;
    var relayed, group := m.(ttl := m.ttl - 1), Alloc(h.from.idBase, h.fromState.idCtr);
    PlannedOnward(h.from, h.fromState, m, h.target);
    SentFramesArrive(h.to, relayed, h.target, group, F.SplitAt(relayed, F.Mtu(h.target), group).value);
  }

  /** A forward plan consists of the split of the message with one hop less. */
  lemma {:induction false} PlannedOnward(c: Config, s: State, m: Message, t: Transport)
    requires m.frag.None? && m.WellSized() && m.ttl > 0
    ensures var split := F.SplitAt(m.(ttl := m.ttl - 1), F.Mtu(t), Alloc(c.idBase, s.idCtr));
      split.Ok? && PlanForward(c, s, m, t).1.Ok? && On(PlanForward(c, s, m, t).1.value, t) == split.value
  {
    hide F.SplitAt, F.Mtu, Alloc, On;
    var relayed, group := m.(ttl := m.ttl - 1), Alloc(c.idBase, s.idCtr);
    F.RealTransportsSplit(relayed, t, group);
    OnPlanned(F.SplitAt(relayed, F.Mtu(t), group).value, t, ForwardAddr(relayed), t);
  }

  /** Over all its answers, the next relay delivers the message exactly once, with one hop less and the new origin. */
  lemma HopDelivers(m: Message, h: Hop)
    requires m.frag.None? && m.WellSized() && m.ttl > 0 && GoodHop(m, h)
    ensures Deliveries(RunRelay(h.to, h.at, h.run).1, m.id) == 1
    ensures AsAddressed(h.to, Onward(m, h.target)) in RunRelay(h.to, h.at, h.run).1
    ensures forall out :: HandsOut(m, h, out) <==> out == Onward(m, h.target)
  {
    hide Deliveries, RunRelay, Sound, Unrelated, SlotAvailable, Arriving, Carried, NewTo, GoodAnswer, IsPart, Delivers;
    CarriedIsSound(m, h);
    DeliveredExactlyOnce(h.to, h.at, h.run, Carried(m, h));
    var rs := RunRelay(h.to, h.at, h.run).1;
    var i := SomeDelivers(rs, m.id);
    HandedAt(m, h, i);
    DeliversIff(rs[i], m.id);
    forall out | HandsOut(m, h, out)
      ensures out == Onward(m, h.target)
    {
      var j :| 0 <= j < |h.run| && rs[j].Ok? && rs[j].value.Delivered() == Some(out);
      DeliversIff(rs[j], m.id);
      HandedAt(m, h, j);
    }
  }

  lemma DeliversIff(r: Answer, id: u32)
    ensures Delivers(r, id) == 1 <==> r.Ok? && r.value.Delivered().Some? && r.value.Delivered().value.id == id
  {
  }

  /** Every answer that hands out the message hands out just this. */
  lemma HandedAt(m: Message, h: Hop, i: nat)
    requires m.frag.None? && m.WellSized() && m.ttl > 0 && GoodHop(m, h)
    requires i < |h.run| && Delivers(RunRelay(h.to, h.at, h.run).1[i], m.id) == 1
    ensures RunRelay(h.to, h.at, h.run).1[i] == AsAddressed(h.to, Onward(m, h.target))
  {
    hide Deliveries, RunRelay, Sound, Unrelated, SlotAvailable, Arriving, Carried, NewTo, IsPart, Frame;
    CarriedIsSound(m, h);
    var x := Carried(m, h);
    DeliveredExactlyOnce(h.to, h.at, h.run, x);
    NoOtherForm(h.run, x);
    assert Expected(h.run[i], x) && GoodAnswer(h.to, h.run[i], RunRelay(h.to, h.at, h.run).1[i], x);
    OriginIsTarget(h, h.run[i], x, m);
  }

  /** What belongs to the hop's transfer comes over the hop's transport. */
  lemma OriginIsTarget(h: Hop, a: Arrival, x: Transfer, m: Message)
    requires Sound(h.to, x) && m.ttl > 0 && x.whole == Onward(m, h.target)
    requires IsPart(a, x)
    ensures a.source == h.target
  {
    hide Frame, Sound;
    var i: nat :| i < |x.frames| && IsCopy(a, x, i);
    PartOrigin(h.to, a, x, i);
  }

  /** After k hops: payload, id, addresses and kind as sent, k hops spent. */
  function AfterHops(m: Message, hops: seq<Hop>, k: nat): Message
    requires k <= |hops| && k <= m.ttl
  {
    m.(ttl := m.ttl - k, origin := if k == 0 then m.origin else hops[k - 1].target)
  }

  /** A journey: the message at each relay is one that the relay handed out. */
  ghost predicate Journey(stages: seq<Message>, hops: seq<Hop>) {
    && |stages| == |hops| + 1
    && forall k :: 0 <= k < |hops| ==>
         && stages[k].ttl > 0
         && GoodHop(stages[k], hops[k])
         && HandsOut(stages[k], hops[k], stages[k + 1])
  }

  /**
   Multi-hop preservation: over any number of hops the message keeps its payload, id,
   addresses and kind, loses one hop each time, and has the last transport as origin. A
   relay's forward plan is empty exactly when the hops are spent.
   */
  lemma {:induction false} JourneyPreserves(stages: seq<Message>, hops: seq<Hop>, k: nat)
    requires Journey(stages, hops) && k <= |hops|
    requires stages[0].frag.None? && stages[0].WellSized()
    ensures k <= stages[0].ttl
    ensures stages[k] == AfterHops(stages[0], hops, k)
    ensures forall c, s, t :: PlanForward(c, s, stages[k], t).1 == Ok([]) <==> stages[0].ttl == k
  {
    hide GoodHop, HandsOut, PlanForward;
    if k > 0 {
      JourneyPreserves(stages, hops, k - 1);
      HopDelivers(stages[k - 1], hops[k - 1]);
      assert HandsOut(stages[k - 1], hops[k - 1], stages[k]);
    }
    forall c, s, t
      ensures PlanForward(c, s, stages[k], t).1 == Ok([]) <==> stages[0].ttl == k
    {
      PlanForwardCorrect(c, s, stages[k], t);
    }
  }
}
