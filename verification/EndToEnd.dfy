/**
 From `plan_send` at one relay to delivery at another, over every transport the plan uses.
 */
module EndToEnd {
  import opened Wrappers
  import opened Proto
  import opened Dedup
  import opened RelaySpec
  import opened AtMostOnce
  import opened Transfers
  import opened ExactlyOnce
  import opened Planning
  import F = Fragmenter
  import Wire

  /** A successful send: who sends what to whom, and the transport looked at. */
  datatype Sent = Sent(c: Config, s: State, kind: MsgKind, payload: seq<u8>, dest: Destination, over: Transport) {
    predicate Succeeds() {
      && |payload| <= MAX_PAYLOAD
      && Targets(s, dest).Ok? && over in Targets(s, dest).value
    }

    /** The message as the sender composed it. */
    function Whole(): Message {
      Outgoing(c, Alloc(c.idBase, s.idCtr), kind, payload, dest, over)
    }

    /** The frames that the plan puts on this transport. */
    function Frames(): seq<Message> {
      On(Plan(), over)
    }

    function Arriving(): Transfer {
      var targets := Targets(s, dest);
      Received(Whole(), Frames(),
               Alloc(c.idBase, s.idCtr + 1 + if targets.Ok? then Position(targets.value, over) else 0), over)
    }

    function Plan(): seq<PlannedFrame> {
      var plan := PlanSend(c, s, kind, payload, dest).1;
      if plan.Ok? then plan.value else []
    }

    /** The transport looked at is the one that slices, if any does. */
    predicate OverSlicing() {
      over == Lora || |payload| <= Lora.MaxPayload() || (Targets(s, dest).Ok? && Lora !in Targets(s, dest).value)
    }
  }

  /** What goes over one transport is the composed message, ready to be put together again. */
  lemma SendIsSound(x: Sent, to: Config)
    requires x.Succeeds() && 2 <= to.dims.perSlot
    ensures Sound(to, x.Arriving()) && x.Arriving().whole == x.Whole()
    ensures |x.Frames()| == |x.Arriving().frames| < 0x1_0000
    ensures forall i :: 0 <= i < |x.Frames()| ==> IsCopy(Arrival(x.over, Wire.Encode(x.Frames()[i])), x.Arriving(), i)
  {
    hide IsCopy, Carries, PlanSend, Targets, DedupKey;
    FramesCarry(x);
    CarriedArrives(to, x.Whole(), x.over, x.Arriving().group, x.Frames());
  }

  /** The frames on one transport carry the composed message under the group it was given. */
  lemma FramesCarry(x: Sent)
    requires x.Succeeds()
    ensures x.Whole().frag.None? && x.Whole().WellSized()
    ensures Carries(x.Frames(), x.Whole(), F.Mtu(x.over), x.Arriving().group)
  {
    hide PlanSend, Targets, Carries;
    PlanSendCorrect(x.c, x.s, x.kind, x.payload, x.dest);
  }

  /** Frames that carry a whole message arrive as a sound transfer. */
  lemma CarriedArrives(to: Config, m: Message, t: Transport, group: u32, frames: seq<Message>)
    requires m.frag.None? && m.WellSized() && 2 <= to.dims.perSlot
    requires Carries(frames, m, F.Mtu(t), group)
    ensures Sound(to, Received(m, frames, group, t))
    ensures forall i :: 0 <= i < |frames| ==>
              IsCopy(Arrival(t, Wire.Encode(frames[i])), Received(m, frames, group, t), i)
  {
    hide Wire.Encode, Wire.DecodeMessage, F.Joined;
    if frames != [m] {
      F.Product(180, F.Mtu(t), |frames| - 1);
      F.SplitMovesOrigin(frames, m, group, t);
    }
    forall i | 0 <= i < |frames|
      ensures IsCopy(Arrival(t, Wire.Encode(frames[i])), Received(m, frames, group, t), i)
    {
      assert frames[i] in frames;
      EncodedFrame(frames[i]);
    }
  }

  lemma EncodedFrame(m: Message)
    requires m.WellSized()
    ensures Wire.DecodeMessage(Wire.Encode(m)) == Ok(m)
  {
    Wire.MessageRoundTrip(m, []);
  }

  // ---- The other transports of the plan ----

  /** A frame of the plan, as it arrives. */
  function AsArrival(p: PlannedFrame): Arrival {
    Arrival(p.transport, Wire.Encode(p.message))
  }

  /** On a transport that needs no slices the plan puts the message in one piece. */
  lemma {:induction false} InOnePiece(x: Sent, t: Transport)
    requires x.Succeeds() && t in Targets(x.s, x.dest).value && (t == Lora ==> |x.payload| <= Lora.MaxPayload())
    ensures On(x.Plan(), t) == [x.Whole().(origin := t)]
  {
    hide PlanSend, Targets, F.IsSplit, Alloc;
    PlanSendCorrect(x.c, x.s, x.kind, x.payload, x.dest);
    var frames := On(x.Plan(), t);
    if frames != [x.Whole().(origin := t)] {
      AtLeastTwo(frames, x.Whole().(origin := t),
                 Alloc(x.c.idBase, x.s.idCtr + 1 + Position(Targets(x.s, x.dest).value, t)));
      F.Product(1, |frames| - 1, F.Mtu(t));
    }
  }

  lemma AtLeastTwo(frames: seq<Message>, whole: Message, group: u32)
    requires F.IsSplit(frames, whole, group)
    ensures |frames| >= 2
  {
  }

  /** So every frame of the plan is a part of the transfer or the message in its other form. */
  lemma PlanIsExpected(x: Sent, to: Config, p: PlannedFrame)
    requires x.Succeeds() && x.OverSlicing() && 2 <= to.dims.perSlot && p in x.Plan()
    ensures IsPart(AsArrival(p), x.Arriving()) || OtherForm(AsArrival(p), x.Arriving())
    ensures p.transport != x.over ==> OtherForm(AsArrival(p), x.Arriving())
  {
    hide PlanSend, Targets, Sound, Alloc, IsCopy, Frame;
    Listed(x.Plan(), p);
    SendIsSound(x, to);
    if p.transport == x.over {
      var i :| 0 <= i < |x.Frames()| && x.Frames()[i] == p.message;
      assert IsCopy(AsArrival(p), x.Arriving(), i);
    } else {
      PlanUsesTargets(x, p);
      InOnePiece(x, p.transport);
      OnePieceIsOtherForm(x, to, p.transport);
    }
  }

  lemma PlanUsesTargets(x: Sent, p: PlannedFrame)
    requires x.Succeeds() && p in x.Plan()
    ensures p.transport in Targets(x.s, x.dest).value
  {
    hide PlanSend, Targets, Alloc;
    PlanSendCorrect(x.c, x.s, x.kind, x.payload, x.dest);
  }

  lemma OnePieceIsOtherForm(x: Sent, to: Config, t: Transport)
    requires x.Succeeds() && t != x.over && Sound(to, x.Arriving()) && x.Arriving().whole == x.Whole()
    ensures OtherForm(Arrival(t, Wire.Encode(x.Whole().(origin := t))), x.Arriving())
  {
    hide PlanSend, Targets, Alloc, Wire.Encode, Wire.DecodeMessage, Sound;
    var w := x.Whole().(origin := t);
    EncodedFrame(w);
    var a := Arrival(t, Wire.Encode(w));
    if IsPart(a, x.Arriving()) {
      var i: nat :| i < |x.Arriving().frames| && IsCopy(a, x.Arriving(), i);
      PartOrigin(to, a, x.Arriving(), i);
    }
  }

  /** A frame of the plan that arrives on the transport it was planned for. */
  ghost predicate FromPlan(a: Arrival, x: Sent) {
    exists p :: p in x.Plan() && a == AsArrival(p)
  }

  /**
   End to end: when a relay receives frames of one send, over any of its transports, in any
   order and number, mixed with unrelated traffic, then under the conditions of exactly-once
   delivery it hands the message out exactly once if all frames of the slicing transport
   arrive, or if a frame of another transport comes before the first of them, and not at all
   otherwise. What is handed out is what was composed, with the arrival transport as origin.
   */
  lemma {:induction false} SentIsDeliveredOnce(x: Sent, to: Config, at: State, run: seq<Arrival>)
    requires x.Succeeds() && x.OverSlicing() && 2 <= to.dims.perSlot && |x.Arriving().frames| < 0x1_0000
    requires NewTo(at, x.Arriving())
    requires forall a <- run :: FromPlan(a, x) || Unrelated(a, x.Arriving())
    requires SlotAvailable(to, at, run, x.Arriving())
    requires |RunRelay(to, at, run).0.seen| <= |at.seen| + SEEN_WINDOW
    ensures var rs := RunRelay(to, at, run).1;
      && Deliveries(rs, x.Whole().id)
         == (if AllArrive(run, x.Arriving()) || OtherFirst(run, x.Arriving()) then 1 else 0)
      && forall i :: 0 <= i < |run| && Delivers(rs[i], x.Whole().id) == 1 ==>
           rs[i] == AsAddressed(to, x.Whole().(origin := run[i].source))
  {
    hide RunRelay, PlanSend, Targets, Unrelated, SlotAvailable, Deliveries, IsPart, OtherForm, NewTo, Sound;
    hide AllArrive, OtherFirst, FromPlan, Sent.Arriving, Sent.Whole;
    SendIsSound(x, to);
    forall a <- run
      ensures Expected(a, x.Arriving())
    {
      PlanOrUnrelated(x, to, a);
    }
    DeliveredInEitherForm(to, at, run, x.Arriving());
    var rs := RunRelay(to, at, run).1;
    forall i | 0 <= i < |run| && Delivers(rs[i], x.Whole().id) == 1
      ensures rs[i] == AsAddressed(to, x.Whole().(origin := run[i].source))
    {
      assert GoodAnswer(to, run[i], rs[i], x.Arriving());
    }
  }

  lemma PlanOrUnrelated(x: Sent, to: Config, a: Arrival)
    requires x.Succeeds() && x.OverSlicing() && 2 <= to.dims.perSlot
    requires FromPlan(a, x) || Unrelated(a, x.Arriving())
    ensures Expected(a, x.Arriving())
  {
    hide Unrelated, IsPart, OtherForm, Sent.Plan, Sent.Arriving;
    if FromPlan(a, x) {
      var p :| p in x.Plan() && a == AsArrival(p);
      PlanIsExpected(x, to, p);
    }
  }

  // ---- Both forms from one send ----

  /** The message in one piece, as it arrives over `t`. */
  function OnePiece(x: Sent, t: Transport): Arrival {
    Arrival(t, Wire.Encode(x.Whole().(origin := t)))
  }

  function Slice(x: Sent, i: nat): Arrival
    requires i < |x.Frames()|
  {
    Arrival(x.over, Wire.Encode(x.Frames()[i]))
  }

  /** A send of 181 to 200 bytes over LoRa and another transport puts both forms on the air. */
  lemma {:induction false} BothFormsSent(x: Sent, t: Transport, to: Config)
    requires x.Succeeds() && x.over == Lora && |x.payload| > Lora.MaxPayload() && 2 <= to.dims.perSlot
    requires t != Lora && t in Targets(x.s, x.dest).value
    ensures |x.Frames()| == 2 == |x.Arriving().frames| && On(x.Plan(), t) == [x.Whole().(origin := t)]
    ensures Sound(to, x.Arriving()) && x.Arriving().whole == x.Whole()
    ensures IsCopy(Slice(x, 0), x.Arriving(), 0) && IsCopy(Slice(x, 1), x.Arriving(), 1)
    ensures OtherForm(OnePiece(x, t), x.Arriving())
  {
    hide PlanSend, Targets, IsCopy, OtherForm, Alloc;
    SendIsSound(x, to);
    InOnePiece(x, t);
    OnePieceIsOtherForm(x, to, t);
    TwoSlices(x);
  }

  /** Such as a broadcast with both registered. */
  lemma BroadcastOverBoth(x: Sent, t: Transport)
    requires x.dest == Broadcast && Lora in x.s.registered && t in x.s.registered
    requires x.over == Lora && Lora.MaxPayload() < |x.payload| <= MAX_PAYLOAD
    ensures x.Succeeds() && t in Targets(x.s, x.dest).value
  {
    TargetsDistinct(x.s, x.dest);
  }

  lemma TwoSlices(x: Sent)
    requires x.Succeeds() && x.over == Lora && |x.payload| > Lora.MaxPayload()
    ensures |x.Frames()| == 2
  {
    hide PlanSend, Targets, Alloc, F.Joined;
    FramesCarry(x);
    var frames, w := x.Frames(), x.Whole();
    assert frames == [w] ==> w in frames;
    F.Product(2, if |frames| > 2 then |frames| - 1 else 2, 180);
  }
}
