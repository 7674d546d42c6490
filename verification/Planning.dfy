/**
 What the planners promise: a plan covers the right transports with complete, fitting
 splits, and the ids it draws are never drawn again before the counter wraps.
 */
module Planning {
  import opened Wrappers
  import opened Proto
  import opened Receivers
  import opened RelaySpec
  import F = Fragmenter
  import R = Reassembly

  /** The messages a plan puts on one transport, in order. */
  function On(plan: seq<PlannedFrame>, t: Transport): seq<Message> {
    if plan == [] then []
    else (if plan[0].transport == t then [plan[0].message] else []) + On(plan[1..], t)
  }

  /**
   The frames carry the whole message over a link of this mtu: as it is, or as its slices,
   no more of them than it takes.
   */
  ghost predicate Carries(frames: seq<Message>, whole: Message, mtu: nat, group: u32) {
    && (forall f <- frames :: |f.payload| <= mtu)
    && (frames == [whole] || (F.IsSplit(frames, whole, group) && (|frames| - 1) * mtu < |whole.payload|))
  }

  /** The message that `plan_send` puts on transport `t`. */
  function Outgoing(c: Config, id: u32, kind: MsgKind, payload: seq<u8>, dest: Destination, t: Transport): Message {
    Message(id, DEFAULT_TTL, t, c.selfAddr, DestAddr(dest), kind, payload, None)
  }

  lemma {:induction false} OnPlanned(frames: seq<Message>, t: Transport, addr: FrameAddr, u: Transport)
    ensures On(Planned(frames, t, addr), u) == if u == t then frames else []
    decreases |frames|
  {
    if frames != [] {
      var plan := Planned(frames, t, addr);
      assert plan[1..] == Planned(frames[1..], t, addr);
      OnPlanned(frames[1..], t, addr, u);
      assert frames == [frames[0]] + frames[1..];
    }
  }

  lemma {:induction false} OnConcat(a: seq<PlannedFrame>, b: seq<PlannedFrame>, t: Transport)
    ensures On(a + b, t) == On(a, t) + On(b, t)
    decreases |a|
  {
    if a == [] {
      assert a + b == b;
    } else {
      var rest := a[1..];
      assert (a + b)[0] == a[0] && (a + b)[1..] == rest + b;
      OnConcat(rest, b, t);
      var first := if a[0].transport == t then [a[0].message] else [];
      assert first + (On(rest, t) + On(b, t)) == first + On(rest, t) + On(b, t);
    }
  }

  /** Where transport `t` stands among the targets. */
  function Position(targets: seq<Transport>, t: Transport): nat {
    if targets == [] || targets[0] == t then 0 else 1 + Position(targets[1..], t)
  }

  /** Where it stands among all transports. */
  function Rank(t: Transport): nat {
    Position(ALL_TRANSPORTS, t)
  }

  /** The targets are in the fixed order of all transports, each once. */
  ghost predicate Ascending(targets: seq<Transport>) {
    forall i, j :: 0 <= i < j < |targets| ==> Rank(targets[i]) < Rank(targets[j])
  }

  /** The plan goes through the transports in that order. */
  ghost predicate InTransportOrder(plan: seq<PlannedFrame>) {
    forall i, j :: 0 <= i < j < |plan| ==> Rank(plan[i].transport) <= Rank(plan[j].transport)
  }

  lemma Wrap(a: nat, n: nat)
    ensures (a % 0x1_0000_0000 + n) % 0x1_0000_0000 == (a + n) % 0x1_0000_0000
  {
    var q := a / 0x1_0000_0000;
    assert a + n == a % 0x1_0000_0000 + n + q * 0x1_0000_0000;
  }

  /** Drawing one id and then the n-th of the rest is drawing the one after the n-th. */
  lemma AllocStep(base: u32, ctr: u32, n: nat)
    ensures Alloc(base, Advance(ctr, 1) + n) == Alloc(base, ctr + n + 1)
    ensures Advance(Advance(ctr, 1), n) == Advance(ctr, n + 1)
  {
    Wrap(ctr + 1, n);
    Wrap(ctr + 1, base + n);
  }

  /**
   The plan covers just these transports: on each of them it carries the outgoing message
   within the transport's mtu, under a group id of its own, and it uses no other transport.
   */
  ghost predicate Covers(c: Config, ctr: nat, id: u32, kind: MsgKind, payload: seq<u8>, dest: Destination,
                         targets: seq<Transport>, plan: seq<PlannedFrame>)
  {
    && (forall p <- plan :: p.transport in targets && p.addr == NetAddr(dest))
    && (forall t <- targets ::
         Carries(On(plan, t), Outgoing(c, id, kind, payload, dest, t), F.Mtu(t),
                 Alloc(c.idBase, ctr + Position(targets, t))))
    && (forall t: Transport :: t !in targets ==> On(plan, t) == [])
  }

  lemma PlanTargetCorrect(c: Config, ctr: u32, id: u32, kind: MsgKind, payload: seq<u8>, dest: Destination,
                          t: Transport)
    ensures var (ctr', plan) := PlanTarget(c, ctr, id, kind, payload, dest, t);
      if |payload| > MAX_PAYLOAD then
        ctr' == ctr && plan == Err(Protocol(PayloadTooLarge))
      else
        && ctr' == Advance(ctr, 1) && plan.Ok?
        && Covers(c, ctr, id, kind, payload, dest, [t], plan.value)
  {
    hide F.SplitAt, Carries, Alloc, Advance, Covers, F.Mtu;
    if |payload| <= MAX_PAYLOAD {
      var msg, group := Outgoing(c, id, kind, payload, dest, t), Alloc(c.idBase, ctr);
      SplitCarries(msg, t, group);
      PlannedCovers(c, ctr, id, kind, payload, dest, t, F.SplitAt(msg, F.Mtu(t), group).value);
    }
  }

  /** A split for a transport carries the message over it. */
  lemma SplitCarries(msg: Message, t: Transport, group: u32)
    requires msg.frag.None? && msg.WellSized()
    ensures F.SplitAt(msg, F.Mtu(t), group).Ok?
    ensures Carries(F.SplitAt(msg, F.Mtu(t), group).value, msg, F.Mtu(t), group)
  {
    hide F.SplitAt, F.IsSplit, F.Mtu;
    F.SplitCorrect(msg, F.Mtu(t), group);
    F.RealTransportsSplit(msg, t, group);
  }

  lemma PlannedCovers(c: Config, ctr: nat, id: u32, kind: MsgKind, payload: seq<u8>, dest: Destination, t: Transport,
                      frames: seq<Message>)
    requires Carries(frames, Outgoing(c, id, kind, payload, dest, t), F.Mtu(t), Alloc(c.idBase, ctr))
    ensures Covers(c, ctr, id, kind, payload, dest, [t], Planned(frames, t, NetAddr(dest)))
  {
    hide Carries, Outgoing, Alloc, F.Mtu, On;
    OnPlanned(frames, t, NetAddr(dest), t);
    forall u: Transport | u != t
      ensures On(Planned(frames, t, NetAddr(dest)), u) == []
    {
      OnPlanned(frames, t, NetAddr(dest), u);
    }
  }

  lemma CoversMore(c: Config, ctr: u32, id: u32, kind: MsgKind, payload: seq<u8>, dest: Destination,
                   targets: seq<Transport>, first: seq<PlannedFrame>, rest: seq<PlannedFrame>)
    requires targets != [] && targets[0] !in targets[1..]
    requires Covers(c, ctr, id, kind, payload, dest, [targets[0]], first)
    requires Covers(c, Advance(ctr, 1), id, kind, payload, dest, targets[1..], rest)
    ensures Covers(c, ctr, id, kind, payload, dest, targets, first + rest)
  {
    hide Carries, Outgoing, Alloc, Advance, On;
    var t := targets[0];
    assert targets == [t] + targets[1..];
    forall u: Transport
      ensures u in targets ==>
                Carries(On(first + rest, u), Outgoing(c, id, kind, payload, dest, u), F.Mtu(u),
                        Alloc(c.idBase, ctr + Position(targets, u)))
      ensures u !in targets ==> On(first + rest, u) == []
    {
      OnConcat(first, rest, u);
      if u == t {
        assert On(first, t) + [] == On(first, t);
      } else {
        assert u in targets <==> u in targets[1..];
        assert [] + On(rest, u) == On(rest, u);
        AllocStep(c.idBase, ctr, Position(targets[1..], u));
      }
    }
  }

  lemma {:induction false} PlanTargetsCorrect(c: Config, ctr: u32, id: u32, kind: MsgKind, payload: seq<u8>,
                                              dest: Destination, targets: seq<Transport>)
    requires |payload| <= MAX_PAYLOAD
    requires forall i, j :: 0 <= i < j < |targets| ==> targets[i] != targets[j]
    ensures var (ctr', plan) := PlanTargets(c, ctr, id, kind, payload, dest, targets);
      && plan.Ok? && ctr' == Advance(ctr, |targets|)
      && Covers(c, ctr, id, kind, payload, dest, targets, plan.value)
    decreases |targets|
  {
    hide PlanTarget, Carries, Outgoing, Alloc;
    if targets != [] {
      hide Covers, Advance;
      var (ctr1, first) := PlanTarget(c, ctr, id, kind, payload, dest, targets[0]);
      PlanTargetCorrect(c, ctr, id, kind, payload, dest, targets[0]);
      PlanTargetsCorrect(c, ctr1, id, kind, payload, dest, targets[1..]);
      AllocStep(c.idBase, ctr, |targets| - 1);
      CoversMore(c, ctr, id, kind, payload, dest, targets, first.value,
                 PlanTargets(c, ctr1, id, kind, payload, dest, targets[1..]).1.value);
    }
  }

  /** The targets are served one after the other. */
  lemma {:induction false} PlanTargetsOrdered(c: Config, ctr: u32, id: u32, kind: MsgKind, payload: seq<u8>,
                                              dest: Destination, targets: seq<Transport>)
    requires |payload| <= MAX_PAYLOAD && Ascending(targets)
    ensures var plan := PlanTargets(c, ctr, id, kind, payload, dest, targets).1;
      && plan.Ok? && InTransportOrder(plan.value)
      && forall p <- plan.value :: p.transport in targets
    decreases |targets|
  {
    hide PlanTarget, Carries, Outgoing, Alloc, Rank, On;
    if targets != [] {
      var (ctr1, first) := PlanTarget(c, ctr, id, kind, payload, dest, targets[0]);
      PlanTargetCorrect(c, ctr, id, kind, payload, dest, targets[0]);
      PlanTargetsOrdered(c, ctr1, id, kind, payload, dest, targets[1..]);
      var rest := PlanTargets(c, ctr1, id, kind, payload, dest, targets[1..]).1.value;
      assert forall p <- first.value :: p.transport == targets[0];
      assert forall p <- rest :: Rank(targets[0]) < Rank(p.transport);
    }
  }

  // ---- The ids of one plan ----

  /** All frames carry this message id; no split uses it as its group id, nor the group id of another. */
  ghost predicate IdsApart(plan: seq<PlannedFrame>, id: u32) {
    && (forall p <- plan :: p.message.id == id && (p.message.frag.Some? ==> p.message.frag.value.groupId != id))
    && (forall p, q ::
          (p in plan && q in plan && p.transport != q.transport && p.message.frag.Some? && q.message.frag.Some?) ==>
          p.message.frag.value.groupId != q.message.frag.value.groupId)
  }

  lemma {:induction false} PositionsDiffer(ts: seq<Transport>, t: Transport, u: Transport)
    requires t in ts && u in ts && t != u
    ensures Position(ts, t) != Position(ts, u)
  {
    if ts[0] != t && ts[0] != u {
      PositionsDiffer(ts[1..], t, u);
    }
  }

  /** A planned frame has the message's id, and as a fragment the group id drawn for its transport. */
  lemma {:induction false} FrameIds(c: Config, ctr: nat, id: u32, kind: MsgKind, payload: seq<u8>, dest: Destination,
                                    targets: seq<Transport>, plan: seq<PlannedFrame>, p: PlannedFrame)
    requires Covers(c, ctr, id, kind, payload, dest, targets, plan) && p in plan
    ensures p.transport in targets && p.message.id == id
    ensures p.message.frag.Some? ==>
              p.message.frag.value.groupId == Alloc(c.idBase, ctr + Position(targets, p.transport))
  {
    hide Alloc, On;
    Listed(plan, p);
  }

  lemma PlanIdsApart(c: Config, ctr: nat, kind: MsgKind, payload: seq<u8>, dest: Destination,
                                        targets: seq<Transport>, plan: seq<PlannedFrame>)
    requires Covers(c, ctr + 1, Alloc(c.idBase, ctr), kind, payload, dest, targets, plan) && |targets| <= 3
    ensures IdsApart(plan, Alloc(c.idBase, ctr))
  {
    hide Covers, Alloc;
    var id := Alloc(c.idBase, ctr);
    forall p | p in plan
      ensures p.message.id == id && (p.message.frag.Some? ==> p.message.frag.value.groupId != id)
    {
      FrameIds(c, ctr + 1, id, kind, payload, dest, targets, plan, p);
      PositionBound(targets, p.transport);
      AllocInjective(c.idBase, ctr, 0, 1 + Position(targets, p.transport));
    }
    forall p, q | p in plan && q in plan && p.transport != q.transport && p.message.frag.Some? && q.message.frag.Some?
      ensures p.message.frag.value.groupId != q.message.frag.value.groupId
    {
      FrameIds(c, ctr + 1, id, kind, payload, dest, targets, plan, p);
      FrameIds(c, ctr + 1, id, kind, payload, dest, targets, plan, q);
      PositionBound(targets, p.transport);
      PositionBound(targets, q.transport);
      PositionsDiffer(targets, p.transport, q.transport);
      AllocDiffers(c.idBase, ctr + 1, Position(targets, p.transport), Position(targets, q.transport));
    }
  }

  /**
   A send succeeds exactly when there are targets and the payload fits one message. The
   plan then goes out on exactly the registered transports, for unicast those among them
   on which the peer is reachable, in the fixed order of transports; on each it carries the
   whole message within the mtu; all frames share one message id, and the splits for
   different transports have group ids different from it and from each other.
   */
  lemma PlanSendCorrect(c: Config, s: State, kind: MsgKind, payload: seq<u8>, dest: Destination)
    ensures var (s', plan) := PlanSend(c, s, kind, payload, dest);
      match Targets(s, dest)
      case Err(e) => plan == Err(e) && s' == s
      case Ok(targets) =>
        if |payload| > MAX_PAYLOAD then
          plan == Err(Protocol(PayloadTooLarge)) && s' == s.(idCtr := Advance(s.idCtr, 1))
        else
          && plan.Ok? && s' == s.(idCtr := Advance(s.idCtr, 1 + |targets|))
          && Covers(c, s.idCtr + 1, Alloc(c.idBase, s.idCtr), kind, payload, dest, targets, plan.value)
          && InTransportOrder(plan.value)
          && IdsApart(plan.value, Alloc(c.idBase, s.idCtr))
  {
    hide PlanTargets, Covers, Advance, Alloc, InOrder, Ascending, InTransportOrder, IdsApart;
    if Targets(s, dest).Ok? {
      var targets := Targets(s, dest).value;
      TargetsDistinct(s, dest);
      if |payload| <= MAX_PAYLOAD {
        var ctr, id := Advance(s.idCtr, 1), Alloc(c.idBase, s.idCtr);
        var plan := PlanSend(c, s, kind, payload, dest).1;
        PlanTargetsCorrect(c, ctr, id, kind, payload, dest, targets);
        PlanTargetsOrdered(c, ctr, id, kind, payload, dest, targets);
        AllocStep(c.idBase, s.idCtr, |targets|);
        CoversFrom(c, s.idCtr, id, kind, payload, dest, targets, plan.value);
        PlanIdsApart(c, s.idCtr, kind, payload, dest, targets, plan.value);
      } else {
        TooLarge(c, Advance(s.idCtr, 1), Alloc(c.idBase, s.idCtr), kind, payload, dest, targets);
      }
    }
  }

  lemma CoversFrom(c: Config, ctr: u32, id: u32, kind: MsgKind, payload: seq<u8>, dest: Destination,
                   targets: seq<Transport>, plan: seq<PlannedFrame>)
    requires Covers(c, Advance(ctr, 1), id, kind, payload, dest, targets, plan)
    ensures Covers(c, ctr + 1, id, kind, payload, dest, targets, plan)
  {
    hide Carries, Outgoing, Alloc, Advance, On;
    forall t <- targets
      ensures Alloc(c.idBase, Advance(ctr, 1) + Position(targets, t)) == Alloc(c.idBase, ctr + 1 + Position(targets, t))
    {
      AllocStep(c.idBase, ctr, Position(targets, t));
    }
  }

  lemma {:induction false} TooLarge(c: Config, ctr: u32, id: u32, kind: MsgKind, payload: seq<u8>, dest: Destination,
                 targets: seq<Transport>)
    requires targets != [] && |payload| > MAX_PAYLOAD
    ensures PlanTargets(c, ctr, id, kind, payload, dest, targets) == (ctr, Err(Protocol(PayloadTooLarge)))
  {
  }

  /** The targets are what the destination asks for, each once, in the fixed order, and there is at least one. */
  lemma TargetsDistinct(s: State, dest: Destination)
    ensures Targets(s, dest).Ok? ==>
              var ts := Targets(s, dest).value;
              && 0 < |ts| <= 3 && Ascending(ts)
              && (forall i, j :: 0 <= i < j < |ts| ==> ts[i] != ts[j])
              && (forall t :: t in ts <==>
                   t in s.registered && (dest.Unicast? ==> dest.addr in s.peers && t in s.peers[dest.addr]))
  {
    if Targets(s, dest).Ok? {
      var keep := if dest.Broadcast? then s.registered else s.peers[dest.addr] * s.registered;
      InOrderMembers(keep);
      InOrderAscends(keep);
      var t :| t in keep;
      assert t in InOrder(keep);
    }
  }

  /**
   Whether a message can be sent: some port must be registered, and a single peer must be
   known on one of the registered transports; otherwise, the error that says which is missing.
   */
  lemma TargetsDecided(s: State, dest: Destination)
    ensures Targets(s, dest) == Err(NoPortsRegistered) <==> forall t: Transport :: t !in s.registered
    ensures Targets(s, dest) == Err(UnknownReceiver) <==>
              && (exists t: Transport :: t in s.registered)
              && dest.Unicast?
              && (dest.addr in s.peers ==> forall t :: t in s.peers[dest.addr] ==> t !in s.registered)
    ensures Targets(s, dest).Ok? <==>
              && (exists t: Transport :: t in s.registered)
              && (dest.Unicast? ==>
                   dest.addr in s.peers && exists t :: t in s.peers[dest.addr] && t in s.registered)
  {
    hide InOrder;
    assert s.registered == {} <==> forall t: Transport :: t !in s.registered;
    if dest.Unicast? && dest.addr in s.peers {
      var both := s.peers[dest.addr] * s.registered;
      if both == {} {
        forall t | t in s.peers[dest.addr]
          ensures t !in s.registered
        {
          assert t !in both;
        }
      } else {
        var t :| t in both;
        assert t in s.peers[dest.addr] && t in s.registered;
      }
    }
  }

  lemma InOrderAscends(keep: set<Transport>)
    ensures Ascending(InOrder(keep))
  {
    assert Rank(Lora) == 0 && Rank(Mqtt) == 1 && Rank(EspNow) == 2;
  }

  /**
   The headers of a send: a broadcast goes to the broadcast address and to everyone on the
   network, a message for one peer to that peer; all carry the own address as sender, four
   hops, the kind, and the transport they are planned for.
   */
  lemma SendHeaders(c: Config, s: State, kind: MsgKind, payload: seq<u8>, dest: Destination)
    ensures var plan := PlanSend(c, s, kind, payload, dest).1;
      plan.Ok? ==> forall p <- plan.value ::
        && p.addr == (match dest case Broadcast => ToAll case Unicast(a) => ToPeer(a))
        && p.message.to == (match dest case Broadcast => [0xFF, 0xFF, 0xFF, 0xFF, 0xFF, 0xFF] case Unicast(a) => a)
        && p.message.from == c.selfAddr && p.message.ttl == 4 && p.message.kind == kind
        && p.message.origin == p.transport
  {
    hide PlanSend, Targets, On, Alloc, InTransportOrder, IdsApart, Covers;
    PlanSendCorrect(c, s, kind, payload, dest);
    var plan := PlanSend(c, s, kind, payload, dest).1;
    if plan.Ok? {
      var targets := Targets(s, dest).value;
      forall p | p in plan.value
        ensures p.addr == NetAddr(dest)
        ensures p.message == Outgoing(c, Alloc(c.idBase, s.idCtr), kind, payload, dest, p.transport).(
                               payload := p.message.payload, frag := p.message.frag)
      {
        FrameHeader(c, s.idCtr + 1, Alloc(c.idBase, s.idCtr), kind, payload, dest, targets, plan.value, p);
      }
    }
  }

  lemma FrameHeader(c: Config, ctr: nat, id: u32, kind: MsgKind, payload: seq<u8>, dest: Destination,
                    targets: seq<Transport>, plan: seq<PlannedFrame>, p: PlannedFrame)
    requires Covers(c, ctr, id, kind, payload, dest, targets, plan) && p in plan
    ensures p.addr == NetAddr(dest)
    ensures p.message == Outgoing(c, id, kind, payload, dest, p.transport).(
                           payload := p.message.payload, frag := p.message.frag)
  {
    hide Alloc, On, Outgoing, F.Joined;
    Listed(plan, p);
  }

  /**
   A forward plan is empty exactly when the hops are spent, and then draws nothing.
   Otherwise it draws a group id and carries the message with one hop less; a message that
   is a fragment already is passed on as it is.
   */
  lemma {:induction false} PlanForwardCorrect(c: Config, s: State, msg: Message, target: Transport)
    requires msg.WellSized()
    ensures var (s', plan) := PlanForward(c, s, msg, target);
      && plan.Ok?
      && (plan.value == [] <==> msg.ttl == 0)
      && s' == (if msg.ttl == 0 then s else s.(idCtr := Advance(s.idCtr, 1)))
      && (forall p <- plan.value :: p.transport == target && p.addr == ForwardAddr(msg))
      && |plan.value| <= (if target == Lora then 2 else 1)
      && (msg.ttl > 0 ==>
           var relayed := msg.(ttl := msg.ttl - 1);
           if msg.frag.Some? then plan.value == [PlannedFrame(target, ForwardAddr(msg), relayed)]
           else Carries(On(plan.value, target), relayed, F.Mtu(target), Alloc(c.idBase, s.idCtr)))
  {
    hide F.IsSplit, Alloc, Advance, F.Mtu, F.Slices;
    if msg.ttl > 0 {
      var relayed, group := msg.(ttl := msg.ttl - 1), Alloc(c.idBase, s.idCtr);
      MtuPositive(target);
      if msg.frag.None? {
        hide F.SplitAt;
        F.SplitCorrect(relayed, F.Mtu(target), group);
        F.RealTransportsSplit(relayed, target, group);
        OnPlanned(F.SplitAt(relayed, F.Mtu(target), group).value, target, ForwardAddr(relayed), target);
      }
    }
  }

  lemma MtuPositive(t: Transport)
    ensures F.Mtu(t) > 0
  {
  }

  /**
   The headers of a forward: a broadcast goes on to everyone, any other message to the peer it
   is addressed to, over the target only; but for the hop spent, the header is as it was.
   */
  lemma ForwardHeaders(c: Config, s: State, msg: Message, target: Transport)
    requires msg.WellSized()
    ensures forall p <- PlanForward(c, s, msg, target).1.value ::
              && p.transport == target
              && p.addr == (if msg.to == [0xFF, 0xFF, 0xFF, 0xFF, 0xFF, 0xFF] then ToAll else ToPeer(msg.to))
              && p.message == msg.(ttl := p.message.ttl, payload := p.message.payload, frag := p.message.frag)
              && p.message.ttl + 1 == msg.ttl
  {
    hide PlanForward, Alloc, F.Joined, F.Mtu, On;
    PlanForwardCorrect(c, s, msg, target);
    var plan := PlanForward(c, s, msg, target).1.value;
    forall p | p in plan
      ensures msg.ttl > 0
      ensures p.message == msg.(ttl := msg.ttl - 1, payload := p.message.payload, frag := p.message.frag)
    {
      Listed(plan, p);
    }
  }

  /**
   Having heard a peer on a registered transport, the relay can send to it there, provided
   the peer was known or the table had room.
   */
  lemma HeardPeerIsReachable(c: Config, s: State, source: Transport, m: Message)
    requires m.from != BROADCAST_ADDR && m.from != c.selfAddr && source in s.registered
    requires m.from in s.peers || |s.peers| < c.peersMax
    ensures var s' := IngestMessage(c, s, source, m).0;
      Targets(s', Unicast(m.from)).Ok? && source in Targets(s', Unicast(m.from)).value
  {
    hide R.Ingest;
    var s' := IngestMessage(c, s, source, m).0;
    assert source in s'.peers[m.from] * s'.registered;
    InOrderMembers(s'.peers[m.from] * s'.registered);
  }

  // ---- Fresh ids ----

  /** The calls that draw ids. */
  datatype Call =
    | NextId
    | Send(kind: MsgKind, payload: seq<u8>, dest: Destination)
    | Forward(msg: Message, target: Transport)

  function After(c: Config, s: State, call: Call): State {
    match call
    case NextId => s.(idCtr := Advance(s.idCtr, 1))
    case Send(kind, payload, dest) => PlanSend(c, s, kind, payload, dest).0
    case Forward(msg, target) => PlanForward(c, s, msg, target).0
  }

  function Plan(c: Config, s: State, call: Call): seq<PlannedFrame> {
    var r := match call
      case NextId => Ok([])
      case Send(kind, payload, dest) => PlanSend(c, s, kind, payload, dest).1
      case Forward(msg, target) => PlanForward(c, s, msg, target).1;
    if r.Ok? then r.value else []
  }

  /** How many ids a call draws. */
  function Draws(s: State, call: Call): nat {
    match call
    case NextId => 1
    case Send(_, payload, dest) =>
      (match Targets(s, dest)
       case Err(_) => 0
       case Ok(targets) => if |payload| > MAX_PAYLOAD then 1 else 1 + |targets|)
    case Forward(msg, _) => if msg.ttl == 0 then 0 else 1
  }

  lemma CallDraws(c: Config, s: State, call: Call)
    ensures After(c, s, call).idCtr == Advance(s.idCtr, Draws(s, call))
  {
    hide PlanSend, Covers, Carries, Targets, Outgoing, InTransportOrder, IdsApart;
    if call.Send? {
      PlanSendCorrect(c, s, call.kind, call.payload, call.dest);
    }
  }

  /** `g` is the r-th id a call draws. */
  ghost predicate Draw(c: Config, s: State, call: Call, g: u32, r: nat) {
    r < Draws(s, call) && g == Alloc(c.idBase, s.idCtr + r)
  }

  lemma {:induction false} Listed(plan: seq<PlannedFrame>, p: PlannedFrame)
    requires p in plan
    ensures p.message in On(plan, p.transport)
    decreases |plan|
  {
    if plan[0] != p {
      Listed(plan[1..], p);
    }
  }

  lemma {:induction false} PositionBound(ts: seq<Transport>, t: Transport)
    requires t in ts
    ensures Position(ts, t) < |ts|
  {
    if ts[0] != t { PositionBound(ts[1..], t); }
  }

  /** Which of its draws a call uses as group id on transport `t`. */
  function GroupDraw(s: State, call: Call, t: Transport): nat {
    if call.Send? && Targets(s, call.dest).Ok? then 1 + Position(Targets(s, call.dest).value, t) else 0
  }

  /** What `plan_forward` does not slice anew: a message that is a fragment already. */
  predicate PassesOn(call: Call) {
    call.Forward? && call.msg.frag.Some?
  }

  /** The group id on every fragment a call makes is one that this very call has drawn for that transport. */
  lemma GroupsAreDrawn(c: Config, s: State, call: Call, p: PlannedFrame)
    requires !PassesOn(call) && p in Plan(c, s, call) && p.message.frag.Some?
    ensures Draw(c, s, call, p.message.frag.value.groupId, GroupDraw(s, call, p.transport))
  {
    match call
    case NextId =>
    case Send(kind, payload, dest) => SendIdsDrawn(c, s, call, p);
    case Forward(msg, target) => ForwardGroupDrawn(c, s, call, p);
  }

  /** A send uses its first draw as the message id, and the others as group ids. */
  lemma SendIdsDrawn(c: Config, s: State, call: Call, p: PlannedFrame)
    requires call.Send? && p in Plan(c, s, call)
    ensures Draw(c, s, call, p.message.id, 0)
    ensures p.message.frag.Some? ==>
              Draw(c, s, call, p.message.frag.value.groupId, GroupDraw(s, call, p.transport))
  {
    hide PlanSend, Targets, Alloc, Advance, On, Covers, InTransportOrder, IdsApart;
    PlanSendCorrect(c, s, call.kind, call.payload, call.dest);
    var targets := Targets(s, call.dest).value;
    var id := Alloc(c.idBase, s.idCtr);
    FrameIds(c, s.idCtr + 1, id, call.kind, call.payload, call.dest, targets, Plan(c, s, call), p);
    PositionBound(targets, p.transport);
  }

  lemma ForwardGroupDrawn(c: Config, s: State, call: Call, p: PlannedFrame)
    requires call.Forward? && !PassesOn(call) && p in Plan(c, s, call) && p.message.frag.Some?
    ensures Draw(c, s, call, p.message.frag.value.groupId, 0)
  {
    hide Alloc, Advance;
    F.SplitCorrect(call.msg.(ttl := call.msg.ttl - 1), F.Mtu(call.target), Alloc(c.idBase, s.idCtr));
  }

  /** Ids drawn up to call `n` of a history; between calls anything but the counter may change. */
  ghost function Total(states: seq<State>, calls: seq<Call>, n: nat): nat
    requires n <= |calls| && |states| >= n
  {
    if n == 0 then 0 else Total(states, calls, n - 1) + Draws(states[n - 1], calls[n - 1])
  }

  ghost predicate History(c: Config, states: seq<State>, calls: seq<Call>) {
    && |states| == |calls|
    && forall i :: 0 < i < |calls| ==> states[i].idCtr == After(c, states[i - 1], calls[i - 1]).idCtr
  }

  lemma {:induction false} CounterAt(c: Config, states: seq<State>, calls: seq<Call>, n: nat)
    requires History(c, states, calls) && n < |calls|
    ensures states[n].idCtr == Advance(states[0].idCtr, Total(states, calls, n))
  {
    if n > 0 {
      hide After, Draws, Advance;
      CounterAt(c, states, calls, n - 1);
      CallDraws(c, states[n - 1], calls[n - 1]);
      AdvanceTwice(states[0].idCtr, Total(states, calls, n - 1), Draws(states[n - 1], calls[n - 1]));
    } else {
      assert Advance(states[0].idCtr, 0) == states[0].idCtr;
    }
  }

  lemma AdvanceTwice(ctr: u32, n: nat, m: nat)
    ensures Advance(Advance(ctr, n), m) == Advance(ctr, n + m)
  {
    Wrap(ctr + n, m);
  }

  lemma {:induction false} TotalGrows(states: seq<State>, calls: seq<Call>, i: nat, j: nat)
    requires i <= j <= |calls| == |states|
    ensures Total(states, calls, i) <= Total(states, calls, j)
  {
    hide Draws;
    if i < j { TotalGrows(states, calls, i, j - 1); }
  }

  lemma AllocInjective(base: u32, ctr: nat, a: nat, b: nat)
    requires a < b && b - a < 0x1_0000_0000
    ensures Alloc(base, ctr + a) != Alloc(base, ctr + b)
  {
    RemaindersDiffer(base + ctr + a, base + ctr + b);
  }

  lemma AllocDiffers(base: u32, ctr: nat, a: nat, b: nat)
    requires a != b && a < 0x1_0000_0000 && b < 0x1_0000_0000
    ensures Alloc(base, ctr + a) != Alloc(base, ctr + b)
  {
    hide Alloc;
    if a < b {
      AllocInjective(base, ctr, a, b);
    } else {
      AllocInjective(base, ctr, b, a);
    }
  }

  lemma RemaindersDiffer(x: nat, y: nat)
    requires x < y < x + 0x1_0000_0000
    ensures x % 0x1_0000_0000 != y % 0x1_0000_0000
  {
    var qx, qy := x / 0x1_0000_0000, y / 0x1_0000_0000;
    assert qy == qx || qy == qx + 1;
  }

  /** The number of a draw in the whole history; the draw gives the id that far from the first. */
  lemma DrawNumber(c: Config, states: seq<State>, calls: seq<Call>, i: nat, g: u32, r: nat)
    requires History(c, states, calls) && i < |calls| && Draw(c, states[i], calls[i], g, r)
    ensures g == Alloc(c.idBase, states[0].idCtr + (Total(states, calls, i) + r))
    ensures Total(states, calls, i) + r < Total(states, calls, i + 1) <= Total(states, calls, |calls|)
  {
    hide Draws, After, Alloc, Advance;
    CounterAt(c, states, calls, i);
    TotalGrows(states, calls, i + 1, |calls|);
    AllocAfter(c.idBase, states[0].idCtr, Total(states, calls, i), r);
  }

  lemma AllocAfter(base: u32, ctr: u32, n: nat, r: nat)
    ensures Alloc(base, Advance(ctr, n) + r) == Alloc(base, ctr + n + r)
  {
    Wrap(ctr + n, base + r);
  }

  /**
   Freshness: in any history of calls that draws at most 2^32 ids, any two draws, of one
   call or of two, give different ids, although the counter wraps.
   */
  lemma {:induction false} DrawnIdsFresh(c: Config, states: seq<State>, calls: seq<Call>,
                                         i: nat, g: u32, r: nat, j: nat, h: u32, q: nat)
    requires History(c, states, calls) && i < |calls| && j < |calls|
    requires Total(states, calls, |calls|) <= 0x1_0000_0000
    requires Draw(c, states[i], calls[i], g, r) && Draw(c, states[j], calls[j], h, q)
    requires i != j || r != q
    ensures g != h
  {
    hide Draw, Alloc, After;
    DrawNumber(c, states, calls, i, g, r);
    DrawNumber(c, states, calls, j, h, q);
    if i < j {
      TotalGrows(states, calls, i + 1, j);
    } else if j < i {
      TotalGrows(states, calls, j + 1, i);
    }
    AllocDiffers(c.idBase, states[0].idCtr, Total(states, calls, i) + r, Total(states, calls, j) + q);
  }

  /**
   So in such a history fragments of different splits, whether for two transports in one
   call or of two calls, never share a group id, and no split has the message id of any
   send as its group id.
   */
  lemma {:induction false} SplitsNeverShareGroup(c: Config, states: seq<State>, calls: seq<Call>,
                                                 i: nat, p: PlannedFrame, j: nat, q: PlannedFrame)
    requires History(c, states, calls) && i < |calls| && j < |calls|
    requires Total(states, calls, |calls|) <= 0x1_0000_0000
    requires p in Plan(c, states[i], calls[i]) && p.message.frag.Some? && !PassesOn(calls[i])
    requires q in Plan(c, states[j], calls[j]) && !PassesOn(calls[j])
    ensures q.message.frag.Some? && (i != j || p.transport != q.transport) ==>
              p.message.frag.value.groupId != q.message.frag.value.groupId
    ensures calls[j].Send? ==> p.message.frag.value.groupId != q.message.id
  {
    hide Plan, After, Draw, Total, GroupDraw;
    var g, r := p.message.frag.value.groupId, GroupDraw(states[i], calls[i], p.transport);
    GroupsAreDrawn(c, states[i], calls[i], p);
    if q.message.frag.Some? && (i != j || p.transport != q.transport) {
      GroupsAreDrawn(c, states[j], calls[j], q);
      if i == j {
        GroupDrawsDiffer(c, states[i], calls[i], p, q);
      }
      DrawnIdsFresh(c, states, calls, i, g, r, j, q.message.frag.value.groupId,
                    GroupDraw(states[j], calls[j], q.transport));
    }
    if calls[j].Send? {
      if i == j {
        NotMessageId(c, states[i], calls[i], p);
      }
      SendIdsDrawn(c, states[j], calls[j], q);
      DrawnIdsFresh(c, states, calls, i, g, r, j, q.message.id, 0);
    }
  }

  /** Two sends never use the same message id. */
  lemma {:induction false} SendsNeverShareId(c: Config, states: seq<State>, calls: seq<Call>,
                                             i: nat, p: PlannedFrame, j: nat, q: PlannedFrame)
    requires History(c, states, calls) && i < |calls| && j < |calls| && i != j
    requires Total(states, calls, |calls|) <= 0x1_0000_0000
    requires calls[i].Send? && p in Plan(c, states[i], calls[i])
    requires calls[j].Send? && q in Plan(c, states[j], calls[j])
    ensures p.message.id != q.message.id
  {
    hide Plan, After, Draw, Total, GroupDraw;
    SendIdsDrawn(c, states[i], calls[i], p);
    SendIdsDrawn(c, states[j], calls[j], q);
    DrawnIdsFresh(c, states, calls, i, p.message.id, 0, j, q.message.id, 0);
  }

  lemma NotMessageId(c: Config, s: State, call: Call, p: PlannedFrame)
    requires call.Send? && p in Plan(c, s, call)
    ensures GroupDraw(s, call, p.transport) != 0
  {
    hide PlanTargets, Targets;
  }

  /** In one call, frames for different transports use different draws as group ids. */
  lemma GroupDrawsDiffer(c: Config, s: State, call: Call, p: PlannedFrame, q: PlannedFrame)
    requires p in Plan(c, s, call) && q in Plan(c, s, call) && p.transport != q.transport
    ensures GroupDraw(s, call, p.transport) != GroupDraw(s, call, q.transport)
  {
    if call.Send? {
      hide PlanSend, Targets, Alloc, On, Covers, InTransportOrder, IdsApart, Advance;
      PlanSendCorrect(c, s, call.kind, call.payload, call.dest);
      var targets, plan := Targets(s, call.dest).value, Plan(c, s, call);
      FrameIds(c, s.idCtr + 1, Alloc(c.idBase, s.idCtr), call.kind, call.payload, call.dest, targets, plan, p);
      FrameIds(c, s.idCtr + 1, Alloc(c.idBase, s.idCtr), call.kind, call.payload, call.dest, targets, plan, q);
      PositionsDiffer(targets, p.transport, q.transport);
    }
  }
}
