/**
 What can become of real sends: concrete runs, from frames that a sender plans to the
 answers of a fresh receiver, in which the limits of deduplication and reassembly show.
 */
module Outcomes {
  import opened Wrappers
  import opened Proto
  import opened Dedup
  import opened Seen
  import opened RelaySpec
  import opened AtMostOnce
  import opened Transfers
  import opened Versions
  import opened ExactlyOnce
  import opened Planning
  import opened Receivers
  import opened DedupLimits
  import opened EndToEnd
  import opened MultiHop
  import F = Fragmenter
  import R = Reassembly
  import Sums
  import Wire

  // ---- One send in two forms ----

  /** What three arrivals amount to. */
  lemma ThreeArrivals(c: Config, x: Transfer, slice0: Arrival, slice1: Arrival, whole: Arrival)
    requires Sound(c, x) && |x.frames| == 2
    requires IsCopy(slice0, x, 0) && IsCopy(slice1, x, 1) && OtherForm(whole, x)
    ensures AllArrive([whole, slice0, slice1], x) && OtherFirst([whole, slice0, slice1], x)
    ensures AllArrive([slice0, slice1, whole], x) && !OtherFirst([slice0, slice1, whole], x)
    ensures !AllArrive([slice0, whole], x) && !OtherFirst([slice0, whole], x)
  {
    hide IsCopy, OtherForm, IsPart, Sound;
    ArrivingOne(c, slice0, x);
    ArrivingOne(c, slice1, x);
    ArrivingOne(c, whole, x);
    Arrives3(x, whole, slice0, slice1);
    Arrives3(x, slice0, slice1, whole);
    Arrives2(x, slice0, whole);
    OtherFirstHead([whole, slice0, slice1], x);
    OtherFirstHead([slice0, slice1, whole], x);
    OtherFirstHead([slice0, whole], x);
    assert 1 !in Arriving([slice0, whole], x);
  }

  lemma {:induction false} Arrives2(x: Transfer, a: Arrival, b: Arrival)
    ensures Arriving([a, b], x) == Arriving([a], x) + Arriving([b], x)
  {
    ArrivingHead([a, b], x);
    assert [a, b][1..] == [b];
  }

  lemma {:induction false} Arrives3(x: Transfer, a: Arrival, b: Arrival, c: Arrival)
    ensures Arriving([a, b, c], x) == Arriving([a], x) + (Arriving([b], x) + Arriving([c], x))
  {
    ArrivingHead([a, b, c], x);
    assert [a, b, c][1..] == [b, c];
    Arrives2(x, b, c);
  }

  /** A fresh relay meets the conditions for a short run of one message. */
  lemma {:induction false} FromFresh(to: Config, x: Transfer, run: seq<Arrival>)
    requires Sound(to, x) && 1 < |x.frames| < 0x1_0000 && 0 < to.dims.slots && |run| <= SEEN_WINDOW
    requires forall a <- run :: IsPart(a, x) || OtherForm(a, x)
    ensures var (s, rs) := RunRelay(to, FRESH, run);
      && Deliveries(rs, x.whole.id) == (if AllArrive(run, x) || OtherFirst(run, x) then 1 else 0)
      && (AllArrive(run, x) ==> (x.Key() in s.groups <==> OtherFirst(run, x)))
  {
    hide RunRelay, Sound, SlotAvailable, IsPart, OtherForm, AllArrive, OtherFirst, Unrelated, Deliveries, Usable;
    OneSlotServes(to, FRESH, run, x);
    SeenBound(to, FRESH, run);
    FreshIsNew(x);
    DeliveredInEitherForm(to, FRESH, run, x);
    if AllArrive(run, x) {
      SecondFormStrandsSlot(to, FRESH, run, x);
    }
  }

  lemma FreshIsNew(x: Transfer)
    requires |x.frames| < 0x1_0000
    ensures NewTo(FRESH, x)
  {
    hide DedupKey;
  }

  /** 64 ids with the high half of `id` and other low halves. */
  function OtherIds(id: u32): seq<u32> {
    seq(SEEN_WINDOW, (i: nat) requires i < SEEN_WINDOW => id / 0x1_0000 * 0x1_0000 + (id % 0x1_0000 + 1 + i) % 0x1_0000)
  }

  lemma OtherIdsDiffer(id: u32, i: nat, j: nat)
    requires i < SEEN_WINDOW && j < SEEN_WINDOW
    ensures OtherIds(id)[i] % 0x1_0000 != id % 0x1_0000
    ensures i != j ==> OtherIds(id)[i] != OtherIds(id)[j]
  {
    var low := id % 0x1_0000;
    assert OtherIds(id)[i] % 0x1_0000 == (low + 1 + i) % 0x1_0000;
  }

  /** A message of such an id has nothing to do with a transfer of message `id`. */
  lemma OtherIdUnrelated(c: Config, x: Transfer, other: u32)
    requires Sound(c, x) && other % 0x1_0000 != x.whole.id % 0x1_0000
    ensures Unrelated(Unsliced(other), x)
    ensures forall i :: 0 <= i < |x.frames| ==> DedupKey(x.frames[i]) != other
  {
    hide Unsliced, Frame, SliceKey, Sound;
    UnslicedArrives(other);
    PartKeys(c, x);
    FewFrames(c, x);
    SliceZeroKey(other);
    forall i | 0 <= i < |x.frames|
      ensures DedupKey(x.frames[i]) != other
    {
      KeysCollideIff(x.whole.id, i, other, 0);
    }
  }

  /** After a run of one message, 64 messages of such ids are all taken, and push out what was recorded. */
  lemma {:induction false} OthersTaken(c: Config, x: Transfer, run: seq<Arrival>)
    requires Sound(c, x) && forall a <- run :: IsPart(a, x) || OtherForm(a, x)
    ensures var s := RunRelay(c, FRESH, run).0;
      |RunRelay(c, s, UnslicedRun(OtherIds(x.whole.id))).0.seen| == |s.seen| + SEEN_WINDOW
    ensures forall a <- UnslicedRun(OtherIds(x.whole.id)) :: Unrelated(a, x)
  {
    hide RunRelay, Unsliced, OtherIds, Unrelated, Sound, IsPart, OtherForm, Frame, DedupKey, Recent;
    var ids, s := OtherIds(x.whole.id), RunRelay(c, FRESH, run).0;
    OtherIdsSize(x.whole.id);
    forall i | 0 <= i < |ids|
      ensures Unrelated(Unsliced(ids[i]), x) && ids[i] !in s.seen
    {
      OtherIdsDiffer(x.whole.id, i, i);
      OtherIdUnrelated(c, x, ids[i]);
      forall a <- run
        ensures Frame(a).Some? ==> DedupKey(Frame(a).value) != ids[i]
      {
        OwnKey(c, x, a, ids[i]);
      }
      RunRecords(c, FRESH, run, ids[i]);
      assert s.seen[|FRESH.seen|..] == s.seen;
    }
    forall i, j | 0 <= i < j < |ids|
      ensures ids[i] != ids[j]
    {
      OtherIdsDiffer(x.whole.id, i, j);
    }
    DistinctAreNew(s.seen, ids);
    AllTaken(c, s, ids);
  }

  lemma OtherIdsSize(id: u32)
    ensures |OtherIds(id)| == SEEN_WINDOW
  {
  }

  lemma OwnKey(c: Config, x: Transfer, a: Arrival, key: u32)
    requires Sound(c, x) && (IsPart(a, x) || OtherForm(a, x))
    requires forall i :: 0 <= i < |x.frames| ==> DedupKey(x.frames[i]) != key
    ensures Frame(a).Some? && DedupKey(Frame(a).value) != key
  {
    hide Wire.DecodeMessage, Sound, SliceKey;
    FirstKey(c, x);
    if OtherForm(a, x) {
      WholeKey(Frame(a).value);
    }
  }

  lemma DistinctAreNew(seen: seq<u32>, ids: seq<u32>)
    requires forall i :: 0 <= i < |ids| ==> ids[i] !in seen
    requires forall i, j :: 0 <= i < j < |ids| ==> ids[i] != ids[j]
    ensures AlwaysNew(seen, ids)
  {
    forall i | 0 <= i < |ids|
      ensures ids[i] !in Recent(seen + ids[..i], SEEN_WINDOW)
    {
      assert ids[i] !in seen + ids[..i];
      assert forall key <- Recent(seen + ids[..i], SEEN_WINDOW) :: key in seen + ids[..i];
    }
  }

  /**
   One send, one fresh receiver, four outcomes: the message in one piece first, and its slot
   stays taken; the slices first, and everything is cleared up; the first slice and then the
   message in one piece, and it is not delivered although it arrived whole; and, after the
   first of these, 64 other messages and a late copy of the first slice, which frees the slot
   and delivers the message a second time.
   */
  lemma {:induction false} OneSendFourOutcomes(x: Sent, t: Transport, to: Config)
    requires x.Succeeds() && x.over == Lora && |x.payload| > Lora.MaxPayload()
    requires t != Lora && t in Targets(x.s, x.dest).value
    requires 2 <= to.dims.perSlot && 0 < to.dims.slots
    ensures |x.Frames()| == 2 == |x.Arriving().frames|
    ensures var (s, rs) := RunRelay(to, FRESH, [OnePiece(x, t), Slice(x, 0), Slice(x, 1)]);
      Deliveries(rs, x.Whole().id) == 1 && x.Arriving().Key() in s.groups
    ensures var (s, rs) := RunRelay(to, FRESH, [Slice(x, 0), Slice(x, 1), OnePiece(x, t)]);
      Deliveries(rs, x.Whole().id) == 1 && x.Arriving().Key() !in s.groups
    ensures var (s, rs) := RunRelay(to, FRESH, [Slice(x, 0), OnePiece(x, t)]);
      Deliveries(rs, x.Whole().id) == 0
    ensures var run := [OnePiece(x, t), Slice(x, 0), Slice(x, 1)] + UnslicedRun(OtherIds(x.Whole().id)) + [Slice(x, 0)];
      var (s, rs) := RunRelay(to, FRESH, run);
      Deliveries(rs, x.Whole().id) == 2 && x.Arriving().Key() !in s.groups
  {
    hide RunRelay, Targets, PlanSend, Deliveries, Sent.Arriving, Sent.Whole, IsCopy, OtherForm, Sound;
    hide AllArrive, OtherFirst, Slice, OnePiece;
    BothFormsSent(x, t, to);
    var s0, s1, w := Slice(x, 0), Slice(x, 1), OnePiece(x, t);
    ThreeArrivals(to, x.Arriving(), s0, s1, w);
    FromFresh(to, x.Arriving(), [w, s0, s1]);
    FromFresh(to, x.Arriving(), [s0, s1, w]);
    FromFresh(to, x.Arriving(), [s0, w]);
    SecondDelivery(to, x.Arriving(), [w, s0, s1], s0);
  }

  /** A run that strands a slot, then other messages, then the first slice again. */
  lemma {:induction false} SecondDelivery(to: Config, x: Transfer, run: seq<Arrival>, slice0: Arrival)
    requires Sound(to, x) && 1 < |x.frames| < 0x1_0000 && 0 < to.dims.slots && |run| <= SEEN_WINDOW
    requires forall a <- run :: IsPart(a, x) || OtherForm(a, x)
    requires AllArrive(run, x) && OtherFirst(run, x) && IsCopy(slice0, x, 0)
    ensures var (s, rs) := RunRelay(to, FRESH, run + UnslicedRun(OtherIds(x.whole.id)) + [slice0]);
      Deliveries(rs, x.whole.id) == 2 && x.Key() !in s.groups
  {
    hide RunRelay, Sound, SlotAvailable, IsPart, OtherForm, AllArrive, OtherFirst, Unrelated, Deliveries, UnslicedRun;
    hide NewTo, IsCopy, Recent;
    OneSlotServes(to, FRESH, run, x);
    SeenBound(to, FRESH, run);
    FreshIsNew(x);
    OthersTaken(to, x, run);
    RunJoined(to, FRESH, run, UnslicedRun(OtherIds(x.whole.id)));
    LateSliceDeliversAgain(to, FRESH, run, UnslicedRun(OtherIds(x.whole.id)), slice0, x);
  }

  // ---- A relay that runs out of slots ----

  /** A node with only LoRa registered, after `i` sliced sends of two ids each. */
  function SenderAt(i: nat): State
    requires 2 * i < 0x1_0000_0000
  {
    FRESH.(registered := {Lora}, idCtr := 2 * i)
  }

  /** Its next send. */
  function NthSend(from: Config, payload: seq<u8>, i: nat): Sent
    requires 2 * i < 0x1_0000_0000
  {
    Sent(from, SenderAt(i), Text, payload, Broadcast, Lora)
  }

  lemma SendsFollow(from: Config, payload: seq<u8>, i: nat)
    requires 2 * i + 2 < 0x1_0000_0000 && Lora.MaxPayload() < |payload| <= MAX_PAYLOAD
    ensures NthSend(from, payload, i).Succeeds()
    ensures PlanSend(from, SenderAt(i), Text, payload, Broadcast).0 == SenderAt(i + 1)
    ensures var x := NthSend(from, payload, i);
      && |x.Frames()| == 2
      && x.Frames()[0].id == Alloc(from.idBase, 2 * i) && x.Frames()[0].WellSized() && x.Frames()[0].origin == Lora
      && x.Frames()[0].frag == Some(Fragment(Alloc(from.idBase, 2 * i + 1), 0, 2))
  {
    hide PlanSend, Alloc, Carries;
    var x := NthSend(from, payload, i);
    OnlyLora(SenderAt(i));
    PlanSendCorrect(from, x.s, x.kind, payload, Broadcast);
    TwoSlices(x);
    FramesCarry(x);
    FirstFrame(x.Frames(), x.Whole(), x.Arriving().group);
  }

  lemma OnlyLora(s: State)
    requires s.registered == {Lora}
    ensures Targets(s, Broadcast) == Ok([Lora])
  {
    assert InOrder(s.registered) == [Lora];
  }

  lemma FirstFrame(frames: seq<Message>, whole: Message, group: u32)
    requires Carries(frames, whole, F.Mtu(Lora), group) && |frames| == 2
    ensures frames[0].id == whole.id && frames[0].WellSized() && frames[0].origin == whole.origin
    ensures frames[0].frag == Some(Fragment(group, 0, 2))
  {
    hide F.Joined;
  }

  /** The first slice of the i-th send, as it arrives. */
  function Opener(from: Config, payload: seq<u8>, i: nat): Arrival
    requires 2 * i < 0x1_0000_0000
  {
    var frames := NthSend(from, payload, i).Frames();
    Arrival(Lora, if frames == [] then [] else Wire.Encode(frames[0]))
  }

  lemma OpenerArrives(from: Config, payload: seq<u8>, i: nat)
    requires 2 * i + 2 < 0x1_0000_0000 && Lora.MaxPayload() < |payload| <= MAX_PAYLOAD
    ensures var m := Frame(Opener(from, payload, i));
      && m.Some? && m.value.WellSized() && DedupKey(m.value) == Alloc(from.idBase, 2 * i)
      && m.value.frag == Some(Fragment(Alloc(from.idBase, 2 * i + 1), 0, 2))
  {
    hide SliceKey, Alloc, PlanSend, Targets, Wire.Encode, Wire.DecodeMessage;
    SendsFollow(from, payload, i);
    var m := NthSend(from, payload, i).Frames()[0];
    SliceZeroKey(m.id);
    EncodedFrame(m);
  }

  function Openers(from: Config, payload: seq<u8>, n: nat): seq<Arrival>
    requires 2 * n <= 0x1_0000_0000
  {
    seq(n, (i: nat) requires i < n => Opener(from, payload, i))
  }

  ghost predicate GroupsOf(g: R.Groups, base: u32, n: nat) {
    |g| == n && forall k :: k in g ==> exists i: nat :: i < n && k.group == Alloc(base, 2 * i + 1)
  }

  ghost predicate KeysOf(seen: seq<u32>, base: u32, n: nat) {
    forall key <- seen :: exists i: nat :: i < n && key == Alloc(base, 2 * i)
  }

  /** The groups of sends 0 to n - 1 are open, and only their keys were recorded. */
  ghost predicate Opened(s: State, base: u32, n: nat) {
    GroupsOf(s.groups, base, n) && KeysOf(s.seen, base, n)
  }

  lemma NextIsNew(s: State, base: u32, n: nat)
    requires Opened(s, base, n) && 2 * n + 2 < 0x1_0000_0000
    ensures Alloc(base, 2 * n) !in Recent(s.seen, SEEN_WINDOW)
    ensures R.Key(Alloc(base, 2 * n + 1), 2) !in s.groups
  {
    hide Alloc;
    forall i: nat | i < n
      ensures Alloc(base, 2 * i) != Alloc(base, 2 * n) && Alloc(base, 2 * i + 1) != Alloc(base, 2 * n + 1)
    {
      AllocDiffers(base, 0, 2 * i, 2 * n);
      AllocDiffers(base, 0, 2 * i + 1, 2 * n + 1);
    }
    assert forall key <- Recent(s.seen, SEEN_WINDOW) :: key in s.seen;
  }

  lemma OneMoreOpened(c: Config, s: State, from: Config, payload: seq<u8>, n: nat)
    requires Opened(s, from.idBase, n) && 2 * n + 2 < 0x1_0000_0000 && 2 <= c.dims.perSlot
    requires Lora.MaxPayload() < |payload| <= MAX_PAYLOAD
    ensures var a := Opener(from, payload, n);
      var (s', r) := Ingest(c, s, a.source, a.bytes);
      if n < c.dims.slots then r == Ok(Buffered) && Opened(s', from.idBase, n + 1)
      else r == Ok(Dropped(R.NoSlot))
  {
    hide Ingest, DedupKey, Frame, Opener, R.Ingest, Alloc, Opened, Recent;
    var a := Opener(from, payload, n);
    OpenerArrives(from, payload, n);
    NextIsNew(s, from.idBase, n);
    TakenAsNew(c, s, a);
    FirstOfTwo(c.dims, s.groups, Frame(a).value);
    OpenedSize(s, from.idBase, n);
    if n < c.dims.slots {
      OpenedGrows(s, Ingest(c, s, a.source, a.bytes).0, from.idBase, n);
    }
  }

  lemma OpenedSize(s: State, base: u32, n: nat)
    requires Opened(s, base, n)
    ensures |s.groups| == n
  {
    hide Alloc;
  }

  lemma OpenedGrows(s: State, s': State, base: u32, n: nat)
    requires Opened(s, base, n) && R.Key(Alloc(base, 2 * n + 1), 2) !in s.groups
    requires R.Key(Alloc(base, 2 * n + 1), 2) in s'.groups
    requires var k := R.Key(Alloc(base, 2 * n + 1), 2); s'.groups == s.groups[k := s'.groups[k]]
    requires s'.seen == s.seen + [Alloc(base, 2 * n)]
    ensures Opened(s', base, n + 1)
  {
    hide Alloc, GroupsOf, KeysOf;
    GroupsGrow(s.groups, base, n, s'.groups[R.Key(Alloc(base, 2 * n + 1), 2)]);
    KeysGrow(s.seen, base, n);
  }

  lemma GroupsGrow(g: R.Groups, base: u32, n: nat, a: R.Assembly)
    requires GroupsOf(g, base, n) && R.Key(Alloc(base, 2 * n + 1), 2) !in g
    ensures GroupsOf(g[R.Key(Alloc(base, 2 * n + 1), 2) := a], base, n + 1)
  {
    hide Alloc;
    var k := R.Key(Alloc(base, 2 * n + 1), 2);
    Sums.MapSizes(g, k, a);
    forall j | j in g[k := a]
      ensures exists i: nat :: i < n + 1 && j.group == Alloc(base, 2 * i + 1)
    {
      if j in g {
        var i: nat :| i < n && j.group == Alloc(base, 2 * i + 1);
      } else {
        assert j == k;
      }
    }
  }

  lemma KeysGrow(seen: seq<u32>, base: u32, n: nat)
    requires KeysOf(seen, base, n)
    ensures KeysOf(seen + [Alloc(base, 2 * n)], base, n + 1)
  {
    hide Alloc;
    forall key <- seen + [Alloc(base, 2 * n)]
      ensures exists i: nat :: i < n + 1 && key == Alloc(base, 2 * i)
    {
      if key in seen {
        var i: nat :| i < n && key == Alloc(base, 2 * i);
      } else {
        assert key == Alloc(base, 2 * n);
      }
    }
  }

  lemma FirstOfTwo(d: R.Dims, g: R.Groups, m: Message)
    requires 2 <= d.perSlot && m.frag.Some? && m.frag.value.total == 2 && m.frag.value.seqNo == 0
    requires R.KeyOf(m.frag.value) !in g && m.WellSized()
    ensures var (g', o) := R.Ingest(d, g, m);
      if |g| < d.slots then
        o == R.Buffered && R.KeyOf(m.frag.value) in g' && g' == g[R.KeyOf(m.frag.value) := g'[R.KeyOf(m.frag.value)]]
      else o == R.Dropped(R.NoSlot)
  {
    hide R.Concat;
    Sums.MapSizes(R.Joining(g, m).slices, 0, m.payload);
  }

  lemma {:induction false} OpenersFill(c: Config, from: Config, payload: seq<u8>, n: nat)
    requires n <= c.dims.slots && 2 * c.dims.slots + 2 < 0x1_0000_0000 && 2 <= c.dims.perSlot
    requires Lora.MaxPayload() < |payload| <= MAX_PAYLOAD
    ensures var (s, rs) := RunRelay(c, FRESH, Openers(from, payload, n));
      Opened(s, from.idBase, n) && forall i :: 0 <= i < n ==> rs[i] == Ok(Buffered)
  {
    hide Ingest, Opener, RunRelay, Opened;
    if n == 0 {
      RunHead(c, FRESH, Openers(from, payload, 0));
      NothingOpened(from.idBase);
    } else {
      OpenersFill(c, from, payload, n - 1);
      assert Openers(from, payload, n) == Openers(from, payload, n - 1) + [Opener(from, payload, n - 1)];
      RunLast(c, FRESH, Openers(from, payload, n - 1), Opener(from, payload, n - 1));
      OneMoreOpened(c, RunRelay(c, FRESH, Openers(from, payload, n - 1)).0, from, payload, n - 1);
    }
  }

  lemma NothingOpened(base: u32)
    ensures Opened(FRESH, base, 0)
  {
  }

  /**
   Slots do run out: one node sends messages of 181 to 200 bytes over LoRa, one after the
   other, and only their first slices arrive. A fresh relay buffers one for each slot, and
   refuses the next.
   */
  lemma {:induction false} SlotsRunOut(c: Config, from: Config, payload: seq<u8>)
    requires 2 * c.dims.slots + 2 < 0x1_0000_0000 && 2 <= c.dims.perSlot
    requires Lora.MaxPayload() < |payload| <= MAX_PAYLOAD
    ensures var (s, rs) := RunRelay(c, FRESH, Openers(from, payload, c.dims.slots));
      var next := Opener(from, payload, c.dims.slots);
      && (forall i :: 0 <= i < |rs| ==> rs[i] == Ok(Buffered))
      && Ingest(c, s, next.source, next.bytes).1 == Ok(Dropped(R.NoSlot))
  {
    hide Ingest, Opener, RunRelay, Opened;
    OpenersFill(c, from, payload, c.dims.slots);
    OneMoreOpened(c, RunRelay(c, FRESH, Openers(from, payload, c.dims.slots)).0, from, payload, c.dims.slots);
  }

  // ---- Two sends of one node with one key ----

  /**
   Two messages of one node, the second drawn 2^16 ids after the first. If the high half of
   the first id is even, the second slice of the first message has the key of the second
   message: at a fresh relay that hears them in turn, the second message is dropped as a
   repeat, although it arrives whole and has never been heard before.
   */
  lemma {:induction false} CollisionSuppresses(x: Sent, y: Sent, to: Config)
    requires x.Succeeds() && x.over == Lora && |x.payload| > Lora.MaxPayload()
    requires y.Succeeds() && (y.over == Lora ==> |y.payload| <= Lora.MaxPayload())
    requires y.c == x.c && y.s.idCtr == x.s.idCtr + 0x1_0000
    requires x.Whole().id / 0x1_0000 % 2 == 0
    requires 2 <= to.dims.perSlot && 0 < to.dims.slots
    ensures |x.Frames()| == 2 && On(y.Plan(), y.over) == [y.Whole()]
    ensures var (s, rs) := RunRelay(to, FRESH, [Slice(x, 1), OnePiece(y, y.over)]);
      && rs == [Ok(Buffered), Ok(Duplicate)]
      && Deliveries(rs, y.Whole().id) == 0
  {
    hide RunRelay, Ingest, Slice, OnePiece, Targets, PlanSend, IsCopy, Sound, Alloc, DedupKey, Recent, Frame;
    hide Sent.Frames;
    TwoSlices(x);
    SendIsSound(x, to);
    InOnePiece(y, y.over);
    assert y.Whole().(origin := y.over) == y.Whole();
    var a, b := Slice(x, 1), OnePiece(y, y.over);
    SecondSliceArrives(x, to, a);
    WholeArrives(y, b);
    SameKey(x, y);
    SecondSliceBuffered(to, x.Arriving(), a);
    var s1 := Ingest(to, FRESH, a.source, a.bytes).0;
    RecordedAt([], DedupKey(Frame(a).value), []);
    assert [] + [DedupKey(Frame(a).value)] + [] == s1.seen;
    NeverDuplicateOtherwise(to, s1, b);
    TwoArrivals(to, FRESH, a, b);
    NotDelivered(y.Whole().id);
  }

  lemma {:induction false} NotDelivered(id: u32)
    ensures Deliveries([Ok(Buffered), Ok(Duplicate)], id) == 0
  {
    var r1: Answer, r2: Answer := Ok(Buffered), Ok(Duplicate);
    DeliveriesJoined([r1], [r2], id);
    OneAnswer(r1, id);
    OneAnswer(r2, id);
    assert [r1] + [r2] == [r1, r2];
  }

  lemma {:induction false} TwoArrivals(c: Config, s: State, a: Arrival, b: Arrival)
    ensures var (s1, r1) := Ingest(c, s, a.source, a.bytes);
      var (s2, r2) := Ingest(c, s1, b.source, b.bytes);
      RunRelay(c, s, [a, b]) == (s2, [r1, r2])
  {
    hide Ingest, RunRelay;
    RunHead(c, s, []);
    RunLast(c, s, [], a);
    RunLast(c, s, [a], b);
    assert [] + [a] == [a] && [a] + [b] == [a, b];
    var r1 := Ingest(c, s, a.source, a.bytes).1;
    var r2 := Ingest(c, Ingest(c, s, a.source, a.bytes).0, b.source, b.bytes).1;
    assert [] + [r1] == [r1] && [r1] + [r2] == [r1, r2];
  }

  lemma SecondSliceArrives(x: Sent, to: Config, a: Arrival)
    requires x.Succeeds() && 2 <= to.dims.perSlot && |x.Frames()| == 2 && a == Slice(x, 1)
    ensures |x.Arriving().frames| == 2 && IsCopy(a, x.Arriving(), 1)
    ensures Frame(a).Some? && DedupKey(Frame(a).value) == SliceKey(x.Whole().id, 1)
  {
    hide PlanSend, Targets, Alloc, Wire.Encode, Wire.DecodeMessage, SliceKey, Sound, DedupKey;
    SendIsSound(x, to);
    PartKeys(to, x.Arriving());
  }

  lemma WholeArrives(y: Sent, b: Arrival)
    requires y.Succeeds() && b == OnePiece(y, y.over)
    ensures Frame(b).Some? && DedupKey(Frame(b).value) == y.Whole().id
  {
    hide Wire.Encode, Wire.DecodeMessage, Alloc, Targets;
    EncodedFrame(y.Whole().(origin := y.over));
  }

  lemma SameKey(x: Sent, y: Sent)
    requires y.c == x.c && y.s.idCtr == x.s.idCtr + 0x1_0000 && x.Whole().id / 0x1_0000 % 2 == 0
    ensures y.Whole().id == x.Whole().id + 0x1_0000 && SliceKey(x.Whole().id, 1) == y.Whole().id
  {
    hide SliceKey;
    var id := x.Whole().id;
    AddWraps(x.c.idBase + x.s.idCtr, 0x1_0000);
    OneNodeKeysCollide(id / 0x2_0000, id % 0x1_0000);
    SliceZeroKey(id + 0x1_0000);
  }

  /** Adding 2^16 does not wrap a word whose high half is even. */
  lemma AddWraps(a: nat, n: nat)
    requires n == 0x1_0000 && a % 0x1_0000_0000 / 0x1_0000 % 2 == 0
    ensures (a + n) % 0x1_0000_0000 == a % 0x1_0000_0000 + n
    ensures var id := a % 0x1_0000_0000; 0x2_0000 * (id / 0x2_0000) + id % 0x1_0000 == id && id + n < 0x1_0000_0000
  {
    var id := a % 0x1_0000_0000;
    assert id / 0x1_0000 < 0x1_0000;
    assert id == id / 0x1_0000 * 0x1_0000 + id % 0x1_0000;
    assert (a + n) % 0x1_0000_0000 == (id + n) % 0x1_0000_0000;
  }

  lemma SecondSliceBuffered(to: Config, x: Transfer, a: Arrival)
    requires Sound(to, x) && |x.frames| == 2 && IsCopy(a, x, 1) && 0 < to.dims.slots
    ensures var (s, r) := Ingest(to, FRESH, a.source, a.bytes);
      r == Ok(Buffered) && s.seen == [DedupKey(Frame(a).value)]
  {
    hide R.Ingest, DedupKey, Wire.DecodeMessage, R.F.IsSplit, R.Holds;
    TakenAsNew(to, FRESH, a);
    R.SliceStep(to.dims, map[], x.whole, x.frames, x.group, {}, 1);
  }

  // ---- Two bridges that forward the same message ----

  /**
   Two bridges forward a sliced message over LoRa, each under a group of its own. If their
   slices interleave, each group wins one slice number and loses the other to a repeat: all
   four frames arrive, nothing is delivered, and both slots stay taken. If one bridge's
   slices come first, the message is delivered once and no slot stays taken.
   */
  lemma ForwardersInterleave(m: Message, h1: Hop, h2: Hop)
    requires m.frag.None? && m.WellSized() && m.ttl > 0 && |m.payload| > Lora.MaxPayload()
    requires h1.target == Lora && h2.target == Lora && h1.to == h2.to
    requires 2 <= h1.to.dims.perSlot && 2 <= h1.to.dims.slots
    requires Alloc(h1.from.idBase, h1.fromState.idCtr) != Alloc(h2.from.idBase, h2.fromState.idCtr)
    ensures |Forwarded(m, h1)| == |Forwarded(m, h2)| == 2
    ensures |Carried(m, h1).frames| == |Carried(m, h2).frames| == 2
    ensures var (a, b) := (Forwarded(m, h1), Forwarded(m, h2));
      var (s, rs) := RunRelay(h1.to, FRESH, [a[0], b[1], a[1], b[0]]);
      && Deliveries(rs, m.id) == 0
      && Carried(m, h1).Key() in s.groups && Carried(m, h2).Key() in s.groups
    ensures var (a, b) := (Forwarded(m, h1), Forwarded(m, h2));
      var (s, rs) := RunRelay(h1.to, FRESH, [a[0], a[1], b[0], b[1]]);
      && Deliveries(rs, m.id) == 1
      && Carried(m, h1).Key() !in s.groups && Carried(m, h2).Key() !in s.groups
  {
    hide RunRelay, Carried, Forwarded, Sound, Deliveries, PlanForward, IsCopy, Wins, WinsAll, OneMessage;
    ForwardedArrive(m, h1);
    ForwardedArrive(m, h2);
    var xs, a, b := [Carried(m, h1), Carried(m, h2)], Forwarded(m, h1), Forwarded(m, h2);
    TwoGroups(h1.to, m.id, xs);
    var run, other := [a[0], b[1], a[1], b[0]], [a[0], a[1], b[0], b[1]];
    assert Brings(a[0], xs, 0, 0) && Brings(a[1], xs, 0, 1) && Brings(b[0], xs, 1, 0) && Brings(b[1], xs, 1, 1);
    FloodFromFresh(h1.to, m.id, xs, run);
    FloodFromFresh(h1.to, m.id, xs, other);
    Interleaved(h1.to, m.id, xs, run);
    InTurn(h1.to, m.id, xs, other);
  }

  /** The frames that a hop's relay puts on the air, as they arrive. */
  function Forwarded(m: Message, h: Hop): seq<Arrival> {
    var plan := PlanForward(h.from, h.fromState, m, h.target).1;
    var frames := if plan.Ok? then On(plan.value, h.target) else [];
    seq(|frames|, (i: nat) requires i < |frames| => Arrival(h.target, Wire.Encode(frames[i])))
  }

  lemma ForwardedArrive(m: Message, h: Hop)
    requires m.frag.None? && m.WellSized() && m.ttl > 0 && |m.payload| > Lora.MaxPayload()
    requires h.target == Lora && 2 <= h.to.dims.perSlot
    ensures Sound(h.to, Carried(m, h)) && Carried(m, h).whole.id == m.id
    ensures Carried(m, h).group == Alloc(h.from.idBase, h.fromState.idCtr)
    ensures |Forwarded(m, h)| == 2 == |Carried(m, h).frames|
    ensures IsCopy(Forwarded(m, h)[0], Carried(m, h), 0) && IsCopy(Forwarded(m, h)[1], Carried(m, h), 1)
  {
    hide PlanForward, Sound, IsCopy, Alloc, Wire.Encode;
    CarriedIsSound(m, h);
    CarriedInTwo(m, h);
  }

  lemma CarriedInTwo(m: Message, h: Hop)
    requires m.frag.None? && m.WellSized() && m.ttl > 0 && |m.payload| > Lora.MaxPayload() && h.target == Lora
    ensures |Carried(m, h).frames| == 2
  {
    var relayed, group := m.(ttl := m.ttl - 1), Alloc(h.from.idBase, h.fromState.idCtr);
    F.RealTransportsSplit(relayed, Lora, group);
    OnPlanned(F.SplitAt(relayed, F.Mtu(Lora), group).value, Lora, ForwardAddr(relayed), Lora);
  }

  lemma TwoGroups(c: Config, id: u32, xs: seq<Transfer>)
    requires |xs| == 2 && (forall x <- xs :: Sound(c, x) && x.whole.id == id && |x.frames| == 2)
    requires xs[0].group != xs[1].group
    ensures OneMessage(c, id, 2, xs)
  {
    hide Sound;
  }

  /** Two versions in two slices each find the conditions of a flood at a fresh relay with two slots. */
  lemma {:induction false} FloodFromFresh(c: Config, id: u32, xs: seq<Transfer>, run: seq<Arrival>)
    requires OneMessage(c, id, 2, xs) && |xs| == 2 && |run| <= SEEN_WINDOW && 2 <= c.dims.slots
    requires forall a <- run :: IsVersion(a, xs)
    ensures var (s', rs) := RunRelay(c, FRESH, run);
      && Deliveries(rs, id) == (if exists v :: 0 <= v < |xs| && WinsAll(run, xs, v) then 1 else 0)
      && (forall v :: 0 <= v < |xs| && Sliced(xs[v]) ==>
           (xs[v].Key() in s'.groups <==> (exists i: nat :: Wins(run, xs, v, i)) && !WinsAll(run, xs, v)))
  {
    hide RunRelay, Wins, WinsAll, Deliveries, SlotsServe, IsVersion, Sound, Apart, Replies, HandedOutAs;
    HomesFew(xs);
    SlotEachServes(c, FRESH, run, id, 2, xs);
    SeenBound(c, FRESH, run);
    FloodDelivery(c, FRESH, run, id, 2, xs);
  }

  lemma HomesFew(xs: seq<Transfer>)
    requires |xs| == 2 && forall v :: 0 <= v < |xs| ==> |xs[v].frames| < 0x1_0000
    ensures |Homes(xs)| <= 2
  {
    var both := {xs[0].Key(), xs[1].Key()};
    assert Homes(xs) <= both;
    assert both == Homes(xs) + (both - Homes(xs));
  }

  /** A slice number is won by one version only. */
  lemma WinsOnce(c: Config, id: u32, n: nat, xs: seq<Transfer>, run: seq<Arrival>, v: nat, u: nat, i: nat)
    requires OneMessage(c, id, n, xs) && Wins(run, xs, v, i) && Wins(run, xs, u, i)
    ensures v == u
  {
    hide OneMessage, Brings;
    var j :| 0 <= j < |run| && Brings(run[j], xs, v, i) && Earliest(run, xs, i, j);
    var h :| 0 <= h < |run| && Brings(run[h], xs, u, i) && Earliest(run, xs, i, h);
    assert j == h;
    BringsOnce(c, id, n, xs, run[j], v, i, u, i);
  }

  /** A copy with no copy of its slice number before it wins. */
  lemma WinsAt(run: seq<Arrival>, xs: seq<Transfer>, v: nat, i: nat, j: nat)
    requires j < |run| && Brings(run[j], xs, v, i) && Earliest(run, xs, i, j)
    ensures Wins(run, xs, v, i)
  {
  }

  lemma Interleaved(c: Config, id: u32, xs: seq<Transfer>, run: seq<Arrival>)
    requires OneMessage(c, id, 2, xs) && |xs| == 2 && |xs[0].frames| == |xs[1].frames| == 2 && |run| == 4
    requires IsCopy(run[0], xs[0], 0) && IsCopy(run[1], xs[1], 1)
    ensures Wins(run, xs, 0, 0) && Wins(run, xs, 1, 1)
    ensures !WinsAll(run, xs, 0) && !WinsAll(run, xs, 1)
  {
    hide IsCopy, OneMessage, Wins;
    assert Brings(run[0], xs, 0, 0) && Brings(run[1], xs, 1, 1);
    OnlyBrings(c, id, 2, xs, run[0], 0, 0);
    WinsAt(run, xs, 0, 0, 0);
    WinsAt(run, xs, 1, 1, 1);
    if WinsAll(run, xs, 0) {
      assert Wins(run, xs, 0, 1);
      WinsOnce(c, id, 2, xs, run, 0, 1, 1);
    }
    if WinsAll(run, xs, 1) {
      assert Wins(run, xs, 1, 0);
      WinsOnce(c, id, 2, xs, run, 0, 1, 0);
    }
  }

  lemma InTurn(c: Config, id: u32, xs: seq<Transfer>, run: seq<Arrival>)
    requires OneMessage(c, id, 2, xs) && |xs| == 2 && |xs[0].frames| == |xs[1].frames| == 2 && |run| == 4
    requires IsCopy(run[0], xs[0], 0) && IsCopy(run[1], xs[0], 1)
    ensures WinsAll(run, xs, 0) && !exists i: nat :: Wins(run, xs, 1, i)
  {
    hide IsCopy, OneMessage, Wins;
    assert Brings(run[0], xs, 0, 0) && Brings(run[1], xs, 0, 1);
    OnlyBrings(c, id, 2, xs, run[0], 0, 0);
    WinsAt(run, xs, 0, 0, 0);
    WinsAt(run, xs, 0, 1, 1);
    forall i: nat
      ensures !Wins(run, xs, 1, i)
    {
      if Wins(run, xs, 1, i) {
        WinsBelow(run, xs, 1, i);
        WinsOnce(c, id, 2, xs, run, 0, 1, i);
      }
    }
  }

  lemma WinsBelow(run: seq<Arrival>, xs: seq<Transfer>, v: nat, i: nat)
    requires Wins(run, xs, v, i)
    ensures v < |xs| && i < |xs[v].frames|
  {
  }
}
