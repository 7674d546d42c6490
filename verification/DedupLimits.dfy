/**
 How long repeats are recognised, and what deduplication by `id ^ (seq << 16)` costs: a
 part that did arrive can be thrown away, and is then missed until 64 other frames have
 pushed its key out of the seen cache.
 */
module DedupLimits {
  import opened Wrappers
  import opened Proto
  import opened Dedup
  import opened Seen
  import opened RelaySpec
  import opened AtMostOnce
  import opened Transfers
  import opened Versions
  import opened ExactlyOnce
  import R = Reassembly
  import Sums
  import Wire

  /** The keys recorded during a run are keys of its frames, behind those of before. */
  lemma {:induction false} RunRecords(c: Config, s: State, run: seq<Arrival>, key: u32)
    requires forall a <- run :: Frame(a).Some? ==> DedupKey(Frame(a).value) != key
    ensures var seen := RunRelay(c, s, run).0.seen;
      && |s.seen| <= |seen| && seen[..|s.seen|] == s.seen
      && key !in seen[|s.seen|..]
    decreases |run|
  {
    hide R.Ingest, DedupKey, Wire.DecodeMessage, Recent;
    if run != [] {
      var s1 := Ingest(c, s, run[0].source, run[0].bytes).0;
      assert Frame(run[0]).Some? ==> DedupKey(Frame(run[0]).value) != key;
      assert forall a <- run[1..] :: a in run;
      RunRecords(c, s1, run[1..], key);
      var seen := RunRelay(c, s1, run[1..]).0.seen;
      assert s1.seen[..|s.seen|] == s.seen && key !in s1.seen[|s.seen|..];
      assert seen[|s.seen|..] == s1.seen[|s.seen|..] + seen[|s1.seen|..];
      assert seen[..|s.seen|] == seen[..|s1.seen|][..|s.seen|];
    }
  }

  /**
   A frame was taken as fresh. A later frame with its key, whether a copy of it or a frame of
   another message, is answered as a repeat if and only if fewer than 64 frames of other keys
   were fresh in between.
   */
  lemma {:induction false} RepeatRecognisedIff(c: Config, s: State, a: Arrival, run: seq<Arrival>, again: Arrival)
    requires Frame(a).Some? && DedupKey(Frame(a).value) !in Recent(s.seen, SEEN_WINDOW)
    requires forall b <- run :: Frame(b).Some? ==> DedupKey(Frame(b).value) != DedupKey(Frame(a).value)
    requires Frame(again).Some? && DedupKey(Frame(again).value) == DedupKey(Frame(a).value)
    ensures var s1 := Ingest(c, s, a.source, a.bytes).0;
      var s2 := RunRelay(c, s1, run).0;
      Ingest(c, s2, again.source, again.bytes).1 == Ok(Duplicate) <==> |s2.seen| - |s1.seen| < SEEN_WINDOW
  {
    hide Ingest, DedupKey, Frame, RunRelay, Recent;
    var key := DedupKey(Frame(a).value);
    var s1 := Ingest(c, s, a.source, a.bytes).0;
    var s2 := RunRelay(c, s1, run).0;
    TakenAsNew(c, s, a);
    RunRecords(c, s1, run, key);
    assert s2.seen == s1.seen + s2.seen[|s1.seen|..];
    RecordedAt(s.seen, key, s2.seen[|s1.seen|..]);
    assert s2.seen == s.seen + [key] + s2.seen[|s1.seen|..];
    NeverDuplicateOtherwise(c, s2, again);
  }

  lemma RecordedAt(before: seq<u32>, key: u32, after: seq<u32>)
    requires key !in after
    ensures key in Recent(before + [key] + after, SEEN_WINDOW) <==> |after| < SEEN_WINDOW
  {
    var all := before + [key] + after;
    if |after| < SEEN_WINDOW {
      RecentHolds(all, SEEN_WINDOW, |before|);
    } else {
      assert Recent(all, SEEN_WINDOW) == after[|after| - SEEN_WINDOW..];
    }
  }

  lemma NeverDuplicateOtherwise(c: Config, s: State, a: Arrival)
    requires Frame(a).Some?
    ensures Ingest(c, s, a.source, a.bytes).1 == Ok(Duplicate)
            <==> DedupKey(Frame(a).value) in Recent(s.seen, SEEN_WINDOW)
  {
    hide R.Ingest, DedupKey, Recent;
  }

  /**
   The key is recorded before the reassembler may refuse the slice, so a slice refused for
   lack of a slot is taken for a repeat when it is sent again, even if a slot is free by
   then, if and only if fewer than 64 other frames were fresh in between. After that it is
   the reassembler that answers.
   */
  lemma {:induction false} RefusedSliceIsLost(c: Config, s: State, a: Arrival, run: seq<Arrival>)
    requires Ingest(c, s, a.source, a.bytes).1 == Ok(Dropped(R.NoSlot))
    requires forall b <- run :: Frame(b).Some? && Frame(a).Some? ==>
               DedupKey(Frame(b).value) != DedupKey(Frame(a).value)
    ensures Frame(a).Some?
    ensures var s1 := Ingest(c, s, a.source, a.bytes).0;
      var s2 := RunRelay(c, s1, run).0;
      Ingest(c, s2, a.source, a.bytes).1
      == if |s2.seen| - |s1.seen| < SEEN_WINDOW then Ok(Duplicate)
         else Told(c, R.Ingest(c.dims, s2.groups, Frame(a).value).1)
  {
    hide RunRelay, Ingest, DedupKey, Recent, Frame;
    RefusalIsFresh(c, s, a);
    RepeatRecognisedIff(c, s, a, run, a);
    var s2 := RunRelay(c, Ingest(c, s, a.source, a.bytes).0, run).0;
    NeverDuplicateOtherwise(c, s2, a);
    if DedupKey(Frame(a).value) !in Recent(s2.seen, SEEN_WINDOW) {
      TakenAsNew(c, s2, a);
    }
  }

  lemma RefusalIsFresh(c: Config, s: State, a: Arrival)
    requires Ingest(c, s, a.source, a.bytes).1 == Ok(Dropped(R.NoSlot))
    ensures Frame(a).Some? && DedupKey(Frame(a).value) !in Recent(s.seen, SEEN_WINDOW)
  {
    hide R.Ingest, DedupKey, Recent, Wire.DecodeMessage;
  }

  // ---- A message in two forms ----

  lemma FormProgress(c: Config, s: State, x: Transfer, won: Ledger, start: nat)
    requires InBooks(c, s, x.whole.id, |x.frames|, Forms(x), won, start) && 1 < |x.frames| < 0x1_0000
    ensures R.Progress(s.groups, x.whole, x.frames, x.Key(), Share(won, 0))
  {
    hide Noted, R.Progress, Forms, Share, Sound, Apart, OthersForeign;
  }

  /**
   A message sent over two transports can reach a common receiver in two forms, in slices
   and in one piece. If all slices arrive, it is delivered once in any case; but its slot
   stays taken if and only if the other form comes before the first slice. Then the first
   slice, which has the same key, is dropped as a repeat, and is all that is missing.
   */
  lemma {:induction false} SecondFormStrandsSlot(c: Config, s: State, run: seq<Arrival>, x: Transfer)
    requires Sound(c, x) && 1 < |x.frames| < 0x1_0000 && NewTo(s, x)
    requires forall a <- run :: Expected(a, x)
    requires SlotAvailable(c, s, run, x) && |RunRelay(c, s, run).0.seen| <= |s.seen| + SEEN_WINDOW
    requires AllArrive(run, x)
    ensures var (s', rs) := RunRelay(c, s, run);
      && Deliveries(rs, x.whole.id) == 1
      && (x.Key() in s'.groups <==> OtherFirst(run, x))
      && (OtherFirst(run, x) ==> forall i: nat :: i in s'.groups[x.Key()].slices <==> 0 < i < |x.frames|)
  {
    hide Expected, NewTo, SlotAvailable, RunRelay, OtherFirst, Arriving, Deliveries, GoodAnswer, Sound, Forms;
    hide InBooks, Share;
    DeliveredInEitherForm(c, s, run, x);
    if OtherFirst(run, x) {
      FewFrames(c, x);
      var won := FormBooks(c, s, run, x);
      FormProgress(c, RunRelay(c, s, run).0, x, won, |s.seen|);
      AllButFirst(run, x);
    }
  }

  lemma AllButFirst(run: seq<Arrival>, x: Transfer)
    requires 1 < |x.frames| && AllArrive(run, x) && OtherFirst(run, x)
    ensures forall i: nat :: i in Usable(run, x) <==> 0 < i < |x.frames|
    ensures Usable(run, x) != {} && |Usable(run, x)| < |x.frames|
  {
    hide OtherFirst;
    ArrivingInRange(run, x);
    assert 1 in Usable(run, x);
    AllOrNot(Usable(run, x), |x.frames|);
    Sums.FullSet(Usable(run, x), |x.frames|);
  }

  lemma {:induction false} ArrivingInRange(run: seq<Arrival>, x: Transfer)
    ensures forall i :: i in Arriving(run, x) ==> i < |x.frames|
    decreases |run|
  {
    hide IsCopy;
    if run != [] {
      ArrivingInRange(run[1..], x);
    }
  }

  /**
   The other way round, slices can suppress a copy in one piece: although such a copy
   arrives, the message is not delivered if and only if the first slice came before it and
   another slice is lost.
   */
  lemma {:induction false} SlicesSuppressWhole(c: Config, s: State, run: seq<Arrival>, x: Transfer)
    requires Sound(c, x) && |x.frames| < 0x1_0000 && NewTo(s, x)
    requires forall a <- run :: Expected(a, x)
    requires SlotAvailable(c, s, run, x) && |RunRelay(c, s, run).0.seen| <= |s.seen| + SEEN_WINDOW
    requires exists a <- run :: OtherForm(a, x)
    ensures Deliveries(RunRelay(c, s, run).1, x.whole.id) == 0 <==> !OtherFirst(run, x) && !AllArrive(run, x)
    ensures !OtherFirst(run, x) ==> 0 in Arriving(run, x)
  {
    hide Expected, NewTo, SlotAvailable, RunRelay, AllArrive, Arriving, Deliveries, GoodAnswer, Sound, OtherForm;
    DeliveredInEitherForm(c, s, run, x);
    if !OtherFirst(run, x) {
      var j :| 0 <= j < |run| && OtherForm(run[j], x);
      var i :| 0 <= i < j && IsCopy(run[i], x, 0);
      ArrivesAt(run, x, i, 0);
    }
  }

  lemma {:induction false} ArrivesAt(run: seq<Arrival>, x: Transfer, j: nat, i: nat)
    requires j < |run| && IsCopy(run[j], x, i)
    ensures i in Arriving(run, x)
    decreases |run|
  {
    hide Frame;
    if j > 0 {
      ArrivesAt(run[1..], x, j - 1, i);
    }
  }

  /**
   A stranded slot is freed by a late copy of the first slice, once the message is
   forgotten; but then the message is delivered a second time. While it is remembered, the
   slice is still a repeat, and the slot stays taken.
   */
  lemma {:induction false} LateSliceDeliversAgain(c: Config, s: State, run: seq<Arrival>, later: seq<Arrival>,
                                                  slice0: Arrival, x: Transfer)
    requires Sound(c, x) && 1 < |x.frames| < 0x1_0000 && NewTo(s, x)
    requires forall a <- run :: Expected(a, x)
    requires SlotAvailable(c, s, run, x) && |RunRelay(c, s, run).0.seen| <= |s.seen| + SEEN_WINDOW
    requires AllArrive(run, x) && OtherFirst(run, x)
    requires (forall a <- later :: Unrelated(a, x)) && IsCopy(slice0, x, 0)
    ensures var s1 := RunRelay(c, s, run + later).0;
      var (s2, rs) := RunRelay(c, s, run + later + [slice0]);
      var forgotten := x.whole.id !in Recent(s1.seen, SEEN_WINDOW);
      && Deliveries(rs, x.whole.id) == (if forgotten then 2 else 1)
      && (x.Key() in s2.groups <==> !forgotten)
      && (|s1.seen| <= |s.seen| + SEEN_WINDOW ==> !forgotten)
      && (|s1.seen| >= |RunRelay(c, s, run).0.seen| + SEEN_WINDOW ==> forgotten)
  {
    hide Expected, NewTo, SlotAvailable, RunRelay, AllArrive, OtherFirst, Usable, Deliveries, GoodAnswer, Sound;
    hide Ingest, Delivers, Unrelated, IsCopy, Recent, Forms, InBooks, Share, OneMessage;
    var id := x.whole.id;
    SecondFormStrandsSlot(c, s, run, x);
    FewFrames(c, x);
    var won := FormBooks(c, s, run, x);
    var (s0, rs0) := RunRelay(c, s, run);
    UnrelatedRun(c, s0, later, x, won, |s.seen|);
    var (s1, rs1) := RunRelay(c, s0, later);
    RunJoined(c, s, run, later);
    RunLast(c, s, run + later, slice0);
    var (s2, r) := Ingest(c, s1, slice0.source, slice0.bytes);
    DeliveriesJoined(rs0, rs1, id);
    DeliveriesJoined(rs0 + rs1, [r], id);
    AllButFirst(run, x);
    FormProgress(c, s1, x, won, |s.seen|);
    FirstRemembered(c, s1, x, won, |s.seen|);
    LateSlice(c, s1, slice0, x, Usable(run, x));
    OneAnswer(r, id);
    Forgetting(c, s0, later, x);
  }

  lemma {:induction false} UnrelatedRun(c: Config, s: State, run: seq<Arrival>, x: Transfer, won: Ledger, start: nat)
    requires Sound(c, x) && |x.frames| <= 64 && InBooks(c, s, x.whole.id, |x.frames|, Forms(x), won, start)
    requires forall a <- run :: Unrelated(a, x)
    ensures var (s', rs) := RunRelay(c, s, run);
      InBooks(c, s', x.whole.id, |x.frames|, Forms(x), won, start) && Deliveries(rs, x.whole.id) == 0
  {
    hide RunRelay, Forms, InBooks, Unrelated, Foreign, Sound, Apart, Deliveries;
    InBooksOne(c, s, x.whole.id, |x.frames|, Forms(x), won, start);
    forall a <- run
      ensures Foreign(a, x.whole.id, |x.frames|, Forms(x))
    {
      UnrelatedIsForeign(c, x, a);
    }
    ForeignRun(c, s, run, x.whole.id, |x.frames|, Forms(x), won, start);
  }

  lemma FirstRemembered(c: Config, s: State, x: Transfer, won: Ledger, start: nat)
    requires InBooks(c, s, x.whole.id, |x.frames|, Forms(x), won, start) && 0 in won && 0 < |x.frames|
    ensures |s.seen| <= start + SEEN_WINDOW ==> x.whole.id in Recent(s.seen, SEEN_WINDOW)
  {
    hide SliceKey, Recent, Forms, Shelved, Entries, Sound, Apart;
    SliceZeroKey(x.whole.id);
    if |s.seen| <= start + SEEN_WINDOW {
      StillRecent(s.seen, x.whole.id, start);
    }
  }

  /** 64 fresh unrelated frames make the relay forget the message. */
  lemma {:induction false} Forgetting(c: Config, s: State, later: seq<Arrival>, x: Transfer)
    requires |x.frames| < 0x1_0000 && Sound(c, x) && forall a <- later :: Unrelated(a, x)
    ensures var s' := RunRelay(c, s, later).0;
      |s'.seen| >= |s.seen| + SEEN_WINDOW ==> x.whole.id !in Recent(s'.seen, SEEN_WINDOW)
  {
    hide RunRelay, DedupKey, Frame, R.Fits;
    FirstKey(c, x);
    forall a <- later
      ensures Frame(a).Some? ==> DedupKey(Frame(a).value) != x.whole.id
    {
      assert Unrelated(a, x);
    }
    RunRecords(c, s, later, x.whole.id);
    var seen := RunRelay(c, s, later).0.seen;
    if |seen| >= |s.seen| + SEEN_WINDOW {
      assert Recent(seen, SEEN_WINDOW) == seen[|s.seen|..][|seen| - SEEN_WINDOW - |s.seen|..];
    }
  }

  /** The first slice, when it is all that is missing. */
  lemma LateSlice(c: Config, s: State, slice0: Arrival, x: Transfer, got: set<nat>)
    requires Sound(c, x) && 1 < |x.frames| < 0x1_0000 && IsCopy(slice0, x, 0)
    requires R.Progress(s.groups, x.whole, x.frames, x.Key(), got)
    requires forall i: nat :: i in got <==> 0 < i < |x.frames|
    requires got != {} && |got| < |x.frames|
    ensures var (s', r) := Ingest(c, s, slice0.source, slice0.bytes);
      var forgotten := x.whole.id !in Recent(s.seen, SEEN_WINDOW);
      && Delivers(r, x.whole.id) == (if forgotten then 1 else 0)
      && (x.Key() in s'.groups <==> !forgotten)
  {
    hide Ingest, Sound, DedupKey, Recent, Frame, Delivers, R.Holds;
    FirstKey(c, x);
    NeverDuplicateOtherwise(c, s, slice0);
    DeliversWhole(c, x.whole);
    if x.whole.id in Recent(s.seen, SEEN_WINDOW) {
      DuplicateKeepsGroups(c, s, slice0);
    } else {
      AllOrNot(got + {0}, |x.frames|);
      assert |got + {0}| == |got| + 1;
      LastSlice(c, s, slice0, x, got);
    }
  }

  lemma DeliversWhole(c: Config, m: Message)
    ensures Delivers(AsAddressed(c, m), m.id) == 1 && Delivers(Ok(Duplicate), m.id) == 0
  {
  }

  lemma LastSlice(c: Config, s: State, slice0: Arrival, x: Transfer, got: set<nat>)
    requires Sound(c, x) && 1 < |x.frames| < 0x1_0000 && IsCopy(slice0, x, 0)
    requires R.Progress(s.groups, x.whole, x.frames, x.Key(), got) && x.Key() in s.groups
    requires 0 !in got && |got| + 1 == |x.frames|
    requires DedupKey(x.frames[0]) !in Recent(s.seen, SEEN_WINDOW)
    ensures var (s', r) := Ingest(c, s, slice0.source, slice0.bytes);
      Delivers(r, x.whole.id) == 1 && x.Key() !in s'.groups
  {
    hide Ingest, DedupKey, Recent, Frame, Delivers, AsAddressed, R.Holds, R.F.IsSplit;
    SliceFrag(c, x, 0);
    TakenAsNew(c, s, slice0);
    R.SliceStep(c.dims, s.groups, x.whole, x.frames, x.group, got, 0);
    assert |got + {0}| == |got| + 1;
    DeliversWhole(c, x.whole);
  }

  lemma DuplicateKeepsGroups(c: Config, s: State, a: Arrival)
    requires Ingest(c, s, a.source, a.bytes).1 == Ok(Duplicate)
    ensures Ingest(c, s, a.source, a.bytes).0.groups == s.groups
  {
    hide R.Ingest, Recent, Wire.DecodeMessage, DedupKey;
  }

  // ---- How often a message can be delivered ----

  /** A message in one piece, and its arrival. */
  function UnslicedMessage(id: u32): Message {
    Message(id, DEFAULT_TTL, Lora, [0, 0, 0, 0, 0, 1], BROADCAST_ADDR, Text, [], None)
  }

  function Unsliced(id: u32): Arrival {
    Arrival(Lora, Wire.Encode(UnslicedMessage(id)))
  }

  function UnslicedRun(ids: seq<u32>): seq<Arrival> {
    seq(|ids|, (i: nat) requires i < |ids| => Unsliced(ids[i]))
  }

  lemma UnslicedArrives(id: u32)
    ensures Frame(Unsliced(id)) == Some(UnslicedMessage(id)) && DedupKey(UnslicedMessage(id)) == id
  {
    Wire.MessageRoundTrip(UnslicedMessage(id), []);
    assert Wire.Encode(UnslicedMessage(id)) + [] == Wire.Encode(UnslicedMessage(id));
  }

  /** None of the ids is among the 64 keys recorded before it, in the history or in this run. */
  ghost predicate AlwaysNew(history: seq<u32>, ids: seq<u32>) {
    forall i :: 0 <= i < |ids| ==> ids[i] !in Recent(history + ids[..i], SEEN_WINDOW)
  }

  /** Then every message is recorded and handed out. */
  lemma {:induction false} AllTaken(c: Config, s: State, ids: seq<u32>)
    requires AlwaysNew(s.seen, ids)
    ensures var (s', rs) := RunRelay(c, s, UnslicedRun(ids));
      && s'.seen == s.seen + ids && s'.groups == s.groups
      && forall id :: Deliveries(rs, id) == Count(ids, id)
    decreases |ids|
  {
    hide Ingest, Unsliced, RunRelay, Recent;
    if ids == [] {
      RunHead(c, s, []);
      assert UnslicedRun(ids) == [];
    } else {
      var before, id := ids[..|ids| - 1], ids[|ids| - 1];
      assert ids == before + [id];
      assert forall i :: 0 <= i < |before| ==> before[..i] == ids[..i];
      AllTaken(c, s, before);
      assert UnslicedRun(ids) == UnslicedRun(before) + [Unsliced(id)];
      RunLast(c, s, UnslicedRun(before), Unsliced(id));
      OneTaken(c, RunRelay(c, s, UnslicedRun(before)).0, id);
      forall other
        ensures Deliveries(RunRelay(c, s, UnslicedRun(ids)).1, other) == Count(ids, other)
      {
        var (s1, rs) := RunRelay(c, s, UnslicedRun(before));
        var r := Ingest(c, s1, Unsliced(id).source, Unsliced(id).bytes).1;
        DeliveriesJoined(rs, [r], other);
        OneAnswer(r, other);
      }
    }
  }

  lemma OneTaken(c: Config, s: State, id: u32)
    requires id !in Recent(s.seen, SEEN_WINDOW)
    ensures var (s', r) := Ingest(c, s, Unsliced(id).source, Unsliced(id).bytes);
      && s'.seen == s.seen + [id] && s'.groups == s.groups
      && forall other :: Delivers(r, other) == if other == id then 1 else 0
  {
    hide Ingest, Unsliced, Frame, Recent;
    UnslicedArrives(id);
    TakenAsNew(c, s, Unsliced(id));
    R.Unfragmented(c.dims, s.groups, UnslicedMessage(id));
  }

  /** The ids 0 to 64 over and over. */
  function Cycle(n: nat): seq<u32> {
    seq(n, (i: nat) => i % (SEEN_WINDOW + 1))
  }

  lemma CycleIsNew(n: nat)
    ensures AlwaysNew([], Cycle(n))
  {
    forall i | 0 <= i < n
      ensures Cycle(n)[i] !in Recent([] + Cycle(n)[..i], SEEN_WINDOW)
    {
      assert [] + Cycle(n)[..i] == Cycle(i);
      forall j | 0 <= j < |Recent(Cycle(i), SEEN_WINDOW)|
        ensures Recent(Cycle(i), SEEN_WINDOW)[j] != i % (SEEN_WINDOW + 1)
      {
        var k := if i <= SEEN_WINDOW then j else i - SEEN_WINDOW + j;
        assert Recent(Cycle(i), SEEN_WINDOW)[j] == k % (SEEN_WINDOW + 1) && 0 < i - k <= SEEN_WINDOW;
        NearbyDiffer(k, i);
      }
    }
  }

  lemma NearbyDiffer(k: nat, i: nat)
    requires 0 < i - k <= SEEN_WINDOW
    ensures k % (SEEN_WINDOW + 1) != i % (SEEN_WINDOW + 1)
  {
  }

  /** Id k comes first in frame k, and again after every 65 frames. */
  lemma {:induction false} CycleCount(n: nat, id: u32)
    requires id <= SEEN_WINDOW
    ensures Count(Cycle(n), id) == (n + SEEN_WINDOW - id) / (SEEN_WINDOW + 1)
  {
    if n > 0 {
      assert Cycle(n)[..n - 1] == Cycle(n - 1);
      CycleCount(n - 1, id);
      StepsOver(n - 1, id);
    }
  }

  lemma StepsOver(m: nat, id: nat)
    requires id <= SEEN_WINDOW
    ensures (m + 1 + SEEN_WINDOW - id) / (SEEN_WINDOW + 1)
            == (m + SEEN_WINDOW - id) / (SEEN_WINDOW + 1) + (if m % (SEEN_WINDOW + 1) == id then 1 else 0)
  {
  }

  /**
   The bound on deliveries is met: a fresh relay that receives 65 unsliced messages over and
   over takes every frame as fresh and hands it out, so n deliveries of the first message
   need no more than 65(n - 1) + 1 frames, the last of which brings it.
   */
  lemma {:induction false} BoundIsReached(c: Config, n: nat)
    ensures var run := UnslicedRun(Cycle(n));
      var (s, rs) := RunRelay(c, FRESH, run);
      && GroupsAgree(run)
      && s.seen == Cycle(n)
      && (forall id: u32 :: id <= SEEN_WINDOW ==>
           Deliveries(rs, id) == (n + SEEN_WINDOW - id) / (SEEN_WINDOW + 1))
      && (n % (SEEN_WINDOW + 1) == 1 ==> Deliveries(rs, 0) * (SEEN_WINDOW + 1) == |s.seen| + SEEN_WINDOW)
  {
    hide RunRelay, Deliveries, Unsliced, Cycle, Frame, Count, AlwaysNew;
    CycleIsNew(n);
    AllTaken(c, FRESH, Cycle(n));
    assert [] + Cycle(n) == Cycle(n);
    forall id: u32 | id <= SEEN_WINDOW
      ensures Deliveries(RunRelay(c, FRESH, UnslicedRun(Cycle(n))).1, id) == (n + SEEN_WINDOW - id) / (SEEN_WINDOW + 1)
    {
      CycleCount(n, id);
    }
    CycleLength(n);
    NoFragments(Cycle(n));
  }

  lemma CycleLength(n: nat)
    ensures |Cycle(n)| == n
    ensures n % (SEEN_WINDOW + 1) == 1 ==>
              (n + SEEN_WINDOW) / (SEEN_WINDOW + 1) * (SEEN_WINDOW + 1) == n + SEEN_WINDOW
  {
  }

  lemma NoFragments(ids: seq<u32>)
    ensures GroupsAgree(UnslicedRun(ids))
  {
    hide Unsliced, Frame;
    forall i | 0 <= i < |ids|
      ensures FrameKey(UnslicedRun(ids)[i]).None?
    {
      UnslicedArrives(ids[i]);
    }
  }
}
