/**
 What holds over whole runs of a reassembler: no slice is lost or counted twice, and a
 delivered payload is made of slices that really arrived for that group.
 */
module ReassemblyRuns {
  import opened Wrappers
  import opened Proto
  import opened Sums
  import opened Reassembly
  import F = Fragmenter

  /** What can happen to a reassembler: a message arrives, or a group is evicted. */
  datatype Event = Arrive(msg: Message) | Evict(key: Key)

  function Step(d: Dims, g: Groups, e: Event): Groups {
    match e
    case Arrive(m) => Ingest(d, g, m).0
    case Evict(k) => g - {k}
  }

  function Run(d: Dims, g: Groups, events: seq<Event>): Groups
    decreases |events|
  {
    if events == [] then g else Run(d, Step(d, g, events[0]), events[1..])
  }

  lemma StepKeepsGroups(d: Dims, g: Groups, e: Event)
    requires GroupsOk(d, g)
    ensures GroupsOk(d, Step(d, g, e))
  {
    match e
    case Arrive(m) => IngestKeepsGroups(d, g, m);
    case Evict(k) => DroppingKeeps(d, g, k);
  }

  // ---- Conservation ----

  function Size(a: Assembly): nat {
    |a.slices|
  }

  /** Slices held in open groups. */
  ghost function HeldSlices(g: Groups): nat {
    MapSum(g, Size)
  }

  function BufferedBy(d: Dims, g: Groups, e: Event): nat {
    if e.Arrive? && Ingest(d, g, e.msg).1.Buffered? then 1 else 0
  }

  /** Slices that leave with their group: all but the newest of a finished group, or those of an evicted one. */
  function ReleasedBy(d: Dims, g: Groups, e: Event): nat {
    match e
    case Arrive(m) =>
      var o := Ingest(d, g, m).1;
      if m.frag.Some? && m.frag.value.total > 0 && (o.Complete? || o == Dropped(RejectReason.PayloadTooLarge))
      then m.frag.value.total - 1 else 0
    case Evict(k) => if k in g then |g[k].slices| else 0
  }

  function BufferedIn(d: Dims, g: Groups, events: seq<Event>): nat
    decreases |events|
  {
    if events == [] then 0
    else BufferedBy(d, g, events[0]) + BufferedIn(d, Step(d, g, events[0]), events[1..])
  }

  function ReleasedIn(d: Dims, g: Groups, events: seq<Event>): nat
    decreases |events|
  {
    if events == [] then 0
    else ReleasedBy(d, g, events[0]) + ReleasedIn(d, Step(d, g, events[0]), events[1..])
  }

  lemma StepConserves(d: Dims, g: Groups, e: Event)
    requires GroupsOk(d, g) && (e.Arrive? ==> e.msg.WellSized())
    ensures HeldSlices(Step(d, g, e)) + ReleasedBy(d, g, e) == HeldSlices(g) + BufferedBy(d, g, e)
  {
    hide Ingest, GroupsOk;
    match e
    case Evict(k) => WithoutKey(g, Size, k);
    case Arrive(m) =>
      if m.frag.Some? {
        ArrivalConserves(d, g, m);
      } else {
        Unfragmented(d, g, m);
      }
  }

  lemma ArrivalConserves(d: Dims, g: Groups, m: Message)
    requires GroupsOk(d, g) && m.WellSized() && m.frag.Some?
    ensures HeldSlices(Ingest(d, g, m).0) + ReleasedBy(d, g, Arrive(m)) == HeldSlices(g) + BufferedBy(d, g, Arrive(m))
  {
    hide Ingest, GroupsOk, Joining;
    var k, a := KeyOf(m.frag.value), Joining(g, m);
    IngestEffect(d, g, m);
    JoiningSize(g, m);
    WithoutKey(g, Size, k);
    MapSizes(a.slices, m.frag.value.seqNo as nat, m.payload);
    PutIn(g, Size, k, Assembly(a.template, a.slices[m.frag.value.seqNo := m.payload]));
  }

  lemma JoiningSize(g: Groups, m: Message)
    requires m.frag.Some?
    ensures Size(Joining(g, m)) == if KeyOf(m.frag.value) in g then Size(g[KeyOf(m.frag.value)]) else 0
  {
  }

  /**
   Conservation: over every run, the slices held at the end and those released make up the
   slices held at the start and those buffered since.
   */
  lemma {:induction false} SlicesConserved(d: Dims, g: Groups, events: seq<Event>)
    requires GroupsOk(d, g)
    requires forall e <- events :: e.Arrive? ==> e.msg.WellSized()
    ensures HeldSlices(Run(d, g, events)) + ReleasedIn(d, g, events) == HeldSlices(g) + BufferedIn(d, g, events)
    decreases |events|
  {
    hide Step, BufferedBy, ReleasedBy;
    if events != [] {
      StepConserves(d, g, events[0]);
      StepKeepsGroups(d, g, events[0]);
      SlicesConserved(d, Step(d, g, events[0]), events[1..]);
    }
  }

  // ---- Provenance ----

  function Arrival(e: Event): seq<Message> {
    if e.Arrive? then [e.msg] else []
  }

  /** The messages among the events, in order of arrival. */
  function Arrivals(events: seq<Event>): seq<Message>
    decreases |events|
  {
    if events == [] then [] else Arrival(events[0]) + Arrivals(events[1..])
  }

  predicate IsFor(e: Event, k: Key) {
    e.Arrive? && e.msg.frag.Some? && KeyOf(e.msg.frag.value) == k
  }

  /** Event `o` opened group `k`, which stayed open after every later event but perhaps the last. */
  ghost predicate OpenedBy(d: Dims, events: seq<Event>, k: Key, o: nat) {
    && o < |events| && IsFor(events[o], k)
    && k !in Run(d, map[], events[..o])
    && forall j :: o < j < |events| ==> k in Run(d, map[], events[..j])
  }

  ghost predicate InLog(log: seq<Message>, k: Key, s: nat, bytes: seq<u8>) {
    exists m :: m in log && m.frag.Some? && KeyOf(m.frag.value) == k && m.frag.value.seqNo == s && m.payload == bytes
  }

  /** The header is that of event `o`, and every slice has arrived for the group since then. */
  ghost predicate HeldSince(a: Assembly, events: seq<Event>, k: Key, o: nat)
    requires o < |events| && events[o].Arrive?
  {
    && a.template == Header(events[o].msg)
    && forall s :: s in a.slices ==> InLog(Arrivals(events[o..]), k, s, a.slices[s])
  }

  /** The bytes of one message of group `k` in the log for each slice number, in order. */
  ghost predicate PutTogether(payload: seq<u8>, k: Key, log: seq<Message>) {
    exists frames: seq<Message> ::
      && |frames| == k.total
      && (forall s :: 0 <= s < |frames| ==>
           frames[s] in log && frames[s].frag == Some(Fragment(k.group, s, k.total)))
      && payload == F.Joined(frames, |frames|)
  }

  /**
   `whole` has the header of the message that opened group `k`, and is put together from
   messages of the group that are no older.
   */
  ghost predicate MadeSince(d: Dims, whole: Message, events: seq<Event>, k: Key, o: nat) {
    && OpenedBy(d, events, k, o)
    && Header(whole) == Header(events[o].msg)
    && PutTogether(whole.payload, k, Arrivals(events[o..]))
  }

  lemma {:induction false} RunLast(d: Dims, g: Groups, events: seq<Event>, e: Event)
    ensures Run(d, g, events + [e]) == Step(d, Run(d, g, events), e)
    decreases |events|
  {
    hide Step;
    if events == [] {
      assert [e][1..] == [];
    } else {
      assert (events + [e])[1..] == events[1..] + [e];
      RunLast(d, Step(d, g, events[0]), events[1..], e);
    }
  }

  lemma {:induction false} ArrivalsLast(events: seq<Event>, e: Event)
    ensures Arrivals(events + [e]) == Arrivals(events) + Arrival(e)
    decreases |events|
  {
    if events == [] {
      assert [e][1..] == [];
    } else {
      assert (events + [e])[1..] == events[1..] + [e];
      ArrivalsLast(events[1..], e);
      assert Arrival(events[0]) + (Arrivals(events[1..]) + Arrival(e))
          == Arrival(events[0]) + Arrivals(events[1..]) + Arrival(e);
    }
  }

  lemma {:induction false} RunGroupsOk(d: Dims, events: seq<Event>)
    ensures GroupsOk(d, Run(d, map[], events))
    decreases |events|
  {
    hide Step, GroupsOk, Run;
    if events == [] {
      EmptyOk(d);
    } else {
      var before, e := events[..|events| - 1], events[|events| - 1];
      assert events == before + [e];
      RunGroupsOk(d, before);
      RunLast(d, map[], before, e);
      StepKeepsGroups(d, Run(d, map[], before), e);
    }
  }

  lemma {:induction false} EmptyOk(d: Dims)
    ensures Run(d, map[], []) == map[] && GroupsOk(d, map[])
  {
  }

  /** Where what a group holds after one event comes from. */
  lemma StepOrigin(d: Dims, g: Groups, e: Event, k: Key)
    requires GroupsOk(d, g) && (e.Arrive? ==> e.msg.WellSized()) && k in Step(d, g, e)
    ensures var a := Step(d, g, e)[k];
      && (k !in g ==> IsFor(e, k))
      && a.template == (if k in g then g[k].template else Header(e.msg))
      && forall s :: s in a.slices ==>
           || (k in g && s in g[k].slices && g[k].slices[s] == a.slices[s])
           || (IsFor(e, k) && e.msg.frag.value.seqNo == s && e.msg.payload == a.slices[s])
  {
    hide Ingest, GroupsOk;
    if e.Arrive? {
      if e.msg.frag.Some? {
        IngestEffect(d, g, e.msg);
      } else {
        Unfragmented(d, g, e.msg);
      }
    }
  }

  /** Every open group was opened by some event, and holds nothing older. */
  lemma {:induction false} OpenGroupTraced(d: Dims, events: seq<Event>, k: Key) returns (o: nat)
    requires forall e <- events :: e.Arrive? ==> e.msg.WellSized()
    requires k in Run(d, map[], events)
    ensures OpenedBy(d, events, k, o) && HeldSince(Run(d, map[], events)[k], events, k, o)
    decreases |events|
  {
    hide Step, InLog, Arrivals, GroupsOk;
    assert events != [];
    var before, e := events[..|events| - 1], events[|events| - 1];
    assert events == before + [e];
    hide Run;
    var g := Run(d, map[], before);
    RunGroupsOk(d, before);
    RunLast(d, map[], before, e);
    StepOrigin(d, g, e, k);
    if k in g {
      o := OpenGroupTraced(d, before, k);
      StaysOpen(d, before, e, k, o);
      SlicesSince(g[k], Step(d, g, e)[k], before, e, k, o);
    } else {
      o := |before|;
      JustOpened(Step(d, g, e)[k], events, k);
    }
  }

  lemma {:induction false} StaysOpen(d: Dims, before: seq<Event>, e: Event, k: Key, o: nat)
    requires OpenedBy(d, before, k, o) && k in Run(d, map[], before)
    ensures OpenedBy(d, before + [e], k, o)
  {
    hide Run;
    var events := before + [e];
    assert events[..o] == before[..o];
    forall j | o < j < |events|
      ensures k in Run(d, map[], events[..j])
    {
      assert events[..j] == before[..j];
      assert before[..|before|] == before;
    }
  }

  lemma SlicesSince(a: Assembly, a': Assembly, before: seq<Event>, e: Event, k: Key, o: nat)
    requires o < |before| && before[o].Arrive? && HeldSince(a, before, k, o) && a'.template == a.template
    requires forall s :: s in a'.slices ==>
               || (s in a.slices && a.slices[s] == a'.slices[s])
               || (IsFor(e, k) && e.msg.frag.value.seqNo == s && e.msg.payload == a'.slices[s])
    ensures HeldSince(a', before + [e], k, o)
  {
    hide Arrivals;
    ArrivalsLast(before[o..], e);
    assert (before + [e])[o..] == before[o..] + [e];
  }

  lemma JustOpened(a: Assembly, events: seq<Event>, k: Key)
    requires events != [] && IsFor(events[|events| - 1], k) && a.template == Header(events[|events| - 1].msg)
    requires forall s :: s in a.slices ==>
               events[|events| - 1].msg.frag.value.seqNo == s && events[|events| - 1].msg.payload == a.slices[s]
    ensures HeldSince(a, events, k, |events| - 1)
  {
    var e := events[|events| - 1];
    assert events[|events| - 1..] == [e];
    assert Arrivals([e]) == [e.msg] + Arrivals([]);
  }

  /**
   Provenance: whatever has happened before, a message delivered for a group has the header
   of the message that opened the group, and consists of one slice for each slice number,
   in order, all of which arrived for that very group since it was opened. Slices of
   different groups, or of an earlier group of the same name, are never mixed in.
   */
  lemma {:induction false} DeliveredIsGenuine(d: Dims, events: seq<Event>, m: Message)
    requires forall e <- events :: e.Arrive? ==> e.msg.WellSized()
    requires m.WellSized() && m.frag.Some?
    requires Ingest(d, Run(d, map[], events), m).1.Complete?
    ensures exists o :: MadeSince(d, Ingest(d, Run(d, map[], events), m).1.msg, events + [Arrive(m)],
                                  KeyOf(m.frag.value), o)
  {
    hide Ingest, Run, Arrivals, InLog, GroupsOk;
    var g, k, all := Run(d, map[], events), KeyOf(m.frag.value), events + [Arrive(m)];
    RunGroupsOk(d, events);
    var o: nat;
    if k in g {
      o := OpenGroupTraced(d, events, k);
      StaysOpen(d, events, Arrive(m), k, o);
      CompletedSince(d, g, events, m, o);
    } else {
      o := |events|;
      assert all[..o] == events;
      CompletedAtOnce(d, g, events, m);
    }
    assert MadeSince(d, Ingest(d, g, m).1.msg, all, k, o);
  }

  lemma CompletedSince(d: Dims, g: Groups, events: seq<Event>, m: Message, o: nat)
    requires GroupsOk(d, g) && m.WellSized() && m.frag.Some? && Ingest(d, g, m).1.Complete?
    requires KeyOf(m.frag.value) in g && o < |events| && events[o].Arrive?
    requires HeldSince(g[KeyOf(m.frag.value)], events, KeyOf(m.frag.value), o)
    ensures var whole, k, log := Ingest(d, g, m).1.msg, KeyOf(m.frag.value), Arrivals((events + [Arrive(m)])[o..]);
      && Header(whole) == Header(events[o].msg)
      && PutTogether(whole.payload, k, log)
  {
    hide Ingest, InLog, GroupsOk, Arrivals;
    var k := KeyOf(m.frag.value);
    var after := Assembly(g[k].template, g[k].slices[m.frag.value.seqNo := m.payload]);
    SlicesSince(g[k], after, events, Arrive(m), k, o);
    CompletionFrames(d, g, m, Arrivals((events + [Arrive(m)])[o..]));
  }

  lemma CompletedAtOnce(d: Dims, g: Groups, events: seq<Event>, m: Message)
    requires GroupsOk(d, g) && m.WellSized() && m.frag.Some? && Ingest(d, g, m).1.Complete?
    requires KeyOf(m.frag.value) !in g
    ensures var whole, k, log := Ingest(d, g, m).1.msg, KeyOf(m.frag.value),
                                 Arrivals((events + [Arrive(m)])[|events|..]);
      && Header(whole) == Header(m)
      && PutTogether(whole.payload, k, log)
  {
    hide Ingest, InLog, GroupsOk, Arrivals;
    var all := events + [Arrive(m)];
    JustOpened(Assembly(Header(m), map[m.frag.value.seqNo as nat := m.payload]), all, KeyOf(m.frag.value));
    CompletionFrames(d, g, m, Arrivals(all[|events|..]));
  }

  /** A completed message is put together from the log, if all its slices are in it. */
  lemma CompletionFrames(d: Dims, g: Groups, m: Message, log: seq<Message>)
    requires GroupsOk(d, g) && m.WellSized() && m.frag.Some? && Ingest(d, g, m).1.Complete?
    requires var slices := Joining(g, m).slices[m.frag.value.seqNo := m.payload];
      forall s :: s in slices ==> InLog(log, KeyOf(m.frag.value), s, slices[s])
    ensures var whole, k := Ingest(d, g, m).1.msg, KeyOf(m.frag.value);
      && Header(whole) == Joining(g, m).template
      && PutTogether(whole.payload, k, log)
  {
    hide Ingest, InLog, Concat, Joining, GroupsOk;
    var k, a := KeyOf(m.frag.value), Joining(g, m);
    var slices := a.slices[m.frag.value.seqNo := m.payload];
    CompletionContents(d, g, m);
    FullSet(slices.Keys, k.total);
    var frames := FramesOf(log, k, slices, k.total);
    ConcatJoins(slices, frames, k.total);
  }

  lemma CompletionContents(d: Dims, g: Groups, m: Message)
    requires GroupsOk(d, g) && m.WellSized() && m.frag.Some?
    requires Ingest(d, g, m).1.Complete?
    ensures var k, a := KeyOf(m.frag.value), Joining(g, m);
      var slices := a.slices[m.frag.value.seqNo := m.payload];
      && |slices| == k.total
      && (forall s :: s in slices.Keys ==> s < k.total)
      && Ingest(d, g, m).1.msg == a.template.(payload := Concat(slices, k.total), frag := None)
      && Header(a.template) == a.template
  {
    MapSizes(Joining(g, m).slices, m.frag.value.seqNo as nat, m.payload);
  }

  /** One logged message for each of the first `n` slices. */
  lemma {:induction false} FramesOf(log: seq<Message>, k: Key, slices: map<nat, seq<u8>>, n: nat)
    returns (frames: seq<Message>)
    requires n <= k.total
    requires forall s :: 0 <= s < n ==> s in slices && InLog(log, k, s, slices[s])
    ensures |frames| == n
    ensures forall s :: 0 <= s < n ==>
              && frames[s] in log && frames[s].frag == Some(Fragment(k.group, s, k.total))
              && frames[s].payload == slices[s]
  {
    frames := [];
    if n > 0 {
      frames := FramesOf(log, k, slices, n - 1);
      assert InLog(log, k, n - 1, slices[n - 1]);
      var m :| m in log && m.frag.Some? && KeyOf(m.frag.value) == k && m.frag.value.seqNo == n - 1
               && m.payload == slices[n - 1];
      frames := frames + [m];
    }
  }
}
