/**
 What reassembly means: a partial map from group keys to the slices received so far.
 The slot array of `Reassembler.dfy` is proved to behave like this map.
 */
module Reassembly {
  import opened Wrappers
  import opened Proto
  import opened Sums
  import F = Fragmenter

  /** The reassembler tells groups apart by group id and total only. */
  datatype Key = Key(group: u32, total: u16)

  /** A group in assembly: the header to deliver, and the slices held. */
  datatype Assembly = Assembly(template: Message, slices: map<nat, seq<u8>>)

  type Groups = map<Key, Assembly>

  datatype RejectReason = NoSlot | BadHeader | DuplicateSlice | PayloadTooLarge

  datatype Outcome = Passthrough(msg: Message) | Buffered | Complete(msg: Message) | Dropped(reason: RejectReason)

  /** The const generics of the code: slots, slices per slot. */
  datatype Dims = Dims(slots: nat, perSlot: nat)

  function KeyOf(f: Fragment): Key {
    Key(f.groupId, f.total)
  }

  function Header(m: Message): Message {
    m.(payload := [], frag := None)
  }

  function Concat(slices: map<nat, seq<u8>>, n: nat): seq<u8> {
    if n == 0 then []
    else Concat(slices, n - 1) + (if n - 1 in slices then slices[n - 1] else [])
  }

  predicate GoodHeader(d: Dims, f: Fragment) {
    f.total != 0 && f.seqNo < f.total && f.total <= d.perSlot && f.total <= 64
  }

  /** The group a slice joins: the open one, or a new one with this message's header. */
  function Joining(g: Groups, m: Message): Assembly
    requires m.frag.Some?
  {
    var k := KeyOf(m.frag.value);
    if k in g then g[k] else Assembly(Header(m), map[])
  }

  /** One call of `Reassembler::ingest`. */
  function Ingest(d: Dims, g: Groups, m: Message): (Groups, Outcome) {
    match m.frag
    case None => (g, Passthrough(m))
    case Some(f) =>
      var k := KeyOf(f);
      if !GoodHeader(d, f) then (g, Dropped(BadHeader))
      else if k !in g && |g| >= d.slots then (g, Dropped(NoSlot))
      else if f.seqNo in Joining(g, m).slices then (g, Dropped(DuplicateSlice))
      else if |m.payload| > MAX_PAYLOAD then (g - {k}, Dropped(RejectReason.PayloadTooLarge))
      else
        var a := Joining(g, m);
        var slices := a.slices[f.seqNo := m.payload];
        if |slices| < f.total then (g[k := Assembly(a.template, slices)], Buffered)
        else if |Concat(slices, f.total)| > MAX_PAYLOAD then (g - {k}, Dropped(RejectReason.PayloadTooLarge))
        else (g - {k}, Complete(a.template.(payload := Concat(slices, f.total), frag := None)))
  }

  function IngestAll(d: Dims, g: Groups, ms: seq<Message>): (Groups, seq<Outcome>)
    decreases |ms|
  {
    if ms == [] then (g, [])
    else
      var (g1, o) := Ingest(d, g, ms[0]);
      var (g2, os) := IngestAll(d, g1, ms[1..]);
      (g2, [o] + os)
  }

  // ---- The invariant of every reachable state ----

  ghost predicate OpenGroup(d: Dims, k: Key, a: Assembly) {
    && 1 <= |a.slices| < k.total <= 64 && k.total <= d.perSlot
    && (forall s :: s in a.slices ==> s < k.total)
    && a.template.frag.None? && a.template.payload == []
  }

  ghost predicate GroupsOk(d: Dims, g: Groups) {
    && |g| <= d.slots
    && forall k :: k in g ==> OpenGroup(d, k, g[k])
  }

  /** Every ingest keeps the invariant. */
  lemma IngestKeepsGroups(d: Dims, g: Groups, m: Message)
    requires GroupsOk(d, g)
    ensures GroupsOk(d, Ingest(d, g, m).0)
  {
    if Ingest(d, g, m).1.Buffered? {
      GrownGroupIsOpen(d, g, m);
      var k := KeyOf(m.frag.value);
      StoringKeeps(d, g, k, Ingest(d, g, m).0[k]);
    } else {
      OnlyBufferingStores(d, g, m);
      if m.frag.Some? {
        DroppingKeeps(d, g, KeyOf(m.frag.value));
      }
    }
  }

  lemma OnlyBufferingStores(d: Dims, g: Groups, m: Message)
    requires !Ingest(d, g, m).1.Buffered?
    ensures Ingest(d, g, m).0 == g
            || (m.frag.Some? && Ingest(d, g, m).0 == g - {KeyOf(m.frag.value)})
  {
  }

  lemma GrownGroupIsOpen(d: Dims, g: Groups, m: Message)
    requires GroupsOk(d, g) && Ingest(d, g, m).1.Buffered?
    ensures var k := KeyOf(m.frag.value);
      var g' := Ingest(d, g, m).0;
      && k in g' && OpenGroup(d, k, g'[k])
      && g' == g[k := g'[k]]
      && (k in g || |g| < d.slots)
  {
    var a := Joining(g, m);
    hide Concat;
    assert forall s :: s in a.slices ==> s < m.frag.value.total;
    MapSizes(a.slices, m.frag.value.seqNo as nat, m.payload);
  }

  /** What a completed group delivers is whole and fits one message. */
  lemma DeliveredIsWhole(d: Dims, g: Groups, m: Message)
    requires Ingest(d, g, m).1.Complete?
    ensures Ingest(d, g, m).1.msg.WellSized() && Ingest(d, g, m).1.msg.frag.None?
  {
  }

  lemma StoringKeeps(d: Dims, g: Groups, k: Key, a: Assembly)
    requires GroupsOk(d, g) && OpenGroup(d, k, a)
    requires k in g || |g| < d.slots
    ensures GroupsOk(d, g[k := a])
  {
    MapSizes(g, k, a);
  }

  lemma DroppingKeeps(d: Dims, g: Groups, k: Key)
    requires GroupsOk(d, g)
    ensures GroupsOk(d, g - {k})
  {
    if k in g {
      MapSizes(g, k, g[k]);
    } else {
      assert g - {k} == g;
    }
  }

  lemma {:induction false} RunKeepsGroups(d: Dims, g: Groups, ms: seq<Message>)
    requires GroupsOk(d, g)
    ensures GroupsOk(d, IngestAll(d, g, ms).0)
    decreases |ms|
  {
    if ms != [] {
      IngestKeepsGroups(d, g, ms[0]);
      RunKeepsGroups(d, Ingest(d, g, ms[0]).0, ms[1..]);
    }
  }

  /** A message touches its own group at most. */
  lemma OtherGroupsUntouched(d: Dims, g: Groups, m: Message, k: Key)
    requires m.frag.Some? ==> KeyOf(m.frag.value) != k
    ensures k in Ingest(d, g, m).0 <==> k in g
    ensures k in g ==> Ingest(d, g, m).0[k] == g[k]
  {
  }

  /** Overflow while copying one slice cannot happen: only a whole group can be too large. */
  lemma OverflowOnlyWhenComplete(d: Dims, g: Groups, m: Message)
    requires GroupsOk(d, g) && m.WellSized()
    requires Ingest(d, g, m).1 == Dropped(RejectReason.PayloadTooLarge)
    ensures m.frag.Some?
    ensures |Joining(g, m).slices| + 1 == m.frag.value.total
    ensures |Concat(Joining(g, m).slices[m.frag.value.seqNo := m.payload], m.frag.value.total)| > MAX_PAYLOAD
  {
  }

  /**
   Which slice gets which answer. The header is looked at first, then whether there is a slot,
   then whether the slice is held already; the last slice missing completes the message, unless
   it has become too large.
   */
  lemma AnswerDecided(d: Dims, g: Groups, m: Message)
    requires GroupsOk(d, g) && m.WellSized() && m.frag.Some?
    ensures var f, k, o := m.frag.value, Key(m.frag.value.groupId, m.frag.value.total), Ingest(d, g, m).1;
      var bad := f.total == 0 || f.seqNo >= f.total || f.total > d.perSlot || f.total > 64;
      var full := k !in g && |g| >= d.slots;
      var known := k in g && f.seqNo in g[k].slices;
      var last := f.total == 1 + if k in g then |g[k].slices| else 0;
      && (o == Dropped(BadHeader) <==> bad)
      && (o == Dropped(NoSlot) <==> !bad && full)
      && (o == Dropped(DuplicateSlice) <==> !bad && known)
      && (o == Buffered <==> !bad && !full && !known && !last)
      && (o.Complete? || o == Dropped(RejectReason.PayloadTooLarge) <==> !bad && !full && !known && last)
      && (o.Complete? ==> |o.msg.payload| <= 200)
  {
    hide Concat;
    var a := Joining(g, m);
    MapSizes(a.slices, m.frag.value.seqNo as nat, m.payload);
  }

  lemma Unfragmented(d: Dims, g: Groups, m: Message)
    requires m.frag.None?
    ensures Ingest(d, g, m) == (g, Passthrough(m))
  {
  }

  /** The four ways an ingest can change the groups, and the answer that goes with each. */
  lemma IngestEffect(d: Dims, g: Groups, m: Message)
    requires GroupsOk(d, g) && m.WellSized() && m.frag.Some?
    ensures var k, a := KeyOf(m.frag.value), Joining(g, m);
      var (g', o) := Ingest(d, g, m);
      if o.Buffered? then
        && m.frag.value.seqNo !in a.slices
        && g' == g[k := Assembly(a.template, a.slices[m.frag.value.seqNo := m.payload])]
      else if o.Complete? || o == Dropped(RejectReason.PayloadTooLarge) then
        g' == g - {k} && |a.slices| + 1 == k.total && (k !in g ==> a.slices == map[])
      else
        o.Dropped? && g' == g
  {
    hide Ingest;
    var o := Ingest(d, g, m).1;
    if o.Buffered? {
      BufferedEffect(d, g, m);
    } else if o.Complete? || o == Dropped(RejectReason.PayloadTooLarge) {
      FinishedEffect(d, g, m);
    } else {
      OtherEffect(d, g, m);
    }
  }

  lemma BufferedEffect(d: Dims, g: Groups, m: Message)
    requires m.frag.Some? && Ingest(d, g, m).1.Buffered?
    ensures var k, a := KeyOf(m.frag.value), Joining(g, m);
      && m.frag.value.seqNo !in a.slices
      && Ingest(d, g, m).0 == g[k := Assembly(a.template, a.slices[m.frag.value.seqNo := m.payload])]
  {
    hide Concat, GoodHeader;
  }

  lemma FinishedEffect(d: Dims, g: Groups, m: Message)
    requires GroupsOk(d, g) && m.WellSized() && m.frag.Some?
    requires Ingest(d, g, m).1.Complete? || Ingest(d, g, m).1 == Dropped(RejectReason.PayloadTooLarge)
    ensures var k, a := KeyOf(m.frag.value), Joining(g, m);
      && Ingest(d, g, m).0 == g - {k} && |a.slices| + 1 == k.total && (k !in g ==> a.slices == map[])
  {
    hide Concat;
    var k, a, seqNo := KeyOf(m.frag.value), Joining(g, m), m.frag.value.seqNo as nat;
    MapSizes(a.slices, seqNo, m.payload);
    assert k in g ==> OpenGroup(d, k, g[k]);
  }

  lemma OtherEffect(d: Dims, g: Groups, m: Message)
    requires m.frag.Some? && !Ingest(d, g, m).1.Buffered? && !Ingest(d, g, m).1.Complete?
    requires Ingest(d, g, m).1 != Dropped(RejectReason.PayloadTooLarge)
    ensures Ingest(d, g, m).1.Dropped? && Ingest(d, g, m).0 == g
  {
    hide Concat, GoodHeader, Joining;
  }

  // ---- Splitting and reassembling ----

  ghost predicate Holds(a: Assembly, whole: Message, frames: seq<Message>, got: set<nat>) {
    && a.template == Header(whole)
    && a.slices.Keys == got
    && forall s :: s in got && s < |frames| ==> a.slices[s] == frames[s].payload
  }

  /** Of the slices of one split, exactly those in `got` have arrived. */
  ghost predicate Progress(g: Groups, whole: Message, frames: seq<Message>, k: Key, got: set<nat>) {
    && (forall s :: s in got ==> s < |frames|)
    && if got == {} || |got| == |frames| then k !in g
       else k in g && Holds(g[k], whole, frames, got)
  }

  /** The frames of one whole message, small enough for the reassembler. */
  ghost predicate Fits(d: Dims, whole: Message, frames: seq<Message>, group: u32) {
    && F.IsSplit(frames, whole, group)
    && whole.WellSized()
    && |frames| <= d.perSlot && |frames| <= 64
  }

  lemma {:induction false} PartFits(frames: seq<Message>, n: nat, s: nat)
    requires s < n <= |frames|
    ensures |frames[s].payload| <= |F.Joined(frames, n)|
  {
    if s < n - 1 { PartFits(frames, n - 1, s); }
  }

  lemma {:induction false} ConcatJoins(slices: map<nat, seq<u8>>, frames: seq<Message>, n: nat)
    requires n <= |frames|
    requires forall s :: 0 <= s < n ==> s in slices && slices[s] == frames[s].payload
    ensures Concat(slices, n) == F.Joined(frames, n)
  {
    if n > 0 { ConcatJoins(slices, frames, n - 1); }
  }

  lemma SliceExtends(d: Dims, g: Groups, whole: Message, frames: seq<Message>, group: u32, got: set<nat>, s: nat)
    requires Fits(d, whole, frames, group)
    requires Progress(g, whole, frames, Key(group, |frames|), got)
    requires |got| < |frames| && s < |frames| && s !in got
    ensures var k := Key(group, |frames|);
      && frames[s].frag == Some(Fragment(group, s, |frames|)) && GoodHeader(d, frames[s].frag.value)
      && Joining(g, frames[s]).template == Header(whole)
      && Joining(g, frames[s]).slices.Keys == got
      && Holds(Joining(g, frames[s]).(slices := Joining(g, frames[s]).slices[s := frames[s].payload]),
               whole, frames, got + {s})
      && |frames[s].payload| <= MAX_PAYLOAD
  {
    PartFits(frames, |frames|, s);
  }

  /** One more slice of a split: buffered, unless it is the last one missing. */
  lemma SliceStep(d: Dims, g: Groups, whole: Message, frames: seq<Message>, group: u32, got: set<nat>, s: nat)
    requires Fits(d, whole, frames, group)
    requires Progress(g, whole, frames, Key(group, |frames|), got)
    requires |got| < |frames| && s < |frames| && s !in got
    requires Key(group, |frames|) in g || |g| < d.slots
    ensures Progress(Ingest(d, g, frames[s]).0, whole, frames, Key(group, |frames|), got + {s})
    ensures Ingest(d, g, frames[s]).1 == if |got| + 1 < |frames| then Buffered else Complete(whole)
    ensures Ingest(d, g, frames[s]).0 - {Key(group, |frames|)} == g - {Key(group, |frames|)}
  {
    var k, n := Key(group, |frames|), |frames|;
    SliceExtends(d, g, whole, frames, group, got, s);
    OneGroupChanges(d, g, frames[s]);
    var slices := Joining(g, frames[s]).slices[s := frames[s].payload];
    assert slices.Keys == got + {s};
    assert |slices| == |got| + 1;
    if |got| + 1 == n {
      FullSet(got + {s}, n);
      ConcatJoins(slices, frames, n);
    }
  }

  /** The set of slice numbers among the first `n` entries of `order`. */
  ghost function Arrived(order: seq<nat>, n: nat): set<nat>
    requires n <= |order|
  {
    if n == 0 then {} else Arrived(order, n - 1) + {order[n - 1]}
  }

  ghost predicate IsOrder(order: seq<nat>, n: nat) {
    && |order| == n
    && (forall i :: 0 <= i < n ==> order[i] < n)
    && forall i, j :: 0 <= i < j < n ==> order[i] != order[j]
  }

  /** `n` answers: `Buffered` for all but the last, then the message. */
  function BufferedThen(n: nat, whole: Message): seq<Outcome> {
    if n == 0 then [] else [if n == 1 then Complete(whole) else Buffered] + BufferedThen(n - 1, whole)
  }

  /**
   Split and reassemble: the slices of a message, fed in any order to a reassembler with
   a free slot, are buffered one by one, and the last one gives the message back, leaving
   every other group as it was.
   */
  lemma {:induction false} AnyOrderReassembles(d: Dims, g: Groups, whole: Message, frames: seq<Message>, group: u32,
                            order: seq<nat>, run: seq<Message>)
    requires Fits(d, whole, frames, group)
    requires Key(group, |frames|) !in g && |g| < d.slots
    requires IsOrder(order, |frames|)
    requires |run| == |order| && forall i :: 0 <= i < |run| ==> run[i] == frames[order[i]]
    ensures IngestAll(d, g, run) == (g, BufferedThen(|frames|, whole))
  {
    hide Ingest;
    AnyOrderFrom(d, g, g, whole, frames, group, order, run, 0);
    assert run[0..] == run;
  }

  lemma {:induction false} AnyOrderFrom(d: Dims, start: Groups, g: Groups, whole: Message, frames: seq<Message>,
                                        group: u32, order: seq<nat>, run: seq<Message>, i: nat)
    requires Fits(d, whole, frames, group)
    requires IsOrder(order, |order|) && |order| == |frames| && i <= |order|
    requires |run| == |order| && forall i :: 0 <= i < |run| ==> run[i] == frames[order[i]]
    requires Progress(g, whole, frames, Key(group, |frames|), Arrived(order, i)) && |Arrived(order, i)| == i
    requires Key(group, |frames|) in g || |g| < d.slots || i == |order|
    requires Key(group, |frames|) !in start && g - {Key(group, |frames|)} == start
    ensures IngestAll(d, g, run[i..]) == (start, BufferedThen(|order| - i, whole))
    decreases |order| - i
  {
    hide Ingest, Holds, F.IsSplit, Arrived, IsOrder;
    if i == |order| {
      assert g == g - {Key(group, |frames|)};
    } else {
      ArrivedGrows(order, i);
      SliceStep(d, g, whole, frames, group, Arrived(order, i), order[i]);
      AnyOrderFrom(d, start, Ingest(d, g, run[i]).0, whole, frames, group, order, run, i + 1);
      assert run[i..][0] == run[i] && run[i..][1..] == run[i + 1..];
    }
  }

  lemma OneGroupChanges(d: Dims, g: Groups, m: Message)
    requires m.frag.Some?
    ensures Ingest(d, g, m).0 - {KeyOf(m.frag.value)} == g - {KeyOf(m.frag.value)}
  {
    hide Concat, GoodHeader, Joining;
  }

  lemma {:induction false} NotYetArrived(order: seq<nat>, n: nat, m: nat)
    requires IsOrder(order, |order|) && n <= m < |order|
    ensures order[m] !in Arrived(order, n)
  {
    if n > 0 { NotYetArrived(order, n - 1, m); }
  }

  lemma {:induction false} ArrivedGrows(order: seq<nat>, n: nat)
    requires IsOrder(order, |order|) && n < |order|
    ensures |Arrived(order, n)| == n && order[n] !in Arrived(order, n) && order[n] < |order|
    ensures Arrived(order, n + 1) == Arrived(order, n) + {order[n]}
    ensures |Arrived(order, n + 1)| == n + 1
  {
    NotYetArrived(order, n, n);
    if n > 0 { ArrivedGrows(order, n - 1); }
  }
}
