/**
 Messages as they arrive at a relay: a message and the frames it was put into.
 */
module Transfers {
  import opened Wrappers
  import opened Proto
  import opened Dedup
  import opened Seen
  import opened RelaySpec
  import opened AtMostOnce
  import F = Fragmenter
  import R = Reassembly
  import Sums
  import Wire

  /** A message as it arrives: its frames, all from one split, with the arrival transport as origin. */
  datatype Transfer = Transfer(whole: Message, frames: seq<Message>, group: u32) {
    function Key(): R.Key
      requires |frames| < 0x1_0000
    {
      R.Key(group, |frames|)
    }

    /** The group its frames open, if there are several. */
    function OwnGroups(): set<R.Key>
      requires |frames| < 0x1_0000
    {
      if |frames| > 1 then {Key()} else {}
    }
  }

  /** The frames are the unfragmented message, or a split of it that the relay has room to reassemble. */
  ghost predicate Sound(c: Config, x: Transfer) {
    && x.whole.frag.None? && x.whole.WellSized()
    && (x.frames == [x.whole] || R.Fits(c.dims, x.whole, x.frames, x.group))
  }

  predicate IsCopy(a: Arrival, x: Transfer, s: nat) {
    s < |x.frames| && Frame(a) == Some(x.frames[s])
  }

  /** No open group but those in `own` belongs to message `id`. */
  ghost predicate OthersForeign(g: R.Groups, id: u32, own: set<R.Key>) {
    forall k :: k in g && k !in own ==> g[k].template.id != id
  }

  /** Whether a part that arrives next would find its group open or a slot free. */
  ghost predicate HasSlot(c: Config, s: State, x: Transfer)
    requires |x.frames| < 0x1_0000
  {
    |x.frames| == 1 || x.Key() in s.groups || |s.groups| < c.dims.slots
  }

  // ---- Keys and copies ----

  lemma PartKeysDiffer(c: Config, x: Transfer, i: nat, j: nat)
    requires Sound(c, x) && i < |x.frames| && j < |x.frames| && i != j
    ensures DedupKey(x.frames[i]) != DedupKey(x.frames[j])
  {
    SlicesKeepApart(x.whole.id, i, j);
  }

  /** The message in one piece has the key of its first frame. */
  lemma FirstKey(c: Config, x: Transfer)
    requires Sound(c, x)
    ensures |x.frames| > 0 && DedupKey(x.frames[0]) == x.whole.id == DedupKey(x.whole)
  {
    hide SliceKey;
    SliceZeroKey(x.whole.id);
  }

  lemma PartOrigin(c: Config, a: Arrival, x: Transfer, i: nat)
    requires Sound(c, x) && IsCopy(a, x, i)
    ensures x.whole.origin == a.source && x.whole == x.whole.(origin := a.source)
  {
    hide Wire.DecodeMessage, F.Joined;
  }

  // ---- One step ----

  lemma NewlySeen(seen: seq<u32>, key: u32, other: u32)
    requires other !in Recent(seen, SEEN_WINDOW) && other != key
    ensures other !in Recent(seen + [key], SEEN_WINDOW)
  {
    RecentAfter(seen, SEEN_WINDOW, key);
  }

  lemma SeenSuffix(seen: seq<u32>, key: u32, start: nat)
    requires start <= |seen|
    ensures (seen + [key])[start..] == seen[start..] + [key]
  {
  }

  lemma StillRecent(seen: seq<u32>, key: u32, start: nat)
    requires start <= |seen| <= start + SEEN_WINDOW && key in seen[start..]
    ensures key in Recent(seen, SEEN_WINDOW)
  {
    var i :| 0 <= i < |seen[start..]| && seen[start..][i] == key;
    RecentHolds(seen, SEEN_WINDOW, start + i);
  }

  /** A message of another id, outside the own groups, hands out nothing of this id. */
  lemma OtherIdStays(d: R.Dims, g: R.Groups, m: Message, id: u32, own: set<R.Key>)
    requires OthersForeign(g, id, own) && m.id != id
    requires m.frag.Some? ==> R.KeyOf(m.frag.value) !in own
    ensures OthersForeign(R.Ingest(d, g, m).0, id, own)
    ensures Handed(R.Ingest(d, g, m).1, id) == 0
  {
    hide R.Concat, R.GoodHeader;
  }

  /** A frame whose key is not remembered goes to the reassembler, and its key is recorded. */
  lemma TakenAsNew(c: Config, s: State, a: Arrival)
    requires Frame(a).Some? && DedupKey(Frame(a).value) !in Recent(s.seen, SEEN_WINDOW)
    ensures var (s', r) := Ingest(c, s, a.source, a.bytes);
      var (g, o) := R.Ingest(c.dims, s.groups, Frame(a).value);
      s'.groups == g && s'.seen == s.seen + [DedupKey(Frame(a).value)] && r == Told(c, o)
  {
    hide R.Ingest, DedupKey, Recent, Wire.DecodeMessage;
  }

  // ---- Runs and sets ----

  /** The seen history only grows. */
  lemma {:induction false} SeenGrows(c: Config, s: State, run: seq<Arrival>)
    ensures |s.seen| <= |RunRelay(c, s, run).0.seen|
    decreases |run|
  {
    hide R.Ingest, Wire.DecodeMessage, DedupKey;
    if run != [] {
      SeenGrows(c, Ingest(c, s, run[0].source, run[0].bytes).0, run[1..]);
    }
  }

  /** A run records at most one key per arrival. */
  lemma {:induction false} SeenBound(c: Config, s: State, run: seq<Arrival>)
    ensures |RunRelay(c, s, run).0.seen| <= |s.seen| + |run|
    decreases |run|
  {
    hide R.Ingest, Wire.DecodeMessage, DedupKey, Recent;
    if run != [] {
      SeenBound(c, Ingest(c, s, run[0].source, run[0].bytes).0, run[1..]);
    }
  }

  /** A set of numbers below n has n members exactly when it leaves none out. */
  lemma AllOrNot(s: set<nat>, n: nat)
    requires forall i :: i in s ==> i < n
    ensures |s| == n <==> forall i: nat :: i < n ==> i in s
  {
    Sums.FullSet(s, n);
    if forall i: nat :: i < n ==> i in s {
      AllOfThem(s, n);
    }
  }

  lemma {:induction false} AllOfThem(s: set<nat>, n: nat)
    requires forall i: nat :: i < n ==> i in s
    ensures |s| >= n
  {
    if n > 0 {
      AllOfThem(s - {n - 1}, n - 1);
    }
  }

  // ---- Frames on the air ----

  /** The frames planned for one transport, as they arrive over it. */
  function Received(whole: Message, frames: seq<Message>, group: u32, t: Transport): Transfer {
    Transfer(whole.(origin := t), seq(|frames|, (i: nat) requires i < |frames| => frames[i].(origin := t)), group)
  }

  /** Splitting a message for a transport and encoding the frames gives a sound transfer. */
  lemma SentFramesArrive(c: Config, m: Message, t: Transport, group: u32, frames: seq<Message>)
    requires m.frag.None? && m.WellSized() && 2 <= c.dims.perSlot
    requires F.SplitAt(m, F.Mtu(t), group) == Ok(frames)
    ensures Sound(c, Received(m, frames, group, t))
    ensures forall i :: 0 <= i < |frames| ==>
              IsCopy(Arrival(t, Wire.Encode(frames[i])), Received(m, frames, group, t), i)
  {
    F.SplitCorrect(m, F.Mtu(t), group);
    F.RealTransportsSplit(m, t, group);
    if |m.payload| > F.Mtu(t) {
      F.SplitMovesOrigin(frames, m, group, t);
    }
    forall i | 0 <= i < |frames|
      ensures IsCopy(Arrival(t, Wire.Encode(frames[i])), Received(m, frames, group, t), i)
    {
      Wire.MessageRoundTrip(frames[i], []);
    }
  }
}
