/**
 A message that reaches a relay in several versions, as it does in a flood: every bridge
 that forwards it splits it anew, under a group of its own, or sends it unsliced. All
 versions compete for the same keys, since `id ^ (seq << 16)` says nothing of the group.
 */
module Versions {
  import opened Wrappers
  import opened Proto
  import opened Dedup
  import opened Seen
  import opened RelaySpec
  import opened AtMostOnce
  import opened Transfers
  import R = Reassembly
  import Sums
  import Wire

  predicate Sliced(x: Transfer) {
    |x.frames| > 1
  }

  /** Two versions in slices have groups of their own; two unsliced ones differ, in hops left or origin. */
  predicate Apart(x: Transfer, y: Transfer) {
    && (Sliced(x) && Sliced(y) ==> x.group != y.group || |x.frames| != |y.frames|)
    && (!Sliced(x) && !Sliced(y) ==> x.whole != y.whole)
  }

  /** Versions of message `id`, in no more than `n` slices. */
  ghost predicate OneMessage(c: Config, id: u32, n: nat, xs: seq<Transfer>) {
    && n <= 64
    && (forall v :: 0 <= v < |xs| ==> Sound(c, xs[v]) && xs[v].whole.id == id && 0 < |xs[v].frames| <= n)
    && (forall u, v :: 0 <= u < v < |xs| ==> Apart(xs[u], xs[v]))
  }

  /** `a` brings slice `i` of version `v`. */
  predicate Brings(a: Arrival, xs: seq<Transfer>, v: nat, i: nat) {
    v < |xs| && IsCopy(a, xs[v], i)
  }

  /** The groups that the sliced versions open. */
  ghost function Homes(xs: seq<Transfer>): set<R.Key>
    requires forall v :: 0 <= v < |xs| ==> |xs[v].frames| < 0x1_0000
  {
    set v | 0 <= v < |xs| && Sliced(xs[v]) :: xs[v].Key()
  }

  /** Traffic of other messages, groups and keys. */
  ghost predicate Foreign(a: Arrival, id: u32, n: nat, xs: seq<Transfer>)
    requires n <= 64 && forall v :: 0 <= v < |xs| ==> |xs[v].frames| <= n
  {
    Frame(a).Some? ==>
      var m := Frame(a).value;
      && m.id != id
      && (forall i :: 0 <= i < n ==> DedupKey(m) != SliceKey(id, i))
      && (m.frag.Some? ==> R.KeyOf(m.frag.value) !in Homes(xs))
  }

  /** `a` brings a slice of some version, or one of them unsliced. */
  ghost predicate IsVersion(a: Arrival, xs: seq<Transfer>) {
    exists v: nat, i: nat :: Brings(a, xs, v, i)
  }

  ghost predicate Belongs(a: Arrival, id: u32, n: nat, xs: seq<Transfer>)
    requires n <= 64 && forall v :: 0 <= v < |xs| ==> |xs[v].frames| <= n
  {
    IsVersion(a, xs) || Foreign(a, id, n, xs)
  }

  /** Version `v` wins slice number `i`: its copy is the first to arrive of all versions'. */
  ghost predicate Wins(run: seq<Arrival>, xs: seq<Transfer>, v: nat, i: nat) {
    exists j :: 0 <= j < |run| && Brings(run[j], xs, v, i) && Earliest(run, xs, i, j)
  }

  ghost predicate Earliest(run: seq<Arrival>, xs: seq<Transfer>, i: nat, j: nat)
    requires j <= |run|
  {
    forall h, u: nat :: 0 <= h < j ==> !Brings(run[h], xs, u, i)
  }

  ghost predicate WinsAll(run: seq<Arrival>, xs: seq<Transfer>, v: nat)
    requires v < |xs|
  {
    forall i: nat :: i < |xs[v].frames| ==> Wins(run, xs, v, i)
  }

  // ---- The ledger: which version has won which slice number ----

  type Ledger = map<nat, nat>

  ghost function Share(won: Ledger, v: nat): set<nat> {
    set i | i in won && won[i] == v
  }

  /** Some version has won all its slices: the one that won number 0. */
  ghost predicate Settled(won: Ledger, xs: seq<Transfer>) {
    0 in won && won[0] < |xs| && forall i: nat :: i < |xs[won[0]].frames| ==> i in won && won[i] == won[0]
  }

  ghost predicate Entries(won: Ledger, xs: seq<Transfer>) {
    forall i :: i in won ==> won[i] < |xs| && i < |xs[won[i]].frames|
  }

  /** Every sliced version has the slices it won in its group, and no other group is of this message. */
  ghost predicate Shelved(g: R.Groups, id: u32, xs: seq<Transfer>, won: Ledger)
    requires forall v :: 0 <= v < |xs| ==> |xs[v].frames| <= 64
  {
    && (forall v :: 0 <= v < |xs| && Sliced(xs[v]) ==>
         R.Progress(g, xs[v].whole, xs[v].frames, xs[v].Key(), Share(won, v)))
    && OthersForeign(g, id, Homes(xs))
  }

  /** The keys of the slice numbers in `known` were recorded since `start`; the others are not remembered. */
  ghost predicate Noted(seen: seq<u32>, id: u32, n: nat, known: set<nat>, start: nat)
    requires n <= 64
  {
    && start <= |seen|
    && (forall i :: i in known && i < n ==> SliceKey(id, i) in seen[start..])
    && (forall i :: 0 <= i < n && i !in known ==> SliceKey(id, i) !in Recent(seen, SEEN_WINDOW))
  }

  ghost predicate InBooks(c: Config, s: State, id: u32, n: nat, xs: seq<Transfer>, won: Ledger, start: nat) {
    && OneMessage(c, id, n, xs)
    && Entries(won, xs)
    && Shelved(s.groups, id, xs, won)
    && Noted(s.seen, id, n, won.Keys, start)
  }

  /** The ledger after an arrival: a slice number not won before goes to the version that brings it. */
  ghost function Award(a: Arrival, xs: seq<Transfer>, won: Ledger): Ledger {
    if exists v: nat, i: nat :: Brings(a, xs, v, i) && i !in won then
      var v: nat, i: nat :| Brings(a, xs, v, i) && i !in won;
      won[i := v]
    else won
  }

  ghost function AwardAll(run: seq<Arrival>, xs: seq<Transfer>, won: Ledger): Ledger
    decreases |run|
  {
    if run == [] then won else AwardAll(run[1..], xs, Award(run[0], xs, won))
  }

  // ---- Keys and copies ----

  lemma SliceFrag(c: Config, x: Transfer, i: nat)
    requires Sound(c, x) && i < |x.frames|
    ensures x.frames[i].id == x.whole.id && |x.frames| <= 64
    ensures x.frames[i].frag == if Sliced(x) then Some(Fragment(x.group, i, |x.frames|)) else None
    ensures !Sliced(x) ==> i == 0 && x.frames[i] == x.whole
  {
    hide R.F.Joined;
  }

  /** The key of a slice depends on message and slice number only. */
  lemma BringsKey(c: Config, id: u32, n: nat, xs: seq<Transfer>, a: Arrival, v: nat, i: nat)
    requires OneMessage(c, id, n, xs) && Brings(a, xs, v, i)
    ensures i < n && Frame(a).Some? && DedupKey(Frame(a).value) == SliceKey(id, i)
  {
    hide SliceKey, Frame, Sound;
    SliceFrag(c, xs[v], i);
    SliceZeroKey(id);
  }

  /** An arrival is a copy of one slice of one version. */
  lemma BringsOnce(c: Config, id: u32, n: nat, xs: seq<Transfer>, a: Arrival, v: nat, i: nat, u: nat, j: nat)
    requires OneMessage(c, id, n, xs) && Brings(a, xs, v, i) && Brings(a, xs, u, j)
    ensures v == u && i == j
  {
    hide Frame, Sound;
    SliceFrag(c, xs[v], i);
    SliceFrag(c, xs[u], j);
    assert v < u ==> Apart(xs[v], xs[u]);
    assert u < v ==> Apart(xs[u], xs[v]);
  }

  lemma AwardOf(c: Config, id: u32, n: nat, xs: seq<Transfer>, won: Ledger, a: Arrival, v: nat, i: nat)
    requires OneMessage(c, id, n, xs) && Brings(a, xs, v, i)
    ensures Award(a, xs, won) == if i in won then won else won[i := v]
  {
    hide OneMessage, Brings;
    forall u: nat, j: nat | Brings(a, xs, u, j)
      ensures u == v && j == i
    {
      BringsOnce(c, id, n, xs, a, v, i, u, j);
    }
  }

  // ---- One arrival ----

  lemma KeyNoted(seen: seq<u32>, id: u32, n: nat, known: set<nat>, start: nat, i: nat)
    requires n <= 64 && i < n && Noted(seen, id, n, known, start)
    ensures Noted(seen + [SliceKey(id, i)], id, n, known + {i}, start)
  {
    hide SliceKey, Recent;
    SeenSuffix(seen, SliceKey(id, i), start);
    forall j | 0 <= j < n && j !in known && j != i
      ensures SliceKey(id, j) !in Recent(seen + [SliceKey(id, i)], SEEN_WINDOW)
    {
      SlicesKeepApart(id, i, j);
      NewlySeen(seen, SliceKey(id, i), SliceKey(id, j));
    }
  }

  lemma OtherKeyNoted(seen: seq<u32>, id: u32, n: nat, known: set<nat>, start: nat, key: u32)
    requires n <= 64 && Noted(seen, id, n, known, start)
    requires forall i :: 0 <= i < n ==> key != SliceKey(id, i)
    ensures Noted(seen + [key], id, n, known, start)
  {
    hide SliceKey, Recent;
    SeenSuffix(seen, key, start);
    forall j | 0 <= j < n && j !in known
      ensures SliceKey(id, j) !in Recent(seen + [key], SEEN_WINDOW)
    {
      NewlySeen(seen, key, SliceKey(id, j));
    }
  }

  lemma ForeignShelved(c: Config, g: R.Groups, id: u32, n: nat, xs: seq<Transfer>, won: Ledger, m: Message)
    requires OneMessage(c, id, n, xs) && Shelved(g, id, xs, won) && m.id != id
    requires m.frag.Some? ==> R.KeyOf(m.frag.value) !in Homes(xs)
    ensures Shelved(R.Ingest(c.dims, g, m).0, id, xs, won) && Handed(R.Ingest(c.dims, g, m).1, id) == 0
  {
    hide R.Ingest, R.Holds, OthersForeign, Sound, Share, Apart;
    OtherIdStays(c.dims, g, m, id, Homes(xs));
    forall v | 0 <= v < |xs| && Sliced(xs[v])
      ensures R.Progress(R.Ingest(c.dims, g, m).0, xs[v].whole, xs[v].frames, xs[v].Key(), Share(won, v))
    {
      assert xs[v].Key() in Homes(xs);
      R.OtherGroupsUntouched(c.dims, g, m, xs[v].Key());
    }
  }

  lemma ForeignStep(c: Config, s: State, a: Arrival, id: u32, n: nat, xs: seq<Transfer>, won: Ledger, start: nat)
    requires InBooks(c, s, id, n, xs, won, start) && Foreign(a, id, n, xs)
    ensures var (s', r) := Ingest(c, s, a.source, a.bytes);
      InBooks(c, s', id, n, xs, won, start) && Delivers(r, id) == 0
  {
    hide R.Ingest, DedupKey, SliceKey, Wire.DecodeMessage, Recent, Shelved, Noted, Homes, Sound, Apart;
    if Frame(a).Some? {
      var m := Frame(a).value;
      if DedupKey(m) !in Recent(s.seen, SEEN_WINDOW) {
        OtherKeyNoted(s.seen, id, n, won.Keys, start, DedupKey(m));
        ForeignShelved(c, s.groups, id, n, xs, won, m);
      }
    }
  }

  lemma ShareWon(won: Ledger, v: nat, i: nat, u: nat)
    requires i !in won
    ensures Share(won[i := v], u) == if u == v then Share(won, u) + {i} else Share(won, u)
  {
  }

  /** The slices of version `v`, with one more, are all of them exactly when that settles the matter. */
  lemma SettledBy(xs: seq<Transfer>, won: Ledger, v: nat, i: nat)
    requires Entries(won, xs) && i !in won && v < |xs| && i < |xs[v].frames|
    ensures Entries(won[i := v], xs)
    ensures |Share(won[i := v], v)| == |xs[v].frames| <==> Settled(won[i := v], xs) && !Settled(won, xs)
    ensures |Share(won[i := v], v)| == |xs[v].frames| ==> won[i := v][0] == v
    ensures Settled(won, xs) ==> Settled(won[i := v], xs)
  {
    var won' := won[i := v];
    AllOrNot(Share(won', v), |xs[v].frames|);
    if |Share(won', v)| == |xs[v].frames| {
      assert 0 in Share(won', v);
      forall j: nat | j < |xs[v].frames|
        ensures j in won' && won'[j] == v
      {
        assert j in Share(won', v);
      }
      assert Settled(won', xs);
    }
    if Settled(won', xs) && !Settled(won, xs) {
      var u := won'[0];
      if u != v {
        forall j: nat | j < |xs[u].frames|
          ensures j in won && won[j] == u
        {
          assert j in won' && won'[j] == u;
        }
      } else {
        forall j: nat | j < |xs[v].frames|
          ensures j in Share(won', v)
        {
          assert j in won' && won'[j] == u;
        }
      }
    }
  }

  /** What the reassembler makes of a slice whose number was not won before. */
  lemma WinShelved(c: Config, s: State, id: u32, n: nat, xs: seq<Transfer>, won: Ledger, v: nat, i: nat)
    requires OneMessage(c, id, n, xs) && Entries(won, xs) && Shelved(s.groups, id, xs, won)
    requires v < |xs| && i < |xs[v].frames| && i !in won && HasSlot(c, s, xs[v])
    ensures var (g, o) := R.Ingest(c.dims, s.groups, xs[v].frames[i]);
      && Shelved(g, id, xs, won[i := v])
      && Told(c, o) == if |Share(won[i := v], v)| == |xs[v].frames| then AsAddressed(c, xs[v].whole) else Ok(Buffered)
  {
    hide R.Ingest, R.Progress, OthersForeign, Sound, Share, Apart, AsAddressed, Homes, Shelved;
    ShareWon(won, v, i, v);
    ShareBound(won, xs, v);
    NotShared(won, v, i);
    Sums.FullSet(Share(won, v) + {i}, |xs[v].frames|);
    SliceFrag(c, xs[v], i);
    if Sliced(xs[v]) {
      SlicedWins(c, s, id, n, xs, won, v, i);
    } else {
      R.Unfragmented(c.dims, s.groups, xs[v].frames[i]);
      UnslicedWins(s.groups, id, xs, won, v, i);
    }
  }

  lemma ShareBound(won: Ledger, xs: seq<Transfer>, v: nat)
    requires Entries(won, xs) && v < |xs|
    ensures forall i :: i in Share(won, v) ==> i < |xs[v].frames|
    ensures |Share(won, v)| <= |xs[v].frames|
  {
    Sums.FullSet(Share(won, v), |xs[v].frames|);
  }

  lemma UnslicedWins(g: R.Groups, id: u32, xs: seq<Transfer>, won: Ledger, v: nat, i: nat)
    requires forall u :: 0 <= u < |xs| ==> |xs[u].frames| <= 64
    requires v < |xs| && !Sliced(xs[v]) && i !in won && Shelved(g, id, xs, won)
    ensures Shelved(g, id, xs, won[i := v])
  {
    hide R.Progress, OthersForeign, Share, Homes;
    forall u | 0 <= u < |xs| && Sliced(xs[u])
      ensures Share(won[i := v], u) == Share(won, u)
    {
      ShareWon(won, v, i, u);
    }
  }

  lemma SlicedWins(c: Config, s: State, id: u32, n: nat, xs: seq<Transfer>, won: Ledger, v: nat, i: nat)
    requires OneMessage(c, id, n, xs) && Entries(won, xs) && Shelved(s.groups, id, xs, won)
    requires v < |xs| && Sliced(xs[v]) && i < |xs[v].frames| && i !in won && HasSlot(c, s, xs[v])
    ensures var (g, o) := R.Ingest(c.dims, s.groups, xs[v].frames[i]);
      && Shelved(g, id, xs, won[i := v])
      && o == if |Share(won, v)| + 1 == |xs[v].frames| then R.Complete(xs[v].whole) else R.Buffered
  {
    hide R.Ingest, R.Progress, OthersForeign, R.F.IsSplit, Share, Homes;
    var x, m, g := xs[v], xs[v].frames[i], R.Ingest(c.dims, s.groups, xs[v].frames[i]).0;
    ShareWon(won, v, i, v);
    NotShared(won, v, i);
    ShareBound(won, xs, v);
    Sums.FullSet(Share(won, v) + {i}, |x.frames|);
    SliceFrag(c, x, i);
    R.SliceStep(c.dims, s.groups, x.whole, x.frames, x.group, Share(won, v), i);
    forall u | 0 <= u < |xs| && Sliced(xs[u])
      ensures R.Progress(g, xs[u].whole, xs[u].frames, xs[u].Key(), Share(won[i := v], u))
    {
      if u != v {
        assert u < v ==> Apart(xs[u], xs[v]);
        assert v < u ==> Apart(xs[v], xs[u]);
        ShareWon(won, v, i, u);
        OtherProgress(c, s.groups, m, xs[u], Share(won, u));
      }
    }
    InHomes(xs, v);
    OthersKept(s.groups, g, id, Homes(xs), x.Key());
  }

  lemma NotShared(won: Ledger, v: nat, i: nat)
    requires i !in won
    ensures i !in Share(won, v)
  {
  }

  lemma InHomes(xs: seq<Transfer>, v: nat)
    requires forall u :: 0 <= u < |xs| ==> |xs[u].frames| <= 64
    requires v < |xs| && Sliced(xs[v])
    ensures xs[v].Key() in Homes(xs)
  {
  }

  lemma OtherProgress(c: Config, g: R.Groups, m: Message, x: Transfer, got: set<nat>)
    requires |x.frames| < 0x1_0000 && m.frag.Some? && R.KeyOf(m.frag.value) != x.Key()
    requires R.Progress(g, x.whole, x.frames, x.Key(), got)
    ensures R.Progress(R.Ingest(c.dims, g, m).0, x.whole, x.frames, x.Key(), got)
  {
    hide R.Ingest, R.Holds;
    R.OtherGroupsUntouched(c.dims, g, m, x.Key());
  }

  lemma OthersKept(g: R.Groups, g': R.Groups, id: u32, own: set<R.Key>, k: R.Key)
    requires OthersForeign(g, id, own) && k in own && g' - {k} == g - {k}
    ensures OthersForeign(g', id, own)
  {
    forall j | j in g' && j !in own
      ensures g'[j].template.id != id
    {
      assert j in g' - {k};
      assert (g' - {k})[j] == (g - {k})[j];
    }
  }

  /** What belongs to the message is answered with `Buffered`, `Duplicate` or its version as a whole. */
  ghost predicate Reply(c: Config, a: Arrival, r: Answer, id: u32, xs: seq<Transfer>) {
    && (forall v: nat, i: nat :: Brings(a, xs, v, i) ==>
         r == Ok(Buffered) || r == Ok(Duplicate) || r == AsAddressed(c, xs[v].whole))
    && ((forall v: nat, i: nat :: !Brings(a, xs, v, i)) ==> Delivers(r, id) == 0)
  }

  /** An arrival delivers exactly when it settles the matter, and then the version that wins. */
  ghost predicate RightDelivery(c: Config, r: Answer, id: u32, xs: seq<Transfer>, won: Ledger, won': Ledger) {
    && Delivers(r, id) == (if Settled(won', xs) && !Settled(won, xs) then 1 else 0)
    && (Settled(won, xs) ==> Settled(won', xs) && won'[0] == won[0])
    && (Delivers(r, id) == 1 ==> r == AsAddressed(c, xs[won'[0]].whole))
  }

  /** If a slice arrives that is not a repeat, its version's group is open or a slot is free. */
  ghost predicate ServedOf(c: Config, s: State, a: Arrival, xs: seq<Transfer>)
    requires forall v :: 0 <= v < |xs| ==> |xs[v].frames| <= 64
  {
    forall v: nat, i: nat :: Brings(a, xs, v, i) && DedupKey(Frame(a).value) !in Recent(s.seen, SEEN_WINDOW) ==>
      HasSlot(c, s, xs[v])
  }

  lemma WinStep(c: Config, s: State, a: Arrival, id: u32, n: nat, xs: seq<Transfer>, won: Ledger, start: nat,
                v: nat, i: nat)
    requires InBooks(c, s, id, n, xs, won, start) && Brings(a, xs, v, i) && i !in won && ServedOf(c, s, a, xs)
    ensures var (s', r) := Ingest(c, s, a.source, a.bytes);
      && InBooks(c, s', id, n, xs, won[i := v], start)
      && r == (if |Share(won[i := v], v)| == |xs[v].frames| then AsAddressed(c, xs[v].whole) else Ok(Buffered))
  {
    hide Ingest, DedupKey, SliceKey, Recent, Shelved, Frame, Share, AsAddressed, HasSlot, Sound, Apart;
    BringsKey(c, id, n, xs, a, v, i);
    assert SliceKey(id, i) !in Recent(s.seen, SEEN_WINDOW);
    WinShelved(c, s, id, n, xs, won, v, i);
    KeyNoted(s.seen, id, n, won.Keys, start, i);
    assert won[i := v].Keys == won.Keys + {i};
    TakenAsNew(c, s, a);
  }

  lemma LoseStep(c: Config, s: State, a: Arrival, id: u32, n: nat, xs: seq<Transfer>, won: Ledger, start: nat,
                 v: nat, i: nat)
    requires InBooks(c, s, id, n, xs, won, start) && Brings(a, xs, v, i) && i in won
    requires |s.seen| <= start + SEEN_WINDOW
    ensures var (s', r) := Ingest(c, s, a.source, a.bytes);
      InBooks(c, s', id, n, xs, won, start) && r == Ok(Duplicate)
  {
    hide R.Ingest, DedupKey, SliceKey, Recent, Shelved, Wire.DecodeMessage, Sound, Apart, Brings;
    BringsKey(c, id, n, xs, a, v, i);
    StillRecent(s.seen, SliceKey(id, i), start);
  }

  /** One arrival, whatever it is: the answer is right, and the books are kept. */
  lemma VersionStep(c: Config, s: State, a: Arrival, id: u32, n: nat, xs: seq<Transfer>, won: Ledger, start: nat)
    requires InBooks(c, s, id, n, xs, won, start) && Belongs(a, id, n, xs) && ServedOf(c, s, a, xs)
    requires |s.seen| <= start + SEEN_WINDOW
    ensures var (s', r) := Ingest(c, s, a.source, a.bytes);
      var won' := Award(a, xs, won);
      && InBooks(c, s', id, n, xs, won', start)
      && Reply(c, a, r, id, xs)
      && RightDelivery(c, r, id, xs, won, won')
  {
    hide Ingest, Brings, Foreign, ServedOf, Shelved, Noted, Share, Award, OneMessage, Settled;
    if v: nat, i: nat :| Brings(a, xs, v, i) {
      assert OneMessage(c, id, n, xs);
      AwardOf(c, id, n, xs, won, a, v, i);
      OnlyBrings(c, id, n, xs, a, v, i);
      if i in won {
        LoseStep(c, s, a, id, n, xs, won, start, v, i);
      } else {
        BringsKey(c, id, n, xs, a, v, i);
        WinStep(c, s, a, id, n, xs, won, start, v, i);
        BringsInRange(a, xs, v, i);
        SettledBy(xs, won, v, i);
        WinDelivers(c, Ingest(c, s, a.source, a.bytes).1, id, n, xs, won, v, i);
      }
    } else {
      NoAward(a, xs, won);
      ForeignStep(c, s, a, id, n, xs, won, start);
    }
  }

  lemma NoAward(a: Arrival, xs: seq<Transfer>, won: Ledger)
    requires forall v: nat, i: nat :: !Brings(a, xs, v, i)
    ensures Award(a, xs, won) == won
  {
    hide Brings;
  }

  lemma BringsInRange(a: Arrival, xs: seq<Transfer>, v: nat, i: nat)
    requires Brings(a, xs, v, i)
    ensures v < |xs| && i < |xs[v].frames|
  {
  }

  lemma OnlyBrings(c: Config, id: u32, n: nat, xs: seq<Transfer>, a: Arrival, v: nat, i: nat)
    requires OneMessage(c, id, n, xs) && Brings(a, xs, v, i)
    ensures forall u: nat, j: nat :: Brings(a, xs, u, j) ==> u == v && j == i
  {
    hide Brings, OneMessage;
    forall u: nat, j: nat | Brings(a, xs, u, j)
      ensures u == v && j == i
    {
      BringsOnce(c, id, n, xs, a, v, i, u, j);
    }
  }

  lemma WinDelivers(c: Config, r: Answer, id: u32, n: nat, xs: seq<Transfer>, won: Ledger, v: nat, i: nat)
    requires OneMessage(c, id, n, xs) && Entries(won, xs) && i !in won && v < |xs| && i < |xs[v].frames|
    requires r == (if |Share(won[i := v], v)| == |xs[v].frames| then AsAddressed(c, xs[v].whole) else Ok(Buffered))
    ensures RightDelivery(c, r, id, xs, won, won[i := v])
  {
    hide Share, Sound, Apart;
    SettledBy(xs, won, v, i);
  }

  // ---- A whole run ----

  ghost predicate SlotsServe(c: Config, s: State, run: seq<Arrival>, xs: seq<Transfer>)
    requires forall v :: 0 <= v < |xs| ==> |xs[v].frames| <= 64
    decreases |run|
  {
    run != [] ==>
      && ServedOf(c, s, run[0], xs)
      && SlotsServe(c, Ingest(c, s, run[0].source, run[0].bytes).0, run[1..], xs)
  }

  /** Every answer is a proper reply to its arrival. */
  ghost predicate Replies(c: Config, run: seq<Arrival>, rs: seq<Answer>, id: u32, xs: seq<Transfer>)
    requires |run| == |rs|
  {
    forall j :: 0 <= j < |run| ==> Reply(c, run[j], rs[j], id, xs)
  }

  /** Message `id` is handed out as `m` only. */
  ghost predicate HandedOutAs(c: Config, rs: seq<Answer>, id: u32, m: Message) {
    forall r <- rs :: Delivers(r, id) == 1 ==> r == AsAddressed(c, m)
  }

  lemma {:induction false} RunSettles(c: Config, s: State, run: seq<Arrival>, id: u32, n: nat, xs: seq<Transfer>,
                                      won: Ledger, start: nat)
    requires InBooks(c, s, id, n, xs, won, start)
    requires forall a <- run :: Belongs(a, id, n, xs)
    requires SlotsServe(c, s, run, xs)
    requires |RunRelay(c, s, run).0.seen| <= start + SEEN_WINDOW
    ensures var (s', rs) := RunRelay(c, s, run);
      var won' := AwardAll(run, xs, won);
      && InBooks(c, s', id, n, xs, won', start)
      && Replies(c, run, rs, id, xs)
      && Deliveries(rs, id) == (if Settled(won', xs) && !Settled(won, xs) then 1 else 0)
      && (Settled(won, xs) ==> Settled(won', xs) && won'[0] == won[0])
      && (Settled(won', xs) ==> HandedOutAs(c, rs, id, xs[won'[0]].whole))
    decreases |run|
  {
    hide Ingest, InBooks, Belongs, ServedOf, Settled, Award, Reply, RunRelay, Delivers, OneMessage;
    RunHead(c, s, run);
    InBooksOne(c, s, id, n, xs, won, start);
    if run != [] {
      var a := run[0];
      var (s1, r) := Ingest(c, s, a.source, a.bytes);
      var won1 := Award(a, xs, won);
      SeenGrows(c, s, run);
      VersionStep(c, s, a, id, n, xs, won, start);
      RunSettles(c, s1, run[1..], id, n, xs, won1, start);
      Assembled(c, run, r, RunRelay(c, s1, run[1..]).1, id, xs, won, won1, AwardAll(run[1..], xs, won1));
    }
  }

  lemma InBooksOne(c: Config, s: State, id: u32, n: nat, xs: seq<Transfer>, won: Ledger, start: nat)
    requires InBooks(c, s, id, n, xs, won, start)
    ensures OneMessage(c, id, n, xs) && Entries(won, xs) && start <= |s.seen|
  {
    hide OneMessage, Shelved, Entries;
  }

  /** The first answer and those of the rest, put together. */
  lemma {:induction false} Assembled(c: Config, run: seq<Arrival>, r: Answer, rs: seq<Answer>, id: u32,
                                     xs: seq<Transfer>, won: Ledger, won1: Ledger, won2: Ledger)
    requires run != [] && |rs| == |run| - 1
    requires Reply(c, run[0], r, id, xs) && Replies(c, run[1..], rs, id, xs)
    requires RightDelivery(c, r, id, xs, won, won1)
    requires Deliveries(rs, id) == (if Settled(won2, xs) && !Settled(won1, xs) then 1 else 0)
    requires Settled(won1, xs) ==> Settled(won2, xs) && won2[0] == won1[0]
    requires Settled(won2, xs) ==> HandedOutAs(c, rs, id, xs[won2[0]].whole)
    ensures Replies(c, run, [r] + rs, id, xs)
    ensures Deliveries([r] + rs, id) == (if Settled(won2, xs) && !Settled(won, xs) then 1 else 0)
    ensures Settled(won, xs) ==> Settled(won2, xs) && won2[0] == won[0]
    ensures Settled(won2, xs) ==> HandedOutAs(c, [r] + rs, id, xs[won2[0]].whole)
  {
    hide Reply, Delivers;
    assert ([r] + rs)[1..] == rs;
  }

  /** Foreign traffic delivers nothing of the message and keeps the books, however much of it there is. */
  lemma {:induction false} ForeignRun(c: Config, s: State, run: seq<Arrival>, id: u32, n: nat, xs: seq<Transfer>,
                                      won: Ledger, start: nat)
    requires InBooks(c, s, id, n, xs, won, start)
    requires forall a <- run :: Foreign(a, id, n, xs)
    ensures var (s', rs) := RunRelay(c, s, run);
      InBooks(c, s', id, n, xs, won, start) && Deliveries(rs, id) == 0
    decreases |run|
  {
    hide Ingest, InBooks, Foreign, Delivers, RunRelay, OneMessage;
    RunHead(c, s, run);
    InBooksOne(c, s, id, n, xs, won, start);
    if run != [] {
      ForeignStep(c, s, run[0], id, n, xs, won, start);
      ForeignRun(c, Ingest(c, s, run[0].source, run[0].bytes).0, run[1..], id, n, xs, won, start);
    }
  }

  // ---- First arrivals ----

  lemma WinsHead(run: seq<Arrival>, xs: seq<Transfer>, v: nat, i: nat)
    requires run != []
    ensures Wins(run, xs, v, i) <==>
              Brings(run[0], xs, v, i) || ((forall u: nat :: !Brings(run[0], xs, u, i)) && Wins(run[1..], xs, v, i))
  {
    hide Brings;
    if Brings(run[0], xs, v, i) {
      assert Earliest(run, xs, i, 0);
    }
    if j :| 0 <= j < |run| && Brings(run[j], xs, v, i) && Earliest(run, xs, i, j) {
      if j > 0 {
        assert run[1..][j - 1] == run[j];
        assert forall h :: 0 <= h < j - 1 ==> run[1..][h] == run[h + 1];
        assert Earliest(run[1..], xs, i, j - 1);
      }
    }
    if (forall u: nat :: !Brings(run[0], xs, u, i)) && Wins(run[1..], xs, v, i) {
      var j :| 0 <= j < |run[1..]| && Brings(run[1..][j], xs, v, i) && Earliest(run[1..], xs, i, j);
      assert run[j + 1] == run[1..][j];
      assert forall h :: 0 < h < j + 1 ==> run[h] == run[1..][h - 1];
      assert Earliest(run, xs, i, j + 1);
    }
  }

  /** The ledger records the first arrivals. */
  lemma {:induction false} AwardsAreFirst(c: Config, id: u32, n: nat, run: seq<Arrival>, xs: seq<Transfer>, won: Ledger,
                                          v: nat, i: nat)
    requires OneMessage(c, id, n, xs)
    ensures var won' := AwardAll(run, xs, won);
      if i in won then i in won' && won'[i] == won[i]
      else i in won' && won'[i] == v <==> Wins(run, xs, v, i)
    decreases |run|
  {
    hide OneMessage, Brings, Award, Wins;
    if run == [] {
      NothingWins(xs, v, i);
    } else {
      AwardsAreFirst(c, id, n, run[1..], xs, Award(run[0], xs, won), v, i);
      WinsHead(run, xs, v, i);
      if u: nat :| Brings(run[0], xs, u, i) {
        AwardOf(c, id, n, xs, won, run[0], u, i);
        OnlyBrings(c, id, n, xs, run[0], u, i);
      } else {
        NotAwarded(run[0], xs, won, i);
      }
    }
  }

  lemma NothingWins(xs: seq<Transfer>, v: nat, i: nat)
    ensures !Wins([], xs, v, i)
  {
  }

  lemma NotAwarded(a: Arrival, xs: seq<Transfer>, won: Ledger, i: nat)
    requires forall u: nat :: !Brings(a, xs, u, i)
    ensures i in Award(a, xs, won) <==> i in won
    ensures i in won ==> Award(a, xs, won)[i] == won[i]
  {
    hide Brings;
  }

  // ---- The theorem ----

  /** The relay remembers none of the keys of the message and has no group of it. */
  ghost predicate Unmet(s: State, id: u32, n: nat, xs: seq<Transfer>)
    requires n <= 64 && forall v :: 0 <= v < |xs| ==> |xs[v].frames| <= n
  {
    && (forall i :: 0 <= i < n ==> SliceKey(id, i) !in Recent(s.seen, SEEN_WINDOW))
    && (forall v :: 0 <= v < |xs| && Sliced(xs[v]) ==> xs[v].Key() !in s.groups)
    && OthersForeign(s.groups, id, {})
  }

  lemma BooksOpen(c: Config, s: State, id: u32, n: nat, xs: seq<Transfer>)
    requires OneMessage(c, id, n, xs) && Unmet(s, id, n, xs)
    ensures InBooks(c, s, id, n, xs, map[], |s.seen|) && !Settled(map[], xs)
  {
    hide Sound, Apart, SliceKey, Recent, R.Holds;
    forall v
      ensures Share(map[], v) == {}
    {
    }
  }

  /** The ledger of a run from its beginning, in terms of first arrivals. */
  lemma {:induction false} LedgerOf(c: Config, id: u32, n: nat, run: seq<Arrival>, xs: seq<Transfer>)
    requires OneMessage(c, id, n, xs) && Entries(AwardAll(run, xs, map[]), xs)
    ensures var won := AwardAll(run, xs, map[]);
      && (forall v: nat, i: nat :: i in Share(won, v) <==> Wins(run, xs, v, i))
      && (Settled(won, xs) <==> exists v :: 0 <= v < |xs| && WinsAll(run, xs, v))
      && (forall v :: 0 <= v < |xs| && WinsAll(run, xs, v) ==> Settled(won, xs) && won[0] == v)
  {
    hide OneMessage, Wins, AwardAll;
    var won := AwardAll(run, xs, map[]);
    forall v: nat, i: nat
      ensures i in won && won[i] == v <==> Wins(run, xs, v, i)
    {
      AwardsAreFirst(c, id, n, run, xs, map[], v, i);
    }
    forall v | 0 <= v < |xs| && WinsAll(run, xs, v)
      ensures Settled(won, xs) && won[0] == v
    {
      HasSlices(c, id, n, xs, v);
      assert Wins(run, xs, v, 0);
      forall i: nat | i < |xs[v].frames|
        ensures i in won && won[i] == v
      {
        assert Wins(run, xs, v, i);
      }
    }
    if Settled(won, xs) {
      assert WinsAll(run, xs, won[0]);
    }
  }

  lemma HasSlices(c: Config, id: u32, n: nat, xs: seq<Transfer>, v: nat)
    requires OneMessage(c, id, n, xs) && v < |xs|
    ensures 0 < |xs[v].frames| <= n <= 64
  {
    hide Sound, Apart;
  }

  /**
   Delivery in a flood. A message reaches a relay in any number of versions, sliced under
   different groups and unsliced. If the relay remembers nothing of it when a run begins, the
   run brings at most 64 fresh frames, other traffic is of other messages, groups and keys,
   and slots are free when slices need them, then over all answers of the run the message is
   handed out once if one version wins all its slice numbers, that is if for each of them its
   copy comes before those of all other versions; and otherwise it is not handed out at all,
   however many frames arrive. What is handed out is the version that wins. Every other
   version that wins a slice number keeps its slot.
   */
  lemma {:induction false} FloodDelivery(c: Config, s: State, run: seq<Arrival>, id: u32, n: nat, xs: seq<Transfer>)
    requires OneMessage(c, id, n, xs) && Unmet(s, id, n, xs)
    requires forall a <- run :: Belongs(a, id, n, xs)
    requires SlotsServe(c, s, run, xs)
    requires |RunRelay(c, s, run).0.seen| <= |s.seen| + SEEN_WINDOW
    ensures var (s', rs) := RunRelay(c, s, run);
      && Deliveries(rs, id) == (if exists v :: 0 <= v < |xs| && WinsAll(run, xs, v) then 1 else 0)
      && (forall v :: 0 <= v < |xs| && WinsAll(run, xs, v) ==> HandedOutAs(c, rs, id, xs[v].whole))
      && (forall v :: 0 <= v < |xs| && Sliced(xs[v]) ==>
           (xs[v].Key() in s'.groups <==> (exists i: nat :: Wins(run, xs, v, i)) && !WinsAll(run, xs, v)))
      && Replies(c, run, rs, id, xs)
  {
    hide RunRelay, Wins, Unmet, SlotsServe, Belongs, Reply, Settled, AwardAll, Deliveries, HandedOutAs, Sound, Apart;
    hide Noted, Share, R.Holds, OthersForeign;
    BooksOpen(c, s, id, n, xs);
    RunSettles(c, s, run, id, n, xs, map[], |s.seen|);
    LedgerOf(c, id, n, run, xs);
    var won := AwardAll(run, xs, map[]);
    forall v | 0 <= v < |xs| && Sliced(xs[v])
      ensures xs[v].Key() in RunRelay(c, s, run).0.groups <==>
                (exists i: nat :: Wins(run, xs, v, i)) && !WinsAll(run, xs, v)
    {
      ShareBound(won, xs, v);
      AllOrNot(Share(won, v), |xs[v].frames|);
      ShareIsWins(run, xs, won, v);
    }
  }

  lemma ShareIsWins(run: seq<Arrival>, xs: seq<Transfer>, won: Ledger, v: nat)
    requires v < |xs| && forall i: nat :: i in Share(won, v) <==> Wins(run, xs, v, i)
    ensures Share(won, v) == {} <==> !exists i: nat :: Wins(run, xs, v, i)
    ensures WinsAll(run, xs, v) <==> forall i: nat :: i < |xs[v].frames| ==> i in Share(won, v)
  {
    hide Wins, Share;
  }

  // ---- When the conditions are met ----

  /** A relay with nothing else to assemble serves the versions with a slot for each. */
  lemma {:induction false} SlotEachServes(c: Config, s: State, run: seq<Arrival>, id: u32, n: nat, xs: seq<Transfer>)
    requires OneMessage(c, id, n, xs) && s.groups.Keys <= Homes(xs) && |Homes(xs)| <= c.dims.slots
    requires forall a <- run :: IsVersion(a, xs)
    ensures SlotsServe(c, s, run, xs)
    decreases |run|
  {
    hide Ingest, Brings, ServedOf, Homes, Sound, Apart;
    if run != [] {
      assert IsVersion(run[0], xs);
      var v: nat, i: nat :| Brings(run[0], xs, v, i);
      OwnHomesOnly(c, s, run[0], id, n, xs, v, i);
      SlotEachServes(c, Ingest(c, s, run[0].source, run[0].bytes).0, run[1..], id, n, xs);
    }
  }

  lemma OwnHomesOnly(c: Config, s: State, a: Arrival, id: u32, n: nat, xs: seq<Transfer>, v: nat, i: nat)
    requires OneMessage(c, id, n, xs) && s.groups.Keys <= Homes(xs) && |Homes(xs)| <= c.dims.slots
    requires Brings(a, xs, v, i)
    ensures ServedOf(c, s, a, xs)
    ensures Ingest(c, s, a.source, a.bytes).0.groups.Keys <= Homes(xs)
  {
    hide Ingest, Homes, Sound, Apart, DedupKey, Recent, Brings, HasSlot, Frame;
    OnlyBrings(c, id, n, xs, a, v, i);
    BringsInRange(a, xs, v, i);
    HomeOrSlot(c, s, xs, v);
    BringsKey(c, id, n, xs, a, v, i);
    SliceFrag(c, xs[v], i);
    GroupsWithin(c, s, a, Homes(xs), xs, v, i);
  }

  lemma HomeOrSlot(c: Config, s: State, xs: seq<Transfer>, v: nat)
    requires forall u :: 0 <= u < |xs| ==> 0 < |xs[u].frames| <= 64
    requires v < |xs| && s.groups.Keys <= Homes(xs) && |Homes(xs)| <= c.dims.slots
    ensures HasSlot(c, s, xs[v])
    ensures Sliced(xs[v]) ==> xs[v].Key() in Homes(xs)
  {
    if Sliced(xs[v]) && xs[v].Key() !in s.groups {
      InHomes(xs, v);
      Fewer(s.groups.Keys, Homes(xs), xs[v].Key());
    }
  }

  lemma Fewer<T>(a: set<T>, b: set<T>, x: T)
    requires a <= b && x in b && x !in a
    ensures |a| < |b|
  {
    assert b == a + (b - a);
  }

  lemma GroupsWithin(c: Config, s: State, a: Arrival, own: set<R.Key>, xs: seq<Transfer>, v: nat, i: nat)
    requires s.groups.Keys <= own && Brings(a, xs, v, i) && |xs[v].frames| < 0x1_0000
    requires xs[v].frames[i].frag == if Sliced(xs[v]) then Some(Fragment(xs[v].group, i, |xs[v].frames|)) else None
    requires Sliced(xs[v]) ==> xs[v].Key() in own
    ensures Ingest(c, s, a.source, a.bytes).0.groups.Keys <= own
  {
    hide R.Ingest, DedupKey, Recent, Wire.DecodeMessage;
    var m := xs[v].frames[i];
    if m.frag.None? {
      R.Unfragmented(c.dims, s.groups, m);
    } else {
      R.OneGroupChanges(c.dims, s.groups, m);
      var g := R.Ingest(c.dims, s.groups, m).0;
      assert forall k :: k in g && k != xs[v].Key() ==> k in g - {xs[v].Key()};
    }
  }
}
