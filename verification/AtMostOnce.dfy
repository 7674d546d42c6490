/**
 No message is delivered twice while the seen cache remembers it: a bound on deliveries
 over every run of a relay, through fragmentation, reordering and duplication.
 */
module AtMostOnce {
  import opened Wrappers
  import opened Proto
  import opened Dedup
  import opened Seen
  import opened Sums
  import opened RelaySpec
  import opened ReassemblyRuns
  import R = Reassembly
  import Wire

  /** A frame off the network. */
  datatype Arrival = Arrival(source: Transport, bytes: seq<u8>)

  type Answer = Result<IngestOutcome, RelayError>

  function RunRelay(c: Config, s: State, run: seq<Arrival>): (r: (State, seq<Answer>))
    ensures |r.1| == |run|
    decreases |run|
  {
    if run == [] then (s, [])
    else
      var (s1, r) := Ingest(c, s, run[0].source, run[0].bytes);
      var (s2, rs) := RunRelay(c, s1, run[1..]);
      (s2, [r] + rs)
  }

  lemma {:induction false} RunHead(c: Config, s: State, run: seq<Arrival>)
    ensures run == [] ==> RunRelay(c, s, run) == (s, [])
    ensures run != [] ==>
              var (s1, r) := Ingest(c, s, run[0].source, run[0].bytes);
              RunRelay(c, s, run) == (RunRelay(c, s1, run[1..]).0, [r] + RunRelay(c, s1, run[1..]).1)
  {
    hide Ingest;
  }

  lemma {:induction false} RunJoined(c: Config, s: State, run: seq<Arrival>, more: seq<Arrival>)
    ensures var (s1, rs1) := RunRelay(c, s, run);
      var (s2, rs2) := RunRelay(c, s1, more);
      RunRelay(c, s, run + more) == (s2, rs1 + rs2)
    decreases |run|
  {
    hide Ingest, RunRelay;
    RunHead(c, s, run);
    RunHead(c, s, run + more);
    if run == [] {
      var rs2 := RunRelay(c, s, more).1;
      assert run + more == more && [] + rs2 == rs2;
    } else {
      assert (run + more)[1..] == run[1..] + more;
      var (s0, r) := Ingest(c, s, run[0].source, run[0].bytes);
      RunJoined(c, s0, run[1..], more);
      var (s1, rs1) := RunRelay(c, s0, run[1..]);
      var rs2 := RunRelay(c, s1, more).1;
      assert ([r] + rs1) + rs2 == [r] + (rs1 + rs2);
    }
  }

  lemma {:induction false} RunLast(c: Config, s: State, run: seq<Arrival>, a: Arrival)
    ensures var (s1, rs) := RunRelay(c, s, run);
      var (s2, r) := Ingest(c, s1, a.source, a.bytes);
      RunRelay(c, s, run + [a]) == (s2, rs + [r])
  {
    hide Ingest, RunRelay;
    var s1 := RunRelay(c, s, run).0;
    RunJoined(c, s, run, [a]);
    RunHead(c, s1, [a]);
    var (s2, r) := Ingest(c, s1, a.source, a.bytes);
    assert [a][1..] == [] && [r] + [] == [r];
    RunHead(c, s2, []);
  }

  /** The frame as the relay sees it. */
  function Frame(a: Arrival): Option<Message> {
    match Wire.DecodeMessage(a.bytes)
    case Err(_) => None
    case Ok(m) => Some(m.(origin := a.source))
  }

  function FrameKey(a: Arrival): Option<R.Key> {
    match Frame(a)
    case None => None
    case Some(m) => if m.frag.Some? then Some(R.KeyOf(m.frag.value)) else None
  }

  /** How a message is handed out: for this node if it is addressed to it or to all, else to be passed on. */
  function AsAddressed(c: Config, m: Message): Answer {
    if m.to == c.selfAddr || m.to == BROADCAST_ADDR then Ok(Complete(m)) else Ok(NotForMe(m))
  }

  /** What the relay answers when the reassembler does `o` with a frame. */
  function Told(c: Config, o: R.Outcome): Answer {
    match o
    case Passthrough(m) => AsAddressed(c, m)
    case Complete(m) => AsAddressed(c, m)
    case Buffered => Ok(Buffered)
    case Dropped(reason) => Ok(Dropped(reason))
  }

  function Delivers(r: Answer, id: u32): nat {
    if r.Ok? && r.value.Delivered().Some? && r.value.Delivered().value.id == id then 1 else 0
  }

  /** How often the answers hand out a message with this id. */
  function Deliveries(rs: seq<Answer>, id: u32): nat {
    if rs == [] then 0 else Delivers(rs[0], id) + Deliveries(rs[1..], id)
  }

  lemma {:induction false} DeliveriesJoined(rs: seq<Answer>, more: seq<Answer>, id: u32)
    ensures Deliveries(rs + more, id) == Deliveries(rs, id) + Deliveries(more, id)
    decreases |rs|
  {
    hide Delivers;
    if rs == [] {
      assert rs + more == more;
    } else {
      assert (rs + more)[1..] == rs[1..] + more;
      DeliveriesJoined(rs[1..], more, id);
    }
  }

  lemma {:induction false} OneAnswer(r: Answer, id: u32)
    ensures Deliveries([r], id) == Delivers(r, id)
  {
    hide Delivers;
    assert [r][1..] == [];
  }

  /** What was counted is there. */
  lemma {:induction false} SomeDelivers(rs: seq<Answer>, id: u32) returns (i: nat)
    requires Deliveries(rs, id) > 0
    ensures i < |rs| && Delivers(rs[i], id) == 1
    decreases |rs|
  {
    hide Delivers;
    DeliversOnce(rs[0], id);
    if Delivers(rs[0], id) == 1 {
      i := 0;
    } else {
      var j := SomeDelivers(rs[1..], id);
      i := j + 1;
    }
  }

  lemma DeliversOnce(r: Answer, id: u32)
    ensures Delivers(r, id) <= 1
  {
  }

  /** Fragments of one group carry one id. */
  ghost predicate GroupsAgree(run: seq<Arrival>) {
    forall i, j :: 0 <= i < |run| && 0 <= j < |run| && FrameKey(run[i]).Some? && FrameKey(run[i]) == FrameKey(run[j])
      ==> Frame(run[i]).value.id == Frame(run[j]).value.id
  }

  // ---- One step ----

  /** 1 for an open group of message `id` that holds slice 0. */
  ghost function FirstSlice(id: u32): R.Assembly -> nat {
    (a: R.Assembly) => if a.template.id == id && 0 in a.slices then 1 else 0
  }

  ghost function Pending(g: R.Groups, id: u32): nat {
    MapSum(g, FirstSlice(id))
  }

  ghost predicate OwnedBy(g: R.Groups, owner: R.Key -> u32) {
    forall k :: k in g ==> g[k].template.id == owner(k)
  }

  ghost predicate FrameOwned(m: Message, owner: R.Key -> u32) {
    m.frag.Some? ==> owner(R.KeyOf(m.frag.value)) == m.id
  }

  function Handed(o: R.Outcome, id: u32): nat {
    if (o.Passthrough? || o.Complete?) && o.msg.id == id then 1 else 0
  }

  /** A message handed out, or a slice 0 newly held, is paid for by the key of this very frame. */
  lemma ReassemblerPays(d: R.Dims, g: R.Groups, m: Message, id: u32, owner: R.Key -> u32)
    requires R.GroupsOk(d, g) && m.WellSized() && OwnedBy(g, owner) && FrameOwned(m, owner)
    ensures var (g', o) := R.Ingest(d, g, m);
      Handed(o, id) + Pending(g', id) <= Pending(g, id) + (if DedupKey(m) == id then 1 else 0)
  {
    hide R.Ingest, DedupKey, OwnedBy, FrameOwned, R.GroupsOk;
    if m.frag.None? {
      R.Unfragmented(d, g, m);
      WholeKey(m);
    } else {
      var k, a := R.KeyOf(m.frag.value), R.Joining(g, m);
      R.IngestEffect(d, g, m);
      WithoutKey(g, FirstSlice(id), k);
      PutIn(g, FirstSlice(id), k, R.Assembly(a.template, a.slices[m.frag.value.seqNo := m.payload]));
      if R.Ingest(d, g, m).1.Complete? {
        CompletionPays(d, g, m, id, owner);
      } else if R.Ingest(d, g, m).1.Buffered? {
        BufferingPays(d, g, m, id, owner);
      }
    }
  }

  lemma WholeKey(m: Message)
    ensures m.frag.None? ==> DedupKey(m) == m.id
    ensures m.frag.Some? && m.frag.value.seqNo == 0 ==> DedupKey(m) == m.id
  {
    hide SliceKey;
    SliceZeroKey(m.id);
  }

  lemma JoiningOwned(g: R.Groups, m: Message, owner: R.Key -> u32)
    requires m.frag.Some? && OwnedBy(g, owner) && FrameOwned(m, owner)
    ensures R.Joining(g, m).template.id == m.id
  {
  }

  lemma BufferingPays(d: R.Dims, g: R.Groups, m: Message, id: u32, owner: R.Key -> u32)
    requires m.frag.Some? && OwnedBy(g, owner) && FrameOwned(m, owner)
    ensures var k, a, w := R.KeyOf(m.frag.value), R.Joining(g, m), FirstSlice(id);
      w(R.Assembly(a.template, a.slices[m.frag.value.seqNo := m.payload]))
      <= (if k in g then w(g[k]) else 0) + (if DedupKey(m) == id then 1 else 0)
  {
    hide DedupKey, OwnedBy, FrameOwned;
    JoiningOwned(g, m, owner);
    WholeKey(m);
  }

  lemma CompletionPays(d: R.Dims, g: R.Groups, m: Message, id: u32, owner: R.Key -> u32)
    requires R.GroupsOk(d, g) && m.WellSized() && m.frag.Some? && OwnedBy(g, owner) && FrameOwned(m, owner)
    requires R.Ingest(d, g, m).1.Complete?
    ensures var k := R.KeyOf(m.frag.value);
      Handed(R.Ingest(d, g, m).1, id)
      <= (if k in g then FirstSlice(id)(g[k]) else 0) + (if DedupKey(m) == id then 1 else 0)
  {
    hide R.Ingest, DedupKey, OwnedBy, FrameOwned;
    var k, a := R.KeyOf(m.frag.value), R.Joining(g, m);
    CompletionContents(d, g, m);
    JoiningOwned(g, m, owner);
    WholeKey(m);
    var slices := a.slices[m.frag.value.seqNo := m.payload];
    FullSet(slices.Keys, k.total);
    assert 0 in slices.Keys;
  }

  lemma ReassemblerKeepsOwners(d: R.Dims, g: R.Groups, m: Message, owner: R.Key -> u32)
    requires R.GroupsOk(d, g) && m.WellSized() && OwnedBy(g, owner) && FrameOwned(m, owner)
    ensures OwnedBy(R.Ingest(d, g, m).0, owner)
  {
    hide R.Ingest;
    if m.frag.None? {
      R.Unfragmented(d, g, m);
    } else {
      R.IngestEffect(d, g, m);
    }
  }

  lemma {:induction false} StepPays(c: Config, s: State, a: Arrival, id: u32, owner: R.Key -> u32)
    requires R.GroupsOk(c.dims, s.groups) && OwnedBy(s.groups, owner)
    requires Frame(a).Some? ==> FrameOwned(Frame(a).value, owner)
    ensures var (s', r) := Ingest(c, s, a.source, a.bytes);
      && R.GroupsOk(c.dims, s'.groups) && OwnedBy(s'.groups, owner)
      && Delivers(r, id) + Pending(s'.groups, id) + Count(s.seen, id) <= Pending(s.groups, id) + Count(s'.seen, id)
  {
    hide R.Ingest, DedupKey, R.GroupsOk, OwnedBy, Wire.DecodeMessage, Learn, Pending, Count, Recent;
    match Wire.DecodeMessage(a.bytes)
    case Err(_) =>
    case Ok(decoded) =>
      var m := decoded.(origin := a.source);
      ReassemblerPays(c.dims, s.groups, m, id, owner);
      ReassemblerKeepsOwners(c.dims, s.groups, m, owner);
      R.IngestKeepsGroups(c.dims, s.groups, m);
      CountOneMore(s.seen, DedupKey(m), id);
  }

  lemma {:induction false} CountOneMore(seen: seq<u32>, key: u32, id: u32)
    ensures Count(seen + [key], id) == Count(seen, id) + (if key == id then 1 else 0)
  {
    assert (seen + [key])[..|seen|] == seen;
  }

  // ---- Every run ----

  lemma {:induction false} RunPays(c: Config, s: State, run: seq<Arrival>, id: u32, owner: R.Key -> u32)
    requires R.GroupsOk(c.dims, s.groups) && OwnedBy(s.groups, owner)
    requires forall a <- run :: Frame(a).Some? ==> FrameOwned(Frame(a).value, owner)
    ensures var (s', rs) := RunRelay(c, s, run);
      Deliveries(rs, id) + Pending(s'.groups, id) + Count(s.seen, id) <= Pending(s.groups, id) + Count(s'.seen, id)
    decreases |run|
  {
    hide Ingest, R.GroupsOk, OwnedBy, FrameOwned, Frame, Delivers, Pending, Count;
    if run != [] {
      StepPays(c, s, run[0], id, owner);
      var (s1, r) := Ingest(c, s, run[0].source, run[0].bytes);
      RunPays(c, s1, run[1..], id, owner);
      var rs := RunRelay(c, s1, run[1..]).1;
      assert ([r] + rs)[0] == r && ([r] + rs)[1..] == rs;
    }
  }

  /** What the relay has recorded is spaced by its window, whatever arrives. */
  lemma {:induction false} RunSpaces(c: Config, s: State, run: seq<Arrival>)
    requires Spaced(s.seen, SEEN_WINDOW)
    ensures Spaced(RunRelay(c, s, run).0.seen, SEEN_WINDOW)
    decreases |run|
  {
    hide Ingest, Spaced;
    if run != [] {
      StepSpaces(c, s, run[0]);
      RunSpaces(c, Ingest(c, s, run[0].source, run[0].bytes).0, run[1..]);
    }
  }

  lemma StepSpaces(c: Config, s: State, a: Arrival)
    requires Spaced(s.seen, SEEN_WINDOW)
    ensures Spaced(Ingest(c, s, a.source, a.bytes).0.seen, SEEN_WINDOW)
  {
    hide Spaced, R.Ingest, DedupKey, Recent;
    if Frame(a).Some? {
      RecordKeepsSpaced(s.seen, SEEN_WINDOW, DedupKey(Frame(a).value));
    }
  }

  /**
   At most once: on every run of a relay that starts with nothing pending, in which
   fragments of one group carry one id, a message is delivered no more often than its id
   was recorded as fresh; and between two such recordings lie at least 64 fresh frames.
   So n deliveries of one message take more than 65(n - 1) fresh frames.
   */
  lemma DeliveredAtMostOnce(c: Config, s: State, run: seq<Arrival>, id: u32)
    requires s.groups == map[] && s.seen == [] && GroupsAgree(run)
    ensures var (s', rs) := RunRelay(c, s, run);
      && Deliveries(rs, id) <= Count(s'.seen, id)
      && Spaced(s'.seen, SEEN_WINDOW)
      && Deliveries(rs, id) * (SEEN_WINDOW + 1) <= |s'.seen| + SEEN_WINDOW
  {
    hide Ingest, RunRelay, Frame, Wire.DecodeMessage;
    var owner := Owner(run);
    forall a | a in run
      ensures Frame(a).Some? ==> FrameOwned(Frame(a).value, owner)
    {
      OwnerAgrees(run, a);
    }
    RunPays(c, s, run, id, owner);
    RunSpaces(c, s, run);
    CountBound(RunRelay(c, s, run).0.seen, SEEN_WINDOW, id);
    Scale(Deliveries(RunRelay(c, s, run).1, id), Count(RunRelay(c, s, run).0.seen, id), SEEN_WINDOW + 1);
  }

  lemma Scale(a: nat, b: nat, k: nat)
    requires a <= b
    ensures a * k <= b * k
  {
  }

  /** The id that the fragments of each group in the run carry. */
  ghost function Owner(run: seq<Arrival>): R.Key -> u32 {
    (k: R.Key) =>
      if exists i :: 0 <= i < |run| && FrameKey(run[i]) == Some(k) then
        var i :| 0 <= i < |run| && FrameKey(run[i]) == Some(k);
        Frame(run[i]).value.id
      else 0
  }

  lemma OwnerAgrees(run: seq<Arrival>, a: Arrival)
    requires GroupsAgree(run) && a in run
    ensures Frame(a).Some? ==> FrameOwned(Frame(a).value, Owner(run))
  {
    hide Wire.DecodeMessage;
    if FrameKey(a).Some? {
      var j :| 0 <= j < |run| && run[j] == a;
      var k := FrameKey(a).value;
      var i :| 0 <= i < |run| && FrameKey(run[i]) == Some(k) && Owner(run)(k) == Frame(run[i]).value.id;
      assert FrameKey(run[i]) == FrameKey(run[j]);
    }
  }
}
