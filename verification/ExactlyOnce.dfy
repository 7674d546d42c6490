/**
 A message whose frames all reach a relay is delivered exactly once, whatever their order
 and repetition and whatever else arrives in between; and what happens when it also
 arrives unsliced over another transport. These are floods in which one version at most is
 sliced.
 */
module ExactlyOnce {
  import opened Wrappers
  import opened Proto
  import opened Dedup
  import opened Receivers
  import opened Seen
  import opened RelaySpec
  import opened AtMostOnce
  import opened Transfers
  import opened Versions
  import R = Reassembly
  import Wire

  predicate IsPart(a: Arrival, x: Transfer) {
    exists s :: 0 <= s < |x.frames| && IsCopy(a, x, s)
  }

  /** The same message in one piece, where that is not what its own transport brings. */
  predicate OtherForm(a: Arrival, x: Transfer) {
    Frame(a) == Some(x.whole.(origin := a.source)) && !IsPart(a, x)
  }

  /** Traffic of another message and another group whose key is none of the transfer's. */
  ghost predicate Unrelated(a: Arrival, x: Transfer) {
    Frame(a).Some? ==>
      var m := Frame(a).value;
      && m.id != x.whole.id
      && (forall s :: 0 <= s < |x.frames| ==> DedupKey(m) != DedupKey(x.frames[s]))
      && (|x.frames| > 1 && m.frag.Some? ==>
           !(m.frag.value.groupId == x.group && m.frag.value.total == |x.frames|))
  }

  /** Every arrival belongs to the transfer or has nothing to do with it. */
  ghost predicate Expected(a: Arrival, x: Transfer) {
    IsPart(a, x) || OtherForm(a, x) || Unrelated(a, x)
  }

  /** The relay remembers nothing of the message: none of its keys, and no group of it. */
  ghost predicate NewTo(s: State, x: Transfer)
    requires |x.frames| < 0x1_0000
  {
    && (forall i :: 0 <= i < |x.frames| ==> DedupKey(x.frames[i]) !in Recent(s.seen, SEEN_WINDOW))
    && (|x.frames| > 1 ==> x.Key() !in s.groups)
    && OthersForeign(s.groups, x.whole.id, {})
  }

  /** If a part arrives that is not a repeat, it finds its group open or a slot free. */
  ghost predicate Served(c: Config, s: State, a: Arrival, x: Transfer)
    requires |x.frames| < 0x1_0000
  {
    IsPart(a, x) && DedupKey(Frame(a).value) !in Recent(s.seen, SEEN_WINDOW) ==> HasSlot(c, s, x)
  }

  ghost predicate SlotAvailable(c: Config, s: State, run: seq<Arrival>, x: Transfer)
    requires |x.frames| < 0x1_0000
    decreases |run|
  {
    run != [] ==>
      && Served(c, s, run[0], x)
      && SlotAvailable(c, Ingest(c, s, run[0].source, run[0].bytes).0, run[1..], x)
  }

  /** The frames of the transfer that arrive in the run. */
  ghost function Arriving(run: seq<Arrival>, x: Transfer): set<nat>
    decreases |run|
  {
    if run == [] then {}
    else (set s | 0 <= s < |x.frames| && IsCopy(run[0], x, s)) + Arriving(run[1..], x)
  }

  /** The message arrives in one piece over another transport before its own first frame. */
  ghost predicate OtherFirst(run: seq<Arrival>, x: Transfer) {
    exists j :: 0 <= j < |run| && OtherForm(run[j], x) && forall i :: 0 <= i < j ==> !IsCopy(run[i], x, 0)
  }

  /** The message as it is handed out in answer to `a`. */
  function HandedOut(c: Config, a: Arrival, x: Transfer): Answer {
    AsAddressed(c, x.whole.(origin := a.source))
  }

  /**
   What belongs to the transfer is answered with `Buffered`, with `Duplicate`, or with the
   whole message; nothing else hands out a message of its id.
   */
  ghost predicate GoodAnswer(c: Config, a: Arrival, r: Answer, x: Transfer) {
    if IsPart(a, x) || OtherForm(a, x) then r == Ok(Buffered) || r == Ok(Duplicate) || r == HandedOut(c, a, x)
    else Delivers(r, x.whole.id) == 0
  }

  ghost predicate AllArrive(run: seq<Arrival>, x: Transfer) {
    forall i: nat :: i < |x.frames| ==> i in Arriving(run, x)
  }

  /** The parts that can be put together: those that arrive, but not the first if the other form came before it. */
  ghost function Usable(run: seq<Arrival>, x: Transfer): set<nat> {
    Arriving(run, x) - (if OtherFirst(run, x) then {0} else {})
  }

  // ---- The forms as versions ----

  /** The transports over which the message in one piece is not the transfer itself. */
  function OtherTransports(x: Transfer): seq<Transport> {
    InOrder({Lora, Mqtt, EspNow} - (if Sliced(x) then {} else {x.whole.origin}))
  }

  function OnePieceOver(x: Transfer, t: Transport): Transfer {
    Transfer(x.whole.(origin := t), [x.whole.(origin := t)], 0)
  }

  /** The transfer, and the message in one piece over the other transports. */
  function Forms(x: Transfer): (xs: seq<Transfer>)
    ensures |xs| > 0 && xs[0] == x
    ensures forall v :: 0 < v < |xs| ==> |xs[v].frames| == 1
  {
    var ts := OtherTransports(x);
    [x] + seq(|ts|, (i: nat) requires i < |ts| => OnePieceOver(x, ts[i]))
  }

  lemma FormAt(x: Transfer, v: nat)
    requires 0 < v < |Forms(x)|
    ensures v - 1 < |OtherTransports(x)| && Forms(x)[v] == OnePieceOver(x, OtherTransports(x)[v - 1])
  {
  }

  lemma FormsAreVersions(c: Config, x: Transfer)
    requires Sound(c, x)
    ensures OneMessage(c, x.whole.id, |x.frames|, Forms(x))
  {
    hide R.Fits, Apart, OtherTransports;
    FewFrames(c, x);
    forall v | 0 <= v < |Forms(x)|
      ensures Sound(c, Forms(x)[v]) && Forms(x)[v].whole.id == x.whole.id && 0 < |Forms(x)[v].frames| <= |x.frames|
    {
      if v > 0 {
        FormAt(x, v);
      }
    }
    forall u, v | 0 <= u < v < |Forms(x)|
      ensures Apart(Forms(x)[u], Forms(x)[v])
    {
      FormsApart(x, u, v);
    }
  }

  lemma FewFrames(c: Config, x: Transfer)
    requires Sound(c, x)
    ensures 0 < |x.frames| <= 64
    ensures !Sliced(x) ==> x.frames == [x.whole]
  {
    hide R.F.Joined;
  }

  lemma FormsApart(x: Transfer, u: nat, v: nat)
    requires u < v < |Forms(x)|
    ensures Apart(Forms(x)[u], Forms(x)[v])
  {
    hide InOrder;
    var keep := {Lora, Mqtt, EspNow} - (if Sliced(x) then {} else {x.whole.origin});
    InOrderMembers(keep);
    FormAt(x, v);
    assert OtherTransports(x)[v - 1] in keep;
    if u > 0 {
      FormAt(x, u);
    }
  }

  /** What an arrival brings, in terms of forms. */
  lemma BringsForm(c: Config, x: Transfer, a: Arrival, v: nat, i: nat)
    requires Sound(c, x) && Brings(a, Forms(x), v, i)
    ensures v == 0 ==> IsCopy(a, x, i) && IsPart(a, x) && a.source == x.whole.origin
    ensures v > 0 ==> i == 0 && OtherForm(a, x) && Forms(x)[v].whole == x.whole.(origin := a.source)
  {
    hide Wire.DecodeMessage, Sound, Apart, OtherTransports;
    if v == 0 {
      PartOrigin(c, a, x, i);
    } else {
      FormAt(x, v);
      FormsAreVersions(c, x);
      if IsPart(a, x) {
        var j: nat :| j < |x.frames| && IsCopy(a, x, j);
        BringsOnce(c, x.whole.id, |x.frames|, Forms(x), a, v, i, 0, j);
      }
    }
  }

  lemma OtherFormBrings(c: Config, x: Transfer, a: Arrival) returns (v: nat)
    requires Sound(c, x) && OtherForm(a, x)
    ensures v > 0 && Brings(a, Forms(x), v, 0)
  {
    hide Frame, Sound, InOrder;
    FewFrames(c, x);
    var keep := {Lora, Mqtt, EspNow} - (if Sliced(x) then {} else {x.whole.origin});
    if !Sliced(x) && a.source == x.whole.origin {
      assert x.whole == x.whole.(origin := a.source);
      assert IsCopy(a, x, 0);
      CopyIsPart(a, x, 0);
    }
    InOrderMembers(keep);
    AnyTransport(a.source);
    assert a.source in OtherTransports(x);
    var i :| 0 <= i < |OtherTransports(x)| && OtherTransports(x)[i] == a.source;
    v := i + 1;
    FormAt(x, v);
  }

  lemma AnyTransport(t: Transport)
    ensures t in {Lora, Mqtt, EspNow}
  {
  }

  /** Every arrival is one of the versions, or foreign, just as it is expected here. */
  lemma ExpectedBelongs(c: Config, x: Transfer, a: Arrival)
    requires Sound(c, x) && Expected(a, x)
    ensures OneMessage(c, x.whole.id, |x.frames|, Forms(x))
    ensures Belongs(a, x.whole.id, |x.frames|, Forms(x))
  {
    hide Unrelated, OtherForm, Sound, Frame, OneMessage, Foreign;
    FormsAreVersions(c, x);
    if IsPart(a, x) {
      var i: nat :| i < |x.frames| && IsCopy(a, x, i);
      assert Brings(a, Forms(x), 0, i);
    } else if OtherForm(a, x) {
      var v := OtherFormBrings(c, x, a);
    } else {
      UnrelatedIsForeign(c, x, a);
    }
  }

  lemma UnrelatedIsForeign(c: Config, x: Transfer, a: Arrival)
    requires Sound(c, x) && Unrelated(a, x) && OneMessage(c, x.whole.id, |x.frames|, Forms(x))
    ensures Foreign(a, x.whole.id, |x.frames|, Forms(x))
  {
    hide DedupKey, SliceKey, Wire.DecodeMessage, Sound, Apart;
    FormHomes(x);
    PartKeys(c, x);
  }

  lemma FormHomes(x: Transfer)
    requires |x.frames| <= 64
    ensures Homes(Forms(x)) == x.OwnGroups()
  {
    hide Forms;
    if Sliced(x) {
      InHomes(Forms(x), 0);
    }
  }

  lemma PartKeys(c: Config, x: Transfer)
    requires Sound(c, x)
    ensures forall i :: 0 <= i < |x.frames| ==> i < 64 && DedupKey(x.frames[i]) == SliceKey(x.whole.id, i)
  {
    hide SliceKey, Sound;
    SliceZeroKey(x.whole.id);
    FewFrames(c, x);
    forall i | 0 <= i < |x.frames|
      ensures DedupKey(x.frames[i]) == SliceKey(x.whole.id, i)
    {
      SliceFrag(c, x, i);
    }
  }

  lemma NewIsUnmet(c: Config, s: State, x: Transfer)
    requires Sound(c, x) && |x.frames| <= 64 && NewTo(s, x)
    ensures Unmet(s, x.whole.id, |x.frames|, Forms(x))
  {
    hide DedupKey, SliceKey, Recent, Sound, Forms;
    PartKeys(c, x);
  }

  lemma {:induction false} SlotsForForms(c: Config, s: State, run: seq<Arrival>, x: Transfer)
    requires Sound(c, x) && |x.frames| <= 64 && SlotAvailable(c, s, run, x)
    ensures SlotsServe(c, s, run, Forms(x))
    decreases |run|
  {
    hide Ingest, Sound, Served, ServedOf, Forms;
    if run != [] {
      ServedForms(c, s, run[0], x);
      SlotsForForms(c, Ingest(c, s, run[0].source, run[0].bytes).0, run[1..], x);
    }
  }

  lemma ServedForms(c: Config, s: State, a: Arrival, x: Transfer)
    requires Sound(c, x) && |x.frames| <= 64 && Served(c, s, a, x)
    ensures ServedOf(c, s, a, Forms(x))
  {
    hide Forms, Frame, DedupKey, Recent, Sound;
    forall v: nat, i: nat | Brings(a, Forms(x), v, i) && DedupKey(Frame(a).value) !in Recent(s.seen, SEEN_WINDOW)
      ensures HasSlot(c, s, Forms(x)[v])
    {
      if v == 0 {
        CopyIsPart(a, x, i);
      }
    }
  }

  lemma CopyIsPart(a: Arrival, x: Transfer, i: nat)
    requires IsCopy(a, x, i)
    ensures IsPart(a, x)
  {
  }

  /** The part that the transfer itself wins: what arrives, but not the first part if another form precedes it. */
  lemma {:induction false} WinsArriving(c: Config, run: seq<Arrival>, x: Transfer, i: nat)
    requires Sound(c, x)
    ensures Wins(run, Forms(x), 0, i) <==> i in Usable(run, x)
    decreases |run|
  {
    hide OtherForm, IsCopy, Forms, Sound, Brings, Wins, OtherFirst;
    if run == [] {
      NothingWins(Forms(x), 0, i);
      NothingFirst(x);
    } else {
      WinsHead(run, Forms(x), 0, i);
      WinsArriving(c, run[1..], x, i);
      ArrivingHead(run, x);
      OtherFirstHead(run, x);
      HeadBrings(c, x, run[0], i);
    }
  }

  lemma NothingFirst(x: Transfer)
    ensures !OtherFirst([], x)
  {
  }

  /** What one arrival brings under number `i`. */
  lemma {:induction false} HeadBrings(c: Config, x: Transfer, a: Arrival, i: nat)
    requires Sound(c, x)
    ensures Brings(a, Forms(x), 0, i) <==> i in Arriving([a], x)
    ensures (exists v: nat :: v > 0 && Brings(a, Forms(x), v, i)) <==> i == 0 && OtherForm(a, x)
    ensures Brings(a, Forms(x), 0, i) <==> IsCopy(a, x, i)
    ensures (forall v: nat :: !Brings(a, Forms(x), v, i)) <==> !IsCopy(a, x, i) && !(i == 0 && OtherForm(a, x))
    ensures IsCopy(a, x, i) ==> !OtherForm(a, x)
  {
    hide Frame, Forms, Sound;
    assert Arriving([a], x) == (set s | 0 <= s < |x.frames| && IsCopy(a, x, s)) + Arriving([], x);
    if v: nat :| v > 0 && Brings(a, Forms(x), v, i) {
      BringsForm(c, x, a, v, i);
    }
    if i == 0 && OtherForm(a, x) {
      var v := OtherFormBrings(c, x, a);
    }
  }

  /** Another form wins exactly when it comes before the first part. */
  lemma {:induction false} OtherFormWins(c: Config, run: seq<Arrival>, x: Transfer)
    requires Sound(c, x)
    ensures OtherFirst(run, x) <==> exists v: nat :: v > 0 && Wins(run, Forms(x), v, 0)
    decreases |run|
  {
    hide OtherForm, IsCopy, Forms, Sound, Brings, Wins, OtherFirst;
    if run == [] {
      NothingFirst(x);
      forall v: nat
        ensures !Wins([], Forms(x), v, 0)
      {
        NothingWins(Forms(x), v, 0);
      }
    } else {
      forall v: nat
        ensures Wins(run, Forms(x), v, 0) <==>
                  Brings(run[0], Forms(x), v, 0)
                  || ((forall u: nat :: !Brings(run[0], Forms(x), u, 0)) && Wins(run[1..], Forms(x), v, 0))
      {
        WinsHead(run, Forms(x), v, 0);
      }
      OtherFormWins(c, run[1..], x);
      OtherFirstHead(run, x);
      HeadBrings(c, x, run[0], 0);
      if OtherForm(run[0], x) {
        var v: nat :| v > 0 && Brings(run[0], Forms(x), v, 0);
        assert Wins(run, Forms(x), v, 0);
      }
    }
  }

  lemma OtherFirstHead(run: seq<Arrival>, x: Transfer)
    requires run != []
    ensures OtherFirst(run, x) <==> OtherForm(run[0], x) || (!IsCopy(run[0], x, 0) && OtherFirst(run[1..], x))
  {
    hide OtherForm, IsCopy;
    if j :| 0 <= j < |run| && OtherForm(run[j], x) && forall i :: 0 <= i < j ==> !IsCopy(run[i], x, 0) {
      if j > 0 {
        assert run[1..][j - 1] == run[j];
        assert forall i :: 0 <= i < j - 1 ==> run[1..][i] == run[i + 1];
      }
    }
    if !IsCopy(run[0], x, 0) && OtherFirst(run[1..], x) {
      var j :| 0 <= j < |run[1..]| && OtherForm(run[1..][j], x)
               && forall i :: 0 <= i < j ==> !IsCopy(run[1..][i], x, 0);
      assert run[j + 1] == run[1..][j];
      assert forall i :: 0 < i < j + 1 ==> run[i] == run[1..][i - 1];
    }
  }

  lemma {:induction false} ArrivingHead(run: seq<Arrival>, x: Transfer)
    requires run != []
    ensures Arriving(run, x) == Arriving([run[0]], x) + Arriving(run[1..], x)
    ensures 0 in Arriving([run[0]], x) ==> IsCopy(run[0], x, 0)
  {
    hide IsCopy;
    assert Arriving([run[0]], x) == (set i | 0 <= i < |x.frames| && IsCopy(run[0], x, i)) + Arriving([], x);
  }

  /** The ledger of the run: the transfer has what is usable, and another form may have the first number. */
  lemma FormBooks(c: Config, s: State, run: seq<Arrival>, x: Transfer) returns (won: Ledger)
    requires Sound(c, x) && |x.frames| <= 64 && NewTo(s, x)
    requires forall a <- run :: Expected(a, x)
    requires SlotAvailable(c, s, run, x)
    requires |RunRelay(c, s, run).0.seen| <= |s.seen| + SEEN_WINDOW
    ensures InBooks(c, RunRelay(c, s, run).0, x.whole.id, |x.frames|, Forms(x), won, |s.seen|)
    ensures Share(won, 0) == Usable(run, x)
    ensures OtherFirst(run, x) ==> 0 in won
  {
    hide Expected, NewTo, SlotAvailable, RunRelay, OtherFirst, Usable, Forms, Sound, InBooks, Settled, Wins, Belongs;
    hide Apart, AwardAll, Unmet, SlotsServe, Share, Replies, HandedOutAs;
    FloodConditions(c, s, run, x);
    BooksOpen(c, s, x.whole.id, |x.frames|, Forms(x));
    RunSettles(c, s, run, x.whole.id, |x.frames|, Forms(x), map[], |s.seen|);
    won := AwardAll(run, Forms(x), map[]);
    InBooksOne(c, RunRelay(c, s, run).0, x.whole.id, |x.frames|, Forms(x), won, |s.seen|);
    LedgerOf(c, x.whole.id, |x.frames|, run, Forms(x));
    forall i: nat
      ensures i in Share(won, 0) <==> i in Usable(run, x)
    {
      WinsArriving(c, run, x, i);
    }
    OtherFormWins(c, run, x);
    if v: nat :| v > 0 && Wins(run, Forms(x), v, 0) {
      AwardsAreFirst(c, x.whole.id, |x.frames|, run, Forms(x), map[], v, 0);
    }
  }

  lemma {:induction false} FloodConditions(c: Config, s: State, run: seq<Arrival>, x: Transfer)
    requires Sound(c, x) && |x.frames| <= 64 && NewTo(s, x)
    requires forall a <- run :: Expected(a, x)
    requires SlotAvailable(c, s, run, x)
    ensures OneMessage(c, x.whole.id, |x.frames|, Forms(x))
    ensures Unmet(s, x.whole.id, |x.frames|, Forms(x))
    ensures forall a <- run :: Belongs(a, x.whole.id, |x.frames|, Forms(x))
    ensures SlotsServe(c, s, run, Forms(x))
  {
    hide Expected, NewTo, SlotAvailable, Forms, Sound, Belongs, Apart, Unmet, SlotsServe;
    FormsAreVersions(c, x);
    NewIsUnmet(c, s, x);
    SlotsForForms(c, s, run, x);
    forall a <- run
      ensures Belongs(a, x.whole.id, |x.frames|, Forms(x))
    {
      ExpectedBelongs(c, x, a);
    }
  }

  lemma ReplyIsGood(c: Config, a: Arrival, r: Answer, x: Transfer)
    requires Sound(c, x) && Reply(c, a, r, x.whole.id, Forms(x))
    ensures GoodAnswer(c, a, r, x)
  {
    hide Frame, Forms, Sound, OtherForm, IsCopy, Delivers, AsAddressed;
    if IsPart(a, x) {
      var i: nat :| i < |x.frames| && IsCopy(a, x, i);
      PartOrigin(c, a, x, i);
      assert Brings(a, Forms(x), 0, i);
    } else if OtherForm(a, x) {
      var v := OtherFormBrings(c, x, a);
      BringsForm(c, x, a, v, 0);
    } else {
      forall v: nat, i: nat
        ensures !Brings(a, Forms(x), v, i)
      {
        if Brings(a, Forms(x), v, i) {
          BringsForm(c, x, a, v, i);
        }
      }
    }
  }

  /** Some form wins all its numbers when the transfer arrives whole, or another form precedes it. */
  lemma SomeFormWins(c: Config, run: seq<Arrival>, x: Transfer)
    requires Sound(c, x)
    ensures WinsAll(run, Forms(x), 0) <==> forall i: nat :: i < |x.frames| ==> i in Usable(run, x)
    ensures (exists i: nat :: Wins(run, Forms(x), 0, i)) <==> Usable(run, x) != {}
    ensures (exists v :: 0 <= v < |Forms(x)| && WinsAll(run, Forms(x), v))
            <==> AllArrive(run, x) || OtherFirst(run, x)
  {
    hide Forms, Sound, OtherFirst, Wins, Arriving;
    FewFrames(c, x);
    forall i: nat
      ensures Wins(run, Forms(x), 0, i) <==> i in Usable(run, x)
    {
      WinsArriving(c, run, x, i);
    }
    OtherFormWins(c, run, x);
    if OtherFirst(run, x) {
      var v: nat :| v > 0 && Wins(run, Forms(x), v, 0);
      WinsInRange(run, Forms(x), v, 0);
      assert WinsAll(run, Forms(x), v);
      assert 0 !in Usable(run, x) && !Wins(run, Forms(x), 0, 0);
    } else if AllArrive(run, x) {
      assert WinsAll(run, Forms(x), 0);
    }
    if i: nat :| i in Usable(run, x) {
      assert Wins(run, Forms(x), 0, i);
    }
    if v :| 0 <= v < |Forms(x)| && WinsAll(run, Forms(x), v) {
      assert Wins(run, Forms(x), v, 0);
      forall i: nat | v == 0 && i < |x.frames|
        ensures i in Arriving(run, x)
      {
        assert Wins(run, Forms(x), 0, i);
      }
    }
  }

  lemma WinsInRange(run: seq<Arrival>, xs: seq<Transfer>, v: nat, i: nat)
    requires Wins(run, xs, v, i)
    ensures v < |xs|
  {
  }

  /**
   A message in two forms. If a relay remembers nothing of a message when a run begins, the
   run brings at most 64 fresh frames, other traffic is of other messages, groups and keys,
   and a slot is free when a part needs one, then over all answers of the run the message is
   handed out exactly once if all its frames arrive or it comes in one piece over another
   transport before its first frame does, and not at all otherwise. It comes out as it was
   sent, with the transport of that arrival as origin. Its group is still open in the end
   exactly when some of its frames could be used, but not all.
   */
  lemma {:induction false} DeliveredInEitherForm(c: Config, s: State, run: seq<Arrival>, x: Transfer)
    requires Sound(c, x) && |x.frames| < 0x1_0000 && NewTo(s, x)
    requires forall a <- run :: Expected(a, x)
    requires SlotAvailable(c, s, run, x)
    requires |RunRelay(c, s, run).0.seen| <= |s.seen| + SEEN_WINDOW
    ensures var (s', rs) := RunRelay(c, s, run);
      && Deliveries(rs, x.whole.id) == (if AllArrive(run, x) || OtherFirst(run, x) then 1 else 0)
      && (forall i :: 0 <= i < |run| ==> GoodAnswer(c, run[i], rs[i], x))
      && (|x.frames| > 1 ==>
           (x.Key() in s'.groups <==>
             Usable(run, x) != {} && exists i: nat :: i < |x.frames| && i !in Usable(run, x)))
  {
    hide Expected, NewTo, SlotAvailable, RunRelay, OtherFirst, Forms, Sound, Wins, Belongs, Apart, Unmet, Usable;
    hide SlotsServe, HandedOutAs, Deliveries, GoodAnswer, Reply, Arriving, WinsAll;
    FewFrames(c, x);
    FloodConditions(c, s, run, x);
    FloodDelivery(c, s, run, x.whole.id, |x.frames|, Forms(x));
    SomeFormWins(c, run, x);
    var rs := RunRelay(c, s, run).1;
    forall i | 0 <= i < |run|
      ensures GoodAnswer(c, run[i], rs[i], x)
    {
      ReplyIsGood(c, run[i], rs[i], x);
    }
  }

  /**
   Exactly once: under the same conditions, and with no other form about, the relay hands
   the message out exactly once if every part arrives, and not at all otherwise, counted
   over all its answers. Every other part is buffered or recognised as a repeat; and nothing
   stays behind.
   */
  lemma {:induction false} DeliveredExactlyOnce(c: Config, s: State, run: seq<Arrival>, x: Transfer)
    requires Sound(c, x) && |x.frames| < 0x1_0000 && NewTo(s, x)
    requires forall a <- run :: IsPart(a, x) || Unrelated(a, x)
    requires SlotAvailable(c, s, run, x)
    requires |RunRelay(c, s, run).0.seen| <= |s.seen| + SEEN_WINDOW
    ensures var (s', rs) := RunRelay(c, s, run);
      && Deliveries(rs, x.whole.id) == (if AllArrive(run, x) then 1 else 0)
      && (forall i :: 0 <= i < |run| ==> GoodAnswer(c, run[i], rs[i], x))
      && (AllArrive(run, x) && |x.frames| > 1 ==> x.Key() !in s'.groups)
  {
    hide Ingest, DedupKey, Recent, RunRelay, NewTo, SlotAvailable, Deliveries, IsCopy, GoodAnswer, Sound, Frame, IsPart;
    NoOtherForm(run, x);
    DeliveredInEitherForm(c, s, run, x);
  }

  lemma NoOtherForm(run: seq<Arrival>, x: Transfer)
    requires forall a <- run :: IsPart(a, x) || Unrelated(a, x)
    ensures !OtherFirst(run, x) && forall a <- run :: Expected(a, x) && !OtherForm(a, x)
  {
    hide DedupKey, Wire.DecodeMessage, IsPart;
    forall a <- run
      ensures !OtherForm(a, x)
    {
      assert IsPart(a, x) || Unrelated(a, x);
    }
  }

  // ---- When the conditions are met ----

  /** A relay with no other open group serves a transfer with one slot. */
  lemma {:induction false} OneSlotServes(c: Config, s: State, run: seq<Arrival>, x: Transfer)
    requires Sound(c, x) && |x.frames| < 0x1_0000 && s.groups.Keys <= x.OwnGroups() && c.dims.slots > 0
    requires forall a <- run :: IsPart(a, x) || OtherForm(a, x)
    ensures SlotAvailable(c, s, run, x)
    decreases |run|
  {
    hide Ingest, IsPart, OtherForm, Sound;
    if run != [] {
      assert IsPart(run[0], x) || OtherForm(run[0], x);
      OwnGroupOnly(c, s, run[0], x);
      OneSlotServes(c, Ingest(c, s, run[0].source, run[0].bytes).0, run[1..], x);
    }
  }

  lemma OwnGroupOnly(c: Config, s: State, a: Arrival, x: Transfer)
    requires Sound(c, x) && |x.frames| < 0x1_0000 && s.groups.Keys <= x.OwnGroups() && c.dims.slots > 0
    requires IsPart(a, x) || OtherForm(a, x)
    ensures Served(c, s, a, x)
    ensures Ingest(c, s, a.source, a.bytes).0.groups.Keys <= x.OwnGroups()
  {
    hide R.Ingest, DedupKey, Recent, Wire.DecodeMessage, R.F.Joined;
    if x.Key() !in s.groups {
      assert s.groups == map[];
    }
    var m := Frame(a).value;
    if m.frag.None? {
      R.Unfragmented(c.dims, s.groups, m);
    } else {
      R.OneGroupChanges(c.dims, s.groups, m);
      var g := R.Ingest(c.dims, s.groups, m).0;
      assert forall k :: k in g && k != x.Key() ==> k in g - {x.Key()};
    }
  }

  /** An arrival is a copy of at most one frame. */
  lemma {:induction false} ArrivingOne(c: Config, a: Arrival, x: Transfer)
    requires Sound(c, x)
    ensures forall i: nat :: IsCopy(a, x, i) ==> Arriving([a], x) == {i}
    ensures !IsPart(a, x) ==> Arriving([a], x) == {}
    ensures (exists i: nat :: IsCopy(a, x, i)) <==> IsPart(a, x)
    ensures OtherForm(a, x) ==> !IsPart(a, x)
  {
    hide Frame;
    var one := set s | 0 <= s < |x.frames| && IsCopy(a, x, s);
    assert Arriving([a], x) == one + Arriving([], x) == one;
    forall i: nat | IsCopy(a, x, i)
      ensures one == {i}
    {
      forall j | j in one && j != i
        ensures false
      {
        PartKeysDiffer(c, x, i, j);
      }
    }
  }
}
