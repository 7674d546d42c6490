/**
 What one call of `ingest` means to the caller: which answer each frame gets, and what the
 relay has learned from it, in terms of the frame and the relay's memory only.
 */
module Answers {
  import opened Wrappers
  import opened Proto
  import opened Dedup
  import opened Seen
  import opened RelaySpec
  import opened AtMostOnce
  import opened Transfers
  import R = Reassembly
  import Wire

  /** Whether the frame's key is among the last 64 recorded. */
  predicate Remembers(s: State, m: Message) {
    DedupKey(m) in (if |s.seen| <= 64 then s.seen else s.seen[|s.seen| - 64..])
  }

  /** A message is reported as complete only to its addressee or as a broadcast, and as another's only to others. */
  lemma AnswerByAddress(c: Config, s: State, source: Transport, bytes: seq<u8>, m: Message)
    ensures Ingest(c, s, source, bytes).1 == Ok(Complete(m)) ==> m.to == c.selfAddr || m.to == BROADCAST_ADDR
    ensures Ingest(c, s, source, bytes).1 == Ok(NotForMe(m)) ==> m.to != c.selfAddr && m.to != BROADCAST_ADDR
  {
    hide R.Ingest, Wire.DecodeMessage, DedupKey, Recent, Learn;
  }

  /**
   Bytes that are no message change nothing and are reported. Of a message, a repeat is
   recognised by its key; anything else is recorded. An unsliced message is handed out by
   its address, with the transport it came over as origin; a slice is answered as the
   reassembler decides, and a completed message handed out by its address too.
   */
  lemma EveryAnswer(c: Config, s: State, source: Transport, bytes: seq<u8>)
    ensures var (s', r) := Ingest(c, s, source, bytes);
      match Wire.DecodeMessage(bytes)
      case Err(e) => r == Err(Protocol(e)) && s' == s
      case Ok(decoded) =>
        var m := decoded.(origin := source);
        && s'.idCtr == s.idCtr && s'.registered == s.registered
        && (r == Ok(Duplicate) <==> Remembers(s, m))
        && (Remembers(s, m) ==> s'.groups == s.groups && s'.seen == s.seen)
        && (!Remembers(s, m) ==> s'.seen == s.seen + [DedupKey(m)])
        && (!Remembers(s, m) && m.frag.None? ==>
             && s'.groups == s.groups
             && r == (if m.to == c.selfAddr || m.to == BROADCAST_ADDR then Ok(Complete(m)) else Ok(NotForMe(m))))
        && (!Remembers(s, m) && m.frag.Some? ==>
             var (g, o) := R.Ingest(c.dims, s.groups, m);
             && s'.groups == g
             && (o == R.Buffered <==> r == Ok(Buffered))
             && (forall reason :: o == R.Dropped(reason) <==> r == Ok(Dropped(reason)))
             && (forall whole :: o == R.Complete(whole) ==>
                  r == (if whole.to == c.selfAddr || whole.to == BROADCAST_ADDR then Ok(Complete(whole))
                        else Ok(NotForMe(whole)))))
  {
    hide R.Ingest, Wire.DecodeMessage, DedupKey, Learn;
    if Wire.DecodeMessage(bytes).Ok? {
      var m := Wire.DecodeMessage(bytes).value.(origin := source);
      if m.frag.None? {
        R.Unfragmented(c.dims, s.groups, m);
      } else {
        NeverPassedThrough(c.dims, s.groups, m);
      }
    }
  }

  lemma NeverPassedThrough(d: R.Dims, g: R.Groups, m: Message)
    requires m.frag.Some?
    ensures !R.Ingest(d, g, m).1.Passthrough?
  {
    hide R.Concat, R.GoodHeader, R.Joining;
  }

  /**
   Every frame teaches the relay where its sender is, repeats and slices included: the arrival
   transport is added to those known for the sender, and nothing else changes. Nothing is
   learned from the broadcast address, from the own one, or from a stranger when the table is
   full.
   */
  lemma HearingTeaches(c: Config, s: State, source: Transport, bytes: seq<u8>)
    requires Wire.DecodeMessage(bytes).Ok?
    ensures var from, peers := Wire.DecodeMessage(bytes).value.from, Ingest(c, s, source, bytes).0.peers;
      if from == BROADCAST_ADDR || from == c.selfAddr || (from !in s.peers && |s.peers| >= c.peersMax) then
        peers == s.peers
      else
        && from in peers
        && (forall t :: t in peers[from] <==> t == source || (from in s.peers && t in s.peers[from]))
        && (forall a :: a != from ==> (a in peers <==> a in s.peers) && (a in s.peers ==> peers[a] == s.peers[a]))
  {
    hide R.Ingest, Wire.DecodeMessage, DedupKey, Recent;
  }

  /** What is handed out is a whole message that fits one frame. */
  lemma HandedOutWhole(c: Config, s: State, source: Transport, bytes: seq<u8>, m: Message)
    requires Ingest(c, s, source, bytes).1 == Ok(Complete(m)) || Ingest(c, s, source, bytes).1 == Ok(NotForMe(m))
    ensures m.frag.None? && m.WellSized()
  {
    hide R.Ingest, Wire.DecodeMessage, DedupKey, Recent, Learn;
    var f := Wire.DecodeMessage(bytes).value.(origin := source);
    if f.frag.None? {
      R.Unfragmented(c.dims, s.groups, f);
    } else {
      NeverPassedThrough(c.dims, s.groups, f);
      R.DeliveredIsWhole(c.dims, s.groups, f);
    }
  }
}
