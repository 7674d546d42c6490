/**
 Slicing a message into frames that fit a transport (`Fragmenter` of
 `crates/relaystar-relay/src/fragment.rs`).
 */
module Fragmenter {
  import opened Wrappers
  import opened Proto

  const MAX_FRAGMENTS: nat := 32

  function Min(a: nat, b: nat): nat {
    if a < b then a else b
  }

  function DivCeil(a: nat, b: nat): nat
    requires b > 0
  {
    (a + b - 1) / b
  }

  /** Slice `s` of `total`. */
  function Slice(msg: Message, mtu: nat, group: u32, total: u16, s: u16): Message
    requires s * mtu <= |msg.payload|
  {
    msg.(payload := msg.payload[s * mtu..Min(s * mtu + mtu, |msg.payload|)],
         frag := Some(Fragment(group, s, total)))
  }

  function Slices(msg: Message, mtu: nat, group: u32): seq<Message>
    requires mtu > 0 && DivCeil(|msg.payload|, mtu) <= MAX_FRAGMENTS
  {
    var total := DivCeil(|msg.payload|, mtu);
    seq(total, (s: nat) requires s < total =>
      (SliceStarts(|msg.payload|, mtu, s); Slice(msg, mtu, group, total, s)))
  }

  /** The frames for `msg` when a frame carries at most `mtu` payload bytes. */
  function SplitAt(msg: Message, mtu: nat, group: u32): Result<seq<Message>, RelayError> {
    if mtu == 0 then Err(PayloadUnfragmentable)
    else if msg.frag.Some? || |msg.payload| <= mtu then Ok([msg])
    else if DivCeil(|msg.payload|, mtu) > MAX_FRAGMENTS then Err(PayloadUnfragmentable)
    else Ok(Slices(msg, mtu, group))
  }

  function Mtu(target: Transport): nat {
    Min(target.MaxPayload(), MAX_PAYLOAD)
  }

  /** Frames for one transport; the loop builds them slice by slice. */
  method Split(msg: Message, target: Transport, group: u32) returns (r: Result<seq<Message>, RelayError>)
    ensures r == SplitAt(msg, Mtu(target), group)
  {
    r := SplitWithMtu(msg, Mtu(target), group);
  }

  method SplitWithMtu(msg: Message, mtu: nat, group: u32) returns (r: Result<seq<Message>, RelayError>)
    ensures r == SplitAt(msg, mtu, group)
  {
    if mtu == 0 {
      return Err(PayloadUnfragmentable);
    }
    if |msg.payload| <= mtu && msg.frag.None? {
      return Ok([msg]);
    }
    if msg.frag.Some? {
      return Ok([msg]);
    }
    var total := DivCeil(|msg.payload|, mtu);
    if total > MAX_FRAGMENTS || total > 0xFFFF {
      return Err(PayloadUnfragmentable);
    }
    var out: seq<Message> := [];
    ghost var all := Slices(msg, mtu, group);
    for s := 0 to total
      invariant out == all[..s]
    {
      SliceStarts(|msg.payload|, mtu, s);
      var start := s * mtu;
      var end := Min(start + mtu, |msg.payload|);
      var payload := msg.payload[start..end];
      var frame := Message(msg.id, msg.ttl, msg.origin, msg.from, msg.to, msg.kind,
                           payload, Some(Fragment(group, s, total)));
      assert frame == all[s];
      assert all[..s + 1] == all[..s] + [all[s]];
      out := out + [frame];
    }
    assert all[..total] == all;
    return Ok(out);
  }

  /** A message before fragmentation; refused when it exceeds what one message can hold. */
  function Prepare(id: u32, ttl: u8, origin: Transport, from: Addr, to: Addr, kind: MsgKind, payload: seq<u8>)
    : Result<Message, RelayError>
  {
    if |payload| > MAX_PAYLOAD then Err(Protocol(PayloadTooLarge))
    else Ok(Message(id, ttl, origin, from, to, kind, payload, None))
  }

  // ---- What a split means ----

  /** The first `n` frames' payloads, end to end. */
  function Joined(frames: seq<Message>, n: nat): seq<u8>
    requires n <= |frames|
  {
    if n == 0 then [] else Joined(frames, n - 1) + frames[n - 1].payload
  }

  /**
   `frames` are all the slices of `whole`, in order: each carries the header of `whole`
   and its own number, and the payloads spell the payload of `whole`.
   */
  ghost predicate IsSplit(frames: seq<Message>, whole: Message, group: u32) {
    && 2 <= |frames| < 0x1_0000
    && whole.frag.None?
    && (forall s :: 0 <= s < |frames| ==>
         frames[s] == whole.(payload := frames[s].payload, frag := Some(Fragment(group, s, |frames|))))
    && Joined(frames, |frames|) == whole.payload
  }

  lemma SliceStarts(len: nat, mtu: nat, s: nat)
    requires mtu > 0 && s < DivCeil(len, mtu)
    ensures s * mtu < len
  {
    var q := DivCeil(len, mtu);
    assert q * mtu <= len + mtu - 1;
    assert (q - 1) * mtu == q * mtu - mtu;
    Product(s, q - 1, mtu);
  }

  lemma Product(a: nat, b: nat, k: nat)
    requires a <= b
    ensures a * k <= b * k
  {
  }

  lemma SliceCount(len: nat, mtu: nat)
    requires 0 < mtu < len
    ensures 2 <= DivCeil(len, mtu)
    ensures (DivCeil(len, mtu) - 1) * mtu < len <= DivCeil(len, mtu) * mtu
    ensures DivCeil(len, mtu) > MAX_FRAGMENTS <==> len > MAX_FRAGMENTS * mtu
  {
    var q := DivCeil(len, mtu);
    assert len + mtu - 1 == q * mtu + (len + mtu - 1) % mtu;
    AtLeastTwo(len + mtu - 1, mtu);
    SliceStarts(len, mtu, q - 1);
    if q <= MAX_FRAGMENTS {
      Product(q, MAX_FRAGMENTS, mtu);
    } else {
      Product(MAX_FRAGMENTS, q - 1, mtu);
    }
  }

  lemma AtLeastTwo(a: nat, d: nat)
    requires d > 0 && a >= 2 * d
    ensures a / d >= 2
  {
  }

  lemma {:induction false} SlicesJoin(msg: Message, mtu: nat, group: u32, n: nat)
    requires mtu > 0 && DivCeil(|msg.payload|, mtu) <= MAX_FRAGMENTS
    requires n <= DivCeil(|msg.payload|, mtu)
    ensures Joined(Slices(msg, mtu, group), n) == msg.payload[..Min(n * mtu, |msg.payload|)]
  {
    if n > 0 {
      SlicesJoin(msg, mtu, group, n - 1);
      SliceStarts(|msg.payload|, mtu, n - 1);
      var start := (n - 1) * mtu;
      assert n * mtu == start + mtu;
      assert Slices(msg, mtu, group)[n - 1].payload == msg.payload[start..Min(start + mtu, |msg.payload|)];
    }
  }

  lemma SlicesAreSplit(msg: Message, mtu: nat, group: u32)
    requires msg.frag.None? && 0 < mtu < |msg.payload| && DivCeil(|msg.payload|, mtu) <= MAX_FRAGMENTS
    ensures IsSplit(Slices(msg, mtu, group), msg, group)
    ensures forall f <- Slices(msg, mtu, group) :: 0 < |f.payload| <= mtu
  {
    var total := DivCeil(|msg.payload|, mtu);
    SliceCount(|msg.payload|, mtu);
    SlicesJoin(msg, mtu, group, total);
    assert msg.payload[..|msg.payload|] == msg.payload;
    forall s | 0 <= s < total
      ensures var f := Slices(msg, mtu, group)[s];
        0 < |f.payload| <= mtu && f == msg.(payload := f.payload, frag := Some(Fragment(group, s, total)))
    {
      SliceAt(msg, mtu, group, s);
    }
  }

  lemma SliceAt(msg: Message, mtu: nat, group: u32, s: nat)
    requires mtu > 0 && s < DivCeil(|msg.payload|, mtu) <= MAX_FRAGMENTS
    ensures var f := Slices(msg, mtu, group)[s];
      && 0 < |f.payload| <= mtu
      && f == msg.(payload := f.payload, frag := Some(Fragment(group, s, DivCeil(|msg.payload|, mtu))))
  {
    SliceStarts(|msg.payload|, mtu, s);
  }

  /**
   What a split promises, for every mtu: it fails exactly when the mtu is zero or more
   than MAX_FRAGMENTS slices would be needed; every frame fits the mtu; a message that
   fits travels as it is; otherwise the frames are its slices, none of them empty, and as
   few of them as the mtu allows.
   */
  lemma SplitCorrect(msg: Message, mtu: nat, group: u32)
    requires msg.frag.None?
    ensures SplitAt(msg, mtu, group) == Err(PayloadUnfragmentable) <==> mtu == 0 || |msg.payload| > 32 * mtu
    ensures SplitAt(msg, mtu, group).Err? ==> SplitAt(msg, mtu, group) == Err(PayloadUnfragmentable)
    ensures SplitAt(msg, mtu, group).Ok? ==>
              var frames := SplitAt(msg, mtu, group).value;
              && 1 <= |frames| <= 32
              && (forall f <- frames :: |f.payload| <= mtu)
              && (|msg.payload| <= mtu ==> frames == [msg])
              && (|msg.payload| > mtu ==>
                   && IsSplit(frames, msg, group)
                   && (forall f <- frames :: f.payload != [])
                   && (|frames| - 1) * mtu < |msg.payload|)
  {
    if 0 < mtu < |msg.payload| {
      SliceCount(|msg.payload|, mtu);
      if DivCeil(|msg.payload|, mtu) <= MAX_FRAGMENTS {
        SlicesAreSplit(msg, mtu, group);
      }
    }
  }

  /** The real transports never make a well-sized message unfragmentable, or need a third slice. */
  lemma RealTransportsSplit(msg: Message, target: Transport, group: u32)
    requires msg.frag.None? && msg.WellSized()
    ensures SplitAt(msg, Mtu(target), group).Ok?
    ensures |SplitAt(msg, Mtu(target), group).value| == if target == Lora && |msg.payload| > 180 then 2 else 1
  {
    SplitCorrect(msg, Mtu(target), group);
  }

  /** Sliced anew with another origin, a message gives the same frames with that origin. */
  lemma SplitMovesOrigin(frames: seq<Message>, whole: Message, group: u32, origin: Transport)
    requires IsSplit(frames, whole, group)
    ensures IsSplit(seq(|frames|, (s: nat) requires s < |frames| => frames[s].(origin := origin)),
                    whole.(origin := origin), group)
  {
    var moved := seq(|frames|, (s: nat) requires s < |frames| => frames[s].(origin := origin));
    JoinedSame(frames, moved, |frames|);
  }

  lemma {:induction false} JoinedSame(a: seq<Message>, b: seq<Message>, n: nat)
    requires n <= |a| && n <= |b|
    requires forall s :: 0 <= s < n ==> a[s].payload == b[s].payload
    ensures Joined(a, n) == Joined(b, n)
  {
    if n > 0 { JoinedSame(a, b, n - 1); }
  }
}
