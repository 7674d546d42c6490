/**
 The bytes of a message on the wire: `Message::encode` and `Message::decode`, by the
 published postcard wire format. Integers wider than a byte are base-128 numbers, an enum
 is its variant number, an address is six plain bytes, a vector is its length and its
 elements, an option is 0, or 1 and its value.
 */
module Wire {
  import opened Wrappers
  import opened Proto
  import Leb128
  import F = Fragmenter

  type Parsed<T> = Result<(T, seq<u8>), ProtoError>

  // ---- Encoding ----

  function Variant(t: Transport): u8 {
    match t
    case Lora => 0
    case Mqtt => 1
    case EspNow => 2
  }

  function KindVariant(k: MsgKind): u8 {
    match k
    case Text => 0
    case Ping => 1
    case Pong => 2
    case Telemetry => 3
  }

  /** The encoding of an optional fragment header, followed by `rest`. */
  function EncodeFrag(frag: Option<Fragment>, rest: seq<u8>): seq<u8> {
    match frag
    case None => [0] + rest
    case Some(f) =>
      [1] + (Leb128.Encode(f.groupId) + (Leb128.Encode(f.seqNo) + (Leb128.Encode(f.total) + rest)))
  }

  /** The encoding of `m`, followed by `rest`. */
  function EncodeThen(m: Message, rest: seq<u8>): seq<u8> {
    Leb128.Encode(m.id) + ([m.ttl] + (Leb128.Encode(Variant(m.origin)) + (m.from + (m.to
    + (Leb128.Encode(KindVariant(m.kind)) + (Leb128.Encode(|m.payload|) + (m.payload
    + EncodeFrag(m.frag, rest))))))))
  }

  function Encode(m: Message): seq<u8> {
    EncodeThen(m, [])
  }

  /** `Message::encode` into a buffer of `size` bytes. */
  function EncodeInto(m: Message, size: nat): Result<seq<u8>, ProtoError> {
    if |Encode(m)| <= size then Ok(Encode(m)) else Err(BufferTooSmall)
  }

  // ---- Decoding ----

  /** An unsigned number of at most `max` bytes that must stay below `limit`. */
  function TakeNumber(bytes: seq<u8>, max: nat, limit: nat): (r: Parsed<nat>)
    ensures r.Err? ==> r.error == Decode
    ensures r.Ok? ==> r.value.0 < limit
  {
    match Leb128.Decode(bytes, max)
    case Err(_) => Err(Decode)
    case Ok((v, used)) => if v < limit then Ok((v, bytes[used..])) else Err(Decode)
  }

  function TakeU32(bytes: seq<u8>): (r: Parsed<u32>)
    ensures r.Err? ==> r.error == Decode
  {
    var (v, rest) :- TakeNumber(bytes, 5, 0x1_0000_0000);
    Ok((v, rest))
  }

  function TakeU16(bytes: seq<u8>): (r: Parsed<u16>)
    ensures r.Err? ==> r.error == Decode
  {
    var (v, rest) :- TakeNumber(bytes, 3, 0x1_0000);
    Ok((v, rest))
  }

  function TakeByte(bytes: seq<u8>): (r: Parsed<u8>)
    ensures r.Err? ==> r.error == Decode
  {
    if bytes == [] then Err(Decode) else Ok((bytes[0], bytes[1..]))
  }

  function TakeBytes(bytes: seq<u8>, n: nat): (r: Parsed<seq<u8>>)
    ensures r.Err? ==> r.error == Decode
    ensures r.Ok? ==> |r.value.0| == n
  {
    if |bytes| < n then Err(Decode) else Ok((bytes[..n], bytes[n..]))
  }

  function TakeAddr(bytes: seq<u8>): (r: Parsed<Addr>)
    ensures r.Err? ==> r.error == Decode
  {
    var (a, rest) :- TakeBytes(bytes, 6);
    Ok((a, rest))
  }

  function TakeTransport(bytes: seq<u8>): (r: Parsed<Transport>)
    ensures r.Err? ==> r.error == Decode
  {
    var (v, rest) :- TakeNumber(bytes, 5, 0x1_0000_0000);
    if v < 3 then Ok((ALL_TRANSPORTS[v], rest)) else Err(Decode)
  }

  function TakeKind(bytes: seq<u8>): (r: Parsed<MsgKind>)
    ensures r.Err? ==> r.error == Decode
  {
    var (v, rest) :- TakeNumber(bytes, 5, 0x1_0000_0000);
    if v < 4 then Ok(([Text, Ping, Pong, Telemetry][v], rest)) else Err(Decode)
  }

  /** A payload; one that exceeds the vector's capacity is refused. */
  function TakePayload(bytes: seq<u8>): (r: Parsed<seq<u8>>)
    ensures r.Err? ==> r.error == Decode
    ensures r.Ok? ==> |r.value.0| <= MAX_PAYLOAD
  {
    var (n, rest) :- TakeNumber(bytes, 5, 0x1_0000_0000);
    if n > MAX_PAYLOAD then Err(Decode) else TakeBytes(rest, n)
  }

  function TakeFrag(bytes: seq<u8>): (r: Parsed<Option<Fragment>>)
    ensures r.Err? ==> r.error == Decode
  {
    var (tag, rest) :- TakeByte(bytes);
    if tag == 0 then Ok((None, rest))
    else if tag == 1 then
      var (group, r1) :- TakeU32(rest);
      var (seqNo, r2) :- TakeU16(r1);
      var (total, r3) :- TakeU16(r2);
      Ok((Some(Fragment(group, seqNo, total)), r3))
    else Err(Decode)
  }

  /** `Message::decode`; bytes behind the message are ignored. */
  function DecodeMessage(bytes: seq<u8>): (r: Result<Message, ProtoError>)
    ensures r.Err? ==> r.error == Decode
    ensures r.Ok? ==> r.value.WellSized()
  {
    var (id, r1) :- TakeU32(bytes);
    var (ttl, r2) :- TakeByte(r1);
    var (origin, r3) :- TakeTransport(r2);
    var (from, r4) :- TakeAddr(r3);
    var (to, r5) :- TakeAddr(r4);
    var (kind, r6) :- TakeKind(r5);
    var (payload, r7) :- TakePayload(r6);
    var (frag, _) :- TakeFrag(r7);
    Ok(Message(id, ttl, origin, from, to, kind, payload, frag))
  }

  // ---- Round trip ----

  lemma {:induction false} NumberRoundTrip(n: nat, rest: seq<u8>, max: nat, limit: nat)
    requires max > 0 && n < limit && n < Leb128.Pow128(max)
    ensures TakeNumber(Leb128.Encode(n) + rest, max, limit) == Ok((n, rest))
  {
    Leb128.EncodedLength(n, max);
    Leb128.RoundTrip(n, rest, max);
    assert (Leb128.Encode(n) + rest)[|Leb128.Encode(n)|..] == rest;
  }

  lemma Widths()
    ensures Leb128.Pow128(1) == 0x80
    ensures Leb128.Pow128(2) == 0x4000
    ensures Leb128.Pow128(3) == 0x20_0000
    ensures Leb128.Pow128(4) == 0x1000_0000
    ensures Leb128.Pow128(5) == 0x8_0000_0000
  {
    assert Leb128.Pow128(1) == 0x80;
    assert Leb128.Pow128(2) == 0x4000;
    assert Leb128.Pow128(3) == 0x20_0000;
    assert Leb128.Pow128(4) == 0x1000_0000;
  }

  lemma FragRoundTrip(frag: Option<Fragment>, rest: seq<u8>)
    ensures TakeFrag(EncodeFrag(frag, rest)) == Ok((frag, rest))
  {
    Widths();
    match frag
    case None =>
      assert ([0] + rest)[1..] == rest;
    case Some(f) =>
      var b3 := Leb128.Encode(f.total) + rest;
      var b2 := Leb128.Encode(f.seqNo) + b3;
      var b1 := Leb128.Encode(f.groupId) + b2;
      NumberRoundTrip(f.total, rest, 3, 0x1_0000);
      NumberRoundTrip(f.seqNo, b3, 3, 0x1_0000);
      NumberRoundTrip(f.groupId, b2, 5, 0x1_0000_0000);
      assert ([1] + b1)[1..] == b1;
  }

  lemma BytesRoundTrip(s: seq<u8>, rest: seq<u8>)
    ensures TakeBytes(s + rest, |s|) == Ok((s, rest))
  {
  }

  lemma {:induction false} PayloadRoundTrip(payload: seq<u8>, rest: seq<u8>)
    requires |payload| <= MAX_PAYLOAD
    ensures TakePayload(Leb128.Encode(|payload|) + (payload + rest)) == Ok((payload, rest))
  {
    Widths();
    NumberRoundTrip(|payload|, payload + rest, 5, 0x1_0000_0000);
    BytesRoundTrip(payload, rest);
  }

  /** Decoding gives back every well-sized message that was encoded, whatever follows it. */
  lemma MessageRoundTrip(m: Message, rest: seq<u8>)
    requires m.WellSized()
    ensures DecodeMessage(EncodeThen(m, rest)) == Ok(m)
  {
    hide TakeNumber, TakeFrag, EncodeFrag, TakePayload;
    Widths();
    var b7 := EncodeFrag(m.frag, rest);
    var b6 := Leb128.Encode(|m.payload|) + (m.payload + b7);
    var b5 := Leb128.Encode(KindVariant(m.kind)) + b6;
    var b4, b3 := m.to + b5, m.from + (m.to + b5);
    var b2 := Leb128.Encode(Variant(m.origin)) + b3;
    var b1 := [m.ttl] + b2;
    FragRoundTrip(m.frag, rest);
    PayloadRoundTrip(m.payload, b7);
    NumberRoundTrip(KindVariant(m.kind), b6, 5, 0x1_0000_0000);
    BytesRoundTrip(m.to, b5);
    BytesRoundTrip(m.from, b4);
    NumberRoundTrip(Variant(m.origin), b3, 5, 0x1_0000_0000);
    assert b1[1..] == b2;
    NumberRoundTrip(m.id, b1, 5, 0x1_0000_0000);
  }

  // ---- Size ----

  lemma {:induction false} NumberSize(n: nat, k: nat)
    requires k > 0 && n < Leb128.Pow128(k)
    ensures |Leb128.Encode(n)| <= k
  {
    Leb128.EncodedLength(n, k);
  }

  lemma FragSize(frag: Option<Fragment>)
    ensures |EncodeFrag(frag, [])| <= 12
    ensures frag.Some? && frag.value.seqNo < 128 && frag.value.total < 128 ==> |EncodeFrag(frag, [])| <= 8
    ensures frag.None? ==> |EncodeFrag(frag, [])| == 1
  {
    Widths();
    if frag.Some? {
      NumberSize(frag.value.groupId, 5);
      NumberSize(frag.value.seqNo, 3);
      NumberSize(frag.value.total, 3);
    }
  }

  lemma HeaderSize(m: Message)
    requires m.WellSized()
    ensures |Encode(m)| <= 22 + |m.payload| + |EncodeFrag(m.frag, [])|
  {
    Widths();
    NumberSize(m.id, 5);
    NumberSize(Variant(m.origin), 1);
    NumberSize(KindVariant(m.kind), 1);
    NumberSize(|m.payload|, 2);
  }

  /** Every well-sized message takes at most 234 bytes, so a MAX_FRAME buffer always suffices. */
  lemma FitsFrame(m: Message)
    requires m.WellSized()
    ensures |Encode(m)| <= 234
    ensures MAX_FRAME == 255 && EncodeInto(m, MAX_FRAME) == Ok(Encode(m))
  {
    HeaderSize(m);
    FragSize(m.frag);
  }

  /** Encoding into a buffer fails exactly when the message does not fit it. */
  lemma EncodeIntoIff(m: Message, size: nat)
    ensures EncodeInto(m, size) == (if |Encode(m)| > size then Err(BufferTooSmall) else Ok(Encode(m)))
  {
  }

  /** A LoRa frame cut from an unfragmented message takes at most 210 bytes. */
  lemma LoraFrameSize(m: Message, group: u32, frame: Message)
    requires m.frag.None? && m.WellSized()
    requires F.SplitAt(m, F.Mtu(Lora), group).Ok? && frame in F.SplitAt(m, F.Mtu(Lora), group).value
    ensures |Encode(frame)| <= 210
  {
    F.SplitCorrect(m, F.Mtu(Lora), group);
    HeaderSize(frame);
    FragSize(frame.frag);
  }

  // ---- Exactly which bytes are a message ----

  /** The bytes chosen for each number of a message; a number can be written in more than one way. */
  datatype Spelling = Spelling(
    id: seq<u8>, origin: seq<u8>, kind: seq<u8>, length: seq<u8>, group: seq<u8>, seqNo: seq<u8>, total: seq<u8>)

  /** `v` is one way to write `n` in at most `max` bytes. */
  predicate Spells(v: seq<u8>, n: nat, max: nat) {
    Leb128.Decode(v, max) == Ok((n, |v|))
  }

  predicate SpellsMessage(x: Spelling, m: Message) {
    && Spells(x.id, m.id, 5)
    && Spells(x.origin, (match m.origin case Lora => 0 case Mqtt => 1 case EspNow => 2), 5)
    && Spells(x.kind, (match m.kind case Text => 0 case Ping => 1 case Pong => 2 case Telemetry => 3), 5)
    && Spells(x.length, |m.payload|, 5) && |m.payload| <= 200
    && (m.frag.Some? ==>
         && Spells(x.group, m.frag.value.groupId, 5)
         && Spells(x.seqNo, m.frag.value.seqNo, 3)
         && Spells(x.total, m.frag.value.total, 3))
  }

  function FragBytes(x: Spelling, frag: Option<Fragment>): seq<u8> {
    if frag.None? then [0] else [1] + x.group + x.seqNo + x.total
  }

  /** The fields in order, spelled so. */
  function Layout(x: Spelling, m: Message): seq<u8> {
    x.id + [m.ttl] + x.origin + m.from + m.to + x.kind + x.length + m.payload + FragBytes(x, m.frag)
  }

  lemma NumberGiven(v: seq<u8>, n: nat, rest: seq<u8>, max: nat, limit: nat)
    requires Spells(v, n, max) && n < limit
    ensures TakeNumber(v + rest, max, limit) == Ok((n, rest))
  {
    Leb128.DecodeExtends(v, rest, max);
    assert (v + rest)[|v|..] == rest;
  }

  lemma NumberTaken(bytes: seq<u8>, max: nat, limit: nat) returns (v: seq<u8>)
    requires TakeNumber(bytes, max, limit).Ok?
    ensures var (n, rest) := TakeNumber(bytes, max, limit).value; Spells(v, n, max) && bytes == v + rest
  {
    Leb128.DecodeAlone(bytes, max);
    v := bytes[..Leb128.Decode(bytes, max).value.1];
  }

  lemma FragGiven(x: Spelling, frag: Option<Fragment>, rest: seq<u8>)
    requires frag.Some? ==> Spells(x.group, frag.value.groupId, 5) && Spells(x.seqNo, frag.value.seqNo, 3)
                            && Spells(x.total, frag.value.total, 3)
    ensures TakeFrag(FragBytes(x, frag) + rest) == Ok((frag, rest))
  {
    hide TakeNumber, Spells;
    if frag.Some? {
      var b3 := x.total + rest;
      var b2 := x.seqNo + b3;
      var b1 := x.group + b2;
      NumberGiven(x.total, frag.value.total, rest, 3, 0x1_0000);
      NumberGiven(x.seqNo, frag.value.seqNo, b3, 3, 0x1_0000);
      NumberGiven(x.group, frag.value.groupId, b2, 5, 0x1_0000_0000);
      assert FragBytes(x, frag) + rest == [1] + b1;
      assert ([1] + b1)[1..] == b1;
    } else {
      assert ([0] + rest)[1..] == rest;
    }
  }

  lemma PayloadGiven(v: seq<u8>, payload: seq<u8>, rest: seq<u8>)
    requires Spells(v, |payload|, 5) && |payload| <= 200
    ensures TakePayload(v + (payload + rest)) == Ok((payload, rest))
  {
    hide Spells, TakeNumber;
    NumberGiven(v, |payload|, payload + rest, 5, 0x1_0000_0000);
    BytesRoundTrip(payload, rest);
  }

  /** Every layout of a message is read as that message, whatever follows. */
  lemma LayoutAccepted(x: Spelling, m: Message, rest: seq<u8>)
    requires SpellsMessage(x, m)
    ensures DecodeMessage(Layout(x, m) + rest) == Ok(m)
  {
    hide TakeNumber, TakeFrag, TakePayload, Spells, FragBytes;
    var b7 := FragBytes(x, m.frag) + rest;
    var b6 := x.length + (m.payload + b7);
    var b5 := x.kind + b6;
    var b4, b3 := m.to + b5, m.from + (m.to + b5);
    var b2 := x.origin + b3;
    var b1 := [m.ttl] + b2;
    assert Layout(x, m) + rest == x.id + b1;
    FragGiven(x, m.frag, rest);
    PayloadGiven(x.length, m.payload, b7);
    NumberGiven(x.kind, KindVariant(m.kind), b6, 5, 0x1_0000_0000);
    BytesRoundTrip(m.to, b5);
    BytesRoundTrip(m.from, b4);
    NumberGiven(x.origin, Variant(m.origin), b3, 5, 0x1_0000_0000);
    assert b1[1..] == b2;
    NumberGiven(x.id, m.id, b1, 5, 0x1_0000_0000);
  }

  lemma FragTaken(bytes: seq<u8>) returns (group: seq<u8>, seqNo: seq<u8>, total: seq<u8>)
    requires TakeFrag(bytes).Ok?
    ensures var (frag, rest) := TakeFrag(bytes).value;
      && bytes == (if frag.None? then [0] else [1] + group + seqNo + total) + rest
      && (frag.Some? ==> Spells(group, frag.value.groupId, 5) && Spells(seqNo, frag.value.seqNo, 3)
                         && Spells(total, frag.value.total, 3))
  {
    hide TakeNumber, Spells;
    group, seqNo, total := [], [], [];
    assert bytes == [bytes[0]] + bytes[1..];
    if bytes[0] == 1 {
      group := NumberTaken(bytes[1..], 5, 0x1_0000_0000);
      var r1 := TakeU32(bytes[1..]).value.1;
      seqNo := NumberTaken(r1, 3, 0x1_0000);
      total := NumberTaken(TakeU16(r1).value.1, 3, 0x1_0000);
    }
  }

  lemma PayloadTaken(bytes: seq<u8>) returns (v: seq<u8>)
    requires TakePayload(bytes).Ok?
    ensures var (payload, rest) := TakePayload(bytes).value;
      Spells(v, |payload|, 5) && |payload| <= 200 && bytes == v + payload + rest
  {
    hide TakeNumber, Spells;
    v := NumberTaken(bytes, 5, 0x1_0000_0000);
    var (n, rest) := TakeNumber(bytes, 5, 0x1_0000_0000).value;
    assert rest == rest[..n] + rest[n..];
  }

  lemma OriginTaken(bytes: seq<u8>) returns (v: seq<u8>)
    requires TakeTransport(bytes).Ok?
    ensures var (t, rest) := TakeTransport(bytes).value;
      Spells(v, (match t case Lora => 0 case Mqtt => 1 case EspNow => 2), 5) && bytes == v + rest
  {
    hide TakeNumber, Spells;
    v := NumberTaken(bytes, 5, 0x1_0000_0000);
  }

  lemma KindTaken(bytes: seq<u8>) returns (v: seq<u8>)
    requires TakeKind(bytes).Ok?
    ensures var (k, rest) := TakeKind(bytes).value;
      Spells(v, (match k case Text => 0 case Ping => 1 case Pong => 2 case Telemetry => 3), 5) && bytes == v + rest
  {
    hide TakeNumber, Spells;
    v := NumberTaken(bytes, 5, 0x1_0000_0000);
  }

  lemma BytesTaken(bytes: seq<u8>, n: nat)
    requires TakeBytes(bytes, n).Ok?
    ensures bytes == TakeBytes(bytes, n).value.0 + TakeBytes(bytes, n).value.1
  {
  }

  /** Whatever is read as a message is a layout of it, and perhaps more behind it. */
  lemma AcceptedIsLayout(bytes: seq<u8>) returns (x: Spelling, rest: seq<u8>)
    requires DecodeMessage(bytes).Ok?
    ensures SpellsMessage(x, DecodeMessage(bytes).value) && bytes == Layout(x, DecodeMessage(bytes).value) + rest
  {
    hide TakeNumber, TakeFrag, TakePayload, TakeTransport, TakeKind, TakeBytes, Spells;
    var m := DecodeMessage(bytes).value;
    var id := NumberTaken(bytes, 5, 0x1_0000_0000);
    var r1 := TakeU32(bytes).value.1;
    var r2 := r1[1..];
    var origin := OriginTaken(r2);
    var r3 := TakeTransport(r2).value.1;
    BytesTaken(r3, 6);
    var r4 := TakeAddr(r3).value.1;
    BytesTaken(r4, 6);
    var r5 := TakeAddr(r4).value.1;
    var kind := KindTaken(r5);
    var r6 := TakeKind(r5).value.1;
    var length := PayloadTaken(r6);
    var r7 := TakePayload(r6).value.1;
    var group, seqNo, total := FragTaken(r7);
    rest := TakeFrag(r7).value.1;
    x := Spelling(id, origin, kind, length, group, seqNo, total);
    Put(bytes, x, m, r1, r2, r3, r4, r5, r6, r7, rest);
  }

  /** The pieces, put together again. */
  lemma Put(bytes: seq<u8>, x: Spelling, m: Message, r1: seq<u8>, r2: seq<u8>, r3: seq<u8>, r4: seq<u8>, r5: seq<u8>,
            r6: seq<u8>, r7: seq<u8>, rest: seq<u8>)
    requires bytes == x.id + r1 && r1 == [m.ttl] + r2 && r2 == x.origin + r3 && r3 == m.from + r4 && r4 == m.to + r5
    requires r5 == x.kind + r6 && r6 == x.length + m.payload + r7 && r7 == FragBytes(x, m.frag) + rest
    ensures bytes == Layout(x, m) + rest
  {
    hide FragBytes;
    assert r6 == x.length + (m.payload + r7);
  }

  /**
   Bytes are read as a message exactly when they begin with a layout of it: the fields in
   order, the numbers in any spelling of bounded length, the known variants only, at most 200
   bytes of payload. Everything else is refused as undecodable.
   */
  lemma DecodesIff(bytes: seq<u8>, m: Message)
    ensures DecodeMessage(bytes) == Ok(m) <==> exists x, rest :: SpellsMessage(x, m) && bytes == Layout(x, m) + rest
    ensures DecodeMessage(bytes).Err? ==> DecodeMessage(bytes) == Err(Decode)
  {
    hide SpellsMessage, Layout, TakeNumber;
    if DecodeMessage(bytes) == Ok(m) {
      var x, rest := AcceptedIsLayout(bytes);
    }
    if x, rest :| SpellsMessage(x, m) && bytes == Layout(x, m) + rest {
      LayoutAccepted(x, m, rest);
    }
  }

  /** A message is encoded as one of its layouts, with every number as short as can be. */
  lemma EncodingIsLayout(m: Message)
    requires m.WellSized()
    ensures var x := Spelling(Leb128.Encode(m.id), Leb128.Encode(Variant(m.origin)), Leb128.Encode(KindVariant(m.kind)),
                              Leb128.Encode(|m.payload|),
                              Leb128.Encode(if m.frag.Some? then m.frag.value.groupId else 0),
                              Leb128.Encode(if m.frag.Some? then m.frag.value.seqNo else 0),
                              Leb128.Encode(if m.frag.Some? then m.frag.value.total else 0));
      SpellsMessage(x, m) && Encode(m) == Layout(x, m)
  {
    hide Leb128.Encode, Leb128.Decode, Spells;
    Widths();
    ShortSpelling(m.id, 5);
    ShortSpelling(Variant(m.origin), 5);
    ShortSpelling(KindVariant(m.kind), 5);
    ShortSpelling(|m.payload|, 5);
    if m.frag.Some? {
      ShortSpelling(m.frag.value.groupId, 5);
      ShortSpelling(m.frag.value.seqNo, 3);
      ShortSpelling(m.frag.value.total, 3);
    }
    FragEncoded(m.frag);
    Nested(Leb128.Encode(m.id), [m.ttl], Leb128.Encode(Variant(m.origin)), m.from, m.to,
           Leb128.Encode(KindVariant(m.kind)), Leb128.Encode(|m.payload|), m.payload, EncodeFrag(m.frag, []));
  }

  lemma FragEncoded(frag: Option<Fragment>)
    ensures EncodeFrag(frag, []) ==
              if frag.None? then [0]
              else [1] + Leb128.Encode(frag.value.groupId) + Leb128.Encode(frag.value.seqNo)
                   + Leb128.Encode(frag.value.total)
  {
    hide Leb128.Encode;
  }

  /** Joining nine pieces from the right or from the left. */
  lemma Nested<T>(a: seq<T>, b: seq<T>, c: seq<T>, d: seq<T>, e: seq<T>, f: seq<T>, g: seq<T>, h: seq<T>, i: seq<T>)
    ensures a + (b + (c + (d + (e + (f + (g + (h + i))))))) == a + b + c + d + e + f + g + h + i
  {
    Triple(a + b + c + d + e + f + g, h, i);
    Triple(a + b + c + d + e + f, g, h + i);
    Triple(a + b + c + d + e, f, g + (h + i));
    Triple(a + b + c + d, e, f + (g + (h + i)));
    Triple(a + b + c, d, e + (f + (g + (h + i))));
    Triple(a + b, c, d + (e + (f + (g + (h + i)))));
    Triple(a, b, c + (d + (e + (f + (g + (h + i))))));
  }

  lemma Triple<T>(a: seq<T>, b: seq<T>, c: seq<T>)
    ensures a + (b + c) == a + b + c
  {
  }

  lemma {:induction false} ShortSpelling(n: nat, max: nat)
    requires max > 0 && n < Leb128.Pow128(max)
    ensures Spells(Leb128.Encode(n), n, max)
  {
    Leb128.EncodedLength(n, max);
    Leb128.RoundTrip(n, [], max);
    assert Leb128.Encode(n) + [] == Leb128.Encode(n);
  }
}
