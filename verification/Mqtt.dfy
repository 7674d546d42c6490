/**
 The bundled MQTT 3.1.1 QoS-0 client (`Mqtt311Client` of
 `crates/relaystar-relay/src/ports/mqtt.rs`): the remaining length of section 2.2.3 and
 the PUBLISH packet of section 3.3 of MQTT Version 3.1.1, over a byte stream.
 */
module Mqtt {
  import opened Wrappers
  import opened Proto
  import opened Utf8
  import Leb128
  import Wire

  const OUT_BUF: nat := 320

  datatype Error = Io | Malformed | TooLarge

  // ---- Packets ----

  function Be16(n: nat): seq<u8> {
    [n / 0x100 % 0x100, n % 0x100]
  }

  /** A packet: type byte, remaining length, contents; refused when it exceeds the send buffer. */
  function PacketOf(first: u8, variable: seq<u8>): Result<seq<u8>, Error> {
    var bytes := [first] + (Leb128.Encode(|variable|) + variable);
    if |bytes| > OUT_BUF then Err(TooLarge) else Ok(bytes)
  }

  /** A PUBLISH; the topic length is cut to 16 bits before anything is checked. */
  function PublishPacket(topic: Str, payload: seq<u8>): Result<seq<u8>, Error> {
    var body := Be16(|topic| % 0x1_0000) + (topic + payload);
    if |body| > OUT_BUF then Err(TooLarge) else PacketOf(0x30, body)
  }

  /** Reads one packet into a buffer of `size` bytes; also what is left of the stream. */
  function ReadFrom(rx: seq<u8>, size: nat): (seq<u8>, Result<(u8, seq<u8>), Error>) {
    if rx == [] then ([], Err(Io))
    else match Leb128.Decode(rx[1..], 4)
      case Err(Truncated) => ([], Err(Io))
      case Err(TooLong) => (rx[5..], Err(Malformed))
      case Ok((n, used)) =>
        var rest := rx[1 + used..];
        if n > size then (rest, Err(TooLarge))
        else if |rest| < n then ([], Err(Io))
        else (rest[n..], Ok((rx[0], rest[..n])))
  }

  datatype Publication = Publication(topic: Str, payload: seq<u8>)

  /** The PUBLISH in a packet; nothing for a packet of another type. */
  function ParsePublish(first: u8, body: seq<u8>): Result<Option<Publication>, Error> {
    if first / 16 != 3 then Ok(None)
    else if |body| < 2 then Err(Malformed)
    else
      var n: nat := body[0] as int * 0x100 + body[1];
      if |body| < 2 + n || !ValidUtf8(body[2..2 + n]) then Err(Malformed)
      else Ok(Some(Publication(body[2..2 + n], body[2 + n..])))
  }

  function ReadPublishFrom(rx: seq<u8>, size: nat): (seq<u8>, Result<Option<Publication>, Error>) {
    var (rest, packet) := ReadFrom(rx, size);
    (rest,
     match packet
     case Err(e) => Err(e)
     case Ok((first, body)) => ParsePublish(first, body))
  }

  function ReadMany(rx: seq<u8>, size: nat, n: nat): (seq<u8>, seq<Result<Option<Publication>, Error>>)
    decreases n
  {
    if n == 0 then (rx, [])
    else
      var (rest, r) := ReadPublishFrom(rx, size);
      var (rest', rs) := ReadMany(rest, size, n - 1);
      (rest', [r] + rs)
  }

  // ---- Round trips ----

  predicate Fits(p: Publication) {
    2 + |p.topic| + |p.payload| <= 317
  }

  lemma {:induction false} LengthBytes(n: nat)
    requires n < 0x4000
    ensures |Leb128.Encode(n)| == if n < 128 then 1 else 2
  {
    assert Leb128.Pow128(1) == 0x80;
    Leb128.EncodedLength(n, 2);
    Leb128.EncodedLength(n, 1);
  }

  /**
   The remaining length takes one to four bytes exactly for the lengths up to 268435455, and
   those are read back, with just those bytes consumed, whatever follows.
   */
  lemma {:induction false} RemainingLength(n: nat, rest: seq<u8>)
    ensures 1 <= |Leb128.Encode(n)| <= 4 <==> n <= 268_435_455
    ensures n <= 268_435_455 ==> Leb128.Decode(Leb128.Encode(n) + rest, 4) == Ok((n, |Leb128.Encode(n)|))
  {
    Wire.Widths();
    Leb128.EncodedLength(n, 4);
    if n <= 268_435_455 {
      Leb128.RoundTrip(n, rest, 4);
    }
  }

  /** `publish` refuses a message exactly when topic and payload exceed 315 bytes together. */
  lemma PublishRefusedIff(p: Publication)
    ensures PublishPacket(p.topic, p.payload).Ok? <==> Fits(p)
    ensures PublishPacket(p.topic, p.payload).Err? ==> PublishPacket(p.topic, p.payload).error == TooLarge
  {
    var n := 2 + |p.topic| + |p.payload|;
    if n <= OUT_BUF {
      LengthBytes(n);
    }
  }

  /** One published packet, read from the front of any stream, gives the publication and the rest. */
  lemma PublishRoundTrip(p: Publication, rest: seq<u8>, size: nat)
    requires Fits(p) && 2 + |p.topic| + |p.payload| <= size
    ensures PublishPacket(p.topic, p.payload).Ok?
    ensures ReadPublishFrom(PublishPacket(p.topic, p.payload).value + rest, size) == (rest, Ok(Some(p)))
  {
    hide ValidUtf8, ReadFrom, PacketOf, Be16;
    PublishRefusedIff(p);
    var body := Be16(|p.topic|) + (p.topic + p.payload);
    assert body[0..] == body;
    BodyParts(body, 0, p.topic, p.payload);
    PacketRoundTrip(0x30, body, rest, size);
  }

  lemma PacketRoundTrip(first: u8, body: seq<u8>, rest: seq<u8>, size: nat)
    requires PacketOf(first, body).Ok? && |body| <= size
    ensures ReadFrom(PacketOf(first, body).value + rest, size) == (rest, Ok((first, body)))
  {
    var len := Leb128.Encode(|body|);
    var rx := PacketOf(first, body).value + rest;
    LengthBytes(|body|);
    Leb128.RoundTrip(|body|, body + rest, 4);
    assert rx[1..] == len + (body + rest);
    assert rx[1 + |len|..] == body + rest;
  }

  function StreamOf(ps: seq<Publication>): seq<u8>
    requires forall p <- ps :: Fits(p)
  {
    if ps == [] then []
    else
      PublishRefusedIff(ps[0]);
      PublishPacket(ps[0].topic, ps[0].payload).value + StreamOf(ps[1..])
  }

  function Received(ps: seq<Publication>): seq<Result<Option<Publication>, Error>> {
    seq(|ps|, (i: nat) requires i < |ps| => Ok(Some(ps[i])))
  }

  /**
   Stream round trip: any sequence of publications that are not refused, sent one after the
   other, is read back in order, each packet exactly, whatever follows on the stream.
   */
  lemma {:induction false} StreamRoundTrip(ps: seq<Publication>, rest: seq<u8>, size: nat)
    requires forall p <- ps :: Fits(p)
    requires size >= 317
    ensures ReadMany(StreamOf(ps) + rest, size, |ps|) == (rest, Received(ps))
    decreases |ps|
  {
    hide ReadPublishFrom, PublishPacket;
    if ps == [] {
      assert StreamOf(ps) + rest == rest;
    } else {
      var tail := StreamOf(ps[1..]) + rest;
      PublishRoundTrip(ps[0], tail, size);
      assert StreamOf(ps) + rest == PublishPacket(ps[0].topic, ps[0].payload).value + tail;
      StreamRoundTrip(ps[1..], rest, size);
      assert Received(ps) == [Ok(Some(ps[0]))] + Received(ps[1..]);
    }
  }

  // ---- Any stream ----

  /** A packet on the wire: type and flags, remaining length, contents. */
  function Framed(first: u8, body: seq<u8>): seq<u8> {
    [first] + Leb128.Encode(|body|) + body
  }

  /** A packet that fits the buffer is taken off the stream; the contents of one that does not are left there. */
  lemma PacketRead(first: u8, body: seq<u8>, rest: seq<u8>, size: nat)
    requires |body| <= 268_435_455
    ensures ReadFrom(Framed(first, body) + rest, size)
            == if |body| <= size then (rest, Ok((first, body))) else (body + rest, Err(TooLarge))
  {
    hide Leb128.Decode, Leb128.Encode;
    var len, rx := Leb128.Encode(|body|), Framed(first, body) + rest;
    RemainingLength(|body|, body + rest);
    assert rx[1..] == len + (body + rest);
    assert rx[1 + |len|..] == body + rest;
  }

  /**
   Reading any packet that fits the buffer takes just it off the stream. One that is no
   PUBLISH, whatever else it is, is reported as nothing. A PUBLISH, whatever its flags, is
   malformed exactly when it has no room for the length of its topic, when the topic overruns
   the packet, or when the topic is no text; otherwise its topic and payload are returned.
   */
  lemma AnyPacketRead(first: u8, body: seq<u8>, rest: seq<u8>, size: nat)
    requires |body| <= size && |body| <= 268_435_455
    ensures var (left, r) := ReadPublishFrom(Framed(first, body) + rest, size);
      && left == rest
      && (r == Ok(None) <==> !(0x30 <= first <= 0x3F))
      && (0x30 <= first <= 0x3F ==>
           var n: nat := if |body| < 2 then 0 else body[0] as int * 256 + body[1];
           && (r == Err(Malformed) <==> |body| < 2 || |body| < 2 + n || !ValidUtf8(body[2..2 + n]))
           && (r.Err? ==> r == Err(Malformed))
           && (r.Ok? ==> r.value.Some?
                         && r.value.value.topic == body[2..2 + n] && r.value.value.payload == body[2 + n..]))
  {
    hide ReadFrom, Framed, ValidUtf8;
    PacketRead(first, body, rest, size);
  }

  /** What a broker may send: a PUBLISH with any flags, or another packet, such as PINGRESP. */
  datatype Incoming = Pub(flags: u8, p: Publication) | Other(first: u8, body: seq<u8>) {
    predicate Fits(size: nat) {
      && Length() <= size && Length() <= 268_435_455
      && (Pub? ==> flags < 16 && |p.topic| < 0x1_0000)
      && (Other? ==> !(0x30 <= first <= 0x3F))
    }

    function Length(): nat {
      if Pub? then 2 + |p.topic| + |p.payload| else |body|
    }

    function Bytes(): seq<u8>
      requires Pub? ==> flags < 16 && |p.topic| < 0x1_0000
    {
      match this
      case Pub(flags, p) => Framed(0x30 + flags, [|p.topic| / 256, |p.topic| % 256] + p.topic + p.payload)
      case Other(first, body) => Framed(first, body)
    }

    function Reported(): Option<Publication> {
      if Pub? then Some(p) else None
    }
  }

  const PINGRESP := Other(0xD0, [])

  lemma IncomingRead(x: Incoming, rest: seq<u8>, size: nat)
    requires x.Fits(size)
    ensures ReadPublishFrom(x.Bytes() + rest, size) == (rest, Ok(x.Reported()))
  {
    hide ReadPublishFrom, Framed, ValidUtf8;
    match x
    case Other(first, body) => AnyPacketRead(first, body, rest, size);
    case Pub(flags, p) =>
      var body := [|p.topic| / 256, |p.topic| % 256] + p.topic + p.payload;
      AnyPacketRead(0x30 + flags, body, rest, size);
      assert body[2..2 + |p.topic|] == p.topic && body[2 + |p.topic|..] == p.payload;
  }

  /** The answer to a keepalive is consumed and reported as no publication, whatever the buffer. */
  lemma PingResponse(rest: seq<u8>, size: nat)
    ensures ReadPublishFrom([0xD0, 0x00] + rest, size) == (rest, Ok(None))
  {
    assert PINGRESP.Bytes() == [0xD0, 0x00];
    IncomingRead(PINGRESP, rest, size);
  }

  function Sent(xs: seq<Incoming>, size: nat): seq<u8>
    requires forall x <- xs :: x.Fits(size)
  {
    if xs == [] then []
    else
      assert xs[0] in xs;
      assert xs[0].Fits(size);
      xs[0].Bytes() + Sent(xs[1..], size)
  }

  function Reports(xs: seq<Incoming>): seq<Result<Option<Publication>, Error>> {
    seq(|xs|, (i: nat) requires i < |xs| => Ok(xs[i].Reported()))
  }

  /** A stream of publishes and other packets, in any mixture, is read back in order, whatever follows. */
  lemma {:induction false} MixedStreamRead(xs: seq<Incoming>, rest: seq<u8>, size: nat)
    requires forall x <- xs :: x.Fits(size)
    ensures ReadMany(Sent(xs, size) + rest, size, |xs|) == (rest, Reports(xs))
    decreases |xs|
  {
    hide ReadPublishFrom, ReadMany, Sent, Reports, Incoming.Fits, Incoming.Bytes, Incoming.Reported;
    if xs == [] {
      NothingSent(rest, size);
    } else {
      assert xs[0] in xs;
      var tail := Sent(xs[1..], size) + rest;
      SentHead(xs, rest, size);
      IncomingRead(xs[0], tail, size);
      MixedStreamRead(xs[1..], rest, size);
      OneMoreRead(Sent(xs, size) + rest, size, |xs|);
      ReportsHead(xs);
    }
  }

  lemma {:induction false} NothingSent(rest: seq<u8>, size: nat)
    ensures Sent([], size) + rest == rest && ReadMany(rest, size, 0) == (rest, Reports([]))
  {
    assert Sent([], size) == [] && Reports([]) == [];
  }

  lemma {:induction false} SentHead(xs: seq<Incoming>, rest: seq<u8>, size: nat)
    requires xs != [] && forall x <- xs :: x.Fits(size)
    ensures xs[0].Fits(size) && Sent(xs, size) + rest == xs[0].Bytes() + (Sent(xs[1..], size) + rest)
  {
    hide Incoming.Bytes;
    assert xs[0] in xs;
  }

  lemma OneMoreRead(rx: seq<u8>, size: nat, n: nat)
    requires n > 0
    ensures var (rest, r) := ReadPublishFrom(rx, size);
      var (rest', rs) := ReadMany(rest, size, n - 1);
      ReadMany(rx, size, n) == (rest', [r] + rs)
  {
    hide ReadPublishFrom;
  }

  lemma ReportsHead(xs: seq<Incoming>)
    requires xs != []
    ensures Reports(xs) == [Ok(xs[0].Reported())] + Reports(xs[1..])
  {
    hide Incoming.Reported;
  }

  /** A stream that ends within a packet is reported and used up. */
  lemma ShortStream(first: u8, body: seq<u8>, k: nat, size: nat)
    requires |body| <= size && |body| <= 268_435_455 && k < |Framed(first, body)|
    ensures ReadPublishFrom(Framed(first, body)[..k], size) == ([], Err(Io))
  {
    hide Leb128.Decode, Leb128.Encode;
    var len, rx := Leb128.Encode(|body|), Framed(first, body)[..k];
    if k > 0 {
      RemainingLength(|body|, rx[1..]);
      if k <= |len| {
        assert rx[1..] == len[..k - 1];
        Leb128.PrefixTruncated(|body|, k - 1, 4);
      } else {
        assert rx[1..] == len + body[..k - 1 - |len|];
        RemainingLength(|body|, body[..k - 1 - |len|]);
        assert rx[1 + |len|..] == body[..k - 1 - |len|];
      }
    }
  }

  /** A length of more than four bytes is malformed; the four are taken off the stream. */
  lemma LongLength(first: u8, b: seq<u8>, rest: seq<u8>, size: nat)
    requires |b| == 4 && forall i :: 0 <= i < 4 ==> b[i] >= 128
    ensures ReadPublishFrom([first] + b + rest, size) == (rest, Err(Malformed))
  {
    var rx := [first] + b + rest;
    TooMany(b, rest);
    assert rx[1..] == b + rest && rx[5..] == rest;
  }

  /**
   The bytes of a PUBLISH: type PUBLISH at QoS 0 without flags, the remaining length, the
   length of the topic with the high byte first, the topic, and the payload to the end.
   */
  lemma PublishBytes(p: Publication)
    requires PublishPacket(p.topic, p.payload).Ok?
    ensures var bytes, k := PublishPacket(p.topic, p.payload).value, if 2 + |p.topic| + |p.payload| < 128 then 1 else 2;
      && |bytes| == 1 + k + 2 + |p.topic| + |p.payload|
      && bytes[0] == 0x30
      && Leb128.Decode(bytes[1..], 4) == Ok((2 + |p.topic| + |p.payload|, k))
      && bytes[1 + k] as int * 256 + bytes[2 + k] == |p.topic|
      && bytes[3 + k..3 + k + |p.topic|] == p.topic
      && bytes[3 + k + |p.topic|..] == p.payload
  {
    hide Leb128.Decode, Leb128.Encode, ValidUtf8, PublishPacket, Be16;
    PublishRefusedIff(p);
    var n, body := 2 + |p.topic| + |p.payload|, Be16(|p.topic|) + (p.topic + p.payload);
    var bytes := PublishPacket(p.topic, p.payload).value;
    LengthBytes(n);
    RemainingLength(n, body);
    PublishFrame(p);
    BodyParts(bytes, 1 + |Leb128.Encode(n)|, p.topic, p.payload);
  }

  lemma PublishFrame(p: Publication)
    requires PublishPacket(p.topic, p.payload).Ok? && |p.topic| < 0x1_0000
    ensures var n, body := 2 + |p.topic| + |p.payload|, Be16(|p.topic|) + (p.topic + p.payload);
      var bytes := PublishPacket(p.topic, p.payload).value;
      && bytes != [] && bytes[0] == 0x30
      && bytes[1..] == Leb128.Encode(n) + body
      && bytes[1 + |Leb128.Encode(n)|..] == body
  {
    hide Leb128.Encode, ValidUtf8;
  }

  lemma BodyParts(bytes: seq<u8>, at: nat, topic: seq<u8>, payload: seq<u8>)
    requires |topic| < 0x1_0000 && at <= |bytes| && bytes[at..] == Be16(|topic|) + (topic + payload)
    ensures |bytes| == at + 2 + |topic| + |payload|
    ensures bytes[at] as int * 256 + bytes[at + 1] == |topic|
    ensures bytes[at + 2..at + 2 + |topic|] == topic && bytes[at + 2 + |topic|..] == payload
  {
    var body := bytes[at..];
    assert bytes[at] == body[0] && bytes[at + 1] == body[1];
    assert bytes[at + 2..] == body[2..] == topic + payload;
    assert bytes[at + 2..at + 2 + |topic|] == bytes[at + 2..][..|topic|];
    assert bytes[at + 2 + |topic|..] == bytes[at + 2..][|topic|..];
  }

  // ---- The client ----

  /** Appends the remaining length to a buffer of `capacity` bytes, seven bits at a time. */
  method WriteRemainingLen(v: seq<u8>, length: nat, capacity: nat) returns (r: Result<seq<u8>, Error>)
    requires |v| <= capacity
    ensures r == if |v| + |Leb128.Encode(length)| <= capacity then Ok(v + Leb128.Encode(length)) else Err(TooLarge)
  {
    var out, len := v, length;
    while true
      invariant |out| <= capacity
      invariant out + Leb128.Encode(len) == v + Leb128.Encode(length)
      decreases len
    {
      var byte: u8 := len % 128;
      ghost var before := out + Leb128.Encode(len);
      ghost var all := Leb128.Encode(len);
      len := len / 128;
      if len > 0 {
        byte := byte + 128;
      }
      if |out| == capacity {
        assert |before| == |v| + |Leb128.Encode(length)|;
        return Err(TooLarge);
      }
      out := out + [byte];
      if len == 0 {
        return Ok(out);
      }
      assert all == [byte] + Leb128.Encode(len);
    }
  }

  lemma {:induction false} ReadBound(rx: seq<u8>)
    ensures var r := Leb128.Decode(rx, 4); r.Ok? ==> r.value.0 <= 268_435_455
  {
    if Leb128.Decode(rx, 4).Ok? {
      Leb128.DecodedBound(rx, 4);
      Wire.Widths();
    }
  }

  /** What a prefix of continuation bytes adds to the number that follows it. */
  function PrefixValue(bytes: seq<u8>): nat {
    if bytes == [] then 0
    else
      var last := |bytes| - 1;
      PrefixValue(bytes[..last]) + (bytes[last] as int % 128) * Leb128.Pow128(last)
  }

  ghost function Behind(bytes: seq<u8>, r: Result<(nat, nat), Leb128.Failure>): Result<(nat, nat), Leb128.Failure> {
    match r
    case Err(e) => Err(e)
    case Ok((v, used)) => Ok((PrefixValue(bytes) + Leb128.Pow128(|bytes|) * v, |bytes| + used))
  }

  predicate Continuing(bytes: seq<u8>) {
    forall i :: 0 <= i < |bytes| ==> bytes[i] >= 128
  }

  /** Decoding past a prefix of continuation bytes. */
  lemma {:induction false} DecodePast(bytes: seq<u8>, rest: seq<u8>, max: nat)
    requires |bytes| <= max && Continuing(bytes)
    ensures Leb128.Decode(bytes + rest, max) == Behind(bytes, Leb128.Decode(rest, max - |bytes|))
    decreases |bytes|
  {
    hide Leb128.Decode;
    if bytes == [] {
      assert bytes + rest == rest;
    } else {
      var last := |bytes| - 1;
      var b := bytes[last];
      assert bytes + rest == bytes[..last] + ([b] + rest);
      DecodePast(bytes[..last], [b] + rest, max);
      DecodeByte(b, rest, max - last);
      match Leb128.Decode(rest, max - |bytes|)
      case Err(_) =>
      case Ok((v, _)) => Spread(Leb128.Pow128(last), b - 128, v);
    }
  }

  lemma {:induction false} DecodeByte(b: u8, rest: seq<u8>, max: nat)
    requires max > 0
    ensures Leb128.Decode([b] + rest, max) ==
              if b < 128 then Ok((b, 1))
              else match Leb128.Decode(rest, max - 1)
                case Err(e) => Err(e)
                case Ok((v, used)) => Ok((b - 128 + 128 * v, used + 1))
  {
    assert ([b] + rest)[1..] == rest;
  }

  lemma {:induction false} EndsHere(taken: seq<u8>, byte: u8, rest: seq<u8>)
    requires Continuing(taken) && |taken| < 4 && byte < 128
    ensures Leb128.Decode((taken + [byte]) + rest, 4)
            == Ok((PrefixValue(taken) + byte * Leb128.Pow128(|taken|), |taken| + 1))
  {
    hide Leb128.Decode;
    assert (taken + [byte]) + rest == taken + ([byte] + rest);
    DecodePast(taken, [byte] + rest, 4);
    DecodeByte(byte, rest, 4 - |taken|);
  }

  lemma {:induction false} RunsOut(taken: seq<u8>)
    requires Continuing(taken) && |taken| < 4
    ensures Leb128.Decode(taken, 4) == Err(Leb128.Truncated)
  {
    DecodePast(taken, [], 4);
    assert taken + [] == taken;
  }

  lemma {:induction false} TooMany(taken: seq<u8>, rest: seq<u8>)
    requires Continuing(taken) && |taken| == 4
    ensures Leb128.Decode(taken + rest, 4) == Err(Leb128.TooLong)
  {
    DecodePast(taken, rest, 4);
  }

  lemma {:induction false} PrefixGrows(taken: seq<u8>, byte: u8)
    ensures PrefixValue(taken + [byte]) == PrefixValue(taken) + (byte as int % 128) * Leb128.Pow128(|taken|)
    ensures Leb128.Pow128(|taken| + 1) == Leb128.Pow128(|taken|) * 128
  {
    assert (taken + [byte])[..|taken|] == taken;
  }

  lemma Spread(p: nat, b: nat, v: nat)
    ensures p * (b + 128 * v) == b * p + 128 * p * v
  {
  }

  class Socket {
    var rx: seq<u8>
    var tx: seq<u8>

    method WriteAll(bytes: seq<u8>)
      modifies this
      ensures rx == old(rx) && tx == old(tx) + bytes
    {
      tx := tx + bytes;
    }

    /** Reads just `n` bytes; a stream that ends before is used up. */
    method ReadExact(n: nat) returns (r: Result<seq<u8>, Error>)
      modifies this
      ensures tx == old(tx)
      ensures if |old(rx)| < n then rx == [] && r == Err(Io) else rx == old(rx)[n..] && r == Ok(old(rx)[..n])
    {
      if |rx| < n {
        rx := [];
        return Err(Io);
      }
      r := Ok(rx[..n]);
      rx := rx[n..];
    }
  }

  class Client {
    const socket: Socket

    constructor (socket: Socket)
      ensures this.socket == socket
    {
      this.socket := socket;
    }

    /** Sends one packet, or nothing if it exceeds the send buffer. */
    method SendFrame(first: u8, variable: seq<u8>) returns (r: Result<(), Error>)
      modifies socket
      ensures socket.rx == old(socket.rx)
      ensures match PacketOf(first, variable)
        case Ok(bytes) => r == Ok(()) && socket.tx == old(socket.tx) + bytes
        case Err(e) => r == Err(e) && socket.tx == old(socket.tx)
    {
      var head := WriteRemainingLen([first], |variable|, OUT_BUF);
      if head.Err? {
        return Err(TooLarge);
      }
      if |head.value| + |variable| > OUT_BUF {
        return Err(TooLarge);
      }
      assert head.value + variable == [first] + (Leb128.Encode(|variable|) + variable);
      socket.WriteAll(head.value + variable);
      return Ok(());
    }

    method Publish(topic: Str, payload: seq<u8>) returns (r: Result<(), Error>)
      modifies socket
      ensures socket.rx == old(socket.rx)
      ensures match PublishPacket(topic, payload)
        case Ok(bytes) => r == Ok(()) && socket.tx == old(socket.tx) + bytes
        case Err(e) => r == Err(e) && socket.tx == old(socket.tx)
    {
      var vh := Be16(|topic| % 0x1_0000);
      if |vh| + |topic| > OUT_BUF {
        return Err(TooLarge);
      }
      vh := vh + topic;
      if |vh| + |payload| > OUT_BUF {
        return Err(TooLarge);
      }
      vh := vh + payload;
      assert vh == Be16(|topic| % 0x1_0000) + (topic + payload);
      r := SendFrame(0x30, vh);
    }

    /** Reads the remaining length byte by byte, at most four of them. */
    method ReadLength() returns (r: Result<nat, Error>)
      modifies socket
      ensures socket.tx == old(socket.tx)
      ensures match Leb128.Decode(old(socket.rx), 4)
        case Ok((n, used)) => r == Ok(n) && socket.rx == old(socket.rx)[used..]
        case Err(Truncated) => r == Err(Io) && socket.rx == []
        case Err(TooLong) => r == Err(Malformed) && socket.rx == old(socket.rx)[4..]
      ensures r.Ok? ==> r.value <= 268_435_455
    {
      hide Leb128.Decode, Leb128.Pow128, PrefixValue;
      ghost var all := socket.rx;
      ReadBound(all);
      var multiplier, value := 1, 0;
      ghost var taken: seq<u8> := [];
      FourBytes(0);
      while true
        invariant socket.tx == old(socket.tx)
        invariant all == taken + socket.rx && |taken| < 4 && Continuing(taken)
        invariant multiplier == Leb128.Pow128(|taken|) && value == PrefixValue(taken)
        decreases 4 - |taken|
      {
        var b := socket.ReadExact(1);
        if b.Err? {
          assert all == taken;
          RunsOut(taken);
          return Err(Io);
        }
        var byte := b.value[0];
        assert all == (taken + [byte]) + socket.rx;
        value := value + byte as int % 128 * multiplier;
        if byte < 128 {
          EndsHere(taken, byte, socket.rx);
          return Ok(value);
        }
        PrefixGrows(taken, byte);
        taken := taken + [byte];
        FourBytes(|taken|);
        multiplier := multiplier * 128;
        if multiplier > 128 * 128 * 128 {
          TooMany(taken, socket.rx);
          return Err(Malformed);
        }
      }
    }

    /** Reads one packet into a buffer of `size` bytes. */
    method ReadPacket(size: nat) returns (r: Result<(u8, seq<u8>), Error>)
      modifies socket
      ensures socket.tx == old(socket.tx)
      ensures (socket.rx, r) == ReadFrom(old(socket.rx), size)
    {
      var header := socket.ReadExact(1);
      if header.Err? {
        return Err(Io);
      }
      var length := ReadLength();
      if length.Err? {
        return Err(length.error);
      }
      if length.value > size {
        return Err(TooLarge);
      }
      var body := socket.ReadExact(length.value);
      if body.Err? {
        return Err(Io);
      }
      return Ok((header.value[0], body.value));
    }

    /** Reads one packet and decodes it if it is a PUBLISH. */
    method ReadPublish(size: nat) returns (r: Result<Option<Publication>, Error>)
      modifies socket
      ensures socket.tx == old(socket.tx)
      ensures (socket.rx, r) == ReadPublishFrom(old(socket.rx), size)
    {
      var packet := ReadPacket(size);
      if packet.Err? {
        return Err(packet.error);
      }
      r := ParsePublish(packet.value.0, packet.value.1);
    }
  }

  lemma {:induction false} FourBytes(k: nat)
    requires k <= 4
    ensures Leb128.Pow128(k) > 128 * 128 * 128 <==> k == 4
    ensures Leb128.Pow128(0) == 1 && PrefixValue([]) == 0
  {
    assert Leb128.Pow128(1) == 128;
    assert Leb128.Pow128(2) == 128 * 128;
    assert Leb128.Pow128(3) == 128 * 128 * 128;
  }
}
