/**
 The topic scheme of the MQTT port (`Topic` of `crates/relaystar-relay/src/ports/mqtt.rs`):
 which topic a frame is published under, and that every mesh frame can be.
 */
module Topics {
  import opened Wrappers
  import opened Proto
  import opened Mqtt
  import opened Utf8
  import Wire

  const UNICAST_TOPIC_LEN: nat := 24

  datatype PortError = Io | NotReady | FrameTooLarge | UnsupportedAddr

  predicate IsAscii(s: seq<u8>) {
    forall i :: 0 <= i < |s| ==> s[i] < 0x80
  }

  lemma {:induction false} AsciiIsUtf8(s: seq<u8>)
    requires IsAscii(s)
    ensures ValidUtf8(s)
    decreases |s|
  {
    if s != [] {
      assert CharLength(s) == 1;
      AsciiIsUtf8(s[1..]);
    }
  }

  /** `relaystar/b` */
  function BroadcastTopic(): (topic: Str)
    ensures |topic| == 11
  {
    var topic := [0x72, 0x65, 0x6C, 0x61, 0x79, 0x73, 0x74, 0x61, 0x72, 0x2F, 0x62];
    AsciiIsUtf8(topic);
    topic
  }

  /** `relaystar/u/` */
  function UnicastPrefix(): (prefix: seq<u8>)
    ensures |prefix| == 12 && IsAscii(prefix)
  {
    [0x72, 0x65, 0x6C, 0x61, 0x79, 0x73, 0x74, 0x61, 0x72, 0x2F, 0x75, 0x2F]
  }

  function HexNibble(n: nat): (b: u8)
    requires n < 16
    ensures b < 0x80
  {
    if n < 10 then 0x30 + n else 0x61 + (n - 10)
  }

  /** Two lower-case hexadecimal digits for each byte. */
  function Hex(bytes: seq<u8>): (digits: seq<u8>)
    ensures |digits| == 2 * |bytes| && IsAscii(digits)
  {
    if bytes == [] then []
    else
      var last := |bytes| - 1;
      Hex(bytes[..last]) + [HexNibble(bytes[last] / 16), HexNibble(bytes[last] % 16)]
  }

  function UnicastTopic(addr: Addr): (topic: Str)
    ensures |topic| == UNICAST_TOPIC_LEN
  {
    AsciiIsUtf8(UnicastPrefix() + Hex(addr));
    UnicastPrefix() + Hex(addr)
  }

  /** The topic that `send_frame` publishes under. */
  function TopicFor(to: FrameAddr): Str {
    match to
    case ToAll => BroadcastTopic()
    case ToPeer(addr) => UnicastTopic(addr)
  }

  /** Writes the unicast topic to the front of a buffer, if that is large enough. */
  method UnicastFor(addr: Addr, buf: array<u8>) returns (r: Result<seq<u8>, PortError>)
    modifies buf
    ensures buf.Length < UNICAST_TOPIC_LEN ==> r == Err(FrameTooLarge) && buf[..] == old(buf[..])
    ensures buf.Length >= UNICAST_TOPIC_LEN ==>
              && r == Ok(UnicastTopic(addr))
              && buf[..] == UnicastTopic(addr) + old(buf[UNICAST_TOPIC_LEN..])
  {
    hide UnicastPrefix, HexNibble, ValidUtf8, IsAscii;
    if buf.Length < UNICAST_TOPIC_LEN {
      return Err(FrameTooLarge);
    }
    ghost var topic := UnicastTopic(addr);
    var prefix := UnicastPrefix();
    for j := 0 to |prefix|
      invariant forall n :: 0 <= n < j ==> buf[n] == prefix[n]
      invariant forall n :: j <= n < buf.Length ==> buf[n] == old(buf[n])
    {
      buf[j] := prefix[j];
    }
    var i := |prefix|;
    for k := 0 to |addr|
      invariant i == |prefix| + 2 * k
      invariant forall n :: 0 <= n < i ==> buf[n] == topic[n]
      invariant forall n :: i <= n < buf.Length ==> buf[n] == old(buf[n])
    {
      HexDigits(addr, k);
      buf[i] := HexNibble(addr[k] / 16);
      buf[i + 1] := HexNibble(addr[k] % 16);
      i := i + 2;
    }
    assert buf[..i] == topic;
    return Ok(buf[..i]);
  }

  lemma {:induction false} HexDigits(bytes: seq<u8>, k: nat)
    requires k < |bytes|
    ensures Hex(bytes)[2 * k] == HexNibble(bytes[k] / 16) && Hex(bytes)[2 * k + 1] == HexNibble(bytes[k] % 16)
    decreases |bytes|
  {
    var last := |bytes| - 1;
    if k < last {
      HexDigits(bytes[..last], k);
    }
  }

  lemma {:induction false} HexInjective(a: seq<u8>, b: seq<u8>)
    requires |a| == |b| && Hex(a) == Hex(b)
    ensures a == b
  {
    hide HexNibble, IsAscii, Hex;
    forall k | 0 <= k < |a|
      ensures a[k] == b[k]
    {
      HexDigits(a, k);
      HexDigits(b, k);
      NibblesDiffer(Hex(a)[2 * k], a[k] / 16, b[k] / 16);
      NibblesDiffer(Hex(a)[2 * k + 1], a[k] % 16, b[k] % 16);
    }
  }

  lemma NibblesDiffer(digit: u8, m: nat, n: nat)
    requires m < 16 && n < 16 && digit == HexNibble(m) == HexNibble(n)
    ensures m == n
  {
  }

  /** The topics as text: `relaystar/b`, and `relaystar/u/` with twelve lower-case hexadecimal digits. */
  lemma TopicText(to: FrameAddr)
    ensures var topic := TopicFor(to);
      match to
      case ToAll => |topic| == 11 && forall i :: 0 <= i < 11 ==> topic[i] == "relaystar/b"[i] as int
      case ToPeer(addr) =>
        && |topic| == 24
        && (forall i :: 0 <= i < 12 ==> topic[i] == "relaystar/u/"[i] as int)
        && forall k :: 0 <= k < 6 ==>
             && topic[12 + 2 * k] == "0123456789abcdef"[addr[k] / 16] as int
             && topic[13 + 2 * k] == "0123456789abcdef"[addr[k] % 16] as int
  {
    hide ValidUtf8, Hex;
    if to.ToPeer? {
      forall k | 0 <= k < 6
        ensures TopicFor(to)[12 + 2 * k] == "0123456789abcdef"[to.addr[k] / 16] as int
        ensures TopicFor(to)[13 + 2 * k] == "0123456789abcdef"[to.addr[k] % 16] as int
      {
        HexDigits(to.addr, k);
        NibbleText(to.addr[k] / 16);
        NibbleText(to.addr[k] % 16);
      }
    }
  }

  lemma NibbleText(n: nat)
    requires n < 16
    ensures HexNibble(n) == "0123456789abcdef"[n] as int
  {
  }

  /** A frame for one peer is published where no other peer listens, nor everyone. */
  lemma TopicsDiffer(to: FrameAddr, other: FrameAddr)
    ensures TopicFor(to) == TopicFor(other) <==> to == other
  {
    if to.ToPeer? && other.ToPeer? && TopicFor(to) == TopicFor(other) {
      assert UnicastTopic(to.addr)[12..] == Hex(to.addr) && UnicastTopic(other.addr)[12..] == Hex(other.addr);
      HexInjective(to.addr, other.addr);
    }
  }

  /** Every mesh frame can be published under every topic of the scheme. */
  lemma MeshFramesFit(to: FrameAddr, m: Message)
    requires m.WellSized()
    ensures PublishPacket(TopicFor(to), Wire.Encode(m)).Ok?
  {
    Wire.FitsFrame(m);
    PublishRefusedIff(Publication(TopicFor(to), Wire.Encode(m)));
  }

  /** And who reads the stream finds the topic, and in the payload the message. */
  lemma MeshFramesArrive(to: FrameAddr, m: Message, rest: seq<u8>, size: nat)
    requires m.WellSized() && 317 <= size
    ensures PublishPacket(TopicFor(to), Wire.Encode(m)).Ok?
    ensures var (left, r) := ReadPublishFrom(PublishPacket(TopicFor(to), Wire.Encode(m)).value + rest, size);
      && left == rest && r.Ok? && r.value.Some?
      && r.value.value.topic == TopicFor(to) && Wire.DecodeMessage(r.value.value.payload) == Ok(m)
  {
    hide PublishPacket, ReadPublishFrom, TopicFor;
    MeshFramesFit(to, m);
    PublishRefusedIff(Publication(TopicFor(to), Wire.Encode(m)));
    PublishRoundTrip(Publication(TopicFor(to), Wire.Encode(m)), rest, size);
    Wire.MessageRoundTrip(m, []);
    assert Wire.Encode(m) + [] == Wire.Encode(m);
  }
}
