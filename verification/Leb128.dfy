/**
 Little-endian base-128 numbers: seven bits a byte, the top bit set on all bytes but the
 last. Both the postcard wire format and the remaining length of MQTT 3.1.1 (section
 2.2.3) use them.
 */
module Leb128 {
  import opened Wrappers
  import opened Proto

  datatype Failure = Truncated | TooLong

  function Encode(n: nat): (bytes: seq<u8>)
    ensures bytes != []
  {
    if n < 128 then [n] else [n % 128 + 128] + Encode(n / 128)
  }

  /** The number at the front of `bytes` and how many bytes it takes, reading at most `max` of them. */
  function Decode(bytes: seq<u8>, max: nat): (r: Result<(nat, nat), Failure>)
    ensures r.Ok? ==> 1 <= r.value.1 <= max && r.value.1 <= |bytes|
    ensures r == Err(TooLong) ==> max <= |bytes|
    ensures r == Err(Truncated) ==> |bytes| < max
    decreases max
  {
    if max == 0 then Err(TooLong)
    else if bytes == [] then Err(Truncated)
    else if bytes[0] < 128 then Ok((bytes[0], 1))
    else
      var (v, used) :- Decode(bytes[1..], max - 1);
      Ok((bytes[0] - 128 + 128 * v, used + 1))
  }

  function Pow128(k: nat): (p: nat)
    ensures p >= 1
  {
    if k == 0 then 1 else 128 * Pow128(k - 1)
  }

  /** The encoding takes k bytes for just the numbers below 128^k that need as many. */
  lemma {:induction false} EncodedLength(n: nat, k: nat)
    requires k > 0
    ensures |Encode(n)| <= k <==> n < Pow128(k)
  {
    if n >= 128 {
      if k > 1 {
        EncodedLength(n / 128, k - 1);
      }
    } else {
      assert Pow128(k) == 128 * Pow128(k - 1);
    }
  }

  /** Decoding finds the encoded number and stops exactly behind it, whatever follows. */
  lemma {:induction false} RoundTrip(n: nat, rest: seq<u8>, max: nat)
    requires |Encode(n)| <= max
    ensures Decode(Encode(n) + rest, max) == Ok((n, |Encode(n)|))
    decreases n
  {
    if n >= 128 {
      RoundTrip(n / 128, rest, max - 1);
      assert (Encode(n) + rest)[1..] == Encode(n / 128) + rest;
    }
  }

  /** No encoding that decodes to n is shorter than the one the encoder writes. */
  lemma {:induction false} EncodingIsShortest(bytes: seq<u8>, max: nat)
    requires Decode(bytes, max).Ok?
    ensures |Encode(Decode(bytes, max).value.0)| <= Decode(bytes, max).value.1
    decreases max
  {
    if bytes[0] >= 128 {
      EncodingIsShortest(bytes[1..], max - 1);
      var v := Decode(bytes[1..], max - 1).value.0;
      assert (bytes[0] - 128 + 128 * v) / 128 == v;
    }
  }

  /** What is read lies below 128^max. */
  lemma {:induction false} DecodedBound(bytes: seq<u8>, max: nat)
    requires Decode(bytes, max).Ok?
    ensures Decode(bytes, max).value.0 < Pow128(Decode(bytes, max).value.1)
    decreases max
  {
    if bytes[0] >= 128 {
      DecodedBound(bytes[1..], max - 1);
    } else {
      assert Pow128(1) == 128 * Pow128(0);
    }
  }

  /** An encoding cut short is recognised as such. */
  lemma {:induction false} PrefixTruncated(n: nat, k: nat, max: nat)
    requires k < |Encode(n)| <= max
    ensures Decode(Encode(n)[..k], max) == Err(Truncated)
    decreases max
  {
    if k > 0 {
      assert Encode(n)[..k][1..] == Encode(n / 128)[..k - 1];
      PrefixTruncated(n / 128, k - 1, max - 1);
    }
  }

  /** What follows a number does not matter. */
  lemma {:induction false} DecodeExtends(v: seq<u8>, rest: seq<u8>, max: nat)
    requires Decode(v, max).Ok?
    ensures Decode(v + rest, max) == Decode(v, max)
    decreases max
  {
    assert (v + rest)[0] == v[0];
    if v[0] >= 128 {
      assert (v + rest)[1..] == v[1..] + rest;
      DecodeExtends(v[1..], rest, max - 1);
    }
  }

  /** The bytes of a number are enough to read it. */
  lemma {:induction false} DecodeAlone(bytes: seq<u8>, max: nat)
    requires Decode(bytes, max).Ok?
    ensures var (n, used) := Decode(bytes, max).value; Decode(bytes[..used], max) == Ok((n, used))
    decreases max
  {
    var used := Decode(bytes, max).value.1;
    if bytes[0] >= 128 {
      DecodeAlone(bytes[1..], max - 1);
      assert bytes[..used][1..] == bytes[1..][..used - 1];
    }
  }
}
