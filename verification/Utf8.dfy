/**
 Which byte strings are text: UTF-8 as section 3 of RFC 3629 defines it, which is what a
 topic must be.
 */
module Utf8 {
  import opened Proto

  predicate Within(s: seq<u8>, i: nat, lo: u8, hi: u8) {
    i < |s| && lo <= s[i] <= hi
  }

  /** The length of the well-formed UTF-8 character at the front, 0 if there is none. */
  function CharLength(s: seq<u8>): (n: nat)
    ensures n <= |s|
  {
    if Within(s, 0, 0x00, 0x7F) then 1
    else if Within(s, 0, 0xC2, 0xDF) && Within(s, 1, 0x80, 0xBF) then 2
    else if (|| (Within(s, 0, 0xE0, 0xE0) && Within(s, 1, 0xA0, 0xBF))
             || (Within(s, 0, 0xE1, 0xEC) && Within(s, 1, 0x80, 0xBF))
             || (Within(s, 0, 0xED, 0xED) && Within(s, 1, 0x80, 0x9F))
             || (Within(s, 0, 0xEE, 0xEF) && Within(s, 1, 0x80, 0xBF)))
            && Within(s, 2, 0x80, 0xBF) then 3
    else if (|| (Within(s, 0, 0xF0, 0xF0) && Within(s, 1, 0x90, 0xBF))
             || (Within(s, 0, 0xF1, 0xF3) && Within(s, 1, 0x80, 0xBF))
             || (Within(s, 0, 0xF4, 0xF4) && Within(s, 1, 0x80, 0x8F)))
            && Within(s, 2, 0x80, 0xBF) && Within(s, 3, 0x80, 0xBF) then 4
    else 0
  }

  predicate ValidUtf8(s: seq<u8>)
    decreases |s|
  {
    s == [] || (CharLength(s) > 0 && ValidUtf8(s[CharLength(s)..]))
  }

  type Str = s: seq<u8> | ValidUtf8(s) witness []

  // ---- What it means ----

  type Scalar = n: nat | n < 0x11_0000 && !(0xD800 <= n < 0xE000)

  /** The encoding of one character. */
  function Encoded(cp: Scalar): seq<u8> {
    if cp < 0x80 then [cp]
    else if cp < 0x800 then [0xC0 + cp / 64, 0x80 + cp % 64]
    else if cp < 0x1_0000 then [0xE0 + cp / 4096, 0x80 + cp / 64 % 64, 0x80 + cp % 64]
    else [0xF0 + cp / 0x4_0000, 0x80 + cp / 4096 % 64, 0x80 + cp / 64 % 64, 0x80 + cp % 64]
  }

  function EncodedAll(cps: seq<Scalar>): seq<u8> {
    if cps == [] then [] else Encoded(cps[0]) + EncodedAll(cps[1..])
  }

  lemma EncodedIsFound(cp: Scalar, rest: seq<u8>)
    ensures CharLength(Encoded(cp) + rest) == |Encoded(cp)|
  {
    var s := Encoded(cp) + rest;
    assert forall i :: 0 <= i < |Encoded(cp)| ==> s[i] == Encoded(cp)[i];
  }

  /** The character at the front of a string. */
  lemma FoundIsEncoded(s: seq<u8>) returns (cp: Scalar)
    requires CharLength(s) > 0
    ensures s[..CharLength(s)] == Encoded(cp)
  {
    if CharLength(s) == 1 {
      cp := s[0];
    } else if CharLength(s) == 2 {
      cp := FoundTwo(s[0], s[1]);
    } else if CharLength(s) == 3 {
      cp := FoundThree(s[0], s[1], s[2]);
    } else {
      cp := FoundFour(s[0], s[1], s[2], s[3]);
    }
  }

  lemma FoundTwo(a: int, b: int) returns (cp: Scalar)
    requires 0xC2 <= a <= 0xDF && 0x80 <= b <= 0xBF
    ensures Encoded(cp) == [a, b]
  {
    cp := (a - 0xC0) * 64 + (b - 0x80);
  }

  lemma FoundThree(a: int, b: int, c: int) returns (cp: Scalar)
    requires 0xE0 <= a <= 0xEF && 0x80 <= b <= 0xBF && 0x80 <= c <= 0xBF
    requires (a == 0xE0 ==> b >= 0xA0) && (a == 0xED ==> b <= 0x9F)
    ensures Encoded(cp) == [a, b, c]
  {
    cp := (a - 0xE0) * 4096 + (b - 0x80) * 64 + (c - 0x80);
    Digits(a - 0xE0, b - 0x80, c - 0x80);
  }

  lemma FoundFour(a: int, b: int, c: int, d: int) returns (cp: Scalar)
    requires 0xF0 <= a <= 0xF4 && 0x80 <= b <= 0xBF && 0x80 <= c <= 0xBF && 0x80 <= d <= 0xBF
    requires (a == 0xF0 ==> b >= 0x90) && (a == 0xF4 ==> b <= 0x8F)
    ensures Encoded(cp) == [a, b, c, d]
  {
    var high := (a - 0xF0) * 64 + (b - 0x80);
    cp := high * 4096 + (c - 0x80) * 64 + (d - 0x80);
    Digits(high, c - 0x80, d - 0x80);
    assert cp / 0x4_0000 == high / 64;
  }

  lemma Digits(a: nat, b: nat, c: nat)
    requires b < 64 && c < 64
    ensures var n := a * 4096 + b * 64 + c;
      n / 4096 == a && n / 64 == a * 64 + b && n / 64 % 64 == b && n % 64 == c
  {
    var n := a * 4096 + b * 64 + c;
    assert n / 64 == a * 64 + b;
  }

  lemma {:induction false} EncodedIsValid(cps: seq<Scalar>)
    ensures ValidUtf8(EncodedAll(cps))
  {
    if cps != [] {
      var s := EncodedAll(cps);
      EncodedIsFound(cps[0], EncodedAll(cps[1..]));
      EncodedIsValid(cps[1..]);
      assert s[CharLength(s)..] == EncodedAll(cps[1..]);
    }
  }

  lemma {:induction false} ValidIsEncoded(s: seq<u8>) returns (cps: seq<Scalar>)
    requires ValidUtf8(s)
    ensures s == EncodedAll(cps)
    decreases |s|
  {
    if s == [] {
      cps := [];
    } else {
      var cp := FoundIsEncoded(s);
      var rest := ValidIsEncoded(s[CharLength(s)..]);
      cps := [cp] + rest;
      assert s == s[..CharLength(s)] + s[CharLength(s)..];
    }
  }

  /** The test accepts exactly the encodings of character sequences: no surrogates, nothing overlong. */
  lemma {:induction false} ValidIff(s: seq<u8>)
    ensures ValidUtf8(s) <==> exists cps :: s == EncodedAll(cps)
  {
    if ValidUtf8(s) {
      var cps := ValidIsEncoded(s);
    }
    if cps :| s == EncodedAll(cps) {
      EncodedIsValid(cps);
    }
  }
}
