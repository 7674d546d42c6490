/**
 The deduplication key `id ^ (seq << 16)` of `Relay::ingest`, and exactly when two
 slices share one.
 */
module Dedup {
  import opened Proto
  import opened Bits

  function SliceKey(id: u32, seqNo: u16): (key: u32)
  {
    KeyFits(id, seqNo);
    Combine(Xor, id, Shl(seqNo, 16))
  }

  function DedupKey(m: Message): u32 {
    match m.frag
    case Some(f) => SliceKey(m.id, f.seqNo)
    case None => m.id
  }

  lemma WordSizes()
    ensures Pow2(6) == 64 && Pow2(8) == 0x100 && Pow2(16) == 0x1_0000 && Pow2(32) == 0x1_0000_0000
  {
    assert Pow2(4) == 16 && Pow2(8) == 0x100;
    assert Pow2(12) == 0x1000 && Pow2(16) == 0x1_0000;
    assert Pow2(20) == 0x10_0000 && Pow2(24) == 0x100_0000 && Pow2(28) == 0x1000_0000;
  }

  lemma {:induction false} Shl16(n: nat)
    ensures Shl(n, 16) == n * 0x1_0000
  {
    WordSizes();
    ShlMeaning(n, 16);
  }

  lemma {:induction false} Shl8(n: nat)
    ensures Shl(n, 8) == n * 0x100
  {
    WordSizes();
    ShlMeaning(n, 8);
  }

  /** The xor of two words, half by half. */
  lemma {:induction false} XorHalves(a: nat, b: nat)
    ensures Combine(Xor, a % 0x1_0000, b % 0x1_0000) < 0x1_0000
    ensures Combine(Xor, a, b)
            == 0x1_0000 * Combine(Xor, a / 0x1_0000, b / 0x1_0000) + Combine(Xor, a % 0x1_0000, b % 0x1_0000)
  {
    WordSizes();
    var h1, l1, h2, l2 := a / 0x1_0000, a % 0x1_0000, b / 0x1_0000, b % 0x1_0000;
    Shl16(h1);
    Shl16(h2);
    Shl16(Combine(Xor, h1, h2));
    CombineGlue(Xor, h1, l1, h2, l2, 16);
    CombineFits(Xor, l1, l2, 16);
  }

  lemma {:induction false} KeyFits(id: u32, seqNo: u16)
    ensures Combine(Xor, id, Shl(seqNo, 16)) < 0x1_0000_0000
  {
    WordSizes();
    ShlMeaning(seqNo, 16);
    CombineFits(Xor, id, Shl(seqNo, 16), 32);
  }

  /** Slice 0 and the unfragmented form of a message have the same key: the id itself. */
  lemma SliceZeroKey(id: u32)
    ensures SliceKey(id, 0) == id
  {
    ShlMeaning(0, 16);
    CombineZero(Xor, id);
  }

  /**
   Two slices have the same key exactly when the low halves of their ids agree and the
   high halves differ just where the slice numbers differ.
   */
  lemma {:induction false} KeysCollideIff(id1: u32, s1: u16, id2: u32, s2: u16)
    ensures SliceKey(id1, s1) == SliceKey(id2, s2)
            <==> id1 % 0x1_0000 == id2 % 0x1_0000
                 && Combine(Xor, id1 / 0x1_0000, id2 / 0x1_0000) == Combine(Xor, s1, s2)
  {
    XorBalance(id1, Shl(s1, 16), id2, Shl(s2, 16));
    XorHalves(id1, id2);
    XorShifted(s1, s2);
    XorZeroIff(id1 % 0x1_0000, id2 % 0x1_0000);
  }

  lemma {:induction false} XorShifted(s1: u16, s2: u16)
    ensures Combine(Xor, Shl(s1, 16), Shl(s2, 16)) == 0x1_0000 * Combine(Xor, s1, s2)
  {
    WordSizes();
    CombineGlue(Xor, s1, 0, s2, 0, 16);
    Shl16(Combine(Xor, s1, s2));
    XorSelf(0);
  }

  /** Distinct slices of one message are never collapsed into one. */
  lemma SlicesKeepApart(id: u32, s1: u16, s2: u16)
    ensures SliceKey(id, s1) == SliceKey(id, s2) <==> s1 == s2
  {
    KeysCollideIff(id, s1, id, s2);
    XorSelf(id / 0x1_0000);
    XorZeroIff(s1, s2);
  }

  /**
   As long as a node has allocated fewer than 2^16 ids since its base, its keys are
   unique: two of them agree only for the same id and the same slice.
   */
  lemma OneNodeKeysUnique(base: u32, c1: u16, s1: u16, c2: u16, s2: u16)
    requires base % 0x1_0000 == 0
    ensures SliceKey(base + c1, s1) == SliceKey(base + c2, s2) <==> c1 == c2 && s1 == s2
  {
    KeysCollideIff(base + c1, s1, base + c2, s2);
    assert (base + c1) / 0x1_0000 == base / 0x1_0000 == (base + c2) / 0x1_0000;
    XorSelf(base / 0x1_0000);
    XorZeroIff(s1, s2);
  }

  /**
   Beyond 2^16 ids the claim fails: slice 1 of a message whose id has an even high half,
   such as 0x0100_0000, has the key of the message allocated 2^16 ids later.
   */
  lemma OneNodeKeysCollide(h: nat, l: u16)
    requires 2 * h + 1 < 0x1_0000
    ensures SliceKey(0x2_0000 * h + l, 1) == SliceKey(0x2_0000 * h + l + 0x1_0000, 0)
  {
    var id := 0x2_0000 * h + l;
    KeysCollideIff(id, 1, id + 0x1_0000, 0);
    assert id / 0x1_0000 == 2 * h && id % 0x1_0000 == l;
    assert (id + 0x1_0000) / 0x1_0000 == 2 * h + 1 && (id + 0x1_0000) % 0x1_0000 == l;
    XorNext(2 * h, 2 * h + 1);
    CombineZero(Xor, 1);
  }

  lemma {:induction false} XorNext(a: nat, b: nat)
    requires a / 2 == b / 2 && a % 2 == 0 && b % 2 == 1
    ensures Combine(Xor, a, b) == 1
  {
    XorSelf(a / 2);
  }

  /**
   Two nodes whose id bases differ in the top byte keep their keys apart while each has
   allocated fewer than 2^24 ids.
   */
  lemma TwoNodeKeysDisjoint(top1: u8, c1: nat, s1: u16, top2: u8, c2: nat, s2: u16)
    requires top1 != top2 && c1 < 0x100_0000 && c2 < 0x100_0000
    requires s1 < 64 && s2 < 64
    ensures SliceKey(top1 * 0x100_0000 + c1, s1) != SliceKey(top2 * 0x100_0000 + c2, s2)
  {
    var m1, m2 := c1 / 0x1_0000, c2 / 0x1_0000;
    assert (top1 * 0x100_0000 + c1) / 0x1_0000 == top1 * 0x100 + m1;
    assert (top2 * 0x100_0000 + c2) / 0x1_0000 == top2 * 0x100 + m2;
    KeysCollideIff(top1 * 0x100_0000 + c1, s1, top2 * 0x100_0000 + c2, s2);
    TopByteSurvives(top1, m1, top2, m2);
    WordSizes();
    CombineFits(Xor, s1, s2, 6);
  }

  lemma TopByteSurvives(top1: u8, m1: u8, top2: u8, m2: u8)
    requires top1 != top2
    ensures Combine(Xor, top1 * 0x100 + m1, top2 * 0x100 + m2) >= 0x100
  {
    WordSizes();
    Shl8(top1);
    Shl8(top2);
    Shl8(Combine(Xor, top1, top2));
    CombineGlue(Xor, top1, m1, top2, m2, 8);
    XorZeroIff(top1, top2);
  }
}
