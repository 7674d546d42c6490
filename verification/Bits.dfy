/**
 Bitwise arithmetic on unsigned words, as plain numbers. A word of width w is a
 `nat` below `Pow2(w)`; `Combine` is the machine's `&`, `|` or `^`, and `Test`
 reads one bit. Everything here is by recursion on the binary digits.
 */
module Bits {
  datatype BitOp = And | Or | Xor {
    predicate On(a: bool, b: bool) {
      match this
      case And => a && b
      case Or => a || b
      case Xor => a != b
    }
  }

  function Pow2(k: nat): (p: nat)
    ensures p >= 1
  {
    if k == 0 then 1 else 2 * Pow2(k - 1)
  }

  /** `a op b`, digit by digit. */
  function Combine(op: BitOp, a: nat, b: nat): nat
    decreases a + b
  {
    if a == 0 && b == 0 then 0
    else 2 * Combine(op, a / 2, b / 2) + (if op.On(a % 2 == 1, b % 2 == 1) then 1 else 0)
  }

  /** Bit `i` of `n`, that is `n & (1 << i) != 0`. */
  predicate Test(n: nat, i: nat) {
    if i == 0 then n % 2 == 1 else Test(n / 2, i - 1)
  }

  function PopCount(n: nat): nat {
    if n == 0 then 0 else n % 2 + PopCount(n / 2)
  }

  lemma {:induction false} TestZero(i: nat)
    ensures !Test(0, i)
  {
    if i > 0 { TestZero(i - 1); }
  }

  lemma {:induction false} TestPow2(k: nat, i: nat)
    ensures Test(Pow2(k), i) <==> i == k
  {
    if k == 0 {
      if i > 0 { TestZero(i - 1); }
    } else if i > 0 {
      TestPow2(k - 1, i - 1);
    }
  }

  /** Every bit of `a op b` is the op of the two bits. */
  lemma {:induction false} TestCombine(op: BitOp, a: nat, b: nat, i: nat)
    ensures Test(Combine(op, a, b), i) <==> op.On(Test(a, i), Test(b, i))
  {
    if a == 0 && b == 0 {
      TestZero(i);
    } else if i > 0 {
      TestCombine(op, a / 2, b / 2, i - 1);
    }
  }

  /** A bitwise operation never leaves the word. */
  lemma {:induction false} CombineFits(op: BitOp, a: nat, b: nat, w: nat)
    requires a < Pow2(w) && b < Pow2(w)
    ensures Combine(op, a, b) < Pow2(w)
  {
    if w > 0 && !(a == 0 && b == 0) {
      CombineFits(op, a / 2, b / 2, w - 1);
    }
  }

  lemma {:induction false} Pow2Monotone(a: nat, b: nat)
    requires a <= b
    ensures Pow2(a) <= Pow2(b)
    decreases b
  {
    if a < b { Pow2Monotone(a, b - 1); }
  }

  lemma {:induction false} CombineZero(op: BitOp, a: nat)
    requires op != And
    ensures Combine(op, a, 0) == a && Combine(op, 0, a) == a
  {
    if a > 0 { CombineZero(op, a / 2); }
  }

  lemma {:induction false} LowDigit(op: BitOp, a: nat, b: nat)
    ensures Combine(op, a, b) / 2 == Combine(op, a / 2, b / 2)
    ensures Combine(op, a, b) % 2 == if op.On(a % 2 == 1, b % 2 == 1) then 1 else 0
  {
  }

  lemma {:induction false} PopCountDigits(n: nat)
    ensures PopCount(n) == n % 2 + PopCount(n / 2)
  {
  }

  /** Setting a clear bit raises the population count by one. */
  lemma {:induction false} PopCountSet(n: nat, k: nat)
    requires !Test(n, k)
    ensures PopCount(Combine(Or, n, Pow2(k))) == PopCount(n) + 1
  {
    hide Combine, PopCount;
    var p := Pow2(k);
    LowDigit(Or, n, p);
    PopCountDigits(n);
    PopCountDigits(Combine(Or, n, p));
    if k == 0 {
      CombineZero(Or, n / 2);
    } else {
      assert p / 2 == Pow2(k - 1) && p % 2 == 0;
      PopCountSet(n / 2, k - 1);
    }
  }

  lemma {:induction false} XorSelf(a: nat)
    ensures Combine(Xor, a, a) == 0
  {
    if a > 0 { XorSelf(a / 2); }
  }

  /** Two words are equal exactly when their xor is zero. */
  lemma {:induction false} XorZeroIff(a: nat, b: nat)
    ensures Combine(Xor, a, b) == 0 <==> a == b
    decreases a + b
  {
    if !(a == 0 && b == 0) {
      XorZeroIff(a / 2, b / 2);
    }
  }

  /** Moving terms across an equation of xors. */
  lemma {:induction false} XorBalance(a: nat, x: nat, b: nat, y: nat)
    ensures Combine(Xor, a, x) == Combine(Xor, b, y) <==> Combine(Xor, a, b) == Combine(Xor, x, y)
    decreases a + x + b + y
  {
    if a + x + b + y > 0 {
      XorBalance(a / 2, x / 2, b / 2, y / 2);
    }
  }

  /** `n << k` in a word wide enough to hold it. */
  function Shl(n: nat, k: nat): nat {
    if k == 0 then n else 2 * Shl(n, k - 1)
  }

  lemma {:induction false} ShlMeaning(n: nat, k: nat)
    ensures Shl(n, k) == n * Pow2(k)
  {
    if k > 0 {
      ShlMeaning(n, k - 1);
      TwiceProduct(n, Pow2(k - 1));
    }
  }

  lemma TwiceProduct(n: nat, p: nat)
    ensures n * (2 * p) == 2 * (n * p)
  {
  }

  /** A bitwise operation acts separately on the high and the low digits. */
  lemma {:induction false} CombineGlue(op: BitOp, h1: nat, l1: nat, h2: nat, l2: nat, k: nat)
    requires l1 < Pow2(k) && l2 < Pow2(k)
    ensures Combine(op, Shl(h1, k) + l1, Shl(h2, k) + l2) == Shl(Combine(op, h1, h2), k) + Combine(op, l1, l2)
  {
    if k == 0 {
      assert Combine(op, 0, 0) == 0;
    } else {
      CombineGlue(op, h1, l1 / 2, h2, l2 / 2, k - 1);
      DigitStep(op, Shl(h1, k - 1), l1, Shl(h2, k - 1), l2);
    }
  }

  lemma DigitStep(op: BitOp, a: nat, l1: nat, b: nat, l2: nat)
    ensures Combine(op, 2 * a + l1, 2 * b + l2) - Combine(op, l1, l2)
            == 2 * (Combine(op, a + l1 / 2, b + l2 / 2) - Combine(op, l1 / 2, l2 / 2))
  {
    assert (2 * a + l1) / 2 == a + l1 / 2 && (2 * b + l2) / 2 == b + l2 / 2;
    assert (2 * a + l1) % 2 == l1 % 2 && (2 * b + l2) % 2 == l2 % 2;
    assert Combine(op, 0, 0) == 0;
  }
}
