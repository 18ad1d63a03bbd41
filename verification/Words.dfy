/** Bitwise operations on 64-bit words as numbers. */
module Words {
  const TWO63: nat := 0x8000_0000_0000_0000
  const TWO64: nat := 0x1_0000_0000_0000_0000

  type u64 = x: int | 0 <= x < 0x1_0000_0000_0000_0000

  datatype Op = And | Or | Xor

  type Bit = x: int | 0 <= x < 2

  function OnBits(op: Op, p: Bit, q: Bit): Bit {
    match op
    case And => p * q
    case Or => p + q - p * q
    case Xor => (p + q) % 2
  }

  /** The operation on every bit. */
  function Bitwise(op: Op, a: nat, b: nat): nat
    decreases a + b
  {
    if a == 0 && b == 0 then 0 else OnBits(op, a % 2, b % 2) + 2 * Bitwise(op, a / 2, b / 2)
  }

  ghost function TwoTo(n: nat): nat { if n == 0 then 1 else 2 * TwoTo(n - 1) }

  ghost function Top(a: nat, n: nat): Bit { if a >= TwoTo(n) then 1 else 0 }

  /** The highest bit of the result is made of the highest bits. */
  lemma {:induction false} TopBitwise(op: Op, a: nat, b: nat, n: nat)
    requires a < 2 * TwoTo(n) && b < 2 * TwoTo(n)
    ensures Bitwise(op, a, b) < 2 * TwoTo(n) && Top(Bitwise(op, a, b), n) == OnBits(op, Top(a, n), Top(b, n))
    decreases n
  {
    if n > 0 {
      TopBitwise(op, a / 2, b / 2, n - 1);
    } else {
      assert Bitwise(op, 0, 0) == 0;
    }
  }

  lemma Two63()
    ensures TwoTo(63) == TWO63
  {
    assert TwoTo(16) == 0x1_0000;
    assert TwoTo(32) == 0x1_0000_0000 by { TwoToAdd(16, 16); }
    assert TwoTo(48) == 0x1_0000_0000_0000 by { TwoToAdd(32, 16); }
    assert TwoTo(15) == 0x8000;
    TwoToAdd(48, 15);
  }

  lemma {:induction false} TwoToAdd(m: nat, n: nat)
    ensures TwoTo(m + n) == TwoTo(m) * TwoTo(n)
  {
    if m > 0 {
      TwoToAdd(m - 1, n);
      Doubled(TwoTo(m - 1), TwoTo(n));
    }
  }

  lemma Doubled(x: nat, y: nat)
    ensures (2 * x) * y == 2 * (x * y)
  {
  }

  /** An operation on words gives a word; a shift by 63 leaves the operation on the highest bits. */
  function Word(op: Op, a: u64, b: u64): (c: u64)
    ensures c / TWO63 == OnBits(op, a / TWO63, b / TWO63)
  {
    Two63();
    TopBitwise(op, a, b, 63);
    TopIsQuotient(a);
    TopIsQuotient(b);
    TopIsQuotient(Bitwise(op, a, b));
    Bitwise(op, a, b)
  }

  lemma TopIsQuotient(a: u64)
    ensures TwoTo(63) == TWO63 && a / TWO63 == Top(a, 63)
  {
    Two63();
  }

  // ---------------------------------------------------------------- laws

  lemma Halves(op: Op, a: nat, b: nat)
    ensures Bitwise(op, a, b) / 2 == Bitwise(op, a / 2, b / 2) && Bitwise(op, a, b) % 2 == OnBits(op, a % 2, b % 2)
  {
  }

  lemma {:induction false} XorCancels(a: nat, b: nat)
    ensures Bitwise(Xor, a, Bitwise(Xor, a, b)) == b && Bitwise(Xor, b, Bitwise(Xor, a, b)) == a
    decreases a + b
  {
    if a > 0 || b > 0 {
      var c := Bitwise(Xor, a, b);
      Halves(Xor, a, b);
      Halves(Xor, a, c);
      Halves(Xor, b, c);
      XorCancels(a / 2, b / 2);
      hide Bitwise;
      XorBits(a % 2, b % 2);
      SameHalves(Bitwise(Xor, a, c), b);
      SameHalves(Bitwise(Xor, b, c), a);
    }
  }

  lemma XorBits(p: Bit, q: Bit)
    ensures OnBits(Xor, p, OnBits(Xor, p, q)) == q && OnBits(Xor, q, OnBits(Xor, p, q)) == p
  {
  }

  lemma SameHalves(x: nat, y: nat)
    requires x / 2 == y / 2 && x % 2 == y % 2
    ensures x == y
  {
  }

  lemma {:induction false} XorZero(a: nat)
    ensures Bitwise(Xor, a, 0) == a
    decreases a
  {
    if a > 0 {
      XorZero(a / 2);
    }
  }

  lemma {:induction false} XorSame(a: nat, b: nat)
    ensures Bitwise(Xor, a, b) == 0 <==> a == b
    decreases a + b
  {
    if a > 0 || b > 0 {
      XorSame(a / 2, b / 2);
    }
  }

  lemma {:induction false} AndZero(a: nat)
    ensures Bitwise(And, 0, a) == 0
    decreases a
  {
    if a > 0 {
      AndZero(a / 2);
    }
  }

  /** Ones in all n places leave a number of n places as it is. */
  lemma {:induction false} AndOnes(a: nat, n: nat)
    requires a < TwoTo(n)
    ensures Bitwise(And, TwoTo(n) - 1, a) == a
    decreases n
  {
    if n > 0 {
      AndOnes(a / 2, n - 1);
    }
  }

  const ONES: u64 := 0xffff_ffff_ffff_ffff

  /** Masking with all ones or with zero. */
  lemma Masked(mask: u64, x: u64)
    requires mask == ONES || mask == 0
    ensures Word(And, mask, x) == if mask == ONES then x else 0
  {
    if mask == 0 {
      AndZero(x);
    } else {
      Two63();
      assert TwoTo(64) == TWO64;
      AndOnes(x, 64);
    }
  }

  /** Two words are exchanged under a mask of all ones and kept under zero. */
  lemma MaskedExchange(mask: u64, a: u64, b: u64)
    requires mask == ONES || mask == 0
    ensures var x := Word(And, mask, Word(Xor, a, b));
            Word(Xor, a, x) == (if mask == ONES then b else a) && Word(Xor, b, x) == if mask == ONES then a else b
  {
    Masked(mask, Word(Xor, a, b));
    if mask == ONES {
      XorCancels(a, b);
    } else {
      XorZero(a);
      XorZero(b);
    }
  }

  // ---------------------------------------------------------------- comparing without a branch

  /** All ones when equal, zero otherwise. */
  function EqMask(a: u64, b: u64): u64 {
    var x := Word(Xor, a, b);
    var minusX := (ONES - x + 1) % TWO64;
    (Word(Or, x, minusX) / TWO63 - 1) % TWO64
  }

  lemma EqMaskIs(a: u64, b: u64)
    ensures EqMask(a, b) == if a == b then ONES else 0
  {
    XorSame(a, b);
    var x := Word(Xor, a, b);
    assert x == 0 <==> a == b;
    hide Word;
    OneIsLarge(x);
  }

  /** A word other than zero, or its negative, has the highest bit set. */
  lemma OneIsLarge(x: u64)
    ensures OnBits(Or, x / TWO63, (ONES - x + 1) % TWO64 / TWO63) == if x == 0 then 0 else 1
  {
  }

  /** The highest bits of two words and of their difference tell which is larger. */
  lemma LargerByTop(a: u64, b: u64, d: u64)
    requires d == if a >= b then a - b else a - b + TWO64
    ensures var p, q, r := a / TWO63, b / TWO63, d / TWO63;
            a >= b <==> if p == q then r == 0 else p == 1
  {
  }

  /** The bits the comparison computes. */
  lemma CompareBits(p: Bit, q: Bit, r: Bit)
    ensures OnBits(Xor, p, OnBits(Or, OnBits(Xor, p, q), OnBits(Xor, r, q))) == 0 <==> if p == q then r == 0 else p == 1
  {
  }

  /** All ones when a is at least b, zero otherwise. */
  function GteMask(a: u64, b: u64): u64 {
    var d := (a - b) % TWO64;
    var q := Word(Or, Word(Xor, a, b), Word(Xor, d, b));
    (Word(Xor, a, q) / TWO63 - 1) % TWO64
  }

  lemma GteMaskIs(a: u64, b: u64)
    ensures GteMask(a, b) == if a >= b then ONES else 0
  {
    hide Word, OnBits;
    var d := (a - b) % TWO64;
    LargerByTop(a, b, d);
    CompareBits(a / TWO63, b / TWO63, d / TWO63);
  }
}
