/**
 * Unsigned machine words as natural numbers. The C++ sources work on `unsigned int`
 * (32 bits); here a word is a `nat` below 2^32 and every bitwise operator the sources use
 * (`&`, `^`, `& ~`, `>>`, `<<`) is defined recursively, one bit at a time, so that the
 * proofs about masks, Gray codes and addresses are ordinary inductions.
 */
module Bits {

  /** The number of values of a 32-bit unsigned int. */
  const Word: nat := 0x1_0000_0000

  /** An unsigned 32-bit value. */
  type U32 = x: nat | x < Word

  function Pow2(k: nat): (p: nat)
    ensures p >= 1
  {
    if k == 0 then 1 else 2 * Pow2(k - 1)
  }

  /** Bit `i` of `x` (0 or 1): `(x >> i) & 1`. */
  function Bit(x: nat, i: nat): (b: nat)
    ensures b <= 1
  {
    if i == 0 then x % 2 else Bit(x / 2, i - 1)
  }

  /** `a & b` */
  function And(a: nat, b: nat): (r: nat)
    ensures r <= a && r <= b
  {
    if a == 0 || b == 0 then 0
    else 2 * And(a / 2, b / 2) + (if a % 2 == 1 && b % 2 == 1 then 1 else 0)
  }

  /** `a ^ b` */
  function Xor(a: nat, b: nat): (r: nat)
    ensures r <= a + b
    ensures a == b ==> r == 0
    decreases a + b
  {
    if a == 0 then b
    else if b == 0 then a
    else 2 * Xor(a / 2, b / 2) + (if a % 2 != b % 2 then 1 else 0)
  }

  /** `a & ~b` */
  function AndNot(a: nat, b: nat): (r: nat)
    ensures r <= a
  {
    if a == 0 then 0
    else if b == 0 then a
    else 2 * AndNot(a / 2, b / 2) + (if a % 2 == 1 && b % 2 == 0 then 1 else 0)
  }

  /** The number of set bits of `x`. */
  function PopCount(x: nat): (c: nat)
    ensures c <= x
  {
    if x == 0 then 0 else x % 2 + PopCount(x / 2)
  }

  /** The test `x != 0 && (x & (x - 1)) == 0` the sources use for "exactly one bit set". */
  predicate SingleBit(x: nat)
  {
    x != 0 && And(x, x - 1) == 0
  }

  /** `x` has no bit outside `m`: `(x & ~m) == 0`. */
  predicate SubMask(x: nat, m: nat)
  {
    AndNot(x, m) == 0
  }

  // ---------------------------------------------------------------- single bits

  lemma {:induction false} BitOfZero(i: nat)
    ensures Bit(0, i) == 0
  {
    if i > 0 { BitOfZero(i - 1); }
  }

  lemma {:induction false} BitsEqual(x: nat, y: nat)
    requires forall i: nat :: Bit(x, i) == Bit(y, i)
    ensures x == y
    decreases x + y
  {
    if x != 0 || y != 0 {
      assert x % 2 == y % 2 by { assert Bit(x, 0) == Bit(y, 0); }
      forall i: nat
        ensures Bit(x / 2, i) == Bit(y / 2, i)
      {
        assert Bit(x, i + 1) == Bit(y, i + 1);
      }
      BitsEqual(x / 2, y / 2);
    }
  }

  lemma ZeroFromBits(x: nat)
    requires forall i: nat :: Bit(x, i) == 0
    ensures x == 0
  {
    forall i: nat ensures Bit(x, i) == Bit(0, i) { BitOfZero(i); }
    BitsEqual(x, 0);
  }

  lemma {:induction false} BitAnd(a: nat, b: nat, i: nat)
    ensures Bit(And(a, b), i) == (if Bit(a, i) == 1 && Bit(b, i) == 1 then 1 else 0)
    decreases i
  {
    if a == 0 || b == 0 {
      BitOfZero(i);
    } else if i > 0 {
      BitAnd(a / 2, b / 2, i - 1);
    }
  }

  lemma {:induction false} BitXor(a: nat, b: nat, i: nat)
    ensures Bit(Xor(a, b), i) == (if Bit(a, i) != Bit(b, i) then 1 else 0)
    decreases i
  {
    if a == 0 || b == 0 {
      BitOfZero(i);
    } else if i > 0 {
      BitXor(a / 2, b / 2, i - 1);
    }
  }

  lemma {:induction false} BitAndNot(a: nat, b: nat, i: nat)
    ensures Bit(AndNot(a, b), i) == (if Bit(a, i) == 1 && Bit(b, i) == 0 then 1 else 0)
    decreases i
  {
    if a == 0 || b == 0 {
      BitOfZero(i);
    } else if i > 0 {
      BitAndNot(a / 2, b / 2, i - 1);
    }
  }

  lemma {:induction false} BitPow2(p: nat, i: nat)
    ensures Bit(Pow2(p), i) == (if i == p then 1 else 0)
    decreases p
  {
    if p == 0 {
      if i > 0 { BitOfZero(i - 1); }
    } else if i > 0 {
      BitPow2(p - 1, i - 1);
    }
  }

  lemma {:induction false} BitAboveWidth(x: nat, k: nat, i: nat)
    requires x < Pow2(k) && i >= k
    ensures Bit(x, i) == 0
    decreases k
  {
    if k == 0 {
      BitOfZero(i);
    } else if i > 0 {
      BitAboveWidth(x / 2, k - 1, i - 1);
    }
  }

  lemma {:induction false} BelowFromBits(x: nat, k: nat)
    requires forall i: nat :: i >= k ==> Bit(x, i) == 0
    ensures x < Pow2(k)
    decreases k
  {
    if k == 0 {
      ZeroFromBits(x);
    } else {
      forall i: nat | i >= k - 1 ensures Bit(x / 2, i) == 0 {
        assert Bit(x, i + 1) == 0;
      }
      BelowFromBits(x / 2, k - 1);
    }
  }

  // ---------------------------------------------------------------- word-level facts

  lemma XorBelow(a: nat, b: nat, k: nat)
    requires a < Pow2(k) && b < Pow2(k)
    ensures Xor(a, b) < Pow2(k)
  {
    forall i: nat | i >= k ensures Bit(Xor(a, b), i) == 0 {
      BitXor(a, b, i);
      BitAboveWidth(a, k, i);
      BitAboveWidth(b, k, i);
    }
    BelowFromBits(Xor(a, b), k);
  }

  /** The recursive step of `Xor` holds for every pair, zero included. */
  lemma XorUnfold(a: nat, b: nat)
    ensures Xor(a, b) == 2 * Xor(a / 2, b / 2) + (if a % 2 != b % 2 then 1 else 0)
  {
    if a == 0 {
      XorZero(b / 2);
    } else if b == 0 {
      XorZero(a / 2);
    }
  }

  lemma XorSelf(a: nat)
    ensures Xor(a, a) == 0
  {}

  lemma XorZero(a: nat)
    ensures Xor(a, 0) == a && Xor(0, a) == a
  {}

  lemma XorComm(a: nat, b: nat)
    ensures Xor(a, b) == Xor(b, a)
  {
    forall i: nat ensures Bit(Xor(a, b), i) == Bit(Xor(b, a), i) {
      BitXor(a, b, i);
      BitXor(b, a, i);
    }
    BitsEqual(Xor(a, b), Xor(b, a));
  }

  lemma XorAssoc(a: nat, b: nat, c: nat)
    ensures Xor(Xor(a, b), c) == Xor(a, Xor(b, c))
  {
    forall i: nat ensures Bit(Xor(Xor(a, b), c), i) == Bit(Xor(a, Xor(b, c)), i) {
      BitXor(Xor(a, b), c, i);
      BitXor(a, b, i);
      BitXor(a, Xor(b, c), i);
      BitXor(b, c, i);
    }
    BitsEqual(Xor(Xor(a, b), c), Xor(a, Xor(b, c)));
  }

  /** `(a ^ b) ^ b == a` */
  lemma XorCancel(a: nat, b: nat)
    ensures Xor(Xor(a, b), b) == a
  {
    XorAssoc(a, b, b);
    XorSelf(b);
    XorZero(a);
  }

  lemma {:induction false} XorHalf(a: nat, b: nat)
    ensures Xor(a, b) / 2 == Xor(a / 2, b / 2)
  {
    if a == 0 { XorZero(b / 2); } else if b == 0 { XorZero(a / 2); }
  }

  /** `x & ((1 << k) - 1) == x` for `x < 2^k`. */
  lemma {:induction false} AndLowMask(x: nat, k: nat)
    requires x < Pow2(k)
    ensures And(x, Pow2(k) - 1) == x
    decreases k
  {
    if k > 0 && x > 0 {
      AndLowMask(x / 2, k - 1);
    }
  }

  /** `x & (x - 1) == 0` holds for a nonzero `x` exactly when `x` is a power of two. */
  lemma {:induction false} SingleBitIsPow2(x: nat)
    requires SingleBit(x)
    ensures exists p: nat :: x == Pow2(p)
    decreases x
  {
    if x % 2 == 1 {
      assert (x - 1) / 2 == x / 2;
      assert And(x / 2, x / 2) == 0;
      AndSelf(x / 2);
      assert x == Pow2(0);
    } else {
      assert (x - 1) / 2 == x / 2 - 1;
      assert And(x / 2, x / 2 - 1) == 0;
      SingleBitIsPow2(x / 2);
      var q: nat :| x / 2 == Pow2(q);
      assert x == Pow2(q + 1);
    }
  }

  lemma {:induction false} Pow2IsSingleBit(p: nat)
    ensures SingleBit(Pow2(p))
    decreases p
  {
    if p > 0 {
      Pow2IsSingleBit(p - 1);
      assert (Pow2(p) - 1) / 2 == Pow2(p - 1) - 1;
    }
  }

  lemma {:induction false} AndSelf(a: nat)
    ensures And(a, a) == a
  {
    if a > 0 { AndSelf(a / 2); }
  }

  /** Clearing a set bit lowers the population count by exactly one. */
  lemma {:induction false} PopCountClear(m: nat, p: nat)
    requires Bit(m, p) == 1
    ensures PopCount(AndNot(m, Pow2(p))) + 1 == PopCount(m)
    decreases p
  {
    if p == 0 {
      assert m % 2 == 1;
      assert PopCount(m) == 1 + PopCount(m / 2);
      assert AndNot(m / 2, 0) == m / 2;
      PopCountShift(AndNot(m, Pow2(p)), m / 2, 0);
    } else {
      PopCountClear(m / 2, p - 1);
      assert m / 2 != 0;
      assert PopCount(m) == m % 2 + PopCount(m / 2);
      var c := AndNot(m / 2, Pow2(p - 1));
      assert AndNot(m, Pow2(p)) == 2 * c + m % 2;
      PopCountShift(AndNot(m, Pow2(p)), c, m % 2);
    }
  }

  /** Shifting a bit in at the bottom adds that bit to the population count. */
  lemma PopCountShift(x: nat, y: nat, b: nat)
    requires b < 2 && x == 2 * y + b
    ensures PopCount(x) == b + PopCount(y)
  {
    assert x / 2 == y && x % 2 == b;
  }

  lemma {:induction false} PopCountBelow(x: nat, k: nat)
    requires x < Pow2(k)
    ensures PopCount(x) <= k
    decreases k
  {
    if k > 0 && x > 0 { PopCountBelow(x / 2, k - 1); }
  }

  lemma {:induction false} Pow2Add(a: nat, b: nat)
    ensures Pow2(a + b) == Pow2(a) * Pow2(b)
    decreases a
  {
    if a > 0 { Pow2Add(a - 1, b); }
  }

  lemma Pow2Word()
    ensures Pow2(32) == Word
  {
    assert Pow2(8) == 256;
    Pow2Add(8, 8);
    Pow2Add(16, 16);
  }

  // ---------------------------------------------------------------- shifts

  /** `x << k` without wrap-around. */
  function ShiftLeft(x: nat, k: nat): (r: nat)
    ensures x == 0 <==> r == 0
  {
    if k == 0 then x else 2 * ShiftLeft(x, k - 1)
  }

  /** `x >> k` */
  function ShiftRight(x: nat, k: nat): (r: nat)
    ensures r <= x
  {
    if k == 0 then x else ShiftRight(x / 2, k - 1)
  }

  /** The low `k` bits of `x`: `x & ((1 << k) - 1)`. */
  function LowBits(x: nat, k: nat): (r: nat)
    ensures r < Pow2(k)
  {
    if k == 0 then 0 else 2 * LowBits(x / 2, k - 1) + x % 2
  }

  /** Placing `r < 2^k` below `q` shifted left by `k`: the two parts come back out. */
  lemma {:induction false} SplitJoin(q: nat, r: nat, k: nat)
    requires r < Pow2(k)
    ensures ShiftRight(ShiftLeft(q, k) + r, k) == q
    ensures LowBits(ShiftLeft(q, k) + r, k) == r
    decreases k
  {
    if k > 0 {
      SplitJoin(q, r / 2, k - 1);
      assert (ShiftLeft(q, k) + r) / 2 == ShiftLeft(q, k - 1) + r / 2;
    }
  }

  /** Every number is its high part shifted back left plus its low part. */
  lemma {:induction false} JoinSplit(x: nat, k: nat)
    ensures ShiftLeft(ShiftRight(x, k), k) + LowBits(x, k) == x
    decreases k
  {
    if k > 0 {
      JoinSplit(x / 2, k - 1);
      ShiftLeftOfHalf(ShiftRight(x / 2, k - 1), k - 1);
    }
  }

  lemma {:induction false} ShiftLeftOfHalf(q: nat, k: nat)
    ensures ShiftLeft(q, k + 1) == 2 * ShiftLeft(q, k)
  {}

  lemma {:induction false} JoinBelow(q: nat, r: nat, j: nat, k: nat)
    requires q < Pow2(j) && r < Pow2(k)
    ensures ShiftLeft(q, k) + r < Pow2(j + k)
    decreases k
  {
    if k > 0 {
      JoinBelow(q, r / 2, j, k - 1);
      assert Pow2(j + k) == 2 * Pow2(j + k - 1);
    }
  }

  lemma {:induction false} ShiftRightBelow(x: nat, j: nat, k: nat)
    requires x < Pow2(j + k)
    ensures ShiftRight(x, k) < Pow2(j)
    decreases k
  {
    if k > 0 {
      assert Pow2(j + k) == 2 * Pow2(j + k - 1);
      ShiftRightBelow(x / 2, j, k - 1);
    }
  }

  lemma {:induction false} Pow2Monotone(j: nat, k: nat)
    requires j <= k
    ensures Pow2(j) <= Pow2(k)
    decreases k
  {
    if j < k { Pow2Monotone(j, k - 1); }
  }
}
