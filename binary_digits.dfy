/**
 * Fixed-length binary vectors, most significant digit first, as produced by
 * `number_to_binaryvector` and `GetMapBoolValue`, and their character form.
 */
module BinaryDigits {
  import opened Bits

  /** The low `len` bits of `code`, most significant first. */
  function Digits(code: nat, len: nat): (d: seq<nat>)
    ensures |d| == len
    ensures forall k :: 0 <= k < len ==> d[k] <= 1
  {
    if len == 0 then [] else Digits(code / 2, len - 1) + [code % 2]
  }

  predicate IsBinary(d: seq<nat>)
  {
    forall k :: 0 <= k < |d| ==> d[k] <= 1
  }

  /** The number a most-significant-first vector of binary digits denotes. */
  function Value(d: seq<nat>): nat
  {
    if d == [] then 0 else 2 * Value(d[..|d| - 1]) + d[|d| - 1]
  }

  /** The digits denote `code mod 2^len`. */
  lemma {:induction false} ValueOfDigits(code: nat, len: nat)
    ensures Value(Digits(code, len)) == LowBits(code, len)
  {
    if len > 0 {
      var d := Digits(code, len);
      assert d[..len - 1] == Digits(code / 2, len - 1);
      ValueOfDigits(code / 2, len - 1);
    }
  }

  /** Every binary vector is the digit vector of the number it denotes. */
  lemma {:induction false} DigitsOfValue(d: seq<nat>)
    requires IsBinary(d)
    ensures Digits(Value(d), |d|) == d
    decreases |d|
  {
    if d != [] {
      var init := d[..|d| - 1];
      DigitsOfValue(init);
      assert Value(d) / 2 == Value(init);
      assert d == init + [d[|d| - 1]];
    }
  }

  /** A vector of `k` binary digits denotes a number below `2^k`. */
  lemma {:induction false} ValueBelow(d: seq<nat>)
    requires IsBinary(d)
    ensures Value(d) < Pow2(|d|)
    decreases |d|
  {
    if d != [] {
      ValueBelow(d[..|d| - 1]);
    }
  }

  lemma LowBitsOfSmall(x: nat, k: nat)
    requires x < Pow2(k)
    ensures LowBits(x, k) == x
  {
    SplitJoin(0, x, k);
  }

  /** Numbers below `2^len` have distinct digit vectors. */
  lemma DigitsInjective(c1: nat, c2: nat, len: nat)
    requires c1 < Pow2(len) && c2 < Pow2(len)
    requires Digits(c1, len) == Digits(c2, len)
    ensures c1 == c2
  {
    ValueOfDigits(c1, len);
    ValueOfDigits(c2, len);
    LowBitsOfSmall(c1, len);
    LowBitsOfSmall(c2, len);
  }

  /** Digit `k` is bit `len - 1 - k` of the code. */
  lemma {:induction false} DigitAt(code: nat, len: nat, k: nat)
    requires k < len
    ensures Digits(code, len)[k] == Bit(code, len - 1 - k)
  {
    if k < len - 1 {
      DigitAt(code / 2, len - 1, k);
    }
  }

  lemma {:induction false} ShiftRightStep(x: nat, k: nat)
    ensures ShiftRight(x, k) / 2 == ShiftRight(x, k + 1)
  {
    if k > 0 {
      ShiftRightStep(x / 2, k - 1);
    }
  }

  /** One more digit in front: the next bit up, which a fill loop running from the end writes next. */
  lemma {:induction false} DigitsPrepend(code: nat, t: nat)
    ensures Digits(code, t + 1) == [ShiftRight(code, t) % 2] + Digits(code, t)
  {
    if t > 0 {
      DigitsPrepend(code / 2, t - 1);
    }
  }

  /** The character `'0' + d`. */
  function DigitChar(d: nat): char
    requires d <= 1
  {
    (('0' as int) + d) as char
  }

  /** A binary vector written as `'0'`/`'1'` characters. */
  function DigitString(d: seq<nat>): (s: string)
    requires IsBinary(d)
    ensures |s| == |d|
    ensures forall k :: 0 <= k < |d| ==> s[k] == DigitChar(d[k])
  {
    seq(|d|, k requires 0 <= k < |d| => DigitChar(d[k]))
  }

  lemma DigitStringPrepend(b: nat, d: seq<nat>)
    requires b <= 1 && IsBinary(d)
    ensures IsBinary([b] + d)
    ensures DigitString([b] + d) == [DigitChar(b)] + DigitString(d)
  {
  }

  /** The character form loses nothing: binary vectors with the same string are equal. */
  lemma DigitStringInjective(d1: seq<nat>, d2: seq<nat>)
    requires IsBinary(d1) && IsBinary(d2) && DigitString(d1) == DigitString(d2)
    ensures d1 == d2
  {
    assert |d1| == |d2|;
    forall k | 0 <= k < |d1| ensures d1[k] == d2[k] {
      assert DigitString(d1)[k] == DigitString(d2)[k];
    }
  }
}
