/**
 * The reflected binary (Gray) code and the two-dimensional layout of a Karnaugh map
 * built on it: the high `n / 2` address bits hold the Gray code of the row, the low
 * `(n + 1) / 2` bits the Gray code of the column.
 */
module GrayCode {
  import opened Bits

  /** `x ^ (x >> 1)` */
  function GrayEncode(x: nat): (g: nat)
    ensures g <= x + x / 2
  {
    Xor(x, x / 2)
  }

  /** The inverse of `GrayEncode`: the XOR of all right shifts of `g`. */
  function GrayDecode(g: nat): nat
  {
    if g == 0 then 0 else Xor(g, GrayDecode(g / 2))
  }

  lemma GrayEncodeHalf(x: nat)
    ensures GrayEncode(x) / 2 == GrayEncode(x / 2)
  {
    XorHalf(x, x / 2);
  }

  lemma {:induction false} GrayDecodeHalf(g: nat)
    ensures GrayDecode(g) / 2 == GrayDecode(g / 2)
    decreases g
  {
    if g != 0 {
      XorHalf(g, GrayDecode(g / 2));
      GrayDecodeHalf(g / 2);
      if g / 2 == 0 {
        assert GrayDecode(g / 2) == 0;
        XorZero(0);
      }
    }
  }

  lemma {:induction false} GrayRoundTrip(x: nat)
    ensures GrayDecode(GrayEncode(x)) == x
    decreases x
  {
    var g := GrayEncode(x);
    if g == 0 {
      // x ^ (x >> 1) == 0 forces x == x >> 1, so x == 0
      XorCancel(x, x / 2);
      XorZero(x / 2);
    } else {
      GrayEncodeHalf(x);
      GrayRoundTrip(x / 2);
      assert GrayDecode(g) == Xor(g, x / 2);
      XorCancel(x, x / 2);
    }
  }

  lemma {:induction false} GrayEncodeOfDecode(g: nat)
    ensures GrayEncode(GrayDecode(g)) == g
    decreases g
  {
    if g != 0 {
      var d := GrayDecode(g);
      GrayDecodeHalf(g);
      assert GrayEncode(d) == Xor(Xor(g, GrayDecode(g / 2)), GrayDecode(g / 2));
      XorCancel(g, GrayDecode(g / 2));
    }
  }

  lemma GrayInjective(x: nat, y: nat)
    requires GrayEncode(x) == GrayEncode(y)
    ensures x == y
  {
    GrayRoundTrip(x);
    GrayRoundTrip(y);
  }

  lemma {:induction false} GrayBelow(x: nat, k: nat)
    requires x < Pow2(k)
    ensures GrayEncode(x) < Pow2(k)
  {
    XorBelow(x, x / 2, k);
  }

  lemma GrayDecodeBelow(g: nat, k: nat)
    requires g < Pow2(k)
    ensures GrayDecode(g) < Pow2(k)
  {
    if GrayDecode(g) >= Pow2(k) {
      GrayEncodeOfDecode(g);
      GrayAbove(GrayDecode(g), k);
    }
  }

  lemma {:induction false} GrayAbove(x: nat, k: nat)
    requires x >= Pow2(k)
    ensures GrayEncode(x) >= Pow2(k)
    decreases k
  {
    if k == 0 {
      GrayRoundTrip(x);
    } else {
      GrayAbove(x / 2, k - 1);
      GrayEncodeHalf(x);
    }
  }

  /** The number of trailing one bits of `x`: the bit that flips when counting up from `x`. */
  function TrailingOnes(x: nat): nat
  {
    if x % 2 == 1 then 1 + TrailingOnes(x / 2) else 0
  }

  /** Consecutive numbers have Gray codes differing in exactly one bit, bit `TrailingOnes(x)`. */
  lemma {:induction false} GrayAdjacent(x: nat)
    ensures Xor(GrayEncode(x), GrayEncode(x + 1)) == Pow2(TrailingOnes(x))
    decreases x
  {
    var g1, g2 := GrayEncode(x), GrayEncode(x + 1);
    GrayEncodeHalf(x);
    GrayLowBit(x);
    var h := x / 2;
    if x % 2 == 0 {
      GrayEncodeHalf(x + 1);
      assert (x + 1) / 2 == h;
      XorLowOnly(g1, g2);
    } else {
      var k := TrailingOnes(h);
      GrayAdjacent(h);
      GrayEncodeNextHalf(x);
      XorHalves(g1, g2, k);
    }
  }

  /** Numbers that agree above bit 0 and differ in bit 0 XOR to 1. */
  lemma XorLowOnly(a: nat, b: nat)
    requires a / 2 == b / 2 && a % 2 != b % 2
    ensures Xor(a, b) == 1
  {
    XorUnfold(a, b);
    XorSelf(a / 2);
  }

  /** Numbers that agree in bit 0 XOR to twice the XOR of their halves. */
  lemma XorHalves(a: nat, b: nat, k: nat)
    requires a % 2 == b % 2 && Xor(a / 2, b / 2) == Pow2(k)
    ensures Xor(a, b) == Pow2(k + 1)
  {
    XorUnfold(a, b);
  }

  /** For odd `x`, halving the Gray code of `x + 1` gives the Gray code of `x / 2 + 1`. */
  lemma GrayEncodeNextHalf(x: nat)
    requires x % 2 == 1
    ensures GrayEncode(x + 1) / 2 == GrayEncode(x / 2 + 1)
  {
    var y := x + 1;
    assert y / 2 == x / 2 + 1;
    GrayEncodeHalf(y);
  }

  /** The lowest Gray bit flips between `x` and `x + 1` exactly when `x` is even. */
  lemma GrayLowBit(x: nat)
    ensures (GrayEncode(x) % 2 != GrayEncode(x + 1) % 2) <==> x % 2 == 0
  {
    GrayLow(x);
    GrayLow(x + 1);
    var h := x / 2;
    if x % 2 == 0 {
      assert (x + 1) / 2 == h && (x + 1) % 2 == 1;
    } else {
      assert (x + 1) / 2 == h + 1 && (x + 1) % 2 == 0;
    }
  }

  /** The lowest Gray bit is the XOR of the two lowest bits. */
  lemma GrayLow(x: nat)
    ensures GrayEncode(x) % 2 == (if x % 2 != (x / 2) % 2 then 1 else 0)
  {
    XorUnfold(x, x / 2);
  }

  // ---------------------------------------------------------------- map layout

  function RowBits(n: nat): nat { n / 2 }
  function ColBits(n: nat): nat { (n + 1) / 2 }

  /** The map of `n` inputs has `2^(n / 2)` rows and `2^((n + 1) / 2)` columns. */
  predicate InGrid(n: nat, row: nat, col: nat)
  {
    row < Pow2(RowBits(n)) && col < Pow2(ColBits(n))
  }

  /**
   * The address of cell (row, col): `(GrayEncode(row) << ((n + 1) / 2)) + GrayEncode(col)`
   * in 32-bit unsigned arithmetic: the shift and the sum wrap modulo 2^32, which is the
   * same as wrapping once at the end (a shift by 32 or more is undefined in C++ and excluded).
   */
  function CellAddress(n: nat, row: nat, col: nat): (a: U32)
    requires ColBits(n) < 32
  {
    (ShiftLeft(GrayEncode(row), ColBits(n)) + GrayEncode(col)) % Word
  }

  /** The row of address `a`: decode its high bits. */
  function GridRow(n: nat, a: nat): nat
  {
    GrayDecode(ShiftRight(a, ColBits(n)))
  }

  /** The column of address `a`: decode its low `(n + 1) / 2` bits. */
  function GridCol(n: nat, a: nat): nat
  {
    GrayDecode(LowBits(a, ColBits(n)))
  }

  /** Within the grid, the high bits of the address are the row's Gray code. */
  lemma CellAddressRowPart(n: nat, row: nat, col: nat)
    requires n <= 32 && InGrid(n, row, col)
    ensures ShiftRight(CellAddress(n, row, col), ColBits(n)) == GrayEncode(row)
  {
    CellAddressJoin(n, row, col);
    GrayBelow(col, ColBits(n));
    SplitJoin(GrayEncode(row), GrayEncode(col), ColBits(n));
  }

  /** Within the grid, the low `(n + 1) / 2` bits of the address are the column's Gray code. */
  lemma CellAddressColPart(n: nat, row: nat, col: nat)
    requires n <= 32 && InGrid(n, row, col)
    ensures LowBits(CellAddress(n, row, col), ColBits(n)) == GrayEncode(col)
  {
    CellAddressJoin(n, row, col);
    GrayBelow(col, ColBits(n));
    SplitJoin(GrayEncode(row), GrayEncode(col), ColBits(n));
  }

  /**
   * Within the grid of a map of at most 32 inputs the address does not wrap: it is the row's
   * Gray code shifted over the column's, and it lies below `2^n`.
   */
  lemma CellAddressJoin(n: nat, row: nat, col: nat)
    requires n <= 32 && InGrid(n, row, col)
    ensures CellAddress(n, row, col) == ShiftLeft(GrayEncode(row), ColBits(n)) + GrayEncode(col)
    ensures CellAddress(n, row, col) < Pow2(n)
  {
    GrayBelow(row, RowBits(n));
    GrayBelow(col, ColBits(n));
    JoinFits(n, GrayEncode(row), GrayEncode(col));
    CellAddressNoWrap(n, row, col);
  }

  /** A row part and a column part of a map of at most 32 inputs join below `2^n <= 2^32`. */
  lemma JoinFits(n: nat, high: nat, low: nat)
    requires n <= 32 && high < Pow2(RowBits(n)) && low < Pow2(ColBits(n))
    ensures ShiftLeft(high, ColBits(n)) + low < Pow2(n) <= Word
  {
    assert RowBits(n) + ColBits(n) == n;
    JoinBelow(high, low, RowBits(n), ColBits(n));
    Pow2Monotone(n, 32);
    Pow2Word();
  }

  lemma CellAddressNoWrap(n: nat, row: nat, col: nat)
    requires ColBits(n) < 32
    requires ShiftLeft(GrayEncode(row), ColBits(n)) + GrayEncode(col) < Word
    ensures CellAddress(n, row, col) == ShiftLeft(GrayEncode(row), ColBits(n)) + GrayEncode(col)
  {
  }

  /** Every cell of the grid is recovered from its address. */
  lemma GridOfAddress(n: nat, row: nat, col: nat)
    requires n <= 32 && InGrid(n, row, col)
    ensures GridRow(n, CellAddress(n, row, col)) == row
    ensures GridCol(n, CellAddress(n, row, col)) == col
  {
    CellAddressRowPart(n, row, col);
    CellAddressColPart(n, row, col);
    GrayRoundTrip(row);
    GrayRoundTrip(col);
  }

  lemma RowPartBelow(n: nat, a: nat)
    requires a < Pow2(n)
    ensures ShiftRight(a, ColBits(n)) < Pow2(RowBits(n))
  {
    assert RowBits(n) + ColBits(n) == n;
    ShiftRightBelow(a, RowBits(n), ColBits(n));
  }

  /** Every address below `2^n` decodes to a cell of the grid. */
  lemma AddressInGrid(n: nat, a: nat)
    requires a < Pow2(n)
    ensures InGrid(n, GridRow(n, a), GridCol(n, a))
  {
    RowPartBelow(n, a);
    GrayDecodeBelow(ShiftRight(a, ColBits(n)), RowBits(n));
    GrayDecodeBelow(LowBits(a, ColBits(n)), ColBits(n));
  }

  /** Every address below `2^n` is the address of the cell it decodes to. */
  lemma AddressOfGrid(n: nat, a: nat)
    requires n <= 32 && a < Pow2(n)
    ensures InGrid(n, GridRow(n, a), GridCol(n, a))
    ensures CellAddress(n, GridRow(n, a), GridCol(n, a)) == a
  {
    AddressInGrid(n, a);
    GrayEncodeOfDecode(ShiftRight(a, ColBits(n)));
    GrayEncodeOfDecode(LowBits(a, ColBits(n)));
    CellAddressJoin(n, GridRow(n, a), GridCol(n, a));
    JoinSplit(a, ColBits(n));
  }

  /** Distinct cells of the grid have distinct addresses. */
  lemma CellAddressInjective(n: nat, r1: nat, c1: nat, r2: nat, c2: nat)
    requires n <= 32 && InGrid(n, r1, c1) && InGrid(n, r2, c2)
    requires CellAddress(n, r1, c1) == CellAddress(n, r2, c2)
    ensures r1 == r2 && c1 == c2
  {
    GridOfAddress(n, r1, c1);
    GridOfAddress(n, r2, c2);
  }
}
