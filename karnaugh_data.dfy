/**
 * The current minimisation engine: a 256-cell truth table with an input count and a
 * solution mode, the Gray-code arithmetic between table addresses and map cells, the
 * map's axis labels, the reduction pass over solution entries and the search over
 * don't-care assignments.
 */
module DataEngine {
  import opened Bits
  import opened GrayCode
  import opened BinaryDigits
  import opened SolutionEntries
  import opened Reduction

  datatype CellValue = Zero | One | DontCare

  /** Sum of products (cover the ones) or product of sums (cover the zeros). */
  datatype SolutionType = SOP | POS

  /** The table always has room for eight inputs. */
  const TableSize: nat := 256

  /** `(unsigned int) -1`, returned when no cell has the address. */
  const NotFound: U32 := 0xFFFF_FFFF

  /** Up to this input count both `int` shifts `1 << (n / 2)` and `1 << ((n + 1) / 2)` are defined. */
  const MaxGridInputs: nat := 62

  /**
   * `1 << k` on an `int`, as a loop bound: `2^k` below 31; at 31 the shift gives a negative
   * value, so a loop `i < (1 << k)` from 0 runs zero times.
   */
  function LoopBound(k: nat): (b: nat)
    requires k < 32
    ensures b < 0x8000_0000
    ensures b == 0 <==> k == 31
  {
    if k < 31 then
      Pow2Monotone(k, 30);
      Pow2Word();
      assert Pow2(32) == 2 * Pow2(31) && Pow2(31) == 2 * Pow2(30);
      Pow2(k)
    else 0
  }

  /** Cell (r1, c1) comes before cell (r2, c2) in row-major order. */
  predicate Precedes(r1: nat, c1: nat, r2: nat, c2: nat)
  {
    r1 < r2 || (r1 == r2 && c1 < c2)
  }

  /**
   * Cell (row, col) is visited by the source's row and column loops, whose `int` bounds are
   * `1 << (n / 2)` and `1 << ((n + 1) / 2)`.
   */
  predicate Scanned(n: nat, row: nat, col: nat)
    requires ColBits(n) < 32
  {
    row < LoopBound(RowBits(n)) && col < LoopBound(ColBits(n))
  }

  /** Below 61 inputs the loops visit exactly the cells of the grid. */
  lemma ScannedIsGrid(n: nat, row: nat, col: nat)
    requires n <= 60
    ensures Scanned(n, row, col) <==> InGrid(n, row, col)
  {
  }

  /** (row, col) is the first visited cell, in row-major order, whose address is `address`. */
  ghost predicate FirstMatch(n: nat, address: nat, row: nat, col: nat)
    requires ColBits(n) < 32
  {
    Scanned(n, row, col) && CellAddress(n, row, col) == address &&
    forall r, c :: Scanned(n, r, c) && Precedes(r, c, row, col) ==> CellAddress(n, r, c) != address
  }

  /** No visited cell has address `address`. */
  ghost predicate NoMatch(n: nat, address: nat)
    requires ColBits(n) < 32
  {
    forall r, c :: Scanned(n, r, c) ==> CellAddress(n, r, c) != address
  }

  /** For a map of at most 32 inputs the first matching cell is the decoded cell. */
  lemma FirstMatchIsDecoded(n: nat, address: nat, row: nat, col: nat)
    requires n <= 32 && FirstMatch(n, address, row, col)
    ensures address < Pow2(n) && row == GridRow(n, address) && col == GridCol(n, address)
  {
    ScannedIsGrid(n, row, col);
    GridOfAddress(n, row, col);
    CellAddressJoin(n, row, col);
  }

  /** For a map of at most 32 inputs exactly the addresses from `2^n` up match no cell. */
  lemma NoMatchIsAbove(n: nat, address: nat)
    requires n <= 32 && NoMatch(n, address)
    ensures address >= Pow2(n)
  {
    if address < Pow2(n) {
      AddressOfGrid(n, address);
      ScannedIsGrid(n, GridRow(n, address), GridCol(n, address));
    }
  }

  /** A row or column label: the Gray code of `index` as `length` binary characters (at least one). */
  function GrayLabel(index: nat, length: nat): (s: string)
    ensures |s| == if length == 0 then 1 else length
  {
    DigitString(Digits(GrayEncode(index), if length == 0 then 1 else length))
  }

  /** Distinct indices below `2^length` get distinct labels. */
  lemma GrayLabelsDistinct(x: nat, y: nat, length: nat)
    requires x < Pow2(length) && y < Pow2(length) && x != y
    ensures GrayLabel(x, length) != GrayLabel(y, length)
  {
    var len := if length == 0 then 1 else length;
    Pow2Monotone(length, len);
    GrayBelow(x, len);
    GrayBelow(y, len);
    if GrayLabel(x, length) == GrayLabel(y, length) {
      DigitStringInjective(Digits(GrayEncode(x), len), Digits(GrayEncode(y), len));
      DigitsInjective(GrayEncode(x), GrayEncode(y), len);
      GrayInjective(x, y);
    }
  }

  /** Neighbouring labels differ in exactly one character. */
  lemma GrayLabelsAdjacent(x: nat, length: nat)
    requires x + 1 < Pow2(length)
    ensures TrailingOnes(x) < length
    ensures forall k :: 0 <= k < length ==>
      (GrayLabel(x, length)[k] != GrayLabel(x + 1, length)[k] <==> k == length - 1 - TrailingOnes(x))
  {
    var g1, g2 := GrayEncode(x), GrayEncode(x + 1);
    var t := TrailingOnes(x);
    GrayAdjacent(x);
    GrayBelow(x, length);
    GrayBelow(x + 1, length);
    XorBelow(g1, g2, length);
    if t >= length {
      Pow2Monotone(length, t);
    }
    forall k | 0 <= k < length
      ensures GrayLabel(x, length)[k] != GrayLabel(x + 1, length)[k] <==> k == length - 1 - t
    {
      LabelsDifferAt(x, length, t, k);
    }
  }

  /** Character `k` of neighbouring labels differs exactly at the one bit their codes differ in. */
  lemma LabelsDifferAt(x: nat, length: nat, t: nat, k: nat)
    requires k < length && Xor(GrayEncode(x), GrayEncode(x + 1)) == Pow2(t)
    ensures GrayLabel(x, length)[k] != GrayLabel(x + 1, length)[k] <==> k == length - 1 - t
  {
    var g1, g2 := GrayEncode(x), GrayEncode(x + 1);
    DigitAt(g1, length, k);
    DigitAt(g2, length, k);
    BitXor(g1, g2, length - 1 - k);
    BitPow2(t, length - 1 - k);
  }

  /** Writing digit `b` just before the filled tail of a `'0'`-initialised string. */
  lemma FillStep(i: nat, b: nat, tail: string, result: string)
    requires i > 0 && b <= 1
    requires result == (seq(i, _ => '0') + tail)[i - 1 := (('0' as int) + b) as char]
    ensures result == seq(i - 1, _ => '0') + ([DigitChar(b)] + tail)
  {
    assert result == seq(i - 1, _ => '0') + ([DigitChar(b)] + tail);
  }

  // ----- the search over don't-care assignments, on a snapshot of the table -----

  /** Eight inputs fill the table. */
  lemma SmallTable(n: nat)
    requires n <= 8
    ensures Pow2(n) <= TableSize
  {
    Pow2Monotone(n, 8);
    assert Pow2(8) == 256;
  }

  /** `(1 << n) - 1`: every input is fixed. */
  function FullMask(n: nat): (m: U32)
    requires n <= 8
    ensures m + 1 == Pow2(n) && Pow2(n) <= TableSize
  {
    SmallTable(n);
    Pow2(n) - 1
  }

  /** The cell value the solution covers: ONE in SOP form, ZERO in POS form. */
  function Target(solutionType: SolutionType): CellValue
  {
    if solutionType == POS then Zero else One
  }

  /** One entry with the full mask per target cell below `k`, in ascending address order. */
  function SeedsBelow(cells: seq<CellValue>, n: nat, solutionType: SolutionType, k: nat): seq<SolutionEntry>
    requires n <= 8 && k <= |cells| && k <= TableSize
  {
    if k == 0 then []
    else
      SeedsBelow(cells, n, solutionType, k - 1)
      + (if cells[k - 1] == Target(solutionType) then [NewEntry(FullMask(n), k - 1)] else [])
  }

  /** The don't-care addresses below `k`, ascending. */
  function DontCaresBelow(cells: seq<CellValue>, k: nat): (d: seq<U32>)
    requires k <= |cells| && k <= TableSize
    ensures |d| <= k
  {
    if k == 0 then []
    else DontCaresBelow(cells, k - 1) + (if cells[k - 1] == DontCare then [k - 1] else [])
  }

  /** The seeds of every scenario; in POS form with no ZERO cell, the single entry (0, 0). */
  function InitialSeeds(cells: seq<CellValue>, n: nat, solutionType: SolutionType): seq<SolutionEntry>
    requires n <= 8 && |cells| == TableSize
  {
    SmallTable(n);
    var seeds := SeedsBelow(cells, n, solutionType, Pow2(n));
    if seeds == [] && solutionType == POS then [NewEntry(0, 0)] else seeds
  }

  /** The POS special case: no ZERO cell, so the seed is the entry covering every address. */
  predicate WholeTableSeed(cells: seq<CellValue>, n: nat, solutionType: SolutionType)
    requires n <= 8 && |cells| == TableSize
  {
    SmallTable(n);
    solutionType == POS && SeedsBelow(cells, n, solutionType, Pow2(n)) == []
  }

  function DontCares(cells: seq<CellValue>, n: nat): seq<U32>
    requires n <= 8 && |cells| == TableSize
  {
    SmallTable(n);
    DontCaresBelow(cells, Pow2(n))
  }

  /** The don't-care entries among the first `k` whose digit is nonzero, in order. */
  function Selected(dontcares: seq<U32>, digits: seq<nat>, mask: U32, k: nat): seq<SolutionEntry>
    requires k <= |dontcares| && k <= |digits|
  {
    if k == 0 then []
    else
      Selected(dontcares, digits, mask, k - 1)
      + (if digits[k - 1] != 0 then [NewEntry(mask, dontcares[k - 1])] else [])
  }

  /** The binary vector of a scenario number over the don't-cares (at least one digit). */
  function ScenarioDigits(scenario: nat, count: nat): (d: seq<nat>)
    ensures |d| >= count
  {
    Digits(scenario, if count == 0 then 1 else count)
  }

  /** The list scenario `s` reduces: the seeds plus the don't-cares its digits select. */
  function ScenarioList(cells: seq<CellValue>, n: nat, solutionType: SolutionType, s: nat): seq<SolutionEntry>
    requires n <= 8 && |cells| == TableSize
  {
    var dontcares := DontCares(cells, n);
    InitialSeeds(cells, n, solutionType)
      + Selected(dontcares, ScenarioDigits(s, |dontcares|), FullMask(n), |dontcares|)
  }

  /** The best list: replaced when it is empty or a later list is strictly shorter. */
  function SelectBest(results: seq<seq<SolutionEntry>>): seq<SolutionEntry>
  {
    if results == [] then []
    else
      var best := SelectBest(results[..|results| - 1]);
      var candidate := results[|results| - 1];
      if best == [] || |candidate| < |best| then candidate else best
  }

  /** What the reduction pass promises about its output. */
  ghost predicate Reduces(input: seq<SolutionEntry>, output: seq<SolutionEntry>)
  {
    NoneDeleted(output) &&
    (AllWellFormed(input) ==> AllWellFormed(output) && forall a: nat :: CoveredBy(output, a) ==> CoveredBy(input, a)) &&
    (AllWellFormed(input) && NoneDeleted(input) ==> forall a: nat :: CoveredBy(input, a) ==> CoveredBy(output, a)) &&
    (SameLevel(input) ==> Irreducible(output))
  }

  // ----- properties of the search -----

  /** A full-mask entry for an address inside the map covers exactly that address there. */
  lemma SeedCovers(n: nat, b: nat, a: nat)
    requires n <= 8 && b < Pow2(n) && a < Pow2(n)
    ensures NewEntry(FullMask(n), b).WellFormed()
    ensures NewEntry(FullMask(n), b).Covers(a) <==> a == b
  {
    AndLowMask(a, n);
    AndLowMask(b, n);
    AndIsSubMask(b, FullMask(n));
  }

  /** The seeds are exactly the full-mask entries of the target cells, in ascending address order. */
  lemma {:induction false} SeedsBelowSpec(cells: seq<CellValue>, n: nat, solutionType: SolutionType, k: nat)
    requires n <= 8 && k <= |cells| && k <= TableSize
    ensures forall a: nat :: a < k ==>
      (NewEntry(FullMask(n), a) in SeedsBelow(cells, n, solutionType, k) <==> cells[a] == Target(solutionType))
    ensures forall e :: e in SeedsBelow(cells, n, solutionType, k) ==>
      e.mask == FullMask(n) && !e.IsDeleted() && e.number < k
    ensures forall p, q :: 0 <= p < q < |SeedsBelow(cells, n, solutionType, k)| ==>
      SeedsBelow(cells, n, solutionType, k)[p].number < SeedsBelow(cells, n, solutionType, k)[q].number
  {
    SmallTable(n);
    if k > 0 {
      SeedsBelowSpec(cells, n, solutionType, k - 1);
      var prev := SeedsBelow(cells, n, solutionType, k - 1);
      forall p | 0 <= p < |prev| ensures prev[p].number < k - 1 {
        assert prev[p] in prev;
      }
    }
  }

  /** The collected don't-cares are exactly the DONTCARE addresses, ascending. */
  lemma {:induction false} DontCaresBelowSpec(cells: seq<CellValue>, k: nat)
    requires k <= |cells| && k <= TableSize
    ensures forall a: nat :: a in DontCaresBelow(cells, k) <==> a < k && cells[a] == DontCare
    ensures forall p, q :: 0 <= p < q < |DontCaresBelow(cells, k)| ==>
      DontCaresBelow(cells, k)[p] < DontCaresBelow(cells, k)[q]
  {
    if k > 0 {
      DontCaresBelowSpec(cells, k - 1);
      var prev := DontCaresBelow(cells, k - 1);
      forall p | 0 <= p < |prev| ensures prev[p] < k - 1 {
        assert prev[p] in prev;
      }
    }
  }

  /** The selected entries are those of the don't-cares whose digit is nonzero. */
  lemma {:induction false} SelectedMembers(dontcares: seq<U32>, digits: seq<nat>, mask: U32, k: nat)
    requires k <= |dontcares| && k <= |digits|
    ensures forall e :: e in Selected(dontcares, digits, mask, k) <==>
      exists i :: 0 <= i < k && digits[i] != 0 && e == NewEntry(mask, dontcares[i])
  {
    if k > 0 {
      SelectedMembers(dontcares, digits, mask, k - 1);
    }
  }

  /** Scenario `s` selects don't-care `i` exactly when bit `d - 1 - i` of `s` is set (most significant first). */
  lemma ScenarioPicksByBit(cells: seq<CellValue>, n: nat, s: nat, i: nat)
    requires n <= 8 && |cells| == TableSize && i < |DontCares(cells, n)|
    ensures NewEntry(FullMask(n), DontCares(cells, n)[i])
      in Selected(DontCares(cells, n), ScenarioDigits(s, |DontCares(cells, n)|), FullMask(n), |DontCares(cells, n)|)
      <==> Bit(s, |DontCares(cells, n)| - 1 - i) == 1
  {
    SmallTable(n);
    var dontcares := DontCares(cells, n);
    var digits := ScenarioDigits(s, |dontcares|);
    var e := NewEntry(FullMask(n), dontcares[i]);
    DontCaresBelowSpec(cells, Pow2(n));
    SelectedMembers(dontcares, digits, FullMask(n), |dontcares|);
    DigitAt(s, |dontcares|, i);
  }

  /** Every scenario list is made of fresh, well-formed entries. */
  lemma ScenarioWellFormed(cells: seq<CellValue>, n: nat, solutionType: SolutionType, s: nat)
    requires n <= 8 && |cells| == TableSize
    ensures AllWellFormed(ScenarioList(cells, n, solutionType, s))
    ensures NoneDeleted(ScenarioList(cells, n, solutionType, s))
  {
    SmallTable(n);
    var list := ScenarioList(cells, n, solutionType, s);
    var dontcares := DontCares(cells, n);
    var seeds := InitialSeeds(cells, n, solutionType);
    var digits := ScenarioDigits(s, |dontcares|);
    SeedsBelowSpec(cells, n, solutionType, Pow2(n));
    DontCaresBelowSpec(cells, Pow2(n));
    SelectedMembers(dontcares, digits, FullMask(n), |dontcares|);
    forall k | 0 <= k < |list| ensures list[k].WellFormed() && !list[k].IsDeleted() {
      if k < |seeds| {
        assert list[k] in seeds;
        if list[k] != NewEntry(0, 0) {
          assert list[k] in SeedsBelow(cells, n, solutionType, Pow2(n));
          SeedCovers(n, list[k].number, 0);
        }
      } else {
        assert list[k] in Selected(dontcares, digits, FullMask(n), |dontcares|);
        var i :| 0 <= i < |dontcares| && digits[i] != 0 && list[k] == NewEntry(FullMask(n), dontcares[i]);
        assert dontcares[i] in dontcares;
        SeedCovers(n, dontcares[i], 0);
      }
    }
  }

  /** Outside the POS special case every scenario entry is a single address, so all share one level. */
  lemma ScenarioSameLevel(cells: seq<CellValue>, n: nat, solutionType: SolutionType, s: nat)
    requires n <= 8 && |cells| == TableSize
    ensures !WholeTableSeed(cells, n, solutionType) ==>
      forall k :: 0 <= k < |ScenarioList(cells, n, solutionType, s)| ==>
        ScenarioList(cells, n, solutionType, s)[k].mask == FullMask(n)
    ensures !WholeTableSeed(cells, n, solutionType) ==> SameLevel(ScenarioList(cells, n, solutionType, s))
  {
    SmallTable(n);
    var list := ScenarioList(cells, n, solutionType, s);
    var dontcares := DontCares(cells, n);
    var seeds := InitialSeeds(cells, n, solutionType);
    var digits := ScenarioDigits(s, |dontcares|);
    if !WholeTableSeed(cells, n, solutionType) {
      SeedsBelowSpec(cells, n, solutionType, Pow2(n));
      SelectedMembers(dontcares, digits, FullMask(n), |dontcares|);
      forall k | 0 <= k < |list| ensures list[k].mask == FullMask(n) {
        if k < |seeds| {
          assert list[k] in SeedsBelow(cells, n, solutionType, Pow2(n));
        } else {
          assert list[k] in Selected(dontcares, digits, FullMask(n), |dontcares|);
        }
      }
    }
  }

  /** Every target cell is covered by the list of every scenario. */
  lemma ScenarioCoversTargets(cells: seq<CellValue>, n: nat, solutionType: SolutionType, s: nat, a: nat)
    requires n <= 8 && |cells| == TableSize && a <= FullMask(n) && cells[a] == Target(solutionType)
    ensures CoveredBy(ScenarioList(cells, n, solutionType, s), a)
  {
    SmallTable(n);
    var e := NewEntry(FullMask(n), a);
    SeedsBelowSpec(cells, n, solutionType, Pow2(n));
    SeedCovers(n, a, a);
    var list := ScenarioList(cells, n, solutionType, s);
    assert e in InitialSeeds(cells, n, solutionType);
    assert e in list;
    var k :| 0 <= k < |list| && list[k] == e;
  }

  /**
   * Inside the map, a scenario list covers only target and don't-care cells, unless the
   * POS special case seeded the whole-table entry.
   */
  lemma ScenarioCoversOnly(cells: seq<CellValue>, n: nat, solutionType: SolutionType, s: nat, a: nat)
    requires n <= 8 && |cells| == TableSize && a <= FullMask(n)
    requires !WholeTableSeed(cells, n, solutionType)
    requires CoveredBy(ScenarioList(cells, n, solutionType, s), a)
    ensures cells[a] == Target(solutionType) || cells[a] == DontCare
  {
    SmallTable(n);
    var list := ScenarioList(cells, n, solutionType, s);
    var dontcares := DontCares(cells, n);
    var seeds := InitialSeeds(cells, n, solutionType);
    var digits := ScenarioDigits(s, |dontcares|);
    var k :| 0 <= k < |list| && list[k].Covers(a);
    SeedsBelowSpec(cells, n, solutionType, Pow2(n));
    DontCaresBelowSpec(cells, Pow2(n));
    if k < |seeds| {
      assert list[k] in SeedsBelow(cells, n, solutionType, Pow2(n));
      SeedCovers(n, list[k].number, a);
      assert NewEntry(FullMask(n), list[k].number) == list[k];
    } else {
      SelectedMembers(dontcares, digits, FullMask(n), |dontcares|);
      assert list[k] in Selected(dontcares, digits, FullMask(n), |dontcares|);
      var i :| 0 <= i < |dontcares| && digits[i] != 0 && list[k] == NewEntry(FullMask(n), dontcares[i]);
      assert dontcares[i] in dontcares;
      SeedCovers(n, dontcares[i], a);
    }
  }

  /** The best list is one of the results, or empty when there are none. */
  lemma {:induction false} SelectBestMember(results: seq<seq<SolutionEntry>>)
    requires results != []
    ensures exists k :: 0 <= k < |results| && SelectBest(results) == results[k]
  {
    if |results| > 1 {
      SelectBestMember(results[..|results| - 1]);
      var k :| 0 <= k < |results| - 1 && SelectBest(results[..|results| - 1]) == results[..|results| - 1][k];
    } else {
      assert results[..|results| - 1] == [];
      assert SelectBest(results) == results[0];
    }
  }

  /** Result `m` is non-empty, no non-empty result is shorter, and every earlier non-empty one is longer. */
  ghost predicate FirstShortest(results: seq<seq<SolutionEntry>>, m: nat)
  {
    m < |results| && results[m] != [] &&
    forall k :: 0 <= k < |results| && results[k] != [] ==>
      |results[m]| <= |results[k]| && (k < m ==> |results[m]| < |results[k]|)
  }

  /**
   * When only the first result can be empty, the best list is the first shortest non-empty
   * result, and it is empty only when every result is.
   */
  lemma {:induction false} SelectBestRule(results: seq<seq<SolutionEntry>>)
    requires forall k :: 1 <= k < |results| ==> results[k] != []
    ensures SelectBest(results) == [] <==> forall k :: 0 <= k < |results| ==> results[k] == []
    ensures SelectBest(results) != [] ==> exists m: nat :: FirstShortest(results, m) && SelectBest(results) == results[m]
  {
    if results != [] {
      var init := results[..|results| - 1];
      var r := results[|results| - 1];
      SelectBestRule(init);
      var b := SelectBest(init);
      assert forall k :: 0 <= k < |init| ==> init[k] == results[k];
      if b == [] || |r| < |b| {
        if |results| > 1 {
          assert r != [];
        }
        if r != [] {
          assert FirstShortest(results, |results| - 1) by {
            forall k | 0 <= k < |results| - 1 && results[k] != [] ensures |r| < |results[k]| {
              assert init[k] != [];
              var m: nat :| FirstShortest(init, m) && b == init[m];
            }
          }
        }
      } else {
        var m: nat :| FirstShortest(init, m) && b == init[m];
        assert FirstShortest(results, m);
      }
    }
  }

  /** Every scenario after the first selects at least one don't-care, so its list is not empty. */
  lemma LaterScenarioNonEmpty(cells: seq<CellValue>, n: nat, solutionType: SolutionType, s: nat, reduced: seq<SolutionEntry>)
    requires n <= 8 && |cells| == TableSize && 1 <= s < Pow2(|DontCares(cells, n)|)
    requires Reduces(ScenarioList(cells, n, solutionType, s), reduced)
    ensures reduced != []
  {
    SmallTable(n);
    var dontcares := DontCares(cells, n);
    var d := |dontcares|;
    var digits := ScenarioDigits(s, d);
    // some digit is 1, since the digits denote s itself
    ValueOfDigits(s, d);
    LowBitsOfSmall(s, d);
    var i := SomeNonZeroDigit(Digits(s, d));
    assert d > 0;
    var e := NewEntry(FullMask(n), dontcares[i]);
    SelectedMembers(dontcares, digits, FullMask(n), d);
    assert e in Selected(dontcares, digits, FullMask(n), d);
    var list := ScenarioList(cells, n, solutionType, s);
    assert e in list;
    DontCaresBelowSpec(cells, Pow2(n));
    assert dontcares[i] in dontcares;
    SeedCovers(n, dontcares[i], dontcares[i]);
    var k :| 0 <= k < |list| && list[k] == e;
    ScenarioWellFormed(cells, n, solutionType, s);
    assert CoveredBy(list, dontcares[i]);
  }

  /** A binary vector denoting a nonzero number has a nonzero digit. */
  lemma {:induction false} SomeNonZeroDigit(d: seq<nat>) returns (i: nat)
    requires Value(d) != 0
    ensures i < |d| && d[i] != 0
    decreases |d|
  {
    if d[|d| - 1] != 0 {
      i := |d| - 1;
    } else {
      i := SomeNonZeroDigit(d[..|d| - 1]);
    }
  }

  /**
   * The search result covers every target cell and, except in the POS special case, only
   * target and don't-care cells, and then no two of its entries are equal or combinable.
   */
  lemma BestCovers(cells: seq<CellValue>, n: nat, solutionType: SolutionType, results: seq<seq<SolutionEntry>>)
    requires n <= 8 && |cells| == TableSize && |DontCares(cells, n)| < 32
    requires |results| == LoopBound(|DontCares(cells, n)|) > 0
    requires forall s :: 0 <= s < |results| ==> Reduces(ScenarioList(cells, n, solutionType, s), results[s])
    ensures forall a: nat :: a <= FullMask(n) && cells[a] == Target(solutionType) ==> CoveredBy(SelectBest(results), a)
    ensures forall a: nat :: a <= FullMask(n) && CoveredBy(SelectBest(results), a) && !WholeTableSeed(cells, n, solutionType) ==>
      cells[a] == Target(solutionType) || cells[a] == DontCare
    ensures !WholeTableSeed(cells, n, solutionType) ==> Irreducible(SelectBest(results))
  {
    SelectBestMember(results);
    var m :| 0 <= m < |results| && SelectBest(results) == results[m];
    var list := ScenarioList(cells, n, solutionType, m);
    ScenarioWellFormed(cells, n, solutionType, m);
    ScenarioSameLevel(cells, n, solutionType, m);
    forall a: nat | a <= FullMask(n) && cells[a] == Target(solutionType) ensures CoveredBy(SelectBest(results), a) {
      ScenarioCoversTargets(cells, n, solutionType, m, a);
    }
    forall a: nat | a <= FullMask(n) && CoveredBy(SelectBest(results), a) && !WholeTableSeed(cells, n, solutionType)
      ensures cells[a] == Target(solutionType) || cells[a] == DontCare
    {
      ScenarioCoversOnly(cells, n, solutionType, m, a);
    }
  }

  /** The search so far: each result reduces its scenario, and `best` is selected from them. */
  ghost predicate Searched(cells: seq<CellValue>, n: nat, solutionType: SolutionType,
                           results: seq<seq<SolutionEntry>>, best: seq<SolutionEntry>)
    requires n <= 8 && |cells| == TableSize
  {
    best == SelectBest(results) &&
    forall s :: 0 <= s < |results| ==> Reduces(ScenarioList(cells, n, solutionType, s), results[s])
  }

  /** Appending the result of the next scenario and selecting again keeps the search state. */
  lemma ResultsExtend(cells: seq<CellValue>, n: nat, solutionType: SolutionType,
                      results: seq<seq<SolutionEntry>>, best: seq<SolutionEntry>, reduced: seq<SolutionEntry>)
    requires n <= 8 && |cells| == TableSize
    requires Searched(cells, n, solutionType, results, best) == true
    requires Reduces(ScenarioList(cells, n, solutionType, |results|), reduced)
    ensures Searched(cells, n, solutionType, results + [reduced],
                     if best == [] || |reduced| < |best| then reduced else best)
  {
    var next := results + [reduced];
    assert next[..|next| - 1] == results;
    forall s | 0 <= s < |next|
      ensures Reduces(ScenarioList(cells, n, solutionType, s), next[s])
    {
      if s < |results| {
        assert next[s] == results[s];
      }
    }
  }

  /** What the finished search promises, stated over the table. */
  lemma SearchFinished(cells: seq<CellValue>, n: nat, solutionType: SolutionType,
                      results: seq<seq<SolutionEntry>>, best: seq<SolutionEntry>)
    requires n <= 8 && |cells| == TableSize && |DontCares(cells, n)| < 32
    requires |results| == LoopBound(|DontCares(cells, n)|)
    requires Searched(cells, n, solutionType, results, best) == true
    ensures forall s :: 0 <= s < |results| ==> Reduces(ScenarioList(cells, n, solutionType, s), results[s])
    ensures best == SelectBest(results)
    ensures best != [] ==> exists m: nat :: FirstShortest(results, m) && best == results[m]
    ensures |DontCares(cells, n)| < 31 ==>
      forall a: nat :: a <= FullMask(n) && cells[a] == Target(solutionType) ==> CoveredBy(best, a)
    ensures forall a: nat :: a <= FullMask(n) && CoveredBy(best, a) && !WholeTableSeed(cells, n, solutionType) ==>
      cells[a] == Target(solutionType) || cells[a] == DontCare
    ensures !WholeTableSeed(cells, n, solutionType) ==> Irreducible(best)
  {
    BestIsFirstShortest(cells, n, solutionType, results);
    if results != [] {
      BestCovers(cells, n, solutionType, results);
    }
  }

  /** The search result is the first shortest non-empty result, and empty only if all are. */
  lemma BestIsFirstShortest(cells: seq<CellValue>, n: nat, solutionType: SolutionType, results: seq<seq<SolutionEntry>>)
    requires n <= 8 && |cells| == TableSize && |DontCares(cells, n)| < 32
    requires |results| == LoopBound(|DontCares(cells, n)|)
    requires forall s :: 0 <= s < |results| ==> Reduces(ScenarioList(cells, n, solutionType, s), results[s])
    ensures SelectBest(results) == [] <==> forall k :: 0 <= k < |results| ==> results[k] == []
    ensures SelectBest(results) != [] ==> exists m: nat :: FirstShortest(results, m) && SelectBest(results) == results[m]
  {
    forall k | 1 <= k < |results| ensures results[k] != [] {
      LaterScenarioNonEmpty(cells, n, solutionType, k, results[k]);
    }
    SelectBestRule(results);
  }

  class KarnaughData {
    var noOfInputs: U32
    const table: array<CellValue>
    var solutionType: SolutionType

    ghost predicate Valid()
      reads this
    {
      table.Length == TableSize
    }

    /** The whole table, as a value. */
    function Cells(): (cells: seq<CellValue>)
      reads this, table
      ensures |cells| == table.Length
    {
      table[..]
    }

    /** A table of 256 ZERO cells for `noOfInputs` inputs, in SOP mode. */
    constructor (noOfInputs: U32)
      ensures Valid() && fresh(table)
      ensures this.noOfInputs == noOfInputs && solutionType == SOP
      ensures forall a :: 0 <= a < TableSize ==> table[a] == Zero
    {
      table := new CellValue[TableSize](_ => Zero);
      new;
      SetDimension(noOfInputs);
      solutionType := SOP;
    }

    /** Overwrite one cell; the address is not checked, so it must lie in the table. */
    method SetValue(address: U32, newValue: CellValue)
      requires Valid() && address < TableSize
      modifies table
      ensures table[..] == old(table[..])[address := newValue]
    {
      table[address] := newValue;
    }

    /** Store the input count as given (no clamping) and clear every cell. */
    method SetDimension(noOfInputs: U32)
      requires Valid()
      modifies this, table
      ensures Valid()
      ensures this.noOfInputs == noOfInputs && solutionType == old(solutionType)
      ensures forall a :: 0 <= a < TableSize ==> table[a] == Zero
    {
      this.noOfInputs := noOfInputs;
      var k := 0;
      while k < table.Length
        invariant 0 <= k <= table.Length
        invariant this.noOfInputs == noOfInputs && solutionType == old(solutionType)
        invariant forall a :: 0 <= a < k ==> table[a] == Zero
      {
        table[k] := Zero;
        k := k + 1;
      }
    }

    method SetSolutionType(solutionType: SolutionType)
      modifies this
      ensures this.solutionType == solutionType && noOfInputs == old(noOfInputs)
    {
      this.solutionType := solutionType;
    }

    /**
     * The address of a cell, in 32-bit arithmetic. Within the grid of a map of at most
     * 32 inputs it lies below `2^n` and decodes back to the same row and column.
     */
    function CalcAddress(row: U32, col: U32): (a: U32)
      reads this
      requires ColBits(noOfInputs) < 32
      ensures noOfInputs <= 32 && InGrid(noOfInputs, row, col) ==>
        a < Pow2(noOfInputs) && GridRow(noOfInputs, a) == row && GridCol(noOfInputs, a) == col
    {
      var a := CellAddress(noOfInputs, row, col);
      if noOfInputs <= 32 && InGrid(noOfInputs, row, col) then
        GridOfAddress(noOfInputs, row, col);
        CellAddressJoin(noOfInputs, row, col);
        a
      else a
    }

    /**
     * The row of the first visited cell, in row-major order, whose address is `address`, or
     * `NotFound`. For a map of at most 32 inputs that is the decoded row of every address
     * below `2^n`, and `NotFound` for every other address. From 61 inputs on the column
     * loop's `int` bound is negative, so nothing is visited and the answer is `NotFound`.
     */
    method CalcRow(address: U32) returns (row: U32)
      requires noOfInputs <= MaxGridInputs
      ensures (row == NotFound && NoMatch(noOfInputs, address)) ||
              (exists col :: FirstMatch(noOfInputs, address, row, col))
      ensures noOfInputs <= 32 ==>
        row == if address < Pow2(noOfInputs) then GridRow(noOfInputs, address) else NotFound
      ensures noOfInputs > 60 ==> row == NotFound
    {
      var n := noOfInputs;
      var r: nat := 0;
      while r < LoopBound(RowBits(n))
        invariant r <= LoopBound(RowBits(n))
        invariant forall r': nat, c': nat :: Scanned(n, r', c') && r' < r ==> CellAddress(n, r', c') != address
      {
        var c: nat := 0;
        while c < LoopBound(ColBits(n))
          invariant c <= LoopBound(ColBits(n))
          invariant forall r': nat, c': nat :: Scanned(n, r', c') && Precedes(r', c', r, c) ==> CellAddress(n, r', c') != address
        {
          if CalcAddress(r, c) == address {
            assert FirstMatch(n, address, r, c);
            if n <= 32 {
              FirstMatchIsDecoded(n, address, r, c);
            }
            return r;
          }
          c := c + 1;
        }
        r := r + 1;
      }
      if n <= 32 {
        NoMatchIsAbove(n, address);
      }
      return NotFound;
    }

    /**
     * The column of the first visited cell, in row-major order, whose address is `address`,
     * or `NotFound`; for a map of at most 32 inputs, the decoded column; from 61 inputs on,
     * `NotFound`.
     */
    method CalcCol(address: U32) returns (col: U32)
      requires noOfInputs <= MaxGridInputs
      ensures (col == NotFound && NoMatch(noOfInputs, address)) ||
              (exists row :: FirstMatch(noOfInputs, address, row, col))
      ensures noOfInputs <= 32 ==>
        col == if address < Pow2(noOfInputs) then GridCol(noOfInputs, address) else NotFound
      ensures noOfInputs > 60 ==> col == NotFound
    {
      var n := noOfInputs;
      var r: nat := 0;
      while r < LoopBound(RowBits(n))
        invariant r <= LoopBound(RowBits(n))
        invariant forall r': nat, c': nat :: Scanned(n, r', c') && r' < r ==> CellAddress(n, r', c') != address
      {
        var c: nat := 0;
        while c < LoopBound(ColBits(n))
          invariant c <= LoopBound(ColBits(n))
          invariant forall r': nat, c': nat :: Scanned(n, r', c') && Precedes(r', c', r, c) ==> CellAddress(n, r', c') != address
        {
          if CalcAddress(r, c) == address {
            assert FirstMatch(n, address, r, c);
            if n <= 32 {
              FirstMatchIsDecoded(n, address, r, c);
            }
            return c;
          }
          c := c + 1;
        }
        r := r + 1;
      }
      if n <= 32 {
        NoMatchIsAbove(n, address);
      }
      return NotFound;
    }

    /** The 0/1 digits of `code mod 2^length`, most significant first; length 0 counts as 1. */
    static method NumberToBinaryVector(code: U32, length: U32) returns (result: seq<nat>)
      requires length < 0x8000_0000
      ensures result == Digits(code, if length == 0 then 1 else length)
    {
      var len: nat := if length == 0 then 1 else length;
      result := seq(len, _ => 0);
      var c: nat := code;
      var i: nat := len;
      while i > 0
        invariant i <= len && |result| == len
        invariant c == ShiftRight(code, len - i)
        invariant result == seq(i, _ => 0) + Digits(code, len - i)
      {
        DigitsPrepend(code, len - i);
        ShiftRightStep(code, len - i);
        result := result[i - 1 := c % 2];
        assert result == seq(i - 1, _ => 0) + Digits(code, len - (i - 1));
        c := c / 2;
        i := i - 1;
      }
    }

    /** The Gray code of `index` as `'0'`/`'1'` characters, most significant first. */
    static method IndexToGreycodeString(index: U32, length: U32) returns (result: string)
      requires length < 0x8000_0000
      ensures result == GrayLabel(index, length)
    {
      var grayCode: nat := GrayEncode(index);
      var len: nat := if length == 0 then 1 else length;
      result := seq(len, _ => '0');
      ghost var g := grayCode;
      var i: nat := len;
      while i > 0
        invariant i <= len && |result| == len
        invariant grayCode == ShiftRight(g, len - i)
        invariant result == seq(i, _ => '0') + DigitString(Digits(g, len - i))
      {
        DigitsPrepend(g, len - i);
        ShiftRightStep(g, len - i);
        assert result[i - 1] == '0';
        result := result[i - 1 := ((result[i - 1] as int) + grayCode % 2) as char];
        FillStep(i, grayCode % 2, DigitString(Digits(g, len - i)), result);
        DigitStringPrepend(grayCode % 2, Digits(g, len - i));
        grayCode := grayCode / 2;
        i := i - 1;
      }
    }

    /**
     * One label per row: the Gray code of the row index over `n / 2` characters. The loop's
     * `int` bound gives `2^(n / 2)` labels below 62 inputs and none from 62 on.
     */
    method GenerateRowLabels() returns (labels: seq<string>)
      requires noOfInputs <= MaxGridInputs
      ensures |labels| == LoopBound(RowBits(noOfInputs))
      ensures noOfInputs <= 60 ==> |labels| == Pow2(RowBits(noOfInputs))
      ensures forall r :: 0 <= r < |labels| ==> labels[r] == GrayLabel(r, RowBits(noOfInputs))
    {
      labels := [];
      var row: nat := 0;
      while row < LoopBound(RowBits(noOfInputs))
        invariant row <= LoopBound(RowBits(noOfInputs)) && |labels| == row
        invariant forall r :: 0 <= r < row ==> labels[r] == GrayLabel(r, RowBits(noOfInputs))
      {
        var text := IndexToGreycodeString(row, noOfInputs / 2);
        labels := labels + [text];
        row := row + 1;
      }
    }

    /**
     * One label per column: the Gray code of the column index over `(n + 1) / 2` characters.
     * The loop's `int` bound gives `2^((n + 1) / 2)` labels below 61 inputs and none from 61 on.
     */
    method GenerateColLabels() returns (labels: seq<string>)
      requires noOfInputs <= MaxGridInputs
      ensures |labels| == LoopBound(ColBits(noOfInputs))
      ensures noOfInputs <= 60 ==> |labels| == Pow2(ColBits(noOfInputs))
      ensures noOfInputs > 60 ==> labels == []
      ensures forall c :: 0 <= c < |labels| ==> labels[c] == GrayLabel(c, ColBits(noOfInputs))
    {
      labels := [];
      var col: nat := 0;
      while col < LoopBound(ColBits(noOfInputs))
        invariant col <= LoopBound(ColBits(noOfInputs)) && |labels| == col
        invariant forall c :: 0 <= c < col ==> labels[c] == GrayLabel(c, ColBits(noOfInputs))
      {
        var text := IndexToGreycodeString(col, (noOfInputs + 1) / 2);
        labels := labels + [text];
        col := col + 1;
      }
    }

    /**
     * The inner loop of `FindSolution` for entry `i`: compare it with every later entry,
     * including those appended meanwhile. An equal later entry marks it and ends the scan;
     * a combinable one appends the merged entry and marks both.
     */
    static method ScanLater(list0: seq<SolutionEntry>, i: nat, ghost input: seq<SolutionEntry>)
      returns (list: seq<SolutionEntry>)
      requires i < |list0|
      ensures list == ScanResult(list0, i)
      ensures AllWellFormed(list0) ==> AllWellFormed(list)
      ensures AllWellFormed(list0) && Sound(list0, input) ==> Sound(list, input)
      ensures AllWellFormed(list0) && Chained(list0) ==> Chained(list)
    {
      list := list0;
      ghost var wf := AllWellFormed(list0);
      ghost var sound := wf && Sound(list0, input);
      ghost var chained := wf && Chained(list0);
      var j := i + 1;
      ScanStart(list0, i, input);
      while j < |list|
        // compared with `true` so that the invariant is checked as one fact
        invariant ScanState(list0, list, i, j, input, wf, sound, chained) == true
        decreases if j <= |list0| then |list0| - j else 0, |list| - j
      {
        if list[i].Equal(list[j]) {
          ScanStopsAt(list0, list, i, j, input, wf, sound, chained);
          list := list[i := list[i].MarkForDeletion()];
          break;
        }
        list := CompareLater(list0, list, i, j, input, wf, sound, chained);
        j := j + 1;
      }
      if j == |list| {
        ScanEnds(list0, list, i, j, input, wf, sound, chained);
      }
    }

    /**
     * One comparison of that scan, of entry `i` with a later entry `j` that is not equal to
     * it: when the two can be merged, the merged entry is appended and both are marked.
     */
    static method CompareLater(list0: seq<SolutionEntry>, list1: seq<SolutionEntry>, i: nat, j: nat,
                               ghost input: seq<SolutionEntry>, ghost wf: bool, ghost sound: bool, ghost chained: bool)
      returns (list: seq<SolutionEntry>)
      requires ScanState(list0, list1, i, j, input, wf, sound, chained) == true
      requires j < |list1| && !list1[i].Equal(list1[j])
      ensures ScanState(list0, list, i, j + 1, input, wf, sound, chained)
      ensures j >= |list0| ==> list == list1
    {
      list := list1;
      if list[i].MaskEqual(list[j]) {
        var x := list[i].ComputeXOR(list[j]);
        if x != 0 && And(x, x - 1) == 0 {
          ScanMerges(list0, list, i, j, input, wf, sound, chained);
          list := MergePair(list, i, j, x);
          return;
        }
      }
      ScanSkips(list0, list, i, j, input, wf, sound, chained);
    }

    /** Appends the merge of entries `i` and `j`, whose masked XOR is `x`, and marks both. */
    static method MergePair(list1: seq<SolutionEntry>, i: nat, j: nat, x: U32) returns (list: seq<SolutionEntry>)
      requires i < |list1| && j < |list1| && x == list1[i].ComputeXOR(list1[j])
      ensures list == AfterMerge(list1, i, j)
    {
      list := list1 + [list1[i].ComputeNewEntry(x)];
      list := list[i := list[i].MarkForDeletion()];
      list := list[j := list[j].MarkForDeletion()];
    }

    /**
     * One round of the outer loop of the reduction pass: the scan of entry `i`, which keeps
     * the state of the pass and lowers the census of the unscanned entries at its level.
     */
    static method ScanEntry(list0: seq<SolutionEntry>, i: nat, ghost input: seq<SolutionEntry>,
                            ghost wf: bool, ghost chained: bool, ghost level: bool)
      returns (list: seq<SolutionEntry>)
      requires PassState(list0, i, input, wf, chained, level) && i < |list0|
      ensures PassState(list, i + 1, input, wf, chained, level)
      ensures forall l: nat :: l >= PopCount(list0[i].mask) ==>
        Census(list[i + 1..], l) + (if l == PopCount(list0[i].mask) then 1 else 0) == Census(list0[i..], l)
    {
      list := ScanLater(list0, i, input);
      PassStep(list0, list, i, input, wf, chained, level);
    }

    /**
     * The reduction pass: scan every entry, appended ones included, against every later
     * entry, then drop the marked entries. Nothing marked survives. For well-formed entries
     * the result covers no address the input does not, and if none of the input was marked,
     * every address the input covers. When every input mask has the same number of bits set,
     * the list stays ordered by falling mask size, so every survivor has been compared with
     * every entry of its own size: no two results are equal and no two can be merged.
     */
    static method FindSolution(solutions: seq<SolutionEntry>) returns (reduced: seq<SolutionEntry>)
      ensures NoneDeleted(reduced)
      ensures AllWellFormed(solutions) ==> AllWellFormed(reduced)
      ensures AllWellFormed(solutions) ==> forall a: nat :: CoveredBy(reduced, a) ==> CoveredBy(solutions, a)
      ensures AllWellFormed(solutions) && NoneDeleted(solutions) ==>
        forall a: nat :: CoveredBy(solutions, a) ==> CoveredBy(reduced, a)
      ensures SameLevel(solutions) ==> Irreducible(reduced)
    {
      var list := solutions;
      ghost var wf := AllWellFormed(solutions);
      ghost var chained := wf && NoneDeleted(solutions);
      ghost var level := SameLevel(solutions);
      PassStart(solutions);
      var i := 0;
      while i < |list|
        // compared with `true` so that the invariant is checked as one fact
        invariant PassState(list, i, solutions, wf, chained, level) == true
        decreases Census(list[i..], 32), Census(list[i..], 31), Census(list[i..], 30), Census(list[i..], 29), Census(list[i..], 28), Census(list[i..], 27), Census(list[i..], 26), Census(list[i..], 25), Census(list[i..], 24), Census(list[i..], 23), Census(list[i..], 22), Census(list[i..], 21), Census(list[i..], 20), Census(list[i..], 19), Census(list[i..], 18), Census(list[i..], 17), Census(list[i..], 16), Census(list[i..], 15), Census(list[i..], 14), Census(list[i..], 13), Census(list[i..], 12), Census(list[i..], 11), Census(list[i..], 10), Census(list[i..], 9), Census(list[i..], 8), Census(list[i..], 7), Census(list[i..], 6), Census(list[i..], 5), Census(list[i..], 4), Census(list[i..], 3), Census(list[i..], 2), Census(list[i..], 1), Census(list[i..], 0)
      {
        ghost var before := list;
        MaskLevel(list[i]);
        list := ScanEntry(list, i, solutions, wf, chained, level);
        i := i + 1;
      }
      reduced := RemoveDeleted(list);
      PassEnd(list, solutions, wf, chained, level);
    }

    /**
     * The first loop of `FindBestSolution`: one full-mask entry per target cell and the list
     * of don't-care addresses, both ascending; then the POS special case.
     */
    method CollectSeeds() returns (solutions: seq<SolutionEntry>, dontcares: seq<U32>)
      requires Valid() && noOfInputs <= 8
      ensures solutions == InitialSeeds(table[..], noOfInputs, solutionType)
      ensures dontcares == DontCares(table[..], noOfInputs)
    {
      var n := noOfInputs;
      var mask: U32 := FullMask(n);
      solutions := [];
      dontcares := [];
      var address: nat := 0;
      while address < Pow2(n)
        invariant address <= Pow2(n)
        invariant solutions == SeedsBelow(table[..], n, solutionType, address)
        invariant dontcares == DontCaresBelow(table[..], address)
      {
        if table[address] == (if solutionType == POS then Zero else One) {
          solutions := solutions + [NewEntry(mask, address)];
        }
        if table[address] == DontCare {
          dontcares := dontcares + [address];
        }
        address := address + 1;
      }
      if solutions == [] {
        if solutionType == POS {
          solutions := solutions + [NewEntry(0, 0)];
        }
      }
    }

    /** The loop of `FindBestSolution` that adds the don't-cares selected by one scenario. */
    static method AddSelected(solutions: seq<SolutionEntry>, dontcares: seq<U32>, addAddress: seq<nat>, mask: U32)
      returns (scenarioList: seq<SolutionEntry>)
      requires |addAddress| >= |dontcares|
      ensures scenarioList == solutions + Selected(dontcares, addAddress, mask, |dontcares|)
    {
      scenarioList := solutions;
      var index: nat := 0;
      while index < |dontcares|
        invariant index <= |dontcares|
        invariant scenarioList == solutions + Selected(dontcares, addAddress, mask, index)
      {
        if addAddress[index] != 0 {
          scenarioList := scenarioList + [NewEntry(mask, dontcares[index])];
        }
        index := index + 1;
      }
    }

    /**
     * Seed one full-mask entry per target cell, collect the don't-cares, then reduce each of
     * the `2^d` scenarios (seeds plus the don't-cares selected by the scenario number's
     * binary digits, most significant first) and keep the best by `SelectBest`.
     */
    method FindBestSolution() returns (best: seq<SolutionEntry>, ghost results: seq<seq<SolutionEntry>>)
      requires Valid() && noOfInputs <= 8
      requires |DontCares(table[..], noOfInputs)| < 32
      ensures |results| == LoopBound(|DontCares(table[..], noOfInputs)|)
      ensures forall s :: 0 <= s < |results| ==>
        Reduces(ScenarioList(table[..], noOfInputs, solutionType, s), results[s])
      ensures best == SelectBest(results)
      ensures best != [] ==> exists m: nat :: FirstShortest(results, m) && best == results[m]
      ensures |DontCares(table[..], noOfInputs)| < 31 ==>
        forall a: nat :: a <= FullMask(noOfInputs) && table[a] == Target(solutionType) ==> CoveredBy(best, a)
      ensures forall a: nat :: a <= FullMask(noOfInputs) && CoveredBy(best, a) && !WholeTableSeed(table[..], noOfInputs, solutionType) ==>
        table[a] == Target(solutionType) || table[a] == DontCare
      ensures !WholeTableSeed(table[..], noOfInputs, solutionType) ==> Irreducible(best)
    {
      var n := noOfInputs;
      ghost var cells := table[..];
      var mask: U32 := FullMask(n);
      var solutions, dontcares := CollectSeeds();
      best := [];
      results := [];
      var scenario: nat := 0;
      Pow2Monotone(|dontcares|, 31);
      Pow2Word();
      assert Pow2(32) == 2 * Pow2(31);
      while scenario < LoopBound(|dontcares|)
        invariant scenario <= LoopBound(|dontcares|) && |results| == scenario
        // compared with `true` so that the invariant is checked as one fact
        invariant Searched(cells, n, solutionType, results, best) == true
      {
        var reduced := ReduceScenario(solutions, dontcares, scenario, mask, cells, n, solutionType);
        ResultsExtend(cells, n, solutionType, results, best, reduced);
        results := results + [reduced];
        if best == [] || |reduced| < |best| {
          best := reduced;
        }
        scenario := scenario + 1;
      }
      SearchFinished(cells, n, solutionType, results, best);
    }

    /** One scenario of the search: its seeds and selected don't-cares, reduced. */
    static method ReduceScenario(solutions: seq<SolutionEntry>, dontcares: seq<U32>, scenario: nat, mask: U32,
                                 ghost cells: seq<CellValue>, ghost n: nat, ghost solutionType: SolutionType)
      returns (reduced: seq<SolutionEntry>)
      requires n <= 8 && |cells| == TableSize && scenario < 0x1_0000_0000
      requires solutions == InitialSeeds(cells, n, solutionType) && dontcares == DontCares(cells, n)
      requires mask == FullMask(n) && |dontcares| < 0x8000_0000
      ensures Reduces(ScenarioList(cells, n, solutionType, scenario), reduced)
    {
      var addAddress := NumberToBinaryVector(scenario, |dontcares|);
      var scenarioList := AddSelected(solutions, dontcares, addAddress, mask);
      assert addAddress == ScenarioDigits(scenario, |dontcares|);
      assert scenarioList == ScenarioList(cells, n, solutionType, scenario);
      reduced := FindSolution(scenarioList);
    }
  }
}
