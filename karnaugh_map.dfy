/**
 * The legacy solver: an explicit two-dimensional map of cell values, a table giving the
 * Gray-coded address of every cell, and a list of blocks that is grown by doubling adjacent
 * blocks, pruned of blocks contained in larger ones and of blocks the others make redundant.
 * Don't-care cells are tried as 0 and as 1 in every combination, keeping the solution with
 * the fewest blocks (and, among those, the most `2` digits).
 */
module MapEngine {
  import opened Bits
  import opened GrayCode
  import opened BinaryDigits
  import opened KarnaughNodes

  /** The map of `n` inputs is `Width(n)` columns by `Height(n)` rows. */
  function Width(n: nat): nat { Pow2(ColBits(n)) }
  function Height(n: nat): nat { Pow2(RowBits(n)) }

  /** The cell at key `k` lies in the map of `n` inputs. */
  predicate InGridCell(n: nat, k: Cell)
  {
    InGrid(n, k.1, k.0)
  }

  /** Every cell of the map of `n` inputs is a key of `m`. */
  ghost predicate HasGrid<V>(m: map<Cell, V>, n: nat)
  {
    forall c: nat, r: nat :: InGrid(n, r, c) ==> (c, r) in m
  }

  /** Cell (`c`, `r`) comes before cell (`j`, `i`) in row-major order. */
  predicate Before(c: nat, r: nat, i: nat, j: nat)
  {
    r < i || (r == i && c < j)
  }

  /** The vector of cell (col, row): the `n` binary digits of its address, most significant first. */
  function GridBits(n: nat, row: nat, col: nat): (d: seq<nat>)
    requires n <= 31
    ensures |d| == n && IsBinary(d)
  {
    Digits(CellAddress(n, row, col), n)
  }

  /** Distinct cells have distinct vectors. */
  lemma GridBitsInjective(n: nat, r1: nat, c1: nat, r2: nat, c2: nat)
    requires n <= 31 && InGrid(n, r1, c1) && InGrid(n, r2, c2)
    requires GridBits(n, r1, c1) == GridBits(n, r2, c2)
    ensures r1 == r2 && c1 == c2
  {
    CellAddressJoin(n, r1, c1);
    CellAddressJoin(n, r2, c2);
    DigitsInjective(CellAddress(n, r1, c1), CellAddress(n, r2, c2), n);
    CellAddressInjective(n, r1, c1, r2, c2);
  }

  /** The number of don't-care cells before cell (`j`, `i`) in row-major order. */
  function RankBefore(dcare: map<Cell, bool>, n: nat, i: nat, j: nat): nat
    decreases i, j
  {
    if j == 0 then
      (if i == 0 then 0 else RankBefore(dcare, n, i - 1, Width(n)))
    else
      RankBefore(dcare, n, i, j - 1) + (if Lookup(dcare, (j - 1, i), false) then 1 else 0)
  }

  /** The number of don't-care cells of the map. */
  function DontCareCount(dcare: map<Cell, bool>, n: nat): nat
  {
    RankBefore(dcare, n, Height(n), 0)
  }

  /** Clearing a flag never raises a count. */
  lemma {:induction false} RankClear(dcare: map<Cell, bool>, key: Cell, n: nat, i: nat, j: nat)
    ensures RankBefore(dcare[key := false], n, i, j) <= RankBefore(dcare, n, i, j)
    decreases i, j
  {
    if j == 0 {
      if i > 0 {
        RankClear(dcare, key, n, i - 1, Width(n));
      }
    } else {
      RankClear(dcare, key, n, i, j - 1);
    }
  }

  /** Setting one flag raises a count by at most one, and only past that cell. */
  lemma {:induction false} RankSet(dcare: map<Cell, bool>, key: Cell, n: nat, i: nat, j: nat)
    requires j <= Width(n)
    ensures RankBefore(dcare[key := true], n, i, j) <=
      RankBefore(dcare, n, i, j) + (if key.0 < Width(n) && Before(key.0, key.1, i, j) then 1 else 0)
    decreases i, j
  {
    if j == 0 {
      if i > 0 {
        RankSet(dcare, key, n, i - 1, Width(n));
      }
    } else {
      RankSet(dcare, key, n, i, j - 1);
    }
  }

  /** The last don't-care digit read before cell (`j`, `i`) stays below the total count. */
  lemma {:induction false} RankBelowCount(dcare: map<Cell, bool>, n: nat, i: nat, j: nat)
    requires i < Height(n) && j < Width(n)
    ensures RankBefore(dcare, n, i, j) + (if Lookup(dcare, (j, i), false) then 1 else 0) <= DontCareCount(dcare, n)
  {
    RankUpTo(dcare, n, i, j + 1, Height(n), 0);
  }

  lemma {:induction false} RankUpTo(dcare: map<Cell, bool>, n: nat, i: nat, j: nat, i2: nat, j2: nat)
    requires j <= Width(n) && j2 <= Width(n)
    requires i < i2 || (i == i2 && j <= j2)
    ensures RankBefore(dcare, n, i, j) <= RankBefore(dcare, n, i2, j2)
    decreases i2, j2
  {
    if i == i2 && j == j2 {
    } else if j2 == 0 {
      RankUpTo(dcare, n, i, j, i2 - 1, Width(n));
    } else {
      RankUpTo(dcare, n, i, j, i2, j2 - 1);
    }
  }

  /** Digit `i` of a scenario vector; the search never reads past its end. */
  function DigitOf(b: seq<nat>, i: nat): nat
  {
    if i < |b| then b[i] else 0
  }

  /**
   * The map of one scenario: every don't-care cell of the grid takes the value of the
   * scenario digit at its row-major rank among the don't-cares (1 for a one digit, else 0).
   */
  function ScenarioMap(m: map<Cell, nat>, dcare: map<Cell, bool>, n: nat, b: seq<nat>): (r: map<Cell, nat>)
    ensures r.Keys == m.Keys
  {
    map k | k in m :: if InGridCell(n, k) && Lookup(dcare, k, false)
      then (if DigitOf(b, RankBefore(dcare, n, k.1, k.0)) == 1 then 1 else 0)
      else m[k]
  }

  /** A scenario overwrites every cell the previous one wrote. */
  lemma ScenarioMapTwice(m: map<Cell, nat>, dcare: map<Cell, bool>, n: nat, b1: seq<nat>, b2: seq<nat>)
    ensures ScenarioMap(ScenarioMap(m, dcare, n, b1), dcare, n, b2) == ScenarioMap(m, dcare, n, b2)
  {
  }

  // ----- what one solve promises -----

  /** Every cell holds the value of the first cell. */
  ghost predicate Uniform(m: map<Cell, nat>, n: nat)
    requires HasGrid(m, n)
  {
    forall c: nat, r: nat :: InGrid(n, r, c) ==> m[(c, r)] == m[(0, 0)]
  }

  /** The node built when every cell is nonzero, as written: one `2` per cell, not per input. */
  function UniformNode(n: nat): KarnaughNode
  {
    KarnaughNode(seq(Width(n) * Height(n), _ => 2), Width(n) * Height(n), false)
  }

  /** Some block among the first `b`, other than the one at `p`, lies on the cell. */
  ghost function DrawnBelow(s: seq<KarnaughNode>, p: int, b: nat, n: nat, c: nat, r: nat): nat
    requires n <= 31 && b <= |s|
  {
    if exists k :: 0 <= k < b && k != p && Matches(s[k].values, GridBits(n, r, c)) then 1 else 0
  }

  /** Drawing every block except the one at `p` gives back the map exactly. */
  ghost predicate Reproduced(s: seq<KarnaughNode>, p: int, m: map<Cell, nat>, n: nat)
    requires n <= 31 && HasGrid(m, n)
  {
    forall c: nat, r: nat :: InGrid(n, r, c) ==> DrawnBelow(s, p, |s|, n, c, r) == m[(c, r)]
  }

  /** The blocks lie exactly on the cells holding 1. */
  ghost predicate Exact(s: seq<KarnaughNode>, m: map<Cell, nat>, n: nat)
    requires n <= 31 && HasGrid(m, n)
  {
    forall c: nat, r: nat :: InGrid(n, r, c) ==> (Covered(s, GridBits(n, r, c)) <==> m[(c, r)] == 1)
  }

  /** The blocks lie only on cells holding 1. */
  ghost predicate SoundFor(s: seq<KarnaughNode>, m: map<Cell, nat>, n: nat)
    requires n <= 31 && HasGrid(m, n)
  {
    forall k, c: nat, r: nat :: 0 <= k < |s| && InGrid(n, r, c) && Matches(s[k].values, GridBits(n, r, c)) ==>
      m[(c, r)] == 1
  }

  /** Every cell holding 1 has a block on it. */
  ghost predicate CompleteFor(s: seq<KarnaughNode>, m: map<Cell, nat>, n: nat)
    requires n <= 31 && HasGrid(m, n)
  {
    forall c: nat, r: nat :: InGrid(n, r, c) && m[(c, r)] == 1 ==> Covered(s, GridBits(n, r, c))
  }

  /** Well-shaped, unmarked blocks with pairwise distinct vectors. */
  ghost predicate Clean(s: seq<KarnaughNode>, n: nat)
  {
    (forall k :: 0 <= k < |s| ==> Shaped(s[k], n) && !s[k].flag) && DistinctValues(s)
  }

  /**
   * The outcome of one solve: for a uniform map, no block (all cells 0) or the single
   * uniform node; otherwise distinct well-shaped blocks lying exactly on the cells holding 1,
   * none of which the others make redundant and none of which can be widened in any one
   * position without taking in a cell that does not hold 1.
   */
  ghost predicate Solved(m: map<Cell, nat>, n: nat, out: seq<KarnaughNode>)
    requires n <= 31 && HasGrid(m, n)
  {
    if Uniform(m, n) then out == (if m[(0, 0)] != 0 then [UniformNode(n)] else [])
    else
      Clean(out, n) && Exact(out, m, n) &&
      (forall k :: 0 <= k < |out| ==> !Reproduced(out, k, m, n)) &&
      forall k :: 0 <= k < |out| ==> Prime(out[k].values, m, n)
  }

  /** Map `m` with cells 0 to `j - 1` of row `i` set to `v`. */
  function FillRow<V>(m: map<Cell, V>, i: nat, j: nat, v: V): map<Cell, V>
  {
    if j == 0 then m else FillRow(m, i, j - 1, v)[(j - 1, i) := v]
  }

  /** Map `m` with the first `w` cells of each of rows 0 to `i - 1` set to `v`. */
  function FillRows<V>(m: map<Cell, V>, i: nat, w: nat, v: V): map<Cell, V>
  {
    if i == 0 then m else FillRow(FillRows(m, i - 1, w, v), i - 1, w, v)
  }

  lemma {:induction false} FillRowSpec<V>(m: map<Cell, V>, i: nat, j: nat, v: V)
    ensures forall k: Cell :: k in FillRow(m, i, j, v) <==> k in m || (k.1 == i && k.0 < j)
    ensures forall k: Cell :: k in FillRow(m, i, j, v) ==>
      FillRow(m, i, j, v)[k] == if k.1 == i && k.0 < j then v else m[k]
  {
    if j > 0 {
      FillRowSpec(m, i, j - 1, v);
    }
  }

  /** Filling rows sets exactly the cells of those rows and keeps every other entry. */
  lemma {:induction false} FillRowsSpec<V>(m: map<Cell, V>, i: nat, w: nat, v: V)
    ensures forall k: Cell :: k in FillRows(m, i, w, v) <==> k in m || (k.1 < i && k.0 < w)
    ensures forall k: Cell :: k in FillRows(m, i, w, v) ==>
      FillRows(m, i, w, v)[k] == if k.1 < i && k.0 < w then v else m[k]
  {
    if i > 0 {
      FillRowsSpec(m, i - 1, w, v);
      FillRowSpec(FillRows(m, i - 1, w, v), i - 1, w, v);
    }
  }

  /** A grid filled with 0 and no don't-care holds that in every cell. */
  lemma FreshGrid(n: nat, cells0: map<Cell, nat>, dcare0: map<Cell, bool>, cells: map<Cell, nat>, dcare: map<Cell, bool>)
    requires cells == FillRows(cells0, Pow2(n / 2), Pow2((n + 1) / 2), 0)
    requires dcare == FillRows(dcare0, Pow2(n / 2), Pow2((n + 1) / 2), false)
    ensures HasGrid(cells, n) && HasGrid(dcare, n)
    ensures forall c: nat, r: nat :: InGrid(n, r, c) ==> cells[(c, r)] == 0 && !dcare[(c, r)]
  {
    FillRowsSpec(cells0, Pow2(n / 2), Pow2((n + 1) / 2), 0);
    FillRowsSpec(dcare0, Pow2(n / 2), Pow2((n + 1) / 2), false);
  }

  /** Drawing cell (`j`, `i`) when the block covers it extends the drawn part by that cell. */
  lemma DrawCell(n: nat, i: nat, j: nat, values: seq<nat>, temp: map<Cell, nat>,
                 before: map<Cell, nat>, after: map<Cell, nat>, at: bool)
    requires n <= 31 && InGrid(n, i, j) && HasGrid(before, n) && HasGrid(temp, n)
    requires forall c: nat, r: nat :: InGrid(n, r, c) ==>
      before[(c, r)] == if Before(c, r, i, j) && Matches(values, GridBits(n, r, c)) then 1 else temp[(c, r)]
    requires at == Matches(values, GridBits(n, i, j))
    requires after == if at then before[(j, i) := 1] else before
    ensures HasGrid(after, n)
    ensures forall c: nat, r: nat :: InGrid(n, r, c) ==>
      after[(c, r)] == if Before(c, r, i, j + 1) && Matches(values, GridBits(n, r, c)) then 1 else temp[(c, r)]
  {
  }

  // ----- the stages of one solve -----

  /** The one-cell blocks of the cells holding 1 before cell (`j`, `i`), in row-major order. */
  ghost function LevelZero(m: map<Cell, nat>, n: nat, i: nat, j: nat): seq<KarnaughNode>
    requires n <= 31
    requires (i < Height(n) && j <= Width(n)) || (i == Height(n) && j == 0)
    decreases i, j
  {
    if j == 0 then
      (if i == 0 then [] else LevelZero(m, n, i - 1, Width(n)))
    else
      LevelZero(m, n, i, j - 1) +
      (if Lookup(m, (j - 1, i), 0) == 1 then [KarnaughNode(GridBits(n, i, j - 1), 1, false)] else [])
  }

  /** The one-cell blocks of a row grow by the cell at column `j` when it holds 1. */
  lemma LevelZeroStep(m: map<Cell, nat>, n: nat, i: nat, j: nat, s0: seq<KarnaughNode>, s: seq<KarnaughNode>)
    requires n <= 31 && HasGrid(m, n) && i < Height(n) && j < Width(n)
    requires s == s0 + LevelZero(m, n, i, j)
    ensures (j, i) in m
    ensures m[(j, i)] == 1 ==> s + [KarnaughNode(GridBits(n, i, j), 1, false)] == s0 + LevelZero(m, n, i, j + 1)
    ensures m[(j, i)] != 1 ==> s == s0 + LevelZero(m, n, i, j + 1)
  {
    assert InGrid(n, i, j);
    if m[(j, i)] == 1 {
      var node := KarnaughNode(GridBits(n, i, j), 1, false);
      assert s0 + LevelZero(m, n, i, j + 1) == s0 + (LevelZero(m, n, i, j) + [node]);
    }
  }

  lemma {:induction false} TwosOfBinary(d: seq<nat>)
    requires IsBinary(d)
    ensures Twos(d) == 0
  {
    if d != [] {
      TwosOfBinary(d[..|d| - 1]);
    }
  }

  /** A block without `2` digits lies only on the cell with its own vector. */
  lemma MatchesBinary(values: seq<nat>, bits: seq<nat>)
    requires IsBinary(values) && IsBinary(bits) && |values| == |bits| && Matches(values, bits)
    ensures values == bits
  {
  }

  /** `node` is the one-cell block of a cell holding 1 before cell (`j`, `i`). */
  ghost predicate OneCellBlock(m: map<Cell, nat>, n: nat, i: nat, j: nat, node: KarnaughNode)
    requires n <= 31
  {
    Shaped(node, n) && !node.flag &&
    exists c: nat, r: nat :: InGrid(n, r, c) && Before(c, r, i, j) && Lookup(m, (c, r), 0) == 1 &&
      node.values == GridBits(n, r, c)
  }

  /** Some block of `z` has the vector `bits`. */
  ghost predicate Listed(z: seq<KarnaughNode>, bits: seq<nat>)
  {
    exists k :: 0 <= k < |z| && z[k].values == bits
  }

  /** What `LevelZeroFacts` states about the blocks `z` of the cells before (`j`, `i`). */
  ghost predicate LevelZeroShape(m: map<Cell, nat>, n: nat, i: nat, j: nat, z: seq<KarnaughNode>)
    requires n <= 31
  {
    (forall k :: 0 <= k < |z| ==> OneCellBlock(m, n, i, j, z[k])) &&
    (forall c: nat, r: nat :: InGrid(n, r, c) && Before(c, r, i, j) && Lookup(m, (c, r), 0) == 1 ==>
      Listed(z, GridBits(n, r, c))) &&
    DistinctValues(z)
  }

  /** The one-cell blocks: one per cell holding 1, of that cell's vector, unmarked and distinct. */
  lemma {:induction false} LevelZeroFacts(m: map<Cell, nat>, n: nat, i: nat, j: nat)
    requires n <= 31
    requires (i < Height(n) && j <= Width(n)) || (i == Height(n) && j == 0)
    ensures LevelZeroShape(m, n, i, j, LevelZero(m, n, i, j))
    decreases i, j
  {
    if j == 0 {
      if i > 0 {
        LevelZeroFacts(m, n, i - 1, Width(n));
        LevelZeroRow(m, n, i, LevelZero(m, n, i - 1, Width(n)));
      }
    } else {
      LevelZeroFacts(m, n, i, j - 1);
      var prev := LevelZero(m, n, i, j - 1);
      if Lookup(m, (j - 1, i), 0) == 1 {
        LevelZeroNext(m, n, i, j, prev);
      } else {
        LevelZeroSkip(m, n, i, j, prev);
      }
    }
  }

  /** The cells before the end of row `i - 1` are the cells before row `i`. */
  lemma LevelZeroRow(m: map<Cell, nat>, n: nat, i: nat, z: seq<KarnaughNode>)
    requires n <= 31 && 0 < i <= Height(n) && LevelZeroShape(m, n, i - 1, Width(n), z)
    ensures LevelZeroShape(m, n, i, 0, z)
  {
    forall k | 0 <= k < |z| ensures OneCellBlock(m, n, i, 0, z[k]) {
      assert OneCellBlock(m, n, i - 1, Width(n), z[k]);
      var c: nat, r: nat :| InGrid(n, r, c) && Before(c, r, i - 1, Width(n)) && Lookup(m, (c, r), 0) == 1 &&
        z[k].values == GridBits(n, r, c);
      assert Before(c, r, i, 0);
    }
    forall c: nat, r: nat | InGrid(n, r, c) && Before(c, r, i, 0) && Lookup(m, (c, r), 0) == 1
      ensures Listed(z, GridBits(n, r, c))
    {
      assert Before(c, r, i - 1, Width(n));
    }
  }

  /** A cell not holding 1 adds no block. */
  lemma LevelZeroSkip(m: map<Cell, nat>, n: nat, i: nat, j: nat, prev: seq<KarnaughNode>)
    requires n <= 31 && i < Height(n) && 0 < j <= Width(n) && Lookup(m, (j - 1, i), 0) != 1
    requires LevelZeroShape(m, n, i, j - 1, prev) && prev == LevelZero(m, n, i, j - 1)
    ensures LevelZeroShape(m, n, i, j, LevelZero(m, n, i, j))
  {
    assert LevelZero(m, n, i, j) == prev;
    forall k | 0 <= k < |prev| ensures OneCellBlock(m, n, i, j, prev[k]) {
      assert OneCellBlock(m, n, i, j - 1, prev[k]);
      var c: nat, r: nat :| InGrid(n, r, c) && Before(c, r, i, j - 1) && Lookup(m, (c, r), 0) == 1 &&
        prev[k].values == GridBits(n, r, c);
      assert Before(c, r, i, j);
    }
    forall c: nat, r: nat | InGrid(n, r, c) && Before(c, r, i, j) && Lookup(m, (c, r), 0) == 1
      ensures Listed(prev, GridBits(n, r, c))
    {
      assert Before(c, r, i, j - 1);
    }
  }

  /** A cell holding 1 appends the block of its own vector. */
  lemma LevelZeroNext(m: map<Cell, nat>, n: nat, i: nat, j: nat, prev: seq<KarnaughNode>)
    requires n <= 31 && i < Height(n) && 0 < j <= Width(n) && Lookup(m, (j - 1, i), 0) == 1
    requires LevelZeroShape(m, n, i, j - 1, prev) && prev == LevelZero(m, n, i, j - 1)
    ensures LevelZeroShape(m, n, i, j, LevelZero(m, n, i, j))
  {
    var node := KarnaughNode(GridBits(n, i, j - 1), 1, false);
    var z := LevelZero(m, n, i, j);
    assert z == prev + [node];
    NextBlocks(m, n, i, j, prev, node, z);
    NextDistinct(m, n, i, j, prev, node, z);
    NextListed(m, n, i, j, prev, node, z);
  }

  lemma NextBlocks(m: map<Cell, nat>, n: nat, i: nat, j: nat, prev: seq<KarnaughNode>, node: KarnaughNode, z: seq<KarnaughNode>)
    requires n <= 31 && i < Height(n) && 0 < j <= Width(n) && Lookup(m, (j - 1, i), 0) == 1
    requires forall k :: 0 <= k < |prev| ==> OneCellBlock(m, n, i, j - 1, prev[k])
    requires node == KarnaughNode(GridBits(n, i, j - 1), 1, false) && z == prev + [node]
    ensures forall k :: 0 <= k < |z| ==> OneCellBlock(m, n, i, j, z[k])
  {
    TwosOfBinary(node.values);
    assert OneCellBlock(m, n, i, j, node) by {
      assert InGrid(n, i, j - 1) && Before(j - 1, i, i, j);
    }
    forall k | 0 <= k < |prev| ensures OneCellBlock(m, n, i, j, prev[k]) {
      assert OneCellBlock(m, n, i, j - 1, prev[k]);
      var c: nat, r: nat :| InGrid(n, r, c) && Before(c, r, i, j - 1) && Lookup(m, (c, r), 0) == 1 &&
        prev[k].values == GridBits(n, r, c);
      assert Before(c, r, i, j);
    }
    forall k | 0 <= k < |z| ensures OneCellBlock(m, n, i, j, z[k]) {
      if k < |prev| {
        assert z[k] == prev[k];
      }
    }
  }

  lemma NextDistinct(m: map<Cell, nat>, n: nat, i: nat, j: nat, prev: seq<KarnaughNode>, node: KarnaughNode, z: seq<KarnaughNode>)
    requires n <= 31 && i < Height(n) && 0 < j <= Width(n)
    requires forall k :: 0 <= k < |prev| ==> OneCellBlock(m, n, i, j - 1, prev[k])
    requires DistinctValues(prev)
    requires node.values == GridBits(n, i, j - 1) && z == prev + [node]
    ensures DistinctValues(z)
  {
    forall k | 0 <= k < |prev| ensures prev[k].values != node.values {
      assert OneCellBlock(m, n, i, j - 1, prev[k]);
      var c: nat, r: nat :| InGrid(n, r, c) && Before(c, r, i, j - 1) && Lookup(m, (c, r), 0) == 1 &&
        prev[k].values == GridBits(n, r, c);
      if prev[k].values == node.values {
        GridBitsInjective(n, r, c, i, j - 1);
      }
    }
    forall p, q | 0 <= p < q < |z| ensures z[p].values != z[q].values {
      assert z[p] == prev[p];
      if q < |prev| {
        assert z[q] == prev[q];
      }
    }
  }

  lemma NextListed(m: map<Cell, nat>, n: nat, i: nat, j: nat, prev: seq<KarnaughNode>, node: KarnaughNode, z: seq<KarnaughNode>)
    requires n <= 31 && i < Height(n) && 0 < j <= Width(n)
    requires forall c: nat, r: nat :: InGrid(n, r, c) && Before(c, r, i, j - 1) && Lookup(m, (c, r), 0) == 1 ==>
      Listed(prev, GridBits(n, r, c))
    requires node.values == GridBits(n, i, j - 1) && z == prev + [node]
    ensures forall c: nat, r: nat :: InGrid(n, r, c) && Before(c, r, i, j) && Lookup(m, (c, r), 0) == 1 ==>
      Listed(z, GridBits(n, r, c))
  {
    forall c: nat, r: nat | InGrid(n, r, c) && Before(c, r, i, j) && Lookup(m, (c, r), 0) == 1
      ensures Listed(z, GridBits(n, r, c))
    {
      if Before(c, r, i, j - 1) {
        var k :| 0 <= k < |prev| && prev[k].values == GridBits(n, r, c);
        assert z[k] == prev[k];
      } else {
        assert c == j - 1 && r == i;
        assert z[|prev|].values == GridBits(n, r, c);
      }
    }
  }

  /** The invariant of the joining stage. */
  ghost predicate JoinInv(s: seq<KarnaughNode>, m: map<Cell, nat>, n: nat)
    requires n <= 31 && HasGrid(m, n)
  {
    (forall k :: 0 <= k < |s| ==> Shaped(s[k], n)) && DistinctValues(s) &&
    SoundFor(s, m, n) && CompleteFor(s, m, n) && Chained(s)
  }

  /** The one-cell blocks of the whole map satisfy the joining invariant. */
  lemma LevelZeroInv(m: map<Cell, nat>, n: nat)
    requires n <= 31 && HasGrid(m, n)
    ensures JoinInv(LevelZero(m, n, Height(n), 0), m, n)
  {
    var z := LevelZero(m, n, Height(n), 0);
    LevelZeroFacts(m, n, Height(n), 0);
    LevelZeroSound(m, n, z);
    LevelZeroComplete(m, n, z);
  }

  lemma LevelZeroSound(m: map<Cell, nat>, n: nat, z: seq<KarnaughNode>)
    requires n <= 31 && HasGrid(m, n)
    requires forall k :: 0 <= k < |z| ==> OneCellBlock(m, n, Height(n), 0, z[k])
    ensures SoundFor(z, m, n)
    ensures forall k :: 0 <= k < |z| ==> Shaped(z[k], n) && !z[k].flag
  {
    forall k, c: nat, r: nat | 0 <= k < |z| && InGrid(n, r, c) && Matches(z[k].values, GridBits(n, r, c))
      ensures m[(c, r)] == 1
    {
      assert OneCellBlock(m, n, Height(n), 0, z[k]);
      var c': nat, r': nat :| InGrid(n, r', c') && Before(c', r', Height(n), 0) && Lookup(m, (c', r'), 0) == 1 &&
        z[k].values == GridBits(n, r', c');
      MatchesBinary(z[k].values, GridBits(n, r, c));
      GridBitsInjective(n, r, c, r', c');
    }
  }

  lemma LevelZeroComplete(m: map<Cell, nat>, n: nat, z: seq<KarnaughNode>)
    requires n <= 31 && HasGrid(m, n)
    requires forall c: nat, r: nat :: InGrid(n, r, c) && Before(c, r, Height(n), 0) && Lookup(m, (c, r), 0) == 1 ==>
      Listed(z, GridBits(n, r, c))
    ensures CompleteFor(z, m, n)
  {
    forall c: nat, r: nat | InGrid(n, r, c) && m[(c, r)] == 1 ensures Covered(z, GridBits(n, r, c)) {
      assert Before(c, r, Height(n), 0);
      var k :| 0 <= k < |z| && z[k].values == GridBits(n, r, c);
      assert Matches(z[k].values, GridBits(n, r, c));
    }
  }

  /** The number of blocks from position `q` on with `t` cells. */
  function ActiveFrom(s: seq<KarnaughNode>, q: nat, t: nat): nat
    decreases |s| - q
  {
    if q >= |s| then 0 else (if s[q].numberOfItems == t then 1 else 0) + ActiveFrom(s, q + 1, t)
  }

  /** Marking blocks and appending blocks of another size keeps the count. */
  lemma {:induction false} ActiveSame(s: seq<KarnaughNode>, s2: seq<KarnaughNode>, q: nat, t: nat)
    requires |s| <= |s2|
    requires forall k :: q <= k < |s| ==> s2[k].numberOfItems == s[k].numberOfItems
    requires forall k :: |s| <= k < |s2| && q <= k ==> s2[k].numberOfItems != t
    ensures ActiveFrom(s2, q, t) == ActiveFrom(s, q, t)
    decreases |s2| - q
  {
    if q < |s2| {
      ActiveSame(s, s2, q + 1, t);
    }
  }

  /** One round of the join loop over `q` decreases (blocks of `t` cells from `q` on, blocks left). */
  lemma JoinProgress(s: seq<KarnaughNode>, s2: seq<KarnaughNode>, q: nat, t: nat)
    requires t >= 1 && q < |s| && Grows(s, s2, t)
    requires s[q].numberOfItems != t ==> s2 == s
    ensures ActiveFrom(s2, q + 1, t) < ActiveFrom(s, q, t) ||
            (ActiveFrom(s2, q + 1, t) == ActiveFrom(s, q, t) && |s2| - (q + 1) < |s| - q)
  {
    ActiveSame(s, s2, q + 1, t);
    assert ActiveFrom(s, q, t) == (if s[q].numberOfItems == t then 1 else 0) + ActiveFrom(s, q + 1, t);
  }

  /** One join: the two blocks marked, the joined block appended unless its vector is present. */
  ghost function AfterJoin(s: seq<KarnaughNode>, p: nat, q: nat, node: KarnaughNode): seq<KarnaughNode>
    requires p < |s| && q < |s|
  {
    var marked := s[p := s[p].(flag := true)][q := s[q].(flag := true)];
    if exists c :: 0 <= c < |marked| && marked[c].values == node.values then marked else marked + [node]
  }

  /** What `AfterJoin` looks like, position by position. */
  ghost predicate JoinedList(s: seq<KarnaughNode>, p: nat, q: nat, node: KarnaughNode, after: seq<KarnaughNode>)
    requires p < |s| && q < |s|
  {
    |s| <= |after| <= |s| + 1 &&
    (forall k :: 0 <= k < |s| ==> after[k].values == s[k].values && after[k].numberOfItems == s[k].numberOfItems) &&
    (forall k :: 0 <= k < |s| && k != p && k != q ==> after[k] == s[k]) &&
    after[p].flag && after[q].flag &&
    (|after| == |s| + 1 <==> !Listed(s, node.values)) &&
    (|after| == |s| + 1 ==> after[|s|] == node)
  }

  lemma JoinedListOf(s: seq<KarnaughNode>, p: nat, q: nat, node: KarnaughNode)
    requires p < |s| && q < |s|
    ensures JoinedList(s, p, q, node, AfterJoin(s, p, q, node))
  {
    var marked := s[p := s[p].(flag := true)][q := s[q].(flag := true)];
    assert forall k :: 0 <= k < |s| ==> marked[k].values == s[k].values;
    assert (exists c :: 0 <= c < |marked| && marked[c].values == node.values) <==> Listed(s, node.values);
  }

  lemma JoinKeepsShape(s: seq<KarnaughNode>, p: nat, q: nat, node: KarnaughNode, after: seq<KarnaughNode>, n: nat)
    requires p < |s| && q < |s| && JoinedList(s, p, q, node, after)
    requires (forall k :: 0 <= k < |s| ==> Shaped(s[k], n)) && DistinctValues(s) && Shaped(node, n)
    ensures (forall k :: 0 <= k < |after| ==> Shaped(after[k], n)) && DistinctValues(after)
  {
    forall i, j | 0 <= i < j < |after| ensures after[i].values != after[j].values {
      if j == |s| {
        assert s[i].values == after[i].values;
      }
    }
  }

  lemma JoinKeepsSound(s: seq<KarnaughNode>, p: nat, q: nat, x: nat, after: seq<KarnaughNode>, m: map<Cell, nat>, n: nat)
    requires n <= 31 && HasGrid(m, n) && SoundFor(s, m, n)
    requires p < |s| && q < |s| && DifferOnlyAt(s[p].values, s[q].values, x) && s[p].values[x] <= 1 && s[q].values[x] <= 1
    requires JoinedList(s, p, q, KarnaughNode(s[p].values[x := 2], 2 * s[p].numberOfItems, false), after)
    ensures SoundFor(after, m, n)
  {
    forall k, c: nat, r: nat | 0 <= k < |after| && InGrid(n, r, c) && Matches(after[k].values, GridBits(n, r, c))
      ensures m[(c, r)] == 1
    {
      var bits := GridBits(n, r, c);
      if k < |s| {
        assert Matches(s[k].values, bits);
      } else {
        JoinedMatches(s[p].values, s[q].values, x, bits);
        if !Matches(s[p].values, bits) {
          assert Matches(s[q].values, bits);
        }
      }
    }
  }

  lemma JoinKeepsComplete(s: seq<KarnaughNode>, p: nat, q: nat, node: KarnaughNode, after: seq<KarnaughNode>, m: map<Cell, nat>, n: nat)
    requires n <= 31 && HasGrid(m, n) && CompleteFor(s, m, n)
    requires p < |s| && q < |s| && JoinedList(s, p, q, node, after)
    ensures CompleteFor(after, m, n)
  {
    forall c: nat, r: nat | InGrid(n, r, c) && m[(c, r)] == 1 ensures Covered(after, GridBits(n, r, c)) {
      var k :| 0 <= k < |s| && Matches(s[k].values, GridBits(n, r, c));
      assert after[k].values == s[k].values;
    }
  }

  lemma JoinKeepsChained(s: seq<KarnaughNode>, p: nat, q: nat, node: KarnaughNode, after: seq<KarnaughNode>)
    requires Chained(s) && p < |s| && q < |s| && JoinedList(s, p, q, node, after) && !node.flag
    requires Contains(node.values, s[p].values) && node.values != s[p].values
    requires Contains(node.values, s[q].values) && node.values != s[q].values
    ensures Chained(after)
  {
    forall k | 0 <= k < |after| && after[k].flag
      ensures exists w :: 0 <= w < |after| && Contains(after[w].values, after[k].values) && after[w].values != after[k].values
    {
      var w: nat;
      if k == p || k == q {
        if Listed(s, node.values) {
          w :| 0 <= w < |s| && s[w].values == node.values;
        } else {
          w := |s|;
        }
      } else {
        assert after[k] == s[k];
        w :| 0 <= w < |s| && Contains(s[w].values, s[k].values) && s[w].values != s[k].values;
      }
      assert Contains(after[w].values, after[k].values) && after[w].values != after[k].values;
    }
  }

  /** A join keeps every part of the joining invariant. */
  lemma JoinKeeps(s: seq<KarnaughNode>, p: nat, q: nat, x: nat, m: map<Cell, nat>, n: nat)
    requires n <= 31 && HasGrid(m, n) && JoinInv(s, m, n)
    requires p < |s| && q < |s| && s[p].numberOfItems == s[q].numberOfItems
    requires DifferOnlyAt(s[p].values, s[q].values, x)
    ensures JoinInv(AfterJoin(s, p, q, KarnaughNode(s[p].values[x := 2], 2 * s[p].numberOfItems, false)), m, n)
  {
    var node := KarnaughNode(s[p].values[x := 2], 2 * s[p].numberOfItems, false);
    var after := AfterJoin(s, p, q, node);
    JoinStep(s[p], s[q], x, n);
    JoinedListOf(s, p, q, node);
    JoinKeepsShape(s, p, q, node, after, n);
    JoinKeepsSound(s, p, q, x, after, m, n);
    JoinKeepsComplete(s, p, q, node, after, m, n);
    JoinKeepsChained(s, p, q, node, after);
  }

  /** Some block of `s` joins `a` and `b`: `a` with a `2` where the two differ. */
  ghost predicate JoinedInto(a: seq<nat>, b: seq<nat>, s: seq<KarnaughNode>)
  {
    exists x: nat :: DifferOnlyAt(a, b, x) && Listed(s, a[x := 2])
  }

  /** Marking a joinable pair and listing its join keeps the invariant and records the join. */
  lemma JoinPairDone(s0: seq<KarnaughNode>, p: nat, q: nat, x: nat, t: nat, s: seq<KarnaughNode>, m: map<Cell, nat>, n: nat)
    requires n <= 31 && HasGrid(m, n) && p < |s0| && q < |s0| && t >= 1 && JoinInv(s0, m, n)
    requires s0[p].numberOfItems == t && s0[q].numberOfItems == t && DifferOnlyAt(s0[p].values, s0[q].values, x)
    requires s == AfterJoin(s0, p, q, KarnaughNode(s0[p].values[x := 2], 2 * t, false))
    ensures JoinInv(s, m, n) && Grows(s0, s, t) && FlagsKept(s0, s) && p < |s|
    ensures s[p].flag && s[q].flag && JoinedInto(s0[p].values, s0[q].values, s)
  {
    var node := KarnaughNode(s0[p].values[x := 2], 2 * t, false);
    assert Grows(s0, s0, t);
    JoinPassStep(s0, s0, p, q, x, t, node, s, m, n);
  }

  /** One join inside a joining pass keeps the invariant and the growth relation. */
  lemma JoinPassStep(s0: seq<KarnaughNode>, s: seq<KarnaughNode>, p: nat, q: nat, x: nat, t: nat,
                     node: KarnaughNode, after: seq<KarnaughNode>, m: map<Cell, nat>, n: nat)
    requires n <= 31 && HasGrid(m, n) && t >= 1 && JoinInv(s, m, n) && Grows(s0, s, t)
    requires p < |s| && q < |s| && s[p].numberOfItems == t && s[q].numberOfItems == t
    requires DifferOnlyAt(s[p].values, s[q].values, x)
    requires node == KarnaughNode(s[p].values[x := 2], 2 * t, false) && after == AfterJoin(s, p, q, node)
    ensures JoinInv(after, m, n) && Grows(s0, after, t) && Grows(s, after, t) && FlagsKept(s, after)
    ensures after[p].flag && after[q].flag && Listed(after, node.values)
  {
    JoinKeeps(s, p, q, x, m, n);
    JoinedListOf(s, p, q, node);
    JoinGrows(s0, s, p, q, x, t, node, after);
    if Listed(s, node.values) {
      var c :| 0 <= c < |s| && s[c].values == node.values;
      assert after[c].values == node.values;
    } else {
      assert after[|s|] == node;
    }
  }

  lemma JoinGrows(s0: seq<KarnaughNode>, s: seq<KarnaughNode>, p: nat, q: nat, x: nat, t: nat,
                  node: KarnaughNode, after: seq<KarnaughNode>)
    requires t >= 1 && Grows(s0, s, t)
    requires p < |s| && q < |s| && s[p].numberOfItems == t && s[q].numberOfItems == t
    requires DifferOnlyAt(s[p].values, s[q].values, x)
    requires node == KarnaughNode(s[p].values[x := 2], 2 * t, false) && JoinedList(s, p, q, node, after)
    ensures Grows(s0, after, t) && Grows(s, after, t)
  {
    assert p < |s0| && q < |s0|;
    assert s0[p].values == s[p].values && s0[q].values == s[q].values;
    assert JoinedFrom(s0, node, t);
    assert JoinedFrom(s, node, t);
    forall k | |s0| <= k < |after| ensures after[k].numberOfItems == 2 * t && JoinedFrom(s0, after[k], t) {
      if k < |s| {
        var a, b, y: nat :| 0 <= a < |s0| && 0 <= b < |s0| && s0[a].numberOfItems == t && s0[b].numberOfItems == t &&
          DifferOnlyAt(s0[a].values, s0[b].values, y) && s[k].values == s0[a].values[y := 2];
        assert after[k].values == s[k].values;
      }
    }
  }

  /** The unmarked blocks of well-shaped blocks with distinct vectors are clean. */
  lemma FlagRemovalClean(s: seq<KarnaughNode>, n: nat)
    requires (forall k :: 0 <= k < |s| ==> Shaped(s[k], n)) && DistinctValues(s)
    ensures Clean(Unflagged(s), n)
  {
    var u := Unflagged(s);
    UnflaggedMembers(s);
    UnflaggedDistinct(s);
    forall k | 0 <= k < |u| ensures Shaped(u[k], n) && !u[k].flag {
      assert u[k] in s;
    }
  }

  /** Removing the marked blocks leaves clean blocks lying exactly on the cells holding 1. */
  lemma FlagRemovalKeeps(s: seq<KarnaughNode>, m: map<Cell, nat>, n: nat)
    requires n <= 31 && HasGrid(m, n) && JoinInv(s, m, n)
    ensures Clean(Unflagged(s), n) && Exact(Unflagged(s), m, n)
  {
    FlagRemovalClean(s, n);
    forall c: nat, r: nat | InGrid(n, r, c) ensures Covered(Unflagged(s), GridBits(n, r, c)) <==> m[(c, r)] == 1 {
      var bits := GridBits(n, r, c);
      if Covered(Unflagged(s), bits) {
        UnflaggedCovers(s, bits);
        var k :| 0 <= k < |s| && Matches(s[k].values, bits);
      }
      if m[(c, r)] == 1 {
        ChainCovers(s, bits);
      }
    }
  }

  /** One more block drawn, when it is not the one left out. */
  lemma DrawnStep(s: seq<KarnaughNode>, p: int, b: nat, n: nat, c: nat, r: nat)
    requires n <= 31 && b < |s|
    ensures DrawnBelow(s, p, b + 1, n, c, r) ==
      if b != p && Matches(s[b].values, GridBits(n, r, c)) then 1 else DrawnBelow(s, p, b, n, c, r)
  {
    if DrawnBelow(s, p, b, n, c, r) == 1 {
      var k :| 0 <= k < b && k != p && Matches(s[k].values, GridBits(n, r, c));
    }
  }

  /** Dropping a block that the others reproduce keeps the blocks clean and exact. */
  lemma DropKeeps(s: seq<KarnaughNode>, p: nat, m: map<Cell, nat>, n: nat)
    requires n <= 31 && HasGrid(m, n) && p < |s|
    requires Clean(s, n) && Exact(s, m, n) && Reproduced(s, p, m, n)
    ensures Clean(Drop(s, p), n) && Exact(Drop(s, p), m, n)
  {
    var d := Drop(s, p);
    forall c: nat, r: nat | InGrid(n, r, c) ensures Covered(d, GridBits(n, r, c)) <==> m[(c, r)] == 1 {
      var bits := GridBits(n, r, c);
      assert DrawnBelow(s, p, |s|, n, c, r) == m[(c, r)];
      if Covered(d, bits) {
        var k :| 0 <= k < |d| && Matches(d[k].values, bits);
        if k < p { assert Matches(s[k].values, bits); } else { assert Matches(s[k + 1].values, bits); }
      }
      if m[(c, r)] == 1 {
        var k :| 0 <= k < |s| && k != p && Matches(s[k].values, bits);
        if k < p { assert d[k] == s[k]; } else { assert d[k - 1] == s[k]; }
      }
    }
    forall i, j | 0 <= i < j < |d| ensures d[i].values != d[j].values {
      var i' := if i < p then i else i + 1;
      var j' := if j < p then j else j + 1;
      assert d[i] == s[i'] && d[j] == s[j'];
    }
  }

  /** A block the others did not reproduce stays needed when a later block is dropped. */
  lemma DropKeepsNeeded(s: seq<KarnaughNode>, p: nat, k: nat, m: map<Cell, nat>, n: nat)
    requires n <= 31 && HasGrid(m, n) && k < p < |s| && Exact(s, m, n)
    requires Reproduced(Drop(s, p), k, m, n)
    ensures Reproduced(s, k, m, n)
  {
    var d := Drop(s, p);
    forall c: nat, r: nat | InGrid(n, r, c) ensures DrawnBelow(s, k, |s|, n, c, r) == m[(c, r)] {
      var bits := GridBits(n, r, c);
      assert DrawnBelow(d, k, |d|, n, c, r) == m[(c, r)];
      if DrawnBelow(d, k, |d|, n, c, r) == 1 {
        var b :| 0 <= b < |d| && b != k && Matches(d[b].values, bits);
        if b < p { assert s[b] == d[b]; } else { assert s[b + 1] == d[b]; }
      } else {
        assert !Covered(s, bits);
      }
    }
  }

  /** The solution `Solve` keeps: the fewest blocks, and among equals the most `2` digits. */
  function SelectFewest(results: seq<seq<KarnaughNode>>): seq<KarnaughNode>
  {
    if |results| <= 1 then (if results == [] then [] else results[0])
    else
      var best := SelectFewest(results[..|results| - 1]);
      var candidate := results[|results| - 1];
      if |candidate| < |best| || (|candidate| == |best| && TotalTwos(candidate) > TotalTwos(best)) then candidate
      else best
  }

  /**
   * Result `m` has the fewest blocks, the most `2` digits among results that short, and
   * every earlier result that short has strictly fewer `2` digits.
   */
  ghost predicate FewestAt(results: seq<seq<KarnaughNode>>, m: nat)
  {
    m < |results| &&
    forall k :: 0 <= k < |results| ==>
      |results[m]| <= |results[k]| &&
      (|results[k]| == |results[m]| ==> TotalTwos(results[k]) <= TotalTwos(results[m])) &&
      (k < m && |results[k]| == |results[m]| ==> TotalTwos(results[k]) < TotalTwos(results[m]))
  }

  /** A last result that beats the fewest of the earlier ones is the fewest of all. */
  lemma FewestLast(results: seq<seq<KarnaughNode>>, m: nat)
    requires |results| > 1 && FewestAt(results[..|results| - 1], m)
    requires var c := results[|results| - 1];
      |c| < |results[m]| || (|c| == |results[m]| && TotalTwos(c) > TotalTwos(results[m]))
    ensures FewestAt(results, |results| - 1)
  {
    var last := |results| - 1;
    var c := results[last];
    forall k | 0 <= k < |results|
      ensures |c| <= |results[k]| && (|results[k]| == |c| ==> TotalTwos(results[k]) <= TotalTwos(c))
      ensures k < last && |results[k]| == |c| ==> TotalTwos(results[k]) < TotalTwos(c)
    {
      if k < last {
        assert results[k] == results[..last][k];
      }
    }
  }

  /** When the last result does not beat the fewest earlier one, that one stays the fewest. */
  lemma FewestKept(results: seq<seq<KarnaughNode>>, m: nat)
    requires |results| > 1 && FewestAt(results[..|results| - 1], m)
    requires var c := results[|results| - 1];
      !(|c| < |results[m]| || (|c| == |results[m]| && TotalTwos(c) > TotalTwos(results[m])))
    ensures FewestAt(results, m)
  {
    var last := |results| - 1;
    forall k | 0 <= k < |results|
      ensures |results[m]| <= |results[k]| && (|results[k]| == |results[m]| ==> TotalTwos(results[k]) <= TotalTwos(results[m]))
      ensures k < m && |results[k]| == |results[m]| ==> TotalTwos(results[k]) < TotalTwos(results[m])
    {
      if k < last {
        assert results[k] == results[..last][k];
      }
    }
  }

  lemma {:induction false} SelectFewestRule(results: seq<seq<KarnaughNode>>)
    requires results != []
    ensures exists m: nat :: FewestAt(results, m) && SelectFewest(results) == results[m]
  {
    if |results| == 1 {
      assert FewestAt(results, 0);
    } else {
      var init := results[..|results| - 1];
      SelectFewestRule(init);
      var m: nat :| FewestAt(init, m) && SelectFewest(init) == init[m];
      var last := |results| - 1;
      var c := results[last];
      if |c| < |init[m]| || (|c| == |init[m]| && TotalTwos(c) > TotalTwos(init[m])) {
        assert SelectFewest(results) == c;
        FewestLast(results, m);
      } else {
        assert SelectFewest(results) == init[m] == results[m];
        FewestKept(results, m);
      }
    }
  }

  /** Node `node` joins two blocks of `t` cells of `s` that differ in one position only. */
  ghost predicate JoinedFrom(s: seq<KarnaughNode>, node: KarnaughNode, t: nat)
  {
    exists a, b, x: nat :: 0 <= a < |s| && 0 <= b < |s| && s[a].numberOfItems == t && s[b].numberOfItems == t &&
      DifferOnlyAt(s[a].values, s[b].values, x) && node.values == s[a].values[x := 2]
  }

  /**
   * One joining pass over blocks of `t` cells turned `s` into `s2`: the old blocks keep
   * their vectors and sizes (only their marks change), and every new block has `2t` cells
   * and joins two old blocks of `t` cells.
   */
  ghost predicate Grows(s: seq<KarnaughNode>, s2: seq<KarnaughNode>, t: nat)
  {
    |s| <= |s2| &&
    (forall k :: 0 <= k < |s| ==> s2[k].values == s[k].values && s2[k].numberOfItems == s[k].numberOfItems) &&
    (forall k :: |s| <= k < |s2| ==> s2[k].numberOfItems == 2 * t && JoinedFrom(s, s2[k], t))
  }

  /** A join of blocks of `t` cells after a pass is a join of blocks that were there before it. */
  lemma JoinedFromEarlier(s1: seq<KarnaughNode>, s2: seq<KarnaughNode>, node: KarnaughNode, t: nat)
    requires t >= 1 && Grows(s1, s2, t) && JoinedFrom(s2, node, t)
    ensures JoinedFrom(s1, node, t)
  {
    var a, b, x: nat :| 0 <= a < |s2| && 0 <= b < |s2| && s2[a].numberOfItems == t && s2[b].numberOfItems == t &&
      DifferOnlyAt(s2[a].values, s2[b].values, x) && node.values == s2[a].values[x := 2];
    assert a < |s1| && b < |s1|;
    assert s1[a].values == s2[a].values && s1[b].values == s2[b].values;
  }

  lemma GrowsTrans(s1: seq<KarnaughNode>, s2: seq<KarnaughNode>, s3: seq<KarnaughNode>, t: nat)
    requires t >= 1 && Grows(s1, s2, t) && Grows(s2, s3, t)
    ensures Grows(s1, s3, t)
  {
    forall k | |s1| <= k < |s3| ensures s3[k].numberOfItems == 2 * t && JoinedFrom(s1, s3[k], t) {
      if k >= |s2| {
        assert JoinedFrom(s2, s3[k], t);
        JoinedFromEarlier(s1, s2, s3[k], t);
      } else {
        assert JoinedFrom(s1, s2[k], t);
        var a, b, x: nat :| 0 <= a < |s1| && 0 <= b < |s1| && s1[a].numberOfItems == t && s1[b].numberOfItems == t &&
          DifferOnlyAt(s1[a].values, s1[b].values, x) && s2[k].values == s1[a].values[x := 2];
        assert s3[k].values == s2[k].values;
      }
    }
  }

  // ----- what the joining passes reach -----

  /** Every cell the block with vector `v` lies on holds 1. */
  ghost predicate Implicant(v: seq<nat>, m: map<Cell, nat>, n: nat)
    requires n <= 31 && HasGrid(m, n)
  {
    forall c: nat, r: nat :: InGrid(n, r, c) && Matches(v, GridBits(n, r, c)) ==> m[(c, r)] == 1
  }

  /** Turning any digit of `v` that is not a `2` into a `2` takes in a cell not holding 1. */
  ghost predicate Prime(v: seq<nat>, m: map<Cell, nat>, n: nat)
    requires n <= 31 && HasGrid(m, n)
  {
    forall x :: 0 <= x < |v| && v[x] != 2 ==> !Implicant(v[x := 2], m, n)
  }

  /** A block vector over `n` inputs: `n` digits, each 0, 1 or 2. */
  predicate BlockVector(v: seq<nat>, n: nat)
  {
    |v| == n && forall i :: 0 <= i < n ==> v[i] <= 2
  }

  /** Every block vector with at most `k` twos lying only on cells holding 1 is listed in `s`. */
  ghost predicate AllListed(s: seq<KarnaughNode>, m: map<Cell, nat>, n: nat, k: nat)
    requires n <= 31 && HasGrid(m, n)
  {
    forall v: seq<nat> :: BlockVector(v, n) && Twos(v) <= k && Implicant(v, m, n) ==> Listed(s, v)
  }

  /** Every unmarked block of `s` with fewer than `k` twos is prime. */
  ghost predicate PrimeBelow(s: seq<KarnaughNode>, m: map<Cell, nat>, n: nat, k: nat)
    requires n <= 31 && HasGrid(m, n)
  {
    forall i :: 0 <= i < |s| && !s[i].flag && Twos(s[i].values) < k ==> Prime(s[i].values, m, n)
  }

  /** The blocks after the joining passes over blocks of fewer than `2^k` cells. */
  ghost predicate PassesDone(s: seq<KarnaughNode>, m: map<Cell, nat>, n: nat, k: nat)
    requires n <= 31 && HasGrid(m, n)
  {
    JoinInv(s, m, n) && AllListed(s, m, n, k) && PrimeBelow(s, m, n, k)
  }

  /** Marks are only ever set: a block marked in `s` is marked at the same position in `s2`. */
  ghost predicate FlagsKept(s: seq<KarnaughNode>, s2: seq<KarnaughNode>)
  {
    |s| <= |s2| && forall k :: 0 <= k < |s| && s[k].flag ==> s2[k].flag
  }

  /**
   * When the blocks at `p` and `q` of `s0` both have `t` cells and differ in one position,
   * both are marked in `s` and their join is listed there.
   */
  ghost predicate PairJoined(s0: seq<KarnaughNode>, s: seq<KarnaughNode>, p: nat, q: nat, t: nat, n: nat)
  {
    p < |s0| && q < |s0| && s0[p].numberOfItems == t && s0[q].numberOfItems == t &&
    OneApart(s0[p].values, s0[q].values, n) ==>
      p < |s| && q < |s| && s[p].flag && s[q].flag && JoinedInto(s0[p].values, s0[q].values, s)
  }

  /** Every vector of `n` binary digits is the vector of a cell of the map. */
  lemma CellOfBits(n: nat, v: seq<nat>) returns (r: nat, c: nat)
    requires n <= 31 && |v| == n && IsBinary(v)
    ensures InGrid(n, r, c) && GridBits(n, r, c) == v
  {
    ValueBelow(v);
    AddressOfGrid(n, Value(v));
    r, c := GridRow(n, Value(v)), GridCol(n, Value(v));
    DigitsOfValue(v);
  }

  /** A block inside a block lying only on cells holding 1 lies only on such cells. */
  lemma ImplicantWithin(big: seq<nat>, small: seq<nat>, m: map<Cell, nat>, n: nat)
    requires n <= 31 && HasGrid(m, n) && Contains(big, small) && Implicant(big, m, n)
    ensures Implicant(small, m, n)
  {
    forall c: nat, r: nat | InGrid(n, r, c) && Matches(small, GridBits(n, r, c)) ensures m[(c, r)] == 1 {
      ContainsMatches(big, small, GridBits(n, r, c));
    }
  }

  /** The one-cell blocks list every cell holding 1, and none of them has fewer than no twos. */
  lemma LevelZeroReach(m: map<Cell, nat>, n: nat)
    requires n <= 31 && HasGrid(m, n)
    ensures PassesDone(LevelZero(m, n, Height(n), 0), m, n, 0)
  {
    var z := LevelZero(m, n, Height(n), 0);
    LevelZeroInv(m, n);
    LevelZeroFacts(m, n, Height(n), 0);
    forall v: seq<nat> | BlockVector(v, n) && Twos(v) <= 0 && Implicant(v, m, n) ensures Listed(z, v) {
      NoTwosBinary(v);
      var r, c := CellOfBits(n, v);
      assert Matches(v, GridBits(n, r, c));
      assert Before(c, r, Height(n), 0);
    }
  }

  /** A join of blocks of `t` cells has `2t` cells, so one more `2` than they have. */
  lemma NewBlocksLevel(s: seq<KarnaughNode>, s2: seq<KarnaughNode>, m: map<Cell, nat>, n: nat, k: nat)
    requires n <= 31 && HasGrid(m, n) && JoinInv(s2, m, n) && Grows(s, s2, Pow2(k))
    ensures forall j :: |s| <= j < |s2| ==> Twos(s2[j].values) == k + 1
  {
    forall j | |s| <= j < |s2| ensures Twos(s2[j].values) == k + 1 {
      assert Shaped(s2[j], n);
      Pow2Injective(Twos(s2[j].values), k + 1);
    }
  }

  /** Two blocks of `2^k` cells differing at `y` only are marked, and their join is listed. */
  lemma JoinOfPair(s: seq<KarnaughNode>, s2: seq<KarnaughNode>, p: nat, q: nat, k: nat, n: nat, y: nat)
    requires p < |s| && q < |s| && PairJoined(s, s2, p, q, Pow2(k), n)
    requires s[p].numberOfItems == Pow2(k) && s[q].numberOfItems == Pow2(k) && |s[p].values| == n
    requires DifferOnlyAt(s[p].values, s[q].values, y)
    ensures p < |s2| && q < |s2| && s2[p].flag && s2[q].flag && Listed(s2, s[p].values[y := 2])
  {
    DiffCountAt(s[p].values, s[q].values, y, n);
    assert OneApart(s[p].values, s[q].values, n);
    var x: nat :| DifferOnlyAt(s[p].values, s[q].values, x) && Listed(s2, s[p].values[x := 2]);
    assert x == y;
  }

  /** A list of block vectors over `n` inputs, each with its cell count. */
  ghost predicate AllShaped(s: seq<KarnaughNode>, n: nat)
  {
    forall k :: 0 <= k < |s| ==> Shaped(s[k], n)
  }

  /** A pass joins the two halves of every block vector one level up that lies only on 1s. */
  lemma ListedByJoin(s: seq<KarnaughNode>, s2: seq<KarnaughNode>, m: map<Cell, nat>, n: nat, k: nat, v: seq<nat>)
    requires n <= 31 && HasGrid(m, n) && AllListed(s, m, n, k) && AllShaped(s, n)
    requires forall p, q :: 0 <= p < |s| && 0 <= q < |s| ==> PairJoined(s, s2, p, q, Pow2(k), n)
    requires BlockVector(v, n) && Twos(v) == k + 1 && Implicant(v, m, n)
    ensures Listed(s2, v)
  {
    var y := SomeTwo(v);
    var a, b := v[y := 0], v[y := 1];
    Halves(v, y);
    TwosUpdate(v, y, 0);
    TwosUpdate(v, y, 1);
    ImplicantWithin(v, a, m, n);
    ImplicantWithin(v, b, m, n);
    assert BlockVector(a, n) && BlockVector(b, n);
    assert Listed(s, a) && Listed(s, b);
    var p :| 0 <= p < |s| && s[p].values == a;
    var q :| 0 <= q < |s| && s[q].values == b;
    assert Twos(a) == k && Twos(b) == k;
    assert Shaped(s[p], n) && Shaped(s[q], n);
    assert s[p].numberOfItems == Pow2(k) && s[q].numberOfItems == Pow2(k);
    assert PairJoined(s, s2, p, q, Pow2(k), n);
    JoinOfPair(s, s2, p, q, k, n, y);
  }

  /** A block of `2^k` cells that could still be widened is marked by the pass over its size. */
  lemma ExtendableMarked(s: seq<KarnaughNode>, s2: seq<KarnaughNode>, m: map<Cell, nat>, n: nat, k: nat, i: nat, x: nat)
    requires n <= 31 && HasGrid(m, n) && AllListed(s, m, n, k) && AllShaped(s, n)
    requires forall p, q :: 0 <= p < |s| && 0 <= q < |s| ==> PairJoined(s, s2, p, q, Pow2(k), n)
    requires i < |s| && Twos(s[i].values) == k && x < |s[i].values| && s[i].values[x] != 2
    ensures Implicant(s[i].values[x := 2], m, n) ==> i < |s2| && s2[i].flag
  {
    if Implicant(s[i].values[x := 2], m, n) {
      var b := s[i].values;
      assert Shaped(s[i], n);
      var j := FlipListed(s, m, n, k, b, x);
      assert Shaped(s[j], n);
      JoinOfPair(s, s2, i, j, k, n, x);
    }
  }

  /** The block one flip away from a block whose widening lies on 1s is listed too. */
  lemma FlipListed(s: seq<KarnaughNode>, m: map<Cell, nat>, n: nat, k: nat, b: seq<nat>, x: nat) returns (j: nat)
    requires n <= 31 && HasGrid(m, n) && AllListed(s, m, n, k)
    requires BlockVector(b, n) && Twos(b) == k && x < n && b[x] != 2 && Implicant(b[x := 2], m, n)
    ensures j < |s| && s[j].values == b[x := 1 - b[x]] && DifferOnlyAt(b, s[j].values, x) && Twos(s[j].values) == k
  {
    var b2 := b[x := 1 - b[x]];
    Flip(b, x);
    TwosUpdate(b, x, 1 - b[x]);
    ImplicantWithin(b[x := 2], b2, m, n);
    assert BlockVector(b2, n) && Twos(b2) == k;
    assert Listed(s, b2);
    j :| 0 <= j < |s| && s[j].values == b2;
  }

  /**
   * The pass over blocks of `2^k` cells lists every block vector with `k + 1` twos lying only
   * on cells holding 1, and leaves every unmarked block with at most `k` twos prime.
   */
  lemma PassReach(s: seq<KarnaughNode>, s2: seq<KarnaughNode>, m: map<Cell, nat>, n: nat, k: nat)
    requires n <= 31 && HasGrid(m, n) && PassesDone(s, m, n, k)
    requires JoinInv(s2, m, n) && Grows(s, s2, Pow2(k)) && FlagsKept(s, s2)
    requires forall p, q :: 0 <= p < |s| && 0 <= q < |s| ==> PairJoined(s, s2, p, q, Pow2(k), n)
    ensures PassesDone(s2, m, n, k + 1)
  {
    forall v: seq<nat> | BlockVector(v, n) && Twos(v) <= k + 1 && Implicant(v, m, n) ensures Listed(s2, v) {
      if Twos(v) <= k {
        var i :| 0 <= i < |s| && s[i].values == v;
        assert s2[i].values == v;
      } else {
        ListedByJoin(s, s2, m, n, k, v);
      }
    }
    NewBlocksLevel(s, s2, m, n, k);
    forall i | 0 <= i < |s2| && !s2[i].flag && Twos(s2[i].values) < k + 1 ensures Prime(s2[i].values, m, n) {
      assert s2[i].values == s[i].values;
      if Twos(s[i].values) < k {
        assert !s[i].flag;
      } else {
        forall x | 0 <= x < |s[i].values| && s[i].values[x] != 2 ensures !Implicant(s[i].values[x := 2], m, n) {
          ExtendableMarked(s, s2, m, n, k, i, x);
        }
      }
    }
  }

  /** After the passes over every size below the whole map, every unmarked block is prime. */
  lemma PassesPrime(s: seq<KarnaughNode>, m: map<Cell, nat>, n: nat)
    requires n <= 31 && HasGrid(m, n) && PassesDone(s, m, n, n)
    ensures forall i :: 0 <= i < |s| && !s[i].flag ==> Prime(s[i].values, m, n)
  {
    forall i | 0 <= i < |s| && !s[i].flag ensures Prime(s[i].values, m, n) {
      assert Shaped(s[i], n);
      if Twos(s[i].values) == n {
        AllTwos(s[i].values);
      }
    }
  }

  /** The unmarked blocks of a list whose unmarked blocks are prime are prime. */
  lemma UnflaggedPrime(s: seq<KarnaughNode>, m: map<Cell, nat>, n: nat)
    requires n <= 31 && HasGrid(m, n)
    requires forall i :: 0 <= i < |s| && !s[i].flag ==> Prime(s[i].values, m, n)
    ensures forall i :: 0 <= i < |Unflagged(s)| ==> Prime(Unflagged(s)[i].values, m, n)
  {
    UnflaggedMembers(s);
    forall i | 0 <= i < |Unflagged(s)| ensures Prime(Unflagged(s)[i].values, m, n) {
      assert Unflagged(s)[i] in s;
    }
  }

  /** Leaving blocks out keeps every remaining block prime. */
  lemma SubsequencePrime(s: seq<KarnaughNode>, s0: seq<KarnaughNode>, m: map<Cell, nat>, n: nat)
    requires n <= 31 && HasGrid(m, n) && Subsequence(s, s0)
    requires forall i :: 0 <= i < |s0| ==> Prime(s0[i].values, m, n)
    ensures forall i :: 0 <= i < |s| ==> Prime(s[i].values, m, n)
  {
    var idx :| Picks(idx, s, s0);
    forall i | 0 <= i < |s| ensures Prime(s[i].values, m, n) {
      assert s[i] == s0[idx[i]];
    }
  }

  /** Pair facts survive a later step that only marks blocks and appends new ones. */
  lemma PairJoinedKept(s0: seq<KarnaughNode>, s1: seq<KarnaughNode>, s2: seq<KarnaughNode>, p: nat, q: nat, t: nat, n: nat)
    requires PairJoined(s0, s1, p, q, t, n) && Grows(s1, s2, t) && FlagsKept(s1, s2)
    ensures PairJoined(s0, s2, p, q, t, n)
  {
    if p < |s0| && q < |s0| && s0[p].numberOfItems == t && s0[q].numberOfItems == t &&
       OneApart(s0[p].values, s0[q].values, n) {
      var a, b := s0[p].values, s0[q].values;
      var x: nat :| DifferOnlyAt(a, b, x) && Listed(s1, a[x := 2]);
      var c :| 0 <= c < |s1| && s1[c].values == a[x := 2];
      assert s2[c].values == a[x := 2];
    }
  }

  /** Pair facts about the blocks of a later list are facts about the same blocks earlier. */
  lemma PairJoinedEarlier(s0: seq<KarnaughNode>, s1: seq<KarnaughNode>, s: seq<KarnaughNode>, p: nat, q: nat, t: nat, n: nat)
    requires Grows(s0, s1, t) && PairJoined(s1, s, p, q, t, n)
    ensures PairJoined(s0, s, p, q, t, n)
  {
    if p < |s0| && q < |s0| {
      assert s1[p].values == s0[p].values && s1[q].values == s0[q].values;
    }
  }

  /** The pair fact `JoinPair` states about the blocks at `p` and `q`, about the same blocks earlier. */
  lemma PairJoinedNow(s0: seq<KarnaughNode>, s1: seq<KarnaughNode>, s: seq<KarnaughNode>, p: nat, q: nat, t: nat, n: nat)
    requires Grows(s0, s1, t) && p < |s1| && q < |s1| && p < |s| && q < |s|
    requires |s1[p].values| == n && |s1[q].values| == n
    requires s1[p].numberOfItems == t && s1[q].numberOfItems == t && DiffCount(s1[p].values, s1[q].values, n) == 1 ==>
      s[p].flag && s[q].flag && JoinedInto(s1[p].values, s1[q].values, s)
    ensures PairJoined(s0, s, p, q, t, n)
  {
    if p < |s0| && q < |s0| {
      assert s1[p].values == s0[p].values && s1[q].values == s0[q].values;
    }
  }

  /** The pairs of `p` with the blocks before `q` stay joined, and the pair with `q` is now joined. */
  lemma PairsJoinedStep(s0: seq<KarnaughNode>, s1: seq<KarnaughNode>, s: seq<KarnaughNode>, p: nat, q: nat, t: nat, n: nat)
    requires Grows(s0, s1, t) && Grows(s1, s, t) && FlagsKept(s1, s)
    requires forall j :: 0 <= j < q ==> PairJoined(s0, s1, p, j, t, n)
    requires p < |s1| && q < |s1| && |s1[p].values| == n && |s1[q].values| == n
    requires s1[p].numberOfItems == t && s1[q].numberOfItems == t && DiffCount(s1[p].values, s1[q].values, n) == 1 ==>
      s[p].flag && s[q].flag && JoinedInto(s1[p].values, s1[q].values, s)
    ensures forall j :: 0 <= j < q + 1 ==> PairJoined(s0, s, p, j, t, n)
  {
    forall j | 0 <= j < q + 1 ensures PairJoined(s0, s, p, j, t, n) {
      if j < q {
        PairJoinedKept(s0, s1, s, p, j, t, n);
      } else {
        PairJoinedNow(s0, s1, s, p, q, t, n);
      }
    }
  }

  /** The round of the pass that joins the block at `p` of `s0`, after the candidates before `q`. */
  ghost predicate WithState(s0: seq<KarnaughNode>, s: seq<KarnaughNode>, p: nat, q: nat, t: nat,
                            m: map<Cell, nat>, n: nat)
    requires n <= 31 && HasGrid(m, n)
  {
    t >= 1 && q <= |s| && p < |s| && p < |s0| && JoinInv(s, m, n) && Grows(s0, s, t) && FlagsKept(s0, s) &&
    (s0[p].numberOfItems != t ==> s == s0) &&
    forall j :: 0 <= j < q ==> PairJoined(s0, s, p, j, t, n)
  }

  /** The joining pass over blocks of `t` cells after the rounds for the blocks before `p`. */
  ghost predicate LevelState(s0: seq<KarnaughNode>, s: seq<KarnaughNode>, p: nat, t: nat, m: map<Cell, nat>, n: nat)
    requires n <= 31 && HasGrid(m, n)
  {
    t >= 1 && p <= |s| && JoinInv(s, m, n) && Grows(s0, s, t) && FlagsKept(s0, s) &&
    forall i, j :: 0 <= i < p && 0 <= j < |s0| ==> PairJoined(s0, s, i, j, t, n)
  }

  /** One round of the pass over `p`: the pairs of `p` are joined, and earlier pairs stay joined. */
  lemma LevelStep(s0: seq<KarnaughNode>, before: seq<KarnaughNode>, s: seq<KarnaughNode>, p: nat, t: nat,
                  m: map<Cell, nat>, n: nat)
    requires n <= 31 && HasGrid(m, n) && LevelState(s0, before, p, t, m, n) == true && p < |before|
    requires JoinInv(s, m, n) && Grows(before, s, t) && FlagsKept(before, s)
    requires forall q :: 0 <= q < |before| ==> PairJoined(before, s, p, q, t, n)
    ensures LevelState(s0, s, p + 1, t, m, n)
  {
    GrowsTrans(s0, before, s, t);
    LevelPairs(s0, before, s, p, t, n);
  }

  /** The pairs of the blocks before `p` stay joined, and those of `p` are joined now. */
  lemma LevelPairs(s0: seq<KarnaughNode>, before: seq<KarnaughNode>, s: seq<KarnaughNode>, p: nat, t: nat, n: nat)
    requires Grows(s0, before, t) && Grows(before, s, t) && FlagsKept(before, s)
    requires forall i, j :: 0 <= i < p && 0 <= j < |s0| ==> PairJoined(s0, before, i, j, t, n)
    requires forall q :: 0 <= q < |before| ==> PairJoined(before, s, p, q, t, n)
    ensures forall i, j :: 0 <= i < p + 1 && 0 <= j < |s0| ==> PairJoined(s0, s, i, j, t, n)
  {
    forall i, j | 0 <= i < p + 1 && 0 <= j < |s0| ensures PairJoined(s0, s, i, j, t, n) {
      if i < p {
        PairJoinedKept(s0, before, s, i, j, t, n);
      } else {
        PairJoinedEarlier(s0, before, s, p, j, t, n);
      }
    }
  }

  /** The round for `p` starts from the list as it is, with no candidate compared. */
  lemma WithStart(s0: seq<KarnaughNode>, p: nat, t: nat, m: map<Cell, nat>, n: nat)
    requires n <= 31 && HasGrid(m, n) && p < |s0| && t >= 1 && JoinInv(s0, m, n)
    ensures WithState(s0, s0, p, 0, t, m, n)
  {
    assert Grows(s0, s0, t);
  }

  /** The round for `p` is over once every block, appended ones included, was a candidate. */
  lemma WithDone(s0: seq<KarnaughNode>, s: seq<KarnaughNode>, p: nat, q: nat, t: nat, m: map<Cell, nat>, n: nat)
    requires n <= 31 && HasGrid(m, n) && WithState(s0, s, p, q, t, m, n) && q >= |s|
    ensures JoinInv(s, m, n) && Grows(s0, s, t) && FlagsKept(s0, s)
    ensures s0[p].numberOfItems != t ==> s == s0
    ensures forall j :: 0 <= j < |s0| ==> PairJoined(s0, s, p, j, t, n)
  {
  }

  /** Deleting a marked block leaves the unmarked ones as they were. */
  lemma UnflaggedDrop(s: seq<KarnaughNode>, p: nat)
    requires p < |s| && s[p].flag
    ensures Unflagged(Drop(s, p)) == Unflagged(s)
  {
    var front, back := s[..p], s[p + 1..];
    var mid := [s[p]] + back;
    assert s == front + mid;
    assert Drop(s, p) == front + back;
    assert Unflagged([s[p]]) == [] by {
      assert [s[p]][..0] == [];
    }
    calc {
      Unflagged(s);
      Unflagged(front + mid);
      { UnflaggedAppend(front, mid); }
      Unflagged(front) + Unflagged(mid);
      { UnflaggedAppend([s[p]], back); }
      Unflagged(front) + ([] + Unflagged(back));
      { assert [] + Unflagged(back) == Unflagged(back); }
      Unflagged(front) + Unflagged(back);
      { UnflaggedAppend(front, back); }
      Unflagged(front + back);
      Unflagged(Drop(s, p));
    }
  }

  /** A product of naturals is a natural. */
  lemma {:induction false} MulNonneg(a: nat, w: nat)
    ensures a * w >= 0
  {
    if a > 0 {
      MulNonneg(a - 1, w);
      assert a * w == (a - 1) * w + w;
    }
  }

  /** Multiplying by a natural keeps the order. */
  lemma MulMono(a: int, b: int, w: nat)
    ensures a >= b ==> a * w >= b * w
  {
    if a >= b {
      MulNonneg(a - b, w);
      assert (a - b) * w == a * w - b * w;
    }
  }

  /** Euclidean division by a positive `w` has one quotient and remainder. */
  lemma DivModUnique(x: int, w: int, q: int, m: int)
    requires w > 0 && 0 <= m < w && x == q * w + m
    ensures x / w == q && x % w == m
  {
    var d := x / w - q;
    assert d * w == m - x % w;
    MulMono(d, 1, w);
    MulMono(-1, d, w);
  }

  /** A position below `h * w` names cell (`idx % w`, `idx / w`) of a grid `w` wide and `h` high. */
  lemma RowMajor(idx: nat, w: nat, h: nat)
    requires 0 < w && idx < h * w
    ensures idx % w < w && idx / w < h
  {
    var q := idx / w;
    assert q * w <= idx;
    MulMono(q, h, w);
  }

  /** Cell (`c`, `r`) of a grid `w` wide and `h` high sits at position `r * w + c`. */
  lemma RowMajorOf(r: nat, c: nat, w: nat, h: nat)
    requires c < w && r < h
    ensures (r * w + c) % w == c && (r * w + c) / w == r && r * w + c < h * w
  {
    DivModUnique(r * w + c, w, r, c);
    MulMono(h, r + 1, w);
    assert (r + 1) * w == r * w + w;
  }

  /** The cell after (`c`, `r`) in row-major order, and its position. */
  lemma RowMajorNext(r: nat, c: nat, w: nat, h: nat) returns (r': nat, c': nat)
    requires c < w && r < h
    ensures r' * w + c' == r * w + c + 1 && c' < w
    ensures r' * w + c' < h * w <==> r' < h
    ensures r' <= h && (r' == h ==> c' == 0)
    ensures forall x: nat, y: nat :: x < w ==> (Before(x, y, r', c') <==> Before(x, y, r, c) || (x == c && y == r))
  {
    assert (r + 1) * w == r * w + w;
    if c + 1 == w {
      r', c' := r + 1, 0;
    } else {
      r', c' := r, c + 1;
    }
    RowMajorBound(r', c', w, h);
  }

  /** Position `r * w + c` is inside the grid exactly when row `r` is. */
  lemma RowMajorBound(r: nat, c: nat, w: nat, h: nat)
    requires c < w
    ensures r * w + c < h * w <==> r < h
  {
    if r < h {
      RowMajorOf(r, c, w, h);
    } else {
      MulMono(r, h, w);
    }
  }

  /** The vector of a cell's stored address is the cell's vector. */
  lemma CellVector(n: nat, r: nat, c: nat)
    requires n <= 31 && InGrid(n, r, c)
    ensures BoolVector(CellAddress(n, r, c), n) == GridBits(n, r, c)
    ensures |BoolVector(CellAddress(n, r, c), n)| == n
  {
    CellAddressJoin(n, r, c);
    BoolVectorSmall(CellAddress(n, r, c), n);
  }

  /** The scenario map with only the don't-care cells before cell (`j`, `i`) assigned. */
  function ScenarioUpTo(m: map<Cell, nat>, dcare: map<Cell, bool>, n: nat, b: seq<nat>, i: nat, j: nat): map<Cell, nat>
  {
    map k | k in m :: if InGridCell(n, k) && Before(k.0, k.1, i, j) && Lookup(dcare, k, false)
      then (if DigitOf(b, RankBefore(dcare, n, k.1, k.0)) == 1 then 1 else 0)
      else m[k]
  }

  /** Cell (`l`, `k`) is the one cell that `ScenarioUpTo` gains from column `l` to `l + 1`. */
  lemma ScenarioUpToStep(m: map<Cell, nat>, dcare: map<Cell, bool>, n: nat, b: seq<nat>, k: nat, l: nat)
    requires InGrid(n, k, l) && (l, k) in m
    ensures ScenarioUpTo(m, dcare, n, b, k, l + 1) ==
      if Lookup(dcare, (l, k), false)
      then ScenarioUpTo(m, dcare, n, b, k, l)[(l, k) := if DigitOf(b, RankBefore(dcare, n, k, l)) == 1 then 1 else 0]
      else ScenarioUpTo(m, dcare, n, b, k, l)
  {
  }

  /** Before the first cell nothing is assigned. */
  lemma ScenarioUpToStart(m: map<Cell, nat>, dcare: map<Cell, bool>, n: nat, b: seq<nat>)
    ensures ScenarioUpTo(m, dcare, n, b, 0, 0) == m
  {
  }

  /** The end of row `k` is the start of row `k + 1`. */
  lemma ScenarioUpToRow(m: map<Cell, nat>, dcare: map<Cell, bool>, n: nat, b: seq<nat>, k: nat)
    ensures ScenarioUpTo(m, dcare, n, b, k, Width(n)) == ScenarioUpTo(m, dcare, n, b, k + 1, 0)
  {
  }

  /** Past the last row every don't-care cell is assigned. */
  lemma ScenarioUpToEnd(m: map<Cell, nat>, dcare: map<Cell, bool>, n: nat, b: seq<nat>)
    ensures ScenarioUpTo(m, dcare, n, b, Height(n), 0) == ScenarioMap(m, dcare, n, b)
  {
  }

  /** Map `m` is the scenario map of `m0` for scenario `k`, the `dn` binary digits of `k`. */
  ghost predicate ScenarioAt(m: map<Cell, nat>, m0: map<Cell, nat>, dcare: map<Cell, bool>, n: nat, dn: nat, k: nat)
  {
    m == ScenarioMap(m0, dcare, n, Digits(k, dn))
  }


  /** Each of `results` is a solution of the scenario of its own index, over `N` don't-care digits. */
  ghost predicate SolvesAll(m0: map<Cell, nat>, dcare: map<Cell, bool>, n: nat, dn: nat, results: seq<seq<KarnaughNode>>)
    requires n <= 31 && HasGrid(m0, n)
  {
    forall s: nat :: s < |results| ==> Solved(ScenarioMap(m0, dcare, n, Digits(s, dn)), n, results[s])
  }

  /** Appending the solution of the next scenario keeps `SolvesAll`. */
  lemma SolvesAllAppend(m0: map<Cell, nat>, dcare: map<Cell, bool>, n: nat, dn: nat,
                        results: seq<seq<KarnaughNode>>, out: seq<KarnaughNode>)
    requires n <= 31 && HasGrid(m0, n)
    requires SolvesAll(m0, dcare, n, dn, results)
    requires Solved(ScenarioMap(m0, dcare, n, Digits(|results|, dn)), n, out)
    ensures SolvesAll(m0, dcare, n, dn, results + [out])
  {
    var r := results + [out];
    // compared with `true` so that each scenario is checked as one fact
    forall s: nat | s < |r|
      ensures Solved(ScenarioMap(m0, dcare, n, Digits(s, dn)), n, r[s]) == true
    {
      if s < |results| {
        assert r[s] == results[s];
      } else {
        assert r[s] == out;
      }
    }
  }

  /**
   * The scenario search after `i` of the `2^dn` scenarios: each result solves its scenario,
   * `best` is the one selected so far with its block count and `2` count, and the map `m`
   * holds the last scenario solved.
   */
  ghost predicate SearchState(m: map<Cell, nat>, m0: map<Cell, nat>, dcare: map<Cell, bool>, n: nat, dn: nat, i: nat,
                              results: seq<seq<KarnaughNode>>, best: seq<KarnaughNode>, bestc: int, bestsc: nat)
  {
    n <= 31 && HasGrid(m0, n) &&
    i <= Pow2(dn) && |results| == i &&
    SolvesAll(m0, dcare, n, dn, results) &&
    (i == 0 ==> bestc == -1 && m == m0) &&
    (i > 0 ==> bestc == |best| && bestsc == TotalTwos(best) && best == SelectFewest(results) &&
               ScenarioAt(m, m0, dcare, n, dn, i - 1))
  }

  /** After the last scenario the map holds the scenario of the last index, `2^dn - 1`. */
  lemma SearchDone(m: map<Cell, nat>, m0: map<Cell, nat>, dcare: map<Cell, bool>, n: nat, dn: nat, i: nat,
                   results: seq<seq<KarnaughNode>>, best: seq<KarnaughNode>, bestc: int, bestsc: nat)
    requires SearchState(m, m0, dcare, n, dn, i, results, best, bestc, bestsc) && i >= Pow2(dn)
    ensures |results| == Pow2(dn) && results != [] && best == SelectFewest(results)
    ensures i == Pow2(dn) && ScenarioAt(m, m0, dcare, n, dn, i - 1)
  {
  }

  /**
   * A solved scenario: when the scenario map is not uniform, the blocks lie on a cell exactly
   * when it holds 1 or is a don't-care whose scenario digit is 1.
   */
  lemma ScenarioCovers(m: map<Cell, nat>, dcare: map<Cell, bool>, n: nat, b: seq<nat>, out: seq<KarnaughNode>)
    requires n <= 31 && HasGrid(m, n)
    requires Solved(ScenarioMap(m, dcare, n, b), n, out) && !Uniform(ScenarioMap(m, dcare, n, b), n)
    ensures forall c: nat, r: nat :: InGrid(n, r, c) ==>
      (Covered(out, GridBits(n, r, c)) <==>
        if Lookup(dcare, (c, r), false) then DigitOf(b, RankBefore(dcare, n, r, c)) == 1 else m[(c, r)] == 1)
  {
    var sm := ScenarioMap(m, dcare, n, b);
    forall c: nat, r: nat | InGrid(n, r, c)
      ensures Covered(out, GridBits(n, r, c)) <==>
        if Lookup(dcare, (c, r), false) then DigitOf(b, RankBefore(dcare, n, r, c)) == 1 else m[(c, r)] == 1
    {
      assert InGridCell(n, (c, r));
      assert Covered(out, GridBits(n, r, c)) <==> sm[(c, r)] == 1;
    }
  }

  class KarnaughMap {
    var kmap: map<Cell, nat>
    var kmapValues: map<Cell, nat>
    var kmapDCare: map<Cell, bool>
    var blocks: seq<KarnaughNode>
    var numberOfDCares: U32
    var numberOfVariables: nat
    var width: nat
    var height: nat

    /** The map's dimensions and its cells present in the value maps. */
    ghost predicate Shape()
      reads this`numberOfVariables, this`width, this`height, this`kmap, this`kmapDCare
    {
      numberOfVariables <= 31 &&
      width == Width(numberOfVariables) && height == Height(numberOfVariables) &&
      HasGrid(kmap, numberOfVariables) && HasGrid(kmapDCare, numberOfVariables)
    }

    /** `Shape`, and every cell's address in the address table. */
    ghost predicate Valid()
      reads this`numberOfVariables, this`width, this`height, this`kmap, this`kmapDCare, this`kmapValues
    {
      Shape() && Addressed()
    }

    /** Every cell of the grid has its address in the address table. */
    ghost predicate Addressed()
      reads this`numberOfVariables, this`kmapValues
    {
      numberOfVariables <= 31 &&
      forall c: nat, r: nat :: InGrid(numberOfVariables, r, c) ==>
        (c, r) in kmapValues && kmapValues[(c, r)] == CellAddress(numberOfVariables, r, c)
    }

    /** The value `Get` reports: 2 for a don't-care cell, else the stored value (0 if never set). */
    function Get(x: nat, y: nat): nat
      reads this`kmap, this`kmapDCare
    {
      if Lookup(kmapDCare, (x, y), false) then 2 else Lookup(kmap, (x, y), 0)
    }

    /** The address stored for cell (`x`, `y`) (0 if none). */
    function GetMapValue(x: nat, y: nat): nat
      reads this`kmapValues
    {
      Lookup(kmapValues, (x, y), 0)
    }

    /**
     * On a valid map, the address stored for grid cell (`x`, `y`) is the cell's Gray-coded
     * address, and decoding it gives the cell back.
     */
    lemma GetMapValueDecodes(x: nat, y: nat)
      requires Valid() && InGrid(numberOfVariables, y, x)
      ensures GetMapValue(x, y) == CellAddress(numberOfVariables, y, x)
      ensures GridRow(numberOfVariables, GetMapValue(x, y)) == y
      ensures GridCol(numberOfVariables, GetMapValue(x, y)) == x
    {
      GridOfAddress(numberOfVariables, y, x);
    }

    /** The number of don't-care cells of the map. */
    function DCCount(): nat
      reads this`kmapDCare, this`numberOfVariables
    {
      DontCareCount(kmapDCare, numberOfVariables)
    }

    constructor (n: int)
      requires 0 <= n <= 31
      ensures Valid() && numberOfVariables == n && numberOfDCares == 0 && blocks == []
      ensures forall c: nat, r: nat :: InGrid(n, r, c) ==> kmap[(c, r)] == 0 && !kmapDCare[(c, r)]
      ensures DCCount() == 0
    {
      numberOfDCares := 0;
      numberOfVariables := n;
      height := Pow2(n / 2);
      width := Pow2((n + 1) / 2);
      kmap := map[];
      kmapValues := map[];
      kmapDCare := map[];
      blocks := [];
      new;
      ghost var cells0 := kmap;
      ghost var dcare0 := kmapDCare;
      Reset();
      FreshGrid(n, cells0, dcare0, kmap, kmapDCare);
      var values := AddressTable(n);
      kmapValues := values;
      NoDontCares(kmapDCare, n, height, 0);
    }

    /** The constructor's table loop: every cell of the grid gets its Gray-coded address. */
    static method AddressTable(n: nat) returns (values: map<Cell, nat>)
      requires n <= 31
      ensures forall c: nat, r: nat :: InGrid(n, r, c) ==> (c, r) in values && values[(c, r)] == CellAddress(n, r, c)
    {
      values := map[];
      var row: nat := 0;
      while row < Height(n)
        invariant row <= Height(n)
        invariant forall c: nat, r: nat :: InGrid(n, r, c) && r < row ==>
          (c, r) in values && values[(c, r)] == CellAddress(n, r, c)
      {
        var col: nat := 0;
        while col < Width(n)
          invariant col <= Width(n)
          invariant forall c: nat, r: nat :: InGrid(n, r, c) && Before(c, r, row, col) ==>
            (c, r) in values && values[(c, r)] == CellAddress(n, r, c)
        {
          values := values[(col, row) := CellAddress(n, row, col)];
          col := col + 1;
        }
        row := row + 1;
      }
    }

    /** Fills the map with zeros and empties the block list. */
    method Reset()
      modifies this
      ensures kmap == FillRows(old(kmap), height, width, 0)
      ensures kmapDCare == FillRows(old(kmapDCare), height, width, false)
      ensures blocks == []
      ensures kmapValues == old(kmapValues) && numberOfDCares == old(numberOfDCares)
      ensures numberOfVariables == old(numberOfVariables) && width == old(width) && height == old(height)
    {
      var i: nat := 0;
      while i < height
        invariant i <= height
        invariant kmap == FillRows(old(kmap), i, width, 0)
        invariant kmapDCare == FillRows(old(kmapDCare), i, width, false)
        invariant kmapValues == old(kmapValues) && numberOfDCares == old(numberOfDCares)
        invariant numberOfVariables == old(numberOfVariables) && width == old(width) && height == old(height)
      {
        var j: nat := 0;
        while j < width
          invariant j <= width
          invariant kmap == FillRow(FillRows(old(kmap), i, width, 0), i, j, 0)
          invariant kmapDCare == FillRow(FillRows(old(kmapDCare), i, width, false), i, j, false)
          invariant kmapValues == old(kmapValues) && numberOfDCares == old(numberOfDCares)
          invariant numberOfVariables == old(numberOfVariables) && width == old(width) && height == old(height)
        {
          Set(j, i, 0);
          j := j + 1;
        }
        i := i + 1;
      }
      blocks := [];
    }

    /**
     * Stores `value` at cell (`x`, `y`): a value of 2 makes the cell a don't-care and counts
     * one more don't-care (in 32-bit unsigned arithmetic), any other value clears the mark.
     */
    method Set(x: nat, y: nat, value: nat)
      modifies this
      requires value < 0x1_0000
      ensures kmap == old(kmap)[(x, y) := value]
      ensures kmapDCare == old(kmapDCare)[(x, y) := (value == 2)]
      ensures numberOfDCares == if value == 2 then (old(numberOfDCares) + 1) % Word else old(numberOfDCares)
      ensures kmapValues == old(kmapValues) && blocks == old(blocks)
      ensures numberOfVariables == old(numberOfVariables) && width == old(width) && height == old(height)
      ensures Get(x, y) == value
      ensures forall x': nat, y': nat :: (x', y') != (x, y) ==> Get(x', y') == old(Get(x', y'))
      ensures old(Valid()) ==> Valid()
      ensures old(DCCount()) <= old(numberOfDCares) && old(numberOfDCares) + 1 < Word ==> DCCount() <= numberOfDCares
    {
      kmap := kmap[(x, y) := value];
      if value == 2 {
        kmapDCare := kmapDCare[(x, y) := true];
        numberOfDCares := (numberOfDCares + 1) % Word;
        RankSet(old(kmapDCare), (x, y), numberOfVariables, Height(numberOfVariables), 0);
      } else {
        kmapDCare := kmapDCare[(x, y) := false];
        RankClear(old(kmapDCare), (x, y), numberOfVariables, Height(numberOfVariables), 0);
      }
    }

    /**
     * The binary digits of `v`, most significant first, with zeros put in front up to
     * `len` digits: the vector `GetMapBoolValue` builds and the scenario vector of `Solve`.
     */
    static method BinaryVector(v: nat, len: nat) returns (b: seq<nat>)
      ensures b == BoolVector(v, len)
    {
      b := [];
      var i := v;
      while i > 0
        invariant i == ShiftRight(v, |b|) && b == Digits(v, |b|)
        invariant |b| + BitLength(i) == BitLength(v)
      {
        DigitsPrepend(v, |b|);
        ShiftRightStep(v, |b|);
        b := [i % 2] + b;
        i := i / 2;
      }
      var j := |b|;
      while j < len
        invariant j == |b| >= BitLength(v) && b == Digits(v, |b|)
        invariant j <= len || j == BitLength(v)
      {
        DigitsPrepend(v, |b|);
        ShiftRightPastLength(v, |b|);
        b := [0] + b;
        j := j + 1;
      }
    }

    /** The vector of the address stored for cell (`x`, `y`). */
    method GetMapBoolValue(x: nat, y: nat) returns (b: seq<nat>)
      ensures b == BoolVector(GetMapValue(x, y), numberOfVariables)
      ensures Valid() && InGrid(numberOfVariables, y, x) ==> b == GridBits(numberOfVariables, y, x)
    {
      var i := GetMapValue(x, y);
      b := BinaryVector(i, numberOfVariables);
      if Valid() && InGrid(numberOfVariables, y, x) {
        CellAddressJoin(numberOfVariables, y, x);
        BoolVectorSmall(i, numberOfVariables);
      }
    }

    /**
     * One plus the position where `a` and `b` differ when they differ in exactly one
     * position (within `a`'s length), else 0.
     */
    static method IsJoinable(a: seq<nat>, b: seq<nat>) returns (x: nat)
      requires |a| <= |b|
      ensures x > 0 <==> DiffCount(a, b, |a|) == 1
      ensures x > 0 ==> DifferOnlyAt(a, b[..|a|], x - 1)
    {
      var c := 0;
      var last := 0;
      var i := 0;
      while i < |a|
        invariant i <= |a| && c == DiffCount(a, b, i)
        invariant c > 0 ==> last < i && a[last] != b[last] && c == DiffCount(a, b, last) + 1
        invariant c > 0 ==> forall k :: last < k < i ==> a[k] == b[k]
      {
        if a[i] != b[i] {
          c := c + 1;
          last := i;
        }
        i := i + 1;
      }
      if c == 1 {
        DiffCountZero(a, b, last);
        x := last + 1;
      } else {
        x := 0;
      }
    }

    /** Whether the block with vector `a` lies on cell (`x`, `y`). */
    method IsAtCell(x: nat, y: nat, a: seq<nat>) returns (r: bool)
      requires |a| <= |BoolVector(GetMapValue(x, y), numberOfVariables)|
      ensures r <==> Matches(a, BoolVector(GetMapValue(x, y), numberOfVariables))
    {
      var b := GetMapBoolValue(x, y);
      var i := 0;
      while i < |a|
        invariant i <= |a|
        invariant forall k :: 0 <= k < i ==> a[k] == 2 || a[k] == b[k]
      {
        if a[i] != b[i] && a[i] != 2 {
          return false;
        }
        i := i + 1;
      }
      return true;
    }

    /** Whether every cell holds the value of cell (0, 0), scanning the cells in row-major order. */
    method IsUniform() returns (uniform: bool)
      requires Shape()
      ensures uniform <==> Uniform(kmap, numberOfVariables)
    {
      var n := numberOfVariables;
      var zero := kmap[(0, 0)];
      var idx: nat := 0;
      ghost var row: nat, col: nat := 0, 0;
      while idx < height * width
        invariant idx == row * width + col && col < width
        invariant idx < height * width <==> row < height
        invariant row <= height && (row == height ==> col == 0)
        invariant forall c: nat, r: nat :: InGrid(n, r, c) && Before(c, r, row, col) ==> kmap[(c, r)] == zero
      {
        RowMajorOf(row, col, width, height);
        if kmap[(idx % width, idx / width)] != zero {
          return false;
        }
        idx := idx + 1;
        row, col := RowMajorNext(row, col, width, height);
      }
      return true;
    }

    /** `s0` with a one-cell block, of the cell's vector, appended for every cell holding 1. */
    method SeedBlocks(s0: seq<KarnaughNode>) returns (s: seq<KarnaughNode>)
      requires Valid()
      ensures s == s0 + LevelZero(kmap, numberOfVariables, height, 0)
    {
      s := s0;
      var i: nat := 0;
      while i < height
        invariant i <= height
        invariant s == s0 + LevelZero(kmap, numberOfVariables, i, 0)
      {
        s := SeedRow(s, i, s0);
        i := i + 1;
      }
    }

    /** `s1` with the one-cell blocks of the cells of row `i` holding 1 appended. */
    method SeedRow(s1: seq<KarnaughNode>, i: nat, ghost s0: seq<KarnaughNode>) returns (s: seq<KarnaughNode>)
      requires Valid() && i < height && s1 == s0 + LevelZero(kmap, numberOfVariables, i, 0)
      ensures s == s0 + LevelZero(kmap, numberOfVariables, i + 1, 0)
    {
      var n := numberOfVariables;
      s := s1;
      var j: nat := 0;
      while j < width
        invariant j <= width
        invariant s == s0 + LevelZero(kmap, n, i, j)
      {
        s := SeedCell(s, i, j, s0);
        j := j + 1;
      }
    }

    /** The body of that loop: the one-cell block of cell (`j`, `i`) is appended when it holds 1. */
    method SeedCell(s1: seq<KarnaughNode>, i: nat, j: nat, ghost s0: seq<KarnaughNode>) returns (s: seq<KarnaughNode>)
      requires Valid() && i < height && j < width && s1 == s0 + LevelZero(kmap, numberOfVariables, i, j)
      ensures s == s0 + LevelZero(kmap, numberOfVariables, i, j + 1)
    {
      LevelZeroStep(kmap, numberOfVariables, i, j, s0, s1);
      s := s1;
      if kmap[(j, i)] == 1 {
        var v := GetMapBoolValue(j, i);
        s := s + [KarnaughNode(v, 1, false)];
      }
    }

    /** The vector `a` with a `2` at position `x` (a copy of `a` if `x` is past its end). */
    static method JoinValues(a: seq<nat>, x: nat) returns (v: seq<nat>)
      ensures x < |a| ==> v == a[x := 2]
      ensures x >= |a| ==> v == a
    {
      v := [];
      var i := 0;
      while i < |a|
        invariant i <= |a| && |v| == i
        invariant forall k :: 0 <= k < i ==> v[k] == if k == x then 2 else a[k]
      {
        if i != x {
          v := v + [a[i]];
        } else {
          v := v + [2];
        }
        i := i + 1;
      }
    }

    /** Whether some block of `s` has the vector `v`. */
    static method HasBlock(s: seq<KarnaughNode>, v: seq<nat>) returns (exist: bool)
      ensures exist <==> Listed(s, v)
    {
      exist := false;
      var c := 0;
      while c < |s|
        invariant c <= |s|
        invariant exist <==> Listed(s[..c], v)
      {
        if v == s[c].values {
          exist := true;
        }
        assert s[..c + 1] == s[..c] + [s[c]];
        c := c + 1;
      }
      assert s[..c] == s;
    }

    /**
     * Joins the block at `p` of the blocks `s0` of map `m`, when it has `t` cells, with every
     * block of `t` cells that differs from it in one position.
     */
    static method JoinWith(s0: seq<KarnaughNode>, p: nat, t: nat, ghost m: map<Cell, nat>, ghost n: nat)
      returns (s: seq<KarnaughNode>)
      requires n <= 31 && HasGrid(m, n) && p < |s0| && t >= 1 && JoinInv(s0, m, n)
      ensures JoinInv(s, m, n) && Grows(s0, s, t) && FlagsKept(s0, s)
      ensures s0[p].numberOfItems != t ==> s == s0
      ensures forall q :: 0 <= q < |s0| ==> PairJoined(s0, s, p, q, t, n)
    {
      s := s0;
      var q := 0;
      WithStart(s0, p, t, m, n);
      while q < |s|
        invariant WithState(s0, s, p, q, t, m, n)
        decreases ActiveFrom(s, q, t), |s| - q
      {
        s := JoinStep(s0, s, p, q, t, m, n);
        q := q + 1;
      }
      WithDone(s0, s, p, q, t, m, n);
    }

    /** One round of that loop, with the facts its invariants and its termination need. */
    static method JoinStep(s0: seq<KarnaughNode>, s1: seq<KarnaughNode>, p: nat, q: nat, t: nat,
                           ghost m: map<Cell, nat>, ghost n: nat)
      returns (s: seq<KarnaughNode>)
      requires n <= 31 && HasGrid(m, n) && WithState(s0, s1, p, q, t, m, n) && q < |s1|
      ensures |s1| <= |s| && WithState(s0, s, p, q + 1, t, m, n)
      ensures ActiveFrom(s, q + 1, t) < ActiveFrom(s1, q, t) ||
              (ActiveFrom(s, q + 1, t) == ActiveFrom(s1, q, t) && |s| - (q + 1) < |s1| - q)
    {
      s := JoinPair(s1, p, q, t, m, n);
      GrowsTrans(s0, s1, s, t);
      JoinProgress(s1, s, q, t);
      PairsJoinedStep(s0, s1, s, p, q, t, n);
    }

    /**
     * The body of that loop: when the blocks at `p` and `q` both have `t` cells and differ in
     * one position, both are marked and their join is appended unless already present.
     */
    static method JoinPair(s0: seq<KarnaughNode>, p: nat, q: nat, t: nat, ghost m: map<Cell, nat>, ghost n: nat)
      returns (s: seq<KarnaughNode>)
      requires n <= 31 && HasGrid(m, n) && p < |s0| && q < |s0| && t >= 1 && JoinInv(s0, m, n)
      ensures JoinInv(s, m, n) && Grows(s0, s, t) && FlagsKept(s0, s) && p < |s|
      ensures s0[p].numberOfItems != t || s0[q].numberOfItems != t ==> s == s0
      ensures s0[p].numberOfItems == t && s0[q].numberOfItems == t && DiffCount(s0[p].values, s0[q].values, n) == 1 ==>
        s[p].flag && s[q].flag && JoinedInto(s0[p].values, s0[q].values, s)
    {
      s := s0;
      if s[p].numberOfItems == t && s[q].numberOfItems == t {
        var x := IsJoinable(s[p].values, s[q].values);
        if x > 0 {
          assert s[q].values[..|s[p].values|] == s[q].values;
          s := MarkAndAppend(s0, p, q, x - 1);
          JoinPairDone(s0, p, q, x - 1, t, s, m, n);
        } else {
          assert |s0[p].values| == n;
        }
      }
    }

    /** Marks the blocks at `p` and `q` and appends their join at position `x` unless present. */
    static method MarkAndAppend(s0: seq<KarnaughNode>, p: nat, q: nat, x: nat) returns (s: seq<KarnaughNode>)
      requires p < |s0| && q < |s0| && x < |s0[p].values|
      ensures s == AfterJoin(s0, p, q, KarnaughNode(s0[p].values[x := 2], 2 * s0[p].numberOfItems, false))
    {
      var v := JoinValues(s0[p].values, x);
      var node := KarnaughNode(v, s0[p].numberOfItems * 2, false);
      s := s0[p := s0[p].(flag := true)];
      s := s[q := s[q].(flag := true)];
      var exist := HasBlock(s, node.values);
      if !exist {
        s := s + [node];
      }
    }

    /** One joining pass: every block of `t` cells is joined with every block it can join. */
    static method JoinLevel(s0: seq<KarnaughNode>, t: nat, ghost m: map<Cell, nat>, ghost n: nat)
      returns (s: seq<KarnaughNode>)
      requires n <= 31 && HasGrid(m, n) && t >= 1 && JoinInv(s0, m, n)
      ensures JoinInv(s, m, n) && Grows(s0, s, t) && FlagsKept(s0, s)
      ensures forall p, q :: 0 <= p < |s0| && 0 <= q < |s0| ==> PairJoined(s0, s, p, q, t, n)
    {
      s := s0;
      var p := 0;
      assert Grows(s0, s0, t);
      while p < |s|
        // compared with `true` so that the invariant is checked as one fact
        invariant LevelState(s0, s, p, t, m, n) == true
        decreases ActiveFrom(s, p, t), |s| - p
      {
        ghost var before := s;
        s := JoinWith(s, p, t, m, n);
        ActiveSame(before, s, p + 1, t);
        LevelStep(s0, before, s, p, t, m, n);
        p := p + 1;
      }
    }

    /**
     * The passes over blocks of `1, 2, ..., 2^(n-1)` cells: afterwards every block vector lying
     * only on cells holding 1 is listed, and every unmarked block is prime.
     */
    static method JoinPasses(s0: seq<KarnaughNode>, ghost m: map<Cell, nat>, n: nat) returns (s: seq<KarnaughNode>)
      requires n <= 31 && HasGrid(m, n) && PassesDone(s0, m, n, 0)
      ensures PassesDone(s, m, n, n)
    {
      s := s0;
      var level := 1;
      while level <= n
        invariant 1 <= level <= n + 1
        // compared with `true` so that the invariant is checked as one fact
        invariant PassesDone(s, m, n, level - 1) == true
      {
        s := JoinPass(s, level - 1, m, n);
        level := level + 1;
      }
    }

    /** One pass, over the blocks of `2^k` cells, with what it reaches. */
    static method JoinPass(s0: seq<KarnaughNode>, k: nat, ghost m: map<Cell, nat>, ghost n: nat) returns (s: seq<KarnaughNode>)
      requires n <= 31 && HasGrid(m, n) && k < n && PassesDone(s0, m, n, k)
      ensures PassesDone(s, m, n, k + 1)
    {
      var t := Pow2(k);
      s := JoinLevel(s0, t, m, n);
      PassReach(s0, s, m, n, k);
    }

    /** `s0` without its marked blocks, the others kept in order. */
    static method RemoveFlagged(s0: seq<KarnaughNode>) returns (s: seq<KarnaughNode>)
      ensures s == Unflagged(s0)
    {
      s := s0;
      var p := 0;
      while p < |s|
        invariant p <= |s|
        invariant forall k :: 0 <= k < p ==> !s[k].flag
        invariant Unflagged(s) == Unflagged(s0)
        decreases |s| - p
      {
        if s[p].flag {
          UnflaggedDrop(s, p);
          s := Drop(s, p);
        } else {
          p := p + 1;
        }
      }
      UnflaggedAllClear(s);
    }

    /** A map with every cell 0. */
    method ClearedTemp() returns (temp: map<Cell, nat>)
      ensures temp == FillRows(map[], height, width, 0)
    {
      temp := map[];
      var i: nat := 0;
      while i < height
        invariant i <= height && temp == FillRows(map[], i, width, 0)
      {
        var j: nat := 0;
        while j < width
          invariant j <= width && temp == FillRow(FillRows(map[], i, width, 0), i, j, 0)
        {
          temp := temp[(j, i) := 0];
          j := j + 1;
        }
        i := i + 1;
      }
    }

    /** `temp` with 1 drawn at every cell the block with vector `values` lies on. */
    method DrawNode(temp: map<Cell, nat>, values: seq<nat>) returns (temp2: map<Cell, nat>)
      requires Valid() && HasGrid(temp, numberOfVariables) && |values| <= numberOfVariables
      ensures HasGrid(temp2, numberOfVariables)
      ensures forall c: nat, r: nat :: InGrid(numberOfVariables, r, c) ==>
        temp2[(c, r)] == if Matches(values, GridBits(numberOfVariables, r, c)) then 1 else temp[(c, r)]
    {
      var n := numberOfVariables;
      temp2 := temp;
      var i: nat := 0;
      while i < height
        invariant i <= height && HasGrid(temp2, n)
        invariant forall c: nat, r: nat :: InGrid(n, r, c) ==>
          temp2[(c, r)] == if r < i && Matches(values, GridBits(n, r, c)) then 1 else temp[(c, r)]
      {
        temp2 := DrawRow(temp2, values, i, temp);
        i := i + 1;
      }
    }

    /** One row of `DrawNode`: row `i` of `temp1` drawn, the other rows kept. */
    method DrawRow(temp1: map<Cell, nat>, values: seq<nat>, i: nat, ghost temp: map<Cell, nat>) returns (temp2: map<Cell, nat>)
      requires Valid() && HasGrid(temp1, numberOfVariables) && HasGrid(temp, numberOfVariables)
      requires |values| <= numberOfVariables && i < height
      requires forall c: nat, r: nat :: InGrid(numberOfVariables, r, c) ==>
        temp1[(c, r)] == if r < i && Matches(values, GridBits(numberOfVariables, r, c)) then 1 else temp[(c, r)]
      ensures HasGrid(temp2, numberOfVariables)
      ensures forall c: nat, r: nat :: InGrid(numberOfVariables, r, c) ==>
        temp2[(c, r)] == if r < i + 1 && Matches(values, GridBits(numberOfVariables, r, c)) then 1 else temp[(c, r)]
    {
      var n := numberOfVariables;
      temp2 := temp1;
      var j: nat := 0;
      while j < width
        invariant j <= width && HasGrid(temp2, n)
        invariant forall c: nat, r: nat :: InGrid(n, r, c) ==>
          temp2[(c, r)] == if Before(c, r, i, j) && Matches(values, GridBits(n, r, c)) then 1 else temp[(c, r)]
      {
        CellVector(n, i, j);
        var at := IsAtCell(j, i, values);
        ghost var before := temp2;
        if at {
          temp2 := temp2[(j, i) := 1];
        }
        DrawCell(n, i, j, values, temp, before, temp2, at);
        j := j + 1;
      }
    }

    /** Whether `temp` agrees with the map on every cell. */
    method SameAsMap(temp: map<Cell, nat>) returns (del: bool)
      requires Shape() && HasGrid(temp, numberOfVariables)
      ensures del <==> forall c: nat, r: nat :: InGrid(numberOfVariables, r, c) ==> temp[(c, r)] == kmap[(c, r)]
    {
      var n := numberOfVariables;
      del := true;
      var i: nat := 0;
      while i < height
        invariant i <= height
        invariant del && forall c: nat, r: nat :: InGrid(n, r, c) && r < i ==> temp[(c, r)] == kmap[(c, r)]
      {
        var j: nat := 0;
        while j < width
          invariant j <= width
          invariant del && forall c: nat, r: nat :: InGrid(n, r, c) && Before(c, r, i, j) ==> temp[(c, r)] == kmap[(c, r)]
        {
          if temp[(j, i)] != kmap[(j, i)] {
            del := false;
            return;
          }
          j := j + 1;
        }
        i := i + 1;
      }
    }

    /** Whether drawing every block of `s` except the one at `p` gives back the map. */
    method OthersReproduce(s: seq<KarnaughNode>, p: nat) returns (del: bool)
      requires Valid() && p < |s|
      requires forall k :: 0 <= k < |s| ==> |s[k].values| == numberOfVariables
      ensures del <==> Reproduced(s, p, kmap, numberOfVariables)
    {
      var n := numberOfVariables;
      var temp := ClearedTemp();
      FillRowsSpec(map[], height, width, 0);
      var b := 0;
      while b < |s|
        invariant b <= |s| && HasGrid(temp, n)
        invariant forall c: nat, r: nat :: InGrid(n, r, c) ==> temp[(c, r)] == DrawnBelow(s, p, b, n, c, r)
      {
        if b != p {
          temp := DrawNode(temp, s[b].values);
        }
        forall c: nat, r: nat | InGrid(n, r, c) ensures temp[(c, r)] == DrawnBelow(s, p, b + 1, n, c, r) {
          DrawnStep(s, p, b, n, c, r);
        }
        b := b + 1;
      }
      del := SameAsMap(temp);
    }

    /**
     * Visits the blocks of `s0` in order and deletes each one that the remaining blocks make
     * unnecessary; after a deletion the visit goes on with the block that followed it.
     */
    method DropRedundant(s0: seq<KarnaughNode>) returns (s: seq<KarnaughNode>)
      requires Valid() && Clean(s0, numberOfVariables) && Exact(s0, kmap, numberOfVariables)
      ensures Clean(s, numberOfVariables) && Exact(s, kmap, numberOfVariables)
      ensures forall k :: 0 <= k < |s| ==> !Reproduced(s, k, kmap, numberOfVariables)
      ensures Subsequence(s, s0)
    {
      s := s0;
      var p := 0;
      ghost var idx: seq<nat> := seq(|s0|, i => i);
      while p < |s|
        invariant p <= |s| && Picks(idx, s, s0)
        invariant Clean(s, numberOfVariables) && Exact(s, kmap, numberOfVariables)
        invariant forall k :: 0 <= k < p ==> !Reproduced(s, k, kmap, numberOfVariables)
        decreases |s| - p
      {
        var del := OthersReproduce(s, p);
        if del {
          DropKeeps(s, p, kmap, numberOfVariables);
          forall k | 0 <= k < p ensures !Reproduced(Drop(s, p), k, kmap, numberOfVariables) {
            if Reproduced(Drop(s, p), k, kmap, numberOfVariables) {
              DropKeepsNeeded(s, p, k, kmap, numberOfVariables);
            }
          }
          PicksDrop(idx, s, s0, p);
          idx := idx[..p] + idx[p + 1..];
          s := Drop(s, p);
        } else {
          p := p + 1;
        }
      }
    }

    /** Every field except the map and the blocks is as it was. */
    twostate predicate SetupKept()
      reads this`kmapValues, this`kmapDCare, this`numberOfDCares, this`numberOfVariables, this`width, this`height
    {
      kmapValues == old(kmapValues) && kmapDCare == old(kmapDCare) &&
      numberOfDCares == old(numberOfDCares) && numberOfVariables == old(numberOfVariables) &&
      width == old(width) && height == old(height)
    }

    /** Only the block list differs from the pre-state. */
    twostate predicate OnlyBlocksChanged()
      reads this
    {
      kmap == old(kmap) && kmapValues == old(kmapValues) && kmapDCare == old(kmapDCare) &&
      numberOfDCares == old(numberOfDCares) && numberOfVariables == old(numberOfVariables) &&
      width == old(width) && height == old(height)
    }

    /**
     * Solves the map as it stands: a uniform map gives no block or one block over the whole
     * map; otherwise the blocks lie exactly on the cells holding 1, are pairwise distinct,
     * and none can be left out.
     */
    method Solve2()
      modifies this
      requires Valid() && blocks == []
      ensures OnlyBlocksChanged() && Valid()
      ensures Solved(kmap, numberOfVariables, blocks)
    {
      var uniform := IsUniform();
      var s;
      if uniform {
        s := UniformBlocks();
      } else {
        s := SolveBlocks(blocks);
      }
      blocks := s;
    }

    /** The uniform case of `Solve2`: no block when every cell is 0, else one block of the whole map. */
    method UniformBlocks() returns (s: seq<KarnaughNode>)
      requires Shape() && Uniform(kmap, numberOfVariables)
      ensures Solved(kmap, numberOfVariables, s)
    {
      s := [];
      if kmap[(0, 0)] != 0 {
        var node := KarnaughNode(seq(width * height, _ => 2), width * height, false);
        s := s + [node];
      }
    }

    /**
     * The general case of `Solve2`, starting from the block list `s0` (empty when called from
     * `Solve2`): the one-cell blocks, the joining passes, the removal of the marked blocks
     * and the removal of the unnecessary ones.
     */
    method SolveBlocks(s0: seq<KarnaughNode>) returns (s: seq<KarnaughNode>)
      requires Valid() && s0 == []
      ensures Clean(s, numberOfVariables) && Exact(s, kmap, numberOfVariables)
      ensures forall k :: 0 <= k < |s| ==> !Reproduced(s, k, kmap, numberOfVariables)
      ensures forall k :: 0 <= k < |s| ==> Prime(s[k].values, kmap, numberOfVariables)
    {
      var n := numberOfVariables;
      s := SeedBlocks(s0);
      assert s == LevelZero(kmap, n, Height(n), 0);
      LevelZeroReach(kmap, n);
      s := JoinPasses(s, kmap, n);
      ghost var joined := s;
      PassesPrime(joined, kmap, n);
      UnflaggedPrime(joined, kmap, n);
      s := RemoveFlagged(s);
      FlagRemovalKeeps(joined, kmap, n);
      ghost var unmarked := s;
      s := DropRedundant(s);
      SubsequencePrime(s, unmarked, kmap, n);
    }

    /** The number of `2` digits over all blocks of `s`. */
    static method CountTwos(s: seq<KarnaughNode>) returns (sc: nat)
      ensures sc == TotalTwos(s)
    {
      sc := 0;
      var k := 0;
      while k < |s|
        invariant k <= |s| && sc == TotalTwos(s[..k])
      {
        var i := 0;
        while i < |s[k].values|
          invariant i <= |s[k].values| && sc == TotalTwos(s[..k]) + Twos(s[k].values[..i])
        {
          assert s[k].values[..i + 1][..i] == s[k].values[..i];
          if s[k].values[i] == 2 {
            sc := sc + 1;
          }
          i := i + 1;
        }
        assert s[k].values[..i] == s[k].values;
        assert s[..k + 1][..k] == s[..k];
        k := k + 1;
      }
      assert s[..k] == s;
    }

    /**
     * The map with every don't-care cell set from the scenario vector `b`, read in row-major
     * order: 1 where the digit is 1, else 0.
     */
    method ScenarioCells(b: seq<nat>) returns (m: map<Cell, nat>)
      requires Shape() && DCCount() <= |b|
      ensures m == ScenarioMap(kmap, kmapDCare, numberOfVariables, b)
    {
      var n := numberOfVariables;
      m := kmap;
      ScenarioUpToStart(kmap, kmapDCare, n, b);
      var c: nat := 0;
      var k: nat := 0;
      while k < height
        invariant k <= height
        invariant c == RankBefore(kmapDCare, n, k, 0)
        invariant m == ScenarioUpTo(kmap, kmapDCare, n, b, k, 0)
      {
        c, m := ScenarioRow(b, k, c, m);
        k := k + 1;
      }
      ScenarioUpToEnd(kmap, kmapDCare, n, b);
    }

    /** One row of `ScenarioCells`. */
    method ScenarioRow(b: seq<nat>, k: nat, c0: nat, m0: map<Cell, nat>) returns (c: nat, m: map<Cell, nat>)
      requires Shape() && DCCount() <= |b| && k < height
      requires c0 == RankBefore(kmapDCare, numberOfVariables, k, 0)
      requires m0 == ScenarioUpTo(kmap, kmapDCare, numberOfVariables, b, k, 0)
      ensures c == RankBefore(kmapDCare, numberOfVariables, k + 1, 0)
      ensures m == ScenarioUpTo(kmap, kmapDCare, numberOfVariables, b, k + 1, 0)
    {
      var n := numberOfVariables;
      c, m := c0, m0;
      var l: nat := 0;
      while l < width
        invariant l <= width
        invariant c == RankBefore(kmapDCare, n, k, l)
        invariant m == ScenarioUpTo(kmap, kmapDCare, n, b, k, l)
      {
        assert InGrid(n, k, l);
        ScenarioUpToStep(kmap, kmapDCare, n, b, k, l);
        if kmapDCare[(l, k)] {
          RankBelowCount(kmapDCare, n, k, l);
          m := m[(l, k) := if b[c] == 1 then 1 else 0];
          c := c + 1;
        }
        l := l + 1;
      }
      ScenarioUpToRow(kmap, kmapDCare, n, b, k);
    }

    /** Sets the don't-care cells from scenario `b` and solves the resulting map. */
    method RunScenario(b: seq<nat>)
      modifies this
      requires Valid() && DCCount() <= |b|
      ensures kmap == ScenarioMap(old(kmap), kmapDCare, numberOfVariables, b)
      ensures SetupKept()
      ensures Valid() && Solved(kmap, numberOfVariables, blocks)
    {
      blocks := [];
      var m := ScenarioCells(b);
      kmap := m;
      Solve2();
    }

    /** The candidate `cand` replaces `best` when `best` is still unset, has more blocks, or as many blocks and fewer `2` digits. */
    static method KeepBetter(ghost results: seq<seq<KarnaughNode>>, best0: seq<KarnaughNode>, bestc0: int, bestsc0: nat, cand: seq<KarnaughNode>)
      returns (best: seq<KarnaughNode>, bestc: int, bestsc: nat)
      requires results == [] ==> bestc0 == -1
      requires results != [] ==> bestc0 == |best0| && bestsc0 == TotalTwos(best0) && best0 == SelectFewest(results)
      ensures bestc == |best| && bestsc == TotalTwos(best) && best == SelectFewest(results + [cand])
    {
      best, bestc, bestsc := best0, bestc0, bestsc0;
      if bestc == -1 || |cand| <= bestc {
        var sc := CountTwos(cand);
        if bestc == -1 || |cand| < bestc {
          best := cand;
          bestc := |best|;
          bestsc := sc;
        } else {
          if sc > bestsc {
            best := cand;
            bestc := |best|;
            bestsc := sc;
          }
        }
      }
      assert (results + [cand])[..|results|] == results;
    }

    /** Scenario `i` of `dn` don't-care digits: assigns its don't-care cells and solves the map. */
    method NextScenario(i: nat, dn: nat, ghost m0: map<Cell, nat>)
      modifies this
      requires Valid() && DCCount() <= dn && i < Pow2(dn)
      requires i == 0 ==> kmap == m0
      requires i > 0 ==> ScenarioAt(kmap, m0, kmapDCare, numberOfVariables, dn, i - 1)
      ensures SetupKept()
      ensures Valid()
      ensures ScenarioAt(kmap, m0, kmapDCare, numberOfVariables, dn, i)
      ensures Solved(kmap, numberOfVariables, blocks)
    {
      var b := BinaryVector(i, dn);
      BoolVectorSmall(i, dn);
      if i > 0 {
        ScenarioMapTwice(m0, kmapDCare, numberOfVariables, Digits(i - 1, dn), b);
      }
      RunScenario(b);
    }

    /**
     * The state of the scenario search after `i` scenarios: each result solves its scenario,
     * `best` is the one selected so far with its block count and `2` count, and the map holds
     * the last scenario.
     */
    ghost predicate Progress(i: nat, dn: nat, m0: map<Cell, nat>, results: seq<seq<KarnaughNode>>,
                             best: seq<KarnaughNode>, bestc: int, bestsc: nat)
      reads this`numberOfVariables, this`width, this`height, this`kmap, this`kmapDCare, this`kmapValues, this`numberOfDCares
    {
      Valid() && DCCount() <= dn && HasGrid(m0, numberOfVariables) && numberOfDCares == dn &&
      SearchState(kmap, m0, kmapDCare, numberOfVariables, dn, i, results, best, bestc, bestsc)
    }

    /**
     * One round of the scenario search: solves scenario `i` and keeps the better solution.
     * (`Progress` is compared with `true` so that callers check it as one fact.)
     */
    method Step(i: nat, dn: nat, ghost m0: map<Cell, nat>, ghost results0: seq<seq<KarnaughNode>>,
                best0: seq<KarnaughNode>, bestc0: int, bestsc0: nat)
      returns (ghost results: seq<seq<KarnaughNode>>, best: seq<KarnaughNode>, bestc: int, bestsc: nat)
      modifies this
      requires Progress(i, dn, m0, results0, best0, bestc0, bestsc0) == true && i < Pow2(dn)
      ensures SetupKept()
      ensures results == results0 + [blocks]
      ensures Progress(i + 1, dn, m0, results, best, bestc, bestsc)
    {
      NextScenario(i, dn, m0);
      best, bestc, bestsc := KeepBetter(results0, best0, bestc0, bestsc0, blocks);
      SolvesAllAppend(m0, kmapDCare, numberOfVariables, dn, results0, blocks);
      results := results0 + [blocks];
    }


    /**
     * Solves every scenario of the don't-care cells, scenario `i` taking the binary digits of
     * `i` (most significant first) for the don't-cares in row-major order, and keeps the
     * solution with the fewest blocks, among equals the first with the most `2` digits.
     */
    method Solve() returns (result: seq<KarnaughNode>, ghost results: seq<seq<KarnaughNode>>)
      modifies this
      requires Valid() && numberOfDCares < 32 && DCCount() <= numberOfDCares
      ensures SetupKept()
      ensures Valid()
      ensures |results| == Pow2(numberOfDCares)
      ensures SolvesAll(old(kmap), kmapDCare, numberOfVariables, numberOfDCares, results)
      ensures result == blocks && result == SelectFewest(results)
      ensures exists m: nat :: FewestAt(results, m) && result == results[m]
      ensures ScenarioAt(kmap, old(kmap), kmapDCare, numberOfVariables, numberOfDCares, Pow2(numberOfDCares) - 1)
    {
      var dn := numberOfDCares;
      ghost var m0 := kmap;
      var best, bestc, bestsc;
      results, best, bestc, bestsc := Search(dn, m0);
      blocks := best;
      result := blocks;
      SearchOutcome(dn, m0, results, best, bestc, bestsc);
    }

    /** What the finished search gives `Solve`: every result, the selected one, the last scenario. */
    lemma SearchOutcome(dn: nat, m0: map<Cell, nat>, results: seq<seq<KarnaughNode>>,
                        best: seq<KarnaughNode>, bestc: int, bestsc: nat)
      requires Progress(Pow2(dn), dn, m0, results, best, bestc, bestsc)
      ensures Valid() && HasGrid(m0, numberOfVariables) && numberOfDCares == dn && |results| == Pow2(dn)
      ensures SolvesAll(m0, kmapDCare, numberOfVariables, dn, results)
      ensures best == SelectFewest(results)
      ensures exists m: nat :: FewestAt(results, m) && best == results[m]
      ensures ScenarioAt(kmap, m0, kmapDCare, numberOfVariables, dn, Pow2(dn) - 1)
    {
      SearchDone(kmap, m0, kmapDCare, numberOfVariables, dn, Pow2(dn), results, best, bestc, bestsc);
      SelectFewestRule(results);
    }

    /** The loop of that search: every scenario is solved in turn and the better solution kept. */
    method Search(dn: nat, ghost m0: map<Cell, nat>)
      returns (ghost results: seq<seq<KarnaughNode>>, best: seq<KarnaughNode>, bestc: int, bestsc: nat)
      modifies this
      requires Valid() && numberOfDCares == dn && dn < 32 && DCCount() <= dn && kmap == m0
      ensures SetupKept()
      ensures Progress(Pow2(dn), dn, m0, results, best, bestc, bestsc)
    {
      best := [];
      bestc := -1;
      bestsc := 0;
      results := [];
      var i: nat := 0;
      while i < Pow2(dn)
        invariant i <= Pow2(dn)
        // compared with `true` so that the verifier checks `Progress` as one fact, not conjunct by conjunct
        invariant Progress(i, dn, m0, results, best, bestc, bestsc) == true && SetupKept()
      {
        results, best, bestc, bestsc := Step(i, dn, m0, results, best, bestc, bestsc);
        i := i + 1;
      }
    }
  }

  lemma {:induction false} NoDontCares(dcare: map<Cell, bool>, n: nat, i: nat, j: nat)
    requires forall c: nat, r: nat :: InGrid(n, r, c) ==> (c, r) in dcare && !dcare[(c, r)]
    requires (i < Height(n) && j <= Width(n)) || (i == Height(n) && j == 0)
    ensures RankBefore(dcare, n, i, j) == 0
    decreases i, j
  {
    if j == 0 {
      if i > 0 {
        NoDontCares(dcare, n, i - 1, Width(n));
      }
    } else {
      NoDontCares(dcare, n, i, j - 1);
    }
  }
}
