/**
 * The blocks of the legacy map solver: a block is a vector with one digit per input,
 * `0` or `1` where every cell of the block agrees on that input and `2` where the block
 * spans both values, together with its cell count and a mark set when it has been joined
 * into a larger block.
 */
module KarnaughNodes {
  import opened Bits
  import opened BinaryDigits

  /** A map key: (column, row), the order the legacy map uses for its pairs. */
  type Cell = (nat, nat)

  datatype KarnaughNode = KarnaughNode(values: seq<nat>, numberOfItems: nat, flag: bool)

  /** `m[k]` of an ordered map: a missing key reads as the default value. */
  function Lookup<K, V>(m: map<K, V>, k: K, default: V): V
  {
    if k in m then m[k] else default
  }

  // ----- binary vectors -----

  /** The number of binary digits of `v` (none for zero). */
  function BitLength(v: nat): (k: nat)
    ensures v < Pow2(k)
  {
    if v == 0 then 0 else 1 + BitLength(v / 2)
  }

  lemma {:induction false} BitLengthAtMost(v: nat, n: nat)
    requires v < Pow2(n)
    ensures BitLength(v) <= n
  {
    if v > 0 {
      BitLengthAtMost(v / 2, n - 1);
    }
  }

  lemma {:induction false} ShiftRightPastLength(v: nat, k: nat)
    requires BitLength(v) <= k
    ensures ShiftRight(v, k) == 0
  {
    if k > 0 {
      ShiftRightPastLength(v / 2, k - 1);
    }
  }

  /**
   * The vector built by taking the binary digits of `v`, most significant first, and
   * putting zeros in front until it has at least `len` entries.
   */
  function BoolVector(v: nat, len: nat): (d: seq<nat>)
    ensures IsBinary(d)
  {
    Digits(v, if BitLength(v) < len then len else BitLength(v))
  }

  /** The vector loses nothing: it denotes `v`, and it has `max(bits of v, len)` entries. */
  lemma BoolVectorValue(v: nat, len: nat)
    ensures Value(BoolVector(v, len)) == v
    ensures |BoolVector(v, len)| == if BitLength(v) < len then len else BitLength(v)
  {
    var k := if BitLength(v) < len then len else BitLength(v);
    ValueOfDigits(v, k);
    Pow2Monotone(BitLength(v), k);
    LowBitsOfSmall(v, k);
  }

  /** Below `2^len` the vector is exactly the `len` low digits. */
  lemma BoolVectorSmall(v: nat, len: nat)
    requires v < Pow2(len)
    ensures BoolVector(v, len) == Digits(v, len)
  {
    BitLengthAtMost(v, len);
  }

  // ----- comparing block vectors -----

  /** The number of positions below `k` where `a` and `b` differ. */
  function DiffCount(a: seq<nat>, b: seq<nat>, k: nat): nat
    requires k <= |a| && k <= |b|
  {
    if k == 0 then 0 else DiffCount(a, b, k - 1) + (if a[k - 1] != b[k - 1] then 1 else 0)
  }

  /** Vectors `a` and `b` of `n` digits differ in exactly one position. */
  predicate OneApart(a: seq<nat>, b: seq<nat>, n: nat)
  {
    |a| == n && |b| == n && DiffCount(a, b, n) == 1
  }

  /** Differing at `x` only counts one difference, once the count has passed `x`. */
  lemma {:induction false} DiffCountAt(a: seq<nat>, b: seq<nat>, x: nat, k: nat)
    requires DifferOnlyAt(a, b, x) && k <= |a|
    ensures DiffCount(a, b, k) == if x < k then 1 else 0
  {
    if k > 0 {
      DiffCountAt(a, b, x, k - 1);
    }
  }

  lemma {:induction false} DiffCountSymmetric(a: seq<nat>, b: seq<nat>, k: nat)
    requires k <= |a| && k <= |b|
    ensures DiffCount(a, b, k) == DiffCount(b, a, k)
  {
    if k > 0 {
      DiffCountSymmetric(a, b, k - 1);
    }
  }

  lemma {:induction false} DiffCountZero(a: seq<nat>, b: seq<nat>, k: nat)
    requires k <= |a| && k <= |b| && DiffCount(a, b, k) == 0
    ensures forall i :: 0 <= i < k ==> a[i] == b[i]
  {
    if k > 0 {
      DiffCountZero(a, b, k - 1);
    }
  }

  /** The block `values` lies on the cell whose vector is `bits`. */
  predicate Matches(values: seq<nat>, bits: seq<nat>)
  {
    |values| <= |bits| && forall i :: 0 <= i < |values| ==> values[i] == 2 || values[i] == bits[i]
  }

  /** The number of `2` digits: a block with `t` of them spans `2^t` cells. */
  function Twos(v: seq<nat>): (t: nat)
    ensures t <= |v|
  {
    if v == [] then 0 else Twos(v[..|v| - 1]) + (if v[|v| - 1] == 2 then 1 else 0)
  }

  /** A vector with a positive `2` count has a `2` somewhere. */
  lemma {:induction false} SomeTwo(v: seq<nat>) returns (y: nat)
    requires Twos(v) > 0
    ensures y < |v| && v[y] == 2
    decreases |v|
  {
    var k := |v| - 1;
    if v[k] == 2 {
      y := k;
    } else {
      y := SomeTwo(v[..k]);
    }
  }

  /** When every digit counts as a `2`, every digit is a `2`. */
  lemma {:induction false} AllTwos(v: seq<nat>)
    requires Twos(v) == |v|
    ensures forall i :: 0 <= i < |v| ==> v[i] == 2
    decreases |v|
  {
    if v != [] {
      var k := |v| - 1;
      AllTwos(v[..k]);
      assert forall i :: 0 <= i < k ==> v[i] == v[..k][i];
    }
  }

  /** Digits 0, 1 and 2 without a `2` are binary digits. */
  lemma {:induction false} NoTwosBinary(v: seq<nat>)
    requires Twos(v) == 0 && forall i :: 0 <= i < |v| ==> v[i] <= 2
    ensures IsBinary(v)
    decreases |v|
  {
    if v != [] {
      var k := |v| - 1;
      NoTwosBinary(v[..k]);
      assert forall i :: 0 <= i < k ==> v[i] == v[..k][i];
    }
  }

  /** The number of `2` digits over all blocks of a solution. */
  function TotalTwos(blocks: seq<KarnaughNode>): nat
  {
    if blocks == [] then 0 else TotalTwos(blocks[..|blocks| - 1]) + Twos(blocks[|blocks| - 1].values)
  }

  /** A block over `n` inputs: digits 0, 1 or 2, and as many cells as its `2`s span. */
  predicate Shaped(node: KarnaughNode, n: nat)
  {
    |node.values| == n && (forall i :: 0 <= i < n ==> node.values[i] <= 2) &&
    node.numberOfItems == Pow2(Twos(node.values))
  }

  /** Every cell of block `small` is a cell of block `big`. */
  predicate Contains(big: seq<nat>, small: seq<nat>)
  {
    |big| == |small| && forall i :: 0 <= i < |small| ==> big[i] == 2 || big[i] == small[i]
  }

  lemma ContainsTransitive(a: seq<nat>, b: seq<nat>, c: seq<nat>)
    requires Contains(a, b) && Contains(b, c)
    ensures Contains(a, c)
  {
  }

  lemma ContainsMatches(big: seq<nat>, small: seq<nat>, bits: seq<nat>)
    requires Contains(big, small) && Matches(small, bits)
    ensures Matches(big, bits)
  {
  }

  /** A block strictly containing another has strictly more `2` digits. */
  lemma {:induction false} ContainsTwos(big: seq<nat>, small: seq<nat>)
    requires Contains(big, small)
    ensures Twos(big) >= Twos(small)
    ensures big != small ==> Twos(big) > Twos(small)
    decreases |big|
  {
    if big != [] {
      var k := |big| - 1;
      assert Contains(big[..k], small[..k]);
      ContainsTwos(big[..k], small[..k]);
      if big[..k] == small[..k] && big[k] == small[k] {
        assert big == big[..k] + [big[k]] && small == small[..k] + [small[k]];
      }
    }
  }

  lemma {:induction false} TwosUpdate(v: seq<nat>, p: nat, x: nat)
    requires p < |v|
    ensures Twos(v[p := x]) + (if v[p] == 2 then 1 else 0) == Twos(v) + (if x == 2 then 1 else 0)
    decreases |v|
  {
    var k := |v| - 1;
    if p < k {
      assert v[p := x][..k] == v[..k][p := x];
      TwosUpdate(v[..k], p, x);
    } else {
      assert v[p := x][..k] == v[..k];
    }
  }

  lemma {:induction false} Pow2Injective(j: nat, k: nat)
    requires Pow2(j) == Pow2(k)
    ensures j == k
  {
    if j < k {
      Pow2Monotone(j + 1, k);
    } else if k < j {
      Pow2Monotone(k + 1, j);
    }
  }

  /** Two blocks agree everywhere except at position `p`, where they differ. */
  predicate DifferOnlyAt(a: seq<nat>, b: seq<nat>, p: nat)
  {
    |a| == |b| && p < |a| && a[p] != b[p] && forall i :: 0 <= i < |a| && i != p ==> a[i] == b[i]
  }

  /**
   * Joining two blocks of the same size that differ in exactly one digit: that digit is
   * 0 or 1 in both, and the new block, the first one with a `2` there, is a block of
   * twice the size strictly containing both.
   */
  lemma JoinStep(a: KarnaughNode, b: KarnaughNode, p: nat, n: nat)
    requires Shaped(a, n) && Shaped(b, n) && a.numberOfItems == b.numberOfItems
    requires DifferOnlyAt(a.values, b.values, p)
    ensures a.values[p] <= 1 && b.values[p] <= 1
    ensures Shaped(KarnaughNode(a.values[p := 2], 2 * a.numberOfItems, false), n)
    ensures Contains(a.values[p := 2], a.values) && a.values[p := 2] != a.values
    ensures Contains(a.values[p := 2], b.values) && a.values[p := 2] != b.values
  {
    Pow2Injective(Twos(a.values), Twos(b.values));
    TwosUpdate(a.values, p, 2);
    TwosUpdate(b.values, p, 2);
    assert a.values[p := 2] == b.values[p := 2];
    assert a.values[p := 2][p] == 2;
  }

  /** A block with a `2` at `y` is the join at `y` of its two halves, which it contains. */
  lemma Halves(v: seq<nat>, y: nat)
    requires y < |v| && v[y] == 2
    ensures DifferOnlyAt(v[y := 0], v[y := 1], y) && v[y := 0][y := 2] == v
    ensures Contains(v, v[y := 0]) && Contains(v, v[y := 1])
  {
  }

  /** Flipping a binary digit gives a block that the widened block also contains. */
  lemma Flip(v: seq<nat>, x: nat)
    requires x < |v| && v[x] <= 1
    ensures DifferOnlyAt(v, v[x := 1 - v[x]], x) && Contains(v[x := 2], v[x := 1 - v[x]])
  {
  }

  /** A cell of the joined block is a cell of one of the two blocks joined. */
  lemma JoinedMatches(a: seq<nat>, b: seq<nat>, p: nat, bits: seq<nat>)
    requires DifferOnlyAt(a, b, p) && a[p] <= 1 && b[p] <= 1
    requires IsBinary(bits) && Matches(a[p := 2], bits)
    ensures Matches(a, bits) || Matches(b, bits)
  {
    if bits[p] == a[p] {
      assert Matches(a, bits);
    } else {
      assert Matches(b, bits);
    }
  }

  // ----- the list of blocks -----

  /** No two blocks of the list have the same vector. */
  predicate DistinctValues(s: seq<KarnaughNode>)
  {
    forall p, q :: 0 <= p < q < |s| ==> s[p].values != s[q].values
  }

  /** Some block of the list lies on the cell with vector `bits`. */
  predicate Covered(s: seq<KarnaughNode>, bits: seq<nat>)
  {
    exists k :: 0 <= k < |s| && Matches(s[k].values, bits)
  }

  /** Every marked block is strictly contained in some block of the list. */
  ghost predicate Chained(s: seq<KarnaughNode>)
  {
    forall k :: 0 <= k < |s| && s[k].flag ==>
      exists w :: 0 <= w < |s| && Contains(s[w].values, s[k].values) && s[w].values != s[k].values
  }

  /** Following the containments from a block ends at an unmarked block containing it. */
  lemma {:induction false} ChainEnds(s: seq<KarnaughNode>, k: nat, n: nat)
    requires Chained(s) && k < |s| && |s[k].values| == n
    ensures exists w :: 0 <= w < |s| && !s[w].flag && Contains(s[w].values, s[k].values)
    decreases n - Twos(s[k].values)
  {
    if s[k].flag {
      var w :| 0 <= w < |s| && Contains(s[w].values, s[k].values) && s[w].values != s[k].values;
      ContainsTwos(s[w].values, s[k].values);
      ChainEnds(s, w, n);
      var u :| 0 <= u < |s| && !s[u].flag && Contains(s[u].values, s[w].values);
      ContainsTransitive(s[u].values, s[w].values, s[k].values);
    } else {
      assert Contains(s[k].values, s[k].values);
    }
  }

  /** The unmarked blocks, in order. */
  function Unflagged(s: seq<KarnaughNode>): (r: seq<KarnaughNode>)
    ensures |r| <= |s|
  {
    if s == [] then []
    else Unflagged(s[..|s| - 1]) + (if s[|s| - 1].flag then [] else [s[|s| - 1]])
  }

  lemma {:induction false} UnflaggedMembers(s: seq<KarnaughNode>)
    ensures forall x :: x in Unflagged(s) <==> x in s && !x.flag
  {
    if s != [] {
      UnflaggedMembers(s[..|s| - 1]);
      assert s == s[..|s| - 1] + [s[|s| - 1]];
    }
  }

  lemma {:induction false} UnflaggedAppend(s: seq<KarnaughNode>, t: seq<KarnaughNode>)
    ensures Unflagged(s + t) == Unflagged(s) + Unflagged(t)
    decreases |t|
  {
    if t == [] {
      assert s + t == s;
    } else {
      assert (s + t)[..|s + t| - 1] == s + t[..|t| - 1];
      UnflaggedAppend(s, t[..|t| - 1]);
    }
  }

  lemma {:induction false} UnflaggedAllClear(s: seq<KarnaughNode>)
    requires forall k :: 0 <= k < |s| ==> !s[k].flag
    ensures Unflagged(s) == s
  {
    if s != [] {
      UnflaggedAllClear(s[..|s| - 1]);
    }
  }

  /** Keeping only some blocks keeps the vectors distinct. */
  lemma {:induction false} UnflaggedDistinct(s: seq<KarnaughNode>)
    requires DistinctValues(s)
    ensures DistinctValues(Unflagged(s))
  {
    if s != [] {
      var init := s[..|s| - 1];
      UnflaggedDistinct(init);
      UnflaggedMembers(init);
      var last := s[|s| - 1];
      if !last.flag {
        forall p | 0 <= p < |Unflagged(init)| ensures Unflagged(init)[p].values != last.values {
          var x := Unflagged(init)[p];
          assert x in init;
          var q :| 0 <= q < |init| && init[q] == x;
        }
      }
    }
  }

  /** `idx` picks the blocks of `s` out of `s0`, at increasing positions. */
  ghost predicate Picks(idx: seq<nat>, s: seq<KarnaughNode>, s0: seq<KarnaughNode>)
  {
    |idx| == |s| &&
    (forall i :: 0 <= i < |idx| ==> idx[i] < |s0| && s[i] == s0[idx[i]]) &&
    (forall i, j :: 0 <= i < j < |idx| ==> idx[i] < idx[j])
  }

  /** `s` is `s0` with some blocks left out and the others in their order. */
  ghost predicate Subsequence(s: seq<KarnaughNode>, s0: seq<KarnaughNode>)
  {
    exists idx: seq<nat> :: Picks(idx, s, s0)
  }

  /** The list without its block at position `p`. */
  function Drop(s: seq<KarnaughNode>, p: nat): (r: seq<KarnaughNode>)
    requires p < |s|
    ensures |r| == |s| - 1
    ensures forall k :: 0 <= k < p ==> r[k] == s[k]
    ensures forall k :: p <= k < |r| ==> r[k] == s[k + 1]
  {
    s[..p] + s[p + 1..]
  }

  /** Leaving out one more block keeps the picks. */
  lemma PicksDrop(idx: seq<nat>, s: seq<KarnaughNode>, s0: seq<KarnaughNode>, p: nat)
    requires Picks(idx, s, s0) && p < |s|
    ensures Picks(idx[..p] + idx[p + 1..], Drop(s, p), s0)
  {
    var idx2 := idx[..p] + idx[p + 1..];
    forall i | 0 <= i < |idx2| ensures idx2[i] == if i < p then idx[i] else idx[i + 1] {
    }
  }

  /** An unmarked block on a cell is a block on it. */
  lemma UnflaggedCovers(s: seq<KarnaughNode>, bits: seq<nat>)
    requires Covered(Unflagged(s), bits)
    ensures Covered(s, bits)
  {
    var u := Unflagged(s);
    UnflaggedMembers(s);
    var k :| 0 <= k < |u| && Matches(u[k].values, bits);
    assert u[k] in s;
    var j :| 0 <= j < |s| && s[j] == u[k];
  }

  /** In a chained list, a cell some block lies on has an unmarked block on it. */
  lemma ChainCovers(s: seq<KarnaughNode>, bits: seq<nat>)
    requires Chained(s) && Covered(s, bits)
    ensures Covered(Unflagged(s), bits)
  {
    var u := Unflagged(s);
    UnflaggedMembers(s);
    var k :| 0 <= k < |s| && Matches(s[k].values, bits);
    ChainEnds(s, k, |s[k].values|);
    var w :| 0 <= w < |s| && !s[w].flag && Contains(s[w].values, s[k].values);
    ContainsMatches(s[w].values, s[k].values, bits);
    assert s[w] in u;
    var v :| 0 <= v < |u| && u[v] == s[w];
  }
}
