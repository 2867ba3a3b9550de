/**
 * What the reduction pass over a list of solution entries keeps invariant: the addresses
 * the list covers, a forward chain from every marked entry to an entry covering at least
 * as much, and a census of entries by mask size that falls lexicographically with every
 * scanned entry.
 */
module Reduction {
  import opened Bits
  import opened SolutionEntries

  /** Some entry of `s` covers address `a`. */
  ghost predicate CoveredBy(s: seq<SolutionEntry>, a: nat)
  {
    exists k :: 0 <= k < |s| && s[k].Covers(a)
  }

  predicate AllWellFormed(s: seq<SolutionEntry>)
  {
    forall k :: 0 <= k < |s| ==> s[k].WellFormed()
  }

  predicate NoneDeleted(s: seq<SolutionEntry>)
  {
    forall k :: 0 <= k < |s| ==> !s[k].IsDeleted()
  }

  /** Every address `e` covers, `f` covers too. */
  ghost predicate Subsumes(e: SolutionEntry, f: SolutionEntry)
  {
    forall a: nat :: e.Covers(a) ==> f.Covers(a)
  }

  /** Every marked entry has a later entry that covers at least as much. */
  ghost predicate Chained(s: seq<SolutionEntry>)
  {
    forall k :: 0 <= k < |s| && s[k].IsDeleted() ==> exists w :: k < w < |s| && Subsumes(s[k], s[w])
  }

  /** Every address an entry of `s` covers is covered by `input`. */
  ghost predicate Sound(s: seq<SolutionEntry>, input: seq<SolutionEntry>)
  {
    forall k, a: nat :: 0 <= k < |s| && s[k].Covers(a) ==> CoveredBy(input, a)
  }

  /** `remove_if(IsDeleted)`: the unmarked entries, in order. */
  function RemoveDeleted(s: seq<SolutionEntry>): (r: seq<SolutionEntry>)
    ensures NoneDeleted(r)
    ensures forall e :: e in r <==> e in s && !e.IsDeleted()
    ensures |r| <= |s|
  {
    if s == [] then []
    else (if s[0].IsDeleted() then [] else [s[0]]) + RemoveDeleted(s[1..])
  }

  /** The number of entries of `s` whose mask has `l` bits set. */
  function Census(s: seq<SolutionEntry>, l: nat): (c: nat)
    ensures c <= |s|
  {
    if s == [] then 0 else (if PopCount(s[0].mask) == l then 1 else 0) + Census(s[1..], l)
  }

  // ----- lemmas about marking and merging -----

  lemma SubsumesEqual(e: SolutionEntry, f: SolutionEntry, e': SolutionEntry, f': SolutionEntry)
    requires e.Equal(e') && f.Equal(f') && Subsumes(e, f)
    ensures Subsumes(e', f')
  {
    assert forall a: nat :: e'.Covers(a) == e.Covers(a) && f'.Covers(a) == f.Covers(a);
  }

  /** Marking entry `k` keeps the chain when a later entry `w` covers at least as much. */
  lemma ChainedMark(s: seq<SolutionEntry>, k: nat, w: nat)
    requires k < w < |s| && Chained(s) && Subsumes(s[k], s[w])
    ensures Chained(s[k := s[k].MarkForDeletion()])
  {
    var t := s[k := s[k].MarkForDeletion()];
    forall m | 0 <= m < |t| && t[m].IsDeleted() ensures exists v :: m < v < |t| && Subsumes(t[m], t[v]) {
      var v := if m == k then w else var v' :| m < v' < |s| && Subsumes(s[m], s[v']); v';
      SubsumesEqual(t[m], t[v], s[m], s[v]);
    }
  }

  /** Appending an unmarked entry keeps the chain. */
  lemma ChainedAppend(s: seq<SolutionEntry>, e: SolutionEntry)
    requires Chained(s) && !e.IsDeleted()
    ensures Chained(s + [e])
  {
    var t := s + [e];
    forall m | 0 <= m < |t| && t[m].IsDeleted() ensures exists v :: m < v < |t| && Subsumes(t[m], t[v]) {
      var v :| m < v < |s| && Subsumes(s[m], s[v]);
      assert t[m] == s[m] && t[v] == s[v];
    }
  }

  /** Marking keeps soundness and well-formedness. */
  lemma SoundMark(s: seq<SolutionEntry>, k: nat, input: seq<SolutionEntry>)
    requires k < |s| && Sound(s, input)
    ensures Sound(s[k := s[k].MarkForDeletion()], input)
  {
    var t := s[k := s[k].MarkForDeletion()];
    forall m, a: nat | 0 <= m < |t| && t[m].Covers(a) ensures CoveredBy(input, a) {
      assert s[m].Covers(a);
    }
  }

  /** A merged pair covers exactly what its two parents cover. */
  lemma MergeSubsumes(e1: SolutionEntry, e2: SolutionEntry)
    requires e1.WellFormed() && e2.WellFormed() && Combinable(e1, e2)
    ensures Subsumes(e1, Merge(e1, e2)) && Subsumes(e2, Merge(e1, e2))
  {
    forall a: nat ensures Merge(e1, e2).Covers(a) <==> e1.Covers(a) || e2.Covers(a) {
      MergeCovers(e1, e2, a);
    }
  }

  /** Appending the merge of two entries of a sound, well-formed list keeps both properties. */
  lemma SoundAppendMerge(s: seq<SolutionEntry>, i: nat, j: nat, input: seq<SolutionEntry>)
    requires i < |s| && j < |s| && AllWellFormed(s) && Sound(s, input)
    requires Combinable(s[i], s[j])
    ensures AllWellFormed(s + [Merge(s[i], s[j])])
    ensures Sound(s + [Merge(s[i], s[j])], input)
  {
    var e := Merge(s[i], s[j]);
    MergeShrinks(s[i], s[j]);
    var t := s + [e];
    forall m, a: nat | 0 <= m < |t| && t[m].Covers(a) ensures CoveredBy(input, a) {
      if m == |s| {
        MergeCovers(s[i], s[j], a);
        if s[i].Covers(a) {
          assert CoveredBy(input, a);
        } else {
          assert s[j].Covers(a);
        }
      } else {
        assert s[m].Covers(a);
      }
    }
  }

  lemma EqualSubsumes(e: SolutionEntry, f: SolutionEntry)
    requires e.Equal(f)
    ensures Subsumes(e, f)
  {
  }

  lemma WellFormedMark(s: seq<SolutionEntry>, k: nat)
    requires k < |s| && AllWellFormed(s)
    ensures AllWellFormed(s[k := s[k].MarkForDeletion()])
  {
  }

  /** The list after the merge step of the scan: the merged entry appended, both parents marked. */
  function AfterMerge(s: seq<SolutionEntry>, i: nat, j: nat): (t: seq<SolutionEntry>)
    requires i < |s| && j < |s|
    ensures |t| == |s| + 1
  {
    (s + [s[i].ComputeNewEntry(s[i].ComputeXOR(s[j]))])[i := s[i].MarkForDeletion()][j := s[j].MarkForDeletion()]
  }

  /** The merge step keeps the old cubes, appends one entry a level down, and keeps every invariant. */
  lemma MergeStepKeeps(s: seq<SolutionEntry>, i: nat, j: nat, input: seq<SolutionEntry>)
    requires i < j < |s| && Combinable(s[i], s[j])
    ensures forall k :: 0 <= k < |s| ==> AfterMerge(s, i, j)[k].Equal(s[k])
    ensures PopCount(AfterMerge(s, i, j)[|s|].mask) + 1 == PopCount(s[i].mask)
    ensures AllWellFormed(s) ==> AllWellFormed(AfterMerge(s, i, j))
    ensures AllWellFormed(s) && Sound(s, input) ==> Sound(AfterMerge(s, i, j), input)
    ensures AllWellFormed(s) && Chained(s) ==> Chained(AfterMerge(s, i, j))
  {
    var e := Merge(s[i], s[j]);
    var t1 := s + [e];
    var t2 := t1[i := s[i].MarkForDeletion()];
    var t3 := t2[j := s[j].MarkForDeletion()];
    assert t3 == AfterMerge(s, i, j);
    MergeLevel(s[i], s[j]);
    if AllWellFormed(s) {
      MergeShrinks(s[i], s[j]);
      assert AllWellFormed(t1);
      MergeSubsumes(s[i], s[j]);
      WellFormedMark(t1, i);
      assert t2[j] == s[j];
      WellFormedMark(t2, j);
      if Sound(s, input) {
        SoundAppendMerge(s, i, j, input);
        SoundMark(t1, i, input);
        SoundMark(t2, j, input);
      }
      if Chained(s) {
        ChainedAppend(s, e);
        ChainedMark(t1, i, |s|);
        ChainedMark(t2, j, |s|);
      }
    }
  }

  // ----- the surviving entries -----

  /** Following the chain forward ends at an unmarked entry covering the same address. */
  lemma {:induction false} ChainEndsUnmarked(s: seq<SolutionEntry>, k: nat, a: nat)
    requires k < |s| && Chained(s) && s[k].Covers(a)
    ensures CoveredBy(RemoveDeleted(s), a)
    decreases |s| - k
  {
    if s[k].IsDeleted() {
      var w :| k < w < |s| && Subsumes(s[k], s[w]);
      ChainEndsUnmarked(s, w, a);
    } else {
      assert s[k] in RemoveDeleted(s);
      var r := RemoveDeleted(s);
      var p :| 0 <= p < |r| && r[p] == s[k];
    }
  }

  /** The unmarked entries cover nothing more than the whole list. */
  lemma RemoveDeletedSound(s: seq<SolutionEntry>, input: seq<SolutionEntry>)
    requires Sound(s, input)
    ensures Sound(RemoveDeleted(s), input)
  {
    var r := RemoveDeleted(s);
    forall m, a: nat | 0 <= m < |r| && r[m].Covers(a) ensures CoveredBy(input, a) {
      assert r[m] in s;
      var k :| 0 <= k < |s| && s[k] == r[m];
    }
  }

  lemma RemoveDeletedWellFormed(s: seq<SolutionEntry>)
    requires AllWellFormed(s)
    ensures AllWellFormed(RemoveDeleted(s))
  {
    var r := RemoveDeleted(s);
    forall m | 0 <= m < |r| ensures r[m].WellFormed() {
      assert r[m] in s;
    }
  }

  // ----- the census -----

  lemma {:induction false} CensusAppend(s: seq<SolutionEntry>, t: seq<SolutionEntry>, l: nat)
    ensures Census(s + t, l) == Census(s, l) + Census(t, l)
    decreases |s|
  {
    if s != [] {
      assert (s + t)[0] == s[0];
      assert (s + t)[1..] == s[1..] + t;
      CensusAppend(s[1..], t, l);
    } else {
      assert s + t == t;
    }
  }

  lemma {:induction false} CensusSameMasks(s: seq<SolutionEntry>, t: seq<SolutionEntry>, l: nat)
    requires |s| == |t| && forall k :: 0 <= k < |s| ==> s[k].mask == t[k].mask
    ensures Census(s, l) == Census(t, l)
    decreases |s|
  {
    if s != [] {
      CensusSameMasks(s[1..], t[1..], l);
    }
  }

  lemma {:induction false} CensusUniform(s: seq<SolutionEntry>, q: nat, l: nat)
    requires forall k :: 0 <= k < |s| ==> PopCount(s[k].mask) == q
    ensures Census(s, l) == if l == q then |s| else 0
    decreases |s|
  {
    if s != [] {
      CensusUniform(s[1..], q, l);
    }
  }

  /** A mask of a 32-bit word has at most 32 bits set. */
  lemma MaskLevel(e: SolutionEntry)
    ensures PopCount(e.mask) <= 32
  {
    Pow2Word();
    PopCountBelow(e.mask, 32);
  }

  /**
   * Scanning entry `i` leaves the entries after it with their masks and appends entries one
   * level below it: the census of the unscanned part is unchanged above the level `q` of
   * entry `i` and one lower at `q`.
   */
  lemma CensusStep(before: seq<SolutionEntry>, after: seq<SolutionEntry>, i: nat, l: nat)
    requires i < |before| <= |after|
    requires forall k :: 0 <= k < |before| ==> after[k].mask == before[k].mask
    requires forall k :: |before| <= k < |after| ==> PopCount(after[k].mask) + 1 == PopCount(before[i].mask)
    requires l >= PopCount(before[i].mask)
    ensures Census(after[i + 1..], l) + (if l == PopCount(before[i].mask) then 1 else 0) == Census(before[i..], l)
  {
    var q := PopCount(before[i].mask);
    assert after[i + 1..] == after[i + 1..|before|] + after[|before|..];
    CensusAppend(after[i + 1..|before|], after[|before|..], l);
    CensusSameMasks(after[i + 1..|before|], before[i + 1..], l);
    if |after| > |before| {
      assert PopCount(after[|before|].mask) + 1 == q;
      CensusUniform(after[|before|..], q - 1, l);
    } else {
      assert after[|before|..] == [];
    }
    assert before[i..][1..] == before[i + 1..];
  }

  // ----- the exact effect of one scan -----

  /** The first position from `j` on of an entry equal to `s[i]`, or `|s|` when there is none. */
  function FirstEqual(s: seq<SolutionEntry>, i: nat, j: nat): (stop: nat)
    requires i < |s| && j <= |s|
    ensures j <= stop <= |s|
    ensures forall k :: j <= k < stop ==> !s[i].Equal(s[k])
    ensures stop < |s| ==> s[i].Equal(s[stop])
    decreases |s| - j
  {
    if j == |s| then |s| else if s[i].Equal(s[j]) then j else FirstEqual(s, i, j + 1)
  }

  /** The merged entries the scan of `s[i]` appends while comparing it with `s[i + 1..c]`, in order. */
  function Merges(s: seq<SolutionEntry>, i: nat, c: nat): (m: seq<SolutionEntry>)
    requires i < c <= |s|
    ensures |m| < c - i
    ensures forall k :: 0 <= k < |m| ==> !m[k].IsDeleted() && PopCount(m[k].mask) + 1 == PopCount(s[i].mask)
    decreases c
  {
    if c == i + 1 then []
    else if Combinable(s[i], s[c - 1]) then
      MergeLevel(s[i], s[c - 1]);
      Merges(s, i, c - 1) + [Merge(s[i], s[c - 1])]
    else Merges(s, i, c - 1)
  }

  /**
   * `s` once the scan of `s[i]` has compared it with `s[i + 1..c]` and met no equal entry:
   * every combinable partner marked, `s[i]` marked if it had one, and the merges appended.
   */
  function ScanTo(s: seq<SolutionEntry>, i: nat, c: nat): (t: seq<SolutionEntry>)
    requires i < c <= |s|
    ensures |t| == |s| + |Merges(s, i, c)|
  {
    seq(|s|, k requires 0 <= k < |s| =>
      if (k == i && Merges(s, i, c) != []) || (i < k < c && Combinable(s[i], s[k])) then s[k].MarkForDeletion() else s[k])
    + Merges(s, i, c)
  }

  /** How many of the first `n` positions a scan standing at position `j` has passed. */
  function Compared(j: nat, n: nat): (c: nat)
    ensures c <= n && c <= j && (j < n ==> c == j)
  {
    if j < n then j else n
  }

  /**
   * The whole scan of `s[i]`: it runs to the first later entry equal to `s[i]`, which marks
   * `s[i]` and ends it, or to the end of the list.
   */
  function ScanResult(s: seq<SolutionEntry>, i: nat): seq<SolutionEntry>
    requires i < |s|
  {
    var stop := FirstEqual(s, i, i + 1);
    if stop < |s| then ScanTo(s, i, stop)[i := s[i].MarkForDeletion()] else ScanTo(s, i, |s|)
  }

  /** Comparing `s[i]` with one more entry `s[c]`: a combinable one is merged as the loop does. */
  lemma ScanToNext(s: seq<SolutionEntry>, i: nat, c: nat)
    requires i < c < |s|
    ensures ScanTo(s, i, c + 1) ==
      if Combinable(ScanTo(s, i, c)[i], ScanTo(s, i, c)[c]) then AfterMerge(ScanTo(s, i, c), i, c) else ScanTo(s, i, c)
  {
    var t := ScanTo(s, i, c);
    CompareIgnoresMarks(s[i], s[c], t[i], t[c]);
    var t' := ScanTo(s, i, c + 1);
    assert t[c] == s[c];
    if Combinable(s[i], s[c]) {
      var after := AfterMerge(t, i, c);
      assert Merge(t[i], t[c]) == Merge(s[i], s[c]);
      assert Merges(s, i, c + 1) == Merges(s, i, c) + [Merge(s[i], s[c])];
      forall k | 0 <= k < |t'| ensures t'[k] == after[k] {
        if k >= |s| {
          assert t'[k] == Merges(s, i, c + 1)[k - |s|];
        }
      }
    } else {
      forall k | 0 <= k < |t'| ensures t'[k] == t[k] {
        if k >= |s| {
          assert t'[k] == Merges(s, i, c + 1)[k - |s|];
        }
      }
    }
  }

  /** No merge means no combinable partner among the entries compared. */
  lemma {:induction false} MergesNone(s: seq<SolutionEntry>, i: nat, c: nat)
    requires i < c <= |s| && Merges(s, i, c) == []
    ensures forall k :: i < k < c ==> !Combinable(s[i], s[k])
    decreases c
  {
    if c > i + 1 {
      MergesNone(s, i, c - 1);
    }
  }

  /**
   * Part way through the scan: the old entries keep their masks, numbers and marks, the
   * appended ones lie a level below `s[i]`, nothing from `c` on has changed, and an unmarked
   * `s[i]` has met no partner.
   */
  lemma ScanToFacts(s: seq<SolutionEntry>, i: nat, c: nat)
    requires i < c <= |s|
    ensures forall k :: 0 <= k < |s| ==> ScanTo(s, i, c)[k].Equal(s[k])
    ensures forall k :: 0 <= k < |s| && s[k].IsDeleted() ==> ScanTo(s, i, c)[k].IsDeleted()
    ensures forall k :: c <= k < |s| ==> ScanTo(s, i, c)[k] == s[k]
    ensures forall k :: |s| <= k < |ScanTo(s, i, c)| ==> PopCount(ScanTo(s, i, c)[k].mask) + 1 == PopCount(s[i].mask)
    ensures !ScanTo(s, i, c)[i].IsDeleted() ==>
      |ScanTo(s, i, c)| == |s| && forall k :: i < k < c ==> !Combinable(s[i], s[k])
  {
    var t := ScanTo(s, i, c);
    forall k | |s| <= k < |t| ensures PopCount(t[k].mask) + 1 == PopCount(s[i].mask) {
      assert t[k] == Merges(s, i, c)[k - |s|];
    }
    if !t[i].IsDeleted() {
      MergesNone(s, i, c);
    }
  }

  /**
   * What the whole scan of `s[i]` leaves: the old entries keep their masks, numbers and
   * marks, every appended entry lies a level below `s[i]`, and `s[i]` ends marked unless no
   * later entry equals it or can be merged with it.
   */
  lemma ScanResultFacts(s: seq<SolutionEntry>, i: nat)
    requires i < |s|
    ensures |ScanResult(s, i)| >= |s|
    ensures forall k :: 0 <= k < |s| ==> ScanResult(s, i)[k].Equal(s[k])
    ensures forall k :: 0 <= k < |s| && s[k].IsDeleted() ==> ScanResult(s, i)[k].IsDeleted()
    ensures forall k :: |s| <= k < |ScanResult(s, i)| ==> PopCount(ScanResult(s, i)[k].mask) + 1 == PopCount(s[i].mask)
    ensures var t := ScanResult(s, i);
      t[i].IsDeleted() || forall k :: i < k < |t| ==> !t[i].Equal(t[k]) && !Combinable(t[i], t[k])
  {
    var stop := FirstEqual(s, i, i + 1);
    var t := ScanResult(s, i);
    if stop < |s| {
      ScanToFacts(s, i, stop);
    } else {
      ScanToFacts(s, i, |s|);
      if !t[i].IsDeleted() {
        forall k | i < k < |t| ensures !t[i].Equal(t[k]) && !Combinable(t[i], t[k]) {
          CompareIgnoresMarks(s[i], s[k], t[i], t[k]);
        }
      }
    }
  }

  /**
   * The state of the scan of `s0[i]` standing at position `j` of `s`: `s` is the list after
   * comparing with every old entry before `j`, none of them equal, and every invariant the
   * flags ask for holds.
   */
  ghost predicate ScanState(s0: seq<SolutionEntry>, s: seq<SolutionEntry>, i: nat, j: nat,
                            input: seq<SolutionEntry>, wf: bool, sound: bool, chained: bool)
  {
    i < |s0| && i < j <= |s| && s == ScanTo(s0, i, Compared(j, |s0|)) && Compared(j, |s0|) <= FirstEqual(s0, i, i + 1) &&
    (sound || chained ==> wf) && (wf ==> AllWellFormed(s)) && (sound ==> Sound(s, input)) && (chained ==> Chained(s))
  }

  /** An appended entry lies a level below `s[i]`, so it is neither equal to nor mergeable with it. */
  lemma ScanPastOld(s: seq<SolutionEntry>, i: nat, k: nat)
    requires i < |s| <= k < |ScanTo(s, i, |s|)|
    ensures !ScanTo(s, i, |s|)[i].Equal(ScanTo(s, i, |s|)[k]) && !ScanTo(s, i, |s|)[i].MaskEqual(ScanTo(s, i, |s|)[k])
  {
    ScanToFacts(s, i, |s|);
  }

  /** The scan begins with nothing compared. */
  lemma ScanStart(s0: seq<SolutionEntry>, i: nat, input: seq<SolutionEntry>)
    requires i < |s0|
    ensures ScanState(s0, s0, i, i + 1, input, AllWellFormed(s0), AllWellFormed(s0) && Sound(s0, input),
                      AllWellFormed(s0) && Chained(s0))
  {
    assert s0 == ScanTo(s0, i, i + 1);
  }

  /** An equal entry at `j` ends the scan: marking `s[i]` gives its result and keeps the invariants. */
  lemma ScanStopsAt(s0: seq<SolutionEntry>, s: seq<SolutionEntry>, i: nat, j: nat,
                    input: seq<SolutionEntry>, wf: bool, sound: bool, chained: bool)
    requires ScanState(s0, s, i, j, input, wf, sound, chained) == true && j < |s| && s[i].Equal(s[j])
    ensures j < |s0| && s[i := s[i].MarkForDeletion()] == ScanResult(s0, i)
    ensures wf ==> AllWellFormed(s[i := s[i].MarkForDeletion()])
    ensures sound ==> Sound(s[i := s[i].MarkForDeletion()], input)
    ensures chained ==> Chained(s[i := s[i].MarkForDeletion()])
  {
    if j >= |s0| {
      ScanPastOld(s0, i, j);
    }
    ScanToFacts(s0, i, j);
    CompareIgnoresMarks(s0[i], s0[j], s[i], s[j]);
    ScanStops(s0, i, j);
    EqualMarkKeeps(s, i, j, input);
  }

  /** A scan that reaches the end of the list has its result. */
  lemma ScanEnds(s0: seq<SolutionEntry>, s: seq<SolutionEntry>, i: nat, j: nat,
                 input: seq<SolutionEntry>, wf: bool, sound: bool, chained: bool)
    requires ScanState(s0, s, i, j, input, wf, sound, chained) == true && j == |s|
    ensures s == ScanResult(s0, i)
  {
    ScanRunsOut(s0, i);
  }

  /** Comparing with a non-equal entry at `j` that cannot be merged changes nothing. */
  lemma ScanSkips(s0: seq<SolutionEntry>, s: seq<SolutionEntry>, i: nat, j: nat,
                  input: seq<SolutionEntry>, wf: bool, sound: bool, chained: bool)
    requires ScanState(s0, s, i, j, input, wf, sound, chained) && j < |s| && !s[i].Equal(s[j]) && !Combinable(s[i], s[j])
    ensures ScanState(s0, s, i, j + 1, input, wf, sound, chained)
  {
    ScanAdvances(s0, s, i, j);
    if j < |s0| {
      ScanToNext(s0, i, j);
    }
  }

  /** Merging a combinable entry at `j` is the next step of the scan and keeps the invariants. */
  lemma ScanMerges(s0: seq<SolutionEntry>, s: seq<SolutionEntry>, i: nat, j: nat,
                   input: seq<SolutionEntry>, wf: bool, sound: bool, chained: bool)
    requires ScanState(s0, s, i, j, input, wf, sound, chained) && j < |s| && !s[i].Equal(s[j]) && Combinable(s[i], s[j])
    ensures ScanState(s0, AfterMerge(s, i, j), i, j + 1, input, wf, sound, chained)
    ensures j < |s0|
  {
    if j >= |s0| {
      ScanPastOld(s0, i, j);
    }
    ScanAdvances(s0, s, i, j);
    ScanToNext(s0, i, j);
    MergeStepKeeps(s, i, j, input);
  }

  /** A non-equal old entry at `j` moves the first equal entry past `j`. */
  lemma ScanAdvances(s0: seq<SolutionEntry>, s: seq<SolutionEntry>, i: nat, j: nat)
    requires i < j < |s| && |s0| <= |s| && i < |s0| && s == ScanTo(s0, i, Compared(j, |s0|))
    requires Compared(j, |s0|) <= FirstEqual(s0, i, i + 1) && !s[i].Equal(s[j])
    ensures Compared(j + 1, |s0|) <= FirstEqual(s0, i, i + 1)
  {
    if j < |s0| {
      var stop := FirstEqual(s0, i, i + 1);
      assert s[j] == s0[j] && s[i].Equal(s0[i]);
      CompareIgnoresMarks(s0[i], s0[j], s[i], s[j]);
      assert stop != j;
    }
  }

  /** Marking an entry that a later one equals keeps every invariant of the scan. */
  lemma EqualMarkKeeps(s: seq<SolutionEntry>, i: nat, j: nat, input: seq<SolutionEntry>)
    requires i < j < |s| && s[i].Equal(s[j])
    ensures AllWellFormed(s) ==> AllWellFormed(s[i := s[i].MarkForDeletion()])
    ensures Sound(s, input) ==> Sound(s[i := s[i].MarkForDeletion()], input)
    ensures Chained(s) ==> Chained(s[i := s[i].MarkForDeletion()])
  {
    if Chained(s) {
      EqualSubsumes(s[i], s[j]);
      ChainedMark(s, i, j);
    }
    if Sound(s, input) {
      SoundMark(s, i, input);
    }
    if AllWellFormed(s) {
      WellFormedMark(s, i);
    }
  }

  /** The scan ends at the first equal entry `s[j]`, marking `s[i]`. */
  lemma ScanStops(s: seq<SolutionEntry>, i: nat, j: nat)
    requires i < j < |s| && j <= FirstEqual(s, i, i + 1) && s[i].Equal(s[j])
    ensures ScanTo(s, i, j)[i := s[i].MarkForDeletion()] == ScanResult(s, i)
  {
    var stop := FirstEqual(s, i, i + 1);
    assert stop == j;
  }

  /** The scan ends at the end of the list when no later entry equals `s[i]`. */
  lemma ScanRunsOut(s: seq<SolutionEntry>, i: nat)
    requires i < |s| && FirstEqual(s, i, i + 1) == |s|
    ensures ScanTo(s, i, |s|) == ScanResult(s, i)
  {
  }

  /** Equality and combinability look only at masks and numbers, never at the marks. */
  lemma CompareIgnoresMarks(e: SolutionEntry, f: SolutionEntry, e': SolutionEntry, f': SolutionEntry)
    requires e.Equal(e') && f.Equal(f')
    ensures e.Equal(f) <==> e'.Equal(f')
    ensures Combinable(e, f) <==> Combinable(e', f')
  {
  }

  /** Combinability does not depend on the order of the pair. */
  lemma CombinableSymmetric(e: SolutionEntry, f: SolutionEntry)
    ensures Combinable(e, f) <==> Combinable(f, e)
  {
    if e.MaskEqual(f) {
      ComputeXorSymmetric(e, f);
    }
  }

  // ----- what the whole pass leaves -----

  /** Every entry's mask has as many bits set as the first one's. */
  predicate SameLevel(s: seq<SolutionEntry>)
  {
    forall k :: 0 <= k < |s| ==> PopCount(s[k].mask) == PopCount(s[0].mask)
  }

  /** No two entries are equal, and no two could be merged. */
  predicate Irreducible(s: seq<SolutionEntry>)
  {
    forall x, y :: 0 <= x < |s| && 0 <= y < |s| && x != y ==> !s[x].Equal(s[y]) && !Combinable(s[x], s[y])
  }

  /** Mask sizes never grow along the list. */
  ghost predicate LevelsFall(s: seq<SolutionEntry>)
  {
    forall k, l :: 0 <= k < l < |s| ==> PopCount(s[l].mask) <= PopCount(s[k].mask)
  }

  /** No entry from `i` on lies more than one level below entry `i`. */
  ghost predicate WithinOneLevel(s: seq<SolutionEntry>, i: nat)
  {
    i < |s| ==> forall l :: i <= l < |s| ==> PopCount(s[i].mask) <= PopCount(s[l].mask) + 1
  }

  /** Every unmarked entry before `i` is neither equal to nor combinable with any later entry. */
  ghost predicate SettledBelow(s: seq<SolutionEntry>, i: nat)
  {
    forall a, b :: 0 <= a < i && a < b < |s| ==> s[a].IsDeleted() || (!s[a].Equal(s[b]) && !Combinable(s[a], s[b]))
  }

  /** A list of one level falls, lies within one level of its first entry and has nothing settled yet. */
  lemma SameLevelStart(s: seq<SolutionEntry>)
    requires SameLevel(s)
    ensures LevelsFall(s) && WithinOneLevel(s, 0) && SettledBelow(s, 0)
  {
  }

  /**
   * Scanning entry `i` of a list whose levels fall, within one level of entry `i`, settles
   * entry `i` and keeps both orderings for the next entry.
   */
  lemma ScanKeepsOrder(before: seq<SolutionEntry>, after: seq<SolutionEntry>, i: nat)
    requires i < |before| <= |after|
    requires forall k :: 0 <= k < |before| ==> after[k].Equal(before[k])
    requires forall k :: 0 <= k < |before| && before[k].IsDeleted() ==> after[k].IsDeleted()
    requires forall k :: |before| <= k < |after| ==> PopCount(after[k].mask) + 1 == PopCount(before[i].mask)
    requires after[i].IsDeleted() || forall k :: i < k < |after| ==> !after[i].Equal(after[k]) && !Combinable(after[i], after[k])
    requires LevelsFall(before) && WithinOneLevel(before, i) && SettledBelow(before, i)
    ensures LevelsFall(after) && WithinOneLevel(after, i + 1) && SettledBelow(after, i + 1)
  {
    forall a, b | 0 <= a < i + 1 && a < b < |after|
      ensures after[a].IsDeleted() || (!after[a].Equal(after[b]) && !Combinable(after[a], after[b]))
    {
      if a < i && !after[a].IsDeleted() {
        if b < |before| {
          CompareIgnoresMarks(before[a], before[b], after[a], after[b]);
        } else {
          assert PopCount(before[i].mask) <= PopCount(before[a].mask);
          assert after[a].mask != after[b].mask;
        }
      }
    }
  }

  /** The unmarked entries of a fully settled list are irreducible. */
  lemma {:induction false} SettledIrreducible(s: seq<SolutionEntry>)
    requires SettledBelow(s, |s|)
    ensures Irreducible(RemoveDeleted(s))
    decreases |s|
  {
    if s != [] {
      var tail := s[1..];
      var rest := RemoveDeleted(tail);
      SettledTail(s);
      SettledIrreducible(tail);
      if !s[0].IsDeleted() {
        assert RemoveDeleted(s) == [s[0]] + rest;
        HeadApart(s);
        ConsIrreducible(s[0], rest);
      } else {
        assert RemoveDeleted(s) == rest;
      }
    }
  }

  /** The tail of a settled list is settled. */
  lemma SettledTail(s: seq<SolutionEntry>)
    requires s != [] && SettledBelow(s, |s|)
    ensures SettledBelow(s[1..], |s| - 1)
  {
    var tail := s[1..];
    forall a, b | 0 <= a < |tail| && a < b < |tail|
      ensures tail[a].IsDeleted() || (!tail[a].Equal(tail[b]) && !Combinable(tail[a], tail[b]))
    {
      assert tail[a] == s[a + 1] && tail[b] == s[b + 1];
    }
  }

  /** The unmarked head of a settled list neither equals nor combines with a later unmarked entry. */
  lemma HeadApart(s: seq<SolutionEntry>)
    requires s != [] && SettledBelow(s, |s|) && !s[0].IsDeleted()
    ensures forall e :: e in RemoveDeleted(s[1..]) ==>
      !s[0].Equal(e) && !Combinable(s[0], e) && !e.Equal(s[0]) && !Combinable(e, s[0])
  {
    var tail := s[1..];
    forall e | e in RemoveDeleted(tail)
      ensures !s[0].Equal(e) && !Combinable(s[0], e) && !e.Equal(s[0]) && !Combinable(e, s[0])
    {
      var b :| 0 <= b < |tail| && tail[b] == e;
      assert s[b + 1] == e;
      CombinableSymmetric(s[0], e);
      EqualIgnoresMark(s[0], e, e);
    }
  }

  /** An entry apart from every entry of an irreducible list extends it irreducibly. */
  lemma ConsIrreducible(e: SolutionEntry, rest: seq<SolutionEntry>)
    requires Irreducible(rest)
    requires forall f :: f in rest ==> !e.Equal(f) && !Combinable(e, f) && !f.Equal(e) && !Combinable(f, e)
    ensures Irreducible([e] + rest)
  {
    var r := [e] + rest;
    forall x, y | 0 <= x < |r| && 0 <= y < |r| && x != y ensures !r[x].Equal(r[y]) && !Combinable(r[x], r[y]) {
      if x == 0 {
        assert r[y] == rest[y - 1] && r[y] in rest;
      } else if y == 0 {
        assert r[x] == rest[x - 1] && r[x] in rest;
      } else {
        assert r[x] == rest[x - 1] && r[y] == rest[y - 1];
      }
    }
  }


  // ----- the pass as a whole -----

  /**
   * The state of the reduction pass before scanning entry `i` of `s`: the input's entries
   * keep their masks and numbers, and every invariant the flags ask for holds.
   */
  ghost predicate PassState(s: seq<SolutionEntry>, i: nat, input: seq<SolutionEntry>, wf: bool, chained: bool, level: bool)
  {
    i <= |s| && |s| >= |input| && (forall k :: 0 <= k < |input| ==> s[k].Equal(input[k])) &&
    (chained ==> wf) && (wf ==> AllWellFormed(s) && Sound(s, input)) && (chained ==> Chained(s)) &&
    (level ==> LevelsFall(s) && WithinOneLevel(s, i) && SettledBelow(s, i))
  }

  /** The pass starts from its input with nothing scanned. */
  lemma PassStart(input: seq<SolutionEntry>)
    ensures PassState(input, 0, input, AllWellFormed(input), AllWellFormed(input) && NoneDeleted(input), SameLevel(input))
  {
    var wf := AllWellFormed(input);
    if wf {
      forall k, a: nat | 0 <= k < |input| && input[k].Covers(a) ensures CoveredBy(input, a) {
      }
    }
    if SameLevel(input) {
      SameLevelStart(input);
    }
  }

  /**
   * Scanning entry `i` keeps the state of the pass and lowers the census of the unscanned
   * entries at the level of entry `i`, leaving the levels above it as they were.
   */
  lemma PassStep(before: seq<SolutionEntry>, after: seq<SolutionEntry>, i: nat,
                 input: seq<SolutionEntry>, wf: bool, chained: bool, level: bool)
    requires PassState(before, i, input, wf, chained, level) && i < |before| && after == ScanResult(before, i)
    requires AllWellFormed(before) ==> AllWellFormed(after)
    requires AllWellFormed(before) && Sound(before, input) ==> Sound(after, input)
    requires AllWellFormed(before) && Chained(before) ==> Chained(after)
    ensures PassState(after, i + 1, input, wf, chained, level)
    ensures forall l: nat :: l >= PopCount(before[i].mask) ==>
      Census(after[i + 1..], l) + (if l == PopCount(before[i].mask) then 1 else 0) == Census(before[i..], l)
  {
    ScanResultFacts(before, i);
    forall k | 0 <= k < |input| ensures after[k].Equal(input[k]) {
      EqualIgnoresMark(after[k], before[k], input[k]);
    }
    forall l: nat | l >= PopCount(before[i].mask)
      ensures Census(after[i + 1..], l) + (if l == PopCount(before[i].mask) then 1 else 0) == Census(before[i..], l)
    {
      CensusStep(before, after, i, l);
    }
    if level {
      ScanKeepsOrder(before, after, i);
    }
  }

  /**
   * What the pass leaves once every entry is scanned: the unmarked entries cover only what the
   * input covers, all of it when nothing in the input was marked, and they are irreducible
   * when the input was of one level.
   */
  lemma PassEnd(s: seq<SolutionEntry>, input: seq<SolutionEntry>, wf: bool, chained: bool, level: bool)
    requires PassState(s, |s|, input, wf, chained, level)
    ensures wf ==> AllWellFormed(RemoveDeleted(s))
    ensures wf ==> forall a: nat :: CoveredBy(RemoveDeleted(s), a) ==> CoveredBy(input, a)
    ensures chained ==> forall a: nat :: CoveredBy(input, a) ==> CoveredBy(RemoveDeleted(s), a)
    ensures level ==> Irreducible(RemoveDeleted(s))
  {
    var reduced := RemoveDeleted(s);
    if wf {
      RemoveDeletedWellFormed(s);
      RemoveDeletedSound(s, input);
      forall a: nat | CoveredBy(reduced, a) ensures CoveredBy(input, a) {
        var k :| 0 <= k < |reduced| && reduced[k].Covers(a);
      }
    }
    if chained {
      forall a: nat | CoveredBy(input, a) ensures CoveredBy(reduced, a) {
        var k :| 0 <= k < |input| && input[k].Covers(a);
        assert s[k].Covers(a);
        ChainEndsUnmarked(s, k, a);
      }
    }
    if level {
      SettledIrreducible(s);
    }
  }
}
