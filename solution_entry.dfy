/**
 * A solution entry is a subcube of the Boolean n-cube: the inputs whose bit is set in `mask`
 * are fixed to the corresponding bit of `number`, the others are free. The same value type
 * is declared twice in the sources with identical bodies; this one module serves both.
 */
module SolutionEntries {
  import opened Bits

  datatype SolutionEntry = SolutionEntry(mask: U32, number: U32, deleteMe: bool)
  {
    /** `number` fixes no bit outside `mask`. */
    predicate WellFormed()
    {
      SubMask(number, mask)
    }

    /** Address `a` lies in the subcube: `(a & mask) == number`. */
    predicate Covers(a: nat)
    {
      And(a, mask) == number
    }

    /** Both entries fix the same inputs. */
    predicate MaskEqual(other: SolutionEntry)
    {
      mask == other.mask
    }

    /** The fixed bits on which the two entries disagree: `(number ^ other.number) & mask`. */
    function ComputeXOR(other: SolutionEntry): (x: U32)
      ensures SubMask(x, mask)
    {
      AndIsSubMask(Xor(number, other.number), mask);
      And(Xor(number, other.number), mask)
    }

    /** The entry with bit(s) `x` freed: `(mask & ~x, number & ~x)`, not marked. */
    function ComputeNewEntry(x: U32): (e: SolutionEntry)
      ensures e.mask == AndNot(mask, x) && e.number == AndNot(number, x)
      ensures SubMask(e.mask, mask) && !e.IsDeleted()
    {
      AndNotIsSubMask(mask, x);
      SolutionEntry(AndNot(mask, x), AndNot(number, x), false)
    }

    function MarkForDeletion(): (e: SolutionEntry)
      ensures e.IsDeleted()
      ensures e.mask == mask && e.number == number
    {
      this.(deleteMe := true)
    }

    /** The entry is marked for deletion. */
    predicate IsDeleted()
    {
      deleteMe
    }

    /** `operator==`: mask and number agree; the delete flag is not compared. */
    predicate Equal(other: SolutionEntry)
    {
      mask == other.mask && number == other.number
    }

    /** `operator!=` */
    predicate NotEqual(other: SolutionEntry)
    {
      !Equal(other)
    }

    /** The covered addresses below `maxAddress`, in ascending order. */
    function AddressesBelow(maxAddress: nat): (r: seq<U32>)
      requires maxAddress <= Word
    {
      if maxAddress == 0 then []
      else AddressesBelow(maxAddress - 1) + (if Covers(maxAddress - 1) then [maxAddress - 1] else [])
    }

    method GetAddresses(maxAddress: U32) returns (addresses: seq<U32>)
      ensures addresses == AddressesBelow(maxAddress)
    {
      addresses := [];
      var address: U32 := 0;
      while address < maxAddress
        invariant address <= maxAddress
        invariant addresses == AddressesBelow(address)
      {
        if And(address, mask) == number {
          addresses := addresses + [address];
        }
        address := address + 1;
      }
    }
  }

  /** The constructor: the given mask and number, not marked for deletion. */
  function NewEntry(mask: U32, number: U32): (e: SolutionEntry)
    ensures e.mask == mask && e.number == number && !e.IsDeleted()
  {
    SolutionEntry(mask, number, false)
  }

  // ---------------------------------------------------------------- bit-level helpers

  /** Every set bit of `x` is set in `m`. */
  ghost predicate BitsWithin(x: nat, m: nat)
  {
    forall i: nat :: Bit(x, i) == 1 ==> Bit(m, i) == 1
  }

  /** Bit by bit, `n` is `a` restricted to `m`. */
  ghost predicate BitsMatch(a: nat, m: nat, n: nat)
  {
    forall i: nat :: Bit(n, i) == (if Bit(a, i) == 1 && Bit(m, i) == 1 then 1 else 0)
  }

  lemma SubMaskBits(x: nat, m: nat)
    ensures SubMask(x, m) <==> BitsWithin(x, m)
  {
    if SubMask(x, m) {
      forall i: nat | Bit(x, i) == 1 ensures Bit(m, i) == 1 {
        BitAndNot(x, m, i);
        BitOfZero(i);
      }
    } else if BitsWithin(x, m) {
      forall i: nat ensures Bit(AndNot(x, m), i) == 0 { BitAndNot(x, m, i); }
      ZeroFromBits(AndNot(x, m));
    }
  }

  lemma AndIsSubMask(a: nat, m: nat)
    ensures SubMask(And(a, m), m)
  {
    forall i: nat ensures Bit(And(a, m), i) == 1 ==> Bit(m, i) == 1 { BitAnd(a, m, i); }
    SubMaskBits(And(a, m), m);
  }

  lemma AndNotIsSubMask(a: nat, x: nat)
    ensures SubMask(AndNot(a, x), a)
  {
    forall i: nat ensures Bit(AndNot(a, x), i) == 1 ==> Bit(a, i) == 1 { BitAndNot(a, x, i); }
    SubMaskBits(AndNot(a, x), a);
  }

  /** `(a & m) == n` read bit by bit. */
  lemma CoversBits(a: nat, m: nat, n: nat)
    ensures And(a, m) == n <==> BitsMatch(a, m, n)
  {
    if And(a, m) == n {
      forall i: nat ensures Bit(n, i) == (if Bit(a, i) == 1 && Bit(m, i) == 1 then 1 else 0) {
        BitAnd(a, m, i);
      }
    } else if BitsMatch(a, m, n) {
      forall i: nat ensures Bit(And(a, m), i) == Bit(n, i) { BitAnd(a, m, i); }
      BitsEqual(And(a, m), n);
    }
  }

  // ---------------------------------------------------------------- merging

  /** The test the reduction pass applies to a pair: equal masks and one differing fixed bit. */
  predicate Combinable(e1: SolutionEntry, e2: SolutionEntry)
  {
    e1.MaskEqual(e2) && SingleBit(e1.ComputeXOR(e2))
  }

  /** The merged entry the reduction pass appends for a combinable pair. */
  function Merge(e1: SolutionEntry, e2: SolutionEntry): SolutionEntry
  {
    e1.ComputeNewEntry(e1.ComputeXOR(e2))
  }

  /** Bit `i` of the parents and of the merged entry, when `p` is the differing bit. */
  lemma MergeBits(e1: SolutionEntry, e2: SolutionEntry, p: nat, i: nat)
    requires e1.WellFormed() && e2.WellFormed() && e1.MaskEqual(e2)
    requires e1.ComputeXOR(e2) == Pow2(p)
    ensures Bit(e1.mask, p) == 1 && Bit(e1.number, p) != Bit(e2.number, p)
    ensures i != p ==> Bit(e1.number, i) == Bit(e2.number, i)
    ensures Bit(Merge(e1, e2).mask, i) == (if i == p then 0 else Bit(e1.mask, i))
    ensures Bit(Merge(e1, e2).number, i) == (if i == p then 0 else Bit(e1.number, i))
  {
    var m, n1, n2 := e1.mask, e1.number, e2.number;
    var x := e1.ComputeXOR(e2);
    SubMaskBits(n1, m);
    SubMaskBits(n2, m);
    BitPow2(p, i);
    BitPow2(p, p);
    BitAnd(Xor(n1, n2), m, i);
    BitAnd(Xor(n1, n2), m, p);
    BitXor(n1, n2, i);
    BitXor(n1, n2, p);
    BitAndNot(m, x, i);
    BitAndNot(n1, x, i);
  }

  /** Merge soundness: the merged subcube is exactly the union of its two parents. */
  lemma MergeCovers(e1: SolutionEntry, e2: SolutionEntry, a: nat)
    requires e1.WellFormed() && e2.WellFormed() && Combinable(e1, e2)
    ensures Merge(e1, e2).Covers(a) <==> e1.Covers(a) || e2.Covers(a)
  {
    var e := Merge(e1, e2);
    var x := e1.ComputeXOR(e2);
    SingleBitIsPow2(x);
    var p: nat :| x == Pow2(p);
    MergeBits(e1, e2, p, p);
    CoversBits(a, e1.mask, e1.number);
    CoversBits(a, e2.mask, e2.number);
    CoversBits(a, e.mask, e.number);
    if e1.Covers(a) || e2.Covers(a) {
      forall i: nat ensures Bit(e.number, i) == (if Bit(a, i) == 1 && Bit(e.mask, i) == 1 then 1 else 0) {
        MergeBits(e1, e2, p, i);
      }
    } else if e.Covers(a) {
      var other := if Bit(a, p) == Bit(e1.number, p) then e1 else e2;
      forall i: nat ensures Bit(other.number, i) == (if Bit(a, i) == 1 && Bit(other.mask, i) == 1 then 1 else 0) {
        MergeBits(e1, e2, p, i);
      }
    }
  }

  /** The merged entry is well formed, and its mask has one bit fewer than its parents'. */
  lemma MergeShrinks(e1: SolutionEntry, e2: SolutionEntry)
    requires e1.WellFormed() && e2.WellFormed() && Combinable(e1, e2)
    ensures Merge(e1, e2).WellFormed()
    ensures PopCount(Merge(e1, e2).mask) + 1 == PopCount(e1.mask)
  {
    var e := Merge(e1, e2);
    var x := e1.ComputeXOR(e2);
    SingleBitIsPow2(x);
    var p: nat :| x == Pow2(p);
    MergeLevel(e1, e2);
    forall i: nat | Bit(e.number, i) == 1 ensures Bit(e.mask, i) == 1 {
      MergeBits(e1, e2, p, i);
      SubMaskBits(e1.number, e1.mask);
    }
    SubMaskBits(e.number, e.mask);
  }

  /**
   * Whatever the numbers, merging clears one set bit of the mask: the merged mask has one
   * bit fewer than its parents'.
   */
  lemma MergeLevel(e1: SolutionEntry, e2: SolutionEntry)
    requires Combinable(e1, e2)
    ensures PopCount(Merge(e1, e2).mask) + 1 == PopCount(e1.mask)
  {
    var x := e1.ComputeXOR(e2);
    SingleBitIsPow2(x);
    var p: nat :| x == Pow2(p);
    SubMaskBits(x, e1.mask);
    BitPow2(p, p);
    PopCountClear(e1.mask, p);
  }

  /** The merged entry's addresses are the union of its parents' addresses. */
  lemma MergeAddresses(e1: SolutionEntry, e2: SolutionEntry, maxAddress: nat)
    requires e1.WellFormed() && e2.WellFormed() && Combinable(e1, e2) && maxAddress <= Word
    ensures forall a: nat :: a in Merge(e1, e2).AddressesBelow(maxAddress) <==>
      a in e1.AddressesBelow(maxAddress) || a in e2.AddressesBelow(maxAddress)
  {
    AddressesBelowSpec(Merge(e1, e2), maxAddress);
    AddressesBelowSpec(e1, maxAddress);
    AddressesBelowSpec(e2, maxAddress);
    forall a: nat ensures Merge(e1, e2).Covers(a) <==> e1.Covers(a) || e2.Covers(a) {
      MergeCovers(e1, e2, a);
    }
  }

  /** With equal masks, the masked XOR vanishes exactly when the entries are equal. */
  lemma ComputeXorZero(e1: SolutionEntry, e2: SolutionEntry)
    requires e1.WellFormed() && e2.WellFormed() && e1.MaskEqual(e2)
    ensures e1.ComputeXOR(e2) == 0 <==> e1.Equal(e2)
  {
    var m, n1, n2 := e1.mask, e1.number, e2.number;
    SubMaskBits(n1, m);
    SubMaskBits(n2, m);
    if e1.ComputeXOR(e2) == 0 {
      forall i: nat ensures Bit(n1, i) == Bit(n2, i) {
        BitAnd(Xor(n1, n2), m, i);
        BitXor(n1, n2, i);
        BitOfZero(i);
      }
      BitsEqual(n1, n2);
    }
  }

  /** With equal masks the masked XOR does not depend on the order of the pair. */
  lemma ComputeXorSymmetric(e1: SolutionEntry, e2: SolutionEntry)
    requires e1.MaskEqual(e2)
    ensures e1.ComputeXOR(e2) == e2.ComputeXOR(e1)
  {
    XorComm(e1.number, e2.number);
  }

  lemma MarkForDeletionIdempotent(e: SolutionEntry)
    ensures e.MarkForDeletion().MarkForDeletion() == e.MarkForDeletion()
    ensures e.MarkForDeletion().Equal(e)
  {}

  /**
   * `==` is an equivalence that looks only at the subcube: it holds exactly when the two
   * entries differ at most in their delete marks.
   */
  lemma EqualIgnoresMark(e: SolutionEntry, f: SolutionEntry, g: SolutionEntry)
    ensures e.Equal(f) <==> e.(deleteMe := f.deleteMe) == f
    ensures e.Equal(e) && (e.Equal(f) ==> f.Equal(e))
    ensures e.Equal(f) && f.Equal(g) ==> e.Equal(g)
  {}

  /**
   * `!=` holds exactly when the two entries differ in mask or number; an entry is never
   * unequal to itself or to its marked copy.
   */
  lemma NotEqualDiffers(e: SolutionEntry, f: SolutionEntry)
    ensures e.NotEqual(f) <==> e.(deleteMe := f.deleteMe) != f
    ensures !e.NotEqual(e) && !e.NotEqual(e.MarkForDeletion())
  {}

  /**
   * The delete mark is the one `MarkForDeletion` sets: an entry is marked exactly when marking
   * it changes nothing, and a freshly constructed entry is unmarked.
   */
  lemma DeleteMarkIsMarking(e: SolutionEntry)
    ensures e.IsDeleted() <==> e.MarkForDeletion() == e
    ensures !NewEntry(e.mask, e.number).IsDeleted()
  {}

  /**
   * Equal masks fix the same inputs, bit by bit; `==` implies equal masks, and equal masks
   * are an equivalence.
   */
  lemma MaskEqualFixesSameInputs(e: SolutionEntry, f: SolutionEntry, g: SolutionEntry)
    ensures e.MaskEqual(f) ==> forall i: nat :: Bit(e.mask, i) == Bit(f.mask, i)
    ensures (forall i: nat :: Bit(e.mask, i) == Bit(f.mask, i)) ==> e.MaskEqual(f)
    ensures e.Equal(f) ==> e.MaskEqual(f)
    ensures e.MaskEqual(e) && (e.MaskEqual(f) ==> f.MaskEqual(e))
    ensures e.MaskEqual(f) && f.MaskEqual(g) ==> e.MaskEqual(g)
  {
    if forall i: nat :: Bit(e.mask, i) == Bit(f.mask, i) {
      BitsEqual(e.mask, f.mask);
    }
  }

  // ---------------------------------------------------------------- address lists

  /**
   * `AddressesBelow(max)` lists exactly the covered addresses below `max`, strictly
   * ascending.
   */
  lemma {:induction false} AddressesBelowSpec(e: SolutionEntry, maxAddress: nat)
    requires maxAddress <= Word
    ensures forall a: nat :: a in e.AddressesBelow(maxAddress) <==> a < maxAddress && e.Covers(a)
    ensures forall k, l :: 0 <= k < l < |e.AddressesBelow(maxAddress)| ==>
      e.AddressesBelow(maxAddress)[k] < e.AddressesBelow(maxAddress)[l]
    decreases maxAddress
  {
    if maxAddress > 0 {
      AddressesBelowSpec(e, maxAddress - 1);
      var prev := e.AddressesBelow(maxAddress - 1);
      forall k | 0 <= k < |prev| ensures prev[k] < maxAddress - 1 {
        assert prev[k] in prev;
      }
    }
  }

  /** An entry fixing a bit outside its mask covers nothing. */
  lemma NoAddressesUnlessWellFormed(e: SolutionEntry, maxAddress: nat)
    requires maxAddress <= Word && !e.WellFormed()
    ensures e.AddressesBelow(maxAddress) == []
  {
    AddressesBelowSpec(e, maxAddress);
    if e.AddressesBelow(maxAddress) != [] {
      AndIsSubMask(e.AddressesBelow(maxAddress)[0], e.mask);
    }
  }
}
