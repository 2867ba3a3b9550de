/**
 * The text rendering of a solution: each entry becomes a term over the variables
 * `a`, `b`, `c`, ... (bit `i` of the mask names variable `'a' + i`), and the terms are
 * accumulated into a root label of the form `X = ...`.
 */
module TreeLabels {
  import opened Bits
  import opened SolutionEntries
  import opened DataEngine

  /** The initial root label. */
  const RootPrefix: string := "X = "

  /** The name of variable `i`: the character `'a' + i` (byte values up to 128). */
  function Letter(i: nat): char
    requires i < 32
  {
    (('a' as int) + i) as char
  }

  /** One literal: the variable name, primed when the variable appears complemented. */
  function Literal(i: nat, bit: nat, solutionType: SolutionType): (s: string)
    requires i < 32
  {
    [Letter(i)] + (if (solutionType == SOP && bit == 0) || (solutionType == POS && bit == 1) then "'" else "")
  }

  /** The mask bits still to render, from position `i` on, lie below bit 32. */
  predicate TermFits(mask: nat, i: nat)
  {
    i <= 32 && mask < Pow2(32 - i)
  }

  /**
   * The rest of a term, from the current shift position on, as the rendering loop produces
   * it: `started` records whether a literal has already been written.
   */
  function TermFrom(mask: nat, number: nat, i: nat, solutionType: SolutionType, started: bool): string
    requires TermFits(mask, i)
    decreases mask
  {
    if mask == 0 then ""
    else
      (if mask % 2 == 1 then
         (if started && solutionType == SOP then "+" else "") + Literal(i, number % 2, solutionType)
       else "")
      + TermFrom(mask / 2, number / 2, i + 1, solutionType, started || mask % 2 == 1)
  }

  /** The term for an entry. */
  function Term(mask: U32, number: U32, solutionType: SolutionType): string
  {
    Pow2Word();
    TermFrom(mask, number, 0, solutionType, false)
  }

  /** What `AddItem` appends to the root label for a term. */
  function LabelAfter(current: string, term: string, solutionType: SolutionType): string
  {
    if term == "" then current + (if solutionType == POS then "0" else "1")
    else if solutionType == SOP then current + (if current != RootPrefix then " + " else "") + term
    else current + "(" + term + ")"
  }

  /** One step of the rendering loop, unfolded. */
  lemma TermFromStep(mask: nat, number: nat, i: nat, solutionType: SolutionType, result: string)
    requires i < 32 && mask != 0 && TermFits(mask, i)
    ensures TermFits(mask / 2, i + 1)
    ensures result + TermFrom(mask, number, i, solutionType, result != "")
      == (if mask % 2 == 1 then
            result + (if result != "" && solutionType == SOP then "+" else "") + Literal(i, number % 2, solutionType)
          else result)
         + TermFrom(mask / 2, number / 2, i + 1, solutionType, result != "" || mask % 2 == 1)
  {
  }

  /** Writing the variable name and then its prime, if any, appends the literal. */
  lemma LiteralAppended(named: string, result: string, i: nat, bit: nat, solutionType: SolutionType)
    requires i < 32 && bit < 2
    requires var primed := (solutionType == SOP && bit == 0) || (solutionType == POS && bit == 1);
      result == named + [Letter(i)] + (if primed then "'" else "")
    ensures result == named + Literal(i, bit, solutionType)
  {
  }

  /** The term-building loop of `AddItem`: one literal per set mask bit, lowest bit first. */
  method BuildTerm(mask: U32, number: U32, solutionType: SolutionType) returns (result: string)
    ensures result == Term(mask, number, solutionType)
  {
    result := "";
    var variable: nat := 0;
    var tempMask: nat := mask;
    var tempNumber: nat := number;
    Pow2Word();
    while tempMask != 0
      invariant variable <= 32 && TermFits(tempMask, variable)
      invariant result + TermFrom(tempMask, tempNumber, variable, solutionType, result != "")
        == Term(mask, number, solutionType)
      decreases tempMask
    {
      if variable == 32 {
        assert false;
      }
      TermFromStep(tempMask, tempNumber, variable, solutionType, result);
      if tempMask % 2 == 1 {
        var separator := if result != "" && solutionType == SOP then "+" else "";
        result := result + separator;
        ghost var named := result;
        result := result + [Letter(variable)];
        if solutionType == SOP && tempNumber % 2 == 0 {
          result := result + "'";
        }
        if solutionType == POS && tempNumber % 2 == 1 {
          result := result + "'";
        }
        LiteralAppended(named, result, variable, tempNumber % 2, solutionType);
      }
      variable := variable + 1;
      tempMask := tempMask / 2;
      tempNumber := tempNumber / 2;
    }
  }

  /** A child of the root: a term and the addresses its entry covers. */
  datatype TreeItem = TreeItem(term: string, addresses: seq<U32>)

  class SolutionTree {
    var rootLabel: string
    var items: seq<TreeItem>

    constructor ()
      ensures rootLabel == "" && items == []
    {
      rootLabel := "";
      items := [];
    }

    method RemoveAllItems()
      modifies this
      ensures rootLabel == RootPrefix && items == []
    {
      items := [];
      rootLabel := RootPrefix;
    }

    method AddItem(solutionType: SolutionType, entry: SolutionEntry, maxAddress: U32)
      modifies this
      ensures rootLabel == LabelAfter(old(rootLabel), Term(entry.mask, entry.number, solutionType), solutionType)
      ensures Term(entry.mask, entry.number, solutionType) == "" ==> items == old(items)
      ensures Term(entry.mask, entry.number, solutionType) != "" ==>
        items == old(items) + [TreeItem(Term(entry.mask, entry.number, solutionType), entry.AddressesBelow(maxAddress))]
    {
      var result := BuildTerm(entry.mask, entry.number, solutionType);
      if result == "" {
        rootLabel := rootLabel + (if solutionType == POS then "0" else "1");
      } else {
        if solutionType == SOP {
          if rootLabel != RootPrefix {
            rootLabel := rootLabel + " + ";
          }
          rootLabel := rootLabel + result;
        } else {
          rootLabel := rootLabel + "(" + result + ")";
        }
        var addresses := entry.GetAddresses(maxAddress);
        items := items + [TreeItem(result, addresses)];
      }
    }
  }

  // ----- An independent description of a term -----

  /** The positions, counted from `i`, of the set bits of `m`, lowest first. */
  function Positions(m: nat, i: nat): seq<nat>
    decreases m
  {
    if m == 0 then [] else (if m % 2 == 1 then [i] else []) + Positions(m / 2, i + 1)
  }

  /** `parts` joined with `sep` between neighbours. */
  function Join(sep: string, parts: seq<string>): string
  {
    if |parts| == 0 then ""
    else if |parts| == 1 then parts[0]
    else parts[0] + sep + Join(sep, parts[1..])
  }

  /** The separator between the literals of one term. */
  function Separator(solutionType: SolutionType): string
  {
    if solutionType == SOP then "+" else ""
  }

  /** The literal for each listed variable, complemented according to `number`. */
  function Literals(ps: seq<nat>, number: nat, solutionType: SolutionType): (r: seq<string>)
    requires forall k :: 0 <= k < |ps| ==> ps[k] < 32
    ensures |r| == |ps|
    ensures forall k :: 0 <= k < |ps| ==> r[k] == Literal(ps[k], Bit(number, ps[k]), solutionType)
  {
    if ps == [] then [] else [Literal(ps[0], Bit(number, ps[0]), solutionType)] + Literals(ps[1..], number, solutionType)
  }

  /** A variable is listed exactly when its mask bit is set. */
  lemma {:induction false} PositionsMembers(m: nat, i: nat)
    ensures forall p: nat :: p in Positions(m, i) <==> p >= i && Bit(m, p - i) == 1
  {
    if m == 0 {
      forall j: nat ensures Bit(0, j) == 0 { BitOfZero(j); }
    } else {
      PositionsMembers(m / 2, i + 1);
    }
  }

  /** Variables are listed in ascending order. */
  lemma {:induction false} PositionsAscending(m: nat, i: nat)
    ensures forall k :: 0 <= k < |Positions(m, i)| ==> Positions(m, i)[k] >= i
    ensures forall k, l :: 0 <= k < l < |Positions(m, i)| ==> Positions(m, i)[k] < Positions(m, i)[l]
    decreases m
  {
    if m != 0 {
      PositionsAscending(m / 2, i + 1);
    }
  }

  /** A mask below `2^w` lists only variables below `i + w`. */
  lemma {:induction false} PositionsBelow(m: nat, i: nat, w: nat)
    requires m < Pow2(w)
    ensures forall k :: 0 <= k < |Positions(m, i)| ==> Positions(m, i)[k] < i + w
    decreases m
  {
    if m != 0 {
      PositionsBelow(m / 2, i + 1, w - 1);
    }
  }

  lemma JoinCons(sep: string, x: string, xs: seq<string>)
    ensures Join(sep, [x] + xs) == x + (if xs == [] then "" else sep + Join(sep, xs))
  {
    assert ([x] + xs)[1..] == xs;
  }

  /** The shifted number still names the original number's bits. */
  lemma HalfBits(n: nat, number: nat, i: nat)
    requires forall q: nat :: Bit(n, q) == Bit(number, q + i)
    ensures forall q: nat :: Bit(n / 2, q) == Bit(number, q + (i + 1))
    ensures n % 2 == Bit(number, i)
  {
    assert Bit(n, 0) == Bit(number, 0 + i);
    forall q: nat ensures Bit(n / 2, q) == Bit(number, q + (i + 1)) {
      assert Bit(n, q + 1) == Bit(number, (q + 1) + i);
    }
  }

  /** Listing one more variable in front of the rest. */
  lemma JoinLiteralsCons(p: nat, rest: seq<nat>, number: nat, solutionType: SolutionType)
    requires p < 32 && forall k :: 0 <= k < |rest| ==> rest[k] < 32
    ensures Join(Separator(solutionType), Literals([p] + rest, number, solutionType))
      == Literal(p, Bit(number, p), solutionType)
         + (if rest == [] then "" else Separator(solutionType) + Join(Separator(solutionType), Literals(rest, number, solutionType)))
  {
    assert ([p] + rest)[1..] == rest;
    assert Literals([p] + rest, number, solutionType)
      == [Literal(p, Bit(number, p), solutionType)] + Literals(rest, number, solutionType);
    JoinCons(Separator(solutionType), Literal(p, Bit(number, p), solutionType), Literals(rest, number, solutionType));
  }

  /** The step of the rendering loop that writes a literal. */
  lemma GlueLiteral(pre: string, tail: string, i: nat, rest: seq<nat>, number: nat, solutionType: SolutionType)
    requires i < 32 && forall k :: 0 <= k < |rest| ==> rest[k] < 32
    requires tail == (if solutionType == SOP && rest != [] then "+" else "")
      + Join(Separator(solutionType), Literals(rest, number, solutionType))
    ensures pre + Literal(i, Bit(number, i), solutionType) + tail
      == pre + Join(Separator(solutionType), Literals([i] + rest, number, solutionType))
  {
    JoinLiteralsCons(i, rest, number, solutionType);
  }

  /** The rendering loop's output, described by the listed variables. */
  lemma {:induction false} TermFromLiterals(m: nat, n: nat, number: nat, i: nat, solutionType: SolutionType, started: bool)
    requires i <= 32 && m < Pow2(32 - i)
    requires forall q: nat :: Bit(n, q) == Bit(number, q + i)
    ensures forall k :: 0 <= k < |Positions(m, i)| ==> Positions(m, i)[k] < 32
    ensures TermFrom(m, n, i, solutionType, started)
      == (if started && solutionType == SOP && Positions(m, i) != [] then "+" else "")
         + Join(Separator(solutionType), Literals(Positions(m, i), number, solutionType))
    decreases m
  {
    PositionsBelow(m, i, 32 - i);
    if m != 0 {
      PositionsBelow(m / 2, i + 1, 32 - (i + 1));
      HalfBits(n, number, i);
      TermFromLiterals(m / 2, n / 2, number, i + 1, solutionType, started || m % 2 == 1);
      if m % 2 == 1 {
        var pre := if started && solutionType == SOP then "+" else "";
        var tail := TermFrom(m / 2, n / 2, i + 1, solutionType, true);
        assert TermFrom(m, n, i, solutionType, started) == pre + Literal(i, Bit(number, i), solutionType) + tail;
        GlueLiteral(pre, tail, i, Positions(m / 2, i + 1), number, solutionType);
        assert Positions(m, i) == [i] + Positions(m / 2, i + 1);
      } else {
        assert Positions(m, i) == Positions(m / 2, i + 1);
      }
    }
  }

  /** Terms are the literals of the set mask bits, joined by `+` in SOP form and by nothing in POS form. */
  lemma TermIsJoinedLiterals(mask: U32, number: U32, solutionType: SolutionType)
    ensures forall k :: 0 <= k < |Positions(mask, 0)| ==> Positions(mask, 0)[k] < 32
    ensures Term(mask, number, solutionType)
      == Join(Separator(solutionType), Literals(Positions(mask, 0), number, solutionType))
  {
    Pow2Word();
    TermFromLiterals(mask, number, number, 0, solutionType, false);
  }

  /** The term is empty exactly when the mask is: an entry with no variables is a constant. */
  lemma {:induction false} TermFromEmpty(m: nat, n: nat, i: nat, solutionType: SolutionType, started: bool)
    requires i <= 32 && m < Pow2(32 - i)
    ensures TermFrom(m, n, i, solutionType, started) == "" <==> m == 0
    decreases m
  {
    if m != 0 {
      TermFromEmpty(m / 2, n / 2, i + 1, solutionType, started || m % 2 == 1);
    }
  }

  lemma TermEmpty(mask: U32, number: U32, solutionType: SolutionType)
    ensures Term(mask, number, solutionType) == "" <==> mask == 0
  {
    Pow2Word();
    TermFromEmpty(mask, number, 0, solutionType, false);
  }

  // ----- The root label over a sequence of terms -----

  /** The root label after `RemoveAllItems` followed by one `AddItem` per term. */
  function LabelOf(terms: seq<string>, solutionType: SolutionType): string
  {
    if terms == [] then RootPrefix
    else LabelAfter(LabelOf(terms[..|terms| - 1], solutionType), terms[|terms| - 1], solutionType)
  }

  /** Parenthesised terms, one after another. */
  function Parenthesised(terms: seq<string>): string
  {
    if terms == [] then "" else Parenthesised(terms[..|terms| - 1]) + "(" + terms[|terms| - 1] + ")"
  }

  lemma {:induction false} JoinSnoc(sep: string, xs: seq<string>, x: string)
    requires xs != []
    ensures Join(sep, xs + [x]) == Join(sep, xs) + sep + x
    decreases |xs|
  {
    if |xs| == 1 {
      assert (xs + [x])[1..] == [x];
    } else {
      assert (xs + [x])[1..] == xs[1..] + [x];
      JoinSnoc(sep, xs[1..], x);
    }
  }

  /** In SOP form the non-constant terms appear after `X = `, separated by ` + `. */
  lemma {:induction false} SopLabel(terms: seq<string>)
    requires forall k :: 0 <= k < |terms| ==> terms[k] != ""
    ensures LabelOf(terms, SOP) == RootPrefix + Join(" + ", terms)
    decreases |terms|
  {
    if terms != [] {
      var init := terms[..|terms| - 1];
      var last := terms[|terms| - 1];
      SopLabel(init);
      assert LabelOf(terms, SOP) == LabelAfter(LabelOf(init, SOP), last, SOP);
      if init == [] {
        assert Join(" + ", terms) == last;
      } else {
        assert terms == init + [last];
        JoinSnoc(" + ", init, last);
        assert init[0] != "";
        JoinNonEmpty(" + ", init);
        assert |LabelOf(init, SOP)| > |RootPrefix|;
      }
    }
  }

  lemma {:induction false} JoinNonEmpty(sep: string, xs: seq<string>)
    requires xs != [] && xs[0] != ""
    ensures |Join(sep, xs)| > 0
  {
  }

  /** In POS form the non-constant terms appear after `X = `, each in parentheses. */
  lemma {:induction false} PosLabel(terms: seq<string>)
    requires forall k :: 0 <= k < |terms| ==> terms[k] != ""
    ensures LabelOf(terms, POS) == RootPrefix + Parenthesised(terms)
    decreases |terms|
  {
    if terms != [] {
      PosLabel(terms[..|terms| - 1]);
    }
  }
}
