/** Exactly when the operators on section-relative forms fail, and exactly when they postpone. */
module RelativeFailures {
  import opened Words
  import opened Operators
  import opened LinearForms
  import opened AbsoluteMachine
  import opened RelativeMachine
  import opened RelativeEvaluation
  import opened SectionComparisons

  /** Section differences are still to come. */
  predicate Open(lay: Layout) {
    lay.withDiffs && !lay.prepared
  }

  /** The form has relatives, and not all of them may vanish when section differences come. */
  predicate Blocks(lay: Layout, f: Form)
    requires KnownSections(lay, f.rels)
  {
    f.rels != [] && (!Open(lay) || exists i :: 0 <= i < |f.rels| && !InSpace(lay, f.rels[i].section))
  }

  /** The form has relatives, which may all vanish when section differences come. */
  predicate Waits(lay: Layout, f: Form)
    requires KnownSections(lay, f.rels)
  {
    f.rels != [] && Open(lay) && forall i | 0 <= i < |f.rels| :: InSpace(lay, f.rels[i].section)
  }

  lemma VerdictIs(lay: Layout, f: Form)
    requires KnownSections(lay, f.rels)
    ensures CheckSectionDiffs(lay, f.rels) == Verdict(!Blocks(lay, f), Waits(lay, f))
    ensures !Open(lay) ==> !Waits(lay, f) && (Blocks(lay, f) <==> f.rels != [])
  {
  }

  /** Only the logical complement needs an absolute operand. */
  lemma UnaryFails(u: UnaryOp, f: Form)
    ensures var a := UnaryForm(u, f);
      (a.failed <==> u == LOGICAL_NOT && f.rels != []) && !a.later && !a.trapped
  {
  }

  /** Addresses are always added and subtracted; one factor must be absolute, and so must the count of a
      left shift. */
  lemma ArithmeticFails(b: BinaryOp, lay: Layout, f2: Form, f1: Form)
    requires KnownSections(lay, f2.rels) && KnownSections(lay, f1.rels)
    requires b in {ADDITION, SUBTRACT, MULTIPLY, SHIFT_LEFT}
    ensures var a := BinaryForm(b, lay, f2, f1);
      && !a.trapped
      && (a.failed <==> || (b == MULTIPLY && Blocks(lay, f2) && Blocks(lay, f1))
                        || (b == SHIFT_LEFT && Blocks(lay, f1)))
      && (a.later <==> || (b == MULTIPLY && (Waits(lay, f1) || (Blocks(lay, f1) && Waits(lay, f2))))
                       || (b == SHIFT_LEFT && Waits(lay, f1)))
  {
    hide CheckSectionDiffs, AddRelatives, DropZeros, Blocks, Waits;
    VerdictIs(lay, f1);
    VerdictIs(lay, f2);
  }

  lemma OtherForms(b: BinaryOp, lay: Layout, f2: Form, f1: Form)
    requires KnownSections(lay, f2.rels) && KnownSections(lay, f1.rels)
    ensures b in {DIVISION, SIGNED_DIVISION, MODULO, SIGNED_MODULO, SHIFT_RIGHT, SIGNED_SHIFT_RIGHT} ==>
              BinaryForm(b, lay, f2, f1) == WordsOnly(b, lay, f2, f1)
    ensures IsComparison(b) ==> BinaryForm(b, lay, f2, f1) == CompareForms(b, lay, f2, f1)
  {
    hide AddForms, CompareForms, MultiplyForms, ShiftForms, MaskForms, WordsOnly;
  }

  /** Quotients, remainders and right shifts need absolute operands. */
  lemma WordsFail(b: BinaryOp, lay: Layout, f2: Form, f1: Form)
    requires KnownSections(lay, f2.rels) && KnownSections(lay, f1.rels)
    requires b in {DIVISION, SIGNED_DIVISION, MODULO, SIGNED_MODULO, SHIFT_RIGHT, SIGNED_SHIFT_RIGHT}
    ensures var a := BinaryForm(b, lay, f2, f1);
      && (a.failed <==> || Blocks(lay, f2) || Blocks(lay, f1)
                        || (b !in {SHIFT_RIGHT, SIGNED_SHIFT_RIGHT} && f1.value == 0))
      && (a.later <==> !Blocks(lay, f1) && (Waits(lay, f2) || Waits(lay, f1)))
      && (a.trapped <==> b in {SIGNED_DIVISION, SIGNED_MODULO}
                         && f2.value == 0x8000_0000_0000_0000 && f1.value == 0xffff_ffff_ffff_ffff)
  {
    hide CheckSectionDiffs, Blocks, Waits, BinaryWord, BinaryForm;
    OtherForms(b, lay, f2, f1);
    VerdictIs(lay, f1);
    VerdictIs(lay, f2);
    BlocksOrWaits(lay, f1);
    WordErrors(b, f2.value, f1.value);
  }

  lemma WordErrors(b: BinaryOp, x: Word, y: Word)
    requires b in {DIVISION, SIGNED_DIVISION, MODULO, SIGNED_MODULO, SHIFT_RIGHT, SIGNED_SHIFT_RIGHT}
    ensures BinaryWord(b, x, y).failed <==> b !in {SHIFT_RIGHT, SIGNED_SHIFT_RIGHT} && y == 0
    ensures BinaryWord(b, x, y).trapped <==> b in {SIGNED_DIVISION, SIGNED_MODULO}
                                             && x == 0x8000_0000_0000_0000 && y == 0xffff_ffff_ffff_ffff
  {
    hide TruncDiv, TruncMod, ShiftRight, SignedShiftRight, Wrap;
  }

  lemma BlocksOrWaits(lay: Layout, f: Form)
    requires KnownSections(lay, f.rels)
    ensures !(Blocks(lay, f) && Waits(lay, f)) && (f.rels != [] <==> Blocks(lay, f) || Waits(lay, f))
  {
  }

  /** The constants next to which the operator accepts any other operand. */
  predicate Decides(b: BinaryOp, v: Word)
    requires IsMask(b)
  {
    match b
    case BIT_XOR => v == 0
    case LOGICAL_AND => v == 0
    case LOGICAL_OR => v != 0
    case _ => v == 0 || v == 0xffff_ffff_ffff_ffff
  }

  /** Bitwise and logical operators accept a relative operand next to a deciding constant only. */
  lemma MasksFail(b: BinaryOp, lay: Layout, f2: Form, f1: Form)
    requires KnownSections(lay, f2.rels) && KnownSections(lay, f1.rels) && IsMask(b)
    ensures var a := BinaryForm(b, lay, f2, f1);
      && !a.trapped
      && (a.failed <==> && (Blocks(lay, f2) || Blocks(lay, f1))
                        && (Blocks(lay, f2) || !Decides(b, f2.value))
                        && (Blocks(lay, f1) || !Decides(b, f1.value)))
      && (a.later <==> Waits(lay, f2) || Waits(lay, f1))
  {
    hide CheckSectionDiffs, Blocks, Waits, BinaryWord, NegateAll;
    VerdictIs(lay, f1);
    VerdictIs(lay, f2);
  }

  lemma {:induction false} OutsideCount(lay: Layout, rels: Relatives, r: RelMultiply)
    requires KnownSections(lay, rels) && r.section < |lay.sections|
    ensures multiset(OutsideSpaces(lay, rels))[r] == if InSpace(lay, r.section) then 0 else multiset(rels)[r]
  {
    if rels != [] {
      OutsideCount(lay, rels[1..], r);
      assert rels == [rels[0]] + rels[1..];
    }
  }

  /** The same multiples of the sections that count: of all, or, while differences are open, of those
      outside relocation spaces. */
  ghost predicate SameMultiples(lay: Layout, f2: Form, f1: Form) {
    forall r: RelMultiply | r.section < |lay.sections| && (Open(lay) ==> !InSpace(lay, r.section)) ::
      multiset(f1.rels)[r] == multiset(f2.rels)[r]
  }

  predicate HasInside(lay: Layout, f: Form)
    requires KnownSections(lay, f.rels)
  {
    exists i :: 0 <= i < |f.rels| && InSpace(lay, f.rels[i].section)
  }

  lemma {:induction false} OutsideLength(lay: Layout, rels: Relatives)
    requires KnownSections(lay, rels)
    ensures |OutsideSpaces(lay, rels)| <= |rels|
    ensures |OutsideSpaces(lay, rels)| != |rels| <==> exists i :: 0 <= i < |rels| && InSpace(lay, rels[i].section)
  {
    if rels != [] {
      OutsideLength(lay, rels[1..]);
      if i :| 0 <= i < |rels| && InSpace(lay, rels[i].section) && i > 0 {
        assert InSpace(lay, rels[1..][i - 1].section);
      }
    }
  }

  lemma SameMultisets(a: Relatives, b: Relatives, n: nat)
    requires forall i | 0 <= i < |a| :: a[i].section < n
    requires forall i | 0 <= i < |b| :: b[i].section < n
    ensures multiset(a) == multiset(b) <==>
            forall r: RelMultiply | r.section < n :: multiset(a)[r] == multiset(b)[r]
  {
    if forall r: RelMultiply | r.section < n :: multiset(a)[r] == multiset(b)[r] {
      forall r: RelMultiply ensures multiset(a)[r] == multiset(b)[r] {
        if r.section >= n {
          assert r !in a && r !in b;
        }
      }
    }
  }

  lemma {:induction false} OutsideKnown(lay: Layout, rels: Relatives)
    requires KnownSections(lay, rels)
    ensures KnownSections(lay, OutsideSpaces(lay, rels))
  {
    if rels != [] {
      OutsideKnown(lay, rels[1..]);
    }
  }

  lemma OpenEquality(lay: Layout, f2: Form, f1: Form)
    requires KnownSections(lay, f2.rels) && KnownSections(lay, f1.rels) && Open(lay)
    ensures multiset(OutsideSpaces(lay, f1.rels)) == multiset(OutsideSpaces(lay, f2.rels))
            <==> SameMultiples(lay, f2, f1)
  {
    hide OutsideSpaces, InSpace;
    var o1, o2 := OutsideSpaces(lay, f1.rels), OutsideSpaces(lay, f2.rels);
    OutsideKnown(lay, f1.rels);
    OutsideKnown(lay, f2.rels);
    SameMultisets(o1, o2, |lay.sections|);
    forall r: RelMultiply | r.section < |lay.sections|
      ensures multiset(o1)[r] == if InSpace(lay, r.section) then 0 else multiset(f1.rels)[r]
      ensures multiset(o2)[r] == if InSpace(lay, r.section) then 0 else multiset(f2.rels)[r]
    {
      OutsideCount(lay, f1.rels, r);
      OutsideCount(lay, f2.rels, r);
    }
  }

  /** Comparisons need the same multiples on both sides. */
  lemma ComparisonsFail(b: BinaryOp, lay: Layout, f2: Form, f1: Form)
    requires KnownSections(lay, f2.rels) && KnownSections(lay, f1.rels) && IsComparison(b)
    ensures var a := BinaryForm(b, lay, f2, f1);
      && !a.trapped
      && (a.failed <==> !SameMultiples(lay, f2, f1))
      && (a.later <==> Open(lay) && !a.failed && (HasInside(lay, f2) || HasInside(lay, f1)))
  {
    hide OutsideSpaces, Compare, SameMultiples, InSpace, BinaryForm;
    OtherForms(b, lay, f2, f1);
    if Open(lay) {
      OpenEquality(lay, f2, f1);
      OutsideLength(lay, f1.rels);
      OutsideLength(lay, f2.rels);
    } else {
      ClosedEquality(lay, f2, f1);
    }
  }

  lemma ClosedEquality(lay: Layout, f2: Form, f1: Form)
    requires KnownSections(lay, f2.rels) && KnownSections(lay, f1.rels) && !Open(lay)
    ensures multiset(f1.rels) == multiset(f2.rels) <==> SameMultiples(lay, f2, f1)
  {
    SameMultisets(f1.rels, f2.rels, |lay.sections|);
  }

  /** A choice needs an absolute condition; its arms may be relative. */
  lemma ChoiceFails(lay: Layout, f3: Form, f2: Form, f1: Form)
    requires KnownSections(lay, f3.rels)
    ensures var a := ChoiceForm(lay, f3, f2, f1);
      && !a.trapped && (a.failed <==> Blocks(lay, f3)) && (a.later <==> Waits(lay, f3))
      && a.form == if f3.value == 0 then f1 else f2
  {
    VerdictIs(lay, f3);
  }

  /** What is reported at the end: an address of one section, or a word; anything else fails, or is
      postponed when all its sections lie in one relocation space that is still open. */
  lemma FinishReports(lay: Layout, st: RelState)
    requires ValidLayout(lay) && KnownSections(lay, FinalForm(st).rels)
    ensures var f, out := FinalForm(st), Finish(lay, st);
      var reported := f.rels == [] || exists s :: f.rels == [RelMultiply(1, s)];
      var postponed := !reported && Open(lay) && forall i, j | 0 <= i < |f.rels| && 0 <= j < |f.rels| ::
                         InSpace(lay, f.rels[i].section)
                         && lay.sections[f.rels[i].section].space == lay.sections[f.rels[j].section].space;
      && (out.Trapped? <==> st.trapped)
      && (out.TryLater? <==> !st.trapped && (st.later || postponed))
      && (out.Failed? <==> !st.trapped && !st.later && !postponed && (st.failed || !reported))
      && (out.Success? <==> !st.trapped && !st.later && !st.failed && reported)
  {
    hide ProperSection, ValidLayout;
    var f := FinalForm(st);
    if |f.rels| == 1 && f.rels[0].multiply == 1 {
      assert f.rels == [RelMultiply(1, f.rels[0].section)];
    }
  }

  /** A choice between two addresses of a section is one of them. */
  lemma ChoiceOfAddresses(c: Word, v: Word, w: Word)
    ensures var code := [Push(Value(c, ASMSECT_ABS)), Push(Value(v, 0)), Push(Value(w, 0)), Apply(CHOICE)];
      && ValidLayout(ONE_SECTION) && CodeOk(ONE_SECTION, code) && Runs(code, 0)
      && Finish(ONE_SECTION, RelRun(ONE_SECTION, code, REL_START)) == Success(if c == 0 then w else v, 0)
  {
    var lay := ONE_SECTION;
    var code := [Push(Value(c, ASMSECT_ABS)), Push(Value(v, 0)), Push(Value(w, 0)), Apply(CHOICE)];
    var x, y, z := ArgForm(lay, c, ASMSECT_ABS), ArgForm(lay, v, 0), ArgForm(lay, w, 0);
    RunThrough(lay, code,
               [REL_START, RelState([x], false, false, false), RelState([x, y], false, false, false),
                RelState([x, y, z], false, false, false),
                RelState([if c == 0 then z else y], false, false, false)]);
  }
}
