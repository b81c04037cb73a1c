/** Evaluating before section differences are prepared, and after: the same address. */
module SectionDifferences {
  import opened Words
  import opened Operators
  import opened LinearForms
  import opened AbsoluteMachine
  import opened RelativeMachine
  import opened RelativeSoundness
  import opened RelativeEvaluation
  import opened MovedForms

  /** An accepted answer before, and the same one after. */
  ghost predicate AnswersRelated(lay: Layout, a: RelAnswer, a': RelAnswer)
    requires Prepared(lay)
  {
    !a'.failed && !a'.later && a'.trapped == a.trapped && Related(lay, a.form, a'.form)
  }

  lemma UnaryRelated(lay: Layout, u: UnaryOp, f: Form, g: Form)
    requires Prepared(lay) && Related(lay, f, g) && !UnaryForm(u, f).failed
    ensures AnswersRelated(lay, UnaryForm(u, f), UnaryForm(u, g))
  {
    hide Related, Prepared, NegateAll;
    match u
    case NEGATE => NegateRelated(lay, f, g);
    case BIT_NOT => NegateRelated(lay, f, g);
    case LOGICAL_NOT =>
      EmptyStays(lay, f, g);
      ConstantRelated(lay, Truth(f.value == 0));
    case PLUS =>
  }

  /** Before the preparation, relatives pass without being postponed only when there are none. */
  lemma PassedIsEmpty(lay: Layout, rels: Relatives)
    requires KnownSections(lay, rels)
    ensures var c := CheckSectionDiffs(lay, rels); c.ok && !c.later <==> rels == []
    ensures var c := CheckSectionDiffs(lay, rels); c.later ==> c.ok
  {
  }

  lemma WordsOnlyRelated(before: Layout, after: Layout, b: BinaryOp, f2: Form, f1: Form, g2: Form, g1: Form)
    requires Prepares(before, after) && Related(after, f2, g2) && Related(after, f1, g1)
    requires FormOk(before, f2) && FormOk(before, f1)
    requires var a := WordsOnly(b, before, f2, f1); !a.failed && !a.later
    ensures AnswersRelated(after, WordsOnly(b, before, f2, f1), WordsOnly(b, after, g2, g1))
  {
    hide Related, BinaryWord;
    PassedIsEmpty(before, f1.rels);
    PassedIsEmpty(before, f2.rels);
    EmptyStays(after, f1, g1);
    EmptyStays(after, f2, g2);
    ConstantRelated(after, BinaryWord(b, f2.value, f1.value).value);
  }

  lemma ShiftRelated(before: Layout, after: Layout, f2: Form, f1: Form, g2: Form, g1: Form)
    requires Prepares(before, after) && Related(after, f2, g2) && Related(after, f1, g1)
    requires FormOk(before, f2) && FormOk(before, f1)
    requires var a := ShiftForms(before, f2, f1); !a.failed && !a.later
    ensures AnswersRelated(after, ShiftForms(before, f2, f1), ShiftForms(after, g2, g1))
  {
    hide Related, Pow2, Scale;
    PassedIsEmpty(before, f1.rels);
    EmptyStays(after, f1, g1);
    if f1.value < 64 {
      Pow2Below64(f1.value);
      ScaleRelated(after, f2, g2, Pow2(f1.value));
    } else {
      ConstantRelated(after, 0);
    }
  }

  lemma MultiplyRelated(before: Layout, after: Layout, f2: Form, f1: Form, g2: Form, g1: Form)
    requires Prepares(before, after) && Related(after, f2, g2) && Related(after, f1, g1)
    requires FormOk(before, f2) && FormOk(before, f1)
    requires var a := MultiplyForms(before, f2, f1); !a.failed && !a.later
    ensures AnswersRelated(after, MultiplyForms(before, f2, f1), MultiplyForms(after, g2, g1))
  {
    hide Related;
    PassedIsEmpty(before, f1.rels);
    PassedIsEmpty(before, f2.rels);
    assert Scale([], f2.value) == Scale([], f1.value) == Scale([], g2.value) == [];
    if f2.rels == [] {
      EmptyStays(after, f2, g2);
      ProductRelated(after, f1, g1, f2.value);
    } else {
      EmptyStays(after, f1, g1);
      ProductRelated(after, f2, g2, f1.value);
    }
  }

  lemma ProductRelated(lay: Layout, f: Form, g: Form, k: Word)
    requires Prepared(lay) && Related(lay, f, g)
    ensures k != 0 ==>
      && Related(lay, Form(Wrap(f.value * k), Scale(f.rels, k)), Form(Wrap(g.value * k), Scale(g.rels, k)))
      && Related(lay, Form(Wrap(k * f.value), Scale(f.rels, k)), Form(Wrap(k * g.value), Scale(g.rels, k)))
    ensures k == 0 ==> Related(lay, Form(Wrap(f.value * k), []), Form(Wrap(g.value * k), []))
    ensures k == 0 ==> Related(lay, Form(Wrap(k * f.value), []), Form(Wrap(k * g.value), []))
  {
    hide Related;
    assert k * f.value == f.value * k && k * g.value == g.value * k;
    if k == 0 {
      ConstantRelated(lay, 0);
    } else {
      ScaleRelated(lay, f, g, k);
    }
  }

  lemma MaskRelated(before: Layout, after: Layout, b: BinaryOp, f2: Form, f1: Form, g2: Form, g1: Form)
    requires Prepares(before, after) && Related(after, f2, g2) && Related(after, f1, g1)
    requires FormOk(before, f2) && FormOk(before, f1) && FormOk(after, g2) && FormOk(after, g1)
    requires IsMask(b)
    requires var a := MaskForms(b, before, f2, f1); !a.failed && !a.later
    ensures AnswersRelated(after, MaskForms(b, before, f2, f1), MaskForms(b, after, g2, g1))
  {
    hide Related, BinaryWord, Not, Proper;
    PassedIsEmpty(before, f1.rels);
    PassedIsEmpty(before, f2.rels);
    PassedIsEmpty(after, g1.rels);
    PassedIsEmpty(after, g2.rels);
    NegateRelated(after, f1, g1);
    if f1.rels == [] { EmptyStays(after, f1, g1); }
    if f2.rels == [] { EmptyStays(after, f2, g2); }
    if g1.rels == [] && g2.rels == [] {
      MaskAbsolute(b, after, g2.value, g1.value);
      RuleSound(b, f1.rels == [], f2.rels == [], f2.value, f1.value, g2.value, g1.value);
      ConstantRelated(after, BinaryWord(b, g2.value, g1.value).value);
      assert NegateAll([]) == [];
    } else {
      ConstantRelated(after, 0);
      ConstantRelated(after, 1);
      ConstantRelated(after, UINT64_MAX);
    }
  }

  // ----- comparisons -----

  /** The condition under which an accepted comparison stays as it is: the same multiples vanish on
      both sides, and the way to the head of the space does not turn the order. */
  ghost predicate CompareStays(lay: Layout, b: BinaryOp, f2: Form, f1: Form, g2: Form, g1: Form)
    requires Prepared(lay)
  {
    multiset(g1.rels) == multiset(g2.rels) && WordsOrderKept(b, f2.value, f1.value, Sum(f1.rels, Deltas(lay)))
  }

  /** A comparison that is accepted before the preparation is accepted after it, with the same
      answer, exactly under this condition. */
  lemma CompareRelated(before: Layout, after: Layout, b: BinaryOp, f2: Form, f1: Form, g2: Form, g1: Form)
    requires Prepares(before, after) && Related(after, f2, g2) && Related(after, f1, g1)
    requires FormOk(before, f2) && FormOk(before, f1) && FormOk(after, g2) && FormOk(after, g1)
    requires IsComparison(b)
    requires var a := CompareForms(b, before, f2, f1); !a.failed && !a.later
    ensures AnswersRelated(after, CompareForms(b, before, f2, f1), CompareForms(b, after, g2, g1))
            <==> CompareStays(after, b, f2, f1, g2, g1)
  {
    hide Compare, WordsOrderKept, Sum, SameCounts, Folded;
    AcceptedMeansEqual(before, f2, f1);
    SumOfMultiset(f1.rels, f2.rels, Deltas(after));
    CompareTranslated(b, f2.value, f1.value, Sum(f1.rels, Deltas(after)));
    var a, a' := CompareForms(b, before, f2, f1), CompareForms(b, after, g2, g1);
    ConstantRelated(after, a.form.value);
    DenotesConstant(a.form, Deltas(after));
  }

  /** While differences are to come, the compared forms have no multiples in relocation spaces. */
  lemma OpenCompareStays(before: Layout, after: Layout, b: BinaryOp, f2: Form, f1: Form, g2: Form, g1: Form)
    requires Prepares(before, after) && Related(after, f2, g2) && Related(after, f1, g1) && before.withDiffs
    requires FormOk(before, f2) && FormOk(before, f1)
    requires IsComparison(b)
    requires var a := CompareForms(b, before, f2, f1); !a.failed && !a.later
    ensures CompareStays(after, b, f2, f1, g2, g1)
  {
    hide Compare, SameCounts, Folded, Related;
    AcceptedMeansEqual(before, f2, f1);
    AcceptedIsOutside(before, f1.rels);
    AcceptedIsOutside(before, f2.rels);
    OutsideStays(after, f1, g1);
    OutsideStays(after, f2, g2);
    OutsideDelta(after, f1.rels);
    assert Wrap(0) == 0;
  }

  lemma {:induction false} AcceptedIsOutside(lay: Layout, rels: Relatives)
    requires KnownSections(lay, rels)
    ensures |OutsideSpaces(lay, rels)| <= |rels|
    ensures |OutsideSpaces(lay, rels)| == |rels| ==> forall i | 0 <= i < |rels| :: !InSpace(lay, rels[i].section)
  {
    if rels != [] {
      var rest := rels[1..];
      AcceptedIsOutside(lay, rest);
      if |OutsideSpaces(lay, rels)| == |rels| {
        forall i | 0 <= i < |rels| ensures !InSpace(lay, rels[i].section) {
          assert i > 0 ==> rels[i] == rest[i - 1];
        }
      }
    }
  }

  // ----- one operator, whatever it is -----

  ghost predicate OperatorStays(before: Layout, after: Layout, b: BinaryOp, f2: Form, f1: Form, g2: Form, g1: Form)
    requires Prepared(after)
  {
    IsComparison(b) ==> before.withDiffs || CompareStays(after, b, f2, f1, g2, g1)
  }

  lemma BinaryRelated(before: Layout, after: Layout, b: BinaryOp, f2: Form, f1: Form, g2: Form, g1: Form)
    requires Prepares(before, after) && Related(after, f2, g2) && Related(after, f1, g1)
    requires FormOk(before, f2) && FormOk(before, f1) && FormOk(after, g2) && FormOk(after, g1)
    requires OperatorStays(before, after, b, f2, f1, g2, g1)
    requires var a := BinaryForm(b, before, f2, f1); !a.failed && !a.later
    ensures AnswersRelated(after, BinaryForm(b, before, f2, f1), BinaryForm(b, after, g2, g1))
  {
    hide Related, AddForms, MultiplyForms, ShiftForms, MaskForms, CompareForms, WordsOnly, FormOk, CompareStays;
    if b == ADDITION || b == SUBTRACT {
      AddRelated(after, b, f2, f1, g2, g1);
      AddNeverFails(b, f2, f1);
      AddNeverFails(b, g2, g1);
    } else if b == MULTIPLY {
      MultiplyRelated(before, after, f2, f1, g2, g1);
    } else if b == SHIFT_LEFT {
      ShiftRelated(before, after, f2, f1, g2, g1);
    } else if IsMask(b) {
      MaskRelated(before, after, b, f2, f1, g2, g1);
    } else if IsComparison(b) {
      if before.withDiffs {
        OpenCompareStays(before, after, b, f2, f1, g2, g1);
      }
      CompareRelated(before, after, b, f2, f1, g2, g1);
    } else {
      WordsOnlyRelated(before, after, b, f2, f1, g2, g1);
    }
  }

  lemma AddNeverFails(b: BinaryOp, f2: Form, f1: Form)
    ensures var a := AddForms(b, f2, f1); !a.failed && !a.later && !a.trapped
  {
  }

  lemma ChoiceRelated(before: Layout, after: Layout, f3: Form, f2: Form, f1: Form, g3: Form, g2: Form, g1: Form)
    requires Prepares(before, after) && Related(after, f3, g3) && Related(after, f2, g2) && Related(after, f1, g1)
    requires FormOk(before, f3)
    requires var a := ChoiceForm(before, f3, f2, f1); !a.failed && !a.later
    ensures AnswersRelated(after, ChoiceForm(before, f3, f2, f1), ChoiceForm(after, g3, g2, g1))
  {
    PassedIsEmpty(before, f3.rels);
    EmptyStays(after, f3, g3);
    hide Related;
  }

  // ----- whole runs -----

  ghost predicate StatesRelated(lay: Layout, st: RelState, st': RelState)
    requires Prepared(lay)
  {
    && !st'.failed && !st'.later && st'.trapped == st.trapped
    && |st'.stack| == |st.stack|
    && forall i | 0 <= i < |st.stack| :: Related(lay, st.stack[i], st'.stack[i])
  }

  /** The operator on top of the stacks stays as it is. */
  ghost predicate StepStays(before: Layout, after: Layout, i: Instr, st: RelState, st': RelState)
    requires Prepared(after) && |st.stack| == |st'.stack| >= Arity(i)
  {
    i.Apply? && i.op.Binary? ==>
      var n := |st.stack|;
      OperatorStays(before, after, i.op.b, st.stack[n - 2], st.stack[n - 1], st'.stack[n - 2], st'.stack[n - 1])
  }

  /** Every comparison met on the way stays as it is. */
  ghost predicate ComparesStay(before: Layout, after: Layout, code: Code, st: RelState, st': RelState)
    requires Prepares(before, after) && CodeOk(before, code) && CodeOk(after, code)
    requires StateOk(before, st) && StateOk(after, st') && |st.stack| == |st'.stack| && Runs(code, |st.stack|)
  {
    code == [] ||
    (&& StepStays(before, after, code[0], st, st')
     && (RelStepOk(before, code[0], st);
         RelStepOk(after, code[0], st');
         ComparesStay(before, after, code[1..], RelStep(before, code[0], st), RelStep(after, code[0], st'))))
  }

  lemma StepRelated(before: Layout, after: Layout, i: Instr, st: RelState, st': RelState)
    requires Prepares(before, after) && InstrOk(before, i) && InstrOk(after, i)
    requires StateOk(before, st) && StateOk(after, st') && StatesRelated(after, st, st') && Arity(i) <= |st.stack|
    requires StepStays(before, after, i, st, st')
    requires var r := RelStep(before, i, st); !r.failed && !r.later
    ensures StatesRelated(after, RelStep(before, i, st), RelStep(after, i, st'))
  {
    hide Related, BinaryForm, UnaryForm, ChoiceForm, OperatorStays, ArgForm, ValidLayout;
    var n := |st.stack|;
    match i
    case Push(arg) => ArgRelated(before, after, arg.value, arg.section);
    case Apply(Unary(u)) => UnaryRelated(after, u, st.stack[n - 1], st'.stack[n - 1]);
    case Apply(Binary(b)) =>
      BinaryRelated(before, after, b, st.stack[n - 2], st.stack[n - 1], st'.stack[n - 2], st'.stack[n - 1]);
    case Apply(CHOICE) =>
      ChoiceRelated(before, after, st.stack[n - 3], st.stack[n - 2], st.stack[n - 1],
                    st'.stack[n - 3], st'.stack[n - 2], st'.stack[n - 1]);
    case Apply(CHOICE_START) =>
  }

  lemma {:induction false} RunRelated(before: Layout, after: Layout, code: Code, st: RelState, st': RelState)
    requires Prepares(before, after) && CodeOk(before, code) && CodeOk(after, code)
    requires StateOk(before, st) && StateOk(after, st') && StatesRelated(after, st, st') && Runs(code, |st.stack|)
    requires before.withDiffs || ComparesStay(before, after, code, st, st')
    requires var r := RelRun(before, code, st); !r.failed && !r.later
    ensures StatesRelated(after, RelRun(before, code, st), RelRun(after, code, st'))
  {
    if code != [] {
      var i := code[0];
      assert InstrOk(before, i) && InstrOk(after, i);
      RelStepOk(before, i, st);
      RelStepOk(after, i, st');
      RelFlagsAreSticky(before, code[1..], RelStep(before, i, st));
      hide Related, RelStep, InstrOk, CompareStays, StateOk, ValidLayout;
      StepRelated(before, after, i, st, st');
      RunRelated(before, after, code[1..], RelStep(before, i, st), RelStep(after, i, st'));
    }
  }

  /** Two answers denote the same address: the same word, or places in one relocation space at the
      same distance from its start. */
  ghost predicate SameAddress(lay: Layout, o: Outcome, o': Outcome) {
    o.Success? && o'.Success? &&
    if Inside(lay, o.section) then
      && Inside(lay, o'.section) && lay.sections[o'.section].space == lay.sections[o.section].space
      && Cong(lay.sections[o'.section].relAddress + o'.value, lay.sections[o.section].relAddress + o.value)
    else o' == o
  }

  lemma SameAddressAfter(after: Layout, s: SectionId, h: SectionId, r: SectionId, v: Word, w: Word)
    requires s < |after.sections| && h < |after.sections| && r < |after.sections|
    requires w == Wrap(v + (after.sections[s].relAddress - after.sections[h].relAddress))
    ensures Cong(after.sections[r].relAddress + Wrap(w + after.sections[h].relAddress - after.sections[r].relAddress),
                 after.sections[s].relAddress + v)
  {
    hide Wrap;
    var as': int, ah: int := after.sections[s].relAddress, after.sections[h].relAddress;
    var ar: int := after.sections[r].relAddress;
    CongWrap(v + (as' - ah));
    CongAdd(w, v + (as' - ah), ah - ar, ah - ar);
    CongWrap(w + ah - ar);
    CongAdd(ar, ar, Wrap(w + ah - ar), v + (as' - ah) + (ah - ar));
  }

  lemma OneSection(rels: Relatives, h: SectionId)
    requires Proper(rels) && forall j | 0 <= j < |rels| :: rels[j].section == h
    ensures |rels| <= 1
  {
    if rels != [] {
      var j := if |rels| > 1 then 1 else 0;
      var first, second := rels[0], rels[j];
    }
  }

  /** A single multiple inside a space becomes that of the head. */
  lemma SingleInside(lay: Layout, f: Form, g: Form, s: SectionId)
    requires Prepared(lay) && Related(lay, f, g) && f.rels == [RelMultiply(1, s)]
    ensures Inside(lay, s) ==> g.rels == [RelMultiply(1, Head(lay, s))]
    ensures g.value == Wrap(f.value + Delta(lay, s))
  {
    var h := Head(lay, s);
    SumOfOne(f.rels[0], Deltas(lay));
    SumOfOne(f.rels[0], Counts(lay, h));
    FoldedHeads(lay, f.rels, g.rels);
    forall j | 0 <= j < |g.rels| ensures g.rels[j].section == h {
      assert IsHeadOf(lay, f.rels, g.rels[j].section);
    }
    OneSection(g.rels, h);
    assert Cong(Sum(g.rels, Counts(lay, h)), 1);
    if g.rels == [] {
      WordsCong(0, 1);
    } else {
      HeadCount(lay, g.rels, 0);
      WordsCong(g.rels[0].multiply, 1);
    }
  }

  lemma FinishRelated(before: Layout, after: Layout, st: RelState, st': RelState)
    requires Prepares(before, after) && StateOk(before, st) && StateOk(after, st') && StatesRelated(after, st, st')
    requires Finish(before, st).Success?
    ensures SameAddress(after, Finish(before, st), Finish(after, st'))
  {
    hide Related, Head, ProperSection, OneSpace, ValidLayout, Inside;
    var f, g := FinalForm(st), FinalForm(st');
    if st.stack == [] {
      NotInside(after);
    } else if f.rels == [] {
      NotInside(after);
      EmptyStays(after, f, g);
    } else {
      FinishSingle(before, after, st, st');
    }
  }

  lemma NotInside(lay: Layout)
    requires ValidLayout(lay)
    ensures !Inside(lay, ASMSECT_ABS)
  {
  }

  lemma FinishSingle(before: Layout, after: Layout, st: RelState, st': RelState)
    requires Prepares(before, after) && StateOk(before, st) && StateOk(after, st') && StatesRelated(after, st, st')
    requires Finish(before, st).Success? && FinalForm(st).rels != []
    ensures SameAddress(after, Finish(before, st), Finish(after, st'))
  {
    hide Related, Head, ProperSection, OneSpace, ValidLayout, Delta;
    var f, g := FinalForm(st), FinalForm(st');
    assert st.stack != [] && Related(after, f, g);
    var s := f.rels[0].section;
    assert f.rels == [RelMultiply(1, s)];
    assert Finish(before, st) == Success(f.value, s);
    SingleInside(after, f, g, s);
    if Inside(after, s) {
      FinishInside(after, st', s, f.value);
    } else {
      OutsideStays(after, f, g);
      SingleList(f.rels[0], g.rels);
    }
  }

  lemma FinishInside(lay: Layout, st: RelState, s: SectionId, v: Word)
    requires Prepared(lay) && StateOk(lay, st) && Inside(lay, s) && !st.failed && !st.later && !st.trapped
    requires st.stack != [] && FinalForm(st) == Form(Wrap(v + Delta(lay, s)), [RelMultiply(1, Head(lay, s))])
    ensures SameAddress(lay, Success(v, s), Finish(lay, st))
  {
    hide ProperSection, OneSpace, ValidLayout;
    var h, w := Head(lay, s), FinalForm(st).value;
    SameAddressAfter(lay, s, h, ProperSection(lay, h, w), v, w);
  }

  lemma SingleList(r: RelMultiply, rels: Relatives)
    requires multiset(rels) == multiset([r])
    ensures rels == [r]
  {
    assert |rels| == |multiset(rels)| == 1;
    assert rels[0] in multiset(rels);
  }

  lemma CodeStaysOk(before: Layout, after: Layout, code: Code)
    requires Prepares(before, after) && CodeOk(before, code)
    ensures CodeOk(after, code)
  {
    forall i | 0 <= i < |code| ensures InstrOk(after, code[i]) {
      assert InstrOk(before, code[i]);
    }
  }

  lemma AnswerStays(before: Layout, after: Layout, code: Code)
    requires Prepares(before, after) && CodeOk(before, code) && CodeOk(after, code) && Runs(code, 0)
    requires before.withDiffs || ComparesStay(before, after, code, REL_START, REL_START)
    requires Finish(before, RelRun(before, code, REL_START)).Success?
    ensures SameAddress(after, Finish(before, RelRun(before, code, REL_START)),
                        Finish(after, RelRun(after, code, REL_START)))
  {
    hide SameAddress, RelRun, ComparesStay, ValidLayout, CodeOk, Runs, OneSpace, ProperSection;
    RunRelated(before, after, code, REL_START, REL_START);
    FinishRelated(before, after, RelRun(before, code, REL_START), RelRun(after, code, REL_START));
  }

  /** MAIN: whatever succeeds while section differences are to come succeeds after they were
      prepared, with the same address. */
  lemma PreparationKeepsAddress(before: Layout, after: Layout, code: Code)
    requires Prepares(before, after) && before.withDiffs && CodeOk(before, code) && Runs(code, 0)
    requires Finish(before, RelRun(before, code, REL_START)).Success?
    ensures CodeOk(after, code)
    ensures SameAddress(after, Finish(before, RelRun(before, code, REL_START)),
                        Finish(after, RelRun(after, code, REL_START)))
  {
    CodeStaysOk(before, after, code);
    AnswerStays(before, after, code);
  }

  /** An evaluation that does not reckon with section differences keeps its address when every
      comparison that it meets stays as it is. */
  lemma PlainAnswerStays(before: Layout, after: Layout, code: Code)
    requires Prepares(before, after) && !before.withDiffs
    requires CodeOk(before, code) && CodeOk(after, code) && Runs(code, 0)
    requires ComparesStay(before, after, code, REL_START, REL_START)
    requires Finish(before, RelRun(before, code, REL_START)).Success?
    ensures SameAddress(after, Finish(before, RelRun(before, code, REL_START)),
                        Finish(after, RelRun(after, code, REL_START)))
  {
    AnswerStays(before, after, code);
  }
}
