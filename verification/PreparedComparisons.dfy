/** Comparisons that the preparation of section differences turns or refuses. */
module PreparedComparisons {
  import opened Words
  import opened Operators
  import opened LinearForms
  import opened AbsoluteMachine
  import opened RelativeMachine
  import opened RelativeSoundness
  import opened RelativeEvaluation
  import opened MovedForms
  import opened SectionComparisons
  import opened SectionDifferences

  lemma ArgValues(before: Layout, after: Layout, v: Word, s: SectionId)
    requires Prepares(before, after) && s < |after.sections|
    ensures ArgForm(before, v, s).value == v && ArgForm(after, v, s).value == Wrap(v + Delta(after, s))
  {
    WrapIs(v, 0, v);
  }

  /** Comparing two offsets of one section gives the same answer before and after exactly when the
      way to the head of the space keeps their order. */
  lemma PreparedComparisonExact(before: Layout, after: Layout, b: BinaryOp, v: Word, w: Word, s: SectionId)
    requires Prepares(before, after) && !before.withDiffs && s < |after.sections| && IsComparison(b)
    ensures var code := Comparison(b, v, w, s);
      CodeOk(before, code) && CodeOk(after, code) && Runs(code, 0)
      && (Finish(before, RelRun(before, code, REL_START)) == Finish(after, RelRun(after, code, REL_START))
          <==> WordsOrderKept(b, v, w, Delta(after, s)))
  {
    hide RelRun, Finish, Compare, WordsOrderKept, Comparison, ValidLayout, Head, ArgForm, Delta, Wrap;
    ComparisonAnswer(before, b, v, w, s);
    ComparisonAnswer(after, b, v, w, s);
    CompareTranslated(b, v, w, Delta(after, s));
    ArgValues(before, after, v, s);
    ArgValues(before, after, w, s);
  }

  /** Two sections of one relocation space, eight bytes apart. */
  const UNPREPARED := Layout([SectionInfo(0, 0), SectionInfo(0, 8)], [[0, 1]], false, false)

  const PREPARED := UNPREPARED.(prepared := true)

  lemma LayoutsPrepare()
    ensures Prepares(UNPREPARED, PREPARED)
  {
  }

  /** The order of two offsets turns when the second one wraps around on the way to the head. */
  lemma PreparationCanTurnOrder()
    ensures var code := Comparison(BELOW, 1, MODULUS - 8, 1);
      Prepares(UNPREPARED, PREPARED) && CodeOk(UNPREPARED, code) && CodeOk(PREPARED, code) && Runs(code, 0)
      && Finish(UNPREPARED, RelRun(UNPREPARED, code, REL_START)) == Success(UINT64_MAX, ASMSECT_ABS)
      && Finish(PREPARED, RelRun(PREPARED, code, REL_START)) == Success(0, ASMSECT_ABS)
  {
    hide RelRun, Finish, Comparison, ValidLayout, CodeOk, Runs;
    LayoutsPrepare();
    ComparisonAnswer(UNPREPARED, BELOW, 1, MODULUS - 8, 1);
    ComparisonAnswer(PREPARED, BELOW, 1, MODULUS - 8, 1);
    assert ArgForm(PREPARED, 1, 1).value == 9 && ArgForm(PREPARED, MODULUS - 8, 1).value == 0;
  }

  /** The sum or the difference of the two sections, times a number that makes even multiples
      vanish. */
  function Scaled(b: BinaryOp): (code: Code)
    ensures |code| == 5
  {
    [Push(Value(0, 0)), Push(Value(0, 1)), Apply(Binary(b)), Push(Value(SIGN_BIT, ASMSECT_ABS)),
     Apply(Binary(MULTIPLY))]
  }

  function ScaledForm(lay: Layout, b: BinaryOp): (f: Form)
    requires ValidLayout(lay) && |lay.sections| == 2
    ensures FormOk(lay, f)
  {
    ArgFormOk(lay, 0, 0);
    ArgFormOk(lay, 0, 1);
    AddFormsOk(lay, b, ArgForm(lay, 0, 0), ArgForm(lay, 0, 1));
    MultiplyFormsOk(lay, AddForms(b, ArgForm(lay, 0, 0), ArgForm(lay, 0, 1)).form, Form(SIGN_BIT, []));
    MultiplyForms(lay, AddForms(b, ArgForm(lay, 0, 0), ArgForm(lay, 0, 1)).form, Form(SIGN_BIT, [])).form
  }

  /** Compares the scaled sum with the scaled difference. */
  const VANISHING: Code := Scaled(ADDITION) + Scaled(SUBTRACT) + [Apply(Binary(EQUAL))]

  function Holding(stack: seq<Form>): RelState {
    RelState(stack, false, false, false)
  }

  /** The states that the evaluation of a scaled sum or difference goes through. */
  function ScaledStates(lay: Layout, b: BinaryOp, stack: seq<Form>): (states: seq<RelState>)
    requires ValidLayout(lay) && |lay.sections| == 2
    ensures |states| == 5 && states[0] == Holding(stack)
  {
    var f, g := ArgForm(lay, 0, 0), ArgForm(lay, 0, 1);
    var sum := AddForms(b, f, g).form;
    [Holding(stack), Holding(stack + [f]), Holding(stack + [f, g]), Holding(stack + [sum]),
     Holding(stack + [sum, Form(SIGN_BIT, [])])]
  }

  lemma ScaledSteps(lay: Layout, b: BinaryOp, stack: seq<Form>)
    requires ValidLayout(lay) && |lay.sections| == 2 && StateOk(lay, Holding(stack)) && (b == ADDITION || b == SUBTRACT)
    ensures var states, code := ScaledStates(lay, b, stack), Scaled(b);
      && (forall k | 0 <= k < 5 ::
            InstrOk(lay, code[k]) && Arity(code[k]) <= |states[k].stack| && StateOk(lay, states[k]))
      && (forall k | 0 <= k < 4 :: states[k + 1] == RelStep(lay, code[k], states[k]))
      && RelStep(lay, code[4], states[4]) == Holding(stack + [ScaledForm(lay, b)])
  {
    hide ArgForm, AddForms, FormOk, ValidLayout, MultiplyForms;
    ArgFormOk(lay, 0, 0);
    ArgFormOk(lay, 0, 1);
    var f, g := ArgForm(lay, 0, 0), ArgForm(lay, 0, 1);
    AddFormsOk(lay, b, f, g);
    AddNeverFails(b, f, g);
    ScaleNeverFails(lay, AddForms(b, f, g).form);
    ConstantOk(lay, SIGN_BIT);
    var sum, k := AddForms(b, f, g).form, Form(SIGN_BIT, []);
    assert stack + [f] + [g] == stack + [f, g] && (stack + [f, g])[..|stack|] == stack;
    assert stack + [sum] + [k] == stack + [sum, k] && (stack + [sum, k])[..|stack|] == stack;
  }

  lemma ConstantOk(lay: Layout, v: Word)
    requires ValidLayout(lay)
    ensures FormOk(lay, Form(v, [])) && ArgForm(lay, v, ASMSECT_ABS) == Form(v, [])
  {
  }

  lemma VanishingRuns(lay: Layout, p: Form, d: Form)
    requires ValidLayout(lay) && |lay.sections| == 2
    requires p == ScaledForm(lay, ADDITION) && d == ScaledForm(lay, SUBTRACT)
    ensures CodeOk(lay, VANISHING) && Runs(VANISHING, 0)
    ensures RelRun(lay, VANISHING, REL_START) == Absorb(REL_START, [], CompareForms(EQUAL, lay, p, d))
  {
    hide ScaledStates, Scaled, ValidLayout, CompareForms, ScaledForm;
    ScaledSteps(lay, ADDITION, []);
    ScaledSteps(lay, SUBTRACT, [p]);
    var last := Absorb(REL_START, [], CompareForms(EQUAL, lay, p, d));
    assert RelStep(lay, Apply(Binary(EQUAL)), Holding([p, d])) == last;
    hide RelStep, StateOk, InstrOk, Arity;
    RunThrough(lay, VANISHING,
               ScaledStates(lay, ADDITION, []) + ScaledStates(lay, SUBTRACT, [p]) + [Holding([p, d]), last]);
  }

  lemma ScaleNeverFails(lay: Layout, f: Form)
    requires FormOk(lay, f)
    ensures var a := MultiplyForms(lay, f, Form(SIGN_BIT, [])); !a.failed && !a.later && !a.trapped
  {
  }

  lemma AddOne(r: RelMultiply, q: RelMultiply)
    ensures r.section != q.section ==> AddRelatives([r], [q]) == [r, q]
    ensures r.section == q.section ==> AddRelatives([r], [q]) == [r.(multiply := Wrap(r.multiply + q.multiply))]
  {
    assert [q][..0] == [];
    assert AddRelatives([r], []) == [r];
    assert Has([r], q.section) <==> [r][0].section == q.section;
  }

  lemma SumOfSections(b: BinaryOp, f: Form, g: Form)
    requires (b == ADDITION || b == SUBTRACT) && |f.rels| == 1 && |g.rels| == 1
    requires f.rels[0].multiply == 1 == g.rels[0].multiply
    ensures var k := if b == ADDITION then 1 else UINT64_MAX; var out := AddForms(b, f, g).form.rels;
      if f.rels[0].section != g.rels[0].section then out == [RelMultiply(k, g.rels[0].section), f.rels[0]]
      else out == if b == ADDITION then [RelMultiply(2, f.rels[0].section)] else []
  {
    var k := if b == ADDITION then 1 else UINT64_MAX;
    var q, r := f.rels[0], RelMultiply(k, g.rels[0].section);
    assert f.rels == [q] && g.rels == [g.rels[0]];
    assert (if b == SUBTRACT then NegateAll(g.rels) else g.rels) == [r];
    AddOne(r, q);
    DropOne(r, q);
    hide AddRelatives, DropZeros;
  }

  lemma DropOne(r: RelMultiply, q: RelMultiply)
    ensures DropZeros([r]) == if r.multiply == 0 then [] else [r]
    ensures r.multiply != 0 && q.multiply != 0 ==> DropZeros([r, q]) == [r, q]
    ensures forall m: Word, s: SectionId :: DropZeros([RelMultiply(m, s)]) == if m == 0 then [] else [RelMultiply(m, s)]
  {
    assert [r, q][1..] == [q] && [q][1..] == [] && [r][1..] == [];
    forall m: Word, s: SectionId
      ensures DropZeros([RelMultiply(m, s)]) == if m == 0 then [] else [RelMultiply(m, s)]
    {
      assert [RelMultiply(m, s)][1..] == [];
    }
  }

  lemma BeforeForms()
    ensures ValidLayout(UNPREPARED)
    ensures ScaledForm(UNPREPARED, ADDITION) == Form(0, [RelMultiply(SIGN_BIT, 1), RelMultiply(SIGN_BIT, 0)])
    ensures ScaledForm(UNPREPARED, SUBTRACT) == Form(0, [RelMultiply(SIGN_BIT, 1), RelMultiply(SIGN_BIT, 0)])
  {
    hide AddRelatives, DropZeros;
    var f, g := ArgForm(UNPREPARED, 0, 0), ArgForm(UNPREPARED, 0, 1);
    SumOfSections(ADDITION, f, g);
    SumOfSections(SUBTRACT, f, g);
    assert Scale([RelMultiply(1, 1), RelMultiply(1, 0)], SIGN_BIT)
           == [RelMultiply(SIGN_BIT, 1), RelMultiply(SIGN_BIT, 0)];
    assert Wrap(UINT64_MAX * SIGN_BIT) == SIGN_BIT;
    assert Scale([RelMultiply(UINT64_MAX, 1), RelMultiply(1, 0)], SIGN_BIT)
           == [RelMultiply(SIGN_BIT, 1), RelMultiply(SIGN_BIT, 0)];
  }

  lemma AfterForms()
    ensures ValidLayout(PREPARED)
    ensures ScaledForm(PREPARED, ADDITION) == Form(0, [RelMultiply(0, 0)])
    ensures ScaledForm(PREPARED, SUBTRACT) == Form(0, [])
  {
    hide AddRelatives, DropZeros;
    var f, g := ArgForm(PREPARED, 0, 0), ArgForm(PREPARED, 0, 1);
    SumOfSections(ADDITION, f, g);
    SumOfSections(SUBTRACT, f, g);
    assert Scale([RelMultiply(2, 0)], SIGN_BIT) == [RelMultiply(0, 0)];
    assert Wrap(8 * SIGN_BIT) == 0 == Wrap((MODULUS - 8) * SIGN_BIT);
  }

  /** Multiples that vanish only when the sections are one: an equality that succeeds before the
      preparation, without reckoning with section differences, is refused after it. */
  lemma VanishedMultiplesAreRefused()
    ensures Prepares(UNPREPARED, PREPARED)
    ensures CodeOk(UNPREPARED, VANISHING) && CodeOk(PREPARED, VANISHING) && Runs(VANISHING, 0)
    ensures Finish(UNPREPARED, RelRun(UNPREPARED, VANISHING, REL_START)) == Success(UINT64_MAX, ASMSECT_ABS)
    ensures Finish(PREPARED, RelRun(PREPARED, VANISHING, REL_START)) == Failed
  {
    hide RelRun, ScaledForm, Scaled;
    LayoutsPrepare();
    BeforeForms();
    AfterForms();
    VanishingRuns(UNPREPARED, ScaledForm(UNPREPARED, ADDITION), ScaledForm(UNPREPARED, SUBTRACT));
    VanishingRuns(PREPARED, ScaledForm(PREPARED, ADDITION), ScaledForm(PREPARED, SUBTRACT));
    assert |multiset([RelMultiply(0, 0)])| == 1;
  }
}
