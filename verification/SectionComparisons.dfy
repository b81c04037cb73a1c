/** Comparing two offsets of one section: the evaluator against the addresses. */
module SectionComparisons {
  import opened Words
  import opened Operators
  import opened LinearForms
  import opened AbsoluteMachine
  import opened RelativeMachine
  import opened RelativeSoundness
  import opened RelativeEvaluation

  /** The comparison of two offsets of a section. */
  function Comparison(b: BinaryOp, v: Word, w: Word, s: SectionId): Code {
    [Push(Value(v, s)), Push(Value(w, s)), Apply(Binary(b))]
  }

  lemma ComparisonRuns(b: BinaryOp, v: Word, w: Word, s: SectionId)
    ensures Runs(Comparison(b, v, w, s), 0)
  {
    var code := Comparison(b, v, w, s);
    var c1, c2 := code[1..], code[2..];
    assert c1[1..] == c2 && c2[1..] == [];
    assert Runs([], 1) && Runs(c2, 2) && Runs(c1, 1);
  }

  lemma SameSection(lay: Layout, v: Word, w: Word, s: SectionId)
    requires ValidLayout(lay) && s < |lay.sections|
    ensures ArgForm(lay, v, s).rels == ArgForm(lay, w, s).rels
  {
  }

  /** The evaluator compares the two offsets. */
  lemma ComparisonAnswer(lay: Layout, b: BinaryOp, v: Word, w: Word, s: SectionId)
    requires ValidLayout(lay) && (!lay.withDiffs || lay.prepared) && s < |lay.sections| && IsComparison(b)
    ensures CodeOk(lay, Comparison(b, v, w, s)) && Runs(Comparison(b, v, w, s), 0)
    ensures Finish(lay, RelRun(lay, Comparison(b, v, w, s), REL_START)) ==
            Success(Mask(Compare(b, ArgForm(lay, v, s).value, ArgForm(lay, w, s).value)), ASMSECT_ABS)
  {
    hide ArgForm, ValidLayout, FormOk, RelRun, Runs, CompareForms, InstrOk, Proper, RelStep, StateOk;
    var code := Comparison(b, v, w, s);
    ArgFormOk(lay, v, s);
    ArgFormOk(lay, w, s);
    var f2, f1 := ArgForm(lay, v, s), ArgForm(lay, w, s);
    FormKnown(lay, f2);
    FormKnown(lay, f1);
    assert [] + [f2] == [f2] && [f2] + [f1] == [f2, f1];
    NothingHeld(lay);
    PushStep(lay, [], v, s);
    PushStep(lay, [f2], w, s);
    CompareStep(lay, b, f2, f1);
    ComparedForms(lay, b, v, w, s);
    RunThrough(lay, code, [REL_START, RelState([f2], false, false, false), RelState([f2, f1], false, false, false),
                           Absorb(REL_START, [], CompareForms(b, lay, f2, f1))]);
  }

  lemma FormKnown(lay: Layout, f: Form)
    requires FormOk(lay, f)
    ensures KnownSections(lay, f.rels)
  {
  }

  lemma NothingHeld(lay: Layout)
    ensures StateOk(lay, REL_START)
  {
  }

  lemma PushStep(lay: Layout, stack: seq<Form>, v: Word, s: SectionId)
    requires ValidLayout(lay) && s < |lay.sections| && FormOk(lay, ArgForm(lay, v, s))
    requires StateOk(lay, RelState(stack, false, false, false))
    ensures var st' := RelState(stack + [ArgForm(lay, v, s)], false, false, false);
      StateOk(lay, st') && InstrOk(lay, Push(Value(v, s)))
      && RelStep(lay, Push(Value(v, s)), RelState(stack, false, false, false)) == st'
  {
    hide ArgForm, ValidLayout, FormOk;
  }

  lemma CompareStep(lay: Layout, b: BinaryOp, f2: Form, f1: Form)
    requires ValidLayout(lay) && StateOk(lay, RelState([f2, f1], false, false, false)) && IsComparison(b)
    requires KnownSections(lay, f2.rels) && KnownSections(lay, f1.rels)
    ensures InstrOk(lay, Apply(Binary(b)))
    ensures RelStep(lay, Apply(Binary(b)), RelState([f2, f1], false, false, false))
            == Absorb(REL_START, [], CompareForms(b, lay, f2, f1))
  {
    hide ValidLayout, FormOk, CompareForms, BinaryForm, KnownSections;
    ComparisonForm(lay, b, f2, f1);
  }

  lemma ComparisonForm(lay: Layout, b: BinaryOp, f2: Form, f1: Form)
    requires KnownSections(lay, f2.rels) && KnownSections(lay, f1.rels) && IsComparison(b)
    ensures BinaryForm(b, lay, f2, f1) == CompareForms(b, lay, f2, f1)
  {
    hide CompareForms, AddForms, MultiplyForms, ShiftForms, MaskForms, WordsOnly;
  }

  lemma ComparedForms(lay: Layout, b: BinaryOp, v: Word, w: Word, s: SectionId)
    requires ValidLayout(lay) && (!lay.withDiffs || lay.prepared) && s < |lay.sections| && IsComparison(b)
    requires KnownSections(lay, ArgForm(lay, v, s).rels) && KnownSections(lay, ArgForm(lay, w, s).rels)
    ensures CompareForms(b, lay, ArgForm(lay, v, s), ArgForm(lay, w, s)) ==
            RelAnswer(Form(Mask(Compare(b, ArgForm(lay, v, s).value, ArgForm(lay, w, s).value)), []),
                      false, false, false)
  {
    hide ArgForm, Compare;
    SameSection(lay, v, w, s);
  }

  lemma PlainRunOfThree(code: Code, s1: State, s2: State)
    requires |code| == 3 && Resolved(code) && Runs(code, 0)
    requires Arity(code[0]) <= 0 && Arity(code[1]) <= |s1.stack| && Arity(code[2]) <= |s2.stack|
    requires Step(code[0], START) == s1 && Step(code[1], s1) == s2
    ensures Run(code, START) == Step(code[2], s2)
  {
    hide Step;
    var c1, c2 := code[1..], code[2..];
    assert c1[1..] == c2 && c2[1..] == [];
    assert Run(c2, s2) == Run([], Step(code[2], s2));
    assert Run(c1, s1) == Run(c2, s2);
  }

  /** The word machine compares the two addresses. */
  lemma ComparisonPlaced(b: BinaryOp, v: Word, w: Word, s: SectionId, base: Bases)
    requires IsComparison(b)
    ensures Resolved(PlaceAll(Comparison(b, v, w, s), base)) && Runs(PlaceAll(Comparison(b, v, w, s), base), 0)
    ensures Result(Run(PlaceAll(Comparison(b, v, w, s), base), START)) ==
            Success(Mask(Compare(b, Wrap(v + BaseOf(base, s)), Wrap(w + BaseOf(base, s)))), ASMSECT_ABS)
  {
    hide Compare, Wrap, Run, Runs, PlaceAll, BaseOf, BinaryWord;
    ComparisonRuns(b, v, w, s);
    PlaceRuns(Comparison(b, v, w, s), base, 0);
    var x, y := Wrap(v + BaseOf(base, s)), Wrap(w + BaseOf(base, s));
    var code := [Push(Value(x, ASMSECT_ABS)), Push(Value(y, ASMSECT_ABS)), Apply(Binary(b))];
    PlacedComparison(b, v, w, s, base);
    ComparedWords(b, x, y);
    PlainRunOfThree(code, State([x], false, false), State([x, y], false, false));
  }

  lemma PlacedComparison(b: BinaryOp, v: Word, w: Word, s: SectionId, base: Bases)
    ensures PlaceAll(Comparison(b, v, w, s), base) ==
            [Push(Value(Wrap(v + BaseOf(base, s)), ASMSECT_ABS)), Push(Value(Wrap(w + BaseOf(base, s)), ASMSECT_ABS)),
             Apply(Binary(b))]
  {
  }

  lemma ComparedWords(b: BinaryOp, x: Word, y: Word)
    requires IsComparison(b)
    ensures BinaryWord(b, x, y) == Plain(Mask(Compare(b, x, y)))
  {
    hide Compare;
  }

  lemma NotAbsolute(lay: Layout, s: SectionId)
    requires ValidLayout(lay) && s < |lay.sections|
    ensures s != ASMSECT_ABS
  {
  }

  /** Comparing two offsets of one section is comparing the addresses exactly when the placement
      keeps their order. */
  lemma ComparisonExact(lay: Layout, b: BinaryOp, v: Word, w: Word, s: SectionId, base: Bases)
    requires ValidLayout(lay) && !lay.withDiffs && !lay.prepared && s < |lay.sections| && IsComparison(b)
    ensures var code := Comparison(b, v, w, s);
      CodeOk(lay, code) && Runs(code, 0) && Resolved(PlaceAll(code, base)) && Runs(PlaceAll(code, base), 0)
      && (Finish(lay, RelRun(lay, code, REL_START)) == Result(Run(PlaceAll(code, base), START))
          <==> WordsOrderKept(b, v, w, base(s)))
  {
    hide RelRun, Run, PlaceAll, Finish, Result, Compare, WordsOrderKept, Comparison, ValidLayout, Wrap, Runs, CodeOk;
    ComparisonAnswer(lay, b, v, w, s);
    ComparisonPlaced(b, v, w, s, base);
    CompareTranslated(b, v, w, base(s));
    SmallWrap(v);
    SmallWrap(w);
    NotAbsolute(lay, s);
  }

  const ONE_SECTION := Layout([SectionInfo(NO_SPACE, 0)], [], false, false)

  /** 0 is below 1, but the last address of the address space is not below the one behind it. */
  lemma OrderingCanBreak(base: Bases)
    requires base(0) == UINT64_MAX
    ensures var lay, code := ONE_SECTION, Comparison(BELOW, 0, 1, 0);
      ValidLayout(lay) && CodeOk(lay, code) && Runs(code, 0)
      && Resolved(PlaceAll(code, base)) && Runs(PlaceAll(code, base), 0)
      && Finish(lay, RelRun(lay, code, REL_START)) == Success(UINT64_MAX, ASMSECT_ABS)
      && Result(Run(PlaceAll(code, base), START)) == Success(0, ASMSECT_ABS)
  {
    ComparisonAnswer(ONE_SECTION, BELOW, 0, 1, 0);
    ComparisonPlaced(BELOW, 0, 1, 0, base);
    hide RelRun, Run, PlaceAll, Finish, Result, Comparison;
    assert Wrap(1 + BaseOf(base, 0)) == 0 && Wrap(0 + BaseOf(base, 0)) == UINT64_MAX;
  }
}
