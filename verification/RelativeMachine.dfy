/** The evaluator's second stack machine, on section-relative forms: a value plus multiples of section
    bases. Operators that cannot handle relatives fail, or postpone while section differences are not
    known yet. */
module RelativeMachine {
  import opened Words
  import opened Operators
  import opened LinearForms
  import opened AbsoluteMachine

  const NO_SPACE: nat := 0xffff_ffff

  datatype SectionInfo = SectionInfo(space: nat, relAddress: Word)

  /** The sections of the assembler. A relocation space lists its sections; section
      differences inside a space are known once they have been prepared. */
  datatype Layout = Layout(
    sections: seq<SectionInfo>, spaces: seq<seq<SectionId>>,
    withDiffs: bool, prepared: bool)

  predicate InSpace(lay: Layout, s: SectionId)
    requires s < |lay.sections|
  {
    lay.sections[s].space != NO_SPACE
  }

  /** A prepared relocation space that has a section lists some, only its own, and by rising
      address. */
  ghost predicate ValidLayout(lay: Layout) {
    && |lay.sections| <= ASMSECT_ABS
    && (lay.prepared ==>
          && (forall s {:trigger lay.sections[s]} | 0 <= s < |lay.sections| && InSpace(lay, s) ::
                lay.sections[s].space < |lay.spaces| && lay.spaces[lay.sections[s].space] != [])
          && (forall p, i {:trigger lay.spaces[p][i]} | 0 <= p < |lay.spaces| && 0 <= i < |lay.spaces[p]| ::
                lay.spaces[p][i] < |lay.sections| && lay.sections[lay.spaces[p][i]].space == p)
          && (forall p, i, j {:trigger lay.spaces[p][i], lay.spaces[p][j]} |
                0 <= p < |lay.spaces| && 0 <= i < j < |lay.spaces[p]| ::
                lay.sections[lay.spaces[p][i]].relAddress <= lay.sections[lay.spaces[p][j]].relAddress)
          && |lay.spaces| <= NO_SPACE)
  }

  predicate KnownSections(lay: Layout, rels: Relatives) {
    forall i | 0 <= i < |rels| :: rels[i].section < |lay.sections|
  }

  ghost predicate FormOk(lay: Layout, f: Form) {
    Proper(f.rels) && KnownSections(lay, f.rels)
  }

  /** The verdict on relatives that an operator cannot handle: none at all is fine; with
      section differences still to come, relatives inside relocation spaces postpone. */
  datatype Verdict = Verdict(ok: bool, later: bool)

  function CheckSectionDiffs(lay: Layout, rels: Relatives): Verdict
    requires KnownSections(lay, rels)
  {
    if rels == [] then Verdict(true, false)
    else if !lay.withDiffs || lay.prepared then Verdict(false, false)
    else if exists i | 0 <= i < |rels| :: !InSpace(lay, rels[i].section) then Verdict(false, false)
    else Verdict(true, true)
  }

  function OutsideSpaces(lay: Layout, rels: Relatives): Relatives
    requires KnownSections(lay, rels)
  {
    if rels == [] then []
    else (if InSpace(lay, rels[0].section) then [] else [rels[0]]) + OutsideSpaces(lay, rels[1..])
  }

  function CheckRelativesEquality(lay: Layout, rels: Relatives, rels2: Relatives): Verdict
    requires KnownSections(lay, rels) && KnownSections(lay, rels2)
  {
    if !lay.withDiffs || lay.prepared then
      Verdict(multiset(rels) == multiset(rels2), false)
    else
      var o, o2 := OutsideSpaces(lay, rels), OutsideSpaces(lay, rels2);
      var equal := multiset(o) == multiset(o2);
      Verdict(equal, equal && (|o| != |rels| || |o2| != |rels2|))
  }

  /** What one operator yields on forms. */
  datatype RelAnswer = RelAnswer(form: Form, failed: bool, later: bool, trapped: bool)

  function UnaryForm(u: UnaryOp, f: Form): RelAnswer {
    match u
    case NEGATE => RelAnswer(Form(Negate(f.value), NegateAll(f.rels)), false, false, false)
    case BIT_NOT => RelAnswer(Form(Not(f.value), NegateAll(f.rels)), false, false, false)
    case LOGICAL_NOT => RelAnswer(Form(Truth(f.value == 0), f.rels), f.rels != [], false, false)
    case PLUS => RelAnswer(f, false, false, false)
  }

  /** Both operands must be free of relatives; the second check is skipped when the first
      one fails. */
  function BothAbsolute(lay: Layout, f2: Form, f1: Form): Verdict
    requires KnownSections(lay, f2.rels) && KnownSections(lay, f1.rels)
  {
    var c1 := CheckSectionDiffs(lay, f1.rels);
    if !c1.ok then c1
    else
      var c2 := CheckSectionDiffs(lay, f2.rels);
      Verdict(c2.ok, c1.later || c2.later)
  }

  function WordsOnly(b: BinaryOp, lay: Layout, f2: Form, f1: Form): RelAnswer
    requires KnownSections(lay, f2.rels) && KnownSections(lay, f1.rels)
  {
    var c := BothAbsolute(lay, f2, f1);
    var a := BinaryWord(b, f2.value, f1.value);
    RelAnswer(Form(a.value, f1.rels), !c.ok || a.failed, c.later, a.trapped)
  }

  function AddForms(b: BinaryOp, f2: Form, f1: Form): RelAnswer {
    var g := if b == SUBTRACT then Form(Negate(f1.value), NegateAll(f1.rels)) else f1;
    RelAnswer(Form(Wrap(f2.value + g.value), DropZeros(AddRelatives(g.rels, f2.rels))),
              false, false, false)
  }

  function MultiplyForms(lay: Layout, f2: Form, f1: Form): RelAnswer
    requires KnownSections(lay, f2.rels) && KnownSections(lay, f1.rels)
  {
    var c1 := CheckSectionDiffs(lay, f1.rels);
    var c2 := CheckSectionDiffs(lay, f2.rels);
    var rels :=
      if f2.rels == [] then (if f2.value != 0 then Scale(f1.rels, f2.value) else [])
      else if f1.value != 0 then Scale(f2.rels, f1.value)
      else f1.rels;
    RelAnswer(Form(Wrap(f2.value * f1.value), rels),
              !c1.ok && !c2.ok, c1.later || (!c1.ok && c2.later), false)
  }

  /** What a bitwise or logical operator does next to a neutral or absorbing constant. */
  datatype MaskRule = Absorbed(result: Word) | KeepSecond | KeepFirst | Refused | Computed

  predicate IsMask(b: BinaryOp) {
    b.BIT_AND? || b.BIT_OR? || b.BIT_XOR? || b.BIT_ORNOT? || b.LOGICAL_AND? || b.LOGICAL_OR?
  }

  function RuleFor(b: BinaryOp, norel1: bool, norel2: bool, v2: Word, v: Word): MaskRule
    requires IsMask(b)
  {
    var otherwise := if !norel1 || !norel2 then Refused else Computed;
    match b
    case BIT_AND =>
      if (norel1 && v == 0) || (norel2 && v2 == 0) then Absorbed(0)
      else if norel1 && v == UINT64_MAX then KeepSecond
      else if norel2 && v2 == UINT64_MAX then KeepFirst
      else otherwise
    case BIT_OR =>
      if (norel1 && v == UINT64_MAX) || (norel2 && v2 == UINT64_MAX) then Absorbed(UINT64_MAX)
      else if norel1 && v == 0 then KeepSecond
      else if norel2 && v2 == 0 then KeepFirst
      else otherwise
    case BIT_XOR =>
      if norel1 && v == 0 then KeepSecond
      else if norel2 && v2 == 0 then KeepFirst
      else otherwise
    case BIT_ORNOT =>
      if (norel1 && v == 0) || (norel2 && v2 == UINT64_MAX) then Absorbed(UINT64_MAX)
      else if norel1 && v == UINT64_MAX then KeepSecond
      else if norel2 && v2 == 0 then KeepFirst
      else otherwise
    case LOGICAL_AND =>
      if (norel1 && v == 0) || (norel2 && v2 == 0) then Absorbed(0) else otherwise
    case _ =>
      if (norel1 && v != 0) || (norel2 && v2 != 0) then Absorbed(1) else otherwise
  }

  function MaskForms(b: BinaryOp, lay: Layout, f2: Form, f1: Form): RelAnswer
    requires KnownSections(lay, f2.rels) && KnownSections(lay, f1.rels)
    requires IsMask(b)
  {
    var c1 := CheckSectionDiffs(lay, f1.rels);
    var c2 := CheckSectionDiffs(lay, f2.rels);
    var later := c1.later || c2.later;
    match RuleFor(b, c1.ok, c2.ok, f2.value, f1.value)
    case Absorbed(w) => RelAnswer(Form(w, []), false, later, false)
    case KeepSecond => RelAnswer(f2, false, later, false)
    case KeepFirst =>
      // the right operand of ORNOT is complemented
      RelAnswer(if b == BIT_ORNOT then Form(Not(f1.value), NegateAll(f1.rels)) else f1,
                false, later, false)
    case Refused => RelAnswer(f1, true, later, false)
    case Computed => RelAnswer(Form(BinaryWord(b, f2.value, f1.value).value, f1.rels), false, later, false)
  }

  function ShiftForms(lay: Layout, f2: Form, f1: Form): RelAnswer
    requires KnownSections(lay, f2.rels) && KnownSections(lay, f1.rels)
  {
    var c1 := CheckSectionDiffs(lay, f1.rels);
    if !c1.ok then RelAnswer(f1, true, c1.later, false)
    else if f1.value < 64 then
      Pow2Below64(f1.value);
      RelAnswer(Form(ShiftLeft(f2.value, f1.value), Scale(f2.rels, Pow2(f1.value))),
                false, c1.later, false)
    else RelAnswer(Form(0, f1.rels), false, c1.later, false)
  }

  lemma Pow2Below64(k: nat)
    requires k < 64
    ensures 0 < Pow2(k) < MODULUS
  {
    Pow2Values();
    Pow2Positive(k);
    Pow2Grows(k + 1, 64);
  }

  function CompareForms(b: BinaryOp, lay: Layout, f2: Form, f1: Form): RelAnswer
    requires KnownSections(lay, f2.rels) && KnownSections(lay, f1.rels)
    requires IsComparison(b)
  {
    var c := CheckRelativesEquality(lay, f1.rels, f2.rels);
    RelAnswer(Form(Mask(Compare(b, f2.value, f1.value)), []), !c.ok, c.later, false)
  }

  /** f1 was on top of the stack: it is the operator's right operand. */
  function BinaryForm(b: BinaryOp, lay: Layout, f2: Form, f1: Form): RelAnswer
    requires KnownSections(lay, f2.rels) && KnownSections(lay, f1.rels)
  {
    if b == ADDITION || b == SUBTRACT then AddForms(b, f2, f1)
    else if b == MULTIPLY then MultiplyForms(lay, f2, f1)
    else if b == SHIFT_LEFT then ShiftForms(lay, f2, f1)
    else if IsMask(b) then MaskForms(b, lay, f2, f1)
    else if IsComparison(b) then CompareForms(b, lay, f2, f1)
    else WordsOnly(b, lay, f2, f1)
  }

  /** A choice needs an absolute condition; the arms may be relative. */
  function ChoiceForm(lay: Layout, f3: Form, f2: Form, f1: Form): RelAnswer
    requires KnownSections(lay, f3.rels)
  {
    var c := CheckSectionDiffs(lay, f3.rels);
    RelAnswer(if f3.value != 0 then f2 else f1, !c.ok, c.later, false)
  }

  // ----- the machine -----

  datatype RelState = RelState(stack: seq<Form>, failed: bool, later: bool, trapped: bool)

  const REL_START := RelState([], false, false, false)

  ghost predicate StateOk(lay: Layout, st: RelState) {
    forall i | 0 <= i < |st.stack| :: FormOk(lay, st.stack[i])
  }

  predicate InstrOk(lay: Layout, i: Instr) {
    i.Push? ==> i.arg.Value? && (i.arg.section == ASMSECT_ABS || i.arg.section < |lay.sections|)
  }

  predicate CodeOk(lay: Layout, code: Code) {
    forall i | 0 <= i < |code| :: InstrOk(lay, code[i])
  }

  /** An argument. With prepared differences, a section of a relocation space is replaced by
      the first section of its space. */
  function ArgForm(lay: Layout, value: Word, section: SectionId): Form
    requires section == ASMSECT_ABS || section < |lay.sections|
    requires ValidLayout(lay)
  {
    if section == ASMSECT_ABS then Form(value, [])
    else if lay.prepared && InSpace(lay, section) then
      var first := lay.spaces[lay.sections[section].space][0];
      var delta := lay.sections[section].relAddress - lay.sections[first].relAddress;
      Form(Wrap(value + delta), [RelMultiply(1, first)])
    else Form(value, [RelMultiply(1, section)])
  }

  function Absorb(st: RelState, base: seq<Form>, a: RelAnswer): RelState {
    RelState(base + [a.form], st.failed || a.failed, st.later || a.later, st.trapped || a.trapped)
  }

  function RelStep(lay: Layout, i: Instr, st: RelState): (r: RelState)
    requires ValidLayout(lay) && StateOk(lay, st) && InstrOk(lay, i)
    requires |st.stack| >= Arity(i)
    ensures |r.stack| == |st.stack| - Arity(i) + 1
  {
    var n := |st.stack|;
    match i
    case Push(arg) => st.(stack := st.stack + [ArgForm(lay, arg.value, arg.section)])
    case Apply(Unary(u)) => Absorb(st, st.stack[..n - 1], UnaryForm(u, st.stack[n - 1]))
    case Apply(Binary(b)) =>
      Absorb(st, st.stack[..n - 2], BinaryForm(b, lay, st.stack[n - 2], st.stack[n - 1]))
    case Apply(CHOICE) =>
      Absorb(st, st.stack[..n - 3],
             ChoiceForm(lay, st.stack[n - 3], st.stack[n - 2], st.stack[n - 1]))
    case Apply(CHOICE_START) => st
  }

  // ----- forms stay proper -----

  lemma UnaryFormOk(lay: Layout, u: UnaryOp, f: Form)
    requires FormOk(lay, f)
    ensures FormOk(lay, UnaryForm(u, f).form)
  {
  }

  lemma AddFormsOk(lay: Layout, b: BinaryOp, f2: Form, f1: Form)
    requires FormOk(lay, f2) && FormOk(lay, f1)
    ensures FormOk(lay, AddForms(b, f2, f1).form)
  {
    var g := if b == SUBTRACT then NegateAll(f1.rels) else f1.rels;
    AddRelativesSections(g, f2.rels);
    var all := AddRelatives(g, f2.rels);
    DropZerosKeeps(all);
    var out := DropZeros(all);
    forall i | 0 <= i < |out| ensures out[i].section < |lay.sections| {
      assert out[i] in all;
      var j :| 0 <= j < |all| && all[j] == out[i];
      assert all[j].section in SectionsOf(all);
    }
  }

  lemma ScaleOk(lay: Layout, f: Form, v: Word, k: Word)
    requires FormOk(lay, f)
    ensures FormOk(lay, Form(v, Scale(f.rels, k))) && FormOk(lay, Form(v, NegateAll(f.rels)))
  {
  }

  lemma MultiplyFormsOk(lay: Layout, f2: Form, f1: Form)
    requires FormOk(lay, f2) && FormOk(lay, f1)
    ensures FormOk(lay, MultiplyForms(lay, f2, f1).form)
  {
    var g := MultiplyForms(lay, f2, f1).form;
    ScaleOk(lay, f1, g.value, f2.value);
    ScaleOk(lay, f2, g.value, f1.value);
    hide FormOk, Scale;
  }

  lemma ShiftFormsOk(lay: Layout, f2: Form, f1: Form)
    requires FormOk(lay, f2) && FormOk(lay, f1)
    ensures FormOk(lay, ShiftForms(lay, f2, f1).form)
  {
    if f1.value < 64 {
      Pow2Below64(f1.value);
      ScaleOk(lay, f2, ShiftForms(lay, f2, f1).form.value, Pow2(f1.value));
    }
    hide Pow2, Scale;
  }

  lemma MaskFormsOk(b: BinaryOp, lay: Layout, f2: Form, f1: Form)
    requires FormOk(lay, f2) && FormOk(lay, f1) && IsMask(b)
    ensures FormOk(lay, MaskForms(b, lay, f2, f1).form)
  {
    var g := MaskForms(b, lay, f2, f1).form;
    ScaleOk(lay, f1, g.value, 0);
    hide Scale, NegateAll, RuleFor;
    assert g.rels in {[], f1.rels, f2.rels, NegateAll(f1.rels)};
  }

  lemma BinaryFormOk(lay: Layout, b: BinaryOp, f2: Form, f1: Form)
    requires FormOk(lay, f2) && FormOk(lay, f1)
    ensures FormOk(lay, BinaryForm(b, lay, f2, f1).form)
  {
    if b == ADDITION || b == SUBTRACT {
      AddFormsOk(lay, b, f2, f1);
    } else if b == MULTIPLY {
      MultiplyFormsOk(lay, f2, f1);
    } else if b == SHIFT_LEFT {
      ShiftFormsOk(lay, f2, f1);
    } else if IsMask(b) {
      MaskFormsOk(b, lay, f2, f1);
    } else {
      assert BinaryForm(b, lay, f2, f1).form.rels in {[], f1.rels};
    }
    hide AddForms, MultiplyForms, ShiftForms, MaskForms;
  }

  lemma ArgFormOk(lay: Layout, value: Word, section: SectionId)
    requires ValidLayout(lay)
    requires section == ASMSECT_ABS || section < |lay.sections|
    ensures FormOk(lay, ArgForm(lay, value, section))
  {
    if section != ASMSECT_ABS && lay.prepared && InSpace(lay, section) {
      assert lay.spaces[lay.sections[section].space][0] < |lay.sections|;
    }
  }

  lemma RelStepOk(lay: Layout, i: Instr, st: RelState)
    requires ValidLayout(lay) && StateOk(lay, st) && InstrOk(lay, i)
    requires |st.stack| >= Arity(i)
    ensures StateOk(lay, RelStep(lay, i, st))
  {
    var n := |st.stack|;
    match i
    case Push(arg) => ArgFormOk(lay, arg.value, arg.section);
    case Apply(Unary(u)) => UnaryFormOk(lay, u, st.stack[n - 1]);
    case Apply(Binary(b)) => BinaryFormOk(lay, b, st.stack[n - 2], st.stack[n - 1]);
    case Apply(CHOICE) =>
    case Apply(CHOICE_START) =>
  }

  ghost function RelRun(lay: Layout, code: Code, st: RelState): (r: RelState)
    requires ValidLayout(lay) && StateOk(lay, st) && CodeOk(lay, code)
    requires Runs(code, |st.stack|)
    ensures StateOk(lay, r)
  {
    if code == [] then st
    else
      RelStepOk(lay, code[0], st);
      RelRun(lay, code[1..], RelStep(lay, code[0], st))
  }

  // ----- reading off the answer -----

  /** The first section of a sorted list that starts at or above an address. */
  function LowerBound(lay: Layout, list: seq<SectionId>, addr: Word): (i: nat)
    requires forall i | 0 <= i < |list| :: list[i] < |lay.sections|
    ensures i <= |list|
    ensures forall j | 0 <= j < i :: lay.sections[list[j]].relAddress < addr
    ensures i < |list| ==> lay.sections[list[i]].relAddress >= addr
  {
    if list == [] || lay.sections[list[0]].relAddress >= addr then 0
    else
      var k := LowerBound(lay, list[1..], addr);
      k + 1
  }

  /** The entry of a section list that an address is reported against. */
  function ChooseIndex(lay: Layout, list: seq<SectionId>, addr: Word): (k: nat)
    requires list != [] && forall i | 0 <= i < |list| :: list[i] < |lay.sections|
    ensures k < |list|
  {
    var k := LowerBound(lay, list, addr);
    if (k == |list| || lay.sections[list[k]].relAddress != addr) && k != 0 then k - 1 else k
  }

  /** The section that an address is finally reported against. */
  function ProperSection(lay: Layout, s: SectionId, value: Word): (r: SectionId)
    requires ValidLayout(lay) && lay.prepared && s < |lay.sections| && InSpace(lay, s)
    ensures r < |lay.sections| && lay.sections[r].space == lay.sections[s].space
  {
    var list := lay.spaces[lay.sections[s].space];
    list[ChooseIndex(lay, list, Wrap(lay.sections[s].relAddress + value))]
  }

  /** Whether the relatives of the final form all lie in one relocation space. */
  predicate OneSpace(lay: Layout, rels: Relatives)
    requires KnownSections(lay, rels)
  {
    && (forall i | 0 <= i < |rels| :: InSpace(lay, rels[i].section))
    && (forall i, j | 0 <= i < |rels| && 0 <= j < |rels| ::
          lay.sections[rels[i].section].space == lay.sections[rels[j].section].space)
  }

  function FinalForm(st: RelState): Form {
    if st.stack == [] then Form(0, []) else st.stack[|st.stack| - 1]
  }

  function Finish(lay: Layout, st: RelState): Outcome
    requires ValidLayout(lay)
    requires KnownSections(lay, FinalForm(st).rels)
  {
    var f := FinalForm(st);
    var single := |f.rels| == 1 && f.rels[0].multiply == 1;
    var postponed := f.rels != [] && !single && lay.withDiffs && !lay.prepared && OneSpace(lay, f.rels);
    if st.trapped then Trapped
    else if st.later || postponed then TryLater
    else if st.failed || (f.rels != [] && !single) then Failed
    else if f.rels == [] then Success(f.value, ASMSECT_ABS)
    else
      var s := f.rels[0].section;
      if lay.prepared && InSpace(lay, s) then
        var r := ProperSection(lay, s, f.value);
        Success(Wrap(f.value + lay.sections[s].relAddress - lay.sections[r].relAddress), r)
      else Success(f.value, s)
  }
}
