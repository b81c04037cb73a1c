/** Whole evaluations: the linear-form machine against the plain one. */
module RelativeEvaluation {
  import opened Words
  import opened Operators
  import opened LinearForms
  import opened AbsoluteMachine
  import opened RelativeMachine
  import opened RelativeSoundness

  // ----- the concrete program -----

  /** The absolute word an argument stands for once sections are placed. */
  function Placed(i: Instr, base: Bases): Instr {
    match i
    case Push(Value(v, s)) => Push(Value(Wrap(v + BaseOf(base, s)), ASMSECT_ABS))
    case _ => i
  }

  function PlaceAll(code: Code, base: Bases): Code {
    seq(|code|, i requires 0 <= i < |code| => Placed(code[i], base))
  }

  lemma {:induction false} PlaceRuns(code: Code, base: Bases, d: nat)
    requires Runs(code, d)
    ensures Runs(PlaceAll(code, base), d)
  {
    if code != [] {
      PlaceRuns(code[1..], base, d - Arity(code[0]) + 1);
      assert PlaceAll(code, base)[1..] == PlaceAll(code[1..], base);
    }
  }

  lemma PlaceResolved(lay: Layout, code: Code, base: Bases)
    requires CodeOk(lay, code)
    ensures Resolved(PlaceAll(code, base))
  {
    forall i | 0 <= i < |code| ensures PlaceAll(code, base)[i].Push? ==> PlaceAll(code, base)[i].arg.Value? {
      assert InstrOk(lay, code[i]);
    }
  }

  /** Prepared section differences are true of the placement: inside a relocation space,
      bases differ as the relative addresses do. */
  ghost predicate Consistent(lay: Layout, base: Bases) {
    lay.prepared ==>
      forall s, t {:trigger lay.sections[s], lay.sections[t]} |
        0 <= s < |lay.sections| && 0 <= t < |lay.sections| &&
        InSpace(lay, s) && lay.sections[s].space == lay.sections[t].space ::
        Cong(base(s) - lay.sections[s].relAddress, base(t) - lay.sections[t].relAddress)
  }

  /** Every ordering comparison met on the way compares forms whose order the placement
      keeps. */
  ghost predicate OrdersKept(lay: Layout, code: Code, st: RelState, base: Bases)
    requires ValidLayout(lay) && StateOk(lay, st) && CodeOk(lay, code)
    requires Runs(code, |st.stack|)
  {
    code == [] ||
    (var n := |st.stack|;
     && (code[0].Apply? && code[0].op.Binary? ==>
           OrderKept(code[0].op.b, st.stack[n - 2], st.stack[n - 1], base))
     && (RelStepOk(lay, code[0], st);
         OrdersKept(lay, code[1..], RelStep(lay, code[0], st), base)))
  }

  /** A run given by all its states. */
  lemma {:induction false} RunThrough(lay: Layout, code: Code, states: seq<RelState>)
    requires ValidLayout(lay) && |states| == |code| + 1
    requires StateOk(lay, states[0])
    requires forall k | 0 <= k < |code| ::
               InstrOk(lay, code[k]) && Arity(code[k]) <= |states[k].stack| && StateOk(lay, states[k])
    requires forall k | 0 <= k < |code| :: states[k + 1] == RelStep(lay, code[k], states[k])
    ensures CodeOk(lay, code) && Runs(code, |states[0].stack|)
    ensures RelRun(lay, code, states[0]) == states[|code|]
  {
    hide RelStep, StateOk, ValidLayout, InstrOk;
    if code != [] {
      RelStepOk(lay, code[0], states[0]);
      RunThrough(lay, code[1..], states[1..]);
    }
  }

  // ----- simulation -----

  ghost predicate Simulates(st: RelState, abs: State, base: Bases) {
    && !abs.failed && abs.trapped == st.trapped
    && |abs.stack| == |st.stack|
    && forall i | 0 <= i < |st.stack| :: abs.stack[i] == Denotes(st.stack[i], base)
  }

  lemma ArgSound(lay: Layout, v: Word, s: SectionId, base: Bases)
    requires ValidLayout(lay) && Consistent(lay, base)
    requires s == ASMSECT_ABS || s < |lay.sections|
    ensures Denotes(ArgForm(lay, v, s), base) == Wrap(v + BaseOf(base, s))
  {
    if s == ASMSECT_ABS {
      WrapInside(v, 0);
    } else if lay.prepared && InSpace(lay, s) {
      var first := lay.spaces[lay.sections[s].space][0];
      assert lay.sections[first].space == lay.sections[s].space;
      SumOfOne(RelMultiply(1, first), base);
      Rebase(v, base(s), lay.sections[s].relAddress, base(first), lay.sections[first].relAddress);
    } else {
      SumOfOne(RelMultiply(1, s), base);
    }
  }

  /** Moving an offset to another section of the same space. */
  lemma Rebase(v: Word, base: int, addr: Word, base': int, addr': Word)
    requires Cong(base - addr, base' - addr')
    ensures Wrap(Wrap(v + (addr - addr')) + base') == Wrap(v + base)
    ensures Wrap(Wrap(v + addr - addr') + base') == Wrap(v + base)
  {
    CongAdd(base - addr, base' - addr', v + addr, v + addr);
    WrapInside(v + addr - addr', base');
    assert v + (addr - addr') == v + addr - addr';
  }

  lemma StepSimulates(lay: Layout, i: Instr, st: RelState, abs: State, base: Bases)
    requires ValidLayout(lay) && StateOk(lay, st) && InstrOk(lay, i) && Consistent(lay, base)
    requires Arity(i) <= |st.stack| && Simulates(st, abs, base)
    requires var r := RelStep(lay, i, st); !r.failed && !r.later && !r.trapped
    requires i.Apply? && i.op.Binary? ==>
               OrderKept(i.op.b, st.stack[|st.stack| - 2], st.stack[|st.stack| - 1], base)
    ensures Simulates(RelStep(lay, i, st), Step(Placed(i, base), abs), base)
  {
    hide BinaryForm, BinaryWord, UnaryForm, UnaryWord, Denotes, OrderKept, Consistent, Proper, KnownSections;
    var n := |st.stack|;
    match i
    case Push(arg) => ArgSound(lay, arg.value, arg.section, base);
    case Apply(Unary(u)) => UnarySound(u, st.stack[n - 1], base);
    case Apply(Binary(b)) => BinarySound(b, lay, st.stack[n - 2], st.stack[n - 1], base);
    case Apply(CHOICE) =>
      assert st.stack[n - 3].rels == [];
      DenotesConstant(st.stack[n - 3], base);
    case Apply(CHOICE_START) =>
  }

  /** Errors, postponements and traps never go away. */
  lemma {:induction false} RelFlagsAreSticky(lay: Layout, code: Code, st: RelState)
    requires ValidLayout(lay) && StateOk(lay, st) && CodeOk(lay, code) && Runs(code, |st.stack|)
    ensures var r := RelRun(lay, code, st);
      (st.failed ==> r.failed) && (st.later ==> r.later) && (st.trapped ==> r.trapped)
  {
    if code != [] {
      RelStepOk(lay, code[0], st);
      RelFlagsAreSticky(lay, code[1..], RelStep(lay, code[0], st));
    }
  }

  lemma {:induction false} RunSimulates(lay: Layout, code: Code, st: RelState, abs: State, base: Bases)
    requires ValidLayout(lay) && StateOk(lay, st) && CodeOk(lay, code) && Consistent(lay, base)
    requires Runs(code, |st.stack|) && Simulates(st, abs, base)
    requires OrdersKept(lay, code, st, base)
    requires var r := RelRun(lay, code, st); !r.failed && !r.later && !r.trapped
    ensures Resolved(PlaceAll(code, base)) && Runs(PlaceAll(code, base), |abs.stack|)
    ensures Simulates(RelRun(lay, code, st), Run(PlaceAll(code, base), abs), base)
  {
    PlaceResolved(lay, code, base);
    PlaceRuns(code, base, |st.stack|);
    if code != [] {
      RelStepOk(lay, code[0], st);
      var st' := RelStep(lay, code[0], st);
      RelFlagsAreSticky(lay, code[1..], st');
      StepSimulates(lay, code[0], st, abs, base);
      RunSimulates(lay, code[1..], st', Step(Placed(code[0], base), abs), base);
      assert PlaceAll(code, base)[1..] == PlaceAll(code[1..], base);
    }
  }

  /** Reading off the answer keeps the address. */
  lemma FinishSound(lay: Layout, st: RelState, base: Bases)
    requires ValidLayout(lay) && Consistent(lay, base) && StateOk(lay, st)
    requires Finish(lay, st).Success?
    ensures Denotes(FinalForm(st), base) ==
            Wrap(Finish(lay, st).value + BaseOf(base, Finish(lay, st).section))
  {
    hide ProperSection, OneSpace, Sum, Proper, Wrap;
    NoSection(lay);
    var f := FinalForm(st);
    if f.rels != [] {
      var s := f.rels[0].section;
      assert f.rels == [RelMultiply(1, s)];
      SumOfOne(RelMultiply(1, s), base);
      if lay.prepared && InSpace(lay, s) {
        var r := ProperSection(lay, s, f.value);
        assert lay.sections[r].space == lay.sections[s].space;
        Rebase(f.value, base(s), lay.sections[s].relAddress, base(r), lay.sections[r].relAddress);
      }
    } else {
      DenotesConstant(f, base);
      SmallWrap(f.value);
    }
  }

  lemma SmallWrap(v: Word)
    ensures Wrap(v) == v
  {
  }

  lemma NoSection(lay: Layout)
    requires ValidLayout(lay)
    ensures |lay.sections| <= ASMSECT_ABS
  {
  }

  /** MAIN: when the linear-form machine succeeds with a value and a section, then for every
      placement of the sections value + base(section) is the word that the absolute machine
      computes from the placed arguments. */
  lemma RelativeAnswerSound(lay: Layout, code: Code, base: Bases)
    requires ValidLayout(lay) && CodeOk(lay, code) && Runs(code, 0) && Consistent(lay, base)
    requires OrdersKept(lay, code, REL_START, base)
    requires Finish(lay, RelRun(lay, code, REL_START)).Success?
    ensures Resolved(PlaceAll(code, base)) && Runs(PlaceAll(code, base), 0)
    ensures var out := Finish(lay, RelRun(lay, code, REL_START));
      Result(Run(PlaceAll(code, base), START)) ==
        Success(Wrap(out.value + BaseOf(base, out.section)), ASMSECT_ABS)
  {
    hide RelRun, Run, PlaceAll, OrdersKept, Consistent, ProperSection, OneSpace;
    RunSimulates(lay, code, REL_START, START, base);
    FinishSound(lay, RelRun(lay, code, REL_START), base);
  }

  /** The k-th section of a space is the one to report an address against: the first of those that
      start exactly there, or else the last one that starts below, or else the first section. */
  ghost predicate Chosen(lay: Layout, list: seq<SectionId>, k: nat, addr: Word)
    requires k < |list| && forall i | 0 <= i < |list| :: list[i] < |lay.sections|
  {
    var at := lay.sections[list[k]].relAddress;
    && (at == addr ==> forall j | 0 <= j < k :: lay.sections[list[j]].relAddress < addr)
    && (at < addr ==> forall j | k < j < |list| :: lay.sections[list[j]].relAddress > addr)
    && (at > addr ==> k == 0 && forall j | 0 <= j < |list| :: lay.sections[list[j]].relAddress > addr)
  }

  lemma SpaceKnown(lay: Layout, s: SectionId)
    requires ValidLayout(lay) && lay.prepared && s < |lay.sections| && InSpace(lay, s)
    ensures lay.sections[s].space < |lay.spaces|
    ensures var list := lay.spaces[lay.sections[s].space];
      && list != [] && (forall i | 0 <= i < |list| :: list[i] < |lay.sections|)
      && (forall i, j | 0 <= i < j < |list| ::
            lay.sections[list[i]].relAddress <= lay.sections[list[j]].relAddress)
  {
    var p := lay.sections[s].space;
    var list := lay.spaces[p];
    forall i | 0 <= i < |list| ensures list[i] < |lay.sections| {
      assert list[i] == lay.spaces[p][i];
    }
    forall i, j | 0 <= i < j < |list|
      ensures lay.sections[list[i]].relAddress <= lay.sections[list[j]].relAddress
    {
      assert list[i] == lay.spaces[p][i] && list[j] == lay.spaces[p][j];
    }
  }

  lemma ProperSectionChoice(lay: Layout, s: SectionId, value: Word) returns (k: nat)
    requires ValidLayout(lay) && lay.prepared && s < |lay.sections| && InSpace(lay, s)
    ensures var list := lay.spaces[lay.sections[s].space];
      && k < |list| && list[k] == ProperSection(lay, s, value)
      && (forall i | 0 <= i < |list| :: list[i] < |lay.sections|)
      && Chosen(lay, list, k, Wrap(lay.sections[s].relAddress + value))
  {
    hide ValidLayout, Wrap;
    SpaceKnown(lay, s);
    k := ChooseIndex(lay, lay.spaces[lay.sections[s].space], Wrap(lay.sections[s].relAddress + value));
  }

  /** An answer in a prepared space is reported against the right section for the address that it
      denotes. */
  lemma AnswerIsProper(lay: Layout, st: RelState) returns (k: nat)
    requires ValidLayout(lay) && lay.prepared && StateOk(lay, st) && Finish(lay, st).Success?
    requires var out := Finish(lay, st); out.section < |lay.sections| && InSpace(lay, out.section)
    ensures var out := Finish(lay, st);
      var list := lay.spaces[lay.sections[out.section].space];
      && k < |list| && list[k] == out.section
      && (forall i | 0 <= i < |list| :: list[i] < |lay.sections|)
      && Chosen(lay, list, k, Wrap(lay.sections[out.section].relAddress + out.value))
  {
    hide Chosen, ValidLayout, ProperSection, OneSpace;
    var f, out := FinalForm(st), Finish(lay, st);
    NoSection(lay);
    var s := f.rels[0].section;
    k := ProperSectionChoice(lay, s, f.value);
    SameTarget(lay.sections[s].relAddress, lay.sections[out.section].relAddress, f.value);
  }

  lemma SameTarget(from: Word, to: Word, v: Word)
    ensures Wrap(to + Wrap(v + from - to)) == Wrap(from + v)
  {
    WrapInside(v + from - to, to);
  }

  // ----- programs without sections -----

  function Lift(st: State): RelState {
    RelState(seq(|st.stack|, i requires 0 <= i < |st.stack| => Form(st.stack[i], [])),
             st.failed, false, st.trapped)
  }

  predicate AllAbsolute(code: Code) {
    forall i | 0 <= i < |code| :: code[i].Push? ==> code[i].arg.Value? && code[i].arg.section == ASMSECT_ABS
  }

  lemma AddAbsolute(b: BinaryOp, x: Word, y: Word)
    requires b == ADDITION || b == SUBTRACT
    ensures AddForms(b, Form(x, []), Form(y, [])) == RelAnswer(Form(BinaryWord(b, x, y).value, []), false, false, false)
    ensures BinaryWord(b, x, y) == Plain(BinaryWord(b, x, y).value)
  {
    if b == SUBTRACT {
      SubtractWords(x, y);
    }
  }

  lemma BinaryAbsolute(b: BinaryOp, lay: Layout, x: Word, y: Word)
    ensures var a := BinaryWord(b, x, y);
      BinaryForm(b, lay, Form(x, []), Form(y, [])) == RelAnswer(Form(a.value, []), a.failed, false, a.trapped)
  {
    if b == ADDITION || b == SUBTRACT {
      AddAbsolute(b, x, y);
      hide AddForms, BinaryWord;
    } else if IsMask(b) {
      MaskAbsolute(b, lay, x, y);
      hide MaskForms, BinaryWord;
    } else {
      hide AddForms, MaskForms;
      OtherAbsolute(b, lay, x, y);
    }
  }

  lemma OtherAbsolute(b: BinaryOp, lay: Layout, x: Word, y: Word)
    requires b != ADDITION && b != SUBTRACT && !IsMask(b)
    ensures var a := BinaryWord(b, x, y);
      BinaryForm(b, lay, Form(x, []), Form(y, [])) == RelAnswer(Form(a.value, []), a.failed, false, a.trapped)
  {
    hide Compare, ShiftLeft, ShiftRight, SignedShiftRight, Pow2, Bits, BitWord, AddForms, MaskForms, RuleFor, TruncDiv,
      TruncMod, Signed;
  }

  lemma MaskAbsolute(b: BinaryOp, lay: Layout, x: Word, y: Word)
    requires IsMask(b)
    ensures MaskForms(b, lay, Form(x, []), Form(y, [])) ==
            RelAnswer(Form(BinaryWord(b, x, y).value, []), false, false, false)
    ensures BinaryWord(b, x, y) == Plain(BinaryWord(b, x, y).value)
  {
    assert NegateAll([]) == [];
    RuleSound(b, true, true, x, y, x, y);
  }

  lemma UnaryAbsolute(u: UnaryOp, x: Word)
    ensures UnaryForm(u, Form(x, [])) == RelAnswer(Form(UnaryWord(u, x), []), false, false, false)
  {
    assert NegateAll([]) == [];
  }

  lemma LiftTop(st: State, k: nat)
    requires k <= |st.stack|
    ensures Lift(st.(stack := st.stack[..k])).stack == Lift(st).stack[..k]
  {
  }

  lemma LiftOk(lay: Layout, st: State)
    ensures StateOk(lay, Lift(st))
  {
  }

  lemma StepAbsolute(lay: Layout, i: Instr, st: State)
    requires ValidLayout(lay) && InstrOk(lay, i) && Arity(i) <= |st.stack|
    requires i.Push? ==> i.arg.section == ASMSECT_ABS
    ensures StateOk(lay, Lift(st))
    ensures RelStep(lay, i, Lift(st)) == Lift(Step(i, st))
  {
    hide BinaryForm, BinaryWord, UnaryForm, UnaryWord, Proper, ValidLayout;
    LiftOk(lay, st);
    var n := |st.stack|;
    var lifted := Lift(st).stack;
    var k := n - Arity(i);
    LiftTop(st, k);
    var out := Step(i, st).stack;
    assert out == st.stack[..k] + [out[k]];
    assert Lift(Step(i, st)).stack == lifted[..k] + [Form(out[k], [])];
    match i
    case Push(_) =>
    case Apply(Unary(u)) => UnaryAbsolute(u, st.stack[n - 1]);
    case Apply(Binary(b)) => StepBinaryAbsolute(lay, b, st);
    case Apply(CHOICE) =>
    case Apply(CHOICE_START) =>
  }

  lemma StepBinaryAbsolute(lay: Layout, b: BinaryOp, st: State)
    requires ValidLayout(lay) && |st.stack| >= 2 && StateOk(lay, Lift(st))
    ensures RelStep(lay, Apply(Binary(b)), Lift(st)) == Lift(Step(Apply(Binary(b)), st))
  {
    hide BinaryForm, BinaryWord, Proper, ValidLayout, FormOk;
    var n := |st.stack|;
    BinaryAbsolute(b, lay, st.stack[n - 2], st.stack[n - 1]);
    var out := Step(Apply(Binary(b)), st).stack;
    assert Lift(st).stack[..n - 2] + [Form(out[n - 2], [])] == Lift(Step(Apply(Binary(b)), st)).stack;
  }

  lemma {:induction false} RunAbsolute(lay: Layout, code: Code, st: State)
    requires ValidLayout(lay) && CodeOk(lay, code) && AllAbsolute(code) && Runs(code, |st.stack|)
    ensures StateOk(lay, Lift(st)) && Resolved(code)
    ensures RelRun(lay, code, Lift(st)) == Lift(Run(code, st))
  {
    if code != [] {
      assert InstrOk(lay, code[0]);
      StepAbsolute(lay, code[0], st);
      RunAbsolute(lay, code[1..], Step(code[0], st));
    }
  }

  /** On programs whose arguments are all absolute the two machines agree, errors included. */
  lemma MachinesAgree(lay: Layout, code: Code)
    requires ValidLayout(lay) && CodeOk(lay, code) && AllAbsolute(code) && Runs(code, 0)
    ensures Resolved(code)
    ensures Finish(lay, RelRun(lay, code, REL_START)) == Result(Run(code, START))
  {
    assert Lift(START) == REL_START;
    RunAbsolute(lay, code, START);
  }

  lemma StepNeverLater(lay: Layout, i: Instr, st: RelState)
    requires ValidLayout(lay) && StateOk(lay, st) && InstrOk(lay, i) && Arity(i) <= |st.stack|
    requires (!lay.withDiffs || lay.prepared) && !st.later
    ensures !RelStep(lay, i, st).later
  {
    hide ValidLayout, ArgForm, Proper, RuleFor, Scale, BinaryForm;
    if i.Apply? && i.op.Binary? {
      BinaryNeverLater(lay, i.op.b, st.stack[|st.stack| - 2], st.stack[|st.stack| - 1]);
    }
  }

  lemma BinaryNeverLater(lay: Layout, b: BinaryOp, f2: Form, f1: Form)
    requires KnownSections(lay, f2.rels) && KnownSections(lay, f1.rels) && (!lay.withDiffs || lay.prepared)
    ensures !BinaryForm(b, lay, f2, f1).later
  {
    hide RuleFor, Scale, AddRelatives, DropZeros, Compare, BinaryWord;
  }

  /** Without section differences to come, nothing is ever postponed. */
  lemma {:induction false} NeverLater(lay: Layout, code: Code, st: RelState)
    requires ValidLayout(lay) && StateOk(lay, st) && CodeOk(lay, code) && Runs(code, |st.stack|)
    requires !lay.withDiffs || lay.prepared
    requires !st.later
    ensures !RelRun(lay, code, st).later
    ensures Finish(lay, RelRun(lay, code, st)) != TryLater
  {
    hide ValidLayout, RelStep, Proper;
    if code != [] {
      RelStepOk(lay, code[0], st);
      StepNeverLater(lay, code[0], st);
      NeverLater(lay, code[1..], RelStep(lay, code[0], st));
    }
  }
}
