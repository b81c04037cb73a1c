/** The evaluator as it runs: loops over the operator codes with an explicit stack, loops over the
    multiples of both operands for sums and comparisons, and the choice between the two machines. */
module Evaluator {
  import opened Words
  import opened Operators
  import opened LinearForms
  import opened AbsoluteMachine
  import opened RelativeMachine
  import opened RelativeEvaluation

  datatype Expression = Expression(
    ops: seq<OpCode>, args: seq<Arg>, symOccursNum: nat, relativeSymOccurs: bool)

  ghost predicate ValidExpression(e: Expression) {
    && Paired(e.ops, e.args)
    && (e.symOccursNum == 0 <==> Resolved(CodeOf(e.ops, e.args)))
    && (!e.relativeSymOccurs && e.symOccursNum == 0 ==> AllAbsolute(CodeOf(e.ops, e.args)))
  }

  /** The relatives outside relocation spaces, copied out one by one. */
  method CopyOutside(lay: Layout, rels: Relatives) returns (out: Relatives)
    requires KnownSections(lay, rels)
    ensures out == OutsideSpaces(lay, rels)
  {
    out := [];
    for i := 0 to |rels|
      invariant out + OutsideSpaces(lay, rels[i..]) == OutsideSpaces(lay, rels)
    {
      ghost var rest := OutsideSpaces(lay, rels[i + 1..]);
      ghost var none: Relatives := [];
      assert rels[i..][1..] == rels[i + 1..] && rels[i..][0] == rels[i];
      Regroup(out, [rels[i]], rest);
      Regroup(out, none, rest);
      if !InSpace(lay, rels[i].section) {
        out := out + [rels[i]];
      }
    }
  }

  lemma {:induction false} OutsideIsPart(lay: Layout, rels: Relatives)
    requires KnownSections(lay, rels)
    ensures forall r | r in OutsideSpaces(lay, rels) :: r in rels
  {
    if rels != [] {
      OutsideIsPart(lay, rels[1..]);
    }
  }

  method RelativesEqual(lay: Layout, rels: Relatives, rels2: Relatives) returns (c: Verdict)
    requires Proper(rels) && Proper(rels2) && KnownSections(lay, rels) && KnownSections(lay, rels2)
    ensures c == CheckRelativesEquality(lay, rels, rels2)
  {
    if !lay.withDiffs || lay.prepared {
      var equal := EqualRelatives(rels, rels2);
      c := Verdict(equal, false);
    } else {
      var orels1 := CopyOutside(lay, rels);
      var orels2 := CopyOutside(lay, rels2);
      OutsideIsPart(lay, rels);
      OutsideIsPart(lay, rels2);
      var equal := EqualRelatives(orels1, orels2);
      c := Verdict(equal, equal && (|orels1| != |rels| || |orels2| != |rels2|));
    }
  }

  lemma BinaryFormParts(b: BinaryOp, lay: Layout, f2: Form, f1: Form)
    requires FormOk(lay, f2) && FormOk(lay, f1)
    ensures b == ADDITION || b == SUBTRACT ==> BinaryForm(b, lay, f2, f1) == AddForms(b, f2, f1)
    ensures IsComparison(b) ==> BinaryForm(b, lay, f2, f1) == CompareForms(b, lay, f2, f1)
  {
    hide AddForms, CompareForms, MultiplyForms, ShiftForms, MaskForms, WordsOnly;
  }

  /** One binary operator; addition and comparison run their own loops over relatives. */
  method ExecuteBinary(b: BinaryOp, lay: Layout, f2: Form, f1: Form) returns (a: RelAnswer)
    requires FormOk(lay, f2) && FormOk(lay, f1)
    ensures a == BinaryForm(b, lay, f2, f1)
  {
    hide BinaryForm, Compare, Proper, CheckRelativesEquality, AddRelatives, DropZeros, KnownSections, Wrap;
    BinaryFormParts(b, lay, f2, f1);
    if b == ADDITION || b == SUBTRACT {
      var value, relatives := f1.value, f1.rels;
      if b == SUBTRACT {
        relatives := NegateAll(relatives);
        value := Negate(value);
      }
      relatives := Merge(relatives, f2.rels);
      a := RelAnswer(Form(Wrap(f2.value + value), relatives), false, false, false);
    } else if IsComparison(b) {
      var c := RelativesEqual(lay, f1.rels, f2.rels);
      a := RelAnswer(Form(Mask(Compare(b, f2.value, f1.value)), []), !c.ok, c.later, false);
    } else {
      a := BinaryForm(b, lay, f2, f1);
    }
  }

  method ExecuteForm(o: Operator, lay: Layout, st: RelState) returns (r: RelState)
    requires ValidLayout(lay) && StateOk(lay, st) && |st.stack| >= Arity(Apply(o))
    ensures r == RelStep(lay, Apply(o), st)
  {
    hide BinaryForm, UnaryForm, ChoiceForm, Proper, KnownSections;
    var stack := st.stack;
    var f1 := stack[|stack| - 1];
    stack := stack[..|stack| - 1];
    var a := RelAnswer(f1, false, false, false);
    match o {
      case Unary(u) =>
        a := UnaryForm(u, f1);
      case Binary(b) =>
        var f2 := stack[|stack| - 1];
        stack := stack[..|stack| - 1];
        a := ExecuteBinary(b, lay, f2, f1);
      case CHOICE =>
        var f2 := stack[|stack| - 1];
        stack := stack[..|stack| - 1];
        var f3 := stack[|stack| - 1];
        stack := stack[..|stack| - 1];
        a := ChoiceForm(lay, f3, f2, f1);
      case CHOICE_START =>
    }
    r := Absorb(st, stack, a);
  }

  /** One step of a run over part of a program. */
  lemma RelNext(lay: Layout, all: Code, opPos: nat, opEnd: nat, st: RelState)
    requires ValidLayout(lay) && StateOk(lay, st) && opPos < opEnd <= |all|
    requires CodeOk(lay, all[opPos..opEnd]) && Runs(all[opPos..opEnd], |st.stack|)
    ensures InstrOk(lay, all[opPos]) && Arity(all[opPos]) <= |st.stack|
    ensures StateOk(lay, RelStep(lay, all[opPos], st)) && CodeOk(lay, all[opPos + 1..opEnd])
    ensures Runs(all[opPos + 1..opEnd], |RelStep(lay, all[opPos], st).stack|)
    ensures RelRun(lay, all[opPos..opEnd], st) == RelRun(lay, all[opPos + 1..opEnd], RelStep(lay, all[opPos], st))
  {
    var rest := all[opPos..opEnd];
    assert rest[0] == all[opPos] && rest[1..] == all[opPos + 1..opEnd];
    assert InstrOk(lay, rest[0]);
    RelStepOk(lay, rest[0], st);
    hide StateOk, RelStep, InstrOk;
  }

  method EvaluateRelative(ops: seq<OpCode>, args: seq<Arg>, opStart: nat, opEnd: nat, lay: Layout)
    returns (out: Outcome)
    requires ValidLayout(lay) && Paired(ops, args) && opStart <= opEnd <= |ops|
    requires var code := CodeOf(ops, args)[opStart..opEnd]; CodeOk(lay, code) && Runs(code, 0)
    ensures out == Finish(lay, RelRun(lay, CodeOf(ops, args)[opStart..opEnd], REL_START))
  {
    hide StateOk, CodeOk, Runs, RelRun, ArgForm, ValidLayout, CodeOf, FormOk, CountArgs;
    NoArgs(lay, ops, args);
    ghost var all := CodeOf(ops, args);
    ghost var code := all[opStart..opEnd];
    var argPos := 0;
    var opPos := 0;
    while opPos < opStart
      invariant 0 <= opPos <= opStart
      invariant argPos == CountArgs(ops[..opPos])
    {
      CountNext(ops, opPos);
      if IsArg(ops[opPos]) {
        argPos := argPos + 1;
      }
      opPos := opPos + 1;
    }
    var st := REL_START;
    while opPos < opEnd
      invariant opStart <= opPos <= opEnd
      invariant argPos == CountArgs(ops[..opPos])
      invariant StateOk(lay, st)
      invariant CodeOk(lay, all[opPos..opEnd]) && Runs(all[opPos..opEnd], |st.stack|)
      invariant RelRun(lay, all[opPos..opEnd], st) == RelRun(lay, code, REL_START)
    {
      CountNext(ops, opPos);
      RelNext(lay, all, opPos, opEnd, st);
      CodeAt(ops, args, opPos);
      var o := ops[opPos];
      if IsArg(o) {
        st := st.(stack := st.stack + [ArgForm(lay, args[argPos].value, args[argPos].section)]);
        argPos := argPos + 1;
      } else {
        st := ExecuteForm(o.op, lay, st);
      }
      opPos := opPos + 1;
    }
    RelFinished(lay, all, opEnd, st);
    out := Finish(lay, st);
  }

  lemma NoArgs(lay: Layout, ops: seq<OpCode>, args: seq<Arg>)
    requires Paired(ops, args)
    ensures |CodeOf(ops, args)| == |ops| && CountArgs(ops[..0]) == 0 && StateOk(lay, REL_START)
  {
  }

  lemma CodeAt(ops: seq<OpCode>, args: seq<Arg>, i: nat)
    requires Paired(ops, args) && i < |ops|
    ensures |CodeOf(ops, args)| == |ops| && CodeOf(ops, args)[i] == InstrAt(ops, args, i)
  {
  }

  lemma RelFinished(lay: Layout, all: Code, opEnd: nat, st: RelState)
    requires ValidLayout(lay) && StateOk(lay, st) && opEnd <= |all|
    requires CodeOk(lay, all[opEnd..opEnd]) && Runs(all[opEnd..opEnd], |st.stack|)
    ensures RelRun(lay, all[opEnd..opEnd], st) == st && KnownSections(lay, FinalForm(st).rels)
  {
  }

  /** Evaluation of a part of an expression. Whichever machine runs, the answer is the
      linear-form machine's. */
  method TryEvaluate(e: Expression, lay: Layout, opStart: nat, opEnd: nat) returns (out: Outcome)
    requires ValidLayout(lay) && ValidExpression(e) && opStart <= opEnd <= |e.ops|
    requires Runs(CodeOf(e.ops, e.args)[opStart..opEnd], 0)
    requires e.symOccursNum == 0 ==> CodeOk(lay, CodeOf(e.ops, e.args))
    ensures e.symOccursNum != 0 ==> out == Unresolved
    ensures e.symOccursNum == 0 ==>
              out == Finish(lay, RelRun(lay, CodeOf(e.ops, e.args)[opStart..opEnd], REL_START))
  {
    if e.symOccursNum != 0 {
      return Unresolved;
    }
    ghost var code := CodeOf(e.ops, e.args)[opStart..opEnd];
    assert forall i | 0 <= i < |code| :: code[i] == CodeOf(e.ops, e.args)[opStart + i];
    if !e.relativeSymOccurs {
      MachinesAgree(lay, code);
      out := Evaluate(e.ops, e.args, opStart, opEnd);
    } else {
      out := EvaluateRelative(e.ops, e.args, opStart, opEnd, lay);
    }
  }
}
