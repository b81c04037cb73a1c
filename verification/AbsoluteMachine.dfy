/** The evaluator's stack machine on plain words. */
module AbsoluteMachine {
  import opened Words
  import opened Operators

  /** What an evaluation reports. Trapped stands for the processor exception raised by the
      signed quotient of the least integer by -1, Unresolved for the exception thrown when
      symbols are left. */
  datatype Outcome =
    | Success(value: Word, section: SectionId)
    | TryLater
    | Failed
    | Trapped
    | Unresolved

  /** The operator codes of an expression; the arguments are kept in an array of their own. */
  datatype OpCode = ARG_VALUE | ARG_SYMBOL | OPERATOR(op: Operator)

  function IsArg(o: OpCode): bool {
    !o.OPERATOR?
  }

  function CountArgs(ops: seq<OpCode>): nat {
    if ops == [] then 0
    else CountArgs(ops[..|ops| - 1]) + if IsArg(ops[|ops| - 1]) then 1 else 0
  }

  /** Operator codes and arguments agree: one argument of the right kind per argument code. */
  ghost predicate Paired(ops: seq<OpCode>, args: seq<Arg>) {
    && |args| == CountArgs(ops)
    && (forall i {:trigger ops[i]} | 0 <= i < |ops| && IsArg(ops[i]) ::
          CountArgs(ops[..i]) < |args| &&
          args[CountArgs(ops[..i])].Value? == ops[i].ARG_VALUE?)
  }

  function InstrAt(ops: seq<OpCode>, args: seq<Arg>, i: nat): Instr
    requires Paired(ops, args) && i < |ops|
  {
    if IsArg(ops[i]) then Push(args[CountArgs(ops[..i])]) else Apply(ops[i].op)
  }

  /** The postfix program held by the two arrays. */
  function CodeOf(ops: seq<OpCode>, args: seq<Arg>): Code
    requires Paired(ops, args)
  {
    seq(|ops|, i requires 0 <= i < |ops| => InstrAt(ops, args, i))
  }

  /** No argument is a symbol without a value. */
  predicate Resolved(code: Code) {
    forall i | 0 <= i < |code| :: code[i].Push? ==> code[i].arg.Value?
  }

  /** Operands are on top of the stack, the last pushed one last. */
  datatype State = State(stack: seq<Word>, failed: bool, trapped: bool)

  const START := State([], false, false)

  function Step(i: Instr, st: State): (r: State)
    requires |st.stack| >= Arity(i)
    requires i.Push? ==> i.arg.Value?
    ensures |r.stack| == |st.stack| - Arity(i) + 1
  {
    var n := |st.stack|;
    match i
    case Push(arg) => st.(stack := st.stack + [arg.value])
    case Apply(Unary(u)) =>
      st.(stack := st.stack[..n - 1] + [UnaryWord(u, st.stack[n - 1])])
    case Apply(Binary(b)) =>
      var a := BinaryWord(b, st.stack[n - 2], st.stack[n - 1]);
      State(st.stack[..n - 2] + [a.value], st.failed || a.failed, st.trapped || a.trapped)
    case Apply(CHOICE) =>
      var v := if st.stack[n - 3] != 0 then st.stack[n - 2] else st.stack[n - 1];
      st.(stack := st.stack[..n - 3] + [v])
    case Apply(CHOICE_START) => st
  }

  function Run(code: Code, st: State): (r: State)
    requires Runs(code, |st.stack|) && Resolved(code)
    ensures |r.stack| == DepthAfter(code, |st.stack|)
  {
    if code == [] then st else Run(code[1..], Step(code[0], st))
  }

  /** The answer read off the final stack: its top, or zero when nothing was pushed. */
  function Result(st: State): Outcome {
    if st.trapped then Trapped
    else if st.failed then Failed
    else Success(if st.stack == [] then 0 else st.stack[|st.stack| - 1], ASMSECT_ABS)
  }

  lemma {:induction false} RunAppend(a: Code, b: Code, st: State)
    requires Runs(a + b, |st.stack|) && Resolved(a + b)
    ensures Resolved(a) && Resolved(b) && Runs(a, |st.stack|)
    ensures Runs(b, |Run(a, st).stack|)
    ensures Run(a + b, st) == Run(b, Run(a, st))
  {
    RunsAppend(a, b, |st.stack|);
    assert forall i | 0 <= i < |a| :: a[i] == (a + b)[i];
    assert forall i | 0 <= i < |b| :: b[i] == (a + b)[|a| + i];
    if a == [] {
      assert a + b == b;
    } else {
      assert (a + b)[1..] == a[1..] + b;
      RunAppend(a[1..], b, Step(a[0], st));
    }
  }

  /** Errors and traps never go away. */
  lemma {:induction false} FlagsAreSticky(code: Code, st: State)
    requires Runs(code, |st.stack|) && Resolved(code)
    ensures st.failed ==> Run(code, st).failed
    ensures st.trapped ==> Run(code, st).trapped
  {
    if code != [] {
      FlagsAreSticky(code[1..], Step(code[0], st));
    }
  }

  /** One operator: pops its operands from the stack and pushes the value. */
  method Execute(o: Operator, st: State) returns (r: State)
    requires |st.stack| >= Arity(Apply(o))
    ensures r == Step(Apply(o), st)
  {
    var stack, failed, trapped := st.stack, st.failed, st.trapped;
    var value := stack[|stack| - 1];
    stack := stack[..|stack| - 1];
    match o {
      case Unary(u) =>
        value := UnaryWord(u, value);
      case Binary(b) =>
        var value2 := stack[|stack| - 1];
        stack := stack[..|stack| - 1];
        var a := BinaryWord(b, value2, value);
        value, failed, trapped := a.value, failed || a.failed, trapped || a.trapped;
      case CHOICE =>
        var value2 := stack[|stack| - 1];
        stack := stack[..|stack| - 1];
        var value3 := stack[|stack| - 1];
        stack := stack[..|stack| - 1];
        value := if value3 != 0 then value2 else value;
      case CHOICE_START =>
    }
    r := State(stack + [value], failed, trapped);
  }

  /** The loop over operator codes: positions before opStart only advance the argument
      position, the rest is executed. */
  method Evaluate(ops: seq<OpCode>, args: seq<Arg>, opStart: nat, opEnd: nat)
    returns (out: Outcome)
    requires Paired(ops, args) && opStart <= opEnd <= |ops|
    requires var code := CodeOf(ops, args)[opStart..opEnd]; Resolved(code) && Runs(code, 0)
    ensures out == Result(Run(CodeOf(ops, args)[opStart..opEnd], START))
  {
    ghost var all := CodeOf(ops, args);
    ghost var code := all[opStart..opEnd];
    var argPos := 0;
    var opPos := 0;
    while opPos < opStart
      invariant 0 <= opPos <= opStart
      invariant argPos == CountArgs(ops[..opPos])
    {
      CountNext(ops, opPos);
      if IsArg(ops[opPos]) {
        argPos := argPos + 1;
      }
      opPos := opPos + 1;
    }
    var st := START;
    while opPos < opEnd
      invariant opStart <= opPos <= opEnd
      invariant argPos == CountArgs(ops[..opPos])
      invariant Resolved(all[opPos..opEnd]) && Runs(all[opPos..opEnd], |st.stack|)
      invariant Run(all[opPos..opEnd], st) == Run(code, START)
    {
      CountNext(ops, opPos);
      ghost var rest := all[opPos..opEnd];
      assert rest[0] == InstrAt(ops, args, opPos) && rest[1..] == all[opPos + 1..opEnd];
      assert rest[0].Push? ==> rest[0].arg.Value?;
      assert Resolved(rest[1..]);
      var o := ops[opPos];
      if IsArg(o) {
        st := st.(stack := st.stack + [args[argPos].value]);
        argPos := argPos + 1;
      } else {
        st := Execute(o.op, st);
      }
      opPos := opPos + 1;
    }
    out := Result(st);
  }

  lemma CountNext(ops: seq<OpCode>, i: nat)
    requires i < |ops|
    ensures CountArgs(ops[..i + 1]) == CountArgs(ops[..i]) + if IsArg(ops[i]) then 1 else 0
  {
    assert ops[..i + 1][..i] == ops[..i];
  }
}
