/** Expression trees: the reference meaning of postfix programs. */
module ExprTree {
  import opened Operators
  import opened AbsoluteMachine

  datatype Tree =
    | Leaf(arg: Arg)
    | Un(u: UnaryOp, x: Tree)
    | Bin(b: BinaryOp, l: Tree, r: Tree)
    | Cond(c: Tree, t: Tree, f: Tree)

  /** Operands before their operator; unary plus leaves no trace. */
  function Postfix(e: Tree): Code {
    match e
    case Leaf(arg) => [Push(arg)]
    case Un(u, x) => Postfix(x) + if u == PLUS then [] else [Apply(Unary(u))]
    case Bin(b, l, r) => Postfix(l) + Postfix(r) + [Apply(Binary(b))]
    case Cond(c, t, f) => Postfix(c) + Postfix(t) + Postfix(f) + [Apply(CHOICE)]
  }

  predicate Closed(e: Tree) {
    match e
    case Leaf(arg) => arg.Value?
    case Un(_, x) => Closed(x)
    case Bin(_, l, r) => Closed(l) && Closed(r)
    case Cond(c, t, f) => Closed(c) && Closed(t) && Closed(f)
  }

  /** The value of a tree. Both arms of a choice are computed, so an error in either one
      is an error of the choice. */
  function Meaning(e: Tree): Answer
    requires Closed(e)
  {
    match e
    case Leaf(arg) => Plain(arg.value)
    case Un(u, x) =>
      var m := Meaning(x);
      m.(value := UnaryWord(u, m.value))
    case Bin(b, l, r) => BinaryMeaning(b, Meaning(l), Meaning(r))
    case Cond(c, t, f) => ChoiceMeaning(Meaning(c), Meaning(t), Meaning(f))
  }

  function BinaryMeaning(b: BinaryOp, m: Answer, n: Answer): Answer {
    var a := BinaryWord(b, m.value, n.value);
    Answer(a.value, m.failed || n.failed || a.failed, m.trapped || n.trapped || a.trapped)
  }

  function ChoiceMeaning(m: Answer, n: Answer, o: Answer): Answer {
    Answer(if m.value != 0 then n.value else o.value,
           m.failed || n.failed || o.failed, m.trapped || n.trapped || o.trapped)
  }

  lemma {:induction false} PostfixRuns(e: Tree, d: nat)
    ensures Runs(Postfix(e), d) && DepthAfter(Postfix(e), d) == d + 1
    ensures WellFormed(Postfix(e))
  {
    PostfixRunsAt(e, d);
    PostfixRunsAt(e, 0);
  }

  lemma {:induction false} PostfixRunsAt(e: Tree, d: nat)
    ensures Runs(Postfix(e), d) && DepthAfter(Postfix(e), d) == d + 1
  {
    match e
    case Leaf(_) =>
      assert Postfix(e)[1..] == [];
    case Un(u, x) =>
      PostfixRunsAt(x, d);
      RunsAppend(Postfix(x), [Apply(Unary(u))], d);
      assert Postfix(x) + [] == Postfix(x);
    case Bin(b, l, r) =>
      PostfixRunsAt(l, d);
      PostfixRunsAt(r, d + 1);
      RunsAppend(Postfix(l), Postfix(r), d);
      RunsAppend(Postfix(l) + Postfix(r), [Apply(Binary(b))], d);
    case Cond(c, t, f) =>
      PostfixRunsAt(c, d);
      PostfixRunsAt(t, d + 1);
      PostfixRunsAt(f, d + 2);
      RunsAppend(Postfix(c), Postfix(t), d);
      RunsAppend(Postfix(c) + Postfix(t), Postfix(f), d);
      RunsAppend(Postfix(c) + Postfix(t) + Postfix(f), [Apply(CHOICE)], d);
  }

  lemma {:induction false} PostfixResolved(e: Tree)
    requires Closed(e)
    ensures Resolved(Postfix(e))
  {
    match e
    case Leaf(_) =>
    case Un(_, x) => PostfixResolved(x);
    case Bin(_, l, r) => PostfixResolved(l); PostfixResolved(r);
    case Cond(c, t, f) => PostfixResolved(c); PostfixResolved(t); PostfixResolved(f);
  }

  function Pushed(st: State, a: Answer): State {
    State(st.stack + [a.value], st.failed || a.failed, st.trapped || a.trapped)
  }

  /** Running a tree's postfix pushes the tree's value and raises exactly its errors. */
  lemma {:induction false} RunPostfix(e: Tree, st: State)
    requires Closed(e)
    ensures Resolved(Postfix(e)) && Runs(Postfix(e), |st.stack|)
    ensures Run(Postfix(e), st) == Pushed(st, Meaning(e))
  {
    PostfixResolved(e);
    PostfixRuns(e, |st.stack|);
    match e
    case Leaf(arg) =>
      assert Postfix(e)[1..] == [];
    case Un(u, x) =>
      RunPostfix(x, st);
      if u == PLUS {
        assert Postfix(e) == Postfix(x);
      } else {
        RunSnoc(Postfix(x), Apply(Unary(u)), st);
      }
    case Bin(b, l, r) =>
      RunPostfix(l, st);
      RunPostfix(r, Pushed(st, Meaning(l)));
      RunBinary(b, Postfix(l), Postfix(r), st, Meaning(l), Meaning(r));
    case Cond(c, t, f) =>
      var s1 := Pushed(st, Meaning(c));
      RunPostfix(c, st);
      RunPostfix(t, s1);
      RunPostfix(f, Pushed(s1, Meaning(t)));
      RunChoice(Postfix(c), Postfix(t), Postfix(f), st, Meaning(c), Meaning(t), Meaning(f));
  }

  ghost predicate Computes(code: Code, st: State, a: Answer) {
    Resolved(code) && Runs(code, |st.stack|) && Run(code, st) == Pushed(st, a)
  }

  lemma RunPair(a: Code, b: Code, st: State, m: Answer, n: Answer)
    requires Computes(a, st, m) && Computes(b, Pushed(st, m), n)
    ensures Resolved(a + b) && Runs(a + b, |st.stack|)
    ensures Run(a + b, st) == Pushed(Pushed(st, m), n)
  {
    RunsAppend(a, b, |st.stack|);
    RunAppend(a, b, st);
  }

  lemma RunBinary(op: BinaryOp, a: Code, b: Code, st: State, m: Answer, n: Answer)
    requires Computes(a, st, m) && Computes(b, Pushed(st, m), n)
    ensures Computes(a + b + [Apply(Binary(op))], st, BinaryMeaning(op, m, n))
  {
    RunPair(a, b, st, m, n);
    var i := Apply(Binary(op));
    var s := Pushed(Pushed(st, m), n);
    RunsAppend(a + b, [i], |st.stack|);
    RunSnoc(a + b, i, st);
    assert s.stack[..|s.stack| - 2] == st.stack;
  }

  lemma RunChoice(a: Code, b: Code, c: Code, st: State, m: Answer, n: Answer, o: Answer)
    requires Computes(a, st, m) && Computes(b, Pushed(st, m), n)
    requires Computes(c, Pushed(Pushed(st, m), n), o)
    ensures Computes(a + b + c + [Apply(CHOICE)], st, ChoiceMeaning(m, n, o))
  {
    RunPair(a, b, st, m, n);
    var s := Pushed(Pushed(Pushed(st, m), n), o);
    RunsAppend(a + b, c, |st.stack|);
    RunAppend(a + b, c, st);
    RunsAppend(a + b + c, [Apply(CHOICE)], |st.stack|);
    RunSnoc(a + b + c, Apply(CHOICE), st);
    assert s.stack[..|s.stack| - 3] == st.stack;
  }

  lemma RunSnoc(a: Code, i: Instr, st: State)
    requires Runs(a + [i], |st.stack|) && Resolved(a + [i])
    ensures Resolved(a) && Runs(a, |st.stack|)
    ensures Arity(i) <= |Run(a, st).stack| && (i.Push? ==> i.arg.Value?)
    ensures Run(a + [i], st) == Step(i, Run(a, st))
  {
    RunAppend(a, [i], st);
    assert [i][1..] == [];
    assert [i][0].Push? ==> [i][0].arg.Value?;
  }

  /** The evaluator, given a tree's postfix, reports the tree's value, or failure exactly
      when some division in it is by zero. */
  lemma EvaluatorComputesTree(e: Tree)
    requires Closed(e)
    ensures Runs(Postfix(e), 0) && Resolved(Postfix(e))
    ensures Result(Run(Postfix(e), START)) ==
            if Meaning(e).trapped then Trapped
            else if Meaning(e).failed then Failed
            else Success(Meaning(e).value, ASMSECT_ABS)
  {
    RunPostfix(e, START);
  }
}
