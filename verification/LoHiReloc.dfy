/** Relocations for the low and the high half of an address, recognised in an expression. */
module LoHiReloc {
  import opened Words
  import opened Operators
  import opened LinearForms
  import opened AbsoluteMachine
  import opened ExprTree
  import opened RelativeMachine
  import opened RelativeEvaluation
  import opened SectionComparisons
  import opened Evaluator
  import opened Subexpressions
  import opened HalfOperators

  // ----- placed trees -----

  function PlaceTree(e: Tree, base: Bases): Tree {
    match e
    case Leaf(Value(v, s)) => Leaf(Value(Wrap(v + BaseOf(base, s)), ASMSECT_ABS))
    case Leaf(_) => e
    case Un(u, x) => Un(u, PlaceTree(x, base))
    case Bin(b, l, r) => Bin(b, PlaceTree(l, base), PlaceTree(r, base))
    case Cond(c, t, f) => Cond(PlaceTree(c, base), PlaceTree(t, base), PlaceTree(f, base))
  }

  lemma {:induction false} PlacePostfix(e: Tree, base: Bases)
    ensures PlaceAll(Postfix(e), base) == Postfix(PlaceTree(e, base))
    ensures Closed(e) ==> Closed(PlaceTree(e, base))
  {
    hide PlaceAll;
    match e
    case Leaf(_) => PlaceOne(Postfix(e)[0], base);
    case Un(u, x) =>
      PlacePostfix(x, base);
      PlaceOne(Apply(Unary(u)), base);
      PlaceAppend(Postfix(x), [Apply(Unary(u))], base);
      assert Postfix(x) + [] == Postfix(x) && Postfix(PlaceTree(x, base)) + [] == Postfix(PlaceTree(x, base));
    case Bin(b, l, r) =>
      PlacePostfix(l, base);
      PlacePostfix(r, base);
      PlaceOne(Apply(Binary(b)), base);
      PlaceAppend(Postfix(l), Postfix(r), base);
      PlaceAppend(Postfix(l) + Postfix(r), [Apply(Binary(b))], base);
    case Cond(c, t, f) =>
      PlacePostfix(c, base);
      PlacePostfix(t, base);
      PlacePostfix(f, base);
      PlaceOne(Apply(CHOICE), base);
      PlaceAppend(Postfix(c), Postfix(t), base);
      PlaceAppend(Postfix(c) + Postfix(t), Postfix(f), base);
      PlaceAppend(Postfix(c) + Postfix(t) + Postfix(f), [Apply(CHOICE)], base);
  }

  lemma PlaceOne(i: Instr, base: Bases)
    ensures PlaceAll([i], base) == [Placed(i, base)]
  {
  }

  lemma PlaceAppend(a: Code, b: Code, base: Bases)
    ensures PlaceAll(a + b, base) == PlaceAll(a, base) + PlaceAll(b, base)
  {
  }

  lemma CodeOkParts(lay: Layout, a: Code, b: Code)
    requires CodeOk(lay, a + b)
    ensures CodeOk(lay, a) && CodeOk(lay, b)
  {
    assert forall i | 0 <= i < |a| :: a[i] == (a + b)[i];
    assert forall i | 0 <= i < |b| :: b[i] == (a + b)[|a| + i];
  }

  lemma {:induction false} CodeOkClosed(lay: Layout, e: Tree)
    requires CodeOk(lay, Postfix(e))
    ensures Closed(e)
    ensures e.Bin? ==> CodeOk(lay, Postfix(e.l)) && CodeOk(lay, Postfix(e.r))
  {
    match e
    case Leaf(_) => assert InstrOk(lay, Postfix(e)[0]);
    case Un(u, x) =>
      CodeOkParts(lay, Postfix(x), if u == PLUS then [] else [Apply(Unary(u))]);
      CodeOkClosed(lay, x);
    case Bin(b, l, r) =>
      CodeOkParts(lay, Postfix(l) + Postfix(r), [Apply(Binary(b))]);
      CodeOkParts(lay, Postfix(l), Postfix(r));
      CodeOkClosed(lay, l);
      CodeOkClosed(lay, r);
    case Cond(c, t, f) =>
      CodeOkParts(lay, Postfix(c) + Postfix(t) + Postfix(f), [Apply(CHOICE)]);
      CodeOkParts(lay, Postfix(c) + Postfix(t), Postfix(f));
      CodeOkParts(lay, Postfix(c), Postfix(t));
      CodeOkClosed(lay, c);
      CodeOkClosed(lay, t);
      CodeOkClosed(lay, f);
  }

  /** What the evaluator answers for a tree's postfix. */
  ghost function Answers(e: Tree, lay: Layout): Outcome
    requires ValidLayout(lay) && CodeOk(lay, Postfix(e))
  {
    PostfixRuns(e, 0);
    Finish(lay, RelRun(lay, Postfix(e), REL_START))
  }

  ghost predicate OrdersKeptIn(e: Tree, lay: Layout, base: Bases)
    requires ValidLayout(lay) && CodeOk(lay, Postfix(e))
  {
    PostfixRuns(e, 0);
    OrdersKept(lay, Postfix(e), REL_START, base)
  }

  /** A successful answer gives the tree's meaning under every placement. */
  lemma AnswerIsMeaning(e: Tree, lay: Layout, base: Bases)
    requires ValidLayout(lay) && CodeOk(lay, Postfix(e)) && Consistent(lay, base)
    requires OrdersKeptIn(e, lay, base) && Answers(e, lay).Success?
    ensures Closed(PlaceTree(e, base))
    ensures var a := Answers(e, lay);
      Meaning(PlaceTree(e, base)) == Plain(Wrap(a.value + BaseOf(base, a.section)))
  {
    CodeOkClosed(lay, e);
    PlacePostfix(e, base);
    PlacedAnswer(e, lay, base);
    EvaluatorComputesTree(PlaceTree(e, base));
    hide Postfix, PlaceTree, Meaning, Answers, Run, Closed, Consistent, CodeOk, OrdersKeptIn, ValidLayout, Resolved,
      Runs;
  }

  lemma PlacedAnswer(e: Tree, lay: Layout, base: Bases)
    requires ValidLayout(lay) && CodeOk(lay, Postfix(e)) && Consistent(lay, base)
    requires OrdersKeptIn(e, lay, base) && Answers(e, lay).Success?
    requires PlaceAll(Postfix(e), base) == Postfix(PlaceTree(e, base))
    ensures var a := Answers(e, lay); var placed := Postfix(PlaceTree(e, base));
      Resolved(placed) && Runs(placed, 0)
      && Result(Run(placed, START)) == Success(Wrap(a.value + BaseOf(base, a.section)), ASMSECT_ABS)
  {
    hide Postfix, PlaceAll, PlaceTree, RelRun, Run, Finish, Consistent, CodeOk, OrdersKept, ValidLayout, Result;
    PostfixRuns(e, 0);
    RelativeAnswerSound(lay, Postfix(e), base);
  }

  // ----- recognising a relocation -----

  datatype RelocResult = NoReloc | Reloc(high: bool, section: SectionId, value: Word)

  /** The tree below the unary pluses on top, which leave no trace in the code. */
  function Outer(e: Tree): Tree {
    if e.Un? && e.u == PLUS then Outer(e.x) else e
  }

  lemma {:induction false} OuterPostfix(e: Tree)
    ensures Postfix(Outer(e)) == Postfix(e)
  {
    if e.Un? && e.u == PLUS {
      OuterPostfix(e.x);
    }
  }

  ghost predicate HasSelector(e: Tree) {
    Outer(e).Bin? && SelectsHalf(Outer(e).b)
  }

  lemma SelectorIsLast(e: Tree)
    ensures Postfix(e) != []
    ensures HasSelector(e) <==>
              (var i := Postfix(e)[|Postfix(e)| - 1]; i.Apply? && i.op.Binary? && SelectsHalf(i.op.b))
    ensures HasSelector(e) ==> Postfix(e)[|Postfix(e)| - 1] == Apply(Binary(Outer(e).b))
  {
    OuterPostfix(e);
    PostfixNonempty(e);
    PostfixNonempty(Outer(e));
  }

  lemma {:induction false} PostfixNonempty(e: Tree)
    ensures Postfix(e) != []
  {
    if e.Un? {
      PostfixNonempty(e.x);
    }
  }

  /** The relocation that an expression stands for, if any. */
  ghost function LoHiSpec(e: Tree, lay: Layout): RelocResult
    requires ValidLayout(lay) && CodeOk(lay, Postfix(e))
  {
    OuterPostfix(e);
    CodeOkClosed(lay, Outer(e));
    if !HasSelector(e) then AsReloc(false, Answers(e, lay))
    else
      var Bin(b, l, r) := Outer(e);
      var second := Answers(r, lay);
      if !second.Success? || second.section != ASMSECT_ABS || !AcceptsArg(b, second.value) then NoReloc
      else AsReloc(SelectsHigh(b), Answers(l, lay))
  }

  function AsReloc(high: bool, out: Outcome): RelocResult {
    match out
    case Success(v, s) => Reloc(high, s, v)
    case _ => NoReloc
  }

  /** The operand trees that the relocation is read from keep their comparisons' order. */
  ghost predicate PartsKept(e: Tree, lay: Layout, base: Bases)
    requires ValidLayout(lay) && CodeOk(lay, Postfix(e))
  {
    OuterPostfix(e);
    CodeOkClosed(lay, Outer(e));
    if HasSelector(e) then OrdersKeptIn(Outer(e).l, lay, base) && OrdersKeptIn(Outer(e).r, lay, base)
    else OrdersKeptIn(e, lay, base)
  }

  lemma {:induction false} OuterMeaning(e: Tree, base: Bases)
    requires Closed(PlaceTree(e, base))
    ensures Closed(PlaceTree(Outer(e), base))
    ensures Meaning(PlaceTree(e, base)) == Meaning(PlaceTree(Outer(e), base))
  {
    if e.Un? && e.u == PLUS {
      OuterMeaning(e.x, base);
    }
  }

  /** MAIN: an accepted relocation stores the right half. For every placement of the
      sections, the low 32 bits of the whole expression are the low, or for a high
      relocation the high, 32 bits of addend plus base; for signed division this is so
      exactly when the address is not negative or is a multiple of 2^32. */
  lemma RelocationKeepsField(e: Tree, lay: Layout, base: Bases)
    requires ValidLayout(lay) && CodeOk(lay, Postfix(e)) && Consistent(lay, base)
    requires LoHiSpec(e, lay).Reloc? && PartsKept(e, lay, base)
    ensures Closed(PlaceTree(e, base))
    ensures var rel := LoHiSpec(e, lay);
      var addr := Wrap(rel.value + BaseOf(base, rel.section));
      var whole := Meaning(PlaceTree(e, base));
      && !whole.failed && !whole.trapped
      && (whole.value % HALF == Half(rel.high, addr)
          <==> (HasSelector(e) ==> HalfKept(Outer(e).b, addr)))
  {
    hide Meaning, PlaceTree, Postfix, CodeOk, OrdersKeptIn, Answers, BinaryWord;
    OuterPostfix(e);
    CodeOkClosed(lay, e);
    CodeOkClosed(lay, Outer(e));
    PlacePostfix(e, base);
    if HasSelector(e) {
      SelectorKeepsField(e, lay, base);
    } else {
      AnswerIsMeaning(e, lay, base);
    }
  }

  lemma SelectorKeepsField(e: Tree, lay: Layout, base: Bases)
    requires ValidLayout(lay) && CodeOk(lay, Postfix(e)) && Consistent(lay, base)
    requires LoHiSpec(e, lay).Reloc? && PartsKept(e, lay, base) && HasSelector(e)
    requires Closed(PlaceTree(e, base))
    ensures var rel := LoHiSpec(e, lay);
      var addr := Wrap(rel.value + BaseOf(base, rel.section));
      var whole := Meaning(PlaceTree(e, base));
      && !whole.failed && !whole.trapped
      && (whole.value % HALF == Half(rel.high, addr) <==> HalfKept(Outer(e).b, addr))
  {
    hide BinaryWord, Answers, OrdersKeptIn, AcceptsArg, HalfKept, Half;
    OuterPostfix(e);
    CodeOkClosed(lay, Outer(e));
    OuterMeaning(e, base);
    var Bin(b, l, r) := Outer(e);
    AnswerIsMeaning(l, lay, base);
    AnswerIsMeaning(r, lay, base);
    var second := Answers(r, lay).value;
    assert Wrap(second + 0) == second;
    var addr := Wrap(LoHiSpec(e, lay).value + BaseOf(base, LoHiSpec(e, lay).section));
    OperatorSelectsHalf(b, addr, second);
  }

  /** An expression stands for a relocation exactly when its operator is one of the six and selects a
      half with its second part, an absolute constant, and the first part has an address; or when the
      operator is another one, and the whole has an address. */
  lemma ResolvesIff(e: Tree, lay: Layout, high: bool, section: SectionId, value: Word)
    requires ValidLayout(lay) && CodeOk(lay, Postfix(e))
    ensures CodeOk(lay, Postfix(Outer(e))) && Postfix(Outer(e)) == Postfix(e)
    ensures match Outer(e)
            case Bin(b, l, r) =>
              && CodeOk(lay, Postfix(l)) && CodeOk(lay, Postfix(r))
              && (b in {BIT_AND, MODULO, SIGNED_MODULO, DIVISION, SIGNED_DIVISION, SHIFT_RIGHT} ==>
                    (LoHiSpec(e, lay) == Reloc(high, section, value) <==>
                       && high == (b in {DIVISION, SIGNED_DIVISION, SHIFT_RIGHT})
                       && Answers(l, lay) == Success(value, section)
                       && exists c :: Answers(r, lay) == Success(c, ASMSECT_ABS) && SelectsAlways(b, c)))
              && (b !in {BIT_AND, MODULO, SIGNED_MODULO, DIVISION, SIGNED_DIVISION, SHIFT_RIGHT} ==>
                    (LoHiSpec(e, lay) == Reloc(high, section, value) <==>
                       !high && Answers(e, lay) == Success(value, section)))
            case _ =>
              LoHiSpec(e, lay) == Reloc(high, section, value) <==> !high && Answers(e, lay) == Success(value, section)
  {
    hide Answers, AcceptsArg, SelectsAlways, Postfix, CodeOk, ValidLayout;
    OuterPostfix(e);
    CodeOkClosed(lay, Outer(e));
    if HasSelector(e) {
      var second := Answers(Outer(e).r, lay);
      if second.Success? {
        AcceptedIffSelects(Outer(e).b, second.value);
      }
    }
  }

  lemma SelectorSpec(e: Tree, lay: Layout) returns (b: BinaryOp, l: Tree, r: Tree)
    requires ValidLayout(lay) && CodeOk(lay, Postfix(e)) && HasSelector(e)
    ensures Postfix(e) == Postfix(Bin(b, l, r)) && SelectsHalf(b)
    ensures CodeOk(lay, Postfix(l)) && CodeOk(lay, Postfix(r)) && Runs(Postfix(l), 0) && Runs(Postfix(r), 0)
    ensures LoHiSpec(e, lay) ==
              FromHalves(b, Finish(lay, RelRun(lay, Postfix(r), REL_START)),
                         Finish(lay, RelRun(lay, Postfix(l), REL_START)))
  {
    b, l, r := Outer(e).b, Outer(e).l, Outer(e).r;
    OuterPostfix(e);
    CodeOkClosed(lay, Outer(e));
    PostfixRuns(l, 0);
    PostfixRuns(r, 0);
    hide Finish, RelRun, Postfix, CodeOk;
  }

  /** The relocation in terms of the two parts of the program. */
  lemma HalvesOf(code: Code, lay: Layout, e: Tree) returns (b: BinaryOp, k: nat)
    requires ValidLayout(lay) && code == Postfix(e) && CodeOk(lay, code) && HasSelector(e)
    ensures var n := |code|;
      && k < n - 1 && Subexpression(code, k, n - 2) && code[n - 1] == Apply(Binary(b)) && SelectsHalf(b)
      && CodeOk(lay, code[k..n - 1]) && Runs(code[k..n - 1], 0)
      && CodeOk(lay, code[0..k]) && Runs(code[0..k], 0)
    ensures LoHiSpec(e, lay) ==
              FromHalves(b, Finish(lay, RelRun(lay, code[k..|code| - 1], REL_START)),
                         Finish(lay, RelRun(lay, code[0..k], REL_START)))
  {
    hide *;
    var l, r;
    b, l, r := SelectorSpec(e, lay);
    k := |Postfix(l)|;
    OperandsOf(code, b, l, r);
    LastOperator(code, b, l, r);
  }

  /** What the two parts of the program say about the relocation. */
  function FromHalves(b: BinaryOp, second: Outcome, first: Outcome): RelocResult
    requires SelectsHalf(b)
  {
    if !second.Success? || second.section != ASMSECT_ABS || !AcceptsArg(b, second.value) then NoReloc
    else AsReloc(SelectsHigh(b), first)
  }

  method EvaluatePart(x: Expression, lay: Layout, opStart: nat, opEnd: nat, ghost code: Code) returns (out: Outcome)
    requires ValidLayout(lay) && ValidExpression(x) && x.symOccursNum == 0 && code == CodeOf(x.ops, x.args)
    requires opStart <= opEnd <= |code| && CodeOk(lay, code) && CodeOk(lay, code[opStart..opEnd])
    requires Runs(code[opStart..opEnd], 0)
    ensures out == Finish(lay, RelRun(lay, code[opStart..opEnd], REL_START))
  {
    out := TryEvaluate(x, lay, opStart, opEnd);
  }

  /** Evaluates the second operand, which must be a constant that the operator accepts, and then
      the first one. */
  method EvaluateHalves(x: Expression, lay: Layout, code: Code, relOpEnd: nat, op: BinaryOp)
    returns (rel: RelocResult)
    requires ValidLayout(lay) && ValidExpression(x) && x.symOccursNum == 0 && code == CodeOf(x.ops, x.args)
    requires relOpEnd < |code| && CodeOk(lay, code) && SelectsHalf(op)
    requires CodeOk(lay, code[relOpEnd..|code| - 1]) && Runs(code[relOpEnd..|code| - 1], 0)
    requires CodeOk(lay, code[0..relOpEnd]) && Runs(code[0..relOpEnd], 0)
    ensures rel == FromHalves(op, Finish(lay, RelRun(lay, code[relOpEnd..|code| - 1], REL_START)),
                              Finish(lay, RelRun(lay, code[0..relOpEnd], REL_START)))
  {
    hide ValidLayout, ValidExpression, CodeOf, CodeOk, Runs, RelRun, Finish, AcceptsArg, SelectsHigh, SelectsHalf;
    var second := EvaluatePart(x, lay, relOpEnd, |code| - 1, code);
    if !second.Success? || second.section != ASMSECT_ABS || !AcceptsArg(op, second.value) {
      return NoReloc;
    }
    var first := EvaluatePart(x, lay, 0, relOpEnd, code);
    rel := AsReloc(SelectsHigh(op), first);
  }

  lemma ExpressionPaired(x: Expression)
    requires ValidExpression(x)
    ensures Paired(x.ops, x.args)
  {
  }

  /** The operator at the end selects a half. */
  method ResolveHalf(x: Expression, lay: Layout, ghost e: Tree) returns (rel: RelocResult)
    requires ValidLayout(lay) && ValidExpression(x) && x.symOccursNum == 0
    requires CodeOf(x.ops, x.args) == Postfix(e) && CodeOk(lay, Postfix(e)) && HasSelector(e)
    ensures rel == LoHiSpec(e, lay)
  {
    hide *;
    ExpressionPaired(x);
    var code := CodeOf(x.ops, x.args);
    ghost var b, k := HalvesOf(code, lay, e);
    var relOpEnd := ToTop(code, |code| - 2);
    StartFound(lay, code, k, relOpEnd);
    rel := EvaluateHalves(x, lay, code, relOpEnd, code[|code| - 1].op.b);
  }

  lemma StartFound(lay: Layout, code: Code, k: nat, start: int)
    requires |code| >= 2 && Subexpression(code, k, |code| - 2) && StopsAt(code, |code| - 2, start) && CodeOk(lay, code)
    ensures start == k
  {
    hide StopsAt, Subexpression;
    forall i | k <= i <= |code| - 2 ensures !IsSymbol(code[i]) {
      assert InstrOk(lay, code[i]);
    }
    StopsAtStart(code, k, |code| - 2, start);
  }

  lemma LastOperator(code: Code, b: BinaryOp, l: Tree, r: Tree)
    requires code == Postfix(Bin(b, l, r))
    ensures code != [] && code[|code| - 1] == Apply(Binary(b))
  {
  }

  /** Relocations are evaluated without section differences. */
  method ResolveLoHi(x: Expression, lay0: Layout, is32Bit: bool, inCode: bool, ghost e: Tree)
    returns (rel: RelocResult)
    requires ValidLayout(lay0) && ValidExpression(x) && x.symOccursNum == 0
    requires CodeOf(x.ops, x.args) == Postfix(e) && CodeOk(lay0, Postfix(e))
    ensures ValidLayout(lay0.(withDiffs := false)) && CodeOk(lay0.(withDiffs := false), Postfix(e))
    ensures rel == if is32Bit && inCode then LoHiSpec(e, lay0.(withDiffs := false)) else NoReloc
  {
    var lay := lay0.(withDiffs := false);
    CodeOkWithout(lay0, Postfix(e));
    if !is32Bit || !inCode {
      return NoReloc;
    }
    SelectorIsLast(e);
    PostfixRuns(e, 0);
    var code := CodeOf(x.ops, x.args);
    assert code[0..|code|] == code;
    hide Postfix, CodeOf, RelRun, Finish, CodeOk, ValidLayout, Runs, HasSelector;
    var last := code[|code| - 1];
    if last.Apply? && last.op.Binary? && SelectsHalf(last.op.b) {
      rel := ResolveHalf(x, lay, e);
    } else {
      var first := TryEvaluate(x, lay, 0, |code|);
      rel := AsReloc(false, first);
    }
  }

  lemma CodeOkWithout(lay: Layout, code: Code)
    requires ValidLayout(lay) && CodeOk(lay, code)
    ensures ValidLayout(lay.(withDiffs := false)) && CodeOk(lay.(withDiffs := false), code)
  {
    forall i | 0 <= i < |code| ensures InstrOk(lay.(withDiffs := false), code[i]) {
      assert InstrOk(lay, code[i]);
    }
  }

  /** Where the operands of the last operator lie. */
  lemma OperandsOf(code: Code, b: BinaryOp, l: Tree, r: Tree)
    requires code == Postfix(Bin(b, l, r))
    ensures var n, k := |code|, |Postfix(l)|;
      && k < n - 1 && code[0..k] == Postfix(l) && code[k..n - 1] == Postfix(r)
      && Subexpression(code, k, n - 2)
  {
    PostfixNonempty(r);
    var n, k := |code|, |Postfix(l)|;
    assert code[0..k] == Postfix(l) && code[k..n - 1] == Postfix(r);
  }

  // ----- a half that is not kept -----

  lemma LeafAnswers(v: Word, s: SectionId)
    requires s == 0 || s == ASMSECT_ABS
    ensures ValidLayout(ONE_SECTION) && CodeOk(ONE_SECTION, Postfix(Leaf(Value(v, s))))
    ensures Answers(Leaf(Value(v, s)), ONE_SECTION) == Success(v, s)
  {
    var code := Postfix(Leaf(Value(v, s)));
    RunThrough(ONE_SECTION, code, [REL_START, RelState([ArgForm(ONE_SECTION, v, s)], false, false, false)]);
  }

  /** The signed quotient of a section's second byte by 2^32. */
  const QUOTIENT := Bin(SIGNED_DIVISION, Leaf(Value(1, 0)), Leaf(Value(HALF, ASMSECT_ABS)))

  lemma QuotientParts(base: Bases)
    ensures ValidLayout(ONE_SECTION) && CodeOk(ONE_SECTION, Postfix(QUOTIENT)) && Outer(QUOTIENT) == QUOTIENT
    ensures Consistent(ONE_SECTION, base) && PartsKept(QUOTIENT, ONE_SECTION, base)
  {
    LeafAnswers(1, 0);
    LeafAnswers(HALF, ASMSECT_ABS);
  }

  /** At the address 2^63 + 1 that quotient is accepted as a high relocation, but its low 32 bits
      are not the high half of the address. */
  lemma NegativeAddressLosesHalf(base: Bases)
    requires base(0) == SIGN_BIT
    ensures ValidLayout(ONE_SECTION) && CodeOk(ONE_SECTION, Postfix(QUOTIENT)) && Closed(PlaceTree(QUOTIENT, base))
    ensures LoHiSpec(QUOTIENT, ONE_SECTION) == Reloc(true, 0, 1)
    ensures Meaning(PlaceTree(QUOTIENT, base)).value % HALF != Half(true, Wrap(1 + base(0)))
  {
    hide Meaning, PlaceTree, Answers, Postfix, CodeOk, ValidLayout, PartsKept, Consistent, BaseOf;
    QuotientSpec();
    QuotientParts(base);
    RelocationKeepsField(QUOTIENT, ONE_SECTION, base);
    BaseOfFirst(base);
  }

  lemma BaseOfFirst(base: Bases)
    ensures BaseOf(base, 0) == base(0)
  {
  }

  lemma QuotientSpec()
    ensures ValidLayout(ONE_SECTION) && CodeOk(ONE_SECTION, Postfix(QUOTIENT))
    ensures LoHiSpec(QUOTIENT, ONE_SECTION) == Reloc(true, 0, 1)
  {
    hide Answers;
    LeafAnswers(1, 0);
    LeafAnswers(HALF, ASMSECT_ABS);
  }
}
