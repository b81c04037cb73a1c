/** The expression parser: operator precedence with an explicit operator stack, from tokens
    to postfix code. */
module Parser {
  import opened Operators

  /** Binary operators with a sign of their own; '+', '-' and '!' are read as unary or
      binary by their place. */
  type Sign = b: BinaryOp | b != ADDITION && b != SUBTRACT && b != BIT_ORNOT witness MULTIPLY

  /** Other stands for text that starts no token of an expression, LoneEqual for a single
      '='. */
  datatype Token =
    | Operand(arg: Arg)
    | LParen | RParen
    | PlusSign | MinusSign | Bang | Tilde
    | BinSign(b: Sign)
    | Question | Colon
    | LoneEqual | Other

  datatype Expected = XT_FIRST | XT_OP | XT_ARG

  datatype Entry = Entry(op: Operator, priority: nat)

  datatype State = State(
    stack: seq<Entry>, code: Code, expected: Expected, parens: nat,
    good: bool, done: bool, pos: nat)

  const START := State([], [], XT_FIRST, 0, true, false, 0)

  /** What an operator leaves in the code when it is popped: unary plus leaves nothing. */
  function Emit(op: Operator): Code {
    if op == Unary(PLUS) then [] else [Apply(op)]
  }

  function PriorityAt(op: Operator, parens: nat): nat {
    8 * parens + Priority(op)
  }

  /** Entries of at least this priority give way to the operator. Unary operators and '?'
      associate to the right. */
  function Threshold(op: Operator, parens: nat): nat {
    PriorityAt(op, parens) + if op.Unary? || op.CHOICE_START? then 1 else 0
  }

  datatype Popped = Popped(stack: seq<Entry>, code: Code, unfinished: bool)

  /** Pops what gives way; stops at an unfinished choice, which is an error. */
  function PopFor(threshold: nat, stack: seq<Entry>, code: Code): Popped {
    if stack == [] then Popped(stack, code, false)
    else
      var n := |stack| - 1;
      if threshold > stack[n].priority then Popped(stack, code, false)
      else if stack[n].op == CHOICE_START then Popped(stack[..n], code, true)
      else PopFor(threshold, stack[..n], code + Emit(stack[n].op))
  }

  /** The loop for ':' pops down to the '?' of its own group. A deeper unfinished '?' is
      emitted like any other operator. */
  function PopForChoice(priority: nat, stack: seq<Entry>, code: Code): Popped {
    if stack == [] then Popped(stack, code, false)
    else
      var n := |stack| - 1;
      if priority > stack[n].priority ||
         (priority == stack[n].priority && stack[n].op == CHOICE_START)
      then Popped(stack, code, false)
      else PopForChoice(priority, stack[..n], code + Emit(stack[n].op))
  }

  function Bad(st: State): State {
    st.(good := false, pos := st.pos + 1)
  }

  function PushOperator(op: Operator, st: State): State {
    var expected := if op.Unary? then st.expected else XT_ARG;
    if op == CHOICE then
      var priority := PriorityAt(op, st.parens);
      var p := PopForChoice(priority, st.stack, st.code);
      var n := |p.stack| - 1;
      if p.stack == [] then
        st.(stack := [], code := p.code, expected := XT_OP, done := true)
      else if p.stack[n] != Entry(CHOICE_START, priority) then
        Bad(st.(stack := p.stack, code := p.code, expected := expected))
      else
        st.(stack := p.stack[..n] + [Entry(CHOICE, priority)], code := p.code,
            expected := expected, pos := st.pos + 1)
    else
      var p := PopFor(Threshold(op, st.parens), st.stack, st.code);
      st.(stack := p.stack + [Entry(op, PriorityAt(op, st.parens))], code := p.code,
          expected := expected, good := st.good && !p.unfinished, pos := st.pos + 1)
  }

  /** The operator a token stands for at a place; None when it stands for none there. */
  datatype Reading = NoOperator | Reads(op: Operator)

  function ReadOperator(t: Token, expected: Expected): Reading {
    match t
    case PlusSign => Reads(if expected == XT_OP then Binary(ADDITION) else Unary(PLUS))
    case MinusSign => Reads(if expected == XT_OP then Binary(SUBTRACT) else Unary(NEGATE))
    case Bang => Reads(if expected == XT_OP then Binary(BIT_ORNOT) else Unary(LOGICAL_NOT))
    case Tilde => if expected == XT_OP then NoOperator else Reads(Unary(BIT_NOT))
    case BinSign(b) => Reads(Binary(b))
    case Question => Reads(CHOICE_START)
    case Colon => Reads(CHOICE)
    case _ => NoOperator
  }

  function Advance(t: Token, st: State): State {
    match t
    case LParen =>
      if st.expected == XT_OP then Bad(st)
      else st.(expected := XT_FIRST, parens := st.parens + 1, pos := st.pos + 1)
    case RParen =>
      if st.expected != XT_OP then Bad(st)
      else if st.parens == 0 then st.(done := true)
      else st.(parens := st.parens - 1, pos := st.pos + 1)
    case Operand(arg) =>
      if st.expected != XT_OP then
        st.(code := st.code + [Push(arg)], expected := XT_OP, pos := st.pos + 1)
      else if st.parens == 0 then st.(done := true)
      else Bad(st)
    case Other =>
      if st.parens == 0 then st.(done := true)
      else if st.expected != XT_OP then
        // inside parentheses unreadable text counts as the literal zero
        Bad(st.(code := st.code + [Push(Value(0, ASMSECT_ABS))], expected := XT_OP))
      else Bad(st)
    case LoneEqual => Bad(st)
    case _ =>
      match ReadOperator(t, st.expected)
      case NoOperator => Bad(st)
      case Reads(op) =>
        if !op.Unary? && st.expected != XT_OP then Bad(st) else PushOperator(op, st)
  }

  lemma ColonReads(st: State)
    requires st.expected == XT_OP
    ensures Advance(Colon, st) == PushOperator(CHOICE, st)
  {
    hide PushOperator;
  }

  /** Feeds tokens until one of them ends the expression. */
  function Feed(ts: seq<Token>, st: State): State {
    if ts == [] || st.done then st else Feed(ts[1..], Advance(ts[0], st))
  }

  /** The operators left on the stack, top first. */
  function Flush(stack: seq<Entry>): Code {
    if stack == [] then []
    else Emit(stack[|stack| - 1].op) + Flush(stack[..|stack| - 1])
  }

  datatype ParseResult = Parsed(code: Code, consumed: nat) | Rejected

  function Conclude(st: State): ParseResult {
    if !st.good || st.parens != 0 then Rejected
    else if st.expected != XT_OP then
      if st.code != [] || st.stack != [] then Rejected else Parsed([], st.pos)
    else if exists i | 0 <= i < |st.stack| :: st.stack[i].op == CHOICE_START then Rejected
    else Parsed(st.code + Flush(st.stack), st.pos)
  }

  /** Each token read moves the position by one. */
  lemma {:induction false} FeedMoves(ts: seq<Token>, st: State)
    ensures st.pos <= Feed(ts, st).pos <= st.pos + |ts|
    ensures Conclude(Feed(ts, st)).Parsed? ==>
              Conclude(Feed(ts, st)).consumed == Feed(ts, st).pos
  {
    if ts != [] && !st.done {
      AdvanceMoves(ts[0], st);
      FeedMoves(ts[1..], Advance(ts[0], st));
    }
  }

  lemma AdvanceMoves(t: Token, st: State)
    requires !st.done
    ensures var st' := Advance(t, st);
      st'.pos == st.pos + (if st'.done then 0 else 1) && (!st.good ==> !st'.good)
  {
  }

  function ParseSpec(ts: seq<Token>): (r: ParseResult)
    ensures r.Parsed? ==> r.consumed <= |ts|
  {
    FeedMoves(ts, START);
    Conclude(Feed(ts, START))
  }

  // ----- the loops -----

  method PopLoop(threshold: nat, stack0: seq<Entry>, code0: Code) returns (p: Popped)
    ensures p == PopFor(threshold, stack0, code0)
  {
    var stack, code := stack0, code0;
    while stack != []
      invariant PopFor(threshold, stack, code) == PopFor(threshold, stack0, code0)
      decreases |stack|
    {
      var entry := stack[|stack| - 1];
      if threshold > entry.priority {
        break;
      }
      if entry.op == CHOICE_START {
        return Popped(stack[..|stack| - 1], code, true);
      }
      code := code + Emit(entry.op);
      stack := stack[..|stack| - 1];
    }
    p := Popped(stack, code, false);
  }

  method PopChoiceLoop(priority: nat, stack0: seq<Entry>, code0: Code) returns (p: Popped)
    ensures p == PopForChoice(priority, stack0, code0)
  {
    var stack, code := stack0, code0;
    while stack != []
      invariant PopForChoice(priority, stack, code) == PopForChoice(priority, stack0, code0)
      decreases |stack|
    {
      var entry := stack[|stack| - 1];
      if priority > entry.priority || (priority == entry.priority && entry.op == CHOICE_START) {
        break;
      }
      code := code + Emit(entry.op);
      stack := stack[..|stack| - 1];
    }
    p := Popped(stack, code, false);
  }

  /** Puts an operator on the stack after popping what gives way to it. */
  method PlaceOperator(op: Operator, st: State) returns (r: State)
    ensures r == PushOperator(op, st)
  {
    var expected := if op.Unary? then st.expected else XT_ARG;
    var priority := PriorityAt(op, st.parens);
    if op == CHOICE {
      var p := PopChoiceLoop(priority, st.stack, st.code);
      if p.stack == [] {
        r := st.(stack := [], code := p.code, expected := XT_OP, done := true);
      } else if p.stack[|p.stack| - 1] != Entry(CHOICE_START, priority) {
        r := Bad(st.(stack := p.stack, code := p.code, expected := expected));
      } else {
        r := st.(stack := p.stack[|p.stack| - 1 := Entry(CHOICE, priority)], code := p.code,
                 expected := expected, pos := st.pos + 1);
        assert r.stack == p.stack[..|p.stack| - 1] + [Entry(CHOICE, priority)];
      }
    } else {
      var p := PopLoop(Threshold(op, st.parens), st.stack, st.code);
      r := st.(stack := p.stack + [Entry(op, priority)], code := p.code, expected := expected,
               good := st.good && !p.unfinished, pos := st.pos + 1);
    }
  }

  /** Emits what is left on the operator stack; an unfinished choice is an error. */
  method FlushLoop(stack0: seq<Entry>, code0: Code) returns (code: Code, finished: bool)
    ensures finished <==> forall i | 0 <= i < |stack0| :: stack0[i].op != CHOICE_START
    ensures finished ==> code == code0 + Flush(stack0)
  {
    var stack := stack0;
    code := code0;
    while stack != []
      invariant |stack| <= |stack0| && stack == stack0[..|stack|]
      invariant code + Flush(stack) == code0 + Flush(stack0)
      invariant forall i | |stack| <= i < |stack0| :: stack0[i].op != CHOICE_START
      decreases |stack|
    {
      var entry := stack[|stack| - 1];
      if entry.op == CHOICE_START {
        assert stack0[|stack| - 1].op == CHOICE_START;
        return code, false;
      }
      assert code + Flush(stack) == code + Emit(entry.op) + Flush(stack[..|stack| - 1]);
      code := code + Emit(entry.op);
      stack := stack[..|stack| - 1];
    }
    finished := true;
  }

  method Parse(ts: seq<Token>) returns (r: ParseResult)
    ensures r == ParseSpec(ts)
  {
    hide PushOperator, Flush;
    var st := START;
    while st.pos < |ts| && !st.done
      invariant st.pos <= |ts|
      invariant Feed(ts[st.pos..], st) == Feed(ts, START)
      decreases |ts| - st.pos, !st.done
    {
      var t := ts[st.pos];
      assert ts[st.pos..][1..] == ts[st.pos + 1..];
      ghost var next := Advance(t, st);
      AdvanceMoves(t, st);
      var reading := ReadOperator(t, st.expected);
      if reading.Reads? && (reading.op.Unary? || st.expected == XT_OP) {
        st := PlaceOperator(reading.op, st);
      } else {
        st := Advance(t, st);
      }
      assert st == next;
    }
    if !st.good || st.parens != 0 {
      return Rejected;
    }
    if st.expected != XT_OP {
      return if st.code != [] || st.stack != [] then Rejected else Parsed([], st.pos);
    }
    var code, finished := FlushLoop(st.stack, st.code);
    r := if finished then Parsed(code, st.pos) else Rejected;
  }
}
