/** When accepted text compiles to well-formed code: exactly when every '?' is closed in its
    own pair of parentheses. */
module ParserDepth {
  import opened Operators
  import opened ExprTree
  import opened ParserRoundTrip
  import opened ParserContexts
  import opened ParserSoundness
  import P = Parser

  /** Values that a waiting operator will still take from the stack, less the one it yields. */
  function Weight(op: Operator): nat {
    match op
    case Unary(_) => 0
    case Binary(_) => 1
    case CHOICE => 2
    case CHOICE_START => 1
  }

  function TotalWeight(stack: seq<P.Entry>): nat {
    if stack == [] then 0
    else Weight(stack[|stack| - 1].op) + TotalWeight(stack[..|stack| - 1])
  }

  /** Unfinished choices that were emitted. */
  function Starts(code: Code): nat {
    if code == [] then 0
    else (if code[0] == Apply(CHOICE_START) then 1 else 0) + Starts(code[1..])
  }

  lemma {:induction false} StartsAppend(a: Code, b: Code)
    ensures Starts(a + b) == Starts(a) + Starts(b)
  {
    if a == [] {
      assert a + b == b;
    } else {
      assert (a + b)[1..] == a[1..] + b;
      StartsAppend(a[1..], b);
    }
  }

  /** Depth of the values computed by the code, not counting emitted unfinished choices. */
  function Depth(code: Code): int {
    DepthAfter(code, 0) - Starts(code)
  }

  lemma EmitDepth(code: Code, op: Operator)
    ensures Depth(code + P.Emit(op)) == Depth(code) - Weight(op)
  {
    DepthAppend(code, P.Emit(op), 0);
    StartsAppend(code, P.Emit(op));
    if op == Unary(PLUS) {
      assert code + [] == code;
    } else {
      assert P.Emit(op)[1..] == [];
    }
  }

  lemma PushDepth(code: Code, arg: Arg)
    ensures Depth(code + [Push(arg)]) == Depth(code) + 1
    ensures Starts(code + [Push(arg)]) == Starts(code)
  {
    DepthAppend(code, [Push(arg)], 0);
    StartsAppend(code, [Push(arg)]);
    assert [Push(arg)][1..] == [];
  }

  lemma {:induction false} PopForDepth(threshold: nat, stack: seq<P.Entry>, code: Code)
    ensures var p := P.PopFor(threshold, stack, code);
      && Starts(p.code) >= Starts(code)
      && |p.stack| <= |stack| && p.stack == stack[..|p.stack|]
      && (!p.unfinished ==>
            Depth(p.code) - TotalWeight(p.stack) == Depth(code) - TotalWeight(stack) &&
            Resists(p.stack, threshold))
    decreases |stack|
  {
    if stack != [] {
      var n := |stack| - 1;
      EmitDepth(code, stack[n].op);
      StartsAppend(code, P.Emit(stack[n].op));
      PopForDepth(threshold, stack[..n], code + P.Emit(stack[n].op));
    }
  }

  lemma {:induction false} PopChoiceDepth(priority: nat, stack: seq<P.Entry>, code: Code)
    ensures var p := P.PopForChoice(priority, stack, code);
      && Starts(p.code) >= Starts(code)
      && |p.stack| <= |stack| && p.stack == stack[..|p.stack|]
      && Depth(p.code) - TotalWeight(p.stack) == Depth(code) - TotalWeight(stack)
    decreases |stack|
  {
    if stack != [] {
      var n := |stack| - 1;
      EmitDepth(code, stack[n].op);
      StartsAppend(code, P.Emit(stack[n].op));
      PopChoiceDepth(priority, stack[..n], code + P.Emit(stack[n].op));
    }
  }

  lemma {:induction false} FlushDepth(stack: seq<P.Entry>, code: Code)
    ensures Depth(code + P.Flush(stack)) == Depth(code) - TotalWeight(stack)
    ensures Starts(code + P.Flush(stack)) >= Starts(code)
    decreases |stack|
  {
    if stack == [] {
      assert code + [] == code;
    } else {
      var n := |stack| - 1;
      var e := P.Emit(stack[n].op);
      EmitDepth(code, stack[n].op);
      FlushDepth(stack[..n], code + e);
      StartsAppend(code, e);
      Regroup(code, e, P.Flush(stack[..n]), []);
    }
  }

  /** The code computes one value for what has been read, and one for every operand that a
      waiting operator still lacks. */
  predicate Balanced(st: P.State) {
    st.good ==>
      Depth(st.code) == TotalWeight(st.stack) + if st.expected == P.XT_OP then 1 else 0
  }

  /** Waiting operators grow stronger toward the top. */
  predicate Sorted(stack: seq<P.Entry>) {
    forall i, j | 0 <= i <= j < |stack| :: stack[i].priority <= stack[j].priority
  }

  predicate Healthy(st: P.State) {
    Balanced(st) && (st.good ==> Sorted(st.stack))
  }

  lemma WeightOnTop(stack: seq<P.Entry>, e: P.Entry)
    ensures TotalWeight(stack + [e]) == TotalWeight(stack) + Weight(e.op)
  {
    assert (stack + [e])[..|stack|] == stack;
  }

  lemma OperatorHealthy(op: Operator, st: P.State)
    requires Healthy(st) && (!op.Unary? ==> st.expected == P.XT_OP)
    ensures Healthy(P.PushOperator(op, st))
    ensures Starts(P.PushOperator(op, st).code) >= Starts(st.code)
  {
    hide Depth, Starts, TotalWeight, P.PopFor, P.PopForChoice, P.PriorityAt;
    if op == CHOICE {
      ColonHealthy(st);
    } else {
      PopForDepth(P.Threshold(op, st.parens), st.stack, st.code);
      var p := P.PopFor(P.Threshold(op, st.parens), st.stack, st.code);
      WeightOnTop(p.stack, P.Entry(op, P.PriorityAt(op, st.parens)));
    }
  }

  lemma ColonHealthy(st: P.State)
    requires Healthy(st) && st.expected == P.XT_OP
    ensures Healthy(P.PushOperator(CHOICE, st))
    ensures Starts(P.PushOperator(CHOICE, st).code) >= Starts(st.code)
  {
    hide Depth, Starts, TotalWeight, P.PopForChoice, P.PriorityAt;
    var priority := P.PriorityAt(CHOICE, st.parens);
    PopChoiceDepth(priority, st.stack, st.code);
    var p := P.PopForChoice(priority, st.stack, st.code);
    if p.stack != [] {
      var n := |p.stack| - 1;
      assert p.stack == p.stack[..n] + [p.stack[n]];
      WeightOnTop(p.stack[..n], p.stack[n]);
      WeightOnTop(p.stack[..n], P.Entry(CHOICE, priority));
    } else {
      NoWeight();
    }
  }

  lemma NoWeight()
    ensures TotalWeight([]) == 0
  {
  }

  lemma AdvanceHealthy(t: P.Token, st: P.State)
    requires Healthy(st) && !st.done
    ensures Healthy(P.Advance(t, st))
    ensures Starts(P.Advance(t, st).code) >= Starts(st.code)
  {
    match t
    case Operand(arg) => PushDepth(st.code, arg);
    case Other => PushDepth(st.code, Value(0, ASMSECT_ABS));
    case LParen =>
    case RParen =>
    case LoneEqual =>
    case _ =>
      var reading := P.ReadOperator(t, st.expected);
      if reading.Reads? && (reading.op.Unary? || st.expected == P.XT_OP) {
        OperatorHealthy(reading.op, st);
      }
  }

  // ----- a stranded choice -----

  /** An unfinished '?' of a group that has been closed waits on the stack. */
  ghost predicate Stranded(st: P.State) {
    st.expected == P.XT_OP &&
    exists i :: 0 <= i < |st.stack| && st.stack[i].op == CHOICE_START &&
                st.stack[i].priority >= 8 * st.parens + 8
  }

  ghost predicate Lost(st: P.State) {
    Starts(st.code) > 0 || Stranded(st)
  }

  lemma {:induction false} PopMeetsChoice(threshold: nat, stack: seq<P.Entry>, code: Code, i: nat)
    requires Sorted(stack) && i < |stack|
    requires stack[i].op == CHOICE_START && stack[i].priority >= threshold
    ensures P.PopFor(threshold, stack, code).unfinished
    decreases |stack|
  {
    var n := |stack| - 1;
    if stack[n].op != CHOICE_START {
      PopMeetsChoice(threshold, stack[..n], code + P.Emit(stack[n].op), i);
    }
  }

  lemma {:induction false} ColonEmitsChoice(priority: nat, stack: seq<P.Entry>, code: Code, i: nat)
    requires Sorted(stack) && i < |stack|
    requires stack[i].op == CHOICE_START && stack[i].priority > priority
    ensures Starts(P.PopForChoice(priority, stack, code).code) > 0
    decreases |stack|
  {
    var n := |stack| - 1;
    var e := P.Emit(stack[n].op);
    StartsAppend(code, e);
    if i == n {
      assert e[1..] == [];
      PopChoiceDepth(priority, stack[..n], code + e);
    } else {
      ColonEmitsChoice(priority, stack[..n], code + e, i);
    }
  }

  lemma LostStaysLost(t: P.Token, st: P.State)
    requires Healthy(st) && !st.done && st.good && Lost(st)
    ensures var st' := P.Advance(t, st); st'.good ==> Lost(st')
  {
    hide Starts, Depth, TotalWeight, P.PopFor, P.PopForChoice;
    AdvanceHealthy(t, st);
    if Starts(st.code) == 0 {
      var i :| 0 <= i < |st.stack| && st.stack[i].op == CHOICE_START &&
               st.stack[i].priority >= 8 * st.parens + 8;
      var reading := P.ReadOperator(t, st.expected);
      if reading.Reads? {
        var op := reading.op;
        if op == CHOICE {
          ColonEmitsChoice(8 * st.parens, st.stack, st.code, i);
        } else {
          PopMeetsChoice(P.Threshold(op, st.parens), st.stack, st.code, i);
        }
      } else if t == P.RParen && st.parens > 0 {
        var st' := P.Advance(t, st);
        assert st'.stack[i].priority >= 8 * st'.parens + 8;
      }
    }
  }

  lemma LostAtEnd(st: P.State)
    requires Healthy(st) && Lost(st) && P.Conclude(st).Parsed?
    ensures !WellFormed(P.Conclude(st).code)
  {
    if st.expected == P.XT_OP {
      FlushDepth(st.stack, st.code);
    }
  }

  // ----- the whole run -----

  lemma {:induction false} RunLost(ts: seq<P.Token>, st: P.State)
    requires Healthy(st) && Lost(st) && P.Conclude(P.Feed(ts, st)).Parsed?
    ensures !WellFormed(P.Conclude(P.Feed(ts, st)).code)
  {
    if !st.good {
      BadStaysBad(ts, st);
    } else if ts == [] || st.done {
      LostAtEnd(st);
    } else {
      var st' := P.Advance(ts[0], st);
      AdvanceHealthy(ts[0], st);
      LostStaysLost(ts[0], st);
      if !st'.good {
        BadStaysBad(ts[1..], st');
      } else {
        RunLost(ts[1..], st');
      }
    }
  }

  /** A parenthesis that closes over an unfinished '?' strands it. */
  lemma StoppedByClose(st: P.State, t: P.Token)
    requires t == P.RParen && st.good && !st.done
    requires var st' := P.Advance(t, st); st'.good && !st'.done
    ensures st.expected == P.XT_OP && st.parens > 0
  {
  }

  lemma BreakStrands(st: P.State, ts: seq<P.Token>)
    requires Invariant(st, ts) && st.expected == P.XT_OP && st.parens > 0
    requires !ChoicesClosed(ts + [P.RParen])
    ensures Stranded(P.Advance(P.RParen, st))
  {
    var fs, e :| Holding(st, Sum(fs), e, ts) && Level(e) == 7;
    var fs1, e1 := Reduce(st, fs, e, ts, 0);
    var n := |fs1| - 1;
    QuestionIsOpen(st, Sum(fs1[..n]), fs1[n], e1, ts);
    SumIsSane(fs1);
  }

  lemma QuestionIsOpen(st: P.State, s: Summary, f: Frame, e: Cst, ts: seq<P.Token>)
    requires Holding(st, Grow(s, f), e, ts) && !Completes(f, 0) && st.parens > 0
    requires !ChoicesClosed(ts + [P.RParen])
    ensures Stranded(P.Advance(P.RParen, st))
  {
    hide Enough, Level, Emitted, Pending, Tokens, ScanAll, P.PushOperator, FrameCode, FrameTokens, FrameSlot, FrameOk;
    ScanSnoc(ts, P.RParen);
    if f.FQuestion? {
      var st' := P.Advance(P.RParen, st);
      var k := |s.entries|;
      assert st'.stack[k] == P.Entry(CHOICE_START, 8 * st.parens);
      assert 0 <= k < |st'.stack| && st'.stack[k].op == CHOICE_START &&
             st'.stack[k].priority >= 8 * st'.parens + 8;
    }
  }

  lemma OnlyCloseBreaks(ts: seq<P.Token>, t: P.Token)
    requires ChoicesClosed(ts) && !ChoicesClosed(ts + [t])
    ensures t == P.RParen
  {
    ScanSnoc(ts, t);
  }

  lemma InvariantClosed(st: P.State, ts: seq<P.Token>)
    requires Invariant(st, ts)
    ensures ChoicesClosed(ts)
  {
  }

  lemma {:induction false} RunBreaks(all: seq<P.Token>, i: nat, st: P.State)
    requires i <= |all| && Invariant(st, all[..i]) && Healthy(st)
    requires P.Conclude(P.Feed(all[i..], st)).Parsed?
    requires var n := P.Conclude(P.Feed(all[i..], st)).consumed;
             n <= |all| && !ChoicesClosed(all[..n])
    ensures !WellFormed(P.Conclude(P.Feed(all[i..], st)).code)
    decreases |all| - i
  {
    hide P.Advance, P.Feed, P.Conclude, Invariant, ScanAll, WellFormed, Healthy;
    InvariantPos(st, all[..i]);
    InvariantClosed(st, all[..i]);
    P.FeedMoves(all[i..], st);
    var t := all[i];
    var st' := P.Advance(t, st);
    P.AdvanceMoves(t, st);
    AdvanceHealthy(t, st);
    RunStep(all, i, st);
    if !st'.good {
      BadStaysBad(all[i + 1..], st');
    } else if !st'.done {
      if ChoicesClosed(all[..i + 1]) {
        StepOutcome(st, all[..i], t);
        RunBreaks(all, i + 1, st');
      } else {
        OnlyCloseBreaks(all[..i], t);
        StoppedByClose(st, t);
        BreakStrands(st, all[..i]);
        RunLost(all[i + 1..], st');
      }
    }
  }

  /** MAIN: accepted text compiles to code that leaves exactly one value and never pops an
      empty stack, if and only if no parenthesis closes over an unfinished '?'. */
  lemma WellFormedIffClosed(ts: seq<P.Token>)
    requires P.ParseSpec(ts).Parsed? && P.ParseSpec(ts).consumed > 0
    ensures WellFormed(P.ParseSpec(ts).code) <==> ChoicesClosed(ts[..P.ParseSpec(ts).consumed])
  {
    if ChoicesClosed(ts[..P.ParseSpec(ts).consumed]) {
      AcceptedIsSentence(ts);
      var e :| Enough(e) && Postfix(Strip(e)) == P.ParseSpec(ts).code;
      PostfixRuns(Strip(e), 0);
    } else {
      assert Sum([]) == NOTHING;
      IsWaiting(P.START, [], []);
      assert ts[0..] == ts && ts[..0] == [];
      RunBreaks(ts, 0, P.START);
    }
  }

  /** The text a ? ( b ? c ) : d is accepted, and its code leaves two values. */
  lemma UnclosedChoiceIsAccepted(a: Arg, b: Arg, c: Arg, d: Arg)
    ensures var ts := [P.Operand(a), P.Question, P.LParen, P.Operand(b), P.Question, P.Operand(c),
                       P.RParen, P.Colon, P.Operand(d)];
      P.ParseSpec(ts) == P.Parsed(
        [Push(a), Push(b), Push(c), Apply(CHOICE_START), Push(d), Apply(CHOICE)], 9)
    ensures DepthAfter([Push(a), Push(b), Push(c), Apply(CHOICE_START), Push(d), Apply(CHOICE)], 0) == 2
  {
    var q0, q8 := P.Entry(CHOICE_START, 0), P.Entry(CHOICE_START, 8);
    var s3 := P.State([q0], [Push(a)], P.XT_FIRST, 1, true, false, 3);
    var s6 := P.State([q0, q8], [Push(a), Push(b), Push(c)], P.XT_OP, 1, true, false, 6);
    var s9 := P.State([P.Entry(CHOICE, 0)], [Push(a), Push(b), Push(c), Apply(CHOICE_START), Push(d)],
                      P.XT_OP, 0, true, false, 9);
    var t1, t2, t3 := [P.Operand(a), P.Question, P.LParen], [P.Operand(b), P.Question, P.Operand(c)],
                      [P.RParen, P.Colon, P.Operand(d)];
    FirstThree(a);
    MiddleThree(a, b, c);
    LastThree(a, b, c, d);
    FeedThen(t1, t2, P.START, s3, s6);
    FeedThen(t1 + t2, t3, P.START, s6, s9);
    assert t1 + t2 + t3 == [P.Operand(a), P.Question, P.LParen, P.Operand(b), P.Question, P.Operand(c),
                            P.RParen, P.Colon, P.Operand(d)];
    assert s9.stack[..0] == [];
    assert P.Flush(s9.stack) == [Apply(CHOICE)] + P.Flush([]);
    SixSteps([Push(a), Push(b), Push(c), Apply(CHOICE_START), Push(d), Apply(CHOICE)]);
  }

  lemma FirstThree(a: Arg)
    ensures P.Feed([P.Operand(a), P.Question, P.LParen], P.START) ==
            P.State([P.Entry(CHOICE_START, 0)], [Push(a)], P.XT_FIRST, 1, true, false, 3)
  {
    FeedThree(P.Operand(a), P.Question, P.LParen, P.START);
  }

  lemma MiddleThree(a: Arg, b: Arg, c: Arg)
    ensures P.Feed([P.Operand(b), P.Question, P.Operand(c)],
                   P.State([P.Entry(CHOICE_START, 0)], [Push(a)], P.XT_FIRST, 1, true, false, 3)) ==
            P.State([P.Entry(CHOICE_START, 0), P.Entry(CHOICE_START, 8)],
                    [Push(a), Push(b), Push(c)], P.XT_OP, 1, true, false, 6)
  {
    FeedThree(P.Operand(b), P.Question, P.Operand(c),
              P.State([P.Entry(CHOICE_START, 0)], [Push(a)], P.XT_FIRST, 1, true, false, 3));
  }

  lemma LastThree(a: Arg, b: Arg, c: Arg, d: Arg)
    ensures P.Feed([P.RParen, P.Colon, P.Operand(d)],
                   P.State([P.Entry(CHOICE_START, 0), P.Entry(CHOICE_START, 8)],
                           [Push(a), Push(b), Push(c)], P.XT_OP, 1, true, false, 6)) ==
            P.State([P.Entry(CHOICE, 0)], [Push(a), Push(b), Push(c), Apply(CHOICE_START), Push(d)],
                    P.XT_OP, 0, true, false, 9)
  {
    var q0, q8 := P.Entry(CHOICE_START, 0), P.Entry(CHOICE_START, 8);
    var code := [Push(a), Push(b), Push(c)];
    var s6 := P.State([q0, q8], code, P.XT_OP, 1, true, false, 6);
    assert [q0, q8][..1] == [q0] && [q0][..0] == [];
    assert P.PopForChoice(0, [q0, q8], code) == P.Popped([q0], code + [Apply(CHOICE_START)], false);
    FeedThree(P.RParen, P.Colon, P.Operand(d), s6);
  }

  lemma SixSteps(code: Code)
    requires |code| == 6
    ensures DepthAfter(code, 0) == 6 - Arity(code[0]) - Arity(code[1]) - Arity(code[2])
                                     - Arity(code[3]) - Arity(code[4]) - Arity(code[5])
  {
    DepthAppend(code[..3], code[3..], 0);
    assert code == code[..3] + code[3..];
    ThreeSteps(code[..3], 0);
    ThreeSteps(code[3..], DepthAfter(code[..3], 0));
  }

  lemma ThreeSteps(code: Code, d: int)
    requires |code| == 3
    ensures DepthAfter(code, d) == d + 3 - Arity(code[0]) - Arity(code[1]) - Arity(code[2])
  {
    assert code[1..][1..] == code[2..] && code[2..][1..] == [];
    var d1 := d - Arity(code[0]) + 1;
    assert DepthAfter(code, d) == DepthAfter(code[1..], d1);
    assert DepthAfter(code[1..], d1) == DepthAfter(code[2..], d1 - Arity(code[1]) + 1);
  }

  lemma FeedThree(t1: P.Token, t2: P.Token, t3: P.Token, st: P.State)
    requires !st.done && !P.Advance(t1, st).done && !P.Advance(t2, P.Advance(t1, st)).done
    ensures P.Feed([t1, t2, t3], st) == P.Advance(t3, P.Advance(t2, P.Advance(t1, st)))
  {
    hide P.Advance, P.Feed;
    var s1 := P.Advance(t1, st);
    var s2 := P.Advance(t2, s1);
    FeedOne(t1, st);
    FeedOne(t2, s1);
    FeedOne(t3, s2);
    FeedThen([t1], [t2], st, s1, s2);
    FeedThen([t1] + [t2], [t3], st, s2, P.Advance(t3, s2));
    assert [t1, t2, t3] == [t1] + [t2] + [t3];
  }
}
