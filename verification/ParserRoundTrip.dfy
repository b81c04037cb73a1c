/** Printing and parsing: a parenthesised expression is parsed to its postfix. */
module ParserRoundTrip {
  import opened Operators
  import opened ExprTree
  import P = Parser

  /** Expressions as written, parentheses included. */
  datatype Cst =
    | Atom(arg: Arg)
    | Group(x: Cst)
    | Prefix(u: UnaryOp, x: Cst)
    | Infix(b: BinaryOp, l: Cst, r: Cst)
    | Ternary(c: Cst, t: Cst, f: Cst)

  function Strip(e: Cst): Tree {
    match e
    case Atom(arg) => Leaf(arg)
    case Group(x) => Strip(x)
    case Prefix(u, x) => Un(u, Strip(x))
    case Infix(b, l, r) => Bin(b, Strip(l), Strip(r))
    case Ternary(c, t, f) => Cond(Strip(c), Strip(t), Strip(f))
  }

  function Level(e: Cst): nat {
    match e
    case Atom(_) => 7
    case Group(_) => 7
    case Prefix(_, _) => 6
    case Infix(b, _, _) => BinaryPriority(b)
    case Ternary(_, _, _) => 0
  }

  /** Enough parentheses: operands of an operator bind at least as strongly as it does,
      right operands of binary operators and conditions of choices more strongly. */
  predicate Enough(e: Cst) {
    match e
    case Atom(_) => true
    case Group(x) => Enough(x)
    case Prefix(_, x) => Enough(x) && Level(x) >= 6
    case Infix(b, l, r) =>
      Enough(l) && Enough(r) && Level(l) >= BinaryPriority(b) && Level(r) > BinaryPriority(b)
    case Ternary(c, t, f) => Enough(c) && Enough(t) && Enough(f) && Level(c) >= 1
  }

  function UnaryToken(u: UnaryOp): P.Token {
    match u
    case NEGATE => P.MinusSign
    case BIT_NOT => P.Tilde
    case LOGICAL_NOT => P.Bang
    case PLUS => P.PlusSign
  }

  function BinaryToken(b: BinaryOp): P.Token {
    match b
    case ADDITION => P.PlusSign
    case SUBTRACT => P.MinusSign
    case BIT_ORNOT => P.Bang
    case _ => P.BinSign(b)
  }

  function Tokens(e: Cst): seq<P.Token> {
    match e
    case Atom(arg) => [P.Operand(arg)]
    case Group(x) => [P.LParen] + Tokens(x) + [P.RParen]
    case Prefix(u, x) => [UnaryToken(u)] + Tokens(x)
    case Infix(b, l, r) => Tokens(l) + [BinaryToken(b)] + Tokens(r)
    case Ternary(c, t, f) => Tokens(c) + [P.Question] + Tokens(t) + [P.Colon] + Tokens(f)
  }

  // ----- printing with the fewest parentheses -----

  function Wrapped(e: Cst, level: nat): Cst {
    if Level(e) >= level then e else Group(e)
  }

  function Print(e: Tree): Cst {
    match e
    case Leaf(arg) => Atom(arg)
    case Un(u, x) => Prefix(u, Wrapped(Print(x), 6))
    case Bin(b, l, r) =>
      Infix(b, Wrapped(Print(l), BinaryPriority(b)), Wrapped(Print(r), BinaryPriority(b) + 1))
    case Cond(c, t, f) => Ternary(Wrapped(Print(c), 1), Print(t), Print(f))
  }

  lemma {:induction false} PrintIsEnough(e: Tree)
    ensures Enough(Print(e)) && Strip(Print(e)) == e
  {
    match e
    case Leaf(_) =>
    case Un(_, x) => PrintIsEnough(x);
    case Bin(_, l, r) => PrintIsEnough(l); PrintIsEnough(r);
    case Cond(c, t, f) => PrintIsEnough(c); PrintIsEnough(t); PrintIsEnough(f);
  }

  // ----- the parser's state after an expression -----

  /** Operators of an expression that still wait on the stack once it has been read at a
      parenthesis depth. */
  function Pending(e: Cst, p: nat): seq<P.Entry> {
    match e
    case Atom(_) => []
    case Group(x) => Pending(x, p + 1)
    case Prefix(u, x) => [P.Entry(Unary(u), 8 * p + 6)] + Pending(x, p)
    case Infix(b, _, r) => [P.Entry(Binary(b), 8 * p + BinaryPriority(b))] + Pending(r, p)
    case Ternary(_, _, f) => [P.Entry(CHOICE, 8 * p)] + Pending(f, p)
  }

  /** The code already emitted by then. */
  function Emitted(e: Cst): Code {
    match e
    case Atom(arg) => [Push(arg)]
    case Group(x) => Emitted(x)
    case Prefix(_, x) => Emitted(x)
    case Infix(_, l, r) => Postfix(Strip(l)) + Emitted(r)
    case Ternary(c, t, f) => Postfix(Strip(c)) + Postfix(Strip(t)) + Emitted(f)
  }

  lemma {:induction false} FlushBottom(x: P.Entry, s: seq<P.Entry>)
    ensures P.Flush([x] + s) == P.Flush(s) + P.Emit(x.op)
  {
    var all := [x] + s;
    if s == [] {
      assert all[..0] == [];
      assert P.Flush(all) == P.Emit(x.op) + [];
    } else {
      assert all[..|all| - 1] == [x] + s[..|s| - 1];
      FlushBottom(x, s[..|s| - 1]);
    }
  }

  lemma Regroup<T>(a: seq<T>, b: seq<T>, c: seq<T>, d: seq<T>)
    ensures (a + b) + (c + d) == a + (b + c) + d
    ensures (a + b) + c == a + (b + c)
  {
  }

  lemma FlushOnto(a: Code, emitted: Code, x: P.Entry, s: seq<P.Entry>)
    ensures (a + emitted) + P.Flush([x] + s) == a + (emitted + P.Flush(s)) + P.Emit(x.op)
  {
    FlushBottom(x, s);
    Regroup(a, emitted, P.Flush(s), P.Emit(x.op));
  }

  lemma {:induction false} FlushPending(e: Cst, p: nat)
    ensures Emitted(e) + P.Flush(Pending(e, p)) == Postfix(Strip(e))
  {
    hide P.Flush, P.Emit;
    match e
    case Atom(_) => FlushNothing();
    case Group(x) => FlushPending(x, p + 1);
    case Prefix(u, x) =>
      FlushPending(x, p);
      FlushOnto([], Emitted(x), P.Entry(Unary(u), 8 * p + 6), Pending(x, p));
      EmitUnary(u);
      assert [] + Emitted(x) == Emitted(x) && [] + Postfix(Strip(x)) == Postfix(Strip(x));
    case Infix(b, l, r) =>
      FlushPending(r, p);
      FlushOnto(Postfix(Strip(l)), Emitted(r), P.Entry(Binary(b), 8 * p + BinaryPriority(b)), Pending(r, p));
      EmitOther(Binary(b));
    case Ternary(c, t, f) =>
      FlushPending(f, p);
      FlushOnto(Postfix(Strip(c)) + Postfix(Strip(t)), Emitted(f), P.Entry(CHOICE, 8 * p), Pending(f, p));
      EmitOther(CHOICE);
  }

  lemma EmitUnary(u: UnaryOp)
    ensures P.Emit(Unary(u)) == if u == PLUS then [] else [Apply(Unary(u))]
  {
  }

  lemma EmitOther(op: Operator)
    requires !op.Unary?
    ensures P.Emit(op) == [Apply(op)]
  {
  }

  lemma FlushNothing()
    ensures P.Flush([]) == []
  {
  }

  /** Waiting operators bind at least as strongly as the expression, and all choices among
      them are finished. */
  lemma {:induction false} PendingAbove(e: Cst, p: nat, level: nat)
    requires Enough(e) && level <= Level(e) && level <= 7
    ensures forall i | 0 <= i < |Pending(e, p)| ::
              Pending(e, p)[i].priority >= 8 * p + level && Pending(e, p)[i].op != CHOICE_START
  {
    match e
    case Atom(_) =>
    case Group(x) => PendingAbove(x, p + 1, 0);
    case Prefix(_, x) => PendingAbove(x, p, 6);
    case Infix(b, _, r) => PendingAbove(r, p, BinaryPriority(b));
    case Ternary(_, _, f) => PendingAbove(f, p, 0);
  }

  // ----- popping exactly the waiting operators -----

  predicate Gives(s: seq<P.Entry>, threshold: nat) {
    forall i | 0 <= i < |s| :: s[i].priority >= threshold && s[i].op != CHOICE_START
  }

  predicate Resists(k: seq<P.Entry>, threshold: nat) {
    k == [] || k[|k| - 1].priority < threshold
  }

  lemma {:induction false} PopExactly(threshold: nat, k: seq<P.Entry>, s: seq<P.Entry>, code: Code)
    requires Gives(s, threshold) && Resists(k, threshold)
    ensures P.PopFor(threshold, k + s, code) == P.Popped(k, code + P.Flush(s), false)
    decreases |s|
  {
    if s == [] {
      assert k + s == k && code + [] == code;
    } else {
      var n := |s| - 1;
      assert (k + s)[..|k + s| - 1] == k + s[..n];
      assert (k + s)[|k + s| - 1] == s[n];
      PopExactly(threshold, k, s[..n], code + P.Emit(s[n].op));
      assert code + P.Emit(s[n].op) + P.Flush(s[..n]) == code + (P.Emit(s[n].op) + P.Flush(s[..n]));
    }
  }

  /** The place at which the loop for ':' stops. */
  predicate Stops(k: seq<P.Entry>, priority: nat) {
    k == [] || k[|k| - 1].priority < priority || k[|k| - 1] == P.Entry(CHOICE_START, priority)
  }

  lemma {:induction false} PopExactlyForChoice(priority: nat, k: seq<P.Entry>, s: seq<P.Entry>, code: Code)
    requires Gives(s, priority) && Stops(k, priority)
    ensures P.PopForChoice(priority, k + s, code) == P.Popped(k, code + P.Flush(s), false)
    decreases |s|
  {
    if s == [] {
      assert k + s == k && code + [] == code;
    } else {
      var n := |s| - 1;
      assert (k + s)[..|k + s| - 1] == k + s[..n];
      assert (k + s)[|k + s| - 1] == s[n];
      PopExactlyForChoice(priority, k, s[..n], code + P.Emit(s[n].op));
      assert code + P.Emit(s[n].op) + P.Flush(s[..n]) == code + (P.Emit(s[n].op) + P.Flush(s[..n]));
    }
  }

  // ----- reading an expression -----

  lemma {:induction false} FeedAppend(a: seq<P.Token>, b: seq<P.Token>, st: P.State)
    ensures P.Feed(a + b, st) == P.Feed(b, P.Feed(a, st))
  {
    if a == [] {
      assert a + b == b;
    } else if !st.done {
      assert (a + b)[1..] == a[1..] + b;
      FeedAppend(a[1..], b, P.Advance(a[0], st));
    }
  }

  lemma FeedOne(t: P.Token, st: P.State)
    requires !st.done
    ensures P.Feed([t], st) == P.Advance(t, st)
  {
    assert [t][1..] == [];
  }

  /** The stack top does not interfere with an expression of this level. */
  predicate Fits(k: seq<P.Entry>, p: nat, level: nat) {
    Resists(k, 8 * p + if level == 0 then 1 else if level >= 6 then 7 else level)
  }

  function After(e: Cst, st: P.State): P.State {
    st.(stack := st.stack + Pending(e, st.parens), code := st.code + Emitted(e),
        expected := P.XT_OP, pos := st.pos + |Tokens(e)|)
  }

  /** An operator that follows a complete expression pops just that expression's waiting
      operators: its whole postfix has been emitted. */
  lemma OperatorAfter(e: Cst, op: Operator, st: P.State)
    requires Enough(e) && (op.Binary? || op == CHOICE_START)
    requires Level(e) >= (if op.Binary? then BinaryPriority(op.b) else 1)
    requires Resists(st.stack, P.Threshold(op, st.parens))
    ensures P.PushOperator(op, After(e, st)) ==
            st.(stack := st.stack + [P.Entry(op, P.PriorityAt(op, st.parens))],
                code := st.code + Postfix(Strip(e)), expected := P.XT_ARG,
                pos := st.pos + |Tokens(e)| + 1)
  {
    hide Pending, Emitted, Postfix, Strip, Tokens, Enough, P.PopFor;
    var p := st.parens;
    PendingAbove(e, p, if op.Binary? then BinaryPriority(op.b) else 1);
    PopExactly(P.Threshold(op, p), st.stack, Pending(e, p), st.code + Emitted(e));
    EmittedAfter(e, p, st.code);
  }

  lemma EmittedAfter(e: Cst, p: nat, code: Code)
    ensures code + Emitted(e) + P.Flush(Pending(e, p)) == code + Postfix(Strip(e))
  {
    FlushPending(e, p);
    Regroup(code, Emitted(e), P.Flush(Pending(e, p)), []);
  }

  /** The loop for ':' pops just the waiting operators of a complete expression. */
  lemma PopWhole(e: Cst, p: nat, k: seq<P.Entry>, code: Code)
    requires Enough(e) && Stops(k, 8 * p)
    ensures P.PopForChoice(P.PriorityAt(CHOICE, p), k + Pending(e, p), code + Emitted(e))
            == P.Popped(k, code + Postfix(Strip(e)), false)
  {
    hide P.PopForChoice, Pending, Emitted, Postfix, Strip;
    PendingAbove(e, p, 0);
    PopExactlyForChoice(8 * p, k, Pending(e, p), code + Emitted(e));
    EmittedAfter(e, p, code);
    assert P.PriorityAt(CHOICE, p) == 8 * p;
  }

  /** A ':' after a complete middle operand meets its '?'. */
  lemma ColonAfter(e: Cst, st: P.State)
    requires Enough(e)
    requires st.stack != [] && st.stack[|st.stack| - 1] == P.Entry(CHOICE_START, 8 * st.parens)
    ensures P.PushOperator(CHOICE, After(e, st)) ==
            st.(stack := st.stack[..|st.stack| - 1] + [P.Entry(CHOICE, 8 * st.parens)],
                code := st.code + Postfix(Strip(e)), expected := P.XT_ARG,
                pos := st.pos + |Tokens(e)| + 1)
  {
    hide P.PopForChoice, Pending, Emitted, Postfix, Strip, Tokens;
    PopWhole(e, st.parens, st.stack, st.code);
    assert P.PriorityAt(CHOICE, st.parens) == 8 * st.parens;
  }

  lemma FeedThen(a: seq<P.Token>, b: seq<P.Token>, st: P.State, mid: P.State, end: P.State)
    requires P.Feed(a, st) == mid && P.Feed(b, mid) == end
    ensures P.Feed(a + b, st) == end
  {
    FeedAppend(a, b, st);
  }

  /** The state after the text up to and including an operator. */
  function Placed(e: Cst, op: Operator, st: P.State): P.State {
    st.(stack := st.stack + [P.Entry(op, P.PriorityAt(op, st.parens))],
        code := st.code + Postfix(Strip(e)), expected := P.XT_ARG,
        pos := st.pos + |Tokens(e)| + 1)
  }

  lemma {:induction false} FeedExpression(e: Cst, st: P.State)
    requires Enough(e) && !st.done && st.expected != P.XT_OP
    requires Fits(st.stack, st.parens, Level(e))
    ensures P.Feed(Tokens(e), st) == After(e, st)
    decreases e, 2
  {
    match e
    case Atom(arg) =>
      FeedOne(P.Operand(arg), st);
      assert st.stack + [] == st.stack;
    case Group(x) => FeedGroup(e, st);
    case Prefix(u, x) => FeedPrefix(e, st);
    case Infix(b, l, r) => FeedInfix(e, st);
    case Ternary(c, t, f) => FeedTernary(e, st);
  }

  lemma {:induction false} FeedGroup(e: Cst, st: P.State)
    requires e.Group? && Enough(e) && !st.done && st.expected != P.XT_OP
    requires Fits(st.stack, st.parens, Level(e))
    ensures P.Feed(Tokens(e), st) == After(e, st)
    decreases e, 0
  {
    var inside := st.(expected := P.XT_FIRST, parens := st.parens + 1, pos := st.pos + 1);
    FeedOne(P.LParen, st);
    FeedExpression(e.x, inside);
    FeedThen([P.LParen], Tokens(e.x), st, inside, After(e.x, inside));
    FeedOne(P.RParen, After(e.x, inside));
    FeedThen([P.LParen] + Tokens(e.x), [P.RParen], st, After(e.x, inside), After(e, st));
  }

  lemma {:induction false} FeedPrefix(e: Cst, st: P.State)
    requires e.Prefix? && Enough(e) && !st.done && st.expected != P.XT_OP
    requires Fits(st.stack, st.parens, Level(e))
    ensures P.Feed(Tokens(e), st) == After(e, st)
    decreases e, 0
  {
    hide P.Feed, After, PlacedUnary, Strip, Postfix, Resists, Gives;
    FeedUnary(e.u, st);
    PlacedUnaryFits(e, st);
    FeedExpression(e.x, PlacedUnary(e.u, st));
    AfterPrefix(e, st);
    FeedThen([UnaryToken(e.u)], Tokens(e.x), st, PlacedUnary(e.u, st), After(e, st));
  }

  /** The state after a unary operator. */
  function PlacedUnary(u: UnaryOp, st: P.State): P.State {
    st.(stack := st.stack + [P.Entry(Unary(u), 8 * st.parens + 6)], pos := st.pos + 1)
  }

  lemma FeedUnary(u: UnaryOp, st: P.State)
    requires !st.done && st.expected != P.XT_OP && Resists(st.stack, 8 * st.parens + 7)
    ensures P.Feed([UnaryToken(u)], st) == PlacedUnary(u, st)
  {
    hide Resists, Gives, P.PopFor;
    FeedOne(UnaryToken(u), st);
    assert P.Advance(UnaryToken(u), st) == P.PushOperator(Unary(u), st);
    GivesNothing(8 * st.parens + 7);
    PopExactly(8 * st.parens + 7, st.stack, [], st.code);
    assert st.stack + [] == st.stack && st.code + [] == st.code;
  }

  lemma GivesNothing(threshold: nat)
    ensures Gives([], threshold) && P.Flush([]) == []
  {
  }

  lemma PlacedUnaryFits(e: Cst, st: P.State)
    requires e.Prefix? && Enough(e) && Fits(st.stack, st.parens, Level(e))
    ensures var st1 := PlacedUnary(e.u, st);
      Enough(e.x) && Fits(st1.stack, st1.parens, Level(e.x)) && Resists(st.stack, 8 * st.parens + 7)
      && !st1.done == !st.done && st1.expected == st.expected
    ensures Tokens(e) == [UnaryToken(e.u)] + Tokens(e.x)
  {
  }

  lemma AfterPrefix(e: Cst, st: P.State)
    requires e.Prefix?
    ensures After(e.x, PlacedUnary(e.u, st)) == After(e, st)
  {
    Regroup(st.stack, [P.Entry(Unary(e.u), 8 * st.parens + 6)], Pending(e.x, st.parens), []);
  }

  /** Reading a complete left operand and its operator. */
  lemma {:induction false} FeedOperator(l: Cst, op: Operator, t: P.Token, st: P.State)
    requires op.Binary? || op.CHOICE_START?
    requires t == if op.Binary? then BinaryToken(op.b) else P.Question
    requires Enough(l) && !st.done && st.expected != P.XT_OP
    requires Level(l) >= (if op.Binary? then BinaryPriority(op.b) else 1)
    requires Fits(st.stack, st.parens, Level(l)) && Resists(st.stack, P.Threshold(op, st.parens))
    ensures P.Feed(Tokens(l) + [t], st) == Placed(l, op, st)
    decreases l, 3
  {
    FeedExpression(l, st);
    var st1 := After(l, st);
    OperatorAfter(l, op, st);
    assert P.Advance(t, st1) == P.PushOperator(op, st1);
    FeedOne(t, st1);
    FeedThen(Tokens(l), [t], st, st1, Placed(l, op, st));
  }

  lemma AfterInfix(e: Cst, st: P.State)
    requires e.Infix?
    ensures After(e.r, Placed(e.l, Binary(e.b), st)) == After(e, st)
  {
    Regroup(st.stack, [P.Entry(Binary(e.b), 8 * st.parens + BinaryPriority(e.b))], Pending(e.r, st.parens), []);
    Regroup(st.code, Postfix(Strip(e.l)), Emitted(e.r), []);
  }

  lemma {:induction false} FeedInfix(e: Cst, st: P.State)
    requires e.Infix? && Enough(e) && !st.done && st.expected != P.XT_OP
    requires Fits(st.stack, st.parens, Level(e))
    ensures P.Feed(Tokens(e), st) == After(e, st)
    decreases e, 0
  {
    var op := Binary(e.b);
    FeedOperator(e.l, op, BinaryToken(e.b), st);
    FeedExpression(e.r, Placed(e.l, op, st));
    AfterInfix(e, st);
    FeedThen(Tokens(e.l) + [BinaryToken(e.b)], Tokens(e.r), st, Placed(e.l, op, st), After(e, st));
  }

  /** The state after 'c ? t :'. */
  function PlacedChoice(c: Cst, t: Cst, st: P.State): P.State {
    st.(stack := st.stack + [P.Entry(CHOICE, 8 * st.parens)],
        code := st.code + (Postfix(Strip(c)) + Postfix(Strip(t))), expected := P.XT_ARG,
        pos := st.pos + |Tokens(c)| + |Tokens(t)| + 2)
  }

  lemma {:induction false} FeedChoice(e: Cst, st: P.State)
    requires e.Ternary? && Enough(e) && !st.done && st.expected != P.XT_OP
    requires Fits(st.stack, st.parens, 0)
    ensures P.Feed(Tokens(e.c) + [P.Question] + Tokens(e.t) + [P.Colon], st) == PlacedChoice(e.c, e.t, st)
    decreases e, 0
  {
    hide P.Advance, P.PushOperator, Postfix, Strip, Pending, Emitted, Tokens;
    var st2 := Placed(e.c, CHOICE_START, st);
    FeedOperator(e.c, CHOICE_START, P.Question, st);
    FeedExpression(e.t, st2);
    FeedThen(Tokens(e.c) + [P.Question], Tokens(e.t), st, st2, After(e.t, st2));
    AfterColon(e, st);
    FeedOne(P.Colon, After(e.t, st2));
    P.ColonReads(After(e.t, st2));
    FeedThen(Tokens(e.c) + [P.Question] + Tokens(e.t), [P.Colon], st, After(e.t, st2),
             PlacedChoice(e.c, e.t, st));
  }

  lemma AfterColon(e: Cst, st: P.State)
    requires e.Ternary? && Enough(e)
    ensures P.PushOperator(CHOICE, After(e.t, Placed(e.c, CHOICE_START, st))) == PlacedChoice(e.c, e.t, st)
  {
    var st2 := Placed(e.c, CHOICE_START, st);
    ColonAfter(e.t, st2);
    assert st2.stack[..|st2.stack| - 1] == st.stack;
    Regroup(st.code, Postfix(Strip(e.c)), Postfix(Strip(e.t)), []);
  }

  lemma AfterTernary(e: Cst, st: P.State)
    requires e.Ternary?
    ensures After(e.f, PlacedChoice(e.c, e.t, st)) == After(e, st)
  {
    Regroup(st.stack, [P.Entry(CHOICE, 8 * st.parens)], Pending(e.f, st.parens), []);
    Regroup(st.code, Postfix(Strip(e.c)) + Postfix(Strip(e.t)), Emitted(e.f), []);
  }

  lemma {:induction false} FeedTernary(e: Cst, st: P.State)
    requires e.Ternary? && Enough(e) && !st.done && st.expected != P.XT_OP
    requires Fits(st.stack, st.parens, Level(e))
    ensures P.Feed(Tokens(e), st) == After(e, st)
    decreases e, 1
  {
    var st4 := PlacedChoice(e.c, e.t, st);
    FeedChoice(e, st);
    FeedExpression(e.f, st4);
    AfterTernary(e, st);
    FeedThen(Tokens(e.c) + [P.Question] + Tokens(e.t) + [P.Colon], Tokens(e.f), st, st4, After(e, st));
  }

  // ----- whole expressions -----

  /** What ends an expression outside parentheses: the end of the text, a closing
      parenthesis, an operand, a ':' without a '?', or other text. */
  predicate Ends(rest: seq<P.Token>) {
    rest == [] || rest[0] == P.RParen || rest[0].Operand? || rest[0] == P.Colon || rest[0] == P.Other
  }

  /** MAIN: any way of writing an expression with enough parentheses is parsed to exactly its
      postfix, whatever ends it, and nothing behind it is consumed. */
  lemma ParseInvertsPrint(e: Cst, rest: seq<P.Token>)
    requires Enough(e) && Ends(rest)
    ensures P.ParseSpec(Tokens(e) + rest) == P.Parsed(Postfix(Strip(e)), |Tokens(e)|)
  {
    FeedExpression(e, P.START);
    FeedAppend(Tokens(e), rest, P.START);
    if rest == [] {
      EndOfText(e);
    } else {
      EndOfExpression(e, rest[0]);
      var st' := P.Advance(rest[0], After(e, P.START));
      assert P.Feed(rest, After(e, P.START)) == P.Feed(rest[1..], st') == st';
    }
  }

  lemma EndOfText(e: Cst)
    requires Enough(e)
    ensures P.Conclude(After(e, P.START)) == P.Parsed(Postfix(Strip(e)), |Tokens(e)|)
  {
    hide Pending, Emitted, Postfix, Strip, Tokens, Enough, P.Flush;
    var st := After(e, P.START);
    assert st.stack == Pending(e, 0) && st.code == Emitted(e);
    PendingAbove(e, 0, 0);
    assert forall i | 0 <= i < |st.stack| :: st.stack[i].op != CHOICE_START;
    FlushPending(e, 0);
  }

  lemma EndOfExpression(e: Cst, t: P.Token)
    requires Enough(e) && Ends([t])
    ensures P.Advance(t, After(e, P.START)).done
    ensures P.Conclude(P.Advance(t, After(e, P.START))) == P.Parsed(Postfix(Strip(e)), |Tokens(e)|)
  {
    hide P.PopForChoice, Pending, Emitted, Postfix, Strip, Tokens, P.PopFor, P.Flush, Enough;
    var st := After(e, P.START);
    if t == P.Colon {
      PopWhole(e, 0, [], []);
      P.ColonReads(st);
      assert [] + Postfix(Strip(e)) == Postfix(Strip(e)) && Postfix(Strip(e)) + [] == Postfix(Strip(e));
      FlushNothing();
    } else {
      EndOfText(e);
    }
  }

  /** Printing a tree and parsing the text gives the tree's postfix back. */
  lemma ParsePrintedTree(e: Tree, rest: seq<P.Token>)
    requires Ends(rest)
    ensures P.ParseSpec(Tokens(Print(e)) + rest) == P.Parsed(Postfix(e), |Tokens(Print(e))|)
  {
    PrintIsEnough(e);
    ParseInvertsPrint(Print(e), rest);
  }
}
