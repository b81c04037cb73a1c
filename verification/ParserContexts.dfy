/** The state of the parser while it reads a text, as the stack of contexts in which the next
    operand stands: what is waiting on its operator stack, and what has been emitted. Every token
    keeps the picture, as long as every '?' is closed in its own pair of parentheses. */
module ParserContexts {
  import opened Operators
  import opened ExprTree
  import opened ParserRoundTrip
  import P = Parser

  // ----- choices closed in their own group, read off the tokens -----

  datatype Scan = Open(counts: seq<nat>) | Broken

  /** counts holds the unfinished '?' of every open group, the outermost first. */
  function ScanToken(t: P.Token, s: Scan): Scan {
    match s
    case Broken => Broken
    case Open(counts) =>
      var n := |counts|;
      match t
      case LParen => Open(counts + [0])
      case RParen =>
        if n == 0 || counts[n - 1] > 0 then Broken else Open(counts[..n - 1])
      case Question => if n == 0 then s else Open(counts[..n - 1] + [counts[n - 1] + 1])
      case Colon =>
        if n == 0 || counts[n - 1] == 0 then s else Open(counts[..n - 1] + [counts[n - 1] - 1])
      case _ => s
  }

  function ScanAll(ts: seq<P.Token>): Scan {
    if ts == [] then Open([0]) else ScanToken(ts[|ts| - 1], ScanAll(ts[..|ts| - 1]))
  }

  /** No closing parenthesis meets an unfinished '?' of its group. */
  predicate ChoicesClosed(ts: seq<P.Token>) {
    ScanAll(ts).Open?
  }

  // ----- the expression read so far, as a stack of contexts -----

  /** A context waiting for its right operand. */
  datatype Frame =
    | FParen
    | FPrefix(u: UnaryOp)
    | FInfix(b: BinaryOp, l: Cst)
    | FQuestion(c: Cst)
    | FColon(c: Cst, t: Cst)

  function FrameTokens(f: Frame): seq<P.Token> {
    match f
    case FParen => [P.LParen]
    case FPrefix(u) => [UnaryToken(u)]
    case FInfix(b, l) => Tokens(l) + [BinaryToken(b)]
    case FQuestion(c) => Tokens(c) + [P.Question]
    case FColon(c, t) => Tokens(c) + [P.Question] + Tokens(t) + [P.Colon]
  }

  function FrameCode(f: Frame): Code {
    match f
    case FParen => []
    case FPrefix(_) => []
    case FInfix(_, l) => Postfix(Strip(l))
    case FQuestion(c) => Postfix(Strip(c))
    case FColon(c, t) => Postfix(Strip(c)) + Postfix(Strip(t))
  }

  function FrameOp(f: Frame): Operator
    requires !f.FParen?
  {
    match f
    case FPrefix(u) => Unary(u)
    case FInfix(b, _) => Binary(b)
    case FQuestion(_) => CHOICE_START
    case FColon(_, _) => CHOICE
  }

  function FrameEntries(f: Frame, parens: nat): seq<P.Entry> {
    if f.FParen? then [] else [P.Entry(FrameOp(f), P.PriorityAt(FrameOp(f), parens))]
  }

  /** The least level allowed to the right of a context. */
  function FrameSlot(f: Frame): nat {
    match f
    case FParen => 0
    case FPrefix(_) => 6
    case FInfix(b, _) => BinaryPriority(b) + 1
    case FQuestion(_) => 0
    case FColon(_, _) => 0
  }

  predicate FrameOk(f: Frame, slot: nat) {
    match f
    case FParen => true
    case FPrefix(_) => slot <= 6
    case FInfix(b, l) => Enough(l) && Level(l) >= BinaryPriority(b) >= slot
    case FQuestion(c) => Enough(c) && Level(c) >= 1 && slot == 0
    case FColon(c, t) => Enough(c) && Enough(t) && Level(c) >= 1 && slot == 0
  }

  /** One more unfinished choice in the innermost group. */
  function Deeper(c: seq<nat>): seq<nat> {
    if c == [] then c else c[..|c| - 1] + [c[|c| - 1] + 1]
  }

  /** What a stack of contexts amounts to: the parser's stack, the code emitted, the tokens
      read, the open groups, the unfinished choices per group, and the slot on the right. */
  datatype Summary = Summary(
    entries: seq<P.Entry>, code: Code, tokens: seq<P.Token>, parens: nat,
    counts: seq<nat>, slot: nat, ok: bool)

  const NOTHING := Summary([], [], [], 0, [0], 0, true)

  function Grow(s: Summary, f: Frame): Summary {
    Summary(
      s.entries + FrameEntries(f, s.parens), s.code + FrameCode(f), s.tokens + FrameTokens(f),
      s.parens + if f.FParen? then 1 else 0,
      if f.FParen? then s.counts + [0] else if f.FQuestion? then Deeper(s.counts) else s.counts,
      FrameSlot(f), s.ok && FrameOk(f, s.slot))
  }

  function Sum(fs: seq<Frame>): Summary {
    if fs == [] then NOTHING else Grow(Sum(fs[..|fs| - 1]), fs[|fs| - 1])
  }

  /** Entries of outer contexts are too weak to be popped by what the slot allows. */
  predicate Sane(s: Summary) {
    && s.ok && s.slot <= 6 && s.slot != 1 && s.counts != []
    && Fits(s.entries, s.parens, s.slot)
  }

  lemma {:induction false} SumIsSane(fs: seq<Frame>)
    requires Sum(fs).ok
    ensures Sane(Sum(fs))
    ensures fs != [] && fs[|fs| - 1].FParen? ==> Resists(Sum(fs).entries, 8 * Sum(fs).parens)
    ensures fs != [] ==> Sane(Sum(fs[..|fs| - 1]))
  {
    if fs != [] {
      SumIsSane(fs[..|fs| - 1]);
      var s, f := Sum(fs[..|fs| - 1]), fs[|fs| - 1];
      if f.FParen? {
        assert s.entries + [] == s.entries;
      }
    }
  }

  lemma SumSnoc(fs: seq<Frame>, f: Frame)
    ensures Sum(fs + [f]) == Grow(Sum(fs), f)
  {
    assert (fs + [f])[..|fs + [f]| - 1] == fs;
  }

  // ----- the invariant -----

  /** The parser waits for an operand: everything read is in the contexts. */
  ghost predicate Waiting(st: P.State, s: Summary, ts: seq<P.Token>) {
    && st.expected != P.XT_OP && !st.done && st.good && st.pos == |ts|
    && st.stack == s.entries && st.code == s.code && st.parens == s.parens
    && s.ok && ts == s.tokens && ScanAll(ts) == Open(s.counts)
  }

  /** The parser has just read an operand e of the innermost context. */
  ghost predicate Holding(st: P.State, s: Summary, e: Cst, ts: seq<P.Token>) {
    && st.expected == P.XT_OP && !st.done && st.good && st.pos == |ts|
    && st.stack == s.entries + Pending(e, s.parens) && st.code == s.code + Emitted(e)
    && st.parens == s.parens
    && s.ok && Enough(e) && Level(e) >= s.slot
    && ts == s.tokens + Tokens(e) && ScanAll(ts) == Open(s.counts)
  }

  function Combine(f: Frame, e: Cst): Cst
    requires f.FPrefix? || f.FInfix? || f.FColon?
  {
    match f
    case FPrefix(u) => Prefix(u, e)
    case FInfix(b, l) => Infix(b, l, e)
    case FColon(c, t) => Ternary(c, t, e)
  }

  /** Completing the innermost context changes nothing the parser can see. */
  lemma CombineHolds(st: P.State, s: Summary, f: Frame, e: Cst, ts: seq<P.Token>)
    requires f.FPrefix? || f.FInfix? || f.FColon?
    requires Holding(st, Grow(s, f), e, ts)
    ensures Holding(st, s, Combine(f, e), ts)
  {
    Regroup(s.entries, FrameEntries(f, s.parens), Pending(e, s.parens), []);
    Regroup(s.code, FrameCode(f), Emitted(e), []);
    Regroup(s.tokens, FrameTokens(f), Tokens(e), []);
    CombineParts(f, e, s.parens);
  }

  lemma CombineParts(f: Frame, e: Cst, p: nat)
    requires f.FPrefix? || f.FInfix? || f.FColon?
    ensures Pending(Combine(f, e), p) == FrameEntries(f, p) + Pending(e, p)
    ensures Emitted(Combine(f, e)) == FrameCode(f) + Emitted(e)
    ensures Tokens(Combine(f, e)) == FrameTokens(f) + Tokens(e)
  {
  }

  predicate Completes(f: Frame, level: nat) {
    f.FPrefix? || (f.FInfix? && BinaryPriority(f.b) >= level) || (f.FColon? && level == 0)
  }

  /** The innermost context stays open at this level. */
  ghost predicate Settled(fs: seq<Frame>, level: nat) {
    fs == [] || !Completes(fs[|fs| - 1], level)
  }

  /** Completes every context that binds at least as strongly as the level. */
  lemma {:induction false} Reduce(st: P.State, fs: seq<Frame>, e: Cst, ts: seq<P.Token>, level: nat)
    returns (fs': seq<Frame>, e': Cst)
    requires Holding(st, Sum(fs), e, ts) && Level(e) >= level && level <= 5
    ensures Holding(st, Sum(fs'), e', ts) && Level(e') >= level && Settled(fs', level)
    decreases |fs|
  {
    if Settled(fs, level) {
      return fs, e;
    }
    var n := |fs| - 1;
    var s, f := Sum(fs[..n]), fs[n];
    CombineHolds(st, s, f, e, ts);
    CombineLevel(f, e, level);
    fs', e' := Reduce(st, fs[..n], Combine(f, e), ts, level);
  }

  lemma CombineLevel(f: Frame, e: Cst, level: nat)
    requires Completes(f, level) && level <= 5
    ensures Level(Combine(f, e)) >= level
  {
  }

  lemma SettledSlot(fs: seq<Frame>, level: nat)
    requires Settled(fs, level)
    ensures level > 0 ==> Sum(fs).slot <= level
  {
  }

  lemma ScanSnoc(ts: seq<P.Token>, t: P.Token)
    ensures ScanAll(ts + [t]) == ScanToken(t, ScanAll(ts))
  {
    assert (ts + [t])[..|ts + [t]| - 1] == ts;
  }

  /** The state before the operand that is being held. */
  function Base(st: P.State, s: Summary, e: Cst): P.State
    requires st.pos >= |Tokens(e)|
  {
    st.(stack := s.entries, code := s.code, pos := st.pos - |Tokens(e)|)
  }

  lemma BaseHolds(st: P.State, s: Summary, e: Cst, ts: seq<P.Token>)
    requires Holding(st, s, e, ts)
    ensures st.pos >= |Tokens(e)| && After(e, Base(st, s, e)) == st
  {
  }

  // ----- one token while holding an operand -----

  lemma HoldOperator(st: P.State, fs0: seq<Frame>, e0: Cst, ts: seq<P.Token>, op: Operator, t: P.Token)
    returns (fs: seq<Frame>)
    requires Holding(st, Sum(fs0), e0, ts) && Level(e0) == 7
    requires op.Binary? || op.CHOICE_START?
    requires t == if op.Binary? then BinaryToken(op.b) else P.Question
    ensures Waiting(P.Advance(t, st), Sum(fs), ts + [t])
  {
    var level := if op.Binary? then BinaryPriority(op.b) else 1;
    var fs1, e := Reduce(st, fs0, e0, ts, level);
    var f := if op.Binary? then FInfix(op.b, e) else FQuestion(e);
    fs := fs1 + [f];
    SumSnoc(fs1, f);
    SumIsSane(fs1);
    SettledSlot(fs1, level);
    ReadOperatorToken(st, op, t);
    HoldReduced(st, Sum(fs1), e, ts, op, t);
  }

  lemma ReadOperatorToken(st: P.State, op: Operator, t: P.Token)
    requires st.expected == P.XT_OP && (op.Binary? || op.CHOICE_START?)
    requires t == if op.Binary? then BinaryToken(op.b) else P.Question
    ensures P.Advance(t, st) == P.PushOperator(op, st)
  {
  }

  lemma BaseResists(st: P.State, s: Summary, e: Cst, op: Operator)
    requires st.pos >= |Tokens(e)| && st.parens == s.parens && Sane(s) && (op.Binary? || op.CHOICE_START?)
    requires s.slot <= if op.Binary? then BinaryPriority(op.b) else 1
    ensures Resists(Base(st, s, e).stack, P.Threshold(op, st.parens))
  {
    hide Tokens;
  }

  lemma HoldReduced(st: P.State, s: Summary, e: Cst, ts: seq<P.Token>, op: Operator, t: P.Token)
    requires Holding(st, s, e, ts) && Sane(s) && (op.Binary? || op.CHOICE_START?)
    requires var level := if op.Binary? then BinaryPriority(op.b) else 1;
             Level(e) >= level && s.slot <= level
    requires t == if op.Binary? then BinaryToken(op.b) else P.Question
    ensures Waiting(P.PushOperator(op, st), Grow(s, if op.Binary? then FInfix(op.b, e) else FQuestion(e)), ts + [t])
  {
    var base := Base(st, s, e);
    BaseHolds(st, s, e, ts);
    BaseResists(st, s, e, op);
    OperatorAfter(e, op, base);
    OperatorScan(ts, t, s.counts, op);
    var f := if op.Binary? then FInfix(op.b, e) else FQuestion(e);
    PlacedWaits(base, s, e, op, t, f);
    Regroup(s.tokens, Tokens(e), [t], []);
    hide P.PushOperator, Postfix, Strip, Pending, Emitted, Resists, Level, ScanAll, Grow, Tokens, Enough, Sane,
      P.Threshold, P.PriorityAt;
  }

  lemma OperatorScan(ts: seq<P.Token>, t: P.Token, counts: seq<nat>, op: Operator)
    requires ScanAll(ts) == Open(counts) && counts != [] && (op.Binary? || op.CHOICE_START?)
    requires t == if op.Binary? then BinaryToken(op.b) else P.Question
    ensures ScanAll(ts + [t]) == Open(if op.Binary? then counts else Deeper(counts))
  {
    ScanSnoc(ts, t);
    hide ScanAll;
  }

  lemma PlacedWaits(base: P.State, s: Summary, e: Cst, op: Operator, t: P.Token, f: Frame)
    requires base.stack == s.entries && base.code == s.code && base.parens == s.parens
    requires Sane(s) && Enough(e)
    requires (op.Binary? && f == FInfix(op.b, e) && t == BinaryToken(op.b) &&
              Level(e) >= BinaryPriority(op.b) >= s.slot)
          || (op == CHOICE_START && f == FQuestion(e) && t == P.Question && Level(e) >= 1 >= s.slot)
    ensures var st' := Placed(e, op, base); var g := Grow(s, f);
      && st'.stack == g.entries && st'.code == g.code && st'.parens == g.parens
      && g.ok && g.tokens == s.tokens + (Tokens(e) + [t])
      && g.counts == if op.Binary? then s.counts else Deeper(s.counts)
  {
  }

  /** A ':' outside its choice: it ends the expression, or the text is rejected. */
  ghost predicate StrayColon(st': P.State, e: Cst, ts: seq<P.Token>) {
    || (st'.parens != 0 && (st'.done || !st'.good))
    || (st'.done && st'.good && st'.stack == [] && st'.expected == P.XT_OP && st'.pos == |ts| &&
        Enough(e) && ts == Tokens(e) && st'.code == Postfix(Strip(e)))
  }

  lemma HoldColon(st: P.State, fs0: seq<Frame>, e0: Cst, ts: seq<P.Token>)
    returns (fs: seq<Frame>, e: Cst)
    requires Holding(st, Sum(fs0), e0, ts)
    ensures var st' := P.Advance(P.Colon, st);
      Waiting(st', Sum(fs), ts + [P.Colon]) || StrayColon(st', e, ts)
  {
    fs, e := Reduce(st, fs0, e0, ts, 0);
    SumIsSane(fs);
    if fs != [] && fs[|fs| - 1].FQuestion? {
      var n := |fs| - 1;
      var f := FColon(fs[n].c, e);
      HoldFinishedChoice(st, Sum(fs[..n]), fs[n].c, e, ts);
      SumSnoc(fs[..n], f);
      fs := fs[..n] + [f];
    } else {
      HoldStrayColon(st, Sum(fs), e, ts);
    }
  }

  lemma HoldStrayColon(st: P.State, s: Summary, e: Cst, ts: seq<P.Token>)
    requires Holding(st, s, e, ts)
    requires s == NOTHING || (s.parens > 0 && Resists(s.entries, 8 * s.parens))
    ensures StrayColon(P.Advance(P.Colon, st), e, ts)
  {
    hide P.Advance, P.PopForChoice, Pending, Emitted, Postfix, Strip, Tokens, ScanAll, Enough;
    P.ColonReads(st);
    PopWhole(e, st.parens, s.entries, s.code);
    if s == NOTHING {
      assert [] + Tokens(e) == Tokens(e);
      assert [] + Postfix(Strip(e)) == Postfix(Strip(e));
    }
  }

  function ColonState(st: P.State, s: Summary, c: Cst, e: Cst): P.State {
    st.(stack := s.entries + [P.Entry(CHOICE, 8 * s.parens)],
        code := s.code + FrameCode(FColon(c, e)), expected := P.XT_ARG, pos := st.pos + 1)
  }

  lemma AdvanceColon(st: P.State, s: Summary, c: Cst, e: Cst, ts: seq<P.Token>)
    requires Holding(st, Grow(s, FQuestion(c)), e, ts)
    ensures P.Advance(P.Colon, st) == ColonState(st, s, c, e)
  {
    var g := Grow(s, FQuestion(c));
    var base := Base(st, g, e);
    BaseHolds(st, g, e, ts);
    P.ColonReads(st);
    ColonAfter(e, base);
    hide P.Advance, P.PushOperator, Emitted, Tokens, ScanAll, Enough, Level;
    assert base.stack[..|base.stack| - 1] == s.entries;
    Regroup(s.code, Postfix(Strip(c)), Postfix(Strip(e)), []);
  }

  lemma HoldFinishedChoice(st: P.State, s: Summary, c: Cst, e: Cst, ts: seq<P.Token>)
    requires Holding(st, Grow(s, FQuestion(c)), e, ts) && Sane(s)
    ensures Waiting(P.Advance(P.Colon, st), Grow(s, FColon(c, e)), ts + [P.Colon])
  {
    AdvanceColon(st, s, c, e, ts);
    ColonTokens(s.tokens, c, e);
    ScanSnoc(ts, P.Colon);
    DeeperBack(s.counts);
  }

  lemma ColonTokens(ts: seq<P.Token>, c: Cst, e: Cst)
    ensures ts + FrameTokens(FQuestion(c)) + Tokens(e) + [P.Colon] == ts + FrameTokens(FColon(c, e))
  {
    Regroup(ts, FrameTokens(FQuestion(c)), Tokens(e), []);
    Regroup(ts, FrameTokens(FQuestion(c)) + Tokens(e), [P.Colon], []);
  }

  lemma DeeperBack(c: seq<nat>)
    requires c != []
    ensures ScanToken(P.Colon, Open(Deeper(c))) == Open(c)
  {
    var n := |c| - 1;
    assert c == c[..n] + [c[n]];
    assert Deeper(c)[..n] == c[..n];
  }

  lemma HoldClose(st: P.State, fs0: seq<Frame>, e0: Cst, ts: seq<P.Token>)
    returns (fs: seq<Frame>, e: Cst)
    requires Holding(st, Sum(fs0), e0, ts) && st.parens > 0 && ChoicesClosed(ts + [P.RParen])
    ensures Holding(P.Advance(P.RParen, st), Sum(fs), e, ts + [P.RParen]) && Level(e) == 7
  {
    var fs1, e1 := Reduce(st, fs0, e0, ts, 0);
    SumIsSane(fs1);
    var n := |fs1| - 1;
    ClosesGroup(st, Sum(fs1[..n]), fs1[n], e1, ts);
    HoldGroup(st, Sum(fs1[..n]), e1, ts);
    fs, e := fs1[..n], Group(e1);
  }

  /** A closing parenthesis closes a group, not a choice. */
  lemma ClosesGroup(st: P.State, s: Summary, f: Frame, e: Cst, ts: seq<P.Token>)
    requires Holding(st, Grow(s, f), e, ts) && Sane(s)
    requires !Completes(f, 0) && ChoicesClosed(ts + [P.RParen])
    ensures f.FParen?
  {
    ScanSnoc(ts, P.RParen);
  }

  lemma HoldGroup(st: P.State, s: Summary, e: Cst, ts: seq<P.Token>)
    requires Holding(st, Grow(s, FParen), e, ts) && Sane(s)
    ensures Holding(P.Advance(P.RParen, st), s, Group(e), ts + [P.RParen])
  {
    ScanSnoc(ts, P.RParen);
    hide ScanAll, Postfix, Strip;
    assert s.entries + [] == s.entries && s.code + [] == s.code;
    assert (s.counts + [0])[..|s.counts|] == s.counts;
    GroupTokens(s.tokens, e);
  }

  lemma GroupTokens(ts: seq<P.Token>, e: Cst)
    ensures ts + FrameTokens(FParen) + Tokens(e) + [P.RParen] == ts + Tokens(Group(e))
  {
    Regroup(ts, [P.LParen], Tokens(e), []);
    Regroup(ts, [P.LParen] + Tokens(e), [P.RParen], []);
  }

  /** The end of the text, or a token that ends the expression, while holding an operand. */
  lemma HoldEnd(st: P.State, fs0: seq<Frame>, e0: Cst, ts: seq<P.Token>) returns (e: Cst)
    requires Holding(st, Sum(fs0), e0, ts) && P.Conclude(st).Parsed?
    ensures Enough(e) && ts == Tokens(e) && P.Conclude(st) == P.Parsed(Postfix(Strip(e)), |ts|)
  {
    var fs1;
    fs1, e := Reduce(st, fs0, e0, ts, 0);
    if fs1 != [] {
      QuestionStays(st, Sum(fs1[..|fs1| - 1]), fs1[|fs1| - 1], e, ts);
    }
    HoldWhole(st, e, ts);
  }

  /** While a context is open, the text does not end well. */
  lemma QuestionStays(st: P.State, s: Summary, f: Frame, e: Cst, ts: seq<P.Token>)
    requires Holding(st, Grow(s, f), e, ts) && (f.FQuestion? || f.FParen?)
    ensures P.Conclude(st).Rejected?
  {
    if f.FQuestion? {
      assert st.stack[|s.entries|].op == CHOICE_START;
    }
  }

  lemma HoldWhole(st: P.State, e: Cst, ts: seq<P.Token>)
    requires Holding(st, NOTHING, e, ts) && P.Conclude(st).Parsed?
    ensures ts == Tokens(e) && P.Conclude(st) == P.Parsed(Postfix(Strip(e)), |ts|)
  {
    assert st.stack == Pending(e, 0) && st.code == Emitted(e) && ts == Tokens(e);
    FlushPending(e, 0);
  }

  // ----- one token while waiting for an operand -----

  lemma WaitPrefix(st: P.State, s: Summary, ts: seq<P.Token>, u: UnaryOp)
    requires Waiting(st, s, ts) && Sane(s)
    ensures Waiting(P.Advance(UnaryToken(u), st), Grow(s, FPrefix(u)), ts + [UnaryToken(u)])
  {
    var t := UnaryToken(u);
    PopExactly(8 * st.parens + 7, st.stack, [], st.code);
    assert st.stack + [] == st.stack && st.code + [] == st.code;
    assert P.Advance(t, st) == P.PushOperator(Unary(u), st);
    ScanSnoc(ts, t);
  }

  lemma WaitOpen(st: P.State, s: Summary, ts: seq<P.Token>)
    requires Waiting(st, s, ts)
    ensures Waiting(P.Advance(P.LParen, st), Grow(s, FParen), ts + [P.LParen])
  {
    ScanSnoc(ts, P.LParen);
    assert s.code + [] == s.code && s.entries + [] == s.entries;
  }

  lemma WaitOperand(st: P.State, s: Summary, ts: seq<P.Token>, arg: Arg)
    requires Waiting(st, s, ts) && Sane(s)
    ensures Holding(P.Advance(P.Operand(arg), st), s, Atom(arg), ts + [P.Operand(arg)])
  {
    ScanSnoc(ts, P.Operand(arg));
    assert s.entries + [] == s.entries;
  }

  // ----- whole texts -----

  ghost predicate Invariant(st: P.State, ts: seq<P.Token>) {
    if st.expected == P.XT_OP
    then exists fs, e :: Holding(st, Sum(fs), e, ts) && Level(e) == 7
    else exists fs :: Waiting(st, Sum(fs), ts)
  }

  /** The text read before the expression ended is the text of an expression. */
  ghost predicate Sentence(code: Code, ts: seq<P.Token>) {
    exists e :: Enough(e) && Tokens(e) == ts && Postfix(Strip(e)) == code
  }

  /** What a token does to the invariant, the parser not having failed. */
  ghost predicate Outcome(st': P.State, ts: seq<P.Token>, t: P.Token) {
    if st'.done then P.Conclude(st').Parsed? && ts != [] ==>
      P.Conclude(st').consumed == |ts| && Sentence(P.Conclude(st').code, ts)
    else !st'.good || Invariant(st', ts + [t])
  }

  lemma IsWaiting(st: P.State, fs: seq<Frame>, ts: seq<P.Token>)
    requires Waiting(st, Sum(fs), ts)
    ensures Invariant(st, ts) && !st.done
  {
  }

  lemma IsHolding(st: P.State, fs: seq<Frame>, e: Cst, ts: seq<P.Token>)
    requires Holding(st, Sum(fs), e, ts) && Level(e) == 7
    ensures Invariant(st, ts) && !st.done
  {
  }

  lemma WaitStep(st: P.State, fs: seq<Frame>, ts: seq<P.Token>, t: P.Token)
    requires Waiting(st, Sum(fs), ts)
    ensures Outcome(P.Advance(t, st), ts, t)
  {
    hide Sum, P.PushOperator;
    match t
    case LParen =>
      WaitOpen(st, Sum(fs), ts);
      SumSnoc(fs, FParen);
      IsWaiting(P.Advance(t, st), fs + [FParen], ts + [t]);
    case Operand(arg) =>
      SumIsSane(fs);
      WaitOperand(st, Sum(fs), ts, arg);
      IsHolding(P.Advance(t, st), fs, Atom(arg), ts + [t]);
    case PlusSign => WaitPrefixStep(st, fs, ts, PLUS);
    case MinusSign => WaitPrefixStep(st, fs, ts, NEGATE);
    case Bang => WaitPrefixStep(st, fs, ts, LOGICAL_NOT);
    case Tilde => WaitPrefixStep(st, fs, ts, BIT_NOT);
    case Other => WaitOther(st, fs, ts);
    case RParen => WaitRefuse(st, t);
    case BinSign(_) => WaitRefuse(st, t);
    case Question => WaitRefuse(st, t);
    case Colon => WaitRefuse(st, t);
    case LoneEqual => WaitRefuse(st, t);
  }

  lemma WaitRefuse(st: P.State, t: P.Token)
    requires st.expected != P.XT_OP && !st.done
    requires t in {P.RParen, P.Question, P.Colon, P.LoneEqual} || t.BinSign?
    ensures var st' := P.Advance(t, st); !st'.done && !st'.good
  {
  }

  lemma WaitOther(st: P.State, fs: seq<Frame>, ts: seq<P.Token>)
    requires Waiting(st, Sum(fs), ts)
    ensures Outcome(P.Advance(P.Other, st), ts, P.Other)
  {
    if st.parens == 0 && st.stack == [] {
      NothingRead(fs);
    }
  }

  lemma WaitPrefixStep(st: P.State, fs: seq<Frame>, ts: seq<P.Token>, u: UnaryOp)
    requires Waiting(st, Sum(fs), ts)
    ensures Outcome(P.Advance(UnaryToken(u), st), ts, UnaryToken(u))
  {
    SumIsSane(fs);
    WaitPrefix(st, Sum(fs), ts, u);
    SumSnoc(fs, FPrefix(u));
    IsWaiting(P.Advance(UnaryToken(u), st), fs + [FPrefix(u)], ts + [UnaryToken(u)]);
  }

  /** Contexts that left no trace are no contexts. */
  lemma NothingRead(fs: seq<Frame>)
    requires Sum(fs).ok && Sum(fs).parens == 0 && Sum(fs).entries == []
    ensures fs == []
  {
  }

  lemma HoldStep(st: P.State, fs: seq<Frame>, e: Cst, ts: seq<P.Token>, t: P.Token)
    requires Holding(st, Sum(fs), e, ts) && Level(e) == 7
    requires t == P.RParen && st.parens > 0 ==> ChoicesClosed(ts + [t])
    ensures Outcome(P.Advance(t, st), ts, t)
  {
    hide P.Advance, Outcome, Holding, ScanAll, ChoicesClosed, Sum, Level;
    match t
    case PlusSign => HoldOperatorStep(st, fs, e, ts, Binary(ADDITION), t);
    case MinusSign => HoldOperatorStep(st, fs, e, ts, Binary(SUBTRACT), t);
    case Bang => HoldOperatorStep(st, fs, e, ts, Binary(BIT_ORNOT), t);
    case BinSign(b) => HoldOperatorStep(st, fs, e, ts, Binary(b), t);
    case Question => HoldOperatorStep(st, fs, e, ts, CHOICE_START, t);
    case Colon => HoldColonStep(st, fs, e, ts);
    case RParen =>
      if st.parens > 0 {
        HoldCloseStep(st, fs, e, ts);
      } else {
        HoldStop(st, fs, e, ts, t);
      }
    case Operand(_) => HoldStop(st, fs, e, ts, t);
    case Other => HoldStop(st, fs, e, ts, t);
    case LParen => HoldStop(st, fs, e, ts, t);
    case Tilde => HoldStop(st, fs, e, ts, t);
    case LoneEqual => HoldStop(st, fs, e, ts, t);
  }

  lemma HoldCloseStep(st: P.State, fs: seq<Frame>, e: Cst, ts: seq<P.Token>)
    requires Holding(st, Sum(fs), e, ts) && st.parens > 0 && ChoicesClosed(ts + [P.RParen])
    ensures Outcome(P.Advance(P.RParen, st), ts, P.RParen)
  {
    hide P.Advance, Holding, ScanAll, ChoicesClosed, Sum, Level, Invariant;
    var fs', e' := HoldClose(st, fs, e, ts);
    IsHolding(P.Advance(P.RParen, st), fs', e', ts + [P.RParen]);
  }

  lemma HoldOperatorStep(st: P.State, fs: seq<Frame>, e: Cst, ts: seq<P.Token>, op: Operator, t: P.Token)
    requires Holding(st, Sum(fs), e, ts) && Level(e) == 7
    requires op.Binary? || op.CHOICE_START?
    requires t == if op.Binary? then BinaryToken(op.b) else P.Question
    ensures Outcome(P.Advance(t, st), ts, t)
  {
    var fs' := HoldOperator(st, fs, e, ts, op, t);
    IsWaiting(P.Advance(t, st), fs', ts + [t]);
  }

  lemma HoldColonStep(st: P.State, fs: seq<Frame>, e: Cst, ts: seq<P.Token>)
    requires Holding(st, Sum(fs), e, ts)
    ensures Outcome(P.Advance(P.Colon, st), ts, P.Colon)
  {
    var fs', e' := HoldColon(st, fs, e, ts);
    var st' := P.Advance(P.Colon, st);
    if Waiting(st', Sum(fs'), ts + [P.Colon]) {
      IsWaiting(st', fs', ts + [P.Colon]);
    } else if st'.parens == 0 {
      assert P.Flush([]) == [] && Postfix(Strip(e')) + [] == Postfix(Strip(e'));
      assert Sentence(Postfix(Strip(e')), ts);
    }
  }

  /** Tokens that cannot follow an operand end the expression or spoil it. */
  lemma HoldStop(st: P.State, fs: seq<Frame>, e: Cst, ts: seq<P.Token>, t: P.Token)
    requires Holding(st, Sum(fs), e, ts)
    requires t in {P.Other, P.LParen, P.Tilde, P.LoneEqual} || t.Operand? || (t == P.RParen && st.parens == 0)
    ensures Outcome(P.Advance(t, st), ts, t)
  {
    StopAdvances(st, t);
    hide P.Advance, P.Conclude, Invariant, ScanAll;
    if P.Conclude(st).Parsed? {
      var e' := HoldEnd(st, fs, e, ts);
      hide Holding, Sum, Postfix, Strip;
      assert Sentence(P.Conclude(st).code, ts);
    }
  }

  lemma StopAdvances(st: P.State, t: P.Token)
    requires st.expected == P.XT_OP && !st.done
    requires t in {P.Other, P.LParen, P.Tilde, P.LoneEqual} || t.Operand? || (t == P.RParen && st.parens == 0)
    ensures var st' := P.Advance(t, st);
      if st'.done then P.Conclude(st') == P.Conclude(st) else !st'.good
  {
  }
}
