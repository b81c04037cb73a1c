/** The fast path for sums of literals, against the parser and the evaluator. */
module FastExpr {
  import opened Words
  import opened Operators
  import opened AbsoluteMachine
  import opened ExprTree
  import opened ParserRoundTrip
  import opened ParserSoundness
  import P = Parser

  datatype FastResult = Accepted(value: Word, consumed: nat) | Declined

  predicate IsSign(t: P.Token) {
    t == P.PlusSign || t == P.MinusSign
  }

  predicate IsLiteral(t: P.Token) {
    t.Operand? && t.arg.Value? && t.arg.section == ASMSECT_ABS
  }

  /** The character after the sum starts no operator. An opening parenthesis passes. */
  predicate NoOperator(ts: seq<P.Token>) {
    ts == [] || ts[0].Operand? || ts[0] in {P.LParen, P.RParen, P.Colon, P.Other}
  }

  function Accumulate(sum: Word, addition: bool, v: Word): Word {
    Wrap(sum + if addition then v else Negate(v))
  }

  /** Signs and then a literal. */
  function FastTerm(ts: seq<P.Token>, addition: bool, sum: Word, pos: nat): FastResult
    decreases ts
  {
    if ts == [] then Declined
    else if ts[0] == P.PlusSign then FastTerm(ts[1..], addition, sum, pos + 1)
    else if ts[0] == P.MinusSign then FastTerm(ts[1..], !addition, sum, pos + 1)
    else if IsLiteral(ts[0]) then
      FastRest(ts[1..], Accumulate(sum, addition, ts[0].arg.value), pos + 1)
    else Declined
  }

  /** Behind a literal: another signed term, or the end. */
  function FastRest(ts: seq<P.Token>, sum: Word, pos: nat): FastResult
    decreases ts
  {
    if ts != [] && IsSign(ts[0]) then FastTerm(ts[1..], ts[0] == P.PlusSign, sum, pos + 1)
    else if NoOperator(ts) then Accepted(sum, pos)
    else Declined
  }

  function FastSpec(ts: seq<P.Token>): FastResult {
    FastTerm(ts, true, 0, 0)
  }

  method FastEvaluate(ts: seq<P.Token>) returns (r: FastResult)
    ensures r == FastSpec(ts)
  {
    var sum: Word := 0;
    var addition := true;
    var i := 0;
    assert ts[0..] == ts;
    while true
      invariant 0 <= i <= |ts|
      invariant FastTerm(ts[i..], addition, sum, i) == FastSpec(ts)
      decreases |ts| - i
    {
      ghost var i0 := i;
      while i < |ts| && IsSign(ts[i])
        invariant i0 <= i <= |ts|
        invariant FastTerm(ts[i..], addition, sum, i) == FastSpec(ts)
      {
        assert ts[i..][1..] == ts[i + 1..];
        if ts[i] == P.MinusSign {
          addition := !addition;
        }
        i := i + 1;
      }
      if i == |ts| || !IsLiteral(ts[i]) {
        return Declined;
      }
      assert ts[i..][1..] == ts[i + 1..];
      sum := Accumulate(sum, addition, ts[i].arg.value);
      i := i + 1;
      if i == |ts| || !IsSign(ts[i]) {
        break;
      }
      assert ts[i..][1..] == ts[i + 1..];
      addition := ts[i] == P.PlusSign;
      i := i + 1;
    }
    r := if NoOperator(ts[i..]) then Accepted(sum, i) else Declined;
  }

  // ----- sums of signed literals as expressions -----

  /** A literal with its run of unary signs; true stands for '-'. */
  datatype Term = Term(signs: seq<bool>, value: Word)

  /** A further term, joined by '-' or '+'. */
  datatype Joined = Joined(minus: bool, term: Term)

  function SignToken(minus: bool): P.Token {
    if minus then P.MinusSign else P.PlusSign
  }

  function TermTokens(t: Term): seq<P.Token>
    decreases |t.signs|
  {
    if t.signs == [] then [P.Operand(Value(t.value, ASMSECT_ABS))]
    else [SignToken(t.signs[0])] + TermTokens(Term(t.signs[1..], t.value))
  }

  function ChainTokens(tail: seq<Joined>): seq<P.Token> {
    if tail == [] then []
    else [SignToken(tail[0].minus)] + (TermTokens(tail[0].term) + ChainTokens(tail[1..]))
  }

  function TermCst(t: Term): Cst
    decreases |t.signs|
  {
    if t.signs == [] then Atom(Value(t.value, ASMSECT_ABS))
    else Prefix(if t.signs[0] then NEGATE else PLUS, TermCst(Term(t.signs[1..], t.value)))
  }

  function ChainCst(acc: Cst, tail: seq<Joined>): Cst
    decreases |tail|
  {
    if tail == [] then acc
    else ChainCst(Infix(if tail[0].minus then SUBTRACT else ADDITION, acc, TermCst(tail[0].term)), tail[1..])
  }

  /** The sign that a term ends up with. */
  function Flips(addition: bool, signs: seq<bool>): bool
    decreases |signs|
  {
    if signs == [] then addition else Flips(if signs[0] then !addition else addition, signs[1..])
  }

  function ChainSum(sum: Word, tail: seq<Joined>): Word
    decreases |tail|
  {
    if tail == [] then sum
    else ChainSum(Accumulate(sum, Flips(!tail[0].minus, tail[0].term.signs), tail[0].term.value), tail[1..])
  }

  lemma {:induction false} TermShape(t: Term)
    ensures Tokens(TermCst(t)) == TermTokens(t)
    ensures Enough(TermCst(t)) && Level(TermCst(t)) >= 6 && Closed(Strip(TermCst(t)))
    decreases |t.signs|
  {
    if t.signs != [] {
      TermShape(Term(t.signs[1..], t.value));
    }
  }

  lemma {:induction false} TermMeaning(t: Term)
    requires Closed(Strip(TermCst(t)))
    ensures Meaning(Strip(TermCst(t))) == Plain(if Flips(true, t.signs) then t.value else Negate(t.value))
    decreases |t.signs|
  {
    if t.signs != [] {
      var rest := Term(t.signs[1..], t.value);
      TermShape(rest);
      TermMeaning(rest);
      FlipsOpposite(rest.signs);
      NegateTwice(t.value);
    }
  }

  lemma {:induction false} FlipsOpposite(signs: seq<bool>)
    ensures Flips(false, signs) == !Flips(true, signs)
  {
    if signs != [] {
      FlipsOpposite(signs[1..]);
    }
  }

  lemma NegateTwice(v: Word)
    ensures Negate(Negate(v)) == v
  {
    NegateIs(v);
    NegateIs(Negate(v));
  }

  lemma {:induction false} ChainShape(acc: Cst, tail: seq<Joined>)
    requires Enough(acc) && Level(acc) >= 3 && Closed(Strip(acc))
    ensures var e := ChainCst(acc, tail);
      Enough(e) && Closed(Strip(e)) && Tokens(e) == Tokens(acc) + ChainTokens(tail)
    decreases |tail|
  {
    if tail != [] {
      TermShape(tail[0].term);
      var acc' := Infix(if tail[0].minus then SUBTRACT else ADDITION, acc, TermCst(tail[0].term));
      ChainShape(acc', tail[1..]);
      Regroup(Tokens(acc), [SignToken(tail[0].minus)], TermTokens(tail[0].term), ChainTokens(tail[1..]));
      Regroup(Tokens(acc) + [SignToken(tail[0].minus)], TermTokens(tail[0].term), ChainTokens(tail[1..]), []);
      Regroup(Tokens(acc), [SignToken(tail[0].minus)], TermTokens(tail[0].term) + ChainTokens(tail[1..]), []);
    }
  }

  lemma {:induction false} ChainMeaning(acc: Cst, sum: Word, tail: seq<Joined>)
    requires Closed(Strip(acc)) && Meaning(Strip(acc)) == Plain(sum)
    requires Closed(Strip(ChainCst(acc, tail)))
    ensures Meaning(Strip(ChainCst(acc, tail))) == Plain(ChainSum(sum, tail))
    decreases |tail|
  {
    hide TermCst, Strip, Flips, Accumulate, Closed, Meaning, Tokens, TermTokens;
    if tail != [] {
      var t := tail[0].term;
      var acc' := Infix(if tail[0].minus then SUBTRACT else ADDITION, acc, TermCst(t));
      JoinedMeaning(acc, sum, tail[0]);
      ChainMeaning(acc', Accumulate(sum, Flips(!tail[0].minus, t.signs), t.value), tail[1..]);
    }
  }

  lemma JoinedMeaning(acc: Cst, sum: Word, j: Joined)
    requires Closed(Strip(acc)) && Meaning(Strip(acc)) == Plain(sum)
    ensures var e := Strip(Infix(if j.minus then SUBTRACT else ADDITION, acc, TermCst(j.term)));
      Closed(e) && Meaning(e) == Plain(Accumulate(sum, Flips(!j.minus, j.term.signs), j.term.value))
  {
    hide TermCst, Flips, Accumulate, Tokens, TermTokens;
    TermShape(j.term);
    TermMeaning(j.term);
    FlipsOpposite(j.term.signs);
    AccumulateIs(sum, j.minus, Flips(true, j.term.signs), j.term.value);
  }

  lemma AccumulateIs(sum: Word, minus: bool, plain: bool, v: Word)
    ensures var w := if plain then v else Negate(v);
      Accumulate(sum, if minus then !plain else plain, v) == if minus then Wrap(sum - w) else Wrap(sum + w)
  {
    NegateTwice(v);
    SubtractNegated(sum, v);
    SubtractNegated(sum, Negate(v));
  }

  lemma SubtractNegated(x: Word, w: Word)
    ensures Wrap(x - w) == Wrap(x + Negate(w))
  {
    CongWrap(0 - w);
    CongAdd(Wrap(0 - w), 0 - w, x, x);
  }

  // ----- what the fast path reads -----

  /** An accepted text begins with a sum of signed literals, of the answered value. */
  lemma {:induction false} TermReads(ts: seq<P.Token>, addition: bool, sum: Word, pos: nat)
    returns (t: Term, tail: seq<Joined>)
    requires FastTerm(ts, addition, sum, pos).Accepted?
    ensures var r := FastTerm(ts, addition, sum, pos); var n := r.consumed - pos;
      && 0 < n <= |ts| && ts[..n] == TermTokens(t) + ChainTokens(tail) && NoOperator(ts[n..])
      && r.value == ChainSum(Accumulate(sum, Flips(addition, t.signs), t.value), tail)
    decreases |ts|
  {
    if IsSign(ts[0]) {
      var minus := ts[0] == P.MinusSign;
      var t', tail' := TermReads(ts[1..], if minus then !addition else addition, sum, pos + 1);
      t, tail := Term([minus] + t'.signs, t'.value), tail';
      SignReads(ts, addition, sum, pos, t', tail');
    } else {
      var v := ts[0].arg.value;
      t := Term([], v);
      tail := RestReads(ts[1..], Accumulate(sum, addition, v), pos + 1);
      LiteralReads(ts, addition, sum, pos, tail);
    }
  }

  lemma SignReads(ts: seq<P.Token>, addition: bool, sum: Word, pos: nat, t: Term, tail: seq<Joined>)
    requires ts != [] && IsSign(ts[0])
    requires var r := FastTerm(ts[1..], if ts[0] == P.MinusSign then !addition else addition, sum, pos + 1);
      r.Accepted? && 0 < r.consumed - (pos + 1) <= |ts[1..]|
      && ts[1..][..r.consumed - (pos + 1)] == TermTokens(t) + ChainTokens(tail)
      && NoOperator(ts[1..][r.consumed - (pos + 1)..])
      && var flipped := Flips(if ts[0] == P.MinusSign then !addition else addition, t.signs);
      r.value == ChainSum(Accumulate(sum, flipped, t.value), tail)
    ensures var r := FastTerm(ts, addition, sum, pos); var n := r.consumed - pos;
      var t' := Term([ts[0] == P.MinusSign] + t.signs, t.value);
      && 0 < n <= |ts| && ts[..n] == TermTokens(t') + ChainTokens(tail) && NoOperator(ts[n..])
      && r.value == ChainSum(Accumulate(sum, Flips(addition, t'.signs), t'.value), tail)
  {
    hide ChainSum, ChainTokens, NoOperator, FastRest, Accumulate;
    var n := FastTerm(ts, addition, sum, pos).consumed - pos;
    var t' := Term([ts[0] == P.MinusSign] + t.signs, t.value);
    assert t'.signs[1..] == t.signs;
    assert ts[..n] == [ts[0]] + ts[1..][..n - 1] && ts[n..] == ts[1..][n - 1..];
    Regroup([ts[0]], TermTokens(t), ChainTokens(tail), []);
  }

  lemma LiteralReads(ts: seq<P.Token>, addition: bool, sum: Word, pos: nat, tail: seq<Joined>)
    requires ts != [] && !IsSign(ts[0]) && IsLiteral(ts[0])
    requires var r := FastRest(ts[1..], Accumulate(sum, addition, ts[0].arg.value), pos + 1);
      r.Accepted? && 0 <= r.consumed - (pos + 1) <= |ts[1..]|
      && ts[1..][..r.consumed - (pos + 1)] == ChainTokens(tail)
      && NoOperator(ts[1..][r.consumed - (pos + 1)..])
      && r.value == ChainSum(Accumulate(sum, addition, ts[0].arg.value), tail)
    ensures var r := FastTerm(ts, addition, sum, pos); var n := r.consumed - pos; var t := Term([], ts[0].arg.value);
      && 0 < n <= |ts| && ts[..n] == TermTokens(t) + ChainTokens(tail) && NoOperator(ts[n..])
      && r.value == ChainSum(Accumulate(sum, Flips(addition, t.signs), t.value), tail)
  {
    hide ChainSum, ChainTokens, NoOperator, FastRest, Accumulate;
    var n := FastTerm(ts, addition, sum, pos).consumed - pos;
    assert ts[..n] == [ts[0]] + ts[1..][..n - 1] && ts[n..] == ts[1..][n - 1..];
  }

  lemma {:induction false} RestReads(ts: seq<P.Token>, sum: Word, pos: nat) returns (tail: seq<Joined>)
    requires FastRest(ts, sum, pos).Accepted?
    ensures var r := FastRest(ts, sum, pos); var n := r.consumed - pos;
      && 0 <= n <= |ts| && ts[..n] == ChainTokens(tail) && NoOperator(ts[n..])
      && r.value == ChainSum(sum, tail)
    decreases |ts|
  {
    hide FastTerm, TermTokens, NoOperator, Accumulate, Flips;
    var n := FastRest(ts, sum, pos).consumed - pos;
    if ts != [] && IsSign(ts[0]) {
      var minus := ts[0] == P.MinusSign;
      var t, tail' := TermReads(ts[1..], !minus, sum, pos + 1);
      tail := [Joined(minus, t)] + tail';
      assert tail[1..] == tail';
      assert ts[..n] == [ts[0]] + ts[1..][..n - 1] && ts[n..] == ts[1..][n - 1..];
    } else {
      tail := [];
      assert ts[..0] == [] && ts[0..] == ts;
    }
  }

  /** Behind a literal, the fast path goes by the next token as the parser does, but for an opening
      parenthesis. */
  lemma NextTokenDecides(v: Word, t: P.Token)
    ensures var ts := [P.Operand(Value(v, ASMSECT_ABS)), t];
      FastSpec(ts) == (if t == P.LParen || P.ParseSpec(ts) == P.Parsed([Push(Value(v, ASMSECT_ABS))], 1)
                       then Accepted(v, 1) else Declined)
  {
    var x := Value(v, ASMSECT_ABS);
    var ts := [P.Operand(x), t];
    assert ts[1..] == [t] && [t][1..] == [];
    WrapZero(v);
    var st := P.Advance(P.Operand(x), P.START);
    assert st == P.START.(code := [Push(x)], expected := P.XT_OP, pos := 1);
    assert P.Feed(ts, P.START) == P.Feed([t], st) == P.Advance(t, st);
    assert P.Flush([]) == [];
    assert FastSpec(ts) == FastRest([t], v, 1);
    assert FastRest([t], v, 1) == if IsSign(t) || !NoOperator([t]) then Declined else Accepted(v, 1);
    LiteralThen(t, x, st);
  }

  /** How the parser goes on behind a literal. */
  lemma LiteralThen(t: P.Token, x: Arg, st: P.State)
    requires st == P.START.(code := [Push(x)], expected := P.XT_OP, pos := 1)
    ensures P.Conclude(P.Advance(t, st)) ==
            if t.Operand? || t in {P.RParen, P.Colon, P.Other} then P.Parsed([Push(x)], 1) else P.Rejected
  {
    hide P.PopFor, P.PopForChoice;
    FlushNothing();
    PopsNothing([Push(x)]);
    match t
    case Operand(_) => assert P.Advance(t, st) == st.(done := true);
    case RParen => assert P.Advance(t, st) == st.(done := true);
    case Other => assert P.Advance(t, st) == st.(done := true);
    case Colon =>
      P.ColonReads(st);
      assert P.PushOperator(CHOICE, st) == st.(done := true);
    case _ => assert !P.Advance(t, st).good || P.Advance(t, st).expected == P.XT_ARG;
  }

  lemma PopsNothing(code: Code)
    ensures forall n :: P.PopFor(n, [], code) == P.PopForChoice(n, [], code) == P.Popped([], code, false)
  {
  }

  lemma WrapZero(v: Word)
    ensures Accumulate(0, true, v) == v
  {
  }

  /** MAIN: whatever the fast path accepts, unless an opening parenthesis follows directly,
      the parser accepts up to the same place and its code evaluates to the same word. */
  lemma FastAgreesWithSlow(ts: seq<P.Token>)
    requires FastSpec(ts).Accepted?
    requires FastSpec(ts).consumed < |ts| ==> ts[FastSpec(ts).consumed] != P.LParen
    ensures P.ParseSpec(ts).Parsed? && P.ParseSpec(ts).consumed == FastSpec(ts).consumed
    ensures var code := P.ParseSpec(ts).code;
      Runs(code, 0) && Resolved(code) &&
      Result(Run(code, START)) == Success(FastSpec(ts).value, ASMSECT_ABS)
  {
    hide P.ParseSpec, FastTerm, Run, Meaning, ChainSum;
    var n := FastSpec(ts).consumed;
    var t, tail := FastReads(ts);
    var e := ChainCst(TermCst(t), tail);
    TermShape(t);
    ChainShape(TermCst(t), tail);
    ParseInvertsPrint(e, ts[n..]);
    assert ts == ts[..n] + ts[n..];
    SumMeaning(t, tail);
    EvaluatorComputesTree(Strip(e));
  }

  /** With an opening parenthesis directly behind the sum, the parser rejects what the fast
      path accepts. */
  lemma ParenthesisParts(ts: seq<P.Token>)
    requires FastSpec(ts).Accepted? && FastSpec(ts).consumed < |ts|
    requires ts[FastSpec(ts).consumed] == P.LParen
    ensures P.ParseSpec(ts).Rejected?
  {
    hide FastTerm, ChainSum, P.Conclude;
    var n := FastSpec(ts).consumed;
    var t, tail := FastReads(ts);
    var e := ChainCst(TermCst(t), tail);
    TermShape(t);
    ChainShape(TermCst(t), tail);
    FeedExpression(e, P.START);
    assert ts == ts[..n] + ts[n..];
    FeedAppend(ts[..n], ts[n..], P.START);
    var st := After(e, P.START);
    assert P.Feed(ts[n..], st) == P.Feed(ts[n + 1..], P.Bad(st)) by {
      assert ts[n..][1..] == ts[n + 1..];
    }
    BadStaysBad(ts[n + 1..], P.Bad(st));
  }

  lemma FastReads(ts: seq<P.Token>) returns (t: Term, tail: seq<Joined>)
    requires FastSpec(ts).Accepted?
    ensures var r := FastSpec(ts);
      && 0 < r.consumed <= |ts| && ts[..r.consumed] == TermTokens(t) + ChainTokens(tail)
      && NoOperator(ts[r.consumed..])
      && r.value == ChainSum(Accumulate(0, Flips(true, t.signs), t.value), tail)
  {
    t, tail := TermReads(ts, true, 0, 0);
  }

  lemma SumMeaning(t: Term, tail: seq<Joined>)
    ensures var e := ChainCst(TermCst(t), tail);
      Closed(Strip(e)) &&
      Meaning(Strip(e)) == Plain(ChainSum(Accumulate(0, Flips(true, t.signs), t.value), tail))
  {
    hide ChainCst, TermCst, Strip, Tokens, ChainTokens, TermTokens, Level, Enough, ChainSum, Meaning, Closed;
    TermShape(t);
    TermMeaning(t);
    ChainShape(TermCst(t), tail);
    var v := Accumulate(0, Flips(true, t.signs), t.value);
    WrapIs(v, 0, v);
    ChainMeaning(TermCst(t), if Flips(true, t.signs) then t.value else Negate(t.value), tail);
  }

  // ----- the fast path is not vacuous -----

  /** Every sum of signed literals that no operator follows is accepted. */
  lemma {:induction false} TermAccepted(t: Term, tail: seq<Joined>, rest: seq<P.Token>, addition: bool, sum: Word,
                                        pos: nat)
    requires NoOperator(rest)
    ensures var ts := TermTokens(t) + ChainTokens(tail) + rest;
      FastTerm(ts, addition, sum, pos) ==
      Accepted(ChainSum(Accumulate(sum, Flips(addition, t.signs), t.value), tail),
               pos + |TermTokens(t)| + |ChainTokens(tail)|)
    decreases |tail|, |t.signs|, 1
  {
    hide ChainSum, ChainTokens, Accumulate, NoOperator;
    var ts := TermTokens(t) + ChainTokens(tail) + rest;
    if t.signs == [] {
      assert ts[1..] == ChainTokens(tail) + rest;
      RestAccepted(tail, rest, Accumulate(sum, addition, t.value), pos + 1);
    } else {
      var t' := Term(t.signs[1..], t.value);
      assert ts[1..] == TermTokens(t') + ChainTokens(tail) + rest;
      TermAccepted(t', tail, rest, if t.signs[0] then !addition else addition, sum, pos + 1);
    }
  }

  lemma {:induction false} RestAccepted(tail: seq<Joined>, rest: seq<P.Token>, sum: Word, pos: nat)
    requires NoOperator(rest)
    ensures FastRest(ChainTokens(tail) + rest, sum, pos) == Accepted(ChainSum(sum, tail), pos + |ChainTokens(tail)|)
    decreases |tail|, 0, 0
  {
    var ts := ChainTokens(tail) + rest;
    if tail == [] {
      assert ts == rest;
    } else {
      assert ts[1..] == TermTokens(tail[0].term) + ChainTokens(tail[1..]) + rest;
      TermAccepted(tail[0].term, tail[1..], rest, !tail[0].minus, sum, pos + 1);
    }
  }
}
