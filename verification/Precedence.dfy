/** Which operator binds tighter, said of the text and its code alone. */
module Precedence {
  import opened Operators
  import opened ExprTree
  import opened ParserRoundTrip
  import opened ParserSoundness
  import P = Parser

  // ----- the classes of binary operators, from the tightest to the loosest -----

  const PRODUCTS := {MULTIPLY, DIVISION, SIGNED_DIVISION, MODULO, SIGNED_MODULO, SHIFT_LEFT, SHIFT_RIGHT,
                     SIGNED_SHIFT_RIGHT}
  const MASKS := {BIT_AND, BIT_OR, BIT_XOR, BIT_ORNOT}
  const SUMS := {ADDITION, SUBTRACT}
  const COMPARISONS := {EQUAL, NOT_EQUAL, LESS, LESS_EQ, GREATER, GREATER_EQ, BELOW, BELOW_EQ, ABOVE, ABOVE_EQ}
  const LOGICALS := {LOGICAL_AND, LOGICAL_OR}

  /** The operator q is of a tighter class than p. */
  predicate Tighter(q: BinaryOp, p: BinaryOp) {
    || (q in PRODUCTS && p in MASKS + SUMS + COMPARISONS + LOGICALS)
    || (q in MASKS && p in SUMS + COMPARISONS + LOGICALS)
    || (q in SUMS && p in COMPARISONS + LOGICALS)
    || (q in COMPARISONS && p in LOGICALS)
  }

  lemma TighterIsHigher(q: BinaryOp, p: BinaryOp)
    ensures Tighter(q, p) <==> BinaryPriority(q) > BinaryPriority(p)
  {
    ClassOf(q);
    ClassOf(p);
    hide BinaryPriority;
  }

  lemma ClassOf(b: BinaryOp)
    ensures b in PRODUCTS <==> BinaryPriority(b) == 5
    ensures b in MASKS <==> BinaryPriority(b) == 4
    ensures b in SUMS <==> BinaryPriority(b) == 3
    ensures b in COMPARISONS <==> BinaryPriority(b) == 2
    ensures b in LOGICALS <==> BinaryPriority(b) == 1
  {
  }

  // ----- chains of operands and binary operators -----

  /** What stands between binary operators: an argument, a group, or either behind unary operators. */
  predicate IsOperand(x: Cst) {
    Enough(x) && match x { case Atom(_) => true case Group(_) => true case Prefix(_, _) => true case _ => false }
  }

  predicate IsChain(xs: seq<Cst>, ops: seq<BinaryOp>) {
    |xs| == |ops| + 1 && forall i | 0 <= i < |xs| :: IsOperand(xs[i])
  }

  function ChainTokens(xs: seq<Cst>, ops: seq<BinaryOp>): seq<P.Token>
    requires |xs| == |ops| + 1
  {
    Tokens(xs[0]) + if ops == [] then [] else [BinaryToken(ops[0])] + ChainTokens(xs[1..], ops[1..])
  }

  /** The last one of the loosest operators. */
  predicate LastLoosest(ops: seq<BinaryOp>, k: nat) {
    && k < |ops|
    && (forall i | 0 <= i < k :: !Tighter(ops[k], ops[i]))
    && (forall i | k < i < |ops| :: Tighter(ops[i], ops[k]))
  }

  lemma {:induction false} LoosestExists(ops: seq<BinaryOp>) returns (k: nat)
    requires ops != []
    ensures LastLoosest(ops, k)
  {
    var n := |ops| - 1;
    k := n;
    if n > 0 {
      hide Tighter, LastLoosest;
      var j := LoosestExists(ops[..n]);
      if Tighter(ops[n], ops[j]) {
        k := j;
        LoosestStays(ops, j);
      } else {
        LoosestNow(ops, j);
      }
    }
  }

  lemma LoosestStays(ops: seq<BinaryOp>, j: nat)
    requires ops != [] && LastLoosest(ops[..|ops| - 1], j) && Tighter(ops[|ops| - 1], ops[j])
    ensures LastLoosest(ops, j)
  {
    hide Tighter;
    assert forall i | 0 <= i < |ops| - 1 :: ops[..|ops| - 1][i] == ops[i];
  }

  lemma LoosestNow(ops: seq<BinaryOp>, j: nat)
    requires ops != [] && LastLoosest(ops[..|ops| - 1], j) && !Tighter(ops[|ops| - 1], ops[j])
    ensures LastLoosest(ops, |ops| - 1)
  {
    hide Tighter, BinaryPriority;
    var n := |ops| - 1;
    forall i | 0 <= i < n ensures !Tighter(ops[n], ops[i]) {
      assert ops[..n][i] == ops[i];
      TighterIsHigher(ops[n], ops[i]);
      TighterIsHigher(ops[n], ops[j]);
      TighterIsHigher(ops[i], ops[j]);
      TighterIsHigher(ops[j], ops[i]);
    }
  }

  lemma {:induction false} ChainParts(xs: seq<Cst>, ops: seq<BinaryOp>, k: nat)
    requires |xs| == |ops| + 1 && k < |ops|
    ensures ChainTokens(xs, ops) ==
            ChainTokens(xs[..k + 1], ops[..k]) + [BinaryToken(ops[k])] + ChainTokens(xs[k + 1..], ops[k + 1..])
  {
    hide BinaryToken, Tokens;
    if k > 0 {
      ChainParts(xs[1..], ops[1..], k - 1);
      assert xs[1..][..k] == xs[..k + 1][1..] && ops[1..][..k - 1] == ops[..k][1..];
      assert xs[1..][k..] == xs[k + 1..] && ops[1..][k..] == ops[k + 1..];
    } else {
      assert ops[..0] == [];
    }
  }

  /** A chain as it is read, with the level of its loosest operator. */
  lemma {:induction false} ReadChain(xs: seq<Cst>, ops: seq<BinaryOp>) returns (e: Cst)
    requires IsChain(xs, ops)
    ensures Enough(e) && Tokens(e) == ChainTokens(xs, ops)
    ensures ops == [] ==> e == xs[0]
    ensures forall k: nat | LastLoosest(ops, k) ::
              && e.Infix? && e.b == ops[k]
              && Tokens(e.l) == ChainTokens(xs[..k + 1], ops[..k])
              && Tokens(e.r) == ChainTokens(xs[k + 1..], ops[k + 1..])
              && Enough(e.l) && Enough(e.r)
    decreases |ops|
  {
    hide BinaryPriority, BinaryToken, Tighter;
    if ops == [] {
      e := xs[0];
    } else {
      var k := LoosestExists(ops);
      var l := ReadChain(xs[..k + 1], ops[..k]);
      var r := ReadChain(xs[k + 1..], ops[k + 1..]);
      e := Infix(ops[k], l, r);
      ChainParts(xs, ops, k);
      PartsLevel(xs[..k + 1], ops[..k], l, ops[k], false);
      PartsLevel(xs[k + 1..], ops[k + 1..], r, ops[k], true);
      forall j: nat | LastLoosest(ops, j) ensures j == k {
        LoosestIsOne(ops, j, k);
      }
    }
  }

  lemma LoosestIsOne(ops: seq<BinaryOp>, j: nat, k: nat)
    requires LastLoosest(ops, j) && LastLoosest(ops, k)
    ensures j == k
  {
    if j < k {
      EarlierLooser(ops, j, k);
      LaterTighter(ops, j, k);
    } else if k < j {
      EarlierLooser(ops, k, j);
      LaterTighter(ops, k, j);
    }
  }

  lemma LaterTighter(ops: seq<BinaryOp>, j: nat, k: nat)
    requires LastLoosest(ops, j) && j < k < |ops|
    ensures Tighter(ops[k], ops[j])
  {
    hide Tighter;
  }

  lemma EarlierLooser(ops: seq<BinaryOp>, j: nat, k: nat)
    requires LastLoosest(ops, k) && j < k
    ensures !Tighter(ops[k], ops[j])
  {
    hide Tighter;
  }

  /** A part of a chain binds at least as tight as an operator that is not tighter than any in it. */
  lemma PartsLevel(xs: seq<Cst>, ops: seq<BinaryOp>, e: Cst, b: BinaryOp, strictly: bool)
    requires IsChain(xs, ops) && (ops == [] ==> e == xs[0])
    requires forall k: nat | LastLoosest(ops, k) :: e.Infix? && e.b == ops[k]
    requires forall i | 0 <= i < |ops| :: if strictly then Tighter(ops[i], b) else !Tighter(b, ops[i])
    ensures if strictly then Level(e) > BinaryPriority(b) else Level(e) >= BinaryPriority(b)
  {
    if ops == [] {
      assert IsOperand(xs[0]);
    } else {
      var k := LoosestExists(ops);
      TighterIsHigher(ops[k], b);
      TighterIsHigher(b, ops[k]);
    }
    hide Tighter;
  }

  /** The code of a chain is that of the part before its last loosest operator, that of the part
      behind it, and the operator. */
  lemma ChainSplits(xs: seq<Cst>, ops: seq<BinaryOp>, k: nat, rest: seq<P.Token>) returns (left: Code, right: Code)
    requires IsChain(xs, ops) && LastLoosest(ops, k) && Ends(rest)
    ensures var ls, rs := ChainTokens(xs[..k + 1], ops[..k]), ChainTokens(xs[k + 1..], ops[k + 1..]);
      && P.ParseSpec(ls + rest) == P.Parsed(left, |ls|)
      && P.ParseSpec(rs + rest) == P.Parsed(right, |rs|)
    ensures P.ParseSpec(ChainTokens(xs, ops) + rest)
            == P.Parsed(left + right + [Apply(Binary(ops[k]))], |ChainTokens(xs, ops)|)
  {
    hide P.ParseSpec, Tokens, ChainTokens, LastLoosest, IsChain, Ends;
    var e := ReadChain(xs, ops);
    left, right := Postfix(Strip(e.l)), Postfix(Strip(e.r));
    ParseInvertsPrint(e, rest);
    ParseInvertsPrint(e.l, rest);
    ParseInvertsPrint(e.r, rest);
  }

  // ----- short texts -----

  /** A text that is read as some code, whatever ends it. */
  ghost predicate ReadAs(ts: seq<P.Token>, code: Code) {
    forall rest | Ends(rest) :: P.ParseSpec(ts + rest) == P.Parsed(code, |ts|)
  }

  /** An expression with enough parentheses, its text and its code. */
  ghost predicate Writes(e: Cst, ts: seq<P.Token>, code: Code) {
    Enough(e) && Tokens(e) == ts && Postfix(Strip(e)) == code
  }

  lemma WrittenIsRead(e: Cst, ts: seq<P.Token>, code: Code)
    requires Writes(e, ts, code)
    ensures ReadAs(ts, code)
  {
    hide Tokens, Postfix, Strip, Enough, P.ParseSpec, Ends;
    forall rest | Ends(rest) ensures P.ParseSpec(ts + rest) == P.Parsed(code, |ts|) {
      ParseInvertsPrint(e, rest);
    }
  }

  function A(x: Arg): P.Token {
    P.Operand(x)
  }

  /** A unary operator in the code. */
  function Mark(u: UnaryOp): Code {
    if u == PLUS then [] else [Apply(Unary(u))]
  }

  lemma AtomWrites(x: Arg)
    ensures Writes(Atom(x), [A(x)], [Push(x)])
  {
  }

  lemma GroupWrites(e: Cst, ts: seq<P.Token>, code: Code)
    requires Writes(e, ts, code)
    ensures Writes(Group(e), [P.LParen] + ts + [P.RParen], code)
  {
  }

  lemma PrefixWrites(u: UnaryOp, e: Cst, ts: seq<P.Token>, code: Code)
    requires Writes(e, ts, code) && Level(e) >= 6
    ensures Writes(Prefix(u, e), [UnaryToken(u)] + ts, code + Mark(u))
  {
  }

  lemma InfixWrites(b: BinaryOp, l: Cst, r: Cst, ls: seq<P.Token>, rs: seq<P.Token>, left: Code, right: Code)
    requires Writes(l, ls, left) && Writes(r, rs, right)
    requires Level(l) >= BinaryPriority(b) && Level(r) > BinaryPriority(b)
    ensures Writes(Infix(b, l, r), ls + [BinaryToken(b)] + rs, left + right + [Apply(Binary(b))])
  {
  }

  lemma TernaryWrites(c: Cst, t: Cst, f: Cst, cs: seq<P.Token>, ts: seq<P.Token>, fs: seq<P.Token>,
                      cond: Code, left: Code, right: Code)
    requires Writes(c, cs, cond) && Writes(t, ts, left) && Writes(f, fs, right) && Level(c) >= 1
    ensures Writes(Ternary(c, t, f), cs + [P.Question] + ts + [P.Colon] + fs, cond + left + right + [Apply(CHOICE)])
  {
  }

  /** Of two operators the second one is computed first exactly when it is tighter. */
  lemma TwoOperators(p: BinaryOp, q: BinaryOp, x: Arg, y: Arg, z: Arg)
    ensures ReadAs([A(x), BinaryToken(p), A(y), BinaryToken(q), A(z)],
                   if Tighter(q, p) then [Push(x), Push(y), Push(z), Apply(Binary(q)), Apply(Binary(p))]
                   else [Push(x), Push(y), Apply(Binary(p)), Push(z), Apply(Binary(q))])
  {
    hide BinaryPriority, BinaryToken, Tighter, ReadAs, Writes;
    TighterIsHigher(q, p);
    var ts := [A(x), BinaryToken(p), A(y), BinaryToken(q), A(z)];
    AtomWrites(x);
    AtomWrites(y);
    AtomWrites(z);
    if Tighter(q, p) {
      InfixWrites(q, Atom(y), Atom(z), [A(y)], [A(z)], [Push(y)], [Push(z)]);
      var r := Infix(q, Atom(y), Atom(z));
      var rs, right := [A(y)] + [BinaryToken(q)] + [A(z)], [Push(y)] + [Push(z)] + [Apply(Binary(q))];
      InfixWrites(p, Atom(x), r, [A(x)], rs, [Push(x)], right);
      assert [A(x)] + [BinaryToken(p)] + rs == ts;
      WrittenIsRead(Infix(p, Atom(x), r), ts, [Push(x)] + right + [Apply(Binary(p))]);
      assert [Push(x)] + right + [Apply(Binary(p))]
             == [Push(x), Push(y), Push(z), Apply(Binary(q)), Apply(Binary(p))];
    } else {
      InfixWrites(p, Atom(x), Atom(y), [A(x)], [A(y)], [Push(x)], [Push(y)]);
      var l := Infix(p, Atom(x), Atom(y));
      var ls, left := [A(x)] + [BinaryToken(p)] + [A(y)], [Push(x)] + [Push(y)] + [Apply(Binary(p))];
      InfixWrites(q, l, Atom(z), ls, [A(z)], left, [Push(z)]);
      assert ls + [BinaryToken(q)] + [A(z)] == ts;
      WrittenIsRead(Infix(q, l, Atom(z)), ts, left + [Push(z)] + [Apply(Binary(q))]);
      assert left + [Push(z)] + [Apply(Binary(q))]
             == [Push(x), Push(y), Apply(Binary(p)), Push(z), Apply(Binary(q))];
    }
  }

  /** One binary operator between arguments. */
  lemma PairWrites(b: BinaryOp, x: Arg, y: Arg)
    ensures var e := Infix(b, Atom(x), Atom(y));
      && Writes(e, [A(x), BinaryToken(b), A(y)], [Push(x), Push(y), Apply(Binary(b))])
      && Level(e) == BinaryPriority(b)
  {
    hide Writes, BinaryToken;
    AtomWrites(x);
    AtomWrites(y);
    InfixWrites(b, Atom(x), Atom(y), [A(x)], [A(y)], [Push(x)], [Push(y)]);
    assert [A(x)] + [BinaryToken(b)] + [A(y)] == [A(x), BinaryToken(b), A(y)];
    assert [Push(x)] + [Push(y)] + [Apply(Binary(b))] == [Push(x), Push(y), Apply(Binary(b))];
  }

  /** Parentheses overrule the classes. */
  lemma GroupsFirst(p: BinaryOp, q: BinaryOp, x: Arg, y: Arg, z: Arg)
    ensures ReadAs([P.LParen, A(x), BinaryToken(p), A(y), P.RParen, BinaryToken(q), A(z)],
                   [Push(x), Push(y), Apply(Binary(p)), Push(z), Apply(Binary(q))])
    ensures ReadAs([A(x), BinaryToken(p), P.LParen, A(y), BinaryToken(q), A(z), P.RParen],
                   [Push(x), Push(y), Push(z), Apply(Binary(q)), Apply(Binary(p))])
  {
    hide BinaryPriority, BinaryToken, ReadAs, Writes;
    AtomWrites(x);
    AtomWrites(z);
    var ls, left := [A(x), BinaryToken(p), A(y)], [Push(x), Push(y), Apply(Binary(p))];
    PairWrites(p, x, y);
    GroupWrites(Infix(p, Atom(x), Atom(y)), ls, left);
    var l := Group(Infix(p, Atom(x), Atom(y)));
    InfixWrites(q, l, Atom(z), [P.LParen] + ls + [P.RParen], [A(z)], left, [Push(z)]);
    WrittenIsRead(Infix(q, l, Atom(z)), [P.LParen] + ls + [P.RParen] + [BinaryToken(q)] + [A(z)],
                  left + [Push(z)] + [Apply(Binary(q))]);
    assert [P.LParen] + ls + [P.RParen] + [BinaryToken(q)] + [A(z)]
           == [P.LParen, A(x), BinaryToken(p), A(y), P.RParen, BinaryToken(q), A(z)];
    assert left + [Push(z)] + [Apply(Binary(q))] == [Push(x), Push(y), Apply(Binary(p)), Push(z), Apply(Binary(q))];
    var rs, right := [A(y), BinaryToken(q), A(z)], [Push(y), Push(z), Apply(Binary(q))];
    PairWrites(q, y, z);
    GroupWrites(Infix(q, Atom(y), Atom(z)), rs, right);
    var r := Group(Infix(q, Atom(y), Atom(z)));
    InfixWrites(p, Atom(x), r, [A(x)], [P.LParen] + rs + [P.RParen], [Push(x)], right);
    WrittenIsRead(Infix(p, Atom(x), r), [A(x)] + [BinaryToken(p)] + ([P.LParen] + rs + [P.RParen]),
                  [Push(x)] + right + [Apply(Binary(p))]);
    assert [A(x)] + [BinaryToken(p)] + ([P.LParen] + rs + [P.RParen])
           == [A(x), BinaryToken(p), P.LParen, A(y), BinaryToken(q), A(z), P.RParen];
    assert [Push(x)] + right + [Apply(Binary(p))] == [Push(x), Push(y), Push(z), Apply(Binary(q)), Apply(Binary(p))];
  }

  lemma SignWrites(u: UnaryOp, x: Arg)
    ensures Writes(Prefix(u, Atom(x)), [UnaryToken(u), A(x)], [Push(x)] + Mark(u))
  {
    hide Writes, UnaryToken;
    AtomWrites(x);
    PrefixWrites(u, Atom(x), [A(x)], [Push(x)]);
    assert [UnaryToken(u)] + [A(x)] == [UnaryToken(u), A(x)];
  }

  /** Unary operators bind tighter than all binary ones, the inner one first. */
  lemma UnaryFirst(u: UnaryOp, v: UnaryOp, p: BinaryOp, x: Arg, y: Arg)
    ensures ReadAs([UnaryToken(u), A(x), BinaryToken(p), A(y)], [Push(x)] + Mark(u) + [Push(y), Apply(Binary(p))])
    ensures ReadAs([A(x), BinaryToken(p), UnaryToken(u), A(y)], [Push(x), Push(y)] + Mark(u) + [Apply(Binary(p))])
    ensures ReadAs([UnaryToken(u), UnaryToken(v), A(x)], [Push(x)] + Mark(v) + Mark(u))
  {
    hide BinaryPriority, BinaryToken, UnaryToken, ReadAs, Writes, Mark;
    AtomWrites(x);
    AtomWrites(y);
    SignWrites(u, x);
    SignWrites(u, y);
    SignWrites(v, x);
    InfixWrites(p, Prefix(u, Atom(x)), Atom(y), [UnaryToken(u), A(x)], [A(y)], [Push(x)] + Mark(u), [Push(y)]);
    WrittenIsRead(Infix(p, Prefix(u, Atom(x)), Atom(y)), [UnaryToken(u), A(x)] + [BinaryToken(p)] + [A(y)],
                  [Push(x)] + Mark(u) + [Push(y)] + [Apply(Binary(p))]);
    assert [UnaryToken(u), A(x)] + [BinaryToken(p)] + [A(y)] == [UnaryToken(u), A(x), BinaryToken(p), A(y)];
    assert [Push(x)] + Mark(u) + [Push(y)] + [Apply(Binary(p))] == [Push(x)] + Mark(u) + [Push(y), Apply(Binary(p))];
    InfixWrites(p, Atom(x), Prefix(u, Atom(y)), [A(x)], [UnaryToken(u), A(y)], [Push(x)], [Push(y)] + Mark(u));
    WrittenIsRead(Infix(p, Atom(x), Prefix(u, Atom(y))), [A(x)] + [BinaryToken(p)] + [UnaryToken(u), A(y)],
                  [Push(x)] + ([Push(y)] + Mark(u)) + [Apply(Binary(p))]);
    assert [A(x)] + [BinaryToken(p)] + [UnaryToken(u), A(y)] == [A(x), BinaryToken(p), UnaryToken(u), A(y)];
    assert [Push(x)] + ([Push(y)] + Mark(u)) + [Apply(Binary(p))] == [Push(x), Push(y)] + Mark(u) + [Apply(Binary(p))];
    PrefixWrites(u, Prefix(v, Atom(x)), [UnaryToken(v), A(x)], [Push(x)] + Mark(v));
    WrittenIsRead(Prefix(u, Prefix(v, Atom(x))), [UnaryToken(u)] + [UnaryToken(v), A(x)],
                  [Push(x)] + Mark(v) + Mark(u));
    assert [UnaryToken(u)] + [UnaryToken(v), A(x)] == [UnaryToken(u), UnaryToken(v), A(x)];
  }

  lemma ChoiceReads(c: Cst, t: Cst, f: Cst, cs: seq<P.Token>, ts: seq<P.Token>, fs: seq<P.Token>,
                    cond: Code, left: Code, right: Code, all: seq<P.Token>, code: Code)
    requires Writes(c, cs, cond) && Writes(t, ts, left) && Writes(f, fs, right) && Level(c) >= 1
    requires all == cs + [P.Question] + ts + [P.Colon] + fs && code == cond + left + right + [Apply(CHOICE)]
    ensures ReadAs(all, code) && Writes(Ternary(c, t, f), all, code)
  {
    hide Writes, ReadAs, Level;
    TernaryWrites(c, t, f, cs, ts, fs, cond, left, right);
    WrittenIsRead(Ternary(c, t, f), all, code);
  }

  /** The choice binds looser than all binary operators. */
  lemma ChoiceLast(p: BinaryOp, x: Arg, y: Arg, z: Arg, w: Arg)
    ensures ReadAs([A(x), BinaryToken(p), A(y), P.Question, A(z), P.Colon, A(w)],
                   [Push(x), Push(y), Apply(Binary(p)), Push(z), Push(w), Apply(CHOICE)])
    ensures ReadAs([A(x), P.Question, A(y), BinaryToken(p), A(z), P.Colon, A(w)],
                   [Push(x), Push(y), Push(z), Apply(Binary(p)), Push(w), Apply(CHOICE)])
    ensures ReadAs([A(x), P.Question, A(y), P.Colon, A(z), BinaryToken(p), A(w)],
                   [Push(x), Push(y), Push(z), Push(w), Apply(Binary(p)), Apply(CHOICE)])
  {
    hide BinaryPriority, BinaryToken, ReadAs, Writes;
    AtomWrites(x);
    AtomWrites(y);
    AtomWrites(z);
    AtomWrites(w);
    PairWrites(p, x, y);
    PairWrites(p, y, z);
    PairWrites(p, z, w);
    var b := BinaryToken(p);
    ChoiceReads(Infix(p, Atom(x), Atom(y)), Atom(z), Atom(w), [A(x), b, A(y)], [A(z)], [A(w)],
                [Push(x), Push(y), Apply(Binary(p))], [Push(z)], [Push(w)],
                [A(x), b, A(y), P.Question, A(z), P.Colon, A(w)],
                [Push(x), Push(y), Apply(Binary(p)), Push(z), Push(w), Apply(CHOICE)]);
    ChoiceReads(Atom(x), Infix(p, Atom(y), Atom(z)), Atom(w), [A(x)], [A(y), b, A(z)], [A(w)],
                [Push(x)], [Push(y), Push(z), Apply(Binary(p))], [Push(w)],
                [A(x), P.Question, A(y), b, A(z), P.Colon, A(w)],
                [Push(x), Push(y), Push(z), Apply(Binary(p)), Push(w), Apply(CHOICE)]);
    ChoiceReads(Atom(x), Atom(y), Infix(p, Atom(z), Atom(w)), [A(x)], [A(y)], [A(z), b, A(w)],
                [Push(x)], [Push(y)], [Push(z), Push(w), Apply(Binary(p))],
                [A(x), P.Question, A(y), P.Colon, A(z), b, A(w)],
                [Push(x), Push(y), Push(z), Push(w), Apply(Binary(p)), Apply(CHOICE)]);
  }

  lemma SmallChoice(a: Arg, b: Arg, c: Arg)
    ensures Writes(Ternary(Atom(a), Atom(b), Atom(c)), [A(a), P.Question, A(b), P.Colon, A(c)],
                   [Push(a), Push(b), Push(c), Apply(CHOICE)])
  {
    hide Writes;
    AtomWrites(a);
    AtomWrites(b);
    AtomWrites(c);
    ChoiceReads(Atom(a), Atom(b), Atom(c), [A(a)], [A(b)], [A(c)], [Push(a)], [Push(b)], [Push(c)],
                [A(a), P.Question, A(b), P.Colon, A(c)], [Push(a), Push(b), Push(c), Apply(CHOICE)]);
  }

  /** Choices in the arms of a choice need no parentheses. */
  lemma ChoicesNest(a: Arg, b: Arg, c: Arg, d: Arg, e: Arg)
    ensures ReadAs([A(a), P.Question, A(b), P.Colon, A(c), P.Question, A(d), P.Colon, A(e)],
                   [Push(a), Push(b), Push(c), Push(d), Push(e), Apply(CHOICE), Apply(CHOICE)])
    ensures ReadAs([A(a), P.Question, A(b), P.Question, A(c), P.Colon, A(d), P.Colon, A(e)],
                   [Push(a), Push(b), Push(c), Push(d), Apply(CHOICE), Push(e), Apply(CHOICE)])
  {
    hide ReadAs, Writes;
    AtomWrites(a);
    AtomWrites(b);
    AtomWrites(e);
    SmallChoice(c, d, e);
    SmallChoice(b, c, d);
    ChoiceReads(Atom(a), Atom(b), Ternary(Atom(c), Atom(d), Atom(e)),
                [A(a)], [A(b)], [A(c), P.Question, A(d), P.Colon, A(e)],
                [Push(a)], [Push(b)], [Push(c), Push(d), Push(e), Apply(CHOICE)],
                [A(a), P.Question, A(b), P.Colon, A(c), P.Question, A(d), P.Colon, A(e)],
                [Push(a), Push(b), Push(c), Push(d), Push(e), Apply(CHOICE), Apply(CHOICE)]);
    ChoiceReads(Atom(a), Ternary(Atom(b), Atom(c), Atom(d)), Atom(e),
                [A(a)], [A(b), P.Question, A(c), P.Colon, A(d)], [A(e)],
                [Push(a)], [Push(b), Push(c), Push(d), Apply(CHOICE)], [Push(e)],
                [A(a), P.Question, A(b), P.Question, A(c), P.Colon, A(d), P.Colon, A(e)],
                [Push(a), Push(b), Push(c), Push(d), Apply(CHOICE), Push(e), Apply(CHOICE)]);
  }

  // ----- what cannot follow an expression, and the expression that is empty -----

  lemma NothingElseFollows(e: Cst, t: P.Token, rest: seq<P.Token>)
    requires Enough(e) && t in {P.LParen, P.Tilde, P.LoneEqual}
    ensures P.ParseSpec(Tokens(e) + ([t] + rest)).Rejected?
  {
    hide P.Feed, P.Conclude, P.PushOperator;
    FeedExpression(e, P.START);
    FeedAppend(Tokens(e), [t] + rest, P.START);
    var st := After(e, P.START);
    FeedAppend([t], rest, st);
    FeedOne(t, st);
    BadStaysBad(rest, P.Advance(t, st));
  }

  lemma EmptyExpression(rest: seq<P.Token>)
    ensures P.ParseSpec([]) == P.Parsed([], 0) == P.ParseSpec([P.Other] + rest)
  {
    var st := P.Advance(P.Other, P.START);
    assert st == P.START.(done := true);
    FeedOne(P.Other, P.START);
    FeedAppend([P.Other], rest, P.START);
  }
}
