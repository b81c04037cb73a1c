/** What the evaluator computes for each operator, in terms of integers and of single bits. */
module OperatorMeaning {
  import opened Words
  import opened Operators
  import opened AbsoluteMachine

  // ----- running one operator -----

  function Constant(x: Word): Instr {
    Push(Value(x, ASMSECT_ABS))
  }

  /** What the evaluator reports for a unary operator. */
  ghost function Unary1(u: UnaryOp, x: Word): Outcome {
    UnaryRuns(u, x);
    Result(Run([Constant(x), Apply(Unary(u))], START))
  }

  /** What the evaluator reports for a binary operator. */
  ghost function Binary2(b: BinaryOp, x: Word, y: Word): Outcome {
    BinaryRuns(b, x, y);
    Result(Run([Constant(x), Constant(y), Apply(Binary(b))], START))
  }

  /** A run given by all its states. */
  lemma {:induction false} RunStates(code: Code, states: seq<State>)
    requires |states| == |code| + 1
    requires forall k | 0 <= k < |code| ::
               Arity(code[k]) <= |states[k].stack| && (code[k].Push? ==> code[k].arg.Value?)
    requires forall k, m | 0 <= k < m < |states| && m == k + 1 :: states[m] == Step(code[k], states[k])
    ensures Runs(code, |states[0].stack|) && Resolved(code) && Run(code, states[0]) == states[|code|]
  {
    hide Step;
    if code != [] {
      assert states[1] == Step(code[0], states[0]);
      RunStates(code[1..], states[1..]);
      assert forall k | 0 <= k < |code| :: k > 0 ==> code[k] == code[1..][k - 1];
    }
  }

  lemma UnaryRuns(u: UnaryOp, x: Word)
    ensures var code := [Constant(x), Apply(Unary(u))];
      Runs(code, 0) && Resolved(code) && Run(code, START) == State([UnaryWord(u, x)], false, false)
  {
    hide UnaryWord;
    RunStates([Constant(x), Apply(Unary(u))], [START, Holding([x]), Holding([UnaryWord(u, x)])]);
  }

  function Holding(stack: seq<Word>): State {
    State(stack, false, false)
  }

  lemma BinaryRuns(b: BinaryOp, x: Word, y: Word)
    ensures var code := [Constant(x), Constant(y), Apply(Binary(b))];
      && Runs(code, 0) && Resolved(code)
      && var a := BinaryWord(b, x, y);
      Run(code, START) == State([a.value], a.failed, a.trapped)
  {
    hide BinaryWord;
    var a := BinaryWord(b, x, y);
    RunStates([Constant(x), Constant(y), Apply(Binary(b))],
              [START, Holding([x]), Holding([x, y]), State([a.value], a.failed, a.trapped)]);
  }

  /** The word that the evaluator reports, when it succeeds. */
  ghost function Computed(b: BinaryOp, x: Word, y: Word): Word {
    if Binary2(b, x, y).Success? then Binary2(b, x, y).value else 0
  }

  lemma Reported(b: BinaryOp, x: Word, y: Word)
    ensures var a := BinaryWord(b, x, y);
      Binary2(b, x, y) == if a.trapped then Trapped else if a.failed then Failed else Success(a.value, ASMSECT_ABS)
  {
    hide BinaryWord;
    BinaryRuns(b, x, y);
  }

  /** An empty program yields zero. */
  lemma NothingComputed()
    ensures Result(Run([], START)) == Success(0, ASMSECT_ABS)
  {
  }

  // ----- two's complement -----

  /** The signed value of a word is the integer in the signed range that differs by a multiple of 2^64. */
  lemma SignedIs(x: Word)
    ensures -0x8000_0000_0000_0000 <= Signed(x) < 0x8000_0000_0000_0000
    ensures (Signed(x) - x) % 0x1_0000_0000_0000_0000 == 0
  {
  }

  lemma SignedWrap(i: int)
    requires -0x8000_0000_0000_0000 <= i < 0x8000_0000_0000_0000
    ensures Signed(Wrap(i)) == i
  {
    WrapIs(i, if i < 0 then -1 else 0, if i < 0 then i + MODULUS else i);
  }

  /** Wrapping changes a number by a multiple of 2^64. */
  lemma WrapsBy(i: int)
    ensures (i - Wrap(i)) % 0x1_0000_0000_0000_0000 == 0
  {
    var q := i / MODULUS;
    assert i - Wrap(i) == q * MODULUS + 0;
    DivModUnique(i - Wrap(i), MODULUS, q, 0);
  }

  // ----- sums and products -----

  /** Sums, differences and products are taken modulo 2^64. */
  lemma SumsModulo(x: Word, y: Word)
    ensures forall b | b in {ADDITION, SUBTRACT, MULTIPLY} ::
              Binary2(b, x, y) == Success(Computed(b, x, y), ASMSECT_ABS)
    ensures (x + y - Computed(ADDITION, x, y)) % 0x1_0000_0000_0000_0000 == 0
    ensures (x - y - Computed(SUBTRACT, x, y)) % 0x1_0000_0000_0000_0000 == 0
    ensures (x * y - Computed(MULTIPLY, x, y)) % 0x1_0000_0000_0000_0000 == 0
  {
    hide Wrap, Binary2;
    forall b | b in {ADDITION, SUBTRACT, MULTIPLY}
      ensures Binary2(b, x, y) == Success(BinaryWord(b, x, y).value, ASMSECT_ABS)
    {
      Reported(b, x, y);
    }
    WrapsBy(x + y);
    WrapsBy(x - y);
    WrapsBy(x * y);
  }

  // ----- quotients and remainders -----

  /** Exactly a zero divisor fails, and exactly the least integer by -1 traps in the signed case. */
  lemma DivisionErrors(b: BinaryOp, x: Word, y: Word)
    ensures Binary2(b, x, y) ==
            if b in {DIVISION, SIGNED_DIVISION, MODULO, SIGNED_MODULO} && y == 0 then Failed
            else if b in {SIGNED_DIVISION, SIGNED_MODULO} && x == 0x8000_0000_0000_0000 && y == 0xffff_ffff_ffff_ffff
            then Trapped
            else Success(Computed(b, x, y), ASMSECT_ABS)
  {
    hide Binary2, Compare, TruncDiv, TruncMod, BitWord, ShiftLeft, ShiftRight, SignedShiftRight;
    Reported(b, x, y);
  }

  lemma DivMod(x: int, d: int)
    requires d > 0
    ensures x == x / d * d + x % d && 0 <= x % d < d
    ensures x / d * d <= x < (x / d + 1) * d
  {
    assert (x / d + 1) * d == x / d * d + d;
  }

  /** The unsigned quotient is the whole part, and the remainder what is left. */
  lemma UnsignedDivision(x: Word, y: Word)
    requires y != 0
    ensures var q, r := Computed(DIVISION, x, y), Computed(MODULO, x, y);
      q * y <= x < (q + 1) * y && x == q * y + r && 0 <= r < y
  {
    hide Binary2;
    Reported(DIVISION, x, y);
    Reported(MODULO, x, y);
    DivMod(x, y);
    DivShrinks(x, y);
    WrapIs(x / y, 0, x / y);
    WrapIs(x % y, 0, x % y);
  }

  /** The quotient of integers rounded toward zero: what is left is less than the divisor and has the
      sign of the dividend. */
  predicate RoundsToZero(a: int, b: int, q: int, r: int) {
    && a == q * b + r
    && (if b > 0 then -b < r < b else b < r < -b)
    && (if a >= 0 then r >= 0 else r <= 0)
  }

  lemma SignedProducts(q: int, m: int)
    ensures (0 - q) * m == 0 - q * m && q * (0 - m) == 0 - q * m && (0 - q) * (0 - m) == q * m
  {
  }

  lemma TruncRounds(a: int, b: int)
    requires b != 0
    ensures RoundsToZero(a, b, TruncDiv(a, b), TruncMod(a, b))
  {
    var n := Abs(b);
    var q, r := Abs(a) / n, Abs(a) % n;
    DivMod(Abs(a), n);
    SignedProducts(q, n);
    TruncParts(a, b);
    var t := TruncDiv(a, b);
    hide TruncDiv, TruncMod;
    assert TruncMod(a, b) == if a < 0 then 0 - r else r by {
      assert t * b == if a < 0 then 0 - q * n else q * n;
    }
  }

  lemma TruncParts(a: int, b: int)
    requires b != 0
    ensures TruncDiv(a, b) == if (a < 0) == (b < 0) then Abs(a) / Abs(b) else 0 - Abs(a) / Abs(b)
    ensures a == TruncDiv(a, b) * b + TruncMod(a, b)
  {
    assert b * TruncDiv(a, b) == TruncDiv(a, b) * b;
  }

  lemma TruncSmall(a: int, b: int)
    requires b != 0 && -0x8000_0000_0000_0000 <= a < 0x8000_0000_0000_0000
    requires -0x8000_0000_0000_0000 <= b < 0x8000_0000_0000_0000
    requires !(a == -0x8000_0000_0000_0000 && b == -1)
    ensures -0x8000_0000_0000_0000 <= TruncDiv(a, b) < 0x8000_0000_0000_0000
    ensures -0x8000_0000_0000_0000 <= TruncMod(a, b) < 0x8000_0000_0000_0000
  {
    TruncRounds(a, b);
    DivShrinks(Abs(a), Abs(b));
    if Abs(a) == 0x8000_0000_0000_0000 && Abs(b) >= 2 {
      DivMod(Abs(a), Abs(b));
      MulAtLeast(Abs(a) / Abs(b) - 0x4000_0000_0000_0000, Abs(b));
      HalfAtMost(Abs(a) / Abs(b), Abs(b), Abs(a));
    }
  }

  lemma HalfAtMost(q: nat, n: nat, m: nat)
    requires n >= 2 && q * n <= m
    ensures 2 * q <= m
  {
    assert q * n >= q * 2;
  }

  /** The signed quotient and remainder round toward zero, as long as the quotient can be
      represented. */
  lemma SignedDivision(x: Word, y: Word)
    requires y != 0 && !(x == 0x8000_0000_0000_0000 && y == 0xffff_ffff_ffff_ffff)
    ensures RoundsToZero(Signed(x), Signed(y), Signed(Computed(SIGNED_DIVISION, x, y)),
                         Signed(Computed(SIGNED_MODULO, x, y)))
  {
    hide Binary2, TruncDiv, TruncMod, Wrap;
    Reported(SIGNED_DIVISION, x, y);
    Reported(SIGNED_MODULO, x, y);
    var a, b := Signed(x), Signed(y);
    TruncRounds(a, b);
    TruncSmall(a, b);
    SignedWrap(TruncDiv(a, b));
    SignedWrap(TruncMod(a, b));
    hide RoundsToZero, Signed;
  }

  // ----- shifts -----

  /** Shifting right divides by a power of two and rounds down; shifting left multiplies modulo 2^64. */
  lemma Shifts(x: Word, y: Word)
    requires y < 64
    ensures Pow2(y) > 0
    ensures (x * Pow2(y) - Computed(SHIFT_LEFT, x, y)) % 0x1_0000_0000_0000_0000 == 0
    ensures var r := Computed(SHIFT_RIGHT, x, y); r * Pow2(y) <= x < (r + 1) * Pow2(y)
    ensures var r := Signed(Computed(SIGNED_SHIFT_RIGHT, x, y)); r * Pow2(y) <= Signed(x) < (r + 1) * Pow2(y)
  {
    hide Binary2, Wrap, Pow2;
    Reported(SHIFT_LEFT, x, y);
    Reported(SHIFT_RIGHT, x, y);
    Reported(SIGNED_SHIFT_RIGHT, x, y);
    Pow2Positive(y);
    WrapsBy(x * Pow2(y));
    DivMod(x, Pow2(y));
    DivMod(Signed(x), Pow2(y));
    FloorSmall(Signed(x), Pow2(y));
    SignedWrap(Signed(x) / Pow2(y));
  }

  lemma FloorSmall(a: int, d: int)
    requires d > 0 && -0x8000_0000_0000_0000 <= a < 0x8000_0000_0000_0000
    ensures -0x8000_0000_0000_0000 <= a / d < 0x8000_0000_0000_0000
  {
    DivMod(a, d);
    var q := a / d;
    MulAtLeast(q, d);
    MulAtLeast(q + 1, d);
  }

  /** Longer shifts leave nothing but the sign of a signed shift. */
  lemma LongShifts(x: Word, y: Word)
    requires y >= 64
    ensures Binary2(SHIFT_LEFT, x, y) == Binary2(SHIFT_RIGHT, x, y) == Success(0, ASMSECT_ABS)
    ensures Signed(Computed(SIGNED_SHIFT_RIGHT, x, y)) == if Signed(x) < 0 then -1 else 0
  {
    hide Binary2, Pow2;
    Reported(SHIFT_LEFT, x, y);
    Reported(SHIFT_RIGHT, x, y);
    Reported(SIGNED_SHIFT_RIGHT, x, y);
  }

  // ----- single bits -----

  predicate BitAt(x: nat, i: nat) {
    Pow2Positive(i);
    x / Pow2(i) % 2 == 1
  }

  lemma BitAtNext(x: nat, i: nat)
    ensures BitAt(x, i + 1) == BitAt(x / 2, i)
  {
    Pow2Positive(i);
    var p := Pow2(i);
    var q, r := x / 2 / p, x / 2 % p;
    assert x / 2 == q * p + r;
    assert x == 2 * (q * p + r) + x % 2;
    assert 2 * (q * p + r) == q * (2 * p) + 2 * r;
    DivModUnique(x, 2 * p, q, 2 * r + x % 2);
  }

  lemma BitAtFirst(x: nat)
    ensures BitAt(x, 0) <==> x % 2 == 1
  {
  }

  lemma {:induction false} BitsAt(op: BitOp, x: nat, y: nat, i: nat)
    ensures BitAt(Bits(op, x, y), i) <==> op.Bit(BitAt(x, i), BitAt(y, i))
    decreases i
  {
    hide BitAt;
    BitsStep(op, x, y);
    var low, rest := Truth(op.Bit(x % 2 == 1, y % 2 == 1)), Bits(op, x / 2, y / 2);
    var r := Bits(op, x, y);
    assert r == low + 2 * rest && r % 2 == low && r / 2 == rest;
    if i == 0 {
      BitAtFirst(r);
      BitAtFirst(x);
      BitAtFirst(y);
    } else {
      BitAtNext(r, i - 1);
      BitAtNext(x, i - 1);
      BitAtNext(y, i - 1);
      BitsAt(op, x / 2, y / 2, i - 1);
    }
  }

  lemma {:induction false} ComplementAt(n: nat, x: nat, i: nat)
    requires x < Pow2(n) && i < n
    ensures BitAt(Pow2(n) - 1 - x, i) <==> !BitAt(x, i)
  {
    hide BitAt;
    var q := Pow2(n - 1);
    assert Pow2(n) == 2 * q;
    var c := 2 * q - 1 - x;
    assert c / 2 == q - 1 - x / 2 && c % 2 == 1 - x % 2;
    if i == 0 {
      BitAtFirst(c);
      BitAtFirst(x);
    } else {
      BitAtNext(c, i - 1);
      BitAtNext(x, i - 1);
      ComplementAt(n - 1, x / 2, i - 1);
    }
  }

  lemma NotAt(x: Word, i: nat)
    requires i < 64
    ensures BitAt(Not(x), i) <==> !BitAt(x, i)
  {
    hide BitAt;
    Pow2Values();
    ComplementAt(64, x, i);
  }

  /** Bitwise operators work bit by bit; the second operand of ornot is complemented. */
  lemma BitwiseOperators(x: Word, y: Word, i: nat)
    requires i < 64
    ensures BitAt(Computed(BIT_AND, x, y), i) <==> BitAt(x, i) && BitAt(y, i)
    ensures BitAt(Computed(BIT_OR, x, y), i) <==> BitAt(x, i) || BitAt(y, i)
    ensures BitAt(Computed(BIT_XOR, x, y), i) <==> BitAt(x, i) != BitAt(y, i)
    ensures BitAt(Computed(BIT_ORNOT, x, y), i) <==> BitAt(x, i) || !BitAt(y, i)
  {
    hide Binary2, BitAt, Bits, Not;
    Reported(BIT_AND, x, y);
    Reported(BIT_OR, x, y);
    Reported(BIT_XOR, x, y);
    Reported(BIT_ORNOT, x, y);
    BitsAt(And, x, y, i);
    BitsAt(Or, x, y, i);
    BitsAt(Xor, x, y, i);
    BitsAt(Or, x, Not(y), i);
    NotAt(y, i);
  }

  // ----- truth values -----

  /** The logical operators answer with one or zero. */
  lemma LogicalOperators(x: Word, y: Word)
    ensures Computed(LOGICAL_AND, x, y) == if x == 0 || y == 0 then 0 else 1
    ensures Computed(LOGICAL_OR, x, y) == if x == 0 && y == 0 then 0 else 1
  {
    hide Binary2;
    Reported(LOGICAL_AND, x, y);
    Reported(LOGICAL_OR, x, y);
  }

  /** The comparison answers with all ones. */
  ghost predicate Holds(b: BinaryOp, x: Word, y: Word) {
    Binary2(b, x, y) == Success(0xffff_ffff_ffff_ffff, ASMSECT_ABS)
  }

  /** A comparison that does not hold answers with zero. */
  lemma ComparisonAnswers(b: BinaryOp, x: Word, y: Word)
    requires IsComparison(b)
    ensures Holds(b, x, y) || Binary2(b, x, y) == Success(0, ASMSECT_ABS)
  {
    hide Binary2, Compare;
    Reported(b, x, y);
  }

  lemma HoldsIs(b: BinaryOp, x: Word, y: Word)
    requires IsComparison(b)
    ensures Holds(b, x, y) <==> Compare(b, x, y)
  {
    hide Binary2, Compare;
    Reported(b, x, y);
  }

  /** Moves signed words into unsigned order. */
  function Biased(x: Word): Word {
    (x + 0x8000_0000_0000_0000) % 0x1_0000_0000_0000_0000
  }

  /** Of below, equal and above exactly one holds, by the order of integers; the others are their
      complements. */
  lemma UnsignedComparisons(x: Word, y: Word)
    ensures Holds(BELOW, x, y) <==> x < y
    ensures Holds(EQUAL, x, y) <==> x == y
    ensures Holds(ABOVE, x, y) <==> x > y
    ensures Holds(BELOW_EQ, x, y) <==> !Holds(ABOVE, x, y)
    ensures Holds(ABOVE_EQ, x, y) <==> !Holds(BELOW, x, y)
    ensures Holds(NOT_EQUAL, x, y) <==> !Holds(EQUAL, x, y)
  {
    hide Holds;
    HoldsIs(BELOW, x, y);
    HoldsIs(EQUAL, x, y);
    HoldsIs(ABOVE, x, y);
    HoldsIs(BELOW_EQ, x, y);
    HoldsIs(ABOVE_EQ, x, y);
    HoldsIs(NOT_EQUAL, x, y);
  }

  /** The signed comparisons are the unsigned ones of the biased words. */
  lemma SignedComparisons(x: Word, y: Word)
    ensures Holds(LESS, x, y) <==> Biased(x) < Biased(y)
    ensures Holds(GREATER, x, y) <==> Biased(x) > Biased(y)
    ensures Holds(LESS_EQ, x, y) <==> !Holds(GREATER, x, y)
    ensures Holds(GREATER_EQ, x, y) <==> !Holds(LESS, x, y)
    ensures Holds(EQUAL, x, y) <==> !Holds(LESS, x, y) && !Holds(GREATER, x, y)
  {
    HoldsIs(LESS, x, y);
    HoldsIs(GREATER, x, y);
    HoldsIs(LESS_EQ, x, y);
    HoldsIs(GREATER_EQ, x, y);
    HoldsIs(EQUAL, x, y);
    hide Holds;
    BiasedIs(x);
    BiasedIs(y);
  }

  lemma BiasedIs(x: Word)
    ensures Biased(x) == Signed(x) + 0x8000_0000_0000_0000
  {
    WrapIs(x + SIGN_BIT, if x < SIGN_BIT then 0 else 1, if x < SIGN_BIT then x + SIGN_BIT else x - SIGN_BIT);
  }

  // ----- unary operators and the choice -----

  /** Negation is modulo 2^64, the complement turns every bit, the logical complement answers with one
      or zero, and plus changes nothing. */
  lemma UnaryOperators(x: Word)
    ensures forall u :: Unary1(u, x).Success? && Unary1(u, x).section == ASMSECT_ABS
    ensures (Unary1(NEGATE, x).value + x) % 0x1_0000_0000_0000_0000 == 0
    ensures forall i | 0 <= i < 64 :: BitAt(Unary1(BIT_NOT, x).value, i) <==> !BitAt(x, i)
    ensures Unary1(LOGICAL_NOT, x).value == if x == 0 then 1 else 0
    ensures Unary1(PLUS, x).value == x
  {
    hide BitAt;
    forall u ensures Unary1(u, x) == Success(UnaryWord(u, x), ASMSECT_ABS) {
      UnaryRuns(u, x);
    }
    NegateIs(x);
    hide Unary1;
    forall i | 0 <= i < 64 ensures BitAt(Unary1(BIT_NOT, x).value, i) <==> !BitAt(x, i) {
      NotAt(x, i);
    }
  }

  /** A choice takes its second operand exactly when the first one is not zero. */
  lemma ChoiceOperator(c: Word, t: Word, f: Word)
    ensures var code := [Constant(c), Constant(t), Constant(f), Apply(CHOICE)];
      && Runs(code, 0) && Resolved(code)
      && Result(Run(code, START)) == Success(if c == 0 then f else t, ASMSECT_ABS)
  {
    RunStates([Constant(c), Constant(t), Constant(f), Apply(CHOICE)],
              [START, Holding([c]), Holding([c, t]), Holding([c, t, f]), Holding([if c == 0 then f else t])]);
  }
}
