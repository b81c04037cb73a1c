/** Operators that keep a half of an address, and the constants they do it with. */
module HalfOperators {
  import opened Words
  import opened Operators
  import opened RelativeMachine

  // ----- the operators that select a half -----

  predicate SelectsHalf(b: BinaryOp) {
    b.BIT_AND? || b.MODULO? || b.SIGNED_MODULO? || b.DIVISION? || b.SIGNED_DIVISION? || b.SHIFT_RIGHT?
  }

  predicate SelectsHigh(b: BinaryOp) {
    b.DIVISION? || b.SIGNED_DIVISION? || b.SHIFT_RIGHT?
  }

  predicate AcceptsArg(b: BinaryOp, second: Word)
    requires SelectsHalf(b)
  {
    match b
    case BIT_AND => BitWord(And, second, 0xffff_ffff) == 0xffff_ffff
    case MODULO => ShiftRight(second, 32) != 0 && BitWord(And, second, 0xffff_ffff) == 0
    case SIGNED_MODULO => ShiftRight(second, 32) != 0 && BitWord(And, second, 0xffff_ffff) == 0
    case DIVISION => second == 0x1_0000_0000
    case SIGNED_DIVISION => second == 0x1_0000_0000
    case SHIFT_RIGHT => second == 32
  }

  function Half(high: bool, x: Word): int {
    if high then x / HALF else x % HALF
  }

  lemma {:induction false} AndOnes(n: nat, a: nat)
    ensures Pow2(n) > 0 && Bits(And, a, Pow2(n) - 1) == a % Pow2(n)
  {
    if n == 0 {
      BitsZero(a);
    } else {
      var q := Pow2(n - 1);
      assert Pow2(n) == 2 * q;
      AndOnes(n - 1, a / 2);
      hide Bits, Pow2;
      ModHalves(a, q);
      BitsStep(And, a, 2 * q - 1);
      assert (2 * q - 1) / 2 == q - 1 && (2 * q - 1) % 2 == 1;
    }
  }

  lemma LowHalf(a: Word)
    ensures BitWord(And, a, 0xffff_ffff) == a % HALF
  {
    Pow2Values();
    AndOnes(32, a);
  }

  lemma AndKeepsLow(x: Word, second: Word)
    requires second % HALF == HALF - 1
    ensures BitWord(And, x, second) % HALF == x % HALF
  {
    Pow2Values();
    BitsLow(And, 32, x, second);
    AndOnes(32, x % HALF);
  }

  lemma MultipleOfHalf(x: int, k: int)
    ensures (x + HALF * k) % HALF == x % HALF
  {
    DivModUnique(x + HALF * k, HALF, x / HALF + k, x % HALF);
  }

  lemma WrapKeepsLow(x: int)
    ensures Wrap(x) % HALF == x % HALF
  {
    MultipleOfHalf(x, 0 - HALF * (x / MODULUS));
  }

  /** A remainder by a multiple of 2^32 keeps the low half, signed or not. */
  lemma ModuloKeepsLow(x: Word, second: Word)
    requires second != 0 && second % HALF == 0
    ensures (x % second) % HALF == x % HALF
    ensures !Overflows(x, second)
    ensures Wrap(TruncMod(Signed(x), Signed(second))) % HALF == x % HALF
  {
    var k := second / HALF;
    assert second == HALF * k;
    assert x == (x / second) * second + x % second;
    var q := x / second;
    assert q * (HALF * k) == HALF * (q * k);
    MultipleOfHalf(x % second, q * k);
    SignedModuloKeepsLow(x, second);
  }

  lemma SignedModuloKeepsLow(x: Word, second: Word)
    requires second != 0 && second % HALF == 0
    ensures Wrap(TruncMod(Signed(x), Signed(second))) % HALF == x % HALF
  {
    var s, d := Signed(second), Signed(x);
    var j, q := s / HALF, TruncDiv(d, s);
    assert s == HALF * j;
    assert s * q == HALF * (j * q) by {
      MulAssoc(HALF, j, q);
    }
    assert TruncMod(d, s) == d + HALF * (0 - j * q);
    MultipleOfHalf(d, 0 - j * q);
    WrapKeepsLow(TruncMod(d, s));
    MultipleOfHalf(x, 0 - HALF);
  }

  lemma MulAssoc(a: int, b: int, c: int)
    ensures a * b * c == a * (b * c)
  {
  }

  /** The signed quotient by 2^32 is the high half unless a negative dividend has a
      remainder. */
  lemma SignedQuotientHigh(x: Word)
    ensures Wrap(TruncDiv(Signed(x), HALF)) % HALF == x / HALF
            <==> Signed(x) >= 0 || x % HALF == 0
  {
    var d := Signed(x);
    var h, r := x / HALF, x % HALF;
    WrapKeepsLow(TruncDiv(d, HALF));
    if d < 0 {
      var k := HALF - h - (if r == 0 then 0 else 1);
      DivModUnique(0 - d, HALF, k, if r == 0 then 0 else HALF - r);
      assert TruncDiv(d, HALF) == 0 - k;
      MultipleOfHalf(0 - k, 1);
      assert 0 - k + HALF == h + if r == 0 then 0 else 1;
    }
  }

  /** The condition of the one operator that does not always select the half. */
  predicate HalfKept(b: BinaryOp, x: Word) {
    b == SIGNED_DIVISION ==> Signed(x) >= 0 || x % HALF == 0
  }

  /** With an accepted right operand, the low 32 bits of the operator's result are the
      selected half of the left operand, exactly under that condition. */
  lemma OperatorSelectsHalf(b: BinaryOp, x: Word, second: Word)
    requires SelectsHalf(b) && AcceptsArg(b, second)
    ensures BinaryWord(b, x, second) == Plain(BinaryWord(b, x, second).value)
    ensures BinaryWord(b, x, second).value % HALF == Half(SelectsHigh(b), x) <==> HalfKept(b, x)
  {
    LowHalf(second);
    if b == BIT_AND {
      AndKeepsLow(x, second);
    } else if b == MODULO || b == SIGNED_MODULO {
      ModuloOperator(b, x, second);
    } else {
      QuotientOperator(b, x, second);
    }
  }

  lemma QuotientOperator(b: BinaryOp, x: Word, second: Word)
    requires SelectsHigh(b) && second == if b == SHIFT_RIGHT then 32 else HALF
    ensures BinaryWord(b, x, second) == Plain(BinaryWord(b, x, second).value)
    ensures BinaryWord(b, x, second).value % HALF == x / HALF <==> HalfKept(b, x)
  {
    match b
    case DIVISION => WrapSmall(x / HALF);
    case SIGNED_DIVISION => SignedQuotientHigh(x);
    case SHIFT_RIGHT => Pow2Values();
  }

  lemma WrapSmall(x: Word)
    requires x < HALF
    ensures Wrap(x) == x && x % HALF == x
  {
  }

  lemma ModuloOperator(b: BinaryOp, x: Word, second: Word)
    requires b == MODULO || b == SIGNED_MODULO
    requires second % HALF == 0 && ShiftRight(second, 32) != 0
    ensures BinaryWord(b, x, second) == Plain(BinaryWord(b, x, second).value)
    ensures BinaryWord(b, x, second).value % HALF == x % HALF
  {
    Pow2Values();
    ModuloKeepsLow(x, second);
    WrapKeepsLow(x % second);
  }

  // ----- exactly the constants that select a half are accepted -----

  /** The operator with that right operand selects the half of every left operand for which it can. */
  ghost predicate SelectsAlways(b: BinaryOp, second: Word) {
    forall x: Word | HalfKept(b, x) ::
      var a := BinaryWord(b, x, second);
      && !a.failed && !a.trapped
      && a.value % HALF == Half(b in {DIVISION, SIGNED_DIVISION, SHIFT_RIGHT}, x)
  }

  /** A left operand for which a constant that is not accepted misses the half. */
  function Missed(b: BinaryOp, second: Word): Word {
    match b
    case BIT_AND => HALF - 1
    case MODULO => second
    case SIGNED_MODULO => second
    case DIVISION => if second < HALF then second else HALF
    case SIGNED_DIVISION =>
      if second < HALF then second
      else if Signed(second) > HALF then HALF
      else if -HALF <= Signed(second) < 0 then -Signed(second)
      else HALF
    case _ => if second < 32 then Pow2Of(second) else HALF
  }

  function Pow2Of(k: Word): Word
    requires k < 64
  {
    Pow2Below64(k);
    Pow2(k)
  }

  lemma Divides(x: int, q: int, d: int)
    requires d > 0 && x == q * d
    ensures x / d == q && x % d == 0
  {
    DivModUnique(x, d, q, 0);
  }

  lemma MissedByMask(second: Word)
    requires !AcceptsArg(BIT_AND, second)
    ensures BinaryWord(BIT_AND, HALF - 1, second).value % HALF != Half(false, HALF - 1)
  {
    hide Bits;
    BitsCommute(HALF - 1, second);
    LowHalf(second);
    assert BitWord(And, HALF - 1, second) == second % HALF;
    assert second % HALF % HALF == second % HALF && (HALF - 1) % HALF == HALF - 1;
  }

  lemma {:induction false} BitsCommute(a: nat, b: nat)
    ensures Bits(And, a, b) == Bits(And, b, a)
    decreases a + b
  {
    if a != 0 || b != 0 {
      BitsCommute(a / 2, b / 2);
    }
  }

  lemma HighPart(second: Word)
    ensures ShiftRight(second, 32) == second / HALF
  {
    Pow2Values();
  }

  lemma MissedByModulo(b: BinaryOp, second: Word)
    requires b == MODULO || b == SIGNED_MODULO
    requires !AcceptsArg(b, second) && second != 0
    ensures !BinaryWord(b, second, second).trapped ==>
              BinaryWord(b, second, second).value % HALF != Half(false, second)
  {
    HighPart(second);
    LowHalf(second);
    assert second % HALF != 0;
    if b == MODULO {
      Divides(second, 1, second);
      WrapSmall(0);
    } else {
      var s := Signed(second);
      Divides(Abs(s), 1, Abs(s));
      assert TruncDiv(s, s) == 1 && s * 1 == s;
      assert TruncMod(s, s) == 0;
      WrapSmall(0);
    }
  }

  lemma MissedByQuotient(second: Word)
    requires second != HALF && second != 0
    ensures var x := Missed(DIVISION, second); BinaryWord(DIVISION, x, second).value % HALF != Half(true, x)
  {
    if second < HALF {
      Divides(second, 1, second);
      WrapSmall(1);
    } else {
      DivModUnique(HALF, second, 0, HALF);
      WrapSmall(0);
    }
  }

  lemma SignedQuotientIs(x: Word, second: Word, q: int)
    requires second != 0 && !Overflows(x, second) && TruncDiv(Signed(x), Signed(second)) == q
    ensures BinaryWord(SIGNED_DIVISION, x, second).value % HALF == q % HALF
  {
    WrapKeepsLow(q);
  }

  lemma MissedBySignedQuotient(second: Word)
    requires second != HALF && second != 0
    ensures var x := Missed(SIGNED_DIVISION, second);
      && HalfKept(SIGNED_DIVISION, x)
      && (!BinaryWord(SIGNED_DIVISION, x, second).trapped ==>
            BinaryWord(SIGNED_DIVISION, x, second).value % HALF != Half(true, x))
  {
    var s, x := Signed(second), Missed(SIGNED_DIVISION, second);
    hide BinaryWord;
    assert !Overflows(x, second);
    if 0 < s < HALF {
      Divides(s, 1, s);
      SignedQuotientIs(x, second, 1);
    } else if s > HALF {
      DivModUnique(HALF, s, 0, HALF);
      SignedQuotientIs(x, second, 0);
    } else if s >= -HALF {
      Divides(-s, 1, -s);
      SignedQuotientIs(x, second, -1);
    } else {
      DivModUnique(HALF, -s, 0, HALF);
      SignedQuotientIs(x, second, 0);
    }
  }

  lemma MissedByShift(second: Word)
    requires second != 32
    ensures var x := Missed(SHIFT_RIGHT, second); BinaryWord(SHIFT_RIGHT, x, second).value % HALF != Half(true, x)
  {
    Pow2Values();
    var x := Missed(SHIFT_RIGHT, second);
    if second < 32 {
      Pow2Positive(second);
      Divides(Pow2(second), 1, Pow2(second));
      Pow2Strictly(second, 32);
      assert x / HALF == 0;
    } else if second < 64 {
      Pow2Strictly(32, second);
      DivModUnique(HALF, Pow2(second), 0, HALF);
    }
  }

  lemma Pow2Strictly(m: nat, n: nat)
    requires m < n
    ensures Pow2(m) < Pow2(n)
  {
    Pow2Positive(m);
    Pow2Grows(m + 1, n);
  }

  /** A constant is accepted exactly when the operator selects the half with it, for every left operand
      for which it can. */
  lemma AcceptedIffSelects(b: BinaryOp, second: Word)
    requires b in {BIT_AND, MODULO, SIGNED_MODULO, DIVISION, SIGNED_DIVISION, SHIFT_RIGHT}
    ensures SelectsHalf(b) && (AcceptsArg(b, second) <==> SelectsAlways(b, second))
  {
    if AcceptsArg(b, second) {
      hide BinaryWord, AcceptsArg, Half, HalfKept;
      forall x: Word | HalfKept(b, x)
        ensures var a := BinaryWord(b, x, second);
          !a.failed && !a.trapped && a.value % HALF == Half(b in {DIVISION, SIGNED_DIVISION, SHIFT_RIGHT}, x)
      {
        OperatorSelectsHalf(b, x, second);
      }
    } else {
      NotAccepted(b, second);
    }
  }

  lemma NotAccepted(b: BinaryOp, second: Word)
    requires SelectsHalf(b) && !AcceptsArg(b, second)
    ensures !SelectsAlways(b, second)
  {
    var x := if second == 0 && !b.BIT_AND? && !b.SHIFT_RIGHT? then 0 else Missed(b, second);
    assert HalfKept(b, x) by {
      if b == SIGNED_DIVISION && second != 0 { MissedBySignedQuotient(second); }
    }
    assert var a := BinaryWord(b, x, second);
      a.failed || a.trapped || a.value % HALF != Half(SelectsHigh(b), x) by
    {
      if b == BIT_AND {
        MissedByMask(second);
      } else if b == SHIFT_RIGHT {
        MissedByShift(second);
      } else if second != 0 {
        if b == DIVISION {
          MissedByQuotient(second);
        } else if b == SIGNED_DIVISION {
          MissedBySignedQuotient(second);
        } else {
          MissedByModulo(b, second);
        }
      }
    }
    hide BinaryWord, Missed, AcceptsArg;
  }
}
