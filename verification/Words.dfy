/** 64-bit machine words as integers modulo 2^64, with the operations the expression
    evaluator applies to them. Bitwise operators are defined bit by bit. */
module Words {

  const MODULUS := 0x1_0000_0000_0000_0000
  const UINT64_MAX := 0xffff_ffff_ffff_ffff
  const SIGN_BIT := 0x8000_0000_0000_0000
  const HALF := 0x1_0000_0000

  type Word = x: int | 0 <= x < 0x1_0000_0000_0000_0000

  function Wrap(x: int): Word {
    x % MODULUS
  }

  /** The value of a word read as a two's complement integer. */
  function Signed(x: Word): int {
    if x < SIGN_BIT then x else x - MODULUS
  }

  function Negate(x: Word): Word {
    Wrap(0 - x)
  }

  function Not(x: Word): Word {
    UINT64_MAX - x
  }

  function Truth(b: bool): Word {
    if b then 1 else 0
  }

  /** Comparison operators answer with all ones, not with one. */
  function Mask(b: bool): Word {
    if b then UINT64_MAX else 0
  }

  function Pow2(n: nat): nat {
    if n == 0 then 1 else 2 * Pow2(n - 1)
  }

  function Abs(x: int): nat {
    if x < 0 then -x else x
  }

  /** Quotient truncated toward zero, as the source language divides. */
  function TruncDiv(a: int, b: int): int
    requires b != 0
  {
    var q := Abs(a) / Abs(b);
    if (a < 0) == (b < 0) then q else -q
  }

  /** Remainder of the truncated quotient. */
  function TruncMod(a: int, b: int): int
    requires b != 0
  {
    a - b * TruncDiv(a, b)
  }

  datatype BitOp = And | Or | Xor {
    function Bit(a: bool, b: bool): bool {
      match this
      case And => a && b
      case Or => a || b
      case Xor => a != b
    }
  }

  /** A bitwise operation on natural numbers, lowest bit first. */
  function Bits(op: BitOp, a: nat, b: nat): nat
    decreases a + b
  {
    if a == 0 && b == 0 then 0
    else Truth(op.Bit(a % 2 == 1, b % 2 == 1)) + 2 * Bits(op, a / 2, b / 2)
  }

  lemma {:induction false} BitsRange(op: BitOp, n: nat, a: nat, b: nat)
    requires a < Pow2(n) && b < Pow2(n)
    ensures Bits(op, a, b) < Pow2(n)
  {
    if n > 0 {
      BitsRange(op, n - 1, a / 2, b / 2);
    }
  }

  lemma Pow2Values()
    ensures Pow2(32) == HALF
    ensures Pow2(64) == MODULUS
  {
    assert Pow2(8) == 256;
    Pow2Add(8, 8);
    Pow2Add(16, 16);
    Pow2Add(32, 32);
  }

  lemma {:induction false} Pow2Add(m: nat, n: nat)
    ensures Pow2(m + n) == Pow2(m) * Pow2(n)
  {
    if m > 0 {
      Pow2Add(m - 1, n);
      DoubleProduct(Pow2(m - 1), Pow2(n));
    }
  }

  lemma DoubleProduct(a: int, b: int)
    ensures 2 * a * b == 2 * (a * b)
  {
  }

  lemma WordBitsRange(op: BitOp, a: Word, b: Word)
    ensures Bits(op, a, b) < MODULUS
  {
    Pow2Values();
    BitsRange(op, 64, a, b);
  }

  function BitWord(op: BitOp, a: Word, b: Word): Word {
    WordBitsRange(op, a, b);
    Bits(op, a, b)
  }

  function ShiftLeft(a: Word, k: nat): Word {
    Wrap(a * Pow2(k))
  }

  lemma {:induction false} Pow2Positive(n: nat)
    ensures Pow2(n) > 0
  {
    if n > 0 {
      Pow2Positive(n - 1);
    }
  }

  lemma {:induction false} Pow2Grows(m: nat, n: nat)
    requires m <= n
    ensures Pow2(m) <= Pow2(n)
  {
    if m > 0 {
      Pow2Grows(m - 1, n - 1);
    } else {
      Pow2Positive(n);
    }
  }

  function ShiftRight(a: Word, k: nat): Word {
    Pow2Positive(k);
    DivShrinks(a, Pow2(k));
    a / Pow2(k)
  }

  lemma DivShrinks(a: nat, d: nat)
    requires d > 0
    ensures 0 <= a / d <= a
  {
    assert a == (a / d) * d + a % d;
    MulAtLeast(a / d, d);
  }

  /** Arithmetic shift: the floor of the signed value divided by a power of two. */
  function SignedShiftRight(a: Word, k: nat): Word {
    Pow2Positive(k);
    Wrap(Signed(a) / Pow2(k))
  }

  // ----- the identities that the evaluator's special cases rest on -----

  lemma {:induction false} BitsZero(a: nat)
    ensures Bits(And, a, 0) == 0 == Bits(And, 0, a)
    ensures Bits(Or, a, 0) == a == Bits(Or, 0, a)
    ensures Bits(Xor, a, 0) == a == Bits(Xor, 0, a)
  {
    if a > 0 {
      BitsZero(a / 2);
    }
  }

  lemma HalfOfOnes(q: int)
    ensures (2 * q - 1) / 2 == q - 1 && (2 * q - 1) % 2 == 1
  {
  }

  lemma {:induction false} BitsOnes(n: nat, a: nat)
    requires a < Pow2(n)
    ensures Bits(And, a, Pow2(n) - 1) == a == Bits(And, Pow2(n) - 1, a)
    ensures Bits(Or, a, Pow2(n) - 1) == Pow2(n) - 1 == Bits(Or, Pow2(n) - 1, a)
  {
    if n > 0 {
      var q := Pow2(n - 1);
      assert Pow2(n) == 2 * q;
      BitsOnes(n - 1, a / 2);
      HalfOfOnes(q);
    }
  }

  lemma WordIdentities(a: Word)
    ensures BitWord(And, a, 0) == 0 == BitWord(And, 0, a)
    ensures BitWord(Or, a, 0) == a == BitWord(Or, 0, a)
    ensures BitWord(Xor, a, 0) == a == BitWord(Xor, 0, a)
    ensures BitWord(And, a, UINT64_MAX) == a == BitWord(And, UINT64_MAX, a)
    ensures BitWord(Or, a, UINT64_MAX) == UINT64_MAX == BitWord(Or, UINT64_MAX, a)
  {
    Pow2Values();
    BitsZero(a);
    BitsOnes(64, a);
  }

  /** The low k bits of a bitwise result depend on the low k bits of the operands only. */
  lemma {:induction false} BitsLow(op: BitOp, k: nat, a: nat, b: nat)
    ensures Pow2(k) > 0
    ensures Bits(op, a, b) % Pow2(k) == Bits(op, a % Pow2(k), b % Pow2(k))
  {
    Pow2Positive(k);
    if k == 0 {
      assert Pow2(0) == 1;
    } else {
      Pow2Positive(k - 1);
      var p := Pow2(k - 1);
      BitsLow(op, k - 1, a / 2, b / 2);
      ModHalves(a, p);
      ModHalves(b, p);
      var low := Truth(op.Bit(a % 2 == 1, b % 2 == 1));
      var rest := Bits(op, a / 2, b / 2);
      BitsStep(op, a, b);
      BitsStep(op, a % Pow2(k), b % Pow2(k));
      ModHalves(low + 2 * rest, p);
      assert (low + 2 * rest) / 2 == rest;
      assert (low + 2 * rest) % 2 == low;
    }
  }

  lemma BitsStep(op: BitOp, a: nat, b: nat)
    ensures Bits(op, a, b) == Truth(op.Bit(a % 2 == 1, b % 2 == 1)) + 2 * Bits(op, a / 2, b / 2)
  {
  }

  lemma MulAtLeast(k: int, d: nat)
    requires d > 0
    ensures k >= 0 ==> k * d >= k
    ensures k > 0 ==> k * d >= d
    ensures k < 0 ==> k * d <= 0 - d
  {
  }

  /** Division with remainder is unique. */
  lemma DivModUnique(x: int, d: int, q: int, r: int)
    requires d > 0 && 0 <= r < d && x == q * d + r
    ensures x / d == q && x % d == r
  {
    var q', r' := x / d, x % d;
    assert x == q' * d + r';
    assert (q' - q) * d == q' * d - q * d == r - r';
    MulAtLeast(q' - q, d);
  }

  /** The lowest bit and the remaining bits of a number reduced modulo 2p. */
  lemma ModHalves(a: nat, p: nat)
    requires p > 0
    ensures a % (2 * p) == a % 2 + 2 * ((a / 2) % p)
    ensures (a % (2 * p)) / 2 == (a / 2) % p
    ensures (a % (2 * p)) % 2 == a % 2
  {
    var q := (a / 2) / p;
    var r := (a / 2) % p;
    assert a / 2 == q * p + r;
    assert a == 2 * (q * p + r) + a % 2;
    assert 2 * (q * p + r) == q * (2 * p) + 2 * r;
    DivModUnique(a, 2 * p, q, 2 * r + a % 2);
  }

  // ----- congruence modulo 2^64 -----

  ghost predicate Cong(a: int, b: int) {
    Wrap(a) == Wrap(b)
  }

  lemma WrapIs(x: int, q: int, r: Word)
    requires x == q * MODULUS + r
    ensures Wrap(x) == r
  {
    DivModUnique(x, MODULUS, q, r);
  }

  lemma NegateIs(v: Word)
    ensures Negate(v) == if v == 0 then 0 else MODULUS - v
  {
    WrapIs(0 - v, if v == 0 then 0 else -1, if v == 0 then 0 else MODULUS - v);
  }

  lemma CongWrap(a: int)
    ensures Cong(Wrap(a), a)
  {
    WrapIs(Wrap(a), 0, Wrap(a));
  }

  lemma CongAdd(a: int, b: int, c: int, d: int)
    requires Cong(a, b) && Cong(c, d)
    ensures Cong(a + c, b + d)
    ensures Cong(a - c, b - d)
  {
    var q, r := a / MODULUS - b / MODULUS, c / MODULUS - d / MODULUS;
    assert a == b + MODULUS * q && c == d + MODULUS * r;
    CongMultiple(b + d, q + r);
    CongMultiple(b - d, q - r);
  }

  lemma CongMul(a: int, b: int, k: int)
    requires Cong(a, b)
    ensures Cong(k * a, k * b)
    ensures Cong(a * k, b * k)
  {
    var q := a / MODULUS - b / MODULUS;
    assert a == b + MODULUS * q;
    assert k * a == k * b + k * (MODULUS * q);
    assert k * (MODULUS * q) == MODULUS * (k * q);
    CongMultiple(k * b, k * q);
  }

  lemma CongMultiple(a: int, q: int)
    ensures Cong(a + MODULUS * q, a)
  {
    DivModUnique(a + MODULUS * q, MODULUS, a / MODULUS + q, a % MODULUS);
  }
}
