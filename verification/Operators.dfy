/** Operators of assembler expressions, their arities and priorities, and what they
    compute on plain words. */
module Operators {
  import opened Words

  datatype UnaryOp = NEGATE | BIT_NOT | LOGICAL_NOT | PLUS

  datatype BinaryOp =
    | ADDITION | SUBTRACT | MULTIPLY
    | DIVISION | SIGNED_DIVISION | MODULO | SIGNED_MODULO
    | BIT_AND | BIT_OR | BIT_XOR | BIT_ORNOT
    | SHIFT_LEFT | SHIFT_RIGHT | SIGNED_SHIFT_RIGHT
    | LOGICAL_AND | LOGICAL_OR
    | EQUAL | NOT_EQUAL | LESS | LESS_EQ | GREATER | GREATER_EQ
    | BELOW | BELOW_EQ | ABOVE | ABOVE_EQ

  /** CHOICE_START is the parser's helper for a '?' that has not met its ':' yet. */
  datatype Operator = Unary(u: UnaryOp) | Binary(b: BinaryOp) | CHOICE | CHOICE_START

  type SectionId = nat

  /** The section of values that belong to no section. */
  const ASMSECT_ABS: SectionId := 0xffff_ffff

  datatype Arg = Value(value: Word, section: SectionId) | Symbol(name: string)

  /** One element of a postfix program. */
  datatype Instr = Push(arg: Arg) | Apply(op: Operator)

  type Code = seq<Instr>

  predicate IsSymbol(i: Instr) {
    i.Push? && i.arg.Symbol?
  }

  /** Operands taken from the evaluation stack. The unfinished choice pops one value and
      pushes it back. */
  function Arity(i: Instr): nat {
    match i
    case Push(_) => 0
    case Apply(Unary(_)) => 1
    case Apply(Binary(_)) => 2
    case Apply(CHOICE) => 3
    case Apply(CHOICE_START) => 1
  }

  function Priority(op: Operator): nat {
    match op
    case Unary(_) => 6
    case Binary(b) => BinaryPriority(b)
    case CHOICE => 0
    case CHOICE_START => 0
  }

  function BinaryPriority(b: BinaryOp): (p: nat)
    ensures 1 <= p <= 5
  {
    match b
    case ADDITION => 3
    case SUBTRACT => 3
    case MULTIPLY => 5
    case DIVISION => 5
    case SIGNED_DIVISION => 5
    case MODULO => 5
    case SIGNED_MODULO => 5
    case BIT_AND => 4
    case BIT_OR => 4
    case BIT_XOR => 4
    case BIT_ORNOT => 4
    case SHIFT_LEFT => 5
    case SHIFT_RIGHT => 5
    case SIGNED_SHIFT_RIGHT => 5
    case LOGICAL_AND => 1
    case LOGICAL_OR => 1
    case _ => 2
  }

  predicate IsComparison(b: BinaryOp) {
    b.EQUAL? || b.NOT_EQUAL? || IsSignedOrdering(b) || IsUnsignedOrdering(b)
  }

  predicate IsSignedOrdering(b: BinaryOp) {
    b.LESS? || b.LESS_EQ? || b.GREATER? || b.GREATER_EQ?
  }

  predicate IsUnsignedOrdering(b: BinaryOp) {
    b.BELOW? || b.BELOW_EQ? || b.ABOVE? || b.ABOVE_EQ?
  }

  function Compare(b: BinaryOp, x: Word, y: Word): bool
    requires IsComparison(b)
  {
    match b
    case EQUAL => x == y
    case NOT_EQUAL => x != y
    case LESS => Signed(x) < Signed(y)
    case LESS_EQ => Signed(x) <= Signed(y)
    case GREATER => Signed(x) > Signed(y)
    case GREATER_EQ => Signed(x) >= Signed(y)
    case BELOW => x < y
    case BELOW_EQ => x <= y
    case ABOVE => x > y
    case ABOVE_EQ => x >= y
  }

  /** What one operator yields: a word, whether it is an error, and whether the processor
      traps (the signed quotient of the least integer by -1). */
  datatype Answer = Answer(value: Word, failed: bool, trapped: bool)

  function Plain(value: Word): Answer {
    Answer(value, false, false)
  }

  function UnaryWord(u: UnaryOp, x: Word): Word {
    match u
    case NEGATE => Negate(x)
    case BIT_NOT => Not(x)
    case LOGICAL_NOT => Truth(x == 0)
    case PLUS => x
  }

  predicate Overflows(x: Word, y: Word) {
    x == SIGN_BIT && y == UINT64_MAX
  }

  function BinaryWord(b: BinaryOp, x: Word, y: Word): Answer {
    match b
    case ADDITION => Plain(Wrap(x + y))
    case SUBTRACT => Plain(Wrap(x - y))
    case MULTIPLY => Plain(Wrap(x * y))
    case DIVISION =>
      if y == 0 then Answer(0, true, false) else Plain(Wrap(x / y))
    case SIGNED_DIVISION =>
      if y == 0 then Answer(0, true, false)
      else if Overflows(x, y) then Answer(0, false, true)
      else Plain(Wrap(TruncDiv(Signed(x), Signed(y))))
    case MODULO =>
      if y == 0 then Answer(0, true, false) else Plain(Wrap(x % y))
    case SIGNED_MODULO =>
      if y == 0 then Answer(0, true, false)
      else if Overflows(x, y) then Answer(0, false, true)
      else Plain(Wrap(TruncMod(Signed(x), Signed(y))))
    case BIT_AND => Plain(BitWord(And, x, y))
    case BIT_OR => Plain(BitWord(Or, x, y))
    case BIT_XOR => Plain(BitWord(Xor, x, y))
    case BIT_ORNOT => Plain(BitWord(Or, x, Not(y)))
    case SHIFT_LEFT => Plain(if y < 64 then ShiftLeft(x, y) else 0)
    case SHIFT_RIGHT => Plain(if y < 64 then ShiftRight(x, y) else 0)
    case SIGNED_SHIFT_RIGHT =>
      Plain(if y < 64 then SignedShiftRight(x, y)
            else if x >= SIGN_BIT then UINT64_MAX else 0)
    case LOGICAL_AND => Plain(Truth(x != 0 && y != 0))
    case LOGICAL_OR => Plain(Truth(x != 0 || y != 0))
    case _ => Plain(Mask(Compare(b, x, y)))
  }

  // ----- stack discipline of postfix programs -----

  /** The program never pops an empty stack when started with d values. */
  predicate Runs(code: Code, d: nat) {
    code == [] ||
    (Arity(code[0]) <= d && Runs(code[1..], d - Arity(code[0]) + 1))
  }

  function DepthAfter(code: Code, d: int): int {
    if code == [] then d else DepthAfter(code[1..], d - Arity(code[0]) + 1)
  }

  /** A program that leaves exactly one value and never underflows. */
  predicate WellFormed(code: Code) {
    Runs(code, 0) && DepthAfter(code, 0) == 1
  }

  lemma {:induction false} RunsAppend(a: Code, b: Code, d: nat)
    ensures DepthAfter(a + b, d) == DepthAfter(b, DepthAfter(a, d))
    ensures Runs(a, d) ==> DepthAfter(a, d) >= 0
    ensures Runs(a + b, d) <==> Runs(a, d) && Runs(b, DepthAfter(a, d))
  {
    if a == [] {
      assert a + b == b;
    } else {
      assert (a + b)[1..] == a[1..] + b;
      if Arity(a[0]) <= d {
        RunsAppend(a[1..], b, d - Arity(a[0]) + 1);
      } else {
        DepthAppend(a[1..], b, d - Arity(a[0]) + 1);
      }
    }
  }

  lemma {:induction false} DepthAppend(a: Code, b: Code, d: int)
    ensures DepthAfter(a + b, d) == DepthAfter(b, DepthAfter(a, d))
  {
    if a == [] {
      assert a + b == b;
    } else {
      assert (a + b)[1..] == a[1..] + b;
      DepthAppend(a[1..], b, d - Arity(a[0]) + 1);
    }
  }

  lemma {:induction false} DepthShift(a: Code, d: int, e: int)
    ensures DepthAfter(a, d + e) == DepthAfter(a, d) + e
  {
    if a != [] {
      DepthShift(a[1..], d - Arity(a[0]) + 1, e);
    }
  }

  lemma {:induction false} RunsDeeper(a: Code, d: nat, e: nat)
    requires Runs(a, d)
    ensures Runs(a, d + e)
    ensures DepthAfter(a, d) >= 0
  {
    if a != [] {
      RunsDeeper(a[1..], d - Arity(a[0]) + 1, e);
    }
  }
}
