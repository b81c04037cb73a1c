/** Finding where a subexpression of postfix code begins, by scanning backwards. */
module Subexpressions {
  import opened Operators
  import opened ExprTree

  /** Operands that the backward scan expects before an element: the scan knows values, unary and
      binary operators, and takes everything else for a choice, symbols included. */
  function ScanArity(i: Instr): nat {
    match i
    case Push(Value(_, _)) => 0
    case Push(Symbol(_)) => 3
    case Apply(Unary(_)) => 1
    case Apply(Binary(_)) => 2
    case Apply(_) => 3
  }

  /** The elements from start to last are the postfix of a tree. */
  ghost predicate Subexpression(code: Code, start: nat, last: nat) {
    start <= last < |code| && exists e :: code[start..last + 1] == Postfix(e)
  }

  /** Any proper end piece of a tree's postfix lacks operands. */
  lemma {:induction false} EndPieceLacks(e: Tree, k: nat)
    requires 0 < k <= |Postfix(e)|
    ensures DepthAfter(Postfix(e)[k..], 0) <= 0
    decreases e, 1
  {
    match e
    case Leaf(_) =>
    case Un(u, x) =>
      if u == PLUS {
        assert Postfix(e) == Postfix(x);
        EndPieceLacks(x, k);
      } else {
        EndPieceOf(x, [Apply(Unary(u))], k);
      }
    case Bin(b, l, r) =>
      if k >= |Postfix(l)| {
        assert Postfix(e)[k..] == (Postfix(r) + [Apply(Binary(b))])[k - |Postfix(l)|..];
        EndPieceOf(r, [Apply(Binary(b))], k - |Postfix(l)|);
      } else {
        EndPieceLacks(l, k);
        PostfixRuns(r, 0);
        assert Postfix(e)[k..] == Postfix(l)[k..] + (Postfix(r) + [Apply(Binary(b))]);
        DepthAppend(Postfix(r), [Apply(Binary(b))], 0);
        DepthPair(Postfix(l)[k..], Postfix(r) + [Apply(Binary(b))]);
      }
    case Cond(c, t, f) =>
      EndPieceOfChoice(c, t, f, k);
  }

  /** Depths of consecutive pieces add up. */
  lemma DepthPair(a: Code, b: Code)
    ensures DepthAfter(a + b, 0) == DepthAfter(a, 0) + DepthAfter(b, 0)
  {
    DepthAppend(a, b, 0);
    DepthShift(b, 0, DepthAfter(a, 0));
  }

  lemma {:induction false} EndPieceOf(x: Tree, tail: Code, k: nat)
    requires |tail| == 1 && tail[0].Apply? && Arity(tail[0]) >= 1
    requires k <= |Postfix(x)| + 1
    ensures k == 0 ==> DepthAfter((Postfix(x) + tail)[k..], 0) == 2 - Arity(tail[0])
    ensures k > 0 ==> DepthAfter((Postfix(x) + tail)[k..], 0) <= 0
    decreases x, 2
  {
    var all := Postfix(x) + tail;
    assert tail[1..] == [];
    PostfixRuns(x, 0);
    if k == 0 {
      assert all[0..] == all;
      DepthPair(Postfix(x), tail);
    } else if k <= |Postfix(x)| {
      EndPieceLacks(x, k);
      assert all[k..] == Postfix(x)[k..] + tail;
      DepthPair(Postfix(x)[k..], tail);
    } else {
      assert all[k..] == [];
    }
  }

  lemma ChoicePostfix(c: Tree, t: Tree, f: Tree)
    ensures Postfix(Cond(c, t, f)) == Postfix(c) + Postfix(t) + Postfix(f) + [Apply(CHOICE)]
  {
  }

  lemma {:induction false} EndPieceOfChoice(c: Tree, t: Tree, f: Tree, k: nat)
    requires 0 < k <= |Postfix(Cond(c, t, f))|
    ensures DepthAfter(Postfix(Cond(c, t, f))[k..], 0) <= 0
    decreases Cond(c, t, f), 0
  {
    hide DepthAfter, Postfix;
    var op := [Apply(CHOICE)];
    var pc, pt, pf := Postfix(c), Postfix(t), Postfix(f);
    var all := pc + pt + pf + op;
    ChoicePostfix(c, t, f);
    PostfixRuns(t, 0);
    EndPieceOf(f, op, 0);
    assert (pf + op)[0..] == pf + op;
    if k >= |pc| + |pt| {
      assert all[k..] == (pf + op)[k - |pc| - |pt|..];
      EndPieceOf(f, op, k - |pc| - |pt|);
    } else if k >= |pc| {
      var j := k - |pc|;
      assert all[k..] == pt[j..] + (pf + op);
      DepthPair(pt[j..], pf + op);
      if j > 0 {
        EndPieceLacks(t, j);
      } else {
        assert pt[0..] == pt;
      }
    } else {
      EndPieceLacks(c, k);
      assert all[k..] == pc[k..] + (pt + (pf + op));
      DepthPair(pt, pf + op);
      DepthPair(pc[k..], pt + (pf + op));
    }
  }

  /** Trees never contain the parser's helper operator, so the scan mistakes only symbols. */
  lemma {:induction false} PostfixArities(e: Tree)
    ensures forall i | 0 <= i < |Postfix(e)| ::
              ScanArity(Postfix(e)[i]) == if IsSymbol(Postfix(e)[i]) then 3 else Arity(Postfix(e)[i])
  {
    match e
    case Leaf(_) =>
    case Un(_, x) => PostfixArities(x);
    case Bin(_, l, r) => PostfixArities(l); PostfixArities(r);
    case Cond(c, t, f) => PostfixArities(c); PostfixArities(t); PostfixArities(f);
  }

  // ----- the scan -----

  /** Operands still expected by the operators on the scan's stack, the innermost last. */
  function Expected(stack: seq<nat>): int {
    if stack == [] then 0 else Expected(stack[..|stack| - 1]) + stack[|stack| - 1] - 1
  }

  lemma {:induction false} ExpectedNonnegative(stack: seq<nat>)
    requires forall k | 0 <= k < |stack| :: stack[k] >= 1
    ensures Expected(stack) >= 0
  {
    if stack != [] {
      ExpectedNonnegative(stack[..|stack| - 1]);
    }
  }

  /** An argument fills one place; operators whose places are all filled fill one in turn. */
  method FillPlace(stack0: seq<nat>) returns (stack: seq<nat>)
    requires forall i | 0 <= i < |stack0| :: stack0[i] >= 1
    ensures forall k | 0 <= k < |stack| :: stack[k] >= 1
    ensures stack == [] ==> Expected(stack0) == 0
    ensures stack != [] ==> Expected(stack) == Expected(stack0) - 1
  {
    stack := stack0;
    while stack != []
      invariant forall k | 0 <= k < |stack| :: stack[k] >= 1
      invariant Expected(stack) == Expected(stack0)
      decreases |stack|
    {
      var n := |stack| - 1;
      if stack[n] - 1 != 0 {
        stack := stack[..n] + [stack[n] - 1];
        return;
      }
      stack := stack[..n];
    }
  }

  /** Values left by the elements from j to last. */
  ghost function DepthFrom(code: Code, j: nat, last: nat): int
    requires j <= last + 1 <= |code|
  {
    DepthAfter(code[j..last + 1], 0)
  }

  /** Values left as the scan counts them. */
  function ScanDepth(code: Code): int {
    if code == [] then 0 else 1 - ScanArity(code[0]) + ScanDepth(code[1..])
  }

  function ScanFrom(code: Code, j: nat, last: nat): int
    requires j <= last + 1 <= |code|
  {
    ScanDepth(code[j..last + 1])
  }

  lemma ScanCons(code: Code, i: nat, last: nat)
    requires i <= last < |code|
    ensures ScanFrom(code, i, last) == 1 - ScanArity(code[i]) + ScanFrom(code, i + 1, last)
  {
    assert code[i..last + 1][1..] == code[i + 1..last + 1];
  }

  /** Counting too many operands only lowers the depth. */
  lemma {:induction false} ScanBelow(code: Code)
    requires forall i | 0 <= i < |code| :: ScanArity(code[i]) >= Arity(code[i])
    ensures ScanDepth(code) <= DepthAfter(code, 0)
    ensures ScanDepth(code) == DepthAfter(code, 0)
            <==> forall i | 0 <= i < |code| :: ScanArity(code[i]) == Arity(code[i])
  {
    if code != [] {
      var rest := code[1..];
      ScanBelow(rest);
      DepthShift(rest, 0, 1 - Arity(code[0]));
      assert forall i | 0 <= i < |rest| :: rest[i] == code[i + 1];
      assert forall i | 1 <= i < |code| :: code[i] == rest[i - 1];
    }
  }

  lemma EndPieces(code: Code, s: nat, last: nat, e: Tree)
    requires s <= last < |code| && code[s..last + 1] == Postfix(e)
    ensures forall j | s < j <= last + 1 :: DepthFrom(code, j, last) <= 0
  {
    forall j | s < j <= last + 1 ensures DepthFrom(code, j, last) <= 0 {
      assert code[j..last + 1] == code[s..last + 1][j - s..];
      EndPieceLacks(e, j - s);
    }
  }

  /** The place where the scan from the given element stops, if it stops in the code at all. */
  ghost predicate StopsAt(code: Code, last: nat, start: int)
    requires last < |code|
  {
    && -1 <= start <= last
    && (start >= 0 ==> ScanFrom(code, start, last) == 1)
    && (forall j: nat | start < j <= last :: ScanFrom(code, j, last) != 1)
  }

  /** Scans backwards until all places are filled; minus one when the front of the code is passed. */
  method ToTop(code: Code, opIndex: nat) returns (start: int)
    requires opIndex < |code|
    ensures StopsAt(code, opIndex, start)
  {
    var stack: seq<nat> := [];
    start := opIndex;
    assert code[opIndex + 1..opIndex + 1] == [];
    while start >= 0
      invariant -1 <= start <= opIndex
      invariant forall k | 0 <= k < |stack| :: stack[k] >= 1
      invariant Expected(stack) == 0 - ScanFrom(code, start + 1, opIndex)
      invariant forall j: nat | start < j <= opIndex :: ScanFrom(code, j, opIndex) != 1
      decreases start
    {
      ScanCons(code, start, opIndex);
      var arity := ScanArity(code[start]);
      if arity == 0 {
        stack := FillPlace(stack);
        if stack == [] {
          break;
        }
      } else {
        assert (stack + [arity])[..|stack|] == stack;
        stack := stack + [arity];
      }
      ExpectedNonnegative(stack);
      start := start - 1;
    }
  }

  /** From the last element of a subexpression the scan stops at its first element exactly when the
      subexpression has no symbols, and otherwise runs past it. */
  lemma StopsAtStart(code: Code, s: nat, last: nat, start: int)
    requires Subexpression(code, s, last) && StopsAt(code, last, start)
    ensures start <= s
    ensures start == s <==> forall i | s <= i <= last :: !IsSymbol(code[i])
  {
    var e :| code[s..last + 1] == Postfix(e);
    var piece := code[s..last + 1];
    PostfixArities(e);
    PostfixRuns(e, 0);
    EndPieces(code, s, last, e);
    hide DepthAfter, Postfix, ScanDepth, Subexpression;
    forall j: nat | s < j <= last ensures ScanFrom(code, j, last) <= 0 {
      var end := code[j..last + 1];
      forall i | 0 <= i < |end| ensures ScanArity(end[i]) >= Arity(end[i]) {
        assert end[i] == piece[j - s + i];
      }
      ScanBelow(end);
      assert DepthFrom(code, j, last) <= 0;
    }
    ScanBelow(piece);
    forall i | s <= i <= last ensures IsSymbol(code[i]) == IsSymbol(piece[i - s]) {
    }
    assert forall i | 0 <= i < |piece| :: ScanArity(piece[i]) == Arity(piece[i]) <==> !IsSymbol(piece[i]);
    assert ScanFrom(code, s, last) == 1 <==> forall i | 0 <= i < |piece| :: !IsSymbol(piece[i]);
    assert forall i | 0 <= i < |piece| :: piece[i] == code[s + i];
  }

  /** A symbol behind three values: the scan takes them all for its operands. */
  lemma SymbolTakesOperands(v: Arg, x: string)
    requires v.Value?
    ensures var code := [Push(v), Push(v), Push(v), Push(Symbol(x))];
      Subexpression(code, 3, 3) && StopsAt(code, 3, 0)
  {
    var code := [Push(v), Push(v), Push(v), Push(Symbol(x))];
    assert code[3..4] == Postfix(Leaf(Symbol(x)));
    ScanCons(code, 3, 3);
    ScanCons(code, 2, 3);
    ScanCons(code, 1, 3);
    ScanCons(code, 0, 3);
    assert code[4..4] == [];
    hide ScanFrom, ScanArity;
    assert ScanFrom(code, 4, 3) == 0 && ScanFrom(code, 0, 3) == 1;
  }

  /** Only one subexpression ends at a place. */
  lemma OneStart(code: Code, last: nat, s: nat, t: nat)
    requires Subexpression(code, s, last) && Subexpression(code, t, last)
    ensures s == t
  {
    hide DepthAfter, Postfix;
    var e :| code[s..last + 1] == Postfix(e);
    var f :| code[t..last + 1] == Postfix(f);
    PostfixRuns(e, 0);
    PostfixRuns(f, 0);
    EndPieces(code, s, last, e);
    EndPieces(code, t, last, f);
    assert DepthFrom(code, s, last) == 1 == DepthFrom(code, t, last);
  }
}
