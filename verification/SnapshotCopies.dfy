/** The copies that a snapshot makes of definitions: how one copy is worked on, replacing the names by
    values and counting the open ones, and how it is evaluated and finished. What holds of a copy in
    every state is said in terms of the meaning of symbols, and of those that are stuck. */
module SnapshotCopies {
  import opened Operators
  import opened AbsoluteMachine
  import opened RelativeMachine
  import opened SymbolMeaning
  import E = Evaluator
  import V = RelativeEvaluation

  // ----- evaluating a copy -----

  function OpsOf(code: Code): (ops: seq<OpCode>)
    ensures |ops| == |code|
    ensures forall i | 0 <= i < |code| :: ops[i] == OpOf(code[i])
  {
    seq(|code|, i requires 0 <= i < |code| => OpOf(code[i]))
  }

  function OpOf(i: Instr): OpCode {
    match i
    case Push(Value(_, _)) => ARG_VALUE
    case Push(Symbol(_)) => ARG_SYMBOL
    case Apply(o) => OPERATOR(o)
  }

  function ArgsOf(code: Code): seq<Arg> {
    if code == [] then []
    else ArgsOf(code[..|code| - 1]) + if code[|code| - 1].Push? then [code[|code| - 1].arg] else []
  }

  lemma {:induction false} ArgsCount(code: Code, ops: seq<OpCode>)
    requires ops == OpsOf(code)
    ensures |ArgsOf(code)| == CountArgs(ops)
  {
    if code != [] {
      ArgsCount(code[..|code| - 1], ops[..|code| - 1]);
    }
  }

  lemma {:induction false} ArgsAt(code: Code, i: nat)
    requires i < |code| && code[i].Push?
    ensures |ArgsOf(code[..i])| < |ArgsOf(code)| && ArgsOf(code)[|ArgsOf(code[..i])|] == code[i].arg
  {
    var n := |code| - 1;
    if i < n {
      assert code[..n][..i] == code[..i];
      ArgsAt(code[..n], i);
    }
  }

  /** Operator codes and arguments together give the code back. */
  lemma SplitCode(code: Code)
    ensures Paired(OpsOf(code), ArgsOf(code)) && CodeOf(OpsOf(code), ArgsOf(code)) == code
  {
    var ops := OpsOf(code);
    ArgsCount(code, ops);
    forall i | 0 <= i < |ops| && IsArg(ops[i])
      ensures CountArgs(ops[..i]) < |ArgsOf(code)| && ArgsOf(code)[CountArgs(ops[..i])] == code[i].arg
    {
      ArgsAt(code, i);
      ArgsCount(code[..i], ops[..i]);
    }
  }

  lemma {:induction false} RunsAlike(a: Code, b: Code, d: nat)
    requires |a| == |b| && forall i | 0 <= i < |a| :: Arity(a[i]) == Arity(b[i])
    ensures Runs(a, d) == Runs(b, d)
  {
    if a != [] && Arity(a[0]) <= d {
      RunsAlike(a[1..], b[1..], d - Arity(a[0]) + 1);
    }
  }

  lemma SuccessKnown(lay: Layout, code: Code)
    requires ValidLayout(lay) && CodeOk(lay, code) && Runs(code, 0)
    ensures var out := Evaluated(lay, code);
      out.Success? ==> out.section == ASMSECT_ABS || out.section < |lay.sections|
  {
    var f := FinalForm(RelRun(lay, code, REL_START));
    assert KnownSections(lay, f.rels);
    hide ProperSection;
  }

  method EvaluateCopy(lay: Layout, code: Code, relative: bool) returns (out: Outcome)
    requires ValidLayout(lay) && CodeOk(lay, code) && Runs(code, 0)
    requires !relative ==> V.AllAbsolute(code)
    ensures out == Evaluated(lay, code)
  {
    SplitCode(code);
    assert code[0..|code|] == code;
    out := E.TryEvaluate(E.Expression(OpsOf(code), ArgsOf(code), 0, relative), lay, 0, |code|);
  }

  // ----- a copy whose names are all replaced has the meaning of its original -----

  /** The instruction that replaces one of a definition. */
  ghost predicate Replaces(w: World, from: Instr, to: Instr, exact: bool) {
    if IsSymbol(from) then
      exists k :: to == AsInstr(w, k) && KnownOk(w, k) && (exact ==> Means(w, from.arg.name, k))
    else to == from
  }

  lemma ReplacesPick(w: World, from: Instr, to: Instr) returns (k: Known)
    requires Replaces(w, from, to, true) && IsSymbol(from)
    ensures to == AsInstr(w, k) && Means(w, from.arg.name, k)
  {
    k :| to == AsInstr(w, k) && KnownOk(w, k) && Means(w, from.arg.name, k);
  }

  /** One depth serves all names of a definition. */
  lemma {:induction false} CommonDepth(w: World, from: Code, to: Code, n: nat) returns (depth: nat)
    requires n <= |from| == |to|
    requires forall i | 0 <= i < n :: Replaces(w, from[i], to[i], true)
    ensures forall i | 0 <= i < n :: UnfoldedInstr(w, from[i], depth) == to[i]
  {
    hide Replaces;
    depth := 0;
    if n > 0 {
      var d := CommonDepth(w, from, to, n - 1);
      var e := ReplacedDepth(w, from[n - 1], to[n - 1]);
      depth := if d < e then e else d;
      assert Replaces(w, from[n - 1], to[n - 1], true);
      forall i | 0 <= i < n ensures UnfoldedInstr(w, from[i], depth) == to[i] {
        assert Replaces(w, from[i], to[i], true);
        ReplacedStays(w, from[i], to[i], if i < n - 1 then d else e, depth);
      }
    }
  }

  lemma ReplacedDepth(w: World, from: Instr, to: Instr) returns (depth: nat)
    requires Replaces(w, from, to, true)
    ensures UnfoldedInstr(w, from, depth) == to
  {
    depth := 0;
    if IsSymbol(from) {
      var k := ReplacesPick(w, from, to);
      depth :| Meaning(w, from.arg.name, depth) == Just(k);
    }
  }

  lemma ReplacedStays(w: World, from: Instr, to: Instr, d: nat, depth: nat)
    requires Replaces(w, from, to, true) && UnfoldedInstr(w, from, d) == to && d <= depth
    ensures UnfoldedInstr(w, from, depth) == to
  {
    if IsSymbol(from) {
      var k := ReplacesPick(w, from, to);
      MeaningStays(w, from.arg.name, d, depth);
    }
  }

  lemma CopyMeans(w: World, x: string, code: Code)
    requires WorldOk(w) && IsBase(w, x) && |code| == |w.symbols[x].code|
    requires forall i | 0 <= i < |code| :: Replaces(w, w.symbols[x].code[i], code[i], true)
    requires CodeOk(w.layout, code) && Runs(code, 0)
    ensures var m := Settled(Evaluated(w.layout, code)); if m.Just? then Means(w, x, m.known) else Fails(w, x)
  {
    hide Replaces, Evaluated, RelRun, Finish, CodeOk;
    var original := w.symbols[x].code;
    var depth := CommonDepth(w, original, code, |code|);
    assert Unfolded(w, original, depth) == code;
    assert Settled(Evaluated(w.layout, code)).Nothing? ==> FailsAt(w, x, depth);
    assert Meaning(w, x, depth + 1) == Settled(Evaluated(w.layout, code));
  }

  lemma CopyRuns(w: World, x: string, code: Code)
    requires WorldOk(w) && IsBase(w, x) && |code| == |w.symbols[x].code|
    requires forall i | 0 <= i < |code| :: Replaces(w, w.symbols[x].code[i], code[i], false)
    ensures CodeOk(w.layout, code) && Runs(code, 0)
  {
    var original := w.symbols[x].code;
    forall i | 0 <= i < |code| ensures Arity(code[i]) == Arity(original[i]) && InstrOk(w.layout, code[i]) {
      assert Replaces(w, original[i], code[i], false);
    }
    RunsAlike(original, code, 0);
  }

  // ----- the walk -----

  /** A copy of a definition. It is a base while it is being worked on; relative tells that a
      value of some section was put into it. */
  datatype Entry = Entry(code: Code, symOccursNum: nat, relative: bool, value: Maybe, base: bool)

  type Snapshots = map<string, Entry>

  datatype Frame = Frame(name: string, opIndex: nat)

  /** The first k instructions of a copy have been worked on. */
  ghost predicate Processed(w: World, good: bool, x: string, e: Entry, k: nat)
    requires IsBase(w, x)
  {
    var original := w.symbols[x].code;
    && |e.code| == |original| && k <= |e.code| && e.base && e.value.Nothing?
    && (forall i | 0 <= i < k :: Replaces(w, original[i], e.code[i], good)
                                 || (e.code[i] == original[i] && e.symOccursNum > 0))
    && (forall i | k <= i < |original| :: e.code[i] == original[i])
    && (e.symOccursNum > 0 ==> Stuck(w, x))
    && (forall i | 0 <= i < |e.code| && e.code[i].Push? && e.code[i].arg.Value? ::
          e.code[i].arg.section != ASMSECT_ABS ==> e.relative)
    && (good ==> forall i | 0 <= i < k :: !PushesRegister(w, original[i]))
  }

  predicate PushesRegister(w: World, i: Instr) {
    IsSymbol(i) && IsRegister(w, i.arg.name)
  }

  /** A finished copy has no value only when its symbol is stuck; without errors it uses no register
      symbol. */
  ghost predicate Finished(w: World, good: bool, x: string, e: Entry) {
    && !e.base
    && (e.value.Nothing? ==> Stuck(w, x))
    && (e.value.Just? ==> KnownOk(w, e.value.known) && (good ==> Means(w, x, e.value.known)))
    && (good ==> !UsesRegister(w, x))
  }

  ghost predicate AllFinished(w: World, good: bool, snap: Snapshots) {
    forall x | x in snap :: IsBase(w, x) && Finished(w, good, x, snap[x])
  }

  predicate OnStack(stack: seq<Frame>, x: string) {
    exists i :: 0 <= i < |stack| && stack[i].name == x
  }

  ghost predicate FrameOk(w: World, good: bool, snap: Snapshots, f: Frame) {
    f.name in snap && IsBase(w, f.name) && Processed(w, good, f.name, snap[f.name], f.opIndex)
  }

  ghost predicate Walking(w: World, good: bool, snap: Snapshots, stack: seq<Frame>) {
    && (forall x | x in snap :: IsBase(w, x) && (OnStack(stack, x) || Finished(w, good, x, snap[x])))
    && (forall i | 0 <= i < |stack| :: FrameOk(w, good, snap, stack[i]))
    && (forall i, j | 0 <= i < j < |stack| :: stack[i].name != stack[j].name)
    && Chained(w, stack)
  }

  /** Every copy was started from the one below it. */
  ghost predicate Chained(w: World, stack: seq<Frame>) {
    forall i | 0 <= i < |stack| - 1 :: RefersUp(w, stack, i)
  }

  ghost predicate RefersUp(w: World, stack: seq<Frame>, i: nat)
    requires i + 1 < |stack|
  {
    Refers(w, stack[i].name, stack[i + 1].name)
  }

  function Names(stack: seq<Frame>): (names: seq<string>)
    ensures |names| == |stack| && forall i | 0 <= i < |names| :: names[i] == stack[i].name
  {
    seq(|stack|, i requires 0 <= i < |stack| => stack[i].name)
  }

  /** Using a symbol whose copy is still being worked on closes a circle. */
  lemma InProgressIsCircle(w: World, stack: seq<Frame>, y: string)
    requires stack != [] && Chained(w, stack) && OnStack(stack, y) && Refers(w, stack[|stack| - 1].name, y)
    ensures Stuck(w, stack[|stack| - 1].name)
  {
    var m :| 0 <= m < |stack| && stack[m].name == y;
    var path := Names(stack[m..]);
    forall i | 0 <= i < |path| - 1 ensures RefersAt(w, path, i) {
      assert RefersUp(w, stack, m + i);
    }
    StuckInCircle(w, stack[|stack| - 1].name, path);
  }

  /** What a copy takes for a name: the value of the symbol, or that of its copy. */
  function Found(w: World, snap: Snapshots, y: string): Maybe
    requires y in w.symbols && (IsBase(w, y) ==> y in snap)
  {
    match w.symbols[y]
    case Base(_) => snap[y].value
    case Defined(v, s, _) => Just(Known(v, s))
    case Undefined => Nothing
  }

  lemma NothingFound(w: World, good: bool, snap: Snapshots, stack: seq<Frame>, y: string)
    requires Walking(w, good, snap, stack) && stack != [] && y in w.symbols && (IsBase(w, y) ==> y in snap)
    requires Refers(w, stack[|stack| - 1].name, y) && Found(w, snap, y).Nothing?
    ensures Stuck(w, stack[|stack| - 1].name)
  {
    hide Processed, Stuck, Refers;
    var x := stack[|stack| - 1].name;
    if w.symbols[y].Undefined? {
      StuckAtUndefined(w, x, y);
    } else if OnStack(stack, y) {
      InProgressIsCircle(w, stack, y);
    } else {
      StuckThrough(w, x, y);
    }
  }

  lemma SomethingFound(w: World, good: bool, snap: Snapshots, stack: seq<Frame>, y: string)
    requires WorldOk(w) && Walking(w, good, snap, stack) && y in w.symbols && (IsBase(w, y) ==> y in snap)
    requires Found(w, snap, y).Just?
    ensures KnownOk(w, Found(w, snap, y).known) && (good ==> Means(w, y, Found(w, snap, y).known))
  {
    if w.symbols[y].Defined? {
      assert SymbolOk(w, w.symbols[y]);
      assert Meaning(w, y, 0) == Found(w, snap, y);
    }
  }

  lemma ProcessedValue(w: World, good: bool, x: string, e: Entry, k: nat, known: Known)
    requires WorldOk(w) && IsBase(w, x) && Processed(w, good, x, e, k) && k < |e.code| && IsSymbol(e.code[k])
    requires KnownOk(w, known) && (good ==> Means(w, e.code[k].arg.name, known) && !IsRegister(w, e.code[k].arg.name))
    ensures var i := AsInstr(w, known);
      Processed(w, good, x,
                e.(code := e.code[k := i], relative := e.relative || i.arg.section != ASMSECT_ABS), k + 1)
  {
    hide Means, Stuck;
    assert Replaces(w, w.symbols[x].code[k], AsInstr(w, known), good);
    hide Replaces;
  }

  lemma ProcessedCount(w: World, good: bool, x: string, e: Entry, k: nat)
    requires IsBase(w, x) && Processed(w, good, x, e, k) && k < |e.code| && Stuck(w, x)
    requires !PushesRegister(w, e.code[k])
    ensures Processed(w, good, x, e.(symOccursNum := e.symOccursNum + 1), k + 1)
  {
    hide Replaces, Stuck;
  }

  lemma ProcessedPass(w: World, good: bool, x: string, e: Entry, k: nat)
    requires IsBase(w, x) && Processed(w, good, x, e, k) && k < |e.code| && !IsSymbol(e.code[k])
    ensures Processed(w, good, x, e, k + 1)
  {
    hide Stuck;
    assert Replaces(w, w.symbols[x].code[k], e.code[k], good);
    hide Replaces;
  }

  lemma ReplacesLess(w: World, from: Instr, to: Instr, exact: bool)
    requires Replaces(w, from, to, exact)
    ensures Replaces(w, from, to, false)
  {
  }

  lemma ProcessedLess(w: World, good: bool, x: string, e: Entry, k: nat)
    requires IsBase(w, x) && Processed(w, good, x, e, k)
    ensures Processed(w, false, x, e, k)
  {
    hide Replaces, Stuck;
    var original := w.symbols[x].code;
    forall i | 0 <= i < k
      ensures Replaces(w, original[i], e.code[i], false) || (e.code[i] == original[i] && e.symOccursNum > 0)
    {
      if Replaces(w, original[i], e.code[i], good) {
        ReplacesLess(w, original[i], e.code[i], good);
      }
    }
  }

  lemma ReferenceAt(w: World, good: bool, x: string, e: Entry, k: nat)
    requires WorldOk(w) && IsBase(w, x) && Processed(w, good, x, e, k) && k < |e.code| && IsSymbol(e.code[k])
    ensures e.code[k].arg.name in w.symbols && Refers(w, x, e.code[k].arg.name)
  {
    hide Replaces, Stuck;
    assert SymbolOk(w, w.symbols[x]);
    assert w.symbols[x].code[k] == Push(Symbol(e.code[k].arg.name));
  }

  /** Puts the value of the k-th instruction's symbol into the top copy, or counts the symbol as
      open. */
  method TakeSymbol(w: World, snap: Snapshots, stack: seq<Frame>, ghost good0: bool, e: Entry, k: nat, good: bool)
    returns (e': Entry, good': bool)
    requires WorldOk(w) && stack != [] && Walking(w, good0, snap, stack) && (good ==> good0)
    requires IsBase(w, stack[|stack| - 1].name) && Processed(w, good, stack[|stack| - 1].name, e, k)
    requires k < |e.code| && IsSymbol(e.code[k])
    requires var y := e.code[k].arg.name;
      Refers(w, stack[|stack| - 1].name, y) && y in w.symbols && (IsBase(w, y) ==> y in snap)
    ensures (good' ==> good) && |e'.code| == |e.code|
    ensures good && !good' ==> UsesRegister(w, stack[|stack| - 1].name)
    ensures Processed(w, good', stack[|stack| - 1].name, e', k + 1)
  {
    hide Processed, Walking, Stuck, Refers, Means, WorldOk;
    ghost var x := stack[|stack| - 1].name;
    var y := e.code[k].arg.name;
    good' := good;
    var found := Found(w, snap, y);
    if found.Just? {
      if w.symbols[y].Defined? && w.symbols[y].regRange {
        // register symbols are not usable
        ProcessedLess(w, good', x, e, k);
        good' := false;
      }
      SomethingFound(w, good0, snap, stack, y);
      ProcessedValue(w, good', x, e, k, found.known);
      var i := AsInstr(w, found.known);
      e' := e.(code := e.code[k := i], relative := e.relative || i.arg.section != ASMSECT_ABS);
    } else {
      NothingFound(w, good0, snap, stack, y);
      ProcessedCount(w, good', x, e, k);
      e' := e.(symOccursNum := e.symOccursNum + 1);
    }
  }

  /** The k-th instruction of a copy uses a definition that was not copied yet. */
  ghost predicate Halts(w: World, snap: Snapshots, x: string, e: Entry, k: nat) {
    && k < |e.code| && IsSymbol(e.code[k])
    && IsBase(w, e.code[k].arg.name) && e.code[k].arg.name !in snap && Refers(w, x, e.code[k].arg.name)
  }

  lemma HaltsAt(w: World, snap: Snapshots, x: string, e: Entry, k: nat)
    requires Halts(w, snap, x, e, k)
    ensures k < |e.code| && e.code[k].Push? && e.code[k].arg.Symbol?
    ensures var y := e.code[k].arg.name; IsBase(w, y) && y !in snap && Refers(w, x, y)
  {
  }

  /** Works on the top copy up to its end, or up to a definition that was not copied yet. */
  method Advance(w: World, snap: Snapshots, stack: seq<Frame>, good: bool)
    returns (e: Entry, k: nat, good': bool)
    requires WorldOk(w) && stack != [] && Walking(w, good, snap, stack)
    ensures good' ==> good
    ensures good && !good' ==> Unusable(w, stack[|stack| - 1].name)
    ensures FrameOk(w, good, snap, stack[|stack| - 1])
    ensures Processed(w, good', stack[|stack| - 1].name, e, k)
    ensures k < |e.code| ==> Halts(w, snap, stack[|stack| - 1].name, e, k)
  {
    ghost var x := stack[|stack| - 1].name;
    assert FrameOk(w, good, snap, stack[|stack| - 1]);
    e := snap[stack[|stack| - 1].name];
    k := stack[|stack| - 1].opIndex;
    good' := good;
    hide Processed, Walking, Stuck, Refers, Means, WorldOk;
    CodeBound(w, good, x, e, k);
    while k < |e.code|
      invariant k <= |e.code| && IsBase(w, x)
      invariant Processed(w, good', x, e, k) && (good' ==> good) && (good && !good' ==> UsesRegister(w, x))
    {
      if IsSymbol(e.code[k]) {
        var y := e.code[k].arg.name;
        ReferenceAt(w, good', x, e, k);
        if IsBase(w, y) && y !in snap {
          return;
        }
        e, good' := TakeSymbol(w, snap, stack, good, e, k, good');
      } else {
        ProcessedPass(w, good', x, e, k);
      }
      k := k + 1;
    }
  }

  lemma CodeBound(w: World, good: bool, x: string, e: Entry, k: nat)
    requires IsBase(w, x) && Processed(w, good, x, e, k)
    ensures k <= |e.code|
  {
    hide Replaces, Stuck;
  }

  /** Evaluates a copy without open names, and marks it as finished. */
  method FinishCopy(w: World, x: string, e: Entry, good: bool) returns (e': Entry, good': bool)
    requires WorldOk(w) && IsBase(w, x) && Processed(w, good, x, e, |e.code|)
    ensures good' ==> good
    ensures good && !good' ==> Unusable(w, x)
    ensures Finished(w, good', x, e')
  {
    good' := good;
    e' := e.(base := false);
    NoRegisters(w, good, x, e);
    if e.symOccursNum == 0 {
      CompleteCopy(w, good, x, e);
      var out := EvaluateCopy(w.layout, e.code, e.relative);
      SuccessKnown(w.layout, e.code);
      if Settled(out).Nothing? {
        good' := false;
        e' := e'.(value := Just(Known(0, ASMSECT_ABS)));
      } else {
        e' := e'.(value := Settled(out));
      }
    }
  }

  lemma NoRegisters(w: World, good: bool, x: string, e: Entry)
    requires IsBase(w, x) && Processed(w, good, x, e, |e.code|)
    ensures good ==> !UsesRegister(w, x)
  {
    hide Replaces, Stuck;
    var original := w.symbols[x].code;
    if UsesRegister(w, x) {
      var y :| Refers(w, x, y) && IsRegister(w, y);
      var i :| 0 <= i < |original| && original[i] == Push(Symbol(y));
      assert PushesRegister(w, original[i]);
    }
  }

  lemma CompleteCopy(w: World, good: bool, x: string, e: Entry)
    requires WorldOk(w) && IsBase(w, x) && Processed(w, good, x, e, |e.code|) && e.symOccursNum == 0
    ensures CodeOk(w.layout, e.code) && Runs(e.code, 0)
    ensures !e.relative ==> V.AllAbsolute(e.code)
    ensures good ==>
      var m := Settled(Evaluated(w.layout, e.code)); if m.Just? then Means(w, x, m.known) else Fails(w, x)
  {
    var original := w.symbols[x].code;
    hide Stuck, Means, Fails;
    forall i | 0 <= i < |e.code| ensures Replaces(w, original[i], e.code[i], false) {
      ReplacesLess(w, original[i], e.code[i], good);
    }
    hide Replaces;
    CopyRuns(w, x, e.code);
    if good {
      CopyMeans(w, x, e.code);
    }
  }
}
