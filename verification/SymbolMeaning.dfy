/** What a symbol defined by .eqv means: its value by recursive substitution. */
module SymbolMeaning {
  import opened Words
  import opened Operators
  import opened LinearForms
  import opened AbsoluteMachine
  import opened RelativeMachine

  datatype Symbol =
    | Base(code: Code)
    | Defined(value: Word, section: SectionId, regRange: bool)
    | Undefined

  /** The symbol table, the sections, and the sections whose symbols count as absolute. Copies are
      evaluated without section differences. */
  datatype World = World(symbols: map<string, Symbol>, layout: Layout, addressable: set<SectionId>)

  datatype Known = Known(value: Word, section: SectionId)

  datatype Maybe = Nothing | Just(known: Known)

  predicate SymbolOk(w: World, s: Symbol) {
    match s
    case Base(code) =>
      Runs(code, 0)
      && (forall i | 0 <= i < |code| && code[i].Push? ::
            if code[i].arg.Symbol? then code[i].arg.name in w.symbols else code[i].arg.section == ASMSECT_ABS)
    case Defined(value, section, _) => KnownOk(w, Known(value, section))
    case Undefined => true
  }

  predicate KnownOk(w: World, k: Known) {
    k.section == ASMSECT_ABS || k.section < |w.layout.sections|
  }

  ghost predicate WorldOk(w: World) {
    && ValidLayout(w.layout) && !w.layout.withDiffs
    && forall x | x in w.symbols :: SymbolOk(w, w.symbols[x])
  }

  predicate IsBase(w: World, x: string) {
    x in w.symbols && w.symbols[x].Base?
  }

  /** A value as an argument of an expression. */
  function AsInstr(w: World, k: Known): Instr {
    Push(Value(k.value, if k.section in w.addressable then ASMSECT_ABS else k.section))
  }

  /** A name is replaced by the address of its symbol; the section is dropped exactly when it counts as
      absolute. */
  lemma NameKeepsAddress(w: World, k: Known)
    ensures var i := AsInstr(w, k);
      && i.Push? && i.arg.Value? && i.arg.value == k.value
      && (forall base: Bases | forall s | s in w.addressable :: BaseOf(base, s) == 0 ::
            BaseOf(base, i.arg.section) == BaseOf(base, k.section))
      && ((forall base: Bases :: BaseOf(base, i.arg.section) == BaseOf(base, k.section))
          <==> k.section !in w.addressable || k.section == ASMSECT_ABS)
  {
    var i := AsInstr(w, k);
    var base: Bases := s => 1;
    if k.section in w.addressable && k.section != ASMSECT_ABS {
      assert BaseOf(base, i.arg.section) != BaseOf(base, k.section);
    }
  }

  // ----- what a symbol means: recursive substitution -----

  /** The value that a definition takes from its evaluation. */
  function Settled(out: Outcome): Maybe {
    match out
    case Success(v, s) => Just(Known(v, s))
    case _ => Nothing
  }

  ghost function Evaluated(lay: Layout, code: Code): Outcome
    requires ValidLayout(lay) && CodeOk(lay, code) && Runs(code, 0)
  {
    Finish(lay, RelRun(lay, code, REL_START))
  }

  /** The value of a symbol when definitions are unfolded at most depth times. */
  ghost function Meaning(w: World, x: string, depth: nat): Maybe
    decreases depth, 0
  {
    if x !in w.symbols then Nothing
    else
      match w.symbols[x]
      case Undefined => Nothing
      case Defined(v, s, _) => Just(Known(v, s))
      case Base(code) =>
        if depth == 0 then Nothing
        else
          var c := Unfolded(w, code, depth - 1);
          if ValidLayout(w.layout) && CodeOk(w.layout, c) && Runs(c, 0) then Settled(Evaluated(w.layout, c))
          else Nothing
  }

  ghost function Unfolded(w: World, code: Code, depth: nat): (c: Code)
    ensures |c| == |code|
    decreases depth, 2
  {
    seq(|code|, i requires 0 <= i < |code| => UnfoldedInstr(w, code[i], depth))
  }

  ghost function UnfoldedInstr(w: World, i: Instr, depth: nat): Instr
    decreases depth, 1
  {
    if IsSymbol(i) && Meaning(w, i.arg.name, depth).Just? then AsInstr(w, Meaning(w, i.arg.name, depth).known) else i
  }

  ghost predicate Means(w: World, x: string, k: Known) {
    exists depth: nat :: Meaning(w, x, depth) == Just(k)
  }

  // ----- symbols without a value -----

  ghost predicate Refers(w: World, x: string, y: string) {
    IsBase(w, x) && Push(Symbol(y)) in w.symbols[x].code
  }

  /** Every name of the path is used in the definition of the one before. */
  ghost predicate Path(w: World, path: seq<string>) {
    path != [] && forall i | 0 <= i < |path| - 1 :: RefersAt(w, path, i)
  }

  ghost predicate RefersAt(w: World, path: seq<string>, i: nat)
    requires i + 1 < |path|
  {
    Refers(w, path[i], path[i + 1])
  }

  /** Definitions lead from one symbol to the other. */
  ghost predicate Reaches(w: World, x: string, y: string) {
    exists path :: Path(w, path) && path[0] == x && path[|path| - 1] == y
  }

  lemma ReachesItself(w: World, x: string)
    ensures Reaches(w, x, x)
  {
    assert Path(w, [x]) && [x][0] == x;
  }

  lemma ReachesNext(w: World, x: string, y: string, z: string)
    requires Reaches(w, x, y) && Refers(w, y, z)
    ensures Reaches(w, x, z)
  {
    var path :| Path(w, path) && path[0] == x && path[|path| - 1] == y;
    var p := path + [z];
    forall i | 0 <= i < |p| - 1 ensures RefersAt(w, p, i) {
      if i < |path| - 1 {
        assert RefersAt(w, path, i);
      }
    }
    assert Path(w, p) && p[0] == x && p[|p| - 1] == z;
  }

  /** The path runs into an undefined symbol, or in a circle. */
  ghost predicate DeadEnd(w: World, path: seq<string>) {
    && Path(w, path)
    && var last := path[|path| - 1];
    last !in w.symbols || w.symbols[last].Undefined? || last in path[..|path| - 1]
  }

  ghost predicate Stuck(w: World, x: string) {
    exists path :: DeadEnd(w, path) && path[0] == x
  }

  lemma PathPrefix(w: World, x: string, path: seq<string>)
    requires Path(w, path) && Refers(w, x, path[0])
    ensures Path(w, [x] + path)
  {
    var p := [x] + path;
    forall i | 0 <= i < |p| - 1 ensures RefersAt(w, p, i) {
      if i > 0 {
        assert RefersAt(w, path, i - 1);
      }
    }
  }

  lemma StuckThrough(w: World, x: string, y: string)
    requires Refers(w, x, y) && Stuck(w, y)
    ensures Stuck(w, x)
  {
    var path :| DeadEnd(w, path) && path[0] == y;
    PathPrefix(w, x, path);
    var p := [x] + path;
    assert p[..|p| - 1] == [x] + path[..|path| - 1];
    assert DeadEnd(w, p) && p[0] == x;
  }

  lemma StuckAtUndefined(w: World, x: string, y: string)
    requires Refers(w, x, y) && y in w.symbols && w.symbols[y].Undefined?
    ensures Stuck(w, x)
  {
    assert RefersAt(w, [x, y], 0);
    assert DeadEnd(w, [x, y]) && [x, y][0] == x;
  }

  lemma StuckInCircle(w: World, x: string, path: seq<string>)
    requires Path(w, path) && Refers(w, x, path[0]) && path[|path| - 1] == x
    ensures Stuck(w, x)
  {
    PathPrefix(w, x, path);
    var p := [x] + path;
    assert p[..|p| - 1][0] == x;
    assert DeadEnd(w, p) && p[0] == x;
  }

  // ----- meanings do not depend on the depth -----

  lemma {:induction false} MeaningStays(w: World, x: string, m: nat, n: nat)
    requires m <= n && Meaning(w, x, m).Just?
    ensures Meaning(w, x, n) == Meaning(w, x, m)
    decreases m
  {
    if IsBase(w, x) {
      var code := w.symbols[x].code;
      var c := Unfolded(w, code, m - 1);
      forall i | 0 <= i < |code| ensures UnfoldedInstr(w, code[i], n - 1) == c[i] {
        assert c[i] == UnfoldedInstr(w, code[i], m - 1);
        if IsSymbol(code[i]) {
          assert InstrOk(w.layout, c[i]);
          MeaningStays(w, code[i].arg.name, m - 1, n - 1);
        }
      }
      assert Unfolded(w, code, n - 1) == c;
    }
  }

  lemma MeaningIsUnique(w: World, x: string, a: Known, b: Known)
    requires Means(w, x, a) && Means(w, x, b)
    ensures a == b
  {
    var m: nat :| Meaning(w, x, m) == Just(a);
    var n: nat :| Meaning(w, x, n) == Just(b);
    MeaningStays(w, x, if m < n then m else n, if m < n then n else m);
  }

  /** The names of a definition with a meaning have a meaning one level down. */
  lemma MeaningBelow(w: World, x: string, y: string, depth: nat)
    requires Refers(w, x, y) && Meaning(w, x, depth).Just?
    ensures depth > 0 && Meaning(w, y, depth - 1).Just?
  {
    var code := w.symbols[x].code;
    var i :| 0 <= i < |code| && code[i] == Push(Symbol(y));
    assert depth > 0;
    var c := Unfolded(w, code, depth - 1);
    assert c[i] == UnfoldedInstr(w, code[i], depth - 1) && InstrOk(w.layout, c[i]);
  }

  lemma {:induction false} PathsAreShort(w: World, path: seq<string>, depth: nat)
    requires Path(w, path) && Meaning(w, path[0], depth).Just?
    ensures |path| <= depth + 1 && Meaning(w, path[|path| - 1], depth + 1 - |path|).Just?
    decreases depth
  {
    if |path| > 1 {
      assert RefersAt(w, path, 0);
      MeaningBelow(w, path[0], path[1], depth);
      forall i | 0 <= i < |path[1..]| - 1 ensures RefersAt(w, path[1..], i) {
        assert RefersAt(w, path, i + 1);
      }
      PathsAreShort(w, path[1..], depth - 1);
    }
  }

  /** A circle can be walked again. */
  lemma WalkAgain(w: World, path: seq<string>, i: nat)
    requires Path(w, path) && i < |path| - 1 && path[i] == path[|path| - 1]
    ensures Path(w, path + path[i + 1..])
  {
    var p := path + path[i + 1..];
    forall j | 0 <= j < |p| - 1 ensures RefersAt(w, p, j) {
      if j < |path| - 1 {
        assert RefersAt(w, path, j);
      } else {
        assert RefersAt(w, path, i + (j - (|path| - 1)));
      }
    }
  }

  lemma {:induction false} NoCircle(w: World, path: seq<string>, i: nat, depth: nat)
    requires Path(w, path) && Meaning(w, path[0], depth).Just? && i < |path| - 1
    ensures path[i] != path[|path| - 1]
    decreases depth + 2 - |path|
  {
    PathsAreShort(w, path, depth);
    if path[i] == path[|path| - 1] {
      WalkAgain(w, path, i);
      NoCircle(w, path + path[i + 1..], i, depth);
    }
  }

  /** A symbol with a meaning reaches no undefined symbol and no circle. */
  lemma MeaningIsNotStuck(w: World, x: string, k: Known)
    requires Means(w, x, k)
    ensures !Stuck(w, x)
  {
    var depth: nat :| Meaning(w, x, depth) == Just(k);
    if Stuck(w, x) {
      var path :| DeadEnd(w, path) && path[0] == x;
      PathsAreShort(w, path, depth);
      if path[|path| - 1] in path[..|path| - 1] {
        var i :| 0 <= i < |path| - 1 && path[..|path| - 1][i] == path[|path| - 1];
        NoCircle(w, path, i, depth);
      }
    }
  }

  // ----- definitions that cannot be evaluated -----

  /** With all names replaced, the evaluation of a definition does not succeed. */
  ghost predicate FailsAt(w: World, x: string, depth: nat) {
    IsBase(w, x) &&
    var c := Unfolded(w, w.symbols[x].code, depth);
    ValidLayout(w.layout) && CodeOk(w.layout, c) && Runs(c, 0) && !Evaluated(w.layout, c).Success?
  }

  ghost predicate Fails(w: World, x: string) {
    exists depth: nat :: FailsAt(w, x, depth)
  }

  predicate IsRegister(w: World, y: string) {
    y in w.symbols && w.symbols[y].Defined? && w.symbols[y].regRange
  }

  ghost predicate UsesRegister(w: World, x: string) {
    exists y :: Refers(w, x, y) && IsRegister(w, y)
  }

  /** The definitions for which a snapshot reports an error. */
  ghost predicate Unusable(w: World, x: string) {
    UsesRegister(w, x) || Fails(w, x)
  }

  /** Codes that are unfolded without an open name left do not depend on the depth. */
  lemma UnfoldedAlike(w: World, code: Code, m: nat, n: nat)
    requires CodeOk(w.layout, Unfolded(w, code, m)) && CodeOk(w.layout, Unfolded(w, code, n))
    ensures Unfolded(w, code, m) == Unfolded(w, code, n)
  {
    var a, b := Unfolded(w, code, m), Unfolded(w, code, n);
    forall i | 0 <= i < |code| ensures a[i] == b[i] {
      assert InstrOk(w.layout, a[i]) && InstrOk(w.layout, b[i]);
      assert a[i] == UnfoldedInstr(w, code[i], m) && b[i] == UnfoldedInstr(w, code[i], n);
      if IsSymbol(code[i]) {
        MeaningStays(w, code[i].arg.name, if m < n then m else n, if m < n then n else m);
      }
    }
  }

  /** With names unfolded so deep, the evaluation of a definition answers with a value. */
  ghost predicate AnswersAt(w: World, x: string, depth: nat, k: Known) {
    IsBase(w, x) &&
    var c := Unfolded(w, w.symbols[x].code, depth);
    ValidLayout(w.layout) && CodeOk(w.layout, c) && Runs(c, 0) && Evaluated(w.layout, c) == Success(k.value, k.section)
  }

  /** A value is what the evaluation of a definition answers once all names are replaced. */
  lemma ValueIsEvaluated(w: World, x: string, k: Known)
    requires WorldOk(w) && IsBase(w, x)
    ensures Means(w, x, k) <==> exists depth: nat :: AnswersAt(w, x, depth, k)
  {
    hide RelRun, Finish;
    if Means(w, x, k) {
      var depth: nat :| Meaning(w, x, depth) == Just(k);
      assert depth > 0;
      assert AnswersAt(w, x, depth - 1, k);
    }
    if depth: nat :| AnswersAt(w, x, depth, k) {
      assert Meaning(w, x, depth + 1) == Just(k);
    }
  }

  lemma FailingMeansNothing(w: World, x: string, depth: nat, n: nat)
    requires FailsAt(w, x, depth)
    ensures Meaning(w, x, n).Nothing?
  {
    if Meaning(w, x, n).Just? {
      UnfoldedAlike(w, w.symbols[x].code, depth, n - 1);
    }
  }

  lemma FailingNamesMean(w: World, x: string, y: string, depth: nat)
    requires FailsAt(w, x, depth) && Refers(w, x, y)
    ensures Meaning(w, y, depth).Just?
  {
    var code := w.symbols[x].code;
    var i :| 0 <= i < |code| && code[i] == Push(Symbol(y));
    var c := Unfolded(w, code, depth);
    assert c[i] == UnfoldedInstr(w, code[i], depth) && InstrOk(w.layout, c[i]);
  }

  /** A definition whose evaluation fails reaches no undefined symbol and no circle: it fails,
      instead of staying open. */
  lemma FailingIsNotStuck(w: World, x: string)
    requires Fails(w, x)
    ensures !Stuck(w, x)
  {
    var depth: nat :| FailsAt(w, x, depth);
    if Stuck(w, x) {
      var path :| DeadEnd(w, path) && path[0] == x;
      var n := |path| - 1;
      assert RefersAt(w, path, 0);
      var y := path[1];
      FailingNamesMean(w, x, y, depth);
      var rest := path[1..];
      forall i | 0 <= i < |rest| - 1 ensures RefersAt(w, rest, i) {
        assert RefersAt(w, path, i + 1);
      }
      PathsAreShort(w, rest, depth);
      assert rest[|rest| - 1] == path[n];
      if path[n] == x {
        FailingMeansNothing(w, x, depth, depth + 1 - |rest|);
      } else {
        assert path[n] in rest[..|rest| - 1];
        assert DeadEnd(w, rest) && rest[0] == y;
        assert Means(w, y, Meaning(w, y, depth).known);
        MeaningIsNotStuck(w, y, Meaning(w, y, depth).known);
      }
    }
  }
}
