/** Snapshots of symbols defined by .eqv. */
module Snapshot {
  // A depth-first walk copies every such definition once and evaluates the copies bottom-up.

  import opened SymbolMeaning
  import opened SnapshotCopies

  lemma FrameLess(w: World, good: bool, snap: Snapshots, f: Frame, good': bool, snap': Snapshots)
    requires FrameOk(w, good, snap, f) && (good' ==> good) && f.name in snap' && snap'[f.name] == snap[f.name]
    ensures FrameOk(w, good', snap', f)
  {
    hide Processed;
    if good != good' {
      ProcessedLess(w, good, f.name, snap[f.name], f.opIndex);
    }
  }

  ghost function Bases(w: World): set<string> {
    set x | x in w.symbols && w.symbols[x].Base?
  }

  lemma WalkingLess(w: World, good: bool, snap: Snapshots, stack: seq<Frame>, x: string, good': bool, snap': Snapshots)
    requires Walking(w, good, snap, stack) && (good' ==> good)
    requires OnStack(stack, x) && x in snap'
    requires forall z | z in snap && z != x :: z in snap' && snap'[z] == snap[z]
    ensures forall z | z in snap && z != x :: IsBase(w, z) && (OnStack(stack, z) || Finished(w, good', z, snap'[z]))
    ensures forall i | 0 <= i < |stack| && stack[i].name != x :: FrameOk(w, good', snap', stack[i])
  {
    hide Processed, Means, Stuck, OnStack;
    forall i | 0 <= i < |stack| && stack[i].name != x ensures FrameOk(w, good', snap', stack[i]) {
      FrameLess(w, good, snap, stack[i], good', snap');
    }
  }

  function CopyOf(w: World, y: string): Entry
    requires IsBase(w, y)
  {
    Entry(w.symbols[y].code, 0, false, Nothing, true)
  }

  /** The frames after the top copy stopped at position k to start a copy of y. */
  function Stopped(stack: seq<Frame>, k: nat, y: string): seq<Frame>
    requires stack != []
  {
    stack[|stack| - 1 := Frame(stack[|stack| - 1].name, k)] + [Frame(y, 0)]
  }

  lemma NewCopyOk(w: World, good: bool, y: string)
    requires WorldOk(w) && IsBase(w, y)
    ensures Processed(w, good, y, CopyOf(w, y), 0)
  {
    assert SymbolOk(w, w.symbols[y]);
    hide Stuck, Replaces;
  }

  lemma OnStackSame(stack: seq<Frame>, stack': seq<Frame>, z: string)
    requires |stack| <= |stack'| && forall i | 0 <= i < |stack| :: stack'[i].name == stack[i].name
    ensures OnStack(stack, z) ==> OnStack(stack', z)
    ensures OnStack(stack', z) ==> OnStack(stack, z) || exists i :: |stack| <= i < |stack'| && stack'[i].name == z
  {
    if OnStack(stack, z) {
      var i :| 0 <= i < |stack| && stack[i].name == z;
      assert stack'[i].name == z;
    }
  }

  lemma WalkingPush(w: World, good: bool, snap: Snapshots, stack: seq<Frame>, e: Entry, k: nat, good': bool,
                    y: string)
    requires WorldOk(w) && stack != [] && Walking(w, good, snap, stack) && (good' ==> good)
    requires var x := stack[|stack| - 1].name;
      && IsBase(w, x) && Processed(w, good', x, e, k) && IsBase(w, y) && y !in snap && Refers(w, x, y)
    ensures var x := stack[|stack| - 1].name;
      Walking(w, good', snap[x := e][y := CopyOf(w, y)], Stopped(stack, k, y))
  {
    hide Processed, Stuck, Means, Refers, Finished, WorldOk;
    var n := |stack|;
    var x := stack[n - 1].name;
    assert FrameOk(w, good, snap, stack[n - 1]);
    var snap' := snap[x := e][y := CopyOf(w, y)];
    var stack' := Stopped(stack, k, y);
    assert OnStack(stack, x);
    WalkingLess(w, good, snap, stack, x, good', snap');
    NewCopyOk(w, good', y);
    assert OnStack(stack', y) by { assert stack'[n].name == y; }
    forall z | z in snap' ensures IsBase(w, z) && (OnStack(stack', z) || Finished(w, good', z, snap'[z])) {
      OnStackSame(stack, stack', z);
    }
    forall i | 0 <= i < |stack'| - 1 ensures RefersUp(w, stack', i) {
      if i < n - 1 { assert RefersUp(w, stack, i); }
    }
    forall i | 0 <= i < |stack'| ensures FrameOk(w, good', snap', stack'[i]) {
      if i < n - 1 { assert stack[i].name != x; }
    }
    forall i, j | 0 <= i < j < |stack'| ensures stack'[i].name != stack'[j].name {
      if j == n { assert FrameOk(w, good, snap, stack[i]); }
    }
  }

  lemma WalkingPop(w: World, good: bool, snap: Snapshots, stack: seq<Frame>, e: Entry, good': bool)
    requires stack != [] && Walking(w, good, snap, stack) && (good' ==> good)
    requires Finished(w, good', stack[|stack| - 1].name, e)
    ensures Walking(w, good', snap[stack[|stack| - 1].name := e], stack[..|stack| - 1])
  {
    hide Processed, Stuck, Means, Refers, Finished;
    var n := |stack|;
    var x := stack[n - 1].name;
    assert FrameOk(w, good, snap, stack[n - 1]);
    var snap' := snap[x := e];
    var stack' := stack[..n - 1];
    assert OnStack(stack, x);
    WalkingLess(w, good, snap, stack, x, good', snap');
    forall z | z in snap' ensures IsBase(w, z) && (OnStack(stack', z) || Finished(w, good', z, snap'[z])) {
      if z != x {
        OnStackSame(stack', stack, z);
      }
    }
    forall i | 0 <= i < |stack'| - 1 ensures RefersUp(w, stack', i) {
      assert RefersUp(w, stack, i);
    }
  }

  /** MAIN: the snapshot of a symbol. It always ends; the definitions copied are all used by that
      symbol, each is copied once, and finished copies stay as they are. All went well exactly when
      none of them uses a register symbol or fails to evaluate. Then the snapshot has a value exactly
      when no undefined symbol and no circle can be reached, and the value is that of recursive
      substitution. */
  method MakeSymbolSnapshot(w: World, snap0: Snapshots, name: string)
    returns (good: bool, snap: Snapshots, copies: nat)
    requires WorldOk(w) && IsBase(w, name) && AllFinished(w, true, snap0)
    ensures name in snap && |snap| == |snap0| + copies
    ensures forall x | x in snap0 :: x in snap && snap[x] == snap0[x]
    ensures forall x | x in snap && x !in snap0 :: Reaches(w, name, x)
    ensures AllFinished(w, good, snap)
    ensures good <==> forall x | x in snap && x !in snap0 :: !Unusable(w, x)
    ensures good ==> (snap[name].value.Just? <==> !Stuck(w, name))
    ensures good && snap[name].value.Just? ==> Means(w, name, snap[name].value.known)
  {
    good, snap, copies := true, snap0, 0;
    if name !in snap {
      good, snap, copies := Copy(w, snap0, name);
      if good {
        NoneUnusable(w, snap);
      }
    }
    if good && snap[name].value.Just? {
      MeaningIsNotStuck(w, name, snap[name].value.known);
    }
  }

  lemma NoneUnusable(w: World, snap: Snapshots)
    requires AllFinished(w, true, snap)
    ensures forall x | x in snap :: !Unusable(w, x)
  {
    forall x | x in snap ensures !Unusable(w, x) {
      assert Finished(w, true, x, snap[x]);
      if Fails(w, x) {
        FailingIsNotStuck(w, x);
        var depth: nat :| FailsAt(w, x, depth);
        var n: nat :| Meaning(w, x, n) == Just(snap[x].value.known);
        FailingMeansNothing(w, x, depth, n);
      }
    }
  }

  /** Every new copy is used by the symbol, and an error has a cause among the new copies. */
  ghost predicate Explained(w: World, name: string, snap0: Snapshots, snap: Snapshots, good: bool) {
    && (forall x | x in snap && x !in snap0 :: Reaches(w, name, x))
    && (!good ==> exists x :: x in snap && x !in snap0 && Unusable(w, x))
  }

  lemma ExplainedNext(w: World, name: string, snap0: Snapshots, snap: Snapshots, good: bool, x: string,
                      snap': Snapshots, good': bool)
    requires Explained(w, name, snap0, snap, good) && (good' ==> good) && x in snap && x !in snap0
    requires good && !good' ==> Unusable(w, x)
    requires snap.Keys <= snap'.Keys && forall z | z in snap' && z !in snap :: Refers(w, x, z)
    ensures Explained(w, name, snap0, snap', good')
  {
    forall z | z in snap' && z !in snap0 ensures Reaches(w, name, z) {
      if z !in snap {
        ReachesNext(w, name, x, z);
      }
    }
    hide Reaches, Unusable, Refers;
    if !good {
      var z :| z in snap && z !in snap0 && Unusable(w, z);
      assert z in snap';
    } else if !good' {
      assert x in snap';
    }
  }

  lemma ExplainedPush(w: World, name: string, snap0: Snapshots, snap: Snapshots, good: bool, x: string, e: Entry,
                      y: string, e': Entry, good': bool)
    requires Explained(w, name, snap0, snap, good) && (good' ==> good) && x in snap && x !in snap0
    requires good && !good' ==> Unusable(w, x)
    requires Refers(w, x, y)
    ensures Explained(w, name, snap0, snap[x := e][y := e'], good')
  {
    ExplainedNext(w, name, snap0, snap, good, x, snap[x := e][y := e'], good');
  }

  lemma ExplainedPop(w: World, name: string, snap0: Snapshots, snap: Snapshots, good: bool, x: string, e: Entry,
                     good': bool)
    requires Explained(w, name, snap0, snap, good) && (good' ==> good) && x in snap && x !in snap0
    requires good && !good' ==> Unusable(w, x)
    ensures Explained(w, name, snap0, snap[x := e], good')
  {
    ExplainedNext(w, name, snap0, snap, good, x, snap[x := e], good');
  }

  /** The finished copies are untouched, and the others were counted. */
  predicate Grown(snap0: Snapshots, snap: Snapshots, stack: seq<Frame>, copies: nat) {
    && |snap| == |snap0| + copies
    && (forall x | x in snap0 :: x in snap && snap[x] == snap0[x])
    && (forall i | 0 <= i < |stack| :: stack[i].name in snap && stack[i].name !in snap0)
  }

  lemma GrownPush(w: World, snap0: Snapshots, snap: Snapshots, stack: seq<Frame>, copies: nat, e: Entry, k: nat,
                  y: string)
    requires Grown(snap0, snap, stack, copies) && stack != [] && IsBase(w, y) && y !in snap
    ensures var x := stack[|stack| - 1].name; var snap' := snap[x := e][y := CopyOf(w, y)];
      && Grown(snap0, snap', Stopped(stack, k, y), copies + 1)
      && Bases(w) - snap'.Keys < Bases(w) - snap.Keys && snap.Keys <= snap'.Keys
  {
    var x := stack[|stack| - 1].name;
    assert snap[x := e].Keys == snap.Keys;
    assert snap[x := e][y := CopyOf(w, y)].Keys == snap.Keys + {y};
    assert y in Bases(w) - snap.Keys;
  }

  lemma GrownPop(snap0: Snapshots, snap: Snapshots, stack: seq<Frame>, copies: nat, e: Entry)
    requires Grown(snap0, snap, stack, copies) && stack != []
    ensures var snap' := snap[stack[|stack| - 1].name := e];
      Grown(snap0, snap', stack[..|stack| - 1], copies) && snap'.Keys == snap.Keys
  {
    assert snap[stack[|stack| - 1].name := e].Keys == snap.Keys;
  }

  lemma GrownTop(snap0: Snapshots, snap: Snapshots, stack: seq<Frame>, copies: nat)
    requires Grown(snap0, snap, stack, copies) && stack != []
    ensures stack[|stack| - 1].name in snap && stack[|stack| - 1].name !in snap0
  {
  }

  /** Everything that holds between the steps of the walk. */
  ghost predicate Going(w: World, name: string, snap0: Snapshots, snap: Snapshots, stack: seq<Frame>, good: bool,
                        copies: nat)
  {
    && Walking(w, good, snap, stack)
    && Grown(snap0, snap, stack, copies)
    && Explained(w, name, snap0, snap, good)
    && name in snap
  }

  /** A definition was copied, or a copy was finished. */
  ghost predicate Nearer(w: World, snap: Snapshots, stack: seq<Frame>, snap': Snapshots, stack': seq<Frame>) {
    Bases(w) - snap'.Keys < Bases(w) - snap.Keys || (snap'.Keys == snap.Keys && |stack'| < |stack|)
  }

  lemma GoingPush(w: World, name: string, snap0: Snapshots, snap: Snapshots, stack: seq<Frame>, good: bool, copies: nat,
                  e: Entry, k: nat, good': bool, y: string)
    requires WorldOk(w) && stack != [] && Going(w, name, snap0, snap, stack, good, copies)
    requires var x := stack[|stack| - 1].name;
      && IsBase(w, x) && Processed(w, good', x, e, k) && IsBase(w, y) && y !in snap && Refers(w, x, y)
      && (good' ==> good) && (good && !good' ==> Unusable(w, x))
    ensures var snap' := snap[stack[|stack| - 1].name := e][y := CopyOf(w, y)];
      && Going(w, name, snap0, snap', Stopped(stack, k, y), good', copies + 1)
      && Nearer(w, snap, stack, snap', Stopped(stack, k, y))
  {
    GrownTop(snap0, snap, stack, copies);
    WalkingPush(w, good, snap, stack, e, k, good', y);
    GrownPush(w, snap0, snap, stack, copies, e, k, y);
    ExplainedPush(w, name, snap0, snap, good, stack[|stack| - 1].name, e, y, CopyOf(w, y), good');
    hide Walking, WorldOk, Processed, Refers, Grown, Bases, Stopped, CopyOf, Explained, Unusable;
  }

  lemma GoingPop(w: World, name: string, snap0: Snapshots, snap: Snapshots, stack: seq<Frame>, good: bool, copies: nat,
                 e: Entry, good': bool)
    requires stack != [] && Going(w, name, snap0, snap, stack, good, copies)
    requires var x := stack[|stack| - 1].name;
      Finished(w, good', x, e) && (good' ==> good) && (good && !good' ==> Unusable(w, x))
    ensures var snap' := snap[stack[|stack| - 1].name := e];
      && Going(w, name, snap0, snap', stack[..|stack| - 1], good', copies)
      && Nearer(w, snap, stack, snap', stack[..|stack| - 1])
  {
    GrownTop(snap0, snap, stack, copies);
    WalkingPop(w, good, snap, stack, e, good');
    GrownPop(snap0, snap, stack, copies, e);
    ExplainedPop(w, name, snap0, snap, good, stack[|stack| - 1].name, e, good');
    hide Walking, Finished, Grown, Explained, Unusable, Bases;
  }

  /** Works on the top copy; then starts a new copy, or finishes this one. */
  method WalkOn(w: World, ghost name: string, ghost snap0: Snapshots, snap: Snapshots, stack: seq<Frame>, good: bool,
                copies: nat)
    returns (snap': Snapshots, stack': seq<Frame>, good': bool, copies': nat)
    requires WorldOk(w) && stack != [] && Going(w, name, snap0, snap, stack, good, copies)
    ensures Going(w, name, snap0, snap', stack', good', copies') && Nearer(w, snap, stack, snap', stack')
  {
    hide *;
    GoingTop(w, name, snap0, snap, stack, good, copies);
    var e, k, good1 := Advance(w, snap, stack, good);
    if k < |e.code| {
      snap', stack' := StartCopy(w, name, snap0, snap, stack, good, copies, e, k, good1);
      good', copies' := good1, copies + 1;
    } else {
      snap', stack', good' := FinishTop(w, name, snap0, snap, stack, good, copies, e, k, good1);
      copies' := copies;
    }
  }

  /** Leaves the top copy at position k and starts a copy of the definition used there. */
  method StartCopy(w: World, ghost name: string, ghost snap0: Snapshots, snap: Snapshots, stack: seq<Frame>,
                   ghost good: bool, ghost copies: nat, e: Entry, k: nat, ghost good1: bool)
    returns (snap': Snapshots, stack': seq<Frame>)
    requires WorldOk(w) && stack != [] && Going(w, name, snap0, snap, stack, good, copies)
    requires var x := stack[|stack| - 1].name;
      && IsBase(w, x) && Processed(w, good1, x, e, k) && Halts(w, snap, x, e, k)
      && (good1 ==> good) && (good && !good1 ==> Unusable(w, x))
    ensures Going(w, name, snap0, snap', stack', good1, copies + 1) && Nearer(w, snap, stack, snap', stack')
  {
    hide *;
    HaltsAt(w, snap, stack[|stack| - 1].name, e, k);
    var y := e.code[k].arg.name;
    GoingPush(w, name, snap0, snap, stack, good, copies, e, k, good1, y);
    snap', stack' := snap[stack[|stack| - 1].name := e][y := CopyOf(w, y)], Stopped(stack, k, y);
  }

  /** Finishes the top copy. */
  method FinishTop(w: World, ghost name: string, ghost snap0: Snapshots, snap: Snapshots, stack: seq<Frame>,
                   ghost good: bool, ghost copies: nat, e: Entry, ghost k: nat, good1: bool)
    returns (snap': Snapshots, stack': seq<Frame>, good': bool)
    requires WorldOk(w) && stack != [] && Going(w, name, snap0, snap, stack, good, copies)
    requires var x := stack[|stack| - 1].name;
      && IsBase(w, x) && Processed(w, good1, x, e, k) && k >= |e.code|
      && (good1 ==> good) && (good && !good1 ==> Unusable(w, x))
    ensures Going(w, name, snap0, snap', stack', good', copies) && Nearer(w, snap, stack, snap', stack')
  {
    hide *;
    var x := stack[|stack| - 1].name;
    CodeBound(w, good1, x, e, k);
    var e', good2 := FinishCopy(w, x, e, good1);
    GoingPop(w, name, snap0, snap, stack, good, copies, e', good2);
    snap', stack', good' := snap[x := e'], stack[..|stack| - 1], good2;
  }

  lemma GoingTop(w: World, name: string, snap0: Snapshots, snap: Snapshots, stack: seq<Frame>, good: bool, copies: nat)
    requires stack != [] && Going(w, name, snap0, snap, stack, good, copies)
    ensures Walking(w, good, snap, stack) && IsBase(w, stack[|stack| - 1].name)
  {
    assert FrameOk(w, good, snap, stack[|stack| - 1]);
    hide Processed;
  }

  method Copy(w: World, snap0: Snapshots, name: string) returns (good: bool, snap: Snapshots, copies: nat)
    requires WorldOk(w) && IsBase(w, name) && AllFinished(w, true, snap0) && name !in snap0
    ensures name in snap && |snap| == |snap0| + copies
    ensures forall x | x in snap0 :: x in snap && snap[x] == snap0[x]
    ensures AllFinished(w, good, snap) && Explained(w, name, snap0, snap, good)
  {
    good := true;
    snap := snap0[name := CopyOf(w, name)];
    copies := 1;
    var stack := [Frame(name, 0)];
    GoingStart(w, snap0, name);
    hide Going, WorldOk, Bases, CopyOf, AllFinished, IsBase, Explained, Grown, Walking;
    while stack != []
      invariant Going(w, name, snap0, snap, stack, good, copies)
      decreases Bases(w) - snap.Keys, |stack|
    {
      snap, stack, good, copies := WalkOn(w, name, snap0, snap, stack, good, copies);
    }
    GoingEnd(w, name, snap0, snap, good, copies);
  }

  lemma GoingStart(w: World, snap0: Snapshots, name: string)
    requires WorldOk(w) && IsBase(w, name) && AllFinished(w, true, snap0) && name !in snap0
    ensures Going(w, name, snap0, snap0[name := CopyOf(w, name)], [Frame(name, 0)], true, 1)
  {
    hide Walking, WorldOk, AllFinished, CopyOf, Reaches;
    WalkingStart(w, snap0, name);
    ReachesItself(w, name);
  }

  lemma GoingEnd(w: World, name: string, snap0: Snapshots, snap: Snapshots, good: bool, copies: nat)
    requires Going(w, name, snap0, snap, [], good, copies)
    ensures name in snap && |snap| == |snap0| + copies && forall x | x in snap0 :: x in snap && snap[x] == snap0[x]
    ensures AllFinished(w, good, snap) && Explained(w, name, snap0, snap, good)
  {
    WalkingEnd(w, good, snap);
    hide Walking, AllFinished, Explained;
  }

  lemma WalkingStart(w: World, snap0: Snapshots, name: string)
    requires WorldOk(w) && IsBase(w, name) && AllFinished(w, true, snap0) && name !in snap0
    ensures Walking(w, true, snap0[name := CopyOf(w, name)], [Frame(name, 0)])
  {
    var stack := [Frame(name, 0)];
    NewCopyOk(w, true, name);
    assert stack[0].name == name;
    hide Finished, Processed;
  }

  lemma WalkingEnd(w: World, good: bool, snap: Snapshots)
    requires Walking(w, good, snap, [])
    ensures AllFinished(w, good, snap)
  {
    hide Finished;
  }
}
