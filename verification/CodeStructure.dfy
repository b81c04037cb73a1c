/** Basic blocks of the code of a section and their flow graph. */
module CodeStructure {
  import opened CodePoints
  import opened CodeRegions
  import opened CodeDivision
  import opened CodeEdges

  // ----- points lie on instructions -----

  lemma PointsOnInstructions(flow: seq<FlowEntry>, sizes: Sizes, codeSize: nat, x: nat)
    requires GoodCode(sizes, codeSize) && GoodFlow(flow, sizes, codeSize)
    requires IsSplit(flow, sizes, x) || IsEnd(flow, sizes, codeSize, x)
    ensures x in sizes || x == codeSize
    ensures IsSplit(flow, sizes, x) ==> x < codeSize
  {
    forall i | 0 <= i < |flow| && (SplitsAt(sizes, flow[i], x) || EndsAt(sizes, flow[i], x))
      ensures x in sizes || x == codeSize
      ensures SplitsAt(sizes, flow[i], x) ==> x < codeSize
    {
      assert GoodEntry(sizes, codeSize, flow[i]);
    }
  }

  /** An instruction does not reach over a point behind its start. */
  lemma PointsBehind(sizes: Sizes, codeSize: nat, o: nat, x: nat)
    requires GoodCode(sizes, codeSize) && o in sizes && x > o && (x in sizes || x == codeSize)
    ensures x >= o + sizes[o]
  {
  }

  // ----- reachable code -----

  /** The instruction at o does not go on to p. */
  predicate Stops(flow: seq<FlowEntry>, o: nat, p: nat) {
    exists i :: 0 <= i < |flow| && StopsHere(flow[i], o, p)
  }

  predicate StopsHere(e: FlowEntry, o: nat, p: nat) {
    (e.kind in {JUMP, RETURN} && e.offset == o) || (e.kind.END? && e.offset == p)
  }

  predicate LeadsTo(sizes: Sizes, e: FlowEntry, o: nat, p: nat) {
    e.offset == o && Transfers(e) && SplitsAt(sizes, e, p)
  }

  /** Control can pass from the instruction at o to p. */
  predicate Flows(flow: seq<FlowEntry>, sizes: Sizes, codeSize: nat, o: nat, p: nat) {
    o in sizes
    && ((exists i :: 0 <= i < |flow| && LeadsTo(sizes, flow[i], o, p))
        || (p == o + sizes[o] && p < codeSize && !Stops(flow, o, p)))
  }

  ghost predicate Run(flow: seq<FlowEntry>, sizes: Sizes, codeSize: nat, path: seq<nat>) {
    path != []
    && forall i, j | 0 <= i < j < |path| && j == i + 1 :: Flows(flow, sizes, codeSize, path[i], path[j])
  }

  ghost predicate Reachable(flow: seq<FlowEntry>, sizes: Sizes, codeSize: nat, from: nat, o: nat) {
    exists path :: Run(flow, sizes, codeSize, path) && path[0] == from && path[|path| - 1] == o
  }

  /** The points of a section. */
  ghost predicate Points(flow: seq<FlowEntry>, sizes: Sizes, codeSize: nat, kept: seq<nat>, splits: seq<nat>,
                         ends: seq<nat>)
  {
    && kept == KeptMarks(flow, sizes, codeSize) && splits == SplitPoints(flow, sizes)
    && ends == EndPoints(flow, sizes, codeSize)
  }

  lemma PointsAre(flow: seq<FlowEntry>, sizes: Sizes, codeSize: nat, kept: seq<nat>, splits: seq<nat>, ends: seq<nat>)
    requires Points(flow, sizes, codeSize, kept, splits, ends)
    ensures Rising(splits) && forall x :: x in splits <==> IsSplit(flow, sizes, x)
    ensures Rising(ends) && forall x :: x in ends <==> IsEnd(flow, sizes, codeSize, x)
    ensures 0 in kept && forall x | x in kept :: x in Marks(flow)
  {
    KeptAreMarks(Marks(flow), ends, 0);
  }

  lemma {:induction false} MarksAreEntries(flow: seq<FlowEntry>, x: nat)
    ensures x in Marks(flow) <==> x == 0 || exists i :: 0 <= i < |flow| && flow[i].kind.START? && flow[i].offset == x
  {
    if flow != [] {
      MarksAreEntries(flow[..|flow| - 1], x);
    }
  }

  /** No two regions of the section overlap. */
  predicate RegionsApart(flow: seq<FlowEntry>, sizes: Sizes, codeSize: nat) {
    Apart(KeptMarks(flow, sizes, codeSize), SplitPoints(flow, sizes), EndPoints(flow, sizes, codeSize))
  }

  lemma MarksInside(flow: seq<FlowEntry>, sizes: Sizes, codeSize: nat, x: nat)
    requires GoodCode(sizes, codeSize) && GoodFlow(flow, sizes, codeSize) && codeSize > 0 && x in Marks(flow)
    ensures x < codeSize
  {
    MarksAreEntries(flow, x);
    if i :| 0 <= i < |flow| && flow[i].kind.START? && flow[i].offset == x {
      assert GoodEntry(sizes, codeSize, flow[i]);
    }
  }

  lemma PointsGood(flow: seq<FlowEntry>, sizes: Sizes, codeSize: nat, kept: seq<nat>, splits: seq<nat>, ends: seq<nat>)
    requires GoodCode(sizes, codeSize) && GoodFlow(flow, sizes, codeSize) && codeSize > 0
    requires RegionsApart(flow, sizes, codeSize) && Points(flow, sizes, codeSize, kept, splits, ends)
    ensures GoodPoints(kept, splits, ends, codeSize)
  {
    hide Apart, GoodCode, GoodFlow, Rising, SplitPoints, EndPoints, KeptMarks, IsSplit;
    PointsAre(flow, sizes, codeSize, kept, splits, ends);
    forall x | x in splits ensures x < codeSize {
      PointsOnInstructions(flow, sizes, codeSize, x);
    }
    forall x | x in kept ensures x < codeSize {
      MarksInside(flow, sizes, codeSize, x);
    }
  }

  lemma GoesOnCovered(flow: seq<FlowEntry>, sizes: Sizes, codeSize: nat, kept: seq<nat>, splits: seq<nat>,
                      ends: seq<nat>, o: nat)
    requires GoodCode(sizes, codeSize) && GoodFlow(flow, sizes, codeSize) && codeSize > 0
    requires Points(flow, sizes, codeSize, kept, splits, ends) && Covered(kept, splits, ends, o) && o in sizes
    requires o + sizes[o] < codeSize && !Stops(flow, o, o + sizes[o])
    ensures Covered(kept, splits, ends, o + sizes[o])
  {
    var p := o + sizes[o];
    EndStops(flow, sizes, codeSize, o, p);
    var c :| IsStart(kept, splits, ends, c) && InRegion(ends, c, o);
    forall i | 0 <= i < |ends| ensures ends[i] <= c || ends[i] > p {
      if o < ends[i] <= p {
        assert ends[i] in ends;
        PointsOnInstructions(flow, sizes, codeSize, ends[i]);
        PointsBehind(sizes, codeSize, o, ends[i]);
      }
    }
    assert InRegion(ends, c, p);
  }

  /** A code end behind an instruction is its own, or was marked there. */
  lemma EndStops(flow: seq<FlowEntry>, sizes: Sizes, codeSize: nat, o: nat, p: nat)
    requires GoodCode(sizes, codeSize) && GoodFlow(flow, sizes, codeSize) && o in sizes && p == o + sizes[o]
    requires p < codeSize
    ensures IsEnd(flow, sizes, codeSize, p) ==> Stops(flow, o, p)
  {
    if i :| 0 <= i < |flow| && EndsAt(sizes, flow[i], p) {
      assert GoodEntry(sizes, codeSize, flow[i]);
      assert StopsHere(flow[i], o, p);
    }
  }

  lemma StepCovered(flow: seq<FlowEntry>, sizes: Sizes, codeSize: nat, kept: seq<nat>, splits: seq<nat>,
                    ends: seq<nat>, o: nat, p: nat)
    requires GoodCode(sizes, codeSize) && GoodFlow(flow, sizes, codeSize) && codeSize > 0
    requires Points(flow, sizes, codeSize, kept, splits, ends) && Covered(kept, splits, ends, o)
    requires Flows(flow, sizes, codeSize, o, p)
    ensures Covered(kept, splits, ends, p)
  {
    if i :| 0 <= i < |flow| && LeadsTo(sizes, flow[i], o, p) {
      assert IsSplit(flow, sizes, p);
      SplitsCovered(kept, splits, ends, p);
    } else {
      GoesOnCovered(flow, sizes, codeSize, kept, splits, ends, o);
    }
  }

  /** All code that can be reached from a covered place is covered. */
  lemma {:induction false} ReachableCovered(flow: seq<FlowEntry>, sizes: Sizes, codeSize: nat, kept: seq<nat>,
                                            splits: seq<nat>, ends: seq<nat>, path: seq<nat>)
    requires GoodCode(sizes, codeSize) && GoodFlow(flow, sizes, codeSize) && codeSize > 0
    requires Points(flow, sizes, codeSize, kept, splits, ends) && Run(flow, sizes, codeSize, path)
    requires Covered(kept, splits, ends, path[0])
    ensures Covered(kept, splits, ends, path[|path| - 1])
    decreases |path|
  {
    hide GoodCode, GoodFlow, Covered, Points;
    if |path| > 1 {
      var n := |path| - 1;
      ReachableCovered(flow, sizes, codeSize, kept, splits, ends, path[..n]);
      StepCovered(flow, sizes, codeSize, kept, splits, ends, path[n - 1], path[n]);
    }
  }

  /** Code is entered at its start, and at marks when these come in order. */
  ghost predicate Entered(flow: seq<FlowEntry>, o: nat) {
    o == 0 || (InOrder(Marks(flow)) && o in Marks(flow))
  }

  lemma EntriesCovered(flow: seq<FlowEntry>, sizes: Sizes, codeSize: nat, kept: seq<nat>, splits: seq<nat>,
                       ends: seq<nat>, o: nat)
    requires Points(flow, sizes, codeSize, kept, splits, ends) && Entered(flow, o)
    ensures Rising(ends) && Covered(kept, splits, ends, o)
  {
    PointsAre(flow, sizes, codeSize, kept, splits, ends);
    if o == 0 {
      assert IsStart(kept, splits, ends, 0) && InRegion(ends, 0, 0);
    } else {
      MarksCovered(Marks(flow), ends, 0, o);
      var c :| c in kept && InRegion(ends, c, o);
      assert IsStart(kept, splits, ends, c);
    }
  }

  // ----- the whole structure -----

  /** The blocks before they are linked. */
  ghost predicate Laid(flow: seq<FlowEntry>, sizes: Sizes, codeSize: nat, kept: seq<nat>, splits: seq<nat>,
                       ends: seq<nat>, blocks: seq<Block>)
  {
    && Points(flow, sizes, codeSize, kept, splits, ends)
    && Ordered(blocks) && Unlinked(blocks) && Uncut(blocks, ends)
    && (forall i | 0 <= i < |blocks| :: blocks[i].end in splits || blocks[i].end in ends)
    && (forall o: nat :: InSome(blocks, o) <==> Covered(kept, splits, ends, o))
  }

  /** Some split is passed over. */
  predicate SplitLost(flow: seq<FlowEntry>, sizes: Sizes, codeSize: nat) {
    var splits, ends := SplitPoints(flow, sizes), EndPoints(flow, sizes, codeSize);
    var starts := StartPoints(KeptMarks(flow, sizes, codeSize), splits, ends);
    Regular(splits, ends, starts) && LosesSplit(splits, ends, starts)
  }

  lemma DividedIsLaid(flow: seq<FlowEntry>, sizes: Sizes, codeSize: nat, kept: seq<nat>, splits: seq<nat>,
                      ends: seq<nat>, starts: seq<nat>, blocks: seq<Block>, bound: nat)
    requires Points(flow, sizes, codeSize, kept, splits, ends) && Regular(splits, ends, starts)
    requires starts == StartPoints(kept, splits, ends)
    requires Divided(blocks, splits, ends, starts, |starts|, bound)
    ensures Laid(flow, sizes, codeSize, kept, splits, ends, blocks)
    ensures Uncut(blocks, splits) <==> !SplitLost(flow, sizes, codeSize)
  {
    hide Ordered, Uncut, Regular, LosesSplit, LosesAt, StartPoints, Unlinked, Within, InRegion;
    LosesSomewhere(splits, ends, starts);
    assert Uncut(blocks, splits) <==> !LosesSplit(splits, ends, starts);
    hide Points, SplitLost;
    PointsAre(flow, sizes, codeSize, kept, splits, ends);
    hide IsStart;
    forall o: nat ensures InSome(blocks, o) <==> Covered(kept, splits, ends, o) {
      if Covered(kept, splits, ends, o) {
        var c :| IsStart(kept, splits, ends, c) && InRegion(ends, c, o);
        assert c in starts;
      }
      if j :| 0 <= j < |starts| && InRegion(ends, starts[j], o) {
        assert starts[j] in starts;
      }
    }
  }

  lemma HeldSplitStarts(blocks: seq<Block>, splits: seq<nat>, x: nat)
    requires Ordered(blocks) && Uncut(blocks, splits) && x in splits && InSome(blocks, x)
    ensures var it := LowerStart(blocks, x); it < |blocks| && blocks[it].start == x
  {
    var i :| 0 <= i < |blocks| && Holds(blocks[i], x);
    var j :| 0 <= j < |splits| && splits[j] == x;
    assert blocks[i].start == x;
    hide Uncut, InSome;
  }

  /** Every split starts a block, when blocks are cut at all splits. */
  lemma SplitStartsBlock(flow: seq<FlowEntry>, sizes: Sizes, codeSize: nat, kept: seq<nat>, splits: seq<nat>,
                         ends: seq<nat>, blocks: seq<Block>, x: nat)
    requires Laid(flow, sizes, codeSize, kept, splits, ends, blocks) && Uncut(blocks, splits)
    requires IsSplit(flow, sizes, x)
    ensures Ordered(blocks)
    ensures var it := LowerStart(blocks, x); it < |blocks| && blocks[it].start == x
  {
    hide Points, IsSplit, IsEnd, Rising, Uncut, Ordered, InSome, Covered, Unlinked;
    PointsAre(flow, sizes, codeSize, kept, splits, ends);
    SplitsCovered(kept, splits, ends, x);
    HeldSplitStarts(blocks, splits, x);
  }

  /** The block that holds a flow entry is the last one that starts before the end of its
      instruction. */
  lemma SourceHolds(flow: seq<FlowEntry>, sizes: Sizes, codeSize: nat, kept: seq<nat>, splits: seq<nat>, ends: seq<nat>,
                    blocks: seq<Block>, e: FlowEntry, b: nat)
    requires GoodCode(sizes, codeSize) && GoodFlow(flow, sizes, codeSize)
    requires Laid(flow, sizes, codeSize, kept, splits, ends, blocks)
    requires e.offset in sizes && b < |blocks| && Holds(blocks[b], e.offset)
    ensures LowerStart(blocks, After(sizes, e)) == b + 1
  {
    PointsAre(flow, sizes, codeSize, kept, splits, ends);
    assert IsSplit(flow, sizes, blocks[b].end) || IsEnd(flow, sizes, codeSize, blocks[b].end);
    PointsOnInstructions(flow, sizes, codeSize, blocks[b].end);
    PointsBehind(sizes, codeSize, e.offset, blocks[b].end);
    if b + 1 < |blocks| {
      assert blocks[b].end <= blocks[b + 1].start;
    }
  }

  /** A transfer has its edge: from the block that holds it to the block at its target, and for a
      conditional jump also to the block behind it. */
  ghost predicate HasEdges(blocks: seq<Block>, sizes: Sizes, e: FlowEntry, b: nat)
    requires b < |blocks|
  {
    && (exists it: nat :: it < |blocks| && blocks[it].start == e.target && Next(it, e.kind.CALL?) in blocks[b].nexts)
    && (e.kind.CJUMP? ==>
          b + 1 < |blocks| && blocks[b + 1].start == After(sizes, e) && Next(b + 1, false) in blocks[b].nexts)
  }

  /** The edge n of block b comes from a flow entry. */
  ghost predicate ComesFrom(blocks: seq<Block>, sizes: Sizes, e: FlowEntry, b: nat, n: Next) {
    && Transfers(e) && n.block < |blocks| && b < |blocks|
    && blocks[b].start < After(sizes, e) && (b + 1 < |blocks| ==> blocks[b + 1].start >= After(sizes, e))
    && ((blocks[n.block].start == e.target && n.isCall == e.kind.CALL?) || (e.kind.CJUMP? && n == Next(b + 1, false)))
  }

  /** Successors are in order, and come from flow entries. */
  ghost predicate EdgesComeFrom(blocks: seq<Block>, flow: seq<FlowEntry>, sizes: Sizes) {
    && (forall b | 0 <= b < |blocks| :: NextsSorted(blocks[b].nexts))
    && (forall b, n | 0 <= b < |blocks| && n in blocks[b].nexts ::
          exists i :: 0 <= i < |flow| && ComesFrom(blocks, sizes, flow[i], b, n))
  }

  ghost predicate TransfersHaveEdges(blocks: seq<Block>, flow: seq<FlowEntry>, sizes: Sizes) {
    forall i, b | 0 <= i < |flow| && 0 <= b < |blocks| && Transfers(flow[i]) && Holds(blocks[b], flow[i].offset) ::
      HasEdges(blocks, sizes, flow[i], b)
  }

  /** The blocks as they are finally linked. */
  ghost predicate LinkedAs(blocks0: seq<Block>, sizes: Sizes, flow: seq<FlowEntry>, blocks: seq<Block>)
    requires Ordered(blocks0)
  {
    && SamePlaces(blocks0, blocks)
    && (forall b | 0 <= b < |blocks| ::
          NextsSorted(blocks[b].nexts)
          && forall n :: n in blocks[b].nexts <==> n in EdgesUpTo(blocks0, sizes, flow, |flow|, b))
  }

  lemma TransferHasEdges(flow: seq<FlowEntry>, sizes: Sizes, codeSize: nat, kept: seq<nat>,
                         splits: seq<nat>, ends: seq<nat>, blocks0: seq<Block>, blocks: seq<Block>, i: nat, b: nat)
    requires GoodCode(sizes, codeSize) && GoodFlow(flow, sizes, codeSize)
    requires Laid(flow, sizes, codeSize, kept, splits, ends, blocks0) && LinkedAs(blocks0, sizes, flow, blocks)
    requires Uncut(blocks0, splits)
    requires i < |flow| && b < |blocks| && Transfers(flow[i]) && Holds(blocks[b], flow[i].offset)
    ensures HasEdges(blocks, sizes, flow[i], b)
  {
    var e := flow[i];
    assert GoodEntry(sizes, codeSize, e);
    assert SplitsAt(sizes, e, e.target) && IsSplit(flow, sizes, e.target);
    SplitStartsBlock(flow, sizes, codeSize, kept, splits, ends, blocks0, e.target);
    SourceHolds(flow, sizes, codeSize, kept, splits, ends, blocks0, e, b);
    if e.kind.CJUMP? {
      assert SplitsAt(sizes, e, After(sizes, e)) && IsSplit(flow, sizes, After(sizes, e));
      SplitStartsBlock(flow, sizes, codeSize, kept, splits, ends, blocks0, After(sizes, e));
    }
    hide GoodCode, GoodFlow, Laid, IsSplit, Uncut;
    EntryEdges(blocks0, sizes, flow, i, b, blocks);
  }

  lemma EntryEdges(blocks0: seq<Block>, sizes: Sizes, flow: seq<FlowEntry>, i: nat, b: nat, blocks: seq<Block>)
    requires Ordered(blocks0) && LinkedAs(blocks0, sizes, flow, blocks) && i < |flow| && b < |blocks|
    requires Transfers(flow[i]) && LowerStart(blocks0, After(sizes, flow[i])) == b + 1
    requires var it := LowerStart(blocks0, flow[i].target); it < |blocks0| && blocks0[it].start == flow[i].target
    requires flow[i].kind.CJUMP? ==> b + 1 < |blocks0| && blocks0[b + 1].start == After(sizes, flow[i])
    ensures HasEdges(blocks, sizes, flow[i], b)
  {
    hide LowerStart, Ordered, EdgesUpTo, After, NextsSorted;
    var e := flow[i];
    var it := LowerStart(blocks0, e.target);
    var n := Next(it, e.kind.CALL?);
    assert n in EdgesOf(blocks0, sizes, e, b);
    EdgeIsIn(blocks0, sizes, flow, |flow|, b, n, i);
    assert blocks[it].start == e.target && n in blocks[b].nexts;
    if e.kind.CJUMP? {
      assert Next(b + 1, false) in EdgesOf(blocks0, sizes, e, b);
      EdgeIsIn(blocks0, sizes, flow, |flow|, b, Next(b + 1, false), i);
      assert blocks[b + 1].start == blocks0[b + 1].start;
    }
  }

  lemma EdgeComesFrom(sizes: Sizes, flow: seq<FlowEntry>, blocks0: seq<Block>, blocks: seq<Block>, b: nat, n: Next)
    requires Ordered(blocks0) && LinkedAs(blocks0, sizes, flow, blocks) && b < |blocks| && n in blocks[b].nexts
    ensures exists i :: 0 <= i < |flow| && ComesFrom(blocks, sizes, flow[i], b, n)
  {
    hide EdgesUpTo, NextsSorted, Ordered, EdgesOf, ComesFrom;
    var i := EdgeSource(blocks0, sizes, flow, |flow|, b, n);
    EdgeIs(sizes, blocks0, blocks, flow[i], b, n);
  }

  lemma EdgeIs(sizes: Sizes, blocks0: seq<Block>, blocks: seq<Block>, e: FlowEntry, b: nat, n: Next)
    requires Ordered(blocks0) && SamePlaces(blocks0, blocks) && b < |blocks| && n in EdgesOf(blocks0, sizes, e, b)
    ensures ComesFrom(blocks, sizes, e, b, n)
  {
    var it := LowerStart(blocks0, e.target);
    var it2 := LowerStart(blocks0, After(sizes, e));
    EdgesShape(blocks0, sizes, e, it, it2);
    assert it2 == b + 1 && blocks[b].start < After(sizes, e);
    hide EdgesOf, LowerStart, Ordered, After;
  }

  lemma EdgesCome(flow: seq<FlowEntry>, sizes: Sizes, blocks0: seq<Block>, blocks: seq<Block>)
    requires Ordered(blocks0) && LinkedAs(blocks0, sizes, flow, blocks)
    ensures EdgesComeFrom(blocks, flow, sizes)
  {
    forall b, n | 0 <= b < |blocks| && n in blocks[b].nexts
      ensures exists i :: 0 <= i < |flow| && ComesFrom(blocks, sizes, flow[i], b, n)
    {
      EdgeComesFrom(sizes, flow, blocks0, blocks, b, n);
    }
    hide ComesFrom, EdgesUpTo, Ordered;
  }

  /** Blocks that are cut at all splits have all their edges. */
  lemma UncutHasEdges(flow: seq<FlowEntry>, sizes: Sizes, codeSize: nat, kept: seq<nat>, splits: seq<nat>,
                      ends: seq<nat>, blocks0: seq<Block>, blocks: seq<Block>)
    requires GoodCode(sizes, codeSize) && GoodFlow(flow, sizes, codeSize)
    requires Laid(flow, sizes, codeSize, kept, splits, ends, blocks0) && LinkedAs(blocks0, sizes, flow, blocks)
    requires Uncut(blocks0, splits)
    ensures TransfersHaveEdges(blocks, flow, sizes) && TargetsStartBlocks(blocks, flow)
  {
    forall i, b | 0 <= i < |flow| && 0 <= b < |blocks| && Transfers(flow[i]) && Holds(blocks[b], flow[i].offset)
      ensures HasEdges(blocks, sizes, flow[i], b)
    {
      TransferHasEdges(flow, sizes, codeSize, kept, splits, ends, blocks0, blocks, i, b);
    }
    hide HasEdges, EdgesUpTo, GoodCode, GoodFlow;
    forall i | 0 <= i < |flow| && Transfers(flow[i])
      ensures exists b :: 0 <= b < |blocks| && blocks[b].start == flow[i].target
    {
      assert SplitsAt(sizes, flow[i], flow[i].target) && IsSplit(flow, sizes, flow[i].target);
      SplitStartsBlock(flow, sizes, codeSize, kept, splits, ends, blocks0, flow[i].target);
      assert blocks[LowerStart(blocks0, flow[i].target)].start == flow[i].target;
    }
  }

  /** No code end lies inside a block. */
  ghost predicate NoEndInside(blocks: seq<Block>, flow: seq<FlowEntry>, sizes: Sizes, codeSize: nat) {
    forall i, x | 0 <= i < |blocks| && blocks[i].start < x < blocks[i].end :: !IsEnd(flow, sizes, codeSize, x)
  }

  /** Every block ends at a split or a code end. */
  ghost predicate CutAtPoints(blocks: seq<Block>, flow: seq<FlowEntry>, sizes: Sizes, codeSize: nat) {
    forall i | 0 <= i < |blocks| ::
      IsSplit(flow, sizes, blocks[i].end) || IsEnd(flow, sizes, codeSize, blocks[i].end)
  }

  /** No split lies inside a block. */
  ghost predicate NoSplitInside(blocks: seq<Block>, flow: seq<FlowEntry>, sizes: Sizes) {
    forall i, x | 0 <= i < |blocks| && blocks[i].start < x < blocks[i].end :: !IsSplit(flow, sizes, x)
  }

  ghost predicate TargetsStartBlocks(blocks: seq<Block>, flow: seq<FlowEntry>) {
    forall i | 0 <= i < |flow| && Transfers(flow[i]) ::
      exists b :: 0 <= b < |blocks| && blocks[b].start == flow[i].target
  }

  /** MAIN: with regions apart, the blocks are in order and do not overlap, none is cut by a code end, entries
      and all code that can be reached from blocks lie in blocks, and every edge comes from a transfer. No
      block is cut by a split if and only if no split is passed over; then every target starts a block, and
      every transfer has its edges. */
  method CreateCodeStructure(flow: seq<FlowEntry>, sizes: Sizes, codeSize: nat) returns (blocks: seq<Block>)
    requires codeSize > 0 ==>
      GoodCode(sizes, codeSize) && GoodFlow(flow, sizes, codeSize) && RegionsApart(flow, sizes, codeSize)
    ensures codeSize == 0 ==> blocks == []
    ensures codeSize > 0 ==>
      && Ordered(blocks)
      && NoEndInside(blocks, flow, sizes, codeSize)
      && CutAtPoints(blocks, flow, sizes, codeSize)
      && (forall o: nat :: InSome(blocks, o) <==>
            Covered(KeptMarks(flow, sizes, codeSize), SplitPoints(flow, sizes), EndPoints(flow, sizes, codeSize), o))
      && (forall o | Entered(flow, o) :: InSome(blocks, o))
      && (forall from, o | InSome(blocks, from) && Reachable(flow, sizes, codeSize, from, o) :: InSome(blocks, o))
      && EdgesComeFrom(blocks, flow, sizes)
      && (NoSplitInside(blocks, flow, sizes) <==> !SplitLost(flow, sizes, codeSize))
      && (!SplitLost(flow, sizes, codeSize) ==>
            TargetsStartBlocks(blocks, flow) && TransfersHaveEdges(blocks, flow, sizes))
  {
    if codeSize == 0 {
      return [];
    }
    var marks, splits, ends := CollectPoints(flow, sizes, codeSize);
    var kept := KeepStarts(marks, ends);
    assert Points(flow, sizes, codeSize, kept, splits, ends);
    PointsGood(flow, sizes, codeSize, kept, splits, ends);
    var starts := CodeStarts(kept, splits, ends);
    GoodIsRegular(kept, splits, ends, codeSize);
    hide *;
    var blocks0 := Divide(splits, ends, starts);
    ghost var bound :| Divided(blocks0, splits, ends, starts, |starts|, bound);
    DividedIsLaid(flow, sizes, codeSize, kept, splits, ends, starts, blocks0, bound);
    blocks := LinkBlocks(flow, sizes, codeSize, kept, splits, ends, blocks0);
    LaidMeans(flow, sizes, codeSize, kept, splits, ends, blocks0, blocks);
    EdgesCome(flow, sizes, blocks0, blocks);
    if Uncut(blocks0, splits) {
      UncutHasEdges(flow, sizes, codeSize, kept, splits, ends, blocks0, blocks);
    }
  }

  /** Links the blocks and reduces their successors. */
  method LinkBlocks(flow: seq<FlowEntry>, sizes: Sizes, codeSize: nat, ghost kept: seq<nat>,
                    ghost splits: seq<nat>, ghost ends: seq<nat>, blocks0: seq<Block>)
    returns (blocks: seq<Block>)
    requires codeSize > 0 && GoodCode(sizes, codeSize) && GoodFlow(flow, sizes, codeSize)
    requires Laid(flow, sizes, codeSize, kept, splits, ends, blocks0)
    ensures Ordered(blocks0) && LinkedAs(blocks0, sizes, flow, blocks)
  {
    hide Laid, GoodCode, GoodFlow, EdgesUpTo, NextsSorted, Ordered;
    FirstBlock(flow, sizes, codeSize, kept, splits, ends, blocks0);
    blocks := AddEdges(blocks0, sizes, flow);
    ghost var linked := blocks;
    for b := 0 to |blocks|
      invariant |blocks| == |linked| == |blocks0|
      invariant forall c | b <= c < |blocks| :: blocks[c] == linked[c]
      invariant forall c | 0 <= c < b ::
                  blocks[c].start == linked[c].start && blocks[c].end == linked[c].end && NextsSorted(blocks[c].nexts)
                  && forall n :: n in blocks[c].nexts <==> n in linked[c].nexts
    {
      var nexts := ReduceNexts(blocks[b].nexts);
      blocks := blocks[b := blocks[b].(nexts := nexts)];
    }
  }

  lemma FirstBlock(flow: seq<FlowEntry>, sizes: Sizes, codeSize: nat, kept: seq<nat>, splits: seq<nat>,
                   ends: seq<nat>, blocks: seq<Block>)
    requires codeSize > 0 && GoodCode(sizes, codeSize) && GoodFlow(flow, sizes, codeSize)
    requires Laid(flow, sizes, codeSize, kept, splits, ends, blocks)
    ensures Ordered(blocks) && Unlinked(blocks) && blocks != [] && blocks[0].start == 0
    ensures forall i | 0 <= i < |flow| && Transfers(flow[i]) :: After(sizes, flow[i]) > 0
  {
    EntriesCovered(flow, sizes, codeSize, kept, splits, ends, 0);
    assert InSome(blocks, 0);
    var i :| 0 <= i < |blocks| && Holds(blocks[i], 0);
    forall i | 0 <= i < |flow| && Transfers(flow[i]) ensures After(sizes, flow[i]) > 0 {
      assert GoodEntry(sizes, codeSize, flow[i]);
    }
  }

  lemma LaidMeans(flow: seq<FlowEntry>, sizes: Sizes, codeSize: nat, kept: seq<nat>, splits: seq<nat>,
                  ends: seq<nat>, blocks0: seq<Block>, blocks: seq<Block>)
    requires codeSize > 0 && GoodCode(sizes, codeSize) && GoodFlow(flow, sizes, codeSize)
    requires Laid(flow, sizes, codeSize, kept, splits, ends, blocks0) && LinkedAs(blocks0, sizes, flow, blocks)
    ensures Ordered(blocks) && NoEndInside(blocks, flow, sizes, codeSize)
    ensures NoSplitInside(blocks, flow, sizes) <==> Uncut(blocks0, splits)
    ensures CutAtPoints(blocks, flow, sizes, codeSize)
    ensures forall o: nat :: InSome(blocks, o) <==>
      Covered(KeptMarks(flow, sizes, codeSize), SplitPoints(flow, sizes), EndPoints(flow, sizes, codeSize), o)
    ensures forall o | Entered(flow, o) :: InSome(blocks, o)
    ensures forall from, o | InSome(blocks, from) && Reachable(flow, sizes, codeSize, from, o) :: InSome(blocks, o)
  {
    PlacesMean(flow, sizes, codeSize, kept, splits, ends, blocks0, blocks);
    forall o ensures InSome(blocks, o) <==> InSome(blocks0, o) {
      SameHeld(blocks0, blocks, o);
    }
    assert kept == KeptMarks(flow, sizes, codeSize) && splits == SplitPoints(flow, sizes);
    assert ends == EndPoints(flow, sizes, codeSize);
    hide KeptMarks, SplitPoints, EndPoints, CutAtPoints, Covered;
    hide GoodCode, GoodFlow, InSome, Points, Ordered, Entered;
    forall o | Entered(flow, o) ensures InSome(blocks, o) {
      EntriesCovered(flow, sizes, codeSize, kept, splits, ends, o);
    }
    forall from, o | InSome(blocks, from) && Reachable(flow, sizes, codeSize, from, o) ensures InSome(blocks, o) {
      var path :| Run(flow, sizes, codeSize, path) && path[0] == from && path[|path| - 1] == o;
      ReachableCovered(flow, sizes, codeSize, kept, splits, ends, path);
    }
  }

  lemma SameHeld(blocks0: seq<Block>, blocks: seq<Block>, o: nat)
    requires SamePlaces(blocks0, blocks)
    ensures InSome(blocks, o) <==> InSome(blocks0, o)
  {
    if i :| 0 <= i < |blocks| && Holds(blocks[i], o) {
      assert Holds(blocks0[i], o);
    }
    if i :| 0 <= i < |blocks0| && Holds(blocks0[i], o) {
      assert Holds(blocks[i], o);
    }
  }

  lemma SameOrder(blocks0: seq<Block>, blocks: seq<Block>)
    requires SamePlaces(blocks0, blocks) && Ordered(blocks0)
    ensures Ordered(blocks)
  {
  }

  lemma PlacesMean(flow: seq<FlowEntry>, sizes: Sizes, codeSize: nat, kept: seq<nat>, splits: seq<nat>,
                   ends: seq<nat>, blocks0: seq<Block>, blocks: seq<Block>)
    requires Laid(flow, sizes, codeSize, kept, splits, ends, blocks0) && SamePlaces(blocks0, blocks)
    ensures Ordered(blocks) && NoEndInside(blocks, flow, sizes, codeSize)
    ensures CutAtPoints(blocks, flow, sizes, codeSize)
    ensures NoSplitInside(blocks, flow, sizes) <==> Uncut(blocks0, splits)
  {
    hide Points, IsSplit, IsEnd, InSome, Rising, Unlinked, Covered;
    PointsAre(flow, sizes, codeSize, kept, splits, ends);
    SameOrder(blocks0, blocks);
    hide Ordered;
    forall i | 0 <= i < |blocks|
      ensures IsSplit(flow, sizes, blocks[i].end) || IsEnd(flow, sizes, codeSize, blocks[i].end)
    {
      assert blocks0[i].end == blocks[i].end;
    }
    forall i, x | 0 <= i < |blocks| && blocks[i].start < x < blocks[i].end
      ensures !IsEnd(flow, sizes, codeSize, x)
    {
      assert blocks0[i].start == blocks[i].start;
      assert x !in ends;
    }
    if Uncut(blocks0, splits) {
      forall i, x | 0 <= i < |blocks| && blocks[i].start < x < blocks[i].end ensures !IsSplit(flow, sizes, x) {
        assert blocks0[i].start == blocks[i].start;
        assert x !in splits;
      }
    } else {
      var i, j :| 0 <= i < |blocks0| && 0 <= j < |splits| && blocks0[i].start < splits[j] < blocks0[i].end;
      assert blocks[i].start < splits[j] < blocks[i].end && IsSplit(flow, sizes, splits[j]);
    }
  }

  // ----- code starts without a code end -----

  predicate NoEndAbove(ends: seq<nat>, x: nat) {
    forall i | 0 <= i < |ends| :: ends[i] <= x
  }

  lemma NoEndAboveStart(kept: seq<nat>, splits: seq<nat>, ends: seq<nat>)
    requires Rising(splits) && Rising(ends) && ends != []
    ensures (exists c :: IsStart(kept, splits, ends, c) && NoEndAbove(ends, c))
            <==> exists x :: (x in splits || x in kept) && NoEndAbove(ends, x)
  {
    var last := ends[|ends| - 1];
    if x :| x in splits && NoEndAbove(ends, x) {
      var c := splits[LowerBound(splits, 0, last)];
      assert FirstFrom(splits, last, c);
      assert IsStart(kept, splits, ends, c) && NoEndAbove(ends, c);
    }
    if x :| x in kept && NoEndAbove(ends, x) {
      assert IsStart(kept, splits, ends, x);
    }
    if c :| IsStart(kept, splits, ends, c) && NoEndAbove(ends, c) {
      assert c in splits || c in kept;
    }
  }

  /** The search for the code end behind a code start runs past the last code end exactly when some kept
      mark, target, or place behind a conditional jump or a call has no code end above it; as long as code
      ends lie in the code, when it lies at the end of the code or beyond. */
  lemma NoEndBehindStart(flow: seq<FlowEntry>, sizes: Sizes, codeSize: nat, kept: seq<nat>, splits: seq<nat>,
                         ends: seq<nat>)
    requires codeSize > 0 && Points(flow, sizes, codeSize, kept, splits, ends)
    ensures (exists c :: IsStart(kept, splits, ends, c) && NoEndAbove(ends, c))
            <==> exists x :: (IsSplit(flow, sizes, x) || x in kept) && NoEndAbove(ends, x)
    ensures NoEndAbove(ends, codeSize) ==> forall x: nat :: NoEndAbove(ends, x) <==> x >= codeSize
  {
    assert IsEnd(flow, sizes, codeSize, codeSize);
    hide IsSplit, IsEnd, Rising, IsStart, Points;
    PointsAre(flow, sizes, codeSize, kept, splits, ends);
    NoEndAboveStart(kept, splits, ends);
    if NoEndAbove(ends, codeSize) {
      NoneAboveFrom(ends, codeSize);
    }
    hide NoEndAbove;
  }

  lemma NoneAboveFrom(ends: seq<nat>, codeSize: nat)
    requires codeSize in ends && NoEndAbove(ends, codeSize)
    ensures forall x: nat :: NoEndAbove(ends, x) <==> x >= codeSize
  {
  }
}
