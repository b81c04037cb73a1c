/** Inputs for which the division of code into blocks fails, one for each condition: a target beyond the
    code, a code end at its start, a mark before a loop, a split that is passed over, and a mark out of
    order. */
module CodeInputs {
  import opened CodePoints
  import opened CodeRegions
  import opened CodeDivision
  import opened CodeStructure

  /** The points that entries add to those before them. */
  lemma PointsFrom(flow: seq<FlowEntry>, sizes: Sizes, codeSize: nat, kept: seq<nat>, splits: seq<nat>, ends: seq<nat>)
    requires Rising(splits) && forall x :: x in splits <==> x in AllSplits(flow, sizes)
    requires Rising(ends) && forall x :: x in ends <==> x in AllEnds(flow, sizes, codeSize)
    requires kept == Kept(Marks(flow), ends, 0)
    ensures Points(flow, sizes, codeSize, kept, splits, ends)
  {
    SortedIs(AllSplits(flow, sizes), splits);
    SortedIs(AllEnds(flow, sizes, codeSize), ends);
  }

  lemma SmallCode()
    ensures GoodCode(map[0 := 4, 4 := 4], 8) && GoodCode(map[0 := 4, 4 := 4, 8 := 4], 12)
  {
  }

  /** A jump beyond the code makes its target a code start without a code end. */
  lemma TargetBeyondCode()
    ensures var flow, sizes := [FlowEntry(0, 12, JUMP)], map[0 := 4, 4 := 4];
      && GoodCode(sizes, 8) && Points(flow, sizes, 8, [0], [12], [4, 8])
      && IsStart([0], [12], [4, 8], 12) && NoEndAbove([4, 8], 12)
  {
    hide GoodCode, Points, IsSplit, IsEnd;
    SmallCode();
    var flow, sizes := [FlowEntry(0, 12, JUMP)], map[0 := 4, 4 := 4];
    assert FirstFrom([12], [4, 8][0], 12);
    EntryAddsPoints([], sizes, 8, flow[0]);
    assert [] + flow == flow;
    PointsFrom(flow, sizes, 8, [0], [12], [4, 8]);
  }

  /** With a code end marked at the start, a loop at 4 in 8 bytes of code is divided twice. */
  lemma EndAtTheStart()
    ensures var flow, sizes := [FlowEntry(0, 0, END), FlowEntry(4, 4, JUMP)], map[0 := 4, 4 := 4];
      && GoodCode(sizes, 8) && GoodFlow(flow, sizes, 8) && Points(flow, sizes, 8, [0], [4], [0, 8])
      && IsStart([0], [4], [0, 8], 0) && IsStart([0], [4], [0, 8], 4) && InRegion([0, 8], 0, 4)
  {
    hide *;
    var a, b, sizes := FlowEntry(0, 0, END), FlowEntry(4, 4, JUMP), map[0 := 4, 4 := 4];
    SmallCode();
    EndAtTheStartFlow(a, b, sizes);
    EndAtTheStartPoints(a, b, sizes);
    EndAtTheStartStarts();
  }

  lemma EndAtTheStartFlow(a: FlowEntry, b: FlowEntry, sizes: Sizes)
    requires a == FlowEntry(0, 0, END) && b == FlowEntry(4, 4, JUMP) && sizes == map[0 := 4, 4 := 4]
    ensures GoodFlow([a, b], sizes, 8) && After(sizes, b) == 8
  {
  }

  lemma EndAtTheStartPoints(a: FlowEntry, b: FlowEntry, sizes: Sizes)
    requires a == FlowEntry(0, 0, END) && b == FlowEntry(4, 4, JUMP) && After(sizes, b) == 8
    ensures Points([a, b], sizes, 8, [0], [4], [0, 8])
  {
    hide Points, IsSplit, IsEnd;
    EntryAddsPoints([], sizes, 8, a);
    EntryAddsPoints([a], sizes, 8, b);
    assert AllSplits([], sizes) == [] && AllEnds([], sizes, 8) == [8] && Marks([]) == [0];
    hide AllSplits, AllEnds, Marks, Kept;
    assert [] + [a] == [a] && [a] + [b] == [a, b];
    KeptOne([0, 8]);
    PointsFrom([a, b], sizes, 8, [0], [4], [0, 8]);
  }

  lemma KeptOne(ends: seq<nat>)
    ensures Kept([0], ends, 0) == [0]
  {
    assert [0][1..] == [];
  }

  lemma EndAtTheStartStarts()
    ensures IsStart([0], [4], [0, 8], 0) && IsStart([0], [4], [0, 8], 4) && InRegion([0, 8], 0, 4)
  {
    assert FirstFrom([4], [0, 8][0], 4);
  }

  /** A kernel that begins at 4 with a loop from 8 on: both are code starts of one region. */
  lemma MarkBeforeLoop()
    ensures var flow, sizes := [FlowEntry(4, 0, END), FlowEntry(4, 0, START), FlowEntry(8, 8, JUMP)],
                               map[0 := 4, 4 := 4, 8 := 4];
      && GoodCode(sizes, 12) && GoodFlow(flow, sizes, 12) && Points(flow, sizes, 12, [0, 4], [8], [4, 12])
      && IsStart([0, 4], [8], [4, 12], 4) && IsStart([0, 4], [8], [4, 12], 8) && InRegion([4, 12], 4, 8)
  {
    hide *;
    var a, b, c := FlowEntry(4, 0, END), FlowEntry(4, 0, START), FlowEntry(8, 8, JUMP);
    var sizes := map[0 := 4, 4 := 4, 8 := 4];
    SmallCode();
    MarkBeforeLoopFlow(a, b, c, sizes);
    MarkBeforeLoopPoints(a, b, c, sizes);
    MarkBeforeLoopStarts();
  }

  lemma MarkBeforeLoopFlow(a: FlowEntry, b: FlowEntry, c: FlowEntry, sizes: Sizes)
    requires a == FlowEntry(4, 0, END) && b == FlowEntry(4, 0, START) && c == FlowEntry(8, 8, JUMP)
    requires sizes == map[0 := 4, 4 := 4, 8 := 4]
    ensures GoodFlow([a, b, c], sizes, 12) && After(sizes, c) == 12
  {
  }

  lemma MarkBeforeLoopStarts()
    ensures IsStart([0, 4], [8], [4, 12], 4) && IsStart([0, 4], [8], [4, 12], 8) && InRegion([4, 12], 4, 8)
  {
    assert FirstFrom([8], [4, 12][0], 8);
  }

  lemma MarkBeforeLoopPoints(a: FlowEntry, b: FlowEntry, c: FlowEntry, sizes: Sizes)
    requires a == FlowEntry(4, 0, END) && b == FlowEntry(4, 0, START) && c == FlowEntry(8, 8, JUMP)
    requires After(sizes, c) == 12
    ensures Points([a, b, c], sizes, 12, [0, 4], [8], [4, 12])
  {
    hide Points, IsSplit, IsEnd;
    EntryAddsPoints([], sizes, 12, a);
    EntryAddsPoints([a], sizes, 12, b);
    EntryAddsPoints([a, b], sizes, 12, c);
    assert AllSplits([], sizes) == [] && AllEnds([], sizes, 12) == [12] && Marks([]) == [0];
    hide AllSplits, AllEnds, Marks, Kept;
    assert [] + [a] == [a] && [a] + [b] == [a, b] && [a, b] + [c] == [a, b, c];
    KeptTwo([4, 12]);
    PointsFrom([a, b, c], sizes, 12, [0, 4], [8], [4, 12]);
  }

  lemma KeptTwo(ends: seq<nat>)
    requires |ends| == 2 && ends[0] == 4
    ensures Kept([0, 4], ends, 0) == [0, 4]
  {
    assert [0, 4][1..] == [4] && [4][1..] == [];
    assert SkipBelow([4], ends, 0) == [4];
    assert Kept([4], ends, 1) == [4];
  }

  function ThreeKernels(): seq<FlowEntry> {
    [FlowEntry(4, 0, END), FlowEntry(4, 0, START), FlowEntry(8, 0, END), FlowEntry(8, 0, START),
     FlowEntry(16, 8, JUMP), FlowEntry(16, 12, JUMP)]
  }

  /** Three kernels, at 0, 4 and 8, the last one with jumps to 8 and 12: the split at 12 is passed over. */
  lemma SplitIsPassedOver()
    ensures var flow, sizes := ThreeKernels(), map[0 := 4, 4 := 4, 8 := 4, 12 := 4, 16 := 4];
      && GoodCode(sizes, 20) && GoodFlow(flow, sizes, 20) && Points(flow, sizes, 20, [0, 4, 8], [8, 12], [4, 8, 20])
      && RegionsApart(flow, sizes, 20) && SplitLost(flow, sizes, 20)
  {
    hide Regular, LosesSplit, Apart, SplitPoints, EndPoints, KeptMarks, StartPoints;
    var flow, sizes := ThreeKernels(), map[0 := 4, 4 := 4, 8 := 4, 12 := 4, 16 := 4];
    ThreeKernelCode();
    ThreeKernelPoints();
    ThreeKernelsApart();
    ThreeKernelsLose();
    hide GoodCode, GoodFlow;
    assert RegionsApart(flow, sizes, 20) && SplitLost(flow, sizes, 20);
  }

  lemma ThreeKernelCode()
    ensures var flow, sizes := ThreeKernels(), map[0 := 4, 4 := 4, 8 := 4, 12 := 4, 16 := 4];
      GoodCode(sizes, 20) && GoodFlow(flow, sizes, 20)
  {
  }

  /** The points of two kernels, each with its code end and the mark of the next one. */
  lemma KernelMarks(sizes: Sizes, codeSize: nat, a: FlowEntry, b: FlowEntry, c: FlowEntry, d: FlowEntry)
    requires a.kind.END? && b.kind.START? && c.kind.END? && d.kind.START?
    ensures AllSplits([a, b, c, d], sizes) == []
    ensures AllEnds([a, b, c, d], sizes, codeSize) == [codeSize, a.offset, c.offset]
    ensures Marks([a, b, c, d]) == [0, b.offset, d.offset]
  {
    hide IsSplit, IsEnd;
    EntryAddsPoints([], sizes, codeSize, a);
    EntryAddsPoints([a], sizes, codeSize, b);
    EntryAddsPoints([a, b], sizes, codeSize, c);
    EntryAddsPoints([a, b, c], sizes, codeSize, d);
    assert [] + [a] == [a] && [a] + [b] == [a, b] && [a, b] + [c] == [a, b, c] && [a, b, c] + [d] == [a, b, c, d];
    hide AllSplits, AllEnds;
    assert Marks([a, b]) == [0, b.offset];
  }

  /** Two jumps of one instruction add their targets and one code end. */
  lemma JumpPoints(flow: seq<FlowEntry>, sizes: Sizes, codeSize: nat, e: FlowEntry, f: FlowEntry)
    requires e.kind.JUMP? && f.kind.JUMP?
    ensures AllSplits(flow + [e, f], sizes) == AllSplits(flow, sizes) + [e.target, f.target]
    ensures AllEnds(flow + [e, f], sizes, codeSize)
            == AllEnds(flow, sizes, codeSize) + [After(sizes, e), After(sizes, f)]
    ensures Marks(flow + [e, f]) == Marks(flow)
  {
    hide AllSplits, AllEnds, Marks;
    EntryAddsPoints(flow, sizes, codeSize, e);
    EntryAddsPoints(flow + [e], sizes, codeSize, f);
    assert flow + [e, f] == flow + [e] + [f];
  }

  lemma ThreeKernelPoints()
    ensures var flow, sizes := ThreeKernels(), map[0 := 4, 4 := 4, 8 := 4, 12 := 4, 16 := 4];
      Points(flow, sizes, 20, [0, 4, 8], [8, 12], [4, 8, 20])
  {
    hide Points, IsSplit, IsEnd, AllSplits, AllEnds, Marks, GoodCode;
    var flow, sizes := ThreeKernels(), map[0 := 4, 4 := 4, 8 := 4, 12 := 4, 16 := 4];
    var first := [flow[0], flow[1], flow[2], flow[3]];
    KernelMarks(sizes, 20, flow[0], flow[1], flow[2], flow[3]);
    JumpPoints(first, sizes, 20, flow[4], flow[5]);
    assert first + [flow[4], flow[5]] == flow;
    KeptThree([4, 8, 20]);
    PointsFrom(flow, sizes, 20, [0, 4, 8], [8, 12], [4, 8, 20]);
  }

  lemma KeptThree(ends: seq<nat>)
    requires |ends| == 3 && ends[0] == 4 && ends[1] == 8
    ensures Kept([0, 4, 8], ends, 0) == [0, 4, 8]
  {
    assert [0, 4, 8][1..] == [4, 8] && [4, 8][1..] == [8] && [8][1..] == [];
    assert SkipBelow([4, 8], ends, 0) == [4, 8] && SkipBelow([8], ends, 1) == [8];
    assert Kept([8], ends, 2) == [8];
    assert Kept([4, 8], ends, 1) == [4, 8];
  }

  lemma ThreeKernelsApart()
    ensures Apart([0, 4, 8], [8, 12], [4, 8, 20])
  {
    var ends := [4, 8, 20];
    assert ends[0] == 4 && ends[1] == 8 && ends[2] == 20;
  }

  lemma ThreeKernelStarts()
    ensures StartPoints([0, 4, 8], [8, 12], [4, 8, 20]) == [0, 4, 8]
  {
    var splits, ends := [8, 12], [4, 8, 20];
    forall x | x in FirstSplits(splits, ends) ensures x == 8 {
      var i :| 0 <= i < |ends| && FirstFrom(splits, ends[i], x);
      assert splits[0] == 8 && splits[1] == 12;
    }
    SortedIs([0, 4, 8] + FirstSplits(splits, ends), [0, 4, 8]);
  }

  lemma NextEndIs(ends: seq<nat>, c: nat, k: nat)
    requires Rising(ends) && k < |ends| && ends[k] > c && (k > 0 ==> ends[k - 1] <= c)
    ensures HasEnd(ends, c) && NextEnd(ends, c) == ends[k]
  {
    var i :| 0 <= i < |ends| && ends[i] == NextEnd(ends, c);
    assert i < k ==> ends[i] <= ends[k - 1];
  }

  lemma ThreeKernelEnds()
    ensures var ends := [4, 8, 20];
      && Rising(ends) && HasEnd(ends, 0) && HasEnd(ends, 4) && HasEnd(ends, 8)
      && NextEnd(ends, 0) == 4 && NextEnd(ends, 4) == 8 && NextEnd(ends, 8) == 20
  {
    hide LowerBound;
    var ends := [4, 8, 20];
    NextEndIs(ends, 0, 0);
    NextEndIs(ends, 4, 1);
    NextEndIs(ends, 8, 2);
  }

  lemma ThreeKernelsRegular()
    ensures Regular([8, 12], [4, 8, 20], [0, 4, 8])
  {
    hide LowerBound, HasEnd;
    ThreeKernelEnds();
  }

  lemma ThreeKernelsLose()
    ensures var splits, ends, starts := [8, 12], [4, 8, 20], StartPoints([0, 4, 8], [8, 12], [4, 8, 20]);
      Regular(splits, ends, starts) && LosesSplit(splits, ends, starts)
  {
    hide StartPoints, Regular;
    ThreeKernelStarts();
    ThreeKernelsRegular();
    ThreeKernelEnds();
    var splits, ends, starts := [8, 12], [4, 8, 20], [0, 4, 8];
    BelowIs(splits, 4, 0);
    BelowIs(splits, 9, 1);
    BelowIs(splits, 20, 2);
    hide Rising, Below;
    assert UpToStart(splits, ends, starts, 2) == 1 && BelowEnd(splits, ends, starts, 0) == 0;
    assert BelowEnd(splits, ends, starts, 2) == 2;
  }

  /** A mark at 12 behind one at 20: it is dropped, and no code start reaches it. */
  lemma MarkOutOfOrder()
    ensures Kept([0, 20, 12], [8, 16, 24], 0) == [0, 20] && !Covered([0, 20], [], [8, 16, 24], 12)
  {
    var ends := [8, 16, 24];
    assert [0, 20, 12][1..] == [20, 12] && [20, 12][1..] == [12] && [12][1..] == [];
    assert SkipBelow([20, 12], ends, 0) == [20, 12] && SkipBelow([12], ends, 1) == [];
    assert Kept([20, 12], ends, 1) == [20];
    assert ends[0] == 8 && ends[1] == 16;
  }
}
