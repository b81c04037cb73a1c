/** The places where the code of a section must be cut, read from its flow entries: split points, code
    ends, and marked code starts, of which some are dropped. */
module CodePoints {

  datatype FlowKind = JUMP | CJUMP | CALL | RETURN | START | END

  datatype FlowEntry = FlowEntry(offset: nat, target: nat, kind: FlowKind)

  /** The size of every instruction by its offset. */
  type Sizes = map<nat, nat>

  /** Instructions are not empty, do not overlap, and fill the code. */
  ghost predicate GoodCode(sizes: Sizes, codeSize: nat) {
    && 0 in sizes
    && (forall o | o in sizes ::
          sizes[o] > 0 && o + sizes[o] <= codeSize && (o + sizes[o] == codeSize || o + sizes[o] in sizes))
    && (forall o, p | o in sizes && p in sizes && o < p :: o + sizes[o] <= p)
  }

  predicate Transfers(e: FlowEntry) {
    e.kind in {JUMP, CJUMP, CALL}
  }

  predicate ComesBack(e: FlowEntry) {
    e.kind in {CJUMP, CALL}
  }

  /** Behind the instruction of a flow entry. */
  function After(sizes: Sizes, e: FlowEntry): nat {
    if e.offset in sizes then e.offset + sizes[e.offset] else e.offset
  }

  /** Entries and targets lie on instructions; a conditional jump or a call is not the last
      instruction. */
  ghost predicate GoodEntry(sizes: Sizes, codeSize: nat, e: FlowEntry) {
    match e.kind
    case START => e.offset in sizes
    case END => e.offset in sizes || e.offset == codeSize
    case RETURN => e.offset in sizes
    case _ =>
      e.offset in sizes && e.target in sizes && (ComesBack(e) ==> After(sizes, e) < codeSize)
  }

  ghost predicate GoodFlow(flow: seq<FlowEntry>, sizes: Sizes, codeSize: nat) {
    forall i | 0 <= i < |flow| :: GoodEntry(sizes, codeSize, flow[i])
  }

  // ----- places where blocks must be cut -----

  predicate SplitsAt(sizes: Sizes, e: FlowEntry, x: nat) {
    (Transfers(e) && x == e.target) || (ComesBack(e) && x == After(sizes, e))
  }

  predicate EndsAt(sizes: Sizes, e: FlowEntry, x: nat) {
    (e.kind.END? && x == e.offset) || (e.kind in {JUMP, RETURN} && x == After(sizes, e))
  }

  predicate IsSplit(flow: seq<FlowEntry>, sizes: Sizes, x: nat) {
    exists i :: 0 <= i < |flow| && SplitsAt(sizes, flow[i], x)
  }

  predicate IsEnd(flow: seq<FlowEntry>, sizes: Sizes, codeSize: nat, x: nat) {
    x == codeSize || exists i :: 0 <= i < |flow| && EndsAt(sizes, flow[i], x)
  }

  // ----- sorted vectors -----

  predicate Rising(v: seq<nat>) {
    forall i, j | 0 <= i < j < |v| :: v[i] < v[j]
  }

  function LowerBound(v: seq<nat>, from: nat, x: nat): (k: nat)
    requires from <= |v| && Rising(v)
    ensures from <= k <= |v|
    ensures forall i | from <= i < k :: v[i] < x
    ensures forall i | k <= i < |v| :: v[i] >= x
    decreases |v| - from
  {
    if from == |v| || v[from] >= x then from else LowerBound(v, from + 1, x)
  }

  function Placed(r: seq<nat>, x: nat): seq<nat>
    requires Rising(r)
  {
    var i := LowerBound(r, 0, x);
    if i < |r| && r[i] == x then r else r[..i] + [x] + r[i..]
  }

  lemma PlacedAt(r: seq<nat>, i: nat, x: nat, q: seq<nat>)
    requires i <= |r| && q == r[..i] + [x] + r[i..]
    ensures |q| == |r| + 1 && q[i] == x
    ensures forall k | 0 <= k < i :: q[k] == r[k]
    ensures forall k | i < k < |q| :: q[k] == r[k - 1]
    ensures forall y :: y in q <==> y in r || y == x
  {
    assert r == r[..i] + r[i..];
  }

  lemma PlacedOrder(r: seq<nat>, i: nat, x: nat, q: seq<nat>)
    requires Rising(r) && i <= |r| && |q| == |r| + 1 && q[i] == x
    requires forall k | 0 <= k < i :: q[k] == r[k]
    requires forall k | i < k < |q| :: q[k] == r[k - 1]
    requires i > 0 ==> r[i - 1] < x
    requires i < |r| ==> x < r[i]
    ensures Rising(q)
  {
    forall j, k | 0 <= j < k < |q| ensures q[j] < q[k] {
      if j < i {
        assert q[j] == r[j] <= r[i - 1] < x;
      }
      if k > i {
        assert q[k] == r[k - 1] >= r[i] > x;
      }
    }
  }

  lemma PlacedRises(r: seq<nat>, x: nat)
    requires Rising(r)
    ensures Rising(Placed(r, x)) && forall y :: y in Placed(r, x) <==> y in r || y == x
  {
    var i := LowerBound(r, 0, x);
    if i == |r| || r[i] != x {
      PlacedAt(r, i, x, Placed(r, x));
      PlacedOrder(r, i, x, Placed(r, x));
    }
  }

  /** The elements in rising order, without repetitions. */
  function Sorted(v: seq<nat>): (r: seq<nat>)
    ensures Rising(r) && forall x :: x in r <==> x in v
  {
    if v == [] then []
    else
      var n := |v| - 1;
      assert v == v[..n] + [v[n]];
      PlacedRises(Sorted(v[..n]), v[n]);
      Placed(Sorted(v[..n]), v[n])
  }

  lemma FrontAmong(a: seq<nat>, b: seq<nat>, m: nat)
    requires Rising(a + [m]) && Rising(b + [m]) && forall x :: x in a + [m] <==> x in b + [m]
    ensures forall x | x in a :: x in b
  {
    forall x | x in a ensures x in b {
      var i :| 0 <= i < |a| && a[i] == x;
      assert (a + [m])[i] == x && (a + [m])[|a|] == m;
      assert x in b + [m];
    }
  }

  lemma SameLast(a: seq<nat>, b: seq<nat>)
    requires Rising(a) && Rising(b) && forall x :: x in a <==> x in b
    ensures a == [] <==> b == []
    ensures a != [] && b != [] ==> a[|a| - 1] == b[|b| - 1]
  {
    if a != [] {
      assert a[|a| - 1] in b;
    }
    if b != [] {
      assert b[|b| - 1] in a;
    }
  }

  lemma {:induction false} RisingUnique(a: seq<nat>, b: seq<nat>)
    requires Rising(a) && Rising(b) && forall x :: x in a <==> x in b
    ensures a == b
  {
    SameLast(a, b);
    if a != [] {
      var m, n := |a| - 1, |b| - 1;
      assert a == a[..m] + [a[m]] && b == b[..n] + [a[m]];
      FrontAmong(a[..m], b[..n], a[m]);
      FrontAmong(b[..n], a[..m], a[m]);
      RisingUnique(a[..m], b[..n]);
    }
  }

  lemma SortedIs(v: seq<nat>, r: seq<nat>)
    requires Rising(r) && forall x :: x in r <==> x in v
    ensures Sorted(v) == r
  {
    RisingUnique(Sorted(v), r);
  }

  /** Sorting and removing repetitions. */
  method SortUnique(v: seq<nat>) returns (r: seq<nat>)
    ensures r == Sorted(v)
  {
    r := [];
    for k := 0 to |v|
      invariant r == Sorted(v[..k])
    {
      assert v[..k + 1][..k] == v[..k];
      r := Placed(r, v[k]);
    }
    assert v[..|v|] == v;
  }

  // ----- collecting the points -----

  function SplitsOf(sizes: Sizes, e: FlowEntry): seq<nat> {
    (if Transfers(e) then [e.target] else []) + if ComesBack(e) then [After(sizes, e)] else []
  }

  function EndsOf(sizes: Sizes, e: FlowEntry): seq<nat> {
    if e.kind.END? then [e.offset] else if e.kind in {JUMP, RETURN} then [After(sizes, e)] else []
  }

  function AllSplits(flow: seq<FlowEntry>, sizes: Sizes): (v: seq<nat>)
    ensures forall x :: x in v <==> IsSplit(flow, sizes, x)
  {
    if flow == [] then []
    else
      var n := |flow| - 1;
      assert forall x :: IsSplit(flow, sizes, x) <==> IsSplit(flow[..n], sizes, x) || SplitsAt(sizes, flow[n], x);
      AllSplits(flow[..n], sizes) + SplitsOf(sizes, flow[n])
  }

  function AllEnds(flow: seq<FlowEntry>, sizes: Sizes, codeSize: nat): (v: seq<nat>)
    ensures forall x :: x in v <==> IsEnd(flow, sizes, codeSize, x)
  {
    if flow == [] then [codeSize]
    else
      var n := |flow| - 1;
      assert forall x ::
          IsEnd(flow, sizes, codeSize, x) <==> IsEnd(flow[..n], sizes, codeSize, x) || EndsAt(sizes, flow[n], x);
      AllEnds(flow[..n], sizes, codeSize) + EndsOf(sizes, flow[n])
  }

  /** The places that are marked as code starts, in the order of the entries, behind the start of the
      code. */
  function Marks(flow: seq<FlowEntry>): (v: seq<nat>)
    ensures v != [] && v[0] == 0
  {
    if flow == [] then [0]
    else
      var n := |flow| - 1;
      Marks(flow[..n]) + if flow[n].kind.START? then [flow[n].offset] else []
  }

  /** What one entry more adds. */
  lemma EntryAddsPoints(flow: seq<FlowEntry>, sizes: Sizes, codeSize: nat, e: FlowEntry)
    ensures AllSplits(flow + [e], sizes) == AllSplits(flow, sizes) + SplitsOf(sizes, e)
    ensures AllEnds(flow + [e], sizes, codeSize) == AllEnds(flow, sizes, codeSize) + EndsOf(sizes, e)
    ensures Marks(flow + [e]) == Marks(flow) + if e.kind.START? then [e.offset] else []
  {
    assert (flow + [e])[..|flow|] == flow;
  }

  /** The split points of a section. */
  function SplitPoints(flow: seq<FlowEntry>, sizes: Sizes): (v: seq<nat>)
    ensures Rising(v) && forall x :: x in v <==> IsSplit(flow, sizes, x)
  {
    Sorted(AllSplits(flow, sizes))
  }

  /** The code ends of a section. */
  function EndPoints(flow: seq<FlowEntry>, sizes: Sizes, codeSize: nat): (v: seq<nat>)
    ensures Rising(v) && forall x :: x in v <==> IsEnd(flow, sizes, codeSize, x)
  {
    Sorted(AllEnds(flow, sizes, codeSize))
  }

  lemma NoPoints(sizes: Sizes, codeSize: nat)
    ensures AllSplits([], sizes) == [] && AllEnds([], sizes, codeSize) == [codeSize] && Marks([]) == [0]
  {
  }

  /** Collects the points in one pass over the entries. */
  method CollectPoints(flow: seq<FlowEntry>, sizes: Sizes, codeSize: nat)
    returns (marks: seq<nat>, splits: seq<nat>, ends: seq<nat>)
    ensures marks == Marks(flow)
    ensures splits == SplitPoints(flow, sizes) && ends == EndPoints(flow, sizes, codeSize)
  {
    hide IsSplit, IsEnd, Sorted, AllSplits, AllEnds, Marks;
    NoPoints(sizes, codeSize);
    marks, splits, ends := [0], [], [codeSize];
    for k := 0 to |flow|
      invariant marks == Marks(flow[..k])
      invariant splits == AllSplits(flow[..k], sizes) && ends == AllEnds(flow[..k], sizes, codeSize)
    {
      var e := flow[k];
      var instrAfter := After(sizes, e);
      assert flow[..k + 1] == flow[..k] + [e];
      EntryAddsPoints(flow[..k], sizes, codeSize, e);
      match e.kind {
        case START => marks := marks + [e.offset];
        case END => ends := ends + [e.offset];
        case JUMP =>
          splits := splits + [e.target];
          ends := ends + [instrAfter];
        case CJUMP => splits := splits + [e.target] + [instrAfter];
        case CALL => splits := splits + [e.target] + [instrAfter];
        case RETURN => ends := ends + [instrAfter];
      }
    }
    assert flow[..|flow|] == flow;
    splits := SortUnique(splits);
    ends := SortUnique(ends);
  }

  // ----- dropping marks -----

  /** The marks that are left when those below a code end are skipped; all are skipped when the code ends
      are used up. */
  function SkipBelow(marks: seq<nat>, ends: seq<nat>, ei: nat): (r: seq<nat>)
    ensures |r| <= |marks|
  {
    if marks != [] && (ei >= |ends| || marks[0] < ends[ei]) then SkipBelow(marks[1..], ends, ei) else marks
  }

  /** The marks that are kept: every kept mark takes the next code end, and the marks that follow below it
      are dropped. */
  function Kept(marks: seq<nat>, ends: seq<nat>, ei: nat): (r: seq<nat>)
    ensures marks != [] ==> r != [] && r[0] == marks[0]
    decreases |marks|
  {
    if marks == [] then []
    else [marks[0]] + Kept(SkipBelow(marks[1..], ends, ei), ends, ei + 1)
  }

  /** The marks below the code end are skipped, up to the first one that is not. */
  lemma {:induction false} SkippedBelow(marks: seq<nat>, ends: seq<nat>, ei: nat)
    ensures var r := SkipBelow(marks, ends, ei);
      && r == marks[|marks| - |r|..] && (r != [] ==> ei < |ends| && r[0] >= ends[ei])
      && forall i | 0 <= i < |marks| - |r| :: ei < |ends| ==> marks[i] < ends[ei]
    decreases |marks|
  {
    if marks != [] && (ei >= |ends| || marks[0] < ends[ei]) {
      SkippedBelow(marks[1..], ends, ei);
    }
  }

  lemma {:induction false} KeptAreMarks(marks: seq<nat>, ends: seq<nat>, ei: nat)
    ensures forall x | x in Kept(marks, ends, ei) :: x in marks
    decreases |marks|
  {
    if marks != [] {
      SkippedBelow(marks[1..], ends, ei);
      KeptAreMarks(SkipBelow(marks[1..], ends, ei), ends, ei + 1);
    }
  }

  lemma SkipStep(marks: seq<nat>, ends: seq<nat>, ei: nat, i: nat)
    requires i <= |marks|
    ensures SkipBelow(marks[i..], ends, ei) ==
            if i < |marks| && (ei >= |ends| || marks[i] < ends[ei]) then SkipBelow(marks[i + 1..], ends, ei)
            else marks[i..]
  {
    if i < |marks| {
      assert marks[i..][1..] == marks[i + 1..];
    }
  }

  lemma KeptStep(marks: seq<nat>, ends: seq<nat>, ei: nat, i: nat)
    requires i < |marks|
    ensures Kept(marks[i..], ends, ei) == [marks[i]] + Kept(SkipBelow(marks[i + 1..], ends, ei), ends, ei + 1)
  {
    assert marks[i..][1..] == marks[i + 1..];
  }

  /** Without code ends left, the position among them does not matter. */
  lemma {:induction false} KeptBeyond(marks: seq<nat>, ends: seq<nat>, ei: nat)
    requires ei >= |ends|
    ensures Kept(marks, ends, ei) == Kept(marks, ends, |ends|)
  {
    if marks != [] {
      SkippedBelow(marks[1..], ends, ei);
      SkippedBelow(marks[1..], ends, |ends|);
      assert SkipBelow(marks[1..], ends, ei) == [] && SkipBelow(marks[1..], ends, |ends|) == [];
      KeptEmpty(ends, ei + 1);
      KeptEmpty(ends, |ends| + 1);
    }
  }

  /** The marks at these places, in their order. */
  ghost predicate Picks(marks: seq<nat>, kept: seq<nat>, at: seq<nat>) {
    |at| == |kept| > 0 && at[0] == 0 && forall j | 0 <= j < |at| :: at[j] < |marks| && kept[j] == marks[at[j]]
  }

  /** Each next mark is not below the code end of the one before. */
  ghost predicate Steps(marks: seq<nat>, ends: seq<nat>, ei: nat, at: seq<nat>) {
    && (forall j | 0 <= j < |at| :: at[j] < |marks|)
    && (forall j, k | 0 <= j < k < |at| && k == j + 1 ::
          at[j] < at[k] && ei + j < |ends| && marks[at[k]] >= ends[ei + j])
  }

  /** The marks up to the next one, or up to the end, are below that code end. */
  ghost predicate Gaps(marks: seq<nat>, ends: seq<nat>, ei: nat, at: seq<nat>) {
    && (forall j, k, i | 0 <= j < k < |at| && k == j + 1 && at[j] < i < at[k] && i < |marks| ::
          ei + j < |ends| ==> marks[i] < ends[ei + j])
    && (forall i | at != [] && at[|at| - 1] < i < |marks| ::
          ei + |at| - 1 < |ends| ==> marks[i] < ends[ei + |at| - 1])
  }

  /** Where the kept marks stand: the first mark is kept, and behind the j-th kept mark the next one that
      is not below the j-th code end. */
  lemma {:induction false} KeptAre(marks: seq<nat>, ends: seq<nat>, ei: nat) returns (at: seq<nat>)
    requires marks != []
    ensures Picks(marks, Kept(marks, ends, ei), at) && Steps(marks, ends, ei, at) && Gaps(marks, ends, ei, at)
    decreases |marks|
  {
    hide SkipBelow, Picks, Steps, Gaps;
    var rest := SkipBelow(marks[1..], ends, ei);
    SkippedMarks(marks, ends, ei, rest);
    var n := |marks| - |rest|;
    if rest == [] {
      at := [0];
      OneKept(marks, ends, ei);
    } else {
      var later := KeptAre(rest, ends, ei + 1);
      at := [0] + seq(|later|, j requires 0 <= j < |later| => n + later[j]);
      assert Kept(marks, ends, ei) == [marks[0]] + Kept(rest, ends, ei + 1);
      hide Kept;
      ShiftPicks(marks, n, rest, Kept(rest, ends, ei + 1), later, at);
      ShiftSteps(marks, ends, ei, n, rest, Kept(rest, ends, ei + 1), later, at);
      ShiftGaps(marks, ends, ei, n, rest, Kept(rest, ends, ei + 1), later, at);
    }
  }

  lemma SkippedMarks(marks: seq<nat>, ends: seq<nat>, ei: nat, rest: seq<nat>)
    requires marks != [] && rest == SkipBelow(marks[1..], ends, ei)
    ensures |rest| < |marks| && rest == marks[|marks| - |rest|..]
    ensures rest != [] ==> ei < |ends| && rest[0] >= ends[ei]
    ensures forall i | 0 < i < |marks| - |rest| :: ei < |ends| ==> marks[i] < ends[ei]
  {
    SkippedBelow(marks[1..], ends, ei);
    assert forall i | 0 < i < |marks| - |rest| :: marks[i] == marks[1..][i - 1];
    hide SkipBelow;
  }

  lemma OneKept(marks: seq<nat>, ends: seq<nat>, ei: nat)
    requires marks != [] && SkipBelow(marks[1..], ends, ei) == []
    requires forall i | 0 < i < |marks| :: ei < |ends| ==> marks[i] < ends[ei]
    ensures Picks(marks, Kept(marks, ends, ei), [0]) && Steps(marks, ends, ei, [0]) && Gaps(marks, ends, ei, [0])
  {
    hide SkipBelow;
    KeptEmpty(ends, ei + 1);
    assert Kept(marks, ends, ei) == [marks[0]];
    hide Kept;
  }

  lemma ShiftPicks(marks: seq<nat>, n: nat, rest: seq<nat>, kept: seq<nat>, later: seq<nat>, at: seq<nat>)
    requires marks != [] && 0 < n <= |marks| && rest == marks[n..] && Picks(rest, kept, later)
    requires |at| == |later| + 1 && at[0] == 0 && forall j | 0 < j < |at| :: at[j] == n + later[j - 1]
    ensures Picks(marks, [marks[0]] + kept, at)
  {
    forall j | 0 <= j < |at| ensures at[j] < |marks| && ([marks[0]] + kept)[j] == marks[at[j]] {
      if j > 0 {
        assert kept[j - 1] == rest[later[j - 1]];
      }
    }
  }

  lemma ShiftSteps(marks: seq<nat>, ends: seq<nat>, ei: nat, n: nat, rest: seq<nat>, kept: seq<nat>, later: seq<nat>,
                   at: seq<nat>)
    requires 0 < n <= |marks| && rest == marks[n..] && Picks(rest, kept, later) && Steps(rest, ends, ei + 1, later)
    requires rest != [] && ei < |ends| && rest[0] >= ends[ei]
    requires |at| == |later| + 1 && at[0] == 0 && forall j | 0 < j < |at| :: at[j] == n + later[j - 1]
    ensures Steps(marks, ends, ei, at)
  {
    forall j, k | 0 <= j < k < |at| && k == j + 1
      ensures at[j] < at[k] && ei + j < |ends| && marks[at[k]] >= ends[ei + j]
    {
      if j > 0 {
        assert later[j - 1] < later[k - 1] && rest[later[k - 1]] >= ends[ei + 1 + (j - 1)];
      }
    }
  }

  lemma ShiftGaps(marks: seq<nat>, ends: seq<nat>, ei: nat, n: nat, rest: seq<nat>, kept: seq<nat>, later: seq<nat>,
                  at: seq<nat>)
    requires 0 < n <= |marks| && rest == marks[n..] && Picks(rest, kept, later) && Gaps(rest, ends, ei + 1, later)
    requires ei < |ends| && forall i | 0 < i < n :: marks[i] < ends[ei]
    requires |at| == |later| + 1 && at[0] == 0 && forall j | 0 < j < |at| :: at[j] == n + later[j - 1]
    ensures Gaps(marks, ends, ei, at)
  {
    forall j, k, i | 0 <= j < k < |at| && k == j + 1 && at[j] < i < at[k] && i < |marks|
      ensures ei + j < |ends| ==> marks[i] < ends[ei + j]
    {
      if j > 0 {
        assert later[j - 1] < i - n < later[k - 1] && rest[i - n] == marks[i];
        assert ei + 1 + (j - 1) < |ends| ==> rest[i - n] < ends[ei + 1 + (j - 1)];
      }
    }
    forall i | at[|at| - 1] < i < |marks|
      ensures ei + |at| - 1 < |ends| ==> marks[i] < ends[ei + |at| - 1]
    {
      assert later[|later| - 1] < i - n && rest[i - n] == marks[i];
    }
  }

  /** Drops marks. */
  method KeepStarts(marks: seq<nat>, ends: seq<nat>) returns (kept: seq<nat>)
    ensures kept == Kept(marks, ends, 0)
  {
    hide *;
    kept := [];
    var i, ei := 0, 0;
    assert marks[0..] == marks;
    while i < |marks|
      invariant 0 <= i <= |marks| && 0 <= ei <= |ends|
      invariant kept + Kept(marks[i..], ends, ei) == Kept(marks, ends, 0)
      decreases |marks| - i
    {
      ghost var at := ei;
      KeptStep(marks, ends, ei, i);
      var bounded := ei < |ends|;
      var end := if bounded then ends[ei] else 0;
      if ei < |ends| {
        ei := ei + 1;
      } else {
        KeptBeyond(SkipBelow(marks[i + 1..], ends, ei), ends, ei + 1);
      }
      kept := kept + [marks[i]];
      ghost var skipped := SkipBelow(marks[i + 1..], ends, at);
      i := i + 1;
      while i < |marks| && (!bounded || marks[i] < end)
        invariant 0 <= i <= |marks|
        invariant SkipBelow(marks[i..], ends, at) == skipped
      {
        SkipStep(marks, ends, at, i);
        i := i + 1;
      }
      SkipStep(marks, ends, at, i);
    }
    KeptEmpty(ends, ei);
    assert marks[i..] == [] && kept + [] == kept;
  }

  lemma KeptEmpty(ends: seq<nat>, ei: nat)
    ensures Kept([], ends, ei) == []
  {
  }

  /** The kept marks of a section. */
  function KeptMarks(flow: seq<FlowEntry>, sizes: Sizes, codeSize: nat): seq<nat> {
    Kept(Marks(flow), EndPoints(flow, sizes, codeSize), 0)
  }
}
