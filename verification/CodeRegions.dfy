/** The regions of code between a code start and the next code end, and their division into basic blocks.
    Regions overlap exactly when kept marks are not apart, and blocks are cut at every split exactly when
    no split is passed over. */
module CodeRegions {
  import opened Bounds
  import opened CodePoints

  /** A successor block, reached by a call or otherwise. */
  datatype Next = Next(block: nat, isCall: bool)

  datatype Block = Block(start: nat, end: nat, nexts: seq<Next>)

  // ----- regions of code -----

  /** The first split at or behind a code end. */
  predicate FirstFrom(splits: seq<nat>, end: nat, x: nat) {
    x in splits && x >= end && forall i | 0 <= i < |splits| :: splits[i] < x ==> splits[i] < end
  }

  /** The code starts: the marks that were kept, and the first splits at or behind code ends. */
  predicate IsStart(kept: seq<nat>, splits: seq<nat>, ends: seq<nat>, x: nat) {
    x in kept || exists i :: 0 <= i < |ends| && FirstFrom(splits, ends[i], x)
  }

  /** Some code end lies behind. */
  predicate HasEnd(ends: seq<nat>, c: nat) {
    exists i :: 0 <= i < |ends| && ends[i] > c
  }

  function NextEnd(ends: seq<nat>, c: nat): (e: nat)
    requires Rising(ends) && HasEnd(ends, c)
    ensures e in ends && e > c
    ensures forall i | 0 <= i < |ends| :: ends[i] > c ==> ends[i] >= e
  {
    ends[LowerBound(ends, 0, c + 1)]
  }

  /** A place is covered when it lies between a code start and the next code end. */
  predicate InRegion(ends: seq<nat>, c: nat, o: nat)
    requires Rising(ends)
  {
    c <= o && forall i | 0 <= i < |ends| :: ends[i] <= c || ends[i] > o
  }

  // ----- when regions overlap -----

  /** No code end lies between the places. */
  predicate SameRegion(ends: seq<nat>, a: nat, b: nat) {
    forall i | 0 <= i < |ends| :: ends[i] <= a <==> ends[i] <= b
  }

  predicate BehindSomeEnd(ends: seq<nat>, x: nat) {
    exists i :: 0 <= i < |ends| && ends[i] <= x
  }

  /** No two different marks lie in one region, and a mark behind some code end is the first split of
      its region, if that has any. */
  predicate Apart(kept: seq<nat>, splits: seq<nat>, ends: seq<nat>) {
    && (forall i, j | 0 <= i < |kept| && 0 <= j < |kept| && SameRegion(ends, kept[i], kept[j]) :: kept[i] == kept[j])
    && (forall i, j | 0 <= i < |kept| && 0 <= j < |splits| && SameRegion(ends, kept[i], splits[j]) ::
          BehindSomeEnd(ends, kept[i]) ==> kept[i] in splits && kept[i] <= splits[j])
  }

  /** Two code starts lie in one region. */
  ghost predicate Overlap(kept: seq<nat>, splits: seq<nat>, ends: seq<nat>) {
    exists c: nat, d: nat ::
      IsStart(kept, splits, ends, c) && IsStart(kept, splits, ends, d) && c < d && SameRegion(ends, c, d)
  }

  /** The first split of a region behind some code end is a code start. */
  lemma FirstSplitStarts(splits: seq<nat>, ends: seq<nat>, x: nat) returns (s: nat)
    requires Rising(splits) && Rising(ends) && x in splits && BehindSomeEnd(ends, x)
    ensures s in splits && s <= x && SameRegion(ends, s, x)
    ensures exists i :: 0 <= i < |ends| && FirstFrom(splits, ends[i], s)
    ensures forall j | 0 <= j < |splits| && SameRegion(ends, splits[j], x) :: splits[j] >= s
  {
    var k := LowerBound(ends, 0, x + 1) - 1;
    var i := LowerBound(splits, 0, ends[k]);
    s := splits[i];
    assert FirstFrom(splits, ends[k], s);
    forall j | 0 <= j < |splits| && SameRegion(ends, splits[j], x) ensures splits[j] >= s {
      assert ends[k] <= splits[j];
    }
  }

  /** Regions overlap exactly when the marks are not apart. */
  lemma OverlapIffNotApart(kept: seq<nat>, splits: seq<nat>, ends: seq<nat>)
    requires Rising(splits) && Rising(ends)
    ensures Overlap(kept, splits, ends) <==> !Apart(kept, splits, ends)
  {
    if !Apart(kept, splits, ends) {
      NotApartOverlaps(kept, splits, ends);
    }
    if Overlap(kept, splits, ends) {
      OverlapIsNotApart(kept, splits, ends);
    }
  }

  lemma OverlapsAt(kept: seq<nat>, splits: seq<nat>, ends: seq<nat>, c: nat, d: nat)
    requires IsStart(kept, splits, ends, c) && IsStart(kept, splits, ends, d) && c != d && SameRegion(ends, c, d)
    ensures Overlap(kept, splits, ends)
  {
    if d < c {
      assert SameRegion(ends, d, c);
    }
  }

  lemma NotApartOverlaps(kept: seq<nat>, splits: seq<nat>, ends: seq<nat>)
    requires Rising(splits) && Rising(ends) && !Apart(kept, splits, ends)
    ensures Overlap(kept, splits, ends)
  {
    if i, j :| 0 <= i < |kept| && 0 <= j < |kept| && SameRegion(ends, kept[i], kept[j]) && kept[i] != kept[j] {
      OverlapsAt(kept, splits, ends, kept[i], kept[j]);
    } else {
      var i, j :| 0 <= i < |kept| && 0 <= j < |splits| && SameRegion(ends, kept[i], splits[j])
                  && BehindSomeEnd(ends, kept[i]) && !(kept[i] in splits && kept[i] <= splits[j]);
      NotFirstOverlaps(kept, splits, ends, kept[i], splits[j]);
    }
  }

  lemma NotFirstOverlaps(kept: seq<nat>, splits: seq<nat>, ends: seq<nat>, c: nat, x: nat)
    requires Rising(splits) && Rising(ends) && c in kept && x in splits && SameRegion(ends, c, x)
    requires BehindSomeEnd(ends, c) && !(c in splits && c <= x)
    ensures Overlap(kept, splits, ends)
  {
    assert BehindSomeEnd(ends, x);
    var s := FirstSplitStarts(splits, ends, x);
    assert SameRegion(ends, c, s);
    OverlapsAt(kept, splits, ends, c, s);
  }

  lemma OverlapIsNotApart(kept: seq<nat>, splits: seq<nat>, ends: seq<nat>)
    requires Rising(splits) && Rising(ends) && Overlap(kept, splits, ends)
    ensures !Apart(kept, splits, ends)
  {
    var c: nat, d: nat :|
      IsStart(kept, splits, ends, c) && IsStart(kept, splits, ends, d) && c < d && SameRegion(ends, c, d);
    if d !in kept {
      var i :| 0 <= i < |ends| && FirstFrom(splits, ends[i], d);
      assert ends[i] <= c;
      assert c !in splits;
      var k :| 0 <= k < |kept| && kept[k] == c;
      var j :| 0 <= j < |splits| && splits[j] == d;
      assert BehindSomeEnd(ends, kept[k]);
    } else {
      var m :| 0 <= m < |kept| && kept[m] == d;
      if c in kept {
        var k :| 0 <= k < |kept| && kept[k] == c;
      } else {
        var i :| 0 <= i < |ends| && FirstFrom(splits, ends[i], c);
        var j :| 0 <= j < |splits| && splits[j] == c;
        assert SameRegion(ends, kept[m], splits[j]);
        assert BehindSomeEnd(ends, kept[m]);
      }
    }
  }

  lemma RegionIsSame(ends: seq<nat>, c: nat, d: nat)
    requires Rising(ends) && c <= d
    ensures SameRegion(ends, c, d) <==> InRegion(ends, c, d)
  {
  }

  /** When nothing is kept but the start of the code, regions overlap exactly when a code end is marked
      there and the first split is behind it in its region. */
  lemma OverlapAtTheStart(splits: seq<nat>, ends: seq<nat>)
    requires Rising(splits) && Rising(ends)
    ensures Overlap([0], splits, ends) <==> 0 in ends && splits != [] && splits[0] > 0 && SameRegion(ends, 0, splits[0])
  {
    OverlapIffNotApart([0], splits, ends);
    hide Overlap;
    assert [0][0] == 0;
    if 0 in ends && splits != [] && splits[0] > 0 && SameRegion(ends, 0, splits[0]) {
      assert BehindSomeEnd(ends, [0][0]) && SameRegion(ends, [0][0], splits[0]);
    }
    if j :| 0 <= j < |splits| && SameRegion(ends, [0][0], splits[j]) && BehindSomeEnd(ends, 0) && 0 !in splits {
      assert ends[0] == 0;
      assert splits[0] <= splits[j];
    }
  }

  /** The points of a section: no code start at or behind its end, and regions apart. */
  predicate GoodPoints(kept: seq<nat>, splits: seq<nat>, ends: seq<nat>, codeSize: nat) {
    && Rising(splits) && Rising(ends) && codeSize in ends && 0 in kept
    && (forall x | x in splits :: x < codeSize) && (forall x | x in kept :: x < codeSize)
    && Apart(kept, splits, ends)
  }

  lemma StartInside(kept: seq<nat>, splits: seq<nat>, ends: seq<nat>, codeSize: nat, c: nat)
    requires GoodPoints(kept, splits, ends, codeSize) && IsStart(kept, splits, ends, c)
    ensures c < codeSize && HasEnd(ends, c)
  {
    var i :| 0 <= i < |ends| && ends[i] == codeSize;
    assert c < codeSize;
  }

  /** With marks that are apart, the regions that begin at two code starts do not overlap. */
  lemma RegionsDisjoint(kept: seq<nat>, splits: seq<nat>, ends: seq<nat>, codeSize: nat, c: nat, d: nat)
    requires GoodPoints(kept, splits, ends, codeSize)
    requires IsStart(kept, splits, ends, c) && IsStart(kept, splits, ends, d) && c < d
    ensures HasEnd(ends, c) && NextEnd(ends, c) <= d
  {
    StartInside(kept, splits, ends, codeSize, c);
    OverlapIffNotApart(kept, splits, ends);
    assert !SameRegion(ends, c, d);
    RegionIsSame(ends, c, d);
    var i :| 0 <= i < |ends| && c < ends[i] <= d;
  }

  ghost predicate Covered(kept: seq<nat>, splits: seq<nat>, ends: seq<nat>, o: nat)
    requires Rising(ends)
  {
    exists c :: IsStart(kept, splits, ends, c) && InRegion(ends, c, o)
  }

  /** The last code start at or before a place. */
  lemma LastStart(kept: seq<nat>, splits: seq<nat>, ends: seq<nat>, o: nat) returns (c: nat)
    requires 0 in kept
    ensures c <= o && IsStart(kept, splits, ends, c) && forall d | c < d <= o :: !IsStart(kept, splits, ends, d)
  {
    c := o;
    while !IsStart(kept, splits, ends, c)
      invariant c <= o && forall d | c < d <= o :: !IsStart(kept, splits, ends, d)
      decreases c
    {
      c := c - 1;
    }
  }

  /** Every split is covered. */
  lemma SplitsCovered(kept: seq<nat>, splits: seq<nat>, ends: seq<nat>, t: nat)
    requires Rising(splits) && Rising(ends) && 0 in kept && t in splits
    ensures Covered(kept, splits, ends, t)
  {
    var c := LastStart(kept, splits, ends, t);
    forall i | 0 <= i < |ends| ensures ends[i] <= c || ends[i] > t {
      if c < ends[i] <= t {
        var k := LowerBound(splits, 0, ends[i]);
        assert k < |splits|;
        assert FirstFrom(splits, ends[i], splits[k]);
        assert IsStart(kept, splits, ends, splits[k]);
      }
    }
    assert InRegion(ends, c, t);
  }

  /** Marks in the order of their places. */
  predicate InOrder(marks: seq<nat>) {
    forall i, j | 0 <= i < j < |marks| :: marks[i] <= marks[j]
  }

  lemma RestOfMarks(marks: seq<nat>, ends: seq<nat>, ei: nat)
    requires InOrder(marks) && marks != []
    ensures var rest := SkipBelow(marks[1..], ends, ei);
      && InOrder(rest) && (forall k | 0 <= k < |rest| :: ei < |ends| && rest[k] >= ends[ei])
      && forall x | x in marks && x !in rest ::
           marks[0] <= x && (x == marks[0] || ei >= |ends| || x < ends[ei])
  {
    var rest := SkipBelow(marks[1..], ends, ei);
    SkippedBelow(marks[1..], ends, ei);
    var n := |marks| - |rest|;
    assert forall k | 0 <= k < |rest| :: rest[k] == marks[n + k];
    forall x | x in marks
      ensures x in rest || (marks[0] <= x && (x == marks[0] || ei >= |ends| || x < ends[ei]))
    {
      var k :| 0 <= k < |marks| && marks[k] == x;
      if k >= n {
        assert rest[k - n] == x;
      } else if k > 0 {
        assert x == marks[1..][k - 1];
      }
    }
  }

  lemma SameSpan(ends: seq<nat>, ei: nat, c: nat, m: nat)
    requires Rising(ends) && ei <= |ends| && c <= m && forall i | 0 <= i < ei :: ends[i] <= c
    requires m == c || ei == |ends| || m < ends[ei]
    ensures InRegion(ends, c, m)
  {
  }

  /** A mark in order is dropped only when a kept one lies in its region. */
  lemma {:induction false} MarksCovered(marks: seq<nat>, ends: seq<nat>, ei: nat, m: nat)
    requires Rising(ends) && InOrder(marks) && m in marks && ei <= |ends|
    requires forall i, k | 0 <= i < ei && 0 <= k < |marks| :: ends[i] <= marks[k]
    ensures exists c :: c in Kept(marks, ends, ei) && InRegion(ends, c, m)
    decreases |marks|
  {
    var rest := SkipBelow(marks[1..], ends, ei);
    RestOfMarks(marks, ends, ei);
    hide InOrder, SkipBelow, InRegion;
    if m in rest {
      assert forall i, k | 0 <= i < ei + 1 && 0 <= k < |rest| :: ends[i] <= rest[k] by {
        if rest != [] {
          assert forall i | 0 <= i < ei + 1 :: ends[i] <= ends[ei];
        }
      }
      hide Rising;
      MarksCovered(rest, ends, ei + 1, m);
      assert forall c | c in Kept(rest, ends, ei + 1) :: c in Kept(marks, ends, ei);
    } else {
      SameSpan(ends, ei, marks[0], m);
      assert marks[0] in Kept(marks, ends, ei);
    }
  }

  // ----- code starts -----

  /** The first splits at or behind code ends. */
  function FirstSplits(splits: seq<nat>, ends: seq<nat>): (v: seq<nat>)
    requires Rising(splits)
    ensures forall x :: x in v <==> exists i :: 0 <= i < |ends| && FirstFrom(splits, ends[i], x)
  {
    if ends == [] then []
    else
      var n := |ends| - 1;
      var it := LowerBound(splits, 0, ends[n]);
      assert forall x :: FirstFrom(splits, ends[n], x) <==> it < |splits| && x == splits[it];
      FirstSplits(splits, ends[..n]) + if it < |splits| then [splits[it]] else []
  }

  /** The code starts in order. */
  function StartPoints(kept: seq<nat>, splits: seq<nat>, ends: seq<nat>): (v: seq<nat>)
    requires Rising(splits)
    ensures Rising(v) && forall x :: x in v <==> IsStart(kept, splits, ends, x)
  {
    Sorted(kept + FirstSplits(splits, ends))
  }

  /** No split is left behind the later code ends. */
  lemma {:induction false} NoneLeft(splits: seq<nat>, ends: seq<nat>, k: nat, n: nat)
    requires Rising(splits) && Rising(ends) && k <= n <= |ends|
    requires k < |ends| ==> LowerBound(splits, 0, ends[k]) == |splits|
    ensures FirstSplits(splits, ends[..n]) == FirstSplits(splits, ends[..k])
  {
    if k < n {
      NoneLeft(splits, ends, k, n - 1);
      assert ends[..n][..n - 1] == ends[..n - 1];
    }
  }

  lemma LowerBoundFrom(v: seq<nat>, from: nat, x: nat)
    requires from <= |v| && Rising(v) && forall i | 0 <= i < from :: v[i] < x
    ensures LowerBound(v, from, x) == LowerBound(v, 0, x)
  {
    var a, b := LowerBound(v, from, x), LowerBound(v, 0, x);
    assert a < |v| ==> v[a] >= x;
    assert b < |v| ==> v[b] >= x;
  }

  /** Adds the code starts behind the code ends. */
  method CodeStarts(kept: seq<nat>, splits: seq<nat>, ends: seq<nat>) returns (starts: seq<nat>)
    requires Rising(splits) && Rising(ends)
    ensures starts == StartPoints(kept, splits, ends)
  {
    starts := kept;
    var splitIt := 0;
    var k := 0;
    while k < |ends|
      invariant 0 <= k <= |ends| && splitIt <= |splits|
      invariant forall i | 0 <= i < splitIt :: k > 0 && splits[i] < ends[k - 1]
      invariant starts == kept + FirstSplits(splits, ends[..k])
    {
      LowerBoundFrom(splits, splitIt, ends[k]);
      var it := LowerBound(splits, splitIt, ends[k]);
      assert forall i | 0 <= i < it :: splits[i] < ends[k];
      if it == |splits| {
        break;
      }
      assert ends[..k + 1][..k] == ends[..k];
      starts := starts + [splits[it]];
      splitIt := it;
      k := k + 1;
    }
    NoneLeft(splits, ends, k, |ends|);
    assert ends[..|ends|] == ends;
    starts := SortUnique(starts);
  }

  // ----- dividing a region into blocks -----

  /** Blocks that follow each other without gaps, from start up to end. */
  predicate Tiles(pieces: seq<Block>, start: nat, end: nat) {
    if pieces == [] then start == end
    else
      var last := pieces[|pieces| - 1];
      start <= last.start < last.end == end && last.nexts == [] && Tiles(pieces[..|pieces| - 1], start, last.start)
  }

  /** No split lies inside a block. */
  predicate Uncut(pieces: seq<Block>, splits: seq<nat>) {
    forall i, j | 0 <= i < |pieces| && 0 <= j < |splits| ::
      splits[j] <= pieces[i].start || splits[j] >= pieces[i].end
  }

  predicate EndsOnPoint(pieces: seq<Block>, splits: seq<nat>, end: nat) {
    forall i | 0 <= i < |pieces| :: pieces[i].end == end || pieces[i].end in splits
  }

  lemma PieceAdded(pieces: seq<Block>, splits: seq<nat>, codeStart: nat, start: nat, end: nat, codeEnd: nat)
    requires Tiles(pieces, codeStart, start) && Uncut(pieces, splits) && EndsOnPoint(pieces, splits, codeEnd)
    requires codeStart <= start < end && (end == codeEnd || end in splits)
    requires forall j | 0 <= j < |splits| :: splits[j] <= start || splits[j] >= end
    ensures var more := pieces + [Block(start, end, [])];
      Tiles(more, codeStart, end) && Uncut(more, splits) && EndsOnPoint(more, splits, codeEnd)
  {
    var more := pieces + [Block(start, end, [])];
    assert more[..|more| - 1] == pieces;
  }

  /** The splits before splitIt are those at or before a place. */
  predicate SplitHere(splits: seq<nat>, splitIt: nat, start: nat) {
    && splitIt <= |splits|
    && (forall i | 0 <= i < splitIt :: splits[i] <= start)
    && (forall i | splitIt <= i < |splits| :: splits[i] > start)
  }

  /** The end of the block that begins at start. */
  function PieceEnd(splits: seq<nat>, splitIt: nat, codeEnd: nat): nat {
    if splitIt < |splits| && splits[splitIt] < codeEnd then splits[splitIt] else codeEnd
  }

  lemma PieceEndIs(splits: seq<nat>, splitIt: nat, start: nat, codeEnd: nat)
    requires Rising(splits) && SplitHere(splits, splitIt, start) && start < codeEnd
    ensures var end := PieceEnd(splits, splitIt, codeEnd);
      && start < end <= codeEnd && (end == codeEnd || end in splits)
      && (forall j | 0 <= j < |splits| :: splits[j] <= start || splits[j] >= end)
      && (end < codeEnd ==> SplitHere(splits, splitIt + 1, end))
  {
    if splitIt < |splits| {
      assert forall j | splitIt < j < |splits| :: splits[j] > splits[splitIt];
    }
    hide Rising;
  }

  /** The number of splits below a place. */
  function Below(splits: seq<nat>, x: nat): nat
    requires Rising(splits)
  {
    LowerBound(splits, 0, x)
  }

  /** The last block of a region takes the split that its search stopped at. */
  lemma LastPiece(splits: seq<nat>, splitIt: nat, start: nat, codeEnd: nat)
    requires Rising(splits) && SplitHere(splits, splitIt, start) && start < codeEnd
    requires PieceEnd(splits, splitIt, codeEnd) == codeEnd
    ensures Min(splitIt + 1, |splits|) == Min(Below(splits, codeEnd) + 1, |splits|)
  {
    var b := Below(splits, codeEnd);
    assert b < |splits| ==> splits[b] >= codeEnd;
    assert splitIt < |splits| ==> splits[splitIt] >= codeEnd;
  }

  lemma RestHere(splits: seq<nat>, from: nat, start: nat)
    requires Rising(splits) && from <= |splits| && forall i | from <= i < |splits| :: splits[i] > start
    ensures Rising(splits[from..]) && SplitHere(splits[from..], 0, start)
  {
  }

  lemma NothingCut(splits: seq<nat>, start: nat, end: nat)
    ensures Tiles([], start, start) && Uncut([], splits) && EndsOnPoint([], splits, end)
  {
  }

  /** Cuts one region at the splits from splitIt0 on. */
  method CutFrom(splits: seq<nat>, splitIt0: nat, codeStart: nat, codeEnd: nat)
    returns (pieces: seq<Block>, splitIt: nat)
    requires Rising(splits) && codeStart < codeEnd && splitIt0 <= |splits|
    requires forall i | splitIt0 <= i < |splits| :: splits[i] > codeStart
    ensures Tiles(pieces, codeStart, codeEnd)
    ensures Uncut(pieces, splits[splitIt0..]) && EndsOnPoint(pieces, splits[splitIt0..], codeEnd)
    ensures Rising(splits[splitIt0..])
    ensures splitIt == splitIt0 + Min(Below(splits[splitIt0..], codeEnd) + 1, |splits| - splitIt0)
  {
    hide Tiles, Uncut, EndsOnPoint, SplitHere, Rising, LowerBound, Below;
    pieces := [];
    splitIt := splitIt0;
    var start := codeStart;
    ghost var rest := splits[splitIt0..];
    RestHere(splits, splitIt0, codeStart);
    NothingCut(rest, codeStart, codeEnd);
    while start < codeEnd
      invariant codeStart <= start <= codeEnd && splitIt0 <= splitIt <= |splits|
      invariant Tiles(pieces, codeStart, start) && Uncut(pieces, rest) && EndsOnPoint(pieces, rest, codeEnd)
      invariant start < codeEnd ==> SplitHere(rest, splitIt - splitIt0, start)
      invariant start == codeEnd ==> splitIt - splitIt0 == Min(Below(rest, codeEnd) + 1, |rest|)
    {
      ghost var at := splitIt - splitIt0;
      PieceEndIs(rest, at, start, codeEnd);
      if PieceEnd(rest, at, codeEnd) == codeEnd {
        LastPiece(rest, at, start, codeEnd);
      }
      PieceAdded(pieces, rest, codeStart, start, PieceEnd(rest, at, codeEnd), codeEnd);
      var end := codeEnd;
      if splitIt < |splits| {
        end := if splits[splitIt] < end then splits[splitIt] else end;
        splitIt := splitIt + 1;
      }
      pieces := pieces + [Block(start, end, [])];
      start := end;
    }
  }
}
