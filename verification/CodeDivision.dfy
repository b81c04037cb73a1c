/** The division of all regions of code into basic blocks, and the splits that are passed over in it. */
module CodeDivision {
  import opened Bounds
  import opened CodePoints
  import opened CodeRegions

  // ----- one region -----

  /** Blocks by rising place, without overlaps. */
  predicate Ordered(blocks: seq<Block>) {
    && (forall i | 0 <= i < |blocks| :: blocks[i].start < blocks[i].end)
    && (forall i, j | 0 <= i < j < |blocks| :: blocks[i].end <= blocks[j].start)
  }

  predicate Holds(b: Block, o: nat) {
    b.start <= o < b.end
  }

  predicate InSome(blocks: seq<Block>, o: nat) {
    exists i :: 0 <= i < |blocks| && Holds(blocks[i], o)
  }

  predicate Unlinked(blocks: seq<Block>) {
    forall i | 0 <= i < |blocks| :: blocks[i].nexts == []
  }

  predicate Within(blocks: seq<Block>, lo: nat, hi: nat) {
    forall i | 0 <= i < |blocks| :: lo <= blocks[i].start && blocks[i].end <= hi
  }

  lemma InSomeAppend(a: seq<Block>, b: seq<Block>, o: nat)
    ensures InSome(a + b, o) <==> InSome(a, o) || InSome(b, o)
  {
    if InSome(a, o) {
      var i :| 0 <= i < |a| && Holds(a[i], o);
      assert Holds((a + b)[i], o);
    }
    if InSome(b, o) {
      var i :| 0 <= i < |b| && Holds(b[i], o);
      assert Holds((a + b)[|a| + i], o);
    }
  }

  lemma {:induction false} TilesOrdered(pieces: seq<Block>, start: nat, end: nat)
    requires Tiles(pieces, start, end)
    ensures start <= end && Ordered(pieces) && Unlinked(pieces) && Within(pieces, start, end)
  {
    if pieces != [] {
      TilesOrdered(pieces[..|pieces| - 1], start, pieces[|pieces| - 1].start);
    }
  }

  lemma InSomeSnoc(pieces: seq<Block>, o: nat)
    requires pieces != []
    ensures InSome(pieces, o) <==> InSome(pieces[..|pieces| - 1], o) || Holds(pieces[|pieces| - 1], o)
  {
    var n := |pieces| - 1;
    assert pieces == pieces[..n] + [pieces[n]];
    InSomeAppend(pieces[..n], [pieces[n]], o);
    assert Holds([pieces[n]][0], o) == Holds(pieces[n], o);
  }

  lemma {:induction false} TilesHold(pieces: seq<Block>, start: nat, end: nat, o: nat)
    requires Tiles(pieces, start, end)
    ensures start <= end && (InSome(pieces, o) <==> start <= o < end)
  {
    if pieces != [] {
      var n := |pieces| - 1;
      TilesHold(pieces[..n], start, pieces[n].start, o);
      hide InSome;
      InSomeSnoc(pieces, o);
    }
  }

  lemma {:induction false} TilesJoin(pieces: seq<Block>, start: nat, end: nat, i: nat)
    requires Tiles(pieces, start, end) && i < |pieces|
    ensures pieces[i].start == if i == 0 then start else pieces[i - 1].end
  {
    var n := |pieces| - 1;
    if i < n {
      TilesJoin(pieces[..n], start, pieces[n].start, i);
    } else if n > 0 {
      assert pieces[..n][n - 1] == pieces[n - 1];
    }
  }

  lemma StartsOnRest(pieces: seq<Block>, rest: seq<nat>, c: nat, e: nat, i: nat)
    requires Tiles(pieces, c, e) && EndsOnPoint(pieces, rest, e) && i < |pieces|
    ensures pieces[i].start == c || pieces[i].start in rest
  {
    TilesJoin(pieces, c, e, i);
    TilesOrdered(pieces, c, e);
  }

  /** A split that was passed over cuts some block. */
  lemma PassedIsInside(pieces: seq<Block>, splits: seq<nat>, from: nat, c: nat, e: nat, own: nat)
    requires Rising(splits) && from <= |splits| && Tiles(pieces, c, e) && EndsOnPoint(pieces, splits[from..], e)
    requires own < from && c < splits[own] < e
    ensures !Uncut(pieces, splits)
  {
    var x := splits[own];
    TilesHold(pieces, c, e, x);
    var i :| 0 <= i < |pieces| && Holds(pieces[i], x);
    StartsOnRest(pieces, splits[from..], c, e, i);
    hide Tiles, EndsOnPoint;
    assert pieces[i].start < x;
  }

  /** A region is cut at all its splits exactly when none of them was passed over before. */
  lemma RegionUncut(pieces: seq<Block>, splits: seq<nat>, passed: nat, from: nat, c: nat, e: nat)
    requires Rising(splits) && from <= |splits| && c < e && from == Max(passed, Below(splits, c + 1))
    requires Tiles(pieces, c, e) && Uncut(pieces, splits[from..]) && EndsOnPoint(pieces, splits[from..], e)
    ensures Uncut(pieces, splits) <==> !(Below(splits, c + 1) < passed && Below(splits, c + 1) < Below(splits, e))
  {
    var own := Below(splits, c + 1);
    if own < passed && own < Below(splits, e) {
      PassedIsInside(pieces, splits, from, c, e, own);
    } else {
      TilesOrdered(pieces, c, e);
      forall i, j | 0 <= i < |pieces| && 0 <= j < |splits|
        ensures splits[j] <= pieces[i].start || splits[j] >= pieces[i].end
      {
        if j >= from {
          assert splits[j] == splits[from..][j - from];
        }
      }
    }
  }

  lemma BelowIs(v: seq<nat>, x: nat, k: nat)
    requires Rising(v) && k <= |v| && (forall i | 0 <= i < k :: v[i] < x) && (k < |v| ==> v[k] >= x)
    ensures Below(v, x) == k
  {
    var b := Below(v, x);
    assert b < |v| ==> v[b] >= x;
  }

  lemma BelowAtMostAt(v: seq<nat>, x: nat, k: nat)
    requires Rising(v) && k <= |v| && (k < |v| ==> v[k] >= x)
    ensures Below(v, x) <= k
  {
    hide Rising;
  }

  /** Behind the split at the start of a region, all splits are behind that start. */
  lemma NextAbove(splits: seq<nat>, it: nat, passed: nat, c: nat, next: nat)
    requires Rising(splits) && passed <= it <= |splits|
    requires (forall i | passed <= i < it :: splits[i] < c) && (forall i | it <= i < |splits| :: splits[i] >= c)
    requires next == if it < |splits| && splits[it] == c then it + 1 else it
    ensures forall i | next <= i < |splits| :: splits[i] > c
    ensures passed < next ==> forall i | 0 <= i < next :: splits[i] <= c
  {
    if passed < next {
      assert splits[next - 1] <= c;
      assert forall i | 0 <= i < next - 1 :: splits[i] < splits[next - 1];
    }
  }

  /** The first split that is looked at in a region. */
  lemma FirstLooked(splits: seq<nat>, passed: nat, c: nat)
    requires Rising(splits) && passed <= |splits|
    ensures var it := LowerBound(splits, passed, c);
      var next := if it < |splits| && splits[it] == c then it + 1 else it;
      next == Max(passed, Below(splits, c + 1)) && forall i | next <= i < |splits| :: splits[i] > c
  {
    hide Rising, Below;
    var it := LowerBound(splits, passed, c);
    var next := if it < |splits| && splits[it] == c then it + 1 else it;
    NextAbove(splits, it, passed, c, next);
    hide LowerBound;
    if passed < next {
      BelowIs(splits, c + 1, next);
    } else {
      BelowAtMostAt(splits, c + 1, next);
    }
  }

  lemma BelowRest(splits: seq<nat>, from: nat, e: nat)
    requires Rising(splits) && from <= |splits|
    ensures Rising(splits[from..])
    ensures var b := Below(splits, e); Below(splits[from..], e) == if b <= from then 0 else b - from
  {
    var b, rest := Below(splits, e), splits[from..];
    assert b < |splits| ==> splits[b] >= e;
    assert forall i | 0 <= i < |rest| :: rest[i] == splits[from + i];
    assert Rising(rest);
    var k := if b <= from then 0 else b - from;
    assert forall i | 0 <= i < k :: rest[i] < e;
    hide Rising;
    if k < |rest| {
      assert rest[k] == splits[from + k] >= e by { RisesFrom(splits, b, from + k); }
    }
    BelowIs(rest, e, k);
  }

  lemma RisesFrom(v: seq<nat>, i: nat, j: nat)
    requires Rising(v) && i <= j < |v|
    ensures v[i] <= v[j]
  {
  }

  lemma BelowMonotone(v: seq<nat>, x: nat, y: nat)
    requires Rising(v) && x <= y
    ensures Below(v, x) <= Below(v, y)
  {
    var b := Below(v, y);
    assert b < |v| ==> v[b] >= y;
  }

  lemma BelowAtMost(splits: seq<nat>, x: nat)
    requires Rising(splits)
    ensures Below(splits, x) <= |splits|
  {
  }

  /** The splits that the next region finds. */
  lemma PassedOn(splits: seq<nat>, from: nat, passed: nat, c: nat, e: nat)
    requires Rising(splits) && from <= |splits| && c < e && from == Max(passed, Below(splits, c + 1))
    ensures Rising(splits[from..])
    ensures from + Min(Below(splits[from..], e) + 1, |splits| - from)
            == Min(|splits|, Max(passed, Below(splits, e)) + 1)
  {
    hide Rising;
    BelowRest(splits, from, e);
    BelowMonotone(splits, c + 1, e);
    BelowAtMost(splits, e);
    hide Below;
  }

  /** Divides one region, when splitIt0 splits were passed over before. It is cut at all its splits exactly
      when none of those behind its start is among them. */
  method DivideRegion(splits: seq<nat>, splitIt0: nat, codeStart: nat, codeEnd: nat)
    returns (pieces: seq<Block>, splitIt: nat)
    requires Rising(splits) && codeStart < codeEnd && splitIt0 <= |splits|
    ensures Tiles(pieces, codeStart, codeEnd) && EndsOnPoint(pieces, splits, codeEnd)
    ensures Uncut(pieces, splits) <==>
            !(Below(splits, codeStart + 1) < splitIt0 && Below(splits, codeStart + 1) < Below(splits, codeEnd))
    ensures splitIt == Min(|splits|, Max(splitIt0, Below(splits, codeEnd)) + 1)
  {
    hide Rising, Tiles, Uncut, Below;
    FirstLooked(splits, splitIt0, codeStart);
    splitIt := LowerBound(splits, splitIt0, codeStart);
    if splitIt < |splits| && splits[splitIt] == codeStart {
      splitIt := splitIt + 1;
    }
    ghost var from := splitIt;
    hide LowerBound;
    pieces, splitIt := CutFrom(splits, splitIt, codeStart, codeEnd);
    PassedOn(splits, from, splitIt0, codeStart, codeEnd);
    RegionUncut(pieces, splits, splitIt0, from, codeStart, codeEnd);
  }

  // ----- splits that are passed over -----

  /** Every code start has a code end behind it, before the next code start. */
  predicate Regular(splits: seq<nat>, ends: seq<nat>, starts: seq<nat>) {
    && Rising(splits) && Rising(ends) && Rising(starts)
    && (forall k | 0 <= k < |starts| :: HasEnd(ends, starts[k]))
    && (forall j, k | 0 <= j < k < |starts| :: NextEnd(ends, starts[j]) <= starts[k])
  }

  lemma GoodIsRegular(kept: seq<nat>, splits: seq<nat>, ends: seq<nat>, codeSize: nat)
    requires GoodPoints(kept, splits, ends, codeSize)
    ensures Regular(splits, ends, StartPoints(kept, splits, ends))
  {
    hide Apart, IsStart;
    var starts := StartPoints(kept, splits, ends);
    forall k | 0 <= k < |starts| ensures HasEnd(ends, starts[k]) {
      assert starts[k] in starts;
      StartInside(kept, splits, ends, codeSize, starts[k]);
    }
    forall j, k | 0 <= j < k < |starts| ensures NextEnd(ends, starts[j]) <= starts[k] {
      assert starts[j] in starts && starts[k] in starts;
      RegionsDisjoint(kept, splits, ends, codeSize, starts[j], starts[k]);
    }
  }

  /** The number of splits below the end of region k. */
  function BelowEnd(splits: seq<nat>, ends: seq<nat>, starts: seq<nat>, k: nat): nat
    requires Regular(splits, ends, starts) && k < |starts|
  {
    Below(splits, NextEnd(ends, starts[k]))
  }

  /** The number of splits up to the start of region k. */
  function UpToStart(splits: seq<nat>, ends: seq<nat>, starts: seq<nat>, k: nat): nat
    requires Regular(splits, ends, starts) && k < |starts|
  {
    Below(splits, starts[k] + 1)
  }

  /** The number of splits that are passed over before region k: with every region one more than lie
      below its end. */
  function PassedBefore(splits: seq<nat>, ends: seq<nat>, starts: seq<nat>, k: nat): (n: nat)
    requires Regular(splits, ends, starts) && k <= |starts|
    ensures n <= |splits|
  {
    if k == 0 then 0
    else Min(|splits|, Max(PassedBefore(splits, ends, starts, k - 1), BelowEnd(splits, ends, starts, k - 1)) + 1)
  }

  /** A split of region k, behind its start, was passed over before. */
  predicate LosesAt(splits: seq<nat>, ends: seq<nat>, starts: seq<nat>, k: nat)
    requires Regular(splits, ends, starts) && k < |starts|
  {
    var own := UpToStart(splits, ends, starts, k);
    own < PassedBefore(splits, ends, starts, k) && own < BelowEnd(splits, ends, starts, k)
  }

  /** Some region holds a split behind its start, and from the end of some earlier region up to that
      start there are fewer splits than code starts. */
  predicate LosesSplit(splits: seq<nat>, ends: seq<nat>, starts: seq<nat>)
    requires Regular(splits, ends, starts)
  {
    exists j, k | 0 <= j < k < |starts| ::
      && UpToStart(splits, ends, starts, k) < BelowEnd(splits, ends, starts, j) + (k - j)
      && UpToStart(splits, ends, starts, k) < BelowEnd(splits, ends, starts, k)
  }

  /** What has been passed over, counted from every earlier region. */
  lemma {:induction false} PassedBeyond(splits: seq<nat>, ends: seq<nat>, starts: seq<nat>, k: nat, a: nat)
    requires Regular(splits, ends, starts) && k <= |starts| && a < |splits|
    ensures PassedBefore(splits, ends, starts, k) > a
            <==> exists j :: 0 <= j < k && BelowEnd(splits, ends, starts, j) + (k - j) > a
  {
    hide Regular, BelowEnd;
    if k > 0 {
      assert BelowEnd(splits, ends, starts, k - 1) + 1 > a ==>
          BelowEnd(splits, ends, starts, k - 1) + (k - (k - 1)) > a;
      if a > 0 {
        PassedBeyond(splits, ends, starts, k - 1, a - 1);
      }
    }
  }

  /** Some region loses a split exactly when there are too few splits before one. */
  lemma LosesSomewhere(splits: seq<nat>, ends: seq<nat>, starts: seq<nat>)
    requires Regular(splits, ends, starts)
    ensures LosesSplit(splits, ends, starts) <==> exists k :: 0 <= k < |starts| && LosesAt(splits, ends, starts, k)
  {
    forall k | 0 <= k < |starts| && UpToStart(splits, ends, starts, k) < BelowEnd(splits, ends, starts, k)
      ensures LosesAt(splits, ends, starts, k) <==>
              exists j :: 0 <= j < k
                          && UpToStart(splits, ends, starts, k) < BelowEnd(splits, ends, starts, j) + (k - j)
    {
      BelowAtMost(splits, NextEnd(ends, starts[k]));
      PassedBeyond(splits, ends, starts, k, UpToStart(splits, ends, starts, k));
    }
    hide Regular, UpToStart, BelowEnd;
  }

  lemma BelowGrows(splits: seq<nat>, x: nat, s: nat)
    requires Rising(splits) && s in splits && x <= s
    ensures Below(splits, s + 1) >= Below(splits, x) + 1
  {
    var i :| 0 <= i < |splits| && splits[i] == s;
    assert Below(splits, x) <= i < Below(splits, s + 1);
  }

  lemma {:induction false} StartsAreSplits(splits: seq<nat>, ends: seq<nat>, starts: seq<nat>, j: nat, k: nat)
    requires Regular(splits, ends, starts) && j < k < |starts|
    requires forall i | 0 < i < |starts| :: starts[i] in splits
    ensures UpToStart(splits, ends, starts, k) >= BelowEnd(splits, ends, starts, j) + (k - j)
  {
    hide Rising, Below;
    if k == j + 1 {
      BelowGrows(splits, NextEnd(ends, starts[j]), starts[k]);
    } else {
      StartsAreSplits(splits, ends, starts, j, k - 1);
      assert starts[k - 1] + 1 <= NextEnd(ends, starts[k - 1]) <= starts[k];
      BelowGrows(splits, starts[k - 1] + 1, starts[k]);
    }
  }

  /** Without kept marks but the start of the code no split is passed over. */
  lemma NoMarksLoseNothing(splits: seq<nat>, ends: seq<nat>, codeSize: nat)
    requires GoodPoints([0], splits, ends, codeSize)
    ensures Regular(splits, ends, StartPoints([0], splits, ends))
    ensures !LosesSplit(splits, ends, StartPoints([0], splits, ends))
  {
    GoodIsRegular([0], splits, ends, codeSize);
    var starts := StartPoints([0], splits, ends);
    hide Regular, GoodPoints, StartPoints, LosesSplit, Apart;
    forall i | 0 < i < |starts| ensures starts[i] in splits {
      LaterIsSplit(splits, ends, starts, i);
    }
    NothingLost(splits, ends, starts);
  }

  lemma LaterIsSplit(splits: seq<nat>, ends: seq<nat>, starts: seq<nat>, i: nat)
    requires Rising(splits) && starts == StartPoints([0], splits, ends) && 0 < i < |starts|
    ensures starts[i] in splits
  {
    assert starts[i] in starts && starts[i] > starts[0];
  }

  lemma NothingLost(splits: seq<nat>, ends: seq<nat>, starts: seq<nat>)
    requires Regular(splits, ends, starts) && forall i | 0 < i < |starts| :: starts[i] in splits
    ensures !LosesSplit(splits, ends, starts)
  {
    hide Regular, UpToStart, BelowEnd;
    forall j, k | 0 <= j < k < |starts|
      ensures UpToStart(splits, ends, starts, k) >= BelowEnd(splits, ends, starts, j) + (k - j)
    {
      StartsAreSplits(splits, ends, starts, j, k);
    }
  }

  // ----- all regions -----

  /** What the blocks of the first regions are like. */
  ghost predicate Divided(blocks: seq<Block>, splits: seq<nat>, ends: seq<nat>, starts: seq<nat>, k: nat, bound: nat)
    requires Regular(splits, ends, starts) && k <= |starts|
  {
    && Ordered(blocks) && Unlinked(blocks) && Within(blocks, 0, bound) && Uncut(blocks, ends)
    && (Uncut(blocks, splits) <==> forall i | 0 <= i < k :: !LosesAt(splits, ends, starts, i))
    && (forall i | 0 <= i < |blocks| :: blocks[i].end in splits || blocks[i].end in ends)
    && (forall o: nat :: InSome(blocks, o) <==> exists j :: 0 <= j < k && InRegion(ends, starts[j], o))
  }

  /** The places that are covered by one region more. */
  lemma PlacesAdded(blocks: seq<Block>, ends: seq<nat>, starts: seq<nat>, k: nat, pieces: seq<Block>, o: nat)
    requires Rising(ends) && k < |starts| && HasEnd(ends, starts[k])
    requires Tiles(pieces, starts[k], NextEnd(ends, starts[k]))
    requires InSome(blocks, o) <==> exists j :: 0 <= j < k && InRegion(ends, starts[j], o)
    ensures InSome(blocks + pieces, o) <==> exists j :: 0 <= j < k + 1 && InRegion(ends, starts[j], o)
  {
    InSomeAppend(blocks, pieces, o);
    TilesHold(pieces, starts[k], NextEnd(ends, starts[k]), o);
    assert InRegion(ends, starts[k], o) <==> starts[k] <= o < NextEnd(ends, starts[k]);
    hide InSome, Tiles, InRegion;
  }

  /** The blocks are cut at every split as long as no region has lost one. */
  lemma CutsAdded(blocks: seq<Block>, splits: seq<nat>, ends: seq<nat>, starts: seq<nat>, k: nat, pieces: seq<Block>)
    requires Regular(splits, ends, starts) && k < |starts|
    requires Uncut(blocks, splits) <==> forall i | 0 <= i < k :: !LosesAt(splits, ends, starts, i)
    requires Uncut(pieces, splits) <==> !LosesAt(splits, ends, starts, k)
    ensures Uncut(blocks + pieces, splits) <==> forall i | 0 <= i < k + 1 :: !LosesAt(splits, ends, starts, i)
  {
    AddedUncut(blocks, pieces, splits);
    hide Uncut, LosesAt, Regular;
  }

  lemma RegionAdded(blocks: seq<Block>, splits: seq<nat>, ends: seq<nat>, starts: seq<nat>, k: nat, bound: nat,
                    pieces: seq<Block>)
    requires Regular(splits, ends, starts) && k < |starts| && Divided(blocks, splits, ends, starts, k, bound)
    requires bound <= starts[k]
    requires var codeEnd := NextEnd(ends, starts[k]);
      Tiles(pieces, starts[k], codeEnd) && EndsOnPoint(pieces, splits, codeEnd)
    requires Uncut(pieces, splits) <==> !LosesAt(splits, ends, starts, k)
    ensures Divided(blocks + pieces, splits, ends, starts, k + 1, NextEnd(ends, starts[k]))
  {
    hide Tiles, Ordered, Uncut, InSome, Within, InRegion, Rising, Below, LosesAt, UpToStart;
    var codeEnd := NextEnd(ends, starts[k]);
    TilesOrdered(pieces, starts[k], codeEnd);
    forall o: nat
      ensures InSome(blocks + pieces, o) <==> exists j :: 0 <= j < k + 1 && InRegion(ends, starts[j], o)
    {
      PlacesAdded(blocks, ends, starts, k, pieces, o);
    }
    CutsAdded(blocks, splits, ends, starts, k, pieces);
    hide Regular;
    PiecesUncut(pieces, ends, starts[k], codeEnd);
    AddedUncut(blocks, pieces, ends);
    AddedOrdered(blocks, pieces, bound, starts[k], codeEnd);
  }

  lemma AddedUncut(blocks: seq<Block>, pieces: seq<Block>, points: seq<nat>)
    ensures Uncut(blocks + pieces, points) <==> Uncut(blocks, points) && Uncut(pieces, points)
  {
    var all := blocks + pieces;
    assert forall i | 0 <= i < |blocks| :: all[i] == blocks[i];
    assert forall i | 0 <= i < |pieces| :: all[|blocks| + i] == pieces[i];
  }

  lemma PiecesUncut(pieces: seq<Block>, ends: seq<nat>, start: nat, end: nat)
    requires Within(pieces, start, end)
    requires forall i | 0 <= i < |ends| :: ends[i] > start ==> ends[i] >= end
    ensures Uncut(pieces, ends)
  {
  }

  lemma AddedOrdered(blocks: seq<Block>, pieces: seq<Block>, bound: nat, start: nat, end: nat)
    requires Ordered(blocks) && Ordered(pieces) && Within(blocks, 0, bound) && Within(pieces, start, end)
    requires bound <= start <= end
    ensures Ordered(blocks + pieces) && Within(blocks + pieces, 0, end)
  {
  }

  lemma RegularAt(splits: seq<nat>, ends: seq<nat>, starts: seq<nat>, k: nat)
    requires Regular(splits, ends, starts) && k < |starts|
    ensures Rising(splits) && Rising(ends) && HasEnd(ends, starts[k]) && NextEnd(ends, starts[k]) > starts[k]
    ensures k + 1 < |starts| ==> NextEnd(ends, starts[k]) <= starts[k + 1]
  {
  }

  lemma NothingDivided(splits: seq<nat>, ends: seq<nat>, starts: seq<nat>)
    requires Regular(splits, ends, starts)
    ensures Divided([], splits, ends, starts, 0, 0)
  {
  }

  /** Divides all regions into blocks. They are cut at every split exactly when no region loses one. */
  method Divide(splits: seq<nat>, ends: seq<nat>, starts: seq<nat>) returns (blocks: seq<Block>)
    requires Regular(splits, ends, starts)
    ensures exists bound :: Divided(blocks, splits, ends, starts, |starts|, bound)
  {
    hide Divided, Regular, Rising, Tiles, Uncut, EndsOnPoint, Below, LowerBound, HasEnd;
    blocks := [];
    var splitIt := 0;
    ghost var bound := 0;
    NothingDivided(splits, ends, starts);
    for k := 0 to |starts|
      invariant splitIt == PassedBefore(splits, ends, starts, k)
      invariant Divided(blocks, splits, ends, starts, k, bound)
      invariant k < |starts| ==> bound <= starts[k]
    {
      RegularAt(splits, ends, starts, k);
      var codeEnd := NextEnd(ends, starts[k]);
      var pieces;
      pieces, splitIt := DivideRegion(splits, splitIt, starts[k], codeEnd);
      RegionAdded(blocks, splits, ends, starts, k, bound, pieces);
      blocks := blocks + pieces;
      bound := codeEnd;
    }
  }
}
