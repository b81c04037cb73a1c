/** Live ranges inside one code block, filled while its register usages are read. */
module BlockLiveness {
  import opened L = Liveness

  // ----- one SSA version -----

  /** An access to one version. */
  datatype Access = Read(time: nat) | Write(time: nat)

  /** Accesses in program order; an instruction reads before it writes. */
  predicate InOrder(evs: seq<Access>, start: nat) {
    && (forall i | 0 <= i < |evs| :: evs[i].time >= start)
    && (forall i, j | 0 <= i < j < |evs| ::
          evs[i].time <= evs[j].time && (evs[i].Write? && evs[j].Read? ==> evs[i].time < evs[j].time))
  }

  /** The range after the accesses: the first read begins it at the block's start, later
      reads extend it, a write starts it anew behind the instruction. */
  function Ranges(evs: seq<Access>, start: nat): seq<Interval>
    requires InOrder(evs, start)
    ensures Separate(Ranges(evs, start))
  {
    if evs == [] then []
    else
      var n := |evs| - 1;
      var l := Ranges(evs[..n], start);
      Accessed(l, n == 0, evs[n], start)
  }

  function Accessed(l: seq<Interval>, first: bool, ev: Access, start: nat): (r: seq<Interval>)
    requires Separate(l) && ev.time >= start
    ensures Separate(r)
  {
    match ev
    case Read(t) =>
      if first then
        InsertPoints(l, start, t + 1);
        Inserted(l, start, t + 1)
      else
        ExpandPoints(l, t + 1);
        Expanded(l, t + 1)
    case Write(t) =>
      InsertPoints(l, t + 1, t + 2);
      Inserted(l, t + 1, t + 2)
  }

  /** Where the value read by the next access begins: behind the last write, or at the start
      of the block. */
  function Definition(evs: seq<Access>, start: nat): nat {
    if evs == [] then start
    else if evs[|evs| - 1].Write? then evs[|evs| - 1].time + 1
    else Definition(evs[..|evs| - 1], start)
  }

  /** A point is live when it follows a write directly, or lies between the definition of a
      read value and the read. */
  ghost predicate LiveAt(evs: seq<Access>, start: nat, p: int) {
    exists i :: 0 <= i < |evs| && LiveFor(evs, start, i, p)
  }

  ghost predicate LiveFor(evs: seq<Access>, start: nat, i: nat, p: int)
    requires i < |evs|
  {
    match evs[i]
    case Write(t) => p == t + 1
    case Read(t) => Definition(evs[..i], start) <= p <= t
  }

  /** One past the last live point after an access. */
  function Horizon(ev: Access): nat {
    match ev
    case Read(t) => t + 1
    case Write(t) => t + 2
  }

  /** Reads at t or later see a definition at or before t. */
  lemma {:induction false} DefinitionAtMost(evs: seq<Access>, start: nat, t: nat)
    requires t >= start
    requires forall i | 0 <= i < |evs| :: evs[i].Write? ==> evs[i].time < t
    ensures Definition(evs, start) <= t
  {
    if evs != [] && evs[|evs| - 1].Read? {
      DefinitionAtMost(evs[..|evs| - 1], start, t);
    }
  }

  lemma {:induction false} DefinitionBefore(evs: seq<Access>, start: nat)
    requires InOrder(evs, start) && evs != []
    ensures Definition(evs, start) <= evs[|evs| - 1].time + 1
    ensures Definition(evs, start) < Horizon(evs[|evs| - 1])
  {
    var n := |evs| - 1;
    if evs[n].Read? {
      DefinitionAtMost(evs[..n], start, evs[n].time);
    }
  }

  /** The last interval holds the current definition and ends at the horizon. */
  ghost predicate Tail(l: seq<Interval>, evs: seq<Access>, start: nat) {
    if evs == [] then l == []
    else l != [] && l[|l| - 1].start <= Definition(evs, start) && l[|l| - 1].end == Horizon(evs[|evs| - 1])
  }

  lemma LiveSnoc(evs: seq<Access>, start: nat, p: int)
    requires evs != []
    ensures var n := |evs| - 1;
      LiveAt(evs, start, p) <==> LiveAt(evs[..n], start, p) || LiveFor(evs, start, n, p)
  {
    var n := |evs| - 1;
    forall i | 0 <= i < n ensures LiveFor(evs, start, i, p) == LiveFor(evs[..n], start, i, p) {
      assert evs[..n][..i] == evs[..i];
    }
  }

  lemma LastBounds(l: seq<Interval>, k: nat)
    requires Separate(l) && l != []
    ensures l[|l| - 1].start < k ==> LowerBound(l, k) == |l|
    ensures l[|l| - 1].start <= k ==> UpperBound(l, k) == |l|
  {
  }

  lemma WriteInsertsShape(l: seq<Interval>, t: nat)
    requires Separate(l)
    requires l != [] ==> l[|l| - 1].start <= t + 1 && l[|l| - 1].end <= t + 2
    ensures var l' := Inserted(l, t + 1, t + 2);
      l' != [] && l'[|l'| - 1].start <= t + 1 && l'[|l'| - 1].end == t + 2
    ensures UpperBound(l, t + 1) == |l|
  {
    if l != [] {
      LastBounds(l, t + 1);
      hide Separate;
    }
  }

  /** Inserting behind a write adds one point. */
  lemma WriteInserts(l: seq<Interval>, t: nat)
    requires Separate(l)
    requires l != [] ==> l[|l| - 1].start <= t + 1 && l[|l| - 1].end <= t + 2
    ensures var l' := Inserted(l, t + 1, t + 2);
      l' != [] && l'[|l'| - 1].start <= t + 1 && l'[|l'| - 1].end == t + 2
      && forall p :: Covers(l', p) <==> Covers(l, p) || p == t + 1
  {
    hide Covers, Inserted, Separate;
    WriteInsertsShape(l, t);
    InsertPoints(l, t + 1, t + 2);
    assert Reach(l, t + 1, t + 2) == t + 2;
  }

  lemma WriteStep(l: seq<Interval>, evs: seq<Access>, start: nat)
    requires InOrder(evs, start) && evs != [] && evs[|evs| - 1].Write?
    requires Separate(l) && Tail(l, evs[..|evs| - 1], start)
    ensures var n := |evs| - 1; var l' := Accessed(l, n == 0, evs[n], start);
      Tail(l', evs, start) &&
      forall p :: Covers(l', p) <==> Covers(l, p) || p == evs[n].time + 1
  {
    hide Covers, Inserted;
    var n := |evs| - 1;
    if n > 0 {
      DefinitionBefore(evs[..n], start);
      assert evs[..n][n - 1] == evs[n - 1];
    }
    WriteInserts(l, evs[n].time);
  }

  lemma FirstReadStep(evs: seq<Access>, start: nat)
    requires InOrder(evs, start) && |evs| == 1 && evs[0].Read?
    ensures var l := Accessed([], true, evs[0], start);
      Tail(l, evs, start) &&
      forall p :: Covers(l, p) <==> Covers([], p) || Definition(evs[..0], start) <= p <= evs[0].time
  {
    var t := evs[0].time;
    InsertPoints([], start, t + 1);
    assert Accessed([], true, evs[0], start) == [Interval(start, t + 1)];
    assert Definition(evs[..0], start) == start;
    assert evs[..|evs| - 1] == [];
  }

  lemma LaterReadStep(l: seq<Interval>, evs: seq<Access>, start: nat)
    requires InOrder(evs, start) && |evs| > 1 && evs[|evs| - 1].Read?
    requires Separate(l) && Tail(l, evs[..|evs| - 1], start)
    ensures var n := |evs| - 1; var l' := Accessed(l, false, evs[n], start);
      Tail(l', evs, start) &&
      forall p :: Covers(l', p) <==> Covers(l, p) || Definition(evs[..n], start) <= p <= evs[n].time
  {
    hide Covers, Expanded, Separate;
    var n := |evs| - 1;
    var t := evs[n].time;
    var before := evs[..n];
    var d := Definition(before, start);
    var last := l[|l| - 1];
    assert before[n - 1] == evs[n - 1];
    DefinitionBefore(before, start);
    DefinitionAtMost(before, start, t);
    assert Definition(evs, start) == d;
    assert d <= t && d < last.end <= t + 1 && last.start <= d by {
      assert evs[n - 1].time <= t && (evs[n - 1].Write? ==> evs[n - 1].time < t);
    }
    ReadExtends(l, last, d, t);
  }

  lemma ReadExtendsShape(l: seq<Interval>, t: nat)
    requires Separate(l) && l != [] && l[|l| - 1].start <= t && l[|l| - 1].end <= t + 1
    ensures LowerBound(l, t + 1) == |l|
    ensures Expanded(l, t + 1) == l[|l| - 1 := Interval(l[|l| - 1].start, t + 1)]
  {
    LastBounds(l, t + 1);
    hide Separate;
  }

  /** Expanding to a read adds the points between the last interval and the read. */
  lemma ReadExtends(l: seq<Interval>, last: Interval, d: nat, t: nat)
    requires Separate(l) && l != [] && last == l[|l| - 1]
    requires last.start <= d < last.end <= t + 1
    ensures var l' := Expanded(l, t + 1);
      l' != [] && l'[|l'| - 1] == Interval(last.start, t + 1)
      && forall p :: Covers(l', p) <==> Covers(l, p) || d <= p <= t
  {
    hide Separate, Expanded, Covers;
    var l' := Expanded(l, t + 1);
    ReadExtendsShape(l, t);
    ExpandPoints(l, t + 1);
    forall p ensures Covers(l', p) <==> Covers(l, p) || d <= p <= t {
      if d <= p < last.end {
        CoversAt(l, |l| - 1, p);
      }
    }
  }

  /** MAIN, for one version: its range holds exactly the points where it is live. */
  lemma {:induction false} RangesAreExact(evs: seq<Access>, start: nat)
    requires InOrder(evs, start)
    ensures Tail(Ranges(evs, start), evs, start)
    ensures forall p :: Covers(Ranges(evs, start), p) <==> LiveAt(evs, start, p)
  {
    if evs != [] {
      var n := |evs| - 1;
      var l := Ranges(evs[..n], start);
      RangesAreExact(evs[..n], start);
      if evs[n].Write? {
        WriteStep(l, evs, start);
      } else if n == 0 {
        FirstReadStep(evs, start);
      } else {
        LaterReadStep(l, evs, start);
      }
      forall p ensures Covers(Ranges(evs, start), p) <==> LiveAt(evs, start, p) {
        LiveSnoc(evs, start, p);
      }
    }
  }
}
