/** The set of code points where a register is live, kept as a map of intervals. */
module Liveness {

  /** Points from start up to but not including end. */
  datatype Interval = Interval(start: nat, end: nat)

  /** Intervals by rising start, none empty, no two overlapping or touching. */
  predicate Separate(l: seq<Interval>) {
    && (forall i | 0 <= i < |l| :: l[i].start < l[i].end)
    && (forall i, j | 0 <= i < j < |l| :: l[i].end < l[j].start)
  }

  ghost predicate Covers(l: seq<Interval>, p: int) {
    exists i :: 0 <= i < |l| && l[i].start <= p < l[i].end
  }

  /** The first entry whose start is at least k. */
  function LowerBound(l: seq<Interval>, k: int): (i: nat)
    requires Separate(l)
    ensures i <= |l|
    ensures forall j | 0 <= j < i :: l[j].start < k
    ensures forall j | i <= j < |l| :: l[j].start >= k
  {
    if l == [] || l[0].start >= k then 0
    else
      assert l == [l[0]] + l[1..];
      LowerBound(l[1..], k) + 1
  }

  /** The first entry whose start is above k. */
  function UpperBound(l: seq<Interval>, k: int): (i: nat)
    requires Separate(l)
    ensures i <= |l|
    ensures forall j | 0 <= j < i :: l[j].start <= k
    ensures forall j | i <= j < |l| :: l[j].start > k
  {
    LowerBound(l, k + 1)
  }

  /** The first interval that starts above k. */
  ghost predicate NextInside(l: seq<Interval>, k: nat, k2: nat)
    requires Separate(l)
  {
    var i := UpperBound(l, k);
    i < |l| && l[i].start <= k2
  }

  /** The new range ends behind the interval that it runs into. */
  ghost predicate Overruns(l: seq<Interval>, k: nat, k2: nat)
    requires Separate(l)
  {
    NextInside(l, k, k2) && l[UpperBound(l, k)].end < k2
  }

  function Erase(l: seq<Interval>, i: nat): seq<Interval>
    requires i < |l|
  {
    l[..i] + l[i + 1..]
  }

  /** The list after insert. */
  function Inserted(l: seq<Interval>, k: nat, k2: nat): seq<Interval>
    requires Separate(l)
  {
    var it := UpperBound(l, k);
    var meets := it < |l| && l[it].start <= k2;
    if it != 0 && l[it - 1].end >= k then
      if meets then Erase(l[it - 1 := Interval(l[it - 1].start, l[it].end)], it)
      else l[it - 1 := Interval(l[it - 1].start, if l[it - 1].end < k2 then k2 else l[it - 1].end)]
    else if meets then l[it := Interval(k, l[it].end)]
    else l[..it] + [Interval(k, k2)] + l[it..]
  }

  /** The list after expand. */
  function Expanded(l: seq<Interval>, k: nat): seq<Interval>
    requires Separate(l)
  {
    var i := LowerBound(l, k);
    if i == 0 then l
    else
      var end := if l[i - 1].end < k then k else l[i - 1].end;
      if i < |l| && l[i].start <= end then Erase(l[i - 1 := Interval(l[i - 1].start, l[i].end)], i)
      else l[i - 1 := Interval(l[i - 1].start, end)]
  }

  lemma CoversAt(l: seq<Interval>, i: nat, p: int)
    requires i < |l| && l[i].start <= p < l[i].end
    ensures Covers(l, p)
  {
  }

  // ----- the proofs -----

  lemma ExpandPoints(l0: seq<Interval>, k: nat)
    requires Separate(l0)
    ensures Separate(Expanded(l0, k))
    ensures var i := LowerBound(l0, k);
      forall p :: Covers(Expanded(l0, k), p) <==> Covers(l0, p) || (i > 0 && l0[i - 1].end <= p < k)
  {
    hide Covers;
    var i := LowerBound(l0, k);
    var l := Expanded(l0, k);
    if i > 0 {
      var it := i - 1;
      var end := if l0[it].end < k then k else l0[it].end;
      if i < |l0| && l0[i].start <= end {
        JoinedPoints(l0, it, l);
      } else {
        WidenedPoints(l0, it, l0[it].start, end, l);
        forall p ensures Covers(l, p) <==> Covers(l0, p) || l0[it].end <= p < k {
          if l0[it].start <= p < l0[it].end { CoversAt(l0, it, p); }
        }
      }
    }
  }

  lemma JoinedShape(l0: seq<Interval>, it: nat, l: seq<Interval>)
    requires Separate(l0) && it + 1 < |l0|
    requires l == Erase(l0[it := Interval(l0[it].start, l0[it + 1].end)], it + 1)
    ensures Separate(l)
    ensures |l| == |l0| - 1 && l[it] == Interval(l0[it].start, l0[it + 1].end)
    ensures forall i | 0 <= i < it :: l[i] == l0[i]
    ensures forall i | it < i < |l| :: l[i] == l0[i + 1]
    ensures forall i | it + 1 < i < |l0| :: l0[i] == l[i - 1]
  {
  }

  /** Joining two neighbours adds the points between them. */
  lemma JoinedPoints(l0: seq<Interval>, it: nat, l: seq<Interval>)
    requires Separate(l0) && it + 1 < |l0|
    requires l == Erase(l0[it := Interval(l0[it].start, l0[it + 1].end)], it + 1)
    ensures Separate(l)
    ensures forall p :: Covers(l, p) <==> Covers(l0, p) || l0[it].end <= p < l0[it + 1].start
  {
    JoinedShape(l0, it, l);
    forall p
      ensures Covers(l, p) <==> Covers(l0, p) || l0[it].end <= p < l0[it + 1].start
    {
      JoinedAt(l0, it, l, p);
    }
  }

  lemma JoinedAt(l0: seq<Interval>, it: nat, l: seq<Interval>, p: int)
    requires it + 1 < |l0| && l0[it].start < l0[it].end < l0[it + 1].start < l0[it + 1].end
    requires |l| == |l0| - 1 && l[it] == Interval(l0[it].start, l0[it + 1].end)
    requires forall i | 0 <= i < it :: l[i] == l0[i]
    requires forall i | it < i < |l| :: l[i] == l0[i + 1]
    requires forall i | it + 1 < i < |l0| :: l0[i] == l[i - 1]
    ensures Covers(l, p) <==> Covers(l0, p) || l0[it].end <= p < l0[it + 1].start
  {
    if Covers(l, p) {
      var i :| 0 <= i < |l| && l[i].start <= p < l[i].end;
      if i < it {
        CoversAt(l0, i, p);
      } else if i > it {
        CoversAt(l0, i + 1, p);
      } else if p < l0[it].end {
        CoversAt(l0, it, p);
      } else if p >= l0[it + 1].start {
        CoversAt(l0, it + 1, p);
      }
    }
    if Covers(l0, p) {
      var i :| 0 <= i < |l0| && l0[i].start <= p < l0[i].end;
      CoversAt(l, if i <= it then i else i - 1, p);
    }
    if l0[it].end <= p < l0[it + 1].start {
      CoversAt(l, it, p);
    }
  }

  /** Widening one interval within its gap adds just the points of the gap. */
  lemma WidenedPoints(l0: seq<Interval>, it: nat, start: nat, end: nat, l: seq<Interval>)
    requires Separate(l0) && it < |l0| && start <= l0[it].start && l0[it].end <= end
    requires l == l0[it := Interval(start, end)]
    requires it > 0 ==> l0[it - 1].end < start
    requires it + 1 < |l0| ==> end < l0[it + 1].start
    ensures Separate(l)
    ensures forall p :: Covers(l, p) <==> Covers(l0, p) || start <= p < end
  {
    forall p
      ensures Covers(l, p) <==> Covers(l0, p) || start <= p < end
    {
      WidenedAt(l0, it, start, end, l, p);
    }
  }

  lemma WidenedAt(l0: seq<Interval>, it: nat, start: nat, end: nat, l: seq<Interval>, p: int)
    requires it < |l0| && start <= l0[it].start && l0[it].end <= end
    requires l == l0[it := Interval(start, end)]
    ensures Covers(l, p) <==> Covers(l0, p) || start <= p < end
  {
    if Covers(l, p) {
      var i :| 0 <= i < |l| && l[i].start <= p < l[i].end;
      if i != it {
        CoversAt(l0, i, p);
      }
    }
    if Covers(l0, p) {
      var i :| 0 <= i < |l0| && l0[i].start <= p < l0[i].end;
      CoversAt(l, i, p);
    }
    if start <= p < end {
      CoversAt(l, it, p);
    }
  }

  lemma InsertedIndices(l0: seq<Interval>, it: nat, added: Interval, l: seq<Interval>)
    requires it <= |l0| && l == l0[..it] + [added] + l0[it..]
    ensures |l| == |l0| + 1 && l[it] == added
    ensures forall i | 0 <= i < it :: l[i] == l0[i]
    ensures forall i | it < i < |l| :: l[i] == l0[i - 1]
    ensures forall i | it <= i < |l0| :: l0[i] == l[i + 1]
  {
  }

  lemma InsertedSeparate(l0: seq<Interval>, it: nat, k: nat, k2: nat, l: seq<Interval>)
    requires Separate(l0) && it <= |l0| && k < k2
    requires it > 0 ==> l0[it - 1].end < k
    requires it < |l0| ==> k2 < l0[it].start
    requires |l| == |l0| + 1 && l[it] == Interval(k, k2)
    requires forall i | 0 <= i < it :: l[i] == l0[i]
    requires forall i | it < i < |l| :: l[i] == l0[i - 1]
    ensures Separate(l)
  {
    forall i, j | 0 <= i < j < |l| ensures l[i].end < l[j].start {
      if i < it {
        assert l0[i].end <= l0[it - 1].end < k;
      }
      if j > it {
        assert k2 < l0[it].start <= l0[j - 1].start;
      }
    }
  }

  /** A new interval in a gap adds its points. */
  lemma InsertedPoints(l0: seq<Interval>, it: nat, k: nat, k2: nat, l: seq<Interval>)
    requires Separate(l0) && it <= |l0| && k < k2
    requires l == l0[..it] + [Interval(k, k2)] + l0[it..]
    requires it > 0 ==> l0[it - 1].end < k
    requires it < |l0| ==> k2 < l0[it].start
    ensures Separate(l)
    ensures forall p :: Covers(l, p) <==> Covers(l0, p) || k <= p < k2
  {
    InsertedIndices(l0, it, Interval(k, k2), l);
    InsertedSeparate(l0, it, k, k2, l);
    forall p
      ensures Covers(l, p) <==> Covers(l0, p) || k <= p < k2
    {
      InsertedAt(l0, it, k, k2, l, p);
    }
  }

  lemma InsertedAt(l0: seq<Interval>, it: nat, k: nat, k2: nat, l: seq<Interval>, p: int)
    requires it <= |l0| && |l| == |l0| + 1 && l[it] == Interval(k, k2)
    requires forall i | 0 <= i < it :: l[i] == l0[i]
    requires forall i | it < i < |l| :: l[i] == l0[i - 1]
    requires forall i | it <= i < |l0| :: l0[i] == l[i + 1]
    ensures Covers(l, p) <==> Covers(l0, p) || k <= p < k2
  {
    if Covers(l, p) {
      var i :| 0 <= i < |l| && l[i].start <= p < l[i].end;
      if i != it {
        CoversAt(l0, if i < it then i else i - 1, p);
      }
    }
    if Covers(l0, p) {
      var i :| 0 <= i < |l0| && l0[i].start <= p < l0[i].end;
      CoversAt(l, if i < it then i else i + 1, p);
    }
    if k <= p < k2 {
      CoversAt(l, it, p);
    }
  }

  /** Where the inserted points end. */
  ghost function Reach(l: seq<Interval>, k: nat, k2: nat): nat
    requires Separate(l)
  {
    if Overruns(l, k, k2) then l[UpperBound(l, k)].end else k2
  }

  lemma InsertPoints(l0: seq<Interval>, k: nat, k2: nat)
    requires Separate(l0) && k < k2
    ensures Separate(Inserted(l0, k, k2))
    ensures forall p :: Covers(Inserted(l0, k, k2), p) <==> Covers(l0, p) || k <= p < Reach(l0, k, k2)
  {
    hide Covers;
    var it := UpperBound(l0, k);
    var l := Inserted(l0, k, k2);
    var meets := it < |l0| && l0[it].start <= k2;
    if it != 0 && l0[it - 1].end >= k {
      var prev := it - 1;
      if meets {
        JoinedPoints(l0, prev, l);
        forall p ensures Covers(l, p) <==> Covers(l0, p) || k <= p < Reach(l0, k, k2) {
          if k <= p < l0[prev].end { CoversAt(l0, prev, p); }
          if l0[it].start <= p < l0[it].end { CoversAt(l0, it, p); }
        }
      } else {
        var end := if l0[prev].end < k2 then k2 else l0[prev].end;
        WidenedPoints(l0, prev, l0[prev].start, end, l);
        forall p ensures Covers(l, p) <==> Covers(l0, p) || k <= p < Reach(l0, k, k2) {
          if l0[prev].start <= p < l0[prev].end { CoversAt(l0, prev, p); }
        }
      }
    } else if meets {
      WidenedPoints(l0, it, k, l0[it].end, l);
      forall p ensures Covers(l, p) <==> Covers(l0, p) || k <= p < Reach(l0, k, k2) {
        if l0[it].start <= p < l0[it].end { CoversAt(l0, it, p); }
      }
    } else {
      InsertedPoints(l0, it, k, k2, l);
    }
  }

  /** Inserting is set union exactly when the range does not overrun the next interval. */
  lemma InsertIsUnion(l0: seq<Interval>, k: nat, k2: nat)
    requires Separate(l0) && k < k2
    ensures (forall p :: Covers(Inserted(l0, k, k2), p) <==> Covers(l0, p) || k <= p < k2)
            <==> !Overruns(l0, k, k2)
  {
    InsertPoints(l0, k, k2);
    if Overruns(l0, k, k2) {
      var p := Reach(l0, k, k2);
      forall i | 0 <= i < |l0| ensures !(l0[i].start <= p < l0[i].end) {
      }
      assert !Covers(Inserted(l0, k, k2), p);
    }
  }

  /** A range that overruns the interval it runs into is cut off at that interval's end. */
  lemma InsertCanFallShort()
    ensures Separate([Interval(4, 6)]) && Overruns([Interval(4, 6)], 2, 9)
    ensures !Covers(Inserted([Interval(4, 6)], 2, 9), 7)
  {
    assert Inserted([Interval(4, 6)], 2, 9) == [Interval(2, 6)];
  }

  // ----- the container -----

  class Liveness {
    var l: seq<Interval>

    ghost predicate Valid()
      reads this
    {
      Separate(l)
    }

    constructor ()
      ensures Valid() && l == []
    {
      l := [];
    }

    method Clear()
      modifies this
      ensures Valid() && l == []
    {
      l := [];
    }

    /** Extends the last interval that starts below k up to k, joining it with the next one
        when they touch: adds just the points between its end and k. */
    method Expand(k: nat)
      requires Valid()
      modifies this
      ensures Valid() && l == Expanded(old(l), k)
      ensures var i := LowerBound(old(l), k);
        forall p :: Covers(l, p) <==> Covers(old(l), p) || (i > 0 && old(l)[i - 1].end <= p < k)
    {
      ExpandPoints(l, k);
      hide Covers, Separate;
      ghost var l0 := l;
      var it := LowerBound(l, k);
      if it != 0 {
        it := it - 1;
        l := l[it := Interval(l[it].start, if l[it].end < k then k else l[it].end)];
        if it + 1 < |l| && l[it + 1].start <= l[it].end {
          l := l[it := Interval(l[it].start, l[it + 1].end)];
          assert l == l0[it := Interval(l0[it].start, l0[it + 1].end)];
          l := Erase(l, it + 1);
        }
      }
    }

    /** Adds the points from k to k2; when the range overruns the interval it runs into, only
        the points up to that interval's end. */
    method Insert(k: nat, k2: nat)
      requires Valid() && k < k2
      modifies this
      ensures Valid() && l == Inserted(old(l), k, k2)
      ensures forall p :: Covers(l, p) <==> Covers(old(l), p) || k <= p < Reach(old(l), k, k2)
    {
      ghost var l0 := l;
      var it := UpperBound(l, k);
      var doCheckRight := false;
      if it != 0 {
        var prev := it - 1;
        if l[prev].end >= k {
          if it < |l| && l[it].start <= k2 {
            l := Erase(l[prev := Interval(l[prev].start, l[it].end)], it);
          } else {
            l := l[prev := Interval(l[prev].start, if l[prev].end < k2 then k2 else l[prev].end)];
          }
        } else {
          doCheckRight := true;
        }
      } else {
        doCheckRight := true;
      }
      if doCheckRight {
        if it < |l| && l[it].start <= k2 {
          l := l[it := Interval(k, l[it].end)];
        } else {
          l := l[..it] + [Interval(k, k2)] + l[it..];
        }
      }
      InsertPoints(l0, k, k2);
    }

    method Contain(t: nat) returns (r: bool)
      requires Valid()
      ensures r <==> Covers(l, t)
    {
      if l == [] {
        return false;
      }
      var it := LowerBound(l, t);
      if it == 0 && l[0].start > t {
        return false;
      }
      if it == |l| || l[it].start > t {
        it := it - 1;
      }
      r := l[it].start <= t < l[it].end;
      if !r {
        forall i | 0 <= i < |l| ensures !(l[i].start <= t < l[i].end) {
        }
      }
    }
  }
}
