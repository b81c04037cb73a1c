/** The flow graph of basic blocks: the successors that flow entries give to the blocks, and their
    reduction to sorted lists without repetitions. */
module CodeEdges {
  import opened CodePoints
  import opened CodeRegions
  import opened CodeDivision

  /** The first block that starts at or behind a place. */
  function LowerStart(blocks: seq<Block>, x: nat): (k: nat)
    requires Ordered(blocks)
    ensures k <= |blocks|
    ensures forall i | 0 <= i < k :: blocks[i].start < x
    ensures forall i | k <= i < |blocks| :: blocks[i].start >= x
  {
    if blocks == [] || blocks[0].start >= x then 0
    else
      assert blocks == [blocks[0]] + blocks[1..];
      LowerStart(blocks[1..], x) + 1
  }

  /** The successors that a flow entry gives to block b. */
  function EdgesOf(blocks: seq<Block>, sizes: Sizes, e: FlowEntry, b: nat): seq<Next>
    requires Ordered(blocks)
  {
    var it := LowerStart(blocks, e.target);
    if !Transfers(e) || it == |blocks| || blocks[it].start != e.target then []
    else if LowerStart(blocks, After(sizes, e)) != b + 1 then []
    else if e.kind.CJUMP? && b + 1 < |blocks| then [Next(it, false), Next(b + 1, false)]
    else [Next(it, e.kind.CALL?)]
  }

  function EdgesUpTo(blocks: seq<Block>, sizes: Sizes, flow: seq<FlowEntry>, k: nat, b: nat): seq<Next>
    requires Ordered(blocks) && k <= |flow|
  {
    if k == 0 then [] else EdgesUpTo(blocks, sizes, flow, k - 1, b) + EdgesOf(blocks, sizes, flow[k - 1], b)
  }

  lemma {:induction false} EdgeIsIn(blocks: seq<Block>, sizes: Sizes, flow: seq<FlowEntry>, k: nat, b: nat, n: Next,
                                    i: nat)
    requires Ordered(blocks) && i < k <= |flow| && n in EdgesOf(blocks, sizes, flow[i], b)
    ensures n in EdgesUpTo(blocks, sizes, flow, k, b)
  {
    hide Ordered, EdgesOf;
    if i < k - 1 {
      EdgeIsIn(blocks, sizes, flow, k - 1, b, n, i);
    }
  }

  lemma {:induction false} EdgeSource(blocks: seq<Block>, sizes: Sizes, flow: seq<FlowEntry>, k: nat, b: nat, n: Next)
    returns (i: nat)
    requires Ordered(blocks) && k <= |flow| && n in EdgesUpTo(blocks, sizes, flow, k, b)
    ensures i < k && n in EdgesOf(blocks, sizes, flow[i], b)
  {
    hide Ordered, EdgesOf;
    if n in EdgesOf(blocks, sizes, flow[k - 1], b) {
      i := k - 1;
    } else {
      i := EdgeSource(blocks, sizes, flow, k - 1, b, n);
    }
  }

  /** The same places. */
  predicate SamePlaces(a: seq<Block>, b: seq<Block>) {
    |a| == |b| && forall i | 0 <= i < |a| :: a[i].start == b[i].start && a[i].end == b[i].end
  }

  lemma {:induction false} SameLowerStart(a: seq<Block>, b: seq<Block>, x: nat)
    requires Ordered(a) && SamePlaces(a, b)
    ensures Ordered(b) && LowerStart(a, x) == LowerStart(b, x)
  {
    if a != [] && a[0].start < x {
      SameLowerStart(a[1..], b[1..], x);
    }
  }

  /** The blocks after k flow entries. */
  predicate LinkedUpTo(blocks0: seq<Block>, sizes: Sizes, flow: seq<FlowEntry>, k: nat, blocks: seq<Block>)
    requires Ordered(blocks0) && k <= |flow|
  {
    && |blocks| == |blocks0|
    && (forall b | 0 <= b < |blocks| :: blocks[b] == blocks0[b].(nexts := EdgesUpTo(blocks0, sizes, flow, k, b)))
  }

  lemma EntryAddsNothing(blocks0: seq<Block>, sizes: Sizes, flow: seq<FlowEntry>, k: nat, blocks: seq<Block>)
    requires Ordered(blocks0) && k < |flow| && LinkedUpTo(blocks0, sizes, flow, k, blocks)
    requires forall b | 0 <= b < |blocks| :: EdgesOf(blocks0, sizes, flow[k], b) == []
    ensures LinkedUpTo(blocks0, sizes, flow, k + 1, blocks)
  {
    hide Ordered, EdgesOf;
  }

  lemma EntryAdds(blocks0: seq<Block>, sizes: Sizes, flow: seq<FlowEntry>, k: nat, blocks: seq<Block>, cur: nat)
    requires Ordered(blocks0) && k < |flow| && LinkedUpTo(blocks0, sizes, flow, k, blocks) && cur < |blocks|
    requires forall b | 0 <= b < |blocks| && b != cur :: EdgesOf(blocks0, sizes, flow[k], b) == []
    ensures var nexts := blocks[cur].nexts + EdgesOf(blocks0, sizes, flow[k], cur);
      LinkedUpTo(blocks0, sizes, flow, k + 1, blocks[cur := blocks[cur].(nexts := nexts)])
  {
    hide Ordered, EdgesOf;
  }

  lemma EdgesShape(blocks: seq<Block>, sizes: Sizes, e: FlowEntry, it: nat, it2: nat)
    requires Ordered(blocks) && it == LowerStart(blocks, e.target) && it2 == LowerStart(blocks, After(sizes, e))
    ensures it <= |blocks| && it2 <= |blocks|
    ensures forall b: nat :: EdgesOf(blocks, sizes, e, b) ==
              if !Transfers(e) || it == |blocks| || blocks[it].start != e.target || b + 1 != it2 then []
              else [Next(it, e.kind.CALL?)] + if it2 < |blocks| && e.kind.CJUMP? then [Next(it2, false)] else []
  {
    hide Ordered, LowerStart, After;
  }

  lemma SourceExists(blocks: seq<Block>, x: nat)
    requires Ordered(blocks) && blocks != [] && blocks[0].start == 0 && x > 0
    ensures LowerStart(blocks, x) > 0
  {
  }

  method AddEntry(ghost blocks0: seq<Block>, sizes: Sizes, flow: seq<FlowEntry>, k: nat, blocks: seq<Block>)
    returns (blocks': seq<Block>)
    requires Ordered(blocks0) && Ordered(blocks) && blocks0 != [] && blocks0[0].start == 0
    requires k < |flow| && LinkedUpTo(blocks0, sizes, flow, k, blocks) && SamePlaces(blocks0, blocks)
    requires Transfers(flow[k]) ==> After(sizes, flow[k]) > 0
    ensures LinkedUpTo(blocks0, sizes, flow, k + 1, blocks')
  {
    var e := flow[k];
    SameLowerStart(blocks0, blocks, e.target);
    SameLowerStart(blocks0, blocks, After(sizes, e));
    hide LowerStart, EdgesOf, Ordered, LinkedUpTo, After;
    blocks' := blocks;
    var it := LowerStart(blocks, e.target);
    var it2 := LowerStart(blocks, After(sizes, e));
    EdgesShape(blocks0, sizes, e, it, it2);
    if Transfers(e) && it < |blocks| && blocks[it].start == e.target {
      SourceExists(blocks0, After(sizes, e));
      var cur := it2 - 1;
      EntryAdds(blocks0, sizes, flow, k, blocks, cur);
      var nexts := blocks[cur].nexts + ([Next(it, e.kind.CALL?)]
                   + if it2 < |blocks| && e.kind.CJUMP? then [Next(it2, false)] else []);
      blocks' := blocks[cur := blocks[cur].(nexts := nexts)];
    } else {
      EntryAddsNothing(blocks0, sizes, flow, k, blocks);
    }
  }

  /** Adds the successors entry by entry. */
  method AddEdges(blocks0: seq<Block>, sizes: Sizes, flow: seq<FlowEntry>) returns (blocks: seq<Block>)
    requires Ordered(blocks0) && Unlinked(blocks0) && blocks0 != [] && blocks0[0].start == 0
    requires forall i | 0 <= i < |flow| && Transfers(flow[i]) :: After(sizes, flow[i]) > 0
    ensures LinkedUpTo(blocks0, sizes, flow, |flow|, blocks)
  {
    blocks := blocks0;
    assert LinkedUpTo(blocks0, sizes, flow, 0, blocks);
    hide LinkedUpTo, Ordered, After;
    for k := 0 to |flow|
      invariant LinkedUpTo(blocks0, sizes, flow, k, blocks)
    {
      LinkedPlaces(blocks0, sizes, flow, k, blocks);
      SameLowerStart(blocks0, blocks, 0);
      blocks := AddEntry(blocks0, sizes, flow, k, blocks);
    }
  }

  lemma LinkedPlaces(blocks0: seq<Block>, sizes: Sizes, flow: seq<FlowEntry>, k: nat, blocks: seq<Block>)
    requires Ordered(blocks0) && k <= |flow| && LinkedUpTo(blocks0, sizes, flow, k, blocks)
    ensures SamePlaces(blocks0, blocks)
  {
    hide Ordered;
  }

  /** Calls behind the others, then by block. */
  predicate NextLess(a: Next, b: Next) {
    (!a.isCall && b.isCall) || (a.isCall == b.isCall && a.block < b.block)
  }

  /** No call before another successor, and each kind by rising block. */
  predicate NextsSorted(v: seq<Next>) {
    forall i, j | 0 <= i < j < |v| ::
      && !(v[i].isCall && !v[j].isCall)
      && (v[i].isCall == v[j].isCall ==> v[i].block < v[j].block)
  }

  /** Sorting the successors and removing repetitions. */
  method ReduceNexts(v: seq<Next>) returns (r: seq<Next>)
    ensures NextsSorted(r) && forall n :: n in r <==> n in v
  {
    r := [];
    for k := 0 to |v|
      invariant NextsSorted(r) && forall n :: n in r <==> n in v[..k]
    {
      assert v[..k + 1] == v[..k] + [v[k]];
      var i := 0;
      while i < |r| && NextLess(r[i], v[k])
        invariant 0 <= i <= |r| && forall j | 0 <= j < i :: NextLess(r[j], v[k])
      {
        i := i + 1;
      }
      if i == |r| || r[i] != v[k] {
        NextPlaced(r, i, v[k]);
        r := r[..i] + [v[k]] + r[i..];
      }
    }
    assert v[..|v|] == v;
  }

  lemma NextPlaced(r: seq<Next>, i: nat, n: Next)
    requires NextsSorted(r) && i <= |r| && (forall j | 0 <= j < i :: NextLess(r[j], n))
    requires i < |r| ==> !NextLess(r[i], n) && r[i] != n
    ensures var q := r[..i] + [n] + r[i..]; NextsSorted(q) && forall m :: m in q <==> m in r || m == n
  {
    var q := r[..i] + [n] + r[i..];
    NextAt(r, i, n, q);
    NextOrder(r, i, n, q);
    hide NextsSorted;
  }

  lemma NextAt(r: seq<Next>, i: nat, n: Next, q: seq<Next>)
    requires i <= |r| && q == r[..i] + [n] + r[i..]
    ensures |q| == |r| + 1 && q[i] == n
    ensures forall k | 0 <= k < i :: q[k] == r[k]
    ensures forall k | i < k < |q| :: q[k] == r[k - 1]
    ensures forall m :: m in q <==> m in r || m == n
  {
    assert r == r[..i] + r[i..];
  }

  lemma NextOrder(r: seq<Next>, i: nat, n: Next, q: seq<Next>)
    requires NextsSorted(r) && i <= |r| && |q| == |r| + 1 && q[i] == n
    requires forall k | 0 <= k < i :: q[k] == r[k]
    requires forall k | i < k < |q| :: q[k] == r[k - 1]
    requires forall j | 0 <= j < i :: NextLess(r[j], n)
    requires i < |r| ==> NextLess(n, r[i])
    ensures NextsSorted(q)
  {
    forall j, k | 0 <= j < k < |q| ensures NextLess(q[j], q[k]) {
      if j == i && k > i + 1 {
        assert NextLess(r[i], r[k - 1]);
      }
    }
  }
}
