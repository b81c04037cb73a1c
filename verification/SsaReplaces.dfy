/** The closure of SSA id replacements: replacements are links between ids, the components of these
    links are walked one after the other, and all ids of a component, which are those that a chain of
    replacements connects, get the least replacement id in it. */
module SsaReplaces {
  import opened Bounds
  import opened SsaTraversal

  // ----- all components -----

  /** The node has the least of the ids that its component had. */
  ghost predicate LeastFor(links: Links, ids0: Ids, ids: Ids, n: nat)
    requires ids0.Keys == ids.Keys
  {
    n in ids && forall w | w in ids0 && Connected(links, n, w) :: ids[n] <= ids0[w]
  }

  ghost predicate FromOwnComponents(links: Links, ids0: Ids, ids: Ids) {
    && ids.Keys == ids0.Keys == links.Keys
    && (forall n | n in ids :: FromComponent(links, ids0, n, ids[n]))
    && (forall n | n in ids :: ids[n] <= ids0[n] <= SIZE_MAX)
  }

  /** Gives all visited nodes the id. */
  method Fill(ids: Ids, visited: set<nat>, id: nat) returns (ids': Ids)
    requires visited <= ids.Keys
    ensures ids'.Keys == ids.Keys
    ensures forall n | n in ids :: ids'[n] == if n in visited then id else ids[n]
  {
    ids' := ids;
    var rest := visited;
    while rest != {}
      invariant rest <= visited && ids'.Keys == ids.Keys
      invariant forall n | n in ids && n !in rest :: ids'[n] == if n in visited then id else ids[n]
      invariant forall n | n in rest :: ids'[n] == ids[n]
      decreases rest
    {
      var n :| n in rest;
      ids' := ids'[n := id];
      rest := rest - {n};
    }
  }

  lemma Source(links: Links, ids: Ids, m: nat, value: nat) returns (w: nat)
    requires FromComponent(links, ids, m, value)
    ensures w in ids && Connected(links, m, w) && ids[w] == value
  {
    hide Connected;
    w :| w in ids && Connected(links, m, w) && ids[w] == value;
  }

  lemma FromConnected(links: Links, ids: Ids, n: nat, m: nat, value: nat)
    requires Connected(links, n, m) && FromComponent(links, ids, m, value)
    ensures FromComponent(links, ids, n, value)
  {
    hide Connected;
    var w := Source(links, ids, m, value);
    ConnectedVia(links, n, m, w);
  }

  /** A value that comes from the component of m after one pass comes from the component of n
      before all passes. */
  lemma ThroughComponent(links: Links, ids0: Ids, ids: Ids, n: nat, m: nat, value: nat)
    requires FromOwnComponents(links, ids0, ids) && Connected(links, n, m) && FromComponent(links, ids, m, value)
    ensures FromComponent(links, ids0, n, value)
  {
    hide Connected, FromComponent;
    var w := Source(links, ids, m, value);
    ConnectedVia(links, n, m, w);
    FromConnected(links, ids0, n, w, value);
  }

  lemma LevelKeepsOwn(links: Links, ids0: Ids, ids: Ids, ids1: Ids, ids2: Ids, start: nat, visited: set<nat>)
    requires Symmetric(links) && FromOwnComponents(links, ids0, ids) && Leveled(links, ids, ids1, start, visited)
    requires ids2.Keys == ids.Keys
    requires forall n | n in ids :: ids2[n] == if n in visited then ids1[start] else ids1[n]
    ensures FromOwnComponents(links, ids0, ids2)
  {
    hide Connected, FromComponent, Symmetric;
    forall n | n in ids2 ensures FromComponent(links, ids0, n, ids2[n]) && ids2[n] <= ids0[n] {
      if n in visited {
        ConnectedBack(links, start, n);
        ThroughComponent(links, ids0, ids, n, start, ids1[start]);
      }
    }
  }

  lemma LevelIsLeast(links: Links, ids0: Ids, ids: Ids, ids1: Ids, ids2: Ids, start: nat, visited: set<nat>, n: nat)
    requires FromOwnComponents(links, ids0, ids) && Leveled(links, ids, ids1, start, visited)
    requires ids2.Keys == ids.Keys && n in ids
    requires forall n | n in ids :: ids2[n] == if n in visited then ids1[start] else ids1[n]
    requires n in visited || LeastFor(links, ids0, ids, n)
    ensures LeastFor(links, ids0, ids2, n)
  {
    hide Connected, FromComponent;
    if n in visited {
      forall w | w in ids0 && Connected(links, n, w) ensures ids2[n] <= ids0[w] {
        ConnectedVia(links, start, n, w);
      }
    }
  }

  /** Gives every node the least id of its component. Nodes are started from in the given
      order; those that come right behind a start and were visited are passed over, the others
      are visited again. */
  method Level(links: Links, ids0: Ids, order: seq<nat>) returns (ids: Ids)
    requires Symmetric(links) && ids0.Keys == links.Keys && forall n :: n in order <==> n in links
    requires forall n | n in ids0 :: ids0[n] <= SIZE_MAX
    ensures FromOwnComponents(links, ids0, ids)
    ensures forall n | n in ids :: LeastFor(links, ids0, ids, n)
  {
    hide Connected, FromComponent, Leveled, LeastFor, FromOwnComponents;
    ids := ids0;
    StartsOwn(links, ids0);
    var k := 0;
    while k < |order|
      invariant 0 <= k <= |order|
      invariant ids.Keys == links.Keys && FromOwnComponents(links, ids0, ids)
      invariant forall i | 0 <= i < k :: LeastFor(links, ids0, ids, order[i])
    {
      var start := order[k];
      OwnIsSmall(links, ids0, ids);
      var leveled, visited := SpreadFrom(links, ids, start);
      ghost var before, k0 := ids, k;
      LeveledVisits(links, ids, leveled, start, visited);
      k := k + 1;
      while k < |order| && order[k] in visited
        invariant k0 < k <= |order|
        invariant forall i | k0 <= i < k :: order[i] in visited
      {
        k := k + 1;
      }
      ids := Fill(leveled, visited, leveled[start]);
      LevelKeepsOwn(links, ids0, before, leveled, ids, start, visited);
      forall i | 0 <= i < k ensures LeastFor(links, ids0, ids, order[i]) {
        LevelIsLeast(links, ids0, before, leveled, ids, start, visited, order[i]);
      }
    }
  }

  lemma StartsOwn(links: Links, ids0: Ids)
    requires ids0.Keys == links.Keys && forall n | n in ids0 :: ids0[n] <= SIZE_MAX
    ensures FromOwnComponents(links, ids0, ids0)
  {
    forall n | n in ids0 ensures FromComponent(links, ids0, n, ids0[n]) {
      ConnectedSelf(links, n);
    }
  }

  lemma OwnIsSmall(links: Links, ids0: Ids, ids: Ids)
    requires FromOwnComponents(links, ids0, ids)
    ensures forall n | n in ids :: ids[n] <= SIZE_MAX
  {
    hide FromComponent;
  }

  lemma LeveledVisits(links: Links, ids0: Ids, ids: Ids, start: nat, visited: set<nat>)
    requires Leveled(links, ids0, ids, start, visited)
    ensures ids0.Keys == ids.Keys && start in ids && start in visited && visited <= ids.Keys
  {
    ConnectedSelf(links, start);
  }

  // ----- the replacements -----

  /** The id from is replaced by the id to. */
  datatype Replace = Replace(from: nat, to: nat)

  function Nodes(rs: seq<Replace>): set<nat> {
    if rs == [] then {} else Nodes(rs[..|rs| - 1]) + {rs[|rs| - 1].from, rs[|rs| - 1].to}
  }

  function Targets(rs: seq<Replace>, n: nat): set<nat> {
    if rs == [] then {}
    else Targets(rs[..|rs| - 1], n) + if rs[|rs| - 1].from == n then {rs[|rs| - 1].to} else {}
  }

  lemma {:induction false} NodesAre(rs: seq<Replace>, n: nat)
    ensures n in Nodes(rs) <==> exists i :: 0 <= i < |rs| && (rs[i].from == n || rs[i].to == n)
  {
    if rs != [] {
      var k := |rs| - 1;
      NodesAre(rs[..k], n);
      if n in Nodes(rs[..k]) {
        var i :| 0 <= i < k && (rs[..k][i].from == n || rs[..k][i].to == n);
        assert rs[i].from == n || rs[i].to == n;
      }
      if i :| 0 <= i < |rs| && (rs[i].from == n || rs[i].to == n) {
        if i < k { assert rs[..k][i].from == n || rs[..k][i].to == n; }
      }
    }
  }

  lemma {:induction false} TargetsAre(rs: seq<Replace>, n: nat, m: nat)
    ensures m in Targets(rs, n) <==> Replace(n, m) in rs
  {
    if rs != [] {
      TargetsAre(rs[..|rs| - 1], n, m);
      assert rs == rs[..|rs| - 1] + [rs[|rs| - 1]];
    }
  }

  /** Falling, without repetitions. */
  predicate Falling(rs: seq<Replace>) {
    forall i, j | 0 <= i < j < |rs| :: rs[j].from < rs[i].from || (rs[j].from == rs[i].from && rs[j].to < rs[i].to)
  }

  predicate Wide(rs: seq<Replace>) {
    forall i | 0 <= i < |rs| :: rs[i].from <= SIZE_MAX && rs[i].to <= SIZE_MAX
  }

  function DirectLinks(rs: seq<Replace>): Links {
    map n | n in Nodes(rs) :: Targets(rs, n)
  }

  /** Every node starts with the least id that replaces it directly, if there is one. */
  ghost predicate DirectIds(rs: seq<Replace>, ids: Ids) {
    && (forall i | 0 <= i < |rs| :: rs[i].from in ids && ids[rs[i].from] <= rs[i].to)
    && (forall n | n in ids :: ids[n] == SIZE_MAX || Replace(n, ids[n]) in rs)
  }

  lemma {:induction false} NoTargets(rs: seq<Replace>, n: nat)
    requires n !in Nodes(rs)
    ensures Targets(rs, n) == {}
  {
    if rs != [] {
      NoTargets(rs[..|rs| - 1], n);
    }
  }

  /** The links of the first k replacements, with a node for from. */
  ghost predicate LinksSoFar(rs: seq<Replace>, k: nat, from: nat, nexts: Links)
    requires k <= |rs|
  {
    && nexts.Keys == Nodes(rs[..k]) + {from}
    && (forall n | n in nexts :: nexts[n] == Targets(rs[..k], n))
  }

  lemma LinksNext(rs: seq<Replace>, k: nat, nexts: Links, nexts': Links)
    requires k < |rs| && LinksSoFar(rs, k, rs[k].from, nexts)
    requires var added := nexts[rs[k].from := nexts[rs[k].from] + {rs[k].to}];
      nexts' == if rs[k].to in added then added else added[rs[k].to := {}]
    ensures LinksSoFar(rs, k + 1, rs[k].from, nexts')
  {
    assert rs[..k + 1][..k] == rs[..k];
    if rs[k].to !in nexts {
      NoTargets(rs[..k], rs[k].to);
    }
  }

  /** The ids after a group: its first node gets the last target of the group. */
  lemma GroupIds(rs: seq<Replace>, it: nat, itEnd: nat, ids0: Ids, ids: Ids)
    requires it < itEnd <= |rs| && Falling(rs) && DirectIds(rs[..it], ids0)
    requires forall i | it <= i < itEnd :: rs[i].from == rs[it].from
    requires ids0.Keys <= ids.Keys && rs[it].from in ids && ids[rs[it].from] == rs[itEnd - 1].to
    requires forall n | n in ids && n != rs[it].from :: ids[n] == if n in ids0 then ids0[n] else SIZE_MAX
    ensures DirectIds(rs[..itEnd], ids)
  {
    var from := rs[it].from;
    forall i | 0 <= i < itEnd ensures rs[i].from in ids && ids[rs[i].from] <= rs[i].to {
      if i < it {
        assert rs[..it][i] == rs[i] && rs[it].from <= rs[i].from;
        if rs[i].from == from {
          // the group would have begun earlier
          assert rs[itEnd - 1].to <= rs[i].to;
        }
      }
    }
    forall n | n in ids ensures ids[n] == SIZE_MAX || Replace(n, ids[n]) in rs[..itEnd] {
      if n == from {
        assert rs[..itEnd][itEnd - 1] == Replace(n, ids[n]);
      } else if ids[n] != SIZE_MAX {
        var i :| 0 <= i < it && rs[..it][i] == Replace(n, ids[n]);
        assert rs[..itEnd][i] == Replace(n, ids[n]);
      }
    }
  }

  /** Between the steps of a group, besides the links. */
  predicate GroupState(ids0: Ids, ids: Ids, nexts: Links, from: nat, least: nat) {
    && ids.Keys == nexts.Keys && ids0.Keys <= ids.Keys && from in ids && ids[from] == least
    && (forall n | n in ids && n != from :: ids[n] == if n in ids0 then ids0[n] else SIZE_MAX)
  }

  lemma GroupStateNext(ids0: Ids, ids: Ids, nexts: Links, from: nat, least: nat, to: nat)
    requires GroupState(ids0, ids, nexts, from, least)
    ensures var added := nexts[from := nexts[from] + {to}];
      if to in added then GroupState(ids0, ids, added, from, least)
      else GroupState(ids0, ids[to := SIZE_MAX], added[to := {}], from, least)
  {
  }

  lemma GroupBegins(rs: seq<Replace>, it: nat, itEnd: nat, nexts0: Links, ids0: Ids, nexts: Links, ids: Ids)
    requires it < itEnd <= |rs| && Falling(rs) && Wide(rs) && (it > 0 ==> rs[it].from < rs[it - 1].from)
    requires nexts0 == DirectLinks(rs[..it]) && ids0.Keys == nexts0.Keys && DirectIds(rs[..it], ids0)
    requires var from := rs[it].from;
      && ids == ids0[from := Min(if from in ids0 then ids0[from] else SIZE_MAX, rs[itEnd - 1].to)]
      && nexts == nexts0[from := if from in nexts0 then nexts0[from] else {}]
    ensures LinksSoFar(rs, it, rs[it].from, nexts) && GroupState(ids0, ids, nexts, rs[it].from, rs[itEnd - 1].to)
  {
    NotReplacedBefore(rs, it, ids0);
    GroupStart(rs, it, nexts0, nexts);
    hide LinksSoFar, DirectLinks, DirectIds, Falling;
  }

  method AddGroup(rs: seq<Replace>, it: nat, itEnd: nat, nexts0: Links, ids0: Ids) returns (nexts: Links, ids: Ids)
    requires it < itEnd <= |rs| && Falling(rs) && Wide(rs)
    requires forall i | it <= i < itEnd :: rs[i].from == rs[it].from
    requires it > 0 ==> rs[it].from < rs[it - 1].from
    requires nexts0 == DirectLinks(rs[..it]) && ids0.Keys == nexts0.Keys && DirectIds(rs[..it], ids0)
    ensures nexts == DirectLinks(rs[..itEnd]) && ids.Keys == nexts.Keys && DirectIds(rs[..itEnd], ids)
  {
    hide LinksSoFar, DirectLinks, DirectIds, Falling, Wide, Nodes, Targets, Min;
    var from := rs[it].from;
    var least := rs[itEnd - 1].to;
    ids := ids0[from := Min(if from in ids0 then ids0[from] else SIZE_MAX, least)];
    nexts := nexts0[from := if from in nexts0 then nexts0[from] else {}];
    GroupBegins(rs, it, itEnd, nexts0, ids0, nexts, ids);
    var it2 := it;
    while it2 < itEnd
      invariant it <= it2 <= itEnd
      invariant LinksSoFar(rs, it2, from, nexts)
      invariant GroupState(ids0, ids, nexts, from, least)
    {
      ghost var before := nexts;
      var to := rs[it2].to;
      GroupStateNext(ids0, ids, nexts, from, least, to);
      nexts := nexts[from := nexts[from] + {to}];
      if to !in nexts {
        nexts := nexts[to := {}];
        ids := ids[to := SIZE_MAX];
      }
      LinksNext(rs, it2, before, nexts);
      it2 := it2 + 1;
    }
    GroupLinks(rs, itEnd, from, nexts);
    GroupIds(rs, it, itEnd, ids0, ids);
  }

  lemma GroupStart(rs: seq<Replace>, it: nat, nexts0: Links, nexts: Links)
    requires it < |rs| && nexts0 == DirectLinks(rs[..it])
    requires nexts == nexts0[rs[it].from := if rs[it].from in nexts0 then nexts0[rs[it].from] else {}]
    ensures LinksSoFar(rs, it, rs[it].from, nexts)
  {
    if rs[it].from !in nexts0 {
      NoTargets(rs[..it], rs[it].from);
    }
  }

  lemma GroupLinks(rs: seq<Replace>, itEnd: nat, from: nat, nexts: Links)
    requires 0 < itEnd <= |rs| && rs[itEnd - 1].from == from && LinksSoFar(rs, itEnd, from, nexts)
    ensures nexts == DirectLinks(rs[..itEnd])
  {
    assert rs[..itEnd][|rs[..itEnd]| - 1] == rs[itEnd - 1];
  }

  lemma NotReplacedBefore(rs: seq<Replace>, it: nat, ids0: Ids)
    requires it < |rs| && Falling(rs) && DirectIds(rs[..it], ids0)
    requires it > 0 ==> rs[it].from < rs[it - 1].from
    ensures rs[it].from in ids0 ==> ids0[rs[it].from] == SIZE_MAX
  {
    forall i | 0 <= i < it ensures rs[..it][i].from > rs[it].from {
      assert rs[it - 1].from <= rs[i].from;
    }
  }

  /** The direct links, read from the sorted replacements group by group. */
  method BuildGraph(rs: seq<Replace>) returns (nexts: Links, ids: Ids)
    requires Falling(rs) && Wide(rs)
    ensures nexts == DirectLinks(rs) && ids.Keys == nexts.Keys && DirectIds(rs, ids)
  {
    nexts, ids := map[], map[];
    var it := 0;
    while it < |rs|
      invariant 0 <= it <= |rs|
      invariant 0 < it < |rs| ==> rs[it].from < rs[it - 1].from
      invariant nexts == DirectLinks(rs[..it]) && ids.Keys == nexts.Keys && DirectIds(rs[..it], ids)
    {
      var itEnd := it + 1;
      while itEnd < |rs| && rs[itEnd].from == rs[it].from
        invariant it < itEnd <= |rs|
        invariant forall i | it <= i < itEnd :: rs[i].from == rs[it].from
      {
        itEnd := itEnd + 1;
      }
      nexts, ids := AddGroup(rs, it, itEnd, nexts, ids);
      it := itEnd;
    }
    assert rs[..|rs|] == rs;
  }

  // ----- the result -----

  /** The two ids are connected by a chain of replacements, in either direction. */
  ghost predicate Chained(rs: seq<Replace>, a: nat, b: nat) {
    Connected(MutualLinks(rs), a, b)
  }

  ghost function MutualLinks(rs: seq<Replace>): Links {
    map n | n in Nodes(rs) :: set m | m in Nodes(rs) && (Replace(n, m) in rs || Replace(m, n) in rs)
  }

  /** The result maps every id to the least replacement id of its component. */
  ghost predicate LeastReplacement(rs: seq<Replace>, ids: Ids, n: nat)
    requires n in ids
  {
    && (exists from :: Replace(from, ids[n]) in rs && Chained(rs, n, from))
    && (forall i | 0 <= i < |rs| && Chained(rs, n, rs[i].from) :: ids[n] <= rs[i].to)
  }

  lemma LinksAreMutual(rs: seq<Replace>, nexts: Links)
    requires BothWays(DirectLinks(rs), nexts)
    ensures nexts == MutualLinks(rs) && Symmetric(nexts)
  {
    forall a, b | a in nexts && b in nexts
      ensures b in nexts[a] <==> Replace(a, b) in rs || Replace(b, a) in rs
    {
      TargetsAre(rs, a, b);
      TargetsAre(rs, b, a);
    }
    forall a | a in nexts ensures nexts[a] == MutualLinks(rs)[a] {
      assert forall b | b in nexts[a] :: b in nexts;
      assert forall b | b in MutualLinks(rs)[a] :: b in nexts;
    }
  }

  lemma DirectClosed(rs: seq<Replace>)
    ensures Closed(DirectLinks(rs))
  {
    forall n, m | n in Nodes(rs) && m in Targets(rs, n) ensures m in Nodes(rs) {
      TargetsAre(rs, n, m);
      var i :| 0 <= i < |rs| && rs[i] == Replace(n, m);
      NodesAre(rs, m);
    }
  }

  lemma DirectIdsSmall(rs: seq<Replace>, ids: Ids)
    requires Wide(rs) && DirectIds(rs, ids)
    ensures forall n | n in ids :: ids[n] <= SIZE_MAX
  {
    forall n | n in ids && ids[n] != SIZE_MAX ensures ids[n] <= SIZE_MAX {
      var i :| 0 <= i < |rs| && rs[i] == Replace(n, ids[n]);
    }
  }

  lemma FromIsChained(rs: seq<Replace>, i: nat, n: nat)
    requires i < |rs| && (rs[i].from == n || rs[i].to == n) && Symmetric(MutualLinks(rs))
    ensures n in Nodes(rs) && rs[i].from in Nodes(rs) && Chained(rs, n, rs[i].from)
  {
    NodesAre(rs, n);
    NodesAre(rs, rs[i].from);
    ConnectedSelf(MutualLinks(rs), n);
    if rs[i].from != n {
      assert rs[i] == Replace(rs[i].from, n);
      ConnectedStep(MutualLinks(rs), n, n, rs[i].from);
    }
  }

  lemma SomeReplacement(rs: seq<Replace>, ids0: Ids, ids: Ids, n: nat)
    requires ids0.Keys == ids.Keys == Nodes(rs) && DirectIds(rs, ids0) && Wide(rs)
    requires Symmetric(MutualLinks(rs)) && n in ids && ids[n] <= SIZE_MAX
    requires FromComponent(MutualLinks(rs), ids0, n, ids[n]) && LeastFor(MutualLinks(rs), ids0, ids, n)
    ensures exists from :: Replace(from, ids[n]) in rs && Chained(rs, n, from)
  {
    hide Connected, Symmetric, MutualLinks;
    var w := Source(MutualLinks(rs), ids0, n, ids[n]);
    if ids0[w] != SIZE_MAX {
      assert Replace(w, ids[n]) in rs && Chained(rs, n, w);
    } else {
      NodesAre(rs, n);
      var i :| 0 <= i < |rs| && (rs[i].from == n || rs[i].to == n);
      FromIsChained(rs, i, n);
      assert ids[n] <= ids0[rs[i].from] <= rs[i].to <= SIZE_MAX;
      assert rs[i] == Replace(rs[i].from, ids[n]);
    }
  }

  lemma LeastIsReplacement(rs: seq<Replace>, ids0: Ids, ids: Ids, n: nat)
    requires ids0.Keys == Nodes(rs) && DirectIds(rs, ids0) && Wide(rs) && Symmetric(MutualLinks(rs))
    requires FromOwnComponents(MutualLinks(rs), ids0, ids) && LeastFor(MutualLinks(rs), ids0, ids, n)
    ensures n in ids && LeastReplacement(rs, ids, n)
  {
    hide Connected, Symmetric, FromComponent, MutualLinks;
    SomeReplacement(rs, ids0, ids, n);
    forall i | 0 <= i < |rs| && Chained(rs, n, rs[i].from) ensures ids[n] <= rs[i].to {
      assert rs[i].from in ids0 && ids0[rs[i].from] <= rs[i].to;
    }
  }

  method Prepare(rs: seq<Replace>, order: seq<nat>) returns (links: Links, ids0: Ids)
    requires Falling(rs) && Wide(rs) && forall n :: n in order <==> n in Nodes(rs)
    ensures links == MutualLinks(rs) && Symmetric(links) && ids0.Keys == links.Keys == Nodes(rs)
    ensures DirectIds(rs, ids0) && forall n | n in ids0 :: ids0[n] <= SIZE_MAX
  {
    var nexts;
    nexts, ids0 := BuildGraph(rs);
    DirectClosed(rs);
    links := LinkBothWays(nexts, order);
    LinksAreMutual(rs, links);
    DirectIdsSmall(rs, ids0);
  }

  /** MAIN: the two traversals give every id the least replacement id of its component. */
  method Resolve(rs: seq<Replace>, order: seq<nat>) returns (ids: Ids)
    requires Falling(rs) && Wide(rs) && forall n :: n in order <==> n in Nodes(rs)
    ensures ids.Keys == Nodes(rs)
    ensures forall n | n in ids :: LeastReplacement(rs, ids, n)
  {
    hide *;
    var links, ids0 := Prepare(rs, order);
    ids := Level(links, ids0, order);
    LevelKeys(links, ids0, ids);
    forall n | n in ids ensures LeastReplacement(rs, ids, n) {
      LeastIsReplacement(rs, ids0, ids, n);
    }
  }

  lemma LevelKeys(links: Links, ids0: Ids, ids: Ids)
    requires FromOwnComponents(links, ids0, ids)
    ensures ids.Keys == links.Keys
  {
    hide FromComponent;
  }

  // ----- what the result means -----

  ghost predicate Resolved(rs: seq<Replace>, ids: Ids) {
    && ids.Keys == Nodes(rs)
    && (forall n | n in ids :: LeastReplacement(rs, ids, n))
  }

  lemma MutualSymmetric(rs: seq<Replace>)
    ensures Symmetric(MutualLinks(rs))
  {
  }

  lemma ChainedIsLess(rs: seq<Replace>, ids: Ids, a: nat, b: nat)
    requires Resolved(rs, ids) && a in ids && b in ids && Chained(rs, a, b)
    ensures ids[a] <= ids[b]
  {
    hide Connected, MutualLinks;
    var from :| Replace(from, ids[b]) in rs && Chained(rs, b, from);
    ConnectedVia(MutualLinks(rs), a, b, from);
    var i :| 0 <= i < |rs| && rs[i] == Replace(from, ids[b]);
    assert LeastReplacement(rs, ids, a);
  }

  lemma IdIsChained(rs: seq<Replace>, ids: Ids, n: nat)
    requires Resolved(rs, ids) && n in ids
    ensures ids[n] in ids && Chained(rs, n, ids[n])
  {
    MutualSymmetric(rs);
    assert LeastReplacement(rs, ids, n);
    var from :| Replace(from, ids[n]) in rs && Chained(rs, n, from);
    var i :| 0 <= i < |rs| && rs[i] == Replace(from, ids[n]);
    NodesAre(rs, ids[n]);
    NodesAre(rs, from);
    hide Connected;
    ConnectedStep(MutualLinks(rs), n, from, ids[n]);
  }

  /** Two ids get the same id exactly when some chain of replacements connects them. */
  lemma SameIdIffChained(rs: seq<Replace>, ids: Ids, a: nat, b: nat)
    requires Resolved(rs, ids) && a in ids && b in ids
    ensures ids[a] == ids[b] <==> Chained(rs, a, b)
  {
    hide Connected, MutualLinks, Resolved, LeastReplacement;
    MutualSymmetric(rs);
    if Chained(rs, a, b) {
      ConnectedBack(MutualLinks(rs), a, b);
      ChainedIsLess(rs, ids, a, b);
      ChainedIsLess(rs, ids, b, a);
    }
    if ids[a] == ids[b] {
      IdIsChained(rs, ids, a);
      IdIsChained(rs, ids, b);
      ConnectedBack(MutualLinks(rs), b, ids[b]);
      ConnectedVia(MutualLinks(rs), a, ids[a], b);
    }
  }

  /** Replacing twice is replacing once. */
  lemma Idempotent(rs: seq<Replace>, ids: Ids, n: nat)
    requires Resolved(rs, ids) && n in ids
    ensures ids[n] in ids && ids[ids[n]] == ids[n]
  {
    IdIsChained(rs, ids, n);
    SameIdIffChained(rs, ids, n, ids[n]);
  }

  /** When replacements always lead to smaller ids, the result is the least id of the component. */
  lemma LeastOfComponent(rs: seq<Replace>, ids: Ids, n: nat, m: nat)
    requires Resolved(rs, ids) && n in ids && m in ids && Chained(rs, n, m)
    requires forall i | 0 <= i < |rs| :: rs[i].to < rs[i].from
    ensures ids[n] <= m
  {
    SameIdIffChained(rs, ids, n, m);
    NodesAre(rs, m);
    var i :| 0 <= i < |rs| && (rs[i].from == m || rs[i].to == m);
    MutualSymmetric(rs);
    FromIsChained(rs, i, m);
    assert LeastReplacement(rs, ids, m);
  }
}
