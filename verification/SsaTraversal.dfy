/** The two depth-first traversals, with a stack of entries, of the closure of SSA id replacements.
    The first one makes all links go both ways; the second one visits the component of a node and
    brings its least id back to that node. */
module SsaTraversal {
  import opened Bounds

  const SIZE_MAX: nat := 0xffff_ffff_ffff_ffff

  type Links = map<nat, set<nat>>

  /** Every link leads to a node. */
  predicate Closed(nexts: Links) {
    forall n, m | n in nexts && m in nexts[n] :: m in nexts
  }

  /** A node that is being visited: the links still to follow, whether it was just entered, and
      the least id that came back from below. */
  datatype Entry = Entry(node: nat, todo: set<nat>, entering: bool, minSSAId: nat)

  type Stack = seq<Entry>

  /** Decreases when an entry is popped or a link is followed. */
  function Weight(stack: Stack): nat {
    if stack == [] then 0
    else
      var e := stack[|stack| - 1];
      Weight(stack[..|stack| - 1]) + 1 + if e.entering then 0 else 2 * |e.todo|
  }

  /** The link from u to v is still to be followed, or is being followed. */
  ghost predicate Pending(stack: Stack, u: nat, v: nat) {
    exists i :: 0 <= i < |stack| && PendingAt(stack, i, u, v)
  }

  ghost predicate PendingAt(stack: Stack, i: nat, u: nat, v: nat)
    requires i < |stack|
  {
    !stack[i].entering && stack[i].node == u
    && (v in stack[i].todo || (i + 1 < |stack| && stack[i + 1].node == v))
  }

  /** Entries follow links; only the top entry may be just entered. */
  ghost predicate StackOk(links: Links, visited: set<nat>, stack: Stack) {
    && (forall i | 0 <= i < |stack| :: stack[i].node in links)
    && (forall i | 0 <= i < |stack| && !stack[i].entering ::
          stack[i].node in visited && stack[i].node in links && stack[i].todo <= links[stack[i].node])
    && (forall i | 0 <= i < |stack| - 1 :: !stack[i].entering)
    && (forall i, j | 0 <= i < j < |stack| && j == i + 1 ::
          stack[i].node in links && stack[j].node in links[stack[i].node])
    && (stack != [] ==>
          var e := stack[|stack| - 1];
          e.entering && e.node !in visited && e.node in links ==> e.todo == links[e.node])
  }

  /** Marks the top entry as entered. */
  function Entered(stack: Stack): Stack
    requires stack != []
  {
    stack[|stack| - 1 := stack[|stack| - 1].(entering := false)]
  }

  /** Follows the link to v, which gets the given links to follow in turn. */
  function Followed(stack: Stack, v: nat, todo: set<nat>, minSSAId: nat): Stack
    requires stack != []
  {
    var e := stack[|stack| - 1];
    stack[|stack| - 1 := e.(todo := e.todo - {v})] + [Entry(v, todo, true, minSSAId)]
  }

  function Popped(stack: Stack): Stack
    requires stack != []
  {
    stack[..|stack| - 1]
  }

  lemma EnteredPending(stack: Stack, u: nat, v: nat)
    requires stack != []
    ensures Pending(stack, u, v) ==> Pending(Entered(stack), u, v)
    ensures u == stack[|stack| - 1].node && v in stack[|stack| - 1].todo ==> Pending(Entered(stack), u, v)
  {
    if Pending(stack, u, v) {
      var i :| 0 <= i < |stack| && PendingAt(stack, i, u, v);
      assert PendingAt(Entered(stack), i, u, v);
    }
    if u == stack[|stack| - 1].node && v in stack[|stack| - 1].todo {
      assert PendingAt(Entered(stack), |stack| - 1, u, v);
    }
  }

  lemma FollowedPending(stack: Stack, x: nat, todo: set<nat>, m: nat, u: nat, v: nat)
    requires stack != [] && !stack[|stack| - 1].entering
    requires Pending(stack, u, v)
    ensures Pending(Followed(stack, x, todo, m), u, v)
  {
    var i :| 0 <= i < |stack| && PendingAt(stack, i, u, v);
    assert PendingAt(Followed(stack, x, todo, m), i, u, v);
  }

  lemma PoppedPending(stack: Stack, u: nat, v: nat)
    requires stack != [] && Pending(stack, u, v)
    requires stack[|stack| - 1].entering || stack[|stack| - 1].todo == {}
    ensures Pending(Popped(stack), u, v)
            || (|stack| > 1 && u == stack[|stack| - 2].node && v == stack[|stack| - 1].node)
  {
    var i :| 0 <= i < |stack| && PendingAt(stack, i, u, v);
    if i < |stack| - 1 && (i + 1 < |stack| - 1 || v in stack[i].todo) {
      assert PendingAt(Popped(stack), i, u, v);
    }
  }

  lemma FollowedWeight(stack: Stack, x: nat, todo: set<nat>, m: nat)
    requires stack != [] && !stack[|stack| - 1].entering && x in stack[|stack| - 1].todo
    ensures Weight(Followed(stack, x, todo, m)) < Weight(stack)
  {
    var e := stack[|stack| - 1];
    var s := Followed(stack, x, todo, m);
    assert s[..|s| - 1] == stack[|stack| - 1 := e.(todo := e.todo - {x})];
    assert s[..|s| - 1][..|stack| - 1] == stack[..|stack| - 1];
    assert |e.todo - {x}| == |e.todo| - 1;
  }

  // ----- the first traversal: links in both directions -----

  /** Both ends of a link know each other. */
  ghost predicate BothWays(nexts0: Links, nexts: Links) {
    && nexts.Keys == nexts0.Keys
    && (forall a, b | a in nexts && b in nexts :: b in nexts[a] <==> b in nexts0[a] || a in nexts0[b])
    && Closed(nexts)
  }

  ghost predicate Linking(nexts0: Links, nexts: Links, visited: set<nat>, stack: Stack) {
    && Closed(nexts0) && nexts.Keys == nexts0.Keys && visited <= nexts.Keys
    && (forall a, b | a in nexts0 && b in nexts0[a] :: b in nexts[a])
    && (forall a, b | a in nexts && b in nexts[a] :: b in nexts0 && (b in nexts0[a] || a in nexts0[b]))
    && (forall n | n in nexts0 && n !in visited :: nexts[n] == nexts0[n])
    && (forall u, v | u in visited && v in nexts0[u] :: u in nexts[v] || Pending(stack, u, v))
    && StackOk(nexts, visited, stack)
  }

  lemma LinkingStart(nexts0: Links, nexts: Links, visited: set<nat>, start: nat)
    requires Linking(nexts0, nexts, visited, []) && start in nexts && start !in visited
    ensures Linking(nexts0, nexts, visited, [Entry(start, nexts[start], true, SIZE_MAX)])
  {
    forall u, v | u in visited && v in nexts0[u] ensures u in nexts[v] {
      assert !Pending([], u, v);
    }
  }

  lemma LinkingEntered(nexts0: Links, nexts: Links, visited: set<nat>, stack: Stack)
    requires Linking(nexts0, nexts, visited, stack) && stack != []
    requires stack[|stack| - 1].entering && stack[|stack| - 1].node !in visited
    ensures Linking(nexts0, nexts, visited + {stack[|stack| - 1].node}, Entered(stack))
  {
    var node := stack[|stack| - 1].node;
    forall u, v | u in visited + {node} && v in nexts0[u] ensures u in nexts[v] || Pending(Entered(stack), u, v) {
      EnteredPending(stack, u, v);
    }
  }

  lemma LinkingFollowed(nexts0: Links, nexts: Links, visited: set<nat>, stack: Stack, x: nat)
    requires Linking(nexts0, nexts, visited, stack) && stack != []
    requires !stack[|stack| - 1].entering && x in stack[|stack| - 1].todo && x in nexts
    ensures Linking(nexts0, nexts, visited, Followed(stack, x, nexts[x], 0))
  {
    forall u, v | u in visited && v in nexts0[u]
      ensures u in nexts[v] || Pending(Followed(stack, x, nexts[x], 0), u, v)
    {
      if Pending(stack, u, v) {
        FollowedPending(stack, x, nexts[x], 0, u, v);
      }
    }
  }

  lemma LinkingPopped(nexts0: Links, nexts: Links, visited: set<nat>, stack: Stack, nexts': Links)
    requires Linking(nexts0, nexts, visited, stack) && stack != []
    requires var e := stack[|stack| - 1];
      e.node in visited && (e.entering || e.todo == {})
      && nexts' == if |stack| == 1 then nexts else nexts[e.node := nexts[e.node] + {stack[|stack| - 2].node}]
    ensures Linking(nexts0, nexts', visited, Popped(stack))
  {
    var e := stack[|stack| - 1];
    forall u, v | u in visited && v in nexts0[u] ensures u in nexts'[v] || Pending(Popped(stack), u, v) {
      if Pending(stack, u, v) {
        PoppedPending(stack, u, v);
      }
    }
  }

  /** An entry that is being visited may come across a link that its node was given meanwhile. */
  function Seen(stack: Stack, node: nat, next: nat): (s: Stack)
    ensures |s| == |stack|
    ensures forall i | 0 <= i < |s| ::
              s[i] == if stack[i].node == node && !stack[i].entering then stack[i].(todo := stack[i].todo + {next})
                      else stack[i]
  {
    seq(|stack|, i requires 0 <= i < |stack| =>
      if stack[i].node == node && !stack[i].entering then stack[i].(todo := stack[i].todo + {next}) else stack[i])
  }

  lemma LinkingSeen(nexts0: Links, nexts: Links, visited: set<nat>, stack: Stack, node: nat, next: nat)
    requires Linking(nexts0, nexts, visited, stack) && node in nexts && next in nexts[node]
    ensures Linking(nexts0, nexts, visited, Seen(stack, node, next))
  {
    forall u, v | u in visited && v in nexts0[u] ensures u in nexts[v] || Pending(Seen(stack, node, next), u, v) {
      if Pending(stack, u, v) {
        var i :| 0 <= i < |stack| && PendingAt(stack, i, u, v);
        assert PendingAt(Seen(stack, node, next), i, u, v);
      }
    }
  }

  /** The pairs that are not linked yet. */
  ghost function Missing(nexts: Links): set<(nat, nat)> {
    set a, b | a in nexts && b in nexts && b !in nexts[a] :: (a, b)
  }

  lemma LinkAdded(nexts: Links, a: nat, b: nat)
    requires a in nexts && b in nexts
    ensures var nexts' := nexts[a := nexts[a] + {b}];
      Missing(nexts') <= Missing(nexts) && (b !in nexts[a] ==> Missing(nexts') < Missing(nexts))
  {
    var nexts' := nexts[a := nexts[a] + {b}];
    assert b !in nexts[a] ==> (a, b) in Missing(nexts) && (a, b) !in Missing(nexts');
  }

  lemma LinkingDone(nexts0: Links, nexts: Links, visited: set<nat>)
    requires Linking(nexts0, nexts, visited, []) && visited == nexts.Keys
    ensures BothWays(nexts0, nexts)
  {
    forall u, v | u in visited && v in nexts0[u] ensures u in nexts[v] {
      assert !Pending([], u, v);
    }
  }

  /** Adds the opposite of every link. */
  method LinkBothWays(nexts0: Links, order: seq<nat>) returns (nexts: Links)
    requires Closed(nexts0) && forall n :: n in order <==> n in nexts0
    ensures BothWays(nexts0, nexts)
  {
    nexts := nexts0;
    var visited: set<nat> := {};
    var k := 0;
    while k < |order|
      invariant 0 <= k <= |order|
      invariant Linking(nexts0, nexts, visited, [])
      invariant forall i | 0 <= i < k :: order[i] in visited
    {
      if order[k] !in visited {
        nexts, visited := LinkFrom(nexts0, nexts, visited, order[k]);
      }
      k := k + 1;
    }
    assert visited == nexts.Keys;
    LinkingDone(nexts0, nexts, visited);
  }

  method LinkFrom(ghost nexts0: Links, nexts: Links, visited: set<nat>, start: nat)
    returns (nexts': Links, visited': set<nat>)
    requires Linking(nexts0, nexts, visited, []) && start in nexts && start !in visited
    ensures Linking(nexts0, nexts', visited', [])
    ensures visited + {start} <= visited'
  {
    hide Linking;
    nexts', visited' := nexts, visited;
    var stack := [Entry(start, nexts[start], true, SIZE_MAX)];
    LinkingStart(nexts0, nexts, visited, start);
    while stack != []
      invariant Linking(nexts0, nexts', visited', stack)
      invariant visited <= visited'
      invariant start in visited' || (|stack| == 1 && stack[0].node == start && stack[0].entering)
      decreases nexts0.Keys - visited', Missing(nexts'), Weight(stack)
    {
      LinkingTop(nexts0, nexts', visited', stack);
      var entry := stack[|stack| - 1];
      var toPop := false;
      if entry.entering {
        toPop := entry.node in visited';
        if !toPop {
          LinkingEntered(nexts0, nexts', visited', stack);
          visited' := visited' + {entry.node};
          stack := Entered(stack);
          LinkingTop(nexts0, nexts', visited', stack);
        }
      }
      if !toPop && entry.todo != {} {
        var next :| next in entry.todo;
        LinkingFollowed(nexts0, nexts', visited', stack, next);
        FollowedWeight(stack, next, nexts'[next], 0);
        stack := Followed(stack, next, nexts'[next], 0);
      } else {
        ghost var before := stack;
        var linksBefore := nexts';
        stack := Popped(stack);
        if stack != [] {
          var parent := stack[|stack| - 1].node;
          LinkingParent(nexts0, nexts', visited', before);
          LinkAdded(nexts', entry.node, parent);
          nexts' := nexts'[entry.node := nexts'[entry.node] + {parent}];
        }
        LinkingPopped(nexts0, linksBefore, visited', before, nexts');
        if stack != [] && stack[|stack| - 1].node !in linksBefore[entry.node] {
          // whether an iterator comes across a link that is added behind its back is left open
          if * {
            LinkingSeen(nexts0, nexts', visited', stack, entry.node, stack[|stack| - 1].node);
            stack := Seen(stack, entry.node, stack[|stack| - 1].node);
          }
        }
      }
    }
  }

  lemma LinkingParent(nexts0: Links, nexts: Links, visited: set<nat>, stack: Stack)
    requires Linking(nexts0, nexts, visited, stack) && |stack| > 1
    ensures stack[|stack| - 2].node in nexts && stack[|stack| - 1].node in nexts
  {
  }

  lemma LinkingTop(nexts0: Links, nexts: Links, visited: set<nat>, stack: Stack)
    requires Linking(nexts0, nexts, visited, stack) && stack != []
    ensures var e := stack[|stack| - 1];
      && e.node in nexts0 && e.node in nexts && nexts.Keys == nexts0.Keys
      && (!e.entering ==> e.node in visited && forall x | x in e.todo :: x in nexts)
  {
  }

  // ----- chains of links -----

  ghost predicate Chain(links: Links, path: seq<nat>) {
    && path != []
    && (forall i | 0 <= i < |path| :: path[i] in links)
    && (forall i, j | 0 <= i < j < |path| && j == i + 1 :: path[j] in links[path[i]])
  }

  ghost predicate Joins(links: Links, path: seq<nat>, a: nat, b: nat) {
    Chain(links, path) && path[0] == a && path[|path| - 1] == b
  }

  ghost predicate Connected(links: Links, a: nat, b: nat) {
    exists path :: Joins(links, path, a, b)
  }

  ghost predicate Symmetric(links: Links) {
    Closed(links) && forall a, b | a in links && b in links :: b in links[a] <==> a in links[b]
  }

  lemma ConnectedSelf(links: Links, a: nat)
    requires a in links
    ensures Connected(links, a, a)
  {
    assert Joins(links, [a], a, a);
  }

  lemma ConnectedStep(links: Links, a: nat, b: nat, c: nat)
    requires Connected(links, a, b) && b in links && c in links && c in links[b]
    ensures Connected(links, a, c)
  {
    var path :| Joins(links, path, a, b);
    assert Joins(links, path + [c], a, c);
  }

  function Reversed(path: seq<nat>): (r: seq<nat>)
    ensures |r| == |path| && forall i | 0 <= i < |r| :: r[i] == path[|path| - 1 - i]
  {
    seq(|path|, i requires 0 <= i < |path| => path[|path| - 1 - i])
  }

  lemma ConnectedBack(links: Links, a: nat, b: nat)
    requires Symmetric(links) && Connected(links, a, b)
    ensures Connected(links, b, a)
  {
    var path :| Joins(links, path, a, b);
    var r := Reversed(path);
    forall i, j | 0 <= i < j < |r| && j == i + 1 ensures r[j] in links[r[i]] {
      var k := |path| - 1 - j;
      assert path[k + 1] in links[path[k]];
    }
    assert Joins(links, r, b, a);
  }

  lemma ConnectedVia(links: Links, a: nat, b: nat, c: nat)
    requires Connected(links, a, b) && Connected(links, b, c)
    ensures Connected(links, a, c)
  {
    var p :| Joins(links, p, a, b);
    var q :| Joins(links, q, b, c);
    var r := p + q[1..];
    forall i, j | 0 <= i < j < |r| && j == i + 1 ensures r[j] in links[r[i]] {
      if i >= |p| - 1 {
        var k := i - (|p| - 1);
        assert r[i] == q[k] && r[j] == q[k + 1];
      }
    }
    assert Joins(links, r, a, c);
  }

  /** A set that links do not leave holds everything that is connected to its nodes. */
  lemma ClosedSetHoldsConnected(links: Links, nodes: set<nat>, a: nat, b: nat)
    requires a in nodes && Connected(links, a, b)
    requires forall u, v | u in nodes && u in links && v in links[u] :: v in nodes
    ensures b in nodes
  {
    var path :| Joins(links, path, a, b);
    var i := 0;
    while i < |path| - 1
      invariant 0 <= i < |path| && path[i] in nodes
    {
      assert path[i + 1] in links[path[i]];
      i := i + 1;
    }
  }

  // ----- the second traversal: the least id -----

  type Ids = map<nat, nat>

  /** The value is the id of a node connected to start. */
  ghost predicate FromComponent(links: Links, ids: Ids, start: nat, value: nat) {
    exists w :: w in ids && Connected(links, start, w) && ids[w] == value
  }

  /** Some entry of the stack, or its node, has an id not above the bound. */
  ghost predicate StackReaches(stack: Stack, ids: Ids, bound: nat) {
    exists i :: 0 <= i < |stack| && stack[i].node in ids && Min(stack[i].minSSAId, ids[stack[i].node]) <= bound
  }

  /** Only nodes connected to the start are visited, and their links are followed. */
  ghost predicate Reaching(links: Links, start: nat, visited: set<nat>, stack: Stack) {
    && Closed(links) && visited <= links.Keys && start in links
    && (forall n | n in visited :: Connected(links, start, n))
    && (forall i | 0 <= i < |stack| :: Connected(links, start, stack[i].node))
    && (forall u, v | u in visited && v in links[u] :: v in visited || Pending(stack, u, v))
    && StackOk(links, visited, stack)
  }

  /** Only ids of connected nodes spread. */
  ghost predicate Spreading(links: Links, ids0: Ids, ids: Ids, start: nat, stack: Stack) {
    && ids0.Keys == links.Keys && ids.Keys == links.Keys
    && (forall n | n in ids :: ids[n] <= ids0[n] <= SIZE_MAX)
    && (forall n | n in ids :: Connected(links, start, n) ==> FromComponent(links, ids0, start, ids[n]))
    && (forall n | n in ids :: Connected(links, start, n) || ids[n] == ids0[n])
    && (forall i | 0 <= i < |stack| ::
          stack[i].minSSAId == SIZE_MAX || FromComponent(links, ids0, start, stack[i].minSSAId))
  }

  /** The ids of the visited nodes reach the stack, and at last the start. */
  ghost predicate Sinking(ids0: Ids, ids: Ids, start: nat, visited: set<nat>, stack: Stack) {
    && start in ids && visited <= ids0.Keys
    && (stack != [] ==> stack[0].node == start)
    && (forall v | v in visited :: if stack == [] then ids[start] <= ids0[v] else StackReaches(stack, ids, ids0[v]))
  }

  /** Coming back from the top entry with an id. */
  function Returned(stack: Stack, id: nat): Stack
    requires stack != []
  {
    var s := Popped(stack);
    if s == [] then s else s[|s| - 1 := s[|s| - 1].(minSSAId := Min(s[|s| - 1].minSSAId, id))]
  }

  lemma ReturnedPending(stack: Stack, id: nat, u: nat, v: nat)
    requires stack != [] && Pending(Popped(stack), u, v)
    ensures Pending(Returned(stack, id), u, v)
  {
    var i :| 0 <= i < |Popped(stack)| && PendingAt(Popped(stack), i, u, v);
    assert PendingAt(Returned(stack, id), i, u, v);
  }

  lemma TraversalStart(links: Links, ids: Ids, start: nat)
    requires Closed(links) && ids.Keys == links.Keys && start in links
    requires forall n | n in ids :: ids[n] <= SIZE_MAX
    ensures var s := [Entry(start, links[start], true, SIZE_MAX)];
      Reaching(links, start, {}, s) && Spreading(links, ids, ids, start, s) && Sinking(ids, ids, start, {}, s)
  {
    ConnectedSelf(links, start);
  }

  lemma ReachingEntered(links: Links, start: nat, visited: set<nat>, stack: Stack)
    requires Reaching(links, start, visited, stack) && stack != []
    requires stack[|stack| - 1].entering && stack[|stack| - 1].node !in visited
    ensures Reaching(links, start, visited + {stack[|stack| - 1].node}, Entered(stack))
  {
    hide Connected;
    var node := stack[|stack| - 1].node;
    forall u, v | u in visited + {node} && v in links[u]
      ensures v in visited + {node} || Pending(Entered(stack), u, v)
    {
      EnteredPending(stack, u, v);
    }
  }

  lemma ReachingFollowed(links: Links, start: nat, visited: set<nat>, stack: Stack, x: nat, m: nat)
    requires Reaching(links, start, visited, stack) && stack != []
    requires var e := stack[|stack| - 1]; !e.entering && x in e.todo && x in links
    ensures Connected(links, start, x)
    ensures Reaching(links, start, visited, Followed(stack, x, links[x], m))
  {
    ConnectedStep(links, start, stack[|stack| - 1].node, x);
    hide Connected;
    forall u, v | u in visited && v in links[u]
      ensures v in visited || Pending(Followed(stack, x, links[x], m), u, v)
    {
      if Pending(stack, u, v) {
        FollowedPending(stack, x, links[x], m, u, v);
      }
    }
  }

  lemma ReachingReturned(links: Links, start: nat, visited: set<nat>, stack: Stack, id: nat)
    requires Reaching(links, start, visited, stack) && stack != []
    requires var e := stack[|stack| - 1]; e.node in visited && (e.entering || e.todo == {})
    ensures Reaching(links, start, visited, Returned(stack, id))
  {
    hide Connected;
    forall u, v | u in visited && v in links[u] ensures v in visited || Pending(Returned(stack, id), u, v) {
      if Pending(stack, u, v) {
        PoppedPending(stack, u, v);
        if Pending(Popped(stack), u, v) {
          ReturnedPending(stack, id, u, v);
        }
      }
    }
  }

  lemma SpreadingFollowed(links: Links, ids0: Ids, ids: Ids, start: nat, stack: Stack, x: nat, ids': Ids)
    requires Spreading(links, ids0, ids, start, stack) && stack != []
    requires Connected(links, start, stack[|stack| - 1].node) && Connected(links, start, x)
    requires var e := stack[|stack| - 1]; x in ids && e.node in ids && ids' == ids[x := Min(ids[x], ids[e.node])]
    ensures Spreading(links, ids0, ids', start, Followed(stack, x, links[x], ids'[x]))
  {
    hide Connected, FromComponent;
  }

  lemma SpreadingReturned(links: Links, ids0: Ids, ids: Ids, start: nat, stack: Stack, ids': Ids)
    requires Spreading(links, ids0, ids, start, stack) && stack != []
    requires Connected(links, start, stack[|stack| - 1].node)
    requires var e := stack[|stack| - 1]; e.node in ids && ids' == ids[e.node := Min(ids[e.node], e.minSSAId)]
    ensures Spreading(links, ids0, ids', start, Returned(stack, ids'[stack[|stack| - 1].node]))
  {
    hide Connected, FromComponent;
  }

  lemma SinkingEntered(ids0: Ids, ids: Ids, start: nat, visited: set<nat>, stack: Stack)
    requires Sinking(ids0, ids, start, visited, stack) && stack != []
    requires var n := stack[|stack| - 1].node; n in ids && n in ids0 && ids[n] <= ids0[n]
    ensures Sinking(ids0, ids, start, visited + {stack[|stack| - 1].node}, Entered(stack))
  {
    var s := Entered(stack);
    forall v | v in visited + {stack[|stack| - 1].node} ensures StackReaches(s, ids, ids0[v]) {
      if v in visited {
        var i :| 0 <= i < |stack| && stack[i].node in ids && Min(stack[i].minSSAId, ids[stack[i].node]) <= ids0[v];
        assert s[i].node == stack[i].node && s[i].minSSAId == stack[i].minSSAId;
      } else {
        assert s[|s| - 1].node == v;
      }
    }
  }

  lemma SinkingFollowed(ids0: Ids, ids: Ids, start: nat, visited: set<nat>, stack: Stack, x: nat, todo: set<nat>,
                        ids': Ids)
    requires Sinking(ids0, ids, start, visited, stack) && stack != []
    requires var e := stack[|stack| - 1]; x in ids && e.node in ids && ids' == ids[x := Min(ids[x], ids[e.node])]
    ensures Sinking(ids0, ids', start, visited, Followed(stack, x, todo, ids'[x]))
  {
    var s := Followed(stack, x, todo, ids'[x]);
    forall v | v in visited ensures StackReaches(s, ids', ids0[v]) {
      var i :| 0 <= i < |stack| && stack[i].node in ids && Min(stack[i].minSSAId, ids[stack[i].node]) <= ids0[v];
      assert s[i].node == stack[i].node && s[i].minSSAId == stack[i].minSSAId;
    }
  }

  lemma SinkingReturned(ids0: Ids, ids: Ids, start: nat, visited: set<nat>, stack: Stack, ids': Ids)
    requires Sinking(ids0, ids, start, visited, stack) && stack != []
    requires |stack| > 1 ==> stack[|stack| - 2].node in ids
    requires var e := stack[|stack| - 1]; e.node in ids && ids' == ids[e.node := Min(ids[e.node], e.minSSAId)]
    ensures Sinking(ids0, ids', start, visited, Returned(stack, ids'[stack[|stack| - 1].node]))
  {
    var s := Returned(stack, ids'[stack[|stack| - 1].node]);
    forall v | v in visited ensures if s == [] then ids'[start] <= ids0[v] else StackReaches(s, ids', ids0[v]) {
      var i :| 0 <= i < |stack| && stack[i].node in ids && Min(stack[i].minSSAId, ids[stack[i].node]) <= ids0[v];
      if s != [] {
        StackReachesParent(stack, ids, ids', i, ids0[v]);
      }
    }
  }

  lemma StackReachesParent(stack: Stack, ids: Ids, ids': Ids, i: nat, bound: nat)
    requires |stack| > 1 && i < |stack| && stack[i].node in ids
    requires Min(stack[i].minSSAId, ids[stack[i].node]) <= bound
    requires var e := stack[|stack| - 1]; e.node in ids && ids' == ids[e.node := Min(ids[e.node], e.minSSAId)]
    requires stack[|stack| - 2].node in ids
    ensures StackReaches(Returned(stack, ids'[stack[|stack| - 1].node]), ids', bound)
  {
    var s := Returned(stack, ids'[stack[|stack| - 1].node]);
    var j := if i < |s| then i else |s| - 1;
    assert s[j].node in ids' && Min(s[j].minSSAId, ids'[s[j].node]) <= bound;
  }

  lemma ReachingTop(links: Links, start: nat, visited: set<nat>, stack: Stack)
    requires Reaching(links, start, visited, stack) && stack != []
    ensures var e := stack[|stack| - 1];
      && e.node in links && Connected(links, start, e.node)
      && (!e.entering ==> e.node in visited && forall x | x in e.todo :: x in links)
      && (|stack| > 1 ==> stack[|stack| - 2].node in links)
  {
    hide Connected;
  }

  lemma ReturnedWeight(stack: Stack, id: nat)
    requires stack != []
    ensures Weight(Returned(stack, id)) < Weight(stack)
  {
    var s := Popped(stack);
    if s != [] {
      assert Returned(stack, id)[..|s| - 1] == s[..|s| - 1];
    }
  }

  /** After the traversal from one node: its component has one id, the least of the component. */
  ghost predicate Leveled(links: Links, ids0: Ids, ids: Ids, start: nat, visited: set<nat>) {
    && ids0.Keys == ids.Keys == links.Keys && start in links
    && FromComponent(links, ids0, start, ids[start])
    && (forall n | n in links :: n in visited <==> Connected(links, start, n))
    && (forall n | n in visited :: n in links && ids[start] <= ids0[n])
    && (forall n | n in links && n !in visited :: ids[n] == ids0[n])
  }

  lemma TraversalDone(links: Links, ids0: Ids, ids: Ids, start: nat, visited: set<nat>)
    requires Reaching(links, start, visited, []) && Spreading(links, ids0, ids, start, [])
    requires Sinking(ids0, ids, start, visited, []) && start in visited
    ensures Leveled(links, ids0, ids, start, visited)
  {
    hide FromComponent, Connected;
    ConnectedSelf(links, start);
    AllVisited(links, start, visited);
  }

  lemma AllVisited(links: Links, start: nat, visited: set<nat>)
    requires Reaching(links, start, visited, []) && start in visited
    ensures forall n | n in links && Connected(links, start, n) :: n in visited
  {
    hide Connected;
    forall u, v | u in visited && u in links && v in links[u] ensures v in visited {
      assert !Pending([], u, v);
    }
    forall n | n in links && Connected(links, start, n) ensures n in visited {
      ClosedSetHoldsConnected(links, visited, start, n);
    }
  }

  /** The traversal from one node, with all visited flags off before it. */
  method SpreadFrom(links: Links, ids: Ids, start: nat) returns (ids': Ids, visited: set<nat>)
    requires Closed(links) && ids.Keys == links.Keys && start in links
    requires forall n | n in ids :: ids[n] <= SIZE_MAX
    ensures Leveled(links, ids, ids', start, visited)
  {
    hide Reaching, Spreading, Sinking, Connected, FromComponent, Leveled, Entered, Followed, Returned, Weight;
    ids', visited := ids, {};
    var stack := [Entry(start, links[start], true, SIZE_MAX)];
    TraversalStart(links, ids, start);
    while stack != []
      invariant ids'.Keys == links.Keys && visited <= links.Keys
      invariant Reaching(links, start, visited, stack)
      invariant Spreading(links, ids, ids', start, stack)
      invariant Sinking(ids, ids', start, visited, stack)
      invariant start in visited || (|stack| == 1 && stack[0].node == start && stack[0].entering)
      decreases links.Keys - visited, Weight(stack)
    {
      ReachingTop(links, start, visited, stack);
      var toPop := false;
      if stack[|stack| - 1].entering {
        toPop := stack[|stack| - 1].node in visited;
        if !toPop {
          SpreadEnter(links, ids, ids', start, visited, stack);
          visited := visited + {stack[|stack| - 1].node};
          stack := Entered(stack);
          ReachingTop(links, start, visited, stack);
        }
      }
      var entry := stack[|stack| - 1];
      if !toPop && entry.todo != {} {
        var next :| next in entry.todo;
        ghost var before := ids';
        ids' := ids'[next := Min(ids'[next], ids'[entry.node])];
        ReachingFollowed(links, start, visited, stack, next, ids'[next]);
        SpreadingFollowed(links, ids, before, start, stack, next, ids');
        SinkingFollowed(ids, before, start, visited, stack, next, links[next], ids');
        FollowedWeight(stack, next, links[next], ids'[next]);
        stack := Followed(stack, next, links[next], ids'[next]);
      } else {
        ghost var before := ids';
        ids' := ids'[entry.node := Min(ids'[entry.node], entry.minSSAId)];
        ReachingReturned(links, start, visited, stack, ids'[entry.node]);
        SpreadingReturned(links, ids, before, start, stack, ids');
        SinkingReturned(ids, before, start, visited, stack, ids');
        ReturnedWeight(stack, ids'[entry.node]);
        stack := Returned(stack, ids'[entry.node]);
      }
    }
    TraversalDone(links, ids, ids', start, visited);
  }

  lemma SpreadEnter(links: Links, ids0: Ids, ids: Ids, start: nat, visited: set<nat>, stack: Stack)
    requires Reaching(links, start, visited, stack) && Spreading(links, ids0, ids, start, stack)
    requires Sinking(ids0, ids, start, visited, stack) && stack != []
    requires stack[|stack| - 1].entering && stack[|stack| - 1].node !in visited
    ensures var visited' := visited + {stack[|stack| - 1].node}; var s := Entered(stack);
      && Reaching(links, start, visited', s) && Spreading(links, ids0, ids, start, s)
      && Sinking(ids0, ids, start, visited', s) && visited' <= links.Keys
      && s != [] && s[|s| - 1] == stack[|stack| - 1].(entering := false)
  {
    hide Connected, FromComponent;
    ReachingEntered(links, start, visited, stack);
    SinkingEntered(ids0, ids, start, visited, stack);
  }
}
