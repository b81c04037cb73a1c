/** Greedy colouring of an interference graph. */
module Coloring {
  import opened Bounds

  // Real registers get the first colours, every other node the first colour that none of its
  // neighbours has.

  /** The mark of a node without a colour. */
  const UNCOLORED: nat := 0xffff_ffff

  type Graph = seq<set<nat>>

  predicate WellFormed(graph: Graph) {
    && (forall v, nb | 0 <= v < |graph| && nb in graph[v] :: nb < |graph| && nb != v)
    && (forall v, nb | 0 <= v < |graph| && nb in graph[v] && nb < |graph| :: v in graph[nb])
  }

  /** Distinct nodes of real registers, which do not interfere with each other. */
  predicate Reals(graph: Graph, reals: seq<nat>) {
    && (forall i | 0 <= i < |reals| :: reals[i] < |graph|)
    && (forall i, j | 0 <= i < j < |reals| :: reals[i] != reals[j])
    && (forall i, j | 0 <= i < |reals| && 0 <= j < |reals| :: reals[i] < |graph| && reals[j] !in graph[reals[i]])
  }

  /** The colours of all nodes and the number of colours in use. */
  datatype Palette = Palette(colors: seq<nat>, count: nat)

  predicate UsedBy(nbs: set<nat>, colors: seq<nat>, c: nat) {
    exists nb :: nb in nbs && nb < |colors| && colors[nb] == c
  }

  /** The first colour from c on that no neighbour has, or the next new one. */
  function FirstFree(nbs: set<nat>, p: Palette, c: nat): (r: nat)
    requires c <= p.count
    ensures c <= r <= p.count
    ensures forall d | c <= d < r :: UsedBy(nbs, p.colors, d)
    ensures r < p.count ==> !UsedBy(nbs, p.colors, r)
    decreases p.count - c
  {
    if c == p.count || !UsedBy(nbs, p.colors, c) then c else FirstFree(nbs, p, c + 1)
  }

  datatype Colored = Colored(palette: Palette) | TooMany

  function ColorStep(graph: Graph, maxColors: nat, p: Palette, node: nat): Colored
    requires |p.colors| == |graph| && node < |graph|
  {
    if p.colors[node] != UNCOLORED then Colored(p)
    else
      var c := FirstFree(graph[node], p, 0);
      if c < p.count then Colored(Palette(p.colors[node := c], p.count))
      else if p.count >= maxColors then TooMany
      else Colored(Palette(p.colors[node := c], p.count + 1))
  }

  // ----- what every step keeps -----

  /** Interfering nodes have different colours. */
  predicate ProperColors(graph: Graph, p: Palette)
    requires |p.colors| == |graph|
  {
    forall v, nb | 0 <= v < |graph| && nb in graph[v] && nb < |graph| ::
      p.colors[v] != UNCOLORED ==> p.colors[v] != p.colors[nb]
  }

  /** The colours in use are exactly those below the count. */
  predicate ColorsInUse(p: Palette) {
    && (forall v | 0 <= v < |p.colors| :: p.colors[v] == UNCOLORED || p.colors[v] < p.count)
    && (forall c | 0 <= c < p.count :: c in p.colors)
  }

  predicate RealsFirst(reals: seq<nat>, p: Palette) {
    forall i | 0 <= i < |reals| :: reals[i] < |p.colors| && p.colors[reals[i]] == i
  }

  ghost predicate DegreeBound(graph: Graph, degree: nat) {
    forall v | 0 <= v < |graph| :: |graph[v]| <= degree
  }

  /** Everything that holds between the steps. */
  ghost predicate Sound(graph: Graph, reals: seq<nat>, maxColors: nat, p: Palette) {
    && |p.colors| == |graph|
    && ProperColors(graph, p)
    && ColorsInUse(p)
    && RealsFirst(reals, p)
    && |reals| <= p.count <= Max(|reals|, maxColors)
    && (forall degree: nat | DegreeBound(graph, degree) :: p.count <= Max(|reals|, degree + 1))
  }

  // ----- counting -----

  lemma {:induction false} ImageNoLarger(nbs: set<nat>, colors: seq<nat>, c: nat)
    requires forall d | 0 <= d < c :: UsedBy(nbs, colors, d)
    ensures c <= |nbs|
    decreases c
  {
    if c > 0 {
      assert UsedBy(nbs, colors, c - 1);
      var nb :| nb in nbs && nb < |colors| && colors[nb] == c - 1;
      var rest := nbs - {nb};
      forall d | 0 <= d < c - 1 ensures UsedBy(rest, colors, d) {
        assert UsedBy(nbs, colors, d);
        var x :| x in nbs && x < |colors| && colors[x] == d;
        assert x in rest;
      }
      ImageNoLarger(rest, colors, c - 1);
    }
  }

  /** A node refuses fewer colours than it has neighbours. */
  lemma FirstFreeBelowDegree(nbs: set<nat>, p: Palette)
    ensures FirstFree(nbs, p, 0) <= |nbs|
  {
    ImageNoLarger(nbs, p.colors, FirstFree(nbs, p, 0));
  }

  // ----- the steps -----

  lemma StepSound(graph: Graph, reals: seq<nat>, maxColors: nat, p: Palette, node: nat)
    requires WellFormed(graph) && Sound(graph, reals, maxColors, p) && node < |graph|
    requires |reals| < UNCOLORED && maxColors < UNCOLORED
    requires ColorStep(graph, maxColors, p, node).Colored?
    ensures var q := ColorStep(graph, maxColors, p, node).palette;
      && Sound(graph, reals, maxColors, q)
      && q.colors[node] != UNCOLORED
      && (p.colors[node] == UNCOLORED ==> forall d | 0 <= d < q.colors[node] :: UsedBy(graph[node], p.colors, d))
      && (forall v | 0 <= v < |graph| && p.colors[v] != UNCOLORED :: q.colors[v] == p.colors[v])
  {
    if p.colors[node] == UNCOLORED {
      var q := ColorStep(graph, maxColors, p, node).palette;
      var c := FirstFree(graph[node], p, 0);
      FreshColor(graph, p, node, c);
      FirstFreeBelowDegree(graph[node], p);
      InUseAfter(p, node, c, q);
    }
  }

  lemma FreshColor(graph: Graph, p: Palette, node: nat, c: nat)
    requires WellFormed(graph) && |p.colors| == |graph| && node < |graph|
    requires ProperColors(graph, p) && ColorsInUse(p)
    requires c == FirstFree(graph[node], p, 0) && p.count <= UNCOLORED
    ensures c < UNCOLORED ==> ProperColors(graph, Palette(p.colors[node := c], p.count))
  {
    forall nb | nb in graph[node] ensures p.colors[nb] != c || c == UNCOLORED {
      if p.colors[nb] == c {
        assert UsedBy(graph[node], p.colors, c);
      }
    }
  }

  lemma InUseAfter(p: Palette, node: nat, c: nat, q: Palette)
    requires ColorsInUse(p) && node < |p.colors| && p.colors[node] == UNCOLORED && p.count <= UNCOLORED
    requires c <= p.count && q.colors == p.colors[node := c]
    requires q.count == if c == p.count then p.count + 1 else p.count
    ensures ColorsInUse(q)
  {
    forall d | 0 <= d < q.count ensures d in q.colors {
      if d == c {
        assert q.colors[node] == c;
      } else {
        assert d in p.colors;
        var v :| 0 <= v < |p.colors| && p.colors[v] == d;
        assert q.colors[v] == d;
      }
    }
  }

  /** The step gives up exactly when the palette is full and the node's neighbours have every
      colour in use. */
  lemma GivesUpWhenFull(graph: Graph, maxColors: nat, p: Palette, node: nat)
    requires |p.colors| == |graph| && node < |graph|
    ensures ColorStep(graph, maxColors, p, node).TooMany?
            <==> p.colors[node] == UNCOLORED && p.count >= maxColors
                 && forall c | 0 <= c < p.count :: UsedBy(graph[node], p.colors, c)
  {
  }

  // ----- any picking order -----

  /** Picks the nodes in the given order; a node that is coloured already is passed over. */
  function ColorInOrder(graph: Graph, maxColors: nat, p: Palette, order: seq<nat>): (r: Colored)
    requires |p.colors| == |graph|
    requires forall i | 0 <= i < |order| :: order[i] < |graph|
    ensures r.Colored? ==> |r.palette.colors| == |graph|
    decreases order
  {
    if order == [] then Colored(p)
    else
      match ColorStep(graph, maxColors, p, order[0])
      case Colored(q) => ColorInOrder(graph, maxColors, q, order[1..])
      case TooMany => TooMany
  }

  predicate Initial(graph: Graph, reals: seq<nat>, p: Palette) {
    && |p.colors| == |graph|
    && p.count == |reals|
    && RealsFirst(reals, p)
    && (forall v | 0 <= v < |graph| && v !in reals :: p.colors[v] == UNCOLORED)
  }

  lemma InitialSound(graph: Graph, reals: seq<nat>, maxColors: nat, p: Palette)
    requires WellFormed(graph) && Reals(graph, reals) && Initial(graph, reals, p)
    ensures Sound(graph, reals, maxColors, p)
  {
    forall v | 0 <= v < |graph| && p.colors[v] != UNCOLORED ensures exists i :: 0 <= i < |reals| && reals[i] == v {
    }
    forall v, nb | 0 <= v < |graph| && nb in graph[v] && nb < |graph| && p.colors[v] != UNCOLORED
      ensures p.colors[v] != p.colors[nb]
    {
      var i :| 0 <= i < |reals| && reals[i] == v;
      assert nb !in reals;
    }
    forall c | 0 <= c < p.count ensures c in p.colors {
      assert p.colors[reals[c]] == c;
    }
  }

  /** With every degree below the number of registers, no step gives up. */
  lemma DegreePreventsGivingUp(graph: Graph, maxColors: nat, p: Palette, node: nat, degree: nat)
    requires |p.colors| == |graph| && node < |graph|
    requires DegreeBound(graph, degree) && degree < maxColors
    ensures ColorStep(graph, maxColors, p, node).Colored?
  {
    FirstFreeBelowDegree(graph[node], p);
  }

  /** MAIN: for every picking order, the colouring is sound when the run ends, all picked nodes
      are coloured, and no node loses a colour it had. */
  lemma {:induction false} AnyOrderIsSound(graph: Graph, reals: seq<nat>, maxColors: nat, p: Palette, order: seq<nat>)
    requires WellFormed(graph) && Sound(graph, reals, maxColors, p)
    requires |reals| < UNCOLORED && maxColors < UNCOLORED
    requires forall i | 0 <= i < |order| :: order[i] < |graph|
    ensures var r := ColorInOrder(graph, maxColors, p, order);
      r.Colored? ==>
        && Sound(graph, reals, maxColors, r.palette)
        && (forall i | 0 <= i < |order| :: r.palette.colors[order[i]] != UNCOLORED)
        && (forall v | 0 <= v < |graph| && p.colors[v] != UNCOLORED :: r.palette.colors[v] == p.colors[v])
    ensures forall degree: nat | DegreeBound(graph, degree) && degree < maxColors ::
              ColorInOrder(graph, maxColors, p, order).Colored?
    decreases order
  {
    hide Sound;
    SoundLength(graph, reals, maxColors, p);
    if order != [] {
      forall degree: nat | DegreeBound(graph, degree) && degree < maxColors
        ensures ColorStep(graph, maxColors, p, order[0]).Colored?
      {
        DegreePreventsGivingUp(graph, maxColors, p, order[0], degree);
      }
      if ColorStep(graph, maxColors, p, order[0]).Colored? {
        var q := ColorStep(graph, maxColors, p, order[0]).palette;
        StepSound(graph, reals, maxColors, p, order[0]);
        AnyOrderIsSound(graph, reals, maxColors, q, order[1..]);
      }
    }
  }

  lemma SoundLength(graph: Graph, reals: seq<nat>, maxColors: nat, p: Palette)
    requires Sound(graph, reals, maxColors, p)
    ensures |p.colors| == |graph|
  {
  }

  // ----- the picking order of the code -----

  /** A neighbour of the coloured node has the new colour next to it already when its
      saturation is updated. */
  predicate Saturates(graph: Graph, p: Palette, node: nat)
    requires |p.colors| == |graph| && node < |graph|
  {
    exists nb :: nb in graph[node] && nb < |graph| && !UsedBy(graph[nb], p.colors, p.colors[node])
  }

  /** The loop as it is written: the front of the queue is picked and stays in the queue, which
      is put in a new order only when some neighbour's saturation changes. */
  function ColorFront(graph: Graph, maxColors: nat, p: Palette, queue: seq<nat>, rounds: nat,
                      reorder: seq<nat> -> seq<nat>): (r: Colored)
    requires |p.colors| == |graph|
    decreases rounds
  {
    if rounds == 0 || queue == [] || queue[0] >= |graph| then Colored(p)
    else
      match ColorStep(graph, maxColors, p, queue[0])
      case TooMany => TooMany
      case Colored(q) =>
        var moved := p.colors[queue[0]] == UNCOLORED && Saturates(graph, q, queue[0]);
        ColorFront(graph, maxColors, q, if moved then reorder(queue) else queue, rounds - 1, reorder)
  }

  /** No saturation ever changes, so that loop colours the first node of its queue only,
      whatever the number of rounds. */
  lemma {:induction false} OnlyTheFrontIsColored(graph: Graph, maxColors: nat, p: Palette, queue: seq<nat>,
                                                 rounds: nat, reorder: seq<nat> -> seq<nat>)
    requires WellFormed(graph) && |p.colors| == |graph| && p.count < UNCOLORED && rounds > 0
    requires queue != [] && queue[0] < |graph|
    ensures ColorFront(graph, maxColors, p, queue, rounds, reorder) == ColorStep(graph, maxColors, p, queue[0])
    decreases rounds
  {
    var node := queue[0];
    var r := ColorStep(graph, maxColors, p, node);
    if r.Colored? {
      forall nb | nb in graph[node] ensures UsedBy(graph[nb], r.palette.colors, r.palette.colors[node]) {
        assert node in graph[nb];
      }
      assert r.palette.colors[node] != UNCOLORED;
      assert ColorStep(graph, maxColors, r.palette, node) == Colored(r.palette);
      if rounds > 1 {
        StaysColored(graph, maxColors, r.palette, queue, rounds - 1, reorder);
      }
    }
  }

  lemma {:induction false} StaysColored(graph: Graph, maxColors: nat, p: Palette, queue: seq<nat>, rounds: nat,
                                        reorder: seq<nat> -> seq<nat>)
    requires |p.colors| == |graph| && queue != [] && queue[0] < |graph| && p.colors[queue[0]] != UNCOLORED
    ensures ColorFront(graph, maxColors, p, queue, rounds, reorder) == Colored(p)
    decreases rounds
  {
    if rounds > 0 {
      StaysColored(graph, maxColors, p, queue, rounds - 1, reorder);
    }
  }

  /** The colours of real registers are at a node's neighbours exactly when the registers are. */
  lemma RealsUsed(graph: Graph, reals: seq<nat>, p: Palette, node: nat, c: nat)
    requires WellFormed(graph) && Reals(graph, reals) && Initial(graph, reals, p)
    requires node < |graph| && c < |reals| < UNCOLORED
    ensures UsedBy(graph[node], p.colors, c) <==> reals[c] in graph[node]
  {
    if nb :| nb in graph[node] && nb < |p.colors| && p.colors[nb] == c {
      assert nb in reals;
      var i :| 0 <= i < |reals| && reals[i] == nb;
    }
    assert p.colors[reals[c]] == c;
  }

  /** Whether a node can be given a colour right after the real registers. */
  predicate Colorable(graph: Graph, reals: seq<nat>, maxColors: nat, node: nat)
    requires node < |graph|
  {
    node in reals || |reals| < maxColors || exists r :: r in reals && r !in graph[node]
  }

  predicate AllColored(graph: Graph, r: Colored) {
    r.Colored? && |r.palette.colors| == |graph| && forall v | 0 <= v < |graph| :: r.palette.colors[v] != UNCOLORED
  }

  /** The loop as it is written colours all nodes exactly when all but the front of its queue are
      real registers, and the front can be given a colour. */
  lemma AllColoredIff(graph: Graph, reals: seq<nat>, maxColors: nat, p: Palette, queue: seq<nat>,
                      rounds: nat, reorder: seq<nat> -> seq<nat>)
    requires WellFormed(graph) && Reals(graph, reals) && Initial(graph, reals, p) && |reals| < UNCOLORED
    requires queue != [] && queue[0] < |graph| && rounds > 0
    ensures var r := ColorFront(graph, maxColors, p, queue, rounds, reorder);
      AllColored(graph, r)
      <==> (forall v | 0 <= v < |graph| && v != queue[0] :: v in reals) && Colorable(graph, reals, maxColors, queue[0])
  {
    var node := queue[0];
    OnlyTheFrontIsColored(graph, maxColors, p, queue, rounds, reorder);
    GivesUpWhenFull(graph, maxColors, p, node);
    forall c | 0 <= c < |reals| ensures UsedBy(graph[node], p.colors, c) <==> reals[c] in graph[node] {
      RealsUsed(graph, reals, p, node, c);
    }
    hide ColorFront, UsedBy, WellFormed;
    assert forall v | 0 <= v < |graph| :: p.colors[v] != UNCOLORED <==> v in reals;
    var r := ColorStep(graph, maxColors, p, node);
    assert r.Colored? ==> r.palette.colors[node] != UNCOLORED
                          && forall v | 0 <= v < |graph| && v != node :: r.palette.colors[v] == p.colors[v];
  }

  /** Of two free nodes that do not interfere, the second one stays uncoloured. */
  lemma SecondNodeStays(maxColors: nat, rounds: nat, reorder: seq<nat> -> seq<nat>)
    requires maxColors > 0 && rounds > 0
    ensures var p := Palette([UNCOLORED, UNCOLORED], 0);
      && Initial([{}, {}], [], p)
      && ColorFront([{}, {}], maxColors, p, [0, 1], rounds, reorder) == Colored(Palette([0, UNCOLORED], 1))
  {
    var p := Palette([UNCOLORED, UNCOLORED], 0);
    OnlyTheFrontIsColored([{}, {}], maxColors, p, [0, 1], rounds, reorder);
    assert FirstFree({}, p, 0) == 0;
  }

  lemma SoundInUse(graph: Graph, reals: seq<nat>, maxColors: nat, p: Palette)
    requires Sound(graph, reals, maxColors, p) && |reals| < UNCOLORED && maxColors < UNCOLORED
    ensures ColorsInUse(p) && p.count < UNCOLORED
  {
  }

  // ----- the allocator -----

  class GraphColoring {
    const graph: Graph
    const maxColors: nat
    const gcMap: array<nat>
    var colorsNum: nat

    ghost function View(): Palette
      reads this, gcMap
    {
      Palette(gcMap[..], colorsNum)
    }

    ghost predicate Valid()
      reads this, gcMap
    {
      gcMap.Length == |graph|
    }

    /** Marks all nodes as uncoloured and gives the real registers the first colours. */
    constructor (graph: Graph, reals: seq<nat>, maxColors: nat)
      requires WellFormed(graph) && Reals(graph, reals)
      ensures this.graph == graph && this.maxColors == maxColors
      ensures Valid() && fresh(gcMap)
      ensures Initial(graph, reals, View())
    {
      this.graph := graph;
      this.maxColors := maxColors;
      gcMap := new nat[|graph|](_ => UNCOLORED);
      colorsNum := 0;
      new;
      while colorsNum < |reals|
        invariant colorsNum <= |reals|
        invariant forall i | 0 <= i < colorsNum :: gcMap[reals[i]] == i
        invariant forall v | 0 <= v < |graph| && v !in reals :: gcMap[v] == UNCOLORED
      {
        gcMap[reals[colorsNum]] := colorsNum;
        colorsNum := colorsNum + 1;
      }
    }

    method HasColor(nbs: set<nat>, color: nat) returns (thisSame: bool)
      requires forall nb | nb in nbs :: nb < gcMap.Length
      ensures thisSame == UsedBy(nbs, gcMap[..], color)
    {
      var rest := nbs;
      while rest != {}
        invariant rest <= nbs
        invariant forall nb | nb in nbs - rest :: gcMap[nb] != color
        decreases rest
      {
        var nb :| nb in rest;
        if gcMap[nb] == color {
          assert gcMap[..][nb] == color;
          return true;
        }
        rest := rest - {nb};
      }
      return false;
    }

    /** Gives an uncoloured node its first free colour; false when there are too many colours. */
    method ColorNode(node: nat) returns (ok: bool)
      requires Valid() && WellFormed(graph) && node < |graph| && ColorsInUse(View())
      requires colorsNum < UNCOLORED
      modifies this`colorsNum, gcMap
      ensures Valid()
      ensures ok == ColorStep(graph, maxColors, old(View()), node).Colored?
      ensures View() == if ok then ColorStep(graph, maxColors, old(View()), node).palette else old(View())
    {
      if gcMap[node] != UNCOLORED {
        return true;
      }
      ghost var p := View();
      var color := 0;
      while color <= colorsNum
        invariant color <= colorsNum
        invariant gcMap[..] == p.colors && colorsNum == p.count
        invariant FirstFree(graph[node], p, 0) == FirstFree(graph[node], p, color)
        decreases colorsNum - color
      {
        var thisSame := HasColor(graph[node], color);
        if !thisSame {
          break;
        }
        assert color < colorsNum by {
          var nb :| nb in graph[node] && nb < |p.colors| && p.colors[nb] == color;
        }
        color := color + 1;
      }
      if color == colorsNum {
        if colorsNum >= maxColors {
          return false;
        }
        colorsNum := colorsNum + 1;
      }
      gcMap[node] := color;
      return true;
    }

    /** Colours the nodes in the order in which they are picked, whatever it is. */
    method ColorAll(order: seq<nat>, reals: seq<nat>) returns (ok: bool)
      requires Valid() && WellFormed(graph) && Sound(graph, reals, maxColors, View())
      requires |reals| < UNCOLORED && maxColors < UNCOLORED
      requires forall i | 0 <= i < |order| :: order[i] < |graph|
      modifies this`colorsNum, gcMap
      ensures Valid() && Sound(graph, reals, maxColors, View())
      ensures ok == ColorInOrder(graph, maxColors, old(View()), order).Colored?
      ensures ok ==> View() == ColorInOrder(graph, maxColors, old(View()), order).palette
      ensures ok ==> forall i | 0 <= i < |order| :: gcMap[order[i]] != UNCOLORED
    {
      hide Sound, WellFormed, ColorStep;
      ghost var p := View();
      AnyOrderIsSound(graph, reals, maxColors, p, order);
      var colored := 0;
      while colored < |order|
        invariant 0 <= colored <= |order|
        invariant Valid() && Sound(graph, reals, maxColors, View())
        invariant ColorInOrder(graph, maxColors, p, order) == ColorInOrder(graph, maxColors, View(), order[colored..])
      {
        ghost var before := View();
        SoundInUse(graph, reals, maxColors, before);
        var stepped := ColorNode(order[colored]);
        if !stepped {
          return false;
        }
        StepSound(graph, reals, maxColors, before, order[colored]);
        colored := colored + 1;
      }
      assert order[colored..] == [];
      return true;
    }
  }
}
