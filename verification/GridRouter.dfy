/** The least-cost wire search of the hierarchy drawing (schematic/icglue_hier_drawio.py, _astar_grid). */
module GridRouter {
  import opened Wrappers
  import opened Sequences
  import opened GridPaths
  import opened LeastCost

  // The search runs over lane crossings paired with the axis they were entered on, since a corner costs extra.
  datatype Entered = ByHorizontal | ByVertical | AtStart

  datatype State = State(node: Node, d: Entered)

  datatype Direction = Direction(dx: int, dy: int, d: Entered)

  const DIRECTIONS := [
    Direction(1, 0, ByHorizontal), Direction(-1, 0, ByHorizontal),
    Direction(0, 1, ByVertical), Direction(0, -1, ByVertical)]

  function Rank(d: Entered): nat {
    match d case ByHorizontal => 0 case ByVertical => 1 case AtStart => 2
  }

  predicate StateLe(a: State, b: State) {
    a.node.ix < b.node.ix || (a.node.ix == b.node.ix &&
    (a.node.iy < b.node.iy || (a.node.iy == b.node.iy && Rank(a.d) <= Rank(b.d))))
  }

  /** The order of the heap: tuples compare by cost, then by state, then by predecessor. */
  predicate EntryLe(a: Entry<State>, b: Entry<State>) {
    a.cost < b.cost || (a.cost == b.cost &&
    if a.state != b.state then StateLe(a.state, b.state)
    else a.par.None? || (b.par.Some? && StateLe(a.par.value, b.par.value)))
  }

  /** Removes a least entry. */
  method HeapPop(pq: seq<Entry<State>>) returns (e: Entry<State>, rest: seq<Entry<State>>)
    requires pq != []
    ensures multiset(pq) == multiset(rest) + multiset{e}
    ensures forall x :: x in pq ==> EntryLe(e, x)
    ensures forall x :: x in pq <==> x == e || x in rest
    ensures |rest| == |pq| - 1
  {
    var best := 0;
    for i := 1 to |pq|
      invariant 0 <= best < |pq|
      invariant forall k :: 0 <= k < i ==> EntryLe(pq[best], pq[k])
    {
      if !EntryLe(pq[best], pq[i]) { best := i; }
    }
    e := pq[best];
    rest := pq[..best] + pq[best + 1..];
    assert pq == pq[..best] + [e] + pq[best + 1..];
  }

  /** True exactly when the segment runs through the interior of some box. */
  method SegHits(x0: real, y0: real, x1: real, y1: real, obstacles: seq<Box>) returns (r: bool)
    ensures r <==> exists o :: o in obstacles && CrossesBox(x0, y0, x1, y1, o)
  {
    for i := 0 to |obstacles|
      invariant forall k :: 0 <= k < i ==> !CrossesBox(x0, y0, x1, y1, obstacles[k])
    {
      var o := obstacles[i];
      if Abs(x0 - x1) < EPSILON {
        if o.ax0 < x0 < o.ax1 {
          var lo, hi := Min(y0, y1), Max(y0, y1);
          if Min(hi, o.ay1) - Max(lo, o.ay0) > EPSILON {
            assert o in obstacles && CrossesBox(x0, y0, x1, y1, o);
            return true;
          }
        }
      } else {
        if o.ay0 < y0 < o.ay1 {
          var lo, hi := Min(x0, x1), Max(x0, x1);
          if Min(hi, o.ax1) - Max(lo, o.ax0) > EPSILON {
            assert o in obstacles && CrossesBox(x0, y0, x1, y1, o);
            return true;
          }
        }
      }
    }
    return false;
  }

  /** The lanes with v among them, still strictly increasing. */
  function WithLane(lanes: seq<real>, v: real): (r: seq<real>)
    requires Increasing(lanes)
    ensures Increasing(r)
    ensures forall x :: x in r <==> x in lanes || x == v
    ensures v in lanes ==> r == lanes
  {
    if v in lanes then lanes
    else if lanes == [] || v <= lanes[0] then [v] + lanes
    else
      assert lanes == [lanes[0]] + lanes[1..];
      var rest := WithLane(lanes[1..], v);
      HeadIsLeast(lanes, rest, v);
      [lanes[0]] + rest
  }

  lemma HeadIsLeast(lanes: seq<real>, rest: seq<real>, v: real)
    requires Increasing(lanes) && lanes != [] && lanes[0] < v
    requires forall x :: x in rest ==> x in lanes[1..] || x == v
    ensures forall i :: 0 <= i < |rest| ==> lanes[0] < rest[i]
  {
    forall i | 0 <= i < |rest| ensures lanes[0] < rest[i] {
      assert rest[i] in rest;
      if rest[i] != v {
        var j :| 0 <= j < |lanes[1..]| && lanes[1..][j] == rest[i];
        assert lanes[0] < lanes[j + 1];
      }
    }
  }

  method LaneIndex(lanes: seq<real>, v: real) returns (i: nat)
    requires v in lanes
    ensures i < |lanes| && lanes[i] == v
  {
    i := 0;
    while lanes[i] != v
      invariant i < |lanes|
      invariant v !in lanes[..i]
      decreases |lanes| - i
    {
      assert lanes[..i + 1] == lanes[..i] + [lanes[i]];
      i := i + 1;
    }
  }

  function EnteredBy(a: Node, b: Node): Entered {
    if AxisOf(a, b).Horizontal? then ByHorizontal else ByVertical
  }

  /** The state a path ends in. */
  ghost function StateOf(p: seq<Node>): State
    requires p != []
  {
    State(p[|p| - 1], if |p| == 1 then AtStart else EnteredBy(p[|p| - 2], p[|p| - 1]))
  }

  /** What one step from a state adds to the cost. */
  function Step(g: Grid, from: State, to: Node): real
    requires g.Contains(from.node) && g.Contains(to)
  {
    g.Length(from.node, to)
    + (if from.d != AtStart && from.d != EnteredBy(from.node, to) then TURN else 0.0)
    + g.Congestion(from.node, to)
  }

  function Target(from: State, to: Node): State { State(to, EnteredBy(from.node, to)) }

  predicate StateEdge(g: Grid, a: State, b: State) { g.Edge(a.node, b.node) && b == Target(a, b.node) }

  function StateWeight(g: Grid, a: State, b: State): real {
    if g.Contains(a.node) && g.Contains(b.node) then Step(g, a, b.node) else 0.0
  }

  /** The graph the search walks: its edges are the free steps of the grid, its weights what they add. */
  ghost function StateGraph(g: Grid): Graph<State> {
    Graph((a, b) => StateEdge(g, a, b), (a, b) => StateWeight(g, a, b))
  }

  lemma StepsCostNothingNegative(g: Grid)
    requires g.Valid()
    ensures NonNegative(StateGraph(g))
  {
    forall a, b | StateEdge(g, a, b) ensures StateWeight(g, a, b) >= 0.0 {
      assert g.Edge(a.node, b.node);
    }
  }

  /** The states a path goes through. */
  ghost function States(p: seq<Node>): (w: seq<State>)
    ensures |w| == |p|
    ensures p != [] ==> w[0] == State(p[0], AtStart) && w[|w| - 1] == StateOf(p)
  {
    if p == [] then [] else States(p[..|p| - 1]) + [StateOf(p)]
  }

  ghost function Nodes(w: seq<State>): seq<Node> { seq(|w|, i requires 0 <= i < |w| => w[i].node) }

  /** A path of the grid is a walk of the state graph, at the same cost. */
  lemma {:induction false} PathIsWalk(g: Grid, p: seq<Node>)
    requires g.IsPath(p)
    ensures IsWalk(StateGraph(g), States(p))
    ensures WalkCost(StateGraph(g), States(p)) == CostOf(g, p)
    decreases |p|
  {
    if |p| > 1 {
      var q, n := p[..|p| - 1], p[|p| - 1];
      PrefixIsPath(g, p);
      PathIsWalk(g, q);
      CostOfExtension(g, q, n);
      assert q + [n] == p && States(p) == States(q) + [StateOf(p)];
      WalkExtension(StateGraph(g), States(q), StateOf(p));
    }
  }

  /** A walk from a start state is a path of the grid, at the same cost. */
  lemma {:induction false} WalkIsPath(g: Grid, w: seq<State>)
    requires IsWalk(StateGraph(g), w) && w[0].d == AtStart && g.Contains(w[0].node)
    ensures g.IsPath(Nodes(w)) && StateOf(Nodes(w)) == Last(w)
    ensures CostOf(g, Nodes(w)) == WalkCost(StateGraph(g), w)
    decreases |w|
  {
    if |w| > 1 {
      var v, n := w[..|w| - 1], w[|w| - 1];
      WalkPrefix(StateGraph(g), w);
      WalkIsPath(g, v);
      assert StateEdge(g, Last(v), n);
      CostOfExtension(g, Nodes(v), n.node);
      assert Nodes(v) + [n.node] == Nodes(w);
      assert StateWeight(g, Last(v), n) == Step(g, Last(v), n.node);
    }
  }

  /** Appending a step to a path adds exactly the step's cost. */
  lemma CostOfExtension(g: Grid, p: seq<Node>, n: Node)
    requires g.IsPath(p) && g.Edge(p[|p| - 1], n)
    ensures g.IsPath(p + [n])
    ensures StateOf(p + [n]) == Target(StateOf(p), n)
    ensures CostOf(g, p + [n]) == CostOf(g, p) + Step(g, StateOf(p), n)
  {
    var q := p + [n];
    forall i | 0 <= i < |q| - 1 ensures g.Edge(q[i], q[i + 1]) {
      if i < |p| - 1 { assert g.Edge(p[i], p[i + 1]); }
    }
    PathContains(g, q);
    PathContains(g, p);
    assert q[..|q| - 1] == p;
  }

  /** An edge is found by looking one lane on in the four directions. */
  lemma EdgeDirection(g: Grid, a: Node, b: Node) returns (i: nat)
    requires g.Edge(a, b)
    ensures i < 4
    ensures b == Node(a.ix + DIRECTIONS[i].dx, a.iy + DIRECTIONS[i].dy)
    ensures EnteredBy(a, b) == DIRECTIONS[i].d
  {
    i := if b.ix == a.ix + 1 then 0 else if b.ix == a.ix - 1 then 1 else if b.iy == a.iy + 1 then 2 else 3;
  }

  /** There are only finitely many states, so the search ends. */
  lemma StatesAreFinite(g: Grid) returns (all: set<State>)
    ensures forall k: State :: g.Contains(k.node) ==> k in all
  {
    all := set ix, iy, d | 0 <= ix < |g.xs| && 0 <= iy < |g.ys| && d in {ByHorizontal, ByVertical, AtStart} ::
      State(Node(ix, iy), d);
    forall k: State | g.Contains(k.node) ensures k in all {
      var ix, iy, d := k.node.ix, k.node.iy, k.d;
      assert d.ByHorizontal? || d.ByVertical? || d.AtStart?;
      assert d in {ByHorizontal, ByVertical, AtStart};
      assert k == State(Node(ix, iy), d);
    }
  }

  /** Looks one lane on in one direction: the entry to push, if the wire there is free. */
  method Probe(g: Grid, k: State, cost: real, dir: Direction) returns (r: Option<Entry<State>>)
    requires g.Contains(k.node) && dir in DIRECTIONS
    ensures var n := Node(k.node.ix + dir.dx, k.node.iy + dir.dy);
      r == if g.Edge(k.node, n) then Some(Successor(g, k, cost, n)) else None
  {
    var x, y := g.xs[k.node.ix], g.ys[k.node.iy];
    var n := Node(k.node.ix + dir.dx, k.node.iy + dir.dy);
    if !g.Contains(n) { return None; }
    var nx, ny := g.xs[n.ix], g.ys[n.iy];
    var hit := SegHits(x, y, nx, ny, g.obstacles);
    if hit { return None; }
    var ek := EdgeKey((x, y), (nx, ny));
    var step := Abs(nx - x) + Abs(ny - y);
    var turn := if k.d != AtStart && k.d != dir.d then TURN else 0.0;
    var block := if ek !in g.owner || g.owner[ek] == g.net then 0.0 else g.cong;
    var congc := block + HISTORY_WEIGHT * (if ek in g.hist then g.hist[ek] else 0.0);
    return Some(Entry(cost + step + turn + congc, State(n, dir.d), Some(k)));
  }

  function Successor(g: Grid, k: State, cost: real, n: Node): Entry<State>
    requires g.Contains(k.node) && g.Contains(n)
  {
    Entry(cost + Step(g, k, n), Target(k, n), Some(k))
  }

  ghost predicate IsSuccessor(g: Grid, k: State, cost: real, e: Entry<State>)
    requires g.Contains(k.node)
  {
    g.Edge(k.node, e.state.node) && e == Successor(g, k, cost, e.state.node)
  }

  ghost predicate Pushed(g: Grid, k: State, cost: real, dir: Direction, pushed: seq<Entry<State>>)
    requires g.Contains(k.node)
  {
    var n := Node(k.node.ix + dir.dx, k.node.iy + dir.dy);
    g.Edge(k.node, n) ==> Successor(g, k, cost, n) in pushed
  }

  /** The entries pushed when state k is expanded: one per free edge out of it. */
  method Expand(g: Grid, k: State, cost: real) returns (pushed: seq<Entry<State>>)
    requires g.Contains(k.node)
    ensures IsExpansion(StateGraph(g), k, cost, pushed)
    ensures forall e :: e in pushed ==> g.Contains(e.state.node)
  {
    pushed := [];
    for i := 0 to 4
      invariant forall e :: e in pushed ==> IsSuccessor(g, k, cost, e)
      invariant forall j :: 0 <= j < i ==> Pushed(g, k, cost, DIRECTIONS[j], pushed)
    {
      var r := Probe(g, k, cost, DIRECTIONS[i]);
      ghost var before := pushed;
      if r.Some? { pushed := pushed + [r.value]; }
      assert forall e :: e in before ==> e in pushed;
    }
    PushedIsExpansion(g, k, cost, pushed);
  }

  lemma PushedIsExpansion(g: Grid, k: State, cost: real, pushed: seq<Entry<State>>)
    requires g.Contains(k.node)
    requires forall e :: e in pushed ==> IsSuccessor(g, k, cost, e)
    requires forall j :: 0 <= j < 4 ==> Pushed(g, k, cost, DIRECTIONS[j], pushed)
    ensures IsExpansion(StateGraph(g), k, cost, pushed)
    ensures forall e :: e in pushed ==> g.Contains(e.state.node)
  {
    forall e | e in pushed
      ensures e.par == Some(k) && StateEdge(g, k, e.state) && e.cost == cost + StateWeight(g, k, e.state)
    {
      assert IsSuccessor(g, k, cost, e);
    }
    forall n | StateEdge(g, k, n) ensures Entry(cost + StateWeight(g, k, n), n, Some(k)) in pushed {
      var i := EdgeDirection(g, k.node, n.node);
      assert Pushed(g, k, cost, DIRECTIONS[i], pushed);
    }
  }

  /** Follows the predecessors from k0 back to the start. */
  method Reconstruct(g: Grid, prev: map<State, Option<State>>, k0: State, ghost walks: map<State, seq<State>>)
    returns (r: seq<Point>)
    requires walks.Keys == prev.Keys && k0 in prev
    requires forall k :: k in prev ==> g.Contains(k.node)
    requires forall k {:trigger Linked(prev, walks, k)} :: k in prev ==> Linked(prev, walks, k)
    ensures r == PointsOf(g, Nodes(walks[k0]))
  {
    var path: seq<Point> := [];
    var k := Some(k0);
    ghost var left := walks[k0];
    while k.Some?
      invariant if k.Some? then k.value in walks && left == walks[k.value] else left == []
      invariant PointsOf(g, Nodes(left)) + Reversed(path) == PointsOf(g, Nodes(walks[k0]))
      decreases |left|, k.Some?
    {
      assert Linked(prev, walks, k.value);
      ghost var before := if prev[k.value].Some? then walks[prev[k.value].value] else [];
      TakeBack(g, before, k.value, path);
      path := path + [(g.xs[k.value.node.ix], g.ys[k.value.node.iy])];
      k := prev[k.value];
      left := before;
    }
    return Reversed(path);
  }

  // ---------------------------------------------------------------------------

  /** The drawn points of a path; crossings off the grid do not occur on paths. */
  ghost function PointsOf(g: Grid, p: seq<Node>): seq<Point> {
    if p == [] then [] else
      PointsOf(g, p[..|p| - 1]) + [if g.Contains(p[|p| - 1]) then g.At(p[|p| - 1]) else (0.0, 0.0)]
  }

  /** The points of a path are where its lanes cross. */
  lemma {:induction false} PointsAreCrossings(g: Grid, p: seq<Node>)
    requires forall n :: n in p ==> g.Contains(n)
    ensures |PointsOf(g, p)| == |p|
    ensures forall i :: 0 <= i < |p| ==> g.Contains(p[i]) && PointsOf(g, p)[i] == (g.xs[p[i].ix], g.ys[p[i].iy])
  {
    if p != [] { PointsAreCrossings(g, p[..|p| - 1]); }
  }

  /** The drawn points of a route lead from s to t. */
  lemma RouteLeads(g: Grid, p: seq<Node>, s: Point, t: Point)
    requires g.IsRoute(p, s, t)
    ensures |PointsOf(g, p)| == |p| && PointsOf(g, p)[0] == s && PointsOf(g, p)[|p| - 1] == t
  {
    PathContains(g, p);
    PointsAreCrossings(g, p);
  }

  /** Moving the last state of a walk onto the reversed trail keeps the points they spell together. */
  lemma TakeBack(g: Grid, w: seq<State>, k: State, path: seq<Point>)
    requires g.Contains(k.node)
    ensures PointsOf(g, Nodes(w)) + Reversed(path + [g.At(k.node)]) == PointsOf(g, Nodes(w + [k])) + Reversed(path)
  {
    assert Nodes(w + [k])[..|w|] == Nodes(w);
    assert (path + [g.At(k.node)])[..|path|] == path;
  }

  ghost predicate IsCheapestRoute(g: Grid, p: seq<Node>, s: Point, t: Point) {
    g.IsRoute(p, s, t) && forall q :: g.IsRoute(q, s, t) ==> CostOf(g, p) <= CostOf(g, q)
  }

  /** Both end points of a route are the crossings the search starts from and stops at. */
  lemma RouteIsWalk(g: Grid, start: Node, goal: Node, q: seq<Node>)
    requires g.Valid() && g.Contains(start) && g.Contains(goal)
    requires g.IsRoute(q, g.At(start), g.At(goal))
    ensures IsWalk(StateGraph(g), States(q)) && States(q)[0] == State(start, AtStart)
    ensures Last(States(q)).node == goal && WalkCost(StateGraph(g), States(q)) == CostOf(g, q)
  {
    OneNodePerPoint(g, q[0], start);
    OneNodePerPoint(g, q[|q| - 1], goal);
    PathIsWalk(g, q);
  }

  lemma WalkIsCheapestRoute(g: Grid, start: Node, goal: Node, seen: map<State, real>, prev: map<State, Option<State>>,
                            walks: map<State, seq<State>>, pq: seq<Entry<State>>, w: seq<State>)
    requires g.Valid() && g.Contains(start) && g.Contains(goal)
    requires Invariant(StateGraph(g), State(start, AtStart), IsAt(goal), seen, prev, walks, pq)
    requires IsWalk(StateGraph(g), w) && w[0] == State(start, AtStart) && Last(w).node == goal
    requires forall x :: x in pq ==> WalkCost(StateGraph(g), w) <= x.cost
    ensures IsCheapestRoute(g, Nodes(w), g.At(start), g.At(goal))
  {
    WalkIsPath(g, w);
    forall q | g.IsRoute(q, g.At(start), g.At(goal)) ensures WalkCost(StateGraph(g), w) <= CostOf(g, q) {
      RouteIsWalk(g, start, goal, q);
      StepsCostNothingNegative(g);
      GoalCostsAtLeast(StateGraph(g), State(start, AtStart), IsAt(goal), seen, prev, walks, pq,
                       WalkCost(StateGraph(g), w), States(q));
    }
  }

  lemma NoRoute(g: Grid, start: Node, goal: Node, seen: map<State, real>, prev: map<State, Option<State>>,
                walks: map<State, seq<State>>)
    requires g.Valid() && g.Contains(start) && g.Contains(goal)
    requires Invariant(StateGraph(g), State(start, AtStart), IsAt(goal), seen, prev, walks, [])
    ensures forall q :: !g.IsRoute(q, g.At(start), g.At(goal))
  {
    forall q | g.IsRoute(q, g.At(start), g.At(goal)) ensures false {
      RouteIsWalk(g, start, goal, q);
      StepsCostNothingNegative(g);
      GoalCostsAtLeast(StateGraph(g), State(start, AtStart), IsAt(goal), seen, prev, walks, [], 0.0, States(q));
    }
  }

  function IsAt(goal: Node): State -> bool { (k: State) => k.node == goal }

  /** The goal is popped: its predecessors spell out a cheapest route. */
  method Finish(g: Grid, start: Node, goal: Node, e: Entry<State>, prev: map<State, Option<State>>,
                ghost seen: map<State, real>, ghost walks: map<State, seq<State>>, ghost pq: seq<Entry<State>>)
    returns (points: seq<Point>)
    requires g.Valid() && g.Contains(start) && g.Contains(goal) && e.state.node == goal
    requires Invariant(StateGraph(g), State(start, AtStart), IsAt(goal), seen, prev, walks, pq)
    requires forall k :: k in seen ==> g.Contains(k.node)
    requires e in pq && forall x :: x in pq ==> e.cost <= x.cost
    requires e.state !in seen
    ensures exists p :: IsCheapestRoute(g, p, g.At(start), g.At(goal)) && points == PointsOf(g, p)
  {
    PopIsNew(StateGraph(g), State(start, AtStart), IsAt(goal), seen, prev, walks, pq, e);
    SettleKeepsRecords(StateGraph(g), State(start, AtStart), IsAt(goal), seen, prev, walks, pq, e);
    points := Reconstruct(g, prev[e.state := e.par], e.state, walks[e.state := WalkOf(walks, e)]);
    WalkIsCheapestRoute(g, start, goal, seen, prev, walks, pq, WalkOf(walks, e));
  }

  /** Finds a cheapest path between two crossings. */
  method Search(g: Grid, start: Node, goal: Node) returns (r: Option<seq<Point>>)
    requires g.Valid() && g.Contains(start) && g.Contains(goal)
    ensures r.Some? ==> exists p :: IsCheapestRoute(g, p, g.At(start), g.At(goal)) && r.value == PointsOf(g, p)
    ensures r.None? ==> forall q :: !g.IsRoute(q, g.At(start), g.At(goal))
  {
    ghost var G, s := StateGraph(g), State(start, AtStart);
    StepsCostNothingNegative(g);
    var pq := [Entry(0.0, State(start, AtStart), None)];
    var prev: map<State, Option<State>> := map[];
    var seen: map<State, real> := map[];
    ghost var walks: map<State, seq<State>> := map[];
    ghost var open := StatesAreFinite(g);
    assert pq[0] in pq;
    while pq != []
      invariant Invariant(G, s, IsAt(goal), seen, prev, walks, pq)
      invariant forall k :: k in seen ==> g.Contains(k.node)
      invariant forall e :: e in pq ==> g.Contains(e.state.node)
      invariant forall k: State :: g.Contains(k.node) && k !in seen ==> k in open
      decreases open, |pq|
    {
      ghost var pq0 := pq;
      var e: Entry<State>;
      e, pq := HeapPop(pq);
      var key := e.state;
      if key in seen && seen[key] <= e.cost {
        SkipKeepsInvariant(G, s, IsAt(goal), seen, prev, walks, pq0, e, pq);
        continue;
      }
      PopIsNew(G, s, IsAt(goal), seen, prev, walks, pq0, e);
      if key.node == goal {
        var points := Finish(g, start, goal, e, prev, seen, walks, pq0);
        return Some(points);
      }
      var pushed := Expand(g, key, e.cost);
      ExpandKeepsInvariant(G, s, IsAt(goal), seen, prev, walks, pq0, e, pq, pushed);
      open := open - {key};
      walks := walks[key := WalkOf(walks, e)];
      seen := seen[key := e.cost];
      prev := prev[key := e.par];
      pq := pq + pushed;
    }
    NoRoute(g, start, goal, seen, prev, walks);
    return None;
  }

  /** The grid of one call: the given lanes, plus lanes through both end points. */
  function GridFor(s: Point, t: Point, xs: seq<real>, ys: seq<real>, obstacles: seq<Box>,
                   owner: map<(Point, Point), Net>, hist: map<(Point, Point), real>, cong: real, net: Net): (g: Grid)
    requires Increasing(xs) && Increasing(ys)
    ensures Increasing(g.xs) && forall x :: x in g.xs <==> x in xs || x == s.0 || x == t.0
    ensures Increasing(g.ys) && forall y :: y in g.ys <==> y in ys || y == s.1 || y == t.1
    ensures g.obstacles == obstacles && g.owner == owner && g.hist == hist && g.cong == cong && g.net == net
  {
    Grid(WithLane(WithLane(xs, s.0), t.0), WithLane(WithLane(ys, s.1), t.1), obstacles, owner, hist, cong, net)
  }

  lemma DrawnRouteLeads(g: Grid, points: seq<Point>, s: Point, t: Point)
    requires exists p :: IsCheapestRoute(g, p, s, t) && points == PointsOf(g, p)
    ensures points != [] && points[0] == s && points[|points| - 1] == t
  {
    var p :| IsCheapestRoute(g, p, s, t) && points == PointsOf(g, p);
    RouteLeads(g, p, s, t);
  }

  /** Routes one wire from s to t: the result is a cheapest route, or None when there is no route at all. */
  method AStarGrid(s: Point, t: Point, xs: seq<real>, ys: seq<real>, obstacles: seq<Box>,
                   owner: map<(Point, Point), Net>, hist: map<(Point, Point), real>, cong: real, net: Net)
    returns (r: Option<seq<Point>>)
    requires Increasing(xs) && Increasing(ys)
    requires cong >= 0.0 && forall e :: e in hist ==> hist[e] >= 0.0
    ensures var g := GridFor(s, t, xs, ys, obstacles, owner, hist, cong, net);
      match r
      case Some(points) =>
        && points != [] && points[0] == s && points[|points| - 1] == t
        && exists p :: IsCheapestRoute(g, p, s, t) && points == PointsOf(g, p)
      case None => forall q :: !g.IsRoute(q, s, t)
  {
    var g := GridFor(s, t, xs, ys, obstacles, owner, hist, cong, net);
    var sx := LaneIndex(g.xs, s.0);
    var sy := LaneIndex(g.ys, s.1);
    var tx := LaneIndex(g.xs, t.0);
    var ty := LaneIndex(g.ys, t.1);
    r := Search(g, Node(sx, sy), Node(tx, ty));
    if r.Some? { DrawnRouteLeads(g, r.value, s, t); }
  }
}
