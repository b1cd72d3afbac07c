/** The lane grid a wire is routed on, and what a path on it costs.

    Everything here is independent of the search: paths are plain sequences of
    lane crossings, and the direction of each step is read off the path.  */
module GridPaths {

  type Point = (real, real)

  /** A rectangle (ax0, ay0)-(ax1, ay1) that wires must not cross. */
  datatype Box = Box(ax0: real, ay0: real, ax1: real, ay1: real)

  /** A crossing of the ix-th vertical and the iy-th horizontal lane. */
  datatype Node = Node(ix: int, iy: int)

  datatype Axis = Horizontal | Vertical

  type Net = string

  const EPSILON := 0.000001
  const TURN := 60.0
  const HISTORY_WEIGHT := 40.0

  function Abs(r: real): real { if r < 0.0 then -r else r }
  function Min(a: real, b: real): real { if b < a then b else a }
  function Max(a: real, b: real): real { if b > a then b else a }

  /** The axis-aligned segment has more than EPSILON of its length strictly inside the box. */
  predicate CrossesBox(x0: real, y0: real, x1: real, y1: real, o: Box) {
    if Abs(x0 - x1) < EPSILON then
      o.ax0 < x0 < o.ax1 && Min(Max(y0, y1), o.ay1) - Max(Min(y0, y1), o.ay0) > EPSILON
    else
      o.ay0 < y0 < o.ay1 && Min(Max(x0, x1), o.ax1) - Max(Min(x0, x1), o.ax0) > EPSILON
  }

  predicate PointLe(a: Point, b: Point) {
    a.0 < b.0 || (a.0 == b.0 && a.1 <= b.1)
  }

  function EdgeKey(a: Point, b: Point): (Point, Point) {
    if PointLe(a, b) then (a, b) else (b, a)
  }

  /** An edge has one key, whichever end it is entered from: its two ends, the smaller one first. */
  lemma EdgeKeyIgnoresDirection(a: Point, b: Point)
    ensures EdgeKey(a, b) == EdgeKey(b, a)
    ensures EdgeKey(a, b) == (a, b) || EdgeKey(a, b) == (b, a)
    ensures PointLe(EdgeKey(a, b).0, EdgeKey(a, b).1)
  {
  }

  predicate Increasing(lanes: seq<real>) {
    forall i, j :: 0 <= i < j < |lanes| ==> lanes[i] < lanes[j]
  }

  /** One call of the router: the lanes, the obstacles and the state of the negotiation. */
  datatype Grid = Grid(
    xs: seq<real>, ys: seq<real>, obstacles: seq<Box>,
    owner: map<(Point, Point), Net>, hist: map<(Point, Point), real>, cong: real, net: Net)
  {
    ghost predicate Valid() {
      && Increasing(xs) && Increasing(ys)
      && cong >= 0.0
      && forall e :: e in hist ==> hist[e] >= 0.0
    }

    predicate Contains(n: Node) { 0 <= n.ix < |xs| && 0 <= n.iy < |ys| }

    function At(n: Node): Point
      requires Contains(n)
    {
      (xs[n.ix], ys[n.iy])
    }

    predicate Hits(a: Node, b: Node)
      requires Contains(a) && Contains(b)
    {
      exists o :: o in obstacles && CrossesBox(xs[a.ix], ys[a.iy], xs[b.ix], ys[b.iy], o)
    }

    /** b is the next lane crossing after a in one of the four directions, and the wire between is free. */
    predicate Edge(a: Node, b: Node) {
      && Contains(a) && Contains(b)
      && Abs1(a.ix - b.ix) + Abs1(a.iy - b.iy) == 1
      && !Hits(a, b)
    }

    static function Abs1(i: int): nat { if i < 0 then -i else i }

    function Congestion(a: Node, b: Node): real
      requires Contains(a) && Contains(b)
    {
      var ek := EdgeKey(At(a), At(b));
      (if ek !in owner || owner[ek] == net then 0.0 else cong)
      + HISTORY_WEIGHT * (if ek in hist then hist[ek] else 0.0)
    }

    function Length(a: Node, b: Node): real
      requires Contains(a) && Contains(b)
    {
      Abs(xs[b.ix] - xs[a.ix]) + Abs(ys[b.iy] - ys[a.iy])
    }

    ghost predicate IsPath(p: seq<Node>) {
      && p != []
      && Contains(p[0])
      && forall i :: 0 <= i < |p| - 1 ==> Edge(p[i], p[i + 1])
    }

    /** A path from the point s to the point t. */
    ghost predicate IsRoute(p: seq<Node>, s: Point, t: Point) {
      && IsPath(p)
      && At(p[0]) == s
      && Contains(p[|p| - 1]) && At(p[|p| - 1]) == t
    }

    /** Wire length, plus a penalty per corner, plus the congestion of every edge used. */
    ghost function Cost(p: seq<Node>): real
      requires forall n :: n in p ==> Contains(n)
    {
      if |p| < 2 then 0.0 else
        var m := |p| - 1;
        Cost(p[..m]) + Length(p[m - 1], p[m]) + Congestion(p[m - 1], p[m])
        + (if m >= 2 && AxisOf(p[m - 2], p[m - 1]) != AxisOf(p[m - 1], p[m]) then TURN else 0.0)
    }
  }

  function AxisOf(a: Node, b: Node): Axis {
    if a.iy == b.iy then Horizontal else Vertical
  }

  lemma PathContains(g: Grid, p: seq<Node>)
    requires g.IsPath(p)
    ensures forall n :: n in p ==> g.Contains(n)
  {
    forall i | 0 <= i < |p| ensures g.Contains(p[i]) {
      if i > 0 { assert g.Edge(p[i - 1], p[i]); }
    }
  }

  /** Lanes are distinct, so a point names one crossing. */
  lemma OneNodePerPoint(g: Grid, a: Node, b: Node)
    requires g.Valid() && g.Contains(a) && g.Contains(b) && g.At(a) == g.At(b)
    ensures a == b
  {
  }

  lemma PrefixIsPath(g: Grid, p: seq<Node>)
    requires g.IsPath(p) && |p| >= 2
    ensures g.IsPath(p[..|p| - 1]) && g.Edge(p[|p| - 2], p[|p| - 1])
  {
    var q := p[..|p| - 1];
    assert g.Edge(p[|p| - 2], p[|p| - 2 + 1]);
    forall i | 0 <= i < |q| - 1 ensures g.Edge(q[i], q[i + 1]) {
      assert g.Edge(p[i], p[i + 1]);
    }
  }

  ghost function CostOf(g: Grid, p: seq<Node>): real
    requires g.IsPath(p)
  {
    PathContains(g, p);
    g.Cost(p)
  }

  // ---------------------------------------------------------------------------
  // What the terms mean

  /** Both crossings lie on one lane, next to each other, and no box is in the way. */
  lemma EdgeIff(g: Grid, a: Node, b: Node)
    ensures g.Edge(a, b) <==>
      && 0 <= a.ix < |g.xs| && 0 <= b.ix < |g.xs| && 0 <= a.iy < |g.ys| && 0 <= b.iy < |g.ys|
      && (|| (a.iy == b.iy && (b.ix == a.ix + 1 || b.ix == a.ix - 1))
          || (a.ix == b.ix && (b.iy == a.iy + 1 || b.iy == a.iy - 1)))
      && !exists o :: o in g.obstacles && CrossesBox(g.xs[a.ix], g.ys[a.iy], g.xs[b.ix], g.ys[b.iy], o)
  {
  }

  /** More than 1e-6 of the span between u0 and u1, in either direction, lies strictly between lo and hi. */
  ghost predicate RunsInside(u0: real, u1: real, lo: real, hi: real) {
    exists a, b :: b - a > 0.000001 && IsPartOf(u0, u1, a, b) && LiesIn(a, b, lo, hi)
  }

  predicate Between(lo: real, u: real, hi: real) { lo < u < hi }

  ghost predicate LiesIn(a: real, b: real, lo: real, hi: real) {
    forall u :: Between(a, u, b) ==> Between(lo, u, hi)
  }

  lemma LiesInIff(a: real, b: real, lo: real, hi: real)
    requires a < b
    ensures LiesIn(a, b, lo, hi) <==> lo <= a && b <= hi
  {
    if LiesIn(a, b, lo, hi) {
      assert Between(a, Min(lo, (a + b) / 2.0), b) || lo <= a;
      assert Between(a, Max(hi, (a + b) / 2.0), b) || b <= hi;
    }
  }

  predicate IsPartOf(u0: real, u1: real, a: real, b: real) {
    if u0 <= u1 then u0 <= a && b <= u1 else u1 <= a && b <= u0
  }

  lemma OverlapIff(u0: real, u1: real, lo: real, hi: real)
    ensures Min(Max(u0, u1), hi) - Max(Min(u0, u1), lo) > EPSILON <==> RunsInside(u0, u1, lo, hi)
  {
    var a, b := Max(Min(u0, u1), lo), Min(Max(u0, u1), hi);
    if b - a > EPSILON {
      LiesInIff(a, b, lo, hi);
      assert IsPartOf(u0, u1, a, b);
    }
    if c, d :| d - c > 0.000001 && IsPartOf(u0, u1, c, d) && LiesIn(c, d, lo, hi) { LiesInIff(c, d, lo, hi); }
  }

  /** A segment crosses a box if it lies strictly between two of its sides and runs inside between the others. */
  lemma CrossesIff(x0: real, y0: real, x1: real, y1: real, o: Box)
    ensures CrossesBox(x0, y0, x1, y1, o) <==>
      if -0.000001 < x0 - x1 < 0.000001 then o.ax0 < x0 < o.ax1 && RunsInside(y0, y1, o.ay0, o.ay1)
      else o.ay0 < y0 < o.ay1 && RunsInside(x0, x1, o.ax0, o.ax1)
  {
    OverlapIff(y0, y1, o.ay0, o.ay1);
    OverlapIff(x0, x1, o.ax0, o.ax1);
  }

  /** The length of the wire between the i-th crossing and the next. */
  ghost function WireAt(g: Grid, p: seq<Node>, i: nat): real {
    if i < |p| - 1 && g.Contains(p[i]) && g.Contains(p[i + 1])
    then Abs(g.xs[p[i + 1].ix] - g.xs[p[i].ix]) + Abs(g.ys[p[i + 1].iy] - g.ys[p[i].iy]) else 0.0
  }

  /** The length of the first n edges. */
  ghost function Wire(g: Grid, p: seq<Node>, n: nat): real {
    if n == 0 then 0.0 else Wire(g, p, n - 1) + WireAt(g, p, n - 1)
  }

  ghost function KeyAt(g: Grid, p: seq<Node>, i: nat): (Point, Point)
    requires i < |p| - 1 && g.Contains(p[i]) && g.Contains(p[i + 1])
  {
    EdgeKey((g.xs[p[i].ix], g.ys[p[i].iy]), (g.xs[p[i + 1].ix], g.ys[p[i + 1].iy]))
  }

  /** What earlier rounds have recorded for the i-th edge. */
  ghost function PastAt(g: Grid, p: seq<Node>, i: nat): real {
    if i < |p| - 1 && g.Contains(p[i]) && g.Contains(p[i + 1]) && KeyAt(g, p, i) in g.hist then g.hist[KeyAt(g, p, i)]
    else 0.0
  }

  /** What they have recorded for the first n edges. */
  ghost function Past(g: Grid, p: seq<Node>, n: nat): real {
    if n == 0 then 0.0 else Past(g, p, n - 1) + PastAt(g, p, n - 1)
  }

  /** The path turns at its i-th crossing. */
  predicate TurnsAt(p: seq<Node>, i: nat) {
    0 < i < |p| - 1 && (p[i - 1].iy == p[i].iy) != (p[i].iy == p[i + 1].iy)
  }

  /** The i-th edge belongs to another net. */
  ghost predicate IsForeign(g: Grid, p: seq<Node>, i: nat) {
    && i < |p| - 1 && g.Contains(p[i]) && g.Contains(p[i + 1])
    && KeyAt(g, p, i) in g.owner && g.owner[KeyAt(g, p, i)] != g.net
  }

  /** 60 per corner among the first n crossings. */
  ghost function TurnPrice(p: seq<Node>, n: nat): real {
    if n == 0 then 0.0 else TurnPrice(p, n - 1) + if TurnsAt(p, n - 1) then 60.0 else 0.0
  }

  /** The congestion price for every one of the first n edges that belongs to another net. */
  ghost function ForeignPrice(g: Grid, p: seq<Node>, n: nat): real {
    if n == 0 then 0.0 else ForeignPrice(g, p, n - 1) + if IsForeign(g, p, n - 1) then g.cong else 0.0
  }

  lemma CostStep(g: Grid, p: seq<Node>, m: nat)
    requires g.IsPath(p) && 0 < m < |p|
    ensures g.IsPath(p[..m]) && g.IsPath(p[..m + 1])
    ensures CostOf(g, p[..m + 1]) == CostOf(g, p[..m]) + WireAt(g, p, m - 1)
      + (if TurnsAt(p, m - 1) then 60.0 else 0.0)
      + (if IsForeign(g, p, m - 1) then g.cong else 0.0) + 40.0 * PastAt(g, p, m - 1)
  {
    var q := p[..m + 1];
    PathContains(g, p);
    forall i | 0 <= i < |q| - 1 ensures g.Edge(q[i], q[i + 1]) { assert g.Edge(p[i], p[i + 1]); }
    PrefixIsPath(g, q);
    PathContains(g, q);
    PathContains(g, q[..m]);
    assert q[..m] == p[..m];
    assert g.Edge(p[m - 1], p[m - 1 + 1]);
  }

  /** The price of the first n edges and the turns between them. */
  ghost function Price(g: Grid, p: seq<Node>, n: nat): real {
    Wire(g, p, n) + TurnPrice(p, n) + ForeignPrice(g, p, n) + 40.0 * Past(g, p, n)
  }

  lemma {:induction false} CostUpTo(g: Grid, p: seq<Node>, m: nat)
    requires g.IsPath(p) && 0 < m <= |p|
    ensures g.IsPath(p[..m]) && CostOf(g, p[..m]) == Price(g, p, m - 1)
  {
    if m == 1 {
      PathContains(g, p);
    } else {
      CostUpTo(g, p, m - 1);
      CostStep(g, p, m - 1);
    }
  }

  /** A path costs the length of its wire, 60 per corner, the congestion price for every edge that belongs to
      another net, and 40 times what earlier rounds have recorded for its edges. */
  lemma CostIs(g: Grid, p: seq<Node>)
    requires g.IsPath(p)
    ensures CostOf(g, p) == Price(g, p, |p| - 1)
  {
    assert p[..|p|] == p;
    CostUpTo(g, p, |p|);
  }
}
