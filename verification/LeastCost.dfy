/** Least-cost search over a weighted graph: the invariant of the loop that settles the cheapest
    waiting entry, and why the first goal it settles is reached at least cost.  */
module LeastCost {
  import opened Wrappers

  datatype Graph<!S> = Graph(edge: (S, S) -> bool, weight: (S, S) -> real)

  /** An entry of the heap: a state reached at a cost from a settled predecessor. */
  datatype Entry<S> = Entry(cost: real, state: S, par: Option<S>)

  ghost predicate NonNegative<S(!new)>(G: Graph<S>) {
    forall a, b :: G.edge(a, b) ==> G.weight(a, b) >= 0.0
  }

  ghost predicate IsWalk<S>(G: Graph<S>, w: seq<S>) {
    w != [] && forall i :: 0 <= i < |w| - 1 ==> G.edge(w[i], w[i + 1])
  }

  ghost function WalkCost<S>(G: Graph<S>, w: seq<S>): real {
    if |w| < 2 then 0.0 else WalkCost(G, w[..|w| - 1]) + G.weight(w[|w| - 2], w[|w| - 1])
  }

  ghost function Last<S>(w: seq<S>): S requires w != [] { w[|w| - 1] }

  /** st is settled, or waits in the heap, at cost c or less. */
  ghost predicate Covered<S>(seen: map<S, real>, pq: seq<Entry<S>>, st: S, c: real) {
    (st in seen && seen[st] <= c) || exists e :: e in pq && e.state == st && e.cost <= c
  }

  ghost predicate Closed<S(!new)>(G: Graph<S>, seen: map<S, real>, pq: seq<Entry<S>>, k: S)
    requires k in seen
  {
    forall n :: G.edge(k, n) ==> Covered(seen, pq, n, seen[k] + G.weight(k, n))
  }

  /** The entry extends a settled state by one edge, or is the start itself. */
  ghost predicate Extends<S>(G: Graph<S>, start: S, seen: map<S, real>, e: Entry<S>) {
    if e.par.None? then e.cost == 0.0 && e.state == start
    else
      && e.par.value in seen && G.edge(e.par.value, e.state)
      && e.cost == seen[e.par.value] + G.weight(e.par.value, e.state)
  }

  /** walks[k] is a walk from the start to k of the recorded cost, and prev[k] leads one step back on it. */
  ghost predicate Recorded<S>(G: Graph<S>, start: S, seen: map<S, real>, prev: map<S, Option<S>>,
                              walks: map<S, seq<S>>, k: S)
    requires k in seen && k in prev && k in walks
  {
    && IsWalk(G, walks[k]) && walks[k][0] == start && Last(walks[k]) == k
    && WalkCost(G, walks[k]) == seen[k]
    && Linked(prev, walks, k)
  }

  ghost predicate Linked<S>(prev: map<S, Option<S>>, walks: map<S, seq<S>>, k: S)
    requires k in prev && k in walks
  {
    if prev[k].None? then walks[k] == [k]
    else prev[k].value in walks && walks[k] == walks[prev[k].value] + [k]
  }

  ghost predicate Invariant<S(!new)>(G: Graph<S>, start: S, goal: S -> bool, seen: map<S, real>,
                                     prev: map<S, Option<S>>, walks: map<S, seq<S>>, pq: seq<Entry<S>>) {
    && seen.Keys == prev.Keys == walks.Keys
    && (forall k {:trigger Recorded(G, start, seen, prev, walks, k)} :: k in seen ==>
      Recorded(G, start, seen, prev, walks, k))
    && (forall k {:trigger Closed(G, seen, pq, k)} :: k in seen ==> Closed(G, seen, pq, k))
    && (forall k :: k in seen ==> !goal(k))
    && (forall e {:trigger Extends(G, start, seen, e)} :: e in pq ==> Extends(G, start, seen, e))
    && (forall k, e :: k in seen && e in pq ==> seen[k] <= e.cost)
    && Covered(seen, pq, start, 0.0)
  }

  lemma WalkPrefix<S>(G: Graph<S>, w: seq<S>)
    requires IsWalk(G, w) && |w| >= 2
    ensures IsWalk(G, w[..|w| - 1]) && Last(w[..|w| - 1]) == w[|w| - 2]
    ensures G.edge(w[|w| - 2], w[|w| - 1])
  {
    assert G.edge(w[|w| - 2], w[|w| - 1 - 1 + 1]);
    var v := w[..|w| - 1];
    forall i | 0 <= i < |v| - 1 ensures G.edge(v[i], v[i + 1]) {
      assert G.edge(w[i], w[i + 1]);
    }
  }

  lemma WalkExtension<S>(G: Graph<S>, w: seq<S>, n: S)
    requires IsWalk(G, w) && G.edge(Last(w), n)
    ensures IsWalk(G, w + [n]) && Last(w + [n]) == n
    ensures WalkCost(G, w + [n]) == WalkCost(G, w) + G.weight(Last(w), n)
  {
    var q := w + [n];
    assert q[..|q| - 1] == w;
    forall i | 0 <= i < |q| - 1 ensures G.edge(q[i], q[i + 1]) {
      if i < |w| - 1 { assert G.edge(w[i], w[i + 1]); }
    }
  }

  /** The heart of the search: however a walk leaves the start, the settled states and the heap
      already account for it at no more than its own cost. */
  lemma {:induction false} WalkIsCovered<S(!new)>(G: Graph<S>, start: S, seen: map<S, real>, pq: seq<Entry<S>>,
                                           w: seq<S>)
    requires NonNegative(G) && IsWalk(G, w) && w[0] == start
    requires Covered(seen, pq, start, 0.0)
    requires forall k {:trigger Closed(G, seen, pq, k)} :: k in seen ==> Closed(G, seen, pq, k)
    ensures (Last(w) in seen && seen[Last(w)] <= WalkCost(G, w)) || exists e :: e in pq && e.cost <= WalkCost(G, w)
    decreases |w|
  {
    if |w| > 1 {
      WalkPrefix(G, w);
      var v, k, n := w[..|w| - 1], w[|w| - 2], w[|w| - 1];
      WalkIsCovered(G, start, seen, pq, v);
      if k in seen && seen[k] <= WalkCost(G, v) {
        assert Closed(G, seen, pq, k);
        assert Covered(seen, pq, n, seen[k] + G.weight(k, n));
      }
    }
  }

  /** Coverage survives when states are only added and entries leave the heap only for settled states. */
  lemma CoverageGrows<S(!new)>(G: Graph<S>, seen: map<S, real>, pq: seq<Entry<S>>, seen': map<S, real>,
                        pq': seq<Entry<S>>)
    requires forall k :: k in seen ==> k in seen' && seen'[k] == seen[k]
    requires forall e :: e in pq ==> e in pq' || (e.state in seen' && seen'[e.state] <= e.cost)
    ensures forall st, c :: Covered(seen, pq, st, c) ==> Covered(seen', pq', st, c)
    ensures forall k {:trigger Closed(G, seen', pq', k)} :: k in seen && Closed(G, seen, pq, k) ==>
      Closed(G, seen', pq', k)
  {
  }

  /** The heap drops an entry for a state already settled no dearer. */
  lemma SkipKeepsInvariant<S(!new)>(G: Graph<S>, start: S, goal: S -> bool, seen: map<S, real>,
                                    prev: map<S, Option<S>>, walks: map<S, seq<S>>,
                                    pq: seq<Entry<S>>, e: Entry<S>, rest: seq<Entry<S>>)
    requires Invariant(G, start, goal, seen, prev, walks, pq)
    requires forall x :: x in pq <==> x == e || x in rest
    requires e.state in seen && seen[e.state] <= e.cost
    ensures Invariant(G, start, goal, seen, prev, walks, rest)
  {
    CoverageGrows(G, seen, pq, seen, rest);
  }

  /** The walk a popped entry stands for. */
  ghost function WalkOf<S>(walks: map<S, seq<S>>, e: Entry<S>): seq<S>
    requires e.par.Some? ==> e.par.value in walks
  {
    if e.par.None? then [e.state] else walks[e.par.value] + [e.state]
  }

  /** An entry that is not skipped is for a new state, and its cost is that of a real walk. */
  lemma PopIsNew<S(!new)>(G: Graph<S>, start: S, goal: S -> bool, seen: map<S, real>,
                          prev: map<S, Option<S>>, walks: map<S, seq<S>>, pq: seq<Entry<S>>, e: Entry<S>)
    requires Invariant(G, start, goal, seen, prev, walks, pq)
    requires e in pq && (e.state !in seen || seen[e.state] > e.cost)
    ensures e.state !in seen
    ensures e.par.Some? ==> e.par.value in walks
    ensures var w := WalkOf(walks, e);
      IsWalk(G, w) && w[0] == start && Last(w) == e.state && WalkCost(G, w) == e.cost
  {
    assert Extends(G, start, seen, e);
    if e.par.Some? {
      var k := e.par.value;
      assert Recorded(G, start, seen, prev, walks, k);
      WalkExtension(G, walks[k], e.state);
    }
  }

  lemma SettleKeepsRecords<S(!new)>(G: Graph<S>, start: S, goal: S -> bool, seen: map<S, real>,
                                    prev: map<S, Option<S>>, walks: map<S, seq<S>>, pq: seq<Entry<S>>, e: Entry<S>)
    requires Invariant(G, start, goal, seen, prev, walks, pq)
    requires e in pq && e.state !in seen
    ensures e.par.Some? ==> e.par.value in walks
    ensures var seen', prev', walks' := seen[e.state := e.cost], prev[e.state := e.par],
      walks[e.state := WalkOf(walks, e)];
      && (forall k {:trigger Recorded(G, start, seen', prev', walks', k)} :: k in seen' ==>
        Recorded(G, start, seen', prev', walks', k))
      && (forall k {:trigger Linked(prev', walks', k)} :: k in seen' ==> Linked(prev', walks', k))
  {
    PopIsNew(G, start, goal, seen, prev, walks, pq, e);
    var seen', prev', walks' := seen[e.state := e.cost], prev[e.state := e.par], walks[e.state := WalkOf(walks, e)];
    assert Extends(G, start, seen, e);
    forall k | k in seen' ensures Recorded(G, start, seen', prev', walks', k) && Linked(prev', walks', k) {
      if k != e.state { assert Recorded(G, start, seen, prev, walks, k); }
    }
  }

  /** What expanding state k at a cost must push: its successors, all of them and nothing else. */
  ghost predicate IsExpansion<S(!new)>(G: Graph<S>, k: S, cost: real, pushed: seq<Entry<S>>) {
    && (forall e :: e in pushed ==> e.par == Some(k) && G.edge(k, e.state) && e.cost == cost + G.weight(k, e.state))
    && (forall n :: G.edge(k, n) ==> Entry(cost + G.weight(k, n), n, Some(k)) in pushed)
  }

  lemma ExpandCloses<S(!new)>(G: Graph<S>, start: S, seen: map<S, real>, pq: seq<Entry<S>>, e: Entry<S>,
                              rest: seq<Entry<S>>, pushed: seq<Entry<S>>)
    requires forall x :: x in pq ==> x == e || x in rest
    requires forall k {:trigger Closed(G, seen, pq, k)} :: k in seen ==> Closed(G, seen, pq, k)
    requires Covered(seen, pq, start, 0.0)
    requires e.state !in seen && IsExpansion(G, e.state, e.cost, pushed)
    ensures var seen' := seen[e.state := e.cost];
      && Covered(seen', rest + pushed, start, 0.0)
      && forall k {:trigger Closed(G, seen', rest + pushed, k)} :: k in seen' ==> Closed(G, seen', rest + pushed, k)
  {
    var seen', pq' := seen[e.state := e.cost], rest + pushed;
    CoverageGrows(G, seen, pq, seen', pq');
    forall n | G.edge(e.state, n) ensures Covered(seen', pq', n, e.cost + G.weight(e.state, n)) {
      assert Entry(e.cost + G.weight(e.state, n), n, Some(e.state)) in pq';
    }
    assert Closed(G, seen', pq', e.state);
  }

  lemma ExpandExtends<S(!new)>(G: Graph<S>, start: S, seen: map<S, real>, e: Entry<S>,
                               rest: seq<Entry<S>>, pushed: seq<Entry<S>>)
    requires NonNegative(G) && e.state !in seen && IsExpansion(G, e.state, e.cost, pushed)
    requires forall x {:trigger Extends(G, start, seen, x)} :: x in rest ==> Extends(G, start, seen, x)
    requires forall x :: x in rest ==> e.cost <= x.cost
    ensures var seen' := seen[e.state := e.cost];
      && (forall x {:trigger Extends(G, start, seen', x)} :: x in rest + pushed ==> Extends(G, start, seen', x))
      && (forall x :: x in rest + pushed ==> e.cost <= x.cost)
  {
    var seen' := seen[e.state := e.cost];
    forall x | x in rest + pushed ensures Extends(G, start, seen', x) && e.cost <= x.cost {
      if x in rest { assert Extends(G, start, seen, x); }
    }
  }

  /** Settling the cheapest entry and pushing its successors keeps the invariant. */
  lemma ExpandKeepsInvariant<S(!new)>(G: Graph<S>, start: S, goal: S -> bool, seen: map<S, real>,
                                      prev: map<S, Option<S>>, walks: map<S, seq<S>>,
                                      pq: seq<Entry<S>>, e: Entry<S>, rest: seq<Entry<S>>, pushed: seq<Entry<S>>)
    requires NonNegative(G) && Invariant(G, start, goal, seen, prev, walks, pq)
    requires forall x :: x in pq <==> x == e || x in rest
    requires forall x :: x in pq ==> e.cost <= x.cost
    requires e.state !in seen && !goal(e.state)
    requires IsExpansion(G, e.state, e.cost, pushed)
    ensures e.par.Some? ==> e.par.value in walks
    ensures Invariant(G, start, goal, seen[e.state := e.cost], prev[e.state := e.par],
                      walks[e.state := WalkOf(walks, e)], rest + pushed)
  {
    SettleKeepsRecords(G, start, goal, seen, prev, walks, pq, e);
    ExpandCloses(G, start, seen, pq, e, rest, pushed);
    ExpandExtends(G, start, seen, e, rest, pushed);
    CostsStayOrdered(seen, pq, e, rest + pushed);
  }

  lemma CostsStayOrdered<S>(seen: map<S, real>, pq: seq<Entry<S>>, e: Entry<S>, pq': seq<Entry<S>>)
    requires e in pq && forall k, x :: k in seen && x in pq ==> seen[k] <= x.cost
    requires forall x :: x in pq' ==> e.cost <= x.cost
    ensures var seen' := seen[e.state := e.cost]; forall k, x :: k in seen' && x in pq' ==> seen'[k] <= x.cost
  {
    forall k | k in seen ensures seen[k] <= e.cost {}
  }

  /** While no goal is settled, a walk to a goal costs at least as much as the cheapest waiting entry. */
  lemma GoalCostsAtLeast<S(!new)>(G: Graph<S>, start: S, goal: S -> bool, seen: map<S, real>,
                                  prev: map<S, Option<S>>, walks: map<S, seq<S>>, pq: seq<Entry<S>>, c: real, w: seq<S>)
    requires NonNegative(G) && Invariant(G, start, goal, seen, prev, walks, pq)
    requires forall x :: x in pq ==> c <= x.cost
    requires IsWalk(G, w) && w[0] == start && goal(Last(w))
    ensures pq != [] && c <= WalkCost(G, w)
  {
    WalkIsCovered(G, start, seen, pq, w);
  }
}
