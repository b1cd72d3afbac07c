/** Where a path to a start point leads: down the chain of objects that ends at the start point. */
module Chains {
  import opened Wrappers
  import opened ConnectionInfo
  import opened HierarchyDb
  import opened MergeTree
  import opened MergeProperties
  import opened MergeAttributes
  import opened TreeShape
  import opened Reduce
  import opened Connections

  lemma RecordOfStart(t: Tables, starts: seq<CInfo>, p: seq<Obj>, r: CInfo) returns (i: nat)
    requires t.Valid() && AllContained(t, starts) && p != [] && r in Records(PathsTo(t, starts), p)
    ensures i < |starts| && Passes(Path(t, starts[i]), p) && Path(t, starts[i])[|p| - 1] == r
  {
    var path: seq<CInfo> :| path in PathsTo(t, starts) && Passes(path, p) && path[|p| - 1] == r;
    i := StartOfPath(t, starts, path);
  }

  ghost predicate RunsThrough(path: seq<CInfo>, o: Obj) {
    exists k :: 0 <= k < |path| && path[k].obj == o
  }

  /** The objects from the top down to o. */
  ghost function Chain(t: Tables, o: Obj): (r: seq<Obj>)
    requires t.Valid() && t.Contains(o)
    ensures r != [] && r[|r| - 1] == o
    decreases t.Depth(o)
  {
    var c := Climber(NewInfo(o, None, DEFAULT), false, false);
    match Above(t, c)
    case None => [o]
    case Some(a) => AboveIsCloser(t, c); Chain(t, a.cinfo.obj) + [o]
  }

  /** The way up depends on nothing but the object. */
  lemma {:induction false} ClimbIsChain(t: Tables, c: Climber)
    requires t.Valid() && t.Contains(c.cinfo.obj)
    ensures Objs(Climb(t, c)) == Chain(t, c.cinfo.obj)
    decreases t.Depth(c.cinfo.obj)
  {
    if Above(t, c).Some? {
      var a := Above(t, c).value;
      AboveIsCloser(t, c);
      ClimbIsChain(t, a);
      assert Objs(Climb(t, a) + [c.cinfo]) == Objs(Climb(t, a)) + [c.cinfo.obj];
    }
  }

  lemma {:induction false} ChainPrefix(t: Tables, o: Obj, k: nat)
    requires t.Valid() && t.Contains(o) && k < |Chain(t, o)|
    ensures t.Contains(Chain(t, o)[k]) && Chain(t, o)[..k + 1] == Chain(t, Chain(t, o)[k])
    decreases t.Depth(o)
  {
    var c := Climber(NewInfo(o, None, DEFAULT), false, false);
    if k < |Chain(t, o)| - 1 {
      var a := Above(t, c).value;
      AboveIsCloser(t, c);
      ChainPrefix(t, a.cinfo.obj, k);
      assert Chain(t, o)[..k + 1] == Chain(t, a.cinfo.obj)[..k + 1];
    } else {
      assert Chain(t, o)[..k + 1] == Chain(t, o);
    }
  }

  lemma PathPrefix(t: Tables, start: CInfo, k: nat)
    requires t.Valid() && t.Contains(start.obj) && k < |Path(t, start)|
    ensures t.Contains(Path(t, start)[k].obj) && Objs(Path(t, start))[..k + 1] == Chain(t, Path(t, start)[k].obj)
  {
    ClimbIsChain(t, Start(t, start));
    ChainPrefix(t, Start(t, start).cinfo.obj, k);
  }

  lemma PassesObjs(path: seq<CInfo>, p: seq<Obj>)
    ensures Passes(path, p) <==> p <= Objs(path)
  {
    if p <= Objs(path) {
      forall m | 0 <= m < |p| ensures path[m].obj == p[m] { assert Objs(path)[m] == path[m].obj; }
    }
  }

  /** A node of the tree sits at the end of its object's chain. */
  lemma CoveredIsChain(t: Tables, starts: seq<CInfo>, p: seq<Obj>)
    requires t.Valid() && AllContained(t, starts) && p != [] && Covered(PathsTo(t, starts), p)
    ensures t.Contains(p[|p| - 1]) && p == Chain(t, p[|p| - 1])
  {
    var other: seq<CInfo> :| other in PathsTo(t, starts) && Passes(other, p);
    var j := StartOfPath(t, starts, other);
    PassesObjs(other, p);
    PathPrefix(t, starts[j], |p| - 1);
  }

  /** A path runs through a node of the tree exactly if it runs through the node's object. */
  lemma PassesIffRunsThrough(t: Tables, start: CInfo, p: seq<Obj>)
    requires t.Valid() && t.Contains(start.obj) && p != [] && t.Contains(p[|p| - 1]) && p == Chain(t, p[|p| - 1])
    ensures Passes(Path(t, start), p) <==> RunsThrough(Path(t, start), p[|p| - 1])
  {
    var path, o := Path(t, start), p[|p| - 1];
    PassesObjs(path, p);
    if Passes(path, p) { assert path[|p| - 1].obj == o; }
    if RunsThrough(path, o) {
      var k :| 0 <= k < |path| && path[k].obj == o;
      PathPrefix(t, start, k);
    }
  }

  /** A path that runs through a default instance runs on into its module, and into the module by no other way. */
  lemma InstanceAndModule(t: Tables, start: CInfo, m: Name)
    requires t.Valid() && t.Contains(start.obj) && start.isExplicit && t.IsPlain(m)
    ensures RunsThrough(Path(t, start), Def(m)) <==> RunsThrough(Path(t, start), Mod(m))
  {
    var path := Path(t, start);
    DatabasePathOk(t, start);
    if RunsThrough(path, Def(m)) {
      var k :| 0 <= k < |path| && path[k].obj == Def(m);
      if k < |path| - 1 { assert Step(t, path[k], path[k + 1]); }
    }
    if RunsThrough(path, Mod(m)) {
      var k :| 0 <= k < |path| && path[k].obj == Mod(m);
      ClimbHead(t, Start(t, start));
      if k > 0 { assert Step(t, path[k - 1], path[k - 1 + 1]); }
    }
  }

  /** A node of the reduced tree is a node of the merged one, at the end of its object's chain. */
  lemma NodePlace(t: Tables, starts: seq<CInfo>, signame: string, p: seq<Obj>, x: HNode) returns (q: seq<Obj>)
    requires t.Valid() && AllContained(t, starts) && IsReducible(t, starts, signame)
    requires NodeAt(ReducedTree(t, starts, signame).value, p, x)
    ensures q != [] && NodeAt(Merge(PathsTo(t, starts), signame).value, q, x)
    ensures t.Contains(x.info.obj) && q == Chain(t, x.info.obj)
    ensures DescentPath(Merge(PathsTo(t, starts), signame).value) != []
    ensures var above := DescentPath(Merge(PathsTo(t, starts), signame).value);
      |q| == |above| - 1 + |p| && q == above[..|above| - 1] + p
  {
    var h, n := PathsTo(t, starts), Merge(PathsTo(t, starts), signame).value;
    ReducedNodeLifts(n, p, x);
    q := DescentPath(n)[..|DescentPath(n)| - 1] + p;
    NodeObject(n, q, x);
    assert InTree(n, q);
    TreeIsPrefixes(h, signame, q);
    CoveredIsChain(t, starts, q);
  }
}
