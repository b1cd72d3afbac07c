/** Creating a signal or a parameter for a set of end points (ig_lib_connection, ig_lib_parameter), end to end. */
module Connections {
  import opened Wrappers
  import opened ConnectionInfo
  import opened HierarchyDb
  import opened MergeTree
  import opened MergeProperties
  import opened MergeAttributes
  import opened MergeNodes
  import opened TreeShape
  import opened Reduce
  import opened Generation
  import opened Builder

  /** The start points as the procedure marks them: the source drives upwards, all are explicit. */
  function Starts(source: Option<CInfo>, targets: seq<CInfo>): seq<CInfo> {
    (if source.Some? then [source.value.(dir := UP, isExplicit := true)] else [])
    + seq(|targets|, i requires 0 <= i < |targets| => targets[i].(isExplicit := true))
  }

  ghost predicate AllContained(t: Tables, starts: seq<CInfo>) {
    forall i :: 0 <= i < |starts| ==> t.Contains(starts[i].obj)
  }

  /** The paths to the start points, last one first, as the procedure lists them. */
  ghost function PathsTo(t: Tables, starts: seq<CInfo>): (h: seq<seq<CInfo>>)
    requires t.Valid() && AllContained(t, starts)
    ensures |h| == |starts| && NonEmpty(h)
  {
    if starts == [] then [] else
      [Path(t, starts[|starts| - 1])] + PathsTo(t, starts[..|starts| - 1])
  }

  /** The object an end point is about: an instance of a plain module stands for the module. */
  function EndPoint(start: CInfo): Obj {
    Inside(start.obj)
  }

  /** What an instance encloses: a default instance its module. */
  function Inside(o: Obj): Obj {
    if o.Def? then Mod(o.name) else o
  }

  lemma {:induction false} StartOfPath(t: Tables, starts: seq<CInfo>, path: seq<CInfo>) returns (i: nat)
    requires t.Valid() && AllContained(t, starts) && path in PathsTo(t, starts)
    ensures i < |starts| && path == Path(t, starts[i])
  {
    i := |starts| - 1;
    if path != Path(t, starts[i]) { i := StartOfPath(t, starts[..i], path); }
  }

  lemma {:induction false} PathIsListed(t: Tables, starts: seq<CInfo>, i: nat)
    requires t.Valid() && AllContained(t, starts) && i < |starts|
    ensures Path(t, starts[i]) in PathsTo(t, starts)
    decreases |starts|
  {
    var n := |starts| - 1;
    if i < n {
      PathIsListed(t, starts[..n], i);
      assert starts[..n][i] == starts[i];
    }
  }

  /** The paths have the shape the tree lemmas ask for. */
  lemma PathsAreOk(t: Tables, starts: seq<CInfo>)
    requires t.Valid() && AllContained(t, starts) && forall i :: 0 <= i < |starts| ==> starts[i].isExplicit
    ensures AllOk(t, PathsTo(t, starts))
    ensures forall path :: path in PathsTo(t, starts) ==> EndsExplicit(path)
  {
    forall path | path in PathsTo(t, starts) ensures PathOk(t, path) && EndsExplicit(path) {
      var i := StartOfPath(t, starts, path);
      DatabasePathOk(t, starts[i]);
      DatabasePathEndsExplicit(t, starts[i]);
    }
  }

  /** A path starts at the default instance of a top module, unless it is a lone resource module. */
  lemma {:induction false} ClimbHead(t: Tables, c: Climber)
    requires t.Valid() && t.Contains(c.cinfo.obj)
    ensures var r := Climb(t, c);
      r[0].obj.Def? || (|r| == 1 && c.cinfo.obj.Mod? && t.IsResource(c.cinfo.obj.name))
    decreases t.Depth(c.cinfo.obj)
  {
    if Above(t, c).Some? {
      var a := Above(t, c).value;
      AboveIsCloser(t, c);
      ClimbHead(t, a);
    }
  }

  lemma LongPathStartsAtInstance(t: Tables, starts: seq<CInfo>, path: seq<CInfo>)
    requires t.Valid() && AllContained(t, starts) && path in PathsTo(t, starts) && |path| > 1
    ensures path[0].obj.Def?
  {
    var i := StartOfPath(t, starts, path);
    ClimbHead(t, Start(t, starts[i]));
  }

  /** A merged tree with anything below its root starts at a default instance. */
  lemma RootIsInstance(t: Tables, starts: seq<CInfo>, signame: string)
    requires t.Valid() && AllContained(t, starts)
    requires Merge(PathsTo(t, starts), signame).Some?
    requires Merge(PathsTo(t, starts), signame).value.children != []
    ensures Merge(PathsTo(t, starts), signame).value.info.obj.Def?
  {
    SomePathGoesOn(PathsTo(t, starts), signame);
    var path: seq<CInfo> :| path in PathsTo(t, starts) && |path| > 1
      && path[0].obj == Merge(PathsTo(t, starts), signame).value.info.obj;
    LongPathStartsAtInstance(t, starts, path);
  }

  lemma SomePathGoesOn(h: seq<seq<CInfo>>, signame: string)
    requires NonEmpty(h) && Merge(h, signame).Some? && Merge(h, signame).value.children != []
    ensures exists path: seq<CInfo> :: path in h && |path| > 1 && path[0].obj == Merge(h, signame).value.info.obj
  {
    MergeSucceedsIff(h, signame);
    HeadOfJoin(h);
    var n := Merge(h, signame).value;
    HeadsOfChildren(Tails(h), DefaultName(n.info), 0);
    var tail: seq<CInfo> :| tail in Tails(h) && tail[0].obj == n.children[0].info.obj;
    InTails(h, tail);
    var path :| path in h && |path| > 1 && path[1..] == tail;
    var j :| 0 <= j < |h| && h[j] == path;
  }

  // ---------------------------------------------------------------------------
  // From the start points to the reduced tree

  ghost predicate AllExplicit(starts: seq<CInfo>) {
    forall k :: 0 <= k < |starts| ==> starts[k].isExplicit
  }

  /** The merged and reduced tree, when there is one. */
  ghost function ReducedTree(t: Tables, starts: seq<CInfo>, signame: string): Option<HNode>
    requires t.Valid() && AllContained(t, starts)
  {
    match Merge(PathsTo(t, starts), signame)
    case None => None
    case Some(n) => Descend(n)
  }

  /** The paths have a common top, and lead down to a module. */
  ghost predicate IsReducible(t: Tables, starts: seq<CInfo>, signame: string)
    requires t.Valid() && AllContained(t, starts)
  {
    ReducedTree(t, starts, signame).Some? && ReducedTree(t, starts, signame).value.info.obj.Mod?
  }

  /** Every end point has an object. */
  ghost predicate Reaches(objs: set<GenObj>, starts: seq<CInfo>) {
    forall i :: 0 <= i < |starts| ==> exists o :: o in objs && o.Owner() == EndPoint(starts[i])
  }

  /** The object at the end of the path to a start point. */
  lemma PathEnd(t: Tables, start: CInfo)
    requires t.Valid() && t.Contains(start.obj)
    ensures var path := Path(t, start); path[|path| - 1].obj == EndPoint(start)
    ensures start.isExplicit ==> Path(t, start)[|Path(t, start)| - 1].isExplicit
  {
    assert Path(t, start)[|Path(t, start)| - 1] == Start(t, start).cinfo;
  }

  /** An explicit node below the top is in the reduced tree, so it gets an object. */
  lemma ExplicitNodeEmits(what: Creation, n: HNode, p: seq<Obj>, x: HNode)
    requires Descend(n).Some? && Named(Descend(n).value)
    requires NodeAt(n, p, x) && x.info.isExplicit && |p| > 1
    ensures exists o :: o in Emit(what, Descend(n).value, true, None) && o.Owner() == x.info.obj
  {
    ExplicitNodesStay(n, p, x);
    var q := p[|DescentPath(n)| - 1..];
    var above := EveryNodeEmits(what, Descend(n).value, true, None, q, x);
    assert Own(what, x, |q| == 1, above).Owner() == x.info.obj;
  }

  /** A default instance is never an end point, so the path to an end point goes on below it. */
  lemma PathIsLong(t: Tables, h: seq<seq<CInfo>>, signame: string, path: seq<CInfo>)
    requires NonEmpty(h) && Merge(h, signame).Some? && Merge(h, signame).value.info.obj.Def?
    requires path in h && PathOk(t, path)
    ensures |path| > 1
  {
    MergeSucceedsIff(h, signame);
    HeadOfJoin(h);
    var i :| 0 <= i < |h| && h[i] == path;
    assert h[i][0].obj.Def?;
  }

  /** Every end point gets an object. */
  lemma EndPointEmits(what: Creation, t: Tables, starts: seq<CInfo>, signame: string, i: nat)
    requires t.Valid() && AllContained(t, starts) && i < |starts|
    requires AllExplicit(starts) && IsReducible(t, starts, signame) && Named(ReducedTree(t, starts, signame).value)
    ensures exists o ::
      o in Emit(what, ReducedTree(t, starts, signame).value, true, None) && o.Owner() == EndPoint(starts[i])
  {
    var h, path := PathsTo(t, starts), Path(t, starts[i]);
    PathIsListed(t, starts, i);
    PathEnd(t, starts[i]);
    var x := ExplicitNode(h, signame, path);
    assert |path| > 1 by {
      RootIsInstance(t, starts, signame);
      DatabasePathOk(t, starts[i]);
      PathIsLong(t, h, signame, path);
    }
    ExplicitNodeEmits(what, Merge(h, signame).value, Objs(path), x);
  }

  /** The merged tree has the shape of the hierarchy below the instance of a top module. */
  lemma MergedTreeIsOk(t: Tables, starts: seq<CInfo>, signame: string)
    requires t.Valid() && AllContained(t, starts) && AllExplicit(starts) && ReducedTree(t, starts, signame).Some?
    ensures AllOk(t, PathsTo(t, starts)) && forall path :: path in PathsTo(t, starts) ==> EndsExplicit(path)
    ensures var n := Merge(PathsTo(t, starts), signame).value; n.info.obj.Def? && TreeOk(t, n)
  {
    PathsAreOk(t, starts);
    RootIsInstance(t, starts, signame);
    MergedTreeOk(t, PathsTo(t, starts), signame);
  }

  lemma RootOfNet(t: Tables, starts: seq<CInfo>, signame: string)
    requires t.Valid() && AllContained(t, starts) && AllExplicit(starts) && IsReducible(t, starts, signame)
    ensures var n := Merge(PathsTo(t, starts), signame).value;
      && n.info.obj.Def? && |n.children| == 1
      && TreeOk(t, Descend(n).value) && Named(Descend(n).value) && Descend(n).value.info.obj.Mod?
      && DescentPath(n) != [] && DescentPath(n)[|DescentPath(n)| - 1] == Descend(n).value.info.obj
  {
    var n := Merge(PathsTo(t, starts), signame).value;
    MergedTreeIsOk(t, starts, signame);
    ReducedRootIsModule(t, n);
    OkTreesAreNamed(t, Descend(n).value);
    ReducedNodeAt(n);
    NodeObject(n, DescentPath(n), Descend(n).value);
  }

  /** Without conflicting names the descent ends at a module. */
  lemma ConsistentIsReducible(t: Tables, starts: seq<CInfo>, signame: string)
    requires t.Valid() && AllContained(t, starts) && AllExplicit(starts)
    requires Consistent(PathsTo(t, starts)) && ReducedTree(t, starts, signame).Some?
    ensures IsReducible(t, starts, signame)
  {
    MergedTreeIsOk(t, starts, signame);
    ConsistentRootIsModule(t, PathsTo(t, starts), signame);
  }

  /** The objects of two nodes for the module of an instance share an identifier. */
  lemma TwinsClash(what: Creation, t: Tables, n: HNode, ids: set<GenId>)
    requires TreeOk(t, n) && Named(n) && n.info.obj.Def? && |n.children| > 1
    ensures !AllFresh(ids, Emit(what, n, true, None))
  {
    var name := Some(NodeName(what, n, true, None));
    var a, b := Own(what, n.children[0], false, name), Own(what, n.children[1], false, name);
    InstanceHasModule(t, n);
    assert n.children[0].info.obj == n.children[1].info.obj && a.Id() == b.Id();
    var own, first := [Own(what, n, true, None)], Emit(what, n.children[0], false, name);
    var rest := EmitAll(what, n.children[1..], name);
    assert EmitAll(what, n.children, name) == first + rest;
    EmittedByChild(what, n.children[1..], name, 0, b);
    FreshConcat(ids, own, first + rest);
    FreshConcat(ids + IdsOf(own), first, rest);
    if AllFresh(ids, Emit(what, n, true, None)) {
      FreshAreDistinct(ids + IdsOf(own), first);
      FreshAreNew(ids + IdsOf(own) + IdsOf(first), rest, b);
    }
  }

  /** When all objects can be created the descent ended at a module. */
  lemma CreatedIsReducible(what: Creation, t: Tables, starts: seq<CInfo>, signame: string, ids: set<GenId>)
    requires t.Valid() && AllContained(t, starts) && AllExplicit(starts) && ReducedTree(t, starts, signame).Some?
    requires var r := ReducedTree(t, starts, signame).value; Named(r) && AllFresh(ids, Emit(what, r, true, None))
    ensures IsReducible(t, starts, signame)
  {
    MergedTreeIsOk(t, starts, signame);
    ReducedRootIsModule(t, Merge(PathsTo(t, starts), signame).value);
    var r := ReducedTree(t, starts, signame).value;
    if r.info.obj.Def? { TwinsClash(what, t, r, ids); }
  }

  /** Every end point has an object in what is created. */
  lemma AllReached(what: Creation, t: Tables, starts: seq<CInfo>, signame: string)
    requires t.Valid() && AllContained(t, starts) && AllExplicit(starts) && IsReducible(t, starts, signame)
    requires Named(ReducedTree(t, starts, signame).value)
    ensures Reaches(AsSet(Emit(what, ReducedTree(t, starts, signame).value, true, None)), starts)
  {
    var objs := AsSet(Emit(what, ReducedTree(t, starts, signame).value, true, None));
    forall i | 0 <= i < |starts| ensures exists o :: o in objs && o.Owner() == EndPoint(starts[i]) {
      EndPointEmits(what, t, starts, signame, i);
    }
  }
}
