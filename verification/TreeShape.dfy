/** Hierarchy trees built from database paths have the shape of the hierarchy: instances and modules
    alternate, and what is explicit sits at modules and resource instances.  */
module TreeShape {
  import opened Wrappers
  import opened ConnectionInfo
  import opened HierarchyDb
  import opened MergeTree
  import opened MergeProperties
  import opened MergeAttributes
  import opened MergeNodes

  /** b is directly below a in the hierarchy. */
  predicate Link(t: Tables, a: Obj, b: Obj) {
    match a
    case Def(m) => b == Mod(m)
    case Mod(m) => (b.Def? && b.name in t.parents && t.parents[b.name] == m)
                   || (b.Res? && b.name in t.resources && t.resources[b.name].parent == m)
    case Res(_) => false
  }

  /** The module around a resource instance is explicit with it. */
  predicate Step(t: Tables, a: CInfo, b: CInfo) {
    Link(t, a.obj, b.obj) && (b.obj.Res? ==> a.isExplicit)
  }

  ghost predicate PathOk(t: Tables, path: seq<CInfo>) {
    path != [] && path[|path| - 1].isExplicit && ChainOk(t, path)
  }

  ghost predicate ChainOk(t: Tables, path: seq<CInfo>) {
    && (forall k :: 0 <= k < |path| && path[k].obj.Def? ==> !path[k].isExplicit)
    && (forall k :: 0 <= k < |path| - 1 ==> Step(t, path[k], path[k + 1]))
  }

  /** The same for trees: leaves are explicit. */
  ghost predicate TreeOk(t: Tables, n: HNode) {
    && n.info.localName.Some?
    && (n.info.obj.Def? ==> !n.info.isExplicit)
    && (n.children == [] ==> n.info.isExplicit)
    && (forall i :: 0 <= i < |n.children| ==> Step(t, n.info, n.children[i].info))
    && (forall i :: 0 <= i < |n.children| ==> TreeOk(t, n.children[i]))
  }

  ghost predicate AllOk(t: Tables, h: seq<seq<CInfo>>) {
    forall path :: path in h ==> PathOk(t, path)
  }

  // ---------------------------------------------------------------------------
  // Paths of the database

  /** Every path climbed to from an explicit start point has the shape. */
  lemma DatabasePathOk(t: Tables, start: CInfo)
    requires t.Valid() && t.Contains(start.obj) && start.isExplicit
    ensures PathOk(t, Path(t, start))
  {
    var c := Start(t, start);
    ClimbOk(t, c);
  }

  lemma ChainGrows(t: Tables, above: seq<CInfo>, c: CInfo)
    requires ChainOk(t, above) && above != [] && Step(t, above[|above| - 1], c) && (c.obj.Def? ==> !c.isExplicit)
    ensures ChainOk(t, above + [c])
  {
    var r := above + [c];
    forall k | 0 <= k < |r| - 1 ensures Step(t, r[k], r[k + 1]) {
      if k < |above| - 1 { assert Step(t, above[k], above[k + 1]); }
    }
  }

  lemma {:induction false} ClimbOk(t: Tables, c: Climber)
    requires t.Valid() && t.Contains(c.cinfo.obj)
    requires c.cinfo.obj.Def? ==> !c.cinfo.isExplicit
    requires c.explicitNext <==> c.cinfo.obj.Res?
    ensures ChainOk(t, Climb(t, c))
    decreases t.Depth(c.cinfo.obj)
  {
    if Above(t, c).Some? {
      var a := Above(t, c).value;
      AboveIsCloser(t, c);
      ClimbOk(t, a);
      ChainGrows(t, Climb(t, a), c.cinfo);
    }
  }

  // ---------------------------------------------------------------------------
  // Merged trees

  lemma TailsStayOk(t: Tables, h: seq<seq<CInfo>>)
    requires NonEmpty(h) && AllOk(t, h)
    ensures AllOk(t, Tails(h))
  {
    forall tail | tail in Tails(h) ensures PathOk(t, tail) {
      InTails(h, tail);
      var path :| path in h && |path| > 1 && path[1..] == tail;
      forall k | 0 <= k < |tail| - 1 ensures Step(t, tail[k], tail[k + 1]) {
        assert Step(t, path[k + 1], path[k + 1 + 1]);
      }
    }
  }

  /** What follows in the tails is linked to the common head. */
  lemma TailIsLinked(t: Tables, h: seq<seq<CInfo>>, tail: seq<CInfo>, signame: string)
    requires NonEmpty(h) && h != [] && SameHead(h) && AllOk(t, h) && tail in Tails(h)
    ensures Step(t, NodeInfo(h, signame), tail[0])
  {
    InTails(h, tail);
    var path :| path in h && |path| > 1 && path[1..] == tail;
    var i :| 0 <= i < |h| && h[i] == path;
    HeadOfJoin(h);
    ExplicitHead(h);
    assert Step(t, path[0], path[0 + 1]);
  }

  /** Merged trees have the shape, conflicting names or not. */
  lemma {:induction false} MergedTreeOk(t: Tables, h: seq<seq<CInfo>>, signame: string)
    requires NonEmpty(h) && Merge(h, signame).Some? && AllOk(t, h)
    ensures TreeOk(t, Merge(h, signame).value)
    decreases Size(h), 0, 0
  {
    var n := Merge(h, signame).value;
    MergeSucceedsIff(h, signame);
    HeadOfJoin(h);
    ExplicitHead(h);
    TailsStayOk(t, h);
    var name := DefaultName(n.info);
    MergedChildrenOk(t, Tails(h), name);
    forall i | 0 <= i < |n.children| ensures Step(t, n.info, n.children[i].info) {
      HeadsOfChildren(Tails(h), name, i);
      var tail: seq<CInfo> :| tail in Tails(h) && tail[0].obj == n.children[i].info.obj;
      TailIsLinked(t, h, tail, signame);
    }
    if n.children == [] { LeafIsExplicit(t, h, name); }
    InstanceIsImplicit(t, h);
  }

  lemma InstanceIsImplicit(t: Tables, h: seq<seq<CInfo>>)
    requires NonEmpty(h) && h != [] && SameHead(h) && AllOk(t, h)
    ensures h[0][0].obj.Def? ==> !JoinHeads(h).isExplicit
  {
    ExplicitHead(h);
    forall i | 0 <= i < |h| ensures h[i][0].obj.Def? ==> !h[i][0].isExplicit {
      assert h[i] in h && PathOk(t, h[i]);
    }
  }

  lemma LeafIsExplicit(t: Tables, h: seq<seq<CInfo>>, name: string)
    requires NonEmpty(h) && h != [] && AllOk(t, h) && MergeChildren(Tails(h), name) == Some([])
    ensures exists i :: 0 <= i < |h| && h[i][0].isExplicit
  {
    if Tails(h) != [] { FirstGroupOf(Tails(h), name); }
    assert h[0] in h;
    if |h[0]| > 1 { InTails(h, h[0][1..]); }
    assert PathOk(t, h[0]);
  }

  lemma FirstGroupOf(successors: seq<seq<CInfo>>, name: string)
    requires NonEmpty(successors) && successors != []
    ensures MergeChildren(successors, name).Some? && MergeChildren(successors, name).value != []
  {
    var ref, others := successors[0][0], successors[1..];
    FirstGroup(successors, [successors[0]] + Select(ref, others, true), Select(ref, others, false), name);
  }

  ghost predicate ForestOk(t: Tables, ns: seq<HNode>) {
    forall i :: 0 <= i < |ns| ==> TreeOk(t, ns[i])
  }

  lemma {:induction false} MergedChildrenOk(t: Tables, successors: seq<seq<CInfo>>, name: string)
    requires NonEmpty(successors) && MergeChildren(successors, name).Some? && AllOk(t, successors)
    ensures ForestOk(t, MergeChildren(successors, name).value)
    decreases Size(successors), 1, |successors|
  {
    if successors != [] {
      var ref, others := successors[0][0], successors[1..];
      var equal, rest := [successors[0]] + Select(ref, others, true), Select(ref, others, false);
      GroupIsSmaller(successors);
      FirstGroup(successors, equal, rest, name);
      assert AllOk(t, equal) && AllOk(t, rest) by { GroupsOk(t, successors); }
      MergedTreeOk(t, equal, name);
      MergedChildrenOk(t, rest, name);
    }
  }

  lemma GroupsOk(t: Tables, successors: seq<seq<CInfo>>)
    requires NonEmpty(successors) && successors != [] && AllOk(t, successors)
    ensures var ref, others := successors[0][0], successors[1..];
      AllOk(t, [successors[0]] + Select(ref, others, true)) && AllOk(t, Select(ref, others, false))
  {
    forall x { InGroups(successors, x); }
  }
}
