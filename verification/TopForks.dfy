/** When the merged tree branches above the top module, so that reducing it gives back a freed node. */
module TopForks {
  import opened ConnectionInfo
  import opened HierarchyDb
  import opened MergeTree
  import opened MergeProperties
  import opened TreeShape
  import opened Labels
  import opened Connections
  import opened Chains
  import opened Names
  import opened Reduce
  import opened Objects

  /** Both start points are at one top module, and they name it differently. */
  predicate Clash(t: Tables, a: CInfo, b: CInfo) {
    && EndPoint(a).Mod? && t.IsPlain(EndPoint(a).name) && EndPoint(a).name !in t.parents
    && EndPoint(b) == EndPoint(a)
    && a.localName.Some? && b.localName.Some? && a.localName != b.localName
  }

  /** The first start point is at a top module, and a later one names that module differently. */
  predicate ClashAtTop(t: Tables, starts: seq<CInfo>) {
    exists j :: 0 < j < |starts| && Clash(t, starts[0], starts[j])
  }

  /** All end points lie below the instance of one top module. */
  ghost predicate HaveCommonTop(t: Tables, starts: seq<CInfo>)
    requires t.Valid() && AllContained(t, starts)
  {
    exists top :: t.IsPlain(top) && top !in t.parents && AllBelow(t, starts, top)
  }

  ghost predicate AllBelow(t: Tables, starts: seq<CInfo>, top: Name)
    requires t.Valid() && AllContained(t, starts)
  {
    forall i :: 0 <= i < |starts| ==> t.Contains(EndPoint(starts[i])) && OnWay(t, Def(top), EndPoint(starts[i]))
  }

  lemma BelowIffHead(t: Tables, start: CInfo, top: Name)
    requires t.Valid() && t.Contains(start.obj)
    ensures Path(t, start)[0].obj == Def(top)
            <==> && t.IsPlain(top) && top !in t.parents
                 && t.Contains(EndPoint(start)) && OnWay(t, Def(top), EndPoint(start))
  {
    var path := Path(t, start);
    RunsOnWay(t, start, Def(top));
    TopOfPath(t, start);
    if t.IsPlain(top) && top !in t.parents && OnWay(t, Def(top), EndPoint(start)) {
      var k :| 0 <= k < |path| && path[k].obj == Def(top);
      PathPrefix(t, start, k);
    }
  }

  lemma {:induction false} HeadsOfPaths(t: Tables, starts: seq<CInfo>, top: Name)
    requires t.Valid() && AllContained(t, starts)
    ensures t.IsPlain(top) && top !in t.parents && AllBelow(t, starts, top) && starts != []
            <==> starts != [] && forall path: seq<CInfo> :: path in PathsTo(t, starts) ==> path[0].obj == Def(top)
  {
    forall i | 0 <= i < |starts| ensures Path(t, starts[i]) in PathsTo(t, starts) { PathIsListed(t, starts, i); }
    forall i | 0 <= i < |starts|
      ensures Path(t, starts[i])[0].obj == Def(top)
              <==> && t.IsPlain(top) && top !in t.parents
                   && t.Contains(EndPoint(starts[i])) && OnWay(t, Def(top), EndPoint(starts[i]))
    {
      BelowIffHead(t, starts[i], top);
    }
    if t.IsPlain(top) && top !in t.parents && AllBelow(t, starts, top) {
      forall path: seq<CInfo> | path in PathsTo(t, starts) ensures path[0].obj == Def(top) {
        var i := StartOfPath(t, starts, path);
      }
    }
    if starts != [] && forall path: seq<CInfo> :: path in PathsTo(t, starts) ==> path[0].obj == Def(top) {
      BelowIffHead(t, starts[0], top);
    }
  }

  /** A tree is found exactly if all end points lie below one top module and the first start point does not clash
      with another one there. */
  lemma ReducedIff(t: Tables, starts: seq<CInfo>, signame: string)
    requires t.Valid() && AllContained(t, starts) && AllExplicit(starts)
    ensures (Merge(PathsTo(t, starts), signame).Some? && ReductionOf(Merge(PathsTo(t, starts), signame).value).Reduced?)
            <==> starts != [] && HaveCommonTop(t, starts) && !ClashAtTop(t, starts)
  {
    var h := PathsTo(t, starts);
    MergeSucceedsIff(h, signame);
    if starts != [] && HaveCommonTop(t, starts) {
      var top :| t.IsPlain(top) && top !in t.parents && AllBelow(t, starts, top);
      TopIsReducible(t, starts, signame, top);
    }
    if Merge(h, signame).Some? {
      ForksIff(t, starts, signame);
      if Path(t, starts[0])[0].obj.Def? {
        CommonHead(t, starts, signame, Path(t, starts[0])[0].obj.name);
      } else {
        LoneResource(t, starts, signame);
      }
    }
  }

  lemma CommonHead(t: Tables, starts: seq<CInfo>, signame: string, top: Name)
    requires t.Valid() && AllContained(t, starts) && starts != [] && Merge(PathsTo(t, starts), signame).Some?
    requires Path(t, starts[0])[0].obj == Def(top)
    ensures HaveCommonTop(t, starts)
  {
    var h := PathsTo(t, starts);
    MergeSucceedsIff(h, signame);
    PathIsListed(t, starts, 0);
    var k :| 0 <= k < |h| && h[k] == Path(t, starts[0]);
    forall path: seq<CInfo> | path in h ensures path[0].obj == Def(top) {
      var i :| 0 <= i < |h| && h[i] == path;
      assert h[i][0].obj == h[0][0].obj == h[k][0].obj;
    }
    HeadsOfPaths(t, starts, top);
  }

  lemma TopIsReducible(t: Tables, starts: seq<CInfo>, signame: string, top: Name)
    requires t.Valid() && AllContained(t, starts) && AllExplicit(starts) && starts != []
    requires t.IsPlain(top) && top !in t.parents && AllBelow(t, starts, top)
    ensures Merge(PathsTo(t, starts), signame).Some?
    ensures !ClashAtTop(t, starts) ==> ReductionOf(Merge(PathsTo(t, starts), signame).value).Reduced?
  {
    var h: seq<seq<CInfo>> := PathsTo(t, starts);
    HeadsOfPaths(t, starts, top);
    forall i | 0 <= i < |h| ensures h[i][0].obj == Def(top) { assert h[i] in h; }
    MergeSucceedsIff(h, signame);
    HeadOfJoin(h);
    PathsAreOk(t, starts);
    MergedTreeOk(t, h, signame);
    ReducedRootIsModule(t, Merge(h, signame).value);
    ForksIff(t, starts, signame);
  }

  /** A list of paths falls into several groups exactly if some path does not merge with the first. */
  lemma SeveralGroupsIff(successors: seq<seq<CInfo>>, name: string)
    requires NonEmpty(successors) && MergeChildren(successors, name).Some?
    ensures |MergeChildren(successors, name).value| > 1
            <==> exists tail :: tail in successors && !Mergeable(successors[0][0], tail[0])
  {
    if successors != [] {
      var ref, others := successors[0][0], successors[1..];
      var rest := Select(ref, others, false);
      FirstGroup(successors, [successors[0]] + Select(ref, others, true), rest, name);
      assert |MergeChildren(successors, name).value| > 1 <==> rest != [] by {
        if rest != [] { FirstGroupOf(rest, name); }
      }
      if rest != [] { InGroups(successors, rest[0]); }
      forall tail | tail in successors && !Mergeable(ref, tail[0]) ensures tail in rest { InGroups(successors, tail); }
    }
  }

  /** A path that starts at an instance starts at a top module's, and goes on into that module. */
  lemma TopOfPath(t: Tables, start: CInfo)
    requires t.Valid() && t.Contains(start.obj)
    ensures var path := Path(t, start);
      path[0].obj.Def? ==>
        && |path| > 1 && path[1].obj == Mod(path[0].obj.name)
        && t.IsPlain(path[0].obj.name) && path[0].obj.name !in t.parents
  {
    var path := Path(t, start);
    PathIsChain(t, start);
    PathPrefix(t, start, 0);
    if path[0].obj.Def? {
      assert Objs(path)[|path| - 1] == EndPoint(start);
      PathPrefix(t, start, 1);
      var o := path[1].obj;
      assert Chain(t, o) == [path[0].obj, o];
    }
  }

  /** The second object of a path is named exactly if the path ends there. */
  lemma NameBelowTop(t: Tables, start: CInfo, top: Name)
    requires t.Valid() && t.Contains(start.obj) && Path(t, start)[0].obj == Def(top)
    ensures |Path(t, start)| > 1 && t.IsPlain(top)
    ensures LabelOf(Path(t, start)[1]) == if EndPoint(start) == Mod(top) then LabelOf(start) else []
  {
    TopOfPath(t, start);
    LabelOfStart(t, start, Mod(top));
    PathPrefix(t, start, 1);
    PassesObjs(Path(t, start), Chain(t, Mod(top)));
  }

  lemma {:induction false} FirstStartIsLast(t: Tables, starts: seq<CInfo>)
    requires t.Valid() && AllContained(t, starts) && starts != []
    ensures PathsTo(t, starts)[|starts| - 1] == Path(t, starts[0])
  {
    if |starts| > 1 { FirstStartIsLast(t, starts[..|starts| - 1]); }
  }

  /** All paths that merge start at the same object; beneath an instance each goes on. */
  lemma TailOfStart(t: Tables, starts: seq<CInfo>, signame: string, top: Name, j: nat)
    requires t.Valid() && AllContained(t, starts) && j < |starts| && Merge(PathsTo(t, starts), signame).Some?
    requires Path(t, starts[0])[0].obj == Def(top)
    ensures |Path(t, starts[j])| > 1 && Path(t, starts[j])[0].obj == Def(top) && Path(t, starts[j])[1].obj == Mod(top)
    ensures Path(t, starts[j])[1..] in Tails(PathsTo(t, starts))
    ensures LabelOf(Path(t, starts[j])[1]) == if EndPoint(starts[j]) == Mod(top) then LabelOf(starts[j]) else []
  {
    var h := PathsTo(t, starts);
    MergeSucceedsIff(h, signame);
    PathIsListed(t, starts, j);
    FirstStartIsLast(t, starts);
    var i :| 0 <= i < |h| && h[i] == Path(t, starts[j]);
    assert h[i][0].obj == h[0][0].obj == h[|h| - 1][0].obj;
    TopOfPath(t, starts[j]);
    NameBelowTop(t, starts[j], top);
    InTails(h, Path(t, starts[j])[1..]);
  }

  /** The merged tree branches above the top module exactly if the first start point sits at it and another
      names it differently. */
  lemma ForksIff(t: Tables, starts: seq<CInfo>, signame: string)
    requires t.Valid() && AllContained(t, starts) && Merge(PathsTo(t, starts), signame).Some?
    ensures |Merge(PathsTo(t, starts), signame).value.children| > 1 <==> ClashAtTop(t, starts)
  {
    MergeSucceedsIff(PathsTo(t, starts), signame);
    if Path(t, starts[0])[0].obj.Def? {
      ForksBelowInstanceIff(t, starts, signame, Path(t, starts[0])[0].obj.name);
    } else {
      LoneResource(t, starts, signame);
    }
  }

  /** Start points at a resource module itself lead nowhere. */
  lemma LoneResource(t: Tables, starts: seq<CInfo>, signame: string)
    requires t.Valid() && AllContained(t, starts) && Merge(PathsTo(t, starts), signame).Some?
    requires starts != [] && !Path(t, starts[0])[0].obj.Def?
    ensures Merge(PathsTo(t, starts), signame).value.children == [] && !ClashAtTop(t, starts)
  {
    var h := PathsTo(t, starts);
    MergeSucceedsIff(h, signame);
    FirstStartIsLast(t, starts);
    ClimbHead(t, Start(t, starts[0]));
    if Tails(h) != [] {
      InTails(h, Tails(h)[0]);
      var path :| path in h && |path| > 1 && path[1..] == Tails(h)[0];
      var i :| 0 <= i < |h| && h[i] == path;
      assert h[i][0].obj == h[0][0].obj == h[|h| - 1][0].obj;
      LongPathStartsAtInstance(t, starts, path);
    }
  }

  lemma ForksBelowInstanceIff(t: Tables, starts: seq<CInfo>, signame: string, top: Name)
    requires t.Valid() && AllContained(t, starts) && Merge(PathsTo(t, starts), signame).Some?
    requires starts != [] && Path(t, starts[0])[0].obj == Def(top)
    ensures |Merge(PathsTo(t, starts), signame).value.children| > 1 <==> ClashAtTop(t, starts)
  {
    var h := PathsTo(t, starts);
    FirstTail(t, starts, signame, top);
    SeveralGroupsIff(Tails(h), DefaultName(NodeInfo(h, signame)));
    if ClashAtTop(t, starts) {
      var j :| 0 < j < |starts| && Clash(t, starts[0], starts[j]);
      TailOfStart(t, starts, signame, top, j);
      OtherNameIff(t, starts, signame, top, j);
    }
    if tail :| tail in Tails(h) && !Mergeable(Path(t, starts[0])[1], tail[0]) {
      var j := StartOfTail(t, starts, tail);
      OtherNameIff(t, starts, signame, top, j);
    }
  }

  lemma StartOfTail(t: Tables, starts: seq<CInfo>, tail: seq<CInfo>) returns (j: nat)
    requires t.Valid() && AllContained(t, starts) && tail in Tails(PathsTo(t, starts))
    ensures j < |starts| && |Path(t, starts[j])| > 1 && tail == Path(t, starts[j])[1..]
  {
    InTails(PathsTo(t, starts), tail);
    var path :| path in PathsTo(t, starts) && |path| > 1 && path[1..] == tail;
    j := StartOfPath(t, starts, path);
  }

  lemma OtherNameIff(t: Tables, starts: seq<CInfo>, signame: string, top: Name, j: nat)
    requires t.Valid() && AllContained(t, starts) && j < |starts| && Merge(PathsTo(t, starts), signame).Some?
    requires Path(t, starts[0])[0].obj == Def(top) && |Path(t, starts[0])| > 1 && |Path(t, starts[j])| > 1
    ensures !Mergeable(Path(t, starts[0])[1], Path(t, starts[j])[1]) <==> j > 0 && Clash(t, starts[0], starts[j])
  {
    TailOfStart(t, starts, signame, top, j);
    TailOfStart(t, starts, signame, top, 0);
    EndAtTopIff(t, starts[0], top);
  }

  /** A start point at a top module is at the one its path starts at. */
  lemma EndAtTopIff(t: Tables, start: CInfo, top: Name)
    requires t.Valid() && t.Contains(start.obj) && Path(t, start)[0].obj == Def(top)
    ensures EndPoint(start) == Mod(top)
            <==> EndPoint(start).Mod? && t.IsPlain(EndPoint(start).name) && EndPoint(start).name !in t.parents
  {
    TopOfPath(t, start);
    PathIsChain(t, start);
    assert Objs(Path(t, start))[0] == Def(top);
  }

  /** The first group is that of the first start point. */
  lemma FirstTail(t: Tables, starts: seq<CInfo>, signame: string, top: Name)
    requires t.Valid() && AllContained(t, starts) && Merge(PathsTo(t, starts), signame).Some?
    requires starts != [] && Path(t, starts[0])[0].obj == Def(top)
    ensures |Path(t, starts[0])| > 1
    ensures var h := PathsTo(t, starts);
      && Tails(h) != [] && Tails(h)[0] == Path(t, starts[0])[1..]
      && Merge(h, signame).value.children == MergeChildren(Tails(h), DefaultName(NodeInfo(h, signame))).value
      && MergeChildren(Tails(h), DefaultName(NodeInfo(h, signame))).Some?
  {
    FirstStartIsLast(t, starts);
    TopOfPath(t, starts[0]);
  }
}
