/** Reducing the hierarchy tree to the lowest module around all end points (ig_lib_htree_reduce). */
module Reduce {
  import opened Wrappers
  import opened ConnectionInfo
  import opened HierarchyDb
  import opened MergeTree
  import opened MergeProperties
  import opened MergeAttributes
  import opened MergeNodes
  import opened TreeShape

  /** Below n: the first node down the chain of only children that is explicit or has several children. */
  function Descend(n: HNode): Option<HNode> {
    if |n.children| > 1 then Some(n)
    else if n.children == [] then None
    else if n.children[0].info.isExplicit then Some(n.children[0])
    else Descend(n.children[0])
  }

  /** The objects from n down to that node. */
  ghost function DescentPath(n: HNode): seq<Obj>
    requires Descend(n).Some?
  {
    if |n.children| > 1 then [n.info.obj]
    else if n.children[0].info.isExplicit then [n.info.obj, n.children[0].info.obj]
    else [n.info.obj] + DescentPath(n.children[0])
  }

  /** What reducing a tree gives back: with several children at the top it is the node that was just freed. */
  datatype Reduction = Reduced(tree: HNode) | NoModule | Freed

  function ReductionOf(n: HNode): Reduction {
    if |n.children| > 1 then Freed
    else if Descend(n).Some? then Reduced(Descend(n).value)
    else NoModule
  }

  /** ig_lib_htree_reduce */
  method HtreeReduce(tree: HNode) returns (r: Reduction)
    ensures r == ReductionOf(tree)
  {
    var temp, isRoot := Some(tree), true;
    while true
      invariant temp.Some? && Descend(temp.value) == Descend(tree)
      invariant if isRoot then temp.value == tree else |tree.children| <= 1
      decreases temp.value
    {
      if |temp.value.children| > 1 { break; }
      temp := if temp.value.children == [] then None else Some(temp.value.children[0]);
      isRoot := false;
      if temp == None { break; }
      if temp.value.info.isExplicit { break; }
    }
    if temp == None { return NoModule; }
    if isRoot { return Freed; }
    return Reduced(temp.value);
  }

  /** The reduced tree sits in the tree at the end of the descent. */
  lemma {:induction false} ReducedNodeAt(n: HNode)
    requires Descend(n).Some?
    ensures NodeAt(n, DescentPath(n), Descend(n).value)
  {
    if |n.children| == 1 {
      var c, p := n.children[0], DescentPath(n);
      if c.info.isExplicit {
        assert p[1..] == [c.info.obj] && NodeAt(c, p[1..], c);
      } else {
        ReducedNodeAt(c);
        assert p[1..] == DescentPath(c);
      }
      assert SomeNodeAt(n.children, p[1..], Descend(n).value);
    }
  }

  /** A node of the reduced tree is a node of the tree, further down by the descent. */
  lemma {:induction false} ReducedNodeLifts(n: HNode, p: seq<Obj>, x: HNode)
    requires Descend(n).Some? && NodeAt(Descend(n).value, p, x)
    ensures DescentPath(n) != [] && NodeAt(n, DescentPath(n)[..|DescentPath(n)| - 1] + p, x)
  {
    if |n.children| > 1 {
      assert [n.info.obj][..0] + p == p;
    } else {
      var c := n.children[0];
      var q := if c.info.isExplicit then p else DescentPath(c)[..|DescentPath(c)| - 1] + p;
      if !c.info.isExplicit { ReducedNodeLifts(c, p, x); }
      assert DescentPath(n)[..|DescentPath(n)| - 1] + p == [n.info.obj] + q;
      assert ([n.info.obj] + q)[1..] == q && SomeNodeAt(n.children, q, x);
    }
  }

  lemma OnlyChildHasIt(n: HNode, p: seq<Obj>, x: HNode)
    requires |n.children| == 1 && NodeAt(n, p, x) && |p| > 1
    ensures NodeAt(n.children[0], p[1..], x) && p[0] == n.info.obj && p[1] == n.children[0].info.obj
  {
    var k :| 0 <= k < |n.children| && NodeAt(n.children[k], p[1..], x);
  }

  /** No explicit node below the top is lost: it is reached through the reduced root. */
  lemma {:induction false} ExplicitNodesStay(n: HNode, p: seq<Obj>, x: HNode)
    requires Descend(n).Some? && NodeAt(n, p, x) && x.info.isExplicit && |p| > 1
    ensures DescentPath(n) != [] && DescentPath(n) <= p
    ensures NodeAt(Descend(n).value, p[|DescentPath(n)| - 1..], x)
  {
    if |n.children| > 1 {
      assert p[0..] == p && [n.info.obj] <= p;
    } else {
      OnlyChildHasIt(n, p, x);
      var c := n.children[0];
      if c.info.isExplicit {
        assert DescentPath(n) == [p[0], p[1]];
      } else {
        assert |p[1..]| > 1;
        ExplicitNodesStay(c, p[1..], x);
        DropOne(p, DescentPath(c));
        assert DescentPath(n) == [p[0]] + DescentPath(c);
      }
    }
  }

  /** Nodes below the end of the descent stay. */
  lemma {:induction false} NodesBelowStay(n: HNode, p: seq<Obj>, x: HNode)
    requires Descend(n).Some? && NodeAt(n, p, x) && |p| > |DescentPath(n)|
    ensures DescentPath(n) != [] && DescentPath(n) <= p
    ensures NodeAt(Descend(n).value, p[|DescentPath(n)| - 1..], x)
  {
    if |n.children| > 1 {
      assert p[0..] == p && [n.info.obj] <= p;
    } else {
      OnlyChildHasIt(n, p, x);
      var c := n.children[0];
      if c.info.isExplicit {
        assert DescentPath(n) == [p[0], p[1]];
      } else {
        NodesBelowStay(c, p[1..], x);
        DropOne(p, DescentPath(c));
        assert DescentPath(n) == [p[0]] + DescentPath(c);
      }
    }
  }

  lemma DropOne(p: seq<Obj>, q: seq<Obj>)
    requires p != [] && q != [] && q <= p[1..]
    ensures [p[0]] + q <= p && p[1..][|q| - 1..] == p[|[p[0]] + q| - 1..]
  {
  }

  /** An instance has children, and they all are its module. */
  lemma InstanceHasModule(t: Tables, n: HNode)
    requires TreeOk(t, n) && n.info.obj.Def?
    ensures n.children != []
    ensures forall k :: 0 <= k < |n.children| ==>
      n.children[k].info.obj == Mod(n.info.obj.name) && TreeOk(t, n.children[k])
  {
    forall k | 0 <= k < |n.children| ensures n.children[k].info.obj == Mod(n.info.obj.name) {
      assert Step(t, n.info, n.children[k].info);
    }
  }

  /** From the top of a well-shaped tree the descent always ends, at a module or at an instance with its module
      under several names. */
  lemma {:induction false} ReducedRootIsModule(t: Tables, n: HNode)
    requires TreeOk(t, n) && n.info.obj.Def?
    ensures Descend(n).Some? && TreeOk(t, Descend(n).value)
    ensures var r := Descend(n).value; r.info.obj.Mod? || (r.info.obj.Def? && |r.children| > 1)
  {
    InstanceHasModule(t, n);
    if |n.children| == 1 {
      var m := n.children[0];
      if !m.info.isExplicit && |m.children| == 1 {
        assert Step(t, m.info, m.children[0].info) && TreeOk(t, m.children[0]);
        ReducedRootIsModule(t, m.children[0]);
      }
    }
  }

  // ---------------------------------------------------------------------------
  // The lowest common module

  /** Explicit are the end of the path, and the module around it when it is a resource instance. */
  ghost predicate EndsExplicit(path: seq<CInfo>) {
    forall k :: 0 <= k < |path| && path[k].isExplicit ==>
      k == |path| - 1 || (k == |path| - 2 && path[|path| - 1].obj.Res?)
  }

  lemma {:induction false} ClimbEndsExplicit(t: Tables, c: Climber)
    requires t.Valid() && t.Contains(c.cinfo.obj)
    requires c.explicitNext <==> c.cinfo.obj.Res?
    ensures EndsExplicit(Climb(t, c))
    decreases t.Depth(c.cinfo.obj)
  {
    if Above(t, c).Some? {
      var a := Above(t, c).value;
      AboveIsCloser(t, c);
      ClimbEndsExplicit(t, a);
      assert !a.cinfo.obj.Res? && (a.cinfo.isExplicit ==> c.cinfo.obj.Res?);
      assert Climb(t, c) == Climb(t, a) + [c.cinfo];
    }
  }

  lemma DatabasePathEndsExplicit(t: Tables, start: CInfo)
    requires t.Valid() && t.Contains(start.obj)
    ensures EndsExplicit(Path(t, start))
  {
    ClimbEndsExplicit(t, Start(t, start));
  }

  /** All end points lie in or at the object at the end of p. */
  ghost predicate Encloses(h: seq<seq<CInfo>>, p: seq<Obj>) {
    p != [] && forall path :: path in h ==> Passes(path, p)
  }

  /** All end points lie in the module at the end of p, and in no module below it. */
  ghost predicate IsLowestModule(h: seq<seq<CInfo>>, p: seq<Obj>) {
    && Encloses(h, p) && p[|p| - 1].Mod?
    && (forall q: seq<Obj> :: |q| > |p| && q[|q| - 1].Mod? ==> exists path :: path in h && !Passes(path, q))
  }

  /** All end points lie in one object right below p, which is named differently. */
  ghost predicate IsNamedApart(h: seq<seq<CInfo>>, p: seq<Obj>, o: Obj) {
    Encloses(h, p + [o]) && exists a, b :: NameApart(h, p + [o], a, b)
  }

  /** Every path leads to an explicit node of the reduced tree. */
  lemma PathReachesNode(t: Tables, h: seq<seq<CInfo>>, signame: string, path: seq<CInfo>) returns (x: HNode)
    requires NonEmpty(h) && AllOk(t, h) && path in h
    requires Merge(h, signame).Some? && Merge(h, signame).value.info.obj.Def?
    requires Descend(Merge(h, signame).value).Some?
    ensures var n := Merge(h, signame).value;
      && DescentPath(n) != [] && DescentPath(n) <= Objs(path) && x.info.isExplicit
      && NodeAt(Descend(n).value, Objs(path)[|DescentPath(n)| - 1..], x)
  {
    assert PathOk(t, path);
    x := ExplicitNode(h, signame, path);
    assert |path| > 1 by {
      MergeSucceedsIff(h, signame);
      HeadOfJoin(h);
      var i :| 0 <= i < |h| && h[i] == path;
      assert h[i][0].obj.Def?;
    }
    ExplicitNodesStay(Merge(h, signame).value, Objs(path), x);
  }

  lemma PassesOwn(path: seq<CInfo>, p: seq<Obj>)
    requires p <= Objs(path)
    ensures Passes(path, p)
  {
    forall k | 0 <= k < |p| ensures path[k].obj == p[k] { assert Objs(path)[k] == p[k]; }
  }

  lemma ReducedRootEncloses(t: Tables, h: seq<seq<CInfo>>, signame: string)
    requires NonEmpty(h) && AllOk(t, h)
    requires Merge(h, signame).Some? && Merge(h, signame).value.info.obj.Def?
    requires Descend(Merge(h, signame).value).Some?
    ensures Encloses(h, DescentPath(Merge(h, signame).value))
  {
    MergeSucceedsIff(h, signame);
    forall path | path in h ensures Passes(path, DescentPath(Merge(h, signame).value)) {
      var x := PathReachesNode(t, h, signame, path);
      PassesOwn(path, DescentPath(Merge(h, signame).value));
    }
    assert h[0] in h;
    var x := PathReachesNode(t, h, signame, h[0]);
  }

  /** With several children, a path goes on to one of them unless the root is explicit. */
  lemma PathGoesOn(t: Tables, h: seq<seq<CInfo>>, signame: string, path: seq<CInfo>) returns (k: nat)
    requires NonEmpty(h) && AllOk(t, h) && path in h
    requires Merge(h, signame).Some? && Merge(h, signame).value.info.obj.Def?
    requires Descend(Merge(h, signame).value).Some? && !Descend(Merge(h, signame).value).value.info.isExplicit
    ensures var n := Merge(h, signame).value;
      && k < |Descend(n).value.children|
      && Passes(path, DescentPath(n) + [Descend(n).value.children[k].info.obj])
  {
    var n := Merge(h, signame).value;
    var p, r := DescentPath(n), Descend(n).value;
    var x := PathReachesNode(t, h, signame, path);
    k := ChildTowards(r, Objs(path), |p|, x);
    assert p + [r.children[k].info.obj] <= Objs(path);
    PassesOwn(path, p + [r.children[k].info.obj]);
  }

  /** Another node of a tree is reached through a child. */
  lemma ChildTowards(r: HNode, objs: seq<Obj>, n: nat, x: HNode) returns (k: nat)
    requires 0 < n <= |objs| && NodeAt(r, objs[n - 1..], x) && x != r
    ensures k < |r.children| && n < |objs| && r.children[k].info.obj == objs[n]
  {
    var q := objs[n - 1..];
    k :| 0 <= k < |r.children| && NodeAt(r.children[k], q[1..], x);
    assert q[1..] == objs[n..];
  }

  /** Where the descent ends is the lowest module around all end points, unless all of them lie in one
      instance below that is named differently. */
  lemma PlaceOfRoot(t: Tables, h: seq<seq<CInfo>>, signame: string)
    requires NonEmpty(h) && AllOk(t, h) && forall path :: path in h ==> EndsExplicit(path)
    requires Merge(h, signame).Some? && Merge(h, signame).value.info.obj.Def?
    requires Descend(Merge(h, signame).value).Some? && Descend(Merge(h, signame).value).value.info.obj.Mod?
    ensures var p := DescentPath(Merge(h, signame).value); IsLowestModule(h, p) || exists o :: IsNamedApart(h, p, o)
  {
    var n := Merge(h, signame).value;
    var p, r := DescentPath(n), Descend(n).value;
    ReducedRootEncloses(t, h, signame);
    ReducedNodeAt(n);
    NodeObject(n, p, r);
    if r.info.isExplicit {
      NodeFlags(h, signame, p, r);
      EndIsLowest(h, p);
    } else {
      SeveralChildren(n);
      if l: nat :| l < |r.children| && r.children[l].info.obj != r.children[0].info.obj {
        PartingIsLowest(h, signame, p, r, l);
      } else {
        TwinsNameApart(t, h, signame);
      }
    }
  }

  lemma EndIsLowest(h: seq<seq<CInfo>>, p: seq<Obj>)
    requires Encloses(h, p) && p[|p| - 1].Mod? && exists r :: r in Records(h, p) && r.isExplicit
    requires forall path :: path in h ==> EndsExplicit(path)
    ensures IsLowestModule(h, p)
  {
    forall q: seq<Obj> | |q| > |p| && q[|q| - 1].Mod? ensures exists path :: path in h && !Passes(path, q) {
      SomePathEnds(h, p, q);
    }
  }

  lemma PartingIsLowest(h: seq<seq<CInfo>>, signame: string, p: seq<Obj>, r: HNode, l: nat)
    requires NonEmpty(h) && Encloses(h, p) && p[|p| - 1].Mod?
    requires Merge(h, signame).Some? && NodeAt(Merge(h, signame).value, p, r)
    requires l < |r.children| && r.children[l].info.obj != r.children[0].info.obj
    ensures IsLowestModule(h, p)
  {
    forall q: seq<Obj> | |q| > |p| && q[|q| - 1].Mod? ensures exists path :: path in h && !Passes(path, q) {
      SomePathTakes(h, signame, p, r, if r.children[0].info.obj == q[|p|] then l else 0, q);
    }
  }

  lemma TwinsNameApart(t: Tables, h: seq<seq<CInfo>>, signame: string)
    requires NonEmpty(h) && AllOk(t, h)
    requires Merge(h, signame).Some? && Merge(h, signame).value.info.obj.Def?
    requires Descend(Merge(h, signame).value).Some? && !Descend(Merge(h, signame).value).value.info.isExplicit
    requires var r := Descend(Merge(h, signame).value).value;
      |r.children| > 1 && forall l :: 0 <= l < |r.children| ==> r.children[l].info.obj == r.children[0].info.obj
    ensures exists o :: IsNamedApart(h, DescentPath(Merge(h, signame).value), o)
  {
    var n := Merge(h, signame).value;
    var p, r := DescentPath(n), Descend(n).value;
    var o := r.children[0].info.obj;
    ReducedNodeAt(n);
    var a, b := TwinChildren(h, signame, p, r, 0, 1);
    forall path | path in h ensures Passes(path, p + [o]) {
      var k := PathGoesOn(t, h, signame, path);
    }
    assert IsNamedApart(h, p, o);
  }

  /** A path that is explicit at the end of p ends there, or in a resource instance right below. */
  lemma SomePathEnds(h: seq<seq<CInfo>>, p: seq<Obj>, q: seq<Obj>)
    requires p != [] && exists r :: r in Records(h, p) && r.isExplicit
    requires forall path :: path in h ==> EndsExplicit(path)
    requires |q| > |p| && q[|q| - 1].Mod?
    ensures exists path :: path in h && !Passes(path, q)
  {
    var rec :| rec in Records(h, p) && rec.isExplicit;
    var path: seq<CInfo> :| path in h && Passes(path, p) && path[|p| - 1] == rec;
    assert EndsExplicit(path);
    EndsBefore(path, p, q);
  }

  lemma EndsBefore(path: seq<CInfo>, p: seq<Obj>, q: seq<Obj>)
    requires EndsExplicit(path) && p != [] && |p| <= |path| && path[|p| - 1].isExplicit
    requires |q| > |p| && q[|q| - 1].Mod?
    ensures !Passes(path, q)
  {
    if |q| <= |path| {
      var k := |q| - 1;
      assert path[k].obj.Res?;
    }
  }

  /** Some path goes on to the k-th child of a node, and so misses q when q goes on elsewhere. */
  lemma SomePathTakes(h: seq<seq<CInfo>>, signame: string, p: seq<Obj>, r: HNode, k: nat, q: seq<Obj>)
    requires NonEmpty(h) && Merge(h, signame).Some? && NodeAt(Merge(h, signame).value, p, r)
    requires k < |r.children| && |q| > |p| && r.children[k].info.obj != q[|p|]
    ensures exists path :: path in h && !Passes(path, q)
  {
    var o := r.children[k].info.obj;
    ChildNodeAt(Merge(h, signame).value, p, r, k);
    assert InTree(Merge(h, signame).value, p + [o]);
    TreeIsPrefixes(h, signame, p + [o]);
    var path: seq<CInfo> :| path in h && Passes(path, p + [o]);
    assert path[|p|].obj == (p + [o])[|p|];
  }

  lemma {:induction false} SeveralChildren(n: HNode)
    requires Descend(n).Some? && !Descend(n).value.info.isExplicit
    ensures |Descend(n).value.children| > 1
  {
    if |n.children| == 1 { SeveralChildren(n.children[0]); }
  }

  lemma {:induction false} ChildNodeAt(n: HNode, p: seq<Obj>, x: HNode, k: nat)
    requires NodeAt(n, p, x) && k < |x.children|
    ensures NodeAt(n, p + [x.children[k].info.obj], x.children[k])
    decreases |p|
  {
    var o := x.children[k].info.obj;
    if |p| == 1 {
      assert (p + [o])[1..] == [o] && NodeAt(x.children[k], [o], x.children[k]);
    } else {
      var j :| 0 <= j < |n.children| && NodeAt(n.children[j], p[1..], x);
      ChildNodeAt(n.children[j], p[1..], x, k);
      assert (p + [o])[1..] == p[1..] + [o];
    }
  }

  /** Paths to explicit end points below a default instance at the top, without conflicting names. */
  ghost predicate AreEndPaths(t: Tables, h: seq<seq<CInfo>>, signame: string)
    requires NonEmpty(h)
  {
    && Consistent(h) && AllOk(t, h) && (forall path :: path in h ==> EndsExplicit(path))
    && Merge(h, signame).Some? && Merge(h, signame).value.info.obj.Def?
  }

  /** Without conflicting names the reduced root is the lowest module that contains all end points. */
  lemma LowestCommonModule(t: Tables, h: seq<seq<CInfo>>, signame: string)
    requires NonEmpty(h)
    ensures AreEndPaths(t, h, signame) ==>
      Descend(Merge(h, signame).value).Some? && IsLowestModule(h, DescentPath(Merge(h, signame).value))
  {
    if AreEndPaths(t, h, signame) {
      var n := Merge(h, signame).value;
      MergedTreeOk(t, h, signame);
      ReducedRootIsModule(t, n);
      ConsistentRootIsModule(t, h, signame);
      PlaceOfRoot(t, h, signame);
    }
  }

  lemma ConsistentRootIsModule(t: Tables, h: seq<seq<CInfo>>, signame: string)
    requires NonEmpty(h) && Consistent(h) && Merge(h, signame).Some? && TreeOk(t, Merge(h, signame).value)
    requires Merge(h, signame).value.info.obj.Def?
    ensures Descend(Merge(h, signame).value).Some? && Descend(Merge(h, signame).value).value.info.obj.Mod?
  {
    var n := Merge(h, signame).value;
    ReducedRootIsModule(t, n);
    var r := Descend(n).value;
    if r.info.obj.Def? {
      InstanceHasModule(t, r);
      ReducedNodeAt(n);
      SiblingsDiffer(h, signame, DescentPath(n), r, 0, 1);
    }
  }
}
