/** What the merged hierarchy tree contains: exactly the prefixes of the paths, each node with the join
    of the records of all paths through it.  */
module MergeProperties {
  import opened ConnectionInfo
  import opened MergeTree

  /** The path runs through the objects p. */
  ghost predicate Passes(path: seq<CInfo>, p: seq<Obj>) {
    |p| <= |path| && forall k :: 0 <= k < |p| ==> path[k].obj == p[k]
  }

  ghost predicate Covered(h: seq<seq<CInfo>>, p: seq<Obj>) {
    exists path :: path in h && Passes(path, p)
  }

  /** x is a node of the tree n, and the objects from the root to it are p. */
  ghost predicate NodeAt(n: HNode, p: seq<Obj>, x: HNode) {
    p != [] && p[0] == n.info.obj &&
    if |p| == 1 then x == n else SomeNodeAt(n.children, p[1..], x)
  }

  ghost predicate SomeNodeAt(ns: seq<HNode>, p: seq<Obj>, x: HNode) {
    exists k :: 0 <= k < |ns| && NodeAt(ns[k], p, x)
  }

  ghost predicate InTree(n: HNode, p: seq<Obj>) {
    exists x :: NodeAt(n, p, x)
  }

  lemma {:induction false} InTails(h: seq<seq<CInfo>>, t: seq<CInfo>)
    requires NonEmpty(h)
    ensures t in Tails(h) <==> t != [] && exists path :: path in h && |path| > 1 && path[1..] == t
  {
    if h != [] {
      var last, before := h[|h| - 1], h[..|h| - 1];
      InTails(before, t);
      assert forall path :: path in h <==> path in before || path == last;
    }
  }

  lemma InGroups(successors: seq<seq<CInfo>>, t: seq<CInfo>)
    requires NonEmpty(successors) && successors != []
    ensures var ref, others := successors[0][0], successors[1..];
      && (t in successors <==> t in [successors[0]] + Select(ref, others, true) || t in Select(ref, others, false))
      && (t in [successors[0]] + Select(ref, others, true) ==> Mergeable(ref, t[0]))
      && (t in Select(ref, others, false) ==> !Mergeable(ref, t[0]))
  {
    var ref, others := successors[0][0], successors[1..];
    SelectedAreMergeable(ref, others, true);
    SelectedAreMergeable(ref, others, false);
    assert forall x :: x in successors <==> x == successors[0] || x in others;
    if t in others {
      var i :| 0 <= i < |others| && others[i] == t;
      assert Mergeable(ref, others[i][0]) == Mergeable(ref, t[0]);
    }
  }

  lemma PassesTail(path: seq<CInfo>, p: seq<Obj>)
    requires |p| > 1
    ensures Passes(path, p) <==> |path| > 1 && path[0].obj == p[0] && Passes(path[1..], p[1..])
  {
    if |path| > 1 && path[0].obj == p[0] && Passes(path[1..], p[1..]) {
      forall k | 0 <= k < |p| ensures path[k].obj == p[k] {
        if k > 0 { assert path[1..][k - 1].obj == p[1..][k - 1]; }
      }
    }
    if Passes(path, p) {
      forall k | 0 <= k < |p[1..]| ensures path[1..][k].obj == p[1..][k] {
        assert path[k + 1].obj == p[k + 1];
      }
    }
  }

  /** Beyond the common head, a path of objects is covered by the list exactly when its rest is by the tails. */
  lemma CoveredByTails(h: seq<seq<CInfo>>, p: seq<Obj>)
    requires NonEmpty(h) && h != [] && SameHead(h) && |p| > 1 && p[0] == h[0][0].obj
    ensures Covered(h, p) <==> Covered(Tails(h), p[1..])
  {
    if Covered(h, p) {
      var path :| path in h && Passes(path, p);
      PassesTail(path, p);
      InTails(h, path[1..]);
    }
    if Covered(Tails(h), p[1..]) {
      var t :| t in Tails(h) && Passes(t, p[1..]);
      InTails(h, t);
      var path :| path in h && |path| > 1 && path[1..] == t;
      var i :| 0 <= i < |h| && h[i] == path;
      assert h[i][0].obj == p[0];
      PassesTail(path, p);
    }
  }

  /** The object paths of the tree are exactly the non-empty prefixes of the merged paths. */
  lemma {:induction false} TreeIsPrefixes(h: seq<seq<CInfo>>, signame: string, p: seq<Obj>)
    requires NonEmpty(h) && Merge(h, signame).Some?
    ensures InTree(Merge(h, signame).value, p) <==> p != [] && Covered(h, p)
    decreases Size(h), 0, 0
  {
    var n := Merge(h, signame).value;
    MergeSucceedsIff(h, signame);
    HeadOfJoin(h);
    if |p| == 1 {
      if p[0] == n.info.obj {
        assert NodeAt(n, p, n);
        assert h[0] in h && Passes(h[0], p);
      } else {
        forall path | path in h ensures !Passes(path, p) {
          var i :| 0 <= i < |h| && h[i] == path;
        }
      }
    } else if |p| > 1 {
      if p[0] == n.info.obj {
        CoveredByTails(h, p);
        ChildrenArePrefixes(Tails(h), DefaultName(n.info), p[1..]);
        LiftToNode(n, p);
      } else {
        forall path | path in h ensures !Passes(path, p) {
          var i :| 0 <= i < |h| && h[i] == path;
        }
      }
    }
  }

  lemma HeadOfJoin(h: seq<seq<CInfo>>)
    requires NonEmpty(h) && h != []
    ensures JoinHeads(h).obj == h[0][0].obj
  {
    if |h| > 1 { HeadOfJoin(h[..|h| - 1]); }
  }

  ghost predicate InSome(ns: seq<HNode>, p: seq<Obj>) {
    exists k :: 0 <= k < |ns| && InTree(ns[k], p)
  }

  lemma LiftToNode(n: HNode, p: seq<Obj>)
    requires |p| > 1 && p[0] == n.info.obj
    ensures InTree(n, p) <==> InSome(n.children, p[1..])
  {
    if InTree(n, p) {
      var x :| NodeAt(n, p, x);
      assert SomeNodeAt(n.children, p[1..], x);
    }
    if InSome(n.children, p[1..]) {
      var k :| 0 <= k < |n.children| && InTree(n.children[k], p[1..]);
      var x :| NodeAt(n.children[k], p[1..], x);
      assert NodeAt(n, p, x);
    }
  }

  lemma {:induction false} ChildrenArePrefixes(successors: seq<seq<CInfo>>, name: string, p: seq<Obj>)
    requires NonEmpty(successors) && MergeChildren(successors, name).Some? && p != []
    ensures InSome(MergeChildren(successors, name).value, p) <==> Covered(successors, p)
    decreases Size(successors), 1, |successors|
  {
    if successors != [] {
      var ref, others := successors[0][0], successors[1..];
      var equal, rest := [successors[0]] + Select(ref, others, true), Select(ref, others, false);
      GroupIsSmaller(successors);
      FirstGroup(successors, equal, rest, name);
      TreeIsPrefixes(equal, name, p);
      ChildrenArePrefixes(rest, name, p);
      var later, child := MergeChildren(rest, name).value, Merge(equal, name).value;
      assert InSome(later + [child], p) <==> InSome(later, p) || InTree(child, p) by { InSomeConcat(later, child, p); }
      assert Covered(successors, p) <==> Covered(equal, p) || Covered(rest, p) by { CoveredByGroups(successors, p); }
    }
  }

  lemma InSomeConcat(later: seq<HNode>, child: HNode, p: seq<Obj>)
    ensures InSome(later + [child], p) <==> InSome(later, p) || InTree(child, p)
  {
    var all := later + [child];
    if InSome(later, p) {
      var k :| 0 <= k < |later| && InTree(later[k], p);
      assert all[k] == later[k];
    }
    if InTree(child, p) { assert all[|later|] == child; }
  }

  lemma CoveredByGroups(successors: seq<seq<CInfo>>, p: seq<Obj>)
    requires NonEmpty(successors) && successors != []
    ensures var ref, others := successors[0][0], successors[1..];
      Covered(successors, p) <==>
      Covered([successors[0]] + Select(ref, others, true), p) || Covered(Select(ref, others, false), p)
  {
    forall t ensures var ref, others := successors[0][0], successors[1..];
      t in successors <==> t in [successors[0]] + Select(ref, others, true) || t in Select(ref, others, false)
    {
      InGroups(successors, t);
    }
  }
}
