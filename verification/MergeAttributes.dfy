/** When no object carries two names, a node's record is the join over all paths through it, whatever
    the order of the list.  */
module MergeAttributes {
  import opened ConnectionInfo
  import opened MergeTree
  import opened MergeProperties

  /** DEFAULT is below every direction, BIDIR above. */
  predicate DirLe(a: Dir, b: Dir) { a == b || a == DEFAULT || b == BIDIR }

  /** The records the paths through p have for its last object. */
  ghost function Records(h: seq<seq<CInfo>>, p: seq<Obj>): set<CInfo>
    requires p != []
  {
    set path | path in h && Passes(path, p) :: path[|p| - 1]
  }

  /** The record is the least upper bound of the records joined, object by object. */
  ghost predicate IsJoin(info: CInfo, records: set<CInfo>) {
    && (forall r :: r in records ==> r.obj == info.obj && DirLe(r.dir, info.dir))
    && (forall d :: (forall r :: r in records ==> DirLe(r.dir, d)) ==> DirLe(info.dir, d))
    && (info.isExplicit <==> exists r :: r in records && r.isExplicit)
    && (info.invert <==> exists r :: r in records && r.invert)
    && (info.forceName ==> exists r :: r in records && r.forceName)
    && (forall r :: r in records && r.localName.Some? ==> info.localName == r.localName)
  }

  /** No object is given two different names. */
  ghost predicate Consistent(h: seq<seq<CInfo>>) {
    forall a, b, k: nat :: a in h && b in h && k < |a| && k < |b| ==> SameName(a[k], b[k])
  }

  predicate SameName(a: CInfo, b: CInfo) {
    a.obj == b.obj && a.localName.Some? && b.localName.Some? ==> a.localName == b.localName
  }

  lemma JoinTwo(node: CInfo, records: set<CInfo>, i: CInfo)
    requires IsJoin(node, records) && node.obj == i.obj && (forall r :: r in records ==> SameName(r, i))
    ensures IsJoin(Join(node, i), records + {i})
  {
    var j, all := Join(node, i), records + {i};
    assert i in all;
    forall d | forall r :: r in all ==> DirLe(r.dir, d) ensures DirLe(j.dir, d) {
      assert forall r :: r in records ==> r in all;
      assert DirLe(node.dir, d) && DirLe(i.dir, d);
    }
    assert forall r :: r in all <==> r in records || r == i;
  }

  /** The records at the start of the paths. */
  ghost function Heads(h: seq<seq<CInfo>>): set<CInfo>
    requires NonEmpty(h)
  {
    set i | 0 <= i < |h| :: h[i][0]
  }

  lemma HeadsGrow(h: seq<seq<CInfo>>)
    requires NonEmpty(h) && |h| > 1
    ensures Heads(h) == Heads(h[..|h| - 1]) + {h[|h| - 1][0]}
  {
    var n := |h| - 1;
    var before := h[..n];
    forall r | r in Heads(h) ensures r in Heads(before) + {h[n][0]} {
      var i :| 0 <= i < |h| && h[i][0] == r;
      if i < n { assert before[i][0] == r; }
    }
    forall r | r in Heads(before) ensures r in Heads(h) {
      var i :| 0 <= i < |before| && before[i][0] == r;
      assert h[i][0] == r;
    }
    assert h[n][0] in Heads(h);
  }

  lemma HeadsAreNamedAlike(h: seq<seq<CInfo>>, last: seq<CInfo>)
    requires NonEmpty(h) && Consistent(h + [last]) && last != []
    ensures forall r :: r in Heads(h) ==> SameName(r, last[0])
  {
    forall r | r in Heads(h) ensures SameName(r, last[0]) {
      var i :| 0 <= i < |h| && h[i][0] == r;
      assert (h + [last])[i] == h[i] && (h + [last])[|h|] == last;
      assert h[i] in h + [last] && last in h + [last];
    }
  }

  lemma {:induction false} HeadsAreJoined(h: seq<seq<CInfo>>)
    requires NonEmpty(h) && h != [] && SameHead(h) && Consistent(h)
    ensures IsJoin(JoinHeads(h), Heads(h))
  {
    var n := |h| - 1;
    if n == 0 {
      assert Heads(h) == {h[0][0]};
    } else {
      assert h == h[..n] + [h[n]];
      SubsetStaysConsistent(h, h[..n]);
      HeadsAreJoined(h[..n]);
      HeadOfJoin(h[..n]);
      HeadsGrow(h);
      HeadsAreNamedAlike(h[..n], h[n]);
      JoinTwo(JoinHeads(h[..n]), Heads(h[..n]), h[n][0]);
    }
  }

  lemma RecordsOfHead(h: seq<seq<CInfo>>, p: seq<Obj>)
    requires NonEmpty(h) && h != [] && SameHead(h) && |p| == 1 && p[0] == h[0][0].obj
    ensures Records(h, p) == Heads(h)
  {
    forall r | r in Heads(h) ensures r in Records(h, p) {
      var i :| 0 <= i < |h| && h[i][0] == r;
      assert h[i] in h && Passes(h[i], p) && h[i][|p| - 1] == r;
    }
    forall r | r in Records(h, p) ensures r in Heads(h) {
      var path :| path in h && Passes(path, p) && path[|p| - 1] == r;
      var i :| 0 <= i < |h| && h[i] == path;
    }
  }

  /** Below the common head nothing is lost by looking at the tails only. */
  lemma RecordsOfTails(h: seq<seq<CInfo>>, p: seq<Obj>)
    requires NonEmpty(h) && h != [] && SameHead(h) && |p| > 1 && p[0] == h[0][0].obj
    ensures Records(h, p) == Records(Tails(h), p[1..])
  {
    forall r | r in Records(h, p) ensures r in Records(Tails(h), p[1..]) {
      var path :| path in h && Passes(path, p) && path[|p| - 1] == r;
      PassesTail(path, p);
      InTails(h, path[1..]);
      assert path[1..][|p[1..]| - 1] == r;
    }
    forall r | r in Records(Tails(h), p[1..]) ensures r in Records(h, p) {
      var t :| t in Tails(h) && Passes(t, p[1..]) && t[|p[1..]| - 1] == r;
      InTails(h, t);
      var path :| path in h && |path| > 1 && path[1..] == t;
      var i :| 0 <= i < |h| && h[i] == path;
      PassesTail(path, p);
      assert path[|p| - 1] == r;
    }
  }

  lemma TailsStayConsistent(h: seq<seq<CInfo>>)
    requires NonEmpty(h) && Consistent(h)
    ensures Consistent(Tails(h))
  {
    forall a, b, k: nat | a in Tails(h) && b in Tails(h) && k < |a| && k < |b| ensures SameName(a[k], b[k]) {
      InTails(h, a);
      InTails(h, b);
      var a' :| a' in h && |a'| > 1 && a'[1..] == a;
      var b' :| b' in h && |b'| > 1 && b'[1..] == b;
      assert SameName(a'[k + 1], b'[k + 1]);
    }
  }

  /** With consistent names, a group is all the paths that go on to the same object. */
  lemma ConsistentGroups(successors: seq<seq<CInfo>>, t: seq<CInfo>)
    requires NonEmpty(successors) && successors != [] && Consistent(successors)
    ensures var ref, others := successors[0][0], successors[1..];
      && (t in [successors[0]] + Select(ref, others, true) <==> t in successors && t[0].obj == ref.obj)
      && (t in Select(ref, others, false) <==> t in successors && t[0].obj != ref.obj)
  {
    InGroups(successors, t);
    if t in successors {
      assert successors[0] in successors;
      assert SameName(t[0], successors[0][0]);
    }
  }

  lemma SubsetStaysConsistent(h: seq<seq<CInfo>>, g: seq<seq<CInfo>>)
    requires Consistent(h) && forall t :: t in g ==> t in h
    ensures Consistent(g)
  {
  }

  // ---------------------------------------------------------------------------
  // The whole tree

  /** Every node's record is the join over all paths through it. */
  lemma {:induction false} NodesAreJoins(h: seq<seq<CInfo>>, signame: string, p: seq<Obj>, x: HNode)
    requires NonEmpty(h) && Consistent(h) && Merge(h, signame).Some? && NodeAt(Merge(h, signame).value, p, x)
    ensures IsJoin(x.info, Records(h, p))
    decreases Size(h), 0, 0
  {
    var n := Merge(h, signame).value;
    MergeSucceedsIff(h, signame);
    HeadOfJoin(h);
    if |p| == 1 {
      HeadsAreJoined(h);
      RecordsOfHead(h, p);
    } else {
      RecordsOfTails(h, p);
      TailsStayConsistent(h);
      ChildrenAreJoins(Tails(h), DefaultName(n.info), p[1..], x);
    }
  }

  lemma {:induction false} ChildrenAreJoins(successors: seq<seq<CInfo>>, name: string, p: seq<Obj>, x: HNode)
    requires NonEmpty(successors) && Consistent(successors) && MergeChildren(successors, name).Some? && p != []
    requires SomeNodeAt(MergeChildren(successors, name).value, p, x)
    ensures IsJoin(x.info, Records(successors, p))
    decreases Size(successors), 1, |successors|
  {
    if successors != [] {
      var ref, others := successors[0][0], successors[1..];
      var equal, rest := [successors[0]] + Select(ref, others, true), Select(ref, others, false);
      GroupIsSmaller(successors);
      FirstGroup(successors, equal, rest, name);
      SomeNodeAtConcat(MergeChildren(rest, name).value, Merge(equal, name).value, p, x);
      if NodeAt(Merge(equal, name).value, p, x) {
        assert p[0] == ref.obj by {
          MergeSucceedsIff(equal, name);
          HeadOfJoin(equal);
        }
        assert Consistent(equal) && Records(successors, p) == Records(equal, p) by { GroupsSplit(successors, p); }
        NodesAreJoins(equal, name, p, x);
      } else {
        assert p[0] != ref.obj by { NodeOfOtherGroup(successors, rest, name, p, x); }
        assert Consistent(rest) && Records(successors, p) == Records(rest, p) by { GroupsSplit(successors, p); }
        ChildrenAreJoins(rest, name, p, x);
      }
    }
  }

  lemma SomeNodeAtConcat(later: seq<HNode>, child: HNode, p: seq<Obj>, x: HNode)
    ensures SomeNodeAt(later + [child], p, x) <==> SomeNodeAt(later, p, x) || NodeAt(child, p, x)
  {
    var all := later + [child];
    if SomeNodeAt(later, p, x) {
      var k :| 0 <= k < |later| && NodeAt(later[k], p, x);
      assert all[k] == later[k];
    }
    if NodeAt(child, p, x) { assert all[|later|] == child; }
  }

  lemma NodeOfOtherGroup(successors: seq<seq<CInfo>>, rest: seq<seq<CInfo>>, name: string, p: seq<Obj>, x: HNode)
    requires NonEmpty(successors) && successors != [] && Consistent(successors) && p != []
    requires rest == Select(successors[0][0], successors[1..], false)
    requires MergeChildren(rest, name).Some? && SomeNodeAt(MergeChildren(rest, name).value, p, x)
    ensures p[0] != successors[0][0].obj
  {
    var k :| 0 <= k < |MergeChildren(rest, name).value| && NodeAt(MergeChildren(rest, name).value[k], p, x);
    HeadsOfChildren(rest, name, k);
    var t: seq<CInfo> :| t in rest && t[0].obj == p[0];
    ConsistentGroups(successors, t);
  }

  /** The children of a group list start at objects of that list. */
  lemma {:induction false} HeadsOfChildren(successors: seq<seq<CInfo>>, name: string, k: nat)
    requires NonEmpty(successors) && MergeChildren(successors, name).Some?
      && k < |MergeChildren(successors, name).value|
    ensures exists t: seq<CInfo> :: t in successors && t[0].obj == MergeChildren(successors, name).value[k].info.obj
    decreases |successors|
  {
    var ref, others := successors[0][0], successors[1..];
    var equal, rest := [successors[0]] + Select(ref, others, true), Select(ref, others, false);
    FirstGroup(successors, equal, rest, name);
    MergeSucceedsIff(equal, name);
    HeadOfJoin(equal);
    var later := MergeChildren(rest, name).value;
    if k < |later| {
      HeadsOfChildren(rest, name, k);
      var t: seq<CInfo> :| t in rest && t[0].obj == later[k].info.obj;
      InGroups(successors, t);
    } else {
      assert successors[0] in successors;
    }
  }

  lemma GroupsSplit(successors: seq<seq<CInfo>>, p: seq<Obj>)
    requires NonEmpty(successors) && successors != [] && Consistent(successors) && p != []
    ensures var ref, others := successors[0][0], successors[1..];
      var equal, rest := [successors[0]] + Select(ref, others, true), Select(ref, others, false);
      && Consistent(equal) && Consistent(rest)
      && (p[0] == ref.obj ==> Records(successors, p) == Records(equal, p))
      && (p[0] != ref.obj ==> Records(successors, p) == Records(rest, p))
  {
    var ref, others := successors[0][0], successors[1..];
    var equal, rest := [successors[0]] + Select(ref, others, true), Select(ref, others, false);
    forall t: seq<CInfo>
      ensures t in equal <==> t in successors && t[0].obj == ref.obj
      ensures t in rest <==> t in successors && t[0].obj != ref.obj
    {
      ConsistentGroups(successors, t);
    }
    SubsetStaysConsistent(successors, equal);
    SubsetStaysConsistent(successors, rest);
  }

  /** Joins depend on the set of records only: merging the same paths in another order gives every
      node the same direction, the same explicit and the same invert flag. */
  lemma OrderDoesNotMatter(h: seq<seq<CInfo>>, g: seq<seq<CInfo>>, signame: string, p: seq<Obj>, x: HNode, y: HNode)
    requires NonEmpty(h) && NonEmpty(g) && Consistent(h) && (forall t :: t in h <==> t in g)
    ensures IsNodeOf(h, signame, p, x) && IsNodeOf(g, signame, p, y) ==>
      && x.info.obj == y.info.obj && x.info.dir == y.info.dir
      && x.info.isExplicit == y.info.isExplicit && x.info.invert == y.info.invert
  {
    if IsNodeOf(h, signame, p, x) && IsNodeOf(g, signame, p, y) {
      assert Consistent(g) by { SubsetStaysConsistent(h, g); }
      NodesAreJoins(h, signame, p, x);
      NodesAreJoins(g, signame, p, y);
      NodeObject(Merge(h, signame).value, p, x);
      NodeObject(Merge(g, signame).value, p, y);
      SameRecords(h, g, p);
      JoinIsUnique(x.info, y.info, Records(h, p));
    }
  }

  /** x is the node at p of the tree that the paths merge to. */
  ghost predicate IsNodeOf(h: seq<seq<CInfo>>, signame: string, p: seq<Obj>, x: HNode)
    requires NonEmpty(h)
  {
    Merge(h, signame).Some? && NodeAt(Merge(h, signame).value, p, x)
  }

  lemma SameRecords(h: seq<seq<CInfo>>, g: seq<seq<CInfo>>, p: seq<Obj>)
    requires p != [] && forall t :: t in h <==> t in g
    ensures Records(h, p) == Records(g, p)
  {
  }

  lemma JoinIsUnique(a: CInfo, b: CInfo, records: set<CInfo>)
    requires IsJoin(a, records) && IsJoin(b, records)
    ensures a.dir == b.dir && a.isExplicit == b.isExplicit && a.invert == b.invert
  {
    assert DirLe(a.dir, b.dir) && DirLe(b.dir, a.dir);
  }

  lemma {:induction false} NodeObject(n: HNode, p: seq<Obj>, x: HNode)
    requires NodeAt(n, p, x)
    ensures x.info.obj == p[|p| - 1]
    decreases |p|
  {
    if |p| > 1 {
      var k :| 0 <= k < |n.children| && NodeAt(n.children[k], p[1..], x);
      NodeObject(n.children[k], p[1..], x);
    }
  }
}
