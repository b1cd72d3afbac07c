/** Which of several names and force flags for one object wins when paths are merged: the one met last on the
    object's level, where every level runs through the paths in the opposite order. */
module Labels {
  import opened Wrappers
  import opened Sequences
  import opened ConnectionInfo
  import opened MergeTree
  import opened MergeProperties
  import opened MergeAttributes

  /** A name given to an object, and whether it is to be kept as it is. */
  datatype Label = Label(name: string, force: bool)

  function LabelOf(info: CInfo): seq<Label> {
    if info.localName.Some? then [Label(info.localName.value, info.forceName)] else []
  }

  ghost function LabelAt(path: seq<CInfo>, p: seq<Obj>): seq<Label>
    requires p != []
  {
    if Passes(path, p) then LabelOf(path[|p| - 1]) else []
  }

  /** The labels that the paths have for the object at the end of p, in the order of the list. */
  ghost function LabelsAt(h: seq<seq<CInfo>>, p: seq<Obj>): seq<Label>
    requires p != []
  {
    if h == [] then [] else LabelsAt(h[..|h| - 1], p) + LabelAt(h[|h| - 1], p)
  }

  lemma {:induction false} LabelsConcat(a: seq<seq<CInfo>>, b: seq<seq<CInfo>>, p: seq<Obj>)
    requires p != []
    ensures LabelsAt(a + b, p) == LabelsAt(a, p) + LabelsAt(b, p)
  {
    if b == [] {
      assert a + b == a;
    } else {
      assert (a + b)[..|a + b| - 1] == a + b[..|b| - 1];
      LabelsConcat(a, b[..|b| - 1], p);
    }
  }

  lemma LabelsOfOne(path: seq<CInfo>, p: seq<Obj>)
    requires p != []
    ensures LabelsAt([path], p) == LabelAt(path, p) && Reversed(LabelAt(path, p)) == LabelAt(path, p)
  {
    assert [path][..0] == [];
    if LabelAt(path, p) != [] { assert LabelAt(path, p)[..0] == []; }
  }

  lemma {:induction false} ReversedEnds<T>(s: seq<T>)
    requires s != []
    ensures Reversed(s) != [] && Reversed(s)[0] == s[|s| - 1] && Reversed(s)[|Reversed(s)| - 1] == s[0]
  {
    if |s| > 1 { ReversedEnds(s[..|s| - 1]); }
  }

  lemma JoinLabel(node: CInfo, i: CInfo)
    ensures LabelOf(Join(node, i)) == if LabelOf(i) == [] then LabelOf(node) else LabelOf(i)
  {
  }

  /** The last label, if there is one. */
  function LastOf(ls: seq<Label>): seq<Label> {
    if ls == [] then [] else [ls[|ls| - 1]]
  }

  lemma HeadLabelIsLabel(path: seq<CInfo>, p: seq<Obj>)
    requires path != [] && |p| == 1 && path[0].obj == p[0]
    ensures LabelAt(path, p) == LabelOf(path[0])
  {
    assert Passes(path, p);
  }

  lemma JoinHeadsOneMore(before: seq<seq<CInfo>>, path: seq<CInfo>)
    requires before != [] && NonEmpty(before) && path != []
    ensures NonEmpty(before + [path]) && JoinHeads(before + [path]) == Join(JoinHeads(before), path[0])
  {
    var h := before + [path];
    assert h[|h| - 1] == path && h[..|h| - 1] == before;
  }

  lemma JoinOneMore(before: seq<seq<CInfo>>, path: seq<CInfo>, p: seq<Obj>)
    requires before != [] && NonEmpty(before) && path != [] && |p| == 1 && path[0].obj == p[0]
    requires LabelOf(JoinHeads(before)) == LastOf(LabelsAt(before, p))
    ensures NonEmpty(before + [path]) && LabelOf(JoinHeads(before + [path])) == LastOf(LabelsAt(before + [path], p))
  {
    JoinHeadsOneMore(before, path);
    JoinLabel(JoinHeads(before), path[0]);
    HeadLabelIsLabel(path, p);
    LabelsConcat(before, [path], p);
    LabelsOfOne(path, p);
  }

  /** Joining the records at one level keeps the label met last. */
  lemma {:induction false} JoinTakesLast(h: seq<seq<CInfo>>, p: seq<Obj>)
    requires h != [] && NonEmpty(h) && SameHead(h) && p == [h[0][0].obj]
    ensures LabelOf(JoinHeads(h)) == LastOf(LabelsAt(h, p))
  {
    var path, before := h[|h| - 1], h[..|h| - 1];
    assert h == before + [path];
    if before == [] {
      HeadLabelIsLabel(path, p);
      LabelsOfOne(path, p);
      assert h == [path];
    } else {
      JoinTakesLast(before, p);
      JoinOneMore(before, path, p);
    }
  }

  /** What a path leaves for the next level, if it goes on. */
  function Rest(path: seq<CInfo>): seq<seq<CInfo>>
    requires path != []
  {
    if |path| > 1 then [path[1..]] else []
  }

  lemma LabelOfRest(path: seq<CInfo>, p: seq<Obj>)
    requires path != [] && |p| > 1 && path[0].obj == p[0]
    ensures LabelsAt(Rest(path), p[1..]) == LabelAt(path, p)
  {
    PassesTail(path, p);
    if |path| > 1 { LabelsOfOne(path[1..], p[1..]); }
  }

  lemma TailsOfLast(before: seq<seq<CInfo>>, path: seq<CInfo>)
    requires NonEmpty(before) && path != []
    ensures NonEmpty(before + [path]) && Tails(before + [path]) == Rest(path) + Tails(before)
  {
    var h := before + [path];
    assert h[|h| - 1] == path && h[..|h| - 1] == before;
  }

  lemma LabelsOfLast(before: seq<seq<CInfo>>, path: seq<CInfo>, p: seq<Obj>)
    requires p != []
    ensures Reversed(LabelsAt(before + [path], p)) == LabelAt(path, p) + Reversed(LabelsAt(before, p))
  {
    LabelsConcat(before, [path], p);
    LabelsOfOne(path, p);
    ReversedConcat(LabelsAt(before, p), LabelAt(path, p));
  }

  lemma LabelsOfOneMore(before: seq<seq<CInfo>>, path: seq<CInfo>, p: seq<Obj>)
    requires NonEmpty(before) && path != [] && |p| > 1 && path[0].obj == p[0]
    requires LabelsAt(Tails(before), p[1..]) == Reversed(LabelsAt(before, p))
    ensures NonEmpty(before + [path])
    ensures LabelsAt(Tails(before + [path]), p[1..]) == Reversed(LabelsAt(before + [path], p))
  {
    TailsOfLast(before, path);
    LabelOfRest(path, p);
    LabelsConcat(Rest(path), Tails(before), p[1..]);
    LabelsOfLast(before, path, p);
  }

  /** The next level sees the labels in the opposite order. */
  lemma {:induction false} LabelsOfTails(h: seq<seq<CInfo>>, p: seq<Obj>)
    requires NonEmpty(h) && |p| > 1 && forall i :: 0 <= i < |h| ==> h[i][0].obj == p[0]
    ensures LabelsAt(Tails(h), p[1..]) == Reversed(LabelsAt(h, p))
  {
    if h != [] {
      var path, before := h[|h| - 1], h[..|h| - 1];
      LabelsOfTails(before, p);
      LabelsOfOneMore(before, path, p);
      assert h == before + [path];
    }
  }

  /** With consistent names, a group has all the labels of the paths that go on to its object. */
  lemma {:induction false} LabelsOfSelected(ref: CInfo, h: seq<seq<CInfo>>, p: seq<Obj>)
    requires NonEmpty(h) && p != [] && forall i :: 0 <= i < |h| ==> SameName(h[i][0], ref)
    ensures LabelsAt(Select(ref, h, p[0] == ref.obj), p) == LabelsAt(h, p)
  {
    if h != [] {
      var last, before := h[|h| - 1], h[..|h| - 1];
      LabelsOfSelected(ref, before, p);
      var kept := Select(ref, before, p[0] == ref.obj);
      LabelsConcat(kept, [last], p);
      LabelsOfOne(last, p);
    }
  }

  lemma OthersAreNamedAlike(successors: seq<seq<CInfo>>)
    requires NonEmpty(successors) && successors != [] && Consistent(successors)
    ensures var others := successors[1..]; forall i :: 0 <= i < |others| ==> SameName(others[i][0], successors[0][0])
  {
    var others := successors[1..];
    forall i | 0 <= i < |others| ensures SameName(others[i][0], successors[0][0]) {
      assert others[i] == successors[i + 1] && others[i] in successors && successors[0] in successors;
    }
  }

  lemma LabelsOfGroup(successors: seq<seq<CInfo>>, p: seq<Obj>, group: seq<seq<CInfo>>)
    requires NonEmpty(successors) && successors != [] && Consistent(successors) && p != []
    requires group == Select(successors[0][0], successors[1..], p[0] == successors[0][0].obj)
    ensures LabelsAt(successors, p) == LabelAt(successors[0], p) + LabelsAt(group, p)
  {
    var others := successors[1..];
    OthersAreNamedAlike(successors);
    LabelsOfSelected(successors[0][0], others, p);
    assert successors == [successors[0]] + others;
    LabelsConcat([successors[0]], others, p);
    LabelsOfOne(successors[0], p);
  }

  lemma LabelsOfEqual(successors: seq<seq<CInfo>>, p: seq<Obj>, equal: seq<seq<CInfo>>)
    requires NonEmpty(successors) && successors != [] && Consistent(successors) && p != []
    requires p[0] == successors[0][0].obj && equal == [successors[0]] + Select(successors[0][0], successors[1..], true)
    ensures LabelsAt(equal, p) == LabelsAt(successors, p)
  {
    var group := Select(successors[0][0], successors[1..], true);
    LabelsOfGroup(successors, p, group);
    LabelsConcat([successors[0]], group, p);
    LabelsOfOne(successors[0], p);
  }

  lemma LabelsOfRest(successors: seq<seq<CInfo>>, p: seq<Obj>, rest: seq<seq<CInfo>>)
    requires NonEmpty(successors) && successors != [] && Consistent(successors) && p != []
    requires p[0] != successors[0][0].obj && rest == Select(successors[0][0], successors[1..], false)
    ensures LabelsAt(rest, p) == LabelsAt(successors, p)
  {
    LabelsOfGroup(successors, p, rest);
    assert LabelAt(successors[0], p) == [];
  }

  /** The label of the winner among those that the paths have for an object. */
  function Winner(ls: seq<Label>, depth: nat): Label
    requires ls != []
  {
    if depth % 2 == 1 then ls[|ls| - 1] else ls[0]
  }

  predicate TakesWinner(info: CInfo, ls: seq<Label>, depth: nat) {
    ls != [] ==> LabelOf(info) == [Winner(ls, depth)]
  }

  lemma WinnerOfReversed(info: CInfo, ls: seq<Label>, depth: nat)
    requires TakesWinner(info, Reversed(ls), depth)
    ensures TakesWinner(info, ls, depth + 1)
  {
    if ls != [] { ReversedEnds(ls); }
  }

  lemma NamedTakesLast(info: CInfo, named: CInfo, ls: seq<Label>)
    requires LabelOf(info) == LastOf(ls) && (info.localName.Some? ==> named == info)
    ensures TakesWinner(named, ls, 1)
  {
  }

  lemma HeadNodeLabel(h: seq<seq<CInfo>>, signame: string, p: seq<Obj>, x: HNode)
    requires NonEmpty(h) && |p| == 1 && Merge(h, signame).Some? && NodeAt(Merge(h, signame).value, p, x)
    ensures TakesWinner(x.info, LabelsAt(h, p), 1)
  {
    assert h != [] && SameHead(h) && p == [h[0][0].obj] by {
      MergeSucceedsIff(h, signame);
      HeadOfJoin(h);
    }
    JoinTakesLast(h, p);
    NamedTakesLast(JoinHeads(h), x.info, LabelsAt(h, p));
  }

  lemma LabelBelowHead(h: seq<seq<CInfo>>, p: seq<Obj>, info: CInfo)
    requires h != [] && NonEmpty(h) && SameHead(h) && |p| > 1 && p[0] == h[0][0].obj
    requires TakesWinner(info, LabelsAt(Tails(h), p[1..]), |p| - 1)
    ensures TakesWinner(info, LabelsAt(h, p), |p|)
  {
    LabelsOfTails(h, p);
    WinnerOfReversed(info, LabelsAt(h, p), |p| - 1);
  }

  /** What a list of paths leaves for the tails: they are consistent, and hold the nodes below the head. */
  lemma NodeBelowHead(h: seq<seq<CInfo>>, signame: string, p: seq<Obj>, x: HNode) returns (name: string)
    requires NonEmpty(h) && Consistent(h) && |p| > 1
    requires Merge(h, signame).Some? && NodeAt(Merge(h, signame).value, p, x)
    ensures h != [] && SameHead(h) && p[0] == h[0][0].obj && Consistent(Tails(h))
    ensures MergeChildren(Tails(h), name).Some? && SomeNodeAt(MergeChildren(Tails(h), name).value, p[1..], x)
  {
    name := DefaultName(NodeInfo(h, signame));
    MergeSucceedsIff(h, signame);
    HeadOfJoin(h);
    TailsStayConsistent(h);
  }

  /** Every node that some path names has the winning label. */
  lemma {:induction false} NodeLabel(h: seq<seq<CInfo>>, signame: string, p: seq<Obj>, x: HNode)
    requires NonEmpty(h) && Consistent(h) && Merge(h, signame).Some? && NodeAt(Merge(h, signame).value, p, x)
    ensures TakesWinner(x.info, LabelsAt(h, p), |p|)
    decreases Size(h), 0, 0
  {
    if |p| == 1 {
      HeadNodeLabel(h, signame, p, x);
    } else {
      var name := NodeBelowHead(h, signame, p, x);
      ChildLabel(Tails(h), name, p[1..], x);
      LabelBelowHead(h, p, x.info);
    }
  }

  lemma {:induction false} ChildLabel(successors: seq<seq<CInfo>>, name: string, p: seq<Obj>, x: HNode)
    requires NonEmpty(successors) && Consistent(successors) && MergeChildren(successors, name).Some? && p != []
    requires SomeNodeAt(MergeChildren(successors, name).value, p, x)
    ensures TakesWinner(x.info, LabelsAt(successors, p), |p|)
    decreases Size(successors), 1, |successors|
  {
    if successors != [] {
      var ref, others := successors[0][0], successors[1..];
      var equal, rest := [successors[0]] + Select(ref, others, true), Select(ref, others, false);
      GroupIsSmaller(successors);
      FirstGroup(successors, equal, rest, name);
      SomeNodeAtConcat(MergeChildren(rest, name).value, Merge(equal, name).value, p, x);
      if NodeAt(Merge(equal, name).value, p, x) {
        assert p[0] == ref.obj by {
          MergeSucceedsIff(equal, name);
          HeadOfJoin(equal);
        }
        assert Consistent(equal) by { GroupsSplit(successors, p); }
        NodeLabel(equal, name, p, x);
        LabelsOfEqual(successors, p, equal);
      } else {
        NodeOfOtherGroup(successors, rest, name, p, x);
        assert Consistent(rest) by { GroupsSplit(successors, p); }
        ChildLabel(rest, name, p, x);
        LabelsOfRest(successors, p, rest);
      }
    }
  }

  // ---------------------------------------------------------------------------
  // The names of nodes that no path names

  /** The parent of a node of the list's tree, if it is below the top. */
  ghost predicate IsParent(h: seq<seq<CInfo>>, signame: string, p: seq<Obj>, y: HNode)
    requires NonEmpty(h) && Merge(h, signame).Some? && p != []
  {
    |p| > 1 ==> NodeAt(Merge(h, signame).value, p[..|p| - 1], y)
  }

  /** The name handed down to a node: that of the signal at the top, elsewhere that of the node above. */
  ghost function HandedDown(signame: string, p: seq<Obj>, y: HNode): Option<string> {
    if |p| <= 1 then Some(signame)
    else if y.info.localName.Some? then Some(DefaultName(y.info))
    else None
  }

  lemma HeadDefault(h: seq<seq<CInfo>>, signame: string, p: seq<Obj>, x: HNode)
    requires NonEmpty(h) && |p| == 1 && Merge(h, signame).Some? && NodeAt(Merge(h, signame).value, p, x)
    ensures LabelsAt(h, p) == [] ==> x.info.localName == Some(signame)
  {
    assert h != [] && SameHead(h) && p == [h[0][0].obj] by {
      MergeSucceedsIff(h, signame);
      HeadOfJoin(h);
    }
    JoinTakesLast(h, p);
  }

  /** A node that no path names has the name handed down. */
  lemma {:induction false} NodeDefault(h: seq<seq<CInfo>>, signame: string, p: seq<Obj>, x: HNode) returns (y: HNode)
    requires NonEmpty(h) && Consistent(h) && Merge(h, signame).Some? && NodeAt(Merge(h, signame).value, p, x)
    ensures IsParent(h, signame, p, y)
    ensures LabelsAt(h, p) == [] ==> x.info.localName == HandedDown(signame, p, y)
    decreases Size(h), 0, 0
  {
    if |p| == 1 {
      HeadDefault(h, signame, p, x);
      y := x;
    } else {
      var name := NamedBelowHead(h, signame, p, x);
      var z := ChildDefault(Tails(h), name, p[1..], x);
      LabelsBelowHead(h, p);
      y := ParentInTree(Merge(h, signame).value, name, p, x, z);
    }
  }

  lemma ParentInTree(n: HNode, name: string, p: seq<Obj>, x: HNode, z: HNode) returns (y: HNode)
    requires |p| > 1 && p[0] == n.info.obj && n.info.localName.Some? && name == DefaultName(n.info)
    requires |p| > 2 ==> SomeNodeAt(n.children, p[1..][..|p| - 2], z)
    ensures NodeAt(n, p[..|p| - 1], y)
    ensures forall signame :: HandedDown(signame, p, y) == HandedDown(name, p[1..], z)
  {
    if |p| == 2 {
      y := n;
    } else {
      y := z;
      assert p[..|p| - 1][1..] == p[1..][..|p| - 2];
    }
  }

  lemma NamedBelowHead(h: seq<seq<CInfo>>, signame: string, p: seq<Obj>, x: HNode) returns (name: string)
    requires NonEmpty(h) && Consistent(h) && |p| > 1
    requires Merge(h, signame).Some? && NodeAt(Merge(h, signame).value, p, x)
    ensures h != [] && SameHead(h) && p[0] == h[0][0].obj && Consistent(Tails(h))
    ensures var n := Merge(h, signame).value;
      && n.info.localName.Some? && name == DefaultName(n.info)
      && MergeChildren(Tails(h), name) == Some(n.children) && SomeNodeAt(n.children, p[1..], x)
  {
    name := DefaultName(NodeInfo(h, signame));
    MergeSucceedsIff(h, signame);
    HeadOfJoin(h);
    TailsStayConsistent(h);
  }

  lemma LabelsBelowHead(h: seq<seq<CInfo>>, p: seq<Obj>)
    requires h != [] && NonEmpty(h) && SameHead(h) && |p| > 1 && p[0] == h[0][0].obj
    ensures LabelsAt(h, p) == [] ==> LabelsAt(Tails(h), p[1..]) == []
  {
    LabelsOfTails(h, p);
  }

  lemma {:induction false} ChildDefault(successors: seq<seq<CInfo>>, name: string, p: seq<Obj>, x: HNode)
    returns (y: HNode)
    requires NonEmpty(successors) && Consistent(successors) && MergeChildren(successors, name).Some? && p != []
    requires SomeNodeAt(MergeChildren(successors, name).value, p, x)
    ensures |p| > 1 ==> SomeNodeAt(MergeChildren(successors, name).value, p[..|p| - 1], y)
    ensures LabelsAt(successors, p) == [] ==> x.info.localName == HandedDown(name, p, y)
    decreases Size(successors), 1, |successors|
  {
    y := x;
    if successors != [] {
      var ref, others := successors[0][0], successors[1..];
      var equal, rest := [successors[0]] + Select(ref, others, true), Select(ref, others, false);
      GroupIsSmaller(successors);
      FirstGroup(successors, equal, rest, name);
      SomeNodeAtConcat(MergeChildren(rest, name).value, Merge(equal, name).value, p, x);
      if NodeAt(Merge(equal, name).value, p, x) {
        assert p[0] == ref.obj by {
          MergeSucceedsIff(equal, name);
          HeadOfJoin(equal);
        }
        assert Consistent(equal) by { GroupsSplit(successors, p); }
        y := NodeDefault(equal, name, p, x);
        LabelsOfEqual(successors, p, equal);
      } else {
        NodeOfOtherGroup(successors, rest, name, p, x);
        assert Consistent(rest) by { GroupsSplit(successors, p); }
        y := ChildDefault(rest, name, p, x);
        LabelsOfRest(successors, p, rest);
      }
      SomeNodeAtConcat(MergeChildren(rest, name).value, Merge(equal, name).value, p[..|p| - 1], y);
    }
  }
}
