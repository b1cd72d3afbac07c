/** Merging the paths to all end points into one hierarchy tree (ig_lib_merge_hierarchy_list). */
module MergeTree {
  import opened Wrappers
  import opened ConnectionInfo

  datatype HNode = HNode(info: CInfo, children: seq<HNode>)

  /** The record of one more path joins the record of a node. */
  function Join(node: CInfo, i: CInfo): CInfo {
    node.(
      localName := if i.localName.Some? then i.localName else node.localName,
      forceName := if i.localName.Some? then i.forceName else node.forceName,
      dir := if node.dir == DEFAULT then i.dir
             else if i.dir != DEFAULT && i.dir != node.dir then BIDIR
             else node.dir,
      invert := node.invert || i.invert,
      isExplicit := node.isExplicit || i.isExplicit)
  }

  predicate NonEmpty(h: seq<seq<CInfo>>) {
    forall i :: 0 <= i < |h| ==> h[i] != []
  }

  /** The records at the start of the paths, joined in order. */
  function JoinHeads(h: seq<seq<CInfo>>): CInfo
    requires h != [] && NonEmpty(h)
  {
    if |h| == 1 then h[0][0] else Join(JoinHeads(h[..|h| - 1]), h[|h| - 1][0])
  }

  predicate SameHead(h: seq<seq<CInfo>>)
    requires h != [] && NonEmpty(h)
  {
    forall i :: 0 <= i < |h| ==> h[i][0].obj == h[0][0].obj
  }

  ghost function Size(h: seq<seq<CInfo>>): nat {
    if h == [] then 0 else |h[0]| + Size(h[1..])
  }

  lemma {:induction false} SizeConcat(a: seq<seq<CInfo>>, b: seq<seq<CInfo>>)
    ensures Size(a + b) == Size(a) + Size(b)
  {
    if a == [] {
      assert a + b == b;
    } else {
      assert (a + b)[1..] == a[1..] + b;
      SizeConcat(a[1..], b);
    }
  }

  /** The rests of the paths that go on, the last path first. */
  function Tails(h: seq<seq<CInfo>>): (r: seq<seq<CInfo>>)
    requires NonEmpty(h)
    ensures NonEmpty(r)
    ensures Size(r) + |h| == Size(h)
  {
    if h == [] then [] else
      var path, before := h[|h| - 1], h[..|h| - 1];
      assert h == before + [path];
      SizeConcat(before, [path]);
      if |path| > 1 then [path[1..]] + Tails(before) else Tails(before)
  }

  /** Two records are merged unless they name the signal differently. */
  predicate Mergeable(ref: CInfo, i: CInfo) {
    i.obj == ref.obj && !(i.localName.Some? && ref.localName.Some? && i.localName != ref.localName)
  }

  /** The paths that are merged with the reference record, or those that are not, in order. */
  function Select(ref: CInfo, h: seq<seq<CInfo>>, mergeable: bool): (r: seq<seq<CInfo>>)
    requires NonEmpty(h)
    ensures NonEmpty(r)
    ensures Size(r) <= Size(h) && |r| <= |h|
  {
    if h == [] then [] else
      var last, before := h[|h| - 1], h[..|h| - 1];
      assert h == before + [last];
      SizeConcat(before, [last]);
      SizeConcat(Select(ref, before, mergeable), [last]);
      if Mergeable(ref, last[0]) == mergeable then Select(ref, before, mergeable) + [last]
      else Select(ref, before, mergeable)
  }

  /** ig_lib_rm_suffix_pinport: whatever the letter is, a trailing _x goes. */
  function RmSuffix(name: string): string {
    if |name| < 3 || name[|name| - 2] != '_' then name else name[..|name| - 2]
  }

  function NodeInfo(h: seq<seq<CInfo>>, signame: string): CInfo
    requires h != [] && NonEmpty(h)
  {
    var info := JoinHeads(h);
    if info.localName.None? then info.(localName := Some(signame)) else info
  }

  /** The name the objects below a node get when they have none of their own. */
  function DefaultName(info: CInfo): string
    requires info.localName.Some?
  {
    if info.forceName then RmSuffix(info.localName.value) else info.localName.value
  }

  /** ig_lib_merge_hierarchy_list */
  function Merge(h: seq<seq<CInfo>>, signame: string): Option<HNode>
    requires NonEmpty(h)
    decreases Size(h), 0, 0
  {
    if h == [] || !SameHead(h) then None else
      var info := NodeInfo(h, signame);
      match MergeChildren(Tails(h), DefaultName(info))
      case Some(children) => Some(HNode(info, children))
      case None => None
  }

  /** The subtrees for the rests of the paths; a later group of paths comes first. */
  function MergeChildren(successors: seq<seq<CInfo>>, name: string): Option<seq<HNode>>
    requires NonEmpty(successors)
    decreases Size(successors), 1, |successors|
  {
    if successors == [] then Some([]) else
      var ref, others := successors[0][0], successors[1..];
      var equal := [successors[0]] + Select(ref, others, true);
      var rest := Select(ref, others, false);
      GroupIsSmaller(successors);
      match (Merge(equal, name), MergeChildren(rest, name))
      case (Some(child), Some(later)) => Some(later + [child])
      case _ => None
  }

  lemma SelectedAreMergeable(ref: CInfo, h: seq<seq<CInfo>>, mergeable: bool)
    requires NonEmpty(h)
    ensures forall i :: 0 <= i < |Select(ref, h, mergeable)| ==>
      Mergeable(ref, Select(ref, h, mergeable)[i][0]) == mergeable && Select(ref, h, mergeable)[i] in h
    ensures forall i :: 0 <= i < |h| && Mergeable(ref, h[i][0]) == mergeable ==> h[i] in Select(ref, h, mergeable)
  {
    if h != [] {
      SelectedAreMergeable(ref, h[..|h| - 1], mergeable);
    }
  }

  /** Merging fails exactly when the paths start at different objects; the groups below a node never do. */
  lemma {:induction false} MergeSucceedsIff(h: seq<seq<CInfo>>, signame: string)
    requires NonEmpty(h)
    ensures Merge(h, signame).Some? <==> h != [] && SameHead(h)
    decreases Size(h), 0, 0
  {
    if h != [] && SameHead(h) {
      ChildrenNeverFail(Tails(h), DefaultName(NodeInfo(h, signame)));
    }
  }

  lemma {:induction false} ChildrenNeverFail(successors: seq<seq<CInfo>>, name: string)
    requires NonEmpty(successors)
    ensures MergeChildren(successors, name).Some?
    decreases Size(successors), 1, |successors|
  {
    if successors != [] {
      var ref, others := successors[0][0], successors[1..];
      var equal := [successors[0]] + Select(ref, others, true);
      GroupIsSmaller(successors);
      SelectedAreMergeable(ref, others, true);
      MergeSucceedsIff(equal, name);
      ChildrenNeverFail(Select(ref, others, false), name);
    }
  }

  // ---------------------------------------------------------------------------
  // The procedure on lists.

  /** The body of the first loop: the record of one more path joins. */
  method JoinRecord(start: CInfo, i: CInfo) returns (node: CInfo)
    ensures node == Join(start, i)
  {
    node := start;
    if i.localName.Some? { node := node.(localName := i.localName, forceName := i.forceName); }
    if node.dir == DEFAULT {
      node := node.(dir := i.dir);
    } else if i.dir != DEFAULT && i.dir != node.dir {
      node := node.(dir := BIDIR);
    }
    node := node.(invert := node.invert || i.invert);
    if i.isExplicit { node := node.(isExplicit := true); }
  }

  /** The first loop: joins the records the paths start with, and collects what follows. */
  method JoinLevel(h: seq<seq<CInfo>>) returns (r: Option<(CInfo, seq<seq<CInfo>>)>)
    requires h != [] && NonEmpty(h)
    ensures r == if SameHead(h) then Some((JoinHeads(h), Tails(h))) else None
  {
    var node := h[0][0];
    var successors: seq<seq<CInfo>> := [];
    if |h[0]| > 1 { successors := [h[0][1..]]; }
    assert h[..1] == [h[0]];
    for k := 1 to |h|
      invariant SameHead(h[..k]) && node == JoinHeads(h[..k]) && node.obj == h[0][0].obj
      invariant successors == Tails(h[..k])
    {
      assert h[..k + 1][..k] == h[..k];
      if h[k][0].obj != node.obj { return None; }
      node := JoinRecord(node, h[k][0]);
      if |h[k]| > 1 { successors := [h[k][1..]] + successors; }
    }
    assert h[..|h|] == h;
    return Some((node, successors));
  }

  method MergeHierarchyList(h: seq<seq<CInfo>>, signame: string) returns (r: Option<HNode>)
    requires NonEmpty(h)
    ensures r == Merge(h, signame)
    decreases Size(h), 0, 0
  {
    if h == [] { return None; }
    var level := JoinLevel(h);
    if level.None? { return None; }
    var (node, successors) := level.value;
    if node.localName.None? { node := node.(localName := Some(signame)); }
    var localDefaultName := node.localName.value;
    if node.forceName { localDefaultName := RmSuffix(localDefaultName); }
    ChildrenNeverFail(successors, localDefaultName);
    var children := GroupSuccessors(successors, localDefaultName);
    return Some(HNode(node, children));
  }

  /** The second loop: one group of paths after the other becomes a child, each in front of the earlier ones. */
  method GroupSuccessors(all: seq<seq<CInfo>>, name: string) returns (children: seq<HNode>)
    requires NonEmpty(all)
    ensures MergeChildren(all, name) == Some(children)
    decreases Size(all), 1, 0
  {
    children := [];
    var successors := all;
    ChildrenNeverFail(all, name);
    ghost var left := MergeChildren(all, name).value;
    NothingInFront(left);
    while successors != []
      invariant NonEmpty(successors) && Size(successors) <= Size(all)
      invariant MergeChildren(successors, name) == Some(left)
      invariant MergeChildren(all, name) == Some(left + children)
      decreases |successors|
    {
      var child;
      child, successors, left := MergeFirstGroup(successors, name);
      PutInFront(left, child, children);
      children := [child] + children;
    }
    NothingInFront(children);
  }

  lemma PutInFront(a: seq<HNode>, b: HNode, c: seq<HNode>)
    ensures (a + [b]) + c == a + ([b] + c)
  {
  }

  lemma NothingInFront(a: seq<HNode>)
    ensures a + [] == a && [] + a == a
  {
  }

  method MergeFirstGroup(successors: seq<seq<CInfo>>, name: string)
    returns (child: HNode, rest: seq<seq<CInfo>>, ghost later: seq<HNode>)
    requires NonEmpty(successors) && successors != []
    ensures NonEmpty(rest) && |rest| < |successors| && Size(rest) <= Size(successors)
    ensures MergeChildren(rest, name) == Some(later)
    ensures MergeChildren(successors, name) == Some(later + [child])
    decreases Size(successors), 0, 1
  {
    var equal;
    equal, rest := TakeGroup(successors);
    GroupIsSmaller(successors);
    FirstGroup(successors, equal, rest, name);
    var r := MergeHierarchyList(equal, name);
    child := r.value;
    later := MergeChildren(rest, name).value;
  }

  /** The first group becomes the last child, the other groups the children before it. */
  lemma FirstGroup(successors: seq<seq<CInfo>>, equal: seq<seq<CInfo>>, rest: seq<seq<CInfo>>, name: string)
    requires NonEmpty(successors) && successors != []
    requires equal == [successors[0]] + Select(successors[0][0], successors[1..], true)
    requires rest == Select(successors[0][0], successors[1..], false)
    ensures Merge(equal, name).Some? && MergeChildren(rest, name).Some?
    ensures MergeChildren(successors, name) == Some(MergeChildren(rest, name).value + [Merge(equal, name).value])
  {
    SelectedAreMergeable(successors[0][0], successors[1..], true);
    MergeSucceedsIff(equal, name);
    ChildrenNeverFail(rest, name);
  }

  lemma GroupIsSmaller(successors: seq<seq<CInfo>>)
    requires NonEmpty(successors) && successors != []
    ensures var ref, others := successors[0][0], successors[1..];
      && Size([successors[0]] + Select(ref, others, true)) <= Size(successors)
      && Size(Select(ref, others, false)) <= Size(successors)
      && |Select(ref, others, false)| < |successors|
  {
    var ref, others := successors[0][0], successors[1..];
    assert successors == [successors[0]] + others;
    SizeConcat([successors[0]], others);
    SizeConcat([successors[0]], Select(ref, others, true));
  }

  /** Unlinks the first path and all paths merged with it. */
  method TakeGroup(successors: seq<seq<CInfo>>) returns (equal: seq<seq<CInfo>>, rest: seq<seq<CInfo>>)
    requires NonEmpty(successors) && successors != []
    ensures equal == [successors[0]] + Select(successors[0][0], successors[1..], true)
    ensures rest == Select(successors[0][0], successors[1..], false)
  {
    var ref := successors[0][0];
    equal, rest := [successors[0]], [];
    var others := successors[1..];
    for k := 0 to |others|
      invariant equal == [successors[0]] + Select(ref, others[..k], true)
      invariant rest == Select(ref, others[..k], false)
    {
      var i := others[k][0];
      assert others[..k + 1][..k] == others[..k];
      if i.obj != ref.obj || (i.localName.Some? && ref.localName.Some? && i.localName != ref.localName) {
        rest := rest + [others[k]];
      } else {
        equal := equal + [others[k]];
      }
    }
    assert others[..|others|] == others;
  }
}
