/** What holds of merged trees whether or not objects are given several names. */
module MergeNodes {
  import opened Wrappers
  import opened ConnectionInfo
  import opened MergeTree
  import opened MergeProperties
  import opened MergeAttributes

  lemma {:induction false} ExplicitHead(h: seq<seq<CInfo>>)
    requires NonEmpty(h) && h != []
    ensures JoinHeads(h).isExplicit <==> exists i :: 0 <= i < |h| && h[i][0].isExplicit
  {
    if |h| > 1 {
      var n := |h| - 1;
      ExplicitHead(h[..n]);
      if JoinHeads(h[..n]).isExplicit {
        var i :| 0 <= i < |h[..n]| && h[..n][i][0].isExplicit;
        assert h[i][0].isExplicit;
      }
      if exists i :: 0 <= i < |h| && h[i][0].isExplicit {
        var i :| 0 <= i < |h| && h[i][0].isExplicit;
        if i < n { assert h[..n][i][0].isExplicit; }
      }
    }
  }

  lemma {:induction false} ForcedHead(h: seq<seq<CInfo>>)
    requires NonEmpty(h) && h != []
    ensures JoinHeads(h).forceName ==> exists i :: 0 <= i < |h| && h[i][0].forceName
  {
    var n := |h| - 1;
    if n == 0 {
      assert h[0][0] == JoinHeads(h);
    } else if JoinHeads(h).forceName && !h[n][0].forceName {
      ForcedHead(h[..n]);
      var i :| 0 <= i < |h[..n]| && h[..n][i][0].forceName;
      assert h[i][0].forceName;
    }
  }

  /** The paths neither drive downwards nor both ways. */
  predicate IsUpOrDefault(d: Dir) { d == UP || d == DEFAULT }

  lemma {:induction false} HeadDirection(h: seq<seq<CInfo>>)
    requires NonEmpty(h) && h != [] && forall i :: 0 <= i < |h| ==> IsUpOrDefault(h[i][0].dir)
    ensures IsUpOrDefault(JoinHeads(h).dir)
    ensures JoinHeads(h).dir == UP <==> exists i :: 0 <= i < |h| && h[i][0].dir == UP
  {
    var n := |h| - 1;
    if n > 0 {
      HeadDirection(h[..n]);
      assert forall i :: 0 <= i < n ==> h[..n][i] == h[i];
    }
  }

  /** The flags of a node are those of records that the paths have for it, and so is its direction when only
      one direction is asked for. */
  ghost predicate HasFlagsOf(info: CInfo, records: set<CInfo>) {
    && (info.isExplicit ==> exists r :: r in records && r.isExplicit)
    && (info.forceName ==> exists r :: r in records && r.forceName)
    && ((forall r :: r in records ==> IsUpOrDefault(r.dir)) ==>
         IsUpOrDefault(info.dir) && (info.dir == UP ==> exists r :: r in records && r.dir == UP))
  }

  lemma FlagsOfMore(info: CInfo, records: set<CInfo>, more: set<CInfo>)
    requires HasFlagsOf(info, records) && records <= more
    ensures HasFlagsOf(info, more)
  {
    assert forall r :: r in records ==> r in more;
  }

  lemma FlagsOfHead(h: seq<seq<CInfo>>, signame: string, p: seq<Obj>)
    requires NonEmpty(h) && h != [] && SameHead(h) && p == [h[0][0].obj]
    ensures HasFlagsOf(NodeInfo(h, signame), Records(h, p))
  {
    ExplicitHead(h);
    ForcedHead(h);
    RecordsOfHead(h, p);
    forall i | 0 <= i < |h| ensures h[i][0] in Heads(h) { }
    if forall r :: r in Heads(h) ==> IsUpOrDefault(r.dir) { HeadDirection(h); }
  }

  lemma RecordsOfPart(part: seq<seq<CInfo>>, h: seq<seq<CInfo>>, p: seq<Obj>)
    requires p != [] && forall path :: path in part ==> path in h
    ensures Records(part, p) <= Records(h, p)
  {
  }

  lemma {:induction false} NodeFlags(h: seq<seq<CInfo>>, signame: string, p: seq<Obj>, x: HNode)
    requires NonEmpty(h) && Merge(h, signame).Some? && NodeAt(Merge(h, signame).value, p, x)
    ensures HasFlagsOf(x.info, Records(h, p))
    decreases Size(h), 0, 0
  {
    var n := Merge(h, signame).value;
    MergeSucceedsIff(h, signame);
    HeadOfJoin(h);
    if |p| == 1 {
      FlagsOfHead(h, signame, p);
    } else {
      RecordsOfTails(h, p);
      ChildFlags(Tails(h), DefaultName(n.info), p[1..], x);
    }
  }

  lemma {:induction false} ChildFlags(successors: seq<seq<CInfo>>, name: string, p: seq<Obj>, x: HNode)
    requires NonEmpty(successors) && MergeChildren(successors, name).Some? && p != []
    requires SomeNodeAt(MergeChildren(successors, name).value, p, x)
    ensures HasFlagsOf(x.info, Records(successors, p))
    decreases Size(successors), 1, |successors|
  {
    if successors != [] {
      var equal, rest := FirstOfGroups(successors, name);
      SomeNodeAtConcat(MergeChildren(rest, name).value, Merge(equal, name).value, p, x);
      if NodeAt(Merge(equal, name).value, p, x) {
        NodeFlags(equal, name, p, x);
        RecordsOfPart(equal, successors, p);
        FlagsOfMore(x.info, Records(equal, p), Records(successors, p));
      } else {
        ChildFlags(rest, name, p, x);
        RecordsOfPart(rest, successors, p);
        FlagsOfMore(x.info, Records(rest, p), Records(successors, p));
      }
    }
  }

  /** The first group and the other paths, and what the children are. */
  lemma FirstOfGroups(successors: seq<seq<CInfo>>, name: string) returns (equal: seq<seq<CInfo>>, rest: seq<seq<CInfo>>)
    requires NonEmpty(successors) && successors != [] && MergeChildren(successors, name).Some?
    ensures NonEmpty(equal) && NonEmpty(rest) && Merge(equal, name).Some? && MergeChildren(rest, name).Some?
    ensures MergeChildren(successors, name).value == MergeChildren(rest, name).value + [Merge(equal, name).value]
    ensures Size(equal) <= Size(successors) && Size(rest) <= Size(successors) && |rest| < |successors|
    ensures forall path :: path in successors <==> path in equal || path in rest
    ensures successors[0] in equal && Merge(equal, name).value.info.obj == successors[0][0].obj
    ensures forall path :: path in rest ==> path != [] && !Mergeable(successors[0][0], path[0])
  {
    var ref, others := successors[0][0], successors[1..];
    equal, rest := [successors[0]] + Select(ref, others, true), Select(ref, others, false);
    GroupIsSmaller(successors);
    FirstGroup(successors, equal, rest, name);
    MergeSucceedsIff(equal, name);
    HeadOfJoin(equal);
    forall path
      ensures path in successors <==> path in equal || path in rest
      ensures path in rest ==> path != [] && !Mergeable(ref, path[0])
    {
      InGroups(successors, path);
      if path in rest { var i :| 0 <= i < |rest| && rest[i] == path; }
    }
  }

  /** What a record hands on to the node it is joined into. */
  predicate HandsOn(r: CInfo, info: CInfo, upOnly: bool) {
    && info.obj == r.obj
    && (r.isExplicit ==> info.isExplicit)
    && (upOnly && r.dir == UP ==> info.dir == UP)
  }

  ghost predicate UpOnly(h: seq<seq<CInfo>>) {
    forall path: seq<CInfo>, k :: path in h && 0 <= k < |path| ==> IsUpOrDefault(path[k].dir)
  }

  /** Every record of a path is joined into a node. */
  lemma {:induction false} NodeOnPath(h: seq<seq<CInfo>>, signame: string, path: seq<CInfo>, p: seq<Obj>, up: bool)
    returns (x: HNode)
    requires NonEmpty(h) && Merge(h, signame).Some? && path in h && p != [] && Passes(path, p) && (up ==> UpOnly(h))
    ensures NodeAt(Merge(h, signame).value, p, x) && HandsOn(path[|p| - 1], x.info, up)
    decreases Size(h), 0, 0
  {
    if |p| == 1 {
      x := NodeAtTop(h, signame, path, p);
    } else {
      PassesTail(path, p);
      var name := TailBelowHead(h, signame, path);
      x := ChildOnPath(Tails(h), name, path[1..], p[1..], up);
      assert path[1..][|p[1..]| - 1] == path[|p| - 1];
      assert NodeAt(Merge(h, signame).value, p, x);
    }
  }

  lemma NodeAtTop(h: seq<seq<CInfo>>, signame: string, path: seq<CInfo>, p: seq<Obj>) returns (x: HNode)
    requires NonEmpty(h) && Merge(h, signame).Some? && path in h && |p| == 1 && Passes(path, p)
    ensures x == Merge(h, signame).value && NodeAt(x, p, x) && HandsOn(path[0], x.info, UpOnly(h))
  {
    x := Merge(h, signame).value;
    MergeSucceedsIff(h, signame);
    HeadOfJoin(h);
    ExplicitHead(h);
    var i :| 0 <= i < |h| && h[i] == path;
    assert h[i][0] == path[0];
    if UpOnly(h) {
      forall i | 0 <= i < |h| ensures IsUpOrDefault(h[i][0].dir) { assert h[i] in h; }
      HeadDirection(h);
    }
  }

  /** The rest of a path is among the tails, from which the children are merged. */
  lemma TailBelowHead(h: seq<seq<CInfo>>, signame: string, path: seq<CInfo>) returns (name: string)
    requires NonEmpty(h) && Merge(h, signame).Some? && path in h && |path| > 1
    ensures h != [] && path[1..] in Tails(h) && MergeChildren(Tails(h), name) == Some(Merge(h, signame).value.children)
    ensures Merge(h, signame).value.info.obj == path[0].obj && (UpOnly(h) ==> UpOnly(Tails(h)))
  {
    name := DefaultName(Merge(h, signame).value.info);
    MergeSucceedsIff(h, signame);
    HeadOfJoin(h);
    InTails(h, path[1..]);
    var i :| 0 <= i < |h| && h[i] == path;
    if UpOnly(h) { TailsAreUpOnly(h); }
  }

  lemma TailsAreUpOnly(h: seq<seq<CInfo>>)
    requires NonEmpty(h) && UpOnly(h)
    ensures UpOnly(Tails(h))
  {
    forall tail: seq<CInfo>, k | tail in Tails(h) && 0 <= k < |tail| ensures IsUpOrDefault(tail[k].dir) {
      InTails(h, tail);
      var path: seq<CInfo> :| path in h && |path| > 1 && path[1..] == tail;
      assert IsUpOrDefault(path[k + 1].dir);
    }
  }

  lemma {:induction false} ChildOnPath(successors: seq<seq<CInfo>>, name: string, path: seq<CInfo>, p: seq<Obj>,
                                       up: bool)
    returns (x: HNode)
    requires NonEmpty(successors) && MergeChildren(successors, name).Some?
    requires path in successors && p != [] && Passes(path, p) && (up ==> UpOnly(successors))
    ensures SomeNodeAt(MergeChildren(successors, name).value, p, x) && HandsOn(path[|p| - 1], x.info, up)
    decreases Size(successors), 1, |successors|
  {
    var equal, rest := FirstOfGroups(successors, name);
    if path in equal {
      x := NodeOnPath(equal, name, path, p, up);
    } else {
      x := ChildOnPath(rest, name, path, p, up);
    }
    SomeNodeAtConcat(MergeChildren(rest, name).value, Merge(equal, name).value, p, x);
  }

  /** At the end of every explicit path there is an explicit node. */
  lemma ExplicitNode(h: seq<seq<CInfo>>, signame: string, path: seq<CInfo>) returns (x: HNode)
    requires NonEmpty(h) && Merge(h, signame).Some?
    requires path in h && path != [] && path[|path| - 1].isExplicit
    ensures NodeAt(Merge(h, signame).value, Objs(path), x)
    ensures x.info.isExplicit && x.info.obj == path[|path| - 1].obj
  {
    assert Passes(path, Objs(path));
    x := NodeOnPath(h, signame, path, Objs(path), false);
  }

  // ---------------------------------------------------------------------------
  // Directions

  /** A path drives in one direction, and does not end at a default instance. */
  predicate IsThrough(path: seq<CInfo>) {
    && path != [] && !path[|path| - 1].obj.Def?
    && forall k :: 0 <= k < |path| ==> path[k].dir == path[0].dir
  }

  ghost predicate AllThrough(h: seq<seq<CInfo>>) {
    forall path :: path in h ==> IsThrough(path)
  }

  /** An instance drives upwards exactly if some node for its module does. */
  predicate PassesOn(x: HNode) {
    x.info.obj.Def? ==> (x.info.dir == UP <==> exists k :: 0 <= k < |x.children| && x.children[k].info.dir == UP)
  }

  lemma TailsAreThrough(h: seq<seq<CInfo>>)
    requires NonEmpty(h) && AllThrough(h)
    ensures AllThrough(Tails(h))
  {
    forall tail | tail in Tails(h) ensures IsThrough(tail) {
      InTails(h, tail);
      var path :| path in h && |path| > 1 && path[1..] == tail;
      assert IsThrough(path);
    }
  }

  lemma UpChildComesFromUp(h: seq<seq<CInfo>>, signame: string, k: nat)
    requires NonEmpty(h) && UpOnly(h) && AllThrough(h) && Merge(h, signame).Some?
    requires k < |Merge(h, signame).value.children| && Merge(h, signame).value.children[k].info.dir == UP
    ensures exists i :: 0 <= i < |h| && h[i][0].dir == UP
  {
    var name := ChildrenOfMerged(h, signame);
    var y := Merge(h, signame).value.children[k];
    assert NodeAt(y, [y.info.obj], y);
    ChildFlags(Tails(h), name, [y.info.obj], y);
    TailsAreUpOnly(h);
    var r :| r in Records(Tails(h), [y.info.obj]) && r.dir == UP;
    var tail: seq<CInfo> :| tail in Tails(h) && Passes(tail, [y.info.obj]) && tail[0] == r;
    InTails(h, tail);
    var path: seq<CInfo> :| path in h && |path| > 1 && path[1..] == tail;
    var i :| 0 <= i < |h| && h[i] == path;
    assert IsThrough(path) && path[1].dir == UP;
  }

  lemma UpHandsDown(h: seq<seq<CInfo>>, signame: string, i: nat)
    requires NonEmpty(h) && UpOnly(h) && AllThrough(h) && Merge(h, signame).Some?
    requires i < |h| && h[i][0].dir == UP && h[i][0].obj.Def?
    ensures var n := Merge(h, signame).value; exists k :: 0 <= k < |n.children| && n.children[k].info.dir == UP
  {
    assert h[i] in h && IsThrough(h[i]);
    var name := TailBelowHead(h, signame, h[i]);
    var k := ChildOnTail(Tails(h), name, h[i][1..]);
  }

  /** Every path of the list goes to a child, which drives upwards if the path does. */
  lemma ChildOnTail(successors: seq<seq<CInfo>>, name: string, tail: seq<CInfo>) returns (k: nat)
    requires NonEmpty(successors) && UpOnly(successors) && MergeChildren(successors, name).Some?
    requires tail in successors && tail != [] && tail[0].dir == UP
    ensures k < |MergeChildren(successors, name).value| && MergeChildren(successors, name).value[k].info.dir == UP
  {
    var p := [tail[0].obj];
    var y := ChildOnPath(successors, name, tail, p, true);
    k :| 0 <= k < |MergeChildren(successors, name).value| && NodeAt(MergeChildren(successors, name).value[k], p, y);
  }

  lemma TopPassesOn(h: seq<seq<CInfo>>, signame: string)
    requires NonEmpty(h) && UpOnly(h) && AllThrough(h) && Merge(h, signame).Some?
    ensures PassesOn(Merge(h, signame).value)
  {
    var n := Merge(h, signame).value;
    var name := ChildrenOfMerged(h, signame);
    forall i | 0 <= i < |h| ensures IsUpOrDefault(h[i][0].dir) { assert h[i] in h; }
    HeadDirection(h);
    if n.info.obj.Def? && n.info.dir == UP {
      var i :| 0 <= i < |h| && h[i][0].dir == UP;
      UpHandsDown(h, signame, i);
    }
    if k :| 0 <= k < |n.children| && n.children[k].info.dir == UP { UpChildComesFromUp(h, signame, k); }
  }

  lemma {:induction false} NodePassesOn(h: seq<seq<CInfo>>, signame: string, p: seq<Obj>, x: HNode)
    requires NonEmpty(h) && UpOnly(h) && AllThrough(h)
    requires Merge(h, signame).Some? && NodeAt(Merge(h, signame).value, p, x)
    ensures PassesOn(x)
    decreases Size(h), 0, 0
  {
    if |p| == 1 {
      TopPassesOn(h, signame);
    } else {
      var name := ChildrenOfMerged(h, signame);
      TailsAreUpOnly(h);
      TailsAreThrough(h);
      ChildPassesOn(Tails(h), name, p[1..], x);
    }
  }

  lemma {:induction false} ChildPassesOn(successors: seq<seq<CInfo>>, name: string, p: seq<Obj>, x: HNode)
    requires NonEmpty(successors) && UpOnly(successors) && AllThrough(successors)
    requires MergeChildren(successors, name).Some? && p != [] && SomeNodeAt(MergeChildren(successors, name).value, p, x)
    ensures PassesOn(x)
    decreases Size(successors), 1, |successors|
  {
    if successors != [] {
      var equal, rest := FirstOfGroups(successors, name);
      SomeNodeAtConcat(MergeChildren(rest, name).value, Merge(equal, name).value, p, x);
      if NodeAt(Merge(equal, name).value, p, x) {
        NodePassesOn(equal, name, p, x);
      } else {
        ChildPassesOn(rest, name, p, x);
      }
    }
  }

  // ---------------------------------------------------------------------------
  // Siblings for one object

  /** Two paths on the list that name the object at the end of p differently. */
  ghost predicate NameApart(h: seq<seq<CInfo>>, p: seq<Obj>, a: seq<CInfo>, b: seq<CInfo>) {
    && p != [] && a in h && b in h && Passes(a, p) && Passes(b, p)
    && !SameName(a[|p| - 1], b[|p| - 1])
  }

  /** Two children for one object come from two names for it. */
  lemma {:induction false} TwinGroups(successors: seq<seq<CInfo>>, name: string, k: nat, l: nat)
    returns (a: seq<CInfo>, b: seq<CInfo>)
    requires NonEmpty(successors) && MergeChildren(successors, name).Some?
    requires k < l < |MergeChildren(successors, name).value|
    requires MergeChildren(successors, name).value[k].info.obj == MergeChildren(successors, name).value[l].info.obj
    ensures NameApart(successors, [MergeChildren(successors, name).value[k].info.obj], a, b)
    decreases |successors|
  {
    var equal, rest := FirstOfGroups(successors, name);
    var later := MergeChildren(rest, name).value;
    if l < |later| {
      a, b := TwinGroups(rest, name, k, l);
    } else {
      a := successors[0];
      b := TwinOfFirst(rest, name, k);
    }
  }

  lemma TwinOfFirst(rest: seq<seq<CInfo>>, name: string, k: nat) returns (b: seq<CInfo>)
    requires NonEmpty(rest) && MergeChildren(rest, name).Some? && k < |MergeChildren(rest, name).value|
    ensures b in rest && b != [] && b[0].obj == MergeChildren(rest, name).value[k].info.obj
  {
    HeadsOfChildren(rest, name, k);
    b :| b in rest && b[0].obj == MergeChildren(rest, name).value[k].info.obj;
    var i :| 0 <= i < |rest| && rest[i] == b;
  }

  lemma {:induction false} TwinChildren(h: seq<seq<CInfo>>, signame: string, p: seq<Obj>, x: HNode, k: nat, l: nat)
    returns (a: seq<CInfo>, b: seq<CInfo>)
    requires NonEmpty(h) && Merge(h, signame).Some? && NodeAt(Merge(h, signame).value, p, x)
    requires k < l < |x.children| && x.children[k].info.obj == x.children[l].info.obj
    ensures NameApart(h, p + [x.children[k].info.obj], a, b)
    decreases Size(h), 0, 0
  {
    var o := x.children[k].info.obj;
    var name := ChildrenOfMerged(h, signame);
    assert (p + [o])[1..] == p[1..] + [o];
    if |p| == 1 {
      a, b := TwinGroups(Tails(h), name, k, l);
    } else {
      a, b := TwinsBelow(Tails(h), name, p[1..], x, k, l);
    }
    a, b := ApartAbove(h, p + [o], a, b);
  }

  lemma ChildrenOfMerged(h: seq<seq<CInfo>>, signame: string) returns (name: string)
    requires NonEmpty(h) && Merge(h, signame).Some?
    ensures h != [] && SameHead(h) && Merge(h, signame).value.info.obj == h[0][0].obj
    ensures MergeChildren(Tails(h), name) == Some(Merge(h, signame).value.children)
  {
    name := DefaultName(Merge(h, signame).value.info);
    MergeSucceedsIff(h, signame);
    HeadOfJoin(h);
  }

  lemma ApartAbove(h: seq<seq<CInfo>>, p: seq<Obj>, a: seq<CInfo>, b: seq<CInfo>) returns (c: seq<CInfo>, d: seq<CInfo>)
    requires NonEmpty(h) && h != [] && SameHead(h) && |p| > 1 && p[0] == h[0][0].obj
    requires NameApart(Tails(h), p[1..], a, b)
    ensures NameApart(h, p, c, d)
  {
    InTails(h, a);
    InTails(h, b);
    c :| c in h && |c| > 1 && c[1..] == a;
    d :| d in h && |d| > 1 && d[1..] == b;
    var i :| 0 <= i < |h| && h[i] == c;
    var j :| 0 <= j < |h| && h[j] == d;
    PassesTail(c, p);
    PassesTail(d, p);
    assert c[|p| - 1] == a[|p[1..]| - 1] && d[|p| - 1] == b[|p[1..]| - 1];
  }

  lemma {:induction false} TwinsBelow(successors: seq<seq<CInfo>>, name: string, p: seq<Obj>, x: HNode, k: nat, l: nat)
    returns (a: seq<CInfo>, b: seq<CInfo>)
    requires NonEmpty(successors) && MergeChildren(successors, name).Some? && p != []
    requires SomeNodeAt(MergeChildren(successors, name).value, p, x)
    requires k < l < |x.children| && x.children[k].info.obj == x.children[l].info.obj
    ensures NameApart(successors, p + [x.children[k].info.obj], a, b)
    decreases Size(successors), 1, |successors|
  {
    var equal, rest := FirstOfGroups(successors, name);
    SomeNodeAtConcat(MergeChildren(rest, name).value, Merge(equal, name).value, p, x);
    if NodeAt(Merge(equal, name).value, p, x) {
      a, b := TwinChildren(equal, name, p, x, k, l);
    } else {
      a, b := TwinsBelow(rest, name, p, x, k, l);
    }
  }

  /** Without conflicting names siblings are distinct. */
  lemma SiblingsDiffer(h: seq<seq<CInfo>>, signame: string, p: seq<Obj>, x: HNode, k: nat, l: nat)
    requires NonEmpty(h) && Consistent(h) && Merge(h, signame).Some? && NodeAt(Merge(h, signame).value, p, x)
    requires k < l < |x.children|
    ensures x.children[k].info.obj != x.children[l].info.obj
  {
    if x.children[k].info.obj == x.children[l].info.obj {
      var a, b := TwinChildren(h, signame, p, x, k, l);
    }
  }
}
