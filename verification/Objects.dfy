/** Exactly what is created for a signal or a parameter, read off the tables and the start points: which modules and
    instances get an object, under which name, in which direction and wired to what. */
module Objects {
  import opened Wrappers
  import opened ConnectionInfo
  import opened HierarchyDb
  import opened MergeTree
  import opened MergeProperties
  import opened MergeAttributes
  import opened MergeNodes
  import opened Labels
  import opened Generation
  import opened Connections
  import opened Chains
  import opened Names

  /** Start points at one end point give it one name, and force no name that they do not give. */
  predicate AreClear(starts: seq<CInfo>) {
    NamesAgree(starts) && forall i :: 0 <= i < |starts| && starts[i].forceName ==> starts[i].localName.Some?
  }

  // ---------------------------------------------------------------------------
  // The way from the top to an object

  /** a is e or lies above it: a module below its instance, an instance in the module around it. */
  ghost predicate OnWay(t: Tables, a: Obj, e: Obj)
    requires t.Valid() && t.Contains(e)
    decreases t.Depth(e)
  {
    a == e ||
    match e
    case Mod(m) => t.IsPlain(m) && OnWay(t, a, Def(m))
    case Def(m) => m in t.parents && OnWay(t, a, Mod(t.parents[m]))
    case Res(i) => OnWay(t, a, Mod(t.resources[i].parent))
  }

  lemma {:induction false} OnWayIff(t: Tables, a: Obj, e: Obj)
    requires t.Valid() && t.Contains(e)
    ensures OnWay(t, a, e) <==> a in Chain(t, e)
    decreases t.Depth(e)
  {
    var c := Climber(NewInfo(e, None, DEFAULT), false, false);
    if Above(t, c).Some? {
      var o := Above(t, c).value.cinfo.obj;
      AboveIsCloser(t, c);
      OnWayIff(t, a, o);
      assert Chain(t, e) == Chain(t, o) + [e];
    } else {
      assert Chain(t, e) == [e];
    }
  }

  /** The path to a start point runs through what is on the way to its end point. */
  lemma RunsOnWay(t: Tables, start: CInfo, a: Obj)
    requires t.Valid() && t.Contains(start.obj)
    ensures t.Contains(EndPoint(start)) && (RunsThrough(Path(t, start), a) <==> OnWay(t, a, EndPoint(start)))
  {
    var path := Path(t, start);
    PathIsChain(t, start);
    OnWayIff(t, a, EndPoint(start));
    if RunsThrough(path, a) {
      var k :| 0 <= k < |path| && path[k].obj == a;
      assert Objs(path)[k] == a;
    }
    if a in Chain(t, EndPoint(start)) {
      var k :| 0 <= k < |Objs(path)| && Objs(path)[k] == a;
      assert path[k].obj == a;
    }
  }

  /** What lies right above an object. */
  function RightAbove(t: Tables, o: Obj): Option<Obj>
    requires t.Contains(o)
  {
    match o
    case Mod(m) => if t.IsPlain(m) then Some(Def(m)) else None
    case Def(m) => if m in t.parents then Some(Mod(t.parents[m])) else None
    case Res(i) => Some(Mod(t.resources[i].parent))
  }

  lemma ChainStep(t: Tables, o: Obj)
    requires t.Valid() && t.Contains(o)
    ensures match RightAbove(t, o)
      case None => Chain(t, o) == [o]
      case Some(a) => t.Contains(a) && Chain(t, o) == Chain(t, a) + [o]
  {
  }

  // ---------------------------------------------------------------------------
  // Names

  /** The module around a module or a resource instance. */
  function Around(t: Tables, e: Obj): Option<Name> {
    Surrounding(t, if e.Mod? then Def(e.name) else e)
  }

  /** The name given for an end point, or the one it gets from the module around it, without its suffix if it is
      forced there, or at last that of the signal. */
  ghost function BaseName(t: Tables, starts: seq<CInfo>, signame: string, e: Obj): string
    requires t.Valid() && t.Contains(e) && !e.Def?
    decreases t.Depth(e)
  {
    var names := NamesFor(starts, e);
    if names != [] then names[0].name
    else match Around(t, e)
      case None => signame
      case Some(m) =>
        var above := NamesFor(starts, Mod(m));
        var base := BaseName(t, starts, signame, Mod(m));
        if above != [] && above[|above| - 1].force then RmSuffix(base) else base
  }

  /** When no start point gives a name, everything is called like the signal. */
  lemma {:induction false} UnnamedIsSignal(t: Tables, starts: seq<CInfo>, signame: string, e: Obj)
    requires t.Valid() && t.Contains(e) && !e.Def?
    requires forall i :: 0 <= i < |starts| ==> starts[i].localName.None?
    ensures BaseName(t, starts, signame, e) == signame
    decreases t.Depth(e)
  {
    NobodyNames(starts, e);
    if Around(t, e).Some? {
      NobodyNames(starts, Mod(Around(t, e).value));
      UnnamedIsSignal(t, starts, signame, Mod(Around(t, e).value));
    }
  }

  lemma {:induction false} NobodyNames(starts: seq<CInfo>, e: Obj)
    requires forall i :: 0 <= i < |starts| ==> starts[i].localName.None?
    ensures NamesFor(starts, e) == []
  {
    if starts != [] { NobodyNames(starts[..|starts| - 1], e); }
  }

  lemma UnnamedIsFree(t: Tables, starts: seq<CInfo>, signame: string, q: seq<Obj>, x: HNode)
    requires t.Valid() && AllContained(t, starts) && AreClear(starts)
    requires Merge(PathsTo(t, starts), signame).Some? && NodeAt(Merge(PathsTo(t, starts), signame).value, q, x)
    requires t.Contains(x.info.obj) && q == Chain(t, x.info.obj)
    ensures NamesFor(starts, Inside(x.info.obj)) == [] ==> !x.info.forceName
  {
    NodeFlags(PathsTo(t, starts), signame, q, x);
    if x.info.forceName {
      var r :| r in Records(PathsTo(t, starts), q) && r.forceName;
      ForcedRecord(t, starts, x.info.obj, r);
      var i :| 0 <= i < |starts| && starts[i].forceName && EndPoint(starts[i]) == Inside(x.info.obj);
      NameIsListed(starts, i);
    }
  }

  lemma FirstIsAny(starts: seq<CInfo>, e: Obj, k: nat)
    requires NamesAgree(starts) && k < |NamesFor(starts, e)|
    ensures NamesFor(starts, e)[k].name == NamesFor(starts, e)[0].name
  {
    var i := NamerOf(starts, e, k);
    var j := NamerOf(starts, e, 0);
    assert Agree(starts[i], starts[j]);
  }

  /** What a node hands down to those below. */
  lemma HandsDown(t: Tables, starts: seq<CInfo>, signame: string, q: seq<Obj>, y: HNode)
    requires t.Valid() && AllContained(t, starts) && AllExplicit(starts) && AreClear(starts)
    requires IsReducible(t, starts, signame) && NodeAt(Merge(PathsTo(t, starts), signame).value, q, y)
    requires t.Contains(y.info.obj) && q == Chain(t, y.info.obj)
    requires y.info.localName == Some(BaseName(t, starts, signame, Inside(y.info.obj)))
    ensures DefaultName(y.info) == HandedOn(starts, y.info.obj, BaseName(t, starts, signame, Inside(y.info.obj)))
  {
    ConsistentIff(t, starts);
    MergedNodeIsNamed(t, starts, signame, q, y);
    UnnamedIsFree(t, starts, signame, q, y);
  }

  /** The base name of every node of the merged tree. */
  lemma {:induction false} NodeBase(t: Tables, starts: seq<CInfo>, signame: string, q: seq<Obj>, x: HNode)
    requires t.Valid() && AllContained(t, starts) && AllExplicit(starts) && AreClear(starts)
    requires IsReducible(t, starts, signame) && NodeAt(Merge(PathsTo(t, starts), signame).value, q, x)
    requires t.Contains(x.info.obj) && q == Chain(t, x.info.obj)
    ensures x.info.localName == Some(BaseName(t, starts, signame, Inside(x.info.obj)))
    decreases |q|
  {
    if NamesFor(starts, Inside(x.info.obj)) != [] {
      NamedBase(t, starts, signame, q, x);
    } else {
      UnnamedBase(t, starts, signame, q, x);
    }
  }

  lemma NamedBase(t: Tables, starts: seq<CInfo>, signame: string, q: seq<Obj>, x: HNode)
    requires t.Valid() && AllContained(t, starts) && AllExplicit(starts) && AreClear(starts)
    requires IsReducible(t, starts, signame) && NodeAt(Merge(PathsTo(t, starts), signame).value, q, x)
    requires t.Contains(x.info.obj) && q == Chain(t, x.info.obj) && NamesFor(starts, Inside(x.info.obj)) != []
    ensures x.info.localName == Some(BaseName(t, starts, signame, Inside(x.info.obj)))
  {
    ConsistentIff(t, starts);
    MergedNodeIsNamed(t, starts, signame, q, x);
    DecidingIsFirst(starts, Inside(x.info.obj), x.info.obj.Mod?);
  }

  lemma DecidingIsFirst(starts: seq<CInfo>, e: Obj, isModule: bool)
    requires NamesAgree(starts) && NamesFor(starts, e) != []
    ensures Deciding(NamesFor(starts, e), isModule).name == NamesFor(starts, e)[0].name
  {
    FirstIsAny(starts, e, |NamesFor(starts, e)| - 1);
  }

  /** What an object hands down that has this base name. */
  function HandedOn(starts: seq<CInfo>, o: Obj, base: string): string {
    var names := NamesFor(starts, Inside(o));
    if names != [] && Deciding(names, o.Mod?).force then RmSuffix(base) else base
  }

  lemma BaseFromAbove(t: Tables, starts: seq<CInfo>, signame: string, o: Obj)
    requires t.Valid() && t.Contains(o) && NamesFor(starts, Inside(o)) == []
    ensures match RightAbove(t, o)
      case None => BaseName(t, starts, signame, Inside(o)) == signame
      case Some(a) =>
        t.Contains(a) &&
        BaseName(t, starts, signame, Inside(o)) == HandedOn(starts, a, BaseName(t, starts, signame, Inside(a)))
  {
  }

  lemma TopBase(t: Tables, starts: seq<CInfo>, signame: string, q: seq<Obj>, x: HNode)
    requires t.Valid() && AllContained(t, starts) && Consistent(PathsTo(t, starts)) && |q| == 1
    requires Merge(PathsTo(t, starts), signame).Some? && NodeAt(Merge(PathsTo(t, starts), signame).value, q, x)
    requires t.Contains(x.info.obj) && q == Chain(t, x.info.obj) && NamesFor(starts, Inside(x.info.obj)) == []
    ensures x.info.localName == Some(BaseName(t, starts, signame, Inside(x.info.obj)))
  {
    LabelsOfStarts(t, starts, x.info.obj);
    ChainStep(t, x.info.obj);
    BaseFromAbove(t, starts, signame, x.info.obj);
    var y := NodeDefault(PathsTo(t, starts), signame, q, x);
  }

  lemma {:induction false} UnnamedBase(t: Tables, starts: seq<CInfo>, signame: string, q: seq<Obj>, x: HNode)
    requires t.Valid() && AllContained(t, starts) && AllExplicit(starts) && AreClear(starts)
    requires IsReducible(t, starts, signame) && NodeAt(Merge(PathsTo(t, starts), signame).value, q, x)
    requires t.Contains(x.info.obj) && q == Chain(t, x.info.obj) && NamesFor(starts, Inside(x.info.obj)) == []
    ensures x.info.localName == Some(BaseName(t, starts, signame, Inside(x.info.obj)))
    decreases |q|, 0
  {
    ConsistentIff(t, starts);
    if |q| == 1 {
      TopBase(t, starts, signame, q, x);
    } else {
      var y := NamedAbove(t, starts, signame, q, x);
      NodeBase(t, starts, signame, q[..|q| - 1], y);
      HandsDown(t, starts, signame, q[..|q| - 1], y);
      BaseFromAbove(t, starts, signame, x.info.obj);
    }
  }

  /** The node above an unnamed one, whose name that one takes. */
  lemma NamedAbove(t: Tables, starts: seq<CInfo>, signame: string, q: seq<Obj>, x: HNode) returns (y: HNode)
    requires t.Valid() && AllContained(t, starts) && Consistent(PathsTo(t, starts)) && |q| > 1
    requires Merge(PathsTo(t, starts), signame).Some? && NodeAt(Merge(PathsTo(t, starts), signame).value, q, x)
    requires t.Contains(x.info.obj) && q == Chain(t, x.info.obj) && NamesFor(starts, Inside(x.info.obj)) == []
    ensures NodeAt(Merge(PathsTo(t, starts), signame).value, q[..|q| - 1], y)
    ensures RightAbove(t, x.info.obj) == Some(y.info.obj) && t.Contains(y.info.obj)
    ensures q[..|q| - 1] == Chain(t, y.info.obj) && x.info.localName == HandedDown(signame, q, y)
  {
    LabelsOfStarts(t, starts, x.info.obj);
    ChainStep(t, x.info.obj);
    y := NodeDefault(PathsTo(t, starts), signame, q, x);
    assert q[..|q| - 1] == Chain(t, RightAbove(t, x.info.obj).value);
    NodeObject(Merge(PathsTo(t, starts), signame).value, q[..|q| - 1], y);
  }
}
