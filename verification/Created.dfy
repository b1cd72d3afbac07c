/** The set of created objects, one per module and instance between the root and the end points, each in full. */
module Created {
  import opened Wrappers
  import opened ConnectionInfo
  import opened HierarchyDb
  import opened MergeTree
  import opened MergeProperties
  import opened MergeAttributes
  import opened TreeShape
  import opened Reduce
  import opened Generation
  import opened Connections
  import opened Chains
  import opened Names
  import opened Nets
  import opened Directions
  import opened Objects

  // ---------------------------------------------------------------------------
  // Directions and inversions

  /** Some start point of that direction lies in or at the object. */
  ghost predicate Drives(t: Tables, starts: seq<CInfo>, o: Obj, dir: Dir)
    requires t.Valid() && AllContained(t, starts)
  {
    exists i :: 0 <= i < |starts| && starts[i].dir == dir && IsIn(t, starts[i], o)
  }

  ghost predicate IsIn(t: Tables, start: CInfo, o: Obj)
    requires t.Valid() && t.Contains(start.obj)
  {
    t.Contains(EndPoint(start)) && OnWay(t, o, EndPoint(start))
  }

  /** Both ways if so asked for or in both directions, else out if some start point drives upwards, else in. */
  ghost function DirOf(t: Tables, starts: seq<CInfo>, o: Obj): PortDir
    requires t.Valid() && AllContained(t, starts)
  {
    if Drives(t, starts, o, BIDIR) || (Drives(t, starts, o, UP) && Drives(t, starts, o, DOWN)) then Bidir
    else if Drives(t, starts, o, UP) then Out
    else In
  }

  /** Some start point inverts the signal at its end point. */
  ghost predicate Inverts(starts: seq<CInfo>, e: Obj) {
    exists i :: 0 <= i < |starts| && starts[i].invert && EndPoint(starts[i]) == e
  }

  lemma DriverHasRecord(t: Tables, starts: seq<CInfo>, o: Obj, i: nat) returns (r: CInfo)
    requires t.Valid() && AllContained(t, starts) && t.Contains(o) && i < |starts| && IsIn(t, starts[i], o)
    ensures r in Records(PathsTo(t, starts), Chain(t, o)) && r.dir == starts[i].dir
  {
    var p, path := Chain(t, o), Path(t, starts[i]);
    RunsOnWay(t, starts[i], o);
    PassesIffRunsThrough(t, starts[i], p);
    PathIsListed(t, starts, i);
    ClimbKeepsDir(t, Start(t, starts[i]));
    r := path[|p| - 1];
  }

  lemma RecordHasDriver(t: Tables, starts: seq<CInfo>, o: Obj, r: CInfo) returns (i: nat)
    requires t.Valid() && AllContained(t, starts) && t.Contains(o) && r in Records(PathsTo(t, starts), Chain(t, o))
    ensures i < |starts| && IsIn(t, starts[i], o) && starts[i].dir == r.dir
  {
    var p := Chain(t, o);
    i := RecordOfStart(t, starts, p, r);
    ClimbKeepsDir(t, Start(t, starts[i]));
    PassesIffRunsThrough(t, starts[i], p);
    RunsOnWay(t, starts[i], o);
  }

  lemma DrivesIff(t: Tables, starts: seq<CInfo>, o: Obj, dir: Dir)
    requires t.Valid() && AllContained(t, starts) && t.Contains(o)
    ensures Drives(t, starts, o, dir) <==> exists r :: r in Records(PathsTo(t, starts), Chain(t, o)) && r.dir == dir
  {
    if Drives(t, starts, o, dir) {
      var i :| 0 <= i < |starts| && starts[i].dir == dir && IsIn(t, starts[i], o);
      var r := DriverHasRecord(t, starts, o, i);
    }
    if r :| r in Records(PathsTo(t, starts), Chain(t, o)) && r.dir == dir {
      var i := RecordHasDriver(t, starts, o, r);
    }
  }

  lemma JoinDirection(info: CInfo, records: set<CInfo>)
    requires IsJoin(info, records)
    ensures var bidir, up := (exists r :: r in records && r.dir == BIDIR), (exists r :: r in records && r.dir == UP);
      var down := exists r :: r in records && r.dir == DOWN;
      PortDirOf(info.dir) == if bidir || (up && down) then Bidir else if up then Out else In
  {
    var bidir, up := (exists r :: r in records && r.dir == BIDIR), (exists r :: r in records && r.dir == UP);
    var down := exists r :: r in records && r.dir == DOWN;
    if !bidir && !down { assert DirLe(info.dir, UP); }
    if !bidir && !up { assert DirLe(info.dir, DOWN); }
  }

  lemma NodeDir(t: Tables, starts: seq<CInfo>, signame: string, q: seq<Obj>, x: HNode)
    requires t.Valid() && AllContained(t, starts) && NamesAgree(starts)
    requires Merge(PathsTo(t, starts), signame).Some? && NodeAt(Merge(PathsTo(t, starts), signame).value, q, x)
    requires t.Contains(x.info.obj) && q == Chain(t, x.info.obj)
    ensures PortDirOf(x.info.dir) == DirOf(t, starts, x.info.obj)
  {
    ConsistentIff(t, starts);
    NodesAreJoins(PathsTo(t, starts), signame, q, x);
    JoinDirection(x.info, Records(PathsTo(t, starts), q));
    DrivesIff(t, starts, x.info.obj, BIDIR);
    DrivesIff(t, starts, x.info.obj, UP);
    DrivesIff(t, starts, x.info.obj, DOWN);
  }

  lemma InverterHasRecord(t: Tables, starts: seq<CInfo>, o: Obj, i: nat) returns (r: CInfo)
    requires t.Valid() && AllContained(t, starts) && t.Contains(o)
    requires i < |starts| && starts[i].invert && EndPoint(starts[i]) == Inside(o)
    ensures r in Records(PathsTo(t, starts), Chain(t, o)) && r.invert
  {
    var p, path := Chain(t, o), Path(t, starts[i]);
    EndIsOnPath(t, starts[i], o);
    MarkedAtEnd(t, starts[i], o);
    ClimbMarks(t, Start(t, starts[i]), |p| - 1);
    PathIsListed(t, starts, i);
    r := path[|p| - 1];
  }

  lemma InvertedHasStart(t: Tables, starts: seq<CInfo>, o: Obj, r: CInfo)
    requires t.Valid() && AllContained(t, starts) && t.Contains(o)
    requires r in Records(PathsTo(t, starts), Chain(t, o)) && r.invert
    ensures Inverts(starts, Inside(o))
  {
    var p := Chain(t, o);
    var i := RecordOfStart(t, starts, p, r);
    MarkedAtEnd(t, starts[i], o);
    ClimbMarks(t, Start(t, starts[i]), |p| - 1);
  }

  lemma InvertedRecord(t: Tables, starts: seq<CInfo>, o: Obj)
    requires t.Valid() && AllContained(t, starts) && t.Contains(o)
    ensures Inverts(starts, Inside(o)) <==> exists r :: r in Records(PathsTo(t, starts), Chain(t, o)) && r.invert
  {
    if Inverts(starts, Inside(o)) {
      var i :| 0 <= i < |starts| && starts[i].invert && EndPoint(starts[i]) == Inside(o);
      var r := InverterHasRecord(t, starts, o, i);
    }
    if r :| r in Records(PathsTo(t, starts), Chain(t, o)) && r.invert { InvertedHasStart(t, starts, o, r); }
  }

  lemma NodeInversion(t: Tables, starts: seq<CInfo>, signame: string, q: seq<Obj>, x: HNode)
    requires t.Valid() && AllContained(t, starts) && NamesAgree(starts)
    requires Merge(PathsTo(t, starts), signame).Some? && NodeAt(Merge(PathsTo(t, starts), signame).value, q, x)
    requires t.Contains(x.info.obj) && q == Chain(t, x.info.obj)
    ensures x.info.invert <==> Inverts(starts, Inside(x.info.obj))
  {
    ConsistentIff(t, starts);
    NodesAreJoins(PathsTo(t, starts), signame, q, x);
    InvertedRecord(t, starts, x.info.obj);
  }

  // ---------------------------------------------------------------------------
  // What a module or instance gets

  predicate IsKept(starts: seq<CInfo>, o: Obj) {
    var names := NamesFor(starts, Inside(o));
    names != [] && Deciding(names, o.Mod?).force
  }

  /** The name of a signal at an instance: as given if it is forced there, else with the suffix of its direction. */
  ghost function PinName(t: Tables, starts: seq<CInfo>, signame: string, inst: Obj): string
    requires t.Valid() && AllContained(t, starts) && t.Contains(inst) && !inst.Mod?
  {
    var base := BaseName(t, starts, signame, Inside(inst));
    if IsKept(starts, inst) then base else NamePinPort(base, DirOf(t, starts, inst))
  }

  /** The name of a signal inside a module: that of its declaration in the root, elsewhere that of the pin on the
      module's instance. */
  ghost function NameIn(t: Tables, starts: seq<CInfo>, signame: string, root: Name, m: Name): string
    requires t.Valid() && AllContained(t, starts) && t.Contains(Mod(m))
  {
    if m == root || !t.IsPlain(m) then
      var base := BaseName(t, starts, signame, Mod(m));
      if IsKept(starts, Mod(m)) then base else NameSignal(base)
    else PinName(t, starts, signame, Def(m))
  }

  /** The declaration in the root, the port of any other module, the pin of an instance. */
  ghost function SignalObject(t: Tables, starts: seq<CInfo>, signame: string, root: Name, o: Obj): GenObj
    requires t.Valid() && AllContained(t, starts) && t.Contains(o)
  {
    match o
    case Mod(m) =>
      if m == root then Decl(m, NameIn(t, starts, signame, root, m))
      else Port(m, DirOf(t, starts, o), NameIn(t, starts, signame, root, m))
    case _ =>
      var conn := match Surrounding(t, o) case Some(m) => NameIn(t, starts, signame, root, m) case None => "";
      Pin(o, PinName(t, starts, signame, o), conn, Inverts(starts, Inside(o)))
  }

  /** The parameter of a module, or the adjustment of an instance to the parameter of the module around it. */
  ghost function ParameterObject(t: Tables, starts: seq<CInfo>, parname: string, defvalue: string, o: Obj): GenObj
    requires t.Valid() && AllContained(t, starts) && t.Contains(o)
  {
    match o
    case Mod(m) => Param(m, BaseName(t, starts, parname, o), defvalue)
    case _ =>
      var value := match Surrounding(t, o) case Some(m) => BaseName(t, starts, parname, Mod(m)) case None => "";
      Adj(o, BaseName(t, starts, parname, Inside(o)), value)
  }

  ghost function ObjectFor(what: Creation, t: Tables, starts: seq<CInfo>, name: string, root: Name, o: Obj): GenObj
    requires t.Valid() && AllContained(t, starts) && t.Contains(o)
  {
    if what.Parameter? then ParameterObject(t, starts, name, what.defvalue, o)
    else SignalObject(t, starts, name, root, o)
  }

  /** The object lies at or below the root, on the way to some end point. */
  ghost predicate IsReached(t: Tables, starts: seq<CInfo>, root: Name, o: Obj)
    requires t.Valid() && AllContained(t, starts) && t.Contains(o)
  {
    OnWay(t, Mod(root), o) && exists i :: 0 <= i < |starts| && IsIn(t, starts[i], o)
  }

  /** Every module and instance between the root and the end points has its object, and there are no others. */
  ghost predicate IsExactly(what: Creation, t: Tables, starts: seq<CInfo>, name: string, root: Name, objs: set<GenObj>)
    requires t.Valid() && AllContained(t, starts)
  {
    && (forall o :: o in objs ==> IsObjectOf(what, t, starts, name, root, o))
    && (forall e :: t.Contains(e) && IsReached(t, starts, root, e)
          ==> ObjectFor(what, t, starts, name, root, e) in objs)
  }

  ghost predicate IsObjectOf(what: Creation, t: Tables, starts: seq<CInfo>, name: string, root: Name, o: GenObj)
    requires t.Valid() && AllContained(t, starts)
  {
    && t.Contains(o.Owner()) && IsReached(t, starts, root, o.Owner())
    && o == ObjectFor(what, t, starts, name, root, o.Owner())
  }

  /** All end points lie in the module, and in no other module that is not above it. */
  ghost predicate IsLowestAround(t: Tables, starts: seq<CInfo>, root: Name)
    requires t.Valid() && AllContained(t, starts)
  {
    && t.Contains(Mod(root)) && (forall i :: 0 <= i < |starts| ==> IsIn(t, starts[i], Mod(root)))
    && forall m :: (forall i :: 0 <= i < |starts| ==> IsIn(t, starts[i], Mod(m))) ==> OnWay(t, Mod(m), Mod(root))
  }

  // ---------------------------------------------------------------------------
  // The nodes of the tree and their objects

  /** The node has everything that its object is made of. */
  ghost predicate IsNodeFor(t: Tables, starts: seq<CInfo>, name: string, x: HNode)
    requires t.Valid() && AllContained(t, starts)
  {
    && t.Contains(x.info.obj)
    && x.info.localName == Some(BaseName(t, starts, name, Inside(x.info.obj)))
    && x.info.forceName == IsKept(starts, x.info.obj)
    && PortDirOf(x.info.dir) == DirOf(t, starts, x.info.obj)
    && (x.info.invert <==> Inverts(starts, Inside(x.info.obj)))
  }

  lemma NodeIsFor(t: Tables, starts: seq<CInfo>, name: string, p: seq<Obj>, x: HNode)
    requires t.Valid() && AllContained(t, starts) && AllExplicit(starts) && AreClear(starts)
    requires IsReducible(t, starts, name) && NodeAt(ReducedTree(t, starts, name).value, p, x)
    ensures IsNodeFor(t, starts, name, x)
  {
    var q := NodePlace(t, starts, name, p, x);
    ConsistentIff(t, starts);
    NodeBase(t, starts, name, q, x);
    MergedNodeIsNamed(t, starts, name, q, x);
    UnnamedIsFree(t, starts, name, q, x);
    NodeDir(t, starts, name, q, x);
    NodeInversion(t, starts, name, q, x);
  }

  /** What an object is called, for the objects below it. */
  ghost function Called(what: Creation, t: Tables, starts: seq<CInfo>, name: string, root: Name, o: Obj): string
    requires t.Valid() && AllContained(t, starts) && t.Contains(o)
  {
    if what.Parameter? then BaseName(t, starts, name, Inside(o))
    else if o.Mod? then NameIn(t, starts, name, root, o.name)
    else PinName(t, starts, name, o)
  }

  /** The name handed to a node: none to the root, to all others what the object above is called. */
  ghost predicate IsHanded(what: Creation, t: Tables, starts: seq<CInfo>, name: string, root: Name, o: Obj,
                           isRoot: bool, parentName: Option<string>)
    requires t.Valid() && AllContained(t, starts)
  {
    if isRoot then o == Mod(root)
    else
      && t.Contains(o) && o != Mod(root) && RightAbove(t, o).Some? && t.Contains(RightAbove(t, o).value)
      && parentName == Some(Called(what, t, starts, name, root, RightAbove(t, o).value))
  }

  /** A node's object and name are as the tables and start points say. */
  lemma OwnIsObject(what: Creation, t: Tables, starts: seq<CInfo>, name: string, root: Name, x: HNode, isRoot: bool,
                    parentName: Option<string>)
    requires t.Valid() && AllContained(t, starts) && IsNodeFor(t, starts, name, x)
    requires IsHanded(what, t, starts, name, root, x.info.obj, isRoot, parentName)
    ensures NodeName(what, x, isRoot, parentName) == Called(what, t, starts, name, root, x.info.obj)
    ensures Own(what, x, isRoot, parentName) == ObjectFor(what, t, starts, name, root, x.info.obj)
  {
  }

  lemma LinkIsAbove(t: Tables, a: Obj, o: Obj)
    requires t.Valid() && t.Contains(a) && Link(t, a, o)
    ensures t.Contains(o) && (o.Mod? ==> t.IsPlain(o.name)) && RightAbove(t, o) == Some(a)
  {
  }

  /** Every node below the root is handed the name of the object above it. */
  lemma ChildIsHanded(what: Creation, t: Tables, starts: seq<CInfo>, name: string, root: Name, p: seq<Obj>, n: HNode,
                      k: nat)
    requires t.Valid() && AllContained(t, starts) && AllExplicit(starts) && AreClear(starts)
    requires IsReducible(t, starts, name) && ReducedTree(t, starts, name).value.info.obj == Mod(root)
    requires NodeAt(ReducedTree(t, starts, name).value, p, n) && k < |n.children|
    ensures t.Contains(n.info.obj)
    ensures IsHanded(what, t, starts, name, root, n.children[k].info.obj, false,
                     Some(Called(what, t, starts, name, root, n.info.obj)))
    ensures NodeAt(ReducedTree(t, starts, name).value, p + [n.children[k].info.obj], n.children[k])
  {
    var r, c := ReducedTree(t, starts, name).value, n.children[k];
    NodeIsFor(t, starts, name, p, n);
    RootOfNet(t, starts, name);
    NodeIsOk(t, r, p, n);
    assert Step(t, n.info, c.info);
    ChildNodeAt(r, p, n, k);
    LinkIsAbove(t, n.info.obj, c.info.obj);
    if c.info.obj == Mod(root) {
      var q := NodePlace(t, starts, name, p + [c.info.obj], c);
      var s := NodePlace(t, starts, name, [r.info.obj], r);
    }
  }

  lemma {:induction false} SubtreeIsExact(what: Creation, t: Tables, starts: seq<CInfo>, name: string, root: Name,
                                          p: seq<Obj>, n: HNode, isRoot: bool, parentName: Option<string>, o: GenObj)
    requires t.Valid() && AllContained(t, starts) && AllExplicit(starts) && AreClear(starts)
    requires IsReducible(t, starts, name) && ReducedTree(t, starts, name).value.info.obj == Mod(root)
    requires NodeAt(ReducedTree(t, starts, name).value, p, n) && Named(n)
    requires IsHanded(what, t, starts, name, root, n.info.obj, isRoot, parentName)
    requires o in Emit(what, n, isRoot, parentName)
    ensures IsNodeObject(what, t, starts, name, root, o)
    decreases n, 1
  {
    NodeIsFor(t, starts, name, p, n);
    OwnIsObject(what, t, starts, name, root, n, isRoot, parentName);
    if o == Own(what, n, isRoot, parentName) {
      assert IsNodeOf(t, starts, name, n, n.info.obj) by { assert NodeAt(ReducedTree(t, starts, name).value, p, n); }
    } else {
      SubtreesAreExact(what, t, starts, name, root, p, n, 0, o);
    }
  }

  ghost predicate IsNodeOf(t: Tables, starts: seq<CInfo>, name: string, x: HNode, o: Obj)
    requires t.Valid() && AllContained(t, starts) && ReducedTree(t, starts, name).Some?
  {
    x.info.obj == o && exists p :: NodeAt(ReducedTree(t, starts, name).value, p, x)
  }

  /** The object is that of a node, and as the tables and start points say. */
  ghost predicate IsNodeObject(what: Creation, t: Tables, starts: seq<CInfo>, name: string, root: Name, o: GenObj)
    requires t.Valid() && AllContained(t, starts) && ReducedTree(t, starts, name).Some?
  {
    && t.Contains(o.Owner()) && o == ObjectFor(what, t, starts, name, root, o.Owner())
    && exists x :: IsNodeOf(t, starts, name, x, o.Owner())
  }

  lemma {:induction false} SubtreesAreExact(what: Creation, t: Tables, starts: seq<CInfo>, name: string, root: Name,
                                            p: seq<Obj>, n: HNode, k: nat, o: GenObj)
    requires t.Valid() && AllContained(t, starts) && AllExplicit(starts) && AreClear(starts)
    requires IsReducible(t, starts, name) && ReducedTree(t, starts, name).value.info.obj == Mod(root)
    requires NodeAt(ReducedTree(t, starts, name).value, p, n) && Named(n) && k <= |n.children| && t.Contains(n.info.obj)
    requires o in EmitAll(what, n.children[k..], Some(Called(what, t, starts, name, root, n.info.obj)))
    ensures IsNodeObject(what, t, starts, name, root, o)
    decreases n, 0, |n.children| - k
  {
    var called := Some(Called(what, t, starts, name, root, n.info.obj));
    var c := n.children[k];
    assert n.children[k..][1..] == n.children[k + 1..];
    ChildIsHanded(what, t, starts, name, root, p, n, k);
    if o in Emit(what, c, false, called) {
      SubtreeIsExact(what, t, starts, name, root, p + [c.info.obj], c, false, called, o);
    } else {
      SubtreesAreExact(what, t, starts, name, root, p, n, k + 1, o);
    }
  }

  lemma NodeIsReached(t: Tables, starts: seq<CInfo>, name: string, root: Name, p: seq<Obj>, x: HNode)
    requires t.Valid() && AllContained(t, starts) && IsReducible(t, starts, name)
    requires ReducedTree(t, starts, name).value.info.obj == Mod(root)
    requires NodeAt(ReducedTree(t, starts, name).value, p, x)
    ensures t.Contains(x.info.obj) && IsReached(t, starts, root, x.info.obj)
  {
    var h := PathsTo(t, starts);
    var q := NodePlace(t, starts, name, p, x);
    assert q[|q| - |p|] == Mod(root);
    OnWayIff(t, Mod(root), x.info.obj);
    assert InTree(Merge(h, name).value, q);
    TreeIsPrefixes(h, name, q);
    var path: seq<CInfo> :| path in h && Passes(path, q);
    var i := StartOfPath(t, starts, path);
    PassesIffRunsThrough(t, starts[i], q);
    RunsOnWay(t, starts[i], x.info.obj);
    assert IsIn(t, starts[i], x.info.obj);
  }

  /** What lies on the way to an object has a beginning of its chain as its own. */
  lemma WayIsPrefix(t: Tables, a: Obj, e: Obj)
    requires t.Valid() && t.Contains(e) && OnWay(t, a, e)
    ensures t.Contains(a) && Chain(t, a) <= Chain(t, e)
  {
    OnWayIff(t, a, e);
    var k :| 0 <= k < |Chain(t, e)| && Chain(t, e)[k] == a;
    ChainPrefix(t, e, k);
  }

  lemma RootChain(t: Tables, starts: seq<CInfo>, name: string, root: Name)
    requires t.Valid() && AllContained(t, starts) && IsReducible(t, starts, name)
    requires ReducedTree(t, starts, name).value.info.obj == Mod(root)
    ensures t.Contains(Mod(root)) && DescentPath(Merge(PathsTo(t, starts), name).value) == Chain(t, Mod(root))
    ensures NodeAt(ReducedTree(t, starts, name).value, [Mod(root)], ReducedTree(t, starts, name).value)
  {
    var n, r := Merge(PathsTo(t, starts), name).value, ReducedTree(t, starts, name).value;
    ReducedNodeAt(n);
    NodeObject(n, DescentPath(n), r);
    var q := NodePlace(t, starts, name, [Mod(root)], r);
  }

  lemma InIsPassed(t: Tables, start: CInfo, o: Obj)
    requires t.Valid() && t.Contains(start.obj) && t.Contains(o)
    ensures IsIn(t, start, o) <==> Passes(Path(t, start), Chain(t, o))
  {
    RunsOnWay(t, start, o);
    PassesIffRunsThrough(t, start, Chain(t, o));
  }

  lemma ReachedHasNode(t: Tables, starts: seq<CInfo>, name: string, root: Name, o: Obj) returns (p: seq<Obj>, y: HNode)
    requires t.Valid() && AllContained(t, starts) && IsReducible(t, starts, name)
    requires ReducedTree(t, starts, name).value.info.obj == Mod(root) && t.Contains(o) && IsReached(t, starts, root, o)
    ensures NodeAt(ReducedTree(t, starts, name).value, p, y) && y.info.obj == o
  {
    var h, n := PathsTo(t, starts), Merge(PathsTo(t, starts), name).value;
    RootChain(t, starts, name, root);
    WayIsPrefix(t, Mod(root), o);
    if o == Mod(root) {
      p, y := [Mod(root)], ReducedTree(t, starts, name).value;
    } else {
      var i :| 0 <= i < |starts| && IsIn(t, starts[i], o);
      InIsPassed(t, starts[i], o);
      PathIsListed(t, starts, i);
      TreeIsPrefixes(h, name, Chain(t, o));
      y :| NodeAt(n, Chain(t, o), y);
      NodeObject(n, Chain(t, o), y);
      LongerChain(t, Mod(root), o);
      NodesBelowStay(n, Chain(t, o), y);
      p := Chain(t, o)[|DescentPath(n)| - 1..];
    }
  }

  lemma LongerChain(t: Tables, a: Obj, o: Obj)
    requires t.Valid() && t.Contains(a) && t.Contains(o) && Chain(t, a) <= Chain(t, o) && a != o
    ensures |Chain(t, o)| > |Chain(t, a)|
  {
    assert Chain(t, o)[|Chain(t, a)| - 1] == a;
  }

  /** The module where the descent ends is the lowest around the end points. */
  lemma RootIsLowest(t: Tables, starts: seq<CInfo>, name: string, root: Name)
    requires t.Valid() && AllContained(t, starts) && AllExplicit(starts) && NamesAgree(starts)
    requires IsReducible(t, starts, name) && ReducedTree(t, starts, name).value.info.obj == Mod(root)
    ensures IsLowestAround(t, starts, root)
  {
    var h := PathsTo(t, starts);
    RootIsPlaced(t, starts, name);
    RootChain(t, starts, name, root);
    PlacedLowest(t, starts, Chain(t, Mod(root)));
    forall i | 0 <= i < |starts| ensures IsIn(t, starts[i], Mod(root)) {
      PathIsListed(t, starts, i);
      InIsPassed(t, starts[i], Mod(root));
    }
    forall m | forall i :: 0 <= i < |starts| ==> IsIn(t, starts[i], Mod(m)) ensures OnWay(t, Mod(m), Mod(root)) {
      AroundIsAbove(t, starts, root, m);
    }
  }

  lemma AroundIsAbove(t: Tables, starts: seq<CInfo>, root: Name, m: Name)
    requires t.Valid() && AllContained(t, starts) && starts != [] && t.Contains(Mod(root))
    requires IsLowestModule(PathsTo(t, starts), Chain(t, Mod(root)))
    requires forall i :: 0 <= i < |starts| ==> IsIn(t, starts[i], Mod(m))
    ensures OnWay(t, Mod(m), Mod(root))
  {
    WayIsPrefix(t, Mod(m), EndPoint(starts[0]));
    var q := Chain(t, Mod(m));
    if |q| > |Chain(t, Mod(root))| {
      var path: seq<CInfo> :| path in PathsTo(t, starts) && !Passes(path, q);
      var i := StartOfPath(t, starts, path);
      InIsPassed(t, starts[i], Mod(m));
    } else {
      PathIsListed(t, starts, 0);
      InIsPassed(t, starts[0], Mod(m));
      PassesObjs(Path(t, starts[0]), q);
      PassesObjs(Path(t, starts[0]), Chain(t, Mod(root)));
      assert Chain(t, Mod(root))[|q| - 1] == Mod(m);
      OnWayIff(t, Mod(m), Mod(root));
    }
  }

  lemma ObjectIsExact(what: Creation, t: Tables, starts: seq<CInfo>, name: string, root: Name, o: GenObj)
    requires t.Valid() && AllContained(t, starts) && AllExplicit(starts) && AreClear(starts)
    requires IsReducible(t, starts, name) && Named(ReducedTree(t, starts, name).value)
    requires ReducedTree(t, starts, name).value.info.obj == Mod(root)
    requires o in Emit(what, ReducedTree(t, starts, name).value, true, None)
    ensures IsObjectOf(what, t, starts, name, root, o)
  {
    var r := ReducedTree(t, starts, name).value;
    RootChain(t, starts, name, root);
    SubtreeIsExact(what, t, starts, name, root, [Mod(root)], r, true, None, o);
    var x :| IsNodeOf(t, starts, name, x, o.Owner());
    var p :| NodeAt(r, p, x);
    NodeIsReached(t, starts, name, root, p, x);
  }

  lemma ObjectIsThere(what: Creation, t: Tables, starts: seq<CInfo>, name: string, root: Name, e: Obj)
    requires t.Valid() && AllContained(t, starts) && AllExplicit(starts) && AreClear(starts)
    requires IsReducible(t, starts, name) && Named(ReducedTree(t, starts, name).value)
    requires ReducedTree(t, starts, name).value.info.obj == Mod(root) && t.Contains(e) && IsReached(t, starts, root, e)
    ensures ObjectFor(what, t, starts, name, root, e) in Emit(what, ReducedTree(t, starts, name).value, true, None)
  {
    var r := ReducedTree(t, starts, name).value;
    var p, y := ReachedHasNode(t, starts, name, root, e);
    var above := EveryNodeEmits(what, r, true, None, p, y);
    ObjectIsExact(what, t, starts, name, root, Own(what, y, |p| == 1, above));
  }

  /** What is created where start points are clear is exactly this: the root is the lowest module around the end
      points, and every module and instance between it and them has its object. */
  ghost predicate IsExact(what: Creation, t: Tables, starts: seq<CInfo>, name: string, objs: set<GenObj>)
    requires t.Valid() && AllContained(t, starts)
  {
    exists root: Name :: IsLowestAround(t, starts, root) && IsExactly(what, t, starts, name, root, objs)
  }

  lemma CreatedIsExact(what: Creation, t: Tables, starts: seq<CInfo>, name: string)
    requires t.Valid() && AllContained(t, starts) && AllExplicit(starts) && AreClear(starts)
    requires IsReducible(t, starts, name) && Named(ReducedTree(t, starts, name).value)
    ensures IsExact(what, t, starts, name, AsSet(Emit(what, ReducedTree(t, starts, name).value, true, None)))
  {
    var r := ReducedTree(t, starts, name).value;
    var root, objs := r.info.obj.name, AsSet(Emit(what, r, true, None));
    RootIsLowest(t, starts, name, root);
    forall o | o in objs ensures IsObjectOf(what, t, starts, name, root, o) {
      ObjectIsExact(what, t, starts, name, root, o);
    }
    forall e | t.Contains(e) && IsReached(t, starts, root, e)
      ensures ObjectFor(what, t, starts, name, root, e) in objs
    {
      ObjectIsThere(what, t, starts, name, root, e);
    }
    assert IsExactly(what, t, starts, name, root, objs);
  }
}
