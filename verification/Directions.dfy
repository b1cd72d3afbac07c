/** Port directions of a signal with one source: out of a module only when the source is inside, and out of every
    such module through some port; exactly so when end points are not given several names. */
module Directions {
  import opened Wrappers
  import opened ConnectionInfo
  import opened HierarchyDb
  import opened MergeTree
  import opened MergeProperties
  import opened MergeAttributes
  import opened MergeNodes
  import opened TreeShape
  import opened Reduce
  import opened Generation
  import opened Connections
  import opened Chains
  import opened Names

  /** Every record of a path has the direction of its start point. */
  lemma {:induction false} ClimbKeepsDir(t: Tables, c: Climber)
    requires t.Valid() && t.Contains(c.cinfo.obj)
    ensures forall k :: 0 <= k < |Climb(t, c)| ==> Climb(t, c)[k].dir == c.cinfo.dir
    decreases t.Depth(c.cinfo.obj)
  {
    if Above(t, c).Some? {
      AboveIsCloser(t, c);
      ClimbKeepsDir(t, Above(t, c).value);
    }
  }

  /** Only the first start point drives. */
  ghost predicate OneSource(starts: seq<CInfo>) {
    && starts != [] && starts[0].dir == UP
    && forall i :: 0 < i < |starts| ==> starts[i].dir == DEFAULT
  }

  lemma RecordsAreUpOrDefault(t: Tables, starts: seq<CInfo>, p: seq<Obj>, r: CInfo)
    requires t.Valid() && AllContained(t, starts) && OneSource(starts) && p != []
    requires r in Records(PathsTo(t, starts), p)
    ensures r.dir == UP || r.dir == DEFAULT
    ensures r.dir == UP ==> Passes(Path(t, starts[0]), p)
  {
    var i := RecordOfStart(t, starts, p, r);
    ClimbKeepsDir(t, Start(t, starts[i]));
  }

  lemma SourceRecordIsUp(t: Tables, starts: seq<CInfo>, p: seq<Obj>)
    requires t.Valid() && AllContained(t, starts) && OneSource(starts) && p != []
    requires Passes(Path(t, starts[0]), p)
    ensures exists r :: r in Records(PathsTo(t, starts), p) && r.dir == UP
  {
    var path := Path(t, starts[0]);
    PathIsListed(t, starts, 0);
    ClimbKeepsDir(t, Start(t, starts[0]));
    assert path[|p| - 1] in Records(PathsTo(t, starts), p) && path[|p| - 1].dir == UP;
  }

  lemma RecordsOfOneSource(t: Tables, starts: seq<CInfo>, p: seq<Obj>)
    requires t.Valid() && AllContained(t, starts) && OneSource(starts) && p != []
    ensures forall r :: r in Records(PathsTo(t, starts), p) ==> r.dir == UP || r.dir == DEFAULT
    ensures (exists r :: r in Records(PathsTo(t, starts), p) && r.dir == UP) <==> Passes(Path(t, starts[0]), p)
  {
    forall r | r in Records(PathsTo(t, starts), p)
      ensures (r.dir == UP || r.dir == DEFAULT) && (r.dir == UP ==> Passes(Path(t, starts[0]), p))
    {
      RecordsAreUpOrDefault(t, starts, p, r);
    }
    if Passes(Path(t, starts[0]), p) { SourceRecordIsUp(t, starts, p); }
  }

  lemma JoinOfUps(info: CInfo, records: set<CInfo>)
    requires IsJoin(info, records) && forall r :: r in records ==> r.dir == UP || r.dir == DEFAULT
    ensures info.dir == UP <==> exists r :: r in records && r.dir == UP
    ensures info.dir == UP || info.dir == DEFAULT
  {
    assert DirLe(info.dir, UP);
    if forall r :: r in records ==> r.dir == DEFAULT { assert DirLe(info.dir, DEFAULT); }
  }

  /** A node drives upwards exactly when the source's path runs through it. */
  lemma UpExactlyAboveSource(t: Tables, starts: seq<CInfo>, signame: string, p: seq<Obj>, x: HNode)
    requires t.Valid() && AllContained(t, starts) && OneSource(starts)
    requires Consistent(PathsTo(t, starts)) && Merge(PathsTo(t, starts), signame).Some?
    requires NodeAt(Merge(PathsTo(t, starts), signame).value, p, x)
    ensures x.info.dir == UP <==> Passes(Path(t, starts[0]), p)
    ensures PortDirOf(x.info.dir) == if Passes(Path(t, starts[0]), p) then Out else In
  {
    NodesAreJoins(PathsTo(t, starts), signame, p, x);
    RecordsOfOneSource(t, starts, p);
    JoinOfUps(x.info, Records(PathsTo(t, starts), p));
  }

  // ---------------------------------------------------------------------------
  // The created objects

  /** Out of what the source's path runs through, in everywhere else. */
  ghost function DirAt(path: seq<CInfo>, o: Obj): PortDir {
    if RunsThrough(path, o) then Out else In
  }

  /** Ports lead out of exactly the modules that the source's path runs through; the pin on a module's
      instance is that port's, and a pin name that is not forced ends in the suffix of the direction. */
  ghost predicate FollowsSource(path: seq<CInfo>, starts: seq<CInfo>, objs: set<GenObj>) {
    && (forall m, dir, name :: Port(m, dir, name) in objs ==> dir == DirAt(path, Mod(m)))
    && (forall m, name, conn, inv :: Pin(Def(m), name, conn, inv) in objs ==>
      Port(m, DirAt(path, Mod(m)), name) in objs)
    && (forall o :: o in objs && o.Pin? && !IsVerbatim(starts, o) ==> HasSuffix(o.name, DirAt(path, Inside(o.inst))))
  }

  ghost predicate HasSuffix(name: string, dir: PortDir) {
    exists base: string :: name == NamePinPort(base, dir)
  }

  /** The direction of a node of the reduced tree. */
  lemma NodeDirection(t: Tables, starts: seq<CInfo>, signame: string, p: seq<Obj>, x: HNode)
    requires t.Valid() && AllContained(t, starts) && AllExplicit(starts) && OneSource(starts) && NamesAgree(starts)
    requires IsReducible(t, starts, signame)
    requires NodeAt(ReducedTree(t, starts, signame).value, p, x)
    ensures PortDirOf(x.info.dir) == DirAt(Path(t, starts[0]), x.info.obj) && t.Contains(x.info.obj)
  {
    var q := NodePlace(t, starts, signame, p, x);
    ConsistentIff(t, starts);
    UpExactlyAboveSource(t, starts, signame, q, x);
    PassesIffRunsThrough(t, starts[0], q);
  }

  lemma {:induction false} NodeIsOk(t: Tables, n: HNode, p: seq<Obj>, x: HNode)
    requires TreeOk(t, n) && NodeAt(n, p, x)
    ensures TreeOk(t, x)
    decreases |p|
  {
    if |p| > 1 {
      var k :| 0 <= k < |n.children| && NodeAt(n.children[k], p[1..], x);
      NodeIsOk(t, n.children[k], p[1..], x);
    }
  }

  lemma PortFollows(t: Tables, starts: seq<CInfo>, signame: string, m: Name, dir: PortDir, name: string)
    requires t.Valid() && AllContained(t, starts) && AllExplicit(starts) && OneSource(starts) && NamesAgree(starts)
    requires IsReducible(t, starts, signame) && Named(ReducedTree(t, starts, signame).value)
    requires Port(m, dir, name) in Emit(Signal, ReducedTree(t, starts, signame).value, true, None)
    ensures dir == DirAt(Path(t, starts[0]), Mod(m))
  {
    var p, x, top, above :=
      EmittedByNode(Signal, ReducedTree(t, starts, signame).value, true, None, Port(m, dir, name));
    NodeDirection(t, starts, signame, p, x);
  }

  /** The module beneath an instance has a port of the pin's name. */
  lemma PinHasPort(t: Tables, starts: seq<CInfo>, signame: string, m: Name, pin: GenObj)
    requires t.Valid() && AllContained(t, starts) && AllExplicit(starts) && OneSource(starts) && NamesAgree(starts)
    requires IsReducible(t, starts, signame) && Named(ReducedTree(t, starts, signame).value)
    requires pin.Pin? && pin.inst == Def(m) && pin in Emit(Signal, ReducedTree(t, starts, signame).value, true, None)
    ensures Port(m, DirAt(Path(t, starts[0]), Mod(m)), pin.name)
            in Emit(Signal, ReducedTree(t, starts, signame).value, true, None)
  {
    var r := ReducedTree(t, starts, signame).value;
    var p, x, top, above := EmittedByNode(Signal, r, true, None, pin);
    RootOfNet(t, starts, signame);
    NodeIsOk(t, r, p, x);
    InstanceHasModule(t, x);
    var y := x.children[0];
    assert TreeOk(t, y);
    ChildNodeAt(r, p, x, 0);
    NodeDirection(t, starts, signame, p + [Mod(m)], y);
    assert Own(Signal, y, false, Some(NodeName(Signal, x, top, above))) == Port(m, PortDirOf(y.info.dir), pin.name);
  }

  lemma PinHasSuffix(t: Tables, starts: seq<CInfo>, signame: string, pin: GenObj)
    requires t.Valid() && AllContained(t, starts) && AllExplicit(starts) && OneSource(starts) && NamesAgree(starts)
    requires IsReducible(t, starts, signame) && Named(ReducedTree(t, starts, signame).value)
    requires pin.Pin? && pin in Emit(Signal, ReducedTree(t, starts, signame).value, true, None)
    ensures !IsVerbatim(starts, pin) ==> HasSuffix(pin.name, DirAt(Path(t, starts[0]), Inside(pin.inst)))
  {
    var p, x, top, above := EmittedByNode(Signal, ReducedTree(t, starts, signame).value, true, None, pin);
    NodeDirection(t, starts, signame, p, x);
    OwnIsNamed(t, starts, signame, p, x, top, above);
    if pin.inst.Def? { InstanceAndModule(t, starts[0], pin.inst.name); }
    if !IsVerbatim(starts, pin) { assert pin.name == NamePinPort(x.info.localName.value, PortDirOf(x.info.dir)); }
  }

  /** The created objects of a signal with one source follow it. */
  lemma DirectedSignal(t: Tables, starts: seq<CInfo>, signame: string)
    requires t.Valid() && AllContained(t, starts) && AllExplicit(starts) && OneSource(starts)
    ensures NamesAgree(starts) && IsReducible(t, starts, signame) ==>
      var r := ReducedTree(t, starts, signame).value;
      Named(r) && FollowsSource(Path(t, starts[0]), starts, AsSet(Emit(Signal, r, true, None)))
  {
    if NamesAgree(starts) && IsReducible(t, starts, signame) {
      RootOfNet(t, starts, signame);
      ObjectsFollow(t, starts, signame);
    }
  }

  lemma ObjectsFollow(t: Tables, starts: seq<CInfo>, signame: string)
    requires t.Valid() && AllContained(t, starts) && AllExplicit(starts) && OneSource(starts) && NamesAgree(starts)
    requires IsReducible(t, starts, signame) && Named(ReducedTree(t, starts, signame).value)
    ensures FollowsSource(Path(t, starts[0]), starts,
      AsSet(Emit(Signal, ReducedTree(t, starts, signame).value, true, None)))
  {
    var path, objs := Path(t, starts[0]), AsSet(Emit(Signal, ReducedTree(t, starts, signame).value, true, None));
    forall m, dir, name | Port(m, dir, name) in objs ensures dir == DirAt(path, Mod(m)) {
      PortFollows(t, starts, signame, m, dir, name);
    }
    forall m, name, conn, inv | Pin(Def(m), name, conn, inv) in objs
      ensures Port(m, DirAt(path, Mod(m)), name) in objs
    {
      PinHasPort(t, starts, signame, m, Pin(Def(m), name, conn, inv));
    }
    forall o | o in objs && o.Pin? && !IsVerbatim(starts, o) ensures HasSuffix(o.name, DirAt(path, Inside(o.inst))) {
      PinHasSuffix(t, starts, signame, o);
    }
  }

  // ---------------------------------------------------------------------------
  // Whatever the names

  /** Out only of what the source's path runs through. */
  ghost predicate MayLead(path: seq<CInfo>, o: Obj, dir: PortDir) {
    dir == In || (dir == Out && RunsThrough(path, o))
  }

  /** Some port leads out of the module. */
  ghost predicate HasOutlet(objs: set<GenObj>, m: Name) {
    exists name :: Port(m, Out, name) in objs
  }

  /** A pin on a module's instance is a port of the module; a pin name that is not forced ends in the suffix of
      its direction. */
  ghost predicate IsPinLed(path: seq<CInfo>, starts: seq<CInfo>, objs: set<GenObj>, pin: GenObj)
    requires pin.Pin?
  {
    exists dir ::
      && MayLead(path, Inside(pin.inst), dir)
      && (pin.inst.Def? ==> Port(pin.inst.name, dir, pin.name) in objs)
      && (!IsForced(starts, pin) ==> HasSuffix(pin.name, dir))
  }

  ghost predicate LeadsFromSource(path: seq<CInfo>, starts: seq<CInfo>, objs: set<GenObj>) {
    && (forall m, dir, name :: Port(m, dir, name) in objs ==>
          MayLead(path, Mod(m), dir) && (RunsThrough(path, Mod(m)) ==> HasOutlet(objs, m)))
    && (forall o :: o in objs && o.Pin? ==> IsPinLed(path, starts, objs, o))
  }

  lemma PathsAreThrough(t: Tables, starts: seq<CInfo>)
    requires t.Valid() && AllContained(t, starts) && OneSource(starts)
    ensures UpOnly(PathsTo(t, starts)) && AllThrough(PathsTo(t, starts))
  {
    forall path: seq<CInfo> | path in PathsTo(t, starts)
      ensures IsThrough(path) && forall k :: 0 <= k < |path| ==> IsUpOrDefault(path[k].dir)
    {
      var i := StartOfPath(t, starts, path);
      ClimbKeepsDir(t, Start(t, starts[i]));
      PathEnd(t, starts[i]);
    }
  }

  lemma NodeMayLead(t: Tables, starts: seq<CInfo>, signame: string, p: seq<Obj>, x: HNode)
    requires t.Valid() && AllContained(t, starts) && AllExplicit(starts) && OneSource(starts)
    requires IsReducible(t, starts, signame) && NodeAt(ReducedTree(t, starts, signame).value, p, x)
    ensures IsUpOrDefault(x.info.dir) && MayLead(Path(t, starts[0]), x.info.obj, PortDirOf(x.info.dir)) && PassesOn(x)
    ensures t.Contains(x.info.obj)
  {
    var q := NodePlace(t, starts, signame, p, x);
    NodeFlags(PathsTo(t, starts), signame, q, x);
    RecordsOfOneSource(t, starts, q);
    PassesIffRunsThrough(t, starts[0], q);
    PathsAreThrough(t, starts);
    NodePassesOn(PathsTo(t, starts), signame, q, x);
  }

  /** The source's path leads out of every module with a port that it runs through. */
  lemma PortLeads(t: Tables, starts: seq<CInfo>, signame: string, port: GenObj)
    requires t.Valid() && AllContained(t, starts) && AllExplicit(starts) && OneSource(starts)
    requires IsReducible(t, starts, signame) && Named(ReducedTree(t, starts, signame).value)
    requires port.Port? && port in Emit(Signal, ReducedTree(t, starts, signame).value, true, None)
    ensures MayLead(Path(t, starts[0]), Mod(port.mod), port.dir)
    ensures RunsThrough(Path(t, starts[0]), Mod(port.mod)) ==>
      HasOutlet(AsSet(Emit(Signal, ReducedTree(t, starts, signame).value, true, None)), port.mod)
  {
    var p, x, top, above := EmittedByNode(Signal, ReducedTree(t, starts, signame).value, true, None, port);
    NodeMayLead(t, starts, signame, p, x);
    if RunsThrough(Path(t, starts[0]), Mod(port.mod)) {
      var q := NodePlace(t, starts, signame, p, x);
      PassesIffRunsThrough(t, starts[0], q);
      var y := SourceNode(t, starts, signame, q);
      var r := q[|DescentPath(Merge(PathsTo(t, starts), signame).value)| - 1..];
      var name := EveryNodeEmits(Signal, ReducedTree(t, starts, signame).value, true, None, r, y);
      var outlet := Own(Signal, y, false, name);
      assert outlet == Port(port.mod, Out, outlet.name);
    }
  }

  /** The node below the reduced root that the source's path leads through. */
  lemma SourceNode(t: Tables, starts: seq<CInfo>, signame: string, q: seq<Obj>) returns (y: HNode)
    requires t.Valid() && AllContained(t, starts) && OneSource(starts) && IsReducible(t, starts, signame)
    requires |q| > |DescentPath(Merge(PathsTo(t, starts), signame).value)| && Passes(Path(t, starts[0]), q)
    ensures var n := Merge(PathsTo(t, starts), signame).value;
      && DescentPath(n) != []
      && NodeAt(ReducedTree(t, starts, signame).value, q[|DescentPath(n)| - 1..], y)
    ensures y.info.obj == q[|q| - 1] && y.info.dir == UP
  {
    PathIsListed(t, starts, 0);
    PathsAreThrough(t, starts);
    ClimbKeepsDir(t, Start(t, starts[0]));
    y := NodeOnPath(PathsTo(t, starts), signame, Path(t, starts[0]), q, true);
    NodesBelowStay(Merge(PathsTo(t, starts), signame).value, q, y);
  }

  /** The module beneath an instance has a port of the pin's name and direction. */
  lemma PinLeads(t: Tables, starts: seq<CInfo>, signame: string, pin: GenObj)
    requires t.Valid() && AllContained(t, starts) && AllExplicit(starts) && OneSource(starts)
    requires IsReducible(t, starts, signame) && Named(ReducedTree(t, starts, signame).value)
    requires pin.Pin? && pin in Emit(Signal, ReducedTree(t, starts, signame).value, true, None)
    ensures IsPinLed(Path(t, starts[0]), starts,
      AsSet(Emit(Signal, ReducedTree(t, starts, signame).value, true, None)), pin)
  {
    var objs := Emit(Signal, ReducedTree(t, starts, signame).value, true, None);
    var p, x, top, above := EmittedByNode(Signal, ReducedTree(t, starts, signame).value, true, None, pin);
    var dir := PortDirOf(x.info.dir);
    NodeMayLead(t, starts, signame, p, x);
    PinSuffix(t, starts, signame, p, x, top, above);
    if pin.inst.Def? {
      InstanceAndModule(t, starts[0], pin.inst.name);
      InstanceLeads(t, starts, signame, p, x, top, above);
    }
    AssemblePin(Path(t, starts[0]), starts, AsSet(objs), pin, dir);
  }

  lemma AssemblePin(path: seq<CInfo>, starts: seq<CInfo>, objs: set<GenObj>, pin: GenObj, dir: PortDir)
    requires pin.Pin? && MayLead(path, Inside(pin.inst), dir)
    requires pin.inst.Def? ==> Port(pin.inst.name, dir, pin.name) in objs
    requires !IsForced(starts, pin) ==> HasSuffix(pin.name, dir)
    ensures IsPinLed(path, starts, objs, pin)
  {
  }

  lemma PinSuffix(t: Tables, starts: seq<CInfo>, signame: string, p: seq<Obj>, x: HNode, top: bool,
                  above: Option<string>)
    requires t.Valid() && AllContained(t, starts) && AllExplicit(starts) && IsReducible(t, starts, signame)
    requires NodeAt(ReducedTree(t, starts, signame).value, p, x) && x.info.localName.Some? && !x.info.obj.Mod?
    ensures var pin := Own(Signal, x, top, above);
      !IsForced(starts, pin) ==> HasSuffix(pin.name, PortDirOf(x.info.dir))
  {
    OwnIsNamed(t, starts, signame, p, x, top, above);
    if !x.info.forceName {
      assert Own(Signal, x, top, above).name == NamePinPort(x.info.localName.value, PortDirOf(x.info.dir));
    }
  }

  lemma InstanceLeads(t: Tables, starts: seq<CInfo>, signame: string, p: seq<Obj>, x: HNode, top: bool,
                      above: Option<string>)
    requires t.Valid() && AllContained(t, starts) && AllExplicit(starts) && OneSource(starts)
    requires IsReducible(t, starts, signame) && Named(ReducedTree(t, starts, signame).value) && x.info.obj.Def?
    requires var r := ReducedTree(t, starts, signame).value;
      x.info.localName.Some? && IsOwnOf(Signal, r, true, None, Own(Signal, x, top, above), p, x, top, above)
    ensures Port(x.info.obj.name, PortDirOf(x.info.dir), NodeName(Signal, x, top, above))
            in Emit(Signal, ReducedTree(t, starts, signame).value, true, None)
  {
    var r, name := ReducedTree(t, starts, signame).value, NodeName(Signal, x, top, above);
    RootOfNet(t, starts, signame);
    NodeIsOk(t, r, p, x);
    InstanceHasModule(t, x);
    NodeMayLead(t, starts, signame, p, x);
    var k: nat := 0;
    if x.info.dir == UP { k :| k < |x.children| && x.children[k].info.dir == UP; }
    ChildNodeAt(r, p, x, k);
    NodeMayLead(t, starts, signame, p + [x.children[k].info.obj], x.children[k]);
    assert Own(Signal, x.children[k], false, Some(name)) == Port(x.info.obj.name, PortDirOf(x.info.dir), name);
  }

  /** Every signal with one source leads away from it. */
  lemma SignalLeads(t: Tables, starts: seq<CInfo>, signame: string)
    requires t.Valid() && AllContained(t, starts) && AllExplicit(starts) && OneSource(starts)
    ensures IsReducible(t, starts, signame) ==>
      var r := ReducedTree(t, starts, signame).value;
      Named(r) && LeadsFromSource(Path(t, starts[0]), starts, AsSet(Emit(Signal, r, true, None)))
  {
    if IsReducible(t, starts, signame) {
      RootOfNet(t, starts, signame);
      ObjectsLead(t, starts, signame);
    }
  }

  lemma ObjectsLead(t: Tables, starts: seq<CInfo>, signame: string)
    requires t.Valid() && AllContained(t, starts) && AllExplicit(starts) && OneSource(starts)
    requires IsReducible(t, starts, signame) && Named(ReducedTree(t, starts, signame).value)
    ensures LeadsFromSource(Path(t, starts[0]), starts,
      AsSet(Emit(Signal, ReducedTree(t, starts, signame).value, true, None)))
  {
    var path, objs := Path(t, starts[0]), AsSet(Emit(Signal, ReducedTree(t, starts, signame).value, true, None));
    forall m, dir, name | Port(m, dir, name) in objs
      ensures MayLead(path, Mod(m), dir) && (RunsThrough(path, Mod(m)) ==> HasOutlet(objs, m))
    {
      PortLeads(t, starts, signame, Port(m, dir, name));
    }
    forall o | o in objs && o.Pin? ensures IsPinLed(path, starts, objs, o) { PinLeads(t, starts, signame, o); }
  }
}
