/** The names of a signal's objects: those the start points give, kept as they are when forced and else
    marked with the suffix of the object's kind. */
module Names {
  import opened Wrappers
  import opened Sequences
  import opened ConnectionInfo
  import opened HierarchyDb
  import opened MergeTree
  import opened MergeProperties
  import opened MergeAttributes
  import opened MergeNodes
  import opened Labels
  import opened Generation
  import opened SignalNet
  import opened Connections
  import opened Chains

  /** Some start point insists on the name of its object. */
  ghost predicate ForcedAt(starts: seq<CInfo>, o: Obj) {
    exists i :: 0 <= i < |starts| && starts[i].forceName && EndPoint(starts[i]) == Inside(o)
  }

  /** The names that the start points at an end point give, in their order. */
  function NamesFor(starts: seq<CInfo>, end: Obj): seq<Label> {
    if starts == [] then [] else
      var n := |starts| - 1;
      NamesFor(starts[..n], end) + if EndPoint(starts[n]) == end then LabelOf(starts[n]) else []
  }

  // ---------------------------------------------------------------------------
  // The records of a path

  /** The k-th record of a climb carries the name and the flag of its start. */
  ghost predicate IsMarked(c: Climber, path: seq<CInfo>, k: nat) {
    k == |path| - 1 || (c.copyFirst && k == |path| - 2)
  }

  lemma {:induction false} ClimbMarks(t: Tables, c: Climber, k: nat)
    requires t.Valid() && t.Contains(c.cinfo.obj) && k < |Climb(t, c)| && (c.copyFirst ==> c.cinfo.obj.Mod?)
    ensures var r := Climb(t, c)[k];
      if IsMarked(c, Climb(t, c), k)
      then r.localName == c.cinfo.localName && r.forceName == c.cinfo.forceName && r.invert == c.cinfo.invert
      else r.localName == None && !r.forceName && !r.invert
    decreases t.Depth(c.cinfo.obj)
  {
    if Above(t, c).Some? {
      var a := Above(t, c).value;
      AboveIsCloser(t, c);
      if k < |Climb(t, c)| - 1 { ClimbMarks(t, a, k); }
    }
  }

  /** A plain module is below its instance, and the object of a path's end is its end point. */
  lemma ChainOfModule(t: Tables, m: Name)
    requires t.Valid() && t.IsPlain(m)
    ensures Chain(t, Mod(m)) == Chain(t, Def(m)) + [Mod(m)]
  {
  }

  lemma PathIsChain(t: Tables, start: CInfo)
    requires t.Valid() && t.Contains(start.obj)
    ensures t.Contains(EndPoint(start)) && Objs(Path(t, start)) == Chain(t, EndPoint(start))
    ensures Start(t, start).copyFirst <==> EndPoint(start).Mod? && t.IsPlain(EndPoint(start).name)
  {
    ClimbIsChain(t, Start(t, start));
  }

  /** What ends at an object or at its module runs through it; what runs through it ends there exactly if it
      is the last object, or the instance of the last. */
  lemma EndsIn(t: Tables, o: Obj, end: Obj)
    requires t.Valid() && t.Contains(o) && t.Contains(end) && !end.Def?
    ensures Inside(o) == end ==> Chain(t, o) <= Chain(t, end)
    ensures Chain(t, o) <= Chain(t, end) ==>
      (Inside(o) == end <==>
        || |Chain(t, o)| == |Chain(t, end)|
        || (end.Mod? && t.IsPlain(end.name) && |Chain(t, o)| == |Chain(t, end)| - 1))
  {
    var p, q := Chain(t, o), Chain(t, end);
    if p <= q { assert q[|p| - 1] == o; }
    if end.Mod? && t.IsPlain(end.name) {
      ChainOfModule(t, end.name);
      assert q[|q| - 2] == Def(end.name);
    }
  }

  /** On the path to a start point exactly the objects of its end point are marked. */
  lemma MarkedAtEnd(t: Tables, start: CInfo, o: Obj)
    requires t.Valid() && t.Contains(start.obj) && t.Contains(o) && Passes(Path(t, start), Chain(t, o))
    ensures IsMarked(Start(t, start), Path(t, start), |Chain(t, o)| - 1) <==> EndPoint(start) == Inside(o)
  {
    PathIsChain(t, start);
    PassesObjs(Path(t, start), Chain(t, o));
    EndsIn(t, o, EndPoint(start));
  }

  lemma EndIsOnPath(t: Tables, start: CInfo, o: Obj)
    requires t.Valid() && t.Contains(start.obj) && t.Contains(o) && EndPoint(start) == Inside(o)
    ensures Passes(Path(t, start), Chain(t, o))
  {
    PathIsChain(t, start);
    PassesObjs(Path(t, start), Chain(t, o));
    EndsIn(t, o, EndPoint(start));
  }

  lemma LabelOfStart(t: Tables, start: CInfo, o: Obj)
    requires t.Valid() && t.Contains(start.obj) && t.Contains(o)
    ensures LabelAt(Path(t, start), Chain(t, o)) == if EndPoint(start) == Inside(o) then LabelOf(start) else []
  {
    if EndPoint(start) == Inside(o) { EndIsOnPath(t, start, o); }
    if Passes(Path(t, start), Chain(t, o)) {
      MarkedAtEnd(t, start, o);
      ClimbMarks(t, Start(t, start), |Chain(t, o)| - 1);
    }
  }

  /** The labels met on the paths are the names given, the last start point's first. */
  lemma {:induction false} LabelsOfStarts(t: Tables, starts: seq<CInfo>, o: Obj)
    requires t.Valid() && AllContained(t, starts) && t.Contains(o)
    ensures LabelsAt(PathsTo(t, starts), Chain(t, o)) == Reversed(NamesFor(starts, Inside(o)))
  {
    if starts != [] {
      var n, p := |starts| - 1, Chain(t, o);
      LabelsOfStarts(t, starts[..n], o);
      LabelOfStart(t, starts[n], o);
      LabelsConcat([Path(t, starts[n])], PathsTo(t, starts[..n]), p);
      LabelsOfOne(Path(t, starts[n]), p);
      ReversedConcat(NamesFor(starts[..n], Inside(o)), LabelAt(Path(t, starts[n]), p));
    }
  }

  /** Modules sit at even places of their chains, instances at odd ones. */
  lemma {:induction false} ChainParity(t: Tables, o: Obj)
    requires t.Valid() && t.Contains(o)
    ensures |Chain(t, o)| % 2 == 0 <==> o.Mod? && t.IsPlain(o.name)
    decreases t.Depth(o)
  {
    var c := Climber(NewInfo(o, None, DEFAULT), false, false);
    if Above(t, c).Some? {
      AboveIsCloser(t, c);
      ChainParity(t, Above(t, c).value.cinfo.obj);
    }
  }

  /** Among the names given for a node's end point, instances take the first and modules the last. */
  function Deciding(names: seq<Label>, isModule: bool): Label
    requires names != []
  {
    if isModule then names[|names| - 1] else names[0]
  }

  lemma ForcedRecord(t: Tables, starts: seq<CInfo>, o: Obj, r: CInfo)
    requires t.Valid() && AllContained(t, starts) && t.Contains(o) && r in Records(PathsTo(t, starts), Chain(t, o))
    ensures r.forceName ==> ForcedAt(starts, o)
  {
    var i := RecordOfStart(t, starts, Chain(t, o), r);
    MarkedAtEnd(t, starts[i], o);
    ClimbMarks(t, Start(t, starts[i]), |Chain(t, o)| - 1);
  }

  lemma NodeForce(t: Tables, starts: seq<CInfo>, signame: string, p: seq<Obj>, x: HNode)
    requires t.Valid() && AllContained(t, starts) && IsReducible(t, starts, signame)
    requires NodeAt(ReducedTree(t, starts, signame).value, p, x)
    ensures x.info.forceName ==> ForcedAt(starts, x.info.obj)
  {
    var q := NodePlace(t, starts, signame, p, x);
    NodeFlags(PathsTo(t, starts), signame, q, x);
    if x.info.forceName {
      var r :| r in Records(PathsTo(t, starts), q) && r.forceName;
      ForcedRecord(t, starts, x.info.obj, r);
    }
  }

  lemma DecidingWins(info: CInfo, names: seq<Label>, depth: nat, isModule: bool)
    requires TakesWinner(info, Reversed(names), depth) && (depth % 2 == 0 <==> isModule)
    ensures names != [] ==> LabelOf(info) == [Deciding(names, isModule)]
  {
    if names != [] { ReversedEnds(names); }
  }

  lemma ModuleIsEven(t: Tables, starts: seq<CInfo>, signame: string, q: seq<Obj>, x: HNode)
    requires t.Valid() && AllContained(t, starts) && AllExplicit(starts) && IsReducible(t, starts, signame)
    requires NodeAt(Merge(PathsTo(t, starts), signame).value, q, x)
    requires t.Contains(x.info.obj) && q == Chain(t, x.info.obj)
    ensures |q| % 2 == 0 <==> x.info.obj.Mod?
  {
    RootOfNet(t, starts, signame);
    ChainParity(t, x.info.obj);
  }

  /** The same for nodes of the merged tree. */
  lemma MergedNodeIsNamed(t: Tables, starts: seq<CInfo>, signame: string, q: seq<Obj>, x: HNode)
    requires t.Valid() && AllContained(t, starts) && AllExplicit(starts) && IsReducible(t, starts, signame)
    requires Consistent(PathsTo(t, starts)) && NodeAt(Merge(PathsTo(t, starts), signame).value, q, x)
    requires t.Contains(x.info.obj) && q == Chain(t, x.info.obj)
    ensures var names := NamesFor(starts, Inside(x.info.obj));
      names != [] ==> LabelOf(x.info) == [Deciding(names, x.info.obj.Mod?)]
  {
    NodeLabel(PathsTo(t, starts), signame, q, x);
    LabelsOfStarts(t, starts, x.info.obj);
    ModuleIsEven(t, starts, signame, q, x);
    DecidingWins(x.info, NamesFor(starts, Inside(x.info.obj)), |q|, x.info.obj.Mod?);
  }

  lemma NodeIsNamed(t: Tables, starts: seq<CInfo>, signame: string, p: seq<Obj>, x: HNode)
    requires t.Valid() && AllContained(t, starts) && AllExplicit(starts) && IsReducible(t, starts, signame)
    requires Consistent(PathsTo(t, starts))
    requires NodeAt(ReducedTree(t, starts, signame).value, p, x)
    ensures var names := NamesFor(starts, Inside(x.info.obj));
      names != [] ==> LabelOf(x.info) == [Deciding(names, x.info.obj.Mod?)]
  {
    var q := NodePlace(t, starts, signame, p, x);
    MergedNodeIsNamed(t, starts, signame, q, x);
  }

  // ---------------------------------------------------------------------------
  // The created objects

  /** The name of a signal's object, as made from a base name. */
  ghost predicate IsSuffixed(o: GenObj, base: string) {
    if o.Decl? then o.name == NameSignal(base) else exists dir :: o.name == NamePinPort(base, dir)
  }

  ghost predicate Bears(o: GenObj, given: Label) {
    if given.force then o.name == given.name else IsSuffixed(o, given.name)
  }

  /** The deciding name of the object's end point is forced. */
  ghost predicate IsVerbatim(starts: seq<CInfo>, o: GenObj) {
    var names := NamesFor(starts, Inside(o.Owner()));
    if names != [] then Deciding(names, o.Decl?).force else ForcedAt(starts, o.Owner())
  }

  /** The name of the object is forced: the deciding one, if start points agree on names. */
  ghost predicate IsForced(starts: seq<CInfo>, o: GenObj) {
    if NamesAgree(starts) then IsVerbatim(starts, o) else ForcedAt(starts, o.Owner())
  }

  /** The name of any object that is not forced has the suffix of its kind. */
  ghost predicate SuffixesKept(starts: seq<CInfo>, objs: set<GenObj>) {
    forall o :: o in objs && !IsForced(starts, o) ==> HasBase(o)
  }

  ghost predicate HasBase(o: GenObj) {
    exists base :: IsSuffixed(o, base)
  }

  /** An object whose end point is named has the deciding name, as it is if that is forced. */
  ghost predicate IsNamedFor(starts: seq<CInfo>, o: GenObj) {
    var names := NamesFor(starts, Inside(o.Owner()));
    names != [] ==> Bears(o, Deciding(names, o.Decl?))
  }

  ghost predicate NamesKept(starts: seq<CInfo>, objs: set<GenObj>) {
    forall o :: o in objs ==> IsNamedFor(starts, o)
  }

  /** The node's own object, but for ports, which take the name of a pin. */
  lemma OwnIsNamed(t: Tables, starts: seq<CInfo>, signame: string, p: seq<Obj>, x: HNode, top: bool,
                   above: Option<string>)
    requires t.Valid() && AllContained(t, starts) && AllExplicit(starts) && IsReducible(t, starts, signame)
    requires NodeAt(ReducedTree(t, starts, signame).value, p, x) && x.info.localName.Some?
    requires x.info.obj.Mod? ==> top
    ensures NamesAgree(starts) ==> IsNamedFor(starts, Own(Signal, x, top, above))
    ensures x.info.forceName ==> IsForced(starts, Own(Signal, x, top, above))
    ensures IsForced(starts, Own(Signal, x, top, above)) || HasBase(Own(Signal, x, top, above))
  {
    var o := Own(Signal, x, top, above);
    NodeForce(t, starts, signame, p, x);
    if NamesAgree(starts) {
      ConsistentIff(t, starts);
      NodeIsNamed(t, starts, signame, p, x);
    }
    if !x.info.forceName { assert IsSuffixed(o, x.info.localName.value); }
  }

  /** A port has the name of the pin on its module's instance. */
  lemma PortHasPin(t: Tables, objs: set<GenObj>, root: GenObj, port: GenObj) returns (pin: GenObj)
    requires OnNet(t, objs, root, port) && root.Decl? && port.Port?
    ensures pin in objs && pin.Pin? && pin.inst == Def(port.mod) && pin.name == port.name
  {
    var wire :| IsWire(t, objs, wire) && wire[0] == root && wire[|wire| - 1] == port;
    pin := wire[|wire| - 2];
    assert Wired(t, wire[|wire| - 2], wire[|wire| - 2 + 1]);
  }

  lemma PortIsNamedLikePin(starts: seq<CInfo>, port: GenObj, pin: GenObj)
    requires port.Port? && pin.Pin? && pin.inst == Def(port.mod) && pin.name == port.name
    ensures IsNamedFor(starts, pin) ==> IsNamedFor(starts, port)
    ensures IsForced(starts, pin) == IsForced(starts, port) && (HasBase(pin) ==> HasBase(port))
  {
    if base :| IsSuffixed(pin, base) { assert IsSuffixed(port, base); }
    var names := NamesFor(starts, Mod(port.mod));
    if names != [] && IsSuffixed(pin, names[0].name) { assert IsSuffixed(port, names[0].name); }
  }

  /** An object is forced by some start point at its end point only. */
  lemma VerbatimIsForced(starts: seq<CInfo>, o: GenObj)
    ensures IsVerbatim(starts, o) ==> ForcedAt(starts, o.Owner())
  {
    var names := NamesFor(starts, Inside(o.Owner()));
    if names != [] {
      var i := NamerOf(starts, Inside(o.Owner()), if o.Decl? then |names| - 1 else 0);
    }
  }

  /** Every name comes from a start point. */
  lemma {:induction false} NamerOf(starts: seq<CInfo>, end: Obj, k: nat) returns (i: nat)
    requires k < |NamesFor(starts, end)|
    ensures i < |starts| && EndPoint(starts[i]) == end && LabelOf(starts[i]) == [NamesFor(starts, end)[k]]
  {
    var n := |starts| - 1;
    if k < |NamesFor(starts[..n], end)| {
      i := NamerOf(starts[..n], end, k);
    } else {
      i := n;
    }
  }

  lemma NodeObjectIsNamed(t: Tables, starts: seq<CInfo>, signame: string, o: GenObj)
    requires t.Valid() && AllContained(t, starts) && AllExplicit(starts) && IsReducible(t, starts, signame)
    requires Named(ReducedTree(t, starts, signame).value)
    requires o in Emit(Signal, ReducedTree(t, starts, signame).value, true, None) && !o.Port?
    ensures NamesAgree(starts) ==> IsNamedFor(starts, o)
    ensures IsForced(starts, o) || HasBase(o)
  {
    var p, x, top, above := EmittedByNode(Signal, ReducedTree(t, starts, signame).value, true, None, o);
    OwnIsNamed(t, starts, signame, p, x, top, above);
  }

  lemma ObjectIsNamed(t: Tables, starts: seq<CInfo>, signame: string, o: GenObj)
    requires t.Valid() && AllContained(t, starts) && AllExplicit(starts) && IsReducible(t, starts, signame)
    requires Named(ReducedTree(t, starts, signame).value)
    requires o in Emit(Signal, ReducedTree(t, starts, signame).value, true, None)
    ensures NamesAgree(starts) ==> IsNamedFor(starts, o)
    ensures IsForced(starts, o) || HasBase(o)
  {
    var objs := Emit(Signal, ReducedTree(t, starts, signame).value, true, None);
    if o.Port? {
      RootOfNet(t, starts, signame);
      NetIsConnected(t, ReducedTree(t, starts, signame).value);
      var pin := PortHasPin(t, AsSet(objs), objs[0], o);
      NodeObjectIsNamed(t, starts, signame, pin);
      PortIsNamedLikePin(starts, o, pin);
    } else {
      NodeObjectIsNamed(t, starts, signame, o);
    }
  }

  /** All objects of a signal are named as the start points ask for, if they agree; in any case only forced
      names lack their suffix. */
  lemma ObjectsAreNamed(t: Tables, starts: seq<CInfo>, signame: string)
    requires t.Valid() && AllContained(t, starts) && AllExplicit(starts) && IsReducible(t, starts, signame)
    requires Named(ReducedTree(t, starts, signame).value)
    ensures var objs := AsSet(Emit(Signal, ReducedTree(t, starts, signame).value, true, None));
      SuffixesKept(starts, objs) && (NamesAgree(starts) ==> NamesKept(starts, objs))
  {
    forall o | o in Emit(Signal, ReducedTree(t, starts, signame).value, true, None)
      ensures (NamesAgree(starts) ==> IsNamedFor(starts, o)) && (IsForced(starts, o) || HasBase(o))
    {
      ObjectIsNamed(t, starts, signame, o);
    }
  }

  // ---------------------------------------------------------------------------
  // When a name is kept

  lemma {:induction false} NameIsListed(starts: seq<CInfo>, i: nat)
    requires i < |starts| && starts[i].localName.Some?
    ensures NamesFor(starts, EndPoint(starts[i])) != []
  {
    if i < |starts| - 1 { NameIsListed(starts[..|starts| - 1], i); }
  }

  /** Start points at one end point have one name, if names are consistent. */
  lemma OneName(t: Tables, starts: seq<CInfo>, i: nat, j: nat)
    requires t.Valid() && AllContained(t, starts) && Consistent(PathsTo(t, starts))
    requires i < |starts| && j < |starts| && EndPoint(starts[i]) == EndPoint(starts[j])
    requires starts[i].localName.Some? && starts[j].localName.Some?
    ensures starts[i].localName == starts[j].localName
  {
    PathIsListed(t, starts, i);
    PathIsListed(t, starts, j);
    PathIsChain(t, starts[i]);
    PathIsChain(t, starts[j]);
    var a, b := Path(t, starts[i]), Path(t, starts[j]);
    assert |a| == |Objs(a)| == |Objs(b)| == |b|;
    assert SameName(a[|a| - 1], b[|b| - 1]);
  }

  /** Start points at one end point give it one name. */
  predicate NamesAgree(starts: seq<CInfo>) {
    forall i, j :: 0 <= i < |starts| && 0 <= j < |starts| ==> Agree(starts[i], starts[j])
  }

  predicate Agree(a: CInfo, b: CInfo) {
    EndPoint(a) == EndPoint(b) && a.localName.Some? && b.localName.Some? ==> a.localName == b.localName
  }

  /** A record with a name belongs to the end point. */
  lemma NamedRecord(t: Tables, start: CInfo, k: nat)
    requires t.Valid() && t.Contains(start.obj) && k < |Path(t, start)| && Path(t, start)[k].localName.Some?
    ensures EndPoint(start) == Inside(Path(t, start)[k].obj) && Path(t, start)[k].localName == start.localName
  {
    var o := Path(t, start)[k].obj;
    PathPrefix(t, start, k);
    PassesObjs(Path(t, start), Chain(t, o));
    MarkedAtEnd(t, start, o);
    ClimbMarks(t, Start(t, start), k);
  }

  /** No object of the paths has two names exactly if no end point is given two. */
  lemma ConsistentIff(t: Tables, starts: seq<CInfo>)
    requires t.Valid() && AllContained(t, starts)
    ensures Consistent(PathsTo(t, starts)) <==> NamesAgree(starts)
  {
    if Consistent(PathsTo(t, starts)) {
      forall i, j | 0 <= i < |starts| && 0 <= j < |starts| ensures Agree(starts[i], starts[j]) {
        if EndPoint(starts[i]) == EndPoint(starts[j]) && starts[i].localName.Some? && starts[j].localName.Some? {
          OneName(t, starts, i, j);
        }
      }
    }
    if NamesAgree(starts) {
      forall a, b, k: nat | a in PathsTo(t, starts) && b in PathsTo(t, starts) && k < |a| && k < |b|
        ensures SameName(a[k], b[k])
      {
        RecordsAgree(t, starts, a, b, k);
      }
    }
  }

  lemma RecordsAgree(t: Tables, starts: seq<CInfo>, a: seq<CInfo>, b: seq<CInfo>, k: nat)
    requires t.Valid() && AllContained(t, starts) && NamesAgree(starts)
    requires a in PathsTo(t, starts) && b in PathsTo(t, starts) && k < |a| && k < |b|
    ensures SameName(a[k], b[k])
  {
    var i := StartOfPath(t, starts, a);
    var j := StartOfPath(t, starts, b);
    assert Agree(starts[i], starts[j]);
    if a[k].localName.Some? { NamedRecord(t, starts[i], k); }
    if b[k].localName.Some? { NamedRecord(t, starts[j], k); }
  }

  /** The name given for an end point is that of its object exactly if the deciding start point forces it. */
  lemma KeptVerbatimIff(t: Tables, starts: seq<CInfo>, objs: set<GenObj>, i: nat, o: GenObj)
    requires t.Valid() && AllContained(t, starts) && Consistent(PathsTo(t, starts)) && NamesKept(starts, objs)
    requires i < |starts| && starts[i].localName.Some? && o in objs && Inside(o.Owner()) == EndPoint(starts[i])
    ensures o.name == starts[i].localName.value <==> IsVerbatim(starts, o)
  {
    var names := NamesFor(starts, EndPoint(starts[i]));
    NameIsListed(starts, i);
    var k := if o.Decl? then |names| - 1 else 0;
    var j := NamerOf(starts, EndPoint(starts[i]), k);
    OneName(t, starts, i, j);
    assert IsNamedFor(starts, o) && names[k].name == starts[i].localName.value;
  }

  // ---------------------------------------------------------------------------
  // Two signals

  /** No object of one list has the identifier of one of the other. */
  ghost predicate ApartFrom(objs: set<GenObj>, others: set<GenObj>) {
    forall a, b :: a in objs && b in others ==> a.Id() != b.Id()
  }

  /** The two objects are a declaration and a port, and one of them has a forced name. */
  ghost predicate MeetByForce(startsA: seq<CInfo>, a: GenObj, startsB: seq<CInfo>, b: GenObj) {
    && ((a.Decl? && b.Port?) || (a.Port? && b.Decl?))
    && (IsForced(startsA, a) || IsForced(startsB, b))
  }

  lemma SuffixesDiffer(decl: GenObj, port: GenObj)
    requires decl.Decl? && port.Port? && HasBase(decl) && HasBase(port)
    ensures decl.name != port.name
  {
    var d :| IsSuffixed(decl, d);
    var p :| IsSuffixed(port, p);
    var dir :| port.name == NamePinPort(p, dir);
    var last := decl.name[|decl.name| - 1];
    assert last in {'s', 'S'};
    assert port.name[|port.name| - 1] !in {'s', 'S'};
  }

  /** Objects of different signals in one module or instance only have the same name by force. */
  lemma SignalsMeetByForce(startsA: seq<CInfo>, objsA: set<GenObj>, startsB: seq<CInfo>, objsB: set<GenObj>,
                           a: GenObj, b: GenObj)
    requires SuffixesKept(startsA, objsA) && SuffixesKept(startsB, objsB) && ApartFrom(objsA, objsB)
    requires a in objsA && b in objsB && IsSignalObject(a) && IsSignalObject(b)
    requires a.Owner() == b.Owner() && a.name == b.name
    ensures MeetByForce(startsA, a, startsB, b)
  {
    assert a.Id() != b.Id();
    if !IsForced(startsA, a) && !IsForced(startsB, b) {
      if a.Decl? { SuffixesDiffer(a, b); } else { SuffixesDiffer(b, a); }
    }
  }

  predicate IsSignalObject(o: GenObj) {
    o.Decl? || o.Port? || (o.Pin? && !o.inst.Mod?)
  }
}
