/** The procedures ig_lib_connection and ig_lib_parameter on the database. */
module ConnectionEngine {
  import opened Wrappers
  import opened Sequences
  import opened ConnectionInfo
  import opened HierarchyDb
  import opened MergeTree
  import opened Reduce
  import opened Generation
  import opened SignalNet
  import opened Builder
  import opened Connections
  import opened Names
  import opened Nets
  import opened Directions
  import opened Objects
  import opened Created
  import opened TopForks

  /** Dangling: the procedure goes on with a freed tree, and nothing is known about what follows. */
  datatype Answer = Objects(objs: seq<GenObj>) | Failure | Dangling

  /** Merging and reducing the paths. */
  ghost function Lowest(t: Tables, starts: seq<CInfo>, signame: string): Reduction
    requires t.Valid() && AllContained(t, starts)
  {
    match Merge(PathsTo(t, starts), signame)
    case None => NoModule
    case Some(n) => ReductionOf(n)
  }

  /** One net, of which only forced names lack their suffix, and which leads away from its source if it has one
      and no other drives. If the start points agree on names it has the names they ask for, and exactly the
      directions of its source; if they are clear it consists of exactly the objects that tables, start points and
      signal name determine. */
  ghost predicate IsSignal(t: Tables, starts: seq<CInfo>, signame: string, objs: set<GenObj>)
    requires t.Valid() && AllContained(t, starts)
  {
    && IsOneNet(t, starts, objs)
    && SuffixesKept(starts, objs)
    && (OneSource(starts) ==> LeadsFromSource(Path(t, starts[0]), starts, objs))
    && (NamesAgree(starts) ==> NamesKept(starts, objs))
    && (NamesAgree(starts) && OneSource(starts) ==> FollowsSource(Path(t, starts[0]), starts, objs))
    && (AreClear(starts) ==> IsExact(Signal, t, starts, signame, objs))
  }

  /** A signal as it was created: its name, the tables of that time, the start points and the objects. */
  datatype CreatedSignal = CreatedSignal(name: string, tables: Tables, starts: seq<CInfo>, objs: set<GenObj>)

  ghost predicate IsOk(s: CreatedSignal) {
    s.tables.Valid() && AllContained(s.tables, s.starts) && IsSignal(s.tables, s.starts, s.name, s.objs)
  }

  /** The property holds of all values. */
  ghost predicate AllOf<K, V>(m: map<K, V>, good: V -> bool) {
    forall k :: k in m ==> good(m[k])
  }

  lemma AllOfMore<K, V>(m: map<K, V>, good: V -> bool, k: K, v: V)
    requires AllOf(m, good) && good(v)
    ensures AllOf(m[k := v], good)
  {
  }

  ghost predicate AreRegistered(objs: set<GenObj>, ids: set<GenId>) {
    forall o :: o in objs ==> o.Id() in ids
  }

  /** All of them are signals, with names and identifiers that are taken, and no identifier is used twice. */
  ghost predicate AreSignals(signals: map<string, CreatedSignal>, nets: set<string>, ids: set<GenId>) {
    AllOf(signals, IsOk) && AreBooked(signals, nets, ids) && AreApart(signals)
  }

  ghost predicate AreBooked(signals: map<string, CreatedSignal>, nets: set<string>, ids: set<GenId>) {
    forall n :: n in signals ==> n in nets && signals[n].name == n && AreRegistered(signals[n].objs, ids)
  }

  ghost predicate AreApart(signals: map<string, CreatedSignal>) {
    forall n, k :: n in signals && k in signals && n != k ==> ApartFrom(signals[n].objs, signals[k].objs)
  }

  /** More identifiers and names do no harm. */
  lemma StayBooked(signals: map<string, CreatedSignal>, nets: set<string>, ids: set<GenId>, moreNets: set<string>,
                   moreIds: set<GenId>)
    requires AreBooked(signals, nets, ids) && nets <= moreNets && ids <= moreIds
    ensures AreBooked(signals, moreNets, moreIds)
  {
  }

  lemma StayApart(signals: map<string, CreatedSignal>, signame: string, s: CreatedSignal)
    requires AreApart(signals) && signame !in signals && forall n :: n in signals ==> ApartFrom(s.objs, signals[n].objs)
    ensures AreApart(signals[signame := s])
  {
    var more := signals[signame := s];
    forall n, k | n in more && k in more && n != k ensures ApartFrom(more[n].objs, more[k].objs) {
      if n == signame {
        assert k in signals;
      } else if k == signame {
        ApartBothWays(s.objs, signals[n].objs);
      }
    }
  }

  lemma ApartBothWays(objs: set<GenObj>, others: set<GenObj>)
    requires ApartFrom(objs, others)
    ensures ApartFrom(others, objs)
  {
  }

  class Connector {
    const db: LibDb
    var ids: set<GenId>
    var nets: set<string>
    var generics: set<string>
    ghost var signals: map<string, CreatedSignal>

    /** All signals created so far are signals, and no identifier is used twice. */
    ghost predicate Valid()
      reads this
    {
      AreSignals(signals, nets, ids)
    }

    constructor (db: LibDb)
      ensures Valid() && this.db == db && ids == {} && nets == {} && generics == {} && signals == map[]
    {
      this.db, ids, nets, generics, signals := db, {}, {}, {}, map[];
    }

    /** The paths from the top to all start points, each put in front of the earlier ones. */
    method Hierarchies(starts: seq<CInfo>) returns (h: seq<seq<CInfo>>)
      requires db.Valid() && AllContained(db.Contents(), starts)
      ensures h == PathsTo(db.Contents(), starts)
    {
      h := [];
      for i := 0 to |starts|
        invariant h == PathsTo(db.Contents(), starts[..i])
      {
        var path := db.GenHierarchy(starts[i]);
        assert starts[..i + 1][..i] == starts[..i];
        h := [path] + h;
      }
      assert starts[..|starts|] == starts;
    }

    /** Merging and reducing the paths. */
    method LowestTree(signame: string, starts: seq<CInfo>) returns (r: Reduction)
      requires db.Valid() && AllContained(db.Contents(), starts)
      ensures r == Lowest(db.Contents(), starts, signame)
      ensures r.Reduced? ==> Named(r.tree)
    {
      var hierStartList := Hierarchies(starts);
      var merged := MergeHierarchyList(hierStartList, signame);
      if merged.None? { return NoModule; }
      MergedIsNamed(PathsTo(db.Contents(), starts), signame);
      ReducedIsNamed(merged.value);
      r := HtreeReduce(merged.value);
    }

    /** The traversal that creates the objects. */
    method Generate(what: Creation, tree: HNode) returns (r: Answer)
      requires Named(tree)
      modifies this`ids
      ensures Generated(what, tree, old(ids), ids, r)
    {
      var traversal := new Traversal(ids);
      traversal.Visit(what, tree, true, None);
      ids := traversal.ids;
      if traversal.error { return Failure; }
      assert traversal.genObjs == Reversed(Emit(what, tree, true, None));
      return Objects(traversal.genObjs);
    }

    /** Creates the signal exactly when its name is new, the start points have a common top and a common
        module, and no object of the same name is in the way. */
    method Connection(signame: string, source: Option<CInfo>, targets: seq<CInfo>) returns (r: Answer)
      requires Valid() && db.Valid() && AllContained(db.Contents(), Starts(source, targets))
      modifies this
      ensures Valid() && generics == old(generics)
      ensures var tree := Lowest(db.Contents(), Starts(source, targets), signame);
        if signame in old(nets) || !tree.Reduced? then
          && r == (if signame !in old(nets) && tree.Freed? then Dangling else Failure)
          && ids == old(ids) && nets == old(nets) && signals == old(signals)
        else
          && Named(tree.tree) && Generated(Signal, tree.tree, old(ids), ids, r)
          && nets == old(nets) + {signame}
          && signals == SignalsAfter(old(signals), signame, db.Contents(), Starts(source, targets), r)
      ensures r == Dangling <==> signame !in old(nets) && LosesTree(db.Contents(), Starts(source, targets), signame)
      ensures signame in nets <==> signame in old(nets) || HaveModule(db.Contents(), Starts(source, targets))
    {
      var starts := Starts(source, targets);
      if signame in nets { return Failure; }
      var tree := LowestTree(signame, starts);
      DanglesIff(db.Contents(), starts, signame);
      if tree.NoModule? { return Failure; }
      if tree.Freed? { return Dangling; }
      r := AddSignal(signame, starts, tree.tree);
    }

    /** Creates the objects and enters the signal under its name. */
    method AddSignal(signame: string, ghost starts: seq<CInfo>, tree: HNode) returns (r: Answer)
      requires Valid() && db.Valid() && AllContained(db.Contents(), starts) && AllExplicit(starts) && signame !in nets
      requires Lowest(db.Contents(), starts, signame) == Reduced(tree) && Named(tree)
      modifies this
      ensures Valid() && generics == old(generics)
      ensures Generated(Signal, tree, old(ids), ids, r) && nets == old(nets) + {signame}
      ensures signals == SignalsAfter(old(signals), signame, db.Contents(), starts, r)
    {
      r := Generate(Signal, tree);
      nets := nets + {signame};
      SignalIsAdded(signals, old(nets), nets, old(ids), ids, signame, db.Contents(), starts, r);
      signals := SignalsAfter(signals, signame, db.Contents(), starts, r);
    }

    /** Creates the parameter under the same conditions; every end point then elaborates to its root's value. */
    method CreateParameter(parname: string, defvalue: string, targets: seq<CInfo>) returns (r: Answer)
      requires Valid() && db.Valid() && AllContained(db.Contents(), Starts(None, targets))
      modifies this
      ensures Valid() && nets == old(nets) && signals == old(signals)
      ensures var tree := Lowest(db.Contents(), Starts(None, targets), parname);
        if parname in old(generics) || !tree.Reduced? then
          && r == (if parname !in old(generics) && tree.Freed? then Dangling else Failure)
          && ids == old(ids) && generics == old(generics)
        else
          && Named(tree.tree) && Generated(Parameter(defvalue), tree.tree, old(ids), ids, r)
          && generics == old(generics) + {parname}
      ensures r == Dangling <==> parname !in old(generics) && LosesTree(db.Contents(), Starts(None, targets), parname)
      ensures parname in generics <==> parname in old(generics) || HaveModule(db.Contents(), Starts(None, targets))
      ensures r.Objects? ==>
        && IsOneParameter(db.Contents(), Starts(None, targets), AsSet(r.objs), defvalue)
        && (AreClear(Starts(None, targets)) ==>
              IsExact(Parameter(defvalue), db.Contents(), Starts(None, targets), parname, AsSet(r.objs)))
    {
      var starts := Starts(None, targets);
      if parname in generics { return Failure; }
      var tree := LowestTree(parname, starts);
      DanglesIff(db.Contents(), starts, parname);
      if tree.NoModule? { return Failure; }
      if tree.Freed? { return Dangling; }
      r := Generate(Parameter(defvalue), tree.tree);
      generics := generics + {parname};
      StayBooked(signals, nets, old(ids), nets, ids);
      if r.Objects? { CreatedIsParameter(db.Contents(), starts, parname, defvalue, r.objs, old(ids)); }
    }
  }

  /** The signals known after a creation: one more, if it did not fail. */
  ghost function SignalsAfter(signals: map<string, CreatedSignal>, signame: string, t: Tables, starts: seq<CInfo>,
                              r: Answer)
    : map<string, CreatedSignal>
  {
    if r.Objects? then signals[signame := CreatedSignal(signame, t, starts, AsSet(r.objs))] else signals
  }

  /** All objects of the tree are created and registered, or one of them had a taken name. */
  ghost predicate Generated(what: Creation, tree: HNode, before: set<GenId>, after: set<GenId>, r: Answer)
    requires Named(tree)
  {
    var objs := Emit(what, tree, true, None);
    && before <= after
    && if AllFresh(before, objs) then r == Objects(Reversed(objs)) && after == before + IdsOf(objs) else r == Failure
  }

  /** The start points have a common top, and conflicting names for the module there. */
  ghost predicate LosesTree(t: Tables, starts: seq<CInfo>, signame: string)
    requires t.Valid() && AllContained(t, starts)
  {
    Merge(PathsTo(t, starts), signame).Some? && ClashAtTop(t, starts)
  }

  /** The end points lie below one top module, and the first start point does not clash with another one there. */
  ghost predicate HaveModule(t: Tables, starts: seq<CInfo>)
    requires t.Valid() && AllContained(t, starts)
  {
    starts != [] && HaveCommonTop(t, starts) && !ClashAtTop(t, starts)
  }

  lemma DanglesIff(t: Tables, starts: seq<CInfo>, signame: string)
    requires t.Valid() && AllContained(t, starts) && AllExplicit(starts)
    ensures Lowest(t, starts, signame).Freed? <==> LosesTree(t, starts, signame)
    ensures Lowest(t, starts, signame).Reduced? <==> starts != [] && HaveCommonTop(t, starts) && !ClashAtTop(t, starts)
  {
    ReducedIff(t, starts, signame);
    if Merge(PathsTo(t, starts), signame).Some? { ForksIff(t, starts, signame); }
  }

  lemma CreatedIsSignal(t: Tables, starts: seq<CInfo>, signame: string, objs: seq<GenObj>, ids: set<GenId>)
    requires t.Valid() && AllContained(t, starts) && AllExplicit(starts) && Lowest(t, starts, signame).Reduced?
    requires Named(Lowest(t, starts, signame).tree)
    requires AllFresh(ids, Emit(Signal, Lowest(t, starts, signame).tree, true, None))
    requires objs == Reversed(Emit(Signal, Lowest(t, starts, signame).tree, true, None))
    ensures IsSignal(t, starts, signame, AsSet(objs))
  {
    assert Lowest(t, starts, signame).tree == ReducedTree(t, starts, signame).value;
    ReversedMembers(Emit(Signal, ReducedTree(t, starts, signame).value, true, None));
    SignalIsOneNet(t, starts, signame, ids);
    ObjectsAreNamed(t, starts, signame);
    if AreClear(starts) { CreatedIsExact(Signal, t, starts, signame); }
    if OneSource(starts) {
      SignalLeads(t, starts, signame);
      DirectedSignal(t, starts, signame);
    }
  }

  lemma CreatedIsParameter(t: Tables, starts: seq<CInfo>, parname: string, defvalue: string, objs: seq<GenObj>,
                           ids: set<GenId>)
    requires t.Valid() && AllContained(t, starts) && AllExplicit(starts) && Lowest(t, starts, parname).Reduced?
    requires Named(Lowest(t, starts, parname).tree)
    requires AllFresh(ids, Emit(Parameter(defvalue), Lowest(t, starts, parname).tree, true, None))
    requires objs == Reversed(Emit(Parameter(defvalue), Lowest(t, starts, parname).tree, true, None))
    ensures IsOneParameter(t, starts, AsSet(objs), defvalue)
    ensures AreClear(starts) ==> IsExact(Parameter(defvalue), t, starts, parname, AsSet(objs))
  {
    assert Lowest(t, starts, parname).tree == ReducedTree(t, starts, parname).value;
    ReversedMembers(Emit(Parameter(defvalue), ReducedTree(t, starts, parname).value, true, None));
    ParameterReachesAll(t, starts, parname, defvalue, ids);
    CreatedIsReducible(Parameter(defvalue), t, starts, parname, ids);
    if AreClear(starts) { CreatedIsExact(Parameter(defvalue), t, starts, parname); }
  }

  /** What is created is registered, under identifiers that nothing had before. */
  lemma CreatedIsApart(before: set<GenId>, after: set<GenId>, what: Creation, tree: HNode, r: Answer)
    requires Named(tree) && Generated(what, tree, before, after, r) && r.Objects?
    ensures AreRegistered(AsSet(r.objs), after) && forall o :: o in AsSet(r.objs) ==> o.Id() !in before
  {
    var objs := Emit(what, tree, true, None);
    ReversedMembers(objs);
    FreshAreDistinct(before, objs);
    forall o | o in AsSet(r.objs) ensures o.Id() !in before { FreshAreNew(before, objs, o); }
  }

  lemma NewIsApart(signals: map<string, CreatedSignal>, nets: set<string>, ids: set<GenId>, objs: set<GenObj>)
    requires AreBooked(signals, nets, ids) && forall o :: o in objs ==> o.Id() !in ids
    ensures forall n :: n in signals ==> ApartFrom(objs, signals[n].objs)
  {
    forall n | n in signals ensures ApartFrom(objs, signals[n].objs) {
      assert AreRegistered(signals[n].objs, ids);
    }
  }

  lemma SignalIsAdded(signals: map<string, CreatedSignal>, nets: set<string>, moreNets: set<string>, ids: set<GenId>,
                      moreIds: set<GenId>, signame: string, t: Tables, starts: seq<CInfo>, r: Answer)
    requires AreSignals(signals, nets, ids) && signame !in nets && moreNets == nets + {signame}
    requires t.Valid() && AllContained(t, starts) && AllExplicit(starts) && Lowest(t, starts, signame).Reduced?
    requires var tree := Lowest(t, starts, signame).tree; Named(tree) && Generated(Signal, tree, ids, moreIds, r)
    ensures AreSignals(SignalsAfter(signals, signame, t, starts, r), moreNets, moreIds)
  {
    StayBooked(signals, nets, ids, moreNets, moreIds);
    if r.Objects? {
      CreatedIsOk(t, starts, signame, ids, moreIds, r);
      CreatedIsApart(ids, moreIds, Signal, Lowest(t, starts, signame).tree, r);
      NewIsApart(signals, nets, ids, AsSet(r.objs));
      SignalJoins(signals, moreNets, moreIds, signame, CreatedSignal(signame, t, starts, AsSet(r.objs)));
    }
  }

  lemma CreatedIsOk(t: Tables, starts: seq<CInfo>, signame: string, ids: set<GenId>, moreIds: set<GenId>, r: Answer)
    requires t.Valid() && AllContained(t, starts) && AllExplicit(starts) && Lowest(t, starts, signame).Reduced?
    requires var tree := Lowest(t, starts, signame).tree; Named(tree) && Generated(Signal, tree, ids, moreIds, r)
    requires r.Objects?
    ensures IsOk(CreatedSignal(signame, t, starts, AsSet(r.objs)))
  {
    CreatedIsSignal(t, starts, signame, r.objs, ids);
  }

  lemma SignalJoins(signals: map<string, CreatedSignal>, nets: set<string>, ids: set<GenId>, signame: string,
                    s: CreatedSignal)
    requires AllOf(signals, IsOk) && AreBooked(signals, nets, ids) && AreApart(signals)
    requires signame !in signals && signame in nets && IsOk(s) && s.name == signame && AreRegistered(s.objs, ids)
    requires forall n :: n in signals ==> ApartFrom(s.objs, signals[n].objs)
    ensures AreSignals(signals[signame := s], nets, ids)
  {
    AllOfMore(signals, IsOk, signame, s);
    StayApart(signals, signame, s);
  }

  // ---------------------------------------------------------------------------
  // All signals together

  lemma NetHolds(t: Tables, objs: set<GenObj>, root: GenObj, o: GenObj)
    requires OnNet(t, objs, root, o) && root.Decl?
    ensures IsSignalObject(o) && (o.Decl? ==> o == root)
  {
    var wire :| IsWire(t, objs, wire) && wire[0] == root && wire[|wire| - 1] == o;
    if |wire| > 1 { assert Wired(t, wire[|wire| - 2], wire[|wire| - 2 + 1]); }
  }

  lemma SignalHolds(s: CreatedSignal, o: GenObj)
    requires IsOk(s) && o in s.objs
    ensures IsSignalObject(o) && SuffixesKept(s.starts, s.objs)
  {
    var p: seq<Obj>, name: string :| IsNetAt(s.tables, s.starts, s.objs, p, name);
    NetHolds(s.tables, s.objs, Decl(p[|p| - 1].name, name), o);
  }

  /** Objects of two different signals. */
  ghost predicate AreOfTwoSignals(c: Connector, n: string, k: string, a: GenObj, b: GenObj)
    reads c
  {
    && n in c.signals && k in c.signals && n != k
    && a in c.signals[n].objs && b in c.signals[k].objs
  }

  /** Whatever was created before, two signals share a name in a module or at an instance only as declaration
      and port, and only if one of the two names is forced. */
  lemma SignalsStayApart(c: Connector, n: string, k: string, a: GenObj, b: GenObj)
    ensures c.Valid() && AreOfTwoSignals(c, n, k, a, b) && a.Owner() == b.Owner() && a.name == b.name ==>
      MeetByForce(c.signals[n].starts, a, c.signals[k].starts, b)
  {
    if c.Valid() && AreOfTwoSignals(c, n, k, a, b) && a.Owner() == b.Owner() && a.name == b.name {
      ApartSignals(c.signals, n, k, a, b);
    }
  }

  lemma ApartSignals(signals: map<string, CreatedSignal>, n: string, k: string, a: GenObj, b: GenObj)
    requires AllOf(signals, IsOk) && AreApart(signals) && n in signals && k in signals && n != k
    requires a in signals[n].objs && b in signals[k].objs && a.Owner() == b.Owner() && a.name == b.name
    ensures MeetByForce(signals[n].starts, a, signals[k].starts, b)
  {
    SignalHolds(signals[n], a);
    SignalHolds(signals[k], b);
    SignalsMeetByForce(signals[n].starts, signals[n].objs, signals[k].starts, signals[k].objs, a, b);
  }
}
