/** The main results about created signals and parameters, from the start points to the created objects. They
    hold whether or not end points are given several names. */
module Nets {
  import opened Wrappers
  import opened Sequences
  import opened ConnectionInfo
  import opened HierarchyDb
  import opened MergeTree
  import opened MergeNodes
  import opened Reduce
  import opened Generation
  import opened SignalNet
  import opened Parameters
  import opened Builder
  import opened Connections
  import opened Names

  /** Every object is connected to the root declaration. */
  ghost predicate Connects(t: Tables, objs: set<GenObj>, root: GenObj) {
    root in objs && forall o :: o in objs ==> OnNet(t, objs, root, o)
  }

  /** Two start points name the end point differently. */
  predicate IsContested(starts: seq<CInfo>, end: Obj) {
    exists i, j :: 0 <= i < |starts| && 0 <= j < |starts| && EndPoint(starts[i]) == end && !Agree(starts[i], starts[j])
  }

  /** The module at the end of p contains all end points. No module below it does, unless they all lie in an
      instance right below whose end point is named differently. */
  ghost predicate IsPlaced(t: Tables, starts: seq<CInfo>, p: seq<Obj>)
    requires t.Valid() && AllContained(t, starts)
  {
    && Encloses(PathsTo(t, starts), p) && p[|p| - 1].Mod?
    && (|| IsLowestModule(PathsTo(t, starts), p)
        || exists o :: Encloses(PathsTo(t, starts), p + [o]) && IsContested(starts, Inside(o)))
  }

  /** If start points agree on names, that is the lowest module around them. */
  lemma PlacedLowest(t: Tables, starts: seq<CInfo>, p: seq<Obj>)
    requires t.Valid() && AllContained(t, starts) && NamesAgree(starts) && IsPlaced(t, starts, p)
    ensures IsLowestModule(PathsTo(t, starts), p)
  {
  }

  lemma ContestedStarts(t: Tables, starts: seq<CInfo>, p: seq<Obj>, a: seq<CInfo>, b: seq<CInfo>)
    requires t.Valid() && AllContained(t, starts) && NameApart(PathsTo(t, starts), p, a, b)
    ensures IsContested(starts, Inside(p[|p| - 1]))
  {
    var i := StartOfPath(t, starts, a);
    var j := StartOfPath(t, starts, b);
    NamedRecord(t, starts[i], |p| - 1);
    NamedRecord(t, starts[j], |p| - 1);
    assert !Agree(starts[i], starts[j]);
  }

  /** The reduced tree starts where the end points have their place. */
  lemma RootIsPlaced(t: Tables, starts: seq<CInfo>, signame: string)
    requires t.Valid() && AllContained(t, starts) && AllExplicit(starts) && IsReducible(t, starts, signame)
    ensures IsPlaced(t, starts, DescentPath(Merge(PathsTo(t, starts), signame).value))
  {
    var h, p := PathsTo(t, starts), DescentPath(Merge(PathsTo(t, starts), signame).value);
    MergedTreeIsOk(t, starts, signame);
    RootOfNet(t, starts, signame);
    ReducedRootEncloses(t, h, signame);
    PlaceOfRoot(t, h, signame);
    if o :| IsNamedApart(h, p, o) {
      var a, b :| NameApart(h, p + [o], a, b);
      ContestedStarts(t, starts, p + [o], a, b);
    }
  }

  // ---------------------------------------------------------------------------
  // Signals

  ghost predicate IsNetAt(t: Tables, starts: seq<CInfo>, objs: set<GenObj>, p: seq<Obj>, name: string)
    requires t.Valid() && AllContained(t, starts)
  {
    && IsPlaced(t, starts, p)
    && Connects(t, objs, Decl(p[|p| - 1].name, name))
    && Reaches(objs, starts)
  }

  /** What was generated connects all end points to one declaration in the module that is their place. */
  ghost predicate IsOneNet(t: Tables, starts: seq<CInfo>, objs: set<GenObj>)
    requires t.Valid() && AllContained(t, starts)
  {
    exists p: seq<Obj>, name: string :: IsNetAt(t, starts, objs, p, name)
  }

  lemma RootConnects(t: Tables, starts: seq<CInfo>, signame: string)
    requires t.Valid() && AllContained(t, starts) && AllExplicit(starts) && IsReducible(t, starts, signame)
    requires Named(ReducedTree(t, starts, signame).value)
    ensures var r, p := ReducedTree(t, starts, signame).value, DescentPath(Merge(PathsTo(t, starts), signame).value);
      p != [] && Connects(t, AsSet(Emit(Signal, r, true, None)), Decl(p[|p| - 1].name, NodeName(Signal, r, true, None)))
  {
    RootOfNet(t, starts, signame);
    NetIsConnected(t, ReducedTree(t, starts, signame).value);
  }

  lemma AssembleNet(t: Tables, starts: seq<CInfo>, objs: set<GenObj>, p: seq<Obj>, name: string)
    requires t.Valid() && AllContained(t, starts) && IsPlaced(t, starts, p)
    requires Connects(t, objs, Decl(p[|p| - 1].name, name)) && Reaches(objs, starts)
    ensures IsOneNet(t, starts, objs)
  {
    assert IsNetAt(t, starts, objs, p, name);
  }

  lemma ReducibleIsOneNet(t: Tables, starts: seq<CInfo>, signame: string)
    requires t.Valid() && AllContained(t, starts) && AllExplicit(starts) && IsReducible(t, starts, signame)
    requires Named(ReducedTree(t, starts, signame).value)
    ensures IsOneNet(t, starts, AsSet(Emit(Signal, ReducedTree(t, starts, signame).value, true, None)))
  {
    var r, p := ReducedTree(t, starts, signame).value, DescentPath(Merge(PathsTo(t, starts), signame).value);
    RootIsPlaced(t, starts, signame);
    AllReached(Signal, t, starts, signame);
    RootConnects(t, starts, signame);
    AssembleNet(t, starts, AsSet(Emit(Signal, r, true, None)), p, NodeName(Signal, r, true, None));
  }

  /** A tree is found, and none of its objects has a taken identifier. */
  ghost predicate IsCreated(what: Creation, t: Tables, starts: seq<CInfo>, signame: string, ids: set<GenId>)
    requires t.Valid() && AllContained(t, starts)
  {
    ReducedTree(t, starts, signame).Some? && Named(ReducedTree(t, starts, signame).value)
    && AllFresh(ids, Emit(what, ReducedTree(t, starts, signame).value, true, None))
  }

  /** Every created signal is one net. */
  lemma SignalIsOneNet(t: Tables, starts: seq<CInfo>, signame: string, ids: set<GenId>)
    requires t.Valid() && AllContained(t, starts) && AllExplicit(starts)
    ensures IsCreated(Signal, t, starts, signame, ids) ==>
      && IsReducible(t, starts, signame)
      && IsOneNet(t, starts, AsSet(Emit(Signal, ReducedTree(t, starts, signame).value, true, None)))
  {
    if IsCreated(Signal, t, starts, signame, ids) {
      CreatedIsReducible(Signal, t, starts, signame, ids);
      ReducibleIsOneNet(t, starts, signame);
    }
  }

  // ---------------------------------------------------------------------------
  // Parameters

  /** The module that is the end points' place has a parameter with the default value, and every end point
      elaborates to its value, whatever that is overridden with. */
  ghost predicate IsOneParameter(t: Tables, starts: seq<CInfo>, objs: set<GenObj>, defvalue: string)
    requires t.Valid() && AllContained(t, starts)
  {
    exists p: seq<Obj>, name: string :: IsParameterAt(t, starts, objs, defvalue, p, name)
  }

  ghost predicate IsParameterAt(t: Tables, starts: seq<CInfo>, objs: set<GenObj>, defvalue: string, p: seq<Obj>,
                                name: string)
    requires t.Valid() && AllContained(t, starts)
  {
    && IsPlaced(t, starts, p)
    && Param(p[|p| - 1].name, name, defvalue) in objs
    && Reaches(objs, starts)
    && AllElaborate(t, objs, p[|p| - 1].name, name)
  }

  /** Every created parameter carries its root's value everywhere. */
  lemma ParameterReachesAll(t: Tables, starts: seq<CInfo>, parname: string, defvalue: string, ids: set<GenId>)
    requires t.Valid() && AllContained(t, starts) && AllExplicit(starts)
    ensures IsCreated(Parameter(defvalue), t, starts, parname, ids) ==>
      IsOneParameter(t, starts, AsSet(Emit(Parameter(defvalue), ReducedTree(t, starts, parname).value, true, None)),
                     defvalue)
  {
    if IsCreated(Parameter(defvalue), t, starts, parname, ids) {
      var r, p := ReducedTree(t, starts, parname).value, DescentPath(Merge(PathsTo(t, starts), parname).value);
      CreatedIsReducible(Parameter(defvalue), t, starts, parname, ids);
      RootIsPlaced(t, starts, parname);
      AllReached(Parameter(defvalue), t, starts, parname);
      RootElaborates(t, starts, parname, defvalue, ids);
      AssembleParameter(t, starts, AsSet(Emit(Parameter(defvalue), r, true, None)), defvalue, p,
                        NodeName(Parameter(defvalue), r, true, None));
    }
  }

  lemma RootElaborates(t: Tables, starts: seq<CInfo>, parname: string, defvalue: string, ids: set<GenId>)
    requires t.Valid() && AllContained(t, starts) && AllExplicit(starts) && IsReducible(t, starts, parname)
    requires IsCreated(Parameter(defvalue), t, starts, parname, ids)
    ensures var r, p := ReducedTree(t, starts, parname).value, DescentPath(Merge(PathsTo(t, starts), parname).value);
      var objs, name := AsSet(Emit(Parameter(defvalue), r, true, None)), NodeName(Parameter(defvalue), r, true, None);
      p != [] && Param(p[|p| - 1].name, name, defvalue) in objs && AllElaborate(t, objs, p[|p| - 1].name, name)
  {
    RootOfNet(t, starts, parname);
    FreshAreDistinct(ids, Emit(Parameter(defvalue), ReducedTree(t, starts, parname).value, true, None));
    ParameterElaborates(t, ReducedTree(t, starts, parname).value, defvalue);
  }

  lemma AssembleParameter(t: Tables, starts: seq<CInfo>, objs: set<GenObj>, defvalue: string, p: seq<Obj>, name: string)
    requires t.Valid() && AllContained(t, starts) && IsPlaced(t, starts, p)
    requires Param(p[|p| - 1].name, name, defvalue) in objs
    requires AllElaborate(t, objs, p[|p| - 1].name, name) && Reaches(objs, starts)
    ensures IsOneParameter(t, starts, objs, defvalue)
  {
    assert IsParameterAt(t, starts, objs, defvalue, p, name);
  }

  lemma {:induction false} ReversedMembers(objs: seq<GenObj>)
    ensures AsSet(Reversed(objs)) == AsSet(objs)
  {
    if objs != [] {
      var n := |objs| - 1;
      ReversedMembers(objs[..n]);
      assert objs == objs[..n] + [objs[n]];
      assert forall o :: o in Reversed(objs) <==> o == objs[n] || o in AsSet(Reversed(objs[..n]));
    }
  }
}
