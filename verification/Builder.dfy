/** The traversals that create the objects of a signal or a parameter in the database. */
module Builder {
  import opened Wrappers
  import opened Sequences
  import opened ConnectionInfo
  import opened MergeTree
  import opened Generation

  /** All identifiers are new, and told apart. */
  ghost predicate AllFresh(ids: set<GenId>, objs: seq<GenObj>) {
    objs == [] || (AllFresh(ids, objs[..|objs| - 1]) && objs[|objs| - 1].Id() !in ids + IdsOf(objs[..|objs| - 1]))
  }

  ghost function IdsOf(objs: seq<GenObj>): set<GenId> {
    if objs == [] then {} else IdsOf(objs[..|objs| - 1]) + {objs[|objs| - 1].Id()}
  }

  lemma {:induction false} FreshConcat(ids: set<GenId>, a: seq<GenObj>, b: seq<GenObj>)
    ensures AllFresh(ids, a + b) <==> AllFresh(ids, a) && AllFresh(ids + IdsOf(a), b)
    ensures IdsOf(a + b) == IdsOf(a) + IdsOf(b)
  {
    if b == [] {
      assert a + b == a;
    } else {
      var n := |b| - 1;
      assert (a + b)[..|a + b| - 1] == a + b[..n];
      FreshConcat(ids, a, b[..n]);
      assert ids + IdsOf(a + b[..n]) == ids + IdsOf(a) + IdsOf(b[..n]);
    }
  }

  /** No two of them share an identifier. */
  lemma {:induction false} FreshAreDistinct(ids: set<GenId>, objs: seq<GenObj>)
    requires AllFresh(ids, objs)
    ensures DistinctIds(AsSet(objs))
    ensures forall o :: o in objs ==> o.Id() in IdsOf(objs)
  {
    if objs != [] {
      var n := |objs| - 1;
      FreshAreDistinct(ids, objs[..n]);
      assert objs == objs[..n] + [objs[n]];
      assert AsSet(objs) == AsSet(objs[..n]) + {objs[n]};
    }
  }

  /** That is: no identifier is taken before, and none occurs twice. */
  lemma {:induction false} AllFreshIff(ids: set<GenId>, objs: seq<GenObj>)
    ensures AllFresh(ids, objs) <==>
      && (forall i :: 0 <= i < |objs| ==> objs[i].Id() !in ids)
      && (forall i, j :: 0 <= i < j < |objs| ==> objs[i].Id() != objs[j].Id())
    ensures forall id :: id in IdsOf(objs) <==> exists i :: 0 <= i < |objs| && objs[i].Id() == id
  {
    if objs != [] {
      var n := |objs| - 1;
      AllFreshIff(ids, objs[..n]);
      assert forall i :: 0 <= i < n ==> objs[..n][i] == objs[i];
    }
  }

  /** No identifier was taken before. */
  lemma {:induction false} FreshAreNew(ids: set<GenId>, objs: seq<GenObj>, o: GenObj)
    requires AllFresh(ids, objs) && o in objs
    ensures o.Id() !in ids
  {
    var n := |objs| - 1;
    if o != objs[n] {
      assert o in objs[..n];
      FreshAreNew(ids, objs[..n], o);
    }
  }

  datatype Snapshot = Snapshot(ids: set<GenId>, genObjs: seq<GenObj>, error: bool)

  /** Creating objs leads from s to r: an error exactly when an identifier is taken, else all are there,
      newest first. */
  ghost predicate Creates(s: Snapshot, r: Snapshot, objs: seq<GenObj>) {
    && (r.error <==> s.error || !AllFresh(s.ids, objs)) && s.ids <= r.ids
    && (!r.error ==> r.genObjs == Reversed(objs) + s.genObjs && r.ids == s.ids + IdsOf(objs))
  }

  lemma CreatesConcat(s: Snapshot, r: Snapshot, q: Snapshot, a: seq<GenObj>, b: seq<GenObj>)
    requires Creates(s, r, a) && Creates(r, q, b)
    ensures Creates(s, q, a + b)
  {
    FreshConcat(s.ids, a, b);
    if !q.error {
      ReversedConcat(a, b);
      assert q.genObjs == Reversed(b) + (Reversed(a) + s.genObjs);
    }
  }

  /** The data the traversal callback updates. */
  class Traversal {
    var ids: set<GenId>          // identifiers in objects_by_id
    var genObjs: seq<GenObj>     // newest first
    var error: bool

    ghost function Now(): Snapshot
      reads this
    {
      Snapshot(ids, genObjs, error)
    }

    constructor (ids: set<GenId>)
      ensures Now() == Snapshot(ids, [], false)
    {
      this.ids, genObjs, error := ids, [], false;
    }

    method Create(o: GenObj)
      modifies this
      ensures Creates(old(Now()), Now(), [o])
    {
      assert [o][..0] == [];
      if o.Id() in ids {
        error := true;
      } else {
        ids := ids + {o.Id()};
        genObjs := [o] + genObjs;
      }
    }

    /** ig_lib_htree_process_signal_tfunc at a node, with the name the node above passed down. */
    method CreateForSignal(n: HNode, isRoot: bool, parentName: Option<string>) returns (name: string)
      requires n.info.localName.Some?
      requires n.info.obj.Mod? && !isRoot ==> parentName.Some?
      modifies this
      ensures name == NodeName(Signal, n, isRoot, parentName)
      ensures Creates(old(Now()), Now(), [Own(Signal, n, isRoot, parentName)])
    {
      var localName := n.info.localName.value;
      var pdir := In;
      if n.info.dir == UP { pdir := Out; } else if n.info.dir == BIDIR { pdir := Bidir; }
      if !n.info.obj.Mod? {
        var connName := if parentName.Some? then parentName.value else "";
        name := if n.info.forceName then localName else NamePinPort(localName, pdir);
        Create(Pin(n.info.obj, name, connName, n.info.invert));
      } else if isRoot {
        name := if n.info.forceName then localName else NameSignal(localName);
        Create(Decl(n.info.obj.name, name));
      } else {
        name := parentName.value;
        Create(Port(n.info.obj.name, pdir, name));
      }
    }

    /** ig_lib_htree_process_parameter_tfunc at a node; a root's parameter is never local. */
    method CreateForParameter(defvalue: string, n: HNode, isRoot: bool, parentName: Option<string>)
        returns (name: string)
      requires n.info.localName.Some?
      requires n.info.obj.Mod? && !isRoot ==> parentName.Some?
      modifies this
      ensures name == NodeName(Parameter(defvalue), n, isRoot, parentName)
      ensures Creates(old(Now()), Now(), [Own(Parameter(defvalue), n, isRoot, parentName)])
    {
      if !n.info.obj.Mod? {
        var adjName := if parentName.Some? then parentName.value else "";
        name := n.info.localName.value;
        Create(Adj(n.info.obj, name, adjName));
      } else {
        name := if isRoot then n.info.localName.value else parentName.value;
        Create(Param(n.info.obj.name, name, defvalue));
      }
    }

    /** The pre-order traversal. */
    method Visit(what: Creation, n: HNode, isRoot: bool, parentName: Option<string>)
      requires Named(n) && (n.info.obj.Mod? && !isRoot ==> parentName.Some?)
      modifies this
      ensures Creates(old(Now()), Now(), Emit(what, n, isRoot, parentName))
      decreases n, 1
    {
      ghost var start := Now();
      var name;
      match what {
        case Signal => name := CreateForSignal(n, isRoot, parentName);
        case Parameter(defvalue) => name := CreateForParameter(defvalue, n, isRoot, parentName);
      }
      ghost var middle := Now();
      VisitChildren(what, n.children, name);
      CreatesConcat(start, middle, Now(), [Own(what, n, isRoot, parentName)], EmitAll(what, n.children, Some(name)));
    }

    method VisitChildren(what: Creation, ns: seq<HNode>, name: string)
      requires forall i :: 0 <= i < |ns| ==> Named(ns[i])
      modifies this
      ensures Creates(old(Now()), Now(), EmitAll(what, ns, Some(name)))
      decreases ns, 0
    {
      ghost var done: seq<GenObj> := [];
      assert ns[0..] == ns;
      CreatesNothing(Now());
      for i := 0 to |ns|
        invariant Creates(old(Now()), Now(), done)
        invariant done + EmitAll(what, ns[i..], Some(name)) == EmitAll(what, ns, Some(name))
      {
        ghost var before, next := Now(), Emit(what, ns[i], false, Some(name));
        Visit(what, ns[i], false, Some(name));
        CreatesConcat(old(Now()), before, Now(), done, next);
        EmitAllStep(what, ns, i, Some(name), done);
        done := done + next;
      }
      assert done + [] == done;
    }
  }

  lemma CreatesNothing(s: Snapshot)
    ensures Creates(s, s, [])
  {
  }

  lemma EmitAllStep(what: Creation, ns: seq<HNode>, i: nat, parentName: Option<string>, done: seq<GenObj>)
    requires i < |ns| && forall k :: 0 <= k < |ns| ==> Named(ns[k])
    ensures done + EmitAll(what, ns[i..], parentName) ==
      (done + Emit(what, ns[i], false, parentName)) + EmitAll(what, ns[i + 1..], parentName)
  {
    assert ns[i..][1..] == ns[i + 1..];
  }
}
