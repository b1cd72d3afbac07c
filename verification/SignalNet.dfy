/** A created signal is one electrically connected net (ig_lib_htree_process_signal).  */
module SignalNet {
  import opened Wrappers
  import opened ConnectionInfo
  import opened HierarchyDb
  import opened MergeTree
  import opened TreeShape
  import opened Generation

  /** A pin is wired to the signal of that name in the module around the instance; a port is the inside
      of the pin of that name on the module's instance. */
  predicate Wired(t: Tables, a: GenObj, b: GenObj) {
    if b.Pin? then (a.Decl? || a.Port?) && Surrounding(t, b.inst) == Some(a.mod) && b.conn == a.name
    else b.Port? && a.Pin? && a.inst == Def(b.mod) && a.name == b.name
  }

  ghost predicate IsWire(t: Tables, objs: set<GenObj>, wire: seq<GenObj>) {
    && wire != []
    && (forall k :: 0 <= k < |wire| ==> wire[k] in objs)
    && (forall k :: 0 <= k < |wire| - 1 ==> Wired(t, wire[k], wire[k + 1]))
  }

  /** o is connected to root through generated objects. */
  ghost predicate OnNet(t: Tables, objs: set<GenObj>, root: GenObj, o: GenObj) {
    exists wire :: IsWire(t, objs, wire) && wire[0] == root && wire[|wire| - 1] == o
  }

  lemma OnNetGrows(t: Tables, objs: set<GenObj>, root: GenObj, a: GenObj, b: GenObj)
    requires OnNet(t, objs, root, a) && Wired(t, a, b) && b in objs
    ensures OnNet(t, objs, root, b)
  {
    var wire :| IsWire(t, objs, wire) && wire[0] == root && wire[|wire| - 1] == a;
    var longer := wire + [b];
    forall k | 0 <= k < |longer| - 1 ensures Wired(t, longer[k], longer[k + 1]) {
      if k < |wire| - 1 { assert Wired(t, wire[k], wire[k + 1]); }
    }
    assert IsWire(t, objs, longer);
  }

  /** A node's object is wired to the object of the node above. */
  lemma ChildIsWired(t: Tables, n: HNode, isRoot: bool, parentName: Option<string>, c: HNode)
    requires n.info.localName.Some? && c.info.localName.Some? && Link(t, n.info.obj, c.info.obj)
    ensures Wired(t, Own(Signal, n, isRoot, parentName),
      Own(Signal, c, false, Some(NodeName(Signal, n, isRoot, parentName))))
  {
  }

  lemma {:induction false} SubtreeOnNet(t: Tables, n: HNode, isRoot: bool, parentName: Option<string>,
                                        objs: set<GenObj>, root: GenObj)
    requires TreeOk(t, n) && Named(n)
    requires forall o :: o in Emit(Signal, n, isRoot, parentName) ==> o in objs
    requires OnNet(t, objs, root, Own(Signal, n, isRoot, parentName))
    ensures forall o :: o in Emit(Signal, n, isRoot, parentName) ==> OnNet(t, objs, root, o)
    decreases n, 1
  {
    var name := NodeName(Signal, n, isRoot, parentName);
    forall i | 0 <= i < |n.children|
      ensures Wired(t, Own(Signal, n, isRoot, parentName), Own(Signal, n.children[i], false, Some(name)))
    {
      assert Step(t, n.info, n.children[i].info);
      ChildIsWired(t, n, isRoot, parentName, n.children[i]);
    }
    SubtreesOnNet(t, n.children, Own(Signal, n, isRoot, parentName), Some(name), objs, root);
  }

  lemma {:induction false} SubtreesOnNet(t: Tables, ns: seq<HNode>, above: GenObj, parentName: Option<string>,
                                         objs: set<GenObj>, root: GenObj)
    requires forall i :: 0 <= i < |ns| ==> TreeOk(t, ns[i]) && Named(ns[i])
    requires forall i :: 0 <= i < |ns| ==>
      ns[i].info.localName.Some? && Wired(t, above, Own(Signal, ns[i], false, parentName))
    requires forall o :: o in EmitAll(Signal, ns, parentName) ==> o in objs
    requires OnNet(t, objs, root, above)
    ensures forall o :: o in EmitAll(Signal, ns, parentName) ==> OnNet(t, objs, root, o)
    decreases ns, 0
  {
    if ns != [] {
      assert Own(Signal, ns[0], false, parentName) in Emit(Signal, ns[0], false, parentName);
      OnNetGrows(t, objs, root, above, Own(Signal, ns[0], false, parentName));
      SubtreeOnNet(t, ns[0], false, parentName, objs, root);
      SubtreesOnNet(t, ns[1..], above, parentName, objs, root);
    }
  }

  /** Every generated object is connected to the declaration in the root module. */
  lemma NetIsConnected(t: Tables, n: HNode)
    requires TreeOk(t, n) && Named(n) && n.info.obj.Mod?
    ensures Emit(Signal, n, true, None)[0] == Decl(n.info.obj.name, NodeName(Signal, n, true, None))
    ensures forall o :: o in Emit(Signal, n, true, None) ==>
      OnNet(t, AsSet(Emit(Signal, n, true, None)), Emit(Signal, n, true, None)[0], o)
  {
    var objs := Emit(Signal, n, true, None);
    var root := Own(Signal, n, true, None);
    assert objs[0] == root && root in objs;
    assert IsWire(t, AsSet(objs), [root]) && [root][|[root]| - 1] == root;
    assert OnNet(t, AsSet(objs), root, root);
    SubtreeOnNet(t, n, true, None, AsSet(objs), root);
  }
}
