/** A created parameter: what its objects elaborate to (ig_lib_htree_process_parameter). */
module Parameters {
  import opened Wrappers
  import opened Forest
  import opened ConnectionInfo
  import opened HierarchyDb
  import opened MergeTree
  import opened TreeShape
  import opened Generation

  // ---------------------------------------------------------------------------
  // Elaboration: what the generated text means, read without the tree.

  ghost predicate Adjusted(objs: set<GenObj>, m: Name, name: string) {
    exists v :: Adj(Def(m), name, v) in objs
  }

  ghost predicate Declared(objs: set<GenObj>, m: Name, name: string) {
    exists d :: Param(m, name, d) in objs
  }

  /** What a name means inside module m. The root's parameter has the overriding value; any other
      parameter has the value its instance is adjusted to, read in the module around, or else its default;
      a name that is no parameter stands for itself. */
  ghost function Meaning(t: Tables, objs: set<GenObj>, root: Name, rootName: string, override: string, m: Name,
                         name: string): string
    requires t.Valid()
    decreases RankOf(t.rank, m)
  {
    if m == root && name == rootName then override
    else if m in t.parents && Adjusted(objs, m, name) then
      var v :| Adj(Def(m), name, v) in objs;
      Meaning(t, objs, root, rootName, override, t.parents[m], v)
    else if Declared(objs, m, name) then
      var d :| Param(m, name, d) in objs; d
    else name
  }

  /** The value of a generated object. */
  ghost function Elaborated(t: Tables, objs: set<GenObj>, root: Name, rootName: string, override: string,
                            o: GenObj): string
    requires t.Valid()
  {
    match o
    case Param(m, name, _) => Meaning(t, objs, root, rootName, override, m, name)
    case Adj(inst, _, v) =>
      if Surrounding(t, inst).Some?
      then Meaning(t, objs, root, rootName, override, Surrounding(t, inst).value, v)
      else v
    case _ => ""
  }

  /** Whatever the root's parameter is set to, everything generated has that value. */
  ghost predicate AllElaborate(t: Tables, objs: set<GenObj>, root: Name, rootName: string)
    requires t.Valid()
  {
    forall o, override :: o in objs ==> Elaborated(t, objs, root, rootName, override, o) == override
  }

  // ---------------------------------------------------------------------------
  // The generated objects

  /** A node's object takes the value of the object of the node above. */
  lemma ChildTakesValue(t: Tables, what: Creation, n: HNode, isRoot: bool, parentName: Option<string>, c: HNode,
                        objs: set<GenObj>, root: Name, rootName: string, override: string)
    requires t.Valid() && what.Parameter? && DistinctIds(objs)
    requires n.info.localName.Some? && c.info.localName.Some? && Link(t, n.info.obj, c.info.obj)
    requires Own(what, n, isRoot, parentName) in objs
    requires isRoot ==> n.info.obj.Mod?
    requires !n.info.obj.Mod? ==> Surrounding(t, n.info.obj).Some? && parentName.Some?
    requires Elaborated(t, objs, root, rootName, override, Own(what, n, isRoot, parentName)) == override
    ensures Elaborated(t, objs, root, rootName, override,
                       Own(what, c, false, Some(NodeName(what, n, isRoot, parentName)))) == override
  {
    if n.info.obj.Def? {
      var m, o := n.info.obj.name, Own(what, n, isRoot, parentName);
      assert o == Adj(Def(m), o.name, o.value);
      assert forall v :: Adj(Def(m), o.name, v) in objs ==> Adj(Def(m), o.name, v).Id() == o.Id();
    }
  }

  lemma {:induction false} SubtreeElaborates(t: Tables, what: Creation, n: HNode, isRoot: bool,
                                             parentName: Option<string>, objs: set<GenObj>, root: Name,
                                             rootName: string, override: string)
    requires t.Valid() && what.Parameter? && DistinctIds(objs) && TreeOk(t, n) && Named(n)
    requires isRoot ==> n.info.obj.Mod?
    requires !n.info.obj.Mod? ==> Surrounding(t, n.info.obj).Some? && parentName.Some?
    requires forall o :: o in Emit(what, n, isRoot, parentName) ==> o in objs
    requires Elaborated(t, objs, root, rootName, override, Own(what, n, isRoot, parentName)) == override
    ensures forall o :: o in Emit(what, n, isRoot, parentName) ==>
      Elaborated(t, objs, root, rootName, override, o) == override
    decreases n, 1
  {
    var name := NodeName(what, n, isRoot, parentName);
    forall i | 0 <= i < |n.children|
      ensures Elaborated(t, objs, root, rootName, override, Own(what, n.children[i], false, Some(name))) == override
      ensures !n.children[i].info.obj.Mod? ==> Surrounding(t, n.children[i].info.obj).Some?
    {
      assert Step(t, n.info, n.children[i].info);
      ChildTakesValue(t, what, n, isRoot, parentName, n.children[i], objs, root, rootName, override);
    }
    SubtreesElaborate(t, what, n.children, Some(name), objs, root, rootName, override);
  }

  lemma {:induction false} SubtreesElaborate(t: Tables, what: Creation, ns: seq<HNode>, parentName: Option<string>,
                                             objs: set<GenObj>, root: Name, rootName: string, override: string)
    requires t.Valid() && what.Parameter? && DistinctIds(objs) && parentName.Some?
    requires forall i :: 0 <= i < |ns| ==> TreeOk(t, ns[i]) && Named(ns[i])
    requires forall i :: 0 <= i < |ns| ==> (!ns[i].info.obj.Mod? ==> Surrounding(t, ns[i].info.obj).Some?)
    requires forall i :: 0 <= i < |ns| ==>
      ns[i].info.localName.Some?
        && Elaborated(t, objs, root, rootName, override, Own(what, ns[i], false, parentName)) == override
    requires forall o :: o in EmitAll(what, ns, parentName) ==> o in objs
    ensures forall o :: o in EmitAll(what, ns, parentName) ==>
      Elaborated(t, objs, root, rootName, override, o) == override
    decreases ns, 0
  {
    if ns != [] {
      SubtreeElaborates(t, what, ns[0], false, parentName, objs, root, rootName, override);
      SubtreesElaborate(t, what, ns[1..], parentName, objs, root, rootName, override);
    }
  }

  /** Every generated object has the root parameter's value. */
  lemma ParameterElaborates(t: Tables, n: HNode, defvalue: string)
    requires t.Valid() && TreeOk(t, n) && Named(n) && n.info.obj.Mod?
    requires DistinctIds(AsSet(Emit(Parameter(defvalue), n, true, None)))
    ensures AllElaborate(t, AsSet(Emit(Parameter(defvalue), n, true, None)), n.info.obj.name, n.info.localName.value)
  {
    var what := Parameter(defvalue);
    var objs := AsSet(Emit(what, n, true, None));
    forall o, override | o in objs
      ensures Elaborated(t, objs, n.info.obj.name, n.info.localName.value, override, o) == override
    {
      SubtreeElaborates(t, what, n, true, None, objs, n.info.obj.name, n.info.localName.value, override);
    }
  }
}
