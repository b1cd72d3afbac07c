/** What is generated for a signal or a parameter at every node of the hierarchy tree
    (ig_lib_htree_process_signal, ig_lib_htree_process_parameter).  */
module Generation {
  import opened Wrappers
  import opened ConnectionInfo
  import opened HierarchyDb
  import opened MergeTree
  import opened MergeProperties
  import opened TreeShape
  import opened Reduce

  datatype PortDir = In | Out | Bidir

  /** What is created: a signal, or a parameter with its default value. */
  datatype Creation = Signal | Parameter(defvalue: string)

  /** The generated objects. For a signal: a declaration in the root module, ports of modules, pins of
      instances; for a parameter: parameters of modules, adjustments of instances. */
  datatype GenObj =
    | Decl(mod: Name, name: string)
    | Port(mod: Name, dir: PortDir, name: string)
    | Pin(inst: Obj, name: string, conn: string, invert: bool)
    | Param(mod: Name, name: string, defvalue: string)
    | Adj(inst: Obj, name: string, value: string)
  {
    /** The identifier in the database names the kind, the owner and the object. */
    function Id(): GenId {
      match this
      case Decl(m, n) => GenId("declaration", m, n)
      case Port(m, _, n) => GenId("port", m, n)
      case Pin(i, n, _, _) => GenId("pin", i.name, n)
      case Param(m, n, _) => GenId("parameter", m, n)
      case Adj(i, n, _) => GenId("adjustment", i.name, n)
    }

    /** The module or instance the object belongs to. */
    function Owner(): Obj {
      match this
      case Decl(m, _) => Mod(m)
      case Port(m, _, _) => Mod(m)
      case Pin(i, _, _, _) => i
      case Param(m, _, _) => Mod(m)
      case Adj(i, _, _) => i
    }
  }

  /** Two objects share an identifier exactly if they are of one kind, in modules or at instances of one name, and
      have one name; direction, connection, value and inversion do not matter. */
  lemma SameIdIff(a: GenObj, b: GenObj)
    ensures a.Id() == b.Id() <==>
      && (a.Decl? <==> b.Decl?) && (a.Port? <==> b.Port?) && (a.Pin? <==> b.Pin?) && (a.Param? <==> b.Param?)
      && a.Owner().name == b.Owner().name && a.name == b.name
  {
  }

  datatype GenId = GenId(kind: string, owner: Name, name: string)

  predicate IsLower(c: char) { 'a' <= c <= 'z' }

  predicate IsUpper(c: char) { 'A' <= c <= 'Z' }

  /** ig_lib_gen_name_iscaps */
  predicate IsCaps(name: string) {
    (forall c :: c in name ==> !IsLower(c)) && (exists c :: c in name && IsUpper(c))
  }

  function NameSignal(base: string): string {
    base + if IsCaps(base) then "_S" else "_s"
  }

  function NamePinPort(base: string, dir: PortDir): string {
    base + match dir
    case In => if IsCaps(base) then "_I" else "_i"
    case Out => if IsCaps(base) then "_O" else "_o"
    case Bidir => if IsCaps(base) then "_B" else "_b"
  }

  /** Names get an underscore and a letter: s for signals, i, o or b for pins and ports; a capital one exactly for
      names with a capital and no small letter. */
  lemma SuffixLetters(base: string, dir: PortDir)
    ensures var small := (exists c :: c in base && 'a' <= c <= 'z') || !(exists c :: c in base && 'A' <= c <= 'Z');
      && NameSignal(base) == base + (if small then "_s" else "_S")
      && NamePinPort(base, In) == base + (if small then "_i" else "_I")
      && NamePinPort(base, Out) == base + (if small then "_o" else "_O")
      && NamePinPort(base, Bidir) == base + (if small then "_b" else "_B")
  {
    assert IsCaps(base) <==> (forall c :: c in base ==> !IsLower(c)) && exists c :: c in base && IsUpper(c);
  }

  /** The letter before which an underscore marks a direction, in small or capital letters like the name. */
  predicate IsDirLetter(name: string, letter: char) {
    if IsCaps(name) then letter in {'I', 'O', 'B'} else letter in {'i', 'o', 'b'}
  }

  /** The name without its direction suffix: what the letter comparisons of ig_lib_rm_suffix_pinport are after. */
  function WithoutDirSuffix(name: string): string {
    if |name| >= 3 && name[|name| - 2] == '_' && IsDirLetter(name, name[|name| - 1]) then name[..|name| - 2] else name
  }

  /** Nothing but a direction suffix is stripped exactly if the name is short, has no underscore before its
      last letter, or ends in a direction letter. */
  lemma StripsOnlyDirSuffixIff(name: string)
    ensures RmSuffix(name) == WithoutDirSuffix(name)
            <==> |name| < 3 || name[|name| - 2] != '_' || IsDirLetter(name, name[|name| - 1])
  {
    if RmSuffix(name) == WithoutDirSuffix(name) && |name| >= 3 && name[|name| - 2] == '_' {
      assert |RmSuffix(name)| == |name| - 2;
    }
  }

  /** A name ending in another letter loses it as well. */
  lemma StripsOtherLetters()
    ensures RmSuffix("data_q") == "data" && WithoutDirSuffix("data_q") == "data_q"
  {
    assert !IsCaps("data_q") by { assert "data_q"[0] == 'd' && 'd' in "data_q"; }
    assert "data_q"[..4] == "data";
  }

  /** Stripping gives back every name from its generated pin or port name, except the empty one. */
  lemma SuffixRoundTrip(base: string, dir: PortDir)
    ensures RmSuffix(NamePinPort(base, dir)) == base <==> base != ""
  {
    var name := NamePinPort(base, dir);
    assert |name| == |base| + 2 && name[|base|] == '_' && name[..|base|] == base;
  }

  function PortDirOf(d: Dir): PortDir {
    if d == UP then Out else if d == BIDIR then Bidir else In
  }

  /** The name a node passes down: that of its own object. Only a signal's names are given suffixes. */
  function NodeName(what: Creation, n: HNode, isRoot: bool, parentName: Option<string>): string
    requires n.info.localName.Some?
  {
    var local := n.info.localName.value;
    if !n.info.obj.Mod? then
      (if what.Parameter? || n.info.forceName then local else NamePinPort(local, PortDirOf(n.info.dir)))
    else if isRoot then
      (if what.Parameter? || n.info.forceName then local else NameSignal(local))
    else if parentName.Some? then parentName.value else ""
  }

  /** What is generated at a node. */
  function Own(what: Creation, n: HNode, isRoot: bool, parentName: Option<string>): GenObj
    requires n.info.localName.Some?
  {
    var name := NodeName(what, n, isRoot, parentName);
    var above := if parentName.Some? then parentName.value else "";
    match n.info.obj
    case Mod(m) =>
      if what.Parameter? then Param(m, name, what.defvalue)
      else if isRoot then Decl(m, name)
      else Port(m, PortDirOf(n.info.dir), name)
    case _ =>
      if what.Parameter? then Adj(n.info.obj, name, above)
      else Pin(n.info.obj, name, above, n.info.invert)
  }

  ghost predicate Named(n: HNode) {
    n.info.localName.Some? && forall i :: 0 <= i < |n.children| ==> Named(n.children[i])
  }

  /** Everything generated below a node, in traversal order. */
  ghost function Emit(what: Creation, n: HNode, isRoot: bool, parentName: Option<string>): seq<GenObj>
    requires Named(n)
    decreases n, 1
  {
    [Own(what, n, isRoot, parentName)] + EmitAll(what, n.children, Some(NodeName(what, n, isRoot, parentName)))
  }

  ghost function EmitAll(what: Creation, ns: seq<HNode>, parentName: Option<string>): seq<GenObj>
    requires forall i :: 0 <= i < |ns| ==> Named(ns[i])
    decreases ns, 0
  {
    if ns == [] then [] else Emit(what, ns[0], false, parentName) + EmitAll(what, ns[1..], parentName)
  }

  lemma {:induction false} OkTreesAreNamed(t: Tables, n: HNode)
    requires TreeOk(t, n)
    ensures Named(n)
  {
    forall i | 0 <= i < |n.children| ensures Named(n.children[i]) {
      OkTreesAreNamed(t, n.children[i]);
    }
  }

  /** Merging names every node, conflicting names or not. */
  lemma {:induction false} MergedIsNamed(h: seq<seq<CInfo>>, signame: string)
    requires NonEmpty(h)
    ensures Merge(h, signame).Some? ==> Named(Merge(h, signame).value)
    decreases Size(h), 0, 0
  {
    if Merge(h, signame).Some? { MergedChildrenAreNamed(Tails(h), DefaultName(NodeInfo(h, signame))); }
  }

  lemma {:induction false} MergedChildrenAreNamed(successors: seq<seq<CInfo>>, name: string)
    requires NonEmpty(successors) && MergeChildren(successors, name).Some?
    ensures forall i :: 0 <= i < |MergeChildren(successors, name).value| ==>
      Named(MergeChildren(successors, name).value[i])
    decreases Size(successors), 1, |successors|
  {
    if successors != [] {
      var ref, others := successors[0][0], successors[1..];
      var equal, rest := [successors[0]] + Select(ref, others, true), Select(ref, others, false);
      GroupIsSmaller(successors);
      FirstGroup(successors, equal, rest, name);
      MergedIsNamed(equal, name);
      MergedChildrenAreNamed(rest, name);
    }
  }

  lemma {:induction false} ReducedIsNamed(n: HNode)
    requires Named(n)
    ensures Descend(n).Some? ==> Named(Descend(n).value)
  {
    if |n.children| == 1 { ReducedIsNamed(n.children[0]); }
  }

  /** The module an instance sits in. */
  function Surrounding(t: Tables, inst: Obj): Option<Name> {
    match inst
    case Def(m) => if m in t.parents then Some(t.parents[m]) else None
    case Res(i) => if i in t.resources then Some(t.resources[i].parent) else None
    case Mod(_) => None
  }

  ghost function AsSet(objs: seq<GenObj>): set<GenObj> { set o | o in objs }

  ghost predicate DistinctIds(objs: set<GenObj>) {
    forall a, b :: a in objs && b in objs && a.Id() == b.Id() ==> a == b
  }

  /** Every node of the tree gets its object. */
  lemma {:induction false} EveryNodeEmits(what: Creation, n: HNode, isRoot: bool, parentName: Option<string>,
                                          p: seq<Obj>, x: HNode)
    returns (above: Option<string>)
    requires Named(n) && NodeAt(n, p, x)
    ensures x.info.localName.Some? && Own(what, x, isRoot && |p| == 1, above) in Emit(what, n, isRoot, parentName)
    decreases |p|
  {
    if |p| == 1 {
      above := parentName;
    } else {
      var name := Some(NodeName(what, n, isRoot, parentName));
      var k :| 0 <= k < |n.children| && NodeAt(n.children[k], p[1..], x);
      above := EveryNodeEmits(what, n.children[k], false, name, p[1..], x);
      EmittedByChild(what, n.children, name, k, Own(what, x, false, above));
    }
  }

  /** Every object is that of a node of the tree, and so are the objects of the node's children. */
  ghost predicate IsOwnOf(what: Creation, n: HNode, isRoot: bool, parentName: Option<string>, o: GenObj, p: seq<Obj>,
                          x: HNode, top: bool, above: Option<string>)
    requires Named(n)
  {
    && NodeAt(n, p, x) && x.info.localName.Some? && o == Own(what, x, top, above) && top == (isRoot && |p| == 1)
    && forall k :: 0 <= k < |x.children| && x.children[k].info.localName.Some? ==>
         Own(what, x.children[k], false, Some(NodeName(what, x, top, above))) in Emit(what, n, isRoot, parentName)
  }

  lemma {:induction false} EmittedByNode(what: Creation, n: HNode, isRoot: bool, parentName: Option<string>, o: GenObj)
    returns (p: seq<Obj>, x: HNode, top: bool, above: Option<string>)
    requires Named(n) && o in Emit(what, n, isRoot, parentName)
    ensures IsOwnOf(what, n, isRoot, parentName, o, p, x, top, above)
    decreases n, 1
  {
    var name := Some(NodeName(what, n, isRoot, parentName));
    if o == Own(what, n, isRoot, parentName) {
      p, x, top, above := [n.info.obj], n, isRoot, parentName;
      forall k | 0 <= k < |n.children|
        ensures Own(what, n.children[k], false, name) in Emit(what, n, isRoot, parentName)
      {
        EmittedByChild(what, n.children, name, k, Own(what, n.children[k], false, name));
      }
    } else {
      var k, q;
      k, q, x, top, above := EmittedBySome(what, n.children, name, o);
      p := [n.info.obj] + q;
      assert p[1..] == q && SomeNodeAt(n.children, p[1..], x);
      var c := n.children[k];
      forall j | 0 <= j < |x.children| && x.children[j].info.localName.Some?
        ensures Own(what, x.children[j], false, Some(NodeName(what, x, top, above)))
                in Emit(what, n, isRoot, parentName)
      {
        EmittedByChild(what, n.children, name, k, Own(what, x.children[j], false, Some(NodeName(what, x, top, above))));
      }
    }
  }

  lemma {:induction false} EmittedBySome(what: Creation, ns: seq<HNode>, parentName: Option<string>, o: GenObj)
    returns (k: nat, p: seq<Obj>, x: HNode, top: bool, above: Option<string>)
    requires (forall i :: 0 <= i < |ns| ==> Named(ns[i])) && o in EmitAll(what, ns, parentName)
    ensures k < |ns| && IsOwnOf(what, ns[k], false, parentName, o, p, x, top, above)
    decreases ns, 0
  {
    if o in Emit(what, ns[0], false, parentName) {
      k := 0;
      p, x, top, above := EmittedByNode(what, ns[0], false, parentName, o);
    } else {
      k, p, x, top, above := EmittedBySome(what, ns[1..], parentName, o);
      k := k + 1;
    }
  }

  lemma {:induction false} EmittedByChild(what: Creation, ns: seq<HNode>, parentName: Option<string>, k: nat, o: GenObj)
    requires (forall i :: 0 <= i < |ns| ==> Named(ns[i])) && k < |ns|
    requires o in Emit(what, ns[k], false, parentName)
    ensures o in EmitAll(what, ns, parentName)
    decreases k
  {
    if k > 0 { EmittedByChild(what, ns[1..], parentName, k - 1, o); }
  }
}
