/** Inputs on which the connection engine does not do what its interface promises. */
module EdgeCases {
  import opened Wrappers
  import opened ConnectionInfo
  import opened HierarchyDb
  import opened MergeTree
  import opened MergeProperties
  import opened MergeAttributes
  import opened MergeNodes
  import opened Reduce
  import opened Labels
  import opened Generation
  import opened SignalNet
  import opened Connections
  import opened Chains
  import opened Names
  import opened TopForks
  import opened ConnectionEngine

  /** A top module with a module a in it. */
  function TwoModules(): (t: Tables)
    ensures t.Valid()
  {
    Tables(map["top" := false, "a" := false], map["a" := "top"], map[], map["top" := 0, "a" := 1])
  }

  /** An explicit start point at module m. */
  function At(m: Name, name: Option<string>, force: bool): CInfo {
    CInfo(Mod(m), None, name, true, force, DEFAULT, false)
  }

  lemma ChainsOfTwo()
    ensures Chain(TwoModules(), Mod("top")) == [Def("top"), Mod("top")]
    ensures Chain(TwoModules(), Mod("a")) == [Def("top"), Mod("top"), Def("a"), Mod("a")]
  {
    var t := TwoModules();
    assert Chain(t, Def("top")) == [Def("top")];
    assert Chain(t, Def("a")) == Chain(t, Mod("top")) + [Def("a")];
    assert Chain(t, Mod("a")) == Chain(t, Def("a")) + [Mod("a")];
  }

  predicate AreAtModules(starts: seq<CInfo>) {
    forall i :: 0 <= i < |starts| ==> starts[i].obj in {Mod("top"), Mod("a")} && starts[i].isExplicit
  }

  /** All paths start at the top module's instance, so they merge. */
  lemma PathsMerge(starts: seq<CInfo>, signame: string)
    requires AreAtModules(starts) && starts != []
    ensures AllContained(TwoModules(), starts) && Merge(PathsTo(TwoModules(), starts), signame).Some?
    ensures Merge(PathsTo(TwoModules(), starts), signame).value.info.obj == Def("top")
  {
    var t := TwoModules();
    var h: seq<seq<CInfo>> := PathsTo(t, starts);
    forall i | 0 <= i < |h| ensures h[i][0].obj == Def("top") {
      var j := StartOfPath(t, starts, h[i]);
      PathIsChain(t, starts[j]);
      ChainsOfTwo();
      assert Objs(h[i])[0] == h[i][0].obj;
    }
    MergeSucceedsIff(h, signame);
    HeadOfJoin(h);
  }

  lemma PathsReduce(starts: seq<CInfo>, signame: string)
    requires AreAtModules(starts) && starts != [] && NamesAgree(starts)
    ensures AllContained(TwoModules(), starts) && IsReducible(TwoModules(), starts, signame)
    ensures IsLowestModule(PathsTo(TwoModules(), starts),
      DescentPath(Merge(PathsTo(TwoModules(), starts), signame).value))
    ensures Named(ReducedTree(TwoModules(), starts, signame).value)
  {
    var t := TwoModules();
    PathsMerge(starts, signame);
    ConsistentIff(t, starts);
    PathsAreOk(t, starts);
    LowestCommonModule(t, PathsTo(t, starts), signame);
    ConsistentIsReducible(t, starts, signame);
    RootOfNet(t, starts, signame);
  }

  /** Two names for the top module: the procedure goes on with a freed tree. */
  lemma TwoNamesForTop(signame: string)
    ensures var starts := [At("top", Some("x"), false), At("top", Some("y"), false)];
      LosesTree(TwoModules(), starts, signame) && Lowest(TwoModules(), starts, signame).Freed?
  {
    var t, starts := TwoModules(), [At("top", Some("x"), false), At("top", Some("y"), false)];
    PathsMerge(starts, signame);
    assert Clash(t, starts[0], starts[1]);
    DanglesIff(t, starts, signame);
  }

  /** The object is created for a signal with these start points, and named for them. */
  ghost predicate Makes(starts: seq<CInfo>, signame: string, o: GenObj) {
    && AllContained(TwoModules(), starts) && IsReducible(TwoModules(), starts, signame)
    && Named(ReducedTree(TwoModules(), starts, signame).value)
    && o in Emit(Signal, ReducedTree(TwoModules(), starts, signame).value, true, None)
    && IsNamedFor(starts, o)
  }

  /** Some start point is at m, and all are if m is not the top module. */
  predicate MeetAt(starts: seq<CInfo>, i: nat, m: Name) {
    && AreAtModules(starts) && i < |starts| && starts[i].obj == Mod(m) && m in {"top", "a"}
    && (m == "a" ==> forall j :: 0 <= j < |starts| ==> starts[j].obj == Mod("a"))
  }

  /** The declaration of a signal goes to the module where the start points meet. */
  lemma DeclaredIn(starts: seq<CInfo>, signame: string, i: nat, m: Name) returns (decl: GenObj)
    requires NamesAgree(starts) && MeetAt(starts, i, m)
    ensures Makes(starts, signame, decl) && decl.Decl? && decl.mod == m
    ensures decl == Emit(Signal, ReducedTree(TwoModules(), starts, signame).value, true, None)[0]
  {
    var t := TwoModules();
    PathsReduce(starts, signame);
    var r, p := ReducedTree(t, starts, signame).value, DescentPath(Merge(PathsTo(t, starts), signame).value);
    LowestOfTwo(starts, i, p, m);
    decl := DeclAtRoot(starts, signame);
  }

  lemma DeclAtRoot(starts: seq<CInfo>, signame: string) returns (decl: GenObj)
    requires AreAtModules(starts) && AllContained(TwoModules(), starts) && NamesAgree(starts)
    requires IsReducible(TwoModules(), starts, signame)
    requires Named(ReducedTree(TwoModules(), starts, signame).value)
    ensures Makes(starts, signame, decl) && decl.Decl?
    ensures var p := DescentPath(Merge(PathsTo(TwoModules(), starts), signame).value);
      p != [] && Mod(decl.mod) == p[|p| - 1]
    ensures decl == Emit(Signal, ReducedTree(TwoModules(), starts, signame).value, true, None)[0]
  {
    var t := TwoModules();
    var r := ReducedTree(t, starts, signame).value;
    RootOfNet(t, starts, signame);
    NetIsConnected(t, r);
    ObjectsAreNamed(t, starts, signame);
    decl := Emit(Signal, r, true, None)[0];
    assert decl in AsSet(Emit(Signal, r, true, None));
  }

  lemma {:induction false} LowestOfTwo(starts: seq<CInfo>, i: nat, p: seq<Obj>, m: Name)
    requires MeetAt(starts, i, m) && IsLowestModule(PathsTo(TwoModules(), starts), p)
    ensures p[|p| - 1] == Mod(m)
  {
    var t := TwoModules();
    ChainsOfTwo();
    PathIsListed(t, starts, i);
    PathIsChain(t, starts[i]);
    PassesObjs(Path(t, starts[i]), p);
    assert p <= Chain(t, Mod(m));
    if m == "a" && |p| < 4 { AllReachA(starts, p); }
  }

  lemma {:induction false} AllReachA(starts: seq<CInfo>, p: seq<Obj>)
    requires AreAtModules(starts) && forall j :: 0 <= j < |starts| ==> starts[j].obj == Mod("a")
    requires IsLowestModule(PathsTo(TwoModules(), starts), p)
    ensures |p| >= 4
  {
    var t := TwoModules();
    var q := Chain(t, Mod("a"));
    ChainsOfTwo();
    forall path | path in PathsTo(t, starts) ensures Passes(path, q) {
      var j := StartOfPath(t, starts, path);
      PathIsChain(t, starts[j]);
      PassesObjs(path, q);
    }
  }

  lemma NamesOfTwo(a: CInfo, b: CInfo, end: Obj)
    ensures NamesFor([a, b], end) ==
      (if EndPoint(a) == end then LabelOf(a) else []) + (if EndPoint(b) == end then LabelOf(b) else [])
    ensures NamesFor([a], end) == if EndPoint(a) == end then LabelOf(a) else []
  {
    assert [a][..0] == [];
    assert NamesFor([a], end) == if EndPoint(a) == end then LabelOf(a) else [];
    assert [a, b][..1] == [a];
  }

  lemma NameOfDecl(starts: seq<CInfo>, decl: GenObj, m: Name, name: string, force: bool)
    requires IsNamedFor(starts, decl) && decl.Decl? && decl.mod == m && NamesFor(starts, Mod(m)) != []
    requires Deciding(NamesFor(starts, Mod(m)), true) == Label(name, force)
    ensures decl == Decl(m, if force then name else NameSignal(name))
  {
  }

  lemma NameOfPort(starts: seq<CInfo>, port: GenObj, m: Name, name: string)
    requires IsNamedFor(starts, port) && port.Port? && port.mod == m && NamesFor(starts, Mod(m)) != []
    requires Deciding(NamesFor(starts, Mod(m)), false) == Label(name, true)
    ensures port == Port(m, port.dir, name)
  {
  }

  lemma SignalNameOfX()
    ensures NameSignal("x") == "x_s"
  {
    assert !IsCaps("x") by { assert 'x' in "x" && "x"[0] == 'x'; }
  }

  /** Start points that agree on the name, the first of which forces it: the declaration has another name. */
  lemma ForcedNameIsLost(signame: string)
    ensures Makes([At("top", Some("x"), true), At("top", Some("x"), false)], signame, Decl("top", "x_s"))
  {
    var starts := [At("top", Some("x"), true), At("top", Some("x"), false)];
    var decl := DeclaredIn(starts, signame, 0, "top");
    NamesOfTwo(starts[0], starts[1], Mod("top"));
    NameOfDecl(starts, decl, "top", "x", false);
    SignalNameOfX();
  }

  /** The object at an end point elsewhere than the declaration's module. */
  lemma PortAtEnd(starts: seq<CInfo>, signame: string, i: nat, top: nat) returns (port: GenObj)
    requires NamesAgree(starts) && MeetAt(starts, top, "top") && i < |starts| && starts[i].obj == Mod("a")
    ensures Makes(starts, signame, port) && port.Port? && port.mod == "a"
  {
    var t := TwoModules();
    var decl := DeclaredIn(starts, signame, top, "top");
    var r := ReducedTree(t, starts, signame).value;
    EndPointEmits(Signal, t, starts, signame, i);
    port :| port in Emit(Signal, r, true, None) && port.Owner() == EndPoint(starts[i]);
    RootOfNet(t, starts, signame);
    NetIsConnected(t, r);
    NetHolds(t, AsSet(Emit(Signal, r, true, None)), decl, port);
    ObjectsAreNamed(t, starts, signame);
    assert port in AsSet(Emit(Signal, r, true, None));
  }

  lemma PortNamedX(signame: string) returns (dir: PortDir)
    ensures Makes([At("top", None, false), At("a", Some("x"), true)], signame, Port("a", dir, "x"))
  {
    var starts := [At("top", None, false), At("a", Some("x"), true)];
    var port := PortAtEnd(starts, signame, 1, 0);
    NamesOfTwo(starts[0], starts[1], Mod("a"));
    NameOfPort(starts, port, "a", "x");
    dir := port.dir;
  }

  lemma DeclNamedX(signame: string)
    ensures Makes([At("a", Some("x"), true)], signame, Decl("a", "x"))
  {
    var starts := [At("a", Some("x"), true)];
    var decl := DeclaredIn(starts, signame, 0, "a");
    NamesOfTwo(starts[0], starts[0], Mod("a"));
    NameOfDecl(starts, decl, "a", "x", true);
  }

  /** Two signals of which each forces the name x at module a: the port of the one and the declaration of the
      other have one name, and their identifiers do not stand in each other's way. */
  lemma ForcedNamesMeet(signame: string, other: string) returns (dir: PortDir)
    ensures Makes([At("top", None, false), At("a", Some("x"), true)], signame, Port("a", dir, "x"))
    ensures Makes([At("a", Some("x"), true)], other, Decl("a", "x"))
    ensures Port("a", dir, "x").Id() != Decl("a", "x").Id()
  {
    dir := PortNamedX(signame);
    DeclNamedX(other);
  }

  // ---------------------------------------------------------------------------
  // A signal from a module back to itself

  /** The records of a path to a named start point at a. */
  lemma PathToA(start: CInfo)
    requires start.obj == Mod("a") && start.localName.Some?
    ensures var path := Path(TwoModules(), start);
      && Objs(path) == [Def("top"), Mod("top"), Def("a"), Mod("a")] && |path| == 4
      && path[1].localName.None? && path[2].localName == start.localName && !path[1].isExplicit
  {
    var t := TwoModules();
    ChainsOfTwo();
    PathIsChain(t, start);
    var path := Path(t, start);
    PathPrefix(t, start, 1);
    PathPrefix(t, start, 2);
    assert Objs(path)[1] == path[1].obj && Objs(path)[2] == path[2].obj;
    PassesObjs(path, Chain(t, Mod("top")));
    PassesObjs(path, Chain(t, Def("a")));
    LabelOfStart(t, start, Mod("top"));
    LabelOfStart(t, start, Def("a"));
    DatabasePathEndsExplicit(t, start);
  }

  /** With two names at a, the merged tree parts above a: below the top module there are two nodes for it. */
  lemma PartsAboveA(h: seq<seq<CInfo>>, signame: string, a: seq<CInfo>, b: seq<CInfo>)
    requires NonEmpty(h) && Merge(h, signame).Some? && a in h && b in h && |a| > 1 && |b| > 1
    requires forall path :: path in h ==> path == a || path == b
    requires a[0].obj == b[0].obj && !SameName(a[1], b[1])
    ensures |Merge(h, signame).value.children| > 1
  {
    var name := ChildrenOfMerged(h, signame);
    InTails(h, a[1..]);
    InTails(h, b[1..]);
    var tails := Tails(h);
    assert tails[0] in tails;
    InTails(h, tails[0]);
    SeveralGroupsIff(tails, name);
    assert a[1..][0] == a[1] && b[1..][0] == b[1];
  }

  /** The tails of paths with a common second object that is not named are one group. */
  lemma OneGroup(h: seq<seq<CInfo>>, signame: string, a: seq<CInfo>, b: seq<CInfo>)
    returns (g: seq<seq<CInfo>>, name: string)
    requires NonEmpty(h) && Merge(h, signame).Some? && a in h && b in h && |a| > 1 && |b| > 1
    requires forall path :: path in h ==> path == a || path == b
    requires a[1].obj == b[1].obj && a[1].localName.None? && b[1].localName.None?
    ensures NonEmpty(g) && a[1..] in g && b[1..] in g && forall path :: path in g ==> path == a[1..] || path == b[1..]
    ensures Merge(g, name).Some? && Merge(h, signame).value.children == [Merge(g, name).value]
  {
    name := ChildrenOfMerged(h, signame);
    InTails(h, a[1..]);
    InTails(h, b[1..]);
    forall tail | tail in Tails(h) ensures tail == a[1..] || tail == b[1..] { InTails(h, tail); }
    var rest;
    g, rest := FirstOfGroups(Tails(h), name);
    assert a[1..][0] == a[1] && b[1..][0] == b[1];
    assert Tails(h)[0] in Tails(h);
    SeveralGroupsIff(Tails(h), name);
  }

  /** A signal from a to a under two names is declared in the module above, though a contains both end points. */
  lemma LoopBackIsDeclaredAbove(signame: string)
    ensures var t, starts := TwoModules(), [At("a", Some("x"), true).(dir := UP), At("a", Some("y"), true)];
      && ReducedTree(t, starts, signame).Some? && ReducedTree(t, starts, signame).value.info.obj == Mod("top")
      && Encloses(PathsTo(t, starts), Chain(t, Mod("a")))
  {
    var t, starts := TwoModules(), [At("a", Some("x"), true).(dir := UP), At("a", Some("y"), true)];
    var h: seq<seq<CInfo>> := PathsTo(t, starts);
    PathsMerge(starts, signame);
    PathToA(starts[0]);
    PathToA(starts[1]);
    ChainsOfTwo();
    var a, b := Path(t, starts[0]), Path(t, starts[1]);
    PathIsListed(t, starts, 0);
    PathIsListed(t, starts, 1);
    forall path | path in h ensures path == a || path == b { var i := StartOfPath(t, starts, path); }
    forall path | path in h ensures Passes(path, Chain(t, Mod("a"))) { PassesObjs(path, Chain(t, Mod("a"))); }
    TwoNamesPart(h, signame, a, b);
  }

  lemma TwoNamesPart(h: seq<seq<CInfo>>, signame: string, a: seq<CInfo>, b: seq<CInfo>)
    requires NonEmpty(h) && Merge(h, signame).Some? && a in h && b in h && |a| == 4 && |b| == 4
    requires forall path :: path in h ==> path == a || path == b
    requires Objs(a) == Objs(b) == [Def("top"), Mod("top"), Def("a"), Mod("a")]
    requires a[1].localName.None? && b[1].localName.None? && !a[1].isExplicit && !b[1].isExplicit
    requires !SameName(a[2], b[2])
    ensures Descend(Merge(h, signame).value).Some? && Descend(Merge(h, signame).value).value.info.obj == Mod("top")
  {
    assert forall k :: 0 <= k < 4 ==> a[k].obj == Objs(a)[k] && b[k].obj == Objs(b)[k];
    var g, name := OneGroup(h, signame, a, b);
    assert a[1..][0] == a[1] && b[1..][0] == b[1] && a[1..][1] == a[2] && b[1..][1] == b[2];
    PartsAboveA(g, name, a[1..], b[1..]);
    MergeSucceedsIff(g, name);
    HeadOfJoin(g);
    assert g[0] in g;
  }
}
