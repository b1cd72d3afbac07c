/** The module and instance tables of the database, and the climb through them (ig_lib.c). */
module HierarchyDb {
  import opened Wrappers
  import opened Forest
  import opened ConnectionInfo

  datatype Outcome = Created | AlreadyExists | ParentIsResource | NotDefaultName | AlreadyInstantiated | WouldCycle

  datatype ResInst = ResInst(resource: Name, parent: Name)

  /** The tables as a value: what the climb reads. */
  datatype Tables = Tables(
    modules: map<Name, bool>,
    parents: Parents,
    resources: map<Name, ResInst>,
    rank: map<Name, nat>)
  {
    predicate IsResource(m: Name) { m in modules && modules[m] }

    predicate IsPlain(m: Name) { m in modules && !modules[m] }

    /** Links only lead from plain modules and resource instances to plain modules, and form a forest. */
    ghost predicate Valid() {
      && (forall m {:trigger parents[m]} :: m in parents ==> IsPlain(m) && IsPlain(parents[m]))
      && (forall i {:trigger resources[i]} :: i in resources ==>
            IsResource(resources[i].resource) && IsPlain(resources[i].parent))
      && Ranked(parents, rank)
    }

    predicate Contains(o: Obj) {
      match o
      case Mod(m) => m in modules
      case Def(m) => IsPlain(m)
      case Res(i) => i in resources
    }

    /** How far an object is from the top, for the climb. */
    ghost function Depth(o: Obj): nat {
      match o
      case Mod(m) => 2 * RankOf(rank, m) + 1
      case Def(m) => 2 * RankOf(rank, m)
      case Res(i) => if i in resources then 2 * RankOf(rank, resources[i].parent) + 2 else 0
    }
  }

  /** A state of the climbing loop: the current record and the two flags. */
  datatype Climber = Climber(cinfo: CInfo, copyFirst: bool, explicitNext: bool)

  /** One turn of the loop: the record of the object above, or None at the top. */
  function Above(t: Tables, c: Climber): Option<Climber>
    requires t.Contains(c.cinfo.obj)
  {
    match c.cinfo.obj
    case Mod(m) =>
      if t.IsResource(m) then None
      else if c.copyFirst then
        var info := NewInfo(Def(m), c.cinfo.localName, c.cinfo.dir);
        Some(Climber(info.(forceName := c.cinfo.forceName, invert := c.cinfo.invert), false, c.explicitNext))
      else Some(Climber(NewInfo(Def(m), None, c.cinfo.dir), false, c.explicitNext))
    case Def(m) =>
      if m !in t.parents then None
      else
        var info := NewInfo(Mod(t.parents[m]), None, c.cinfo.dir);
        Some(Climber(info.(isExplicit := c.explicitNext), c.copyFirst, false))
    case Res(i) =>
      var info := NewInfo(Mod(t.resources[i].parent), None, c.cinfo.dir);
      Some(Climber(info.(isExplicit := c.explicitNext), c.copyFirst, false))
  }

  lemma AboveIsCloser(t: Tables, c: Climber)
    requires t.Valid() && t.Contains(c.cinfo.obj) && Above(t, c).Some?
    ensures t.Contains(Above(t, c).value.cinfo.obj)
    ensures t.Depth(Above(t, c).value.cinfo.obj) < t.Depth(c.cinfo.obj)
  {
  }

  /** Everything above and including the current record, top first. */
  ghost function Climb(t: Tables, c: Climber): (r: seq<CInfo>)
    requires t.Valid() && t.Contains(c.cinfo.obj)
    ensures r != [] && r[|r| - 1] == c.cinfo
    decreases t.Depth(c.cinfo.obj)
  {
    match Above(t, c)
    case None => [c.cinfo]
    case Some(a) => AboveIsCloser(t, c); Climb(t, a) + [c.cinfo]
  }

  /** The start of a climb: an instance of a plain module stands for the module. */
  function Start(t: Tables, cinfo: CInfo): Climber {
    match cinfo.obj
    case Def(m) => Climber(cinfo.(obj := Mod(m)), true, false)
    case Res(i) => Climber(cinfo, false, true)
    case Mod(m) => Climber(cinfo, t.IsPlain(m), false)
  }

  /** The path from the top to a start point. */
  ghost function Path(t: Tables, cinfo: CInfo): seq<CInfo>
    requires t.Valid() && t.Contains(cinfo.obj)
  {
    Climb(t, Start(t, cinfo))
  }

  class LibDb {
    var modules: map<Name, bool>
    var parents: Parents                 // of the default instances
    var resources: map<Name, ResInst>
    ghost var rank: map<Name, nat>

    ghost function Contents(): Tables
      reads this
    {
      Tables(modules, parents, resources, rank)
    }

    ghost predicate Valid()
      reads this
    {
      Contents().Valid()
    }

    constructor ()
      ensures Valid() && Contents() == Tables(map[], map[], map[], map[])
    {
      modules, parents, resources, rank := map[], map[], map[], map[];
    }

    /** ig_lib_add_module */
    method AddModule(name: Name, resource: bool) returns (r: Outcome)
      requires Valid()
      modifies this
      ensures Valid()
      ensures r == if name in old(modules) then AlreadyExists else Created
      ensures Contents() == if r == Created then old(Contents()).(modules := old(modules)[name := resource])
        else old(Contents())
    {
      if name in modules { return AlreadyExists; }
      modules := modules[name := resource];
      return Created;
    }

    /** The loop body of ig_lib_gen_hierarchy: the record of the object above, or None at the top. */
    method ClimbStep(c: Climber) returns (up: Option<Climber>)
      requires Contents().Contains(c.cinfo.obj)
      ensures up == Above(Contents(), c)
    {
      var cinfo, copyFirst, explicitNext := c.cinfo, c.copyFirst, c.explicitNext;
      match c.cinfo.obj {
        case Def(m) =>
          if m !in parents { return None; }
          cinfo := NewInfo(Mod(parents[m]), None, cinfo.dir);
          if explicitNext { cinfo, explicitNext := cinfo.(isExplicit := true), false; }
        case Res(i) =>
          cinfo := NewInfo(Mod(resources[i].parent), None, cinfo.dir);
          if explicitNext { cinfo, explicitNext := cinfo.(isExplicit := true), false; }
        case Mod(m) =>
          if modules[m] { return None; }
          if copyFirst {
            cinfo := NewInfo(Def(m), cinfo.localName, cinfo.dir).(forceName := cinfo.forceName, invert := cinfo.invert);
            copyFirst := false;
          } else {
            cinfo := NewInfo(Def(m), None, cinfo.dir);
          }
      }
      return Some(Climber(cinfo, copyFirst, explicitNext));
    }

    /** ig_lib_gen_hierarchy */
    method GenHierarchy(start: CInfo) returns (result: seq<CInfo>)
      requires Valid() && Contents().Contains(start.obj)
      ensures result == Path(Contents(), start)
      ensures result != []
    {
      ghost var t := Contents();
      var c := Climber(start, false, false);
      match start.obj {
        case Def(m) => c := Climber(start.(obj := Mod(m)), true, false);
        case Res(i) => c := c.(explicitNext := true);
        case Mod(m) => if !modules[m] { c := c.(copyFirst := true); }
      }
      assert c == Start(t, start);
      result := [];
      while true
        invariant t == Contents() && t.Contains(c.cinfo.obj)
        invariant Climb(t, c) + result == Path(t, start)
        decreases t.Depth(c.cinfo.obj)
      {
        var up := ClimbStep(c);
        ClimbSplit(t, c, result);
        result := [c.cinfo] + result;
        match up {
          case None => return;
          case Some(above) => c := above;
        }
      }
    }

    /** ig_lib_check_cycle: would the default instance of child, placed in parent, sit above itself? */
    method CheckCycle(child: Name, parent: Name) returns (r: bool)
      requires Valid() && Contents().IsPlain(parent)
      ensures r == (Root(parents, rank, parent) == child)
    {
      var start := NewInfo(Mod(parent), None, DEFAULT);
      var hlist := GenHierarchy(start);
      PathStartsAtRoot(Contents(), Start(Contents(), start), parent);
      var root := hlist[0].obj;
      return root == Def(child);
    }

    /** ig_lib_add_instance. The new link is made exactly when all checks pass; the cycle check refuses
        exactly the links that would put a module above itself. */
    method AddInstance(name: Name, typeName: Name, parent: Name) returns (r: Outcome)
      requires Valid() && typeName in modules && parent in modules
      modifies this
      ensures Valid() && modules == old(modules)
      ensures r == Verdict(old(Contents()), name, typeName, parent) && r != AlreadyInstantiated
      ensures r == AlreadyExists <==> name in old(parents) || name in old(resources)
      ensures r == Created <==>
        && r != AlreadyExists && !modules[parent]
        && (modules[typeName] || (name == typeName && !HasCycle(old(parents)[typeName := parent])))
      ensures r != Created ==> Contents() == old(Contents())
      ensures forall i :: i in old(resources) ==> i in resources && resources[i] == old(resources)[i]
      ensures forall m :: m in old(parents) ==> m in parents && parents[m] == old(parents)[m]
      ensures r == Created && !modules[typeName] ==>
        parents == old(parents)[typeName := parent] && resources == old(resources)
      ensures r == Created && modules[typeName] ==>
        parents == old(parents) && resources == old(resources)[name := ResInst(typeName, parent)]
    {
      if name in parents || name in resources { return AlreadyExists; }
      if modules[parent] { return ParentIsResource; }
      if !modules[typeName] {
        if name != typeName { return NotDefaultName; }
        if typeName in parents { return AlreadyInstantiated; }
        var cycle := CheckCycle(typeName, parent);
        LinkClosesCycleIff(parents, rank, typeName, parent);
        if cycle { return WouldCycle; }
        LinkElsewhereKeepsForest(parents, rank, typeName, parent);
        rank := Relink(parents, rank, typeName, parent);
        parents := parents[typeName := parent];
      } else {
        resources := resources[name := ResInst(typeName, parent)];
      }
      return Created;
    }
  }

  /** What adding an instance must answer. */
  ghost function Verdict(t: Tables, name: Name, typeName: Name, parent: Name): Outcome {
    if name in t.parents || name in t.resources then AlreadyExists
    else if t.IsResource(parent) then ParentIsResource
    else if t.IsResource(typeName) then Created
    else if name != typeName then NotDefaultName
    else if HasCycle(t.parents[typeName := parent]) then WouldCycle
    else Created
  }

  lemma ClimbSplit(t: Tables, c: Climber, below: seq<CInfo>)
    requires t.Valid() && t.Contains(c.cinfo.obj)
    ensures match Above(t, c)
      case None => Climb(t, c) + below == [c.cinfo] + below
      case Some(a) => t.Contains(a.cinfo.obj) && t.Depth(a.cinfo.obj) < t.Depth(c.cinfo.obj)
                      && Climb(t, c) + below == Climb(t, a) + ([c.cinfo] + below)
  {
    if Above(t, c).Some? { AboveIsCloser(t, c); }
  }

  /** The climb from a plain module starts at the default instance of its top module. */
  lemma {:induction false} PathStartsAtRoot(t: Tables, c: Climber, m: Name)
    requires t.Valid() && t.IsPlain(m) && (c.cinfo.obj == Mod(m) || c.cinfo.obj == Def(m))
    ensures Climb(t, c)[0].obj == Def(Root(t.parents, t.rank, m))
    decreases t.Depth(c.cinfo.obj)
  {
    if Above(t, c).Some? {
      var a := Above(t, c).value;
      AboveIsCloser(t, c);
      PathStartsAtRoot(t, a, if c.cinfo.obj == Mod(m) then m else t.parents[m]);
    }
  }
}
