/** Longest-path layering of the instances of a module (layer_of). */
module Layering {
  import opened Sequences

  type Name = string

  /** What a net that is neither clock nor reset contributes: the instances of its driving and sinking pins. */
  datatype Net = Net(drivers: seq<Name>, sinks: seq<Name>)

  type Pair = (Name, Name)

  // ---------------------------------------------------------------------------
  // How many connections lead from one instance to another

  /** Driver-sink pairs of one net from a to b. */
  function PairsOf(drivers: seq<Name>, sinks: seq<Name>, a: Name, b: Name): nat {
    if drivers == [] then 0
    else PairsOf(drivers[..|drivers| - 1], sinks, a, b) + if drivers[|drivers| - 1] == a then Count(sinks, b) else 0
  }

  function Connections(nets: seq<Net>, a: Name, b: Name): nat {
    if nets == [] then 0
    else Connections(nets[..|nets| - 1], a, b) + PairsOf(nets[|nets| - 1].drivers, nets[|nets| - 1].sinks, a, b)
  }

  /** The weights as the dictionary holds them: counts of distinct instances, in order of first insertion. */
  datatype Weights = Weights(w: map<Pair, nat>, order: seq<Pair>) {
    function At(a: Name, b: Name): nat { if (a, b) in w then w[(a, b)] else 0 }

    ghost predicate Valid() {
      && (forall i :: 0 <= i < |order| ==> order[i] in w)
      && (forall p :: p in w ==> p in order)
      && (forall i, j :: 0 <= i < j < |order| ==> order[i] != order[j])
      && (forall p :: p in w ==> w[p] > 0 && p.0 != p.1)
    }

    function Bump(a: Name, b: Name): Weights {
      if (a, b) in w then Weights(w[(a, b) := w[(a, b)] + 1], order)
      else Weights(w[(a, b) := 1], order + [(a, b)])
    }
  }

  /** The dictionary after one driver pin, after one net, after all nets. */
  function AfterDriver(start: Weights, a: Name, sinks: seq<Name>): Weights {
    if sinks == [] then start else
      var ws, b := AfterDriver(start, a, sinks[..|sinks| - 1]), sinks[|sinks| - 1];
      if a != b then ws.Bump(a, b) else ws
  }

  function AfterNet(start: Weights, drivers: seq<Name>, sinks: seq<Name>): Weights {
    if drivers == [] then start
    else AfterDriver(AfterNet(start, drivers[..|drivers| - 1], sinks), drivers[|drivers| - 1], sinks)
  }

  function WeightsOf(nets: seq<Net>): Weights {
    if nets == [] then Weights(map[], [])
    else AfterNet(WeightsOf(nets[..|nets| - 1]), nets[|nets| - 1].drivers, nets[|nets| - 1].sinks)
  }

  lemma BumpKeeps(ws: Weights, a: Name, b: Name)
    requires ws.Valid() && a != b
    ensures ws.Bump(a, b).Valid()
    ensures forall x, y :: ws.Bump(a, b).At(x, y) == ws.At(x, y) + if (x, y) == (a, b) then 1 else 0
  {
  }

  lemma {:induction false} DriverCounts(start: Weights, a: Name, sinks: seq<Name>)
    requires start.Valid()
    ensures var ws := AfterDriver(start, a, sinks);
      ws.Valid() && forall x, y :: x != y ==> ws.At(x, y) == start.At(x, y) + if x == a then Count(sinks, y) else 0
  {
    if sinks != [] {
      var n := |sinks| - 1;
      DriverCounts(start, a, sinks[..n]);
      if a != sinks[n] { BumpKeeps(AfterDriver(start, a, sinks[..n]), a, sinks[n]); }
    }
  }

  lemma {:induction false} NetCounts(start: Weights, drivers: seq<Name>, sinks: seq<Name>)
    requires start.Valid()
    ensures var ws := AfterNet(start, drivers, sinks);
      ws.Valid() && forall x, y :: x != y ==> ws.At(x, y) == start.At(x, y) + PairsOf(drivers, sinks, x, y)
  {
    if drivers != [] {
      var n := |drivers| - 1;
      NetCounts(start, drivers[..n], sinks);
      DriverCounts(AfterNet(start, drivers[..n], sinks), drivers[n], sinks);
    }
  }

  /** The dictionary counts the connections. */
  lemma {:induction false} WeightsCount(nets: seq<Net>)
    ensures WeightsOf(nets).Valid()
    ensures forall x, y :: x != y ==> WeightsOf(nets).At(x, y) == Connections(nets, x, y)
  {
    if nets != [] {
      var n := |nets| - 1;
      WeightsCount(nets[..n]);
      NetCounts(WeightsOf(nets[..n]), nets[n].drivers, nets[n].sinks);
    }
  }

  // ---------------------------------------------------------------------------
  // In which order the pairs are met

  /** A driver pin and a sink pin of a net. */
  datatype Pos = Pos(net: nat, driver: nat, sink: nat)

  /** Net by net, driver by driver, sink by sink. */
  predicate Earlier(a: Pos, b: Pos) {
    a.net < b.net || (a.net == b.net && (a.driver < b.driver || (a.driver == b.driver && a.sink < b.sink)))
  }

  predicate MeetsAt(nets: seq<Net>, p: Pair, at: Pos) {
    && at.net < |nets| && at.driver < |nets[at.net].drivers| && at.sink < |nets[at.net].sinks|
    && nets[at.net].drivers[at.driver] == p.0 && nets[at.net].sinks[at.sink] == p.1
  }

  /** The positions before a bound at which the nets meet a pair. */
  ghost function Meetings(nets: seq<Net>, p: Pair, bound: Pos): set<Pos> {
    set i, x, y | 0 <= i < |nets| && 0 <= x < |nets[i].drivers| && 0 <= y < |nets[i].sinks|
                  && MeetsAt(nets, p, Pos(i, x, y)) && Earlier(Pos(i, x, y), bound) :: Pos(i, x, y)
  }

  lemma IsMeeting(nets: seq<Net>, p: Pair, bound: Pos, at: Pos)
    ensures at in Meetings(nets, p, bound) <==> MeetsAt(nets, p, at) && Earlier(at, bound)
  {
    assert at == Pos(at.net, at.driver, at.sink);
  }

  lemma OneMoreIn(before: set<Pos>, after: set<Pos>, at: Pos, isIn: bool)
    requires at !in before && forall other :: other in after <==> other in before || (isIn && other == at)
    ensures |after| == |before| + if isIn then 1 else 0
  {
    assert after == if isIn then before + {at} else before;
  }

  lemma MeetingsGrow(nets: seq<Net>, p: Pair, at: Pos)
    requires at.net < |nets| && at.driver < |nets[at.net].drivers| && at.sink < |nets[at.net].sinks|
    ensures |Meetings(nets, p, at.(sink := at.sink + 1))|
            == |Meetings(nets, p, at)| + if MeetsAt(nets, p, at) then 1 else 0
  {
    var next := at.(sink := at.sink + 1);
    forall other
      ensures other in Meetings(nets, p, next)
              <==> other in Meetings(nets, p, at) || (MeetsAt(nets, p, at) && other == at)
    {
      IsMeeting(nets, p, at, other);
      IsMeeting(nets, p, next, other);
    }
    IsMeeting(nets, p, at, at);
    OneMoreIn(Meetings(nets, p, at), Meetings(nets, p, next), at, MeetsAt(nets, p, at));
  }

  lemma {:induction false} SinkMeetings(nets: seq<Net>, a: Name, b: Name, i: nat, x: nat, y: nat)
    requires i < |nets| && x < |nets[i].drivers| && y <= |nets[i].sinks|
    ensures |Meetings(nets, (a, b), Pos(i, x, y))|
            == |Meetings(nets, (a, b), Pos(i, x, 0))|
               + if nets[i].drivers[x] == a then Count(nets[i].sinks[..y], b) else 0
  {
    if y > 0 {
      SinkMeetings(nets, a, b, i, x, y - 1);
      MeetingsGrow(nets, (a, b), Pos(i, x, y - 1));
      assert nets[i].sinks[..y][..y - 1] == nets[i].sinks[..y - 1];
    }
  }

  lemma {:induction false} DriverMeetings(nets: seq<Net>, a: Name, b: Name, i: nat, x: nat)
    requires i < |nets| && x <= |nets[i].drivers|
    ensures |Meetings(nets, (a, b), Pos(i, x, 0))|
            == |Meetings(nets, (a, b), Pos(i, 0, 0))| + PairsOf(nets[i].drivers[..x], nets[i].sinks, a, b)
  {
    if x > 0 {
      DriverMeetings(nets, a, b, i, x - 1);
      SinkMeetings(nets, a, b, i, x - 1, |nets[i].sinks|);
      assert nets[i].sinks[..|nets[i].sinks|] == nets[i].sinks;
      assert nets[i].drivers[..x][..x - 1] == nets[i].drivers[..x - 1];
      assert Meetings(nets, (a, b), Pos(i, x, 0)) == Meetings(nets, (a, b), Pos(i, x - 1, |nets[i].sinks|));
    }
  }

  /** The connections of a pair are the driver-sink positions at which the nets meet it. */
  lemma {:induction false} ConnectionsAreMeetings(nets: seq<Net>, a: Name, b: Name, i: nat)
    requires i <= |nets|
    ensures |Meetings(nets, (a, b), Pos(i, 0, 0))| == Connections(nets[..i], a, b)
  {
    if i > 0 {
      ConnectionsAreMeetings(nets, a, b, i - 1);
      DriverMeetings(nets, a, b, i - 1, |nets[i - 1].drivers|);
      assert nets[i - 1].drivers[..|nets[i - 1].drivers|] == nets[i - 1].drivers;
      assert nets[..i][..i - 1] == nets[..i - 1];
      assert Meetings(nets, (a, b), Pos(i, 0, 0)) == Meetings(nets, (a, b), Pos(i - 1, |nets[i - 1].drivers|, 0));
    } else {
      assert Meetings(nets, (a, b), Pos(0, 0, 0)) == {};
    }
  }

  ghost predicate IsFirst(nets: seq<Net>, p: Pair, at: Pos) {
    MeetsAt(nets, p, at) && forall other :: MeetsAt(nets, p, other) ==> !Earlier(other, at)
  }

  /** The nets meet p before they meet q. */
  ghost predicate MetBefore(nets: seq<Net>, p: Pair, q: Pair) {
    exists a, b :: IsFirst(nets, p, a) && IsFirst(nets, q, b) && Earlier(a, b)
  }

  ghost predicate MetUpTo(nets: seq<Net>, p: Pair, bound: Pos) {
    exists at :: MeetsAt(nets, p, at) && Earlier(at, bound)
  }

  ghost predicate FirstUpTo(nets: seq<Net>, p: Pair, bound: Pos) {
    exists at :: IsFirst(nets, p, at) && Earlier(at, bound)
  }

  /** The dictionary holds the pairs met before the bound, in the order of their first meeting. */
  ghost predicate InOrder(nets: seq<Net>, ws: Weights, bound: Pos) {
    && (forall p :: p in ws.w <==> p in ws.order)
    && (forall p: Pair :: p.0 != p.1 && MetUpTo(nets, p, bound) ==> p in ws.order)
    && (forall k :: 0 <= k < |ws.order| ==> FirstUpTo(nets, ws.order[k], bound))
    && (forall k, l :: 0 <= k < l < |ws.order| ==> MetBefore(nets, ws.order[k], ws.order[l]))
  }

  /** No pins lie between two bounds. */
  ghost predicate NothingBetween(nets: seq<Net>, from: Pos, to: Pos) {
    && (forall at :: Earlier(at, from) ==> Earlier(at, to))
    && forall p, at :: MeetsAt(nets, p, at) && Earlier(at, to) ==> Earlier(at, from)
  }

  lemma MoveBound(nets: seq<Net>, ws: Weights, from: Pos, to: Pos)
    requires InOrder(nets, ws, from) && NothingBetween(nets, from, to)
    ensures InOrder(nets, ws, to)
  {
    forall k | 0 <= k < |ws.order| ensures FirstUpTo(nets, ws.order[k], to) {
      assert FirstUpTo(nets, ws.order[k], from);
    }
    forall p: Pair | p.0 != p.1 && MetUpTo(nets, p, to) ensures p in ws.order { assert MetUpTo(nets, p, from); }
  }

  lemma FirstMeeting(nets: seq<Net>, p: Pair, at: Pos)
    requires MeetsAt(nets, p, at) && !MetUpTo(nets, p, at)
    ensures IsFirst(nets, p, at)
  {
  }

  lemma NothingNew(nets: seq<Net>, ws: Weights, p: Pair, at: Pos, r: Weights)
    requires InOrder(nets, ws, at) && MeetsAt(nets, p, at) && (p.0 != p.1 ==> p in ws.order)
    requires r.order == ws.order && r.w.Keys == ws.w.Keys
    ensures InOrder(nets, r, at.(sink := at.sink + 1))
  {
    var next := at.(sink := at.sink + 1);
    forall q: Pair | q.0 != q.1 && MetUpTo(nets, q, next) ensures q in r.order {
      var other :| MeetsAt(nets, q, other) && Earlier(other, next);
      assert other == at || MetUpTo(nets, q, at);
    }
    forall k | 0 <= k < |r.order| ensures FirstUpTo(nets, r.order[k], next) {
      assert FirstUpTo(nets, ws.order[k], at);
    }
  }

  lemma NewPair(nets: seq<Net>, ws: Weights, p: Pair, at: Pos, r: Weights)
    requires InOrder(nets, ws, at) && MeetsAt(nets, p, at) && p.0 != p.1 && p !in ws.order
    requires r.order == ws.order + [p] && r.w.Keys == ws.w.Keys + {p}
    ensures InOrder(nets, r, at.(sink := at.sink + 1))
  {
    var next := at.(sink := at.sink + 1);
    FirstMeeting(nets, p, at);
    forall q: Pair | q.0 != q.1 && MetUpTo(nets, q, next) ensures q in r.order {
      var other :| MeetsAt(nets, q, other) && Earlier(other, next);
      assert other == at || MetUpTo(nets, q, at);
    }
    forall k | 0 <= k < |ws.order| ensures MetBefore(nets, ws.order[k], p) && FirstUpTo(nets, ws.order[k], next) {
      assert FirstUpTo(nets, ws.order[k], at);
    }
  }

  /** One more pair of pins. */
  lemma MeetNext(nets: seq<Net>, ws: Weights, p: Pair, at: Pos)
    requires InOrder(nets, ws, at) && MeetsAt(nets, p, at)
    ensures InOrder(nets, if p.0 != p.1 then ws.Bump(p.0, p.1) else ws, at.(sink := at.sink + 1))
  {
    if p.0 != p.1 && p !in ws.w {
      NewPair(nets, ws, p, at, ws.Bump(p.0, p.1));
    } else {
      NothingNew(nets, ws, p, at, if p.0 != p.1 then ws.Bump(p.0, p.1) else ws);
    }
  }

  lemma {:induction false} DriverInOrder(nets: seq<Net>, start: Weights, i: nat, x: nat, y: nat)
    requires i < |nets| && x < |nets[i].drivers| && y <= |nets[i].sinks| && InOrder(nets, start, Pos(i, x, 0))
    ensures InOrder(nets, AfterDriver(start, nets[i].drivers[x], nets[i].sinks[..y]), Pos(i, x, y))
  {
    if y > 0 {
      DriverInOrder(nets, start, i, x, y - 1);
      assert nets[i].sinks[..y][..y - 1] == nets[i].sinks[..y - 1];
      MeetNext(nets, AfterDriver(start, nets[i].drivers[x], nets[i].sinks[..y - 1]),
               (nets[i].drivers[x], nets[i].sinks[y - 1]), Pos(i, x, y - 1));
    }
  }

  lemma {:induction false} NetInOrder(nets: seq<Net>, start: Weights, i: nat, x: nat)
    requires i < |nets| && x <= |nets[i].drivers| && InOrder(nets, start, Pos(i, 0, 0))
    ensures InOrder(nets, AfterNet(start, nets[i].drivers[..x], nets[i].sinks), Pos(i, x, 0))
  {
    if x > 0 {
      var before := AfterNet(start, nets[i].drivers[..x - 1], nets[i].sinks);
      NetInOrder(nets, start, i, x - 1);
      assert nets[i].drivers[..x][..x - 1] == nets[i].drivers[..x - 1];
      DriverInOrder(nets, before, i, x - 1, |nets[i].sinks|);
      assert nets[i].sinks[..|nets[i].sinks|] == nets[i].sinks;
      var w := AfterDriver(before, nets[i].drivers[x - 1], nets[i].sinks);
      MoveBound(nets, w, Pos(i, x - 1, |nets[i].sinks|), Pos(i, x, 0));
    }
  }

  lemma {:induction false} NetsInOrder(nets: seq<Net>, i: nat)
    requires i <= |nets|
    ensures InOrder(nets, WeightsOf(nets[..i]), Pos(i, 0, 0))
  {
    if i > 0 {
      var before := WeightsOf(nets[..i - 1]);
      NetsInOrder(nets, i - 1);
      assert nets[..i][..i - 1] == nets[..i - 1];
      NetInOrder(nets, before, i - 1, |nets[i - 1].drivers|);
      assert nets[i - 1].drivers[..|nets[i - 1].drivers|] == nets[i - 1].drivers;
      MoveBound(nets, AfterNet(before, nets[i - 1].drivers, nets[i - 1].sinks), Pos(i - 1, |nets[i - 1].drivers|, 0),
                Pos(i, 0, 0));
    }
  }

  /** Of two pairs in the dictionary the one that stands first was met first. */
  lemma OrderIsFirstMet(nets: seq<Net>, k: nat, l: nat)
    requires k < l < |WeightsOf(nets).order|
    ensures MetBefore(nets, WeightsOf(nets).order[k], WeightsOf(nets).order[l])
  {
    NetsInOrder(nets, |nets|);
    assert nets[..|nets|] == nets;
  }

  method AddSinks(start: Weights, a: Name, sinks: seq<Name>) returns (ws: Weights)
    ensures ws == AfterDriver(start, a, sinks)
  {
    ws := start;
    for j := 0 to |sinks|
      invariant ws == AfterDriver(start, a, sinks[..j])
    {
      assert sinks[..j + 1][..j] == sinks[..j];
      if a != sinks[j] { ws := ws.Bump(a, sinks[j]); }
    }
    assert sinks[..|sinks|] == sinks;
  }

  method AddNet(start: Weights, net: Net) returns (ws: Weights)
    ensures ws == AfterNet(start, net.drivers, net.sinks)
  {
    ws := start;
    for i := 0 to |net.drivers|
      invariant ws == AfterNet(start, net.drivers[..i], net.sinks)
    {
      assert net.drivers[..i + 1][..i] == net.drivers[..i];
      ws := AddSinks(ws, net.drivers[i], net.sinks);
    }
    assert net.drivers[..|net.drivers|] == net.drivers;
  }

  method WeighNets(nets: seq<Net>) returns (ws: Weights)
    ensures ws == WeightsOf(nets)
    ensures ws.Valid() && forall x, y :: x != y ==> ws.At(x, y) == Connections(nets, x, y)
    ensures forall k, l :: 0 <= k < l < |ws.order| ==> MetBefore(nets, ws.order[k], ws.order[l])
  {
    ws := Weights(map[], []);
    for i := 0 to |nets|
      invariant ws == WeightsOf(nets[..i])
    {
      assert nets[..i + 1][..i] == nets[..i];
      ws := AddNet(ws, nets[i]);
    }
    assert nets[..|nets|] == nets;
    WeightsCount(nets);
    NetsInOrder(nets, |nets|);
  }

  lemma {:induction false} CountedIsIn(s: seq<Name>, x: Name)
    ensures Count(s, x) > 0 ==> x in s
  {
    if s != [] { CountedIsIn(s[..|s| - 1], x); }
  }

  lemma {:induction false} PairsAreIn(drivers: seq<Name>, sinks: seq<Name>, a: Name, b: Name)
    ensures PairsOf(drivers, sinks, a, b) > 0 ==> a in drivers && b in sinks
  {
    if drivers != [] {
      PairsAreIn(drivers[..|drivers| - 1], sinks, a, b);
      CountedIsIn(sinks, b);
    }
  }

  /** The pins of a net belong to the module's instances. */
  ghost predicate PinsOf(net: Net, insts: seq<Name>) {
    (forall x :: x in net.drivers ==> x in insts) && (forall x :: x in net.sinks ==> x in insts)
  }

  lemma {:induction false} ConnectedAreInstances(nets: seq<Net>, insts: seq<Name>, a: Name, b: Name)
    requires forall i :: 0 <= i < |nets| ==> PinsOf(nets[i], insts)
    ensures Connections(nets, a, b) > 0 ==> a in insts && b in insts
  {
    if nets != [] {
      var last := nets[|nets| - 1];
      ConnectedAreInstances(nets[..|nets| - 1], insts, a, b);
      PairsAreIn(last.drivers, last.sinks, a, b);
    }
  }

  // ---------------------------------------------------------------------------
  // One direction per connected pair

  type Succ = map<Name, set<Name>>

  function Flip(p: Pair): Pair { (p.1, p.0) }

  predicate Edge(succ: Succ, a: Name, b: Name) { a in succ && b in succ[a] }

  predicate TieAt(ws: Weights, p: Pair) { ws.At(p.0, p.1) == ws.At(p.1, p.0) }

  /** Every connected pair has exactly one direction: that of more connections, or of the first met if as many. */
  ghost predicate IsOrientation(ws: Weights, succ: Succ) {
    && (forall a, b :: Edge(succ, a, b) ==> ws.At(a, b) > 0 || ws.At(b, a) > 0)
    && (forall a, b :: ws.At(a, b) > 0 ==> Edge(succ, a, b) != Edge(succ, b, a))
    && (forall a, b :: ws.At(a, b) > ws.At(b, a) ==> Edge(succ, a, b))
    && (forall i, j :: 0 <= i < j < |ws.order| && ws.order[j] == Flip(ws.order[i]) && TieAt(ws, ws.order[i]) ==>
          Edge(succ, ws.order[i].0, ws.order[i].1))
  }

  function Directed(ws: Weights, p: Pair): Pair {
    if ws.At(p.0, p.1) >= ws.At(p.1, p.0) then p else Flip(p)
  }

  ghost predicate IsDecided(ws: Weights, seen: set<Pair>, a: Name, b: Name) {
    ((a, b) in seen && ws.At(a, b) >= ws.At(b, a)) || ((b, a) in seen && ws.At(a, b) > ws.At(b, a))
  }

  /** Of the first n pairs each is seen, or was seen the other way round before. */
  ghost predicate SeenUpTo(ws: Weights, seen: set<Pair>, n: nat)
    requires n <= |ws.order|
  {
    && (forall p :: p in seen ==> p in ws.order[..n] && Flip(p) !in seen)
    && (forall k :: 0 <= k < n ==> SeenOrFlipped(ws, seen, k))
  }

  ghost predicate SeenOrFlipped(ws: Weights, seen: set<Pair>, k: nat)
    requires k < |ws.order|
  {
    ws.order[k] in seen || (Flip(ws.order[k]) in seen && Flip(ws.order[k]) in ws.order[..k])
  }

  lemma SeeNext(ws: Weights, seen: set<Pair>, n: nat)
    requires ws.Valid() && n < |ws.order| && SeenUpTo(ws, seen, n)
    ensures var p := ws.order[n];
      SeenUpTo(ws, if p in seen || Flip(p) in seen then seen else seen + {p}, n + 1)
  {
    var p := ws.order[n];
    var next := if p in seen || Flip(p) in seen then seen else seen + {p};
    assert ws.order[..n + 1] == ws.order[..n] + [p];
    assert p in ws.w && Flip(p) != p;
    forall k | 0 <= k < n ensures SeenOrFlipped(ws, next, k) { assert SeenOrFlipped(ws, seen, k); }
    assert SeenOrFlipped(ws, next, n);
    forall q | q in next ensures q in ws.order[..n + 1] && Flip(q) !in next { assert Flip(Flip(q)) == q; }
  }

  ghost predicate Decisions(ws: Weights, seen: set<Pair>, succ: Succ) {
    forall a, b :: Edge(succ, a, b) <==> IsDecided(ws, seen, a, b)
  }

  lemma DecideNext(ws: Weights, seen: set<Pair>, succ: Succ, p: Pair)
    requires Decisions(ws, seen, succ) && p.0 in succ && p.1 in succ
    ensures var (a, b) := Directed(ws, p);
      Decisions(ws, seen + {p}, succ[a := succ[a] + {b}])
  {
    var (a, b) := Directed(ws, p);
    var next := succ[a := succ[a] + {b}];
    forall x, y ensures Edge(next, x, y) <==> IsDecided(ws, seen + {p}, x, y) {
      assert Edge(next, x, y) <==> Edge(succ, x, y) || (x, y) == (a, b);
      assert Edge(succ, x, y) <==> IsDecided(ws, seen, x, y);
    }
  }

  method Orient(insts: seq<Name>, ws: Weights) returns (succ: Succ)
    requires ws.Valid() && forall p :: p in ws.w ==> p.0 in insts && p.1 in insts
    ensures IsOrientation(ws, succ)
    ensures succ.Keys == set n | n in insts
    ensures Closed(succ) && forall a :: !Edge(succ, a, a)
  {
    succ := map n | n in insts :: {};
    var seen: set<Pair> := {};
    for i := 0 to |ws.order|
      invariant SeenUpTo(ws, seen, i)
      invariant succ.Keys == set n | n in insts
      invariant Decisions(ws, seen, succ)
    {
      var a, b := ws.order[i].0, ws.order[i].1;
      SeeNext(ws, seen, i);
      if (a, b) in seen || (b, a) in seen { continue; }
      assert ws.order[i] == (a, b) && ws.order[i] in ws.w;
      DecideNext(ws, seen, succ, (a, b));
      seen := seen + {(a, b)};
      if ws.At(a, b) >= ws.At(b, a) {
        succ := succ[a := succ[a] + {b}];
      } else {
        succ := succ[b := succ[b] + {a}];
      }
    }
    AllSeenIsOrientation(ws, seen, succ);
    EdgesStayInside(insts, ws, succ);
  }

  lemma AllSeenIsOrientation(ws: Weights, seen: set<Pair>, succ: Succ)
    requires ws.Valid() && SeenUpTo(ws, seen, |ws.order|)
    requires Decisions(ws, seen, succ)
    ensures IsOrientation(ws, succ)
  {
    forall a, b
      ensures Edge(succ, a, b) ==> ws.At(a, b) > 0 || ws.At(b, a) > 0
      ensures ws.At(a, b) > 0 ==> Edge(succ, a, b) != Edge(succ, b, a)
      ensures ws.At(a, b) > ws.At(b, a) ==> Edge(succ, a, b)
    {
      DecidedOnce(ws, seen, succ, a, b);
    }
    forall i, j | 0 <= i < j < |ws.order| && ws.order[j] == Flip(ws.order[i])
      ensures TieAt(ws, ws.order[i]) ==> Edge(succ, ws.order[i].0, ws.order[i].1)
    {
      FirstIsSeen(ws, seen, i, j);
      assert Edge(succ, ws.order[i].0, ws.order[i].1) <==> IsDecided(ws, seen, ws.order[i].0, ws.order[i].1);
    }
  }

  lemma PairIsSeen(ws: Weights, seen: set<Pair>, a: Name, b: Name)
    requires ws.Valid() && SeenUpTo(ws, seen, |ws.order|) && ws.At(a, b) > 0
    ensures (a, b) in seen || (b, a) in seen
  {
    assert (a, b) in ws.order;
    var k :| 0 <= k < |ws.order| && ws.order[k] == (a, b);
    assert SeenOrFlipped(ws, seen, k);
  }

  lemma DecidedOnce(ws: Weights, seen: set<Pair>, succ: Succ, a: Name, b: Name)
    requires ws.Valid() && SeenUpTo(ws, seen, |ws.order|) && Decisions(ws, seen, succ)
    ensures Edge(succ, a, b) ==> ws.At(a, b) > 0 || ws.At(b, a) > 0
    ensures ws.At(a, b) > 0 ==> Edge(succ, a, b) != Edge(succ, b, a)
    ensures ws.At(a, b) > ws.At(b, a) ==> Edge(succ, a, b)
  {
    assert Edge(succ, a, b) <==> IsDecided(ws, seen, a, b);
    assert Edge(succ, b, a) <==> IsDecided(ws, seen, b, a);
    assert (a, b) in seen ==> Flip((a, b)) !in seen && (a, b) in ws.w;
    assert (b, a) in seen ==> Flip((b, a)) !in seen && (b, a) in ws.w;
    if ws.At(a, b) > 0 { PairIsSeen(ws, seen, a, b); }
  }

  lemma FirstIsSeen(ws: Weights, seen: set<Pair>, i: nat, j: nat)
    requires ws.Valid() && SeenUpTo(ws, seen, |ws.order|)
    requires i < j < |ws.order| && ws.order[j] == Flip(ws.order[i])
    ensures ws.order[i] in seen
  {
    assert SeenOrFlipped(ws, seen, i);
    assert forall k :: 0 <= k < i ==> ws.order[k] != ws.order[j];
  }

  lemma EdgesStayInside(insts: seq<Name>, ws: Weights, succ: Succ)
    requires ws.Valid() && IsOrientation(ws, succ) && succ.Keys == (set x | x in insts)
    requires forall p :: p in ws.w ==> p.0 in insts && p.1 in insts
    ensures Closed(succ) && forall a :: !Edge(succ, a, a)
  {
    forall a, b | Edge(succ, a, b) ensures b in succ && a != b {
      assert (a, b) in ws.w || (b, a) in ws.w;
    }
  }

  // ---------------------------------------------------------------------------
  // Relaxation

  type Layers = map<Name, nat>

  /** A walk along edges. */
  ghost predicate Walk(succ: Succ, p: seq<Name>) {
    p != [] && p[0] in succ && forall i :: 0 <= i < |p| - 1 ==> EdgeAt(succ, p, i)
  }

  predicate EdgeAt(succ: Succ, p: seq<Name>, i: nat)
    requires i < |p| - 1
  {
    Edge(succ, p[i], p[i + 1])
  }

  ghost predicate Closed(succ: Succ) {
    forall a, b :: Edge(succ, a, b) ==> b in succ
  }

  ghost predicate Acyclic(succ: Succ) {
    forall p :: Walk(succ, p) && |p| > 1 ==> p[0] != p[|p| - 1]
  }

  /** A walk of that many edges ends at x. */
  ghost predicate Reached(succ: Succ, x: Name, n: nat) {
    exists p :: Walk(succ, p) && p[|p| - 1] == x && |p| - 1 == n
  }

  /** No layer is higher than some walk is long. */
  ghost predicate Sound(succ: Succ, layer: Layers) {
    layer.Keys == succ.Keys && forall x {:trigger Reached(succ, x, layer[x])} :: x in layer ==>
      Reached(succ, x, layer[x])
  }

  /** Walks of up to n edges are accounted for. */
  ghost predicate Covers(succ: Succ, layer: Layers, n: nat) {
    layer.Keys == succ.Keys && forall x, k: nat :: x in layer && k <= n && Reached(succ, x, k) ==> layer[x] >= k
  }

  ghost predicate IsLongest(succ: Succ, x: Name, n: nat) {
    Reached(succ, x, n) && forall k: nat :: Reached(succ, x, k) ==> k <= n
  }

  /** x's edges are relaxed against the layers at the start of the round. */
  ghost predicate Relaxed(succ: Succ, start: Layers, layer: Layers, x: Name) {
    forall b :: Edge(succ, x, b) && x in start && b in layer ==> layer[b] >= start[x] + 1
  }

  ghost predicate Grown(start: Layers, layer: Layers) {
    layer.Keys == start.Keys && forall x :: x in start ==> start[x] <= layer[x]
  }

  lemma ReachedAlong(succ: Succ, a: Name, b: Name, n: nat)
    requires Reached(succ, a, n) && Edge(succ, a, b)
    ensures Reached(succ, b, n + 1)
  {
    var p :| Walk(succ, p) && p[|p| - 1] == a && |p| - 1 == n;
    var q := p + [b];
    forall i | 0 <= i < |q| - 1 ensures EdgeAt(succ, q, i) {
      if i < |p| - 1 { assert EdgeAt(succ, p, i); }
    }
    assert Walk(succ, q);
  }

  lemma ReachedFrom(succ: Succ, b: Name, n: nat) returns (a: Name)
    requires Reached(succ, b, n) && n > 0
    ensures Edge(succ, a, b) && Reached(succ, a, n - 1)
  {
    var p :| Walk(succ, p) && p[|p| - 1] == b && |p| - 1 == n;
    a := p[|p| - 2];
    assert EdgeAt(succ, p, |p| - 2);
    WalkPrefix(succ, p, |p| - 1);
  }

  lemma WalkPrefix(succ: Succ, p: seq<Name>, n: nat)
    requires Walk(succ, p) && 0 < n <= |p|
    ensures Walk(succ, p[..n])
  {
    forall i | 0 <= i < n - 1 ensures EdgeAt(succ, p[..n], i) { assert EdgeAt(succ, p, i); }
  }

  lemma RaiseIsSound(succ: Succ, layer: Layers, a: Name, b: Name)
    requires Sound(succ, layer) && a in layer && b in layer && Edge(succ, a, b)
    ensures Sound(succ, layer[b := layer[a] + 1])
  {
    assert Reached(succ, a, layer[a]);
    ReachedAlong(succ, a, b, layer[a]);
    var next := layer[b := layer[a] + 1];
    forall x | x in next ensures Reached(succ, x, next[x]) {
      if x != b { assert Reached(succ, x, layer[x]); }
    }
  }

  /** The successors of a except those in todo are relaxed. */
  ghost predicate Progress(succ: Succ, start: Layers, layer: Layers, a: Name, todo: set<Name>)
    requires a in succ
  {
    && Sound(succ, layer) && Grown(start, layer) && a in start && layer[a] == start[a] && todo <= succ[a]
    && forall b :: Edge(succ, a, b) && b in layer ==> b in todo || layer[b] >= start[a] + 1
  }

  function Raised(layer: Layers, a: Name, b: Name): Layers
    requires a in layer && b in layer
  {
    if layer[b] < layer[a] + 1 then layer[b := layer[a] + 1] else layer
  }

  lemma ProgressStep(succ: Succ, start: Layers, layer: Layers, a: Name, b: Name, todo: set<Name>)
    requires Closed(succ) && a in succ && Progress(succ, start, layer, a, todo) && b in todo && b in layer && a != b
    ensures Progress(succ, start, Raised(layer, a, b), a, todo - {b})
  {
    assert Edge(succ, a, b);
    if layer[b] < layer[a] + 1 { RaiseIsSound(succ, layer, a, b); }
  }

  lemma AllRelaxed(succ: Succ, start: Layers, layer: Layers, a: Name)
    requires a in succ && Progress(succ, start, layer, a, {})
    ensures Relaxed(succ, start, layer, a)
  {
  }

  /** The inner loop: the successors of one instance. */
  method RelaxEdges(succ: Succ, a: Name, start: Layers) returns (layer: Layers)
    requires Closed(succ) && a in succ && Sound(succ, start) && !Edge(succ, a, a)
    ensures Sound(succ, layer) && Grown(start, layer) && Relaxed(succ, start, layer, a)
  {
    layer := start;
    var todo := succ[a];
    while todo != {}
      invariant Progress(succ, start, layer, a, todo)
    {
      var b :| b in todo;
      assert Edge(succ, a, b);
      ProgressStep(succ, start, layer, a, b, todo);
      if layer[b] < layer[a] + 1 { layer := layer[b := layer[a] + 1]; }
      todo := todo - {b};
    }
    AllRelaxed(succ, start, layer, a);
  }

  ghost predicate RelaxedUpTo(insts: seq<Name>, succ: Succ, start: Layers, layer: Layers, n: nat) {
    forall k :: 0 <= k < n && k < |insts| ==> Relaxed(succ, start, layer, insts[k])
  }

  lemma RoundStep(insts: seq<Name>, succ: Succ, start: Layers, mid: Layers, next: Layers, n: nat)
    requires n < |insts| && Grown(start, mid) && Grown(mid, next)
    requires RelaxedUpTo(insts, succ, start, mid, n) && Relaxed(succ, mid, next, insts[n])
    ensures Grown(start, next) && RelaxedUpTo(insts, succ, start, next, n + 1)
  {
    forall k | 0 <= k <= n ensures Relaxed(succ, start, next, insts[k]) {
      if k < n { assert Relaxed(succ, start, mid, insts[k]); }
    }
  }

  /** One round covers walks that are one edge longer. */
  method Round(insts: seq<Name>, succ: Succ, start: Layers, ghost n: nat) returns (layer: Layers)
    requires Closed(succ) && succ.Keys == (set x | x in insts) && Sound(succ, start) && Covers(succ, start, n)
    requires forall a :: !Edge(succ, a, a)
    ensures Sound(succ, layer) && Covers(succ, layer, n + 1)
  {
    layer := start;
    for i := 0 to |insts|
      invariant Sound(succ, layer) && Grown(start, layer) && RelaxedUpTo(insts, succ, start, layer, i)
    {
      ghost var mid := layer;
      layer := RelaxEdges(succ, insts[i], layer);
      RoundStep(insts, succ, start, mid, layer, i);
    }
    RoundCovers(insts, succ, start, layer, n);
  }

  lemma RoundCovers(insts: seq<Name>, succ: Succ, start: Layers, layer: Layers, n: nat)
    requires succ.Keys == (set x | x in insts) && Covers(succ, start, n) && Grown(start, layer)
    requires RelaxedUpTo(insts, succ, start, layer, |insts|)
    ensures Covers(succ, layer, n + 1)
  {
    forall x, k: nat | x in layer && k <= n + 1 && Reached(succ, x, k) ensures layer[x] >= k {
      if k > 0 {
        var a := ReachedFrom(succ, x, k);
        assert a in insts;
        var i :| 0 <= i < |insts| && insts[i] == a;
        assert Relaxed(succ, start, layer, insts[i]);
      }
    }
  }

  /** The rounds of relaxation: layers are the longest walks that the rounds can see, and the longest of
      all if there is no cycle. */
  method Relax(insts: seq<Name>, succ: Succ) returns (layer: Layers)
    requires Closed(succ) && succ.Keys == (set x | x in insts) && forall a :: !Edge(succ, a, a)
    ensures layer.Keys == succ.Keys
    ensures Acyclic(succ) ==> forall x :: x in succ ==> IsLongest(succ, x, layer[x])
    ensures Acyclic(succ) <==> forall a, b :: Edge(succ, a, b) ==> a in layer && b in layer && layer[a] < layer[b]
  {
    layer := map n | n in insts :: 0;
    forall x | x in layer ensures Reached(succ, x, 0) { assert Walk(succ, [x]); }
    for r := 0 to |insts| + 1
      invariant Sound(succ, layer) && Covers(succ, layer, r)
    {
      layer := Round(insts, succ, layer, r);
    }
    if Acyclic(succ) {
      AcyclicLayers(insts, succ, layer);
      LongestRises(succ, layer);
    }
    if forall a, b :: Edge(succ, a, b) ==> a in layer && b in layer && layer[a] < layer[b] {
      RisingIsAcyclic(succ, layer);
    }
  }

  lemma WalksAreCovered(insts: seq<Name>, succ: Succ, x: Name, k: nat)
    requires Closed(succ) && succ.Keys == (set x | x in insts) && Acyclic(succ) && Reached(succ, x, k)
    ensures k <= |insts| && x in succ
  {
    var p :| Walk(succ, p) && p[|p| - 1] == x && |p| - 1 == k;
    WalksAreShort(insts, succ, p);
  }

  lemma AcyclicLayers(insts: seq<Name>, succ: Succ, layer: Layers)
    requires Closed(succ) && succ.Keys == (set x | x in insts) && Acyclic(succ)
    requires Sound(succ, layer) && Covers(succ, layer, |insts| + 1)
    ensures forall x :: x in succ ==> IsLongest(succ, x, layer[x])
  {
    forall x | x in succ ensures IsLongest(succ, x, layer[x]) {
      assert Reached(succ, x, layer[x]);
      forall k: nat | Reached(succ, x, k) ensures k <= layer[x] { WalksAreCovered(insts, succ, x, k); }
    }
  }

  lemma LongestRises(succ: Succ, layer: Layers)
    requires Closed(succ) && layer.Keys == succ.Keys
      && forall x {:trigger IsLongest(succ, x, layer[x])} :: x in succ ==> IsLongest(succ, x, layer[x])
    ensures forall a, b :: Edge(succ, a, b) ==> a in layer && b in layer && layer[a] < layer[b]
  {
    forall a, b | Edge(succ, a, b) ensures a in layer && b in layer && layer[a] < layer[b] {
      assert IsLongest(succ, a, layer[a]) && IsLongest(succ, b, layer[b]);
      ReachedAlong(succ, a, b, layer[a]);
    }
  }

  lemma RisingIsAcyclic(succ: Succ, layer: Layers)
    requires layer.Keys == succ.Keys
    requires forall a, b :: Edge(succ, a, b) ==> a in layer && b in layer && layer[a] < layer[b]
    ensures Acyclic(succ)
  {
    forall p | Walk(succ, p) && |p| > 1 ensures p[0] != p[|p| - 1] {
      WalkRises(succ, layer, p);
    }
  }

  lemma {:induction false} WalkRises(succ: Succ, layer: Layers, p: seq<Name>)
    requires forall a, b :: Edge(succ, a, b) ==> a in layer && b in layer && layer[a] < layer[b]
    requires Walk(succ, p) && |p| > 1
    ensures p[0] in layer && p[|p| - 1] in layer && layer[p[0]] < layer[p[|p| - 1]]
  {
    var n := |p| - 1;
    assert EdgeAt(succ, p, n - 1);
    if n > 1 {
      WalkPrefix(succ, p, n);
      WalkRises(succ, layer, p[..n]);
    }
  }

  /** Without a cycle a walk meets every instance at most once. */
  lemma WalksAreShort(insts: seq<Name>, succ: Succ, p: seq<Name>)
    requires Closed(succ) && succ.Keys == (set x | x in insts) && Acyclic(succ) && Walk(succ, p)
    ensures |p| <= |insts| && p[|p| - 1] in succ
  {
    forall i | 0 <= i < |p| ensures p[i] in succ {
      if i > 0 { assert EdgeAt(succ, p, i - 1); }
    }
    forall i, j | 0 <= i < j < |p| ensures p[i] != p[j] {
      var q := p[i..j + 1];
      forall k | 0 <= k < |q| - 1 ensures EdgeAt(succ, q, k) { assert EdgeAt(succ, p, i + k); }
      assert Walk(succ, q);
    }
    DistinctFit(p, insts);
  }

  lemma {:induction false} DistinctFit(p: seq<Name>, insts: seq<Name>)
    requires (forall i, j :: 0 <= i < j < |p| ==> p[i] != p[j]) && forall i :: 0 <= i < |p| ==> p[i] in insts
    ensures |p| <= |insts|
  {
    if p != [] {
      var n := |p| - 1;
      var k :| 0 <= k < |insts| && insts[k] == p[n];
      var rest := insts[..k] + insts[k + 1..];
      forall i | 0 <= i < n ensures p[..n][i] in rest {
        var m :| 0 <= m < |insts| && insts[m] == p[i];
        assert if m < k then rest[m] == p[i] else rest[m - 1] == p[i];
      }
      DistinctFit(p[..n], rest);
    }
  }

  /** The weights leave no choice of directions. */
  lemma OrientationIsUnique(ws: Weights, s: Succ, t: Succ)
    requires ws.Valid() && IsOrientation(ws, s) && IsOrientation(ws, t) && s.Keys == t.Keys
    ensures s == t
  {
    forall a | a in s ensures s[a] == t[a] {
      forall b ensures b in s[a] <==> b in t[a] {
        SameEdges(ws, s, t, a, b);
        assert Edge(s, a, b) <==> Edge(t, a, b);
      }
    }
  }

  lemma SameEdges(ws: Weights, s: Succ, t: Succ, a: Name, b: Name)
    requires ws.Valid() && IsOrientation(ws, s) && IsOrientation(ws, t)
    ensures Edge(s, a, b) <==> Edge(t, a, b)
  {
    if ws.At(a, b) == ws.At(b, a) && ws.At(a, b) > 0 {
      var i := PositionOf(ws, (a, b));
      var j := PositionOf(ws, (b, a));
      assert TieAt(ws, ws.order[i]) && TieAt(ws, ws.order[j]);
      assert Edge(s, a, b) != Edge(s, b, a) && Edge(t, a, b) != Edge(t, b, a);
    } else {
      assert Edge(s, a, b) ==> ws.At(a, b) > 0 || ws.At(b, a) > 0;
      assert Edge(t, a, b) ==> ws.At(a, b) > 0 || ws.At(b, a) > 0;
    }
  }

  lemma PositionOf(ws: Weights, p: Pair) returns (i: nat)
    requires ws.Valid() && p in ws.w
    ensures i < |ws.order| && ws.order[i] == p
  {
    i :| 0 <= i < |ws.order| && ws.order[i] == p;
  }

  /** Longest incoming paths if there is no cycle, and rising along every edge exactly then. */
  ghost predicate AreLayers(succ: Succ, layer: Layers) {
    && (Acyclic(succ) ==> forall x :: x in succ && x in layer ==> IsLongest(succ, x, layer[x]))
    && (Acyclic(succ) <==> forall a, b :: Edge(succ, a, b) ==> a in layer && b in layer && layer[a] < layer[b])
  }

  /** The successor relation chosen for the instances and nets: every connected pair has exactly one direction,
      that of more connections, or of the pair that the nets meet first if there are as many. */
  ghost predicate IsChosen(insts: seq<Name>, nets: seq<Net>, succ: Succ) {
    && succ.Keys == (set x | x in insts)
    && (forall a :: !Edge(succ, a, a))
    && (forall a, b :: Edge(succ, a, b) ==> Connections(nets, a, b) > 0 || Connections(nets, b, a) > 0)
    && (forall a, b :: a != b && Connections(nets, a, b) > 0 ==> Edge(succ, a, b) != Edge(succ, b, a))
    && (forall a, b :: a != b && Connections(nets, a, b) > Connections(nets, b, a) ==> Edge(succ, a, b))
    && (forall a, b :: IsTied(nets, a, b) && MetBefore(nets, (a, b), (b, a)) ==> Edge(succ, a, b))
  }

  predicate IsTied(nets: seq<Net>, a: Name, b: Name) {
    a != b && Connections(nets, a, b) == Connections(nets, b, a) > 0
  }

  lemma FirstIsOne(nets: seq<Net>, p: Pair, a: Pos, b: Pos)
    requires IsFirst(nets, p, a) && IsFirst(nets, p, b)
    ensures a == b
  {
  }

  lemma NotBothBefore(nets: seq<Net>, p: Pair, q: Pair)
    requires MetBefore(nets, p, q)
    ensures !MetBefore(nets, q, p)
  {
    var a, b :| IsFirst(nets, p, a) && IsFirst(nets, q, b) && Earlier(a, b);
    forall c, e | IsFirst(nets, q, c) && IsFirst(nets, p, e) ensures !Earlier(c, e) {
      FirstIsOne(nets, p, a, e);
      FirstIsOne(nets, q, b, c);
    }
  }

  /** Among tied pairs, met first means first in the dictionary. */
  lemma TiedOrder(nets: seq<Net>, a: Name, b: Name) returns (i: nat, j: nat)
    requires IsTied(nets, a, b) && MetBefore(nets, (a, b), (b, a))
    ensures var ws := WeightsOf(nets); i < j < |ws.order| && ws.order[i] == (a, b) && ws.order[j] == (b, a)
  {
    var ws := WeightsOf(nets);
    WeightsCount(nets);
    assert ws.At(a, b) > 0 && ws.At(b, a) > 0;
    i := PositionOf(ws, (a, b));
    j := PositionOf(ws, (b, a));
    if j < i {
      OrderIsFirstMet(nets, j, i);
      NotBothBefore(nets, (b, a), (a, b));
    }
  }

  /** What the weights decide is what the nets decide. */
  lemma OrientationIsChosen(insts: seq<Name>, nets: seq<Net>, succ: Succ)
    requires succ.Keys == (set x | x in insts)
    ensures IsOrientation(WeightsOf(nets), succ) ==> IsChosen(insts, nets, succ)
  {
    var ws := WeightsOf(nets);
    WeightsCount(nets);
    if IsOrientation(ws, succ) {
      forall a ensures !Edge(succ, a, a) { assert ws.At(a, a) == 0; }
      forall a, b | a != b ensures ws.At(a, b) == Connections(nets, a, b) {}
      forall a, b | IsTied(nets, a, b) && MetBefore(nets, (a, b), (b, a)) ensures Edge(succ, a, b) {
        var i, j := TiedOrder(nets, a, b);
        assert ws.order[j] == Flip(ws.order[i]) && TieAt(ws, ws.order[i]);
      }
    }
  }

  lemma ChosenIsOrientation(insts: seq<Name>, nets: seq<Net>, succ: Succ)
    requires IsChosen(insts, nets, succ)
    ensures IsOrientation(WeightsOf(nets), succ)
  {
    var ws := WeightsOf(nets);
    WeightsCount(nets);
    forall a, b | a != b ensures ws.At(a, b) == Connections(nets, a, b) {}
    forall a ensures ws.At(a, a) == 0 {}
    forall i, j | 0 <= i < j < |ws.order| && ws.order[j] == Flip(ws.order[i]) && TieAt(ws, ws.order[i])
      ensures Edge(succ, ws.order[i].0, ws.order[i].1)
    {
      OrderIsFirstMet(nets, i, j);
      assert ws.order[i] in ws.w && ws.At(ws.order[i].0, ws.order[i].1) > 0;
    }
  }

  /** layer_of */
  method LayerOf(insts: seq<Name>, nets: seq<Net>) returns (layer: Layers)
    requires forall i :: 0 <= i < |nets| ==> PinsOf(nets[i], insts)
    ensures layer.Keys == set x | x in insts
    ensures exists succ :: IsChosen(insts, nets, succ)
    ensures forall succ :: IsChosen(insts, nets, succ) ==> AreLayers(succ, layer)
  {
    var weights := WeighNets(nets);
    forall p | p in weights.w ensures p.0 in insts && p.1 in insts {
      assert weights.At(p.0, p.1) > 0;
      ConnectedAreInstances(nets, insts, p.0, p.1);
    }
    var succ := Orient(insts, weights);
    layer := Relax(insts, succ);
    OrientationIsChosen(insts, nets, succ);
    forall s | IsChosen(insts, nets, s) ensures AreLayers(s, layer) {
      ChosenIsOrientation(insts, nets, s);
      OrientationIsUnique(weights, s, succ);
    }
  }
}
