/** No wake-up is lost or duplicated, over every run of the scheduler. */
module SchedulerProperties {
  import opened Sequences
  import opened SchedulerModel

  /** How often a thread waits for some event. */
  ghost function Waiting(events: seq<seq<Thread>>, t: Thread): nat {
    if events == [] then 0 else Waiting(events[..|events| - 1], t) + Count(events[|events| - 1], t)
  }

  /** The number of places a suspended thread is in. */
  ghost function Places(s: State, t: Thread): nat {
    Count(s.main, t) + Count(s.batch, t) + Waiting(s.events, t) + Count(s.timers, t) + Count(s.finished, t)
  }

  /** Threads run in exactly the order they were woken in; those woken and not yet run are still queued. */
  ghost predicate InOrder(s: State) {
    s.wakes == s.runs + s.batch + s.main
  }

  lemma {:induction false} WaitingUpdate(events: seq<seq<Thread>>, e: nat, q: seq<Thread>, t: Thread)
    requires e < |events|
    ensures Waiting(events[e := q], t) + Count(events[e], t) == Waiting(events, t) + Count(q, t)
  {
    var n := |events| - 1;
    if e == n {
      assert events[e := q][..n] == events[..n];
    } else {
      WaitingUpdate(events[..n], e, q, t);
      assert events[e := q][..n] == events[..n][e := q];
    }
  }

  lemma TriggerKeepsPlaces(s: State, e: Event, t: Thread)
    requires e < |s.events|
    ensures Places(Trigger(s, e), t) == Places(s, t)
  {
    WaitingUpdate(s.events, e, [], t);
    CountConcat(s.main, s.events[e], t);
  }

  lemma {:induction false} TriggerAllKeepsPlaces(s: State, es: seq<Event>, t: Thread)
    requires AllBelow(es, |s.events|)
    ensures Places(TriggerAll(s, es), t) == Places(s, t)
    ensures InOrder(s) ==> InOrder(TriggerAll(s, es))
  {
    if es != [] {
      TriggerAllKeepsPlaces(s, es[..|es| - 1], t);
      TriggerKeepsPlaces(TriggerAll(s, es[..|es| - 1]), es[|es| - 1], t);
    }
  }

  lemma SuspendAddsPlace(s: State, u: Thread, stop: Stop, t: Thread)
    requires stop.WaitEvent? ==> stop.event < |s.events|
    ensures Places(Suspend(s, u, stop), t) == Places(s, t) + Count([u], t)
  {
    match stop
    case WaitEvent(e) =>
      WaitingUpdate(s.events, e, s.events[e] + [u], t);
      CountConcat(s.events[e], [u], t);
    case WaitTime => CountConcat(s.timers, [u], t);
    case Finish => CountConcat(s.finished, [u], t);
  }

  /** Leaving the batch takes a thread out of one place. */
  lemma ResumeTakesPlace(s: State, t: Thread)
    requires s.Valid() && s.batch != []
    ensures Places(Resume(s), t) + Count([s.batch[0]], t) == Places(s, t)
    ensures InOrder(s) ==> InOrder(Resume(s))
  {
    assert s.batch == [s.batch[0]] + Resume(s).batch;
    CountConcat([s.batch[0]], Resume(s).batch, t);
  }

  lemma SuspendKeepsOrder(s: State, u: Thread, stop: Stop)
    requires (stop.WaitEvent? ==> stop.event < |s.events|) && InOrder(s)
    ensures InOrder(Suspend(s, u, stop))
  {
  }

  lemma RunSliceKeepsPlaces(s: State, t: Thread)
    requires s.Valid() && s.batch != []
    ensures Places(RunSlice(s), t) == Places(s, t)
    ensures InOrder(s) ==> InOrder(RunSlice(s))
  {
    var u, slice := s.batch[0], NextSlice(s, s.batch[0]);
    ResumeKeepsValid(s);
    ResumeTakesPlace(s, t);
    TriggerAllKeepsPlaces(Resume(s), slice.triggers, t);
    SuspendAddsPlace(TriggerAll(Resume(s), slice.triggers), u, slice.stop, t);
    if InOrder(s) { SuspendKeepsOrder(TriggerAll(Resume(s), slice.triggers), u, slice.stop); }
  }

  /** One step moves threads between places and never changes how many places any thread is in. */
  lemma StepKeepsPlaces(s: State, t: Thread)
    requires s.Valid() && !s.Idle()
    ensures Places(Step(s), t) == Places(s, t)
    ensures InOrder(s) ==> InOrder(Step(s))
  {
    if s.batch != [] { RunSliceKeepsPlaces(s, t); }
  }

  /** What was queued when the loop started has run, first and in order, when it ends. */
  lemma {:induction false} RunAllRunsEverything(s: State, t: Thread)
    requires s.Valid() && InOrder(s)
    ensures var r := RunAll(s);
      && r.Valid() && r.Idle() && InOrder(r)
      && Places(r, t) == Places(s, t) && s.wakes <= r.runs
      && |r.events| == |s.events| && |r.scripts| == |s.scripts|
    decreases Remaining(s.scripts), |s.batch| + |s.main|, |s.main|
  {
    if !s.Idle() {
      StepKeepsValid(s);
      StepDecreases(s);
      StepKeepsPlaces(s, t);
      StepExtends(s);
      RunAllRunsEverything(Step(s), t);
    }
  }

  lemma StepExtends(s: State)
    requires s.Valid() && !s.Idle()
    ensures s.wakes <= Step(s).wakes
    ensures |Step(s).events| == |s.events| && |Step(s).scripts| == |s.scripts|
  {
    if s.batch != [] {
      ResumeKeepsValid(s);
      TriggerAllKeeps(Resume(s), NextSlice(s, s.batch[0]).triggers);
    }
  }

  // ---------------------------------------------------------------------------
  // What a trigger, a slice and a callback do, event by event

  /** The threads that the i-th of several triggers wakes: those that wait for its event, unless an earlier
      trigger of the same event has woken them. */
  ghost function WokenBy(events: seq<seq<Thread>>, es: seq<Event>, i: nat): seq<Thread>
    requires i < |es| && AllBelow(es, |events|)
  {
    if es[i] in es[..i] then [] else events[es[i]]
  }

  /** All threads woken by the triggers, in their order. */
  ghost function Woken(events: seq<seq<Thread>>, es: seq<Event>): seq<Thread>
    requires AllBelow(es, |events|)
  {
    Concat(seq(|es|, i requires 0 <= i < |es| => WokenBy(events, es, i)))
  }

  /** Nobody waits for a triggered event afterwards, and the other events keep their threads. */
  ghost predicate Emptied(before: seq<seq<Thread>>, after: seq<seq<Thread>>, es: seq<Event>) {
    |after| == |before| && forall e :: 0 <= e < |before| ==> after[e] == if e in es then [] else before[e]
  }

  lemma WokenByMore(events: seq<seq<Thread>>, es: seq<Event>)
    requires es != [] && AllBelow(es, |events|)
    ensures Woken(events, es) == Woken(events, es[..|es| - 1]) + WokenBy(events, es, |es| - 1)
  {
    var n := |es| - 1;
    var parts := seq(|es|, i requires 0 <= i < |es| => WokenBy(events, es, i));
    forall i | 0 <= i < n ensures parts[i] == WokenBy(events, es[..n], i) { assert es[..n][..i] == es[..i]; }
    assert parts[..n] == seq(n, i requires 0 <= i < n => WokenBy(events, es[..n], i));
  }

  /** All threads that wait for a triggered event are woken, behind those of earlier triggers. */
  lemma WaitersAreWoken(events: seq<seq<Thread>>, es: seq<Event>, i: nat)
    requires AllBelow(es, |events|) && i < |es| && es[i] !in es[..i]
    ensures Woken(events, es[..i]) + events[es[i]] <= Woken(events, es)
  {
    var parts := seq(|es|, j requires 0 <= j < |es| => WokenBy(events, es, j));
    forall j | 0 <= j < i ensures parts[j] == WokenBy(events, es[..i], j) { assert es[..i][..j] == es[..j]; }
    assert parts[..i] == seq(i, j requires 0 <= j < i => WokenBy(events, es[..i], j));
    ConcatParts(parts, i);
  }

  /** These triggers have woken exactly these threads, and done nothing else. */
  ghost predicate HasTriggered(s: State, es: seq<Event>, r: State)
    requires AllBelow(es, |s.events|)
  {
    && Emptied(s.events, r.events, es)
    && r == s.(main := s.main + Woken(s.events, es), wakes := s.wakes + Woken(s.events, es), events := r.events)
  }

  lemma OneMoreEmptied(before: seq<seq<Thread>>, after: seq<seq<Thread>>, es: seq<Event>)
    requires es != [] && AllBelow(es, |before|) && Emptied(before, after, es[..|es| - 1])
    ensures Emptied(before, after[es[|es| - 1] := []], es)
    ensures after[es[|es| - 1]] == WokenBy(before, es, |es| - 1)
  {
    assert forall e :: e in es <==> e in es[..|es| - 1] || e == es[|es| - 1];
  }

  lemma OneMoreTrigger(s: State, es: seq<Event>, r: State)
    requires es != [] && AllBelow(es, |s.events|) && HasTriggered(s, es[..|es| - 1], r)
    ensures HasTriggered(s, es, Trigger(r, es[|es| - 1]))
  {
    var e, woken := es[|es| - 1], Woken(s.events, es[..|es| - 1]);
    WokenByMore(s.events, es);
    OneMoreEmptied(s.events, r.events, es);
    assert s.main + woken + r.events[e] == s.main + (woken + r.events[e]);
    assert s.wakes + woken + r.events[e] == s.wakes + (woken + r.events[e]);
  }

  /** Several triggers wake exactly these threads. */
  lemma {:induction false} TriggersWake(s: State, es: seq<Event>)
    requires AllBelow(es, |s.events|)
    ensures HasTriggered(s, es, TriggerAll(s, es))
  {
    if es != [] {
      TriggersWake(s, es[..|es| - 1]);
      OneMoreTrigger(s, es, TriggerAll(s, es[..|es| - 1]));
    }
  }

  /** The first thread of the batch has run: its triggers have woken exactly the threads that waited, and it is
      now last where its suspension says. */
  ghost predicate HasRun(s: State, r: State)
    requires s.Valid() && s.batch != []
  {
    var t := s.batch[0];
    var slice := if s.scripts[t] == [] then Slice([], Finish) else s.scripts[t][0];
    && r.batch == s.batch[1..] && r.runs == s.runs + [t]
    && SliceOk(slice, |s.events|)
    && r.main == s.main + Woken(s.events, slice.triggers) && r.wakes == s.wakes + Woken(s.events, slice.triggers)
    && |r.events| == |s.events|
    && (forall e :: 0 <= e < |s.events| ==>
          r.events[e] == (if e in slice.triggers then [] else s.events[e])
                         + (if slice.stop == WaitEvent(e) then [t] else []))
    && r.timers == s.timers + (if slice.stop == WaitTime then [t] else [])
    && r.finished == s.finished + (if slice.stop == Finish then [t] else [])
    && |r.scripts| == |s.scripts|
    && forall u :: 0 <= u < |s.scripts| ==>
         r.scripts[u] == if u == t && s.scripts[u] != [] then s.scripts[u][1..] else s.scripts[u]
  }

  lemma StepEffect(s: State)
    requires s.Valid() && !s.Idle()
    ensures if s.batch != [] then HasRun(s, Step(s)) else Step(s) == s.(main := [], batch := s.main)
  {
    if s.batch != [] {
      ResumeKeepsValid(s);
      TriggersWake(Resume(s), NextSlice(s, s.batch[0]).triggers);
    }
  }

  /** Whoever a running thread wakes has run, in the order of the wake-ups, when the loop ends. */
  lemma WokenBySliceRun(s: State)
    requires s.Valid() && InOrder(s) && s.batch != []
    ensures HasRun(s, Step(s)) && Step(s).wakes <= RunAll(s).runs
  {
    StepEffect(s);
    StepKeepsValid(s);
    StepKeepsPlaces(s, 0);
    RunAllRunsEverything(Step(s), 0);
  }

  // ---------------------------------------------------------------------------
  // Whole runs: the simulator calls in, one callback after the other.

  datatype Callback = TimerExpired(index: nat) | ValueChange(triggers: seq<Event>)

  predicate CanHappen(s: State, c: Callback) {
    match c
    case TimerExpired(k) => k < |s.timers|
    case ValueChange(es) => AllBelow(es, |s.events|)
  }

  /** What a callback does before it starts the loop. */
  function Enter(s: State, c: Callback): State
    requires CanHappen(s, c)
  {
    match c
    case TimerExpired(k) =>
      s.(timers := s.timers[..k] + s.timers[k + 1..], main := s.main + [s.timers[k]], wakes := s.wakes + [s.timers[k]])
    case ValueChange(es) => TriggerAll(s, es)
  }

  lemma EnterIsValid(s: State, c: Callback)
    requires s.Valid() && CanHappen(s, c)
    ensures Enter(s, c).Valid()
  {
    if c.ValueChange? { TriggerAllKeeps(s, c.triggers); }
  }

  /** Taking one entry out of a sequence and appending it to another changes no total count. */
  lemma CountMoved(from: seq<Thread>, to: seq<Thread>, k: nat, t: Thread)
    requires k < |from|
    ensures Count(from[..k] + from[k + 1..], t) + Count(to + [from[k]], t) == Count(from, t) + Count(to, t)
  {
    assert from == from[..k] + ([from[k]] + from[k + 1..]);
    CountConcat(from[..k], [from[k]] + from[k + 1..], t);
    CountConcat([from[k]], from[k + 1..], t);
    CountConcat(from[..k], from[k + 1..], t);
    CountConcat(to, [from[k]], t);
  }

  lemma ExpiryKeeps(s: State, k: nat, t: Thread)
    requires s.Valid() && InOrder(s) && k < |s.timers|
    ensures var r := Enter(s, TimerExpired(k));
      r.Valid() && InOrder(r) && Places(r, t) == Places(s, t) && s.wakes <= r.wakes
  {
    CountMoved(s.timers, s.main, k, t);
  }

  lemma EnterKeeps(s: State, c: Callback, t: Thread)
    requires s.Valid() && InOrder(s) && CanHappen(s, c)
    ensures var r := Enter(s, c);
      && r.Valid() && InOrder(r) && Places(r, t) == Places(s, t) && s.wakes <= r.wakes
      && |r.events| == |s.events| && |r.scripts| == |s.scripts|
  {
    match c
    case TimerExpired(k) => ExpiryKeeps(s, k, t);
    case ValueChange(es) =>
      TriggerAllKeeps(s, es);
      TriggerAllKeepsPlaces(s, es, t);
  }

  /** An expired delay wakes its thread, a value change exactly the threads that wait for what it triggers. */
  ghost predicate HasEntered(s: State, c: Callback, r: State)
    requires CanHappen(s, c)
  {
    match c
    case TimerExpired(k) =>
      && r.timers == s.timers[..k] + s.timers[k + 1..] && r.events == s.events
      && r.main == s.main + [s.timers[k]] && r.wakes == s.wakes + [s.timers[k]]
    case ValueChange(es) =>
      && r.timers == s.timers && Emptied(s.events, r.events, es)
      && r.main == s.main + Woken(s.events, es) && r.wakes == s.wakes + Woken(s.events, es)
  }

  lemma EnterEffect(s: State, c: Callback)
    requires CanHappen(s, c)
    ensures var r := Enter(s, c);
      && HasEntered(s, c, r)
      && r.batch == s.batch && r.finished == s.finished && r.scripts == s.scripts && r.runs == s.runs
  {
    if c.ValueChange? { TriggersWake(s, c.triggers); }
  }

  /** The callback c takes the scheduler from one idle state to the next. */
  ghost predicate Follows(before: State, c: Callback, s: State) {
    && before.Valid() && CanHappen(before, c)
    && Enter(before, c).Valid() && s == RunAll(Enter(before, c))
  }

  /** Whoever a callback wakes has run when it is over, in the order of the wake-ups. */
  lemma WokenByCallbackRun(before: State, c: Callback, s: State)
    requires Follows(before, c, s) && InOrder(before)
    ensures HasEntered(before, c, Enter(before, c)) && Enter(before, c).wakes <= s.runs
  {
    EnterEffect(before, c);
    EnterKeeps(before, c, 0);
    RunAllRunsEverything(Enter(before, c), 0);
  }

  /** Every thread is registered for the start of the simulation, and waits for nothing else. */
  ghost predicate IsStart(s: State) {
    && s.Valid() && s.Idle() && s.finished == [] && s.runs == [] && s.wakes == []
    && (forall e :: 0 <= e < |s.events| ==> s.events[e] == [])
    && s.timers == seq<Thread>(|s.scripts|, i => i)
  }

  /** stimc_event_create: one more event, for which nobody waits. */
  function AddEvent(s: State): State {
    s.(events := s.events + [[]])
  }

  /** stimc_register_startup_thread: one more thread, which the simulator is to call. */
  function Register(s: State, script: seq<Slice>): State {
    s.(scripts := s.scripts + [script], timers := s.timers + [|s.scripts|])
  }

  /** An event is created, or a thread registered. */
  ghost predicate Grows(s: State, r: State) {
    s.Valid() && (r == AddEvent(s) || exists script :: ScriptOk(script, |s.events|) && r == Register(s, script))
  }

  lemma GrowthKeeps(s: State, r: State, t: Thread)
    requires Grows(s, r) && InOrder(s)
    ensures r.Valid() && InOrder(r) && (s.Idle() ==> r.Idle())
    ensures Places(r, t) == Places(s, t) + if |s.scripts| <= t < |r.scripts| then 1 else 0
    ensures |s.scripts| <= |r.scripts|
  {
    if r == AddEvent(s) {
      assert r.events[..|r.events| - 1] == s.events;
    } else {
      var script :| ScriptOk(script, |s.events|) && r == Register(s, script);
      CountConcat(s.timers, [|s.scripts|], t);
      assert [|s.scripts|][..0] == [];
    }
  }

  /** A run: the states between callbacks, from the start of the simulation on. */
  ghost predicate IsRun(states: seq<State>) {
    states != [] && IsStart(states[0]) && forall i :: 0 <= i < |states| - 1 ==> Turns(states, i)
  }

  /** A callback is handled, or an event or a thread is new. */
  ghost predicate Turns(states: seq<State>, i: nat)
    requires i < |states| - 1
  {
    Handles(states[i], states[i + 1]) || Grows(states[i], states[i + 1])
  }

  ghost predicate Handles(before: State, s: State) {
    exists c :: Follows(before, c, s)
  }

  lemma {:induction false} NoneWaiting(events: seq<seq<Thread>>, t: Thread)
    requires forall e :: 0 <= e < |events| ==> events[e] == []
    ensures Waiting(events, t) == 0
  {
    if events != [] { NoneWaiting(events[..|events| - 1], t); }
  }

  lemma {:induction false} EachOnce(n: nat, t: Thread)
    ensures Count<Thread>(seq<Thread>(n, i => i), t) == if t < n then 1 else 0
  {
    if n > 0 {
      EachOnce(n - 1, t);
      assert seq<Thread>(n, i => i)[..n - 1] == seq<Thread>(n - 1, i => i);
    }
  }

  // ---------------------------------------------------------------------------
  // Every state on the way, also within the loop

  /** The thread decides anew what it will do. */
  function Decide(s: State, t: Thread, script: seq<Slice>): State
    requires t < |s.scripts|
  {
    s.(scripts := s.scripts[t := script])
  }

  /** The first thread of the batch runs to its next suspension, doing whatever it likes with the events that
      exist at that moment. */
  ghost predicate Runs(s: State, r: State)
    requires s.Valid() && s.batch != []
  {
    exists script :: ScriptOk(script, |s.events|) && DecidesAndRuns(s, script, r)
  }

  ghost predicate DecidesAndRuns(s: State, script: seq<Slice>, r: State)
    requires s.Valid() && s.batch != [] && ScriptOk(script, |s.events|)
  {
    DecideKeeps(s, s.batch[0], script);
    r == RunSlice(Decide(s, s.batch[0], script))
  }

  lemma DecideKeeps(s: State, t: Thread, script: seq<Slice>)
    requires s.Valid() && t < |s.scripts| && ScriptOk(script, |s.events|)
    ensures Decide(s, t, script).Valid() && |Decide(s, t, script).scripts| == |s.scripts|
    ensures InOrder(Decide(s, t, script)) == InOrder(s) && forall u :: Places(Decide(s, t, script), u) == Places(s, u)
  {
  }

  /** Some thread runs, or the next batch starts, or the loop is idle and the simulator calls in; at any time
      there may be a new event or thread. */
  ghost predicate Moves(s: State, r: State) {
    || Grows(s, r)
    || (s.Valid() &&
        if s.batch != [] then Runs(s, r)
        else if s.main != [] then r == Step(s)
        else exists c :: CanHappen(s, c) && r == Enter(s, c))
  }

  /** A step of the loop is such a move. */
  lemma StepMoves(s: State)
    requires s.Valid() && !s.Idle()
    ensures Moves(s, Step(s))
  {
    if s.batch != [] {
      var t := s.batch[0];
      assert Decide(s, t, s.scripts[t]) == s;
      assert DecidesAndRuns(s, s.scripts[t], Step(s));
    }
  }

  ghost predicate IsTrace(states: seq<State>) {
    states != [] && IsStart(states[0]) && Moving(states)
  }

  ghost predicate Moving(states: seq<State>) {
    forall i :: 0 <= i < |states| - 1 ==> MovesAt(states, i)
  }

  ghost predicate MovesAt(states: seq<State>, i: nat)
    requires i < |states| - 1
  {
    Moves(states[i], states[i + 1])
  }

  lemma StepKeeps(s: State, t: Thread)
    requires s.Valid() && !s.Idle() && InOrder(s)
    ensures var r := Step(s); r.Valid() && InOrder(r) && |r.scripts| == |s.scripts| && Places(r, t) == Places(s, t)
  {
    StepKeepsValid(s);
    StepKeepsPlaces(s, t);
    StepExtends(s);
  }

  lemma MoveKeeps(s: State, r: State, t: Thread)
    requires Moves(s, r) && InOrder(s)
    ensures r.Valid() && InOrder(r) && |s.scripts| <= |r.scripts|
    ensures Places(r, t) == Places(s, t) + if |s.scripts| <= t < |r.scripts| then 1 else 0
  {
    if Grows(s, r) {
      GrowthKeeps(s, r, t);
    } else if s.batch != [] {
      var script :| ScriptOk(script, |s.events|) && DecidesAndRuns(s, script, r);
      DecideKeeps(s, s.batch[0], script);
      StepKeeps(Decide(s, s.batch[0], script), t);
    } else if s.main != [] {
      StepKeeps(s, t);
    } else {
      var c :| CanHappen(s, c) && r == Enter(s, c);
      EnterKeeps(s, c, t);
    }
  }

  /** In every reachable state each thread that exists is in exactly one place: waiting for one event, woken,
      in the part of the batch that has not run, at a timer or finished; and threads run in the order of their
      wake-ups, those still to run being queued. */
  lemma {:induction false} ReachableStates(states: seq<State>, k: nat, t: Thread)
    requires IsTrace(states) && k < |states|
    ensures states[k].Valid() && InOrder(states[k])
    ensures Places(states[k], t) == if t < |states[k].scripts| then 1 else 0
  {
    if k == 0 {
      NoneWaiting(states[0].events, t);
      EachOnce(|states[0].scripts|, t);
    } else {
      ReachableStates(states, k - 1, t);
      assert MovesAt(states, k - 1);
      MoveKeeps(states[k - 1], states[k], t);
    }
  }

  lemma JoinTraces(a: seq<State>, b: seq<State>)
    requires a != [] && b != [] && Moving(a) && Moving(b) && Moves(a[|a| - 1], b[0])
    ensures Moving(a + b)
  {
    forall i | 0 <= i < |a + b| - 1 ensures MovesAt(a + b, i) {
      if i < |a| - 1 { assert MovesAt(a, i); }
      if i >= |a| { assert MovesAt(b, i - |a|); }
    }
  }

  /** The loop passes only through such moves. */
  lemma {:induction false} LoopMoves(s: State) returns (states: seq<State>)
    requires s.Valid()
    ensures states != [] && states[0] == s && states[|states| - 1] == RunAll(s) && RunAll(s).Idle() && Moving(states)
    decreases Remaining(s.scripts), |s.batch| + |s.main|, |s.main|
  {
    if s.Idle() {
      states := [s];
    } else {
      StepKeepsValid(s);
      StepDecreases(s);
      var rest := LoopMoves(Step(s));
      StepMoves(s);
      JoinTraces([s], rest);
      states := [s] + rest;
    }
  }

  /** The states between callbacks are among the reachable ones. */
  lemma {:induction false} RunIsTrace(states: seq<State>, k: nat) returns (all: seq<State>)
    requires IsRun(states) && k < |states|
    ensures IsTrace(all) && all[0] == states[0] && all[|all| - 1] == states[k] && states[k].Idle()
  {
    if k == 0 {
      all := [states[0]];
    } else {
      var before := RunIsTrace(states, k - 1);
      assert Turns(states, k - 1);
      var last, s := states[k - 1], states[k];
      if Handles(last, s) {
        var c :| Follows(last, c, s);
        var rest := LoopMoves(Enter(last, c));
        JoinTraces(before, rest);
        all := before + rest;
      } else {
        JoinTraces(before, [s]);
        all := before + [s];
      }
    }
  }

  /** The threads a callback wakes: that of the expired delay, or those that wait for what it triggers. */
  ghost function WokenByCallback(s: State, c: Callback): seq<Thread>
    requires CanHappen(s, c)
  {
    match c
    case TimerExpired(k) => [s.timers[k]]
    case ValueChange(es) => Woken(s.events, es)
  }

  lemma BetweenCallbacks(states: seq<State>, k: nat, t: Thread)
    requires IsRun(states) && k < |states|
    ensures states[k].Valid() && states[k].Idle() && InOrder(states[k])
    ensures Places(states[k], t) == if t < |states[k].scripts| then 1 else 0
  {
    var all := RunIsTrace(states, k);
    ReachableStates(all, |all| - 1, t);
  }

  lemma TurnGrows(last: State, s: State)
    requires InOrder(last) && last.Idle() && (Handles(last, s) || Grows(last, s))
    ensures last.runs <= s.runs
  {
    if Handles(last, s) {
      var c :| Follows(last, c, s);
      WokenByCallbackRun(last, c, s);
    }
  }

  /** What callbacks have run stays on the record. */
  lemma {:induction false} RunsGrow(states: seq<State>, i: nat, k: nat)
    requires IsRun(states) && i <= k < |states|
    ensures states[i].runs <= states[k].runs
  {
    if i < k {
      RunsGrow(states, i, k - 1);
      assert Turns(states, k - 1);
      BetweenCallbacks(states, k - 1, 0);
      TurnGrows(states[k - 1], states[k]);
    }
  }

  lemma EarlierCallbackRan(states: seq<State>, i: nat, c: Callback, k: nat)
    requires IsRun(states) && i < k < |states| && IsCallback(states, i, c)
    ensures states[i].runs + WokenByCallback(states[i], c) <= states[k].runs
  {
    BetweenCallbacks(states, i, 0);
    CallbackWakes(states[i], c, states[i + 1]);
    RunsGrow(states, i + 1, k);
  }

  lemma CallbackWakes(before: State, c: Callback, s: State)
    requires Follows(before, c, s) && InOrder(before) && before.Idle()
    ensures before.runs + WokenByCallback(before, c) <= s.runs
  {
    WokenByCallbackRun(before, c, s);
  }

  /** After every callback: each thread is in exactly one place, nothing is queued, the threads ran exactly as
      often and in exactly the order in which they were woken, and among them, behind what had run before, are
      all the threads that any earlier callback woke. */
  lemma NoLostWakeups(states: seq<State>, k: nat, t: Thread)
    requires IsRun(states) && k < |states|
    ensures states[k].Valid() && states[k].Idle() && states[k].wakes == states[k].runs
    ensures Places(states[k], t) == if t < |states[k].scripts| then 1 else 0
    ensures forall i, c {:trigger WokenByCallback(states[i], c)} :: 0 <= i < k && IsCallback(states, i, c) ==>
      states[i].runs + WokenByCallback(states[i], c) <= states[k].runs
  {
    BetweenCallbacks(states, k, t);
    forall i, c | 0 <= i < k && IsCallback(states, i, c)
      ensures states[i].runs + WokenByCallback(states[i], c) <= states[k].runs
    {
      EarlierCallbackRan(states, i, c, k);
    }
  }

  ghost predicate IsCallback(states: seq<State>, i: nat, c: Callback)
    requires i < |states| - 1
  {
    Follows(states[i], c, states[i + 1])
  }

  /** Wherever a trigger happens, in a callback or in a running thread: everything queued before runs
      first, then exactly the threads that wait for the event at that moment, then what is woken later. */
  lemma TriggeredThreadsRunNext(s: State, e: Event)
    requires s.Valid() && InOrder(s) && e < |s.events|
    ensures Trigger(s, e).Valid() && Trigger(s, e).events == s.events[e := []]
    ensures s.runs + s.batch + s.main + s.events[e] <= RunAll(Trigger(s, e)).runs
  {
    RunAllRunsEverything(Trigger(s, e), 0);
  }
}
