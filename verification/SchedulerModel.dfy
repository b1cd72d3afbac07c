/** The coroutine scheduler as a state machine: one step runs one slice of one thread, or turns the
    main queue into the next batch.  */
module SchedulerModel {

  type Thread = nat
  type Event = nat

  /** How a thread gives control back. */
  datatype Stop = WaitEvent(event: Event) | WaitTime | Finish

  /** What a thread does between two suspensions: it triggers events, then stops. */
  datatype Slice = Slice(triggers: seq<Event>, stop: Stop)

  predicate AllBelow(xs: seq<nat>, n: nat) {
    forall i :: 0 <= i < |xs| ==> xs[i] < n
  }

  predicate SliceOk(s: Slice, n: nat) {
    AllBelow(s.triggers, n) && (s.stop.WaitEvent? ==> s.stop.event < n)
  }

  predicate ScriptOk(script: seq<Slice>, n: nat) {
    forall k :: 0 <= k < |script| ==> SliceOk(script[k], n)
  }

  datatype State = State(
    main: seq<Thread>,              // woken, waiting for the next batch
    batch: seq<Thread>,             // the part of the current batch that has not run yet
    events: seq<seq<Thread>>,       // per event, its waiting threads in order
    timers: seq<Thread>,            // threads with a pending simulator callback
    finished: seq<Thread>,
    scripts: seq<seq<Slice>>,       // per thread, what it will still do
    runs: seq<Thread>,              // history: every resumption, in order
    wakes: seq<Thread>)             // history: every wake-up, in order
  {
    ghost predicate Valid() {
      && AllBelow(main, |scripts|) && AllBelow(batch, |scripts|) && AllBelow(timers, |scripts|)
      && (forall e :: 0 <= e < |events| ==> AllBelow(events[e], |scripts|))
      && (forall i :: 0 <= i < |scripts| ==> ScriptOk(scripts[i], |events|))
    }

    predicate Idle() { main == [] && batch == [] }
  }

  /** stimc_trigger_event: exactly the current waiters move to the main queue, in order. */
  function Trigger(s: State, e: Event): State
    requires e < |s.events|
  {
    s.(main := s.main + s.events[e], wakes := s.wakes + s.events[e], events := s.events[e := []])
  }

  function TriggerAll(s: State, es: seq<Event>): (r: State)
    requires AllBelow(es, |s.events|)
    ensures |r.events| == |s.events|
  {
    if es == [] then s else Trigger(TriggerAll(s, es[..|es| - 1]), es[|es| - 1])
  }

  /** The thread is put where its suspension says. */
  function Suspend(s: State, t: Thread, stop: Stop): State
    requires stop.WaitEvent? ==> stop.event < |s.events|
  {
    match stop
    case WaitEvent(e) => s.(events := s.events[e := s.events[e] + [t]])
    case WaitTime => s.(timers := s.timers + [t])
    case Finish => s.(finished := s.finished + [t])
  }

  /** The next slice of a thread; a thread whose script is used up finishes. */
  function NextSlice(s: State, t: Thread): Slice
    requires t < |s.scripts|
  {
    if s.scripts[t] == [] then Slice([], Finish) else s.scripts[t][0]
  }

  /** co_call: the first thread of the batch runs to its next suspension. */
  function RunSlice(s: State): State
    requires s.Valid() && s.batch != []
  {
    var t := s.batch[0];
    var slice := NextSlice(s, t);
    ResumeKeepsValid(s);
    Suspend(TriggerAll(Resume(s), slice.triggers), t, slice.stop)
  }

  /** The first thread of the batch leaves it and uses up one slice of its script. */
  function Resume(s: State): State
    requires s.Valid() && s.batch != []
  {
    var t := s.batch[0];
    s.(batch := s.batch[1..], runs := s.runs + [t],
       scripts := if s.scripts[t] == [] then s.scripts else s.scripts[t := s.scripts[t][1..]])
  }

  lemma ResumeKeepsValid(s: State)
    requires s.Valid() && s.batch != []
    ensures Resume(s).Valid() && SliceOk(NextSlice(s, s.batch[0]), |s.events|)
  {
    var t := s.batch[0];
    assert ScriptOk(s.scripts[t], |s.events|);
  }

  /** One step of stimc_main_queue_run_threads. */
  function Step(s: State): State
    requires s.Valid() && !s.Idle()
  {
    if s.batch != [] then RunSlice(s) else s.(batch := s.main, main := [])
  }

  function Remaining(scripts: seq<seq<Slice>>): nat {
    if scripts == [] then 0 else |scripts[0]| + Remaining(scripts[1..])
  }

  lemma {:induction false} UseSlice(scripts: seq<seq<Slice>>, t: nat)
    requires t < |scripts| && scripts[t] != []
    ensures Remaining(scripts[t := scripts[t][1..]]) + 1 == Remaining(scripts)
  {
    if t > 0 {
      UseSlice(scripts[1..], t - 1);
      assert scripts[t := scripts[t][1..]][1..] == scripts[1..][t - 1 := scripts[1..][t - 1][1..]];
    }
  }

  lemma {:induction false} TriggerAllKeeps(s: State, es: seq<Event>)
    requires s.Valid() && AllBelow(es, |s.events|)
    ensures var r := TriggerAll(s, es);
      && r.Valid() && r.batch == s.batch && r.timers == s.timers && r.finished == s.finished
      && r.scripts == s.scripts && r.runs == s.runs
      && s.main <= r.main && s.wakes <= r.wakes
      && r.wakes[|s.wakes|..] == r.main[|s.main|..]
  {
    if es != [] { TriggerAllKeeps(s, es[..|es| - 1]); }
  }

  lemma StepKeepsValid(s: State)
    requires s.Valid() && !s.Idle()
    ensures Step(s).Valid()
  {
    if s.batch != [] {
      ResumeKeepsValid(s);
      TriggerAllKeeps(Resume(s), NextSlice(s, s.batch[0]).triggers);
    }
  }

  lemma StepDecreases(s: State)
    requires s.Valid() && !s.Idle()
    ensures var r := Step(s);
      || Remaining(r.scripts) < Remaining(s.scripts)
      || (Remaining(r.scripts) == Remaining(s.scripts) && |r.batch| + |r.main| < |s.batch| + |s.main|)
      || (Remaining(r.scripts) == Remaining(s.scripts) && |r.batch| + |r.main| == |s.batch| + |s.main|
        && |r.main| < |s.main|)
  {
    if s.batch != [] {
      var t := s.batch[0];
      if s.scripts[t] != [] { UseSlice(s.scripts, t); }
      ResumeKeepsValid(s);
      TriggerAllKeeps(Resume(s), NextSlice(s, t).triggers);
    }
  }

  /** stimc_main_queue_run_threads: steps until nothing is left to run. */
  function RunAll(s: State): State
    requires s.Valid()
    decreases Remaining(s.scripts), |s.batch| + |s.main|, |s.main|
  {
    if s.Idle() then s else
      StepKeepsValid(s); StepDecreases(s);
      RunAll(Step(s))
  }
}
