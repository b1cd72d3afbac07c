/** The scheduler of stimc.c on its queues, refining the state machine. */
module Scheduling {
  import opened SchedulerModel
  import opened SchedulerProperties
  import opened ThreadQueues

  /** Everything woken before the loop has run after it. */
  lemma AllHaveRun(s: State)
    requires s.Valid()
    ensures InOrder(s) ==> s.wakes <= RunAll(s).runs == RunAll(s).wakes
  {
    if InOrder(s) { RunAllRunsEverything(s, 0); }
  }

  class Scheduler {
    var queueSetup: bool
    const main: ThreadQueue
    const shadow: ThreadQueue
    var events: seq<ThreadQueue>
    var current: Slot
    // The simulator's pending callbacks, and what the coroutines will do.
    var timers: seq<Thread>
    var finished: seq<Thread>
    var scripts: seq<seq<Slice>>
    ghost var runs: seq<Thread>
    ghost var wakes: seq<Thread>

    ghost predicate Sound()
      reads this, main, shadow, events
    {
      && main != shadow && main !in events && shadow !in events
      && (forall i, j :: 0 <= i < j < |events| ==> events[i] != events[j])
      && main.Valid() && shadow.Valid()
      && (forall e :: 0 <= e < |events| ==> events[e].Valid() && events[e].threadsLen > 0)
      && (if queueSetup then main.threadsLen > 0 && shadow.threadsLen > 0
          else main.threadsNum == 0 && shadow.threadsNum == 0)
    }

    ghost function Waiters(): seq<seq<Thread>>
      requires Sound()
      reads this, main, shadow, events
    {
      seq(|events|, e requires 0 <= e < |events| && Sound() reads this, main, shadow, events => events[e].Contents())
    }

    /** The state of the machine when the first i threads of the shadow batch have run. */
    ghost function Abs(i: nat): State
      requires Sound() && i <= shadow.threadsNum
      reads this, main, shadow, events
    {
      State(main.Contents(), shadow.Contents()[i..], Waiters(), timers, finished, scripts, runs, wakes)
    }

    /** All threads are registered to start, and no event exists yet. */
    constructor (scripts: seq<seq<Slice>>)
      ensures Sound() && shadow.threadsNum == 0 && events == [] && !queueSetup && current == Null
      ensures Abs(0) == State([], [], [], seq(|scripts|, i => i), [], scripts, [], [])
    {
      main := new ThreadQueue.Static();
      shadow := new ThreadQueue.Static();
      queueSetup, current := false, Null;
      events := [];
      this.scripts := scripts;
      timers := seq(|scripts|, i => i);
      finished := [];
      runs, wakes := [], [];
    }

    /** stimc_event_create */
    method CreateEvent()
      requires Sound()
      modifies this`events
      ensures Sound() && |events| == |old(events)| + 1
      ensures forall i :: 0 <= i <= shadow.threadsNum ==> Abs(i) == AddEvent(old(Abs(i)))
    {
      var q := new ThreadQueue.Static();
      q.Init();
      events := events + [q];
      assert Waiters() == old(Waiters()) + [[]];
    }

    /** stimc_register_startup_thread */
    method RegisterThread(script: seq<Slice>)
      requires Sound()
      modifies this`scripts, this`timers
      ensures Sound()
      ensures forall i :: 0 <= i <= shadow.threadsNum ==> Abs(i) == Register(old(Abs(i)), script)
    {
      timers := timers + [|scripts|];
      scripts := scripts + [script];
    }

    /** stimc_main_queue_checksetup */
    method CheckSetup()
      requires Sound()
      modifies this`queueSetup, main, shadow
      ensures Sound() && queueSetup
      ensures shadow.threadsNum == old(shadow.threadsNum)
      ensures old(queueSetup) ==> shadow.threads == old(shadow.threads)
      ensures forall i :: 0 <= i <= shadow.threadsNum ==> Abs(i) == old(Abs(i))
    {
      if queueSetup { return; }
      main.Init();
      shadow.Init();
      queueSetup := true;
    }

    /** stimc_trigger_event */
    method TriggerEvent(e: Event, ghost i: nat)
      requires Sound() && e < |events| && i <= shadow.threadsNum
      modifies this`queueSetup, this`wakes, main, shadow, events[e]
      ensures Sound() && (old(queueSetup) ==> queueSetup && shadow.threads == old(shadow.threads))
      ensures shadow.threadsNum == old(shadow.threadsNum)
      ensures Abs(i) == Trigger(old(Abs(i)), e)
    {
      if events[e].threadsNum == 0 { return; }
      CheckSetup();
      Release(e, i);
    }

    /** The event's waiters follow the main queue, and the event's queue is emptied. */
    method Release(e: Event, ghost i: nat)
      requires Sound() && queueSetup && e < |events| && i <= shadow.threadsNum
      modifies this`wakes, main, events[e]
      ensures Sound()
      ensures Abs(i) == Trigger(old(Abs(i)), e)
    {
      main.EnqueueAll(events[e]);
      wakes := wakes + events[e].Contents();
      events[e].Clear();
      assert Waiters() == old(Waiters())[e := []];
    }

    /** stimc_wait_event: the running thread joins the event's queue. */
    method WaitFor(e: Event, ghost i: nat)
      requires Sound() && e < |events| && i <= shadow.threadsNum && current.Coroutine?
      modifies events[e]
      ensures Sound()
      ensures Abs(i) == Suspend(old(Abs(i)), current.t, WaitEvent(e))
    {
      events[e].Enqueue(current.t);
    }

    /** Triggers several events one after the other. */
    method TriggerEvents(es: seq<Event>, ghost i: nat)
      requires Sound() && i <= shadow.threadsNum && AllBelow(es, |events|)
      modifies this`queueSetup, this`wakes, main, shadow, events
      ensures Sound() && (old(queueSetup) ==> queueSetup && shadow.threads == old(shadow.threads))
      ensures shadow.threadsNum == old(shadow.threadsNum)
      ensures Abs(i) == TriggerAll(old(Abs(i)), es)
    {
      for j := 0 to |es|
        invariant Sound() && (old(queueSetup) ==> queueSetup && shadow.threads == old(shadow.threads))
        invariant shadow.threadsNum == old(shadow.threadsNum)
        invariant Abs(i) == TriggerAll(old(Abs(i)), es[..j])
      {
        TriggerEvent(es[j], i);
        assert es[..j + 1][..j] == es[..j];
      }
      assert es[..|es|] == es;
    }

    /** The i-th thread of the batch becomes the running one and takes the next slice of its script. */
    method Dispatch(i: nat) returns (slice: Slice)
      requires Sound() && i < shadow.threadsNum && Abs(i).Valid()
      modifies this`runs, this`scripts, this`current
      ensures Sound() && current == shadow.threads[i] && current.Coroutine?
      ensures old(Abs(i)).batch != [] && current.t == old(Abs(i)).batch[0]
      ensures slice == NextSlice(old(Abs(i)), current.t)
      ensures Abs(i + 1) == Resume(old(Abs(i)))
    {
      ghost var before := Abs(i);
      current := shadow.threads[i];
      var t := current.t;
      assert before.batch[0] == t && before.batch[1..] == shadow.Contents()[i + 1..];
      slice := Slice([], Finish);
      if scripts[t] != [] {
        slice := scripts[t][0];
        scripts := scripts[t := scripts[t][1..]];
      }
      runs := runs + [t];
    }

    /** The running thread suspends itself. */
    method Halt(stop: Stop, ghost i: nat)
      requires Sound() && i <= shadow.threadsNum && current.Coroutine?
      requires stop.WaitEvent? ==> stop.event < |events|
      modifies this`timers, this`finished, events
      ensures Sound()
      ensures Abs(i) == Suspend(old(Abs(i)), current.t, stop)
    {
      match stop
      case WaitEvent(e) => WaitFor(e, i);
      case WaitTime => timers := timers + [current.t];
      case Finish => finished := finished + [current.t];
    }

    /** co_call: the i-th thread of the batch runs to its next suspension. */
    method CoCall(i: nat)
      requires Sound() && queueSetup && i < shadow.threadsNum && Abs(i).Valid()
      modifies this`queueSetup, this`wakes, this`runs, this`scripts, this`timers, this`finished, this`current, main,
        shadow, events
      ensures Sound() && queueSetup
      ensures shadow.threadsNum == old(shadow.threadsNum) && shadow.threads == old(shadow.threads)
      ensures Abs(i + 1) == RunSlice(old(Abs(i)))
      ensures old(Abs(i)).batch != [] && HasRun(old(Abs(i)), Abs(i + 1))
    {
      ghost var before := Abs(i);
      var slice := Dispatch(i);
      ResumeKeepsValid(before);
      TriggerEvents(slice.triggers, i + 1);
      Halt(slice.stop, i + 1);
      StepEffect(before);
    }

    /** The main queue becomes the next batch. */
    method StartBatch()
      requires Sound() && queueSetup && shadow.threadsNum == 0 && main.threadsNum != 0 && Abs(0).Valid()
      modifies main, shadow
      ensures Sound() && main.threadsNum == 0 && shadow.threadsNum > 0
      ensures Abs(0) == Step(old(Abs(0)))
    {
      shadow.EnqueueAll(main);
      main.Clear();
    }

    method EndBatch()
      requires Sound() && queueSetup
      modifies shadow, this`current
      ensures Sound() && shadow.threadsNum == 0 && current == Null
      ensures Abs(0) == old(Abs(shadow.threadsNum))
    {
      current := Null;
      shadow.Clear();
    }

    /** stimc_main_queue_run_threads */
    method RunThreads()
      requires Sound() && shadow.threadsNum == 0 && current == Null && Abs(0).Valid()
      modifies this`queueSetup, this`wakes, this`runs, this`scripts, this`timers, this`finished, this`current, main,
        shadow, events
      ensures Sound() && queueSetup && shadow.threadsNum == 0
      ensures current == Null && main.threadsNum == 0 && events == old(events)
      ensures Abs(0) == RunAll(old(Abs(0)))
      ensures InOrder(old(Abs(0))) ==> old(Abs(0)).wakes <= Abs(0).runs == Abs(0).wakes
    {
      ghost var before := Abs(0);
      CheckSetup();
      while main.threadsNum != 0
        invariant Sound() && queueSetup && shadow.threadsNum == 0 && Abs(0).Valid()
        invariant RunAll(Abs(0)) == RunAll(old(Abs(0)))
        invariant current == Null
        decreases Remaining(scripts), main.threadsNum
      {
        ghost var start := Abs(0);
        StartBatch();
        assert current == Null;
        StepKeepsValid(start);
        RunBatch();
        EndBatch();
      }
      AllHaveRun(before);
    }

    /** The inner loop: every thread of the batch, up to the sentinel. */
    method RunBatch()
      requires Sound() && queueSetup && Abs(0).Valid() && main.threadsNum == 0
      modifies this`queueSetup, this`wakes, this`runs, this`scripts, this`timers, this`finished, this`current, main,
        shadow, events
      ensures Sound() && queueSetup && Abs(shadow.threadsNum).Valid()
      ensures RunAll(Abs(shadow.threadsNum)) == RunAll(old(Abs(0)))
      ensures old(shadow.threadsNum) > 0 ==>
        || Remaining(scripts) < Remaining(old(scripts))
        || (Remaining(scripts) == Remaining(old(scripts)) && main.threadsNum == 0)
    {
      var i := 0;
      while shadow.threads[i] != Null
        invariant 0 <= i <= shadow.threadsNum && Sound() && queueSetup && Abs(i).Valid()
        invariant RunAll(Abs(i)) == RunAll(old(Abs(0)))
        invariant
          || Remaining(scripts) < Remaining(old(scripts))
          || (Remaining(scripts) == Remaining(old(scripts)) && main.threadsNum == 0)
        decreases shadow.threadsNum - i
      {
        ghost var s := Abs(i);
        StepKeepsValid(s);
        StepDecreases(s);
        CoCall(i);
        assert Abs(i + 1) == Step(s);
        i := i + 1;
      }
    }

    /** What a callback does before the loop starts: an expired delay queues its thread, a value
        change runs a method that triggers events. */
    method Accept(c: Callback)
      requires Sound() && shadow.threadsNum == 0 && CanHappen(Abs(0), c)
      modifies this`queueSetup, this`wakes, this`timers, main, shadow, events
      ensures Sound() && shadow.threadsNum == 0
      ensures Abs(0) == Enter(old(Abs(0)), c) && HasEntered(old(Abs(0)), c, Abs(0))
    {
      EnterEffect(Abs(0), c);
      match c {
        case TimerExpired(k) =>
          CheckSetup();
          main.Enqueue(timers[k]);
          wakes := wakes + [timers[k]];
          timers := timers[..k] + timers[k + 1..];
        case ValueChange(es) =>
          TriggerEvents(es, 0);
      }
    }

    /** The simulator calls in; the loop runs until nothing is left to do. */
    method OnCallback(c: Callback)
      requires Sound() && shadow.threadsNum == 0 && current == Null && Abs(0).Valid() && CanHappen(Abs(0), c)
      modifies this`queueSetup, this`wakes, this`runs, this`scripts, this`timers, this`finished, this`current, main,
        shadow, events
      ensures Sound() && shadow.threadsNum == 0 && main.threadsNum == 0 && current == Null && events == old(events)
      ensures Follows(old(Abs(0)), c, Abs(0))
      ensures InOrder(old(Abs(0))) ==>
        InOrder(Abs(0)) && old(Abs(0)).wakes + WokenByCallback(old(Abs(0)), c) <= Abs(0).runs
    {
      ghost var before := Abs(0);
      EnterIsValid(Abs(0), c);
      Accept(c);
      RunThreads();
      if InOrder(before) {
        WokenByCallbackRun(before, c, Abs(0));
        EnterKeeps(before, c, 0);
        RunAllRunsEverything(Enter(before, c), 0);
      }
    }
  }
}
