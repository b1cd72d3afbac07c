/** The NULL-terminated growing coroutine queue of stimc.c. */
module ThreadQueues {
  import opened SchedulerModel

  datatype Slot = Null | Coroutine(t: Thread)

  /** The buffer with its first entries kept; nothing is promised about the new ones. */
  method Realloc(buffer: seq<Slot>, n: nat) returns (r: seq<Slot>)
    requires |buffer| <= n
    ensures |r| == n && r[..|buffer|] == buffer
  {
    r := buffer + seq(n - |buffer|, _ => Null);
  }

  /** The threads in front of the sentinel. */
  ghost function Queued(slots: seq<Slot>): seq<Thread>
    requires forall k :: 0 <= k < |slots| ==> slots[k].Coroutine?
  {
    seq(|slots|, k requires 0 <= k < |slots| => slots[k].t)
  }

  lemma QueuedConcat(a: seq<Slot>, b: seq<Slot>)
    requires forall k :: 0 <= k < |a| ==> a[k].Coroutine?
    requires forall k :: 0 <= k < |b| ==> b[k].Coroutine?
    ensures Queued(a + b) == Queued(a) + Queued(b)
  {
  }

  class ThreadQueue {
    var threadsLen: nat
    var threadsNum: nat
    var threads: seq<Slot>

    /** A queue in use has room for its sentinel, and the sentinel is where the count says. */
    ghost predicate Valid()
      reads this
    {
      && |threads| == threadsLen
      && (threadsLen == 0 ==> threadsNum == 0)
      && (threadsLen > 0 ==> threadsNum < threadsLen && threads[threadsNum] == Null)
      && forall k :: 0 <= k < threadsNum ==> threads[k].Coroutine?
    }

    ghost function Contents(): seq<Thread>
      requires Valid()
      reads this
    {
      Queued(threads[..threadsNum])
    }

    /** The state of a statically initialised queue. */
    constructor Static()
      ensures Valid() && Contents() == [] && threadsLen == 0
    {
      threadsLen, threadsNum, threads := 0, 0, [];
    }

    /** stimc_thread_queue_init */
    method Init()
      modifies this
      ensures Valid() && Contents() == [] && threadsLen == 16
    {
      threadsLen := 16;
      threads := Realloc([], 16);
      Clear();
    }

    method Clear()
      requires |threads| == threadsLen > 0
      modifies this
      ensures Valid() && Contents() == [] && threadsLen == old(threadsLen)
    {
      threadsNum := 0;
      threads := threads[0 := Null];
    }

    method Enqueue(t: Thread)
      requires Valid()
      modifies this
      ensures Valid() && threadsLen > 0
      ensures Contents() == old(Contents()) + [t]
    {
      ghost var before := threads[..threadsNum];
      if threadsNum + 1 >= threadsLen {
        if threadsLen <= 0 { threadsLen := 1; }
        threadsLen := threadsLen * 2;
        threads := Realloc(threads, threadsLen);
        assert threads[..threadsNum] == threads[..|old(threads)|][..threadsNum];
      }
      assert threads[..threadsNum] == before;
      threads := threads[threadsNum := Coroutine(t)];
      threadsNum := threadsNum + 1;
      threads := threads[threadsNum := Null];
      assert threads[..threadsNum] == before + [Coroutine(t)];
      QueuedConcat(before, [Coroutine(t)]);
    }

    /** Makes room for n more threads and the sentinel. */
    method GrowFor(n: nat)
      requires Valid()
      modifies this
      ensures |threads| == threadsLen && threadsNum == old(threadsNum) && threadsNum + n < threadsLen
      ensures threads[..threadsNum] == old(threads[..threadsNum])
    {
      if threadsNum + n >= threadsLen {
        if threadsLen <= 0 { threadsLen := 1; }
        while threadsNum + n >= threadsLen
          invariant threadsLen >= 1 && threadsLen >= |threads|
          invariant threads == old(threads) && threadsNum == old(threadsNum)
          decreases threadsNum + n - threadsLen
        {
          threadsLen := threadsLen * 2;
        }
        threads := Realloc(threads, threadsLen);
        assert threads[..threadsNum] == threads[..|old(threads)|][..threadsNum];
      }
    }

    method EnqueueAll(source: ThreadQueue)
      requires Valid() && source.Valid() && source != this
      modifies this
      ensures Valid() && threadsLen > 0
      ensures Contents() == old(Contents()) + source.Contents()
    {
      ghost var before, added := threads[..threadsNum], source.threads[..source.threadsNum];
      GrowFor(source.threadsNum);
      assert threads[..threadsNum] == before;
      for i := 0 to source.threadsNum
        invariant |threads| == threadsLen
        invariant threadsNum == |before| + i && |before| + source.threadsNum < threadsLen
        invariant threads[..threadsNum] == before + added[..i]
      {
        threads := threads[threadsNum := source.threads[i]];
        threadsNum := threadsNum + 1;
        assert threads[..threadsNum] == threads[..threadsNum - 1] + [added[i]];
        assert added[..i + 1] == added[..i] + [added[i]];
      }
      assert added[..source.threadsNum] == added;
      threads := threads[threadsNum := Null];
      assert threads[..threadsNum] == before + added;
      QueuedConcat(before, added);
    }
  }
}
