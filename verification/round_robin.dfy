/**
 * Round-robin CPU scheduler bookkeeping, modelled after robin_round.cpp.
 *
 * The scheduler state is the running thread id (-1 when the CPU is idle),
 * the quantum (`m_timeslice`), the ticks the running thread has used so far
 * (`m_time`) and a FIFO queue of ready threads.  Each entry point is a
 * method of `Scheduler` that updates that state in place; each is specified
 * by a function on `Sched` values, and the lemmas below state what those
 * functions keep.
 */
module RoundRobin {
  import opened MachineWords

  /** The id `current_thread_id` holds when no thread runs. */
  const Idle: Int32 := -1

  /** A snapshot of the four globals. */
  datatype Sched = Sched(current: Int32, timeslice: UInt64, time: UInt64, pool: seq<Int32>)

  /** The threads that are ready or running: the running one and the queue. */
  function Active(s: Sched): multiset<Int32>
  {
    (if s.current == Idle then multiset{} else multiset{s.current}) + multiset(s.pool)
  }

  /**
   * The scheduler invariant: an idle CPU means an empty queue, the idle id
   * is never queued, and with a quantum of at least one tick the running
   * thread has used less than a full quantum.
   */
  predicate Valid(s: Sched)
  {
    (s.current == Idle ==> s.pool == []) &&
    Idle !in s.pool &&
    (s.timeslice >= 1 ==> s.time < s.timeslice)
  }

  /** No thread is both running and queued, and none is queued twice. */
  predicate Distinct(s: Sched)
  {
    s.current !in s.pool &&
    forall i, j | 0 <= i < j < |s.pool| :: s.pool[i] != s.pool[j]
  }

  /** The globals before any call: no thread, quantum 0, time 0, empty queue. */
  function Initial(): Sched
  {
    Sched(Idle, 0, 0, [])
  }

  /** `scheduler_setup`; the `int` quantum is converted to `uint64_t`. */
  function SetupState(timeslice: Int32): Sched
  {
    Sched(Idle, ToUInt64(timeslice), 0, [])
  }

  /**
   * `new_thread` and `wake_thread` (the two have the same body): an idle
   * CPU takes the thread at once with a fresh quantum, otherwise the thread
   * joins the tail of the queue.
   */
  function Admit(s: Sched, id: Int32): Sched
  {
    if s.current == Idle then s.(current := id, time := 0)
    else s.(pool := s.pool + [id])
  }

  /**
   * `exit_thread` and `block_thread` (the two have the same body): the head
   * of the queue takes the CPU with a fresh quantum; with an empty queue the
   * CPU goes idle and the tick counter is left as it was.
   */
  function Yield(s: Sched): Sched
  {
    if s.pool == [] then s.(current := Idle)
    else s.(current := s.pool[0], pool := s.pool[1..], time := 0)
  }

  /**
   * `timer_tick`: count one tick (modulo 2^64, as `uint64_t` does); on
   * reaching the quantum, start a new quantum, and if a thread is waiting,
   * move the running thread to the tail and run the head of the queue.
   */
  function Tick(s: Sched): Sched
  {
    var t := ToUInt64(s.time + 1);
    if t != s.timeslice then s.(time := t)
    else if s.pool == [] then s.(time := 0)
    else Sched(s.pool[0], s.timeslice, 0, s.pool[1..] + [s.current])
  }

  /** Setting up leaves no running thread, an empty queue, time 0 and the given quantum. */
  lemma SetupIsIdle(timeslice: Int32)
    ensures var s := SetupState(timeslice);
      s.current == Idle && s.pool == [] && s.time == 0 && Active(s) == multiset{} && Valid(s)
    ensures timeslice >= 0 ==> SetupState(timeslice).timeslice == timeslice
    ensures timeslice < 0 ==> SetupState(timeslice).timeslice == timeslice + TWO_TO_64
  {
  }

  /**
   * Admitting a thread on an idle CPU runs it with a fresh quantum;
   * otherwise it is appended to the queue and the running thread and the
   * tick counter are unchanged.  Either way it becomes active and, when it
   * is not the idle id, the invariant is kept.
   */
  lemma AdmitEffect(s: Sched, id: Int32)
    ensures var r := Admit(s, id);
      r.timeslice == s.timeslice &&
      (s.current == Idle ==> r.current == id && r.time == 0 && r.pool == s.pool) &&
      (s.current != Idle ==> r.current == s.current && r.time == s.time && r.pool == s.pool + [id])
    ensures Valid(s) && id != Idle ==> Valid(Admit(s, id)) && Active(Admit(s, id)) == Active(s) + multiset{id}
  {
  }

  /**
   * Yielding hands the CPU to the head of the queue with a fresh quantum,
   * or idles the CPU when the queue is empty; the running thread leaves the
   * active set and the invariant is kept.
   */
  lemma YieldEffect(s: Sched)
    ensures var r := Yield(s);
      r.timeslice == s.timeslice &&
      (s.pool == [] ==> r.current == Idle && r.pool == [] && r.time == s.time) &&
      (s.pool != [] ==> r.current == s.pool[0] && r.pool == s.pool[1..] && r.time == 0)
    ensures Valid(s) ==> Valid(Yield(s))
    ensures Valid(s) && s.current != Idle ==> Active(Yield(s)) + multiset{s.current} == Active(s)
  {
    if s.pool != [] {
      assert s.pool == [s.pool[0]] + s.pool[1..];
    }
  }

  /**
   * Below the quantum a tick only counts; at the quantum it restarts the
   * count and, with a non-empty queue, rotates the running thread to the
   * tail and runs the head.  The counter is a `uint64_t`: after 2^64 - 1 it
   * wraps to 0, which with a quantum of 0 counts as reaching the quantum.
   */
  lemma TickEffect(s: Sched)
    ensures var r := Tick(s);
      r.timeslice == s.timeslice &&
      (s.time + 1 < TWO_TO_64 && s.time + 1 != s.timeslice ==>
         r.current == s.current && r.pool == s.pool && r.time == s.time + 1) &&
      (s.time + 1 == TWO_TO_64 && s.timeslice != 0 ==>
         r.current == s.current && r.pool == s.pool && r.time == 0) &&
      (s.time + 1 == s.timeslice || (s.time + 1 == TWO_TO_64 && s.timeslice == 0) ==>
         r.time == 0 &&
         (s.pool == [] ==> r.current == s.current && r.pool == []) &&
         (s.pool != [] ==> r.current == s.pool[0] && r.pool == s.pool[1..] + [s.current]))
  {
  }

  /** Moving the running thread to the tail and running the head keeps the same threads. */
  lemma RotateKeepsThreads(current: Int32, pool: seq<Int32>)
    requires pool != []
    ensures multiset{pool[0]} + multiset(pool[1..] + [current]) == multiset{current} + multiset(pool)
  {
    assert pool == [pool[0]] + pool[1..];
  }

  /** A tick keeps the invariant and the set of active threads. */
  lemma TickKeepsActive(s: Sched)
    requires Valid(s)
    ensures Valid(Tick(s))
    ensures Active(Tick(s)) == Active(s)
  {
    var t := ToUInt64(s.time + 1);
    if t == s.timeslice && s.pool != [] {
      assert s.current != Idle;
      RotateKeepsThreads(s.current, s.pool);
    }
  }

  /** Under the invariant the CPU is idle only when no thread is active. */
  lemma IdleOnlyWhenNoneActive(s: Sched)
    requires Valid(s)
    ensures s.current == Idle <==> Active(s) == multiset{}
  {
    if s.current != Idle {
      assert s.current in Active(s);
    }
  }

  /**
   * With ids that are unique when created and woken threads that were
   * blocked (so not active), the active ids stay pairwise distinct.
   */
  lemma AdmitKeepsDistinct(s: Sched, id: Int32)
    requires Distinct(s) && id !in Active(s)
    ensures Distinct(Admit(s, id))
  {
    if s.current != Idle {
      assert id !in multiset(s.pool);
    }
  }

  lemma YieldKeepsDistinct(s: Sched)
    requires Distinct(s)
    ensures Distinct(Yield(s))
  {
  }

  lemma TickKeepsDistinct(s: Sched)
    requires Valid(s) && Distinct(s)
    ensures Distinct(Tick(s))
  {
    var t := ToUInt64(s.time + 1);
    if t == s.timeslice && s.pool != [] {
      var p := s.pool[1..] + [s.current];
      forall i, j | 0 <= i < j < |p|
        ensures p[i] != p[j]
      {
        if j == |p| - 1 {
          assert p[i] == s.pool[i + 1];
        } else {
          assert p[i] == s.pool[i + 1] && p[j] == s.pool[j + 1];
        }
      }
      assert s.pool[0] !in s.pool[1..] by {
        forall k | 0 <= k < |s.pool| - 1
          ensures s.pool[1..][k] != s.pool[0]
        {
          assert s.pool[1..][k] == s.pool[k + 1];
        }
      }
    }
  }

  /** The scheduler globals, updated in place by the entry points. */
  class Scheduler {
    var currentThreadId: Int32
    var timeslice: UInt64
    var time: UInt64
    var threadPool: seq<Int32>

    function State(): Sched
      reads this
    {
      Sched(currentThreadId, timeslice, time, threadPool)
    }

    constructor ()
      ensures State() == Initial()
    {
      currentThreadId := Idle;
      timeslice := 0;
      time := 0;
      threadPool := [];
    }

    method Setup(ts: Int32)
      modifies this
      ensures State() == SetupState(ts)
    {
      currentThreadId := Idle;
      timeslice := ToUInt64(ts);
      time := 0;
      threadPool := [];
    }

    method NewThread(threadId: Int32)
      modifies this
      ensures State() == Admit(old(State()), threadId)
    {
      if currentThreadId == Idle {
        currentThreadId := threadId;
        time := 0;
      } else {
        threadPool := threadPool + [threadId];
      }
    }

    method ExitThread()
      modifies this
      ensures State() == Yield(old(State()))
    {
      if |threadPool| == 0 {
        currentThreadId := Idle;
      } else {
        currentThreadId := threadPool[0];
        threadPool := threadPool[1..];
        time := 0;
      }
    }

    method BlockThread()
      modifies this
      ensures State() == Yield(old(State()))
    {
      if |threadPool| == 0 {
        currentThreadId := Idle;
      } else {
        currentThreadId := threadPool[0];
        threadPool := threadPool[1..];
        time := 0;
      }
    }

    method WakeThread(threadId: Int32)
      modifies this
      ensures State() == Admit(old(State()), threadId)
    {
      if currentThreadId == Idle {
        currentThreadId := threadId;
        time := 0;
      } else {
        threadPool := threadPool + [threadId];
      }
    }

    method TimerTick()
      modifies this
      ensures State() == Tick(old(State()))
    {
      time := ToUInt64(time + 1);
      if time == timeslice {
        if |threadPool| != 0 {
          threadPool := threadPool + [currentThreadId];
          currentThreadId := threadPool[0];
          threadPool := threadPool[1..];
        }
        time := 0;
      }
    }

    /**
     * `current_thread`: the running thread, or -1; under the invariant -1
     * comes back only when no thread is active.
     */
    method CurrentThread() returns (id: Int32)
      ensures id == currentThreadId
      ensures Valid(State()) ==> (id == Idle <==> Active(State()) == multiset{})
    {
      id := currentThreadId;
      if Valid(State()) {
        IdleOnlyWhenNoneActive(State());
      }
    }
  }
}
