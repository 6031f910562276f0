/** Blocking synchronisation of the kernel (os/src/sync, os/src/task/manager.rs, os/src/task/mod.rs).  The kernel is not
    preempted, so each operation is one step up to the point where it blocks. */
module Sync {
  import opened Basics

  type Task = nat

  // ---- the primitives as functions, for use in step systems ----

  /** Hand-off mutex. */
  datatype MutexState = MutexState(locked: bool, queue: seq<Task>)

  /** `lock`: the caller waits exactly if the mutex is locked. */
  function LockMutex(m: MutexState, t: Task): MutexState {
    if m.locked then m.(queue := m.queue + [t]) else m.(locked := true)
  }

  /** `unlock`: the first waiter becomes the owner, without the mutex ever being free. */
  function UnlockMutex(m: MutexState): MutexState {
    if m.queue != [] then m.(queue := m.queue[1..]) else m.(locked := false)
  }

  /** Counting semaphore: a negative count is the number of waiters. */
  datatype SemState = SemState(count: int, queue: seq<Task>)

  function Down(s: SemState, t: Task): SemState {
    if s.count - 1 < 0 then SemState(s.count - 1, s.queue + [t]) else s.(count := s.count - 1)
  }

  function Up(s: SemState): SemState {
    SemState(s.count + 1, if s.queue != [] then s.queue[1..] else [])
  }

  ghost predicate SemOk(s: SemState) {
    |s.queue| == if s.count < 0 then -s.count else 0
  }

  lemma SemKept(s: SemState, t: Task)
    requires SemOk(s)
    ensures SemOk(Down(s, t)) && SemOk(Up(s))
    ensures s.count < 0 <==> s.queue != []
  {
  }

  /** Condition variable: a queue of waiters.  `signal` wakes the first, if there is one. */
  function CondWait(q: seq<Task>, t: Task): seq<Task> {
    q + [t]
  }

  function CondSignal(q: seq<Task>): seq<Task> {
    if q != [] then q[1..] else []
  }

  /** Who is woken when the first of q is. */
  function FirstOf(q: seq<Task>): seq<Task> {
    if q != [] then [q[0]] else []
  }

  // ---- the objects ----

  datatype Status = Ready | Running | Blocked

  /** Task manager and processor: a FIFO of ready tasks, the running one, and every task's status. */
  class Scheduler {
    var readyQueue: seq<Task>
    var current: Option<Task>
    var status: map<Task, Status>
    ghost var blocked: set<Task>

    /** Every task is in exactly one place: running, queued once, or blocked. */
    ghost predicate Valid()
      reads this
    {
      && NoDup(readyQueue)
      && (forall t :: t in readyQueue ==> t in status && status[t] == Ready)
      && (current.Some? ==> current.value in status && status[current.value] == Running)
      && (forall t :: t in status ==>
            && (status[t] == Ready ==> t in readyQueue)
            && (status[t] == Running ==> current == Some(t))
            && (status[t] == Blocked <==> t in blocked))
      && blocked <= status.Keys
    }

    constructor (tasks: seq<Task>)
      requires NoDup(tasks)
      ensures Valid() && readyQueue == tasks && current == None && blocked == {}
    {
      readyQueue, current, blocked := tasks, None, {};
      status := map t | t in tasks :: Ready;
    }

    /** `wakeup_task`. */
    method Wakeup(t: Task)
      requires Valid() && t in blocked
      modifies this
      ensures Valid() && readyQueue == old(readyQueue) + [t] && blocked == old(blocked) - {t} && current == old(current)
    {
      NoDupSnoc(readyQueue, t);
      status := status[t := Ready];
      readyQueue := readyQueue + [t];
      blocked := blocked - {t};
    }

    /** `block_current_task`: the running task leaves the processor. */
    method BlockCurrent() returns (t: Task)
      requires Valid() && current.Some?
      modifies this
      ensures Valid() && t == old(current).value && current == None
      ensures readyQueue == old(readyQueue) && blocked == old(blocked) + {t}
    {
      t := current.value;
      current := None;
      status := status[t := Blocked];
      blocked := blocked + {t};
    }

    /** `suspend_current_and_run_next`, up to the switch: the running task goes to the end of the queue. */
    method SuspendCurrent()
      requires Valid() && current.Some?
      modifies this
      ensures Valid() && current == None && readyQueue == old(readyQueue) + [old(current).value]
      ensures blocked == old(blocked)
    {
      var t := current.value;
      NoDupSnoc(readyQueue, t);
      current := None;
      status := status[t := Ready];
      readyQueue := readyQueue + [t];
    }

    /** One round of `run_tasks`: the longest-waiting ready task runs. */
    method RunNext() returns (r: Option<Task>)
      requires Valid() && current.None?
      modifies this
      ensures Valid() && blocked == old(blocked) && r == current
      ensures r.None? <==> old(readyQueue) == []
      ensures r.Some? ==> old(readyQueue) == [r.value] + readyQueue
    {
      if readyQueue == [] { return None; }
      var t := readyQueue[0];
      assert readyQueue == [t] + readyQueue[1..];
      NoDupSplit([t], readyQueue[1..]);
      assert t in [t];
      readyQueue := readyQueue[1..];
      status := status[t := Running];
      current := Some(t);
      r := current;
    }
  }

  class MutexSpin {
    var locked: bool

    constructor ()
      ensures !locked
    {
      locked := false;
    }

    /** One pass of the loop of `lock`: the mutex is taken, or the running task goes to the end of the ready queue. */
    method TryLock(sched: Scheduler) returns (ok: bool)
      requires sched.Valid() && sched.current.Some?
      modifies this, sched
      ensures sched.Valid() && locked && (ok <==> !old(locked)) && sched.blocked == old(sched.blocked)
      ensures ok ==> sched.current == old(sched.current) && sched.readyQueue == old(sched.readyQueue)
      ensures !ok ==> sched.current == None && sched.readyQueue == old(sched.readyQueue) + [old(sched.current).value]
    {
      ok := !locked;
      if locked { sched.SuspendCurrent(); } else { locked := true; }
    }

    method Unlock()
      modifies this
      ensures !locked
    {
      locked := false;
    }
  }

  class MutexBlocking {
    var locked: bool
    var waitQueue: seq<Task>

    function View(): MutexState
      reads this
    {
      MutexState(locked, waitQueue)
    }

    constructor ()
      ensures View() == MutexState(false, [])
    {
      locked, waitQueue := false, [];
    }

    /** The running task takes the mutex or blocks. */
    method Lock(sched: Scheduler) returns (ok: bool)
      requires sched.Valid() && sched.current.Some?
      modifies this, sched
      ensures sched.Valid() && View() == LockMutex(old(View()), old(sched.current).value)
      ensures ok <==> !old(locked)
      ensures ok ==> sched.current == old(sched.current) && sched.blocked == old(sched.blocked)
      ensures !ok ==> sched.current == None && sched.blocked == old(sched.blocked) + {old(sched.current).value}
      ensures sched.readyQueue == old(sched.readyQueue) && locked
      ensures waitQueue == old(waitQueue) + if ok then [] else [old(sched.current).value]
    {
      if locked {
        waitQueue := waitQueue + [sched.current.value];
        var _ := sched.BlockCurrent();
        ok := false;
      } else {
        locked := true;
        ok := true;
      }
    }

    /** Unlocking a locked mutex wakes its first waiter, if any, at the end of the ready queue. */
    method Unlock(sched: Scheduler)
      requires sched.Valid() && locked && forall t :: t in waitQueue ==> t in sched.blocked
      modifies this, sched
      ensures sched.Valid() && View() == UnlockMutex(old(View())) && sched.current == old(sched.current)
      ensures sched.readyQueue == old(sched.readyQueue) + FirstOf(old(waitQueue))
      ensures sched.blocked == old(sched.blocked) - if old(waitQueue) != [] then {old(waitQueue)[0]} else {}
      ensures locked <==> old(waitQueue) != []
      ensures old(waitQueue) != [] ==> old(waitQueue) == [old(waitQueue)[0]] + waitQueue
    {
      if waitQueue != [] {
        var t := waitQueue[0];
        waitQueue := waitQueue[1..];
        sched.Wakeup(t);
      } else {
        locked := false;
      }
    }
  }

  class Semaphore {
    var count: int
    var waitQueue: seq<Task>

    function View(): SemState
      reads this
    {
      SemState(count, waitQueue)
    }

    constructor (n: nat)
      ensures View() == SemState(n, []) && SemOk(View())
    {
      count, waitQueue := n, [];
    }

    method UpSem(sched: Scheduler)
      requires sched.Valid() && forall t :: t in waitQueue ==> t in sched.blocked
      modifies this, sched
      ensures sched.Valid() && View() == Up(old(View())) && sched.current == old(sched.current)
      ensures sched.readyQueue == old(sched.readyQueue) + FirstOf(old(waitQueue))
      ensures sched.blocked == old(sched.blocked) - if old(waitQueue) != [] then {old(waitQueue)[0]} else {}
      ensures count == old(count) + 1
      ensures if old(waitQueue) == [] then waitQueue == [] else old(waitQueue) == [old(waitQueue)[0]] + waitQueue
    {
      count := count + 1;
      if waitQueue != [] {
        var t := waitQueue[0];
        waitQueue := waitQueue[1..];
        sched.Wakeup(t);
      }
    }

    method DownSem(sched: Scheduler) returns (ok: bool)
      requires sched.Valid() && sched.current.Some?
      modifies this, sched
      ensures sched.Valid() && View() == Down(old(View()), old(sched.current).value)
      ensures sched.readyQueue == old(sched.readyQueue)
      ensures ok <==> old(count) > 0
      ensures ok ==> sched.current == old(sched.current) && sched.blocked == old(sched.blocked)
      ensures !ok ==> sched.current == None && sched.blocked == old(sched.blocked) + {old(sched.current).value}
      ensures count == old(count) - 1 && waitQueue == old(waitQueue) + if ok then [] else [old(sched.current).value]
    {
      count := count - 1;
      if count < 0 {
        waitQueue := waitQueue + [sched.current.value];
        var _ := sched.BlockCurrent();
        ok := false;
      } else {
        ok := true;
      }
    }
  }

  /** Either kind of mutex: a condition variable takes both. */
  datatype Mutex = Spin(spin: MutexSpin) | Blocking(blocking: MutexBlocking) {
    function Object(): object {
      match this
      case Spin(m) => m
      case Blocking(m) => m
    }
  }

  class Condvar {
    var waitQueue: seq<Task>

    constructor ()
      ensures waitQueue == []
    {
      waitQueue := [];
    }

    method Signal(sched: Scheduler)
      requires sched.Valid() && forall t :: t in waitQueue ==> t in sched.blocked
      modifies this, sched
      ensures sched.Valid() && sched.current == old(sched.current)
      ensures waitQueue == CondSignal(old(waitQueue))
      ensures if old(waitQueue) == [] then waitQueue == [] else old(waitQueue) == [old(waitQueue)[0]] + waitQueue
      ensures sched.readyQueue == old(sched.readyQueue) + FirstOf(old(waitQueue))
      ensures sched.blocked == old(sched.blocked) - if old(waitQueue) != [] then {old(waitQueue)[0]} else {}
    {
      if waitQueue != [] {
        var t := waitQueue[0];
        waitQueue := waitQueue[1..];
        sched.Wakeup(t);
      }
    }

    /** `wait` up to its block point: unlock and queue up in one step, so no signal can fall between. */
    method WaitBlock(mutex: Mutex, sched: Scheduler)
      requires sched.Valid() && sched.current.Some?
      requires mutex.Blocking? ==>
                 mutex.blocking.locked && forall t :: t in mutex.blocking.waitQueue ==> t in sched.blocked
      modifies this, mutex.Object(), sched
      ensures sched.Valid() && sched.current == None && waitQueue == CondWait(old(waitQueue), old(sched.current).value)
      ensures waitQueue == old(waitQueue) + [old(sched.current).value]
      ensures mutex.Spin? ==> !mutex.spin.locked && sched.readyQueue == old(sched.readyQueue)
                              && sched.blocked == old(sched.blocked) + {old(sched.current).value}
      ensures mutex.Blocking? ==>
                && mutex.blocking.View() == UnlockMutex(old(mutex.blocking.View()))
                && sched.readyQueue == old(sched.readyQueue) + FirstOf(old(mutex.blocking.waitQueue))
                && sched.blocked == old(sched.blocked) - (set t | t in FirstOf(old(mutex.blocking.waitQueue)))
                                    + {old(sched.current).value}
    {
      match mutex {
        case Spin(m) => m.Unlock();
        case Blocking(m) => m.Unlock(sched);
      }
      waitQueue := waitQueue + [sched.current.value];
      var _ := sched.BlockCurrent();
    }
  }
}
