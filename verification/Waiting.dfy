/** Every run of the semaphore of os/src/sync/semaphore.rs and the condition variable of os/src/sync/condvar.rs, whoever
    calls them: who waits longest goes on first. */
module Waiting {
  import opened Basics
  import opened Sync

  datatype Call = Down(task: Task) | Up

  /** `blocked` and `woken` are history variables: whose down blocked, and whose blocked down returned, in order. */
  datatype State = State(sem: SemState, blocked: seq<Task>, woken: seq<Task>, downs: nat, ups: nat)

  function Init(count: nat): State {
    State(SemState(count, []), [], [], 0, 0)
  }

  /** A waiting task is blocked, so it makes no call. */
  predicate Enabled(s: State, c: Call) {
    c.Down? ==> c.task !in s.sem.queue
  }

  function Next(s: State, c: Call): State {
    match c
    case Down(t) =>
      s.(sem := Sync.Down(s.sem, t), downs := s.downs + 1,
         blocked := if s.sem.count > 0 then s.blocked else s.blocked + [t])
    case Up =>
      s.(sem := Sync.Up(s.sem), ups := s.ups + 1,
         woken := if s.sem.queue == [] then s.woken else s.woken + [s.sem.queue[0]])
  }

  ghost predicate Inv(s: State, count: nat) {
    && SemOk(s.sem) && NoDup(s.sem.queue)
    && s.blocked == s.woken + s.sem.queue
    && s.sem.count == count + s.ups - s.downs
  }

  lemma StepKeeps(s: State, c: Call, count: nat)
    requires Inv(s, count) && Enabled(s, c)
    ensures Inv(Next(s, c), count)
  {
    var q := s.sem.queue;
    match c
    case Down(t) => NoDupSnoc(q, t);
    case Up =>
      if q != [] {
        assert q == [q[0]] + q[1..];
        NoDupSplit([q[0]], q[1..]);
        assert s.woken + q == s.woken + [q[0]] + q[1..];
      }
  }

  ghost predicate IsRun(run: seq<State>, calls: seq<Call>, count: nat) {
    && |run| == |calls| + 1 && run[0] == Init(count)
    && forall k: nat :: k < |calls| ==> Enabled(run[k], calls[k]) && run[k + 1] == Next(run[k], calls[k])
  }

  lemma {:induction false} RunKeeps(run: seq<State>, calls: seq<Call>, count: nat, k: nat)
    requires IsRun(run, calls, count) && k < |run|
    ensures Inv(run[k], count)
  {
    if k > 0 {
      hide Inv, Next, Enabled;
      RunKeeps(run, calls, count, k - 1);
      StepKeeps(run[k - 1], calls[k - 1], count);
    }
  }

  /** Blocked downs return in the order in which they blocked. */
  lemma Fifo(run: seq<State>, calls: seq<Call>, count: nat, k: nat)
    requires IsRun(run, calls, count) && k < |run|
    ensures run[k].woken <= run[k].blocked && run[k].blocked[|run[k].woken|..] == run[k].sem.queue
  {
    RunKeeps(run, calls, count, k);
  }

  /** Downs that have returned are no more than the initial count and the ups together, and as many while any waits. */
  lemma Conserved(run: seq<State>, calls: seq<Call>, count: nat, k: nat)
    requires IsRun(run, calls, count) && k < |run|
    ensures var s := run[k];
            && s.downs - |s.sem.queue| <= count + s.ups
            && (s.sem.queue != [] ==> s.downs - |s.sem.queue| == count + s.ups)
  {
    RunKeeps(run, calls, count, k);
  }

  // ---- the condition variable ----

  datatype CondCall = Wait(task: Task) | Signal

  datatype CondState = CondState(queue: seq<Task>, waited: seq<Task>, signalled: seq<Task>)

  function CondNext(s: CondState, c: CondCall): CondState {
    match c
    case Wait(t) => s.(queue := CondWait(s.queue, t), waited := s.waited + [t])
    case Signal =>
      s.(queue := CondSignal(s.queue), signalled := if s.queue == [] then s.signalled else s.signalled + [s.queue[0]])
  }

  ghost predicate IsCondRun(run: seq<CondState>, calls: seq<CondCall>) {
    && |run| == |calls| + 1 && run[0] == CondState([], [], [])
    && forall k: nat :: k < |calls| ==> run[k + 1] == CondNext(run[k], calls[k])
  }

  /** Waits return in the order in which they were made. */
  lemma {:induction false} CondFifo(run: seq<CondState>, calls: seq<CondCall>, k: nat)
    requires IsCondRun(run, calls) && k < |run|
    ensures run[k].waited == run[k].signalled + run[k].queue
  {
    if k > 0 {
      CondFifo(run, calls, k - 1);
      var s := run[k - 1];
      if calls[k - 1].Signal? && s.queue != [] {
        assert s.signalled + s.queue == s.signalled + [s.queue[0]] + s.queue[1..];
      }
    }
  }
}
