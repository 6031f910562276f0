/** Every run of the hand-off mutex of os/src/sync/mutex.rs, whoever calls it, if only holders unlock. */
module Handoff {
  import opened Basics
  import opened Sync

  /** `owners` are the tasks whose lock has returned and who have not unlocked since.  `asked` and `given` are history
      variables: who called lock, and whose call returned, in order. */
  datatype State = State(mutex: MutexState, owners: set<Task>, asked: seq<Task>, given: seq<Task>)

  datatype Call = Lock(task: Task) | Unlock(task: Task)

  function Init(): State {
    State(MutexState(false, []), {}, [], [])
  }

  /** A waiting task is blocked, so it makes no call; only a holder unlocks.  A holder may even lock again. */
  predicate Enabled(s: State, c: Call) {
    c.task !in s.mutex.queue && (c.Unlock? ==> c.task in s.owners)
  }

  function Next(s: State, c: Call): State {
    match c
    case Lock(t) =>
      var s' := s.(mutex := LockMutex(s.mutex, t), asked := s.asked + [t]);
      if s.mutex.locked then s' else s'.(owners := s.owners + {t}, given := s.given + [t])
    case Unlock(t) =>
      var s', q := s.(mutex := UnlockMutex(s.mutex), owners := s.owners - {t}), s.mutex.queue;
      if q != [] then s'.(owners := s'.owners + {q[0]}, given := s.given + [q[0]]) else s'
  }

  /** The mutex is locked exactly while it has an owner, who is the last it was given to and the only one; there are
      waiters only while it is locked; and it is given in the order in which it is asked for. */
  ghost predicate Inv(s: State) {
    && (s.mutex.locked ==> s.given != [] && s.owners == {s.given[|s.given| - 1]})
    && (!s.mutex.locked ==> s.owners == {} && s.mutex.queue == [])
    && NoDup(s.mutex.queue)
    && s.asked == s.given + s.mutex.queue
  }

  lemma StepKeeps(s: State, c: Call)
    requires Inv(s) && Enabled(s, c)
    ensures Inv(Next(s, c))
  {
    var q := s.mutex.queue;
    match c
    case Lock(t) => NoDupSnoc(q, t);
    case Unlock(t) =>
      if q != [] {
        assert q == [q[0]] + q[1..];
        NoDupSplit([q[0]], q[1..]);
        assert s.given + q == s.given + [q[0]] + q[1..];
      }
  }

  ghost predicate IsRun(run: seq<State>, calls: seq<Call>) {
    && |run| == |calls| + 1 && run[0] == Init()
    && forall k: nat :: k < |calls| ==> Enabled(run[k], calls[k]) && run[k + 1] == Next(run[k], calls[k])
  }

  lemma {:induction false} RunKeeps(run: seq<State>, calls: seq<Call>, k: nat)
    requires IsRun(run, calls) && k < |run|
    ensures Inv(run[k])
  {
    if k > 0 {
      hide Inv, Next, Enabled;
      RunKeeps(run, calls, k - 1);
      StepKeeps(run[k - 1], calls[k - 1]);
    }
  }

  /** At most one task owns the mutex, and tasks wait only while one does. */
  lemma OneOwner(run: seq<State>, calls: seq<Call>, k: nat, t: Task, u: Task)
    requires IsRun(run, calls) && k < |run|
    ensures t in run[k].owners && u in run[k].owners ==> t == u
    ensures run[k].mutex.queue != [] ==> run[k].mutex.locked && run[k].owners != {}
  {
    RunKeeps(run, calls, k);
  }

  /** First come, first served: of two calls to lock, the earlier returns first. */
  lemma Fifo(run: seq<State>, calls: seq<Call>, k: nat, i: nat, j: nat)
    requires IsRun(run, calls) && k < |run| && i < j < |run[k].asked|
    ensures run[k].asked == run[k].given + run[k].mutex.queue
    ensures j < |run[k].given| ==> run[k].given[i] == run[k].asked[i] && run[k].given[j] == run[k].asked[j]
    ensures |run[k].given| <= i ==>
              run[k].mutex.queue[i - |run[k].given|] == run[k].asked[i] != run[k].asked[j]
  {
    RunKeeps(run, calls, k);
    var s := run[k];
    if |s.given| <= i {
      var q, g := s.mutex.queue, |s.given|;
      assert s.asked[i] == q[i - g] && s.asked[j] == q[j - g];
    }
  }

  /** Who waits does not own, unless an owner has called lock again. */
  lemma {:induction false} OwnerNotQueued(run: seq<State>, calls: seq<Call>, k: nat, t: Task)
    requires IsRun(run, calls) && k < |run| && t in run[k].owners
    requires forall n: nat :: n < k && calls[n].Lock? ==> calls[n].task !in run[n].owners
    ensures t !in run[k].mutex.queue
  {
    if k > 0 {
      RunKeeps(run, calls, k - 1);
      var s, c := run[k - 1], calls[k - 1];
      if t in s.owners { OwnerNotQueued(run, calls, k - 1, t); }
      if c.Unlock? && s.mutex.queue != [] { assert s.mutex.queue == [s.mutex.queue[0]] + s.mutex.queue[1..]; }
    }
  }

  /** An owner that calls lock again waits for itself for ever: at every later point it is owner and waits, and the
      mutex has been given to nobody else. */
  lemma {:induction false} RelockSticks(run: seq<State>, calls: seq<Call>, k: nat, n: nat, t: Task)
    requires IsRun(run, calls) && k <= n < |run| && t in run[k].owners && t in run[k].mutex.queue
    ensures t in run[n].owners && t in run[n].mutex.queue && run[n].given == run[k].given
    ensures forall j: nat :: k <= j < n ==> calls[j].Lock?
  {
    if k < n {
      RelockSticks(run, calls, k, n - 1, t);
      RunKeeps(run, calls, n - 1);
      RelockStep(run[n - 1], calls[n - 1], t);
    }
  }

  lemma RelockStep(s: State, c: Call, t: Task)
    requires Inv(s) && Enabled(s, c) && t in s.owners && t in s.mutex.queue
    ensures c.Lock? && t in Next(s, c).owners && t in Next(s, c).mutex.queue && Next(s, c).given == s.given
  {
  }
}
