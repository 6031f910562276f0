/** user/src/bin/barrier_condvar.rs: any number of threads passing any number of barriers one after the other, each
    barrier a spinning mutex, a condition variable and a count, under any interleaving. */
module Barrier {
  import opened Basics
  import opened Sync

  /** Where a thread stands in `block`: what it does next. */
  datatype Pc =
    | Enter   // lock the mutex
    | Load    // read count
    | Store   // write count
    | Test    // compare count with the number of threads
    | ToWait  // condvar wait
    | Asleep // in the condition variable's queue
    | Relock  // woken, about to take the mutex again inside wait
    | Signal  // condvar signal
    | Unlock  // unlock the mutex

  /** `stage` is the number of barriers passed; `cur` is the count last read. */
  datatype Thread = Thread(stage: nat, pc: Pc, cur: nat)

  datatype Bar = Bar(locked: bool, count: nat, waiters: seq<Task>)

  datatype State = State(threads: seq<Thread>, bars: seq<Bar>)

  ghost predicate Init(s: State, n: nat, bars: nat) {
    && |s.threads| == n && |s.bars| == bars
    && (forall i :: 0 <= i < n ==> s.threads[i] == Thread(0, Enter, 0))
    && (forall b :: 0 <= b < bars ==> s.bars[b] == Bar(false, 0, []))
  }

  /** What one step of `block` makes of the thread... */
  function ThreadAfter(bar: Bar, me: Thread, n: nat): Thread {
    match me.pc
    case Enter => if bar.locked then me else me.(pc := Load)
    case Load => me.(pc := Store, cur := bar.count)
    case Store => me.(pc := Test)
    case Test => me.(pc := if bar.count == n then Signal else ToWait)
    case ToWait => me.(pc := Asleep)
    case Asleep => me
    case Relock => if bar.locked then me else me.(pc := Signal)
    case Signal => me.(pc := Unlock)
    case Unlock => Thread(me.stage + 1, Enter, 0)
  }

  /** ... and of the barrier.  A try of a held mutex changes nothing; the thread only yields. */
  function BarAfter(bar: Bar, me: Thread, i: Task): Bar {
    match me.pc
    case Enter => bar.(locked := true)
    case Load => bar
    case Store => bar.(count := me.cur + 1)
    case Test => bar
    case ToWait => bar.(locked := false, waiters := CondWait(bar.waiters, i))
    case Asleep => bar
    case Relock => bar.(locked := true)
    case Signal => bar.(waiters := CondSignal(bar.waiters))
    case Unlock => bar.(locked := false)
  }

  /** A barrier made of the kernel's objects: each step of `block` is a call on
      them, and does what the two functions say. */
  class BarrierObject {
    const mutex: MutexSpin
    const condvar: Condvar
    var count: nat

    function View(): Bar
      reads this, mutex, condvar
    {
      Bar(mutex.locked, count, condvar.waitQueue)
    }

    constructor ()
      ensures View() == Bar(false, 0, []) && fresh(mutex) && fresh(condvar)
    {
      mutex := new MutexSpin();
      condvar := new Condvar();
      count := 0;
    }

    method Take(me: Thread, i: Task, n: nat, sched: Scheduler) returns (next: Thread)
      requires sched.Valid() && sched.current == Some(i) && me.pc != Asleep
      requires forall t :: t in condvar.waitQueue ==> t in sched.blocked
      modifies `count, mutex, condvar, sched
      ensures sched.Valid() && next == ThreadAfter(old(View()), me, n) && View() == BarAfter(old(View()), me, i)
      ensures me.pc == ToWait ==> sched.current == None && sched.blocked == old(sched.blocked) + {i}
      ensures me.pc == Signal ==> sched.readyQueue == old(sched.readyQueue) + FirstOf(old(condvar.waitQueue))
      ensures me.pc != ToWait && me.pc != Signal ==>
                && sched.blocked == old(sched.blocked)
                && sched.readyQueue == old(sched.readyQueue) + if next == me then [i] else []
    {
      match me.pc {
        case Enter =>
          var ok := mutex.TryLock(sched);
          next := if ok then me.(pc := Load) else me;
        case Load => next := me.(pc := Store, cur := count);
        case Store =>
          count := me.cur + 1;
          next := me.(pc := Test);
        case Test => next := me.(pc := if count == n then Signal else ToWait);
        case ToWait =>
          condvar.WaitBlock(Spin(mutex), sched);
          next := me.(pc := Asleep);
        case Relock =>
          var ok := mutex.TryLock(sched);
          next := if ok then me.(pc := Signal) else me;
        case Signal =>
          condvar.Signal(sched);
          next := me.(pc := Unlock);
        case Unlock =>
          mutex.Unlock();
          next := Thread(me.stage + 1, Enter, 0);
      }
    }
  }

  function Wake(threads: seq<Thread>, q: seq<Task>): (r: seq<Thread>)
    requires forall t :: t in q ==> t < |threads|
    ensures |r| == |threads|
  {
    if q != [] then assert q[0] in q; threads[q[0] := threads[q[0]].(pc := Relock)] else threads
  }

  ghost predicate Shape(s: State, n: nat, bars: nat) {
    && |s.threads| == n && |s.bars| == bars
    && forall b: nat :: b < bars ==> forall t :: t in s.bars[b].waiters ==> t < n
  }

  /** Thread i, not asleep, takes its next step; a signal wakes the first sleeper. */
  ghost predicate Step(s: State, t: State, i: nat, n: nat, bars: nat) {
    && Shape(s, n, bars) && i < n && s.threads[i].stage < bars && s.threads[i].pc != Asleep
    && var me := s.threads[i];
    var bar := s.bars[me.stage];
    var moved := s.threads[i := ThreadAfter(bar, me, n)];
    && t.threads == (if me.pc == Signal then Wake(moved, bar.waiters) else moved)
    && t.bars == s.bars[me.stage := BarAfter(bar, me, i)]
  }

  // ---- the invariant of one barrier ----

  predicate Inside(t: Thread, b: nat) {
    && t.stage == b
    && (t.pc == Load || t.pc == Store || t.pc == Test || t.pc == ToWait || t.pc == Signal || t.pc == Unlock)
  }

  /** The thread has been counted. */
  predicate Arrived(t: Thread, b: nat) {
    t.stage > b || (t.stage == b && t.pc != Enter && t.pc != Load && t.pc != Store)
  }

  predicate Sleeps(t: Thread, b: nat) {
    t.stage == b && t.pc == Asleep
  }

  /** With the count full, this thread still has a signal to give. */
  predicate Due(t: Thread, b: nat) {
    t.stage == b && (t.pc == Test || t.pc == Signal || t.pc == Relock)
  }

  function InsideUnits(b: nat): Thread -> int {
    (t: Thread) => if Inside(t, b) then 1 else 0
  }

  function ArrivedUnits(b: nat): Thread -> int {
    (t: Thread) => if Arrived(t, b) then 1 else 0
  }

  function Held(bar: Bar): int {
    if bar.locked then 1 else 0
  }

  predicate ThreadOk(t: Thread, count: nat, b: nat, n: nat) {
    && (t.stage > b || (t.stage == b && (t.pc == Relock || t.pc == Signal || t.pc == Unlock)) ==> count == n)
    && (t.stage == b && t.pc == ToWait ==> count < n)
    && (t.stage == b && t.pc == Store ==> t.cur == count)
  }

  /** The mutex has one holder while locked; the count is the number of arrivals; nobody is past the barrier before all
      have arrived; after that, a sleeper has a signal coming. */
  ghost predicate BarInv(threads: seq<Thread>, bar: Bar, b: nat) {
    && Sum(threads, InsideUnits(b)) == Held(bar)
    && Sum(threads, ArrivedUnits(b)) == bar.count
    && NoDup(bar.waiters)
    && (forall i: Task :: i in bar.waiters <==> i < |threads| && Sleeps(threads[i], b))
    && (forall i: nat :: i < |threads| ==> ThreadOk(threads[i], bar.count, b, |threads|))
    && (bar.count == |threads| && bar.waiters != [] ==> exists i: nat :: i < |threads| && Due(threads[i], b))
  }

  ghost predicate Inv(s: State, n: nat, bars: nat) {
    && Shape(s, n, bars)
    && (forall b: nat :: b < bars ==> BarInv(s.threads, s.bars[b], b))
    && (forall i: nat :: i < n ==>
          s.threads[i].stage <= bars && (s.threads[i].stage == bars ==> s.threads[i].pc == Enter))
  }

  lemma InitInv(s: State, n: nat, bars: nat)
    requires Init(s, n, bars)
    ensures Inv(s, n, bars)
  {
    hide Sum;
    forall b: nat | b < bars ensures BarInv(s.threads, s.bars[b], b) {
      SumBounds(s.threads, InsideUnits(b), 0, 0);
      SumBounds(s.threads, ArrivedUnits(b), 0, 0);
    }
  }

  /** A thread moves, perhaps taking or leaving the mutex, without arriving or going to sleep. */
  lemma Move(threads: seq<Thread>, i: nat, x: Thread, bar: Bar, locked: bool, b: nat)
    requires i < |threads| && BarInv(threads, bar, b)
    requires Held(bar.(locked := locked)) - Held(bar) == InsideUnits(b)(x) - InsideUnits(b)(threads[i])
    requires Arrived(x, b) == Arrived(threads[i], b) && Sleeps(x, b) == Sleeps(threads[i], b)
    requires ThreadOk(x, bar.count, b, |threads|)
    requires Due(threads[i], b) && bar.waiters != [] && bar.count == |threads| ==> Due(x, b)
    ensures BarInv(threads[i := x], bar.(locked := locked), b)
  {
    hide Sum, Inside, Arrived, Sleeps, ThreadOk, Due;
    SumUpdate(threads, InsideUnits(b), i, x);
    SumUpdate(threads, ArrivedUnits(b), i, x);
    var moved := threads[i := x];
    if bar.count == |threads| && bar.waiters != [] {
      var j: nat :| j < |threads| && Due(threads[j], b);
      assert Due(moved[j], b);
    }
  }

  lemma OneInside(threads: seq<Thread>, bar: Bar, b: nat, i: nat, j: nat)
    requires BarInv(threads, bar, b) && i < |threads| && j < |threads| && Inside(threads[i], b) && Inside(threads[j], b)
    ensures i == j
  {
    hide Sum, Inside;
    var w := InsideUnits(b);
    if i < j { SumTwo(threads, w, i, j); }
    if j < i { SumTwo(threads, w, j, i); }
  }

  /** Somebody has not arrived exactly if the count is short. */
  lemma CountShort(threads: seq<Thread>, bar: Bar, b: nat)
    requires BarInv(threads, bar, b)
    ensures bar.count <= |threads|
    ensures bar.count < |threads| <==> exists i: nat :: i < |threads| && !Arrived(threads[i], b)
  {
    hide Sum, Arrived, Inside, Sleeps, Due, ThreadOk;
    var w := ArrivedUnits(b);
    SumCapped(threads, w);
    if bar.count == |threads| {
      forall i: nat | i < |threads| ensures Arrived(threads[i], b) { SumFull(threads, w, i); }
    } else if forall i: nat :: i < |threads| ==> Arrived(threads[i], b) {
      SumBounds(threads, w, 1, 1);
    }
  }

  /** The thread counts itself. */
  lemma Arrive(threads: seq<Thread>, i: nat, bar: Bar, b: nat)
    requires i < |threads| && BarInv(threads, bar, b) && threads[i].stage == b && threads[i].pc == Store
    ensures BarInv(threads[i := threads[i].(pc := Test)], bar.(count := threads[i].cur + 1), b)
  {
    CountShort(threads, bar, b);
    var x := threads[i].(pc := Test);
    var moved := threads[i := x];
    assert ThreadOk(threads[i], bar.count, b, |threads|);
    SumUpdate(threads, InsideUnits(b), i, x);
    SumUpdate(threads, ArrivedUnits(b), i, x);
    assert Due(moved[i], b);
    forall j: nat | j < |threads| ensures ThreadOk(moved[j], bar.count + 1, b, |threads|) {
      assert ThreadOk(threads[j], bar.count, b, |threads|);
      if Inside(threads[j], b) { OneInside(threads, bar, b, i, j); }
    }
    hide Sum, Inside, Arrived, ThreadOk, Due;
  }

  /** The thread goes to sleep and leaves the mutex in one step. */
  lemma Sleep(threads: seq<Thread>, i: nat, bar: Bar, b: nat)
    requires i < |threads| && BarInv(threads, bar, b) && threads[i].stage == b && threads[i].pc == ToWait
    ensures BarInv(threads[i := threads[i].(pc := Asleep)], bar.(locked := false, waiters := bar.waiters + [i]), b)
  {
    var x := threads[i].(pc := Asleep);
    assert ThreadOk(threads[i], bar.count, b, |threads|);
    assert Inside(threads[i], b) && !Inside(x, b) && Arrived(threads[i], b) && Arrived(x, b);
    assert !Sleeps(threads[i], b) && Sleeps(x, b);
    assert ThreadOk(x, bar.count, b, |threads|) && bar.count < |threads|;
    hide Sum, Inside, Arrived, ThreadOk, Due, Sleeps;
    SumUpdate(threads, InsideUnits(b), i, x);
    SumUpdate(threads, ArrivedUnits(b), i, x);
    SumOne(threads, InsideUnits(b), i);
    NoDupSnoc(bar.waiters, i);
  }

  /** A signal passes the duty to signal on to the thread it wakes. */
  lemma Pass(threads: seq<Thread>, i: nat, bar: Bar, b: nat)
    requires i < |threads| && BarInv(threads, bar, b) && threads[i].stage == b && threads[i].pc == Signal
    ensures BarInv(Wake(threads[i := threads[i].(pc := Unlock)], bar.waiters),
                   bar.(waiters := if bar.waiters != [] then bar.waiters[1..] else []), b)
  {
    var x, q := threads[i].(pc := Unlock), bar.waiters;
    assert ThreadOk(threads[i], bar.count, b, |threads|);
    if q == [] {
      Move(threads, i, x, bar, bar.locked, b);
      assert bar.(locked := bar.locked) == bar == bar.(waiters := []);
    } else {
      var h := q[0];
      assert h in q && Sleeps(threads[h], b) && h != i;
      PassOn(threads, i, x, bar, b, h, threads[h].(pc := Relock));
    }
  }

  lemma PassOn(threads: seq<Thread>, i: nat, x: Thread, bar: Bar, b: nat, h: nat, y: Thread)
    requires i < |threads| && h < |threads| && i != h && BarInv(threads, bar, b)
    requires bar.waiters != [] && h == bar.waiters[0]
    requires Inside(threads[i], b) && Inside(x, b) && Arrived(threads[i], b) && Arrived(x, b)
    requires !Sleeps(threads[i], b) && !Sleeps(x, b)
    requires Inside(threads[h], b) == Inside(y, b) && Arrived(threads[h], b) == Arrived(y, b)
    requires Sleeps(threads[h], b) && !Sleeps(y, b)
    requires Due(y, b) && ThreadOk(x, bar.count, b, |threads|) && ThreadOk(y, bar.count, b, |threads|)
    ensures BarInv(threads[i := x][h := y], bar.(waiters := bar.waiters[1..]), b)
  {
    hide Sum, Inside, Arrived, ThreadOk, Due, Sleeps;
    var q, moved, woken := bar.waiters, threads[i := x], threads[i := x][h := y];
    SumUpdate(threads, InsideUnits(b), i, x);
    SumUpdate(threads, ArrivedUnits(b), i, x);
    SumUpdate(moved, InsideUnits(b), h, y);
    SumUpdate(moved, ArrivedUnits(b), h, y);
    assert q == [h] + q[1..];
    NoDupSplit([h], q[1..]);
    assert h in [h];
    forall j: Task ensures j in q[1..] <==> j < |woken| && Sleeps(woken[j], b) {
      assert j in q <==> j == h || j in q[1..];
    }
    assert Due(woken[h], b);
  }

  // ---- every step keeps the invariant ----

  lemma StepOwn(s: State, t: State, i: nat, n: nat, bars: nat)
    requires Inv(s, n, bars) && Step(s, t, i, n, bars)
    ensures |t.bars| == bars && BarInv(t.threads, t.bars[s.threads[i].stage], s.threads[i].stage)
  {
    hide BarInv, Wake;
    var me := s.threads[i];
    var b := me.stage;
    var bar := s.bars[b];
    assert BarInv(s.threads, bar, b);
    OwnOk(s.threads, bar, b, i);
    if me.pc == Signal {
      Pass(s.threads, i, bar, b);
    } else {
      MoveOwn(s.threads, i, bar, b);
    }
  }

  /** Every own step but a signal. */
  lemma MoveOwn(threads: seq<Thread>, i: nat, bar: Bar, b: nat)
    requires i < |threads| && BarInv(threads, bar, b) && threads[i].stage == b
    requires threads[i].pc != Signal && threads[i].pc != Asleep
    ensures BarInv(threads[i := ThreadAfter(bar, threads[i], |threads|)], BarAfter(bar, threads[i], i), b)
  {
    hide BarInv;
    var me := threads[i];
    var x := ThreadAfter(bar, me, |threads|);
    OwnOk(threads, bar, b, i);
    if me.pc == Store {
      Arrive(threads, i, bar, b);
    } else if me.pc == ToWait {
      Sleep(threads, i, bar, b);
    } else if (me.pc == Enter || me.pc == Relock) && bar.locked {
      assert threads[i := me] == threads;
    } else {
      var locked := BarAfter(bar, me, i).locked;
      Move(threads, i, x, bar, locked, b);
      assert bar.(locked := locked) == BarAfter(bar, me, i);
    }
  }

  lemma OwnOk(threads: seq<Thread>, bar: Bar, b: nat, i: nat)
    requires BarInv(threads, bar, b) && i < |threads|
    ensures ThreadOk(threads[i], bar.count, b, |threads|) && bar.count <= |threads|
    ensures Inside(threads[i], b) ==> bar.locked
    ensures forall h :: h in bar.waiters ==> h < |threads| && Sleeps(threads[h], b)
  {
    CountShort(threads, bar, b);
    hide Sum, Inside, ThreadOk, Sleeps;
    if Inside(threads[i], b) { SumOne(threads, InsideUnits(b), i); }
  }

  lemma StepOther(s: State, t: State, i: nat, n: nat, bars: nat, b: nat)
    requires Inv(s, n, bars) && Step(s, t, i, n, bars) && b < bars && b != s.threads[i].stage
    ensures |t.bars| == bars && t.bars[b] == s.bars[b] && BarInv(t.threads, t.bars[b], b)
  {
    hide BarInv, ThreadOk;
    var me := s.threads[i];
    var own, bar := s.bars[me.stage], s.bars[b];
    assert BarInv(s.threads, own, me.stage) && BarInv(s.threads, bar, b);
    OwnOk(s.threads, own, me.stage, i);
    if t != s {
      var x := if me.pc == Signal then me.(pc := Unlock) else t.threads[i];
      MoveAway(s.threads, i, x, bar, b);
      var q := own.waiters;
      if me.pc == Signal && q != [] {
        assert q[0] in q && q[0] != i;
        var moved := s.threads[i := x];
        MoveAway(moved, q[0], moved[q[0]].(pc := Relock), bar, b);
      }
    }
  }

  /** A move within another barrier, or from one barrier to the next. */
  lemma MoveAway(threads: seq<Thread>, i: nat, x: Thread, bar: Bar, b: nat)
    requires i < |threads| && BarInv(threads, bar, b) && threads[i].stage != b
    requires x.stage == threads[i].stage || (x.stage == threads[i].stage + 1 && x.pc == Enter)
    ensures BarInv(threads[i := x], bar, b)
  {
    OwnOk(threads, bar, b, i);
    hide BarInv;
    Move(threads, i, x, bar, bar.locked, b);
    assert bar.(locked := bar.locked) == bar;
  }

  lemma StepKeeps(s: State, t: State, i: nat, n: nat, bars: nat)
    requires Inv(s, n, bars) && Step(s, t, i, n, bars)
    ensures Inv(t, n, bars)
  {
    StepShape(s, t, i, n, bars);
    hide BarInv, Step;
    forall b: nat | b < bars ensures BarInv(t.threads, t.bars[b], b) {
      if b == s.threads[i].stage { StepOwn(s, t, i, n, bars); } else { StepOther(s, t, i, n, bars, b); }
    }
    forall b: nat | b < bars ensures forall h :: h in t.bars[b].waiters ==> h < n {
      if n > 0 { OwnOk(t.threads, t.bars[b], b, 0); }
    }
  }

  /** How a thread's own step moves it. */
  ghost predicate Moves(a: Thread, b: Thread) {
    match a.pc
    case Enter => b == a.(pc := Load)
    case Load => b == a.(pc := Store, cur := b.cur)
    case Store => b == a.(pc := Test)
    case Test => b == a.(pc := Signal) || b == a.(pc := ToWait)
    case ToWait => b == a.(pc := Asleep)
    case Asleep => false
    case Relock => b == a.(pc := Signal)
    case Signal => b == a.(pc := Unlock)
    case Unlock => b == Thread(a.stage + 1, Enter, 0)
  }

  lemma StepThreads(s: State, t: State, i: nat, n: nat, bars: nat)
    requires Inv(s, n, bars) && Step(s, t, i, n, bars)
    ensures |t.threads| == n && (t == s || Moves(s.threads[i], t.threads[i]))
    ensures forall j: nat :: j < n && j != i ==>
              t.threads[j] == s.threads[j] || (s.threads[j].pc == Asleep && t.threads[j] == s.threads[j].(pc := Relock))
  {
    hide BarInv;
    var me := s.threads[i];
    assert BarInv(s.threads, s.bars[me.stage], me.stage);
    OwnOk(s.threads, s.bars[me.stage], me.stage, i);
    var q := s.bars[me.stage].waiters;
    if q != [] { assert q[0] in q; }
  }

  lemma StepShape(s: State, t: State, i: nat, n: nat, bars: nat)
    requires Inv(s, n, bars) && Step(s, t, i, n, bars)
    ensures |t.threads| == n && |t.bars| == bars
    ensures forall j: nat :: j < n ==>
                t.threads[j].stage <= bars && (t.threads[j].stage == bars ==> t.threads[j].pc == Enter)
  {
    StepThreads(s, t, i, n, bars);
    hide BarInv;
    assert |t.bars| == bars;
    hide Step;
  }

  // ---- runs ----

  ghost predicate IsRun(run: seq<State>, who: seq<nat>, n: nat, bars: nat) {
    && |run| == |who| + 1 && Init(run[0], n, bars)
    && forall k: nat :: k < |who| ==> Step(run[k], run[k + 1], who[k], n, bars)
  }

  lemma {:induction false} RunKeeps(run: seq<State>, who: seq<nat>, n: nat, bars: nat, k: nat)
    requires IsRun(run, who, n, bars) && k < |run|
    ensures Inv(run[k], n, bars)
  {
    hide Step, Inv, Init;
    if k > 0 {
      RunKeeps(run, who, n, bars, k - 1);
      StepKeeps(run[k - 1], run[k], who[k - 1], n, bars);
    } else {
      InitInv(run[0], n, bars);
    }
  }

  /** Nobody leaves a barrier before everybody has arrived at it. */
  lemma AllArrivedFirst(run: seq<State>, who: seq<nat>, n: nat, bars: nat, k: nat, b: nat, i: nat, j: nat)
    requires IsRun(run, who, n, bars) && k < |run| && b < bars && i < n && j < n
    ensures Shape(run[k], n, bars) && (run[k].threads[i].stage > b ==> Arrived(run[k].threads[j], b))
  {
    RunKeeps(run, who, n, bars, k);
    hide IsRun;
    var s := run[k];
    assert BarInv(s.threads, s.bars[b], b);
    hide BarInv;
    OwnOk(s.threads, s.bars[b], b, i);
    CountShort(s.threads, s.bars[b], b);
  }

  /** A thread back from `wait` holds the mutex, alone; so does whoever touches the count. */
  lemma MutexHeld(run: seq<State>, who: seq<nat>, n: nat, bars: nat, k: nat, i: nat, j: nat)
    requires IsRun(run, who, n, bars) && k < |run| && i < n && j < n
    ensures Shape(run[k], n, bars)
    ensures var b := run[k].threads[i].stage;
            b < bars && Inside(run[k].threads[i], b) ==>
              run[k].bars[b].locked && (Inside(run[k].threads[j], b) ==> i == j)
  {
    RunKeeps(run, who, n, bars, k);
    hide IsRun;
    var s := run[k];
    var b := s.threads[i].stage;
    if b < bars && Inside(s.threads[i], b) {
      assert BarInv(s.threads, s.bars[b], b);
      hide BarInv;
      OwnOk(s.threads, s.bars[b], b, i);
      if Inside(s.threads[j], b) { OneInside(s.threads, s.bars[b], b, i, j); }
    }
  }

  /** No wake-up is lost: once all have arrived, a sleeper means that some thread still has a signal to give. */
  lemma SignalComing(run: seq<State>, who: seq<nat>, n: nat, bars: nat, k: nat, b: nat, i: nat)
    requires IsRun(run, who, n, bars) && k < |run| && b < bars && i < n
    ensures Shape(run[k], n, bars)
    ensures (forall j: nat :: j < n ==> Arrived(run[k].threads[j], b)) && Sleeps(run[k].threads[i], b) ==>
              exists j: nat :: j < n && Due(run[k].threads[j], b)
  {
    RunKeeps(run, who, n, bars, k);
    hide IsRun;
    var s := run[k];
    assert BarInv(s.threads, s.bars[b], b);
    CountShort(s.threads, s.bars[b], b);
    if Sleeps(s.threads[i], b) { assert i in s.bars[b].waiters; }
  }

  predicate Done(t: Thread, bars: nat) {
    t.stage == bars
  }

  /** With everybody done or asleep, everybody has passed barrier b. */
  lemma {:induction false} NoSleepers(s: State, n: nat, bars: nat, b: nat, i: nat)
    requires Inv(s, n, bars) && b <= bars && i < n
    requires forall j: nat :: j < n ==> Done(s.threads[j], bars) || s.threads[j].pc == Asleep
    ensures s.threads[i].stage >= b
  {
    if b > 0 {
      forall j: nat | j < n ensures s.threads[j].stage >= b - 1 { NoSleepers(s, n, bars, b - 1, j); }
      assert BarInv(s.threads, s.bars[b - 1], b - 1);
      AllAsleep(s.threads, s.bars[b - 1], b - 1);
    }
  }

  lemma AllAsleep(threads: seq<Thread>, bar: Bar, b: nat)
    requires BarInv(threads, bar, b)
    requires forall j: nat :: j < |threads| ==>
                 threads[j].stage >= b && (threads[j].stage == b ==> threads[j].pc == Asleep)
    ensures forall j: nat :: j < |threads| ==> threads[j].stage > b
  {
    CountShort(threads, bar, b);
    if j: nat :| j < |threads| && threads[j].stage == b {
      assert false;
    }
  }

  /** No deadlock: as long as anyone is not done, someone can take a step that is more than a failed try of a mutex. */
  lemma SomeoneCanStep(run: seq<State>, who: seq<nat>, n: nat, bars: nat, k: nat)
    requires IsRun(run, who, n, bars) && k < |run| && Shape(run[k], n, bars)
    requires exists i: nat :: i < n && !Done(run[k].threads[i], bars)
    ensures exists i: nat, t: State :: Step(run[k], t, i, n, bars) && t != run[k]
  {
    hide IsRun, Step;
    RunKeeps(run, who, n, bars, k);
    var s := run[k];
    if i: nat :| i < n && s.threads[i].stage < bars && Inside(s.threads[i], s.threads[i].stage) {
      CanStep(s, n, bars, i);
    } else if i: nat :| i < n && !Done(s.threads[i], bars) && s.threads[i].pc != Asleep {
      var b := s.threads[i].stage;
      NobodyInside(s, n, bars, b);
      CanStep(s, n, bars, i);
    } else {
      var i: nat :| i < n && !Done(s.threads[i], bars);
      NoSleepers(s, n, bars, bars, i);
      assert false;
    }
  }

  lemma NobodyInside(s: State, n: nat, bars: nat, b: nat)
    requires Inv(s, n, bars) && b < bars
    requires forall i: nat :: i < n ==> !Inside(s.threads[i], b)
    ensures !s.bars[b].locked
  {
    hide Sum, Inside;
    assert BarInv(s.threads, s.bars[b], b);
    SumBounds(s.threads, InsideUnits(b), 0, 0);
  }

  lemma CanStep(s: State, n: nat, bars: nat, i: nat)
    requires Inv(s, n, bars) && i < n && s.threads[i].stage < bars && s.threads[i].pc != Asleep
    requires Inside(s.threads[i], s.threads[i].stage) || !s.bars[s.threads[i].stage].locked
    ensures exists t: State :: Step(s, t, i, n, bars) && t != s
  {
    hide BarInv;
    var me := s.threads[i];
    var bar := s.bars[me.stage];
    assert BarInv(s.threads, bar, me.stage);
    OwnOk(s.threads, bar, me.stage, i);
    var moved := s.threads[i := ThreadAfter(bar, me, n)];
    var t := State(if me.pc == Signal then Wake(moved, bar.waiters) else moved,
                   s.bars[me.stage := BarAfter(bar, me, i)]);
    assert Step(s, t, i, n, bars);
    StepThreads(s, t, i, n, bars);
    assert t.threads[i] != me by {
      if bar.waiters != [] { assert bar.waiters[0] in bar.waiters; }
    }
  }

  // ---- only failed tries go on for ever ----

  function Rank(pc: Pc): nat {
    match pc
    case Enter => 0
    case Load => 1
    case Store => 2
    case Test => 3
    case ToWait => 4
    case Asleep => 5
    case Relock => 6
    case Signal => 7
    case Unlock => 8
  }

  function Ahead(bars: nat): Thread -> int {
    (t: Thread) => 9 * (bars - t.stage) - Rank(t.pc)
  }

  lemma MoveSpends(a: Thread, b: Thread, bars: nat)
    ensures Moves(a, b) ==> Ahead(bars)(b) < Ahead(bars)(a)
    ensures a.pc == Asleep && b == a.(pc := Relock) ==> Ahead(bars)(b) < Ahead(bars)(a)
  {
  }

  lemma StepSpends(s: State, t: State, i: nat, n: nat, bars: nat)
    requires Inv(s, n, bars) && Step(s, t, i, n, bars)
    ensures t == s || Sum(t.threads, Ahead(bars)) < Sum(s.threads, Ahead(bars))
  {
    StepThreads(s, t, i, n, bars);
    hide BarInv, Step, Sum, Ahead, Moves;
    forall j: nat | j < n && t != s
      ensures Ahead(bars)(t.threads[j]) <= Ahead(bars)(s.threads[j])
      ensures j == i ==> Ahead(bars)(t.threads[j]) < Ahead(bars)(s.threads[j])
    {
      MoveSpends(s.threads[j], t.threads[j], bars);
    }
    if t != s { SumLess(t.threads, s.threads, Ahead(bars), i); }
  }

  /** How many of the first k steps changed something. */
  ghost function Changes(run: seq<State>, k: nat): nat
    requires k < |run|
  {
    if k == 0 then 0 else Changes(run, k - 1) + if run[k] != run[k - 1] then 1 else 0
  }

  lemma {:induction false} Spent(run: seq<State>, who: seq<nat>, n: nat, bars: nat, k: nat)
    requires IsRun(run, who, n, bars) && k < |run|
    ensures Sum(run[k].threads, Ahead(bars)) <= Sum(run[0].threads, Ahead(bars)) - Changes(run, k)
  {
    hide Step, Inv, Sum, Init;
    if k > 0 {
      Spent(run, who, n, bars, k - 1);
      RunKeeps(run, who, n, bars, k - 1);
      StepSpends(run[k - 1], run[k], who[k - 1], n, bars);
    }
  }

  /** In every run at most nine steps a barrier and thread are more than failed tries, so under a fair scheduler, by
      `SomeoneCanStep`, everyone passes every barrier. */
  lemma RunsEnd(run: seq<State>, who: seq<nat>, n: nat, bars: nat)
    requires IsRun(run, who, n, bars)
    ensures Changes(run, |who|) <= 9 * bars * n
  {
    hide Step, Sum, BarInv, Changes;
    Spent(run, who, n, bars, |who|);
    RunKeeps(run, who, n, bars, |who|);
    SumBounds(run[0].threads, Ahead(bars), 9 * bars, 9 * bars);
    if n > 0 { SumOne(run[|who|].threads, Ahead(bars), 0); }
    else { SumBounds(run[|who|].threads, Ahead(bars), 0, 0); }
  }
}
