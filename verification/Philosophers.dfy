/** user/src/bin/phil_din_mutex.rs over hand-off mutexes: any number of philosophers from two up, any number of rounds,
    any interleaving, all forks in place. */
module Philosophers {
  import opened Basics
  import Handoff

  datatype Pc = Thinking | WaitMin | HasMin | WaitMax | Eating | PutMax

  datatype Phil = Phil(pc: Pc, rounds: nat)

  datatype State = State(phils: seq<Phil>, forks: seq<Handoff.State>)

  /** The two forks of philosopher i among n, lower number first. */
  function MinFork(n: nat, i: nat): nat
    requires i < n && n >= 2
  {
    if i == n - 1 then 0 else i
  }

  function MaxFork(n: nat, i: nat): nat
    requires i < n && n >= 2
  {
    if i == n - 1 then i else i + 1
  }

  /** As the source computes them. */
  lemma ForkArithmetic(n: nat, i: nat)
    requires i < n && n >= 2
    ensures var left, right := i, if i == n - 1 then 0 else i + 1;
            var min := if left < right then left else right;
            min == MinFork(n, i) && left + right - min == MaxFork(n, i)
    ensures MinFork(n, i) < MaxFork(n, i) < n
  {
  }

  ghost predicate Init(s: State, n: nat) {
    && n >= 2 && |s.phils| == |s.forks| == n
    && (forall i :: 0 <= i < n ==> s.phils[i] == Phil(Thinking, 0))
    && (forall f :: 0 <= f < n ==> s.forks[f] == Handoff.Init())
  }

  ghost predicate Shape(s: State, n: nat) {
    n >= 2 && |s.phils| == |s.forks| == n
  }

  /** Philosopher i calls lock on fork f; `then'` and `wait` are where it stands if it gets the fork, or does not. */
  function Take(s: State, i: nat, f: nat, then': Pc, wait: Pc): State
    requires i < |s.phils| && f < |s.forks|
  {
    s.(phils := s.phils[i := s.phils[i].(pc := if s.forks[f].mutex.locked then wait else then')],
       forks := s.forks[f := Handoff.Next(s.forks[f], Handoff.Lock(i))])
  }

  /** Where a philosopher stands once the fork it waited for is its own. */
  function Woken(p: Phil): Phil {
    p.(pc := if p.pc == WaitMin then HasMin else if p.pc == WaitMax then Eating else p.pc)
  }

  /** Philosopher i unlocks fork f and stands at p; the first waiter, if any, owns the fork now. */
  function Put(s: State, i: nat, f: nat, p: Phil): (t: State)
    requires i < |s.phils| && f < |s.forks|
    requires forall t :: t in s.forks[f].mutex.queue ==> t < |s.phils|
    ensures |t.phils| == |s.phils| && |t.forks| == |s.forks|
  {
    var q := s.forks[f].mutex.queue;
    var phils := s.phils[i := p];
    s.(phils := if q != [] then assert q[0] in q; phils[q[0] := Woken(phils[q[0]])] else phils,
       forks := s.forks[f := Handoff.Next(s.forks[f], Handoff.Unlock(i))])
  }

  /** Philosopher i, not blocked and not done, takes its next step. */
  ghost predicate Step(s: State, t: State, i: nat, n: nat, rounds: nat) {
    && Shape(s, n) && i < n
    && (forall f :: 0 <= f < n ==> forall t :: t in s.forks[f].mutex.queue ==> t < n)
    && var p := s.phils[i];
    match p.pc
    case Thinking => p.rounds < rounds && t == Take(s, i, MinFork(n, i), HasMin, WaitMin)
    case HasMin => t == Take(s, i, MaxFork(n, i), Eating, WaitMax)
    case Eating => t == Put(s, i, MaxFork(n, i), p.(pc := PutMax))
    case PutMax => t == Put(s, i, MinFork(n, i), Phil(Thinking, p.rounds + 1))
    case WaitMin => false
    case WaitMax => false
  }

  predicate Holds(n: nat, i: nat, pc: Pc, f: nat)
    requires i < n && n >= 2
  {
    (f == MinFork(n, i) && (pc == HasMin || pc == WaitMax || pc == Eating || pc == PutMax))
    || (f == MaxFork(n, i) && pc == Eating)
  }

  predicate WaitsFor(n: nat, i: nat, pc: Pc, f: nat)
    requires i < n && n >= 2
  {
    (f == MinFork(n, i) && pc == WaitMin) || (f == MaxFork(n, i) && pc == WaitMax)
  }

  /** A fork is a mutex of which only the holder unlocks; the philosophers who own it are those who hold the fork, and
      its queue is those who wait for it. */
  ghost predicate ForkOk(s: State, n: nat, f: nat)
    requires Shape(s, n) && f < n
  {
    var h := s.forks[f];
    && Handoff.Inv(h)
    && (forall i: nat :: i < n ==> (i in h.owners <==> Holds(n, i, s.phils[i].pc, f)))
    && (forall i: nat :: i < n ==> (i in h.mutex.queue <==> WaitsFor(n, i, s.phils[i].pc, f)))
    && (forall t :: t in h.owners || t in h.mutex.queue ==> t < n)
  }

  predicate RoundsOk(p: Phil, rounds: nat) {
    p.rounds <= rounds && (p.pc != Thinking ==> p.rounds < rounds)
  }

  ghost predicate Inv(s: State, n: nat, rounds: nat) {
    && Shape(s, n)
    && (forall f: nat :: f < n ==> ForkOk(s, n, f))
    && (forall i: nat :: i < n ==> RoundsOk(s.phils[i], rounds))
  }

  lemma InitInv(s: State, n: nat, rounds: nat)
    requires Init(s, n)
    ensures Inv(s, n, rounds)
  {
  }

  // ---- every step keeps the invariant ----

  /** A fork nobody took, released or queued for stays right. */
  lemma ForkSame(s: State, t: State, n: nat, g: nat)
    requires Shape(s, n) && Shape(t, n) && g < n && ForkOk(s, n, g) && s.forks[g] == t.forks[g]
    requires forall j: nat :: j < n ==> Holds(n, j, s.phils[j].pc, g) == Holds(n, j, t.phils[j].pc, g)
    requires forall j: nat :: j < n ==> WaitsFor(n, j, s.phils[j].pc, g) == WaitsFor(n, j, t.phils[j].pc, g)
    ensures ForkOk(t, n, g)
  {
    hide Holds, WaitsFor, Handoff.Inv;
  }

  lemma TakeFork(s: State, n: nat, i: nat, f: nat, then': Pc, wait: Pc)
    requires Shape(s, n) && i < n && f < n && ForkOk(s, n, f)
    requires !Holds(n, i, s.phils[i].pc, f) && !WaitsFor(n, i, s.phils[i].pc, f)
    requires Holds(n, i, then', f) && !WaitsFor(n, i, then', f)
    requires WaitsFor(n, i, wait, f) && !Holds(n, i, wait, f)
    ensures Shape(Take(s, i, f, then', wait), n) && ForkOk(Take(s, i, f, then', wait), n, f)
  {
    hide Holds, WaitsFor, Handoff.Inv;
    var t := Take(s, i, f, then', wait);
    Handoff.StepKeeps(s.forks[f], Handoff.Lock(i));
    assert forall j: nat :: j < n && j != i ==> t.phils[j] == s.phils[j];
  }

  /** The unlocked fork passes to the first waiter, who holds nothing of the releasing philosopher's. */
  lemma PutFork(s: State, n: nat, i: nat, f: nat, p: Phil)
    requires Shape(s, n) && i < n && f < n && ForkOk(s, n, f)
    requires Holds(n, i, s.phils[i].pc, f) && !Holds(n, i, p.pc, f)
    requires !WaitsFor(n, i, s.phils[i].pc, f) && !WaitsFor(n, i, p.pc, f)
    ensures Shape(Put(s, i, f, p), n) && ForkOk(Put(s, i, f, p), n, f)
  {
    hide Holds, WaitsFor, Woken, Handoff.Inv;
    var t, h := Put(s, i, f, p), s.forks[f];
    var q := h.mutex.queue;
    Handoff.StepKeeps(h, Handoff.Unlock(i));
    if q != [] {
      var w := q[0];
      assert w in q && w != i;
      WokenTakes(n, w, s.phils[w], f);
      QueueHead(h);
      forall j: nat | j < n ensures j in q[1..] <==> WaitsFor(n, j, t.phils[j].pc, f) {
        assert j in q <==> j == w || j in q[1..];
      }
    } else {
      assert forall j: nat :: j < n && j != i ==> t.phils[j] == s.phils[j];
    }
  }

  lemma WokenTakes(n: nat, h: nat, p: Phil, f: nat)
    requires h < n && n >= 2 && WaitsFor(n, h, p.pc, f)
    ensures Holds(n, h, Woken(p).pc, f) && !WaitsFor(n, h, Woken(p).pc, f)
  {
  }

  lemma QueueHead(h: Handoff.State)
    requires Handoff.Inv(h) && h.mutex.queue != []
    ensures h.mutex.queue[0] !in h.mutex.queue[1..]
  {
  }

  lemma WokenOther(n: nat, h: nat, p: Phil, f: nat, g: nat)
    requires h < n && n >= 2 && f != g && WaitsFor(n, h, p.pc, f)
    ensures Holds(n, h, p.pc, g) == Holds(n, h, Woken(p).pc, g)
    ensures WaitsFor(n, h, p.pc, g) == WaitsFor(n, h, Woken(p).pc, g)
  {
  }

  /** Handing fork f to a waiter changes no other fork. */
  lemma PutOther(s: State, n: nat, i: nat, f: nat, p: Phil, g: nat)
    requires Shape(s, n) && i < n && f < n && g < n && g != f && ForkOk(s, n, f) && ForkOk(s, n, g)
    requires Holds(n, i, s.phils[i].pc, f) && !WaitsFor(n, i, s.phils[i].pc, f)
    requires Holds(n, i, s.phils[i].pc, g) == Holds(n, i, p.pc, g)
    requires WaitsFor(n, i, s.phils[i].pc, g) == WaitsFor(n, i, p.pc, g)
    ensures Shape(Put(s, i, f, p), n) && ForkOk(Put(s, i, f, p), n, g)
  {
    hide Holds, WaitsFor, Woken, Handoff.Inv;
    var t, q := Put(s, i, f, p), s.forks[f].mutex.queue;
    if q != [] {
      assert q[0] in q && WaitsFor(n, q[0], s.phils[q[0]].pc, f);
      WokenOther(n, q[0], s.phils[q[0]], f, g);
    }
    ForkSame(s, t, n, g);
  }

  lemma StepKeeps(s: State, t: State, i: nat, n: nat, rounds: nat)
    requires Inv(s, n, rounds) && Step(s, t, i, n, rounds)
    ensures Inv(t, n, rounds)
  {
    hide ForkOk;
    forall f: nat | f < n ensures Shape(t, n) && ForkOk(t, n, f) { StepFork(s, t, i, n, rounds, f); }
    StepRounds(s, t, i, n, rounds);
  }

  lemma PutRounds(s: State, i: nat, f: nat, p: Phil, rounds: nat)
    requires i < |s.phils| && f < |s.forks|
    requires forall t :: t in s.forks[f].mutex.queue ==> t < |s.phils|
    requires forall j: nat :: j < |s.phils| ==> RoundsOk(s.phils[j], rounds)
    requires RoundsOk(p, rounds)
    ensures forall j: nat :: j < |s.phils| ==> RoundsOk(Put(s, i, f, p).phils[j], rounds)
  {
  }

  lemma StepRounds(s: State, t: State, i: nat, n: nat, rounds: nat)
    requires Inv(s, n, rounds) && Step(s, t, i, n, rounds)
    ensures Shape(t, n)
    ensures forall j: nat :: j < n ==> RoundsOk(t.phils[j], rounds)
  {
    hide ForkOk;
    var p := s.phils[i];
    match p.pc
    case Thinking =>
    case HasMin =>
    case Eating => PutRounds(s, i, MaxFork(n, i), p.(pc := PutMax), rounds);
    case PutMax => PutRounds(s, i, MinFork(n, i), Phil(Thinking, p.rounds + 1), rounds);
  }

  lemma StepFork(s: State, t: State, i: nat, n: nat, rounds: nat, g: nat)
    requires Inv(s, n, rounds) && Step(s, t, i, n, rounds) && g < n
    ensures Shape(t, n) && ForkOk(t, n, g)
  {
    hide ForkOk;
    var p := s.phils[i];
    match p.pc
    case Thinking =>
      if g == MinFork(n, i) { TakeFork(s, n, i, g, HasMin, WaitMin); } else { ForkSame(s, t, n, g); }
    case HasMin =>
      if g == MaxFork(n, i) { TakeFork(s, n, i, g, Eating, WaitMax); } else { ForkSame(s, t, n, g); }
    case Eating =>
      var f := MaxFork(n, i);
      if g == f { PutFork(s, n, i, g, p.(pc := PutMax)); } else { PutOther(s, n, i, f, p.(pc := PutMax), g); }
    case PutMax =>
      var f, q := MinFork(n, i), Phil(Thinking, p.rounds + 1);
      if g == f { PutFork(s, n, i, g, q); } else { PutOther(s, n, i, f, q, g); }
  }

  ghost predicate IsRun(run: seq<State>, who: seq<nat>, n: nat, rounds: nat) {
    && |run| == |who| + 1 && Init(run[0], n)
    && forall k: nat :: k < |who| ==> Step(run[k], run[k + 1], who[k], n, rounds)
  }

  lemma {:induction false} RunKeeps(run: seq<State>, who: seq<nat>, n: nat, rounds: nat, k: nat)
    requires IsRun(run, who, n, rounds) && k < |run|
    ensures Inv(run[k], n, rounds)
  {
    hide Step, Inv;
    if k > 0 {
      RunKeeps(run, who, n, rounds, k - 1);
      StepKeeps(run[k - 1], run[k], who[k - 1], n, rounds);
    } else {
      InitInv(run[0], n, rounds);
    }
  }

  // ---- what the philosophers are promised ----

  /** Philosophers who share a fork never eat at the same time. */
  lemma NeighboursApart(run: seq<State>, who: seq<nat>, n: nat, rounds: nat, k: nat, i: nat)
    requires IsRun(run, who, n, rounds) && k < |run| && i < n && n >= 2
    ensures Shape(run[k], n)
    ensures !(run[k].phils[i].pc == Eating && run[k].phils[(i + 1) % n].pc == Eating)
  {
    hide IsRun, Step;
    RunKeeps(run, who, n, rounds, k);
    hide ForkOk;
    NotBothEat(run[k], n, rounds, i);
  }

  lemma NotBothEat(s: State, n: nat, rounds: nat, i: nat)
    requires Inv(s, n, rounds) && i < n
    ensures !(s.phils[i].pc == Eating && s.phils[(i + 1) % n].pc == Eating)
  {
    var j := if i == n - 1 then 0 else i + 1;
    assert (i + 1) % n == j;
    assert ForkOk(s, n, j);
    hide ForkOk, Inv;
    OneHolder(s, n, j, i, j);
  }

  lemma OneHolder(s: State, n: nat, f: nat, i: nat, j: nat)
    requires Shape(s, n) && f < n && i < n && j < n && ForkOk(s, n, f)
    ensures Holds(n, i, s.phils[i].pc, f) && Holds(n, j, s.phils[j].pc, f) ==> i == j
  {
    hide Holds;
  }

  /** Each fork is granted in the order in which it was asked for. */
  lemma ForksFifo(run: seq<State>, who: seq<nat>, n: nat, rounds: nat, k: nat, f: nat)
    requires IsRun(run, who, n, rounds) && k < |run| && f < n
    ensures Shape(run[k], n) && run[k].forks[f].given <= run[k].forks[f].asked
  {
    hide IsRun, Step;
    RunKeeps(run, who, n, rounds, k);
    assert ForkOk(run[k], n, f);
  }

  predicate Waits(p: Phil) {
    p.pc == WaitMin || p.pc == WaitMax
  }

  predicate Done(p: Phil, rounds: nat) {
    p == Phil(Thinking, rounds)
  }

  /** If everyone is done or waits, nobody waits for fork f: its holder would wait for a higher fork. */
  lemma {:induction false} NobodyWaits(s: State, n: nat, rounds: nat, f: nat)
    requires Inv(s, n, rounds) && f < n
    requires forall i: nat :: i < n ==> Done(s.phils[i], rounds) || Waits(s.phils[i])
    ensures forall i: nat :: i < n ==> !WaitsFor(n, i, s.phils[i].pc, f)
    decreases n - f
  {
    assert ForkOk(s, n, f);
    if i: nat :| i < n && WaitsFor(n, i, s.phils[i].pc, f) {
      assert i in s.forks[f].mutex.queue;
      var h: nat :| h < n && Holds(n, h, s.phils[h].pc, f);
      assert Done(s.phils[h], rounds) || Waits(s.phils[h]);
      assert s.phils[h].pc == WaitMax;
      NobodyWaits(s, n, rounds, MaxFork(n, h));
      assert WaitsFor(n, h, s.phils[h].pc, MaxFork(n, h));
    }
  }

  /** No deadlock: as long as anyone is not done, someone can take a step. */
  lemma SomeoneCanStep(run: seq<State>, who: seq<nat>, n: nat, rounds: nat, k: nat)
    requires IsRun(run, who, n, rounds) && k < |run| && Shape(run[k], n)
    requires exists i: nat :: i < n && !Done(run[k].phils[i], rounds)
    ensures exists i: nat, t: State :: Step(run[k], t, i, n, rounds)
  {
    hide IsRun, Step;
    RunKeeps(run, who, n, rounds, k);
    var s := run[k];
    if i: nat :| i < n && !Done(s.phils[i], rounds) && !Waits(s.phils[i]) {
      CanStep(s, i, n, rounds);
    } else {
      var i: nat :| i < n && !Done(s.phils[i], rounds);
      assert Waits(s.phils[i]);
      NobodyWaits(s, n, rounds, MinFork(n, i));
      NobodyWaits(s, n, rounds, MaxFork(n, i));
      assert false;
    }
  }

  lemma CanStep(s: State, i: nat, n: nat, rounds: nat)
    requires Inv(s, n, rounds) && i < n && !Done(s.phils[i], rounds) && !Waits(s.phils[i])
    ensures exists t: State :: Step(s, t, i, n, rounds)
  {
    forall f: nat | f < n ensures forall t :: t in s.forks[f].mutex.queue ==> t < n { assert ForkOk(s, n, f); }
    var p := s.phils[i];
    var t := if p.pc == HasMin then Take(s, i, MaxFork(n, i), Eating, WaitMax)
             else if p.pc == Eating then Put(s, i, MaxFork(n, i), p.(pc := PutMax))
             else if p.pc == PutMax then Put(s, i, MinFork(n, i), Phil(Thinking, p.rounds + 1))
             else Take(s, i, MinFork(n, i), HasMin, WaitMin);
    assert Step(s, t, i, n, rounds);
  }

  // ---- every run ends ----

  function Rank(pc: Pc): nat {
    match pc
    case Thinking => 0
    case WaitMin => 1
    case HasMin => 2
    case WaitMax => 3
    case Eating => 4
    case PutMax => 5
  }

  /** How many steps, and wake-ups, a philosopher still has ahead at most. */
  function Ahead(rounds: nat): Phil -> int {
    (p: Phil) => 6 * (rounds - p.rounds) - Rank(p.pc)
  }

  lemma StepSpends(s: State, t: State, i: nat, n: nat, rounds: nat)
    requires Inv(s, n, rounds) && Step(s, t, i, n, rounds)
    ensures Sum(t.phils, Ahead(rounds)) < Sum(s.phils, Ahead(rounds))
  {
    hide ForkOk, Sum;
    var p, w := s.phils[i], Ahead(rounds);
    match p.pc
    case Thinking => SumUpdate(s.phils, w, i, t.phils[i]);
    case HasMin => SumUpdate(s.phils, w, i, t.phils[i]);
    case Eating => PutSpends(s, i, MaxFork(n, i), p.(pc := PutMax), rounds);
    case PutMax => PutSpends(s, i, MinFork(n, i), Phil(Thinking, p.rounds + 1), rounds);
  }

  lemma PutSpends(s: State, i: nat, f: nat, p: Phil, rounds: nat)
    requires i < |s.phils| && f < |s.forks|
    requires forall t :: t in s.forks[f].mutex.queue ==> t < |s.phils|
    requires Ahead(rounds)(p) < Ahead(rounds)(s.phils[i])
    ensures Sum(Put(s, i, f, p).phils, Ahead(rounds)) < Sum(s.phils, Ahead(rounds))
  {
    hide Sum;
    var phils, q, w := s.phils[i := p], s.forks[f].mutex.queue, Ahead(rounds);
    SumUpdate(s.phils, w, i, p);
    if q != [] {
      assert q[0] in q;
      SumUpdate(phils, w, q[0], Woken(phils[q[0]]));
    }
  }

  /** Every run has at most six steps a round for each philosopher. */
  lemma {:induction false} RunsEnd(run: seq<State>, who: seq<nat>, n: nat, rounds: nat)
    requires IsRun(run, who, n, rounds)
    ensures |who| <= 6 * rounds * n
  {
    hide Sum, Step;
    Spent(run, who, n, rounds, |who|);
    RunKeeps(run, who, n, rounds, |who|);
    SumBounds(run[0].phils, Ahead(rounds), 6 * rounds, 6 * rounds);
    SumBounds(run[|who|].phils, Ahead(rounds), 0, 6 * rounds);
  }

  lemma {:induction false} Spent(run: seq<State>, who: seq<nat>, n: nat, rounds: nat, k: nat)
    requires IsRun(run, who, n, rounds) && k < |run|
    ensures Sum(run[k].phils, Ahead(rounds)) <= Sum(run[0].phils, Ahead(rounds)) - k
  {
    hide Step, Inv, Sum;
    if k > 0 {
      Spent(run, who, n, rounds, k - 1);
      RunKeeps(run, who, n, rounds, k - 1);
      StepSpends(run[k - 1], run[k], who[k - 1], n, rounds);
    }
  }

  /** A run that cannot go on is one in which everyone has eaten every round; by `RunsEnd`, no run goes on for ever. */
  lemma EveryoneDines(run: seq<State>, who: seq<nat>, n: nat, rounds: nat)
    requires IsRun(run, who, n, rounds)
    requires !exists i: nat, t: State :: Step(run[|who|], t, i, n, rounds)
    ensures Shape(run[|who|], n) && forall i: nat :: i < n ==> Done(run[|who|].phils[i], rounds)
  {
    hide Step;
    RunKeeps(run, who, n, rounds, |who|);
    if i: nat :| i < n && !Done(run[|who|].phils[i], rounds) { SomeoneCanStep(run, who, n, rounds, |who|); }
  }
}
