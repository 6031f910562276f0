/** user/src/bin/adder_peterson_spin.rs: two threads, each load and store a step of its own. */
module Peterson {
  /** Where a thread stands: what it does next. */
  datatype Pc =
    | SetFlag    // FLAG[id] = true
    | SetTurn    // TURN = j
    | LoadFlag   // first half of the loop test
    | LoadTurn   // second half
    | LoadA      // cur = A
    | StoreA     // A = cur + 1
    | ClearFlag  // FLAG[id] = false

  datatype Thread = Thread(pc: Pc, cur: nat, rounds: nat)

  /** `overtaken` is a history variable: how often the other thread entered since this one stored TURN. */
  datatype State = State(flag: seq<bool>, turn: nat, a: nat, thread: seq<Thread>, overtaken: seq<nat>)

  ghost predicate Init(s: State) {
    && s.flag == [false, false] && s.turn == 0 && s.a == 0 && s.overtaken == [0, 0]
    && s.thread == [Thread(SetFlag, 0, 0), Thread(SetFlag, 0, 0)]
  }

  /** Thread i takes its next step; it has `perThread` rounds to make. */
  ghost predicate Step(s: State, t: State, i: nat, perThread: nat)
    requires i < 2 && |s.flag| == 2 && |s.thread| == 2 && |s.overtaken| == 2
  {
    var j, me := 1 - i, s.thread[i];
    match me.pc
    case SetFlag =>
      me.rounds < perThread && t == s.(flag := s.flag[i := true], thread := s.thread[i := me.(pc := SetTurn)])
    case SetTurn =>
      t == s.(turn := j, thread := s.thread[i := me.(pc := LoadFlag)], overtaken := s.overtaken[i := 0])
    case LoadFlag =>
      if s.flag[j] then t == s.(thread := s.thread[i := me.(pc := LoadTurn)]) else t == Enter(s, i)
    case LoadTurn =>
      if s.turn == j then t == s.(thread := s.thread[i := me.(pc := LoadFlag)]) else t == Enter(s, i)
    case LoadA => t == s.(thread := s.thread[i := me.(pc := StoreA, cur := s.a)])
    case StoreA => t == s.(a := me.cur + 1, thread := s.thread[i := me.(pc := ClearFlag)])
    case ClearFlag =>
      t == s.(flag := s.flag[i := false], thread := s.thread[i := me.(pc := SetFlag, rounds := me.rounds + 1)])
  }

  function Enter(s: State, i: nat): State
    requires i < 2 && |s.thread| == 2 && |s.overtaken| == 2
  {
    s.(thread := s.thread[i := s.thread[i].(pc := LoadA)], overtaken := s.overtaken[1 - i := s.overtaken[1 - i] + 1])
  }

  predicate Critical(pc: Pc) {
    pc.LoadA? || pc.StoreA? || pc.ClearFlag?
  }

  predicate Waiting(pc: Pc) {
    pc.LoadFlag? || pc.LoadTurn?
  }

  predicate Finished(t: Thread, perThread: nat) {
    t.pc == SetFlag && t.rounds == perThread
  }

  ghost predicate Shape(s: State) {
    |s.flag| == 2 && |s.thread| == 2 && |s.overtaken| == 2 && s.turn < 2
  }

  ghost predicate ThreadOk(s: State, i: nat, perThread: nat)
    requires Shape(s) && i < 2
  {
    var j, me := 1 - i, s.thread[i];
    && (s.flag[i] <==> me.pc != SetFlag)
    && me.rounds <= perThread && (me.pc != SetFlag ==> me.rounds < perThread)
    // A thread past its wait has the turn, unless the other has not stored TURN yet.
    && (Critical(me.pc) && (Waiting(s.thread[j].pc) || Critical(s.thread[j].pc)) ==> s.turn == i)
    && (me.pc == StoreA ==> me.cur == s.a)
    // Overtaken once, a waiting thread has the turn.
    && (Waiting(me.pc) ==> s.overtaken[i] <= 1)
    && (Waiting(me.pc) && s.overtaken[i] == 1 && Waiting(s.thread[j].pc) ==> s.turn == i)
  }

  function Added(t: Thread): nat {
    t.rounds + if t.pc == ClearFlag then 1 else 0
  }

  ghost predicate Inv(s: State, perThread: nat) {
    && Shape(s)
    && ThreadOk(s, 0, perThread) && ThreadOk(s, 1, perThread)
    && s.a == Added(s.thread[0]) + Added(s.thread[1])
  }

  lemma StepKeeps(s: State, t: State, i: nat, perThread: nat)
    requires Inv(s, perThread) && i < 2 && Step(s, t, i, perThread)
    ensures Inv(t, perThread)
  {
    hide ThreadOk, Step;
    StepSelf(s, t, i, perThread);
    StepOther(s, t, i, perThread);
    StepCounts(s, t, i, perThread);
  }

  lemma StepSelf(s: State, t: State, i: nat, perThread: nat)
    requires Inv(s, perThread) && i < 2 && Step(s, t, i, perThread)
    ensures Shape(t) && ThreadOk(t, i, perThread)
  {
    hide ThreadOk, Step;
    if Waiting(s.thread[i].pc) { WaitSelf(s, t, i, perThread); } else { MoveSelf(s, t, i, perThread); }
  }

  lemma WaitSelf(s: State, t: State, i: nat, perThread: nat)
    requires Inv(s, perThread) && i < 2 && Step(s, t, i, perThread) && Waiting(s.thread[i].pc)
    ensures Shape(t) && ThreadOk(t, i, perThread)
  {
    assert ThreadOk(s, i, perThread) && ThreadOk(s, 1 - i, perThread);
    assert t.thread[1 - i] == s.thread[1 - i] && t.flag == s.flag && t.turn == s.turn;
  }

  lemma MoveSelf(s: State, t: State, i: nat, perThread: nat)
    requires Inv(s, perThread) && i < 2 && Step(s, t, i, perThread) && !Waiting(s.thread[i].pc)
    ensures Shape(t) && ThreadOk(t, i, perThread)
  {
    assert ThreadOk(s, i, perThread) && ThreadOk(s, 1 - i, perThread);
    assert t.thread[1 - i] == s.thread[1 - i];
  }

  lemma StepOther(s: State, t: State, i: nat, perThread: nat)
    requires Inv(s, perThread) && i < 2 && Step(s, t, i, perThread)
    ensures Shape(t) && ThreadOk(t, 1 - i, perThread)
  {
    hide ThreadOk, Step;
    if Waiting(s.thread[i].pc) { WaitOther(s, t, i, perThread); } else { MoveOther(s, t, i, perThread); }
  }

  lemma WaitOther(s: State, t: State, i: nat, perThread: nat)
    requires Inv(s, perThread) && i < 2 && Step(s, t, i, perThread) && Waiting(s.thread[i].pc)
    ensures Shape(t) && ThreadOk(t, 1 - i, perThread)
  {
    assert ThreadOk(s, i, perThread) && ThreadOk(s, 1 - i, perThread);
    assert t.thread[1 - i] == s.thread[1 - i] && t.flag == s.flag && t.turn == s.turn;
  }

  lemma MoveOther(s: State, t: State, i: nat, perThread: nat)
    requires Inv(s, perThread) && i < 2 && Step(s, t, i, perThread) && !Waiting(s.thread[i].pc)
    ensures Shape(t) && ThreadOk(t, 1 - i, perThread)
  {
    assert ThreadOk(s, i, perThread) && ThreadOk(s, 1 - i, perThread);
    assert t.thread[1 - i] == s.thread[1 - i];
  }

  lemma StepCounts(s: State, t: State, i: nat, perThread: nat)
    requires Inv(s, perThread) && i < 2 && Step(s, t, i, perThread)
    ensures Shape(t) && t.a == Added(t.thread[0]) + Added(t.thread[1])
  {
    assert ThreadOk(s, i, perThread);
  }

  ghost predicate IsRun(run: seq<State>, who: seq<nat>, perThread: nat) {
    && |run| == |who| + 1 && Init(run[0])
    && forall n: nat :: n < |who| ==> who[n] < 2 && Shape(run[n]) && Step(run[n], run[n + 1], who[n], perThread)
  }

  lemma {:induction false} RunKeeps(run: seq<State>, who: seq<nat>, perThread: nat, n: nat)
    requires IsRun(run, who, perThread) && n < |run|
    ensures Inv(run[n], perThread)
  {
    hide Step;
    if n > 0 {
      RunKeeps(run, who, perThread, n - 1);
      StepKeeps(run[n - 1], run[n], who[n - 1], perThread);
    }
  }

  /** The two threads are never both in the critical section. */
  lemma MutualExclusion(run: seq<State>, who: seq<nat>, perThread: nat, n: nat)
    requires IsRun(run, who, perThread) && n < |run|
    ensures Shape(run[n]) && !(Critical(run[n].thread[0].pc) && Critical(run[n].thread[1].pc))
  {
    RunKeeps(run, who, perThread, n);
  }

  /** While one thread waits, the other enters at most once. */
  lemma OvertakenOnce(run: seq<State>, who: seq<nat>, perThread: nat, n: nat, i: nat)
    requires IsRun(run, who, perThread) && n < |run| && i < 2
    ensures Shape(run[n]) && (Waiting(run[n].thread[i].pc) ==> run[n].overtaken[i] <= 1)
  {
    RunKeeps(run, who, perThread, n);
    assert ThreadOk(run[n], i, perThread);
  }

  /** No run gets stuck: as long as a thread is unfinished, one of them, let run alone for at most
      three steps, is outside the wait loop. */
  lemma Progress(run: seq<State>, who: seq<nat>, perThread: nat, n: nat)
    requires IsRun(run, who, perThread) && n < |run| && Shape(run[n])
    requires !Finished(run[n].thread[0], perThread) || !Finished(run[n].thread[1], perThread)
    ensures exists i: nat, t: State, u: State, v: State ::
              && i < 2 && !Finished(run[n].thread[i], perThread) && Shape(t) && Shape(u) && Shape(v)
              && (t == run[n] || Step(run[n], t, i, perThread)) && (u == t || Step(t, u, i, perThread))
              && (v == u || Step(u, v, i, perThread)) && !Waiting(v.thread[i].pc)
  {
    hide IsRun;
    RunKeeps(run, who, perThread, n);
    var s := run[n];
    assert ThreadOk(s, 0, perThread) && ThreadOk(s, 1, perThread);
    if i: nat :| i < 2 && !Finished(s.thread[i], perThread) && !Waiting(s.thread[i].pc) {
      assert s == s;
    } else if Waiting(s.thread[0].pc) && Waiting(s.thread[1].pc) {
      Exits(s, s.turn, perThread);
    } else if Waiting(s.thread[0].pc) {
      Exits(s, 0, perThread);
    } else {
      Exits(s, 1, perThread);
    }
  }

  /** A waiting thread that has the turn, or whose rival has its flag down, leaves the loop within three steps. */
  lemma Exits(s: State, i: nat, perThread: nat)
    requires Inv(s, perThread) && i < 2 && Waiting(s.thread[i].pc) && (s.turn == i || !s.flag[1 - i])
    ensures !Finished(s.thread[i], perThread)
    ensures exists t: State, u: State, v: State ::
              && Shape(t) && Shape(u) && Shape(v)
              && (t == s || Step(s, t, i, perThread)) && (u == t || Step(t, u, i, perThread))
              && (v == u || Step(u, v, i, perThread)) && !Waiting(v.thread[i].pc)
  {
    var t := if s.thread[i].pc == LoadFlag then s
             else if s.turn == i then Enter(s, i) else s.(thread := s.thread[i := s.thread[i].(pc := LoadFlag)]);
    var u := if t.thread[i].pc == LoadFlag then
               if s.flag[1 - i] then t.(thread := t.thread[i := t.thread[i].(pc := LoadTurn)]) else Enter(t, i)
             else t;
    var v := if u.thread[i].pc == LoadTurn then Enter(u, i) else u;
    assert t == s || Step(s, t, i, perThread);
    assert u == t || Step(t, u, i, perThread);
    assert v == u || Step(u, v, i, perThread);
  }

  /** Once both threads are done every addition has counted. */
  lemma AllCounted(run: seq<State>, who: seq<nat>, perThread: nat, n: nat)
    requires IsRun(run, who, perThread) && n < |run| && Shape(run[n])
    requires Finished(run[n].thread[0], perThread) && Finished(run[n].thread[1], perThread)
    ensures run[n].a == 2 * perThread
  {
    RunKeeps(run, who, perThread, n);
  }
}
