/** user/src/bin/mpsc_sem.rs over counting semaphores: any number of producers, items and slots, any interleaving.  The
    threads run user code, so each statement on BUFFER, TAIL and FRONT is a step of its own. */
module BoundedBuffer {
  import opened Basics
  import opened Sync

  datatype Role = Producer | Consumer

  /** What a thread does next: its two downs (and where it waits in them), the slot, the index, its two ups. */
  datatype Pc = Start | WaitFirst | GotFirst | WaitMutex | Access | Bump | Unlock | Signal

  datatype Thread = Thread(role: Role, pc: Pc, rounds: nat)

  datatype Config = Config(producers: nat, items: nat, size: nat)

  const MUTEX: nat := 0
  const EMPTY: nat := 1
  const AVAIL: nat := 2

  /** Threads 0 to producers - 1 produce, the last one consumes.  `log` is a
      history variable: what was stored, in order. */
  datatype State = State(threads: seq<Thread>, sems: seq<SemState>, buffer: seq<nat>, front: nat, tail: nat,
                         output: seq<nat>, log: seq<nat>)

  function First(role: Role): nat {
    if role == Producer then EMPTY else AVAIL
  }

  function Last(role: Role): nat {
    if role == Producer then AVAIL else EMPTY
  }

  function Limit(c: Config, role: Role): nat {
    if role == Producer then c.items else c.producers * c.items
  }

  ghost predicate Init(s: State, c: Config) {
    && c.size > 0 && |s.threads| == c.producers + 1
    && (forall i :: 0 <= i < |s.threads| ==>
          s.threads[i] == Thread(if i < c.producers then Producer else Consumer, Start, 0))
    && s.sems == [SemState(1, []), SemState(c.size, []), SemState(0, [])]
    && |s.buffer| == c.size && s.front == 0 && s.tail == 0 && s.output == [] && s.log == []
  }

  // ---- steps ----

  function Woken(t: Thread): Thread {
    t.(pc := if t.pc == WaitFirst then GotFirst else if t.pc == WaitMutex then Access else t.pc)
  }

  /** The first waiter, if any, goes on. */
  function Wake(threads: seq<Thread>, q: seq<Task>): seq<Thread>
    requires forall t :: t in q ==> t < |threads|
  {
    if q != [] then assert q[0] in q; threads[q[0] := Woken(threads[q[0]])] else threads
  }

  function At(s: State, i: nat, pc: Pc): seq<Thread>
    requires i < |s.threads|
  {
    s.threads[i := s.threads[i].(pc := pc)]
  }

  function Acquire(s: State, i: nat, k: nat, got: Pc, wait: Pc): State
    requires i < |s.threads| && k < |s.sems|
  {
    s.(threads := At(s, i, if s.sems[k].count > 0 then got else wait), sems := s.sems[k := Down(s.sems[k], i)])
  }

  function Release(s: State, i: nat, k: nat, next: Thread): State
    requires i < |s.threads| && k < |s.sems| && forall t :: t in s.sems[k].queue ==> t < |s.threads|
  {
    s.(threads := Wake(s.threads[i := next], s.sems[k].queue), sems := s.sems[k := Up(s.sems[k])])
  }

  /** The slot is written or read. */
  function Touch(s: State, i: nat): State
    requires i < |s.threads| && s.tail < |s.buffer| && s.front < |s.buffer|
  {
    if s.threads[i].role == Producer then
      s.(threads := At(s, i, Bump), buffer := s.buffer[s.tail := i], log := s.log + [i])
    else
      s.(threads := At(s, i, Bump), output := s.output + [s.buffer[s.front]])
  }

  /** The index moves on. */
  function Advance(s: State, i: nat): State
    requires i < |s.threads| && |s.buffer| > 0
  {
    if s.threads[i].role == Producer then
      s.(threads := At(s, i, Unlock), tail := (s.tail + 1) % |s.buffer|)
    else
      s.(threads := At(s, i, Unlock), front := (s.front + 1) % |s.buffer|)
  }

  ghost predicate Shape(s: State, c: Config) {
    && c.size > 0 && |s.threads| == c.producers + 1 && |s.sems| == 3
    && |s.buffer| == c.size && s.tail < c.size && s.front < c.size
    && (forall i: nat :: i < |s.threads| ==> (s.threads[i].role == Producer <==> i < c.producers))
    && (forall k: nat :: k < 3 ==> forall t :: t in s.sems[k].queue ==> t < |s.threads|)
  }

  /** Thread i, not blocked and not done, takes its next step. */
  ghost predicate Step(s: State, t: State, i: nat, c: Config) {
    && Shape(s, c) && i < |s.threads|
    && var me := s.threads[i];
    match me.pc
    case Start => me.rounds < Limit(c, me.role) && t == Acquire(s, i, First(me.role), GotFirst, WaitFirst)
    case GotFirst => t == Acquire(s, i, MUTEX, Access, WaitMutex)
    case Access => t == Touch(s, i)
    case Bump => t == Advance(s, i)
    case Unlock => t == Release(s, i, MUTEX, me.(pc := Signal))
    case Signal => t == Release(s, i, Last(me.role), me.(pc := Start, rounds := me.rounds + 1))
    case WaitFirst => false
    case WaitMutex => false
  }

  // ---- what a semaphore accounts for ----

  predicate WaitsFor(t: Thread, k: nat) {
    (t.pc == WaitMutex && k == MUTEX) || (t.pc == WaitFirst && k == First(t.role))
  }

  predicate Before(pc: Pc) {
    pc == GotFirst || pc == WaitMutex || pc == Access
  }

  predicate After(pc: Pc) {
    pc == Bump || pc == Unlock || pc == Signal
  }

  predicate Inside(pc: Pc) {
    pc == Access || pc == Bump || pc == Unlock
  }

  /** Does the thread hold a unit of semaphore k? */
  predicate HoldsUnit(t: Thread, k: nat) {
    if k == MUTEX then Inside(t.pc)
    else if k == First(t.role) then Before(t.pc)
    else After(t.pc)
  }

  function Units(k: nat): Thread -> int {
    (t: Thread) => if HoldsUnit(t, k) then 1 else 0
  }

  /** What the free units and the held ones add up to: one turn, the slots without an unread item, the unread items. */
  function Supply(s: State, c: Config, k: nat): int {
    if k == MUTEX then 1 else if k == EMPTY then c.size - (|s.log| - |s.output|) else |s.log| - |s.output|
  }

  function Value(sem: SemState): int {
    if sem.count > 0 then sem.count else 0
  }

  ghost predicate SemInv(threads: seq<Thread>, sem: SemState, supply: int, k: nat) {
    && SemOk(sem) && NoDup(sem.queue)
    && (forall i: Task :: i in sem.queue <==> i < |threads| && WaitsFor(threads[i], k))
    && Value(sem) + Sum(threads, Units(k)) == supply
  }

  /** A thread moves without touching the semaphore; what it holds changes as much as the supply does. */
  lemma Move(threads: seq<Thread>, i: nat, x: Thread, sem: SemState, supply: int, supply': int, k: nat)
    requires i < |threads| && SemInv(threads, sem, supply, k)
    requires WaitsFor(threads[i], k) == WaitsFor(x, k)
    requires supply' - supply == Units(k)(x) - Units(k)(threads[i])
    ensures SemInv(threads[i := x], sem, supply', k)
  {
    hide WaitsFor, HoldsUnit, Sum;
    SumUpdate(threads, Units(k), i, x);
  }

  lemma AcquireUnit(threads: seq<Thread>, i: nat, got: Thread, wait: Thread, sem: SemState, supply: int, k: nat)
    requires i < |threads| && SemInv(threads, sem, supply, k)
    requires !WaitsFor(threads[i], k) && !HoldsUnit(threads[i], k)
    requires !WaitsFor(got, k) && HoldsUnit(got, k) && WaitsFor(wait, k) && !HoldsUnit(wait, k)
    ensures SemInv(threads[i := if sem.count > 0 then got else wait], Down(sem, i), supply, k)
  {
    hide WaitsFor, HoldsUnit, Sum;
    SumUpdate(threads, Units(k), i, if sem.count > 0 then got else wait);
    NoDupSnoc(sem.queue, i);
  }

  lemma WokenMoves(t: Thread, k: nat)
    requires WaitsFor(t, k)
    ensures !WaitsFor(Woken(t), k) && HoldsUnit(Woken(t), k) && !HoldsUnit(t, k)
    ensures forall l: nat :: l < 3 && l != k ==>
                WaitsFor(Woken(t), l) == WaitsFor(t, l) && HoldsUnit(Woken(t), l) == HoldsUnit(t, l)
  {
  }

  lemma ReleaseUnit(threads: seq<Thread>, i: nat, x: Thread, sem: SemState, supply: int, k: nat)
    requires i < |threads| && SemInv(threads, sem, supply, k)
    requires !WaitsFor(threads[i], k) && HoldsUnit(threads[i], k) && !WaitsFor(x, k) && !HoldsUnit(x, k)
    ensures SemInv(Wake(threads[i := x], sem.queue), Up(sem), supply, k)
  {
    hide WaitsFor, HoldsUnit, Sum, Woken;
    var q, moved := sem.queue, threads[i := x];
    SumUpdate(threads, Units(k), i, x);
    if q != [] {
      var h := q[0];
      assert h in q && h != i;
      WokenMoves(threads[h], k);
      SumUpdate(moved, Units(k), h, Woken(moved[h]));
      assert q == [h] + q[1..];
      NoDupSplit([h], q[1..]);
      assert h in [h];
      var woken := moved[h := Woken(moved[h])];
      forall j: Task ensures j in q[1..] <==> j < |woken| && WaitsFor(woken[j], k) {
        assert j in q <==> j == h || j in q[1..];
      }
    }
  }

  /** A hand-off on semaphore k leaves the others alone. */
  lemma ReleaseOther(threads: seq<Thread>, i: nat, x: Thread, sem: SemState, supply: int, k: nat, other: SemState,
                     supply': int, l: nat)
    requires i < |threads| && l < 3 && k != l
    requires SemInv(threads, sem, supply, k) && SemInv(threads, other, supply', l)
    requires !WaitsFor(threads[i], k)
    requires WaitsFor(threads[i], l) == WaitsFor(x, l) && HoldsUnit(threads[i], l) == HoldsUnit(x, l)
    ensures SemInv(Wake(threads[i := x], sem.queue), other, supply', l)
  {
    hide WaitsFor, HoldsUnit, Sum, Woken;
    var q, moved := sem.queue, threads[i := x];
    Move(threads, i, x, other, supply', supply', l);
    if q != [] {
      var h := q[0];
      assert h in q && h != i;
      WokenMoves(threads[h], k);
      Move(moved, h, Woken(moved[h]), other, supply', supply', l);
    }
  }

  // ---- the index variables ----

  predicate AtBump(t: Thread, role: Role) {
    t.role == role && t.pc == Bump
  }

  /** TAIL (FRONT) is the number of items stored (read) modulo the size, one
      behind while a thread is about to move it. */
  ghost predicate PtrOk(threads: seq<Thread>, role: Role, count: nat, ptr: nat, size: nat)
    requires size > 0
  {
    && (forall i: nat :: i < |threads| && AtBump(threads[i], role) ==> count > 0 && ptr == (count - 1) % size)
    && ((forall i: nat :: i < |threads| ==> !AtBump(threads[i], role)) ==> ptr == count % size)
  }

  /** BUFFER holds the items not read yet, each in its slot, and what was printed is what was stored first. */
  ghost predicate Ring(s: State, c: Config)
    requires Shape(s, c)
  {
    && |s.output| <= |s.log| && |s.log| - |s.output| <= c.size
    && s.output == s.log[..|s.output|]
    && forall k: nat :: |s.output| <= k < |s.log| ==> s.buffer[k % c.size] == s.log[k]
  }

  // ---- counting ----

  /** How often a thread has touched the buffer. */
  function Touches(t: Thread): nat {
    t.rounds + if After(t.pc) then 1 else 0
  }

  function TouchesAs(role: Role): Thread -> int {
    (t: Thread) => if t.role == role then Touches(t) else 0
  }

  ghost predicate Counted(s: State, c: Config)
    requires Shape(s, c)
  {
    && |s.log| == Sum(s.threads, TouchesAs(Producer))
    && |s.output| == Sum(s.threads, TouchesAs(Consumer))
    && forall i: nat :: i < c.producers ==> multiset(s.log)[i] == Touches(s.threads[i])
  }

  predicate RoundsOk(t: Thread, c: Config) {
    t.rounds <= Limit(c, t.role) && (t.pc != Start ==> t.rounds < Limit(c, t.role))
  }

  ghost predicate Inv(s: State, c: Config) {
    && Shape(s, c)
    && (forall k: nat :: k < 3 ==> SemInv(s.threads, s.sems[k], Supply(s, c, k), k))
    && PtrOk(s.threads, Producer, |s.log|, s.tail, c.size)
    && PtrOk(s.threads, Consumer, |s.output|, s.front, c.size)
    && Ring(s, c) && Counted(s, c)
    && (forall i: nat :: i < |s.threads| ==> RoundsOk(s.threads[i], c))
  }

  lemma InitInv(s: State, c: Config)
    requires Init(s, c)
    ensures Inv(s, c)
  {
    hide Sum, SemInv, Counted, PtrOk, RoundsOk;
    forall k: nat | k < 3 ensures SemInv(s.threads, s.sems[k], Supply(s, c, k), k) { InitSem(s, c, k); }
    InitRest(s, c);
  }

  lemma InitSem(s: State, c: Config, k: nat)
    requires Init(s, c) && k < 3
    ensures SemInv(s.threads, s.sems[k], Supply(s, c, k), k)
  {
    hide Sum;
    SumBounds(s.threads, Units(k), 0, 0);
  }

  lemma InitRest(s: State, c: Config)
    requires Init(s, c)
    ensures Shape(s, c) && Counted(s, c)
    ensures PtrOk(s.threads, Producer, |s.log|, s.tail, c.size)
    ensures PtrOk(s.threads, Consumer, |s.output|, s.front, c.size)
    ensures forall i: nat :: i < |s.threads| ==> RoundsOk(s.threads[i], c)
  {
    hide Sum;
    SumBounds(s.threads, TouchesAs(Producer), 0, 0);
    SumBounds(s.threads, TouchesAs(Consumer), 0, 0);
  }

  // ---- every step keeps the invariant ----

  /** Only one thread at a time is between its down and its up of the mutex. */
  lemma OneInside(s: State, c: Config, i: nat, j: nat)
    requires Inv(s, c) && i < |s.threads| && j < |s.threads| && Inside(s.threads[i].pc) && Inside(s.threads[j].pc)
    ensures i == j
  {
    hide Sum, Ring, Counted, PtrOk;
    assert SemInv(s.threads, s.sems[MUTEX], Supply(s, c, MUTEX), MUTEX);
    var w := Units(MUTEX);
    assert w(s.threads[i]) == 1 && w(s.threads[j]) == 1;
    if i < j { SumTwo(s.threads, w, i, j); }
    if j < i { SumTwo(s.threads, w, j, i); }
  }

  /** Whoever holds a unit of a semaphore is covered by its supply. */
  lemma UnitCovered(s: State, c: Config, i: nat, k: nat)
    requires Inv(s, c) && i < |s.threads| && k < 3 && HoldsUnit(s.threads[i], k)
    ensures Supply(s, c, k) >= 1
  {
    hide Sum, Ring, Counted, PtrOk, HoldsUnit, Supply;
    assert SemInv(s.threads, s.sems[k], Supply(s, c, k), k);
    SumOne(s.threads, Units(k), i);
  }

  lemma StepSems(s: State, t: State, i: nat, c: Config, k: nat)
    requires Inv(s, c) && Step(s, t, i, c) && k < 3
    ensures |t.sems| == 3 && SemInv(t.threads, t.sems[k], Supply(t, c, k), k)
  {
    hide SemInv, Ring, Counted, PtrOk, RoundsOk, Wake, Up, Down;
    var me := s.threads[i];
    assert SemInv(s.threads, s.sems[k], Supply(s, c, k), k);
    match me.pc
    case Start => AcquireSems(s, i, c, First(me.role), GotFirst, WaitFirst, k);
    case GotFirst => AcquireSems(s, i, c, MUTEX, Access, WaitMutex, k);
    case Access => Move(s.threads, i, me.(pc := Bump), s.sems[k], Supply(s, c, k), Supply(t, c, k), k);
    case Bump => Move(s.threads, i, me.(pc := Unlock), s.sems[k], Supply(s, c, k), Supply(t, c, k), k);
    case Unlock => ReleaseSems(s, i, c, MUTEX, me.(pc := Signal), k);
    case Signal => ReleaseSems(s, i, c, Last(me.role), me.(pc := Start, rounds := me.rounds + 1), k);
  }

  lemma AcquireSems(s: State, i: nat, c: Config, l: nat, got: Pc, wait: Pc, k: nat)
    requires i < |s.threads| && |s.sems| == 3 && k < 3 && l < 3
    requires SemInv(s.threads, s.sems[k], Supply(s, c, k), k)
    requires var me := s.threads[i];
             (me.pc == Start && l == First(me.role) && got == GotFirst && wait == WaitFirst)
             || (me.pc == GotFirst && l == MUTEX && got == Access && wait == WaitMutex)
    ensures var t := Acquire(s, i, l, got, wait); SemInv(t.threads, t.sems[k], Supply(t, c, k), k)
  {
    hide SemInv, Down;
    var me := s.threads[i];
    if k == l {
      AcquireUnit(s.threads, i, me.(pc := got), me.(pc := wait), s.sems[k], Supply(s, c, k), k);
    } else {
      Move(s.threads, i, me.(pc := if s.sems[l].count > 0 then got else wait), s.sems[k], Supply(s, c, k),
           Supply(s, c, k), k);
    }
  }

  lemma ReleaseSems(s: State, i: nat, c: Config, l: nat, next: Thread, k: nat)
    requires i < |s.threads| && |s.sems| == 3 && k < 3 && l < 3
    requires forall t :: t in s.sems[l].queue ==> t < |s.threads|
    requires SemInv(s.threads, s.sems[k], Supply(s, c, k), k) && SemInv(s.threads, s.sems[l], Supply(s, c, l), l)
    requires var me := s.threads[i];
             (me.pc == Unlock && l == MUTEX && next == me.(pc := Signal))
             || (me.pc == Signal && l == Last(me.role) && next == me.(pc := Start, rounds := me.rounds + 1))
    ensures var t := Release(s, i, l, next); SemInv(t.threads, t.sems[k], Supply(t, c, k), k)
  {
    hide SemInv, Up, Wake;
    if k == l {
      ReleaseUnit(s.threads, i, next, s.sems[k], Supply(s, c, k), k);
    } else {
      ReleaseOther(s.threads, i, next, s.sems[l], Supply(s, c, l), l, s.sems[k], Supply(s, c, k), k);
    }
  }

  /** How a thread's own step moves it. */
  ghost predicate Moves(a: Thread, b: Thread) {
    match a.pc
    case Start => b == a.(pc := GotFirst) || b == a.(pc := WaitFirst)
    case GotFirst => b == a.(pc := Access) || b == a.(pc := WaitMutex)
    case Access => b == a.(pc := Bump)
    case Bump => b == a.(pc := Unlock)
    case Unlock => b == a.(pc := Signal)
    case Signal => b == a.(pc := Start, rounds := a.rounds + 1)
    case WaitFirst => false
    case WaitMutex => false
  }

  predicate Waits(t: Thread) {
    t.pc == WaitFirst || t.pc == WaitMutex
  }

  lemma StepThreads(s: State, t: State, i: nat, c: Config)
    requires Inv(s, c) && Step(s, t, i, c)
    ensures |t.threads| == |s.threads| && Moves(s.threads[i], t.threads[i])
    ensures forall j: nat :: j < |s.threads| && j != i ==>
              t.threads[j] == s.threads[j] || (Waits(s.threads[j]) && t.threads[j] == Woken(s.threads[j]))
  {
    hide SemInv, Ring, Counted, PtrOk, RoundsOk, Up, Down, Woken, Wake;
    var me := s.threads[i];
    if me.pc == Unlock { WakeMoves(s, i, c, MUTEX, me.(pc := Signal)); }
    if me.pc == Signal { WakeMoves(s, i, c, Last(me.role), me.(pc := Start, rounds := me.rounds + 1)); }
  }

  lemma WakeMoves(s: State, i: nat, c: Config, k: nat, next: Thread)
    requires Inv(s, c) && i < |s.threads| && k < 3 && !Waits(s.threads[i])
    ensures var threads := Wake(s.threads[i := next], s.sems[k].queue);
            && |threads| == |s.threads| && threads[i] == next
            && forall j: nat :: j < |threads| && j != i ==>
                 threads[j] == s.threads[j] || (Waits(s.threads[j]) && threads[j] == Woken(s.threads[j]))
  {
    hide Ring, Counted, PtrOk, RoundsOk, Woken, Supply, Sum;
    assert SemInv(s.threads, s.sems[k], Supply(s, c, k), k);
    var q := s.sems[k].queue;
    if q != [] { assert q[0] in q && WaitsFor(s.threads[q[0]], k); }
  }

  lemma StepShape(s: State, t: State, i: nat, c: Config)
    requires Inv(s, c) && Step(s, t, i, c)
    ensures Shape(t, c) && forall j: nat :: j < |t.threads| ==> RoundsOk(t.threads[j], c)
  {
    hide SemInv, Ring, Counted, PtrOk, RoundsOk, Up, Down, Woken, Wake;
    StepThreads(s, t, i, c);
    assert |t.buffer| == c.size && t.tail < c.size && t.front < c.size && |t.sems| == 3;
    hide Step;
    forall k: nat | k < 3 ensures forall h :: h in t.sems[k].queue ==> h < |t.threads| {
      StepSems(s, t, i, c, k);
      QueueBelow(t.threads, t.sems[k], Supply(t, c, k), k);
    }
    forall j: nat | j < |t.threads| ensures RoundsOk(t.threads[j], c) && t.threads[j].role == s.threads[j].role {
      RoundsKept(s.threads[j], t.threads[j], c);
    }
  }

  lemma QueueBelow(threads: seq<Thread>, sem: SemState, supply: int, k: nat)
    requires SemInv(threads, sem, supply, k)
    ensures forall h :: h in sem.queue ==> h < |threads|
  {
  }

  lemma RoundsKept(a: Thread, b: Thread, c: Config)
    requires RoundsOk(a, c)
    requires Moves(a, b) || b == a || (Waits(a) && b == Woken(a))
    requires a.pc == Start && b.pc != Start ==> a.rounds < Limit(c, a.role)
    ensures RoundsOk(b, c) && b.role == a.role
  {
  }

  lemma NextIndex(count: nat, size: nat)
    requires size > 0 && count > 0
    ensures ((count - 1) % size + 1) % size == count % size
  {
    var q, r := (count - 1) / size, (count - 1) % size;
    assert count == q * size + (r + 1);
    if r + 1 < size {
      ModOf(q, r + 1, count, size);
    } else {
      assert count == (q + 1) * size;
      ModOf(q + 1, 0, count, size);
      ModOf(1, 0, r + 1, size);
    }
  }

  lemma ModOf(q: int, r: nat, x: nat, size: nat)
    requires r < size && x == q * size + r
    ensures x % size == r
  {
    var d := q - x / size;
    assert d * size == x % size - r;
    Times(d, size);
  }

  lemma Times(d: int, size: nat)
    ensures d >= 1 ==> d * size >= size
    ensures d <= 0 ==> d * size <= 0
    ensures d <= -1 ==> d * size <= -(size as int)
  {
    if d <= -1 { assert d * size == (d + 1) * size - size; }
  }

  lemma StepPtr(s: State, t: State, i: nat, c: Config, role: Role)
    requires Inv(s, c) && Step(s, t, i, c)
    ensures role == Producer ==> PtrOk(t.threads, role, |t.log|, t.tail, c.size)
    ensures role == Consumer ==> PtrOk(t.threads, role, |t.output|, t.front, c.size)
  {
    hide SemInv, Ring, Counted, RoundsOk, Up, Down, Wake;
    StepThreads(s, t, i, c);
    var me := s.threads[i];
    var count, ptr := if role == Producer then |s.log| else |s.output|, if role == Producer then s.tail else s.front;
    assert PtrOk(s.threads, role, count, ptr, c.size);
    hide PtrOk, Woken, Moves;
    if me.pc == Access && me.role == role {
      forall j: nat | j < |s.threads| ensures !AtBump(s.threads[j], role) && (AtBump(t.threads[j], role) ==> j == i) {
        if Inside(s.threads[j].pc) { OneInside(s, c, i, j); }
      }
      hide Inv, Step;
      PtrAccess(s.threads, t.threads, i, role, count, ptr, c.size);
    } else if me.pc == Bump && me.role == role {
      forall j: nat | j < |s.threads| ensures !AtBump(t.threads[j], role) {
        if Inside(s.threads[j].pc) { OneInside(s, c, i, j); }
      }
      PtrBump(s.threads, t.threads, i, role, count, ptr, c.size);
    } else {
      PtrSame(s.threads, t.threads, i, role, count, ptr, c.size);
    }
  }

  lemma PtrAccess(threads: seq<Thread>, threads': seq<Thread>, i: nat, role: Role, count: nat, ptr: nat, size: nat)
    requires size > 0 && i < |threads| == |threads'| && PtrOk(threads, role, count, ptr, size)
    requires AtBump(threads'[i], role)
    requires forall j: nat :: j < |threads| ==> !AtBump(threads[j], role) && (AtBump(threads'[j], role) ==> j == i)
    ensures PtrOk(threads', role, count + 1, ptr, size)
  {
    hide AtBump;
  }

  lemma PtrBump(threads: seq<Thread>, threads': seq<Thread>, i: nat, role: Role, count: nat, ptr: nat, size: nat)
    requires size > 0 && i < |threads| == |threads'| && PtrOk(threads, role, count, ptr, size)
    requires AtBump(threads[i], role)
    requires forall j: nat :: j < |threads'| ==> !AtBump(threads'[j], role)
    ensures PtrOk(threads', role, count, (ptr + 1) % size, size)
  {
    hide AtBump;
    NextIndex(count, size);
  }

  lemma PtrSame(threads: seq<Thread>, threads': seq<Thread>, i: nat, role: Role, count: nat, ptr: nat, size: nat)
    requires size > 0 && i < |threads| == |threads'| && PtrOk(threads, role, count, ptr, size)
    requires Moves(threads[i], threads'[i])
    requires (threads[i].pc == Access || threads[i].pc == Bump ==> threads[i].role != role)
    requires forall j: nat :: j < |threads| && j != i ==>
               threads'[j] == threads[j] || (Waits(threads[j]) && threads'[j] == Woken(threads[j]))
    ensures PtrOk(threads', role, count, ptr, size)
  {
    forall j: nat | j < |threads| ensures AtBump(threads[j], role) == AtBump(threads'[j], role) { }
    hide AtBump, Moves;
  }

  // ---- the ring ----

  /** Two numbers less than `size` apart fall on different slots. */
  lemma SlotsApart(j: nat, k: nat, size: nat)
    requires j < k < j + size
    ensures j % size != k % size
  {
    var d := k / size - j / size;
    assert d * size == k - j - (k % size - j % size);
    Times(d, size);
  }

  /** The slot a producer writes holds no unread item. */
  lemma NoOverwrite(s: State, c: Config, i: nat, k: nat)
    requires Inv(s, c) && i < c.producers && s.threads[i].pc == Access && |s.output| <= k < |s.log|
    ensures k % c.size != s.tail && |s.log| - |s.output| < c.size
  {
    hide SemInv, Counted, RoundsOk;
    UnitCovered(s, c, i, EMPTY);
    IndexAt(s, c, i);
    SlotsApart(k, |s.log|, c.size);
  }

  /** The thread at the slot finds its index where the count says. */
  lemma IndexAt(s: State, c: Config, i: nat)
    requires Inv(s, c) && i < |s.threads| && s.threads[i].pc == Access
    ensures i < c.producers ==> s.tail == |s.log| % c.size
    ensures i >= c.producers ==> s.front == |s.output| % c.size
  {
    hide SemInv, Counted, RoundsOk, Ring;
    var role := s.threads[i].role;
    forall j: nat | j < |s.threads| ensures !AtBump(s.threads[j], role) {
      if Inside(s.threads[j].pc) { OneInside(s, c, i, j); }
    }
  }

  lemma StepRing(s: State, t: State, i: nat, c: Config)
    requires Inv(s, c) && Step(s, t, i, c) && Shape(t, c)
    ensures Ring(t, c)
  {
    hide SemInv, Counted, RoundsOk, PtrOk, Up, Down, Wake;
    if s.threads[i].pc == Access {
      IndexAt(s, c, i);
      if i < c.producers {
        UnitCovered(s, c, i, EMPTY);
        forall k: nat | |s.output| <= k < |s.log| ensures k % c.size != s.tail { NoOverwrite(s, c, i, k); }
        hide Step, Inv;
        RingPut(s, t, i, c);
      } else {
        UnitCovered(s, c, i, AVAIL);
        assert t.output == s.output + [s.log[|s.output|]];
      }
    }
  }

  lemma RingPut(s: State, t: State, i: nat, c: Config)
    requires Shape(s, c) && Shape(t, c) && Ring(s, c)
    requires t.log == s.log + [i] && t.output == s.output && t.buffer == s.buffer[s.tail := i]
    requires s.tail == |s.log| % c.size && |s.log| - |s.output| < c.size
    requires forall k: nat :: |s.output| <= k < |s.log| ==> k % c.size != s.tail
    ensures Ring(t, c)
  {
  }

  // ---- the counts ----

  lemma StepCounted(s: State, t: State, i: nat, c: Config)
    requires Inv(s, c) && Step(s, t, i, c) && Shape(t, c)
    ensures Counted(t, c)
  {
    hide SemInv, RoundsOk, PtrOk, Ring, Counted, Up, Down, Wake, Woken, Waits, Moves;
    StepThreads(s, t, i, c);
    if s.threads[i].pc == Access {
      AccessCounted(s, t, i, c);
    } else {
      assert t.log == s.log && t.output == s.output;
      hide Step, Inv;
      OtherCounted(s, t, i, c);
    }
  }

  lemma AccessCounted(s: State, t: State, i: nat, c: Config)
    requires Shape(s, c) && Shape(t, c) && Counted(s, c) && i < |s.threads| && s.threads[i].pc == Access
    requires t == Touch(s, i)
    ensures Counted(t, c)
  {
    hide Sum, Touches, After;
    var x := t.threads[i];
    assert Touches(x) == Touches(s.threads[i]) + 1 by { TouchesOnce(s.threads[i], x); }
    SumUpdate(s.threads, TouchesAs(Producer), i, x);
    SumUpdate(s.threads, TouchesAs(Consumer), i, x);
  }

  lemma OtherCounted(s: State, t: State, i: nat, c: Config)
    requires Shape(s, c) && Shape(t, c) && Counted(s, c) && i < |s.threads| && s.threads[i].pc != Access
    requires t.log == s.log && t.output == s.output && Moves(s.threads[i], t.threads[i])
    requires forall j: nat :: j < |s.threads| && j != i ==>
               t.threads[j] == s.threads[j] || (Waits(s.threads[j]) && t.threads[j] == Woken(s.threads[j]))
    ensures Counted(t, c)
  {
    hide Sum, Touches, Woken, Waits, Moves;
    forall j: nat | j < |s.threads|
      ensures Touches(t.threads[j]) == Touches(s.threads[j]) && t.threads[j].role == s.threads[j].role
    {
      TouchesSame(s.threads[j], t.threads[j]);
    }
    SumAtMost(s.threads, t.threads, TouchesAs(Producer));
    SumAtMost(t.threads, s.threads, TouchesAs(Producer));
    SumAtMost(s.threads, t.threads, TouchesAs(Consumer));
    SumAtMost(t.threads, s.threads, TouchesAs(Consumer));
  }

  lemma TouchesOnce(a: Thread, b: Thread)
    requires Moves(a, b) && a.pc == Access
    ensures Touches(b) == Touches(a) + 1 && a.role == b.role
  {
  }

  lemma TouchesSame(a: Thread, b: Thread)
    requires (Moves(a, b) && a.pc != Access) || b == a || (Waits(a) && b == Woken(a))
    ensures Touches(a) == Touches(b) && a.role == b.role
  {
  }

  lemma StepKeeps(s: State, t: State, i: nat, c: Config)
    requires Inv(s, c) && Step(s, t, i, c)
    ensures Inv(t, c)
  {
    hide Step, Ring, Counted, RoundsOk, PtrOk, SemInv;
    StepShape(s, t, i, c);
    forall k: nat | k < 3 ensures SemInv(t.threads, t.sems[k], Supply(t, c, k), k) { StepSems(s, t, i, c, k); }
    StepPtr(s, t, i, c, Producer);
    StepPtr(s, t, i, c, Consumer);
    StepRing(s, t, i, c);
    StepCounted(s, t, i, c);
  }

  // ---- runs ----

  ghost predicate IsRun(run: seq<State>, who: seq<nat>, c: Config) {
    && |run| == |who| + 1 && Init(run[0], c)
    && forall k: nat :: k < |who| ==> Step(run[k], run[k + 1], who[k], c)
  }

  lemma {:induction false} RunKeeps(run: seq<State>, who: seq<nat>, c: Config, k: nat)
    requires IsRun(run, who, c) && k < |run|
    ensures Inv(run[k], c)
  {
    hide Step, Inv, Init;
    if k > 0 {
      RunKeeps(run, who, c, k - 1);
      StepKeeps(run[k - 1], run[k], who[k - 1], c);
    } else {
      InitInv(run[0], c);
    }
  }

  /** The unread items, oldest first, as they lie in the ring. */
  function Unread(s: State, c: Config): seq<nat>
    requires Shape(s, c) && |s.output| <= |s.log|
  {
    seq(|s.log| - |s.output|, k requires 0 <= k < |s.log| - |s.output| => s.buffer[(|s.output| + k) % c.size])
  }

  /** In every run, what was printed followed by the unread slots is what the producers stored, in their order, and no
      store ever hits an unread slot. */
  lemma NothingLost(run: seq<State>, who: seq<nat>, c: Config, k: nat)
    requires IsRun(run, who, c) && k < |run|
    ensures Shape(run[k], c) && |run[k].output| <= |run[k].log|
    ensures run[k].output + Unread(run[k], c) == run[k].log && |Unread(run[k], c)| <= c.size
    ensures k < |who| && who[k] < c.producers && run[k].threads[who[k]].pc == Access ==>
              forall j: nat :: |run[k].output| <= j < |run[k].log| ==> j % c.size != run[k].tail
  {
    hide IsRun, SemInv, PtrOk, Counted, RoundsOk;
    RunKeeps(run, who, c, k);
    var s := run[k];
    var u := Unread(s, c);
    forall j: nat | j < |s.log| ensures (s.output + u)[j] == s.log[j] {
      if j >= |s.output| { assert u[j - |s.output|] == s.buffer[j % c.size]; }
    }
    if k < |who| && who[k] < c.producers && s.threads[who[k]].pc == Access {
      forall j: nat | |s.output| <= j < |s.log| ensures j % c.size != s.tail { NoOverwrite(s, c, who[k], j); }
    }
  }

  predicate Done(t: Thread, c: Config) {
    t.pc == Start && t.rounds == Limit(c, t.role)
  }

  /** With every thread done or waiting, nobody waits for the mutex, since its holder would be neither. */
  lemma MutexFree(s: State, c: Config, i: nat)
    requires Inv(s, c) && i < |s.threads|
    requires forall j: nat :: j < |s.threads| ==> Done(s.threads[j], c) || Waits(s.threads[j])
    ensures s.threads[i].pc != WaitMutex
  {
    hide Sum, Ring, Counted, PtrOk, RoundsOk;
    assert SemInv(s.threads, s.sems[MUTEX], Supply(s, c, MUTEX), MUTEX);
    SumBounds(s.threads, Units(MUTEX), 0, 0);
  }

  /** With every thread done or waiting, the two counting semaphores split the ring between them. */
  lemma RingSplit(s: State, c: Config)
    requires Inv(s, c)
    requires forall j: nat :: j < |s.threads| ==> Done(s.threads[j], c) || Waits(s.threads[j])
    ensures Value(s.sems[EMPTY]) == c.size - (|s.log| - |s.output|) && Value(s.sems[AVAIL]) == |s.log| - |s.output|
    ensures forall i: nat :: i < |s.threads| && Waits(s.threads[i]) ==> Value(s.sems[First(s.threads[i].role)]) == 0
  {
    hide Sum, Ring, Counted, PtrOk, RoundsOk, SemInv, Value;
    forall i: nat | i < |s.threads| ensures s.threads[i].pc != WaitMutex { MutexFree(s, c, i); }
    AllFree(s.threads, s.sems[EMPTY], Supply(s, c, EMPTY), EMPTY);
    AllFree(s.threads, s.sems[AVAIL], Supply(s, c, AVAIL), AVAIL);
    forall i: nat | i < |s.threads| && Waits(s.threads[i]) ensures Value(s.sems[First(s.threads[i].role)]) == 0 {
      var k := First(s.threads[i].role);
      NoneFree(s.threads, s.sems[k], Supply(s, c, k), k, i);
    }
  }

  lemma AllFree(threads: seq<Thread>, sem: SemState, supply: int, k: nat)
    requires SemInv(threads, sem, supply, k) && forall i: nat :: i < |threads| ==> !HoldsUnit(threads[i], k)
    ensures Value(sem) == supply
  {
    hide Sum, HoldsUnit;
    SumBounds(threads, Units(k), 0, 0);
  }

  lemma NoneFree(threads: seq<Thread>, sem: SemState, supply: int, k: nat, i: nat)
    requires SemInv(threads, sem, supply, k) && i < |threads| && WaitsFor(threads[i], k)
    ensures Value(sem) == 0
  {
    assert i in sem.queue;
  }

  /** How many items were stored and read when nobody is past its slot. */
  lemma Stored(s: State, c: Config)
    requires Inv(s, c)
    requires forall j: nat :: j < |s.threads| ==> !After(s.threads[j].pc)
    ensures |s.output| == s.threads[c.producers].rounds
    ensures |s.log| <= c.producers * c.items
    ensures (forall j: nat :: j < c.producers ==> s.threads[j].rounds == c.items) ==> |s.log| == c.producers * c.items
    ensures (exists j: nat :: j < c.producers && s.threads[j].rounds < c.items) ==> |s.log| < c.producers * c.items
  {
    hide SemInv, Ring, PtrOk;
    var p, w := s.threads[..c.producers], TouchesAs(Producer);
    assert Sum(s.threads, w) == Sum(p, w);
    SumBounds(p, TouchesAs(Consumer), 0, 0);
    assert forall j: nat :: j < |p| ==> RoundsOk(p[j], c) && p[j] == s.threads[j];
    hide Inv, Counted, Sum;
    StoredBy(p, c);
  }

  lemma StoredBy(p: seq<Thread>, c: Config)
    requires |p| == c.producers
    requires forall j: nat :: j < |p| ==> RoundsOk(p[j], c) && p[j].role == Producer && !After(p[j].pc)
    ensures Sum(p, TouchesAs(Producer)) <= c.producers * c.items
    ensures (forall j: nat :: j < |p| ==> p[j].rounds == c.items) ==>
                Sum(p, TouchesAs(Producer)) == c.producers * c.items
    ensures (exists j: nat :: j < |p| && p[j].rounds < c.items) ==> Sum(p, TouchesAs(Producer)) < c.producers * c.items
  {
    hide Sum, After;
    var w := TouchesAs(Producer);
    SumBounds(p, w, 0, c.items);
    if forall j: nat :: j < |p| ==> p[j].rounds == c.items { SumBounds(p, w, c.items, c.items); }
    if j: nat :| j < |p| && p[j].rounds < c.items {
      var full := p[j := p[j].(rounds := p[j].rounds + 1)];
      SumUpdate(p, w, j, full[j]);
      SumBounds(full, w, 0, c.items);
    }
  }

  /** No deadlock: a state in which every thread is done or waits is one in which all are done. */
  lemma NoneStuck(s: State, c: Config)
    requires Inv(s, c)
    requires forall j: nat :: j < |s.threads| ==> Done(s.threads[j], c) || Waits(s.threads[j])
    ensures forall j: nat :: j < |s.threads| ==> Done(s.threads[j], c)
  {
    RingSplit(s, c);
    Stored(s, c);
    hide SemInv, Counted, PtrOk, Value;
    var last := s.threads[c.producers];
    assert RoundsOk(last, c);
    if j: nat :| j < c.producers && Waits(s.threads[j]) {
      assert false;
    }
    if Waits(last) {
      assert false;
    }
  }

  lemma CanStep(s: State, i: nat, c: Config)
    requires Inv(s, c) && i < |s.threads| && !Done(s.threads[i], c) && !Waits(s.threads[i])
    ensures exists t: State :: Step(s, t, i, c)
  {
    hide SemInv, Ring, Counted, PtrOk;
    var me := s.threads[i];
    var t := if me.pc == Start then Acquire(s, i, First(me.role), GotFirst, WaitFirst)
             else if me.pc == GotFirst then Acquire(s, i, MUTEX, Access, WaitMutex)
             else if me.pc == Access then Touch(s, i)
             else if me.pc == Bump then Advance(s, i)
             else if me.pc == Unlock then Release(s, i, MUTEX, me.(pc := Signal))
             else Release(s, i, Last(me.role), me.(pc := Start, rounds := me.rounds + 1));
    assert RoundsOk(me, c);
    assert Step(s, t, i, c);
  }

  /** A run that cannot go on has printed every item, each producer's exactly as often as it was to produce it. */
  lemma AllDelivered(run: seq<State>, who: seq<nat>, c: Config)
    requires IsRun(run, who, c)
    requires !exists i: nat, t: State :: Step(run[|who|], t, i, c)
    ensures Shape(run[|who|], c) && forall j: nat :: j < |run[|who|].threads| ==> Done(run[|who|].threads[j], c)
    ensures run[|who|].output == run[|who|].log && |run[|who|].output| == c.producers * c.items
    ensures forall j: nat :: j < c.producers ==> multiset(run[|who|].output)[j] == c.items
  {
    assert |run| == |who| + 1;
    hide Step, IsRun, SemInv, PtrOk, RoundsOk;
    RunKeeps(run, who, c, |who|);
    var s := run[|who|];
    forall j: nat | j < |s.threads| ensures Done(s.threads[j], c) || Waits(s.threads[j]) {
      if !Done(s.threads[j], c) && !Waits(s.threads[j]) { CanStep(s, j, c); }
    }
    NoneStuck(s, c);
    Stored(s, c);
    assert s.output == s.log;
  }

  // ---- every run ends ----

  function Rank(pc: Pc): nat {
    match pc
    case Start => 0
    case WaitFirst => 1
    case GotFirst => 2
    case WaitMutex => 3
    case Access => 4
    case Bump => 5
    case Unlock => 6
    case Signal => 7
  }

  function Ahead(c: Config): Thread -> int {
    (t: Thread) => 8 * (Limit(c, t.role) - t.rounds) - Rank(t.pc)
  }

  lemma MoveSpends(a: Thread, b: Thread, c: Config)
    ensures Moves(a, b) ==> Ahead(c)(b) < Ahead(c)(a)
    ensures Waits(a) && b == Woken(a) ==> Ahead(c)(b) < Ahead(c)(a)
  {
  }

  lemma StepSpends(s: State, t: State, i: nat, c: Config)
    requires Inv(s, c) && Step(s, t, i, c)
    ensures Sum(t.threads, Ahead(c)) < Sum(s.threads, Ahead(c))
  {
    StepThreads(s, t, i, c);
    hide Inv, Step, Sum, Ahead, Moves, Woken, Waits;
    forall j: nat | j < |s.threads|
      ensures Ahead(c)(t.threads[j]) <= Ahead(c)(s.threads[j])
      ensures (j == i ==> Ahead(c)(t.threads[j]) < Ahead(c)(s.threads[j]))
    {
      MoveSpends(s.threads[j], t.threads[j], c);
    }
    SumLess(t.threads, s.threads, Ahead(c), i);
  }

  lemma {:induction false} Spent(run: seq<State>, who: seq<nat>, c: Config, k: nat)
    requires IsRun(run, who, c) && k < |run|
    ensures Sum(run[k].threads, Ahead(c)) <= Sum(run[0].threads, Ahead(c)) - k
  {
    hide Step, Inv, Sum, Init;
    if k > 0 {
      Spent(run, who, c, k - 1);
      RunKeeps(run, who, c, k - 1);
      StepSpends(run[k - 1], run[k], who[k - 1], c);
    }
  }

  /** No run goes on for ever: eight steps at most for each item put in and each taken out. */
  lemma RunsEnd(run: seq<State>, who: seq<nat>, c: Config)
    requires IsRun(run, who, c)
    ensures |who| <= 16 * c.producers * c.items
  {
    hide Step, Sum, SemInv, PtrOk, Ring, Counted;
    Spent(run, who, c, |who|);
    RunKeeps(run, who, c, |who|);
    var end, start, w := run[|who|].threads, run[0].threads, Ahead(c);
    forall j: nat | j < |end| ensures w(end[j]) >= 0 { assert RoundsOk(end[j], c); }
    SumOne(end, w, 0);
    StartSum(start, c);
  }

  lemma StartSum(start: seq<Thread>, c: Config)
    requires |start| == c.producers + 1
    requires forall i :: 0 <= i < |start| ==>
                 start[i] == Thread(if i < c.producers then Producer else Consumer, Start, 0)
    ensures Sum(start, Ahead(c)) == 16 * c.producers * c.items
  {
    var p := start[..c.producers];
    SumBounds(p, Ahead(c), 8 * c.items, 8 * c.items);
    assert Sum(start, Ahead(c)) == Sum(p, Ahead(c)) + Ahead(c)(start[c.producers]);
    assert 8 * c.items * |p| == 8 * (c.producers * c.items);
  }
}
