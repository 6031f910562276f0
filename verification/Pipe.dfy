/** os/src/fs/pipe.rs: the 32-byte ring buffer, and any number of blocking reads and writes on it. */
module Pipe {
  import opened Basics

  const RING_BUFFER_SIZE := 32

  datatype Status = Full | Empty | Normal

  /** What one pass of the loop in `read` or `write` ends with. */
  datatype Outcome = Return | Yield | Again

  class PipeRingBuffer {
    const arr: array<byte>
    var head: nat
    var tail: nat
    var status: Status

    constructor ()
      ensures Valid() && fresh(arr) && Contents() == []
    {
      arr := new byte[32](i => 0);
      head, tail, status := 0, 0, Empty;
    }

    /** Head and tail meet exactly when the buffer is empty or full. */
    ghost predicate Valid()
      reads this
    {
      && arr.Length == 32 && head < 32 && tail < 32
      && (head == tail <==> status != Normal)
    }

    /** The number of bytes queued, as head, tail and status encode it. */
    ghost function Length(): (n: nat)
      requires Valid()
      reads this
      ensures n <= 32 && tail == Wrap(head + n)
    {
      if status == Empty then 0 else if tail > head then tail - head else tail + 32 - head
    }

    /** The queue of bytes. */
    ghost function Contents(): (s: seq<byte>)
      requires Valid()
      reads this, arr
      ensures |s| == Length()
    {
      Ring(arr[..], head, Length())
    }

    method ReadByte() returns (c: byte)
      requires Valid() && Contents() != []
      modifies `head, `status
      ensures Valid() && [c] + Contents() == old(Contents())
    {
      hide Ring;
      RingHead(arr[..], head, Length());
      status := Normal;
      c := arr[head];
      head := (head + 1) % RING_BUFFER_SIZE;
      if head == tail { status := Empty; }
    }

    method WriteByte(b: byte)
      requires Valid() && |Contents()| < 32
      modifies `tail, `status, arr
      ensures Valid() && Contents() == old(Contents()) + [b]
    {
      hide Ring;
      RingSnoc(arr[..], head, Length(), b);
      status := Normal;
      arr[tail] := b;
      tail := (tail + 1) % RING_BUFFER_SIZE;
      if head == tail { status := Full; }
      assert arr[..] == old(arr[..])[old(tail) := b];
    }

    method AvailableRead() returns (n: nat)
      requires Valid()
      ensures n == |Contents()|
    {
      if status == Empty { n := 0; }
      else if tail > head { n := tail - head; }
      else { n := tail + RING_BUFFER_SIZE - head; }
    }

    method AvailableWrite() returns (n: nat)
      requires Valid()
      ensures n == 32 - |Contents()|
    {
      if status == Full { n := 0; }
      else {
        var r := AvailableRead();
        n := RING_BUFFER_SIZE - r;
      }
    }

    /** One pass of the loop in `Pipe::read`: take what there is, as far as it is wanted. */
    method ReadPass(want: nat, got: seq<byte>, closed: bool) returns (got': seq<byte>, out: Outcome)
      requires Valid() && |got| <= want
      modifies `head, `status
      ensures Valid() && (Contents(), got', out) == ReadSpec(old(Contents()), want, got, closed)
    {
      hide Ring, ReadSpec, Contents;
      got' := got;
      ghost var q := Contents();
      ReadIs(q, want, got, closed);
      var loopRead := AvailableRead();
      if loopRead == 0 {
        out := if closed then Return else Yield;
        return;
      }
      var i := 0;
      while i < loopRead
        invariant i <= loopRead == |q| && Valid()
        invariant |got'| <= want && |got'| == |got| + i && got' == got + q[..i]
        invariant Contents() == q[i..]
        invariant i > 0 ==> |got'| < want
      {
        if |got'| < want {
          var c := ReadByte();
          ReadNext(q, got, i, c, Contents());
          got' := got' + [c];
          if |got'| == want { return got', Return; }
        } else {
          return got', Return;
        }
        i := i + 1;
      }
      out := Again;
    }

    /** One pass of the loop in `Pipe::write`: add what fits. */
    method WritePass(buf: seq<byte>, pos: nat) returns (pos': nat, out: Outcome)
      requires Valid() && pos <= |buf|
      modifies `tail, `status, arr
      ensures Valid() && (Contents(), pos', out) == WriteSpec(old(Contents()), buf, pos)
    {
      hide Ring;
      pos' := pos;
      ghost var q := Contents();
      var loopWrite := AvailableWrite();
      if loopWrite == 0 { return pos, Yield; }
      var i := 0;
      while i < loopWrite
        invariant i <= loopWrite == 32 - |q| && Valid()
        invariant pos' == pos + i <= |buf| && Contents() == q + buf[pos..pos']
        invariant i > 0 ==> pos' < |buf|
      {
        if pos' < |buf| {
          WriteByte(buf[pos']);
          assert buf[pos..pos' + 1] == buf[pos..pos'] + [buf[pos']];
          pos' := pos' + 1;
          assert Contents() == q + buf[pos..pos'];
          if pos' == |buf| {
            assert Min(32 - |q|, |buf| - pos) == i + 1;
            return pos', Return;
          }
        } else {
          return pos', Return;
        }
        i := i + 1;
      }
      out := Again;
    }
  }

  function Wrap(i: nat): nat {
    if i < 32 then i else i - 32
  }

  /** n bytes from position head, around the end of the array. */
  function Ring(a: seq<byte>, head: nat, n: nat): (s: seq<byte>)
    requires |a| == 32 && head < 32 && n <= 32
    ensures |s| == n
  {
    if head + n <= 32 then a[head..head + n] else a[head..] + a[..head + n - 32]
  }

  lemma RingHead(a: seq<byte>, head: nat, n: nat)
    requires |a| == 32 && head < 32 && 0 < n <= 32
    ensures [a[head]] + Ring(a, Wrap(head + 1), n - 1) == Ring(a, head, n)
  {
    hide Ring;
    var s, t := Ring(a, Wrap(head + 1), n - 1), Ring(a, head, n);
    forall k: nat | k < n ensures ([a[head]] + s)[k] == t[k] {
      RingAt(a, head, n, k);
      if k > 0 { RingAt(a, Wrap(head + 1), n - 1, k - 1); }
    }
  }

  lemma RingAt(a: seq<byte>, head: nat, n: nat, k: nat)
    requires |a| == 32 && head < 32 && k < n <= 32
    ensures Ring(a, head, n)[k] == a[Wrap(head + k)]
  {
  }

  lemma RingSnoc(a: seq<byte>, head: nat, n: nat, b: byte)
    requires |a| == 32 && head < 32 && n < 32
    ensures Ring(a[Wrap(head + n) := b], head, n + 1) == Ring(a, head, n) + [b]
  {
    hide Ring;
    var a' := a[Wrap(head + n) := b];
    var s, t := Ring(a, head, n) + [b], Ring(a', head, n + 1);
    forall k: nat | k <= n ensures s[k] == t[k] {
      RingAt(a', head, n + 1, k);
      if k < n { RingAt(a, head, n, k); }
    }
  }

  function ReadSpec(q: seq<byte>, want: nat, got: seq<byte>, closed: bool): (seq<byte>, seq<byte>, Outcome)
    requires |got| <= want
  {
    if q == [] then (q, got, if closed then Return else Yield)
    else
      var n := Min(|q|, want - |got|);
      (q[n..], got + q[..n], if |got| + n == want then Return else Again)
  }

  lemma ReadIs(q: seq<byte>, want: nat, got: seq<byte>, closed: bool)
    requires |got| <= want
    ensures q == [] ==> ReadSpec(q, want, got, closed) == (q, got, if closed then Return else Yield)
    ensures forall i: nat :: 0 < i <= |q| && |got| + i == want ==>
              ReadSpec(q, want, got, closed) == (q[i..], got + q[..i], Return)
    ensures q != [] && |got| == want ==> ReadSpec(q, want, got, closed) == (q[0..], got + q[..0], Return)
    ensures q != [] && |got| + |q| < want ==>
              ReadSpec(q, want, got, closed) == (q[|q|..], got + q[..|q|], Again)
  {
  }

  lemma ReadNext(q: seq<byte>, got: seq<byte>, i: nat, c: byte, rest: seq<byte>)
    requires i < |q| && [c] + rest == q[i..]
    ensures rest == q[i + 1..] && got + q[..i] + [c] == got + q[..i + 1]
  {
    assert q[i..][0] == c && q[i..][1..] == q[i + 1..] == rest;
    assert q[..i + 1] == q[..i] + [c];
  }

  function WriteSpec(q: seq<byte>, buf: seq<byte>, pos: nat): (seq<byte>, nat, Outcome)
    requires |q| <= 32 && pos <= |buf|
  {
    if |q| == 32 then (q, pos, Yield)
    else
      var n := Min(32 - |q|, |buf| - pos);
      (q + buf[pos..pos + n], pos + n, if pos + n == |buf| then Return else Again)
  }

  lemma WriteIs(q: seq<byte>, buf: seq<byte>, pos: nat)
    requires |q| <= 32 && pos <= |buf|
    ensures var (r, at, out) := WriteSpec(q, buf, pos);
            && pos <= at <= |buf| && r == q + buf[pos..at] && |r| <= 32
            && (|q| == 32 ==> out == Yield && at == pos)
            && (|q| < 32 ==> (at == |buf| && out == Return) || (|r| == 32 && at < |buf| && out == Again))
  {
  }

  // ---- reads and writes in any interleaving ----

  datatype ReadCall = ReadCall(want: nat, got: seq<byte>, done: bool)
  datatype WriteCall = WriteCall(buf: seq<byte>, pos: nat, done: bool)

  /** A byte with the call that moved it. */
  datatype Moved = Moved(call: nat, b: byte)

  /** The pipe with all calls ever made on it; `accepted` and `delivered` log every byte in and out. */
  datatype State = State(q: seq<byte>, closed: bool, readers: seq<ReadCall>, writers: seq<WriteCall>,
                         accepted: seq<Moved>, delivered: seq<Moved>)

  function Tag(call: nat, bs: seq<byte>): (s: seq<Moved>)
    ensures |s| == |bs|
  {
    seq(|bs|, i requires 0 <= i < |bs| => Moved(call, bs[i]))
  }

  function Untag(s: seq<Moved>): (bs: seq<byte>)
    ensures |bs| == |s|
  {
    seq(|s|, i requires 0 <= i < |s| => s[i].b)
  }

  /** The bytes one call moved. */
  function By(s: seq<Moved>, call: nat): seq<byte> {
    if s == [] then []
    else By(s[..|s| - 1], call) + if s[|s| - 1].call == call then [s[|s| - 1].b] else []
  }

  ghost predicate Init(s: State) {
    && s.q == [] && !s.closed && s.accepted == [] && s.delivered == []
    && (forall r :: 0 <= r < |s.readers| ==> s.readers[r].got == [] && !s.readers[r].done)
    && (forall w :: 0 <= w < |s.writers| ==> s.writers[w].pos == 0 && !s.writers[w].done)
  }

  ghost predicate ReadStep(s: State, t: State, r: nat) {
    && r < |s.readers| && !s.readers[r].done && |s.readers[r].got| <= s.readers[r].want
    && var c := s.readers[r];
    var (q, got, out) := ReadSpec(s.q, c.want, c.got, s.closed);
    t == s.(q := q, readers := s.readers[r := c.(got := got, done := out == Return)],
            delivered := s.delivered + Tag(r, got[|c.got|..]))
  }

  ghost predicate WriteStep(s: State, t: State, w: nat) {
    && w < |s.writers| && !s.writers[w].done && !s.closed && |s.q| <= 32 && s.writers[w].pos <= |s.writers[w].buf|
    && var c := s.writers[w];
    var (q, pos, out) := WriteSpec(s.q, c.buf, c.pos);
    t == s.(q := q, writers := s.writers[w := c.(pos := pos, done := out == Return)],
            accepted := s.accepted + Tag(w, c.buf[c.pos..pos]))
  }

  /** The last write end goes away.  A write in progress holds one, so there is none. */
  ghost predicate CloseStep(s: State, t: State) {
    && (forall w :: 0 <= w < |s.writers| ==> s.writers[w].done)
    && t == s.(closed := true)
  }

  ghost predicate Step(s: State, t: State) {
    (exists r: nat :: ReadStep(s, t, r)) || (exists w: nat :: WriteStep(s, t, w)) || CloseStep(s, t)
  }

  ghost predicate Inv(s: State) {
    && |s.q| <= 32
    // Nothing is lost, duplicated or reordered.
    && Untag(s.delivered) + s.q == Untag(s.accepted)
    && (forall w :: 0 <= w < |s.writers| ==> WriterOk(s, w))
    && (forall r :: 0 <= r < |s.readers| ==> ReaderOk(s, r))
    && (s.closed ==> forall w :: 0 <= w < |s.writers| ==> s.writers[w].done)
  }

  /** What a write has put in is a prefix of its buffer; it returns when all of it is in. */
  ghost predicate WriterOk(s: State, w: nat)
    requires w < |s.writers|
  {
    var c := s.writers[w];
    c.pos <= |c.buf| && By(s.accepted, w) == c.buf[..c.pos] && (c.done ==> c.pos == |c.buf|)
  }

  /** A read has what it was given, and returns short only when the pipe is empty for good. */
  ghost predicate ReaderOk(s: State, r: nat)
    requires r < |s.readers|
  {
    var c := s.readers[r];
    |c.got| <= c.want && By(s.delivered, r) == c.got && (c.done && |c.got| < c.want ==> s.closed && s.q == [])
  }

  lemma {:induction false} ByTag(s: seq<Moved>, call: nat, bs: seq<byte>, k: nat)
    ensures By(s + Tag(call, bs), k) == By(s, k) + if k == call then bs else []
  {
    if bs == [] {
      assert s + Tag(call, bs) == s;
    } else {
      var cs := bs[..|bs| - 1];
      var t := s + Tag(call, bs);
      assert t[..|t| - 1] == s + Tag(call, cs);
      assert t[|t| - 1] == Moved(call, bs[|bs| - 1]);
      ByTag(s, call, cs, k);
      assert bs == cs + [bs[|bs| - 1]];
    }
  }

  lemma UntagConcat(s: seq<Moved>, call: nat, bs: seq<byte>)
    ensures Untag(s + Tag(call, bs)) == Untag(s) + bs
  {
  }

  lemma ReadKeeps(s: State, t: State, r: nat)
    requires Inv(s) && ReadStep(s, t, r)
    ensures Inv(t)
  {
    hide By;
    var c := s.readers[r];
    var taken := t.readers[r].got[|c.got|..];
    assert ReaderOk(s, r);
    assert s.q == taken + t.q;
    UntagConcat(s.delivered, r, taken);
    assert Untag(s.delivered) + taken + t.q == Untag(s.accepted);
    forall k | 0 <= k < |t.readers| ensures ReaderOk(t, k) {
      assert ReaderOk(s, k);
      ByTag(s.delivered, r, taken, k);
      if k == r { assert c.got + taken == t.readers[r].got; }
    }
    forall k | 0 <= k < |t.writers| ensures WriterOk(t, k) { assert WriterOk(s, k); }
  }

  lemma WriteKeeps(s: State, t: State, w: nat)
    requires Inv(s) && WriteStep(s, t, w)
    ensures Inv(t)
  {
    hide By;
    var c := s.writers[w];
    assert WriterOk(s, w);
    var put := c.buf[c.pos..t.writers[w].pos];
    assert t.q == s.q + put;
    UntagConcat(s.accepted, w, put);
    assert Untag(s.delivered) + (s.q + put) == Untag(s.accepted) + put;
    forall k | 0 <= k < |t.writers| ensures WriterOk(t, k) {
      assert WriterOk(s, k);
      ByTag(s.accepted, w, put, k);
      if k == w { assert c.buf[..c.pos] + put == c.buf[..t.writers[w].pos]; }
    }
    forall k | 0 <= k < |t.readers| ensures ReaderOk(t, k) { assert ReaderOk(s, k); }
  }

  lemma StepKeeps(s: State, t: State)
    requires Inv(s) && Step(s, t)
    ensures Inv(t)
  {
    hide ReadStep, WriteStep;
    if r: nat :| ReadStep(s, t, r) {
      ReadKeeps(s, t, r);
    } else if w: nat :| WriteStep(s, t, w) {
      WriteKeeps(s, t, w);
    } else {
      forall k | 0 <= k < |t.writers| ensures WriterOk(t, k) { assert WriterOk(s, k); }
      forall k | 0 <= k < |t.readers| ensures ReaderOk(t, k) { assert ReaderOk(s, k); }
    }
  }

  ghost predicate IsRun(run: seq<State>) {
    |run| > 0 && Init(run[0]) && forall i: nat :: i + 1 < |run| ==> Step(run[i], run[i + 1])
  }

  /** In every state of every run bytes come out in the order they went in, none missing, each call with its own. */
  lemma {:induction false} RunKeeps(run: seq<State>, n: nat)
    requires IsRun(run) && n < |run|
    ensures Inv(run[n])
  {
    hide Inv, Step;
    if n == 0 {
      InitInv(run[0]);
    } else {
      RunKeeps(run, n - 1);
      assert Step(run[n - 1], run[n - 1 + 1]);
      StepKeeps(run[n - 1], run[n]);
    }
  }

  lemma InitInv(s: State)
    requires Init(s)
    ensures Inv(s)
  {
  }

  /** A short read means everything ever accepted has been delivered. */
  lemma ShortReadDrained(run: seq<State>, n: nat, r: nat)
    requires IsRun(run) && n < |run| && r < |run[n].readers|
    requires run[n].readers[r].done && |run[n].readers[r].got| < run[n].readers[r].want
    ensures run[n].closed && Untag(run[n].delivered) == Untag(run[n].accepted)
  {
    hide IsRun;
    RunKeeps(run, n);
    assert ReaderOk(run[n], r);
  }

  // ---- progress ----

  /** A run comes to rest only when every read has returned, and then either every write has too and the pipe is closed,
      or the writes still in progress wait for room in a full pipe. */
  lemma RestsOnlyUnread(run: seq<State>, n: nat)
    requires IsRun(run) && n < |run| && !exists t: State :: Step(run[n], t) && t != run[n]
    ensures forall r :: 0 <= r < |run[n].readers| ==> run[n].readers[r].done
    ensures if forall w :: 0 <= w < |run[n].writers| ==> run[n].writers[w].done then run[n].closed else |run[n].q| == 32
  {
    hide IsRun, By, Step;
    RunKeeps(run, n);
    var s := run[n];
    if w: nat :| w < |s.writers| && !s.writers[w].done {
      if |s.q| < 32 { WriterMoves(s, w); }
    } else if !s.closed {
      var t := s.(closed := true);
      assert Step(s, t) && t != s by { StepClose(s, t); }
    }
    if r: nat :| r < |s.readers| && !s.readers[r].done {
      if s.q != [] || s.closed { ReaderMoves(s, r); }
    }
  }

  lemma StepClose(s: State, t: State)
    requires CloseStep(s, t)
    ensures Step(s, t)
  {
  }

  /** With room in the pipe, a write in progress puts something in or returns. */
  lemma WriterMoves(s: State, w: nat)
    requires Inv(s) && w < |s.writers| && !s.writers[w].done && |s.q| < 32
    ensures exists t: State :: Step(s, t) && t != s
  {
    hide By;
    assert WriterOk(s, w);
    var c := s.writers[w];
    var (q, pos, out) := WriteSpec(s.q, c.buf, c.pos);
    var t := s.(q := q, writers := s.writers[w := c.(pos := pos, done := out == Return)],
                accepted := s.accepted + Tag(w, c.buf[c.pos..pos]));
    assert WriteStep(s, t, w);
    assert t.writers[w] != c;
    assert Step(s, t);
  }

  /** With bytes in the pipe, or none to come, a read in progress takes something out or returns. */
  lemma ReaderMoves(s: State, r: nat)
    requires Inv(s) && r < |s.readers| && !s.readers[r].done && (s.q != [] || s.closed)
    ensures exists t: State :: Step(s, t) && t != s
  {
    hide By;
    assert ReaderOk(s, r);
    var c := s.readers[r];
    var (q, got, out) := ReadSpec(s.q, c.want, c.got, s.closed);
    var t := s.(q := q, readers := s.readers[r := c.(got := got, done := out == Return)],
                delivered := s.delivered + Tag(r, got[|c.got|..]));
    assert ReadStep(s, t, r);
    assert t.readers[r] != c;
    assert Step(s, t);
  }

  /** What a call has still to do: bytes to move, and returning. */
  function ReadAhead(): ReadCall -> int {
    (c: ReadCall) => c.want - |c.got| + if c.done then 0 else 1
  }

  function WriteAhead(): WriteCall -> int {
    (c: WriteCall) => |c.buf| - c.pos + if c.done then 0 else 1
  }

  ghost function Ahead(s: State): int {
    Sum(s.readers, ReadAhead()) + Sum(s.writers, WriteAhead()) + if s.closed then 0 else 1
  }

  lemma StepSpends(s: State, t: State)
    requires Inv(s) && Step(s, t) && t != s
    ensures Ahead(t) < Ahead(s)
  {
    hide By, Sum;
    if r: nat :| ReadStep(s, t, r) {
      assert ReaderOk(s, r);
      SumUpdate(s.readers, ReadAhead(), r, t.readers[r]);
      ReadQuiet(s, t, r);
    } else if w: nat :| WriteStep(s, t, w) {
      assert WriterOk(s, w);
      SumUpdate(s.writers, WriteAhead(), w, t.writers[w]);
      WriteQuiet(s, t, w);
    }
  }

  /** A pass that leaves the call as it was leaves everything as it was. */
  lemma ReadQuiet(s: State, t: State, r: nat)
    requires ReadStep(s, t, r)
    ensures |t.readers[r].got| >= |s.readers[r].got|
    ensures t.readers[r].done || |t.readers[r].got| > |s.readers[r].got| || t == s
  {
    var c := s.readers[r];
    assert c.got[|c.got|..] == [];
    assert s.delivered + Tag(r, []) == s.delivered;
    assert s.readers[r := c] == s.readers;
  }

  lemma WriteQuiet(s: State, t: State, w: nat)
    requires WriteStep(s, t, w)
    ensures t.writers[w].pos >= s.writers[w].pos
    ensures t.writers[w].done || t.writers[w].pos > s.writers[w].pos || t == s
  {
    var c := s.writers[w];
    assert c.buf[c.pos..c.pos] == [];
    assert s.accepted + Tag(w, []) == s.accepted;
    assert s.writers[w := c] == s.writers;
  }

  /** How many of the first k steps changed something. */
  ghost function Changes(run: seq<State>, k: nat): nat
    requires k < |run|
  {
    if k == 0 then 0 else Changes(run, k - 1) + if run[k] != run[k - 1] then 1 else 0
  }

  lemma {:induction false} Spent(run: seq<State>, k: nat)
    requires IsRun(run) && k < |run|
    ensures Ahead(run[k]) <= Ahead(run[0]) - Changes(run, k)
  {
    hide Step, Inv, Init, Ahead;
    if k > 0 {
      Spent(run, k - 1);
      RunKeeps(run, k - 1);
      assert Step(run[k - 1], run[k - 1 + 1]);
      if run[k] != run[k - 1] { StepSpends(run[k - 1], run[k]); }
    }
  }

  /** In every run at most one step for each byte wanted or offered, each call and the closing is more
      than a yield, so every run comes to rest. */
  lemma RunsEnd(run: seq<State>, k: nat)
    requires IsRun(run) && k < |run|
    ensures Changes(run, k) <= Ahead(run[0])
  {
    hide IsRun, By, Step, Changes, Sum;
    Spent(run, k);
    RunKeeps(run, k);
    var s := run[k];
    forall r | 0 <= r < |s.readers| ensures ReadAhead()(s.readers[r]) >= 0 { assert ReaderOk(s, r); }
    forall w | 0 <= w < |s.writers| ensures WriteAhead()(s.writers[w]) >= 0 { assert WriterOk(s, w); }
    SumNat(s.readers, ReadAhead());
    SumNat(s.writers, WriteAhead());
  }
}
