/** User buffers in kernel hands: os/src/mm/page_table.rs:196-223 and 267-319. */
module UserBuffers {
  import opened Basics
  import opened FrameAllocator
  import opened PageTables

  const PAGE_SIZE := 4096
  const VA_BOUND := 0x80_0000_0000

  /** Bytes [lo, hi) of a frame. */
  datatype Segment = Segment(ppn: nat, lo: nat, hi: nat)

  /** A byte of physical memory. */
  datatype PhysByte = PhysByte(ppn: nat, offset: nat)

  ghost predicate Proper(s: Segment) {
    s.lo < s.hi <= PAGE_SIZE
  }

  function SegmentBytes(s: Segment): (bs: seq<PhysByte>)
    ensures |bs| == if s.lo <= s.hi then s.hi - s.lo else 0
  {
    seq(if s.lo <= s.hi then s.hi - s.lo else 0, i requires 0 <= i => PhysByte(s.ppn, s.lo + i))
  }

  /** All bytes of a list of segments, in order. */
  function BufferBytes(v: seq<Segment>): seq<PhysByte> {
    if v == [] then [] else BufferBytes(v[..|v| - 1]) + SegmentBytes(v[|v| - 1])
  }

  /** Where virtual address va is in physical memory. */
  ghost function Physical(entries: map<nat, (nat, nat)>, va: nat): PhysByte
    requires va / PAGE_SIZE in entries
  {
    PhysByte(entries[va / PAGE_SIZE].0, va % PAGE_SIZE)
  }

  ghost predicate MappedRange(entries: map<nat, (nat, nat)>, lo: nat, hi: nat) {
    forall va: nat :: lo <= va < hi ==> va / PAGE_SIZE in entries
  }

  /** The physical bytes of [lo, hi). */
  ghost function RangeBytes(entries: map<nat, (nat, nat)>, lo: nat, hi: nat): seq<PhysByte>
    requires lo <= hi && MappedRange(entries, lo, hi)
  {
    seq(hi - lo, k requires 0 <= k < hi - lo => Physical(entries, lo + k))
  }

  lemma RangeSplit(entries: map<nat, (nat, nat)>, lo: nat, mid: nat, hi: nat)
    requires lo <= mid <= hi && MappedRange(entries, lo, hi)
    ensures RangeBytes(entries, lo, hi) == RangeBytes(entries, lo, mid) + RangeBytes(entries, mid, hi)
  {
  }

  /** Within one page the bytes are consecutive. */
  lemma PageBytes(entries: map<nat, (nat, nat)>, lo: nat, hi: nat)
    requires lo < hi <= (lo / PAGE_SIZE + 1) * PAGE_SIZE && MappedRange(entries, lo, hi)
    ensures lo / PAGE_SIZE in entries
    ensures RangeBytes(entries, lo, hi)
         == SegmentBytes(Segment(entries[lo / PAGE_SIZE].0, lo % PAGE_SIZE, lo % PAGE_SIZE + (hi - lo)))
  {
    var s := RangeBytes(entries, lo, hi);
    var t := SegmentBytes(Segment(entries[lo / PAGE_SIZE].0, lo % PAGE_SIZE, lo % PAGE_SIZE + (hi - lo)));
    forall k | 0 <= k < hi - lo ensures s[k] == t[k] {
      assert (lo + k) / PAGE_SIZE == lo / PAGE_SIZE && (lo + k) % PAGE_SIZE == lo % PAGE_SIZE + k;
      assert s[k] == Physical(entries, lo + k);
      assert t[k] == PhysByte(entries[lo / PAGE_SIZE].0, lo % PAGE_SIZE + k);
    }
  }

  lemma BufferSnoc(v: seq<Segment>, s: Segment)
    ensures BufferBytes(v + [s]) == BufferBytes(v) + SegmentBytes(s)
  {
    assert (v + [s])[..|v|] == v;
  }

  /** Split [ptr, ptr + len) into the segments that the page table gives for it.  Addresses are cut to 39 bits, so the
      range has to end below that. */
  method TranslatedByteBuffer(pt: PageTable, mem: PhysMemory, ptr: nat, len: nat, ghost inUse: set<nat>)
    returns (v: seq<Segment>)
    requires pt.Valid(mem.frames, inUse) && ptr + len < VA_BOUND && MappedRange(pt.entries, ptr, ptr + len)
    ensures forall i :: 0 <= i < |v| ==> Proper(v[i])
    ensures BufferBytes(v) == RangeBytes(pt.entries, ptr, ptr + len) && |BufferBytes(v)| == len
  {
    hide TreeOk, Mapping, NoDup, RangeBytes, BufferBytes, SegmentBytes, Physical, MappedRange;
    var start, end := ptr, ptr + len;
    v := [];
    NoBytes(pt.entries, ptr);
    while start < end
      invariant ptr <= start <= end
      invariant forall i :: 0 <= i < |v| ==> Proper(v[i])
      invariant MappedRange(pt.entries, ptr, start) && BufferBytes(v) == RangeBytes(pt.entries, ptr, start)
    {
      var startVa := start % VA_BOUND;
      var vpn := startVa / PAGE_SIZE;
      Cut(pt.entries, ptr, start, end);
      var e := pt.Translate(vpn, mem, inUse);
      var ppn := PpnOf(e.value);
      vpn := vpn + 1;
      var endVa := Min(vpn * PAGE_SIZE, end % VA_BOUND);
      var s := if endVa % PAGE_SIZE == 0 then Segment(ppn, startVa % PAGE_SIZE, PAGE_SIZE)
               else Segment(ppn, startVa % PAGE_SIZE, endVa % PAGE_SIZE);
      BufferSnoc(v, s);
      v := v + [s];
      start := endVa;
    }
    RangeLength(pt.entries, ptr, len);
  }

  lemma NoBytes(entries: map<nat, (nat, nat)>, p: nat)
    ensures MappedRange(entries, p, p) && RangeBytes(entries, p, p) == BufferBytes([])
  {
  }

  /** One pass of the loop: the rest of the page, or of the range, whichever ends first. */
  lemma Cut(entries: map<nat, (nat, nat)>, ptr: nat, start: nat, end: nat)
    requires ptr <= start < end < VA_BOUND && MappedRange(entries, ptr, end)
    ensures start % VA_BOUND == start && end % VA_BOUND == end && start / PAGE_SIZE < VPN_BOUND
    ensures start / PAGE_SIZE in entries
    ensures var e := Min((start / PAGE_SIZE + 1) * PAGE_SIZE, end);
            var s := Segment(entries[start / PAGE_SIZE].0, start % PAGE_SIZE,
                             if e % PAGE_SIZE == 0 then PAGE_SIZE else e % PAGE_SIZE);
            && start < e <= end && Proper(s)
            && MappedRange(entries, ptr, start) && MappedRange(entries, ptr, e)
            && RangeBytes(entries, ptr, e) == RangeBytes(entries, ptr, start) + SegmentBytes(s)
  {
    hide RangeBytes, SegmentBytes, Physical;
    var e := Min((start / PAGE_SIZE + 1) * PAGE_SIZE, end);
    assert start < (start / PAGE_SIZE + 1) * PAGE_SIZE;
    RangeSplit(entries, ptr, start, e);
    PageBytes(entries, start, e);
    PageEnd(start, e);
  }

  lemma PageEnd(lo: nat, hi: nat)
    requires lo < hi <= (lo / PAGE_SIZE + 1) * PAGE_SIZE
    ensures hi % PAGE_SIZE == 0 ==> lo % PAGE_SIZE + (hi - lo) == PAGE_SIZE
    ensures hi % PAGE_SIZE != 0 ==> lo % PAGE_SIZE + (hi - lo) == hi % PAGE_SIZE
  {
  }

  /** Number of bytes in the segments before position i, plus `at`. */
  ghost function Passed(v: seq<Segment>, i: nat, at: nat): nat
    requires i <= |v|
  {
    |BufferBytes(v[..i])| + at
  }

  lemma NothingPassed(v: seq<Segment>)
    ensures Passed(v, 0, 0) == 0
    ensures (forall i :: 0 <= i < |v| ==> Proper(v[i])) && |v| > 0 ==> 0 < v[0].hi - v[0].lo
  {
    assert v[..0] == [];
  }

  lemma ByteIn(v: seq<Segment>, i: nat, at: nat)
    requires i < |v| && Proper(v[i]) && at < v[i].hi - v[i].lo
    ensures Passed(v, i, at) < |BufferBytes(v)|
    ensures BufferBytes(v)[Passed(v, i, at)] == PhysByte(v[i].ppn, v[i].lo + at)
    ensures |BufferBytes(v[..i + 1])| == |BufferBytes(v[..i])| + (v[i].hi - v[i].lo)
  {
    assert v[..i + 1] == v[..i] + [v[i]];
    BufferSnoc(v[..i], v[i]);
    BufferPrefix(v, i + 1);
    assert BufferBytes(v[..i + 1])[Passed(v, i, at)] == SegmentBytes(v[i])[at];
  }

  lemma {:induction false} BufferPrefix(v: seq<Segment>, i: nat)
    requires i <= |v|
    ensures BufferBytes(v[..i]) <= BufferBytes(v)
  {
    if i < |v| {
      BufferPrefix(v[..|v| - 1], i);
      assert v[..|v| - 1][..i] == v[..i];
    } else {
      assert v[..i] == v;
    }
  }

  /** `UserBufferIterator`. */
  class UserBufferIterator {
    const buffers: seq<Segment>
    var currBuf: nat
    var posInBuf: nat

    constructor (buffers: seq<Segment>)
      ensures this.buffers == buffers && currBuf == 0 && posInBuf == 0
    {
      this.buffers := buffers;
      currBuf, posInBuf := 0, 0;
    }

    ghost predicate Valid()
      reads this
    {
      && (forall i :: 0 <= i < |buffers| ==> Proper(buffers[i]))
      && currBuf <= |buffers|
      && (currBuf < |buffers| ==> posInBuf < buffers[currBuf].hi - buffers[currBuf].lo)
      && (currBuf == |buffers| ==> posInBuf == 0)
    }

    /** How many bytes have been yielded. */
    ghost function Position(): nat
      requires Valid()
      reads this
    {
      Passed(buffers, currBuf, posInBuf)
    }

    /** The next byte, until all have been yielded. */
    method Next() returns (r: Option<PhysByte>)
      requires Valid()
      modifies this
      ensures Valid() && old(Position()) <= |BufferBytes(buffers)|
      ensures r.None? <==> old(Position()) == |BufferBytes(buffers)|
      ensures r.None? ==> Position() == old(Position())
      ensures r.Some? ==> r.value == BufferBytes(buffers)[old(Position())] && Position() == old(Position()) + 1
    {
      if currBuf >= |buffers| {
        assert buffers[..currBuf] == buffers;
        return None;
      }
      var b := buffers[currBuf];
      ByteIn(buffers, currBuf, posInBuf);
      r := Some(PhysByte(b.ppn, b.lo + posInBuf));
      if posInBuf + 1 == b.hi - b.lo {
        posInBuf := 0;
        currBuf := currBuf + 1;
      } else {
        posInBuf := posInBuf + 1;
      }
    }
  }

  /** Walking a translated buffer visits the physical byte of ptr, ptr + 1, and so on, each once. */
  method VisitBuffer(pt: PageTable, mem: PhysMemory, ptr: nat, len: nat, ghost inUse: set<nat>)
    returns (visited: seq<PhysByte>)
    requires pt.Valid(mem.frames, inUse) && ptr + len < VA_BOUND && MappedRange(pt.entries, ptr, ptr + len)
    ensures visited == RangeBytes(pt.entries, ptr, ptr + len) && |visited| == len
    ensures forall k :: 0 <= k < len ==>
              && visited[k].offset == (ptr + k) % PAGE_SIZE && (ptr + k) / PAGE_SIZE in pt.entries
              && visited[k].ppn == pt.entries[(ptr + k) / PAGE_SIZE].0
  {
    hide TreeOk, Mapping, NoDup, BufferBytes, RangeBytes, MappedRange, Refines, Proper;
    var v := TranslatedByteBuffer(pt, mem, ptr, len, inUse);
    ghost var all := BufferBytes(v);
    var it := new UserBufferIterator(v);
    NothingPassed(v);
    visited := [];
    var next := it.Next();
    while next.Some?
      invariant it.Valid() && fresh(it) && it.buffers == v
      invariant |visited| <= |all| && visited == all[..|visited|]
      invariant next.Some? ==> |visited| < |all| && next.value == all[|visited|] && it.Position() == |visited| + 1
      invariant next.None? ==> |visited| == |all|
      decreases |all| - |visited|
    {
      visited := visited + [next.value];
      next := it.Next();
    }
    RangeLength(pt.entries, ptr, len);
    assert visited == RangeBytes(pt.entries, ptr, ptr + len);
    forall k | 0 <= k < len
      ensures visited[k].offset == (ptr + k) % PAGE_SIZE && (ptr + k) / PAGE_SIZE in pt.entries
              && visited[k].ppn == pt.entries[(ptr + k) / PAGE_SIZE].0
    {
      RangeAt(pt.entries, ptr, len, k);
    }
  }

  lemma RangeLength(entries: map<nat, (nat, nat)>, ptr: nat, len: nat)
    requires MappedRange(entries, ptr, ptr + len)
    ensures |RangeBytes(entries, ptr, ptr + len)| == len
  {
    hide Physical, MappedRange;
  }

  lemma RangeAt(entries: map<nat, (nat, nat)>, ptr: nat, len: nat, k: nat)
    requires MappedRange(entries, ptr, ptr + len) && k < len
    ensures (ptr + k) / PAGE_SIZE in entries && |RangeBytes(entries, ptr, ptr + len)| == len
    ensures RangeBytes(entries, ptr, ptr + len)[k]
         == PhysByte(entries[(ptr + k) / PAGE_SIZE].0, (ptr + k) % PAGE_SIZE)
  {
    assert (ptr + k) / PAGE_SIZE in entries;
    assert RangeBytes(entries, ptr, ptr + len)[k] == Physical(entries, ptr + k);
  }
}
