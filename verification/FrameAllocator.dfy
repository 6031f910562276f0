/** os/src/mm/frame_allocator.rs: the stack allocator of physical frames, and physical memory. */
module FrameAllocator {
  import opened Basics

  type u64 = x: int | 0 <= x < 0x1_0000_0000_0000_0000

  /** The frame starting at a page boundary, as 512 words. */
  type Frame = s: seq<u64> | |s| == 512 witness Fill<u64>(0, 512)

  type Memory = map<nat, Frame>

  function ZeroFrame(): Frame {
    Fill<u64>(0, 512)
  }

  /** Contents of frame p. */
  function FrameOf(m: Memory, p: nat): Frame {
    if p in m then m[p] else ZeroFrame()
  }

  /** Frames in [base, current) that have not been recycled. */
  ghost function Taken(base: nat, current: nat, recycled: seq<nat>): set<nat>
  {
    set p | p in Below(current) && base <= p && p !in recycled
  }

  class StackFrameAllocator {
    var current: nat
    var end: nat
    var recycled: seq<nat>
    ghost var base: nat

    ghost predicate Valid()
      reads this
    {
      && base <= current <= end
      && NoDup(recycled)
      && forall p :: p in recycled ==> base <= p < current
    }

    /** Frames handed out and not given back. */
    ghost function InUse(): set<nat>
      reads this
    {
      Taken(base, current, recycled)
    }

    /** Frames this allocator manages. */
    ghost predicate Managed(p: nat)
      reads this
    {
      base <= p < end
    }

    /** `new` and `init`. */
    constructor (l: nat, r: nat)
      requires l <= r
      ensures Valid() && InUse() == {} && base == l && end == r
    {
      current, end, recycled, base := l, r, [], l;
    }

    /** A frame nobody holds, or none if every frame is out. */
    method Alloc() returns (r: Option<nat>)
      requires Valid()
      modifies `current, `recycled
      ensures Valid()
      ensures r.None? <==> forall p: nat :: Managed(p) ==> p in old(InUse())
      ensures r.None? ==> InUse() == old(InUse())
      ensures r.Some? ==> Managed(r.value) && r.value !in old(InUse()) && InUse() == old(InUse()) + {r.value}
      ensures old(recycled) != [] ==> current == old(current) && r.Some? && old(recycled) == recycled + [r.value]
      ensures old(recycled) == [] && r.Some? ==> r.value == old(current) && current == old(current) + 1
    {
      hide Taken, NoDup;
      if recycled != [] {
        var p := recycled[|recycled| - 1];
        Popped(base, current, recycled);
        recycled := recycled[..|recycled| - 1];
        assert Managed(p) && p !in old(InUse());
        r := Some(p);
      } else if current == end {
        AllTaken(base, current);
        r := None;
      } else {
        r := Some(current);
        NextTaken(base, current);
        assert Managed(current) && current !in InUse();
        current := current + 1;
      }
    }

    /** Consecutive fresh frames, highest first.  Recycled frames are not used, and the last fresh frame is never given
        out this way: `current + pages >= end` refuses even when exactly `pages` are left. */
    method AllocMore(pages: nat) returns (r: Option<seq<nat>>)
      requires Valid()
      modifies `current
      ensures Valid()
      ensures r.None? <==> old(current) + pages >= end
      ensures r.None? ==> InUse() == old(InUse())
      ensures r.Some? ==>
                && |r.value| == pages
                && (forall i :: 0 <= i < pages ==> r.value[i] == old(current) + pages - 1 - i)
                && (forall p :: p in r.value ==> Managed(p) && p !in old(InUse()))
                && InUse() == old(InUse()) + (set p | p in r.value)
    {
      if current + pages >= end { return None; }
      current := current + pages;
      var v: seq<nat> := [];
      var x := 1;
      while x < pages + 1
        invariant 1 <= x <= pages + 1 && |v| == x - 1
        invariant forall i :: 0 <= i < |v| ==> v[i] == current - 1 - i
      {
        v := v + [current - x];
        x := x + 1;
      }
      forall p: nat ensures p in v <==> old(current) <= p < current {
        if old(current) <= p < current { assert v[current - 1 - p] == p; }
      }
      r := Some(v);
    }

    /** Give a frame back.  `ok` is false where the source panics: the frame is not out.  A frame below the managed
        range is not told from one that is out; taking it spoils the allocator. */
    method Dealloc(p: nat) returns (ok: bool)
      requires Valid()
      modifies `recycled
      ensures ok <==> p in old(InUse()) || p < base
      ensures Valid() <==> (ok ==> base <= p)
      ensures InUse() == if ok then old(InUse()) - {p} else old(InUse())
      ensures recycled == old(recycled) + if ok then [p] else []
    {
      if p >= current || p in recycled { return false; }
      NoDupSnoc(recycled, p);
      recycled := recycled + [p];
      assert p in recycled;
      ok := true;
    }
  }

  lemma Popped(base: nat, current: nat, recycled: seq<nat>)
    requires recycled != [] && NoDup(recycled) && forall p :: p in recycled ==> base <= p < current
    ensures var p, rest := recycled[|recycled| - 1], recycled[..|recycled| - 1];
            && Taken(base, current, rest) == Taken(base, current, recycled) + {p}
            && base <= p < current && p !in Taken(base, current, recycled)
            && NoDup(rest) && forall q :: q in rest ==> base <= q < current
  {
    var p := recycled[|recycled| - 1];
    var rest := recycled[..|recycled| - 1];
    assert recycled == rest + [p];
    NoDupSplit(rest, [p]);
    assert p in recycled && p in [p];
    forall q | q in rest ensures base <= q < current { assert q in recycled; }
  }

  lemma AllTaken(base: nat, current: nat)
    ensures forall p: nat :: base <= p < current ==> p in Taken(base, current, [])
  {
  }

  lemma NextTaken(base: nat, current: nat)
    requires base <= current
    ensures Taken(base, current + 1, []) == Taken(base, current, []) + {current} && current !in Taken(base, current, [])
  {
    hide Below;
  }

  class PhysMemory {
    var frames: Memory

    constructor ()
      ensures frames == map[]
    {
      frames := map[];
    }

    /** `frame_alloc`: take a frame and zero it. */
    method FrameAlloc(alloc: StackFrameAllocator) returns (r: Option<nat>)
      requires alloc.Valid()
      modifies this, alloc`current, alloc`recycled
      ensures alloc.Valid()
      ensures r.None? <==> forall p: nat :: alloc.Managed(p) ==> p in old(alloc.InUse())
      ensures r.None? ==> frames == old(frames) && alloc.InUse() == old(alloc.InUse())
      ensures r.Some? ==>
                && alloc.Managed(r.value) && r.value !in old(alloc.InUse())
                && alloc.InUse() == old(alloc.InUse()) + {r.value}
                && frames == old(frames)[r.value := ZeroFrame()]
                && forall i :: 0 <= i < 512 ==> frames[r.value][i] == 0
    {
      r := alloc.Alloc();
      if r.Some? { frames := frames[r.value := ZeroFrame()]; }
    }
  }
}
