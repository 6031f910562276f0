/** os/src/mm/memory_set.rs: areas of pages, and the copy that `fork` makes of them. */
module MemorySets {
  import opened Basics
  import opened FrameAllocator
  import opened PageTables

  /** Page of the trampoline: the last one below 2^39. */
  const TRAMPOLINE_VPN := 0x7FF_FFFF

  datatype MapType = Identical | Framed | Linear(offset: int)

  /** Pages [start, end). */
  function Pages(start: nat, end: nat): (s: set<nat>)
    ensures forall v: nat :: v in s <==> start <= v < end
  {
    set v | v in Below(end) && start <= v
  }

  datatype MapArea = MapArea(start: nat, end: nat, dataFrames: map<nat, nat>, mapType: MapType, perm: nat) {

    /** Frame of page vpn in an area that holds no frames of its own. */
    function FixedPpn(vpn: nat): int {
      if mapType.Linear? then vpn + mapType.offset else vpn
    }

    ghost predicate Valid() {
      && start <= end < VPN_BOUND && perm < 0x100
      && (mapType.Linear? ==> 0 <= FixedPpn(start) && FixedPpn(end) < PPN_BOUND)
    }

    /** Every page of the area is mapped to the frame the area holds for it, with
        its permissions, and nothing else is. */
    ghost predicate Backed(entries: map<nat, (nat, nat)>, upto: nat) {
      && dataFrames.Keys == Pages(start, upto)
      && forall v: nat :: start <= v < upto ==> v in entries && entries[v] == (dataFrames[v], WithV(perm))
    }

    /** `map_one`: page vpn gets a zeroed frame of its own in a framed area, the frame its number gives in any other.
        None where the source panics. */
    method MapOne(pt: PageTable, vpn: nat, mem: PhysMemory, alloc: StackFrameAllocator) returns (r: Option<MapArea>)
      requires Valid() && start <= vpn < end
      requires alloc.Valid() && alloc.end <= PPN_BOUND && pt.Valid(mem.frames, alloc.InUse())
      modifies pt`frames, pt`pos, pt`entries, mem, alloc`current, alloc`recycled
      ensures alloc.Valid()
      ensures r.None? ==> vpn in old(pt.entries) || forall p: nat :: alloc.Managed(p) ==> p in alloc.InUse()
      ensures r.Some? ==> pt.Valid(mem.frames, alloc.InUse()) && vpn !in old(pt.entries)
      ensures r.Some? && mapType == Framed ==>
                exists f: nat ::
                  && r.value == this.(dataFrames := dataFrames[vpn := f])
                  && pt.entries == old(pt.entries)[vpn := (f, WithV(perm))]
                  && Backing(old(mem.frames), mem.frames, old(alloc.InUse()), alloc.InUse(),
                             old(pt.frames), pt.frames, f)
      ensures r.Some? && mapType != Framed ==>
                && r.value == this && FixedPpn(vpn) >= 0
                && pt.entries == old(pt.entries)[vpn := (FixedPpn(vpn), WithV(perm))]
                && Grew(old(mem.frames), mem.frames, old(pt.frames), pt.frames, old(alloc.InUse()), alloc.InUse())
    {
      hide Refines, TreeOk, NoDup, Grew, WithV, FrameOf, Below, Backing;
      if mapType == Framed {
        r := MapFrame(pt, vpn, mem, alloc);
      } else {
        var res := pt.Map(vpn, FixedPpn(vpn), perm, mem, alloc);
        r := if res.Done? then Some(this) else None;
      }
    }

    /** The framed case. */
    method MapFrame(pt: PageTable, vpn: nat, mem: PhysMemory, alloc: StackFrameAllocator) returns (r: Option<MapArea>)
      requires Valid() && mapType == Framed && vpn < VPN_BOUND
      requires alloc.Valid() && alloc.end <= PPN_BOUND && pt.Valid(mem.frames, alloc.InUse())
      modifies pt`frames, pt`pos, pt`entries, mem, alloc`current, alloc`recycled
      ensures alloc.Valid()
      ensures r.None? ==> vpn in old(pt.entries) || forall p: nat :: alloc.Managed(p) ==> p in alloc.InUse()
      ensures r.Some? ==>
                && pt.Valid(mem.frames, alloc.InUse()) && vpn !in old(pt.entries)
                && exists f: nat ::
                     && r.value == this.(dataFrames := dataFrames[vpn := f])
                     && pt.entries == old(pt.entries)[vpn := (f, WithV(perm))]
                     && Backing(old(mem.frames), mem.frames, old(alloc.InUse()), alloc.InUse(),
                                old(pt.frames), pt.frames, f)
    {
      hide Refines, TreeOk, NoDup, Grew, WithV, FrameOf, Below;
      ghost var m, u, tf := mem.frames, alloc.InUse(), pt.frames;
      var f := mem.FrameAlloc(alloc);
      if f.None? { return None; }
      StillTable(pt, m, mem.frames, u, alloc.InUse(), f.value);
      ghost var m1, u1 := mem.frames, alloc.InUse();
      var res := pt.Map(vpn, f.value, perm, mem, alloc);
      if !res.Done? { return None; }
      BackingOf(m, mem.frames, m1, u, u1, alloc.InUse(), tf, pt.frames, f.value);
      r := Some(this.(dataFrames := dataFrames[vpn := f.value]));
    }

    /** The frames of pages [lo, end) are in use, one per page, and none is a table frame. */
    ghost predicate Holds(u: set<nat>, tf: seq<nat>, lo: nat) {
      && (forall v: nat :: lo <= v < end ==> v in dataFrames && dataFrames[v] in u && dataFrames[v] !in tf)
      && (forall v: nat, w: nat :: lo <= v < w < end ==>
            v in dataFrames && w in dataFrames && dataFrames[v] != dataFrames[w])
    }

    /** Frames held for the pages below vpn. */
    ghost function FramesBelow(vpn: nat): set<nat> {
      set v | v in Pages(start, vpn) && v in dataFrames :: dataFrames[v]
    }

    /** `unmap`: every page of the area is unmapped; the frames of a framed area are given back, and no others. */
    method Unmap(pt: PageTable, mem: PhysMemory, alloc: StackFrameAllocator) returns (area: MapArea)
      requires Valid() && alloc.Valid() && pt.Valid(mem.frames, alloc.InUse())
      requires if mapType == Framed then Backed(pt.entries, end) && Holds(alloc.InUse(), pt.frames, start)
               else dataFrames == map[] && forall v: nat :: start <= v < end ==> v in pt.entries
      modifies pt`entries, mem, alloc`recycled
      ensures alloc.Valid() && pt.Valid(mem.frames, alloc.InUse())
      ensures area == this.(dataFrames := map[])
      ensures pt.entries == old(pt.entries) - Pages(start, end)
      ensures alloc.InUse() == old(alloc.InUse()) - if mapType == Framed then FramesBelow(end) else {}
    {
      hide Refines, TreeOk, NoDup, WithV, FrameOf, Pages, FramesBelow, Holds, Backed, Taken;
      if mapType == Framed {
        area := UnmapFrames(pt, mem, alloc);
      } else {
        area := this;
        var vpn := start;
        UnmapStart(this, pt.entries, alloc.InUse());
        while vpn < end
          invariant start <= vpn <= end && area == this
          invariant alloc.Valid() && pt.Valid(mem.frames, alloc.InUse()) && alloc.InUse() == old(alloc.InUse())
          invariant pt.entries == old(pt.entries) - Pages(start, vpn)
        {
          UnmapMore(old(pt.entries), start, vpn);
          var ok := pt.Unmap(vpn, mem, alloc.InUse());
          assert ok;
          vpn := vpn + 1;
        }
      }
    }

    /** The framed case. */
    method UnmapFrames(pt: PageTable, mem: PhysMemory, alloc: StackFrameAllocator) returns (area: MapArea)
      requires Valid() && mapType == Framed && alloc.Valid() && pt.Valid(mem.frames, alloc.InUse())
      requires Backed(pt.entries, end) && Holds(alloc.InUse(), pt.frames, start)
      modifies pt`entries, mem, alloc`recycled
      ensures alloc.Valid() && pt.Valid(mem.frames, alloc.InUse())
      ensures area == this.(dataFrames := map[])
      ensures pt.entries == old(pt.entries) - Pages(start, end)
      ensures alloc.InUse() == old(alloc.InUse()) - FramesBelow(end)
    {
      hide Refines, TreeOk, NoDup, WithV, FrameOf, Pages, FramesBelow, Holds, Backed, Taken;
      area := this;
      var vpn := start;
      UnmapStart(this, pt.entries, alloc.InUse());
      while vpn < end
        invariant start <= vpn <= end && area == this.(dataFrames := dataFrames - Pages(start, vpn))
        invariant alloc.Valid() && pt.Valid(mem.frames, alloc.InUse())
        invariant pt.entries == old(pt.entries) - Pages(start, vpn)
        invariant alloc.InUse() == old(alloc.InUse()) - FramesBelow(vpn)
        invariant Holds(alloc.InUse(), pt.frames, vpn)
      {
        UnmapStep(this, old(pt.entries), old(alloc.InUse()), vpn);
        area := UnmapOne(area, pt, vpn, mem, alloc, this);
        vpn := vpn + 1;
      }
      UnmapEnd(this, old(pt.entries));
    }

    /** `map`: all pages of the area, and no others; in a framed area each to a fresh zeroed frame of its own, in any
        other to the frame its number gives. */
    method Map(pt: PageTable, mem: PhysMemory, alloc: StackFrameAllocator) returns (r: Option<MapArea>)
      requires Valid() && dataFrames == map[]
      requires alloc.Valid() && alloc.end <= PPN_BOUND && pt.Valid(mem.frames, alloc.InUse())
      modifies pt`frames, pt`pos, pt`entries, mem, alloc`current, alloc`recycled
      ensures alloc.Valid()
      ensures r.None? ==> (exists v: nat :: start <= v < end && v in old(pt.entries))
                          || forall p: nat :: alloc.Managed(p) ==> p in alloc.InUse()
      ensures r.Some? ==> pt.Valid(mem.frames, alloc.InUse()) && Outside(old(pt.entries), pt.entries, Pages(start, end))
      ensures r.Some? && mapType == Framed ==>
                && r.value == this.(dataFrames := r.value.dataFrames) && r.value.Backed(pt.entries, end)
                && FreshPages(old(mem.frames), mem.frames, old(alloc.InUse()), alloc.InUse(), old(pt.frames), pt.frames,
                              pt.entries, start, end)
      ensures r.Some? && mapType != Framed ==>
                && r.value == this && Fixed(pt.entries, end)
                && Grew(old(mem.frames), mem.frames, old(pt.frames), pt.frames, old(alloc.InUse()), alloc.InUse())
      ensures r.Some? ==> forall v: nat :: start <= v < end ==> v in pt.entries && SameBits(perm, pt.entries[v].1)
      ensures r.Some? && mapType == Identical ==>
                forall v: nat :: start <= v < end ==> v in pt.entries && pt.entries[v].0 == v
      ensures r.Some? && mapType.Linear? ==>
                forall v: nat :: start <= v < end ==> v in pt.entries && pt.entries[v].0 == v + mapType.offset
    {
      hide Refines, TreeOk, NoDup, WithV, FrameOf, Below, FreshPages, Backing, Pages, Outside, Backed, Fixed, Grew;
      if mapType == Framed {
        r := MapFrames(pt, mem, alloc);
        if r.Some? { BackedIs(r.value, pt.entries); }
      } else {
        r := MapFixed(pt, mem, alloc);
        if r.Some? { FixedIs(pt.entries); }
      }
    }

    lemma FixedIs(entries: map<nat, (nat, nat)>)
      requires Valid() && mapType != Framed && Fixed(entries, end)
      ensures forall v: nat :: start <= v < end ==>
                v in entries && SameBits(perm, entries[v].1)
                && entries[v].0 == if mapType.Linear? then v + mapType.offset else v
    {
      hide WithV, SameBits;
      WithVBits(perm);
    }

    /** Pages [start, upto) are mapped to the frames their numbers give. */
    ghost predicate Fixed(entries: map<nat, (nat, nat)>, upto: nat) {
      forall v: nat :: start <= v < upto ==> v in entries && entries[v] == (FixedPpn(v), WithV(perm))
    }

    method MapFixed(pt: PageTable, mem: PhysMemory, alloc: StackFrameAllocator) returns (r: Option<MapArea>)
      requires Valid() && mapType != Framed
      requires alloc.Valid() && alloc.end <= PPN_BOUND && pt.Valid(mem.frames, alloc.InUse())
      modifies pt`frames, pt`pos, pt`entries, mem, alloc`current, alloc`recycled
      ensures alloc.Valid()
      ensures r.None? ==> (exists v: nat :: start <= v < end && v in old(pt.entries))
                          || forall p: nat :: alloc.Managed(p) ==> p in alloc.InUse()
      ensures r.Some? ==>
                && r.value == this && Fixed(pt.entries, end) && pt.Valid(mem.frames, alloc.InUse())
                && Outside(old(pt.entries), pt.entries, Pages(start, end))
                && Grew(old(mem.frames), mem.frames, old(pt.frames), pt.frames, old(alloc.InUse()), alloc.InUse())
    {
      hide Refines, TreeOk, NoDup, WithV, FrameOf, Below, Pages, Outside, Grew, Backing;
      var vpn := start;
      NoneOutside(pt.entries, start);
      GrewNone(mem.frames, pt.frames, alloc.InUse());
      while vpn < end
        invariant start <= vpn <= end && alloc.Valid() && pt.Valid(mem.frames, alloc.InUse())
        invariant Fixed(pt.entries, vpn) && Outside(old(pt.entries), pt.entries, Pages(start, vpn))
        invariant Grew(old(mem.frames), mem.frames, old(pt.frames), pt.frames, old(alloc.InUse()), alloc.InUse())
      {
        ghost var m, u, tf, es := mem.frames, alloc.InUse(), pt.frames, pt.entries;
        var next := MapOne(pt, vpn, mem, alloc);
        if next.None? {
          NotMappedYet(old(pt.entries), es, start, vpn);
          return None;
        }
        MoreOutside(old(pt.entries), es, start, vpn, (FixedPpn(vpn), WithV(perm)));
        GrewMore(old(mem.frames), m, mem.frames, old(pt.frames), tf, pt.frames, old(alloc.InUse()), u, alloc.InUse());
        vpn := vpn + 1;
      }
      r := Some(this);
    }

    /** The framed case. */
    method MapFrames(pt: PageTable, mem: PhysMemory, alloc: StackFrameAllocator) returns (r: Option<MapArea>)
      requires Valid() && mapType == Framed && dataFrames == map[]
      requires alloc.Valid() && alloc.end <= PPN_BOUND && pt.Valid(mem.frames, alloc.InUse())
      modifies pt`frames, pt`pos, pt`entries, mem, alloc`current, alloc`recycled
      ensures alloc.Valid()
      ensures r.None? ==> (exists v: nat :: start <= v < end && v in old(pt.entries))
                          || forall p: nat :: alloc.Managed(p) ==> p in alloc.InUse()
      ensures r.Some? ==>
                && r.value == this.(dataFrames := r.value.dataFrames) && r.value.Backed(pt.entries, end)
                && pt.Valid(mem.frames, alloc.InUse())
                && Outside(old(pt.entries), pt.entries, Pages(start, end))
                && FreshPages(old(mem.frames), mem.frames, old(alloc.InUse()), alloc.InUse(), old(pt.frames), pt.frames,
                              pt.entries, start, end)
    {
      hide Refines, TreeOk, NoDup, WithV, FrameOf, Below, FreshPages, Backing, Pages, Outside, Backed;
      var area := this;
      var vpn := start;
      NoPages(mem.frames, alloc.InUse(), pt.frames, pt.entries, this);
      while vpn < end
        invariant start <= vpn <= end && area == this.(dataFrames := area.dataFrames)
        invariant alloc.Valid() && pt.Valid(mem.frames, alloc.InUse())
        invariant area.Backed(pt.entries, vpn)
        invariant Outside(old(pt.entries), pt.entries, Pages(start, vpn))
        invariant FreshPages(old(mem.frames), mem.frames, old(alloc.InUse()), alloc.InUse(), old(pt.frames), pt.frames,
                             pt.entries, start, vpn)
      {
        ghost var m, u, tf, es := mem.frames, alloc.InUse(), pt.frames, pt.entries;
        var next := area.MapOne(pt, vpn, mem, alloc);
        if next.None? {
          NotMappedYet(old(pt.entries), es, start, vpn);
          return None;
        }
        MorePages(old(mem.frames), m, mem.frames, old(alloc.InUse()), u, alloc.InUse(), old(pt.frames), tf, pt.frames,
                  old(pt.entries), es, pt.entries, area, next.value, vpn);
        area, vpn := next.value, vpn + 1;
      }
      r := Some(area);
    }
  }

  /** `unmap_one`: dropping the frame gives it back to the allocator, then the
      page is unmapped.  Neither step can fail. */
  method UnmapOne(area: MapArea, pt: PageTable, vpn: nat, mem: PhysMemory, alloc: StackFrameAllocator,
                  ghost all: MapArea)
    returns (area': MapArea)
    requires alloc.Valid() && pt.Valid(mem.frames, alloc.InUse()) && all.start <= vpn < all.end < VPN_BOUND
    requires area == all.(dataFrames := all.dataFrames - Pages(all.start, vpn)) && vpn in pt.entries
    requires all.Holds(alloc.InUse(), pt.frames, vpn)
    modifies pt`entries, mem, alloc`recycled
    ensures alloc.Valid() && pt.Valid(mem.frames, alloc.InUse())
    ensures area' == all.(dataFrames := all.dataFrames - Pages(all.start, vpn + 1))
    ensures pt.entries == old(pt.entries) - {vpn}
    ensures vpn in all.dataFrames && alloc.InUse() == old(alloc.InUse()) - {all.dataFrames[vpn]}
    ensures all.Holds(alloc.InUse(), pt.frames, vpn + 1)
  {
    hide Refines, TreeOk, NoDup, FrameOf, Pages, Taken;
    UnmapNext(area, all, vpn, alloc.InUse(), pt.frames);
    var f := area.dataFrames[vpn];
    area' := area.(dataFrames := area.dataFrames - {vpn});
    TakenRange(alloc.base, alloc.current, alloc.recycled, f);
    var given := alloc.Dealloc(f);
    assert given;
    var ok := pt.Unmap(vpn, mem, alloc.InUse());
    assert ok;
  }

  lemma TakenRange(base: nat, current: nat, recycled: seq<nat>, f: nat)
    requires f in Taken(base, current, recycled)
    ensures base <= f
  {
  }

  /** Page vpn's frame is the area's own, and the later pages keep theirs once it is gone. */
  lemma UnmapNext(area: MapArea, all: MapArea, vpn: nat, u: set<nat>, tf: seq<nat>)
    requires all.start <= vpn < all.end && area == all.(dataFrames := all.dataFrames - Pages(all.start, vpn))
    requires all.Holds(u, tf, vpn)
    ensures vpn in area.dataFrames && vpn in all.dataFrames && area.dataFrames[vpn] == all.dataFrames[vpn]
    ensures all.dataFrames[vpn] in u && all.dataFrames[vpn] !in tf
    ensures area.(dataFrames := area.dataFrames - {vpn})
         == all.(dataFrames := all.dataFrames - Pages(all.start, vpn + 1))
    ensures all.Holds(u - {all.dataFrames[vpn]}, tf, vpn + 1)
  {
    hide Pages;
    assert Pages(all.start, vpn + 1) == Pages(all.start, vpn) + {vpn};
  }

  lemma UnmapStart(a: MapArea, es: map<nat, (nat, nat)>, u: set<nat>)
    ensures Pages(a.start, a.start) == {} && a.FramesBelow(a.start) == {}
    ensures a.dataFrames - Pages(a.start, a.start) == a.dataFrames && es - Pages(a.start, a.start) == es
    ensures u - a.FramesBelow(a.start) == u
  {
    hide Pages;
    assert Pages(a.start, a.start) == {};
  }

  lemma BackedIs(area: MapArea, entries: map<nat, (nat, nat)>)
    requires area.Backed(entries, area.end) && area.perm < 0x100
    ensures forall v: nat :: area.start <= v < area.end ==> v in entries && SameBits(area.perm, entries[v].1)
  {
    hide WithV, SameBits, Pages;
    WithVBits(area.perm);
  }

  lemma UnmapMore(es: map<nat, (nat, nat)>, lo: nat, vpn: nat)
    requires lo <= vpn && vpn in es
    ensures vpn in es - Pages(lo, vpn) && es - Pages(lo, vpn) - {vpn} == es - Pages(lo, vpn + 1)
  {
    hide Pages;
    assert Pages(lo, vpn + 1) == Pages(lo, vpn) + {vpn};
  }

  lemma UnmapStep(a: MapArea, es: map<nat, (nat, nat)>, u: set<nat>, vpn: nat)
    requires a.start <= vpn < a.end && a.Backed(es, a.end)
    ensures vpn in a.dataFrames && vpn in es - Pages(a.start, vpn)
    ensures es - Pages(a.start, vpn) - {vpn} == es - Pages(a.start, vpn + 1)
    ensures u - a.FramesBelow(vpn) - {a.dataFrames[vpn]} == u - a.FramesBelow(vpn + 1)
  {
    hide Pages, WithV;
    assert Pages(a.start, vpn + 1) == Pages(a.start, vpn) + {vpn};
    assert a.FramesBelow(vpn + 1) == a.FramesBelow(vpn) + {a.dataFrames[vpn]};
  }

  lemma UnmapEnd(a: MapArea, es: map<nat, (nat, nat)>)
    requires a.Backed(es, a.end)
    ensures a.dataFrames - Pages(a.start, a.end) == map[]
  {
    hide Pages, WithV;
  }

  /** The table of `pt` is not touched by zeroing a frame that was free. */
  lemma StillTable(pt: PageTable, m: Memory, m': Memory, u: set<nat>, u': set<nat>, f: nat)
    requires pt.Valid(m, u) && f !in u && m' == m[f := ZeroFrame()] && u' == u + {f}
    ensures pt.Valid(m', u')
  {
    hide NoDup, ZeroFrame;
    assert forall p :: p in pt.pos ==> FrameOf(m', p) == FrameOf(m, p);
    TableFrame(m, m', pt.rootPpn, pt.pos);
  }

  /** Frame f was free and now holds zeros; apart from it and the table's own frames memory is as it was, and the table
      took only frames that were free and are not f. */
  ghost predicate Backing(m: Memory, m': Memory, u: set<nat>, u': set<nat>, tf: seq<nat>, tf': seq<nat>, f: nat) {
    && f !in u && f in u' && u <= u' && tf <= tf' && f !in tf' && FrameOf(m', f) == ZeroFrame()
    && (forall p :: p in tf' && p !in tf ==> p !in u && p in u')
    && (forall p: nat :: p != f && p !in tf' ==> FrameOf(m', p) == FrameOf(m, p))
  }

  lemma BackingOf(m: Memory, m': Memory, m1: Memory, u: set<nat>, u1: set<nat>, u': set<nat>, tf: seq<nat>,
                  tf': seq<nat>, f: nat)
    requires f !in u && m1 == m[f := ZeroFrame()] && u1 == u + {f} && Grew(m1, m', tf, tf', u1, u')
    requires forall p :: p in tf ==> p in u
    ensures Backing(m, m', u, u', tf, tf', f)
  {
    hide ZeroFrame;
    var added := tf'[|tf|..];
    assert tf' == tf + added;
    assert forall p: nat :: p != f ==> FrameOf(m1, p) == FrameOf(m, p);
  }

  /** Pages outside s are mapped as before, those in s were not mapped. */
  ghost predicate Outside(es: map<nat, (nat, nat)>, es': map<nat, (nat, nat)>, s: set<nat>) {
    && es'.Keys == es.Keys + s && es.Keys !! s
    && forall v :: v in es ==> es'[v] == es[v]
  }

  /** The pages [lo, hi) have frames of their own: each was free, holds zeros, backs one page and is no table frame. */
  ghost predicate FreshPages(m: Memory, m': Memory, u: set<nat>, u': set<nat>, tf: seq<nat>, tf': seq<nat>,
                             es: map<nat, (nat, nat)>, lo: nat, hi: nat) {
    && u <= u' && tf <= tf'
    && (forall p :: p in tf' && p !in tf ==> p !in u && p in u')
    && (forall v: nat :: lo <= v < hi ==> v in es && es[v].0 !in u && es[v].0 in u' && es[v].0 !in tf')
    && (forall v: nat :: lo <= v < hi ==> v in es && FrameOf(m', es[v].0) == ZeroFrame())
    && (forall v: nat, w: nat :: lo <= v < w < hi ==> v in es && w in es && es[v].0 != es[w].0)
    && (forall p: nat :: p in u && p !in tf ==> FrameOf(m', p) == FrameOf(m, p))
  }

  lemma NoPages(m: Memory, u: set<nat>, tf: seq<nat>, es: map<nat, (nat, nat)>, area: MapArea)
    requires area.dataFrames == map[]
    ensures FreshPages(m, m, u, u, tf, tf, es, area.start, area.start)
    ensures Outside(es, es, Pages(area.start, area.start)) && area.Backed(es, area.start)
  {
    assert Pages(area.start, area.start) == {};
  }

  lemma NoneOutside(es: map<nat, (nat, nat)>, lo: nat)
    ensures Outside(es, es, Pages(lo, lo))
  {
    assert Pages(lo, lo) == {};
  }

  lemma NotMappedYet(es0: map<nat, (nat, nat)>, es: map<nat, (nat, nat)>, start: nat, vpn: nat)
    requires start <= vpn && Outside(es0, es, Pages(start, vpn))
    ensures vpn in es ==> vpn in es0
  {
    assert vpn !in Pages(start, vpn);
  }

  lemma MorePages(m0: Memory, m: Memory, m': Memory, u0: set<nat>, u: set<nat>, u': set<nat>,
                  tf0: seq<nat>, tf: seq<nat>, tf': seq<nat>,
                  es0: map<nat, (nat, nat)>, es: map<nat, (nat, nat)>, es': map<nat, (nat, nat)>,
                  area: MapArea, area': MapArea, vpn: nat)
    requires area.start <= vpn && area.Backed(es, vpn) && Outside(es0, es, Pages(area.start, vpn)) && vpn !in es
    requires FreshPages(m0, m, u0, u, tf0, tf, es, area.start, vpn) && (forall p :: p in tf0 ==> p in u0)
    requires (forall p :: p in tf ==> p in u)
    requires exists f: nat ::
               && area' == area.(dataFrames := area.dataFrames[vpn := f])
               && es' == es[vpn := (f, WithV(area.perm))]
               && Backing(m, m', u, u', tf, tf', f)
    ensures area'.Backed(es', vpn + 1) && Outside(es0, es', Pages(area.start, vpn + 1))
    ensures FreshPages(m0, m', u0, u', tf0, tf', es', area.start, vpn + 1)
  {
    hide Pages, Outside, Backing, FreshPages;
    var f: nat :| area' == area.(dataFrames := area.dataFrames[vpn := f]) && es' == es[vpn := (f, WithV(area.perm))]
                  && Backing(m, m', u, u', tf, tf', f);
    MoreBacked(es, area, vpn, f);
    MoreOutside(es0, es, area.start, vpn, (f, WithV(area.perm)));
    MoreFresh(m0, m, m', u0, u, u', tf0, tf, tf', es, area.start, vpn, f, WithV(area.perm));
  }

  lemma MoreBacked(es: map<nat, (nat, nat)>, area: MapArea, vpn: nat, f: nat)
    requires area.start <= vpn && area.Backed(es, vpn)
    ensures area.(dataFrames := area.dataFrames[vpn := f]).Backed(es[vpn := (f, WithV(area.perm))], vpn + 1)
  {
    hide WithV, Pages;
    assert Pages(area.start, vpn + 1) == Pages(area.start, vpn) + {vpn};
  }

  lemma MoreOutside(es0: map<nat, (nat, nat)>, es: map<nat, (nat, nat)>, lo: nat, vpn: nat, x: (nat, nat))
    requires lo <= vpn && Outside(es0, es, Pages(lo, vpn)) && vpn !in es
    ensures Outside(es0, es[vpn := x], Pages(lo, vpn + 1))
  {
    hide Pages;
    assert Pages(lo, vpn + 1) == Pages(lo, vpn) + {vpn};
  }

  lemma MoreFresh(m0: Memory, m: Memory, m': Memory, u0: set<nat>, u: set<nat>, u': set<nat>,
                  tf0: seq<nat>, tf: seq<nat>, tf': seq<nat>, es: map<nat, (nat, nat)>,
                  lo: nat, vpn: nat, f: nat, flags: nat)
    requires lo <= vpn && vpn !in es && FreshPages(m0, m, u0, u, tf0, tf, es, lo, vpn)
    requires Backing(m, m', u, u', tf, tf', f)
    requires (forall p :: p in tf0 ==> p in u0) && (forall p :: p in tf ==> p in u)
    ensures FreshPages(m0, m', u0, u', tf0, tf', es[vpn := (f, flags)], lo, vpn + 1)
  {
    hide FrameOf, ZeroFrame;
    var es' := es[vpn := (f, flags)];
    forall v: nat | lo <= v < vpn + 1
      ensures v in es' && es'[v].0 !in u0 && es'[v].0 in u' && es'[v].0 !in tf'
      ensures FrameOf(m', es'[v].0) == ZeroFrame()
    {
      if v < vpn { OldPage(m0, m, m', u0, u, u', tf0, tf, tf', es, lo, vpn, f, v); }
    }
    forall v: nat, w: nat | lo <= v < w < vpn + 1 ensures es'[v].0 != es'[w].0 {
      assert v in es && es[v].0 in u;
    }
    assert tf0 <= tf';
    forall p | p in tf' && p !in tf0 ensures p !in u0 && p in u' { }
    forall p: nat | p in u0 && p !in tf0 ensures FrameOf(m', p) == FrameOf(m0, p) { OldFrame(u0, u, tf0, tf, tf', p); }
  }

  lemma OldPage(m0: Memory, m: Memory, m': Memory, u0: set<nat>, u: set<nat>, u': set<nat>,
                tf0: seq<nat>, tf: seq<nat>, tf': seq<nat>, es: map<nat, (nat, nat)>, lo: nat, vpn: nat, f: nat, v: nat)
    requires lo <= v < vpn && FreshPages(m0, m, u0, u, tf0, tf, es, lo, vpn) && Backing(m, m', u, u', tf, tf', f)
    ensures v in es && es[v].0 !in u0 && es[v].0 in u' && es[v].0 !in tf' && FrameOf(m', es[v].0) == ZeroFrame()
  {
    hide FrameOf, ZeroFrame;
    assert v in es && es[v].0 in u && es[v].0 !in tf;
  }

  lemma OldFrame(u0: set<nat>, u: set<nat>, tf0: seq<nat>, tf: seq<nat>, tf': seq<nat>, p: nat)
    requires p in u0 && p !in tf0 && u0 <= u
    requires forall p :: p in tf && p !in tf0 ==> p !in u0
    requires forall p :: p in tf' && p !in tf ==> p !in u
    ensures p !in tf'
  {
  }

  // ---- fork ----

  /** Pages of the first n areas. */
  function AreaPages(areas: seq<MapArea>, n: nat): set<nat>
    requires n <= |areas|
  {
    if n == 0 then {} else AreaPages(areas, n - 1) + Pages(areas[n - 1].start, areas[n - 1].end)
  }

  /** Pages s of the child have frames of their own, which were free before, one each, none of them a table frame. */
  ghost predicate Placed(u0: set<nat>, u: set<nat>, tf: seq<nat>, ce: map<nat, (nat, nat)>, s: set<nat>) {
    && u0 <= u
    && (forall p :: p in tf ==> p !in u0 && p in u)
    && (forall v :: v in s ==> v in ce && ce[v].0 !in u0 && ce[v].0 in u && ce[v].0 !in tf)
    && (forall v, w :: v in s && w in s && v != w ==> v in ce && w in ce && ce[v].0 != ce[w].0)
  }

  /** Pages c of the child read as the parent's did. */
  ghost predicate SameContents(m0: Memory, m: Memory, pe: map<nat, (nat, nat)>, ce: map<nat, (nat, nat)>, c: set<nat>) {
    forall v :: v in c ==> v in ce && v in pe && FrameOf(m, ce[v].0) == FrameOf(m0, pe[v].0)
  }

  ghost predicate Untouched(m0: Memory, m: Memory, u0: set<nat>) {
    forall p :: p in u0 ==> FrameOf(m, p) == FrameOf(m0, p)
  }

  /** A user space that can be copied: framed, disjoint areas below the
      trampoline, every page mapped to a frame in use. */
  ghost predicate Copyable(areas: seq<MapArea>, pe: map<nat, (nat, nat)>, u0: set<nat>) {
    && (forall i :: 0 <= i < |areas| ==>
          areas[i].Valid() && areas[i].mapType == Framed && areas[i].end <= TRAMPOLINE_VPN)
    && (forall i, j :: 0 <= i < j < |areas| ==>
          Pages(areas[i].start, areas[i].end) !! Pages(areas[j].start, areas[j].end))
    && (forall i, v: nat :: 0 <= i < |areas| && areas[i].start <= v < areas[i].end ==> v in pe && pe[v].0 in u0)
  }

  /** The child has the parent's area i with the same range and permissions, and backs every page of it. */
  ghost predicate SameArea(a: MapArea, b: MapArea, ce: map<nat, (nat, nat)>) {
    b == a.(dataFrames := b.dataFrames) && b.Backed(ce, b.end)
  }

  class MemorySet {
    const pageTable: PageTable
    var areas: seq<MapArea>

    constructor (pt: PageTable)
      ensures pageTable == pt && areas == []
    {
      pageTable := pt;
      areas := [];
    }

    /** Copy the pages of one area, frame by frame, from the parent to where this space has them. */
    method CopyArea(parent: MemorySet, area: MapArea, mem: PhysMemory, ghost m0: Memory, ghost u0: set<nat>,
                    ghost u: set<nat>,
                    ghost s: set<nat>)
      requires area.Valid() && pageTable.Valid(mem.frames, u) && parent.pageTable.Valid(m0, u0)
      requires Placed(u0, u, pageTable.frames, pageTable.entries, s + Pages(area.start, area.end))
      requires SameContents(m0, mem.frames, parent.pageTable.entries, pageTable.entries, s)
      requires Untouched(m0, mem.frames, u0)
      requires forall v: nat :: area.start <= v < area.end ==>
                   v in parent.pageTable.entries && parent.pageTable.entries[v].0 in u0
      requires s !! Pages(area.start, area.end)
      modifies mem
      ensures pageTable.Valid(mem.frames, u) && Untouched(m0, mem.frames, u0)
      ensures SameContents(m0, mem.frames, parent.pageTable.entries, pageTable.entries, s + Pages(area.start, area.end))
    {
      hide NoDup, FrameOf, Pages, TreeOk, Refines, Mapping, Untouched, SameContents, Placed;
      ghost var pe, ce := parent.pageTable.entries, pageTable.entries;
      var vpn := area.start;
      NoPagesYet(s, area.start);
      while vpn < area.end
        invariant area.start <= vpn <= area.end
        invariant pageTable.Valid(mem.frames, u) && Untouched(m0, mem.frames, u0)
        invariant SameContents(m0, mem.frames, pe, ce, s + Pages(area.start, vpn))
      {
        ParentTable(parent.pageTable, m0, mem.frames, u0);
        var src := parent.pageTable.Translate(vpn, mem, u0);
        var dst := pageTable.Translate(vpn, mem, u);
        PageIn(u0, u, pageTable.frames, ce, s, area.start, area.end, vpn);
        ghost var m := mem.frames;
        mem.frames := mem.frames[PpnOf(dst.value) := FrameOf(mem.frames, PpnOf(src.value))];
        CopyOne(m0, m, mem.frames, u0, u, pageTable, pe, ce, s, area.start, area.end, vpn);
        vpn := vpn + 1;
      }
    }

    /** Area i of the parent: map it here, then copy its pages.  False only when the frames run out. */
    method ForkArea(parent: MemorySet, i: nat, mem: PhysMemory, alloc: StackFrameAllocator,
                    ghost m0: Memory, ghost u0: set<nat>, ghost tramp: (nat, nat))
      returns (ok: bool)
      requires this != parent && pageTable != parent.pageTable && i < |parent.areas| && |areas| == i
      requires alloc.Valid() && alloc.end <= PPN_BOUND && pageTable.Valid(mem.frames, alloc.InUse())
      requires parent.pageTable.Valid(m0, u0) && Copyable(parent.areas, parent.pageTable.entries, u0)
      requires Forked(m0, mem.frames, u0, alloc.InUse(), parent.pageTable.entries, pageTable.frames, pageTable.entries,
                      parent.areas, areas, i, tramp)
      modifies `areas, pageTable`frames, pageTable`pos, pageTable`entries, mem, alloc`current, alloc`recycled
      ensures alloc.Valid()
      ensures !ok ==> forall p: nat :: alloc.Managed(p) ==> p in alloc.InUse()
      ensures ok ==>
                && pageTable.Valid(mem.frames, alloc.InUse()) && |areas| == i + 1
                && Forked(m0, mem.frames, u0, alloc.InUse(), parent.pageTable.entries, pageTable.frames,
                          pageTable.entries, parent.areas, areas, i + 1, tramp)
    {
      hide NoDup, FrameOf, TreeOk, Refines, Mapping, Untouched, SameContents, Placed, AreaPages, SameArea, Copyable,
           Forked, Outside, FreshPages, Pages;
      ghost var pe := parent.pageTable.entries;
      ghost var m, u, tf, ce := mem.frames, alloc.InUse(), pageTable.frames, pageTable.entries;
      var area := parent.areas[i];
      AreaAt(parent.areas, pe, u0, i);
      NotYetThere(m0, m, u0, u, pe, tf, ce, parent.areas, areas, i, tramp);
      var mapped := area.(dataFrames := map[]).Map(pageTable, mem, alloc);
      if mapped.None? { return false; }
      ghost var m2, u2 := mem.frames, alloc.InUse();
      AfterMap(m0, m, m2, u0, u, u2, pe, tf, pageTable.frames, ce, pageTable.entries, parent.areas, areas, i, tramp);
      FromAnother(area, mapped.value, pageTable.entries);
      areas := areas + [mapped.value];
      CopyArea(parent, area, mem, m0, u0, u2, AreaPages(parent.areas, i));
      assert areas[..i] == old(areas);
      NextArea(m0, m, mem.frames, u0, u, u2, pe, tf, pageTable.frames, ce, pageTable.entries, parent.areas, areas,
               i, tramp);
      ok := true;
    }

    /** `from_existed_user`.  Null only when the frames run out: then the source panics. */
    static method FromExistedUser(parent: MemorySet, mem: PhysMemory, alloc: StackFrameAllocator, trampoline: nat)
      returns (child: MemorySet?)
      requires alloc.Valid() && alloc.end <= PPN_BOUND && trampoline < PPN_BOUND
      requires parent.pageTable.Valid(mem.frames, alloc.InUse())
      requires Copyable(parent.areas, parent.pageTable.entries, alloc.InUse())
      modifies mem, alloc`current, alloc`recycled
      ensures alloc.Valid()
      ensures child == null ==> forall p: nat :: alloc.Managed(p) ==> p in alloc.InUse()
      ensures child != null ==>
                && Untouched(old(mem.frames), mem.frames, old(alloc.InUse()))
                && fresh(child) && child.pageTable.Valid(mem.frames, alloc.InUse())
                && child.pageTable.entries.Keys == AreaPages(parent.areas, |parent.areas|) + {TRAMPOLINE_VPN}
                && child.pageTable.entries[TRAMPOLINE_VPN] == (trampoline, WithV(PTE_R + PTE_X))
                && |child.areas| == |parent.areas|
                && (forall i :: 0 <= i < |parent.areas| ==>
                      SameArea(parent.areas[i], child.areas[i], child.pageTable.entries))
                && Placed(old(alloc.InUse()), alloc.InUse(), child.pageTable.frames, child.pageTable.entries,
                          AreaPages(parent.areas, |parent.areas|))
                && SameContents(old(mem.frames), mem.frames, parent.pageTable.entries, child.pageTable.entries,
                                AreaPages(parent.areas, |parent.areas|))
      ensures child != null ==>
                && SamePermissions(parent.areas, parent.pageTable.entries, child.pageTable.entries)
                && Copied(parent.areas, parent.pageTable.entries, child.pageTable.entries, old(mem.frames), mem.frames,
                          old(alloc.InUse()))
    {
      hide NoDup, FrameOf, TreeOk, Refines, Mapping, Untouched, SameContents, Placed, AreaPages, SameArea, Copyable,
           WithV, Grew, Forked, Outside, FreshPages, Pages, SamePermissions, Copied, Taken;
      ghost var m0, u0, pe := mem.frames, alloc.InUse(), parent.pageTable.entries;
      ghost var tramp := (trampoline, WithV(PTE_R + PTE_X));
      child := WithTrampoline(mem, alloc, trampoline, parent.areas, pe);
      if child == null { return; }
      var ok := child.ForkAreas(parent, mem, alloc, m0, u0, tramp);
      if !ok { return null; }
      ForkedAll(m0, mem.frames, u0, alloc.InUse(), pe, child.pageTable.frames, child.pageTable.entries, parent.areas,
                child.areas, tramp);
      AreasValid(parent.areas, pe, u0);
      PermissionsKept(parent.areas, child.areas, pe, child.pageTable.entries);
      ContentsKept(parent.areas, pe, child.pageTable.entries, m0, mem.frames, u0, alloc.InUse(),
                   child.pageTable.frames);
    }

    /** `new_bare` and `map_trampoline`. */
    static method WithTrampoline(mem: PhysMemory, alloc: StackFrameAllocator, trampoline: nat,
                                 ghost pas: seq<MapArea>, ghost pe: map<nat, (nat, nat)>)
      returns (child: MemorySet?)
      requires alloc.Valid() && alloc.end <= PPN_BOUND && trampoline < PPN_BOUND
      modifies mem, alloc`current, alloc`recycled
      ensures alloc.Valid()
      ensures child == null ==> forall p: nat :: alloc.Managed(p) ==> p in alloc.InUse()
      ensures child != null ==>
                && fresh(child) && fresh(child.pageTable) && child.areas == []
                && child.pageTable.Valid(mem.frames, alloc.InUse())
                && Forked(old(mem.frames), mem.frames, old(alloc.InUse()), alloc.InUse(), pe, child.pageTable.frames,
                          child.pageTable.entries, pas, child.areas, 0, (trampoline, WithV(PTE_R + PTE_X)))
    {
      hide NoDup, FrameOf, TreeOk, Refines, Mapping, WithV, Grew, Forked, Taken;
      ghost var m0, u0 := mem.frames, alloc.InUse();
      var pt := PageTable.New(mem, alloc);
      if pt == null { return null; }
      ghost var m1, u1, tf1 := mem.frames, alloc.InUse(), pt.frames;
      var r := pt.Map(TRAMPOLINE_VPN, trampoline, PTE_R + PTE_X, mem, alloc);
      if !r.Done? { return null; }
      child := new MemorySet(pt);
      ghost var tramp := (trampoline, WithV(PTE_R + PTE_X));
      StartFork(m0, m1, mem.frames, u0, u1, alloc.InUse(), pe, pt.rootPpn, tf1, pt.frames, pt.entries, pas, tramp);
    }

    /** The loop over the parent's areas.  False only when the frames run out. */
    method ForkAreas(parent: MemorySet, mem: PhysMemory, alloc: StackFrameAllocator,
                     ghost m0: Memory, ghost u0: set<nat>, ghost tramp: (nat, nat))
      returns (ok: bool)
      requires this != parent && pageTable != parent.pageTable && areas == []
      requires alloc.Valid() && alloc.end <= PPN_BOUND && pageTable.Valid(mem.frames, alloc.InUse())
      requires parent.pageTable.Valid(m0, u0) && Copyable(parent.areas, parent.pageTable.entries, u0)
      requires Forked(m0, mem.frames, u0, alloc.InUse(), parent.pageTable.entries, pageTable.frames, pageTable.entries,
                      parent.areas, areas, 0, tramp)
      modifies `areas, pageTable`frames, pageTable`pos, pageTable`entries, mem, alloc`current, alloc`recycled
      ensures alloc.Valid()
      ensures !ok ==> forall p: nat :: alloc.Managed(p) ==> p in alloc.InUse()
      ensures ok ==>
                && pageTable.Valid(mem.frames, alloc.InUse()) && |areas| == |parent.areas|
                && Forked(m0, mem.frames, u0, alloc.InUse(), parent.pageTable.entries, pageTable.frames,
                          pageTable.entries, parent.areas, areas, |parent.areas|, tramp)
    {
      hide NoDup, FrameOf, TreeOk, Refines, Mapping, Copyable, Forked, Taken;
      var i := 0;
      while i < |parent.areas|
        invariant i <= |parent.areas| && |areas| == i
        invariant alloc.Valid() && pageTable.Valid(mem.frames, alloc.InUse())
        invariant Forked(m0, mem.frames, u0, alloc.InUse(), parent.pageTable.entries, pageTable.frames,
                         pageTable.entries, parent.areas, areas, i, tramp)
      {
        ok := ForkArea(parent, i, mem, alloc, m0, u0, tramp);
        if !ok { return; }
        i := i + 1;
      }
      ok := true;
    }
  }

  /** Every page of every area reads in the child as it did in the parent, from a frame that was free before. */
  ghost predicate Copied(areas: seq<MapArea>, pe: map<nat, (nat, nat)>, ce: map<nat, (nat, nat)>,
                         m0: Memory, m: Memory, u0: set<nat>) {
    forall i, v: nat :: 0 <= i < |areas| && areas[i].start <= v < areas[i].end ==>
      && v in ce && v in pe && ce[v].0 !in u0
      && FrameOf(m, ce[v].0) == FrameOf(m0, pe[v].0)
  }

  lemma ContentsKept(areas: seq<MapArea>, pe: map<nat, (nat, nat)>, ce: map<nat, (nat, nat)>, m0: Memory, m: Memory,
                     u0: set<nat>, u: set<nat>, tf: seq<nat>)
    requires Placed(u0, u, tf, ce, AreaPages(areas, |areas|)) && SameContents(m0, m, pe, ce, AreaPages(areas, |areas|))
    ensures Copied(areas, pe, ce, m0, m, u0)
  {
    hide FrameOf, AreaPages;
    forall i: nat, v: nat | i < |areas| && areas[i].start <= v < areas[i].end ensures v in AreaPages(areas, |areas|) {
      InArea(areas, |areas|, i, v);
    }
  }

  lemma {:induction false} InArea(areas: seq<MapArea>, n: nat, i: nat, v: nat)
    requires i < n <= |areas| && areas[i].start <= v < areas[i].end
    ensures v in AreaPages(areas, n)
  {
    hide Pages;
    if i < n - 1 { InArea(areas, n - 1, i, v); }
  }

  /** Every page of the child has exactly the bits of its area's permissions and V; so it has the parent's, if the
      parent had mapped the area as it maps areas. */
  ghost predicate SamePermissions(areas: seq<MapArea>, pe: map<nat, (nat, nat)>, ce: map<nat, (nat, nat)>) {
    forall i, v: nat :: 0 <= i < |areas| && areas[i].start <= v < areas[i].end ==>
      && v in ce && SameBits(areas[i].perm, ce[v].1)
      && (areas[i].Backed(pe, areas[i].end) ==> v in pe && ce[v].1 == pe[v].1)
  }

  lemma PermissionsKept(areas: seq<MapArea>, bs: seq<MapArea>, pe: map<nat, (nat, nat)>, ce: map<nat, (nat, nat)>)
    requires |areas| == |bs| && forall i :: 0 <= i < |areas| ==> areas[i].Valid() && SameArea(areas[i], bs[i], ce)
    ensures SamePermissions(areas, pe, ce)
  {
    hide SameBits, WithV, Pages;
    forall i, v: nat | 0 <= i < |areas| && areas[i].start <= v < areas[i].end
      ensures v in ce && SameBits(areas[i].perm, ce[v].1)
      ensures areas[i].Backed(pe, areas[i].end) ==> v in pe && ce[v].1 == pe[v].1
    {
      BackedIs(bs[i], ce);
    }
  }

  lemma AreasValid(areas: seq<MapArea>, pe: map<nat, (nat, nat)>, u0: set<nat>)
    requires Copyable(areas, pe, u0)
    ensures forall i :: 0 <= i < |areas| ==> areas[i].Valid()
  {
  }

  lemma FromAnother(a: MapArea, b: MapArea, ce: map<nat, (nat, nat)>)
    requires b == a.(dataFrames := b.dataFrames) && b.Backed(ce, a.end)
    ensures SameArea(a, b, ce)
  {
    hide WithV, Pages;
  }

  lemma NoPagesYet(s: set<nat>, lo: nat)
    ensures s + Pages(lo, lo) == s
  {
    hide Pages;
  }

  /** The parent's table is as it was: all its frames were in use. */
  lemma ParentTable(pt: PageTable, m0: Memory, m: Memory, u0: set<nat>)
    requires pt.Valid(m0, u0) && Untouched(m0, m, u0)
    ensures pt.Valid(m, u0)
  {
    hide NoDup, FrameOf;
    TableFrame(m0, m, pt.rootPpn, pt.pos);
  }

  lemma PageIn(u0: set<nat>, u: set<nat>, tf: seq<nat>, ce: map<nat, (nat, nat)>, s: set<nat>, lo: nat, hi: nat, v: nat)
    requires Placed(u0, u, tf, ce, s + Pages(lo, hi)) && lo <= v < hi
    ensures v in ce && ce[v].0 !in u0 && ce[v].0 !in tf
  {
    hide Pages;
    assert v in s + Pages(lo, hi);
  }

  lemma CopyOne(m0: Memory, m: Memory, m': Memory, u0: set<nat>, u: set<nat>, pt: PageTable,
                pe: map<nat, (nat, nat)>, ce: map<nat, (nat, nat)>, s: set<nat>, lo: nat, hi: nat, v: nat)
    requires ce == pt.entries && pt.Valid(m, u) && Placed(u0, u, pt.frames, ce, s + Pages(lo, hi)) && lo <= v < hi
    requires SameContents(m0, m, pe, ce, s + Pages(lo, v)) && Untouched(m0, m, u0)
    requires v in pe && pe[v].0 in u0 && v in ce && m' == m[ce[v].0 := FrameOf(m, pe[v].0)] && s !! Pages(lo, hi)
    ensures pt.Valid(m', u) && Untouched(m0, m', u0) && SameContents(m0, m', pe, ce, s + Pages(lo, v + 1))
  {
    hide NoDup, Pages, TreeOk, Refines, ZeroFrame;
    var f := ce[v].0;
    PageIn(u0, u, pt.frames, ce, s, lo, hi, v);
    assert forall p: nat :: p != f ==> FrameOf(m', p) == FrameOf(m, p);
    assert pt.Valid(m', u) by { OtherFrame(pt, m, m', u, f); }
    assert s + Pages(lo, v + 1) == s + Pages(lo, v) + {v};
    forall w | w in s + Pages(lo, v + 1) ensures w in ce && w in pe && FrameOf(m', ce[w].0) == FrameOf(m0, pe[w].0) {
      if w != v { assert w in s + Pages(lo, hi) && v in s + Pages(lo, hi); }
    }
  }

  /** Writing a frame that is not the table's leaves the table alone. */
  lemma OtherFrame(pt: PageTable, m: Memory, m': Memory, u: set<nat>, f: nat)
    requires pt.Valid(m, u) && f !in pt.frames && forall p: nat :: p != f ==> FrameOf(m', p) == FrameOf(m, p)
    ensures pt.Valid(m', u)
  {
    hide NoDup, FrameOf;
    TableFrame(m, m', pt.rootPpn, pt.pos);
  }

  /** The first n areas have been copied. */
  ghost predicate Forked(m0: Memory, m: Memory, u0: set<nat>, u: set<nat>, pe: map<nat, (nat, nat)>, tf: seq<nat>,
                         ce: map<nat, (nat, nat)>, pas: seq<MapArea>, cas: seq<MapArea>, n: nat, tramp: (nat, nat)) {
    && n <= |pas| && n == |cas|
    && Placed(u0, u, tf, ce, AreaPages(pas, n)) && SameContents(m0, m, pe, ce, AreaPages(pas, n))
    && Untouched(m0, m, u0)
    && ce.Keys == AreaPages(pas, n) + {TRAMPOLINE_VPN} && ce[TRAMPOLINE_VPN] == tramp
    && forall j :: 0 <= j < n ==> SameArea(pas[j], cas[j], ce)
  }

  lemma StartFork(m0: Memory, m1: Memory, m: Memory, u0: set<nat>, u1: set<nat>, u: set<nat>,
                  pe: map<nat, (nat, nat)>, root: nat,
                  tf1: seq<nat>, tf: seq<nat>, ce: map<nat, (nat, nat)>, pas: seq<MapArea>, tramp: (nat, nat))
    requires root !in u0 && m1 == m0[root := ZeroFrame()] && u1 == u0 + {root} && tf1 == [root]
    requires Grew(m1, m, tf1, tf, u1, u)
    requires ce == map[TRAMPOLINE_VPN := tramp]
    ensures Forked(m0, m, u0, u, pe, tf, ce, pas, [], 0, tramp)
  {
    hide ZeroFrame;
    var added := tf[1..];
    assert tf == [root] + added;
    forall p | p in tf ensures p !in u0 && p in u { }
    forall p | p in u0 ensures FrameOf(m, p) == FrameOf(m0, p) { assert p !in tf; }
  }

  lemma AreaAt(pas: seq<MapArea>, pe: map<nat, (nat, nat)>, u0: set<nat>, i: nat)
    requires Copyable(pas, pe, u0) && i < |pas|
    ensures pas[i].Valid() && pas[i].mapType == Framed && pas[i].end <= TRAMPOLINE_VPN
    ensures forall v: nat :: pas[i].start <= v < pas[i].end ==> v in pe && pe[v].0 in u0
    ensures AreaPages(pas, i) !! Pages(pas[i].start, pas[i].end)
  {
    hide Pages;
    EarlierApart(pas, pe, u0, i, i);
  }

  lemma {:induction false} EarlierApart(pas: seq<MapArea>, pe: map<nat, (nat, nat)>, u0: set<nat>, n: nat, i: nat)
    requires Copyable(pas, pe, u0) && n <= i < |pas|
    ensures AreaPages(pas, n) !! Pages(pas[i].start, pas[i].end)
  {
    hide Pages;
    if n > 0 { EarlierApart(pas, pe, u0, n - 1, i); }
  }

  lemma NotYetThere(m0: Memory, m: Memory, u0: set<nat>, u: set<nat>, pe: map<nat, (nat, nat)>, tf: seq<nat>,
                    ce: map<nat, (nat, nat)>, pas: seq<MapArea>, cas: seq<MapArea>, i: nat, tramp: (nat, nat))
    requires Forked(m0, m, u0, u, pe, tf, ce, pas, cas, i, tramp) && i < |pas| && pas[i].end <= TRAMPOLINE_VPN
    requires AreaPages(pas, i) !! Pages(pas[i].start, pas[i].end)
    ensures forall v: nat :: pas[i].start <= v < pas[i].end ==> v !in ce
  {
    hide Placed, SameContents, Untouched, SameArea, AreaPages, Pages;
    forall v: nat | pas[i].start <= v < pas[i].end ensures v !in ce { assert v in Pages(pas[i].start, pas[i].end); }
  }

  lemma AfterMap(m0: Memory, m: Memory, m2: Memory, u0: set<nat>, u: set<nat>, u2: set<nat>, pe: map<nat, (nat, nat)>,
                 tf: seq<nat>, tf2: seq<nat>, ce: map<nat, (nat, nat)>, ce2: map<nat, (nat, nat)>,
                 pas: seq<MapArea>, cas: seq<MapArea>, i: nat, tramp: (nat, nat))
    requires Forked(m0, m, u0, u, pe, tf, ce, pas, cas, i, tramp) && i < |pas|
    requires Outside(ce, ce2, Pages(pas[i].start, pas[i].end))
    requires FreshPages(m, m2, u, u2, tf, tf2, ce2, pas[i].start, pas[i].end)
    ensures Placed(u0, u2, tf2, ce2, AreaPages(pas, i) + Pages(pas[i].start, pas[i].end))
    ensures SameContents(m0, m2, pe, ce2, AreaPages(pas, i)) && Untouched(m0, m2, u0)
  {
    hide AreaPages, SameArea, Pages, FrameOf, ZeroFrame;
    var s, lo, hi := AreaPages(pas, i), pas[i].start, pas[i].end;
    forall v | v in s ensures v in ce2 && ce2[v] == ce[v] && ce[v].0 in u && ce[v].0 !in u0 && ce[v].0 !in tf2 {
      assert v in ce;
    }
    forall p | p in tf2 ensures p !in u0 && p in u2 { if p in tf { } }
    forall p | p in u0 ensures FrameOf(m2, p) == FrameOf(m0, p) { assert p !in tf; }
    PlacedMore(u0, u, u2, tf, tf2, ce, ce2, s, lo, hi, m, m2);
  }

  lemma PlacedMore(u0: set<nat>, u: set<nat>, u2: set<nat>, tf: seq<nat>, tf2: seq<nat>, ce: map<nat, (nat, nat)>,
                   ce2: map<nat, (nat, nat)>, s: set<nat>, lo: nat, hi: nat, m: Memory, m2: Memory)
    requires Placed(u0, u, tf, ce, s) && FreshPages(m, m2, u, u2, tf, tf2, ce2, lo, hi)
    requires forall v :: v in s ==> v in ce2 && ce2[v] == ce[v] && ce[v].0 in u && ce[v].0 !in u0 && ce[v].0 !in tf2
    requires forall p :: p in tf2 ==> p !in u0 && p in u2
    ensures Placed(u0, u2, tf2, ce2, s + Pages(lo, hi))
  {
    hide Pages, FrameOf, ZeroFrame;
    var t := s + Pages(lo, hi);
    forall v | v in t ensures v in ce2 && ce2[v].0 !in u0 && ce2[v].0 in u2 && ce2[v].0 !in tf2 { }
    forall v, w | v in t && w in t && v != w ensures ce2[v].0 != ce2[w].0 {
      if v in s && w in s { assert ce[v].0 != ce[w].0; }
      else if v !in s && w !in s { if v < w { assert ce2[v].0 != ce2[w].0; } else { assert ce2[w].0 != ce2[v].0; } }
    }
  }

  lemma NextArea(m0: Memory, m: Memory, m3: Memory, u0: set<nat>, u: set<nat>, u2: set<nat>,
                 pe: map<nat, (nat, nat)>, tf: seq<nat>, tf2: seq<nat>,
                 ce: map<nat, (nat, nat)>, ce2: map<nat, (nat, nat)>,
                 pas: seq<MapArea>, cas: seq<MapArea>, i: nat, tramp: (nat, nat))
    requires i < |pas| && |cas| == i + 1 && Forked(m0, m, u0, u, pe, tf, ce, pas, cas[..i], i, tramp)
    requires Outside(ce, ce2, Pages(pas[i].start, pas[i].end)) && SameArea(pas[i], cas[i], ce2)
    requires Placed(u0, u2, tf2, ce2, AreaPages(pas, i) + Pages(pas[i].start, pas[i].end))
    requires SameContents(m0, m3, pe, ce2, AreaPages(pas, i) + Pages(pas[i].start, pas[i].end)) && Untouched(m0, m3, u0)
    ensures Forked(m0, m3, u0, u2, pe, tf2, ce2, pas, cas, i + 1, tramp)
  {
    hide Pages, FrameOf, ZeroFrame, Placed, SameContents, Untouched, WithV, SameArea;
    assert AreaPages(pas, i + 1) == AreaPages(pas, i) + Pages(pas[i].start, pas[i].end);
    forall j | 0 <= j < i ensures SameArea(pas[j], cas[j], ce2) {
      assert SameArea(pas[j], cas[..i][j], ce);
      SameAreaStill(pas[j], cas[j], ce, ce2);
    }
  }

  lemma SameAreaStill(a: MapArea, b: MapArea, ce: map<nat, (nat, nat)>, ce2: map<nat, (nat, nat)>)
    requires SameArea(a, b, ce) && forall v :: v in ce ==> v in ce2 && ce2[v] == ce[v]
    ensures SameArea(a, b, ce2)
  {
    hide WithV, Pages;
  }

  lemma ForkedAll(m0: Memory, m: Memory, u0: set<nat>, u: set<nat>, pe: map<nat, (nat, nat)>, tf: seq<nat>,
                  ce: map<nat, (nat, nat)>, pas: seq<MapArea>, cas: seq<MapArea>, tramp: (nat, nat))
    requires Forked(m0, m, u0, u, pe, tf, ce, pas, cas, |pas|, tramp)
    ensures Placed(u0, u, tf, ce, AreaPages(pas, |pas|)) && SameContents(m0, m, pe, ce, AreaPages(pas, |pas|))
    ensures Untouched(m0, m, u0)
    ensures ce.Keys == AreaPages(pas, |pas|) + {TRAMPOLINE_VPN} && ce[TRAMPOLINE_VPN] == tramp
    ensures forall j :: 0 <= j < |pas| ==> SameArea(pas[j], cas[j], ce)
  {
    hide Placed, SameContents, Untouched, SameArea, AreaPages;
  }

  // ---- after the fork ----

  datatype Side = ParentSide | ChildSide

  /** One side stores a word in a page of its areas. */
  datatype Store = Store(side: Side, page: nat, index: nat, word: u64)

  function Target(pe: map<nat, (nat, nat)>, ce: map<nat, (nat, nat)>, w: Store): nat
    requires w.page in pe && w.page in ce
  {
    if w.side == ChildSide then ce[w.page].0 else pe[w.page].0
  }

  ghost predicate Proper(pe: map<nat, (nat, nat)>, ce: map<nat, (nat, nat)>, s: set<nat>, ws: seq<Store>) {
    forall i :: 0 <= i < |ws| ==> ws[i].page in s && ws[i].page in pe && ws[i].page in ce && ws[i].index < 512
  }

  /** Memory after the stores ws, in order. */
  ghost function After(m: Memory, pe: map<nat, (nat, nat)>, ce: map<nat, (nat, nat)>, s: set<nat>,
                       ws: seq<Store>): Memory
    requires Proper(pe, ce, s, ws)
  {
    if ws == [] then m
    else
      var w := ws[|ws| - 1];
      SetEntry(After(m, pe, ce, s, ws[..|ws| - 1]), Target(pe, ce, w), w.index, w.word)
  }

  /** The stores of one side. */
  function By(ws: seq<Store>, side: Side): seq<Store> {
    if ws == [] then []
    else By(ws[..|ws| - 1], side) + if ws[|ws| - 1].side == side then [ws[|ws| - 1]] else []
  }

  lemma {:induction false} ByProper(pe: map<nat, (nat, nat)>, ce: map<nat, (nat, nat)>, s: set<nat>, ws: seq<Store>,
                                    side: Side)
    requires Proper(pe, ce, s, ws)
    ensures Proper(pe, ce, s, By(ws, side))
  {
    if ws != [] { ByProper(pe, ce, s, ws[..|ws| - 1], side); }
  }

  /** After a fork, whatever either side stores, in any order, each side sees its own stores and none of the other's,
      and the child's table is not touched. */
  lemma {:induction false} WritesStayApart(m: Memory, u0: set<nat>, u: set<nat>, tf: seq<nat>,
                                           pe: map<nat, (nat, nat)>, ce: map<nat, (nat, nat)>, s: set<nat>,
                                           ws: seq<Store>, v: nat)
    requires Placed(u0, u, tf, ce, s) && (forall p :: p in s ==> p in pe && pe[p].0 in u0) && Proper(pe, ce, s, ws)
    requires v in s
    ensures Proper(pe, ce, s, By(ws, ChildSide)) && Proper(pe, ce, s, By(ws, ParentSide)) && v in ce
    ensures FrameOf(After(m, pe, ce, s, ws), ce[v].0) == FrameOf(After(m, pe, ce, s, By(ws, ChildSide)), ce[v].0)
    ensures FrameOf(After(m, pe, ce, s, ws), pe[v].0) == FrameOf(After(m, pe, ce, s, By(ws, ParentSide)), pe[v].0)
    ensures forall p :: p in tf ==> FrameOf(After(m, pe, ce, s, ws), p) == FrameOf(m, p)
  {
    hide FrameOf, After, Target;
    ByProper(pe, ce, s, ws, ChildSide);
    ByProper(pe, ce, s, ws, ParentSide);
    if ws == [] {
      AfterNone(m, pe, ce, s);
    } else {
      var c := |ws| - 1;
      var w, first := ws[c], ws[..c];
      assert first + [w] == ws;
      WritesStayApart(m, u0, u, tf, pe, ce, s, first, v);
      AfterSnoc(m, pe, ce, s, first, w);
      AfterSnoc(m, pe, ce, s, By(first, w.side), w);
      var other := if w.side == ChildSide then ParentSide else ChildSide;
      assert By(ws, w.side) == By(first, w.side) + [w] && By(ws, other) == By(first, other);
      TargetSide(u0, u, tf, pe, ce, s, w);
      StoredAt(After(m, pe, ce, s, first), After(m, pe, ce, s, By(first, w.side)), Target(pe, ce, w), w.index, w.word);
    }
  }

  lemma AfterNone(m: Memory, pe: map<nat, (nat, nat)>, ce: map<nat, (nat, nat)>, s: set<nat>)
    ensures After(m, pe, ce, s, []) == m
  {
  }

  lemma AfterSnoc(m: Memory, pe: map<nat, (nat, nat)>, ce: map<nat, (nat, nat)>, s: set<nat>, ws: seq<Store>, w: Store)
    requires Proper(pe, ce, s, ws) && Proper(pe, ce, s, [w])
    ensures w.page in pe && w.page in ce && w.index < 512 && Proper(pe, ce, s, ws + [w])
    ensures After(m, pe, ce, s, ws + [w]) == SetEntry(After(m, pe, ce, s, ws), Target(pe, ce, w), w.index, w.word)
  {
    assert [w][0] == w;
    assert (ws + [w])[..|ws|] == ws;
  }

  /** The child stores where nothing was before the fork, the parent where something was. */
  lemma TargetSide(u0: set<nat>, u: set<nat>, tf: seq<nat>, pe: map<nat, (nat, nat)>, ce: map<nat, (nat, nat)>,
                   s: set<nat>,
                   w: Store)
    requires Placed(u0, u, tf, ce, s) && (forall p :: p in s ==> p in pe && pe[p].0 in u0) && w.page in s
    requires w.page in ce
    ensures w.side == ChildSide ==> Target(pe, ce, w) !in u0
    ensures w.side == ParentSide ==> Target(pe, ce, w) in u0
    ensures Target(pe, ce, w) !in tf
  {
  }

  /** A store changes its frame only, and that frame the same way wherever it read the same. */
  lemma StoredAt(m: Memory, m': Memory, t: nat, i: nat, x: u64)
    requires i < 512
    ensures forall p: nat :: p != t ==> FrameOf(SetEntry(m, t, i, x), p) == FrameOf(m, p)
    ensures forall p: nat :: p != t ==> FrameOf(SetEntry(m', t, i, x), p) == FrameOf(m', p)
    ensures FrameOf(m, t) == FrameOf(m', t) ==> FrameOf(SetEntry(m, t, i, x), t) == FrameOf(SetEntry(m', t, i, x), t)
  {
  }
}
