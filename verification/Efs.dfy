/** easy-fs/src/efs.rs: block and inode allocation on a mounted volume. */
module Efs {
  import opened Basics
  import opened Disk
  import opened BlockTree
  import opened Contents
  import opened BlockCache
  import opened Bitmaps
  import opened FsState

  /** Nothing any inode shows has changed, nor which inodes are allocated. */
  ghost predicate Quiet(g: Geometry, d: Volume, e: Volume) {
    && (forall k: nat :: k < g.InodeCount() ==> SameInode(g, d, e, k))
    && (forall q: nat :: q < g.InodeCount() ==> Bit(e, 1, q) == Bit(d, 1, q))
  }

  lemma QuietSelf(g: Geometry, d: Volume)
    ensures Quiet(g, d, d)
  {
  }

  lemma QuietTrans(g: Geometry, d: Volume, e: Volume, f: Volume)
    requires Quiet(g, d, e) && Quiet(g, e, f)
    ensures Quiet(g, d, f)
  {
    hide Content, TailZero, NodeAt, BlocksOf, Bit;
    forall k: nat | k < g.InodeCount() ensures SameInode(g, d, f, k) {
      assert SameInode(g, d, e, k) && SameInode(g, e, f, k);
    }
  }

  lemma QuietPending(g: Geometry, d: Volume, e: Volume, b: nat)
    requires Quiet(g, d, e) && Pending(g, d, b) && Used(g, e, b)
    ensures Pending(g, e, b)
  {
    hide Content, TailZero, NodeAt, BlocksOf, Bit, Used;
    forall k: nat | k < g.InodeCount() ensures b !in BlocksOf(g, e, k) { assert SameInode(g, d, e, k); }
  }

  /** A supply of blocks: distinct, marked as used, zeroed, held by nobody. */
  ghost predicate FreshSupply(g: Geometry, e: Volume, nb: seq<u32>) {
    && NoDup(nb)
    && (forall b :: b in nb ==> Pending(g, e, b) && BytesOf(e, b) == ZeroBytes())
  }

  lemma SupplyMore(g: Geometry, e: Volume, nb: seq<u32>, f: Volume, b: u32)
    requires FreshSupply(g, e, nb) && Quiet(g, e, f) && RawSameBut(e, f, [])
    requires forall x: nat :: Used(g, f, x) <==> Used(g, e, x) || x == b
    requires !Used(g, e, b) && Pending(g, f, b) && BytesOf(f, b) == ZeroBytes()
    ensures FreshSupply(g, f, nb + [b])
  {
    hide BytesOf, ZeroBytes, Used, Quiet;
    forall x | x in nb ensures Pending(g, f, x) && BytesOf(f, x) == ZeroBytes() {
      assert x !in [];
      assert Used(g, e, x);
      QuietPending(g, e, f, x);
    }
    assert b !in nb;
    NoDupConcat(nb, [b]);
  }

  class EasyFileSystem {
    const cache: BlockCacheManager<Block>
    const inodeBitmap: BitmapRegion
    const dataBitmap: BitmapRegion
    const inodeAreaStartBlock: nat
    const dataAreaStartBlock: nat
    ghost const g: Geometry

    /** Mount a formatted volume: everything is found from its super block. */
    constructor Open(cache: BlockCacheManager<Block>, ghost g: Geometry)
      requires cache.Valid() && |cache.pinned| <= 2 && 0 !in cache.pinned && Typed(g, cache.view)
      modifies cache`queue, cache`device, cache`pinned
      ensures this.cache == cache && this.g == g && Laid()
      ensures cache.Valid() && cache.pinned == old(cache.pinned)
      ensures FsInv(g, cache.view) ==> Mounted()
    {
      hide Coherent;
      assert 0 < g.TotalBlocks();
      var s := cache.ReadBlock(0);
      var inodeTotal := s.inodeBitmapBlocks + s.inodeAreaBlocks;
      this.cache := cache;
      this.inodeBitmap := BitmapRegion(1, s.inodeBitmapBlocks);
      this.dataBitmap := BitmapRegion(1 + inodeTotal, s.dataBitmapBlocks);
      this.inodeAreaStartBlock := 1 + s.inodeBitmapBlocks;
      this.dataAreaStartBlock := 1 + inodeTotal + s.dataBitmapBlocks;
      this.g := g;
    }

    /** The object `create` builds before it touches the device. */
    constructor Blank(cache: BlockCacheManager<Block>, g: Geometry)
      requires g.Valid()
      ensures this.cache == cache && this.g == g && Laid()
    {
      this.cache := cache;
      this.inodeBitmap := BitmapRegion(1, g.inodeBitmapBlocks);
      this.dataBitmap := BitmapRegion(1 + g.inodeBitmapBlocks + g.inodeAreaBlocks, g.dataBitmapBlocks);
      this.inodeAreaStartBlock := 1 + g.inodeBitmapBlocks;
      this.dataAreaStartBlock := 1 + g.inodeBitmapBlocks + g.inodeAreaBlocks + g.dataBitmapBlocks;
      this.g := g;
    }

    ghost predicate Laid() {
      && g.Valid()
      && inodeBitmap == g.InodeBitmap() && dataBitmap == g.DataBitmap()
      && inodeAreaStartBlock == g.InodeStart() && dataAreaStartBlock == g.DataStart()
    }

    ghost predicate Mounted()
      reads cache
    {
      Laid() && cache.Valid() && FsInv(g, cache.view)
    }

    /** At most one block is locked, and it lies in the inode area. */
    ghost predicate InodePins()
      reads cache
    {
      |cache.pinned| <= 1 && forall b :: b in cache.pinned ==> g.InodeStart() <= b < g.DataBitmapStart()
    }

    /** `get_disk_inode_pos`; the offset is in inodes rather than bytes. */
    function GetDiskInodePos(k: nat): (r: (nat, nat))
      requires Laid()
      ensures r.0 == g.InodeBlock(k) && r.1 < INODES_PER_BLOCK
      ensures k == (r.0 - g.InodeStart()) * INODES_PER_BLOCK + r.1
    {
      (inodeAreaStartBlock + k / INODES_PER_BLOCK, k % INODES_PER_BLOCK)
    }

    /** Mark and return a free data block.  With fewer blocks in use than the
        data area has, it lies inside that area. */
    method AllocData() returns (b: u32)
      requires Mounted() && InodePins() && |InUse(g, cache.view)| < g.dataAreaBlocks
      modifies cache
      ensures Mounted() && cache.pinned == old(cache.pinned)
      ensures !Used(g, old(cache.view), b) && Pending(g, cache.view, b) && BytesOf(cache.view, b) == ZeroBytes()
      ensures Quiet(g, old(cache.view), cache.view) && RawSameBut(old(cache.view), cache.view, [])
      ensures forall x: nat :: Used(g, cache.view, x) <==> Used(g, old(cache.view), x) || x == b
      ensures forall x: nat :: g.DataStart() <= x < b ==> Used(g, old(cache.view), x)
      ensures |InUse(g, cache.view)| == |InUse(g, old(cache.view))| + 1
    {
      hide Coherent, Bit, SetBit, BytesOf, ZeroBytes, FsInv, SameInode, Ready, Pending, Used, InUse;
      ghost var d := cache.view;
      BitmapReady(g, d, cache.pinned);
      var pos := dataBitmap.Alloc(cache);
      if pos.None? {
        LowestClear(d, g.DataBitmapStart(), dataBitmap.Maximum(), dataBitmap.Maximum());
        NotFull(g, d);
        assert false;
      }
      hide Quiet, RawSameBut, Bits;
      AllocAt(g, d, pos.value);
      b := dataAreaStartBlock + pos.value;
    }

    /** n fresh data blocks. */
    method AllocBlocks(n: nat) returns (nb: seq<u32>)
      requires Mounted() && InodePins() && |InUse(g, cache.view)| + n <= g.dataAreaBlocks
      modifies cache
      ensures Mounted() && cache.pinned == old(cache.pinned)
      ensures |nb| == n && FreshSupply(g, cache.view, nb)
      ensures Quiet(g, old(cache.view), cache.view) && RawSameBut(old(cache.view), cache.view, [])
      ensures |InUse(g, cache.view)| == |InUse(g, old(cache.view))| + n
    {
      hide Coherent, Bit, SetBit, BytesOf, ZeroBytes, FsInv, SameInode, InUse, Quiet, Used, Pending;
      nb := [];
      QuietSelf(g, cache.view);
      while |nb| < n
        invariant |nb| <= n
        invariant Mounted() && cache.pinned == old(cache.pinned)
        invariant FreshSupply(g, cache.view, nb)
        invariant Quiet(g, old(cache.view), cache.view) && RawSameBut(old(cache.view), cache.view, [])
        invariant |InUse(g, cache.view)| == |InUse(g, old(cache.view))| + |nb|
      {
        ghost var e := cache.view;
        var b := AllocData();
        SupplyMore(g, e, nb, cache.view, b);
        QuietTrans(g, old(cache.view), e, cache.view);
        nb := nb + [b];
      }
    }

    /** Zero a block and clear its bit.  The block is marked as used, so the bitmap's assertion holds. */
    method DeallocData(b: u32)
      requires Mounted() && InodePins() && Pending(g, cache.view, b)
      modifies cache
      ensures Mounted() && cache.pinned == old(cache.pinned)
      ensures Quiet(g, old(cache.view), cache.view)
      ensures forall x: nat :: Used(g, cache.view, x) <==> Used(g, old(cache.view), x) && x != b
      ensures InUse(g, cache.view) == InUse(g, old(cache.view)) - {b - g.DataStart()}
    {
      hide Coherent, Bit, SetBit, BytesOf, ZeroBytes, FsInv, SameInode, InUse;
      ghost var d := cache.view;
      GiveBlock(g, d, b);
      cache.WriteBlock(b, Data(ZeroBytes()));
      TypedReady(g, cache.view, cache.pinned);
      dataBitmap.Dealloc(cache, b - dataAreaStartBlock);
    }

    /** Mark and return the lowest free inode number. */
    method AllocInode() returns (k: u32)
      requires Mounted() && cache.pinned == multiset{}
      requires exists q: nat :: q < g.InodeCount() && !Bit(cache.view, 1, q)
      modifies cache
      ensures Mounted() && cache.pinned == old(cache.pinned)
      ensures k < g.InodeCount() && !Bit(old(cache.view), 1, k)
      ensures forall q: nat :: q < k ==> Bit(old(cache.view), 1, q)
      ensures forall q: nat :: q < g.InodeCount() ==> Bit(cache.view, 1, q) == (q == k || Bit(old(cache.view), 1, q))
      ensures forall l: nat :: l < g.InodeCount() ==> SameInode(g, old(cache.view), cache.view, l)
      ensures InUse(g, cache.view) == InUse(g, old(cache.view))
    {
      hide Coherent, Bit, SetBit, BytesOf, ZeroBytes, FsInv, SameInode, InUse;
      ghost var d := cache.view;
      InodeBitmapReady(g, d);
      var pos := inodeBitmap.Alloc(cache);
      if pos.None? { assert false; }
      TakeInode(g, d, pos.value);
      k := pos.value;
    }
  }

  /** Marking the lowest clear bit takes a free block of the data area. */
  lemma AllocAt(g: Geometry, d: Volume, p: nat)
    requires FsInv(g, d) && |InUse(g, d)| < g.dataAreaBlocks && p < g.DataBitmap().Maximum()
    requires !Bit(d, g.DataBitmapStart(), p) && forall q: nat :: q < p ==> Bit(d, g.DataBitmapStart(), q)
    ensures p < g.dataAreaBlocks && g.DataStart() + p < 0x1_0000_0000
    ensures var e, b := SetBit(d, g.DataBitmapStart(), p, true), g.DataStart() + p;
            && FsInv(g, e) && !Used(g, d, b) && Pending(g, e, b) && BytesOf(e, b) == ZeroBytes()
            && Quiet(g, d, e) && RawSameBut(d, e, [])
            && (forall x: nat :: Used(g, e, x) <==> Used(g, d, x) || x == b)
            && (forall x: nat :: g.DataStart() <= x < b ==> Used(g, d, x))
            && |InUse(g, e)| == |InUse(g, d)| + 1
  {
    hide Bit, SetBit, BytesOf, ZeroBytes, NodeOk, Unshared, FreeZero, BitsInside, SameInode, Pending, Used, InUse,
         RawSameBut, Typed, Bits;
    ValidOf(g, d);
    LowestClear(d, g.DataBitmapStart(), g.DataBitmap().Maximum(), p);
    FreeAt(g, d, p);
    TakeBlock(g, d, p);
    forall x: nat | g.DataStart() <= x < g.DataStart() + p ensures Used(g, d, x) { BelowUsed(g, d, p, x); }
  }

  lemma BelowUsed(g: Geometry, d: Volume, p: nat, x: nat)
    requires p < g.dataAreaBlocks && g.DataStart() <= x < g.DataStart() + p
    requires forall q: nat :: q < p ==> Bit(d, g.DataBitmapStart(), q)
    ensures Used(g, d, x)
  {
    hide Bit;
  }

  lemma NotFull(g: Geometry, d: Volume)
    requires g.Valid() && |InUse(g, d)| < g.dataAreaBlocks
    ensures |Bits(d, g.DataBitmapStart(), g.DataBitmap().Maximum())| < g.DataBitmap().Maximum()
  {
    hide Bits;
  }

  lemma FreeAt(g: Geometry, d: Volume, p: nat)
    requires g.Valid() && |InUse(g, d)| < g.dataAreaBlocks && !Bit(d, g.DataBitmapStart(), p)
    requires p <= |Bits(d, g.DataBitmapStart(), g.DataBitmap().Maximum())|
    ensures p < g.dataAreaBlocks && !Used(g, d, g.DataStart() + p) && p !in InUse(g, d)
  {
    hide Bit;
  }

  lemma BitmapReady(g: Geometry, d: Volume, pinned: multiset<nat>)
    requires FsInv(g, d) && forall b :: b in pinned ==> g.InodeStart() <= b < g.DataBitmapStart()
    ensures Ready(d, pinned, g.DataBitmapStart(), g.dataBitmapBlocks)
  {
    hide NodeOk, Unshared, FreeZero, BitsInside;
    TypedReady(g, d, pinned);
  }

  lemma TypedReady(g: Geometry, d: Volume, pinned: multiset<nat>)
    requires Typed(g, d) && forall b :: b in pinned ==> g.InodeStart() <= b < g.DataBitmapStart()
    ensures Ready(d, pinned, g.DataBitmapStart(), g.dataBitmapBlocks)
  {
    forall b: nat | g.DataBitmapStart() <= b < g.DataBitmapStart() + g.dataBitmapBlocks ensures b in d { }
  }

  lemma InodeBitmapReady(g: Geometry, d: Volume)
    requires FsInv(g, d)
    ensures Ready(d, multiset{}, 1, g.inodeBitmapBlocks)
  {
    hide NodeOk, Unshared, FreeZero, BitsInside;
    forall b: nat | 1 <= b < 1 + g.inodeBitmapBlocks ensures b in d { }
  }

  lemma TakeInode(g: Geometry, d: Volume, k: nat)
    requires FsInv(g, d) && k < g.InodeCount()
    ensures 1 + k / BLOCK_BITS in d && d[1 + k / BLOCK_BITS].Bitmap?
    ensures var e := SetBit(d, 1, k, true);
            && FsInv(g, e)
            && (forall q: nat :: Bit(e, 1, q) == (q == k || Bit(d, 1, q)))
            && (forall l: nat :: l < g.InodeCount() ==> SameInode(g, d, e, l))
            && InUse(g, e) == InUse(g, d)
  {
    hide Tree, TailZero, Content, NoDup, Disjoint, SameInode, ZeroBytes, ZeroNode;
    InodeBitFrame(g, d, k);
    var e := SetBit(d, 1, k, true);
    NothingDisjoint(g, d);
    SameInodes(g, d, e, []);
    SameUnshared(g, d, e);
    SameBits(d, e, g.DataBitmapStart(), g.DataBitmap().Maximum());
    KeepInv(g, d, e);
  }

  lemma KeepInv(g: Geometry, d: Volume, e: Volume)
    requires FsInv(g, d) && Typed(g, e) && Unshared(g, e) && RawSameBut(d, e, [])
    requires forall k: nat :: k < g.InodeCount() ==> SameInode(g, d, e, k)
    requires forall q: nat :: Bit(e, g.DataBitmapStart(), q) == Bit(d, g.DataBitmapStart(), q)
    ensures FsInv(g, e)
  {
    hide Tree, TailZero, Content, NoDup, Disjoint, SameInode, ZeroBytes, BytesOf, Bit, Typed;
    forall k: nat | k < g.InodeCount() ensures NodeOk(g, e, k) { CommitOther(g, d, e, k); }
    forall b: nat | g.DataStart() <= b < g.TotalBlocks() && !Used(g, e, b) ensures BytesOf(e, b) == ZeroBytes() {
      assert b !in [];
      assert !Used(g, d, b);
    }
  }

  lemma InodeBitFrame(g: Geometry, d: Volume, k: nat)
    requires Typed(g, d) && k < g.InodeCount()
    ensures 1 + k / BLOCK_BITS in d && d[1 + k / BLOCK_BITS].Bitmap?
    ensures var e := SetBit(d, 1, k, true);
            && Typed(g, e) && RawSameBut(d, e, [])
            && (forall l: nat :: l < g.InodeCount() ==> NodeAt(g, e, l) == NodeAt(g, d, l))
            && (forall q: nat :: Bit(e, 1, q) == (q == k || Bit(d, 1, q)))
            && (forall q: nat :: Bit(e, g.DataBitmapStart(), q) == Bit(d, g.DataBitmapStart(), q))
  {
    hide ZeroBytes, ZeroNode, Bit, NodeAt, SetBit, BytesOf, Typed;
    var e, b := SetBit(d, 1, k, true), 1 + k / BLOCK_BITS;
    ValidOf(g, d);
    InodeBit(g, k);
    BitmapAt(g, d, b);
    BitStored(d, 1, k, true);
    TypedKept(g, d, e, b);
    forall q: nat ensures Bit(e, 1, q) == (q == k || Bit(d, 1, q)) { SetBitGet(d, 1, k, true, q); }
    forall l: nat | l < g.InodeCount() ensures NodeAt(g, e, l) == NodeAt(g, d, l) { OtherNode(g, d, e, b, l); }
    forall x: nat ensures BytesOf(e, x) == BytesOf(d, x) { OtherBytes(d, e, b, x); }
    forall q: nat ensures Bit(e, g.DataBitmapStart(), q) == Bit(d, g.DataBitmapStart(), q) {
      BitElsewhere(d, e, b, g.DataBitmapStart(), q);
    }
  }

  lemma InodeBit(g: Geometry, k: nat)
    requires g.Valid() && k < g.InodeCount()
    ensures 1 + k / BLOCK_BITS < g.InodeStart() <= g.DataBitmapStart() <= g.TotalBlocks()
  {
  }

  lemma BitElsewhere(d: Volume, e: Volume, b: nat, start: nat, q: nat)
    requires e.Keys == d.Keys && b < start && forall x: nat :: x in d && x != b ==> e[x] == d[x]
    ensures Bit(e, start, q) == Bit(d, start, q)
  {
  }
}
