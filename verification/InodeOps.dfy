/** The closures that easy-fs/src/vfs.rs runs on a locked disk inode: read, extend and overwrite, clear, relabel. */
module InodeOps {
  import opened Basics
  import opened Disk
  import opened BlockTree
  import opened Growth
  import opened Contents
  import opened BlockCache
  import opened Layout
  import opened Bitmaps
  import opened FsState
  import opened Efs
  import opened Updates

  /** Data blocks an inode of size n.size must take to reach newSize: `blocks_num_needed`, or none. */
  function Needed(n: Node, newSize: nat): nat {
    if newSize <= n.size then 0
    else
      NeededIsNat(n, newSize);
      Total(DataBlocks(newSize)) - Total(DataBlocks(n.size))
  }

  lemma NeededIsNat(n: Node, newSize: nat)
    ensures n.size <= newSize ==> Total(DataBlocks(n.size)) <= Total(DataBlocks(newSize))
  {
    if n.size <= newSize { TotalMonotone(DataBlocks(n.size), DataBlocks(newSize)); }
  }

  lemma NeededIs(n: Node, newSize: nat)
    ensures Total(DataBlocks(n.size)) + Needed(n, newSize)
         == Total(DataBlocks(if newSize <= n.size then n.size else newSize))
  {
    hide Total;
  }

  /** Every inode but k is as it was, and the same inodes are allocated. */
  ghost predicate QuietBut(g: Geometry, d: Volume, e: Volume, k: nat) {
    && (forall l: nat :: l < g.InodeCount() && l != k ==> SameInode(g, d, e, l))
    && (forall q: nat :: q < g.InodeCount() ==> Bit(e, 1, q) == Bit(d, 1, q))
  }

  lemma QuietThenBut(g: Geometry, d: Volume, e: Volume, f: Volume, k: nat)
    requires Quiet(g, d, e) && QuietBut(g, e, f, k)
    ensures QuietBut(g, d, f, k)
  {
    hide Content, TailZero, NodeAt, BlocksOf, Bit;
    forall l: nat | l < g.InodeCount() && l != k ensures SameInode(g, d, f, l) {
      assert SameInode(g, d, e, l) && SameInode(g, e, f, l);
    }
  }

  lemma ButThenBut(g: Geometry, d: Volume, e: Volume, f: Volume, k: nat)
    requires QuietBut(g, d, e, k) && QuietBut(g, e, f, k)
    ensures QuietBut(g, d, f, k)
  {
    hide Content, TailZero, NodeAt, BlocksOf, Bit;
    forall l: nat | l < g.InodeCount() && l != k ensures SameInode(g, d, f, l) {
      assert SameInode(g, d, e, l) && SameInode(g, e, f, l);
    }
  }

  lemma ButThenQuiet(g: Geometry, d: Volume, e: Volume, f: Volume, k: nat)
    requires QuietBut(g, d, e, k) && Quiet(g, e, f)
    ensures QuietBut(g, d, f, k)
  {
    hide Content, TailZero, NodeAt, BlocksOf, Bit;
    forall l: nat | l < g.InodeCount() && l != k ensures SameInode(g, d, f, l) {
      assert SameInode(g, d, e, l) && SameInode(g, e, f, l);
    }
  }

  /** The blocks of inode k can be locked while its own inode block is. */
  lemma OwnLockable(g: Geometry, d: Volume, k: nat, pinned: multiset<nat>)
    requires FsInv(g, d) && k < g.InodeCount()
    requires forall b :: b in pinned ==> b < g.DataStart()
    ensures Lockable(d, pinned, BlocksOf(g, d, k)) && NoDup(BlocksOf(g, d, k)) && NodeAt(g, d, k).size <= MAX_SIZE
  {
    hide BlocksOf, NodeAt, TailZero, FreeZero, BitsInside, Unshared, Bit, NoDup;
    assert NodeOk(g, d, k);
  }

  lemma PendingLockable(g: Geometry, d: Volume, nb: seq<u32>, pinned: multiset<nat>)
    requires FsInv(g, d) && FreshSupply(g, d, nb)
    requires forall b :: b in pinned ==> b < g.DataStart()
    ensures Lockable(d, pinned, nb)
  {
    hide BlocksOf, NodeAt, TailZero, FreeZero, BitsInside, Unshared, Bit, NoDup, NodeOk, BytesOf;
  }

  lemma SupplyOf(g: Geometry, d: Volume, k: nat, nb: seq<u32>, pinned: multiset<nat>)
    requires FsInv(g, d) && k < g.InodeCount() && FreshSupply(g, d, nb)
    requires forall b :: b in pinned ==> b < g.DataStart()
    ensures Supply(d, BlocksOf(g, d, k), nb) && Lockable(d, pinned, BlocksOf(g, d, k) + nb)
  {
    hide BlocksOf, NodeAt, TailZero, FsInv, Used, NoDup, BytesOf;
    OwnLockable(g, d, k, pinned);
    PendingLockable(g, d, nb, pinned);
    forall b | b in BlocksOf(g, d, k) ensures b !in nb { }
    NoDupConcat(BlocksOf(g, d, k), nb);
  }

  lemma OnePin(g: Geometry, d: Volume, k: nat)
    requires FsInv(g, d) && k < g.InodeCount()
    ensures g.InodeStart() <= g.InodeBlock(k) < g.DataBitmapStart() && g.InodeBlock(k) < g.DataStart()
    ensures g.InodeBlock(k) in d && d[g.InodeBlock(k)].Inodes?
  {
    hide NodeOk, Unshared, FreeZero, BitsInside;
    NodeBlockOk(g, d, k);
  }

  /** Bring the disk inode of k into memory and keep its block locked. */
  method LockInode(fs: EasyFileSystem, k: nat) returns (disk: DiskInode)
    requires fs.Mounted() && k < fs.g.InodeCount() && fs.cache.pinned == multiset{}
    modifies fs.cache`queue, fs.cache`device, fs.cache`pinned
    ensures fs.Mounted() && fs.cache.pinned == multiset{fs.g.InodeBlock(k)} && fs.InodePins()
    ensures fresh(disk) && disk.View() == NodeAt(fs.g, fs.cache.view, k)
  {
    hide Coherent, FsInv;
    OnePin(fs.g, fs.cache.view, k);
    var (block, slot) := fs.GetDiskInodePos(k);
    fs.cache.Lock(block);
    var b := fs.cache.Read(block);
    disk := new DiskInode(b.nodes[slot]);
  }

  /** Put the in-memory inode back where it lies.  What has been done to it must be prepared. */
  method StoreInode(fs: EasyFileSystem, k: nat, disk: DiskInode, ghost d: Volume)
    requires fs.Laid() && fs.cache.Valid() && fs.cache.pinned == multiset{fs.g.InodeBlock(k)}
    requires FsInv(fs.g, d) && k < fs.g.InodeCount() && Prepared(fs.g, d, fs.cache.view, k, disk.View())
    modifies fs.cache`queue, fs.cache`view
    ensures fs.Mounted()
    ensures NodeAt(fs.g, fs.cache.view, k) == disk.View()
    ensures BlocksOf(fs.g, fs.cache.view, k) == Blocks(old(fs.cache.view), disk.View())
    ensures Content(fs.cache.view, disk.View()) == Content(old(fs.cache.view), disk.View())
    ensures QuietBut(fs.g, d, fs.cache.view, k)
    ensures InUse(fs.g, fs.cache.view) == InUse(fs.g, d)
  {
    hide Coherent, FsInv, Prepared, NodeAt, Content, Blocks, SameInode, Bit;
    Commit(fs.g, d, fs.cache.view, k, disk.View());
    Stored(fs.g, d, SetNode(fs.g, fs.cache.view, k, disk.View()), k);
    var (block, slot) := fs.GetDiskInodePos(k);
    var b := fs.cache.Read(block);
    fs.cache.Modify(block, Inodes(b.nodes[slot := disk.View()]));
  }

  lemma Stored(g: Geometry, d: Volume, e: Volume, k: nat)
    requires FsInv(g, d)
    requires forall l: nat :: l < g.InodeCount() && l != k ==> SameInode(g, d, e, l)
    requires forall s: nat, p: nat :: s + p / BLOCK_BITS < g.DataStart() ==> Bit(e, s, p) == Bit(d, s, p)
    ensures QuietBut(g, d, e, k) && InUse(g, e) == InUse(g, d)
  {
    hide SameInode, Bit, InUse, NodeOk, Unshared, FreeZero, BitsInside;
    SameUsed(g, d, e);
    forall q: nat | q < g.InodeCount() ensures Bit(e, 1, q) == Bit(d, 1, q) {
      assert 1 + q / BLOCK_BITS < g.DataStart();
    }
  }

  method UnlockInode(fs: EasyFileSystem, k: nat)
    requires fs.Mounted() && fs.cache.pinned == multiset{fs.g.InodeBlock(k)}
    modifies fs.cache`queue, fs.cache`pinned
    ensures fs.Mounted() && fs.cache.pinned == multiset{}
  {
    hide Coherent, FsInv;
    var (block, _) := fs.GetDiskInodePos(k);
    fs.cache.Release(block);
    assert multiset{block} - multiset{block} == multiset{};
  }

  /** `Inode::increase_size`: take what is needed and grow, or do nothing if the inode is large enough. */
  method Enlarge(fs: EasyFileSystem, k: nat, disk: DiskInode, newSize: nat)
    returns (ghost d: Volume, ghost nb: seq<u32>)
    requires fs.Mounted() && k < fs.g.InodeCount() && fs.cache.pinned == multiset{fs.g.InodeBlock(k)}
    requires disk.View() == NodeAt(fs.g, fs.cache.view, k) && newSize <= MAX_SIZE
    requires |InUse(fs.g, fs.cache.view)| + Needed(disk.View(), newSize) <= fs.g.dataAreaBlocks
    modifies disk, fs.cache
    ensures fs.Laid() && fs.cache.Valid() && fs.cache.pinned == old(fs.cache.pinned)
    ensures FsInv(fs.g, d) && Quiet(fs.g, old(fs.cache.view), d)
    ensures Grown(d, NodeAt(fs.g, d, k), fs.cache.view, disk.View(), nb)
    ensures FreshSupply(fs.g, d, nb)
    ensures disk.size == if newSize <= old(disk.size) then old(disk.size) else newSize
    ensures disk.nlink == old(disk.nlink)
    ensures |InUse(fs.g, d)| == |InUse(fs.g, old(fs.cache.view))| + Needed(old(disk.View()), newSize)
  {
    hide Coherent, FsInv, Prepared, NodeAt, Content, SameInode, Bit, Total, InUse, Tree, IsIndex, NoDup;
    ghost var g, d0 := fs.g, fs.cache.view;
    OnePin(g, d0, k);
    OwnLockable(g, d0, k, fs.cache.pinned);
    if newSize <= disk.size {
      d, nb := d0, [];
      QuietSelf(g, d);
      GrownNone(d, disk.View());
      NoSupply(g, d);
      return;
    }
    NeededIsNat(disk.View(), newSize);
    var blocks := fs.AllocBlocks(Total(DataBlocks(newSize)) - Total(DataBlocks(disk.size)));
    d := fs.cache.view;
    SameNode(g, d0, d, k);
    SupplyOf(g, d, k, blocks, fs.cache.pinned);
    OwnLockable(g, d, k, fs.cache.pinned);
    disk.IncreaseSize(newSize, blocks, fs.cache);
    assert blocks[..|blocks|] == blocks;
    nb := blocks;
  }

  lemma NoSupply(g: Geometry, d: Volume)
    ensures FreshSupply(g, d, [])
  {
  }

  lemma SameNode(g: Geometry, d: Volume, e: Volume, k: nat)
    requires Quiet(g, d, e) && k < g.InodeCount()
    ensures NodeAt(g, e, k) == NodeAt(g, d, k) && BlocksOf(g, e, k) == BlocksOf(g, d, k)
    ensures Content(e, NodeAt(g, e, k)) == Content(d, NodeAt(g, d, k))
  {
    hide Content, TailZero, NodeAt, BlocksOf, Bit;
    assert SameInode(g, d, e, k);
  }

  /** `Inode::read_at`. */
  method ReadInode(fs: EasyFileSystem, k: nat, off: nat, len: nat) returns (buf: seq<byte>)
    requires fs.Mounted() && k < fs.g.InodeCount() && fs.cache.pinned == multiset{}
    modifies fs.cache`queue, fs.cache`device, fs.cache`pinned
    ensures fs.Mounted() && fs.cache.pinned == multiset{}
    ensures buf == Slice(Content(fs.cache.view, NodeAt(fs.g, fs.cache.view, k)), off, len)
    ensures var s := Content(fs.cache.view, NodeAt(fs.g, fs.cache.view, k));
            && |buf| == (if off >= |s| then 0 else Min(off + len, |s|) - off)
            && forall i :: 0 <= i < |buf| ==> buf[i] == s[off + i]
  {
    hide Coherent, FsInv, NodeAt, Content, Blocks, Slice;
    var disk := LockInode(fs, k);
    OnePin(fs.g, fs.cache.view, k);
    OwnLockable(fs.g, fs.cache.view, k, fs.cache.pinned);
    buf := disk.ReadAt(off, len, fs.cache);
    UnlockInode(fs, k);
  }

  /** Extend inode k as far as needed and write buf at `off`.  A regular file may leave a gap, which reads as zeros. */
  method WriteInode(fs: EasyFileSystem, k: nat, off: nat, buf: seq<byte>) returns (written: nat)
    requires fs.Mounted() && k < fs.g.InodeCount() && fs.cache.pinned == multiset{}
    requires buf != [] && off + |buf| <= MAX_SIZE
    requires var n := NodeAt(fs.g, fs.cache.view, k);
             && (n.kind == File || off <= n.size)
             && |InUse(fs.g, fs.cache.view)| + Needed(n, off + |buf|) <= fs.g.dataAreaBlocks
    modifies fs.cache
    ensures fs.Mounted() && fs.cache.pinned == multiset{} && written == |buf|
    ensures QuietBut(fs.g, old(fs.cache.view), fs.cache.view, k)
    ensures Relabelled(old(NodeAt(fs.g, fs.cache.view, k)), NodeAt(fs.g, fs.cache.view, k))
    ensures Content(fs.cache.view, NodeAt(fs.g, fs.cache.view, k))
         == Splice(old(Content(fs.cache.view, NodeAt(fs.g, fs.cache.view, k))), off, buf)
    ensures |InUse(fs.g, fs.cache.view)|
         == old(|InUse(fs.g, fs.cache.view)| + Needed(NodeAt(fs.g, fs.cache.view, k), off + |buf|))
  {
    hide Coherent, FsInv, NodeAt, Content, Blocks, Splice, Needed, InUse, Grown, FreshSupply, Prepared, Overwritten,
         Quiet, QuietBut, NoDup;
    ghost var g, d0 := fs.g, fs.cache.view;
    var disk := LockInode(fs, k);
    ghost var n := disk.View();
    ghost var d, nb := Enlarge(fs, k, disk, off + |buf|);
    SameNode(g, d0, d, k);
    ghost var d', n' := fs.cache.view, disk.View();
    AfterGrowth(g, d, k, d', n', nb, fs.cache.pinned);
    written := disk.WriteAt(off, buf, fs.cache);
    assert buf[..written] == buf;
    WritePrepared(g, d, k, d', n', fs.cache.view, off, buf);
    FileTail(g, d, k);
    Spliced(d, n, d', n', nb, fs.cache.view, off, buf);
    StoreInode(fs, k, disk, d);
    QuietThenBut(g, d0, d, fs.cache.view, k);
    UnlockInode(fs, k);
  }

  /** The same inode with the same label: kind and link count. */
  ghost predicate Relabelled(n: Node, n': Node) {
    n'.kind == n.kind && n'.nlink == n.nlink
  }

  lemma AfterGrowth(g: Geometry, d: Volume, k: nat, d': Volume, n': Node, nb: seq<u32>, pinned: multiset<nat>)
    requires FsInv(g, d) && k < g.InodeCount() && Grown(d, NodeAt(g, d, k), d', n', nb) && FreshSupply(g, d, nb)
    requires pinned == multiset{g.InodeBlock(k)}
    ensures Prepared(g, d, d', k, n')
    ensures NoDup(Blocks(d', n')) && Lockable(d', pinned, Blocks(d', n'))
    ensures forall b :: b in nb ==> BytesOf(d, b) == ZeroBytes()
    ensures n'.kind == NodeAt(g, d, k).kind && n'.size <= MAX_SIZE
  {
    hide NodeAt, BytesOf, Blocks, FsInv, NoDup, IsIndex, TailZero, ZeroBytes;
    GrowPrepared(g, d, k, d', n', nb);
    OnePin(g, d, k);
    PreparedLockable(g, d, d', k, n', pinned);
  }

  lemma PreparedLockable(g: Geometry, d: Volume, d': Volume, k: nat, n': Node, pinned: multiset<nat>)
    requires FsInv(g, d) && Prepared(g, d, d', k, n') && forall b :: b in pinned ==> b < g.DataStart()
    ensures Lockable(d', pinned, Blocks(d', n'))
  {
    hide NodeAt, Blocks, NoDup, TailZero, Bit, NodeOk, Unshared, FreeZero, BitsInside;
    PreparedRegions(g, d, d', k, n');
  }

  lemma FileTail(g: Geometry, d: Volume, k: nat)
    requires FsInv(g, d) && k < g.InodeCount()
    ensures NodeAt(g, d, k).kind == File ==> TailZero(d, NodeAt(g, d, k))
  {
    hide NodeAt, TailZero, Typed, Unshared, FreeZero, BitsInside;
    assert NodeOk(g, d, k);
  }

  /** Store a link count. */
  method SetLinks(fs: EasyFileSystem, k: nat, nlink: u32)
    requires fs.Mounted() && k < fs.g.InodeCount() && fs.cache.pinned == multiset{}
    modifies fs.cache
    ensures fs.Mounted() && fs.cache.pinned == multiset{}
    ensures QuietBut(fs.g, old(fs.cache.view), fs.cache.view, k)
    ensures NodeAt(fs.g, fs.cache.view, k) == old(NodeAt(fs.g, fs.cache.view, k)).(nlink := nlink)
    ensures Content(fs.cache.view, NodeAt(fs.g, fs.cache.view, k))
         == old(Content(fs.cache.view, NodeAt(fs.g, fs.cache.view, k)))
    ensures InUse(fs.g, fs.cache.view) == old(InUse(fs.g, fs.cache.view))
  {
    hide Coherent, FsInv, NodeAt, Content, Blocks, Prepared, QuietBut, InUse;
    var disk := LockInode(fs, k);
    ghost var n := disk.View();
    disk.nlink := nlink;
    ShrinkPrepared(fs.g, fs.cache.view, k, disk.View());
    assert Content(fs.cache.view, n)[..n.size] == Content(fs.cache.view, n) by { ContentLength(fs.cache.view, n); }
    StoreInode(fs, k, disk, fs.cache.view);
    UnlockInode(fs, k);
  }

  lemma ContentLength(d: Volume, n: Node)
    ensures |Content(d, n)| == n.size
  {
  }

  /** Give a fresh inode its initial state. */
  method InitInode(fs: EasyFileSystem, k: nat, kind: Kind)
    requires fs.Mounted() && k < fs.g.InodeCount() && fs.cache.pinned == multiset{}
    modifies fs.cache
    ensures fs.Mounted() && fs.cache.pinned == multiset{}
    ensures QuietBut(fs.g, old(fs.cache.view), fs.cache.view, k)
    ensures var n := NodeAt(fs.g, fs.cache.view, k);
            n.size == 0 && n.nlink == 1 && n.kind == kind && Content(fs.cache.view, n) == []
    ensures InUse(fs.g, fs.cache.view) == old(InUse(fs.g, fs.cache.view))
  {
    hide Coherent, FsInv, NodeAt, Content, Blocks, Prepared, QuietBut, InUse;
    var disk := LockInode(fs, k);
    disk.Initialize(kind);
    EmptyPrepared(fs.g, fs.cache.view, k, disk.View());
    StoreInode(fs, k, disk, fs.cache.view);
    UnlockInode(fs, k);
  }

  /** `clear_locked`: empty inode k and give every block back. */
  method ClearInode(fs: EasyFileSystem, k: nat)
    requires fs.Mounted() && k < fs.g.InodeCount() && fs.cache.pinned == multiset{}
    modifies fs.cache
    ensures fs.Mounted() && fs.cache.pinned == multiset{}
    ensures QuietBut(fs.g, old(fs.cache.view), fs.cache.view, k)
    ensures Relabelled(old(NodeAt(fs.g, fs.cache.view, k)), NodeAt(fs.g, fs.cache.view, k))
    ensures Content(fs.cache.view, NodeAt(fs.g, fs.cache.view, k)) == []
    ensures |InUse(fs.g, fs.cache.view)| == old(|InUse(fs.g, fs.cache.view)|) - |old(BlocksOf(fs.g, fs.cache.view, k))|
    ensures |old(BlocksOf(fs.g, fs.cache.view, k))| == Total(DataBlocks(old(NodeAt(fs.g, fs.cache.view, k)).size))
  {
    hide Coherent, FsInv, NodeAt, Content, Tree, Prepared, QuietBut, Quiet, InUse, NoDup;
    ghost var g, d := fs.g, fs.cache.view;
    var disk := LockInode(fs, k);
    ghost var n := disk.View();
    OnePin(g, d, k);
    OwnLockable(g, d, k, fs.cache.pinned);
    TreeLength(d, n, DataBlocks(n.size));
    var v := disk.ClearSize(fs.cache);
    assert |v| == Total(DataBlocks(n.size));
    EmptyPrepared(g, d, k, disk.View());
    StoreInode(fs, k, disk, d);
    Freed(g, d, fs.cache.view, k, v);
    ghost var e := fs.cache.view;
    GiveBack(fs, v);
    ButThenQuiet(g, d, e, fs.cache.view, k);
    SameNode(g, e, fs.cache.view, k);
    UnlockInode(fs, k);
  }

  /** Blocks of a cleared inode belong to nobody. */
  lemma Freed(g: Geometry, d: Volume, e: Volume, k: nat, v: seq<u32>)
    requires FsInv(g, d) && k < g.InodeCount() && v == BlocksOf(g, d, k) && BlocksOf(g, e, k) == []
    requires QuietBut(g, d, e, k) && InUse(g, e) == InUse(g, d)
    ensures NoDup(v) && forall b :: b in v ==> Pending(g, e, b)
  {
    hide NodeAt, Blocks, TailZero, Content, Typed, FreeZero, BitsInside;
    assert NodeOk(g, d, k);
    assert g.Valid() by { ValidOf(g, d); }
    forall b | b in v ensures Pending(g, e, b) {
      OwnBlock(g, d, k, b);
      var p := b - g.DataStart();
      assert p in InUse(g, d);
      assert p in InUse(g, e);
      forall l: nat | l < g.InodeCount() ensures b !in BlocksOf(g, e, l) {
        if l != k { assert SameInode(g, d, e, l); }
      }
    }
  }

  /** Dealloc a list of pending blocks. */
  method GiveBack(fs: EasyFileSystem, v: seq<u32>)
    requires fs.Mounted() && fs.InodePins() && NoDup(v) && forall b :: b in v ==> Pending(fs.g, fs.cache.view, b)
    modifies fs.cache
    ensures fs.Mounted() && fs.cache.pinned == old(fs.cache.pinned)
    ensures Quiet(fs.g, old(fs.cache.view), fs.cache.view)
    ensures |InUse(fs.g, fs.cache.view)| == |InUse(fs.g, old(fs.cache.view))| - |v|
  {
    hide Coherent, FsInv, Quiet, InUse, Pending, Used;
    QuietSelf(fs.g, fs.cache.view);
    var i := 0;
    while i < |v|
      invariant i <= |v|
      invariant fs.Mounted() && fs.cache.pinned == old(fs.cache.pinned)
      invariant Quiet(fs.g, old(fs.cache.view), fs.cache.view)
      invariant forall j :: i <= j < |v| ==> Pending(fs.g, fs.cache.view, v[j])
      invariant |InUse(fs.g, fs.cache.view)| == |InUse(fs.g, old(fs.cache.view))| - i
    {
      ghost var e := fs.cache.view;
      InUseOf(fs.g, e, v[i]);
      fs.DeallocData(v[i]);
      QuietTrans(fs.g, old(fs.cache.view), e, fs.cache.view);
      forall j | i + 1 <= j < |v| ensures Pending(fs.g, fs.cache.view, v[j]) {
        StillPending(fs.g, e, fs.cache.view, v[i], v[j]);
      }
      i := i + 1;
    }
  }

  lemma InUseOf(g: Geometry, d: Volume, b: nat)
    requires FsInv(g, d) && Pending(g, d, b)
    ensures g.DataStart() <= b && b - g.DataStart() in InUse(g, d)
  {
    hide Bit, NodeOk, Unshared, FreeZero, BitsInside;
    assert g.Valid() by { ValidOf(g, d); }
  }

  lemma StillPending(g: Geometry, d: Volume, e: Volume, b: nat, x: nat)
    requires Quiet(g, d, e) && Pending(g, d, x) && x != b
    requires forall x: nat :: Used(g, e, x) <==> Used(g, d, x) && x != b
    ensures Pending(g, e, x)
  {
    hide Quiet, Used;
    assert Used(g, d, x);
    QuietPending(g, d, e, x);
  }
}
