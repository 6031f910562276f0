/** `EasyFileSystem::create` and remounting: how a volume comes to satisfy the
    invariant, and what survives a restart. */
module Format {
  import opened Basics
  import opened Disk
  import opened BlockTree
  import opened Contents
  import opened BlockCache
  import opened Bitmaps
  import opened FsState
  import opened Efs
  import opened Dirents
  import opened FileTable
  import opened Bindings
  import opened DirTree
  import opened Paths
  import opened Vfs
  import opened Usage

  /** The region sizes `create` computes for a device of `total` blocks. */
  function Divide(total: nat, inodeBitmapBlocks: nat): Geometry
    requires total >= 1 + inodeBitmapBlocks + inodeBitmapBlocks * 1024
  {
    var inodeNum := inodeBitmapBlocks * BLOCK_BITS;
    var inodeArea := (inodeNum * 128 + BLOCK_SZ - 1) / BLOCK_SZ;
    InodeArea(inodeBitmapBlocks);
    var dataTotal := total - 1 - (inodeBitmapBlocks + inodeArea);
    var dataBitmap := (dataTotal + 4096) / 4097;
    BitmapFits(dataTotal);
    Geometry(inodeBitmapBlocks, inodeArea, dataBitmap, dataTotal - dataBitmap)
  }

  lemma InodeArea(ib: nat)
    ensures (ib * BLOCK_BITS * 128 + BLOCK_SZ - 1) / BLOCK_SZ == ib * 1024
  {
  }

  lemma BitmapFits(n: nat)
    ensures (n + 4096) / 4097 <= n
  {
  }

  /** The regions tile the device, and the data bitmap is the smallest that covers what it leaves for data. */
  lemma DivideTiles(total: nat, ib: nat)
    requires total >= 1 + ib + ib * 1024
    ensures var g := Divide(total, ib);
            && g.inodeBitmapBlocks == ib && g.inodeAreaBlocks == ib * 1024
            && g.TotalBlocks() == total
            && g.dataAreaBlocks <= g.dataBitmapBlocks * BLOCK_BITS
            && forall x: nat :: x * BLOCK_BITS >= g.dataBitmapBlocks + g.dataAreaBlocks - x ==> x >= g.dataBitmapBlocks
  {
    InodeArea(ib);
    var g := Divide(total, ib);
    var n := g.dataBitmapBlocks + g.dataAreaBlocks;
    forall x: nat | x * BLOCK_BITS >= n - x ensures x >= g.dataBitmapBlocks { Smallest(n, x); }
  }

  lemma Smallest(n: nat, x: nat)
    requires x * 4096 >= n - x
    ensures x >= (n + 4096) / 4097
  {
    assert x * 4097 >= n;
  }

  /** A block of all zero bytes, as its region reads it. */
  function ZeroBlock(g: Geometry, b: nat): Block {
    if b == 0 then Super(0, 0, 0, 0, 0, 0)
    else if b < g.InodeStart() then Bitmap(Fill(Fill(false, 64), 64))
    else if b < g.DataBitmapStart() then Inodes(Fill(ZeroNode(), 4))
    else if b < g.DataStart() then Bitmap(Fill(Fill(false, 64), 64))
    else Data(ZeroBytes())
  }

  function SuperBlock(g: Geometry): Block
    requires g.Valid()
  {
    Super(EFS_MAGIC, g.TotalBlocks(), g.inodeBitmapBlocks, g.inodeAreaBlocks, g.dataBitmapBlocks, g.dataAreaBlocks)
  }

  /** All blocks zeroed and the super block written. */
  ghost predicate Wiped(g: Geometry, d: Volume) {
    && g.Valid()
    && (forall b: nat :: b in d <==> b < g.TotalBlocks())
    && 0 in d && d[0] == SuperBlock(g)
    && (forall b: nat :: b in d && b != 0 ==> d[b] == ZeroBlock(g, b))
  }

  lemma WipedBits(g: Geometry, d: Volume, start: nat, p: nat)
    requires Wiped(g, d)
    ensures !Bit(d, start, p)
  {
  }

  lemma WipedNode(g: Geometry, d: Volume, k: nat)
    requires Wiped(g, d) && k < g.InodeCount()
    ensures NodeAt(g, d, k) == ZeroNode() && BlocksOf(g, d, k) == [] && NodeOk(g, d, k)
  {
    hide ByteAt;
    InodeBlockRange(g, k);
    assert g.InodeBlock(k) in d && d[g.InodeBlock(k)] == ZeroBlock(g, g.InodeBlock(k));
  }

  /** A wiped volume satisfies the invariant, and shows nothing. */
  lemma WipedInv(g: Geometry, d: Volume)
    requires Wiped(g, d)
    ensures FsInv(g, d) && Represents(g, d, []) && |InUse(g, d)| == 0
  {
    hide Bit, BlocksOf, NodeAt, NodeOk, Shown, ZeroNode;
    forall start: nat, p: nat ensures !Bit(d, start, p) { WipedBits(g, d, start, p); }
    forall k: nat | k < g.InodeCount() ensures NodeOk(g, d, k) && BlocksOf(g, d, k) == [] { WipedNode(g, d, k); }
    assert InUse(g, d) == {};
  }

  /** `create`: wipe the device, write the super block, make the root directory. */
  method CreateVolume(cache: BlockCacheManager<Block>, total: nat, ib: nat) returns (vfs: Vfs)
    requires cache.Valid() && cache.pinned == multiset{} && forall b: nat :: b in cache.view <==> b < total
    requires 0 < ib && 1 + ib + ib * 1024 + 2 <= total < 0x1_0000_0000 && ib * BLOCK_BITS <= 0x1_0000_0000
    modifies cache
    ensures fresh(vfs) && fresh(vfs.efs) && vfs.efs.cache == cache && vfs.efs.g == Divide(total, ib)
    ensures vfs.Valid() && vfs.table == Fresh() && |InUse(vfs.efs.g, cache.view)| == 1
    ensures cache.device == cache.view
  {
    hide Coherent, FsInv, Represents, InUse, TableOk, DotEntries, NodeAt;
    var g := Divide(total, ib);
    DivideTiles(total, ib);
    var efs := new EasyFileSystem.Blank(cache, g);
    Wipe(cache, g);
    WipedInv(g, cache.view);
    vfs := new Vfs(efs, []);
    InodesThere(g);
    var root := vfs.NewInode(Directory);
    vfs.InitializeDir(root, 0);
    FreshOk();
    assert vfs.table == Fresh();
    cache.SyncAll();
  }

  lemma InodesThere(g: Geometry)
    requires g.inodeBitmapBlocks > 0
    ensures 0 < g.InodeCount()
  {
  }

  lemma FreshOk()
    ensures TableOk(Fresh())
  {
    hide MapInv;
    FreshInv();
    OkOf(Fresh());
  }

  lemma OkOf(a: Table)
    requires MapInv(a)
    ensures TableOk(a)
  {
    hide TableOk;
  }

  method Wipe(cache: BlockCacheManager<Block>, g: Geometry)
    requires cache.Valid() && cache.pinned == multiset{} && g.Valid()
    requires forall b: nat :: b in cache.view <==> b < g.TotalBlocks()
    modifies cache
    ensures cache.Valid() && cache.pinned == multiset{} && Wiped(g, cache.view)
  {
    hide Coherent, ZeroBlock;
    var i := 0;
    while i < g.TotalBlocks()
      invariant i <= g.TotalBlocks()
      invariant cache.Valid() && cache.pinned == multiset{}
      invariant forall b: nat :: b in cache.view <==> b < g.TotalBlocks()
      invariant forall b: nat :: b < i ==> cache.view[b] == ZeroBlock(g, b)
    {
      cache.WriteBlock(i, ZeroBlock(g, i));
      i := i + 1;
    }
    cache.WriteBlock(0, SuperBlock(g));
  }

  /** Restart: a new cache over the synced device, mounted from its super block, shows the same table. */
  method Remount(vfs: Vfs) returns (again: Vfs)
    requires vfs.Valid() && vfs.efs.cache.device == vfs.efs.cache.view
    ensures fresh(again) && again.efs.g == vfs.efs.g
    ensures again.Valid() && again.table == vfs.table
  {
    hide Coherent, Represents, TableOk;
    var cache := new BlockCacheManager(vfs.efs.cache.device);
    MountedTyped(vfs.efs.g, cache.view);
    var efs := new EasyFileSystem.Open(cache, vfs.efs.g);
    again := new Vfs(efs, vfs.table);
  }

  lemma MountedTyped(g: Geometry, d: Volume)
    requires FsInv(g, d)
    ensures Typed(g, d)
  {
    hide NodeOk, Unshared, FreeZero, BitsInside;
  }

  /** The device has room for what an operation may take. */
  ghost predicate Fits(vfs: Vfs, op: Op)
    requires Asked(vfs.table, op)
    reads vfs, vfs.efs.cache
  {
    match op
    case MakeInode(k, name, kind) =>
      Lookup(vfs.table, k, name).None? ==>
        && |vfs.table| < vfs.efs.g.InodeCount() && |vfs.table[k].content| + DIRENT_SZ <= MAX_SIZE
        && vfs.Room(k, |vfs.table[k].content| + DIRENT_SZ, if kind == Directory then 1 else 0)
    case AddLink(k, name, _) =>
      Lookup(vfs.table, k, name).None? ==>
        |vfs.table[k].content| + DIRENT_SZ <= MAX_SIZE && vfs.Room(k, |vfs.table[k].content| + DIRENT_SZ, 0)
    case RemoveName(_, _) => true
    case Write(k, off, buf) => off + |buf| <= MAX_SIZE && vfs.Room(k, off + |buf|, 0)
    case Truncate(_) => true
  }

  /** Every operation that can be asked for and fits does on the volume what `Apply` does on the table. */
  method Perform(vfs: Vfs, op: Op)
    requires vfs.Valid() && Asked(vfs.table, op) && Fits(vfs, op)
    modifies vfs, vfs.efs.cache
    ensures vfs.Valid()
    ensures TableOk(old(vfs.table)) && vfs.table == Apply(old(vfs.table), op)
    ensures |InUse(vfs.efs.g, vfs.efs.cache.view)| - Owned(vfs.table)
         == |InUse(vfs.efs.g, old(vfs.efs.cache.view))| - Owned(old(vfs.table)) + Shed(old(vfs.table), op)
  {
    hide Coherent, Represents, TableOk, FsInv, Entries, NodeAt, Content, InUse, Owned, Cut, Total, DataBlocks,
         EntryBlocks, Create, Link, Unlink;
    ghost var a := vfs.table;
    match op
    case MakeInode(k, name, kind) =>
      var _ := vfs.CreateInode(k, name, kind);
      CreateOwned(a, k, name, kind);
    case AddLink(k, name, src) =>
      var _ := vfs.LinkInode(k, name, src);
      LinkOwned(a, k, name, src);
    case RemoveName(k, name) =>
      var ok := vfs.UnlinkName(k, name);
      if ok {
        RecordsWhole(a, k);
        var t := Lookup(a, k, name).value;
        UnlinkOwned(a, vfs.table, k, t, a[t].nlink == 1);
      }
    case Write(k, off, buf) =>
      var _ := vfs.WriteAt(k, off, buf);
      OwnedUpdate(a, k, vfs.table[k]);
    case Truncate(k) =>
      vfs.Clear(k);
      NoBlocks();
      OwnedUpdate(a, k, vfs.table[k]);
  }

  /** A volume from its making on: the operations carried out, and the table after each. */
  class Session {
    const vfs: Vfs
    ghost var ops: seq<Op>
    ghost var states: seq<Table>

    /** The volume is what the operations have made of it. */
    ghost predicate Valid()
      reads this, vfs, vfs.efs.cache
    {
      && vfs.Valid() && IsTrace(states, ops) && vfs.table == states[|ops|]
      && |InUse(vfs.efs.g, vfs.efs.cache.view)| == Owned(vfs.table) + ShedTo(states, ops, |ops|)
    }

    /** Format a device and mount it. */
    constructor (cache: BlockCacheManager<Block>, total: nat, ib: nat)
      requires cache.Valid() && cache.pinned == multiset{} && forall b: nat :: b in cache.view <==> b < total
      requires 0 < ib && 1 + ib + ib * 1024 + 2 <= total < 0x1_0000_0000 && ib * BLOCK_BITS <= 0x1_0000_0000
      modifies cache
      ensures Valid() && ops == [] && vfs.efs.cache == cache && fresh(vfs) && fresh(vfs.efs)
    {
      hide Coherent, FsInv, Represents, TableOk;
      var made := CreateVolume(cache, total, ib);
      vfs := made;
      ops, states := [], [Fresh()];
      FreshOwned();
    }

    /** Any operation that can be asked for and fits. */
    method Do(op: Op)
      requires Valid() && Asked(vfs.table, op) && Fits(vfs, op)
      modifies this, vfs, vfs.efs.cache
      ensures Valid() && ops == old(ops) + [op] && states == old(states) + [vfs.table]
    {
      hide Coherent, FsInv, Represents, TableOk, Asked, Apply, Fits, InUse, Owned, Shed;
      Perform(vfs, op);
      ops, states := ops + [op], states + [vfs.table];
      Extended(old(states), old(ops), op, vfs.table);
      ShedPrefix(old(states), old(ops), |old(ops)|, vfs.table, op);
    }

    /** After any operations: no block shared, free blocks zero, contents as the table says, directories whole, and as
        many blocks leaked as removals have cut off.  If every operation kept the counts, they are right; if none
        spoiled a way up, every way up ends. */
    lemma Invariants()
      requires Valid()
      ensures FsInv(vfs.efs.g, vfs.efs.cache.view) && Represents(vfs.efs.g, vfs.efs.cache.view, vfs.table)
      ensures TableOk(vfs.table)
      ensures |Leaked(vfs.efs.g, vfs.efs.cache.view, |vfs.table|)| == ShedTo(states, ops, |ops|)
      ensures Leaked(vfs.efs.g, vfs.efs.cache.view, |vfs.table|) == {}
         <==> forall i: nat :: i < |ops| ==> Shed(states[i], ops[i]) == 0
      ensures IsRun(states, ops) ==> MapInv(vfs.table)
      ensures IsUpTrace(states, ops) ==> DirInv(vfs.table)
    {
      hide Coherent, FsInv, Represents, MapInv, DirInv, IsTrace, IsRun, IsUpTrace, TableOk, Leaked, InUse, Owned, Shed,
           ShedTo;
      TraceLength(states, ops);
      LeakedSize(vfs.efs.g, vfs.efs.cache.view, vfs.table);
      NoneShed(states, ops, |ops|);
      if IsRun(states, ops) { RunKeeps(states, ops, |ops|); }
      if IsUpTrace(states, ops) { UpRunKeeps(states, ops, |ops|); }
    }

    /** The kernel's name for an inode, worked out on the volume.  Without hard links to directories, the name of a
        directory leads back there exactly if the way up is spelled. */
    method InodeName(d: nat) returns (r: Option<Path>)
      requires Valid() && IsUpTrace(states, ops) && d < |vfs.table|
      modifies vfs.efs.cache`queue, vfs.efs.cache`device, vfs.efs.cache`pinned
      ensures Valid() && UpOk(vfs.table) && r == NameFor(vfs.table, d)
      ensures IsTreeTrace(states, ops, false) && vfs.table[d].kind == Directory ==>
                (r.Some? && Find(vfs.table, 0, r.value) == Some(d) <==> Spelled(vfs.table, d))
    {
      hide Coherent, FsInv, Represents, TableOk, UniqueAll, IsTrace, IsUpTrace, TreeInv, UpOk, NameFor, Spelled, Find,
           IsTreeTrace, InUse, Owned, ShedTo;
      TraceLength(states, ops);
      UpRunKeeps(states, ops, |ops|);
      r := vfs.NameForInode(d);
      if IsTreeTrace(states, ops, false) && vfs.table[d].kind == Directory {
        TreeRunKeeps(states, ops, false, |ops|);
        NameExact(vfs.table, d);
      }
    }
  }

  lemma FreshOwned()
    ensures Owned(Fresh()) == 1
  {
    hide DotEntries;
    assert Fresh()[..0] == [];
  }

  lemma TraceLength(states: seq<Table>, ops: seq<Op>)
    requires IsTrace(states, ops)
    ensures |states| == |ops| + 1
  {
    hide TableOk, Asked, Apply;
  }

  lemma Extended(states: seq<Table>, ops: seq<Op>, op: Op, a: Table)
    requires IsTrace(states, ops) && TableOk(states[|ops|]) && Asked(states[|ops|], op)
    requires a == Apply(states[|ops|], op)
    ensures IsTrace(states + [a], ops + [op])
  {
    hide TableOk, Asked, Apply;
  }
}
