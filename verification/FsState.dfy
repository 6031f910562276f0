/** The regions of an easy-fs volume and the invariant every operation keeps: no block is shared, every block in use is
    marked in the data bitmap, and every free data block holds zeros. */
module FsState {
  import opened Basics
  import opened Disk
  import opened BlockTree
  import opened Growth
  import opened Contents
  import opened Bitmaps

  /** super block | inode bitmap | inode area | data bitmap | data area */
  datatype Geometry = Geometry(inodeBitmapBlocks: nat, inodeAreaBlocks: nat,
                               dataBitmapBlocks: nat, dataAreaBlocks: nat) {
    function InodeCount(): nat { inodeBitmapBlocks * BLOCK_BITS }
    function InodeBitmap(): BitmapRegion { BitmapRegion(1, inodeBitmapBlocks) }
    function InodeStart(): nat { 1 + inodeBitmapBlocks }
    function DataBitmapStart(): nat { 1 + inodeBitmapBlocks + inodeAreaBlocks }
    function DataBitmap(): BitmapRegion { BitmapRegion(DataBitmapStart(), dataBitmapBlocks) }
    function DataStart(): nat { DataBitmapStart() + dataBitmapBlocks }
    function TotalBlocks(): nat { DataStart() + dataAreaBlocks }

    /** `get_disk_inode_pos`, the block part. */
    function InodeBlock(k: nat): nat { InodeStart() + k / INODES_PER_BLOCK }

    ghost predicate Valid() {
      && inodeAreaBlocks == inodeBitmapBlocks * 1024
      && dataAreaBlocks <= dataBitmapBlocks * BLOCK_BITS
      && TotalBlocks() < 0x1_0000_0000 && InodeCount() <= 0x1_0000_0000
    }
  }

  const EFS_MAGIC: u32 := 0x3b800001

  /** The super block of a volume laid out as g. */
  ghost predicate SuperOf(g: Geometry, b: Block) {
    && b.Super? && b.magic == EFS_MAGIC && b.totalBlocks == g.TotalBlocks()
    && b.inodeBitmapBlocks == g.inodeBitmapBlocks && b.inodeAreaBlocks == g.inodeAreaBlocks
    && b.dataBitmapBlocks == g.dataBitmapBlocks && b.dataAreaBlocks == g.dataAreaBlocks
  }

  /** Every block holds what its region says. */
  ghost predicate Typed(g: Geometry, d: Volume) {
    && g.Valid()
    && (forall b: nat {:trigger b in d} :: b in d <==> b < g.TotalBlocks())
    && 0 in d && SuperOf(g, d[0])
    && (forall b: nat {:trigger d[b]} :: b in d ==>
          && (1 <= b < g.InodeStart() ==> d[b].Bitmap?)
          && (g.InodeStart() <= b < g.DataBitmapStart() ==> d[b].Inodes?)
          && (g.DataBitmapStart() <= b < g.DataStart() ==> d[b].Bitmap?)
          && (g.DataStart() <= b ==> d[b].Data?))
  }

  /** Disk inode k. */
  function NodeAt(g: Geometry, d: Volume, k: nat): Node {
    var b := g.InodeBlock(k);
    if b in d && d[b].Inodes? then d[b].nodes[k % INODES_PER_BLOCK] else ZeroNode()
  }

  function SetNode(g: Geometry, d: Volume, k: nat, n: Node): Volume {
    var b := g.InodeBlock(k);
    if b in d && d[b].Inodes? then d[b := Inodes(d[b].nodes[k % INODES_PER_BLOCK := n])] else d
  }

  /** Blocks held by inode k. */
  function BlocksOf(g: Geometry, d: Volume, k: nat): seq<u32> {
    Blocks(d, NodeAt(g, d, k))
  }

  /** Data block b is marked as used. */
  function Used(g: Geometry, d: Volume, b: nat): bool {
    g.DataStart() <= b < g.TotalBlocks() && Bit(d, g.DataBitmapStart(), b - g.DataStart())
  }

  ghost predicate NodeOk(g: Geometry, d: Volume, k: nat) {
    var n := NodeAt(g, d, k);
    && n.size <= MAX_SIZE
    && NoDup(BlocksOf(g, d, k))
    && (forall b :: b in BlocksOf(g, d, k) ==> Used(g, d, b))
    && (n.kind == File ==> TailZero(d, n))
  }

  ghost predicate Unshared(g: Geometry, d: Volume) {
    forall k: nat, l: nat :: k < l < g.InodeCount() ==> Disjoint(BlocksOf(g, d, k), BlocksOf(g, d, l))
  }

  ghost predicate FreeZero(g: Geometry, d: Volume) {
    forall b: nat :: g.DataStart() <= b < g.TotalBlocks() && !Used(g, d, b) ==> BytesOf(d, b) == ZeroBytes()
  }

  /** The data bitmap marks nothing outside the data area. */
  ghost predicate BitsInside(g: Geometry, d: Volume) {
    forall p: nat :: p < g.DataBitmap().Maximum() && Bit(d, g.DataBitmapStart(), p) ==> p < g.dataAreaBlocks
  }

  ghost predicate FsInv(g: Geometry, d: Volume) {
    && Typed(g, d)
    && (forall k: nat :: k < g.InodeCount() ==> NodeOk(g, d, k))
    && Unshared(g, d)
    && FreeZero(g, d)
    && BitsInside(g, d)
  }

  /** Block b is used but belongs to no inode. */
  ghost predicate Pending(g: Geometry, d: Volume, b: nat) {
    Used(g, d, b) && forall k: nat :: k < g.InodeCount() ==> b !in BlocksOf(g, d, k)
  }

  /** Data blocks in use. */
  ghost function InUse(g: Geometry, d: Volume): set<nat> {
    Bits(d, g.DataBitmapStart(), g.DataBitmap().Maximum())
  }

  // ---- region arithmetic ----

  lemma InodeBlockRange(g: Geometry, k: nat)
    requires g.Valid() && k < g.InodeCount()
    ensures g.InodeStart() <= g.InodeBlock(k) < g.DataBitmapStart()
  {
  }

  const INODE_SZ := 128

  /** Distinct inodes occupy disjoint bytes: another block, or another 128 bytes of the
      same.  No slot runs over the end of its block. */
  lemma InodeSlots(g: Geometry, k: nat, l: nat)
    requires k != l
    ensures var i, j := k % INODES_PER_BLOCK * INODE_SZ, l % INODES_PER_BLOCK * INODE_SZ;
            && (g.InodeBlock(k) != g.InodeBlock(l) || i + INODE_SZ <= j || j + INODE_SZ <= i)
            && i + INODE_SZ <= BLOCK_SZ && j + INODE_SZ <= BLOCK_SZ
  {
  }

  lemma NodeBlockOk(g: Geometry, d: Volume, k: nat)
    requires Typed(g, d) && k < g.InodeCount()
    ensures g.InodeBlock(k) in d && d[g.InodeBlock(k)].Inodes?
    ensures g.InodeStart() <= g.InodeBlock(k) < g.DataBitmapStart()
  {
    InodeBlockRange(g, k);
    assert g.InodeBlock(k) < g.TotalBlocks();
  }

  lemma SetNodeGet(g: Geometry, d: Volume, k: nat, n: Node, l: nat)
    requires g.InodeBlock(k) in d && d[g.InodeBlock(k)].Inodes?
    ensures NodeAt(g, SetNode(g, d, k, n), l) == if k == l then n else NodeAt(g, d, l)
  {
    if k != l { InodeSlots(g, k, l); }
  }

  // ---- what other inodes see ----

  /** Inode k is the same on e as on d: same node, same blocks, same bytes. */
  ghost predicate SameInode(g: Geometry, d: Volume, e: Volume, k: nat) {
    && NodeAt(g, e, k) == NodeAt(g, d, k)
    && BlocksOf(g, e, k) == BlocksOf(g, d, k)
    && Content(e, NodeAt(g, e, k)) == Content(d, NodeAt(g, d, k))
    && (TailZero(e, NodeAt(g, e, k)) <==> TailZero(d, NodeAt(g, d, k)))
  }

  lemma Unaffected(g: Geometry, d: Volume, e: Volume, k: nat)
    requires NodeAt(g, e, k) == NodeAt(g, d, k) && NodeAt(g, d, k).size <= MAX_SIZE
    requires forall b :: b in BlocksOf(g, d, k) ==> BytesOf(e, b) == BytesOf(d, b)
    ensures SameInode(g, d, e, k)
  {
    hide NodeAt, Tree, ByteAt, Content, TailZero, BytesOf;
    ContentFrame(d, e, NodeAt(g, d, k), NodeAt(g, e, k));
  }

  /** Raw data of d and e differ at most in blocks of s. */
  ghost predicate RawSameBut(d: Volume, e: Volume, s: seq<u32>) {
    forall b: nat :: b !in s ==> BytesOf(e, b) == BytesOf(d, b)
  }

  // ---- storing an inode ----

  /** What an operation on inode k may have done by the time its node is stored: only blocks of its new tree differ, all
      of them were its own or pending, and none is shared. */
  ghost predicate Prepared(g: Geometry, d: Volume, d': Volume, k: nat, n: Node) {
    && d'.Keys == d.Keys && n.size <= MAX_SIZE
    && (forall b :: Changed(d, d', b) ==> b in Blocks(d', n) && d'[b].Data?)
    && NoDup(Blocks(d', n))
    && (n.kind == File ==> TailZero(d', n))
    && (forall b :: b in Blocks(d', n) ==>
          Used(g, d, b) && forall l: nat :: l < g.InodeCount() && l != k ==> b !in BlocksOf(g, d, l))
  }

  lemma PreparedRegions(g: Geometry, d: Volume, d': Volume, k: nat, n: Node)
    requires Typed(g, d) && Prepared(g, d, d', k, n)
    ensures Typed(g, d') && d'.Keys == d.Keys
    ensures forall b: nat :: b in d && b < g.DataStart() ==> d'[b] == d[b]
  {
    hide Tree, TailZero, NoDup, BlocksOf, Bit;
    forall b | b in d' ensures b < g.DataStart() ==> d'[b] == d[b] {
      if d'[b] != d[b] { assert Changed(d, d', b); assert Used(g, d, b); }
    }
    forall b | b in d' ensures g.DataStart() <= b ==> d'[b].Data? {
      if d'[b] != d[b] { assert Changed(d, d', b); }
    }
  }

  lemma CommitRaw(g: Geometry, d: Volume, d': Volume, k: nat, n: Node)
    requires Typed(g, d) && k < g.InodeCount() && Prepared(g, d, d', k, n)
    ensures Typed(g, d')
    ensures g.InodeBlock(k) in d' && d'[g.InodeBlock(k)].Inodes?
    ensures var e := SetNode(g, d', k, n);
            && Typed(g, e) && NodeAt(g, e, k) == n
            && RawSameBut(d, e, Blocks(d', n)) && RawSameBut(d', e, [])
            && (forall l: nat :: l < g.InodeCount() && l != k ==> NodeAt(g, e, l) == NodeAt(g, d, l))
            && (forall s: nat, p: nat :: s + p / BLOCK_BITS < g.DataStart() ==> Bit(e, s, p) == Bit(d, s, p))
  {
    hide Tree, TailZero, ZeroBytes, ZeroNode, NoDup, Used, BlocksOf, Blocks, BytesOf, Prepared;
    hide Bit, NodeAt, SetNode, RawSameBut, Typed;
    ValidOf(g, d);
    NodeBlockOk(g, d, k);
    PreparedRegions(g, d, d', k, n);
    CommitBytes(g, d, d', k, n);
    NodeBlockOk(g, d', k);
    StoredRegions(g, d', k, n);
    forall l: nat | l < g.InodeCount()
      ensures NodeAt(g, SetNode(g, d', k, n), l) == if l == k then n else NodeAt(g, d, l)
    {
      SetNodeGet(g, d', k, n, l);
      SameNodeAt(g, d, d', l);
    }
    forall s: nat, p: nat | s + p / BLOCK_BITS < g.DataStart() ensures Bit(d', s, p) == Bit(d, s, p) {
      SameBitAt(g, d, d', s, p);
    }
  }

  /** Storing an inode changes neither the regions nor a bitmap. */
  lemma StoredRegions(g: Geometry, d: Volume, k: nat, n: Node)
    requires Typed(g, d) && k < g.InodeCount()
    ensures Typed(g, SetNode(g, d, k, n))
    ensures forall s: nat, p: nat :: Bit(SetNode(g, d, k, n), s, p) == Bit(d, s, p)
  {
    NodeBlockOk(g, d, k);
    var e, b := SetNode(g, d, k, n), g.InodeBlock(k);
    forall s: nat, p: nat ensures Bit(e, s, p) == Bit(d, s, p) { if s + p / BLOCK_BITS != b { } }
  }

  lemma SameNodeAt(g: Geometry, d: Volume, e: Volume, l: nat)
    requires Typed(g, d) && l < g.InodeCount() && d.Keys == e.Keys
    requires forall b: nat :: b in d && b < g.DataStart() ==> e[b] == d[b]
    ensures NodeAt(g, e, l) == NodeAt(g, d, l)
  {
    hide Typed;
    ValidOf(g, d);
    NodeBlockOk(g, d, l);
  }

  lemma SameBitAt(g: Geometry, d: Volume, e: Volume, s: nat, p: nat)
    requires d.Keys == e.Keys && s + p / BLOCK_BITS < g.DataStart()
    requires forall b: nat :: b in d && b < g.DataStart() ==> e[b] == d[b]
    ensures Bit(e, s, p) == Bit(d, s, p)
  {
  }

  lemma CommitBytes(g: Geometry, d: Volume, d': Volume, k: nat, n: Node)
    requires Typed(g, d) && k < g.InodeCount() && Prepared(g, d, d', k, n)
    ensures var e := SetNode(g, d', k, n); RawSameBut(d, e, Blocks(d', n)) && RawSameBut(d', e, [])
  {
    hide Tree, TailZero, ZeroBytes, ZeroNode, NoDup, Used, BlocksOf, Blocks;
    PreparedRegions(g, d, d', k, n);
    var e := SetNode(g, d', k, n);
    forall b: nat | b !in Blocks(d', n) ensures BytesOf(e, b) == BytesOf(d, b) {
      assert !Changed(d, d', b);
    }
  }

  lemma CommitNodes(g: Geometry, d: Volume, d': Volume, k: nat, n: Node, e: Volume)
    requires FsInv(g, d) && k < g.InodeCount() && Prepared(g, d, d', k, n)
    requires NodeAt(g, e, k) == n && RawSameBut(d, e, Blocks(d', n)) && RawSameBut(d', e, [])
    requires forall l: nat :: l < g.InodeCount() && l != k ==> NodeAt(g, e, l) == NodeAt(g, d, l)
    ensures BlocksOf(g, e, k) == Blocks(d', n) && Content(e, n) == Content(d', n)
    ensures (TailZero(e, n) <==> TailZero(d', n))
    ensures forall l: nat :: l < g.InodeCount() && l != k ==> SameInode(g, d, e, l)
  {
    hide Tree, TailZero, BytesOf, NodeAt, Content, ByteAt, Typed, FreeZero, BitsInside, SameInode;
    ContentFrame(d', e, n, n);
    forall l: nat | l < g.InodeCount() && l != k ensures SameInode(g, d, e, l) {
      assert NodeOk(g, d, l);
      Unaffected(g, d, e, l);
    }
  }

  /** Storing a prepared node keeps the invariant and leaves every other inode as it was. */
  lemma Commit(g: Geometry, d: Volume, d': Volume, k: nat, n: Node)
    requires FsInv(g, d) && k < g.InodeCount() && Prepared(g, d, d', k, n)
    ensures g.InodeBlock(k) in d' && d'[g.InodeBlock(k)].Inodes?
    ensures var e := SetNode(g, d', k, n);
            && FsInv(g, e)
            && NodeAt(g, e, k) == n && BlocksOf(g, e, k) == Blocks(d', n) && Content(e, n) == Content(d', n)
            && (forall l: nat :: l < g.InodeCount() && l != k ==> SameInode(g, d, e, l))
            && (forall s: nat, p: nat :: s + p / BLOCK_BITS < g.DataStart() ==> Bit(e, s, p) == Bit(d, s, p))
  {
    hide Tree, TailZero, BytesOf, NodeAt, Content, Bit, ByteAt, Typed, NoDup, Disjoint;
    CommitRaw(g, d, d', k, n);
    var e := SetNode(g, d', k, n);
    CommitNodes(g, d, d', k, n, e);
    SameUsed(g, d, e);
    forall l: nat | l < g.InodeCount() ensures NodeOk(g, e, l) {
      if l == k { CommitSelf(g, d, d', k, n, e); } else { CommitOther(g, d, e, l); }
    }
    forall a: nat, b: nat | a < b < g.InodeCount() ensures Disjoint(BlocksOf(g, e, a), BlocksOf(g, e, b)) {
      CommitApart(g, d, d', k, n, e, a, b);
    }
    CommitZero(g, d, d', k, n, e);
  }

  lemma SameUsed(g: Geometry, d: Volume, e: Volume)
    requires Typed(g, d)
    requires forall s: nat, p: nat :: s + p / BLOCK_BITS < g.DataStart() ==> Bit(e, s, p) == Bit(d, s, p)
    ensures forall b: nat :: Used(g, e, b) == Used(g, d, b)
    ensures BitsInside(g, d) ==> BitsInside(g, e)
    ensures InUse(g, e) == InUse(g, d)
  {
    hide Bit, Typed;
    assert g.Valid() by { assert Typed(g, d); ValidOf(g, d); }
    forall p: nat | p < g.DataBitmap().Maximum()
      ensures Bit(e, g.DataBitmapStart(), p) == Bit(d, g.DataBitmapStart(), p)
    {
    }
  }

  lemma ValidOf(g: Geometry, d: Volume)
    requires Typed(g, d)
    ensures g.Valid()
  {
  }

  lemma CommitApart(g: Geometry, d: Volume, d': Volume, k: nat, n: Node, e: Volume, a: nat, b: nat)
    requires FsInv(g, d) && k < g.InodeCount() && Prepared(g, d, d', k, n) && a < b < g.InodeCount()
    requires BlocksOf(g, e, k) == Blocks(d', n)
    requires forall l: nat :: l < g.InodeCount() && l != k ==> SameInode(g, d, e, l)
    ensures Disjoint(BlocksOf(g, e, a), BlocksOf(g, e, b))
  {
    hide Tree, NodeAt, TailZero, Content, Typed, Used, FreeZero, BitsInside;
    if a == k {
      forall x | x in BlocksOf(g, e, a) ensures x !in BlocksOf(g, e, b) { assert SameInode(g, d, e, b); }
    } else if b == k {
      forall x | x in BlocksOf(g, e, a) ensures x !in BlocksOf(g, e, b) { assert SameInode(g, d, e, a); }
    } else {
      assert SameInode(g, d, e, a) && SameInode(g, d, e, b);
    }
  }

  lemma CommitSelf(g: Geometry, d: Volume, d': Volume, k: nat, n: Node, e: Volume)
    requires Prepared(g, d, d', k, n) && NodeAt(g, e, k) == n && BlocksOf(g, e, k) == Blocks(d', n)
    requires TailZero(e, n) <==> TailZero(d', n)
    requires forall b: nat :: Used(g, e, b) == Used(g, d, b)
    ensures NodeOk(g, e, k)
  {
    hide Tree, NodeAt, TailZero, Used, NoDup;
  }

  lemma CommitOther(g: Geometry, d: Volume, e: Volume, l: nat)
    requires NodeOk(g, d, l) && SameInode(g, d, e, l)
    requires forall b: nat :: Used(g, d, b) ==> Used(g, e, b)
    ensures NodeOk(g, e, l)
  {
    hide Tree, NodeAt, TailZero, Used, NoDup, Content;
  }

  lemma CommitZero(g: Geometry, d: Volume, d': Volume, k: nat, n: Node, e: Volume)
    requires FsInv(g, d) && Prepared(g, d, d', k, n)
    requires RawSameBut(d, e, Blocks(d', n)) && forall b: nat :: Used(g, e, b) == Used(g, d, b)
    ensures FreeZero(g, e)
  {
    hide Tree, NodeAt, TailZero, Content, Typed, Used, BytesOf, NoDup;
  }

  // ---- taking and giving back data blocks ----

  /** Volumes that agree on raw data and inodes agree on every inode. */
  lemma SameInodes(g: Geometry, d: Volume, e: Volume, s: seq<u32>)
    requires FsInv(g, d) && RawSameBut(d, e, s)
    requires forall k: nat :: k < g.InodeCount() ==>
                 NodeAt(g, e, k) == NodeAt(g, d, k) && Disjoint(s, BlocksOf(g, d, k))
    ensures forall k: nat :: k < g.InodeCount() ==> SameInode(g, d, e, k)
  {
    hide NodeAt, Tree, TailZero, BytesOf, Content, Typed, Used, FreeZero, BitsInside, SameInode;
    forall k: nat | k < g.InodeCount() ensures SameInode(g, d, e, k) {
      assert NodeOk(g, d, k);
      forall b | b in BlocksOf(g, d, k) ensures BytesOf(e, b) == BytesOf(d, b) { assert b !in s; }
      Unaffected(g, d, e, k);
    }
  }

  lemma SameUnshared(g: Geometry, d: Volume, e: Volume)
    requires Unshared(g, d) && forall k: nat :: k < g.InodeCount() ==> SameInode(g, d, e, k)
    ensures Unshared(g, e)
  {
    hide NodeAt, Tree, TailZero, Content;
    forall k: nat, l: nat | k < l < g.InodeCount() ensures Disjoint(BlocksOf(g, e, k), BlocksOf(g, e, l)) {
      assert SameInode(g, d, e, k) && SameInode(g, d, e, l);
    }
  }

  /** Data bit p can be set or cleared without touching anything else. */
  lemma BitFrame(g: Geometry, d: Volume, p: nat, v: bool)
    requires Typed(g, d) && p < g.DataBitmap().Maximum()
    ensures var b := g.DataBitmapStart() + p / BLOCK_BITS;
            && b in d && d[b].Bitmap? && b < g.DataStart()
            && var e := SetBit(d, g.DataBitmapStart(), p, v);
            && Typed(g, e) && RawSameBut(d, e, [])
            && (forall k: nat :: k < g.InodeCount() ==> NodeAt(g, e, k) == NodeAt(g, d, k))
            && (forall q: nat :: Bit(e, g.DataBitmapStart(), q) == if q == p then v else Bit(d, g.DataBitmapStart(), q))
            && (forall q: nat :: q < g.InodeCount() ==> Bit(e, 1, q) == Bit(d, 1, q))
  {
    hide ZeroBytes, ZeroNode, Bit, NodeAt, SetBit, BytesOf, Typed;
    var e, b := SetBit(d, g.DataBitmapStart(), p, v), g.DataBitmapStart() + p / BLOCK_BITS;
    ValidOf(g, d);
    BitBlock(g, p);
    BitmapAt(g, d, b);
    BitStored(d, g.DataBitmapStart(), p, v);
    TypedKept(g, d, e, b);
    forall q: nat ensures Bit(e, g.DataBitmapStart(), q) == if q == p then v else Bit(d, g.DataBitmapStart(), q) {
      SetBitGet(d, g.DataBitmapStart(), p, v, q);
    }
    forall k: nat | k < g.InodeCount() ensures NodeAt(g, e, k) == NodeAt(g, d, k) { OtherNode(g, d, e, b, k); }
    forall q: nat | q < g.InodeCount() ensures Bit(e, 1, q) == Bit(d, 1, q) { OtherBit(g, d, e, b, q); }
    forall x: nat ensures BytesOf(e, x) == BytesOf(d, x) { OtherBytes(d, e, b, x); }
  }

  /** The block that holds bit p of the data bitmap. */
  lemma BitBlock(g: Geometry, p: nat)
    requires g.Valid() && p < g.DataBitmap().Maximum()
    ensures g.DataBitmapStart() <= g.DataBitmapStart() + p / BLOCK_BITS < g.DataStart() <= g.TotalBlocks()
  {
  }

  lemma BitmapAt(g: Geometry, d: Volume, b: nat)
    requires Typed(g, d) && (1 <= b < g.InodeStart() || g.DataBitmapStart() <= b < g.DataStart())
    ensures b in d && d[b].Bitmap?
  {
  }

  /** Setting a bit changes one block, which stays a bitmap. */
  lemma BitStored(d: Volume, start: nat, p: nat, v: bool)
    requires start + p / BLOCK_BITS in d && d[start + p / BLOCK_BITS].Bitmap?
    ensures var e, b := SetBit(d, start, p, v), start + p / BLOCK_BITS;
            && e.Keys == d.Keys && e[b].Bitmap?
            && forall x: nat :: x in d && x != b ==> e[x] == d[x]
  {
  }

  /** A change outside the inode area changes no inode... */
  lemma OtherNode(g: Geometry, d: Volume, e: Volume, b: nat, k: nat)
    requires Typed(g, d) && k < g.InodeCount() && e.Keys == d.Keys && !(g.InodeStart() <= b < g.DataBitmapStart())
    requires forall x: nat :: x in d && x != b ==> e[x] == d[x]
    ensures NodeAt(g, e, k) == NodeAt(g, d, k)
  {
    hide Typed;
    ValidOf(g, d);
    NodeBlockOk(g, d, k);
  }

  /** ... outside the inode bitmap no bit of it... */
  lemma OtherBit(g: Geometry, d: Volume, e: Volume, b: nat, q: nat)
    requires q < g.InodeCount() && e.Keys == d.Keys && b >= g.InodeStart()
    requires forall x: nat :: x in d && x != b ==> e[x] == d[x]
    ensures Bit(e, 1, q) == Bit(d, 1, q)
  {
    assert 1 + q / BLOCK_BITS < g.InodeStart();
  }

  /** ... and a change of a block that is not raw, before and after, no raw bytes. */
  lemma OtherBytes(d: Volume, e: Volume, b: nat, x: nat)
    requires e.Keys == d.Keys && b in d && !d[b].Data? && !e[b].Data?
    requires forall x: nat :: x in d && x != b ==> e[x] == d[x]
    ensures BytesOf(e, x) == BytesOf(d, x)
  {
    hide ZeroBytes;
  }

  /** `alloc_data` with room left: a zeroed block of the data area that no inode holds. */
  lemma TakeBlock(g: Geometry, d: Volume, p: nat)
    requires FsInv(g, d) && p < g.dataAreaBlocks && !Bit(d, g.DataBitmapStart(), p)
    ensures var b := g.DataBitmapStart() + p / BLOCK_BITS; b in d && d[b].Bitmap?
    ensures var e := SetBit(d, g.DataBitmapStart(), p, true);
            && FsInv(g, e)
            && Pending(g, e, g.DataStart() + p) && BytesOf(e, g.DataStart() + p) == ZeroBytes()
            && RawSameBut(d, e, [])
            && (forall k: nat :: k < g.InodeCount() ==> SameInode(g, d, e, k))
            && (forall b: nat :: Used(g, e, b) <==> Used(g, d, b) || b == g.DataStart() + p)
            && InUse(g, e) == InUse(g, d) + {p}
            && (forall q: nat :: q < g.InodeCount() ==> Bit(e, 1, q) == Bit(d, 1, q))
  {
    hide NodeAt, BlocksOf, BytesOf, Bit, SetBit, Bits, SameInode, Disjoint, NodeOk, Typed, Unshared, FreeZero,
         BitsInside, Used, Pending, RawSameBut, ZeroBytes;
    ValidOf(g, d);
    BitFrame(g, d, p, true);
    var e := SetBit(d, g.DataBitmapStart(), p, true);
    NothingDisjoint(g, d);
    SameInodes(g, d, e, []);
    SameUnshared(g, d, e);
    TakenBits(g, d, e, p);
    forall k: nat | k < g.InodeCount() ensures NodeOk(g, e, k) { CommitOther(g, d, e, k); }
    SetBitBits(d, g.DataBitmapStart(), p, g.DataBitmap().Maximum());
    NewPending(g, d, e, p);
  }

  /** What is marked once bit p of the data bitmap is set. */
  lemma TakenBits(g: Geometry, d: Volume, e: Volume, p: nat)
    requires FreeZero(g, d) && BitsInside(g, d) && RawSameBut(d, e, []) && p < g.dataAreaBlocks
    requires !Bit(d, g.DataBitmapStart(), p)
    requires forall q: nat :: Bit(e, g.DataBitmapStart(), q) == if q == p then true else Bit(d, g.DataBitmapStart(), q)
    ensures forall b: nat :: Used(g, e, b) <==> Used(g, d, b) || b == g.DataStart() + p
    ensures FreeZero(g, e) && BitsInside(g, e) && BytesOf(e, g.DataStart() + p) == ZeroBytes()
  {
    hide Bit, BytesOf, ZeroBytes;
    assert forall b: nat :: b !in [];
  }

  lemma NothingDisjoint(g: Geometry, d: Volume)
    ensures forall k: nat :: k < g.InodeCount() ==> Disjoint([], BlocksOf(g, d, k))
  {
    hide BlocksOf;
  }

  lemma NewPending(g: Geometry, d: Volume, e: Volume, p: nat)
    requires FsInv(g, d) && p < g.dataAreaBlocks && !Bit(d, g.DataBitmapStart(), p) && Bit(e, g.DataBitmapStart(), p)
    requires forall k: nat :: k < g.InodeCount() ==> SameInode(g, d, e, k)
    ensures Pending(g, e, g.DataStart() + p)
  {
    hide NodeAt, Tree, TailZero, BytesOf, Content, Bit, NoDup;
    var b := g.DataStart() + p;
    forall k: nat | k < g.InodeCount() ensures b !in BlocksOf(g, e, k) {
      assert SameInode(g, d, e, k) && NodeOk(g, d, k);
    }
  }

  function Zeroed(d: Volume, b: nat): Volume {
    d[b := Data(ZeroBytes())]
  }

  function Given(g: Geometry, d: Volume, b: nat): Volume
    requires g.DataStart() <= b
  {
    SetBit(Zeroed(d, b), g.DataBitmapStart(), b - g.DataStart(), false)
  }

  /** `dealloc_data`: a pending block is zeroed and its bit, which is set, cleared. */
  lemma GiveBlock(g: Geometry, d: Volume, b: nat)
    requires FsInv(g, d) && Pending(g, d, b)
    ensures b in d && d[b].Data? && b - g.DataStart() < g.DataBitmap().Maximum()
    ensures Typed(g, Zeroed(d, b)) && Bit(Zeroed(d, b), g.DataBitmapStart(), b - g.DataStart())
    ensures FsInv(g, Given(g, d, b))
    ensures forall k: nat :: k < g.InodeCount() ==> SameInode(g, d, Given(g, d, b), k)
    ensures forall x: nat :: Used(g, Given(g, d, b), x) <==> Used(g, d, x) && x != b
    ensures InUse(g, Given(g, d, b)) == InUse(g, d) - {b - g.DataStart()}
    ensures forall q: nat :: q < g.InodeCount() ==> Bit(Given(g, d, b), 1, q) == Bit(d, 1, q)
  {
    hide NodeAt, BlocksOf, BytesOf, Bit, SetBit, Bits, SameInode, Disjoint, NodeOk, Typed, Unshared, FreeZero,
         BitsInside, Used, RawSameBut, ZeroBytes, Zeroed;
    var m, p := Zeroed(d, b), b - g.DataStart();
    ValidOf(g, d);
    UsedRange(g, d, b);
    ZeroFrame(g, d, b);
    BitFrame(g, m, p, false);
    var e := SetBit(m, g.DataBitmapStart(), p, false);
    GivenRaw(d, m, e, b);
    forall k: nat | k < g.InodeCount() ensures Disjoint([b as u32], BlocksOf(g, d, k)) {
      OneDisjoint(b, BlocksOf(g, d, k));
    }
    SameInodes(g, d, e, [b]);
    SameUnshared(g, d, e);
    GivenBits(g, d, e, p);
    forall k: nat | k < g.InodeCount() ensures NodeOk(g, e, k) { GivenOther(g, d, e, k, b); }
    SetBitBits(m, g.DataBitmapStart(), p, g.DataBitmap().Maximum());
    SameBits(d, m, g.DataBitmapStart(), g.DataBitmap().Maximum());
    GivenZero(g, d, e, b);
  }

  lemma UsedRange(g: Geometry, d: Volume, b: nat)
    requires Used(g, d, b)
    ensures g.DataStart() <= b < g.TotalBlocks() && Bit(d, g.DataBitmapStart(), b - g.DataStart())
  {
    hide Bit;
  }

  /** What is marked once bit p of the data bitmap is cleared. */
  lemma GivenBits(g: Geometry, d: Volume, e: Volume, p: nat)
    requires BitsInside(g, d)
    requires forall q: nat ::
               Bit(e, g.DataBitmapStart(), q) == if q == p then false else Bit(d, g.DataBitmapStart(), q)
    ensures forall b: nat :: Used(g, e, b) <==> Used(g, d, b) && b != g.DataStart() + p
    ensures BitsInside(g, e)
  {
    hide Bit;
  }

  lemma OneDisjoint(b: u32, s: seq<u32>)
    requires b !in s
    ensures Disjoint([b], s)
  {
  }

  lemma SameBits(d: Volume, e: Volume, start: nat, n: nat)
    requires forall q: nat :: Bit(e, start, q) == Bit(d, start, q)
    ensures Bits(e, start, n) == Bits(d, start, n)
  {
    hide Bit;
  }

  lemma ZeroFrame(g: Geometry, d: Volume, b: nat)
    requires Typed(g, d) && Used(g, d, b)
    ensures b in d && d[b].Data? && b < 0x1_0000_0000
    ensures b - g.DataStart() < g.DataBitmap().Maximum()
    ensures var m := Zeroed(d, b);
            && Typed(g, m) && RawSameBut(d, m, [b]) && BytesOf(m, b) == ZeroBytes()
            && (forall k: nat :: k < g.InodeCount() ==> NodeAt(g, m, k) == NodeAt(g, d, k))
            && (forall q: nat :: Bit(m, g.DataBitmapStart(), q) == Bit(d, g.DataBitmapStart(), q))
            && (forall q: nat :: q < g.InodeCount() ==> Bit(m, 1, q) == Bit(d, 1, q))
  {
    hide ZeroBytes, ZeroNode, Bit, NodeAt, Typed, BytesOf;
    var m := Zeroed(d, b);
    UsedRange(g, d, b);
    RawBlock(g, d, b);
    TypedKept(g, d, m, b);
    assert BytesOf(m, b) == ZeroBytes() by { ZeroedBytes(d, b); }
    forall x: nat | x !in [b as u32] ensures BytesOf(m, x) == BytesOf(d, x) { ElsewhereBytes(d, m, b, x); }
    forall k: nat | k < g.InodeCount() ensures NodeAt(g, m, k) == NodeAt(g, d, k) { OtherNode(g, d, m, b, k); }
    forall q: nat ensures Bit(m, g.DataBitmapStart(), q) == Bit(d, g.DataBitmapStart(), q) {
      RawBit(d, m, b, g.DataBitmapStart(), q);
    }
    forall q: nat | q < g.InodeCount() ensures Bit(m, 1, q) == Bit(d, 1, q) { RawBit(d, m, b, 1, q); }
  }

  /** A block of the data area. */
  lemma RawBlock(g: Geometry, d: Volume, b: nat)
    requires Typed(g, d) && g.DataStart() <= b < g.TotalBlocks()
    ensures b in d && d[b].Data? && b < 0x1_0000_0000 && b - g.DataStart() < g.DataBitmap().Maximum()
  {
  }

  lemma ZeroedBytes(d: Volume, b: nat)
    ensures BytesOf(Zeroed(d, b), b) == ZeroBytes()
  {
    hide ZeroBytes;
  }

  lemma ElsewhereBytes(d: Volume, e: Volume, b: nat, x: nat)
    requires e.Keys == d.Keys && x != b && forall x: nat :: x in d && x != b ==> e[x] == d[x]
    ensures BytesOf(e, x) == BytesOf(d, x)
  {
    hide ZeroBytes;
  }

  /** Changing one block for another of its kind keeps the regions. */
  lemma TypedKept(g: Geometry, d: Volume, e: Volume, b: nat)
    requires Typed(g, d) && e.Keys == d.Keys && b in d && b != 0
    requires forall x: nat :: x in d && x != b ==> e[x] == d[x]
    requires (d[b].Data? && e[b].Data?) || (d[b].Bitmap? && e[b].Bitmap?)
    ensures Typed(g, e)
  {
    hide SuperOf;
  }

  /** A raw block holds no bits. */
  lemma RawBit(d: Volume, e: Volume, b: nat, start: nat, q: nat)
    requires e.Keys == d.Keys && b in d && d[b].Data? && e[b].Data?
    requires forall x: nat :: x in d && x != b ==> e[x] == d[x]
    ensures Bit(e, start, q) == Bit(d, start, q)
  {
  }

  lemma GivenRaw(d: Volume, m: Volume, e: Volume, b: u32)
    requires RawSameBut(d, m, [b]) && RawSameBut(m, e, [])
    ensures RawSameBut(d, e, [b]) && BytesOf(e, b) == BytesOf(m, b)
  {
    hide BytesOf;
    assert b !in [];
    forall x: nat | x !in [b] ensures BytesOf(e, x) == BytesOf(d, x) { assert x !in []; }
  }

  lemma GivenOther(g: Geometry, d: Volume, e: Volume, k: nat, b: nat)
    requires NodeOk(g, d, k) && SameInode(g, d, e, k) && b !in BlocksOf(g, d, k)
    requires forall x: nat :: Used(g, d, x) && x != b ==> Used(g, e, x)
    ensures NodeOk(g, e, k)
  {
    hide Tree, NodeAt, TailZero, Used, NoDup, Content;
  }

  lemma GivenZero(g: Geometry, d: Volume, e: Volume, b: u32)
    requires FreeZero(g, d) && RawSameBut(d, e, [b]) && BytesOf(e, b) == ZeroBytes()
    requires forall x: nat :: Used(g, e, x) <==> Used(g, d, x) && x != b
    ensures FreeZero(g, e)
  {
    hide Used, BytesOf, ZeroBytes;
  }
}
