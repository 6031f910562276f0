/** Growing and overwriting one inode of a consistent volume: what has to hold before its node is stored. */
module Updates {
  import opened Basics
  import opened Disk
  import opened BlockTree
  import opened Growth
  import opened Contents
  import opened Layout
  import opened FsState
  import opened Efs

  /** The contract of `IncreaseSize`: from (d, n) to (d', n') with the blocks nb. */
  ghost predicate Grown(d: Volume, n: Node, d': Volume, n': Node, nb: seq<u32>) {
    && d'.Keys == d.Keys && n.size <= n'.size <= MAX_SIZE && n'.kind == n.kind
    && Blocks(d', n') == Blocks(d, n) + nb
    && (forall b :: Changed(d, d', b) ==> IsIndex(d', n', DataBlocks(n'.size), b))
    && (forall b :: Changed(d, d', b) ==> d[b].Data? && d'[b].Data?)
  }

  /** An inode that does not grow is grown by nothing. */
  lemma GrownNone(d: Volume, n: Node)
    requires n.size <= MAX_SIZE
    ensures Grown(d, n, d, n, [])
  {
  }

  /** The grown inode reads as before, then as zeros as far as the bytes in between were zero. */
  lemma GrownBytes(d: Volume, n: Node, d': Volume, n': Node, nb: seq<u32>, p: nat)
    requires Grown(d, n, d', n', nb) && NoDup(Blocks(d', n')) && p < Capacity(n')
    requires forall b :: b in nb ==> BytesOf(d, b) == ZeroBytes()
    ensures p < Capacity(n) ==> ByteAt(d', n', p) == ByteAt(d, n, p)
    ensures p >= Capacity(n) ==> ByteAt(d', n', p) == 0
  {
    hide Tree, BlockAt, NoDup, IsIndex, BytesOf;
    GrowContent(d, n, d', n');
    if p >= Capacity(n) {
      NewPosition(d, n, d', n', p / BLOCK_SZ, nb);
    }
  }

  lemma GrownTail(d: Volume, n: Node, d': Volume, n': Node, nb: seq<u32>)
    requires Grown(d, n, d', n', nb) && NoDup(Blocks(d', n')) && TailZero(d, n)
    requires forall b :: b in nb ==> BytesOf(d, b) == ZeroBytes()
    ensures forall p: nat :: n.size <= p < Capacity(n') ==> ByteAt(d', n', p) == 0
    ensures TailZero(d', n')
  {
    hide Tree, ByteAt, NoDup, IsIndex, BytesOf, Grown;
    forall p: nat | n.size <= p < Capacity(n') ensures ByteAt(d', n', p) == 0 { GrownBytes(d, n, d', n', nb, p); }
    GrownSize(d, n, d', n', nb);
  }

  lemma GrownSize(d: Volume, n: Node, d': Volume, n': Node, nb: seq<u32>)
    requires Grown(d, n, d', n', nb)
    ensures n.size <= n'.size <= MAX_SIZE && n'.kind == n.kind && d'.Keys == d.Keys
  {
  }

  lemma GrowPrepared(g: Geometry, d: Volume, k: nat, d': Volume, n': Node, nb: seq<u32>)
    requires FsInv(g, d) && k < g.InodeCount() && Grown(d, NodeAt(g, d, k), d', n', nb)
    requires FreshSupply(g, d, nb)
    ensures Prepared(g, d, d', k, n')
  {
    hide Tree, NodeAt, TailZero, BytesOf, IsIndex, Typed, FreeZero, BitsInside, Used;
    var n := NodeAt(g, d, k);
    assert NodeOk(g, d, k);
    assert Blocks(d, n) == BlocksOf(g, d, k);
    forall b | b in BlocksOf(g, d, k) ensures b !in nb { }
    NoDupConcat(Blocks(d, n), nb);
    GrownNoDup(d, n, d', n', nb);
    if n.kind == File { GrownTail(d, n, d', n', nb); }
    forall b | Changed(d, d', b) ensures b in Blocks(d', n') && d'[b].Data? {
      IndexInTree(d', n', DataBlocks(n'.size), b);
    }
    forall b | b in Blocks(d', n')
      ensures Used(g, d, b) && forall l: nat :: l < g.InodeCount() && l != k ==> b !in BlocksOf(g, d, l)
    {
      if b in BlocksOf(g, d, k) { OwnBlock(g, d, k, b); } else { assert b in nb; }
    }
  }

  lemma GrownNoDup(d: Volume, n: Node, d': Volume, n': Node, nb: seq<u32>)
    requires Grown(d, n, d', n', nb) && NoDup(Blocks(d, n) + nb)
    ensures NoDup(Blocks(d', n'))
  {
  }

  /** A block of inode k is marked and belongs to no other inode. */
  lemma OwnBlock(g: Geometry, d: Volume, k: nat, b: u32)
    requires FsInv(g, d) && k < g.InodeCount() && b in BlocksOf(g, d, k)
    ensures Used(g, d, b)
    ensures forall l: nat :: l < g.InodeCount() && l != k ==> b !in BlocksOf(g, d, l)
  {
    hide BlocksOf, NodeAt, TailZero, Typed, FreeZero, BitsInside, Used;
    assert NodeOk(g, d, k);
    forall l: nat | l < g.InodeCount() && l != k ensures b !in BlocksOf(g, d, l) {
      if k < l { assert Disjoint(BlocksOf(g, d, k), BlocksOf(g, d, l)); }
      else { assert Disjoint(BlocksOf(g, d, l), BlocksOf(g, d, k)); }
    }
  }

  lemma WritePrepared(g: Geometry, d: Volume, k: nat, d': Volume, n: Node, d'': Volume, off: nat, buf: seq<byte>)
    requires Prepared(g, d, d', k, n) && Overwritten(d', d'', n, off, buf) && off + |buf| <= n.size
    ensures Prepared(g, d, d'', k, n)
  {
    hide Tree, NodeAt, BytesOf, IsIndex, Used, BlockAt, NoDup, ByteAt;
    forall b | Changed(d, d'', b) ensures b in Blocks(d'', n) && d''[b].Data? {
      if d''[b] != d'[b] {
        assert Changed(d', d'', b);
        var i: nat :| i < DataBlocks(n.size) && BlockAt(d', n, i) == b;
        InBlocks(d', n, DataBlocks(n.size), i);
      } else {
        assert Changed(d, d', b);
      }
    }
  }

  /** Growing to fit and then overwriting splices the buffer in. */
  lemma Spliced(d: Volume, n: Node, d': Volume, n': Node, nb: seq<u32>, d'': Volume, off: nat, buf: seq<byte>)
    requires Grown(d, n, d', n', nb) && NoDup(Blocks(d', n'))
    requires forall b :: b in nb ==> BytesOf(d, b) == ZeroBytes()
    requires n'.size == if off + |buf| <= n.size then n.size else off + |buf|
    requires (n.kind == File && TailZero(d, n)) || off <= n.size
    requires Overwritten(d', d'', n', off, buf)
    ensures Content(d'', n') == Splice(Content(d, n), off, buf)
  {
    hide Tree, BlockAt, NoDup, IsIndex, BytesOf, ByteAt, Grown, Splice;
    GrownSize(d, n, d', n', nb);
    var s := Content(d, n);
    forall p: nat | p < n'.size ensures ByteAt(d'', n', p) == Splice(s, off, buf)[p] {
      SpliceAt(s, off, buf, p);
      GrownBytes(d, n, d', n', nb, p);
      WithinCapacity(n, p);
      WithinCapacity(n', p);
      if n.kind == File && TailZero(d, n) { GrownTail(d, n, d', n', nb); }
    }
  }

  lemma WithinCapacity(n: Node, p: nat)
    ensures p < n.size ==> p < Capacity(n)
  {
  }

  /** A node with the same blocks, or fewer of them, can be stored in place of the old one. */
  lemma ShrinkPrepared(g: Geometry, d: Volume, k: nat, n': Node)
    requires FsInv(g, d) && k < g.InodeCount()
    requires var n := NodeAt(g, d, k);
             SamePointers(n, n') && n'.size <= n.size && n'.kind == n.kind && (n.kind == Directory || n'.size == n.size)
    ensures Prepared(g, d, d, k, n')
    ensures Content(d, n') == Content(d, NodeAt(g, d, k))[..n'.size]
  {
    hide NodeAt, BytesOf, IsIndex, Used, Tree, Typed, FreeZero, BitsInside, Unshared;
    var n := NodeAt(g, d, k);
    assert NodeOk(g, d, k);
    var c, c' := DataBlocks(n.size), DataBlocks(n'.size);
    SameTree(d, n, n', c');
    TreePrefix(d, n, c', c);
    assert Blocks(d, n') <= BlocksOf(g, d, k);
    forall b | b in Blocks(d, n')
      ensures Used(g, d, b) && forall l: nat :: l < g.InodeCount() && l != k ==> b !in BlocksOf(g, d, l)
    {
      OwnBlock(g, d, k, b);
    }
    assert forall p: nat :: ByteAt(d, n', p) == ByteAt(d, n, p);
    assert Content(d, n') == Content(d, n)[..n'.size];
  }

  /** A node without blocks can be stored over any. */
  lemma EmptyPrepared(g: Geometry, d: Volume, k: nat, n: Node)
    requires n.size == 0
    ensures Prepared(g, d, d, k, n) && Blocks(d, n) == [] && Content(d, n) == []
  {
    hide NodeAt, BytesOf, IsIndex, Used, ByteAt;
  }
}
