/** `DiskInode` of easy-fs/src/layout.rs: the in-place operations on an inode's block tree, over the block cache. */
module Layout {
  import opened Basics
  import opened Disk
  import opened BlockTree
  import opened Growth
  import opened Contents
  import opened BlockCache

  type Cache = BlockCacheManager<Block>

  /** Blocks of s can be locked: they are raw blocks of the device and nobody holds them. */
  ghost predicate Lockable(d: Volume, pinned: multiset<nat>, s: seq<u32>) {
    forall b :: b in s ==> b in d && d[b].Data? && b !in pinned
  }

  lemma SameTree(d: Volume, n: Node, n': Node, c: nat)
    requires SamePointers(n, n')
    ensures Tree(d, n, c) == Tree(d, n', c)
    ensures forall b :: IsIndex(d, n, c, b) <==> IsIndex(d, n', c, b)
  {
    assert forall i: nat :: i < c ==> IndexAt(d, n, i) == IndexAt(d, n', i);
    SameSteps(d, n, d, n', c);
  }

  /** Index blocks on the way to data block i belong to the tree. */
  lemma PathInTree(d: Volume, n: Node, i: nat, c: nat)
    requires i < c <= MAX_BLOCKS
    ensures BlockAt(d, n, i) in Tree(d, n, c)
    ensures i >= DIRECT_BOUND ==> n.indirect1 in Tree(d, n, c)
    ensures i >= INDIRECT1_BOUND ==> n.indirect2 in Tree(d, n, c) && GroupOf(d, n, i) in Tree(d, n, c)
  {
    TreeAt(d, n, i, c);
    assert BlockAt(d, n, i) in Step(d, n, i);
    if i >= DIRECT_BOUND { TopInTree(d, n, c, DIRECT_BOUND, n.indirect1); }
    if i >= INDIRECT1_BOUND {
      TopInTree(d, n, c, INDIRECT1_BOUND, n.indirect2);
      GroupIsIndex(d, n, c, i);
      IndexInTree(d, n, c, GroupOf(d, n, i));
    }
  }

  lemma TopInTree(d: Volume, n: Node, c: nat, i: nat, b: u32)
    requires i < c && b in IndexAt(d, n, i)
    ensures b in Tree(d, n, c)
  {
    TreeAt(d, n, i, c);
    assert b in Step(d, n, i);
  }

  /** Store word i of a locked index block. */
  method PutWord(cache: Cache, b: nat, i: nat, v: u32)
    requires cache.Valid() && cache.pinned[b] > 0 && i < 128
    requires b in cache.view && cache.view[b].Data?
    modifies cache`queue, cache`view
    ensures cache.Valid() && cache.view == SetWord(old(cache.view), b, i, v)
  {
    var block := cache.Read(b);
    cache.Modify(b, Data(PutU32(block.bytes, i, v)));
  }

  /** Load word i of a locked index block. */
  method GetWord(cache: Cache, b: nat, i: nat) returns (v: u32)
    requires cache.Valid() && cache.pinned[b] > 0 && i < 128
    requires b in cache.view && cache.view[b].Data?
    ensures v == Word(cache.view, b, i)
  {
    var block := cache.Read(b);
    v := GetU32(block.bytes, i);
  }

  /** Overwrite part of a raw block. */
  method PatchBlock(cache: Cache, b: nat, at: nat, src: seq<byte>)
    requires cache.Valid() && |cache.pinned| <= 2 && b in cache.view && cache.view[b].Data? && b !in cache.pinned
    requires at + |src| <= BLOCK_SZ
    modifies cache
    ensures cache.Valid() && cache.pinned == old(cache.pinned)
    ensures var bytes := BytesOf(old(cache.view), b);
            cache.view == old(cache.view)[b := Data(bytes[..at] + src + bytes[at + |src|..])]
  {
    hide Coherent;
    cache.Lock(b);
    var block := cache.Read(b);
    cache.Modify(b, Data(block.bytes[..at] + src + block.bytes[at + |src|..]));
    cache.Release(b);
    assert old(cache.pinned) + multiset{b} - multiset{b} == old(cache.pinned);
  }

  class DiskInode {
    var size: u32
    var nlink: u32
    var direct: Direct
    var indirect1: u32
    var indirect2: u32
    var kind: Kind

    /** The inode as it lies in its block. */
    function View(): Node
      reads this
    {
      Node(size, nlink, direct, indirect1, indirect2, kind)
    }

    constructor (n: Node)
      ensures View() == n
    {
      size, nlink, direct, indirect1, indirect2, kind := n.size, n.nlink, n.direct, n.indirect1, n.indirect2, n.kind;
    }

    method Initialize(kind: Kind)
      modifies this
      ensures View() == Node(0, 1, Fill<u32>(0, 26), 0, 0, kind)
    {
      this.size, this.nlink := 0, 1;
      this.direct := Fill<u32>(0, 26);
      this.indirect1, this.indirect2 := 0, 0;
      this.kind := kind;
    }

    method GetBlockId(inner: nat, cache: Cache, ghost c: nat) returns (id: u32)
      requires cache.Valid() && |cache.pinned| <= 2
      requires inner < c <= MAX_BLOCKS && Lockable(cache.view, cache.pinned, Tree(cache.view, View(), c))
      modifies cache`queue, cache`device, cache`pinned
      ensures cache.Valid() && cache.pinned == old(cache.pinned)
      ensures id == BlockAt(cache.view, View(), inner)
      ensures inner < 26 ==> id == direct[inner]
      ensures 26 <= inner < 154 ==> id == Word(cache.view, indirect1, inner - 26)
      ensures 154 <= inner ==>
                id == Word(cache.view, Word(cache.view, indirect2, (inner - 154) / 128), (inner - 154) % 128)
    {
      hide Tree, Coherent;
      PathInTree(cache.view, View(), inner, c);
      if inner < DIRECT_BOUND {
        id := direct[inner];
      } else if inner < INDIRECT1_BOUND {
        var block := cache.ReadBlock(indirect1);
        id := GetU32(block.bytes, inner - INODE_DIRECT_COUNT);
      } else {
        var last := inner - INDIRECT1_BOUND;
        var block := cache.ReadBlock(indirect2);
        var group := GetU32(block.bytes, last / INODE_INDIRECT1_COUNT);
        assert group == GroupOf(cache.view, View(), inner);
        block := cache.ReadBlock(group);
        id := GetU32(block.bytes, last % INODE_INDIRECT1_COUNT);
      }
    }

    /** Fill `direct` from the supply. */
    method FillDirect(cur: nat, newTotal: nat, nb: seq<u32>, ghost d: Volume, ghost t0: seq<u32>)
      returns (cur': nat, u: nat)
      requires cur <= newTotal && Supply(d, t0, nb) && Progress(d, t0, nb, d, View(), cur, [], 0)
      requires Total(newTotal) - |t0| <= |nb|
      modifies this`direct
      ensures cur' == if cur < Min(INODE_DIRECT_COUNT, newTotal) then Min(INODE_DIRECT_COUNT, newTotal) else cur
      ensures u <= |nb| && Progress(d, t0, nb, d, View(), cur', [], u)
    {
      hide Progress, Supply, Total;
      cur', u := cur, 0;
      while cur' < Min(INODE_DIRECT_COUNT, newTotal)
        invariant cur <= cur' <= newTotal
        invariant cur' > cur ==> cur' <= Min(INODE_DIRECT_COUNT, newTotal)
        invariant u <= |nb| && Progress(d, t0, nb, d, View(), cur', [], u)
      {
        Room(d, t0, nb, d, View(), cur', [], u, newTotal);
        StepDirect(d, t0, nb, d, View(), cur', u);
        direct := direct[cur' := nb[u]];
        cur', u := cur' + 1, u + 1;
      }
    }

    /** Fill the indirect block.  `cur` and `newTotal` count from the first data block it indexes. */
    method FillIndirect1(cur: nat, newTotal: nat, nb: seq<u32>, u0: nat, cache: Cache, ghost d: Volume,
                         ghost t0: seq<u32>)
      returns (cur': nat, u: nat)
      requires cache.Valid() && |cache.pinned| <= 1
      requires Supply(d, t0, nb) && Lockable(d, cache.pinned, t0 + nb)
      requires cur <= newTotal && 0 < newTotal && indirect1 in t0 + nb
      requires u0 <= |nb| && Total(DIRECT_BOUND + newTotal) - |t0| <= |nb|
      requires Progress(d, t0, nb, cache.view, View(), DIRECT_BOUND + cur, Pend1(View(), cur), u0)
      modifies cache
      ensures cache.Valid() && cache.pinned == old(cache.pinned)
      ensures cur' == if cur < Min(INODE_INDIRECT1_COUNT, newTotal) then Min(INODE_INDIRECT1_COUNT, newTotal) else cur
      ensures u <= |nb| && Progress(d, t0, nb, cache.view, View(), DIRECT_BOUND + cur', [], u)
    {
      hide Progress, Supply, Total, Coherent, Min;
      SupplyRaw(d, t0, nb, cache.view, View(), DIRECT_BOUND + cur, Pend1(View(), cur), u0, indirect1);
      cache.Lock(indirect1);
      cur', u := FillLocked1(cur, newTotal, nb, u0, cache, d, t0);
      cache.Release(indirect1);
      assert old(cache.pinned) + multiset{indirect1} - multiset{indirect1} == old(cache.pinned);
    }

    method FillLocked1(cur: nat, newTotal: nat, nb: seq<u32>, u0: nat, cache: Cache, ghost d: Volume,
                       ghost t0: seq<u32>)
      returns (cur': nat, u: nat)
      requires cache.Valid() && cache.pinned[indirect1] > 0 && Supply(d, t0, nb)
      requires cur <= newTotal && 0 < newTotal && u0 <= |nb| && Total(DIRECT_BOUND + newTotal) - |t0| <= |nb|
      requires Progress(d, t0, nb, cache.view, View(), DIRECT_BOUND + cur, Pend1(View(), cur), u0)
      modifies cache`queue, cache`view
      ensures cache.Valid()
      ensures cur' == if cur < Min(INODE_INDIRECT1_COUNT, newTotal) then Min(INODE_INDIRECT1_COUNT, newTotal) else cur
      ensures u <= |nb| && Progress(d, t0, nb, cache.view, View(), DIRECT_BOUND + cur', [], u)
    {
      hide Progress, Supply, Total, SetWord, Coherent, Pend1;
      cur', u := cur, u0;
      while cur' < Min(INODE_INDIRECT1_COUNT, newTotal)
        invariant cur <= cur' <= newTotal
        invariant cur' > cur ==> cur' <= Min(INODE_INDIRECT1_COUNT, newTotal)
        invariant cache.Valid() && u <= |nb|
        invariant Progress(d, t0, nb, cache.view, View(), DIRECT_BOUND + cur', Pend1(View(), cur'), u)
      {
        Indirect1Step(d, t0, nb, cache.view, View(), cur', u, newTotal);
        PutWord(cache, indirect1, cur', nb[u]);
        cur', u := cur' + 1, u + 1;
        NoPend1(View(), cur');
      }
      NoPend1(View(), cur');
    }

    /** Fill one block indexed by the double-indirect block, from position b0 up to `end`. */
    method FillGroup(group: u32, b0: nat, end: nat, a0: nat, nb: seq<u32>, u0: nat, cache: Cache,
                     ghost d: Volume, ghost t0: seq<u32>, ghost target: nat)
      returns (u: nat)
      requires cache.Valid() && |cache.pinned| <= 2
      requires Supply(d, t0, nb) && Lockable(d, cache.pinned, [group]) && group in t0 + nb
      requires b0 < end <= 128 && a0 < 128 && u0 <= |nb|
      requires At(a0, end) <= target <= MAX_BLOCKS && Total(target) - |t0| <= |nb|
      requires InGroup(cache.view, View(), a0, b0, group)
      requires Progress(d, t0, nb, cache.view, View(), At(a0, b0), IndexAt(cache.view, View(), At(a0, b0)), u0)
      modifies cache
      ensures cache.Valid() && cache.pinned == old(cache.pinned)
      ensures u <= |nb| && Progress(d, t0, nb, cache.view, View(), At(a0, end), [], u)
    {
      hide Progress, Supply, Total, IndexAt, InGroup, SetWord, Coherent;
      SupplyRaw(d, t0, nb, cache.view, View(), At(a0, b0), IndexAt(cache.view, View(), At(a0, b0)), u0, group);
      cache.Lock(group);
      u := u0;
      var i := b0;
      while i < end
        invariant b0 <= i <= end
        invariant cache.Valid() && cache.pinned == old(cache.pinned) + multiset{group}
        invariant u <= |nb|
        invariant InGroup(cache.view, View(), a0, i, group)
        invariant Progress(d, t0, nb, cache.view, View(), At(a0, i),
                           if i == b0 then IndexAt(cache.view, View(), At(a0, i)) else [], u)
      {
        ghost var v := cache.view;
        GroupStep(d, t0, nb, v, View(), a0, b0, i, group, u, target);
        PutWord(cache, group, i, nb[u]);
        i, u := i + 1, u + 1;
      }
      cache.Release(group);
      assert old(cache.pinned) + multiset{group} - multiset{group} == old(cache.pinned);
    }

    /** The double-indirect loop.  `cur` and `newTotal` count from the first data block of that tier. */
    method FillIndirect2(cur: nat, newTotal: nat, nb: seq<u32>, u0: nat, cache: Cache, ghost d: Volume,
                         ghost t0: seq<u32>)
      returns (u: nat)
      requires cache.Valid() && |cache.pinned| <= 1
      requires Supply(d, t0, nb) && Lockable(d, cache.pinned, t0 + nb)
      requires cur <= newTotal <= INODE_INDIRECT2_COUNT && 0 < newTotal && indirect2 in t0 + nb
      requires u0 <= |nb| && Total(INDIRECT1_BOUND + newTotal) - |t0| <= |nb|
      requires Progress(d, t0, nb, cache.view, View(), INDIRECT1_BOUND + cur, Before(View(), INDIRECT1_BOUND + cur), u0)
      modifies cache
      ensures cache.Valid() && cache.pinned == old(cache.pinned)
      ensures u <= |nb| && Progress(d, t0, nb, cache.view, View(), INDIRECT1_BOUND + newTotal, [], u)
    {
      hide Progress, Supply, Total, Before, Coherent;
      SupplyRaw(d, t0, nb, cache.view, View(), INDIRECT1_BOUND + cur, Before(View(), INDIRECT1_BOUND + cur), u0,
                indirect2);
      cache.Lock(indirect2);
      u := FillLocked2(cur, newTotal, nb, u0, cache, d, t0, old(cache.pinned));
      cache.Release(indirect2);
      assert old(cache.pinned) + multiset{indirect2} - multiset{indirect2} == old(cache.pinned);
    }

    method FillLocked2(cur: nat, newTotal: nat, nb: seq<u32>, u0: nat, cache: Cache, ghost d: Volume,
                       ghost t0: seq<u32>,
                       ghost pinned: multiset<nat>)
      returns (u: nat)
      requires cache.Valid() && |pinned| <= 1 && cache.pinned == pinned + multiset{indirect2}
      requires Supply(d, t0, nb) && Lockable(d, pinned, t0 + nb) && indirect2 in t0 + nb
      requires cur <= newTotal <= INODE_INDIRECT2_COUNT && 0 < newTotal
      requires u0 <= |nb| && Total(INDIRECT1_BOUND + newTotal) - |t0| <= |nb|
      requires Progress(d, t0, nb, cache.view, View(), INDIRECT1_BOUND + cur, Before(View(), INDIRECT1_BOUND + cur), u0)
      modifies cache
      ensures cache.Valid() && cache.pinned == old(cache.pinned)
      ensures u <= |nb| && Progress(d, t0, nb, cache.view, View(), INDIRECT1_BOUND + newTotal, [], u)
    {
      hide Progress, Supply, Total, Before, Coherent, Lockable;
      u := u0;
      var cur' := cur;
      var a1, b1 := newTotal / INODE_INDIRECT1_COUNT, newTotal % INODE_INDIRECT1_COUNT;
      while cur' < newTotal
        invariant cur' <= newTotal
        invariant cache.Valid() && cache.pinned == old(cache.pinned)
        invariant u <= |nb|
        invariant Progress(d, t0, nb, cache.view, View(), INDIRECT1_BOUND + cur',
                           Before(View(), INDIRECT1_BOUND + cur'), u)
        decreases newTotal - cur'
      {
        cur', u := FillPass(cur', newTotal, a1, b1, nb, u, cache, d, t0, pinned);
        NothingBefore(View(), INDIRECT1_BOUND + cur');
      }
      NothingBefore(View(), INDIRECT1_BOUND + cur');
    }

    /** One pass of the double-indirect loop: everything indexed by the block of
        data block `cur`, or up to the target. */
    method FillPass(cur: nat, newTotal: nat, a1: nat, b1: nat, nb: seq<u32>, u0: nat, cache: Cache,
                    ghost d: Volume, ghost t0: seq<u32>, ghost pinned: multiset<nat>)
      returns (cur': nat, u: nat)
      requires cache.Valid() && |pinned| <= 1 && cache.pinned == pinned + multiset{indirect2}
      requires Supply(d, t0, nb) && Lockable(d, pinned, t0 + nb) && indirect2 in t0 + nb
      requires cur < newTotal <= INODE_INDIRECT2_COUNT && a1 == newTotal / 128 && b1 == newTotal % 128
      requires u0 <= |nb| && Total(INDIRECT1_BOUND + newTotal) - |t0| <= |nb|
      requires Progress(d, t0, nb, cache.view, View(), INDIRECT1_BOUND + cur, Before(View(), INDIRECT1_BOUND + cur), u0)
      modifies cache
      ensures cache.Valid() && cache.pinned == old(cache.pinned)
      ensures cur < cur' <= newTotal && u <= |nb|
      ensures Progress(d, t0, nb, cache.view, View(), INDIRECT1_BOUND + cur', [], u)
    {
      hide Progress, Supply, Total, IndexAt, InGroup, Before, GroupOf, Coherent;
      var a0, b0 := cur / INODE_INDIRECT1_COUNT, cur % INODE_INDIRECT1_COUNT;
      var group;
      group, u := EnterGroup(cur, newTotal, nb, u0, cache, d, t0);
      var end := if a0 < a1 then INODE_INDIRECT1_COUNT else b1;
      GroupRange(cur, newTotal);
      GroupFree(d, t0, nb, cache.view, View(), INDIRECT1_BOUND + cur, u, pinned);
      u := FillGroup(group, b0, end, a0, nb, u, cache, d, t0, INDIRECT1_BOUND + newTotal);
      cur' := cur + (end - b0);
    }

    /** Allocate the index block for data block `cur` if it is the first it needs, and read which block that is. */
    method EnterGroup(cur: nat, newTotal: nat, nb: seq<u32>, u0: nat, cache: Cache, ghost d: Volume, ghost t0: seq<u32>)
      returns (group: u32, u: nat)
      requires cache.Valid() && cache.pinned[indirect2] > 0
      requires Supply(d, t0, nb) && u0 <= |nb| && indirect2 in t0 + nb
      requires cur < newTotal <= INODE_INDIRECT2_COUNT && Total(INDIRECT1_BOUND + newTotal) - |t0| <= |nb|
      requires Progress(d, t0, nb, cache.view, View(), INDIRECT1_BOUND + cur, Before(View(), INDIRECT1_BOUND + cur), u0)
      modifies cache
      ensures cache.Valid() && cache.pinned == old(cache.pinned)
      ensures u <= |nb| && group == GroupOf(cache.view, View(), INDIRECT1_BOUND + cur)
      ensures InGroup(cache.view, View(), cur / 128, cur % 128, group)
      ensures Progress(d, t0, nb, cache.view, View(), INDIRECT1_BOUND + cur,
                       IndexAt(cache.view, View(), INDIRECT1_BOUND + cur), u)
    {
      hide Progress, Supply, Total, IndexAt, Before, SetWord, Coherent;
      var a0, b0 := cur / INODE_INDIRECT1_COUNT, cur % INODE_INDIRECT1_COUNT;
      ghost var c := INDIRECT1_BOUND + cur;
      u := u0;
      BeforeCount(cache.view, View(), c);
      if b0 == 0 {
        ghost var v := cache.view;
        Room(d, t0, nb, v, View(), c, Before(View(), c), u, INDIRECT1_BOUND + newTotal);
        TakeGroup(d, t0, nb, v, View(), c, u);
        PutWord(cache, indirect2, a0, nb[u]);
        u := u + 1;
      }
      SupplyRaw(d, t0, nb, cache.view, View(), c, IndexAt(cache.view, View(), c), u, indirect2);
      group := GetWord(cache, indirect2, a0);
    }

    /** Grow to `newSize` with blocks from `nb`.  The tree is extended by exactly the blocks the source counts, taken
        from the front of `nb` in order, and nothing but index blocks is written. */
    method IncreaseSize(newSize: u32, nb: seq<u32>, cache: Cache)
      requires cache.Valid() && |cache.pinned| <= 1
      requires size < newSize <= MAX_SIZE
      requires |nb| >= Total(DataBlocks(newSize)) - Total(DataBlocks(size))
      requires Supply(cache.view, Blocks(cache.view, View()), nb)
      requires Lockable(cache.view, cache.pinned, Blocks(cache.view, View()) + nb)
      modifies `size, `direct, `indirect1, `indirect2, cache
      ensures cache.Valid() && cache.pinned == old(cache.pinned) && cache.view.Keys == old(cache.view.Keys)
      ensures size == newSize
      ensures var used := Total(DataBlocks(newSize)) - Total(DataBlocks(old(size)));
              && 0 <= used <= |nb|
              && Blocks(cache.view, View()) == old(Blocks(cache.view, View())) + nb[..used]
      ensures forall b :: Changed(old(cache.view), cache.view, b) ==> IsIndex(cache.view, View(), DataBlocks(size), b)
      ensures forall b :: Changed(old(cache.view), cache.view, b) ==> old(cache.view)[b].Data? && cache.view[b].Data?
    {
      hide Progress, Supply, Total, IndexAt, Before, Tree, IsIndex, Changed, Coherent;
      ghost var d, t0 := cache.view, Blocks(cache.view, View());
      var cur := DataBlocks(size);
      size := newSize;
      var newTotal := DataBlocks(size);
      SameTree(d, old(View()), View(), cur);
      TreeLength(d, View(), cur);
      Start(d, t0, nb, View(), cur);
      var u;
      cur, u := FillDirect(cur, newTotal, nb, d, t0);
      if newTotal <= INODE_DIRECT_COUNT {
        Finish(d, t0, nb, cache.view, View(), cur, u);
        return;
      }
      if cur == INODE_DIRECT_COUNT {
        Room(d, t0, nb, d, View(), cur, [], u, newTotal);
        TakeIndirect1(d, t0, nb, d, View(), u);
        indirect1 := nb[u];
        u := u + 1;
      } else {
        TopIndexes(d, View());
        TopTaken(d, t0, nb, d, View(), cur, u, DIRECT_BOUND, indirect1);
      }
      cur, newTotal := cur - INODE_DIRECT_COUNT, newTotal - INODE_DIRECT_COUNT;
      cur, u := FillIndirect1(cur, newTotal, nb, u, cache, d, t0);
      if newTotal <= INODE_INDIRECT1_COUNT {
        Finish(d, t0, nb, cache.view, View(), DIRECT_BOUND + cur, u);
        return;
      }
      cur, newTotal := cur - INODE_INDIRECT1_COUNT, newTotal - INODE_INDIRECT1_COUNT;
      u := GrowDouble(cur, newTotal, nb, u, cache, d, t0);
      Finish(d, t0, nb, cache.view, View(), INDIRECT1_BOUND + newTotal, u);
    }

    /** The double-indirect tier: take its top block if this is its first use, then fill it. */
    method GrowDouble(cur: nat, newTotal: nat, nb: seq<u32>, u0: nat, cache: Cache, ghost d: Volume, ghost t0: seq<u32>)
      returns (u: nat)
      requires cache.Valid() && |cache.pinned| <= 1
      requires Supply(d, t0, nb) && Lockable(d, cache.pinned, t0 + nb)
      requires cur <= newTotal <= INODE_INDIRECT2_COUNT && 0 < newTotal
      requires u0 <= |nb| && Total(INDIRECT1_BOUND + newTotal) - |t0| <= |nb|
      requires Progress(d, t0, nb, cache.view, View(), INDIRECT1_BOUND + cur, [], u0)
      modifies `indirect2, cache
      ensures cache.Valid() && cache.pinned == old(cache.pinned)
      ensures u <= |nb| && Progress(d, t0, nb, cache.view, View(), INDIRECT1_BOUND + newTotal, [], u)
    {
      hide Progress, Supply, Total, IndexAt, Tree, IsIndex, Coherent;
      u := u0;
      if cur == 0 {
        Room(d, t0, nb, cache.view, View(), INDIRECT1_BOUND, [], u, INDIRECT1_BOUND + newTotal);
        TakeIndirect2(d, t0, nb, cache.view, View(), u);
        indirect2 := nb[u];
        u := u + 1;
      } else {
        TopIndexes(cache.view, View());
        TopTaken(d, t0, nb, cache.view, View(), INDIRECT1_BOUND + cur, u, INDIRECT1_BOUND, indirect2);
      }
      u := FillIndirect2(cur, newTotal, nb, u, cache, d, t0);
    }

    // ---- clear_size ----

    method ClearDirect(count: nat) returns (v: seq<u32>)
      requires count <= INODE_DIRECT_COUNT
      modifies `direct
      ensures v == old(direct)[..count]
      ensures direct == Fill<u32>(0, count) + old(direct)[count..]
    {
      v := [];
      var cur := 0;
      while cur < count
        invariant cur <= count
        invariant v == old(direct)[..cur]
        invariant forall i :: 0 <= i < 26 ==> direct[i] == if i < cur then 0 else old(direct)[i]
      {
        v := v + [direct[cur]];
        direct := direct[cur := 0];
        cur := cur + 1;
      }
    }

    /** The first `count` words of index block `b`. */
    method Collect(b: u32, count: nat, cache: Cache) returns (v: seq<u32>)
      requires cache.Valid() && |cache.pinned| <= 2 && Lockable(cache.view, cache.pinned, [b]) && count <= 128
      modifies cache`queue, cache`device, cache`pinned
      ensures cache.Valid() && cache.pinned == old(cache.pinned)
      ensures v == Words(cache.view, b, count)
    {
      hide Coherent;
      assert b in [b];
      cache.Lock(b);
      v := [];
      var i := 0;
      while i < count
        invariant i <= count && v == Words(cache.view, b, i)
        invariant cache.Valid() && cache.pinned == old(cache.pinned) + multiset{b}
      {
        var w := GetWord(cache, b, i);
        v := v + [w];
        i := i + 1;
      }
      cache.Release(b);
      assert old(cache.pinned) + multiset{b} - multiset{b} == old(cache.pinned);
    }

    /** The k-th block below the double-indirect block and the first m blocks it indexes. */
    method CollectGroup(k: nat, m: nat, v0: seq<u32>, cache: Cache, ghost n: Node, ghost c: nat,
                        ghost pinned: multiset<nat>)
      returns (v: seq<u32>)
      requires cache.Valid() && |pinned| <= 1 && cache.pinned == pinned + multiset{indirect2}
      requires n.indirect2 == indirect2
      requires k < 128 && 0 < m <= 128 && At(k, 0) < c <= MAX_BLOCKS
      requires NoDup(Tree(cache.view, n, c)) && Lockable(cache.view, pinned, Tree(cache.view, n, c))
      requires Collected(cache.view, n, At(k, 0), v0)
      modifies cache`queue, cache`device, cache`pinned
      ensures cache.Valid() && cache.pinned == old(cache.pinned)
      ensures Collected(cache.view, n, At(k, m), v)
    {
      hide Tree, NoDup, Coherent, Collected, Words, Word;
      DoubleAt(cache.view, n, c, k, pinned);
      var group := GetWord(cache, indirect2, k);
      var w := Collect(group, m, cache);
      CollectMore(cache.view, n, k, m, v0);
      v := v0 + [group] + w;
    }

    /** The blocks below the double-indirect block, for `count` data blocks of what was inode n. */
    method CollectDouble(count: nat, cache: Cache, ghost n: Node) returns (v: seq<u32>)
      requires cache.Valid() && |cache.pinned| <= 1 && 0 < count <= INODE_INDIRECT2_COUNT && n.indirect2 == indirect2
      requires var t := Tree(cache.view, n, INDIRECT1_BOUND + count); NoDup(t) && Lockable(cache.view, cache.pinned, t)
      modifies cache`queue, cache`device, cache`pinned
      ensures cache.Valid() && cache.pinned == old(cache.pinned)
      ensures Tree(cache.view, n, INDIRECT1_BOUND + count) == Tree(cache.view, n, INDIRECT1_BOUND) + [indirect2] + v
    {
      hide Tree, NoDup, Coherent, Collected, Word;
      ghost var d, c := cache.view, INDIRECT1_BOUND + count;
      PathInTree(d, n, INDIRECT1_BOUND, c);
      cache.Lock(indirect2);
      v := CollectGroups(count, cache, n, old(cache.pinned));
      CollectedAll(d, n, c, v);
      cache.Release(indirect2);
      assert old(cache.pinned) + multiset{indirect2} - multiset{indirect2} == old(cache.pinned);
    }

    /** The same with the double-indirect block locked: the full groups, then the last. */
    method CollectGroups(count: nat, cache: Cache, ghost n: Node, ghost pinned: multiset<nat>) returns (v: seq<u32>)
      requires cache.Valid() && |pinned| <= 1 && cache.pinned == pinned + multiset{indirect2}
      requires 0 < count <= INODE_INDIRECT2_COUNT && n.indirect2 == indirect2
      requires var t := Tree(cache.view, n, INDIRECT1_BOUND + count); NoDup(t) && Lockable(cache.view, pinned, t)
      modifies cache`queue, cache`device, cache`pinned
      ensures cache.Valid() && cache.pinned == old(cache.pinned)
      ensures Collected(cache.view, n, INDIRECT1_BOUND + count, v)
    {
      hide Tree, NoDup, Coherent, Collected, Word, Lockable;
      ghost var d, c := cache.view, INDIRECT1_BOUND + count;
      var a1, b1 := count / INODE_INDIRECT1_COUNT, count % INODE_INDIRECT1_COUNT;
      v := [];
      CollectedNone(d, n);
      var k := 0;
      while k < a1
        invariant k <= a1
        invariant cache.Valid() && cache.pinned == pinned + multiset{indirect2}
        invariant Collected(d, n, At(k, 0), v)
      {
        v := CollectGroup(k, 128, v, cache, n, c, pinned);
        k := k + 1;
      }
      if b1 > 0 {
        v := CollectGroup(a1, b1, v, cache, n, c, pinned);
      }
    }

    /** Forget every block and return them all, index blocks included, in the order they were acquired. */
    method ClearSize(cache: Cache) returns (v: seq<u32>)
      requires cache.Valid() && |cache.pinned| <= 1 && size <= MAX_SIZE
      requires NoDup(Blocks(cache.view, View())) && Lockable(cache.view, cache.pinned, Blocks(cache.view, View()))
      modifies `size, `direct, `indirect1, `indirect2, cache`queue, cache`device, cache`pinned
      ensures cache.Valid() && cache.pinned == old(cache.pinned)
      ensures v == old(Blocks(cache.view, View()))
      ensures View() == Cleared(old(View())) && size == 0 && kind == old(kind) && nlink == old(nlink)
    {
      hide Tree, NoDup, Coherent;
      ghost var d, n, c := cache.view, View(), DataBlocks(size);
      var data := DataBlocks(size);
      size := 0;
      v := ClearDirect(Min(data, INODE_DIRECT_COUNT));
      DirectFlat(d, n, Min(data, INODE_DIRECT_COUNT));
      if data <= INODE_DIRECT_COUNT { return; }
      v := v + [indirect1];
      data := data - INODE_DIRECT_COUNT;
      PathInTree(d, n, DIRECT_BOUND, c);
      var w := Collect(indirect1, Min(data, INODE_INDIRECT1_COUNT), cache);
      v := v + w;
      Indirect1Flat(d, n, Min(data, INODE_INDIRECT1_COUNT));
      indirect1 := 0;
      if data <= INODE_INDIRECT1_COUNT { return; }
      data := data - INODE_INDIRECT1_COUNT;
      v := v + [indirect2];
      w := CollectDouble(data, cache, n);
      v := v + w;
      indirect2 := 0;
    }

    // ---- read_at and write_at ----

    /** The bytes [offset, offset + len) of the file, as far as it goes. */
    method ReadAt(offset: nat, len: nat, cache: Cache) returns (buf: seq<byte>)
      requires cache.Valid() && |cache.pinned| <= 2 && size <= MAX_SIZE
      requires Lockable(cache.view, cache.pinned, Blocks(cache.view, View()))
      modifies cache`queue, cache`device, cache`pinned
      ensures cache.Valid() && cache.pinned == old(cache.pinned)
      ensures buf == Slice(Content(cache.view, View()), offset, len)
      ensures |buf| == if offset >= size then 0 else Min(offset + len, size) - offset
      ensures forall i :: 0 <= i < |buf| ==> buf[i] == Content(cache.view, View())[offset + i]
    {
      hide Coherent, Content, Blocks, Lockable, Slice;
      ReadsAs(Content(cache.view, View()), offset, len);
      var start, end := offset, Min(offset + len, size);
      if start >= end { return []; }
      buf := ReadLoop(start, end, cache);
    }

    /** The loop over the blocks of [offset, end). */
    method ReadLoop(offset: nat, end: nat, cache: Cache) returns (buf: seq<byte>)
      requires cache.Valid() && |cache.pinned| <= 2 && offset < end <= size <= MAX_SIZE
      requires Lockable(cache.view, cache.pinned, Blocks(cache.view, View()))
      modifies cache`queue, cache`device, cache`pinned
      ensures cache.Valid() && cache.pinned == old(cache.pinned)
      ensures buf == Content(cache.view, View())[offset..end]
    {
      hide Coherent, Content, Blocks, Lockable;
      buf := [];
      ghost var s := Content(cache.view, View());
      var start, startBlock := offset, offset / BLOCK_SZ;
      var more := true;
      while more
        invariant cache.Valid() && cache.pinned == old(cache.pinned)
        invariant offset <= start <= end
        invariant buf == s[offset..start]
        invariant more ==> start < end && startBlock == start / BLOCK_SZ
        invariant !more ==> start == end
        decreases end - start, more
      {
        NextBlock(start, end);
        var endOfBlock := Min((start / BLOCK_SZ + 1) * BLOCK_SZ, end);
        var piece := ReadPiece(start, startBlock, endOfBlock - start, cache);
        SliceJoin(s, offset, start, endOfBlock);
        buf := buf + piece;
        start := endOfBlock;
        if endOfBlock == end { more := false; } else { startBlock := startBlock + 1; }
      }
    }

    /** One pass of that loop: a piece that lies in one block. */
    method ReadPiece(start: nat, startBlock: nat, count: nat, cache: Cache) returns (piece: seq<byte>)
      requires cache.Valid() && |cache.pinned| <= 2 && size <= MAX_SIZE && 0 < count
      requires startBlock == start / BLOCK_SZ && start + count <= Min((startBlock + 1) * BLOCK_SZ, size)
      requires Lockable(cache.view, cache.pinned, Blocks(cache.view, View()))
      modifies cache`queue, cache`device, cache`pinned
      ensures cache.Valid() && cache.pinned == old(cache.pinned)
      ensures piece == Content(cache.view, View())[start..start + count]
    {
      hide Tree, Coherent, Content;
      ghost var c := DataBlocks(size);
      InRange(size, start);
      var id := GetBlockId(startBlock, cache, c);
      InBlocks(cache.view, View(), c, startBlock);
      var block := cache.ReadBlock(id);
      ReadChunk(cache.view, View(), start, start + count, block.bytes);
      piece := block.bytes[start % BLOCK_SZ..start % BLOCK_SZ + count];
    }

    /** Overwrite the bytes [offset, offset + |buf|) of the file, as far as it goes.  Nothing else changes. */
    method WriteAt(offset: nat, buf: seq<byte>, cache: Cache) returns (written: nat)
      requires cache.Valid() && |cache.pinned| <= 2 && size <= MAX_SIZE
      requires buf != [] && offset < size
      requires NoDup(Blocks(cache.view, View())) && Lockable(cache.view, cache.pinned, Blocks(cache.view, View()))
      modifies cache
      ensures cache.Valid() && cache.pinned == old(cache.pinned) && cache.view.Keys == old(cache.view.Keys)
      ensures written == Min(offset + |buf|, size) - offset
      ensures Overwritten(old(cache.view), cache.view, View(), offset, buf[..written])
    {
      hide Tree, Coherent, Overwritten, NoDup, Blocks, Lockable;
      var start, end := offset, Min(offset + |buf|, size);
      written := 0;
      ghost var d, n := cache.view, View();
      var startBlock := start / BLOCK_SZ;
      OverwrittenNone(d, n, offset);
      assert buf[..0] == [];
      var more := true;
      while more
        invariant cache.Valid() && cache.pinned == old(cache.pinned)
        invariant offset <= start <= end && written == start - offset
        invariant more ==> start < end && startBlock == start / BLOCK_SZ
        invariant !more ==> start == end
        invariant Overwritten(d, cache.view, n, offset, buf[..written])
        decreases end - start, more
      {
        var endOfBlock := Min((start / BLOCK_SZ + 1) * BLOCK_SZ, end);
        var count := endOfBlock - start;
        var src := buf[written..written + count];
        WritePiece(start, startBlock, src, cache, d, offset, buf[..written]);
        assert buf[..written] + src == buf[..written + count];
        written := written + count;
        start := endOfBlock;
        if endOfBlock == end { more := false; } else { startBlock := startBlock + 1; }
      }
      OverwrittenKeys(d, cache.view, n, offset, buf[..written]);
    }

    /** One pass of that loop: a piece that lies in one block. */
    method WritePiece(start: nat, startBlock: nat, src: seq<byte>, cache: Cache, ghost d: Volume, ghost offset: nat,
                      ghost done: seq<byte>)
      requires cache.Valid() && |cache.pinned| <= 2 && size <= MAX_SIZE && 0 < |src| && start == offset + |done|
      requires startBlock == start / BLOCK_SZ && start + |src| <= Min((startBlock + 1) * BLOCK_SZ, size)
      requires NoDup(Blocks(d, View())) && Lockable(d, cache.pinned, Blocks(d, View()))
      requires Overwritten(d, cache.view, View(), offset, done)
      modifies cache
      ensures cache.Valid() && cache.pinned == old(cache.pinned)
      ensures Overwritten(d, cache.view, View(), offset, done + src)
    {
      hide Tree, Coherent, Overwritten, NoDup;
      ghost var n, c := View(), DataBlocks(size);
      InRange(size, start);
      StillLockable(d, cache.view, n, offset, done, cache.pinned);
      var id := GetBlockId(startBlock, cache, c);
      InBlocks(cache.view, n, c, startBlock);
      WriteChunk(d, cache.view, n, offset, done, start, src);
      PatchBlock(cache, id, start % BLOCK_SZ, src);
    }
  }

  /** The slice and its bytes, for a read that ends where the loop does. */
  lemma ReadsAs(s: seq<byte>, offset: nat, len: nat)
    ensures var end := Min(offset + len, |s|);
            && Slice(s, offset, len) == (if offset >= end then [] else s[offset..end])
            && |Slice(s, offset, len)| == (if offset >= |s| then 0 else end - offset)
            && forall i :: 0 <= i < |Slice(s, offset, len)| ==> Slice(s, offset, len)[i] == s[offset + i]
  {
    SliceIs(s, offset, len);
  }

  lemma NextBlock(start: nat, end: nat)
    requires start < end
    ensures start < (start / BLOCK_SZ + 1) * BLOCK_SZ
    ensures (start / BLOCK_SZ + 1) * BLOCK_SZ < end ==>
              (start / BLOCK_SZ + 1) * BLOCK_SZ / BLOCK_SZ == start / BLOCK_SZ + 1
  {
  }

  lemma InRange(size: nat, p: nat)
    requires p < size <= MAX_SIZE
    ensures p / BLOCK_SZ < DataBlocks(size) <= MAX_BLOCKS
    ensures forall q: nat :: p <= q < (p / BLOCK_SZ + 1) * BLOCK_SZ ==>
              q / BLOCK_SZ == p / BLOCK_SZ && q % BLOCK_SZ == p % BLOCK_SZ + (q - p)
  {
  }

  lemma ReadChunk(d: Volume, n: Node, start: nat, end: nat, bytes: Bytes)
    requires start < end <= n.size <= MAX_SIZE && end <= (start / BLOCK_SZ + 1) * BLOCK_SZ
    requires bytes == BytesOf(d, BlockAt(d, n, start / BLOCK_SZ))
    ensures start % BLOCK_SZ + (end - start) <= BLOCK_SZ
    ensures Content(d, n)[start..end] == bytes[start % BLOCK_SZ..start % BLOCK_SZ + (end - start)]
  {
    hide BlockAt, BytesOf;
    InRange(n.size, start);
    assert end - 1 < (start / BLOCK_SZ + 1) * BLOCK_SZ;
    var o := start % BLOCK_SZ;
    var s, t := Content(d, n)[start..end], bytes[o..o + (end - start)];
    forall k | 0 <= k < end - start ensures s[k] == t[k] {
      assert (start + k) / BLOCK_SZ == start / BLOCK_SZ;
    }
  }

  /** From d to d' the bytes of inode n at `offset` became buf; its blocks are the same and only data blocks differ. */
  ghost predicate Overwritten(d: Volume, d': Volume, n: Node, offset: nat, buf: seq<byte>) {
    var c := DataBlocks(n.size);
    && d'.Keys == d.Keys
    && Blocks(d', n) == Blocks(d, n)
    && (forall i: nat :: i < c ==> BlockAt(d', n, i) == BlockAt(d, n, i))
    && (forall p: nat :: p < Capacity(n) ==>
          ByteAt(d', n, p) == if offset <= p < offset + |buf| then buf[p - offset] else ByteAt(d, n, p))
    && (forall b :: Changed(d, d', b) ==> IsData(d, n, c, b) && d[b].Data? && d'[b].Data?)
  }

  lemma OverwrittenNone(d: Volume, n: Node, offset: nat)
    ensures Overwritten(d, d, n, offset, [])
  {
  }

  lemma OverwrittenKeys(d: Volume, d': Volume, n: Node, offset: nat, buf: seq<byte>)
    requires Overwritten(d, d', n, offset, buf)
    ensures d'.Keys == d.Keys
  {
  }

  lemma StillLockable(d: Volume, d': Volume, n: Node, offset: nat, buf: seq<byte>, pinned: multiset<nat>)
    requires Overwritten(d, d', n, offset, buf) && Lockable(d, pinned, Blocks(d, n))
    ensures Lockable(d', pinned, Blocks(d', n))
  {
    hide Tree, BlockAt;
    forall b | b in Blocks(d', n) ensures b in d' && d'[b].Data? && b !in pinned {
      if d'[b] != d[b] { assert Changed(d, d', b); }
    }
  }

  lemma WriteChunk(d: Volume, v: Volume, n: Node, offset: nat, done: seq<byte>, start: nat, src: seq<byte>)
    requires Overwritten(d, v, n, offset, done) && NoDup(Blocks(d, n)) && Lockable(v, multiset{}, Blocks(v, n))
    requires start == offset + |done| && 0 < |src| && start + |src| <= n.size <= MAX_SIZE
    requires start + |src| <= (start / BLOCK_SZ + 1) * BLOCK_SZ
    ensures start % BLOCK_SZ + |src| <= BLOCK_SZ
    ensures var b := BlockAt(v, n, start / BLOCK_SZ);
            var bytes := BytesOf(v, b)[..start % BLOCK_SZ] + src + BytesOf(v, b)[start % BLOCK_SZ + |src|..];
            Overwritten(d, v[b := Data(bytes)], n, offset, done + src)
  {
    hide Tree, BlockAt, NoDup, IsIndex;
    var c, i := DataBlocks(n.size), start / BLOCK_SZ;
    InRange(n.size, start);
    var b := BlockAt(v, n, i);
    var bytes := BytesOf(v, b)[..start % BLOCK_SZ] + src + BytesOf(v, b)[start % BLOCK_SZ + |src|..];
    var v' := v[b := Data(bytes)];
    WriteData(v, n, c, i, bytes);
    InBlocks(v, n, c, i);
    assert IsData(d, n, c, b);
    hide ByteAt;
    forall p: nat | p < Capacity(n)
      ensures ByteAt(v', n, p)
           == if offset <= p < offset + |done + src| then (done + src)[p - offset] else ByteAt(d, n, p)
    {
      PieceByte(v, v', n, b, bytes, start, src, p);
    }
    forall x | Changed(d, v', x) ensures IsData(d, n, c, x) && d[x].Data? && v'[x].Data? {
      if x != b { assert Changed(d, v, x); } else if v[b] != d[b] { assert Changed(d, v, b); }
    }
  }

  /** What a piece written into block b does to byte p of the inode. */
  lemma PieceByte(v: Volume, v': Volume, n: Node, b: nat, bytes: Bytes, start: nat, src: seq<byte>, p: nat)
    requires 0 < |src| && start % BLOCK_SZ + |src| <= BLOCK_SZ && b == BlockAt(v, n, start / BLOCK_SZ)
    requires bytes == BytesOf(v, b)[..start % BLOCK_SZ] + src + BytesOf(v, b)[start % BLOCK_SZ + |src|..]
    requires ByteAt(v', n, p) == if p / BLOCK_SZ == start / BLOCK_SZ then bytes[p % BLOCK_SZ] else ByteAt(v, n, p)
    ensures ByteAt(v', n, p) == if start <= p < start + |src| then src[p - start] else ByteAt(v, n, p)
  {
    hide BlockAt, BytesOf;
    ChunkByte(BytesOf(v, b), bytes, start, src, p);
  }

  lemma ChunkByte(old': Bytes, bytes: Bytes, start: nat, src: seq<byte>, p: nat)
    requires 0 < |src| && start % BLOCK_SZ + |src| <= BLOCK_SZ
    requires bytes == old'[..start % BLOCK_SZ] + src + old'[start % BLOCK_SZ + |src|..]
    ensures p / BLOCK_SZ == start / BLOCK_SZ ==>
              bytes[p % BLOCK_SZ] == if start <= p < start + |src| then src[p - start] else old'[p % BLOCK_SZ]
    ensures p / BLOCK_SZ != start / BLOCK_SZ ==> !(start <= p < start + |src|)
  {
  }

  /** What `clear_size` leaves of an inode. */
  function Cleared(n: Node): Node {
    var c := DataBlocks(n.size);
    var k := Min(c, 26);
    n.(size := 0,
       direct := Fill<u32>(0, k) + n.direct[k..],
       indirect1 := if c > DIRECT_BOUND then 0 else n.indirect1,
       indirect2 := if c > INDIRECT1_BOUND then 0 else n.indirect2)
  }

  function Words(d: Volume, b: nat, count: nat): seq<u32> {
    seq(count, i requires 0 <= i => Word(d, b, i))
  }

  lemma {:induction false} DirectFlat(d: Volume, n: Node, k: nat)
    requires k <= DIRECT_BOUND
    ensures Tree(d, n, k) == n.direct[..k]
  {
    if k > 0 {
      DirectFlat(d, n, k - 1);
      TreeNext(d, n, k - 1);
    }
  }

  lemma {:induction false} Indirect1Flat(d: Volume, n: Node, m: nat)
    requires 0 < m <= INODE_INDIRECT1_COUNT
    ensures Tree(d, n, DIRECT_BOUND + m) == Tree(d, n, DIRECT_BOUND) + [n.indirect1] + Words(d, n.indirect1, m)
  {
    hide Tree, Word;
    var c := DIRECT_BOUND + m - 1;
    TreeNext(d, n, c);
    assert Words(d, n.indirect1, m) == Words(d, n.indirect1, m - 1) + [Word(d, n.indirect1, m - 1)];
    if m > 1 {
      Indirect1Flat(d, n, m - 1);
      assert Step(d, n, c) == [Word(d, n.indirect1, m - 1)];
    } else {
      assert Step(d, n, c) == [n.indirect1, Word(d, n.indirect1, 0)];
    }
  }

  /** One block below the double-indirect block, flattened. */
  lemma {:induction false} GroupFlat(d: Volume, n: Node, k: nat, m: nat)
    requires k < 128 && 0 < m <= 128
    ensures var g := Word(d, n.indirect2, k);
            Tree(d, n, At(k, m)) == Tree(d, n, At(k, 0)) + Before(n, At(k, 0)) + [g] + Words(d, g, m)
  {
    hide Tree, Word;
    var g, c := Word(d, n.indirect2, k), At(k, m - 1);
    TreeNext(d, n, c);
    GroupPosition(k, m - 1);
    assert Words(d, g, m) == Words(d, g, m - 1) + [Word(d, g, m - 1)];
    if m > 1 {
      GroupFlat(d, n, k, m - 1);
      assert Step(d, n, c) == [Word(d, g, m - 1)];
    } else {
      assert Step(d, n, c) == Before(n, c) + [g] + [Word(d, g, 0)];
    }
  }

  /** v lists what lies below the double-indirect block for the data blocks before c. */
  ghost predicate Collected(d: Volume, n: Node, c: nat, v: seq<u32>) {
    if c == INDIRECT1_BOUND then v == [] else Tree(d, n, c) == Tree(d, n, INDIRECT1_BOUND) + [n.indirect2] + v
  }

  lemma CollectedNone(d: Volume, n: Node)
    ensures Collected(d, n, At(0, 0), [])
  {
  }

  lemma CollectedAll(d: Volume, n: Node, c: nat, v: seq<u32>)
    requires Collected(d, n, c, v) && c > INDIRECT1_BOUND
    ensures Tree(d, n, c) == Tree(d, n, INDIRECT1_BOUND) + [n.indirect2] + v
  {
  }

  lemma CollectMore(d: Volume, n: Node, k: nat, m: nat, v: seq<u32>)
    requires k < 128 && 0 < m <= 128 && Collected(d, n, At(k, 0), v)
    ensures var g := Word(d, n.indirect2, k); Collected(d, n, At(k, m), v + [g] + Words(d, g, m))
  {
    hide Tree, Word, Words;
    GroupFlat(d, n, k, m);
    var g := Word(d, n.indirect2, k);
    var w := Words(d, g, m);
    if k == 0 {
      assert v + [g] + w == [g] + w;
      assert Tree(d, n, At(0, 0)) + [n.indirect2] + [g] + w == Tree(d, n, At(0, 0)) + [n.indirect2] + ([g] + w);
    } else {
      var t := Tree(d, n, INDIRECT1_BOUND) + [n.indirect2];
      assert t + v + [] + [g] + w == t + (v + [g] + w);
    }
  }

  /** A block below the double-indirect block can be locked while that one is held. */
  lemma DoubleAt(d: Volume, n: Node, c: nat, k: nat, pinned: multiset<nat>)
    requires k < 128 && At(k, 0) < c <= MAX_BLOCKS && NoDup(Tree(d, n, c)) && Lockable(d, pinned, Tree(d, n, c))
    ensures n.indirect2 in d && d[n.indirect2].Data?
    ensures Lockable(d, pinned + multiset{n.indirect2}, [Word(d, n.indirect2, k)])
  {
    hide Tree, NoDup, Word;
    PathInTree(d, n, At(k, 0), c);
    GroupPosition(k, 0);
    GroupNotDouble(d, n, c, At(k, 0));
  }

  /** Data block number of position i in the a0-th block indexed by the double-indirect block. */
  function At(a0: nat, i: nat): nat {
    INDIRECT1_BOUND + 128 * a0 + i
  }

  /** `group` is the block that position i of group a0 is to be found in. */
  ghost predicate InGroup(d: Volume, n: Node, a0: nat, i: nat, group: u32) {
    i < 128 ==> Word(d, n.indirect2, a0) == group
  }

  lemma GroupStep(d0: Volume, t0: seq<u32>, nb: seq<u32>, d: Volume, n: Node, a0: nat, b0: nat, i: nat, group: u32,
                  u: nat,
                  target: nat)
    requires Supply(d0, t0, nb) && a0 < 128 && b0 <= i < 128 && InGroup(d, n, a0, i, group) && u <= |nb|
    requires At(a0, i) < target <= MAX_BLOCKS && Total(target) - |t0| <= |nb|
    requires Progress(d0, t0, nb, d, n, At(a0, i), if i == b0 then IndexAt(d, n, At(a0, i)) else [], u)
    ensures u < |nb| && group in d && d[group].Data?
    ensures InGroup(SetWord(d, group, i, nb[u]), n, a0, i + 1, group)
    ensures Progress(d0, t0, nb, SetWord(d, group, i, nb[u]), n, At(a0, i + 1), [], u + 1)
  {
    hide Progress, Supply, Total, SetWord, BlockAt;
    var c := At(a0, i);
    GroupPosition(a0, i);
    assert b0 < i ==> IndexAt(d, n, c) == [];
    IndexLength(d, n, c);
    Room(d0, t0, nb, d, n, c, IndexAt(d, n, c), u, target);
    assert GroupOf(d, n, c) == group;
    StepIndirect2(d0, t0, nb, d, n, c, u);
    GroupStays(d0, t0, nb, d, n, c, u);
  }

  lemma IndexLength(d: Volume, n: Node, c: nat)
    ensures |IndexAt(d, n, c)| == IndexCount(c)
  {
  }

  /** The indirect block is taken before the first data block it indexes. */
  function Pend1(n: Node, cur: nat): seq<u32> {
    if cur == 0 then [n.indirect1] else []
  }

  lemma NoPend1(n: Node, cur: nat)
    ensures cur > 0 ==> Pend1(n, cur) == []
  {
  }

  lemma Indirect1Step(d0: Volume, t0: seq<u32>, nb: seq<u32>, d: Volume, n: Node, cur: nat, u: nat, newTotal: nat)
    requires Supply(d0, t0, nb) && cur < INODE_INDIRECT1_COUNT && cur < newTotal && u <= |nb|
    requires Total(DIRECT_BOUND + newTotal) - |t0| <= |nb|
    requires Progress(d0, t0, nb, d, n, DIRECT_BOUND + cur, Pend1(n, cur), u)
    ensures u < |nb| && n.indirect1 in d && d[n.indirect1].Data?
    ensures Progress(d0, t0, nb, SetWord(d, n.indirect1, cur, nb[u]), n, DIRECT_BOUND + cur + 1, [], u + 1)
  {
    hide Progress, Supply, Total;
    var c := DIRECT_BOUND + cur;
    assert IndexAt(d, n, c) == Pend1(n, cur);
    Room(d0, t0, nb, d, n, c, IndexAt(d, n, c), u, DIRECT_BOUND + newTotal);
    StepIndirect1(d0, t0, nb, d, n, c, u);
  }

  lemma TopIndexes(d: Volume, n: Node)
    ensures n.indirect1 in IndexAt(d, n, DIRECT_BOUND) && n.indirect2 in IndexAt(d, n, INDIRECT1_BOUND)
  {
  }

  lemma NothingBefore(n: Node, c: nat)
    ensures c > INDIRECT1_BOUND ==> Before(n, c) == []
  {
  }

  lemma BeforeCount(d: Volume, n: Node, c: nat)
    requires c >= INDIRECT1_BOUND
    ensures (c - INDIRECT1_BOUND) % 128 == 0 ==> |Before(n, c)| <= IndexCount(c)
    ensures (c - INDIRECT1_BOUND) % 128 != 0 ==> Before(n, c) == [] == IndexAt(d, n, c)
  {
  }

  /** One pass of the double-indirect loop fills at least one position, and at most to the target. */
  lemma GroupRange(cur: nat, newTotal: nat)
    requires cur < newTotal <= INODE_INDIRECT2_COUNT
    ensures var a0, b0, a1, b1 := cur / 128, cur % 128, newTotal / 128, newTotal % 128;
            var end := if a0 < a1 then 128 else b1;
            && a0 < 128 && b0 < end <= 128
            && At(a0, b0) == INDIRECT1_BOUND + cur && At(a0, end) == INDIRECT1_BOUND + (cur + (end - b0))
            && cur + (end - b0) <= newTotal
  {
  }

  lemma GroupPosition(a0: nat, i: nat)
    requires a0 < 128 && i < 128
    ensures var c := INDIRECT1_BOUND + 128 * a0 + i;
            (c - INDIRECT1_BOUND) / 128 == a0 && (c - INDIRECT1_BOUND) % 128 == i
  {
  }

  /** Filling a position of a group block does not move the group. */
  lemma GroupStays(d0: Volume, t0: seq<u32>, nb: seq<u32>, d: Volume, n: Node, c: nat, u: nat)
    requires Progress(d0, t0, nb, d, n, c, IndexAt(d, n, c), u) && Supply(d0, t0, nb)
    requires INDIRECT1_BOUND <= c < MAX_BLOCKS && u < |nb|
    ensures var g := GroupOf(d, n, c);
            var d' := SetWord(d, g, (c - INDIRECT1_BOUND) % 128, nb[u]);
            Word(d', n.indirect2, (c - INDIRECT1_BOUND) / 128) == g
  {
    TakeNext(t0, nb, u, Tree(d, n, c), IndexAt(d, n, c));
    GroupDistinct(d, n, c);
    SetWordGet(d, GroupOf(d, n, c), (c - INDIRECT1_BOUND) % 128, nb[u], n.indirect2, (c - INDIRECT1_BOUND) / 128);
  }

  /** The group block can be locked while the double-indirect block is held. */
  lemma GroupFree(d0: Volume, t0: seq<u32>, nb: seq<u32>, d: Volume, n: Node, c: nat, u: nat, pinned: multiset<nat>)
    requires Progress(d0, t0, nb, d, n, c, IndexAt(d, n, c), u) && Supply(d0, t0, nb)
    requires INDIRECT1_BOUND <= c < MAX_BLOCKS && u <= |nb|
    requires Lockable(d0, pinned, t0 + nb)
    ensures GroupOf(d, n, c) in t0 + nb
    ensures Lockable(d0, pinned + multiset{n.indirect2}, [GroupOf(d, n, c)])
  {
    hide Tree, IndexAt, NoDup, GroupOf, IsIndex;
    var g := GroupOf(d, n, c);
    GroupTaken(d, n, c, t0 + nb[..u]);
    assert g in t0 + nb;
    assert t0 + nb == t0 + nb[..u] + nb[u..];
    NoDupSplit(t0 + nb[..u], nb[u..]);
    GroupDistinct(d, n, c);
  }

  /** Grow an empty inode through any sequence of sizes, then clear it: every block handed out comes back, in the order
      it was handed out, whichever tier boundaries the steps crossed. */
  method GrowThenClear(sizes: seq<u32>, supply: seq<u32>, cache: Cache) returns (freed: seq<u32>)
    requires cache.Valid() && |cache.pinned| <= 1
    requires Increasing(sizes)
    requires NoDup(supply) && Lockable(cache.view, cache.pinned, supply)
    requires Total(DataBlocks(Last(sizes))) <= |supply|
    modifies cache
    ensures cache.Valid() && cache.pinned == old(cache.pinned)
    ensures freed == supply[..Total(DataBlocks(Last(sizes)))]
  {
    hide Coherent, NoDup, Blocks, Total, IsIndex, Last;
    var inode := new DiskInode(ZeroNode());
    NoBlocks(cache.view, inode.View());
    LastOf(sizes);
    var i, used := 0, 0;
    while i < |sizes|
      invariant i <= |sizes| && inode.size == (if i == 0 then 0 else sizes[i - 1]) && inode.size <= MAX_SIZE
      invariant cache.Valid() && cache.pinned == old(cache.pinned)
      invariant Lockable(cache.view, cache.pinned, supply)
      invariant used == Total(DataBlocks(inode.size)) <= |supply|
      invariant Blocks(cache.view, inode.View()) == supply[..used]
    {
      LastIsLargest(sizes, i);
      GrowthFits(inode.size, sizes[i], Last(sizes));
      used := GrowStep(inode, sizes[i], supply, used, cache);
      i := i + 1;
    }
    assert supply == supply[..used] + supply[used..];
    NoDupSplit(supply[..used], supply[used..]);
    freed := inode.ClearSize(cache);
  }

  /** One of those steps. */
  method GrowStep(inode: DiskInode, newSize: u32, supply: seq<u32>, used: nat, cache: Cache) returns (used': nat)
    requires cache.Valid() && |cache.pinned| <= 1 && NoDup(supply) && Lockable(cache.view, cache.pinned, supply)
    requires inode.size < newSize <= MAX_SIZE
    requires used == Total(DataBlocks(inode.size)) <= Total(DataBlocks(newSize)) <= |supply|
    requires Blocks(cache.view, inode.View()) == supply[..used]
    modifies inode, cache
    ensures cache.Valid() && cache.pinned == old(cache.pinned) && Lockable(cache.view, cache.pinned, supply)
    ensures inode.size == newSize && used' == Total(DataBlocks(newSize))
    ensures Blocks(cache.view, inode.View()) == supply[..used']
  {
    hide Coherent, NoDup, Blocks, Total, IsIndex, Supply;
    SupplySplit(cache.view, cache.pinned, supply, used);
    ghost var d := cache.view;
    inode.IncreaseSize(newSize, supply[used..], cache);
    used' := Total(DataBlocks(newSize));
    assert supply[..used] + supply[used..][..used' - used] == supply[..used'];
    LockableStill(d, cache.view, cache.pinned, supply);
  }

  lemma LockableStill(d: Volume, d': Volume, pinned: multiset<nat>, s: seq<u32>)
    requires Lockable(d, pinned, s) && d'.Keys == d.Keys
    requires forall b :: Changed(d, d', b) ==> d[b].Data? && d'[b].Data?
    ensures Lockable(d', pinned, s)
  {
    forall b | b in s ensures d'[b].Data? { if d'[b] != d[b] { assert Changed(d, d', b); } }
  }

  ghost predicate Increasing(sizes: seq<u32>) {
    && (forall i :: 0 <= i < |sizes| ==> 0 < sizes[i] <= MAX_SIZE)
    && (forall i, j :: 0 <= i < j < |sizes| ==> sizes[i] < sizes[j])
  }

  /** The last of the sizes, or none. */
  function Last(sizes: seq<u32>): u32 {
    if sizes == [] then 0 else sizes[|sizes| - 1]
  }

  lemma LastOf(sizes: seq<u32>)
    ensures Last(sizes) == if |sizes| == 0 then 0 else sizes[|sizes| - 1]
  {
  }

  lemma LastIsLargest(sizes: seq<u32>, i: nat)
    requires i < |sizes| && Increasing(sizes)
    ensures sizes[i] <= Last(sizes)
  {
  }

  lemma NoBlocks(d: Volume, n: Node)
    requires n.size == 0
    ensures Blocks(d, n) == [] && Total(DataBlocks(0)) == 0
  {
  }

  lemma GrowthFits(s: nat, t: nat, last: nat)
    requires s <= t <= last
    ensures Total(DataBlocks(s)) <= Total(DataBlocks(t)) <= Total(DataBlocks(last))
  {
    TotalMonotone(DataBlocks(s), DataBlocks(t));
    TotalMonotone(DataBlocks(t), DataBlocks(last));
  }

  lemma SupplySplit(d: Volume, pinned: multiset<nat>, supply: seq<u32>, used: nat)
    requires used <= |supply| && NoDup(supply) && Lockable(d, pinned, supply)
    ensures Supply(d, supply[..used], supply[used..]) && Lockable(d, pinned, supply[..used] + supply[used..])
  {
    assert supply[..used] + supply[used..] == supply;
  }
}
