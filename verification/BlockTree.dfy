/** The three-tier block tree of a disk inode, as one sequence of block numbers.

    `Tree(d, n, c)` lists every block that the first c data blocks of inode n occupy on disk d, index blocks included,
    each index block just before the first data block it is needed for. */
module BlockTree {
  import opened Basics
  import opened Disk

  /** Data blocks that `size` bytes take: `_data_blocks`. */
  function DataBlocks(size: nat): nat {
    (size + BLOCK_SZ - 1) / BLOCK_SZ
  }

  /** As many blocks as hold `size` bytes, and no more. */
  lemma DataBlocksFit(size: nat)
    ensures BLOCK_SZ * (DataBlocks(size) - 1) < size <= BLOCK_SZ * DataBlocks(size) || size == DataBlocks(size) == 0
  {
  }

  /** Blocks that c data blocks take, index blocks included: the arithmetic of `total_blocks`. */
  function Total(c: nat): nat {
    var t := if c > DIRECT_BOUND then c + 1 else c;
    if c > INDIRECT1_BOUND
    then t + 1 + (c - INDIRECT1_BOUND + INODE_INDIRECT1_COUNT - 1) / INODE_INDIRECT1_COUNT
    else t
  }

  /** Block number of data block i: `get_block_id`. */
  function BlockAt(d: Volume, n: Node, i: nat): u32 {
    if i < DIRECT_BOUND then n.direct[i]
    else if i < INDIRECT1_BOUND then Word(d, n.indirect1, i - DIRECT_BOUND)
    else
      var last := i - INDIRECT1_BOUND;
      Word(d, Word(d, n.indirect2, last / INODE_INDIRECT1_COUNT), last % INODE_INDIRECT1_COUNT)
  }

  /** Index blocks that data block i is the first to need. */
  function IndexAt(d: Volume, n: Node, i: nat): seq<u32> {
    if i == DIRECT_BOUND then [n.indirect1]
    else if i >= INDIRECT1_BOUND && (i - INDIRECT1_BOUND) % INODE_INDIRECT1_COUNT == 0 then
      var g := Word(d, n.indirect2, (i - INDIRECT1_BOUND) / INODE_INDIRECT1_COUNT);
      if i == INDIRECT1_BOUND then [n.indirect2, g] else [g]
    else []
  }

  function Step(d: Volume, n: Node, i: nat): seq<u32> {
    IndexAt(d, n, i) + [BlockAt(d, n, i)]
  }

  function Steps(d: Volume, n: Node): nat -> seq<u32> {
    (i: nat) => Step(d, n, i)
  }

  function Tree(d: Volume, n: Node, c: nat): seq<u32> {
    Flat(Steps(d, n), c)
  }

  /** Blocks of the whole inode. */
  function Blocks(d: Volume, n: Node): seq<u32> {
    Tree(d, n, DataBlocks(n.size))
  }

  /** Block b indexes other blocks of the tree. */
  ghost predicate IsIndex(d: Volume, n: Node, c: nat, b: nat) {
    exists i: nat :: i < c && b in IndexAt(d, n, i)
  }

  /** Number of index blocks that data block i is the first to need. */
  function IndexCount(i: nat): nat {
    if i == DIRECT_BOUND then 1
    else if i >= INDIRECT1_BOUND && (i - INDIRECT1_BOUND) % INODE_INDIRECT1_COUNT == 0 then
      if i == INDIRECT1_BOUND then 2 else 1
    else 0
  }

  lemma TotalStep(c: nat)
    ensures Total(c + 1) == Total(c) + IndexCount(c) + 1
  {
    if c > INDIRECT1_BOUND {
      var x := c - INDIRECT1_BOUND;
      assert (x + 1 + 127) / 128 == x / 128 + 1;
      assert (x + 127) / 128 == if x % 128 == 0 then x / 128 else x / 128 + 1;
    }
  }

  lemma {:induction false} TotalMonotone(c: nat, c': nat)
    requires c <= c'
    ensures Total(c) + (c' - c) <= Total(c')
    ensures c < c' ==> Total(c) + IndexCount(c) + 1 <= Total(c')
    decreases c' - c
  {
    if c < c' {
      TotalStep(c);
      TotalMonotone(c + 1, c');
    }
  }

  function StepSizes(): nat -> nat {
    (i: nat) => IndexCount(i) + 1
  }

  lemma {:induction false} SumIsTotal(c: nat)
    ensures SumTo(StepSizes(), c) == Total(c)
  {
    if c > 0 {
      SumIsTotal(c - 1);
      TotalStep(c - 1);
    }
  }

  /** The sequence is as long as the source's count of blocks says. */
  lemma TreeLength(d: Volume, n: Node, c: nat)
    ensures |Tree(d, n, c)| == Total(c)
  {
    FlatLength(Steps(d, n), StepSizes(), c);
    SumIsTotal(c);
  }

  /** More data blocks only append to the sequence. */
  lemma TreePrefix(d: Volume, n: Node, c: nat, c': nat)
    requires c <= c'
    ensures Tree(d, n, c) <= Tree(d, n, c')
  {
    FlatPrefix(Steps(d, n), c, c');
  }

  lemma TreeNext(d: Volume, n: Node, c: nat)
    ensures Tree(d, n, c + 1) == Tree(d, n, c) + Step(d, n, c)
  {
  }

  /** Where data block i and the index blocks it brings in sit in the sequence. */
  lemma TreeAt(d: Volume, n: Node, i: nat, c: nat)
    requires i < c
    ensures |Tree(d, n, i)| + |Step(d, n, i)| <= |Tree(d, n, c)|
    ensures forall k :: 0 <= k < |Step(d, n, i)| ==> Tree(d, n, c)[|Tree(d, n, i)| + k] == Step(d, n, i)[k]
    ensures forall b :: b in Step(d, n, i) ==> b in Tree(d, n, c)
  {
    hide Step;
    FlatAt(Steps(d, n), i, c);
  }

  lemma StepLast(d: Volume, n: Node, i: nat)
    requires i < MAX_BLOCKS
    ensures |Tree(d, n, i)| + |Step(d, n, i)| == Total(i + 1) && |Step(d, n, i)| >= 1
    ensures Step(d, n, i)[|Step(d, n, i)| - 1] == BlockAt(d, n, i)
  {
    TreeLength(d, n, i + 1);
  }

  /** Data block i sits where the source's count of blocks says it does. */
  lemma TreePosition(d: Volume, n: Node, i: nat, c: nat)
    requires i < c <= MAX_BLOCKS
    ensures Total(i + 1) <= |Tree(d, n, c)| == Total(c)
    ensures Tree(d, n, c)[Total(i + 1) - 1] == BlockAt(d, n, i)
  {
    hide Tree, Step, BlockAt, Total;
    TreeAt(d, n, i, c);
    TreeLength(d, n, c);
    StepLast(d, n, i);
    var k := |Step(d, n, i)| - 1;
    assert Tree(d, n, c)[|Tree(d, n, i)| + k] == Step(d, n, i)[k];
  }

  /** Which block of the supply a file grown from nothing has where: the direct slots, the indirect block and what it
      indexes, the double-indirect block, and group after group of a block and what it indexes. */
  lemma Places(d: Volume, n: Node, c: nat, k: nat, j: nat)
    requires c <= MAX_BLOCKS && j < 128
    ensures j < 26 && j < c ==> j < |Tree(d, n, c)| && Tree(d, n, c)[j] == n.direct[j]
    ensures 26 < c ==> 26 < |Tree(d, n, c)| && Tree(d, n, c)[26] == n.indirect1
    ensures 26 + j < c ==> 27 + j < |Tree(d, n, c)| && Tree(d, n, c)[27 + j] == Word(d, n.indirect1, j)
    ensures 154 < c ==> 155 < |Tree(d, n, c)| && Tree(d, n, c)[155] == n.indirect2
    ensures 154 + 128 * k < c ==>
              156 + 129 * k < |Tree(d, n, c)| && Tree(d, n, c)[156 + 129 * k] == Word(d, n.indirect2, k)
    ensures 154 + 128 * k + j < c ==>
              && 157 + 129 * k + j < |Tree(d, n, c)|
              && Tree(d, n, c)[157 + 129 * k + j] == Word(d, Word(d, n.indirect2, k), j)
  {
    hide Tree, Word;
    if j < 26 && j < c { TreePosition(d, n, j, c); }
    RootPlace(d, n, c);
    if 26 + j < c { TreePosition(d, n, 26 + j, c); }
    if 154 + 128 * k < c { GroupPlace(d, n, k, c); }
    if 154 + 128 * k + j < c { DataPlace(d, n, k, j, c); }
  }

  /** Index blocks sit just before the data block that is the first to need them. */
  lemma IndexPlace(d: Volume, n: Node, i: nat, c: nat)
    requires i < c <= MAX_BLOCKS
    ensures Total(i) + |IndexAt(d, n, i)| < |Tree(d, n, c)|
    ensures forall m :: 0 <= m < |IndexAt(d, n, i)| ==> Tree(d, n, c)[Total(i) + m] == IndexAt(d, n, i)[m]
  {
    hide Tree, IndexAt, Total, BlockAt;
    TreeAt(d, n, i, c);
    TreeLength(d, n, i);
    forall m | 0 <= m < |IndexAt(d, n, i)| ensures Tree(d, n, c)[Total(i) + m] == IndexAt(d, n, i)[m] {
      assert Step(d, n, i)[m] == IndexAt(d, n, i)[m];
    }
  }

  lemma RootPlace(d: Volume, n: Node, c: nat)
    requires c <= MAX_BLOCKS
    ensures 26 < c ==> 26 < |Tree(d, n, c)| && Tree(d, n, c)[26] == n.indirect1
    ensures 154 < c ==> 155 < |Tree(d, n, c)| && Tree(d, n, c)[155] == n.indirect2
  {
    hide Tree, Word;
    if 26 < c {
      IndexPlace(d, n, 26, c);
      assert Total(26) == 26 && IndexAt(d, n, 26)[0] == n.indirect1;
      assert Tree(d, n, c)[Total(26) + 0] == n.indirect1;
    }
    if 154 < c {
      IndexPlace(d, n, 154, c);
      assert Total(154) == 155 && IndexAt(d, n, 154)[0] == n.indirect2;
      assert Tree(d, n, c)[Total(154) + 0] == n.indirect2;
    }
  }

  lemma GroupPlace(d: Volume, n: Node, k: nat, c: nat)
    requires 154 + 128 * k < c <= MAX_BLOCKS
    ensures 156 + 129 * k < |Tree(d, n, c)| && Tree(d, n, c)[156 + 129 * k] == Word(d, n.indirect2, k)
  {
    hide Tree, Word;
    var i := 154 + 128 * k;
    IndexPlace(d, n, i, c);
    assert Total(i) == if k == 0 then 155 else 156 + 129 * k;
    var x := IndexAt(d, n, i);
    assert x == if k == 0 then [n.indirect2, Word(d, n.indirect2, 0)] else [Word(d, n.indirect2, k)];
    assert x[|x| - 1] == Word(d, n.indirect2, k);
  }

  lemma DataPlace(d: Volume, n: Node, k: nat, j: nat, c: nat)
    requires 154 + 128 * k + j < c <= MAX_BLOCKS && j < 128
    ensures 157 + 129 * k + j < |Tree(d, n, c)|
    ensures Tree(d, n, c)[157 + 129 * k + j] == Word(d, Word(d, n.indirect2, k), j)
  {
    hide Tree, Word;
    TreePosition(d, n, 154 + 128 * k + j, c);
  }

  /** Without sharing, two steps have no block in common. */
  lemma StepsDisjoint(d: Volume, n: Node, c: nat, i: nat, j: nat)
    requires NoDup(Tree(d, n, c)) && i < j < c
    ensures Disjoint(Step(d, n, i), Step(d, n, j))
  {
    FlatDisjoint(Steps(d, n), c, i, j);
  }

  lemma StepNoDup(d: Volume, n: Node, c: nat, i: nat)
    requires NoDup(Tree(d, n, c)) && i < c
    ensures NoDup(Step(d, n, i))
  {
    FlatNoDup(Steps(d, n), c, i);
  }

  /** Without sharing, data blocks are pairwise distinct and none is an index block. */
  lemma DataDistinct(d: Volume, n: Node, c: nat, i: nat, j: nat)
    requires c <= MAX_BLOCKS && NoDup(Tree(d, n, c)) && i < c && j < c
    ensures i != j ==> BlockAt(d, n, i) != BlockAt(d, n, j)
    ensures BlockAt(d, n, i) !in IndexAt(d, n, j)
  {
    assert BlockAt(d, n, i) in Step(d, n, i) && BlockAt(d, n, j) in Step(d, n, j);
    if i < j {
      StepsDisjoint(d, n, c, i, j);
    } else if j < i {
      StepsDisjoint(d, n, c, j, i);
    } else {
      StepNoDup(d, n, c, i);
      var t := Step(d, n, i);
      assert t[|t| - 1] == BlockAt(d, n, i);
      forall k | 0 <= k < |IndexAt(d, n, i)| ensures IndexAt(d, n, i)[k] != BlockAt(d, n, i) {
        assert t[k] != t[|t| - 1];
      }
    }
  }

  lemma DataNotIndex(d: Volume, n: Node, c: nat, i: nat)
    requires c <= MAX_BLOCKS && NoDup(Tree(d, n, c)) && i < c
    ensures !IsIndex(d, n, c, BlockAt(d, n, i))
  {
    forall j | 0 <= j < c ensures BlockAt(d, n, i) !in IndexAt(d, n, j) { DataDistinct(d, n, c, i, j); }
  }

  lemma IndexInTree(d: Volume, n: Node, c: nat, b: nat)
    requires c <= MAX_BLOCKS && IsIndex(d, n, c, b)
    ensures b in Tree(d, n, c)
  {
    var i :| 0 <= i < c && b in IndexAt(d, n, i);
    TreeAt(d, n, i, c);
    assert b in Step(d, n, i);
  }

  // ---- frames ----

  lemma SameSteps(d: Volume, n: Node, d': Volume, n': Node, c: nat)
    requires forall i: nat :: i < c ==> Step(d, n, i) == Step(d', n', i)
    ensures Tree(d, n, c) == Tree(d', n', c)
  {
    FlatSame(Steps(d, n), Steps(d', n'), c);
  }

  ghost predicate SamePointers(n: Node, n': Node) {
    n.direct == n'.direct && n.indirect1 == n'.indirect1 && n.indirect2 == n'.indirect2
  }

  /** A tree depends on the disk only through its index blocks. */
  lemma IndexFrame(d: Volume, n: Node, d': Volume, n': Node, c: nat)
    requires c <= MAX_BLOCKS && SamePointers(n, n')
    requires forall b :: IsIndex(d, n, c, b) ==> BytesOf(d, b) == BytesOf(d', b)
    ensures forall i :: 0 <= i < c ==> BlockAt(d, n, i) == BlockAt(d', n', i) && IndexAt(d, n, i) == IndexAt(d', n', i)
    ensures Tree(d, n, c) == Tree(d', n', c)
    ensures forall b :: IsIndex(d, n, c, b) <==> IsIndex(d', n', c, b)
  {
    forall i | 0 <= i < c
      ensures BlockAt(d, n, i) == BlockAt(d', n', i) && IndexAt(d, n, i) == IndexAt(d', n', i)
    {
      IndexFrameAt(d, n, d', n', c, i);
    }
    SameSteps(d, n, d', n', c);
  }

  lemma IndexFrameAt(d: Volume, n: Node, d': Volume, n': Node, c: nat, i: nat)
    requires i < c <= MAX_BLOCKS && SamePointers(n, n')
    requires forall b :: IsIndex(d, n, c, b) ==> BytesOf(d, b) == BytesOf(d', b)
    ensures BlockAt(d, n, i) == BlockAt(d', n', i) && IndexAt(d, n, i) == IndexAt(d', n', i)
  {
    if DIRECT_BOUND <= i {
      assert n.indirect1 in IndexAt(d, n, DIRECT_BOUND);
      assert IsIndex(d, n, c, n.indirect1);
    }
    if INDIRECT1_BOUND <= i {
      assert n.indirect2 in IndexAt(d, n, INDIRECT1_BOUND);
      assert IsIndex(d, n, c, n.indirect2);
      GroupIsIndex(d, n, c, i);
    }
  }

  /** The block that indexes data block i >= 154. */
  function GroupOf(d: Volume, n: Node, i: nat): u32
    requires INDIRECT1_BOUND <= i < MAX_BLOCKS
  {
    Word(d, n.indirect2, (i - INDIRECT1_BOUND) / INODE_INDIRECT1_COUNT)
  }

  lemma GroupIsIndex(d: Volume, n: Node, c: nat, i: nat)
    requires INDIRECT1_BOUND <= i < c <= MAX_BLOCKS
    ensures IsIndex(d, n, c, GroupOf(d, n, i))
  {
    var k := (i - INDIRECT1_BOUND) / INODE_INDIRECT1_COUNT;
    var first := INDIRECT1_BOUND + k * INODE_INDIRECT1_COUNT;
    assert (first - INDIRECT1_BOUND) % INODE_INDIRECT1_COUNT == 0;
    assert (first - INDIRECT1_BOUND) / INODE_INDIRECT1_COUNT == k;
    assert GroupOf(d, n, i) in IndexAt(d, n, first);
  }

  // ---- growing by one data block ----

  lemma GrowDirect(d: Volume, n: Node, c: nat, b: u32)
    requires c < DIRECT_BOUND
    ensures Tree(d, n.(direct := n.direct[c := b]), c + 1) == Tree(d, n, c) + [b]
  {
    var n' := n.(direct := n.direct[c := b]);
    SameSteps(d, n, d, n', c);
  }

  /** Before any block of the indirect tier is in use, its pointers are free to change. */
  lemma ChangeIndirect1(d: Volume, n: Node, c: nat, b: u32)
    requires c <= DIRECT_BOUND
    ensures Tree(d, n.(indirect1 := b), c) == Tree(d, n, c)
  {
    SameSteps(d, n, d, n.(indirect1 := b), c);
  }

  lemma ChangeIndirect2(d: Volume, n: Node, c: nat, b: u32)
    requires c <= INDIRECT1_BOUND
    ensures Tree(d, n.(indirect2 := b), c) == Tree(d, n, c)
  {
    SameSteps(d, n, d, n.(indirect2 := b), c);
  }

  lemma GrowIndirect1(d: Volume, n: Node, c: nat, b: u32)
    requires DIRECT_BOUND <= c < INDIRECT1_BOUND
    ensures var d' := SetWord(d, n.indirect1, c - DIRECT_BOUND, b);
            Tree(d', n, c + 1) == Tree(d, n, c) + IndexAt(d, n, c) + [b]
  {
    hide Tree, Step, IndexAt, SetWord;
    var d' := SetWord(d, n.indirect1, c - DIRECT_BOUND, b);
    forall i: nat | i <= c ensures Step(d', n, i) == if i < c then Step(d, n, i) else IndexAt(d, n, c) + [b] {
      StepBelow(d, n, c, b, i);
    }
    SameSteps(d, n, d', n, c);
    TreeNext(d', n, c);
    assert Tree(d, n, c) + (IndexAt(d, n, c) + [b]) == Tree(d, n, c) + IndexAt(d, n, c) + [b];
  }

  lemma StepBelow(d: Volume, n: Node, c: nat, b: u32, i: nat)
    requires DIRECT_BOUND <= c < INDIRECT1_BOUND && i <= c
    ensures var d' := SetWord(d, n.indirect1, c - DIRECT_BOUND, b);
            Step(d', n, i) == if i < c then Step(d, n, i) else IndexAt(d, n, c) + [b]
  {
    hide SetWord, Word;
    if DIRECT_BOUND <= i { SetWordGet(d, n.indirect1, c - DIRECT_BOUND, b, n.indirect1, i - DIRECT_BOUND); }
  }

  /** Writing word w of block x leaves the first c data blocks alone when nothing below c is looked up there. */
  lemma WriteBeyond(d: Volume, n: Node, c: nat, x: nat, w: nat, v: u32)
    requires INDIRECT1_BOUND <= c <= MAX_BLOCKS && w < 128
    requires x != n.indirect1
    requires x == n.indirect2 ==> w >= (c - INDIRECT1_BOUND + 127) / 128
    requires forall i :: INDIRECT1_BOUND <= i < c && GroupOf(d, n, i) == x ==> w != (i - INDIRECT1_BOUND) % 128
    ensures var d' := SetWord(d, x, w, v);
            Tree(d', n, c) == Tree(d, n, c) && forall i :: 0 <= i < c ==> Step(d', n, i) == Step(d, n, i)
  {
    var d' := SetWord(d, x, w, v);
    forall i | 0 <= i < c ensures Step(d, n, i) == Step(d', n, i) {
      if DIRECT_BOUND <= i < INDIRECT1_BOUND {
        SetWordGet(d, x, w, v, n.indirect1, i - DIRECT_BOUND);
      } else if INDIRECT1_BOUND <= i {
        var k := (i - INDIRECT1_BOUND) / 128;
        SetWordGet(d, x, w, v, n.indirect2, k);
        SetWordGet(d, x, w, v, GroupOf(d, n, i), (i - INDIRECT1_BOUND) % 128);
      }
    }
    SameSteps(d, n, d', n, c);
  }

  lemma GrowIndirect2(d: Volume, n: Node, c: nat, b: u32)
    requires INDIRECT1_BOUND <= c < MAX_BLOCKS
    requires NoDup(Tree(d, n, c) + IndexAt(d, n, c))
    ensures var d' := SetWord(d, GroupOf(d, n, c), (c - INDIRECT1_BOUND) % 128, b);
            && Tree(d', n, c) == Tree(d, n, c)
            && IndexAt(d', n, c) == IndexAt(d, n, c)
            && (forall i :: 0 <= i < c ==> Step(d', n, i) == Step(d, n, i))
            && Tree(d', n, c + 1) == Tree(d, n, c) + IndexAt(d, n, c) + [b]
  {
    hide Tree, NoDup, SetWord;
    var g, w := GroupOf(d, n, c), (c - INDIRECT1_BOUND) % 128;
    var d' := SetWord(d, g, w, b);
    GroupDistinct(d, n, c);
    WriteBeyond(d, n, c, g, w, b);
    StepLastIn(d, n, c, b);
    hide Step, IndexAt, GroupOf;
    TreeNext(d', n, c);
    assert Tree(d, n, c) + (IndexAt(d, n, c) + [b]) == Tree(d, n, c) + IndexAt(d, n, c) + [b];
  }

  lemma StepLastIn(d: Volume, n: Node, c: nat, b: u32)
    requires INDIRECT1_BOUND <= c < MAX_BLOCKS && GroupOf(d, n, c) != n.indirect2
    ensures var d' := SetWord(d, GroupOf(d, n, c), (c - INDIRECT1_BOUND) % 128, b);
            Step(d', n, c) == IndexAt(d, n, c) + [b] && IndexAt(d', n, c) == IndexAt(d, n, c)
  {
    hide SetWord, Word;
    var g, w := GroupOf(d, n, c), (c - INDIRECT1_BOUND) % 128;
    SetWordGet(d, g, w, b, n.indirect2, (c - INDIRECT1_BOUND) / 128);
    SetWordGet(d, g, w, b, g, w);
  }

  /** The first data block indexed by the block that indexes data block i. */
  function FirstOf(i: nat): (f: nat)
    requires INDIRECT1_BOUND <= i < MAX_BLOCKS
    ensures INDIRECT1_BOUND <= f <= i < f + 128
    ensures (f - INDIRECT1_BOUND) % 128 == 0 && (f - INDIRECT1_BOUND) / 128 == (i - INDIRECT1_BOUND) / 128
  {
    INDIRECT1_BOUND + (i - INDIRECT1_BOUND) / 128 * 128
  }

  lemma FirstOfApart(i: nat, c: nat)
    requires INDIRECT1_BOUND <= i < c < MAX_BLOCKS && (i - INDIRECT1_BOUND) % 128 == (c - INDIRECT1_BOUND) % 128
    ensures FirstOf(i) < FirstOf(c)
  {
  }

  lemma GroupInIndex(d: Volume, n: Node, i: nat)
    requires INDIRECT1_BOUND <= i < MAX_BLOCKS
    ensures GroupOf(d, n, i) in IndexAt(d, n, FirstOf(i))
  {
  }

  /** The block that will index data block c is none of the other index blocks, and an earlier data
      block it indexes sits at another position. */
  lemma GroupDistinct(d: Volume, n: Node, c: nat)
    requires INDIRECT1_BOUND <= c < MAX_BLOCKS
    requires NoDup(Tree(d, n, c) + IndexAt(d, n, c))
    ensures GroupOf(d, n, c) != n.indirect1 && GroupOf(d, n, c) != n.indirect2
    ensures forall i :: INDIRECT1_BOUND <= i < c && GroupOf(d, n, i) == GroupOf(d, n, c)
              ==> (c - INDIRECT1_BOUND) % 128 != (i - INDIRECT1_BOUND) % 128
  {
    NoDupConcat(Tree(d, n, c), IndexAt(d, n, c));
    GroupNotTop(d, n, c);
    forall i | INDIRECT1_BOUND <= i < c && (c - INDIRECT1_BOUND) % 128 == (i - INDIRECT1_BOUND) % 128
      ensures GroupOf(d, n, i) != GroupOf(d, n, c)
    {
      GroupsApart(d, n, c, i);
    }
  }

  lemma GroupsApart(d: Volume, n: Node, c: nat, i: nat)
    requires INDIRECT1_BOUND <= i < c < MAX_BLOCKS && (i - INDIRECT1_BOUND) % 128 == (c - INDIRECT1_BOUND) % 128
    requires NoDup(Tree(d, n, c)) && Disjoint(Tree(d, n, c), IndexAt(d, n, c))
    ensures GroupOf(d, n, i) != GroupOf(d, n, c)
  {
    FirstOfApart(i, c);
    IndexApart(d, n, c, FirstOf(i), FirstOf(c));
    GroupInIndex(d, n, i);
    GroupInIndex(d, n, c);
  }

  lemma GroupNotTop(d: Volume, n: Node, c: nat)
    requires INDIRECT1_BOUND <= c < MAX_BLOCKS
    requires NoDup(Tree(d, n, c)) && NoDup(IndexAt(d, n, c)) && Disjoint(Tree(d, n, c), IndexAt(d, n, c))
    ensures GroupOf(d, n, c) != n.indirect1 && GroupOf(d, n, c) != n.indirect2
  {
    GroupInIndex(d, n, c);
    IndexApart(d, n, c, DIRECT_BOUND, FirstOf(c));
    assert n.indirect1 in IndexAt(d, n, DIRECT_BOUND);
    if FirstOf(c) > INDIRECT1_BOUND {
      IndexApart(d, n, c, INDIRECT1_BOUND, FirstOf(c));
      assert n.indirect2 in IndexAt(d, n, INDIRECT1_BOUND);
    } else {
      IndexPair(d, n, c);
    }
  }

  /** Index blocks of different steps differ; the later step may be one whose index blocks are still pending. */
  lemma IndexApart(d: Volume, n: Node, c: nat, i: nat, j: nat)
    requires i < j <= c < MAX_BLOCKS
    requires NoDup(Tree(d, n, c)) && Disjoint(Tree(d, n, c), IndexAt(d, n, c))
    ensures Disjoint(IndexAt(d, n, i), IndexAt(d, n, j))
  {
    if j < c {
      StepsDisjoint(d, n, c, i, j);
      DisjointHeads(IndexAt(d, n, i), [BlockAt(d, n, i)], IndexAt(d, n, j), [BlockAt(d, n, j)]);
    } else {
      TreeAt(d, n, i, c);
      DisjointSub(IndexAt(d, n, i), [BlockAt(d, n, i)], Tree(d, n, c), IndexAt(d, n, j));
    }
  }

  lemma IndexPair(d: Volume, n: Node, c: nat)
    requires INDIRECT1_BOUND <= c < MAX_BLOCKS
    requires NoDup(Tree(d, n, c)) && NoDup(IndexAt(d, n, c))
    ensures GroupOf(d, n, INDIRECT1_BOUND) != n.indirect2
  {
    var s := IndexAt(d, n, INDIRECT1_BOUND);
    assert s == [n.indirect2, GroupOf(d, n, INDIRECT1_BOUND)];
    if c > INDIRECT1_BOUND {
      StepNoDup(d, n, c, INDIRECT1_BOUND);
      var t := Step(d, n, INDIRECT1_BOUND);
      assert t[0] == s[0] && t[1] == s[1];
    } else {
      assert s[0] != s[1];
    }
  }

  /** Hooking a fresh block g into the double-indirect block, just before the first data block it indexes. */
  lemma HookGroup(d: Volume, n: Node, c: nat, g: u32)
    requires INDIRECT1_BOUND <= c < MAX_BLOCKS && (c - INDIRECT1_BOUND) % 128 == 0
    requires NoDup(Tree(d, n, c)) && (c == INDIRECT1_BOUND ==> n.indirect2 !in Tree(d, n, c))
    ensures var d' := SetWord(d, n.indirect2, (c - INDIRECT1_BOUND) / 128, g);
            && Tree(d', n, c) == Tree(d, n, c)
            && (forall i :: 0 <= i < c ==> Step(d', n, i) == Step(d, n, i))
            && IndexAt(d', n, c) == (if c == INDIRECT1_BOUND then [n.indirect2] else []) + [g]
  {
    var k := (c - INDIRECT1_BOUND) / 128;
    DoubleDistinct(d, n, c);
    WriteBeyond(d, n, c, n.indirect2, k, g);
    SetWordGet(d, n.indirect2, k, g, n.indirect2, k);
  }

  lemma DoubleDistinct(d: Volume, n: Node, c: nat)
    requires INDIRECT1_BOUND <= c < MAX_BLOCKS
    requires NoDup(Tree(d, n, c)) && (c == INDIRECT1_BOUND ==> n.indirect2 !in Tree(d, n, c))
    ensures n.indirect1 != n.indirect2
    ensures forall i :: INDIRECT1_BOUND <= i < c ==> GroupOf(d, n, i) != n.indirect2
  {
    assert n.indirect1 in Step(d, n, DIRECT_BOUND);
    TreeAt(d, n, DIRECT_BOUND, c);
    if c > INDIRECT1_BOUND {
      assert n.indirect2 in Step(d, n, INDIRECT1_BOUND);
      StepsDisjoint(d, n, c, DIRECT_BOUND, INDIRECT1_BOUND);
      forall i | INDIRECT1_BOUND <= i < c ensures GroupOf(d, n, i) != n.indirect2 { GroupNotDouble(d, n, c, i); }
    }
  }

  lemma GroupNotDouble(d: Volume, n: Node, c: nat, i: nat)
    requires INDIRECT1_BOUND <= i < c <= MAX_BLOCKS && NoDup(Tree(d, n, c))
    ensures GroupOf(d, n, i) != n.indirect2
  {
    GroupInIndex(d, n, i);
    assert GroupOf(d, n, i) in Step(d, n, FirstOf(i));
    if FirstOf(i) > INDIRECT1_BOUND {
      assert n.indirect2 in Step(d, n, INDIRECT1_BOUND);
      StepsDisjoint(d, n, c, INDIRECT1_BOUND, FirstOf(i));
    } else {
      StepNoDup(d, n, c, INDIRECT1_BOUND);
      var t := Step(d, n, INDIRECT1_BOUND);
      assert t[0] == n.indirect2 && t[1] == GroupOf(d, n, i);
    }
  }
}
