/** The byte view of an inode: what its data blocks hold, and what writing one of them does to it. */
module Contents {
  import opened Basics
  import opened Disk
  import opened BlockTree
  import opened Growth

  function ByteAt(d: Volume, n: Node, p: nat): byte {
    BytesOf(d, BlockAt(d, n, p / BLOCK_SZ))[p % BLOCK_SZ]
  }

  /** The file as a flat byte sequence. */
  function Content(d: Volume, n: Node): (s: seq<byte>)
    ensures |s| == n.size
  {
    seq(n.size, p requires 0 <= p < n.size => ByteAt(d, n, p))
  }

  /** Bytes the allocated blocks have room for. */
  function Capacity(n: Node): nat {
    BLOCK_SZ * DataBlocks(n.size)
  }

  /** Beyond its end the last block of a file holds zeros. */
  ghost predicate TailZero(d: Volume, n: Node) {
    forall p: nat :: n.size <= p < Capacity(n) ==> ByteAt(d, n, p) == 0
  }

  ghost predicate IsData(d: Volume, n: Node, c: nat, b: nat) {
    exists i: nat :: i < c && BlockAt(d, n, i) == b
  }

  /** The bytes of s from `off`, at most `len` of them. */
  function Slice(s: seq<byte>, off: nat, len: nat): seq<byte> {
    var end := Min(off + len, |s|);
    if off >= end then [] else s[off..end]
  }

  /** Which bytes those are. */
  lemma SliceIs(s: seq<byte>, off: nat, len: nat)
    ensures |Slice(s, off, len)| == if off >= |s| then 0 else Min(off + len, |s|) - off
    ensures forall i :: 0 <= i < |Slice(s, off, len)| ==> Slice(s, off, len)[i] == s[off + i]
  {
  }

  /** s with buf written at `off`; a gap between the end of s and `off` is filled with zeros. */
  function Splice(s: seq<byte>, off: nat, buf: seq<byte>): (r: seq<byte>)
    ensures |r| == if off + |buf| <= |s| then |s| else off + |buf|
  {
    var base := if off + |buf| <= |s| then s else s + Fill<byte>(0, off + |buf| - |s|);
    base[..off] + buf + base[off + |buf|..]
  }

  lemma SpliceAt(s: seq<byte>, off: nat, buf: seq<byte>, p: nat)
    requires p < |Splice(s, off, buf)|
    ensures Splice(s, off, buf)[p] == if off <= p < off + |buf| then buf[p - off] else if p < |s| then s[p] else 0
  {
  }

  /** What any read sees after a write: the bytes written where the two overlap, else the old ones, else zeros. */
  lemma ReadAfterWrite(s: seq<byte>, off: nat, buf: seq<byte>, at: nat, len: nat)
    requires buf != []
    ensures var n, r := if off + |buf| <= |s| then |s| else off + |buf|, Slice(Splice(s, off, buf), at, len);
            && |r| == (if at >= n then 0 else Min(at + len, n) - at)
            && forall i :: 0 <= i < |r| ==>
                 r[i] == if off <= at + i < off + |buf| then buf[at + i - off]
                         else if at + i < |s| then s[at + i] else 0
  {
    hide Slice, Splice;
    var t := Splice(s, off, buf);
    var r := Slice(t, at, len);
    SliceIs(t, at, len);
    forall i | 0 <= i < |r|
      ensures r[i] == if off <= at + i < off + |buf| then buf[at + i - off] else if at + i < |s| then s[at + i] else 0
    {
      SpliceAt(s, off, buf, at + i);
    }
  }

  /** What was written reads back. */
  lemma ReadBack(s: seq<byte>, off: nat, buf: seq<byte>)
    requires buf != []
    ensures Slice(Splice(s, off, buf), off, |buf|) == buf
  {
    hide Slice, Splice;
    ReadAfterWrite(s, off, buf, off, |buf|);
  }

  /** Overwriting a data block changes its bytes of the file and nothing else. */
  lemma WriteData(d: Volume, n: Node, c: nat, i: nat, bytes: Bytes)
    requires i < c <= MAX_BLOCKS && NoDup(Tree(d, n, c))
    ensures var d' := d[BlockAt(d, n, i) := Data(bytes)];
            && Tree(d', n, c) == Tree(d, n, c)
            && (forall j: nat :: j < c ==> BlockAt(d', n, j) == BlockAt(d, n, j))
            && (forall b :: IsIndex(d', n, c, b) <==> IsIndex(d, n, c, b))
            && (forall p: nat :: p < BLOCK_SZ * c ==>
                  ByteAt(d', n, p) == if p / BLOCK_SZ == i then bytes[p % BLOCK_SZ] else ByteAt(d, n, p))
  {
    hide GetU32, PutU32, Tree, IndexAt;
    var b := BlockAt(d, n, i);
    var d' := d[b := Data(bytes)];
    DataNotIndex(d, n, c, i);
    IndexFrame(d, n, d', n, c);
    forall p: nat | p < BLOCK_SZ * c
      ensures ByteAt(d', n, p) == if p / BLOCK_SZ == i then bytes[p % BLOCK_SZ] else ByteAt(d, n, p)
    {
      ByteAfter(d, n, c, i, bytes, p);
    }
  }

  lemma ByteAfter(d: Volume, n: Node, c: nat, i: nat, bytes: Bytes, p: nat)
    requires i < c <= MAX_BLOCKS && NoDup(Tree(d, n, c)) && p < BLOCK_SZ * c
    requires var d' := d[BlockAt(d, n, i) := Data(bytes)]; BlockAt(d', n, p / BLOCK_SZ) == BlockAt(d, n, p / BLOCK_SZ)
    ensures var d' := d[BlockAt(d, n, i) := Data(bytes)];
            ByteAt(d', n, p) == if p / BLOCK_SZ == i then bytes[p % BLOCK_SZ] else ByteAt(d, n, p)
  {
    hide GetU32, PutU32, Tree, IndexAt, BlockAt;
    var j := p / BLOCK_SZ;
    assert j < c;
    DataDistinct(d, n, c, i, j);
  }

  /** What an inode reads as depends only on the blocks of its tree. */
  lemma ContentFrame(d: Volume, d': Volume, n: Node, n': Node)
    requires SamePointers(n, n') && n.size == n'.size <= MAX_SIZE
    requires forall b :: b in Blocks(d, n) ==> BytesOf(d, b) == BytesOf(d', b)
    ensures Blocks(d', n') == Blocks(d, n)
    ensures forall p: nat :: p < Capacity(n) ==> ByteAt(d', n', p) == ByteAt(d, n, p)
    ensures Content(d', n') == Content(d, n)
    ensures TailZero(d', n') <==> TailZero(d, n)
  {
    hide GetU32, PutU32, IndexAt, BlockAt, Tree, SamePointers;
    var c := DataBlocks(n.size);
    forall b | IsIndex(d, n, c, b) ensures BytesOf(d, b) == BytesOf(d', b) { IndexInTree(d, n, c, b); }
    IndexFrame(d, n, d', n', c);
    forall p: nat | p < Capacity(n) ensures ByteAt(d', n', p) == ByteAt(d, n, p) {
      InBlocks(d, n, c, p / BLOCK_SZ);
    }
    assert Content(d', n') == Content(d, n);
  }

  lemma InBlocks(d: Volume, n: Node, c: nat, i: nat)
    requires i < c
    ensures BlockAt(d, n, i) in Tree(d, n, c)
  {
    TreeAt(d, n, i, c);
    assert BlockAt(d, n, i) in Step(d, n, i);
  }

  /** Growing an inode keeps every byte it had room for, and the new blocks show what they held. */
  lemma GrowContent(d: Volume, n: Node, d': Volume, n': Node)
    requires n.size <= n'.size <= MAX_SIZE && d'.Keys == d.Keys
    requires Blocks(d, n) <= Blocks(d', n') && NoDup(Blocks(d', n'))
    requires forall b :: Changed(d, d', b) ==> IsIndex(d', n', DataBlocks(n'.size), b)
    requires forall b :: Changed(d, d', b) ==> d[b].Data? && d'[b].Data?
    ensures forall p: nat :: p < Capacity(n) ==> ByteAt(d', n', p) == ByteAt(d, n, p)
    ensures forall p: nat :: p < Capacity(n') ==>
              BytesOf(d', BlockAt(d', n', p / BLOCK_SZ)) == BytesOf(d, BlockAt(d', n', p / BLOCK_SZ))
  {
    hide GetU32, PutU32, IndexAt, Tree, BlockAt;
    var c, c' := DataBlocks(n.size), DataBlocks(n'.size);
    forall p: nat | p < Capacity(n')
      ensures BytesOf(d', BlockAt(d', n', p / BLOCK_SZ)) == BytesOf(d, BlockAt(d', n', p / BLOCK_SZ))
    {
      var b := BlockAt(d', n', p / BLOCK_SZ);
      DataNotIndex(d', n', c', p / BLOCK_SZ);
      assert !Changed(d, d', b);
    }
    forall p: nat | p < Capacity(n) ensures ByteAt(d', n', p) == ByteAt(d, n, p) {
      SamePosition(d, n, d', n', p / BLOCK_SZ);
    }
  }

  lemma SamePosition(d: Volume, n: Node, d': Volume, n': Node, i: nat)
    requires i < DataBlocks(n.size) <= DataBlocks(n'.size) <= MAX_BLOCKS && Blocks(d, n) <= Blocks(d', n')
    ensures BlockAt(d', n', i) == BlockAt(d, n, i)
  {
    hide Tree, BlockAt;
    TreePosition(d, n, i, DataBlocks(n.size));
    TreePosition(d', n', i, DataBlocks(n'.size));
    TotalMonotone(i, i + 1);
    var k := Total(i + 1) - 1;
    assert Blocks(d, n)[k] == Blocks(d', n')[k];
  }

  /** A data block of the grown part was in the supply. */
  lemma NewPosition(d: Volume, n: Node, d': Volume, n': Node, i: nat, nb: seq<u32>)
    requires DataBlocks(n.size) <= i < DataBlocks(n'.size) <= MAX_BLOCKS && Blocks(d', n') == Blocks(d, n) + nb
    ensures BlockAt(d', n', i) in nb
  {
    hide Tree, BlockAt;
    var c, c' := DataBlocks(n.size), DataBlocks(n'.size);
    TreePosition(d', n', i, c');
    TreeLength(d, n, c);
    TotalMonotone(c, i);
    TotalMonotone(i, i + 1);
    var k := Total(i + 1) - 1;
    assert Blocks(d', n')[k] == nb[k - |Blocks(d, n)|];
  }
}
