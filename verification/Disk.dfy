/** The block device of easy-fs as typed 512-byte blocks.  The source casts a cached block to the structure it expects
    there.  Which structure that is depends only on the region the block lies in, so a block is modelled by its typed
    view: super block, bitmap words, four disk inodes, or 512 raw bytes.  Raw blocks hold file bytes and index blocks
    alike; the latter are read as 128 little-endian words. */
module Disk {
  import opened Basics

  const BLOCK_SZ := 512
  const INODE_DIRECT_COUNT := 26
  const INODE_INDIRECT1_COUNT := 128
  const INODE_INDIRECT2_COUNT := 16384
  const DIRECT_BOUND := 26
  const INDIRECT1_BOUND := 154
  const INODES_PER_BLOCK := 4
  const BLOCK_BITS := 4096

  /** Data blocks an inode can address, and the file size that gives. */
  const MAX_BLOCKS := 16538
  const MAX_SIZE := 8467456

  type Bytes = s: seq<byte> | |s| == 512 witness Fill<byte>(0, 512)
  type Direct = s: seq<u32> | |s| == 26 witness Fill<u32>(0, 26)

  datatype Kind = File | Directory

  datatype Node = Node(size: u32, nlink: u32, direct: Direct, indirect1: u32, indirect2: u32, kind: Kind)

  /** One bitmap block: 64 words of 64 bits, lowest bit first. */
  type Word64 = s: seq<bool> | |s| == 64 witness Fill(false, 64)
  type BitmapBlock = s: seq<Word64> | |s| == 64 witness Fill(Fill(false, 64), 64)
  type InodeBlock = s: seq<Node> | |s| == 4 witness Fill(ZeroNode(), 4)

  /** All-zero contents, as each typed view reads them. */
  function ZeroBytes(): Bytes {
    Fill<byte>(0, 512)
  }

  function ZeroNode(): Node {
    Node(0, 0, Fill<u32>(0, 26), 0, 0, File)
  }

  datatype Block =
    | Super(magic: u32, totalBlocks: u32, inodeBitmapBlocks: u32, inodeAreaBlocks: u32,
            dataBitmapBlocks: u32, dataAreaBlocks: u32)
    | Bitmap(words: BitmapBlock)
    | Inodes(nodes: InodeBlock)
    | Data(bytes: Bytes)

  type Volume = map<nat, Block>

  /** The raw bytes of block b. */
  function BytesOf(d: Volume, b: nat): Bytes {
    if b in d && d[b].Data? then d[b].bytes else ZeroBytes()
  }

  /** The little-endian word i of a block. */
  function GetU32(s: Bytes, i: nat): u32
    requires i < 128
  {
    s[4 * i] as int + 0x100 * s[4 * i + 1] as int + 0x1_0000 * s[4 * i + 2] as int + 0x100_0000 * s[4 * i + 3] as int
  }

  function PutU32(s: Bytes, i: nat, v: u32): Bytes
    requires i < 128
  {
    var t := s[4 * i := v % 0x100][4 * i + 1 := v / 0x100 % 0x100];
    t[4 * i + 2 := v / 0x1_0000 % 0x100][4 * i + 3 := v / 0x100_0000]
  }

  /** Storing a word changes that word and no other. */
  lemma PutGet(s: Bytes, i: nat, v: u32, j: nat)
    requires i < 128 && j < 128
    ensures GetU32(PutU32(s, i, v), j) == if i == j then v else GetU32(s, j)
  {
    var t := PutU32(s, i, v);
    if i == j {
      assert t[4 * i] == v % 0x100 && t[4 * i + 1] == v / 0x100 % 0x100;
      assert t[4 * i + 2] == v / 0x1_0000 % 0x100 && t[4 * i + 3] == v / 0x100_0000;
      Digits(v);
    } else {
      assert forall k :: 4 * j <= k < 4 * j + 4 ==> t[k] == s[k];
    }
  }

  /** Word i of index block b. */
  function Word(d: Volume, b: nat, i: nat): u32 {
    if i < 128 then GetU32(BytesOf(d, b), i) else 0
  }

  function SetWord(d: Volume, b: nat, i: nat, v: u32): Volume
    requires i < 128
  {
    d[b := Data(PutU32(BytesOf(d, b), i, v))]
  }

  lemma SetWordGet(d: Volume, b: nat, i: nat, v: u32, b': nat, j: nat)
    requires i < 128
    ensures Word(SetWord(d, b, i, v), b', j) == if b == b' && i == j then v else Word(d, b', j)
  {
    if j < 128 { PutGet(BytesOf(d, b), i, v, j); }
  }
}
