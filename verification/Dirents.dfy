/** Directory entries: 28 bytes of NUL-padded name and a little-endian inode number (easy-fs/src/layout.rs:448-496). */
module Dirents {
  import opened Basics
  import opened Contents

  const NAME_LENGTH_LIMIT := 27
  const DIRENT_SZ := 32

  type Name = seq<byte>

  datatype Dirent = Dirent(name: Name, inum: u32)

  /** `DirEntry::new(name, inum).as_bytes()`; longer names fail the source's assertion. */
  function Encode(e: Dirent): (s: seq<byte>)
    requires |e.name| <= NAME_LENGTH_LIMIT
    ensures |s| == DIRENT_SZ
  {
    e.name + Fill<byte>(0, 28 - |e.name|)
    + [e.inum % 0x100, e.inum / 0x100 % 0x100, e.inum / 0x1_0000 % 0x100, e.inum / 0x100_0000]
  }

  /** Where the name, its padding and the bytes of the number lie. */
  lemma EncodeBytes(e: Dirent)
    requires |e.name| <= NAME_LENGTH_LIMIT
    ensures var s := Encode(e);
            && s[..|e.name|] == e.name && (forall i :: |e.name| <= i < 28 ==> s[i] == 0)
            && s[28] == e.inum % 0x100 && s[29] == e.inum / 0x100 % 0x100
            && s[30] == e.inum / 0x1_0000 % 0x100 && s[31] == e.inum / 0x100_0000
  {
  }

  /** Position of the first NUL, or the length if there is none. */
  function NulAt(s: seq<byte>): (k: nat)
    ensures k <= |s| && (k < |s| ==> s[k] == 0) && forall j :: 0 <= j < k ==> s[j] != 0
  {
    if s == [] then 0
    else if s[0] == 0 then 0
    else
      var k := NulAt(s[1..]);
      assert forall j :: 1 <= j < k + 1 ==> s[j] == s[1..][j - 1];
      k + 1
  }

  /** The name field is terminated, so `name()` does not fail. */
  ghost predicate Terminated(s: seq<byte>)
    requires |s| == DIRENT_SZ
  {
    NulAt(s[..28]) < 28
  }

  function DecodeName(s: seq<byte>): Name
    requires |s| == DIRENT_SZ
  {
    s[..NulAt(s[..28])]
  }

  function DecodeInum(s: seq<byte>): u32
    requires |s| == DIRENT_SZ
  {
    s[28] as int + 0x100 * s[29] as int + 0x1_0000 * s[30] as int + 0x100_0000 * s[31] as int
  }

  function Decode(s: seq<byte>): Dirent
    requires |s| == DIRENT_SZ
  {
    Dirent(DecodeName(s), DecodeInum(s))
  }

  ghost predicate NulFree(name: Name) {
    forall i :: 0 <= i < |name| ==> name[i] != 0
  }

  lemma NulAtUnique(s: seq<byte>, k: nat)
    requires k <= |s| && (k < |s| ==> s[k] == 0) && forall j :: 0 <= j < k ==> s[j] != 0
    ensures NulAt(s) == k
  {
    var m := NulAt(s);
  }

  /** An entry reads back as it was written exactly when its name has no NUL; it is always terminated. */
  lemma EncodeDecode(e: Dirent)
    requires |e.name| <= NAME_LENGTH_LIMIT
    ensures Terminated(Encode(e)) && DecodeInum(Encode(e)) == e.inum
    ensures Decode(Encode(e)) == e <==> NulFree(e.name)
    ensures DecodeName(Encode(e)) == e.name[..NulAt(e.name)]
  {
    var s := Encode(e);
    var t := s[..28];
    var k := NulAt(e.name);
    assert t == e.name + Fill<byte>(0, 28 - |e.name|);
    assert t[|e.name|] == 0;
    assert forall j :: 0 <= j < |e.name| ==> t[j] == e.name[j];
    NulAtUnique(t, k);
    assert s[..k] == e.name[..k];
    Digits(e.inum);
    assert s[28..] == [e.inum % 0x100, e.inum / 0x100 % 0x100, e.inum / 0x1_0000 % 0x100, e.inum / 0x100_0000];
    assert s[28] == s[28..][0] && s[29] == s[28..][1] && s[30] == s[28..][2] && s[31] == s[28..][3];
    if NulFree(e.name) { assert k == |e.name|; assert e.name[..k] == e.name; }
  }

  /** The i-th 32-byte record of a directory. */
  function Chunk(s: seq<byte>, i: nat): (c: seq<byte>)
    requires DIRENT_SZ * i + DIRENT_SZ <= |s|
    ensures |c| == DIRENT_SZ
  {
    s[DIRENT_SZ * i..DIRENT_SZ * i + DIRENT_SZ]
  }

  /** A directory as a list of entries. */
  function Entries(s: seq<byte>): (es: seq<Dirent>)
    ensures |es| == |s| / DIRENT_SZ
  {
    seq(|s| / DIRENT_SZ, i requires 0 <= i < |s| / DIRENT_SZ => Decode(Chunk(s, i)))
  }

  /** The bytes make a directory: whole records, every name terminated. */
  ghost predicate WellFormed(s: seq<byte>) {
    |s| % DIRENT_SZ == 0 && forall i: nat :: i < |s| / DIRENT_SZ ==> Terminated(Chunk(s, i))
  }

  lemma ChunkIsSlice(s: seq<byte>, i: nat)
    requires i < |s| / DIRENT_SZ
    ensures Slice(s, DIRENT_SZ * i, DIRENT_SZ) == Chunk(s, i)
  {
  }

  /** Writing one record at the end adds one entry at the end. */
  lemma AppendEntry(s: seq<byte>, e: Dirent)
    requires |s| % DIRENT_SZ == 0 && |e.name| <= NAME_LENGTH_LIMIT
    ensures Splice(s, |s|, Encode(e)) == s + Encode(e)
    ensures Entries(s + Encode(e)) == Entries(s) + [Decode(Encode(e))]
    ensures WellFormed(s) ==> WellFormed(s + Encode(e))
  {
    hide Encode, Decode, Terminated, NulAt;
    var c := Encode(e);
    var t, n := s + c, |s| / DIRENT_SZ;
    var base := s + Fill<byte>(0, |c|);
    assert base[..|s|] == s && base[|s| + |c|..] == [];
    forall i: nat | i < n ensures Chunk(t, i) == Chunk(s, i) { }
    assert Chunk(t, n) == c;
    EncodeDecode(e);
  }

  /** Removing entry i by moving the last record over it and cutting one record off the end. */
  function SwapRemove(s: seq<byte>, i: nat): (t: seq<byte>)
    requires |s| % DIRENT_SZ == 0 && i < |s| / DIRENT_SZ
  {
    var n := |s| / DIRENT_SZ;
    Splice(s, DIRENT_SZ * i, Chunk(s, n - 1))[..|s| - DIRENT_SZ]
  }

  function EntriesSwapRemove(es: seq<Dirent>, i: nat): (fs: seq<Dirent>)
    requires i < |es|
    ensures |fs| == |es| - 1
  {
    es[i := es[|es| - 1]][..|es| - 1]
  }

  lemma SwapRemoveEntries(s: seq<byte>, i: nat)
    requires |s| % DIRENT_SZ == 0 && i < |s| / DIRENT_SZ
    ensures Entries(SwapRemove(s, i)) == EntriesSwapRemove(Entries(s), i)
    ensures WellFormed(s) ==> WellFormed(SwapRemove(s, i))
  {
    hide Decode, Terminated, NulAt;
    var n := |s| / DIRENT_SZ;
    var last := Chunk(s, n - 1);
    var t := SwapRemove(s, i);
    forall j: nat | j < n - 1 ensures Chunk(t, j) == if j == i then last else Chunk(s, j) {
      SwapChunk(s, i, j);
    }
    assert |t| / DIRENT_SZ == n - 1;
  }

  lemma SwapChunk(s: seq<byte>, i: nat, j: nat)
    requires |s| % DIRENT_SZ == 0 && i < |s| / DIRENT_SZ && j < |s| / DIRENT_SZ - 1
    ensures Chunk(SwapRemove(s, i), j) == if j == i then Chunk(s, |s| / DIRENT_SZ - 1) else Chunk(s, j)
  {
    hide Splice;
    var n := |s| / DIRENT_SZ;
    var last := Chunk(s, n - 1);
    var u := Splice(s, DIRENT_SZ * i, last);
    var want := if j == i then last else Chunk(s, j);
    assert DIRENT_SZ * j + DIRENT_SZ <= |s| - DIRENT_SZ;
    var t := u[..|s| - DIRENT_SZ];
    forall k | 0 <= k < DIRENT_SZ ensures t[DIRENT_SZ * j..DIRENT_SZ * j + DIRENT_SZ][k] == want[k] {
      SpliceAt(s, DIRENT_SZ * i, last, DIRENT_SZ * j + k);
    }
  }

  /** First entry with the given name: the scan of `find_inode_id` and `unlink`. */
  function FindName(es: seq<Dirent>, name: Name): (k: nat)
    ensures k <= |es|
    ensures k < |es| ==> es[k].name == name
    ensures forall j :: 0 <= j < k ==> es[j].name != name
  {
    if es == [] then 0
    else if es[0].name == name then 0
    else
      var k := FindName(es[1..], name);
      assert forall j :: 1 <= j < k + 1 ==> es[j] == es[1..][j - 1];
      k + 1
  }
}
