/** What a volume shows: one record per allocated inode.  The operations of easy-fs/src/vfs.rs as functions on it. */
module FileTable {
  import opened Basics
  import opened Disk
  import opened Contents
  import opened Dirents

  datatype INode = INode(kind: Kind, nlink: u32, content: seq<byte>)

  type Table = seq<INode>

  function EntriesOf(a: Table, k: nat): seq<Dirent>
    requires k < |a|
  {
    Entries(a[k].content)
  }

  /** Directories hold whole, terminated records that name allocated inodes. */
  ghost predicate DirOk(a: Table, k: nat)
    requires k < |a|
  {
    a[k].kind == Directory ==>
      WellFormed(a[k].content) && forall i :: 0 <= i < |EntriesOf(a, k)| ==> EntriesOf(a, k)[i].inum < |a|
  }

  ghost predicate TableOk(a: Table) {
    forall k: nat :: k < |a| ==> DirOk(a, k)
  }

  /** `find_inode_id`. */
  function Lookup(a: Table, k: nat, name: Name): Option<u32>
    requires k < |a|
  {
    var es := EntriesOf(a, k);
    var i := FindName(es, name);
    if i < |es| then Some(es[i].inum) else None
  }

  function WriteFile(a: Table, k: nat, off: nat, buf: seq<byte>): Table
    requires k < |a|
  {
    a[k := a[k].(content := Splice(a[k].content, off, buf))]
  }

  /** Byte by byte. */
  lemma WriteBytes(a: Table, k: nat, off: nat, buf: seq<byte>)
    requires k < |a|
    ensures var b := WriteFile(a, k, off, buf);
            && |b| == |a| && b[k].kind == a[k].kind && b[k].nlink == a[k].nlink
            && (forall l :: 0 <= l < |a| && l != k ==> b[l] == a[l])
            && var s, t := a[k].content, b[k].content;
            && |t| == (if off + |buf| <= |s| then |s| else off + |buf|)
            && forall p :: 0 <= p < |t| ==>
                 t[p] == if off <= p < off + |buf| then buf[p - off] else if p < |s| then s[p] else 0
  {
    hide Splice;
    var s, t := a[k].content, WriteFile(a, k, off, buf)[k].content;
    forall p | 0 <= p < |t|
      ensures t[p] == if off <= p < off + |buf| then buf[p - off] else if p < |s| then s[p] else 0
    {
      SpliceAt(s, off, buf, p);
    }
  }

  function ClearFile(a: Table, k: nat): Table
    requires k < |a|
  {
    a[k := a[k].(content := [])]
  }

  function AddEntry(a: Table, k: nat, e: Dirent): Table
    requires k < |a| && |e.name| <= NAME_LENGTH_LIMIT
  {
    a[k := a[k].(content := a[k].content + Encode(e))]
  }

  const DOT: Name := [46]
  const DOT_DOT: Name := [46, 46]

  /** What `initialize_dir` writes. */
  function DotEntries(self: u32, parent: u32): (s: seq<byte>)
    ensures |s| == 2 * DIRENT_SZ
  {
    Encode(Dirent(DOT, self)) + Encode(Dirent(DOT_DOT, parent))
  }

  /** A new inode of the given kind is linked into directory k under `name`. */
  function Create(a: Table, k: nat, name: Name, kind: Kind): Table
    requires k < |a| < 0x1_0000_0000 && |name| <= NAME_LENGTH_LIMIT
  {
    AddEntry(a, k, Dirent(name, |a|)) + [INode(kind, 1, if kind == Directory then DotEntries(|a|, k) else [])]
  }

  /** nlink is a u32: it wraps. */
  function Bump(a: Table, k: nat): Table
    requires k < |a|
  {
    a[k := a[k].(nlink := (a[k].nlink as int + 1) % 0x1_0000_0000)]
  }

  function Drop(a: Table, k: nat): Table
    requires k < |a|
  {
    var n := if a[k].nlink == 0 then 0xFFFF_FFFF else a[k].nlink - 1;
    a[k := a[k].(nlink := n, content := if n == 0 then [] else a[k].content)]
  }

  function Link(a: Table, k: nat, name: Name, src: nat): Table
    requires k < |a| && src < |a| && src < 0x1_0000_0000 && |name| <= NAME_LENGTH_LIMIT
  {
    Bump(AddEntry(a, k, Dirent(name, src)), src)
  }

  /** Entry i of directory k goes, and with it one link of the inode it names. */
  function Unlink(a: Table, k: nat, i: nat): Table
    requires k < |a| && |a[k].content| % DIRENT_SZ == 0 && i < |EntriesOf(a, k)| && EntriesOf(a, k)[i].inum < |a|
  {
    Drop(a[k := a[k].(content := SwapRemove(a[k].content, i))], EntriesOf(a, k)[i].inum)
  }

  // ---- the table stays well formed ----

  lemma KeepDir(a: Table, b: Table, k: nat)
    requires k < |a| <= |b| && DirOk(a, k) && b[k].kind == a[k].kind && b[k].content == a[k].content
    ensures DirOk(b, k)
  {
    hide Entries, WellFormed;
    assert EntriesOf(b, k) == EntriesOf(a, k);
  }

  lemma AddEntryOk(a: Table, k: nat, e: Dirent, n: nat)
    requires k < |a| <= n && DirOk(a, k) && a[k].kind == Directory && |e.name| <= NAME_LENGTH_LIMIT && e.inum < n
    ensures var s := a[k].content + Encode(e);
            WellFormed(s) && Entries(s) == EntriesOf(a, k) + [Decode(Encode(e))] && Decode(Encode(e)).inum == e.inum
  {
    hide Encode, Decode, WellFormed, Entries;
    assert |a[k].content| % DIRENT_SZ == 0 by { WholeRecords(a[k].content); }
    AppendEntry(a[k].content, e);
    assert Decode(Encode(e)).inum == e.inum by { InumOf(e); }
  }

  lemma WholeRecords(s: seq<byte>)
    requires WellFormed(s)
    ensures |s| % DIRENT_SZ == 0
  {
  }

  lemma InumOf(e: Dirent)
    requires |e.name| <= NAME_LENGTH_LIMIT
    ensures Decode(Encode(e)).inum == e.inum
  {
    EncodeDecode(e);
  }

  lemma DotsOk(self: u32, parent: u32)
    ensures var s := DotEntries(self, parent);
            WellFormed(s) && Entries(s) == [Dirent(DOT, self), Dirent(DOT_DOT, parent)]
  {
    hide Encode, Decode, WellFormed, Entries;
    var e, f := Dirent(DOT, self), Dirent(DOT_DOT, parent);
    EmptyDir();
    assert [] + Encode(e) == Encode(e);
    AppendEntry([], e);
    assert WellFormed(Encode(e)) && Entries(Encode(e)) == [Decode(Encode(e))];
    AppendEntry(Encode(e), f);
    EncodeDecode(e);
    EncodeDecode(f);
  }

  lemma EmptyDir()
    ensures WellFormed([]) && Entries([]) == []
  {
  }

  lemma CreateOk(a: Table, k: nat, name: Name, kind: Kind)
    requires TableOk(a) && k < |a| < 0x1_0000_0000 && a[k].kind == Directory && |name| <= NAME_LENGTH_LIMIT
    ensures TableOk(Create(a, k, name, kind))
    ensures EntriesOf(Create(a, k, name, kind), k) == EntriesOf(a, k) + [Decode(Encode(Dirent(name, |a|)))]
  {
    hide Encode, Decode, WellFormed, Entries, DotEntries;
    var b := Create(a, k, name, kind);
    AddEntryOk(a, k, Dirent(name, |a|), |a| + 1);
    forall l: nat | l < |b| ensures DirOk(b, l) {
      if l == |a| {
        DotsOk(|a|, k);
      } else if l != k {
        KeepDir(a, b, l);
      }
    }
  }

  lemma LinkOk(a: Table, k: nat, name: Name, src: nat)
    requires TableOk(a) && k < |a| && src < |a| && src < 0x1_0000_0000 && a[k].kind == Directory
    requires |name| <= NAME_LENGTH_LIMIT
    ensures TableOk(Link(a, k, name, src))
    ensures EntriesOf(Link(a, k, name, src), k) == EntriesOf(a, k) + [Decode(Encode(Dirent(name, src)))]
  {
    hide Encode, Decode, WellFormed, Entries;
    var b := Link(a, k, name, src);
    AddEntryOk(a, k, Dirent(name, src), |a|);
    forall l: nat | l < |b| ensures DirOk(b, l) { if l != k { KeepDir(a, b, l); } }
  }

  lemma UnlinkOk(a: Table, k: nat, i: nat)
    requires TableOk(a) && k < |a| && a[k].kind == Directory && |a[k].content| % DIRENT_SZ == 0
    requires i < |EntriesOf(a, k)| && EntriesOf(a, k)[i].inum < |a|
    ensures TableOk(Unlink(a, k, i))
    ensures var b, t := Unlink(a, k, i), EntriesOf(a, k)[i].inum;
            b[k].content != [] || t != k ==> EntriesOf(b, k) == EntriesSwapRemove(EntriesOf(a, k), i)
  {
    hide WellFormed, Entries, SwapRemove;
    var b := Unlink(a, k, i);
    SwapRemoveEntries(a[k].content, i);
    EmptyDir();
    var es := EntriesOf(a, k);
    var fs := EntriesSwapRemove(es, i);
    assert DirOk(a, k);
    forall j | 0 <= j < |fs| ensures fs[j].inum < |a| { assert fs[j] == es[if j == i then |es| - 1 else j]; }
    forall l: nat | l < |b| ensures DirOk(b, l) {
      if b[l].content == [] {
      } else if l == k {
        assert EntriesOf(b, k) == fs;
      } else {
        KeepDir(a, b, l);
      }
    }
  }

  lemma OneFileOk(a: Table, k: nat, x: INode)
    requires TableOk(a) && k < |a| && (x.kind == File || x.content == [])
    ensures TableOk(a[k := x])
  {
    hide WellFormed, Entries;
    var b := a[k := x];
    EmptyDir();
    forall l: nat | l < |b| ensures DirOk(b, l) { if l != k { KeepDir(a, b, l); } }
  }
}
