/** easy-fs/src/vfs.rs: files and directories on a mounted volume.  An inode handle of the source is an inode number
    here; its block and offset follow from it. */
module Vfs {
  import opened Basics
  import opened Disk
  import opened BlockTree
  import opened Contents
  import opened BlockCache
  import opened Layout
  import opened Bitmaps
  import opened FsState
  import opened Efs
  import opened Updates
  import opened InodeOps
  import opened Dirents
  import opened FileTable
  import opened DirTree
  import opened Paths

  /** What inode k shows. */
  ghost function Shown(g: Geometry, d: Volume, k: nat): INode {
    var n := NodeAt(g, d, k);
    INode(n.kind, n.nlink, Content(d, n))
  }

  /** The volume shows table a: exactly the first |a| inodes are allocated, and they read as a says. */
  ghost predicate Represents(g: Geometry, d: Volume, a: Table) {
    && |a| <= g.InodeCount()
    && (forall q: nat :: q < g.InodeCount() ==> (Bit(d, 1, q) <==> q < |a|))
    && (forall k: nat :: k < |a| ==> a[k] == Shown(g, d, k))
  }

  lemma SameShown(g: Geometry, d: Volume, e: Volume, k: nat)
    requires SameInode(g, d, e, k)
    ensures Shown(g, e, k) == Shown(g, d, k)
  {
    hide Content, NodeAt, BlocksOf, TailZero;
  }

  lemma RepresentsBut(g: Geometry, d: Volume, e: Volume, a: Table, k: nat)
    requires Represents(g, d, a) && QuietBut(g, d, e, k) && k < |a|
    ensures Represents(g, e, a[k := Shown(g, e, k)])
  {
    hide Shown, SameInode, Bit;
    forall l: nat | l < |a| && l != k ensures a[l] == Shown(g, e, l) { SameShown(g, d, e, l); }
  }

  /** A freshly allocated inode, once initialised, extends the table. */
  lemma RepresentsNew(g: Geometry, d: Volume, e: Volume, a: Table)
    requires Represents(g, d, a) && |a| < g.InodeCount()
    requires forall l: nat :: l < |a| ==> SameInode(g, d, e, l)
    requires forall q: nat :: q < g.InodeCount() ==> Bit(e, 1, q) == (q == |a| || Bit(d, 1, q))
    ensures Represents(g, e, a + [Shown(g, e, |a|)])
  {
    hide Shown, SameInode, Bit;
    var b := a + [Shown(g, e, |a|)];
    forall l: nat | l < |b| ensures b[l] == Shown(g, e, l) { if l < |a| { SameShown(g, d, e, l); } }
  }

  /** Blocks that one more record takes in a directory of `len` bytes. */
  function EntryBlocks(len: nat): int {
    Total(DataBlocks(len + DIRENT_SZ)) - Total(DataBlocks(len))
  }

  class Vfs {
    const efs: EasyFileSystem
    ghost var table: Table

    constructor (efs: EasyFileSystem, ghost table: Table)
      ensures this.efs == efs && this.table == table
    {
      this.efs := efs;
      this.table := table;
    }

    ghost predicate Valid()
      reads this, efs.cache
    {
      && efs.Mounted() && efs.cache.pinned == multiset{}
      && Represents(efs.g, efs.cache.view, table) && TableOk(table)
    }

    /** Blocks that writing up to `end` takes from the free ones fit in the data area. */
    ghost predicate Room(k: nat, end: nat, more: nat)
      reads efs.cache
    {
      |InUse(efs.g, efs.cache.view)| + Needed(NodeAt(efs.g, efs.cache.view, k), end) + more <= efs.g.dataAreaBlocks
    }

    /** Scan a locked directory for `name`: position of the first entry that bears it, or the number of entries. */
    method FindEntry(k: nat, disk: DiskInode, name: Name) returns (i: nat, inum: u32)
      requires efs.Mounted() && k < |table| && efs.cache.pinned == multiset{efs.g.InodeBlock(k)}
      requires Represents(efs.g, efs.cache.view, table) && DirOk(table, k) && table[k].kind == Directory
      requires disk.View() == NodeAt(efs.g, efs.cache.view, k)
      modifies efs.cache`queue, efs.cache`device, efs.cache`pinned
      ensures efs.Mounted() && efs.cache.pinned == old(efs.cache.pinned)
      ensures i == FindName(EntriesOf(table, k), name)
      ensures i < |EntriesOf(table, k)| ==> inum == EntriesOf(table, k)[i].inum
    {
      hide Coherent, FsInv, NodeAt, Content, Blocks, Slice, Decode, NulAt, Bit;
      ghost var s := table[k].content;
      assert s == Content(efs.cache.view, disk.View());
      ContentLength(efs.cache.view, disk.View());
      OnePin(efs.g, efs.cache.view, k);
      OwnLockable(efs.g, efs.cache.view, k, efs.cache.pinned);
      var fileCount := disk.size / DIRENT_SZ;
      i, inum := 0, 0;
      while i < fileCount
        invariant efs.Mounted() && efs.cache.pinned == old(efs.cache.pinned)
        invariant i <= fileCount == |EntriesOf(table, k)|
        invariant forall j :: 0 <= j < i ==> EntriesOf(table, k)[j].name != name
      {
        var dirent := disk.ReadAt(i * DIRENT_SZ, DIRENT_SZ, efs.cache);
        ChunkIsSlice(s, i);
        assert Terminated(dirent);
        assert EntriesOf(table, k)[i] == Decode(dirent);
        var e := Decode(dirent);
        if e.name == name {
          inum := e.inum;
          FoundAt(EntriesOf(table, k), name, i);
          return;
        }
        i := i + 1;
      }
      FoundAt(EntriesOf(table, k), name, i);
    }

    /** Look a name up in directory k. */
    method FindInodeId(k: nat, name: Name) returns (r: Option<u32>)
      requires Valid() && k < |table| && table[k].kind == Directory
      modifies efs.cache`queue, efs.cache`device, efs.cache`pinned
      ensures Valid() && r == Lookup(table, k, name)
    {
      hide Coherent, FsInv, NodeAt, Content, Blocks, Entries, Bit;
      assert DirOk(table, k);
      var disk := LockInode(efs, k);
      var i, inum := FindEntry(k, disk, name);
      var count := disk.size / DIRENT_SZ;
      ContentLength(efs.cache.view, disk.View());
      r := if i < count then Some(inum) else None;
      UnlockInode(efs, k);
    }

    /** `Inode::find`: follow a path from inode k. */
    method FindPath(k: nat, path: Path) returns (r: Option<nat>)
      requires Valid() && k < |table|
      modifies efs.cache`queue, efs.cache`device, efs.cache`pinned
      ensures Valid() && r == Find(table, k, path)
    {
      hide Coherent, FsInv, NodeAt, Content, Bit, Represents, Components, Entries;
      var names := Components(path);
      var inode: nat := k;
      while names != []
        invariant Valid() && inode < |table|
        invariant Walk(table, k, Components(path)) == Walk(table, inode, names)
      {
        var isFile := IsFile(inode);
        if isFile { return None; }
        var v := FindInodeId(inode, names[0]);
        if v.None? { return None; }
        InRangeInode(table, inode, names[0]);
        inode, names := v.value, names[1..];
      }
      r := Some(inode);
    }

    /** `read_dirent`: the name of the first entry of directory k that bears the number `id`. */
    method ReadDirent(k: nat, id: nat) returns (r: Option<Name>)
      requires Valid() && k < |table| && table[k].kind == Directory
      modifies efs.cache`queue, efs.cache`device, efs.cache`pinned
      ensures Valid() && r == NameIn(EntriesOf(table, k), id)
    {
      hide Coherent, FsInv, NodeAt, Content, Blocks, Entries, Bit, NameIn, Decode;
      assert DirOk(table, k);
      var disk := LockInode(efs, k);
      r := ScanNumber(k, disk, id);
      UnlockInode(efs, k);
    }

    /** The scan on the locked directory. */
    method ScanNumber(k: nat, disk: DiskInode, id: nat) returns (r: Option<Name>)
      requires efs.Mounted() && k < |table| && efs.cache.pinned == multiset{efs.g.InodeBlock(k)}
      requires Represents(efs.g, efs.cache.view, table) && DirOk(table, k) && table[k].kind == Directory
      requires disk.View() == NodeAt(efs.g, efs.cache.view, k)
      modifies efs.cache`queue, efs.cache`device, efs.cache`pinned
      ensures efs.Mounted() && efs.cache.pinned == old(efs.cache.pinned)
      ensures r == NameIn(EntriesOf(table, k), id)
    {
      hide Coherent, FsInv, NodeAt, Content, Blocks, Slice, Decode, NulAt, Bit, NameIn;
      ghost var s := table[k].content;
      assert s == Content(efs.cache.view, disk.View());
      ContentLength(efs.cache.view, disk.View());
      OnePin(efs.g, efs.cache.view, k);
      OwnLockable(efs.g, efs.cache.view, k, efs.cache.pinned);
      var fileCount := disk.size / DIRENT_SZ;
      var i := 0;
      ghost var es := EntriesOf(table, k);
      while i < fileCount
        invariant efs.Mounted() && efs.cache.pinned == old(efs.cache.pinned)
        invariant i <= fileCount == |es| && es == EntriesOf(table, k)
        invariant forall j :: 0 <= j < i ==> es[j].inum != id
      {
        var dirent := disk.ReadAt(i * DIRENT_SZ, DIRENT_SZ, efs.cache);
        ChunkIsSlice(s, i);
        assert Terminated(dirent);
        assert es[i] == Decode(dirent);
        var e := Decode(dirent);
        if e.inum == id {
          NameInAt(es, id, i);
          return Some(e.name);
        }
        i := i + 1;
      }
      NameInAt(es, id, i);
      r := None;
    }

    /** The recursion inside `name_for_inode`; None where the source panics. */
    method NameUpTo(d: nat) returns (r: Option<Path>)
      requires Valid() && UpOk(table) && d < |table|
      modifies efs.cache`queue, efs.cache`device, efs.cache`pinned
      ensures Valid() && r == NameInner(table, d)
      decreases d
    {
      hide Coherent, FsInv, NodeAt, Content, Bit, Represents, Components, Entries, Lookup, NameIn, TableOk;
      if d == 0 { return Some([]); }
      var parent := FindPath(d, DOT_DOT);
      FindParent(table, d);
      if parent.None? { return None; }
      var p := parent.value;
      var name := ReadDirent(p, d);
      if name.None? { return None; }
      var above := NameUpTo(p);
      if above.None? { return None; }
      r := Some(above.value + [SLASH] + name.value);
    }

    /** `name_for_inode`. */
    method NameForInode(d: nat) returns (r: Option<Path>)
      requires Valid() && UpOk(table) && d < |table|
      modifies efs.cache`queue, efs.cache`device, efs.cache`pinned
      ensures Valid() && r == NameFor(table, d)
    {
      hide Coherent, FsInv, Represents, UpOk, TableOk, NameInner;
      r := NameUpTo(d);
      if r == Some([]) { r := Some([SLASH]); }
    }

    method IsFile(k: nat) returns (b: bool)
      requires Valid() && k < |table|
      modifies efs.cache`queue, efs.cache`device, efs.cache`pinned
      ensures Valid() && b == (table[k].kind == File)
    {
      hide Coherent, FsInv, NodeAt, Content, Bit, Represents;
      FirstShown(efs.g, efs.cache.view, table, k);
      var disk := LockInode(efs, k);
      b := disk.kind == File;
      UnlockInode(efs, k);
    }

    /** `Inode::read_at`. */
    method ReadAt(k: nat, off: nat, len: nat) returns (buf: seq<byte>)
      requires Valid() && k < |table|
      modifies efs.cache`queue, efs.cache`device, efs.cache`pinned
      ensures Valid() && buf == Slice(table[k].content, off, len)
      ensures |buf| == if off >= |table[k].content| then 0 else Min(off + len, |table[k].content|) - off
      ensures forall i :: 0 <= i < |buf| ==> buf[i] == table[k].content[off + i]
    {
      hide Coherent, FsInv, NodeAt, Content, Slice, Bit;
      buf := ReadInode(efs, k, off, len);
    }

    /** `Inode::write_at`: the buffer is spliced in, a gap reads as zeros, every other inode is
        as it was, and the device holds it all. */
    method WriteAt(k: nat, off: nat, buf: seq<byte>) returns (size: nat)
      requires Valid() && k < |table| && table[k].kind == File
      requires buf != [] && off + |buf| <= MAX_SIZE && Room(k, off + |buf|, 0)
      modifies this, efs.cache
      ensures Valid() && size == |buf|
      ensures table == WriteFile(old(table), k, off, buf)
      ensures var s, t := old(table)[k].content, table[k].content;
              && |t| == (if off + |buf| <= |s| then |s| else off + |buf|)
              && forall p :: 0 <= p < |t| ==>
                   t[p] == if off <= p < off + |buf| then buf[p - off] else if p < |s| then s[p] else 0
      ensures |table| == |old(table)| && table[k].kind == File && table[k].nlink == old(table)[k].nlink
      ensures forall l :: 0 <= l < |table| && l != k ==> table[l] == old(table)[l]
      ensures efs.cache.device == efs.cache.view
      ensures |InUse(efs.g, efs.cache.view)| - Total(DataBlocks(|table[k].content|))
           == |InUse(efs.g, old(efs.cache.view))| - Total(DataBlocks(|old(table)[k].content|))
    {
      hide Coherent, FsInv, NodeAt, Content, Splice, Bit, TableOk, Represents, QuietBut, InUse, Needed, Total;
      FirstShown(efs.g, efs.cache.view, table, k);
      ghost var d := efs.cache.view;
      ContentLength(d, NodeAt(efs.g, d, k));
      NeededIs(NodeAt(efs.g, d, k), off + |buf|);
      size := WriteInode(efs, k, off, buf);
      RepresentsBut(efs.g, d, efs.cache.view, table, k);
      WriteBytes(table, k, off, buf);
      table := WriteFile(table, k, off, buf);
      OneFileOk(old(table), k, table[k]);
      efs.cache.SyncAll();
    }

    /** `Inode::clear`: the inode is empty, all its blocks are free again. */
    method Clear(k: nat)
      requires Valid() && k < |table|
      modifies this, efs.cache
      ensures Valid() && table == ClearFile(old(table), k)
      ensures efs.cache.device == efs.cache.view
      ensures |InUse(efs.g, efs.cache.view)|
           == |InUse(efs.g, old(efs.cache.view))| - Total(DataBlocks(|old(table)[k].content|))
    {
      hide Coherent, FsInv, NodeAt, Content, Bit, TableOk, Represents, QuietBut, InUse, Needed, BlocksOf, Total;
      FirstShown(efs.g, efs.cache.view, table, k);
      ghost var d := efs.cache.view;
      ContentLength(d, NodeAt(efs.g, d, k));
      ClearInode(efs, k);
      RepresentsBut(efs.g, d, efs.cache.view, table, k);
      table := ClearFile(table, k);
      OneFileOk(old(table), k, table[k]);
      efs.cache.SyncAll();
    }

    /** Append a record to directory k. */
    method AppendDirent(k: nat, e: Dirent)
      requires efs.Mounted() && efs.cache.pinned == multiset{} && Represents(efs.g, efs.cache.view, table)
      requires k < |table| && table[k].kind == Directory && |table[k].content| % DIRENT_SZ == 0
      requires |e.name| <= NAME_LENGTH_LIMIT && |table[k].content| + DIRENT_SZ <= MAX_SIZE
      requires Room(k, |table[k].content| + DIRENT_SZ, 0)
      modifies this, efs.cache
      ensures efs.Mounted() && efs.cache.pinned == multiset{} && Represents(efs.g, efs.cache.view, table)
      ensures table == AddEntry(old(table), k, e)
      ensures |InUse(efs.g, efs.cache.view)| == |InUse(efs.g, old(efs.cache.view))|
                + Needed(NodeAt(efs.g, old(efs.cache.view), k), |old(table)[k].content| + DIRENT_SZ)
      ensures QuietBut(efs.g, old(efs.cache.view), efs.cache.view, k)
    {
      hide Coherent, FsInv, NodeAt, Content, Splice, Bit, Represents, QuietBut, InUse, Needed, Encode;
      FirstShown(efs.g, efs.cache.view, table, k);
      ghost var d := efs.cache.view;
      ContentLength(d, NodeAt(efs.g, d, k));
      AppendEntry(table[k].content, e);
      var size := InodeSize(k);
      var fileCount := size / DIRENT_SZ;
      var _ := WriteInode(efs, k, fileCount * DIRENT_SZ, Encode(e));
      RepresentsBut(efs.g, d, efs.cache.view, table, k);
      table := AddEntry(table, k, e);
    }

    /** `create_inode`: nothing happens if the name is taken; otherwise a new inode is linked in under it. */
    method CreateInode(k: nat, name: Name, kind: Kind) returns (r: Option<u32>)
      requires Valid() && k < |table| && table[k].kind == Directory && |name| <= NAME_LENGTH_LIMIT
      requires Lookup(table, k, name).None? ==>
                 && |table| < efs.g.InodeCount() && |table[k].content| + DIRENT_SZ <= MAX_SIZE
                 && Room(k, |table[k].content| + DIRENT_SZ, if kind == Directory then 1 else 0)
      modifies this, efs.cache
      ensures Valid()
      ensures r.None? <==> Lookup(old(table), k, name).Some?
      ensures r.None? ==> table == old(table)
      ensures r.Some? ==> |old(table)| < 0x1_0000_0000 && r.value == |old(table)|
                          && table == Create(old(table), k, name, kind) && efs.cache.device == efs.cache.view
      ensures |InUse(efs.g, efs.cache.view)| == |InUse(efs.g, old(efs.cache.view))|
                + if r.None? then 0
                  else EntryBlocks(|old(table)[k].content|) + if kind == Directory then 1 else 0
    {
      hide Coherent, FsInv, NodeAt, Content, Bit, TableOk, Represents, QuietBut, InUse, Needed, Entries, Encode,
           DotEntries, EntryBlocks;
      var found := FindInodeId(k, name);
      if found.Some? { return None; }
      ghost var a := table;
      InodesFit(efs.g, efs.cache.view, a);
      RecordsWhole(a, k);
      EntryNeeds(efs.g, efs.cache.view, a, k);
      var newId := NewInode(kind);
      AppendDirent(k, Dirent(name, newId));
      if kind == Directory { InitializeDir(newId, k); }
      CreateOk(a, k, name, kind);
      assert table == Create(a, k, name, kind);
      efs.cache.SyncAll();
      r := Some(newId);
    }

    /** Allocate and initialise an inode. */
    method NewInode(kind: Kind) returns (newId: u32)
      requires efs.Mounted() && efs.cache.pinned == multiset{} && Represents(efs.g, efs.cache.view, table)
      requires |table| < efs.g.InodeCount()
      modifies this, efs.cache
      ensures efs.Mounted() && efs.cache.pinned == multiset{} && Represents(efs.g, efs.cache.view, table)
      ensures newId == |old(table)| && table == old(table) + [INode(kind, 1, [])]
      ensures InUse(efs.g, efs.cache.view) == InUse(efs.g, old(efs.cache.view))
      ensures forall l: nat :: l < |old(table)| ==>
                  NodeAt(efs.g, efs.cache.view, l) == NodeAt(efs.g, old(efs.cache.view), l)
      ensures NodeAt(efs.g, efs.cache.view, newId).size == 0
    {
      hide Coherent, FsInv, NodeAt, Content, InUse, SameInode, Bit;
      ghost var g, d, a := efs.g, efs.cache.view, table;
      assert !Bit(d, 1, |a|);
      newId := efs.AllocInode();
      assert newId == |a|;
      ghost var e := efs.cache.view;
      InitInode(efs, newId, kind);
      ghost var f := efs.cache.view;
      forall l: nat | l < |a|
        ensures SameInode(g, d, f, l) && NodeAt(g, f, l) == NodeAt(g, d, l)
      {
        SameTwice(g, d, e, f, l);
      }
      RepresentsNew(g, d, f, a);
      table := table + [Shown(g, f, newId)];
    }

    /** `initialize_dir` on a fresh directory. */
    method InitializeDir(k: nat, parent: nat)
      requires efs.Mounted() && efs.cache.pinned == multiset{} && Represents(efs.g, efs.cache.view, table)
      requires k < |table| && k < 0x1_0000_0000 && parent < 0x1_0000_0000
      requires table[k].kind == Directory && table[k].content == []
      requires |InUse(efs.g, efs.cache.view)| + 1 <= efs.g.dataAreaBlocks
      modifies this, efs.cache
      ensures efs.Mounted() && efs.cache.pinned == multiset{} && Represents(efs.g, efs.cache.view, table)
      ensures table == old(table)[k := old(table)[k].(content := DotEntries(k, parent))]
      ensures |InUse(efs.g, efs.cache.view)| == |InUse(efs.g, old(efs.cache.view))| + 1
    {
      hide Coherent, FsInv, NodeAt, Content, Splice, Bit, Represents, QuietBut, InUse, DotEntries;
      FirstShown(efs.g, efs.cache.view, table, k);
      ghost var d := efs.cache.view;
      ContentLength(d, NodeAt(efs.g, d, k));
      var buf := DotEntries(k, parent);
      SpliceEmpty(buf);
      var _ := WriteInode(efs, k, 0, buf);
      RepresentsBut(efs.g, d, efs.cache.view, table, k);
      table := table[k := table[k].(content := buf)];
    }

    /** `link`: a second name for inode src. */
    method LinkInode(k: nat, name: Name, src: nat) returns (ok: bool)
      requires Valid() && k < |table| && src < |table| && table[k].kind == Directory && |name| <= NAME_LENGTH_LIMIT
      requires Lookup(table, k, name).None? ==>
                 |table[k].content| + DIRENT_SZ <= MAX_SIZE && Room(k, |table[k].content| + DIRENT_SZ, 0)
      modifies this, efs.cache
      ensures Valid()
      ensures ok <==> Lookup(old(table), k, name).None?
      ensures !ok ==> table == old(table)
      ensures ok ==> src < 0x1_0000_0000 && table == Link(old(table), k, name, src)
      ensures |InUse(efs.g, efs.cache.view)| == |InUse(efs.g, old(efs.cache.view))|
                + if ok then EntryBlocks(|old(table)[k].content|) else 0
    {
      hide Coherent, FsInv, NodeAt, Content, Bit, TableOk, Represents, QuietBut, InUse, Needed, Entries, Encode,
           EntryBlocks;
      var found := FindInodeId(k, name);
      if found.Some? { return false; }
      ghost var a := table;
      InodesFit(efs.g, efs.cache.view, a);
      RecordsWhole(a, k);
      EntryNeeds(efs.g, efs.cache.view, a, k);
      AppendDirent(k, Dirent(name, src));
      var nlink := Links(src);
      SetNlink(src, (nlink as int + 1) % 0x1_0000_0000);
      LinkOk(a, k, name, src);
      ok := true;
    }

    method Links(k: nat) returns (nlink: u32)
      requires efs.Mounted() && efs.cache.pinned == multiset{} && Represents(efs.g, efs.cache.view, table)
      requires k < |table|
      modifies efs.cache`queue, efs.cache`device, efs.cache`pinned
      ensures efs.Mounted() && efs.cache.pinned == multiset{} && nlink == table[k].nlink
    {
      hide Coherent, FsInv, NodeAt, Content, Bit, Represents;
      FirstShown(efs.g, efs.cache.view, table, k);
      var disk := LockInode(efs, k);
      nlink := disk.nlink;
      UnlockInode(efs, k);
    }

    method SetNlink(k: nat, nlink: u32)
      requires efs.Mounted() && efs.cache.pinned == multiset{} && Represents(efs.g, efs.cache.view, table)
      requires k < |table|
      modifies this, efs.cache
      ensures efs.Mounted() && efs.cache.pinned == multiset{} && Represents(efs.g, efs.cache.view, table)
      ensures table == old(table)[k := old(table)[k].(nlink := nlink)]
      ensures InUse(efs.g, efs.cache.view) == InUse(efs.g, old(efs.cache.view))
    {
      hide Coherent, FsInv, NodeAt, Content, Bit, Represents, QuietBut, InUse;
      FirstShown(efs.g, efs.cache.view, table, k);
      ghost var d := efs.cache.view;
      SetLinks(efs, k, nlink);
      RepresentsBut(efs.g, d, efs.cache.view, table, k);
      table := table[k := table[k].(nlink := nlink)];
    }

    /** `unlink`: the entry goes by swapping the last one into its place; an inode without links is emptied. */
    method UnlinkName(k: nat, name: Name) returns (ok: bool)
      requires Valid() && k < |table|
      modifies this, efs.cache
      ensures Valid()
      ensures ok <==> old(table)[k].kind == Directory && Lookup(old(table), k, name).Some?
      ensures !ok ==> table == old(table) && InUse(efs.g, efs.cache.view) == InUse(efs.g, old(efs.cache.view))
      ensures ok ==>
                var a := old(table);
                var i := FindName(EntriesOf(a, k), name);
                && |a[k].content| % DIRENT_SZ == 0 && i < |EntriesOf(a, k)| && EntriesOf(a, k)[i].inum < |a|
                && table == Unlink(a, k, i)
      ensures ok ==>
                var a, t := old(table), Lookup(old(table), k, name).value;
                && t < |a| == |table| && |a[k].content| >= DIRENT_SZ
                && (forall l :: 0 <= l < |a| && l != k && l != t ==> table[l] == a[l])
                && table[k].kind == a[k].kind && table[t].kind == a[t].kind
                && (k != t ==> table[k].nlink == a[k].nlink)
                && table[t].nlink == (a[t].nlink as int - 1) % 0x1_0000_0000
                && (a[t].nlink == 1 ==> table[t].content == [])
                && (a[t].nlink != 1 && t != k ==> table[t].content == a[t].content)
                && (a[t].nlink != 1 || t != k ==> |table[k].content| == |a[k].content| - DIRENT_SZ)
                && |InUse(efs.g, efs.cache.view)| == |InUse(efs.g, old(efs.cache.view))|
                     - if a[t].nlink != 1 then 0
                       else Total(DataBlocks(|a[t].content| - if t == k then DIRENT_SZ else 0))
    {
      hide Coherent, FsInv, NodeAt, Content, Bit, Represents, QuietBut, InUse, Entries, SwapRemove, WellFormed;
      ghost var a := table;
      assert DirOk(a, k);
      var t := RemoveEntry(k, name);
      if t.None? { return false; }
      ghost var i := FindName(EntriesOf(a, k), name);
      WholeRecords(a[k].content);
      assert EntriesOf(a, k)[i].inum < |a|;
      UnlinkOk(a, k, i);
      SwapLength(a[k].content, i);
      hide FindName;
      DropLink(t.value);
      ok := true;
    }

    /** One link of inode t less, and its contents with the last. */
    method DropLink(t: nat)
      requires efs.Mounted() && efs.cache.pinned == multiset{} && Represents(efs.g, efs.cache.view, table)
      requires t < |table|
      modifies this, efs.cache
      ensures efs.Mounted() && efs.cache.pinned == multiset{} && Represents(efs.g, efs.cache.view, table)
      ensures table == Drop(old(table), t)
      ensures |table| == |old(table)| && forall l :: 0 <= l < |table| && l != t ==> table[l] == old(table)[l]
      ensures var x, y := old(table)[t], table[t];
              && y.kind == x.kind && y.nlink == (x.nlink as int - 1) % 0x1_0000_0000
              && y.content == (if x.nlink == 1 then [] else x.content)
              && |InUse(efs.g, efs.cache.view)| == |InUse(efs.g, old(efs.cache.view))|
                   - if x.nlink == 1 then Total(DataBlocks(|x.content|)) else 0
    {
      hide Coherent, FsInv, NodeAt, Content, Bit, Represents, QuietBut, InUse, Total, BlocksOf;
      var nlink := Links(t);
      var n: u32 := if nlink == 0 then 0xFFFF_FFFF else nlink - 1;
      SetNlink(t, n);
      if n == 0 {
        FirstShown(efs.g, efs.cache.view, table, t);
        ghost var d := efs.cache.view;
        ContentLength(d, NodeAt(efs.g, d, t));
        ClearInode(efs, t);
        RepresentsBut(efs.g, d, efs.cache.view, table, t);
        table := table[t := table[t].(content := [])];
        efs.cache.SyncAll();
      }
    }

    /** The part of `unlink` that runs on the locked directory. */
    method RemoveEntry(k: nat, name: Name) returns (t: Option<u32>)
      requires efs.Mounted() && efs.cache.pinned == multiset{} && Represents(efs.g, efs.cache.view, table)
      requires k < |table| && DirOk(table, k)
      modifies this, efs.cache
      ensures efs.Mounted() && efs.cache.pinned == multiset{} && Represents(efs.g, efs.cache.view, table)
      ensures t.Some? <==> old(table)[k].kind == Directory && Lookup(old(table), k, name).Some?
      ensures t.None? ==> table == old(table)
      ensures InUse(efs.g, efs.cache.view) == InUse(efs.g, old(efs.cache.view))
      ensures t.Some? ==>
                var s, i := old(table)[k].content, FindName(EntriesOf(old(table), k), name);
                && |s| % DIRENT_SZ == 0 && i < |EntriesOf(old(table), k)|
                && t.value == EntriesOf(old(table), k)[i].inum
                && table == old(table)[k := old(table)[k].(content := SwapRemove(s, i))]
    {
      hide Coherent, FsInv, NodeAt, Content, Bit, Represents, QuietBut, InUse, Entries, SwapRemove, WellFormed;
      FirstShown(efs.g, efs.cache.view, table, k);
      var disk := LockInode(efs, k);
      if disk.kind != Directory {
        UnlockInode(efs, k);
        return None;
      }
      var i, inum := FindEntry(k, disk, name);
      ContentLength(efs.cache.view, disk.View());
      if i == disk.size / DIRENT_SZ {
        UnlockInode(efs, k);
        return None;
      }
      WholeRecords(table[k].content);
      ghost var d := efs.cache.view;
      SwapOut(k, disk, i);
      RepresentsBut(efs.g, d, efs.cache.view, table, k);
      table := table[k := table[k].(content := SwapRemove(table[k].content, i))];
      UnlockInode(efs, k);
      t := Some(inum);
    }

    /** Move the last record over record i and cut the directory by one. */
    method SwapOut(k: nat, disk: DiskInode, i: nat)
      requires efs.Mounted() && k < efs.g.InodeCount() && efs.cache.pinned == multiset{efs.g.InodeBlock(k)}
      requires disk.View() == NodeAt(efs.g, efs.cache.view, k) && disk.kind == Directory
      requires disk.size % DIRENT_SZ == 0 && i < disk.size / DIRENT_SZ
      modifies disk, efs.cache
      ensures efs.Mounted() && efs.cache.pinned == old(efs.cache.pinned)
      ensures QuietBut(efs.g, old(efs.cache.view), efs.cache.view, k)
      ensures Relabelled(old(NodeAt(efs.g, efs.cache.view, k)), NodeAt(efs.g, efs.cache.view, k))
      ensures Content(efs.cache.view, NodeAt(efs.g, efs.cache.view, k))
           == SwapRemove(old(Content(efs.cache.view, NodeAt(efs.g, efs.cache.view, k))), i)
      ensures InUse(efs.g, efs.cache.view) == InUse(efs.g, old(efs.cache.view))
    {
      hide Coherent, FsInv, NodeAt, Content, Bit, QuietBut, InUse, Splice, Slice, Prepared, Overwritten, Blocks, NoDup;
      ghost var g, d, n := efs.g, efs.cache.view, disk.View();
      ghost var s := Content(d, n);
      ContentLength(d, n);
      OnePin(g, d, k);
      OwnLockable(g, d, k, efs.cache.pinned);
      var fileCount := disk.size / DIRENT_SZ;
      var swap := disk.ReadAt((fileCount - 1) * DIRENT_SZ, DIRENT_SZ, efs.cache);
      ChunkIsSlice(s, fileCount - 1);
      ShrinkPrepared(g, d, k, n);
      var w := disk.WriteAt(i * DIRENT_SZ, swap, efs.cache);
      assert swap[..w] == swap;
      WritePrepared(g, d, k, d, n, efs.cache.view, i * DIRENT_SZ, swap);
      GrownNone(d, n);
      Spliced(d, n, d, n, [], efs.cache.view, i * DIRENT_SZ, swap);
      StoreInode(efs, k, disk, d);
      ghost var e := efs.cache.view;
      CutLast(k, disk);
      ButThenBut(g, d, e, efs.cache.view, k);
    }

    /** Cut a directory by one record. */
    method CutLast(k: nat, disk: DiskInode)
      requires efs.Mounted() && k < efs.g.InodeCount() && efs.cache.pinned == multiset{efs.g.InodeBlock(k)}
      requires disk.View() == NodeAt(efs.g, efs.cache.view, k) && disk.kind == Directory && disk.size >= DIRENT_SZ
      modifies disk, efs.cache
      ensures efs.Mounted() && efs.cache.pinned == old(efs.cache.pinned)
      ensures QuietBut(efs.g, old(efs.cache.view), efs.cache.view, k)
      ensures NodeAt(efs.g, efs.cache.view, k) == old(disk.View()).(size := old(disk.size) - DIRENT_SZ)
      ensures Content(efs.cache.view, NodeAt(efs.g, efs.cache.view, k))
           == old(Content(efs.cache.view, disk.View()))[..old(disk.size) - DIRENT_SZ]
      ensures InUse(efs.g, efs.cache.view) == InUse(efs.g, old(efs.cache.view))
    {
      hide Coherent, FsInv, NodeAt, Content, Bit, QuietBut, InUse, Prepared, Blocks;
      ghost var e := efs.cache.view;
      ContentLength(e, disk.View());
      disk.size := disk.size - DIRENT_SZ;
      ShrinkPrepared(efs.g, e, k, disk.View());
      StoreInode(efs, k, disk, e);
    }

    method InodeSize(k: nat) returns (size: nat)
      requires efs.Mounted() && efs.cache.pinned == multiset{} && k < efs.g.InodeCount()
      modifies efs.cache`queue, efs.cache`device, efs.cache`pinned
      ensures efs.Mounted() && efs.cache.pinned == multiset{}
      ensures size == NodeAt(efs.g, efs.cache.view, k).size
    {
      hide Coherent, FsInv, NodeAt;
      var disk := LockInode(efs, k);
      size := disk.size;
      UnlockInode(efs, k);
    }
  }

  lemma SwapLength(s: seq<byte>, i: nat)
    requires |s| % DIRENT_SZ == 0 && i < |s| / DIRENT_SZ
    ensures |SwapRemove(s, i)| == |s| - DIRENT_SZ
  {
    hide Splice;
  }

  lemma FoundAt(es: seq<Dirent>, name: Name, i: nat)
    requires i <= |es| && (i < |es| ==> es[i].name == name) && forall j :: 0 <= j < i ==> es[j].name != name
    ensures FindName(es, name) == i
  {
    var k := FindName(es, name);
  }

  lemma {:induction false} NameInAt(es: seq<Dirent>, id: nat, i: nat)
    requires i <= |es| && (i < |es| ==> es[i].inum == id) && forall j :: 0 <= j < i ==> es[j].inum != id
    ensures NameIn(es, id) == if i < |es| then Some(es[i].name) else None
  {
    if 0 < i { NameInAt(es[1..], id, i - 1); }
  }

  /** Looking up the path ".." is looking up the name. */
  lemma FindParent(a: Table, d: nat)
    requires UpOk(a) && 0 < d < |a|
    ensures a[d].kind == File ==> Find(a, d, DOT_DOT) == None
    ensures a[d].kind == Directory && Parent(a, d).None? ==> Find(a, d, DOT_DOT) == None
    ensures a[d].kind == Directory && Parent(a, d).Some? ==> Find(a, d, DOT_DOT) == Some(Parent(a, d).value as nat)
  {
    hide Entries, FindName, Components;
    OneComponent(DOT_DOT);
    if a[d].kind == Directory && Parent(a, d).Some? { OneStep(a, d, DOT_DOT, Parent(a, d).value); }
  }

  lemma EntryNeeds(g: Geometry, d: Volume, a: Table, k: nat)
    requires Represents(g, d, a) && k < |a|
    ensures Needed(NodeAt(g, d, k), |a[k].content| + DIRENT_SZ) == EntryBlocks(|a[k].content|)
  {
    hide NodeAt, Content, Represents, Needed, Total;
    FirstShown(g, d, a, k);
    ContentLength(d, NodeAt(g, d, k));
    NeededIs(NodeAt(g, d, k), |a[k].content| + DIRENT_SZ);
  }

  lemma FirstShown(g: Geometry, d: Volume, a: Table, k: nat)
    requires Represents(g, d, a) && k < |a|
    ensures k < g.InodeCount()
    ensures a[k].kind == NodeAt(g, d, k).kind && a[k].nlink == NodeAt(g, d, k).nlink
    ensures a[k].content == Content(d, NodeAt(g, d, k))
  {
    hide NodeAt, Content, Bit;
  }

  lemma SameTwice(g: Geometry, d: Volume, e: Volume, f: Volume, l: nat)
    requires SameInode(g, d, e, l) && SameInode(g, e, f, l)
    ensures SameInode(g, d, f, l) && NodeAt(g, f, l) == NodeAt(g, d, l)
  {
    hide NodeAt, Content, BlocksOf, TailZero;
  }

  lemma InodesFit(g: Geometry, d: Volume, a: Table)
    requires FsInv(g, d) && Represents(g, d, a)
    ensures |a| <= 0x1_0000_0000
  {
    hide NodeOk, Unshared, FreeZero, BitsInside, Bit, Shown;
    ValidOf(g, d);
  }

  lemma RecordsWhole(a: Table, k: nat)
    requires TableOk(a) && k < |a| && a[k].kind == Directory
    ensures |a[k].content| % DIRENT_SZ == 0
  {
    hide Entries;
    assert DirOk(a, k);
  }

  lemma SpliceEmpty(buf: seq<byte>)
    ensures Splice([], 0, buf) == buf
  {
  }

  lemma InRangeInode(a: Table, k: nat, name: Name)
    requires TableOk(a) && k < |a| && a[k].kind == Directory && Lookup(a, k, name).Some?
    ensures Lookup(a, k, name).value < |a|
  {
    hide Entries, WellFormed;
    assert DirOk(a, k);
  }
}
