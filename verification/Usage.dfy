/** Which data blocks are in use: those of the trees, and those that removals of directory entries have lost.  When a
    removal takes the last record of a block, the directory's size falls below the block, which stays marked. */
module Usage {
  import opened Basics
  import opened Disk
  import opened BlockTree
  import opened Contents
  import opened Bitmaps
  import opened FsState
  import opened Dirents
  import opened FileTable
  import opened Bindings
  import opened InodeOps
  import opened Vfs

  /** Blocks that the inodes of a take together, index blocks included. */
  function Owned(a: Table): nat {
    if a == [] then 0 else Owned(a[..|a| - 1]) + Total(DataBlocks(|a[|a| - 1].content|))
  }

  /** Blocks that drop out of a directory of `len` bytes when it loses a record. */
  function Cut(len: nat): nat {
    if len % BLOCK_SZ == DIRENT_SZ then IndexCount(len / BLOCK_SZ) + 1 else 0
  }

  /** Blocks that an operation takes out of every tree and does not free. */
  ghost function Shed(a: Table, op: Op): nat
    requires Asked(a, op)
  {
    match op
    case RemoveName(k, name) =>
      if a[k].kind == Directory && Lookup(a, k, name).Some? then Cut(|a[k].content|) else 0
    case _ => 0
  }

  /** Blocks that the first n operations lost. */
  ghost function ShedTo(states: seq<Table>, ops: seq<Op>, n: nat): nat
    requires IsTrace(states, ops) && n <= |ops|
  {
    if n == 0 then 0 else ShedTo(states, ops, n - 1) + Shed(states[n - 1], ops[n - 1])
  }

  // ---- the tables ----

  lemma OwnedSnoc(a: Table, x: INode)
    ensures Owned(a + [x]) == Owned(a) + Total(DataBlocks(|x.content|))
  {
    hide Total, DataBlocks;
    assert (a + [x])[..|a|] == a;
  }

  lemma {:induction false} OwnedUpdate(a: Table, k: nat, x: INode)
    requires k < |a|
    ensures Owned(a[k := x]) - Total(DataBlocks(|x.content|)) == Owned(a) - Total(DataBlocks(|a[k].content|))
    decreases |a|
  {
    hide Total, DataBlocks;
    var n := |a| - 1;
    if k == n { assert a[k := x][..n] == a[..n]; } else {
      OwnedUpdate(a[..n], k, x);
      assert a[k := x][..n] == a[..n][k := x];
    }
  }

  /** A record more or less crosses a block end exactly where `Cut` says. */
  lemma CutIs(len: nat)
    requires len % DIRENT_SZ == 0 && DIRENT_SZ <= len
    ensures Total(DataBlocks(len)) == Total(DataBlocks(len - DIRENT_SZ)) + Cut(len)
  {
    hide Total, DataBlocks, Cut;
    var m := len / DIRENT_SZ;
    CutAt(m / 16, m % 16);
  }

  lemma CutAt(c: nat, q: nat)
    requires q < 16 && 0 < c + q
    ensures var len := BLOCK_SZ * c + DIRENT_SZ * q;
            Total(DataBlocks(len)) == Total(DataBlocks(len - DIRENT_SZ)) + Cut(len)
  {
    hide Total, IndexCount, DataBlocks;
    if q == 0 {
      BlocksAt(c - 1, BLOCK_SZ);
      BlocksAt(c - 1, BLOCK_SZ - DIRENT_SZ);
    } else {
      BlocksAt(c, DIRENT_SZ * q);
      BlocksAt(c, DIRENT_SZ * (q - 1));
      TotalStep(c);
    }
  }

  lemma BlocksAt(c: nat, r: nat)
    requires r <= BLOCK_SZ
    ensures DataBlocks(BLOCK_SZ * c + r) == if r == 0 then c else c + 1
  {
  }

  lemma CreateOwned(a: Table, k: nat, name: Name, kind: Kind)
    requires k < |a| < 0x1_0000_0000 && |name| <= NAME_LENGTH_LIMIT
    ensures Owned(Create(a, k, name, kind))
         == Owned(a) + EntryBlocks(|a[k].content|) + if kind == Directory then 1 else 0
  {
    hide Owned, Encode, DotEntries;
    AddOwned(a, k, Dirent(name, |a|));
    OwnedSnoc(AddEntry(a, k, Dirent(name, |a|)), INode(kind, 1, if kind == Directory then DotEntries(|a|, k) else []));
    assert Total(DataBlocks(0)) == 0 && Total(DataBlocks(2 * DIRENT_SZ)) == 1;
  }

  lemma AddOwned(a: Table, k: nat, e: Dirent)
    requires k < |a| && |e.name| <= NAME_LENGTH_LIMIT
    ensures Owned(AddEntry(a, k, e)) == Owned(a) + EntryBlocks(|a[k].content|)
  {
    hide Owned, Encode, Total, DataBlocks;
    OwnedUpdate(a, k, AddEntry(a, k, e)[k]);
  }

  lemma LinkOwned(a: Table, k: nat, name: Name, src: nat)
    requires k < |a| && src < |a| && src < 0x1_0000_0000 && |name| <= NAME_LENGTH_LIMIT
    ensures Owned(Link(a, k, name, src)) == Owned(a) + EntryBlocks(|a[k].content|)
  {
    hide Owned, Encode, Total, DataBlocks, EntryBlocks;
    AddOwned(a, k, Dirent(name, src));
    OwnedUpdate(AddEntry(a, k, Dirent(name, src)), src, Link(a, k, name, src)[src]);
  }

  /** Directory k loses a record and inode t perhaps its contents; only that much is freed. */
  lemma {:induction false} UnlinkOwned(a: Table, b: Table, k: nat, t: nat, last: bool)
    requires k < |a| && t < |a| == |b| && forall l :: 0 <= l < |a| && l != k && l != t ==> b[l] == a[l]
    requires DIRENT_SZ <= |a[k].content| && |a[k].content| % DIRENT_SZ == 0
    requires last ==> b[t].content == []
    requires !last && t != k ==> b[t].content == a[t].content
    requires !last || t != k ==> |b[k].content| == |a[k].content| - DIRENT_SZ
    ensures Owned(b) + Cut(|a[k].content|)
         == Owned(a) - if last then Total(DataBlocks(|a[t].content| - if t == k then DIRENT_SZ else 0)) else 0
  {
    hide Owned, Cut, Total, DataBlocks;
    NoBlocks();
    CutIs(|a[k].content|);
    OwnedTwo(a, b, k, t);
  }

  lemma {:induction false} OwnedTwo(a: Table, b: Table, k: nat, t: nat)
    requires k < |a| && t < |a| == |b| && forall l :: 0 <= l < |a| && l != k && l != t ==> b[l] == a[l]
    ensures Owned(b) - Owned(a)
         == Total(DataBlocks(|b[k].content|)) - Total(DataBlocks(|a[k].content|))
            + if t == k then 0 else Total(DataBlocks(|b[t].content|)) - Total(DataBlocks(|a[t].content|))
  {
    hide Owned, Total, DataBlocks;
    OwnedUpdate(a, k, b[k]);
    if t == k {
      assert b == a[k := b[k]];
    } else {
      TwoUpdates(a, b, k, t);
      OwnedUpdate(a[k := b[k]], t, b[t]);
    }
  }

  lemma TwoUpdates(a: Table, b: Table, k: nat, t: nat)
    requires k < |a| && t < |a| == |b| && k != t && forall l :: 0 <= l < |a| && l != k && l != t ==> b[l] == a[l]
    ensures b == a[k := b[k]][t := b[t]]
  {
  }

  lemma NoBlocks()
    ensures Total(DataBlocks(0)) == 0
  {
  }

  /** When blocks are lost. */
  lemma ShedExact(a: Table, op: Op)
    requires TableOk(a) && Asked(a, op)
    ensures Shed(a, op) <= 3
    ensures Shed(a, op) > 0 <==>
              && op.RemoveName? && a[op.dir].kind == Directory && Lookup(a, op.dir, op.name).Some?
              && |EntriesOf(a, op.dir)| % 16 == 1
  {
    hide Lookup, TableOk;
    if op.RemoveName? && a[op.dir].kind == Directory {
      RecordsWhole(a, op.dir);
      CountRecords(a, op.dir);
    }
  }

  lemma CountRecords(a: Table, k: nat)
    requires k < |a| && |a[k].content| % DIRENT_SZ == 0
    ensures |a[k].content| == DIRENT_SZ * |EntriesOf(a, k)|
  {
  }

  /** Nothing is lost in a trace exactly if no operation of it loses anything. */
  lemma {:induction false} NoneShed(states: seq<Table>, ops: seq<Op>, n: nat)
    requires IsTrace(states, ops) && n <= |ops|
    ensures ShedTo(states, ops, n) == 0 <==> forall i: nat :: i < n ==> Shed(states[i], ops[i]) == 0
  {
    hide Shed;
    if n > 0 { NoneShed(states, ops, n - 1); }
  }

  lemma {:induction false} ShedPrefix(states: seq<Table>, ops: seq<Op>, n: nat, a: Table, op: Op)
    requires IsTrace(states, ops) && IsTrace(states + [a], ops + [op]) && n <= |ops|
    ensures ShedTo(states + [a], ops + [op], n) == ShedTo(states, ops, n)
  {
    hide Shed, Asked, Apply, TableOk;
    if n > 0 { ShedPrefix(states, ops, n - 1, a, op); }
  }

  /** In a directory of full blocks, making a file and removing it again loses a block; the directory is as long as it
      was, so this can go on until the device is full. */
  lemma MakeRemoveLoses(a: Table, k: nat, name: Name)
    requires TableOk(a) && Asked(a, MakeInode(k, name, File)) && Readable(name)
    requires Lookup(a, k, name).None? && |a[k].content| % BLOCK_SZ == 0
    ensures var b := Apply(a, MakeInode(k, name, File));
            && TableOk(b) && Asked(b, RemoveName(k, name)) && Shed(b, RemoveName(k, name)) >= 1
            && k < |Apply(b, RemoveName(k, name))| && |Apply(b, RemoveName(k, name))[k].content| == |a[k].content|
  {
    hide Entries, Lookup, FindName, TableOk, Encode, SwapRemove, Readable;
    var b := Apply(a, MakeInode(k, name, File));
    CreateOk(a, k, name, File);
    CreateAppended(a, k, name, File);
    var es := EntriesOf(a, k);
    assert EntriesOf(b, k) == es + [Dirent(name, |a|)];
    LookupFound(a, k, name);
    LookupFound(b, k, name);
    LastFound(es, Dirent(name, |a|));
    RecordsWhole(b, k);
    SwapLength(b[k].content, |es|);
  }

  /** A shortest such trace: the root truncated, a file made in it and removed. */
  lemma LeakingTrace(states: seq<Table>, ops: seq<Op>)
    requires IsTrace(states, ops) && ops == [Truncate(0), MakeInode(0, [97], File), RemoveName(0, [97])]
    ensures ShedTo(states, ops, 3) >= 1
  {
    hide TableOk, Shed, Asked;
    var a := states[1];
    assert a == Apply(states[0], ops[0]) && states[2] == Apply(a, ops[1]);
    NothingListed(a);
    MakeRemoveLoses(a, 0, [97]);
    assert ShedTo(states, ops, 3) == ShedTo(states, ops, 2) + Shed(states[2], ops[2]);
  }

  lemma NothingListed(a: Table)
    requires 0 < |a| && a[0].content == []
    ensures Lookup(a, 0, [97]).None?
  {
  }

  lemma LastFound(es: seq<Dirent>, e: Dirent)
    requires FindName(es, e.name) == |es|
    ensures FindName(es + [e], e.name) == |es|
  {
    hide FindName;
    FoundAt(es + [e], e.name, |es|);
  }

  // ---- the volume ----

  /** The blocks of the first n inodes, one after the other. */
  ghost function Held(g: Geometry, d: Volume, n: nat): seq<u32> {
    if n == 0 then [] else Held(g, d, n - 1) + BlocksOf(g, d, n - 1)
  }

  /** Block b belongs to one of the first n inodes. */
  ghost predicate HasOwner(g: Geometry, d: Volume, n: nat, b: nat) {
    exists k: nat :: k < n && b in BlocksOf(g, d, k)
  }

  /** Blocks that are marked as used and belong to none of the first n inodes, by position in the data area. */
  ghost function Leaked(g: Geometry, d: Volume, n: nat): set<nat> {
    set p | p in InUse(g, d) && !HasOwner(g, d, n, g.DataStart() + p)
  }

  lemma {:induction false} HeldIs(g: Geometry, d: Volume, n: nat, b: nat)
    ensures b in Held(g, d, n) <==> HasOwner(g, d, n, b)
  {
    hide BlocksOf;
    if n > 0 {
      HeldIs(g, d, n - 1, b);
      assert b in BlocksOf(g, d, n - 1) ==> HasOwner(g, d, n, b);
    }
  }

  lemma {:induction false} HeldOnce(g: Geometry, d: Volume, n: nat)
    requires FsInv(g, d) && n <= g.InodeCount()
    ensures NoDup(Held(g, d, n))
  {
    hide BlocksOf, FsInv, NodeAt;
    if n > 0 {
      HeldOnce(g, d, n - 1);
      TreeOnce(g, d, n - 1);
      HeldApart(g, d, n - 1);
      NoDupConcat(Held(g, d, n - 1), BlocksOf(g, d, n - 1));
    }
  }

  lemma HeldApart(g: Geometry, d: Volume, n: nat)
    requires FsInv(g, d) && n < g.InodeCount()
    ensures Disjoint(Held(g, d, n), BlocksOf(g, d, n))
  {
    hide BlocksOf, FsInv, Held;
    forall b | b in Held(g, d, n) ensures b !in BlocksOf(g, d, n) {
      HeldIs(g, d, n, b);
      var k: nat :| k < n && b in BlocksOf(g, d, k);
      Apart(g, d, k, n);
    }
  }

  lemma TreeOnce(g: Geometry, d: Volume, k: nat)
    requires FsInv(g, d) && k < g.InodeCount()
    ensures NoDup(BlocksOf(g, d, k)) && forall b :: b in BlocksOf(g, d, k) ==> Used(g, d, b)
  {
    hide BlocksOf, NoDup, NodeAt, Unshared, FreeZero, BitsInside, TailZero, Typed, Used;
    assert NodeOk(g, d, k);
  }

  lemma Apart(g: Geometry, d: Volume, k: nat, l: nat)
    requires FsInv(g, d) && k < l < g.InodeCount()
    ensures Disjoint(BlocksOf(g, d, k), BlocksOf(g, d, l))
  {
    hide BlocksOf, NodeOk, FreeZero, BitsInside, Typed, Disjoint;
  }

  lemma {:induction false} HeldLength(g: Geometry, d: Volume, a: Table, n: nat)
    requires Represents(g, d, a) && n <= |a|
    ensures |Held(g, d, n)| == Owned(a[..n])
  {
    hide Represents, NodeAt, Content, Tree, Total, DataBlocks;
    if n > 0 {
      HeldLength(g, d, a, n - 1);
      FirstShown(g, d, a, n - 1);
      ContentLength(d, NodeAt(g, d, n - 1));
      TreeLength(d, NodeAt(g, d, n - 1), DataBlocks(|a[n - 1].content|));
      assert a[..n][..n - 1] == a[..n - 1];
    }
  }

  /** Positions in s whose block is not in h. */
  ghost function Rest(s: set<nat>, base: nat, h: seq<u32>): set<nat> {
    set p | p in s && base + p !in h
  }

  lemma {:induction false} RestSize(s: set<nat>, base: nat, h: seq<u32>)
    requires NoDup(h) && forall b :: b in h ==> base <= b && b - base in s
    ensures |Rest(s, base, h)| + |h| == |s|
  {
    if h == [] {
      assert Rest(s, base, h) == s;
    } else {
      var n := |h| - 1;
      assert h == h[..n] + [h[n]];
      NoDupSplit(h[..n], [h[n]]);
      assert h[n] in h && forall b :: b in h[..n] ==> b in h;
      RestSize(s, base, h[..n]);
      assert Rest(s, base, h) == Rest(s, base, h[..n]) - {h[n] - base};
    }
  }

  lemma UsedInUse(g: Geometry, d: Volume, b: nat)
    requires g.Valid() && Used(g, d, b)
    ensures g.DataStart() <= b && b - g.DataStart() in InUse(g, d)
  {
    hide Bit;
  }

  /** The blocks in use are those of the trees and the leaked ones. */
  lemma LeakedSize(g: Geometry, d: Volume, a: Table)
    requires FsInv(g, d) && Represents(g, d, a)
    ensures |Leaked(g, d, |a|)| + Owned(a) == |InUse(g, d)|
  {
    hide FsInv, Represents, Held, NoDup, InUse, Owned, Leaked, Rest;
    TableFits(g, d, a);
    HeldOnce(g, d, |a|);
    HeldLength(g, d, a, |a|);
    assert a[..|a|] == a;
    HeldInUse(g, d, |a|);
    LeakedRest(g, d, |a|);
    RestSize(InUse(g, d), g.DataStart(), Held(g, d, |a|));
  }

  lemma TableFits(g: Geometry, d: Volume, a: Table)
    requires Represents(g, d, a)
    ensures |a| <= g.InodeCount()
  {
    hide Shown, Bit;
  }

  lemma Divided(g: Geometry, d: Volume)
    requires FsInv(g, d)
    ensures g.Valid()
  {
    hide NodeOk, Unshared, FreeZero, BitsInside;
    ValidOf(g, d);
  }

  lemma HeldInUse(g: Geometry, d: Volume, n: nat)
    requires FsInv(g, d) && n <= g.InodeCount()
    ensures forall b :: b in Held(g, d, n) ==> g.DataStart() <= b && b - g.DataStart() in InUse(g, d)
  {
    hide FsInv, Held, InUse, Used;
    assert g.Valid() by { Divided(g, d); }
    forall b | b in Held(g, d, n) ensures g.DataStart() <= b && b - g.DataStart() in InUse(g, d) {
      HeldUsed(g, d, n, b);
      UsedInUse(g, d, b);
    }
  }

  lemma LeakedRest(g: Geometry, d: Volume, n: nat)
    ensures Leaked(g, d, n) == Rest(InUse(g, d), g.DataStart(), Held(g, d, n))
  {
    hide InUse, HasOwner, Held;
    forall b: nat ensures HasOwner(g, d, n, b) <==> b in Held(g, d, n) { HeldIs(g, d, n, b); }
  }

  lemma HeldUsed(g: Geometry, d: Volume, n: nat, b: nat)
    requires FsInv(g, d) && n <= g.InodeCount() && b in Held(g, d, n)
    ensures Used(g, d, b)
  {
    hide FsInv, BlocksOf, Used, NodeAt, Held;
    HeldIs(g, d, n, b);
    var k: nat :| k < n && b in BlocksOf(g, d, k);
    TreeOnce(g, d, k);
  }
}
