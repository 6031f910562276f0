/** Directories as maps and link counts, over whole runs of namespace operations: any directory, any target, any name
    without NUL that is not a dot. */
module Bindings {
  import opened Basics
  import opened Disk
  import opened Contents
  import opened Dirents
  import opened FileTable
  import opened Namespace

  /** A name a caller may give: not too long, no NUL, not one of the dots.  It may be empty or hold slashes. */
  ghost predicate NameOk(name: Name) {
    Readable(name) && !IsDot(name)
  }

  /** A name that reads back as it was written. */
  ghost predicate Readable(name: Name) {
    |name| <= NAME_LENGTH_LIMIT && NulFree(name)
  }

  /** The link count of every inode is the number of entries that name it, dots aside; the root has one more. */
  ghost predicate LinksOk(a: Table) {
    forall t: nat :: t < |a| ==> a[t].nlink == Links(a, t) + if t == 0 then 1 else 0
  }

  ghost predicate UniqueAll(a: Table) {
    forall k: nat :: k < |a| && a[k].kind == Directory ==> UniqueNames(EntriesOf(a, k))
  }

  /** Every directory is a map from names to inodes, and every link count is right. */
  ghost predicate MapInv(a: Table) {
    TableOk(a) && UniqueAll(a) && LinksOk(a)
  }

  ghost predicate OnlyDots(es: seq<Dirent>) {
    forall j :: 0 <= j < |es| ==> IsDot(es[j].name)
  }

  /** The table of a freshly made volume. */
  function Fresh(): Table {
    [INode(Directory, 1, DotEntries(0, 0))]
  }

  // ---- adding one entry ----

  /** b is a with entry e appended to directory k, and possibly more inodes. */
  ghost predicate Appended(a: Table, b: Table, k: nat, e: Dirent) {
    && k < |a| <= |b| && a[k].kind == Directory
    && EntriesOf(b, k) == EntriesOf(a, k) + [e]
    && (forall l: nat :: l < |a| ==> b[l].kind == a[l].kind)
    && (forall l: nat :: l < |a| && l != k && a[l].kind == Directory ==> EntriesOf(b, l) == EntriesOf(a, l))
  }

  lemma AppendLinks(a: Table, b: Table, k: nat, e: Dirent, t: nat)
    requires Appended(a, b, k, e) && !IsDot(e.name)
    ensures CountTo(b, |a|, t) == Links(a, t) + if e.inum == t then 1 else 0
  {
    hide EntriesOf, CountIn, IsDot;
    CountToChange(a, b, |a|, k, t);
    CountInAppend(EntriesOf(a, k), e, t);
  }

  lemma AppendUnique(a: Table, b: Table, k: nat, e: Dirent, l: nat)
    requires Appended(a, b, k, e) && UniqueAll(a) && FindName(EntriesOf(a, k), e.name) == |EntriesOf(a, k)|
    requires l < |a| && a[l].kind == Directory
    ensures UniqueNames(EntriesOf(b, l))
  {
    hide EntriesOf, FindName, ToMap, UniqueNames;
    if l == k { AppendIsAdd(EntriesOf(a, k), e); }
  }

  lemma LookupFound(a: Table, k: nat, name: Name)
    requires k < |a|
    ensures Lookup(a, k, name).Some? <==> FindName(EntriesOf(a, k), name) < |EntriesOf(a, k)|
    ensures Lookup(a, k, name).Some? ==>
              Lookup(a, k, name).value == EntriesOf(a, k)[FindName(EntriesOf(a, k), name)].inum
  {
    hide EntriesOf;
  }

  /** No entry names an inode that does not exist. */
  lemma NoLinksBeyond(a: Table, t: nat)
    requires TableOk(a) && t >= |a|
    ensures Links(a, t) == 0
  {
    hide EntriesOf, CountIn, WellFormed;
    forall l: nat | l < |a| ensures CountIn(Listing(a, l), t) == 0 {
      assert DirOk(a, l);
      CountInZero(Listing(a, l), t);
    }
    CountToZero(a, |a|, t);
  }

  lemma CreateAppended(a: Table, k: nat, name: Name, kind: Kind)
    requires TableOk(a) && k < |a| < 0x1_0000_0000 && a[k].kind == Directory && Readable(name)
    ensures Appended(a, Create(a, k, name, kind), k, Dirent(name, |a|))
  {
    hide Entries, Encode, Decode, DotEntries, TableOk;
    CreateOk(a, k, name, kind);
    EncodeDecode(Dirent(name, |a|));
    var b := Create(a, k, name, kind);
    forall l: nat | l < |a| && l != k ensures b[l] == a[l] { }
  }

  lemma DotsCount(b: Table, n: nat, k: u32, t: nat)
    requires n < |b| && n < 0x1_0000_0000 && b[n].content == DotEntries(n, k)
    ensures CountIn(EntriesOf(b, n), t) == 0
  {
    hide DotEntries;
    DotsOk(n, k);
    CountInZero(EntriesOf(b, n), t);
  }

  lemma TwoDots(b: Table, n: nat, k: u32)
    requires n < |b| && n < 0x1_0000_0000 && EntriesOf(b, n) == [Dirent(DOT, n), Dirent(DOT_DOT, k)]
    ensures Lookup(b, n, DOT) == Some(n) && Lookup(b, n, DOT_DOT) == Some(k)
    ensures UniqueNames(EntriesOf(b, n)) && OnlyDots(EntriesOf(b, n))
  {
    hide EntriesOf;
    var es := EntriesOf(b, n);
    assert es[0].name == DOT && es[1].name == DOT_DOT && DOT != DOT_DOT;
    assert FindName(es, DOT) == 0 && FindName(es, DOT_DOT) == 1;
  }

  lemma CreateLinks(a: Table, k: nat, name: Name, kind: Kind)
    requires TableOk(a) && LinksOk(a) && k < |a| < 0x1_0000_0000 && a[k].kind == Directory && NameOk(name)
    ensures LinksOk(Create(a, k, name, kind))
  {
    hide EntriesOf, CountIn, TableOk, DotEntries, Encode, NulFree;
    var b, e := Create(a, k, name, kind), Dirent(name, |a|);
    CreateAppended(a, k, name, kind);
    forall t: nat | t < |b| ensures b[t].nlink == Links(b, t) + if t == 0 then 1 else 0 {
      AppendLinks(a, b, k, e, t);
      NoLinksBeyond(a, |a|);
      if kind == Directory { DotsCount(b, |a|, k, t); }
      assert CountIn([], t) == 0 by { CountInZero([], t); }
    }
  }

  lemma CreateUnique(a: Table, k: nat, name: Name, kind: Kind)
    requires TableOk(a) && UniqueAll(a) && k < |a| < 0x1_0000_0000 && a[k].kind == Directory && Readable(name)
    requires Lookup(a, k, name).None?
    ensures UniqueAll(Create(a, k, name, kind))
  {
    hide Entries, FindName, Lookup, TableOk, NulFree, Appended, DotEntries, UniqueNames, Encode;
    var b, e := Create(a, k, name, kind), Dirent(name, |a|);
    CreateAppended(a, k, name, kind);
    LookupFound(a, k, name);
    forall l: nat | l < |b| && b[l].kind == Directory ensures UniqueNames(EntriesOf(b, l)) {
      if l < |a| {
        AppendUnique(a, b, k, e, l);
      } else {
        DotsOk(|a|, k);
        TwoDots(b, |a|, k);
      }
    }
  }

  lemma ShortName(name: Name)
    requires NameOk(name)
    ensures |name| <= NAME_LENGTH_LIMIT && Readable(name) && !IsDot(name)
  {
  }

  /** Creating a file or a directory keeps names unique and link counts right. */
  lemma CreateKeeps(a: Table, k: nat, name: Name, kind: Kind)
    requires MapInv(a) && k < |a| < 0x1_0000_0000 && a[k].kind == Directory && NameOk(name)
    requires Lookup(a, k, name).None?
    ensures MapInv(Create(a, k, name, kind))
  {
    hide NameOk, Lookup, TableOk, UniqueAll, LinksOk;
    ShortName(name);
    CreateOk(a, k, name, kind);
    CreateUnique(a, k, name, kind);
    CreateLinks(a, k, name, kind);
  }

  lemma LinkAppended(a: Table, k: nat, name: Name, src: nat)
    requires TableOk(a) && k < |a| && src < |a| && src < 0x1_0000_0000 && a[k].kind == Directory && Readable(name)
    ensures Appended(a, Link(a, k, name, src), k, Dirent(name, src))
  {
    hide Entries, Encode, Decode, TableOk;
    LinkOk(a, k, name, src);
    EncodeDecode(Dirent(name, src));
  }

  /** A second name, for a file or a directory, keeps the counts right exactly if the count does not wrap. */
  lemma LinkExact(a: Table, k: nat, name: Name, src: nat)
    requires MapInv(a) && k < |a| && src < |a| && src < 0x1_0000_0000 && a[k].kind == Directory && NameOk(name)
    requires Lookup(a, k, name).None?
    ensures MapInv(Link(a, k, name, src)) <==> a[src].nlink < 0xFFFF_FFFF
  {
    hide EntriesOf, Lookup, TableOk, NulFree, Links, UniqueAll, Appended, Encode;
    var b, e := Link(a, k, name, src), Dirent(name, src);
    LinkAppended(a, k, name, src);
    LinkOk(a, k, name, src);
    LinkUnique(a, k, name, src);
    LinkKinds(a, k, name, src);
    forall t: nat ensures Links(b, t) == Links(a, t) + if t == src then 1 else 0 { LinksAppended(a, b, k, e, t); }
    assert b[src].nlink == (a[src].nlink as int + 1) % 0x1_0000_0000;
  }

  lemma LinkUnique(a: Table, k: nat, name: Name, src: nat)
    requires TableOk(a) && UniqueAll(a) && k < |a| && src < |a| && src < 0x1_0000_0000
    requires a[k].kind == Directory && Readable(name) && Lookup(a, k, name).None?
    ensures UniqueAll(Link(a, k, name, src))
  {
    hide EntriesOf, FindName, Lookup, TableOk, NulFree, UniqueNames, Appended, Encode;
    var b, e := Link(a, k, name, src), Dirent(name, src);
    LinkAppended(a, k, name, src);
    LookupFound(a, k, name);
    LinkKinds(a, k, name, src);
    forall l: nat | l < |b| && b[l].kind == Directory ensures UniqueNames(EntriesOf(b, l)) {
      AppendUnique(a, b, k, e, l);
    }
  }

  lemma LinksAppended(a: Table, b: Table, k: nat, e: Dirent, t: nat)
    requires Appended(a, b, k, e) && |b| == |a| && !IsDot(e.name)
    ensures Links(b, t) == Links(a, t) + if t == e.inum then 1 else 0
  {
    hide Appended;
    AppendLinks(a, b, k, e, t);
  }

  lemma LinkKinds(a: Table, k: nat, name: Name, src: nat)
    requires k < |a| && src < |a| && src < 0x1_0000_0000 && |name| <= NAME_LENGTH_LIMIT
    ensures |Link(a, k, name, src)| == |a|
    ensures forall l: nat :: l < |a| ==> Link(a, k, name, src)[l].kind == a[l].kind
    ensures forall l: nat :: l < |a| && l != src ==> Link(a, k, name, src)[l].nlink == a[l].nlink
  {
    hide Encode;
  }

  // ---- removing one entry ----

  /** An entry that names t gives t a link. */
  lemma NamedHasLink(a: Table, k: nat, i: nat)
    requires k < |a| && a[k].kind == Directory && i < |EntriesOf(a, k)| && !IsDot(EntriesOf(a, k)[i].name)
    ensures Links(a, EntriesOf(a, k)[i].inum) > 0
  {
    hide EntriesOf, IsDot;
    CountInPositive(EntriesOf(a, k), EntriesOf(a, k)[i].inum, i);
    CountToPositive(a, |a|, k, EntriesOf(a, k)[i].inum);
  }

  /** The table between the two halves of `unlink`: entry i of directory k is gone, the link count still to come. */
  function Swapped(a: Table, k: nat, i: nat): Table
    requires k < |a| && |a[k].content| % DIRENT_SZ == 0 && i < |EntriesOf(a, k)|
  {
    a[k := a[k].(content := SwapRemove(a[k].content, i))]
  }

  lemma SwappedEntries(a: Table, k: nat, i: nat)
    requires k < |a| && a[k].kind == Directory && |a[k].content| % DIRENT_SZ == 0 && i < |EntriesOf(a, k)|
    ensures EntriesOf(Swapped(a, k, i), k) == EntriesSwapRemove(EntriesOf(a, k), i)
    ensures forall u: nat :: Links(Swapped(a, k, i), u) == Links(a, u) - Drops(EntriesOf(a, k)[i], u)
  {
    hide Entries, CountIn, SwapRemove, EntriesSwapRemove, IsDot;
    var b := Swapped(a, k, i);
    SwapRemoveEntries(a[k].content, i);
    forall u: nat ensures Links(b, u) == Links(a, u) - Drops(EntriesOf(a, k)[i], u) {
      CountToChange(a, b, |a|, k, u);
      CountInSwap(EntriesOf(a, k), i, u);
    }
  }

  /** What inode u loses when entry e goes. */
  function Drops(e: Dirent, u: nat): nat {
    if e.inum == u && !IsDot(e.name) then 1 else 0
  }

  /** Clearing inode t takes away the links its entries were. */
  lemma ClearedLinks(a: Table, b: Table, t: nat, u: nat)
    requires t < |a| == |b| && b[t].kind == a[t].kind && (a[t].kind == Directory ==> EntriesOf(b, t) == [])
    requires forall l: nat :: l < |a| && l != t ==> b[l].kind == a[l].kind && b[l].content == a[l].content
    ensures Links(b, u) == Links(a, u) - CountIn(Listing(a, t), u)
  {
    hide Entries, CountIn;
    CountToChange(a, b, |a|, t, u);
    CountInZero([], u);
  }

  /** Does removing entry i of directory k take the last link of a directory?  Its contents then go too. */
  ghost predicate LastOfDir(a: Table, k: nat, i: nat)
    requires k < |a| && i < |EntriesOf(a, k)| && EntriesOf(a, k)[i].inum < |a|
  {
    var t := EntriesOf(a, k)[i].inum;
    a[t].kind == Directory && a[t].nlink == 1
  }

  /** What the directory named by entry i of directory k holds once that entry is gone. */
  ghost function Rest(a: Table, k: nat, i: nat): seq<Dirent>
    requires k < |a| && i < |EntriesOf(a, k)| && EntriesOf(a, k)[i].inum < |a|
  {
    var t := EntriesOf(a, k)[i].inum;
    if t == k then EntriesSwapRemove(EntriesOf(a, k), i) else EntriesOf(a, t)
  }

  /** When `unlink` keeps the counts: the name is not a dot, and a directory that loses its last name holds nothing but
      dots; or a dot goes from a directory whose one name lies in itself, its only other entry. */
  ghost predicate KeepsCounts(a: Table, k: nat, i: nat)
    requires k < |a| && i < |EntriesOf(a, k)| && EntriesOf(a, k)[i].inum < |a|
  {
    var e := EntriesOf(a, k)[i];
    if !LastOfDir(a, k, i) then !IsDot(e.name)
    else if !IsDot(e.name) then OnlyDots(Rest(a, k, i))
    else OnlyNames(Rest(a, k, i), e.inum) && CountIn(Rest(a, k, i), e.inum) == 1
  }

  ghost predicate OnlyNames(es: seq<Dirent>, t: nat) {
    forall j :: 0 <= j < |es| ==> IsDot(es[j].name) || es[j].inum == t
  }

  /** The links inode u loses with entry i of directory k. */
  ghost function Lost(a: Table, k: nat, i: nat, u: nat): nat
    requires k < |a| && i < |EntriesOf(a, k)| && EntriesOf(a, k)[i].inum < |a|
  {
    Drops(EntriesOf(a, k)[i], u) + if LastOfDir(a, k, i) then CountIn(Rest(a, k, i), u) else 0
  }

  lemma UnlinkLinks(a: Table, k: nat, i: nat, u: nat)
    requires k < |a| && a[k].kind == Directory && |a[k].content| % DIRENT_SZ == 0 && i < |EntriesOf(a, k)|
    requires EntriesOf(a, k)[i].inum < |a|
    ensures Links(Unlink(a, k, i), u) == Links(a, u) - Lost(a, k, i, u)
  {
    hide Entries, CountIn, SwapRemove, EntriesSwapRemove, IsDot, Links;
    var t, s, b := EntriesOf(a, k)[i].inum, Swapped(a, k, i), Unlink(a, k, i);
    SwappedEntries(a, k, i);
    if LastOfDir(a, k, i) {
      EmptyDir();
      ClearedLinks(s, b, t, u);
    } else {
      SameLinks(s, b, t, u);
    }
  }

  lemma SameLinks(a: Table, b: Table, t: nat, u: nat)
    requires t < |a| == |b| && b[t].kind == a[t].kind && (a[t].kind == Directory ==> b[t].content == a[t].content)
    requires forall l: nat :: l < |a| && l != t ==> b[l].kind == a[l].kind && b[l].content == a[l].content
    ensures Links(b, u) == Links(a, u)
  {
    hide Entries, CountIn;
    CountToChange(a, b, |a|, t, u);
  }

  lemma UnlinkUnique(a: Table, k: nat, i: nat)
    requires UniqueAll(a) && k < |a| && a[k].kind == Directory && |a[k].content| % DIRENT_SZ == 0
    requires i < |EntriesOf(a, k)| && EntriesOf(a, k)[i].inum < |a|
    ensures UniqueAll(Unlink(a, k, i))
  {
    hide Entries, SwapRemove, EntriesSwapRemove, Links, ToMap, UniqueNames;
    var b := Unlink(a, k, i);
    SwappedEntries(a, k, i);
    SwapUnique(EntriesOf(a, k), i);
    EmptyDir();
    NoNames();
    forall l: nat | l < |b| && b[l].kind == Directory ensures UniqueNames(EntriesOf(b, l)) {
      if l == k && b[l].content != [] { assert b[l].content == Swapped(a, k, i)[l].content; }
    }
  }

  lemma NoNames()
    ensures UniqueNames([])
  {
  }

  /** Entries lose nobody a link exactly if they are dots. */
  lemma CountsNone(es: seq<Dirent>, n: nat, t: nat)
    requires forall j :: 0 <= j < |es| ==> es[j].inum < n
    ensures (forall u: nat :: u < n && u != t ==> CountIn(es, u) == 0) <==> OnlyNames(es, t)
    ensures OnlyNames(es, t) && CountIn(es, t) == 0 <==> OnlyDots(es)
  {
    hide CountIn, IsDot;
    if OnlyNames(es, t) {
      forall u: nat | u != t ensures CountIn(es, u) == 0 { CountInZero(es, u); }
    } else {
      var j :| 0 <= j < |es| && !IsDot(es[j].name) && es[j].inum != t;
      CountInPositive(es, es[j].inum, j);
    }
    if OnlyDots(es) {
      CountInZero(es, t);
    } else if OnlyNames(es, t) {
      var j :| 0 <= j < |es| && !IsDot(es[j].name);
      CountInPositive(es, t, j);
    }
  }

  lemma RestNames(a: Table, k: nat, i: nat)
    requires TableOk(a) && k < |a| && a[k].kind == Directory && i < |EntriesOf(a, k)| && LastOfDirAt(a, k, i)
    ensures forall j :: 0 <= j < |Rest(a, k, i)| ==> Rest(a, k, i)[j].inum < |a|
  {
    hide Entries, WellFormed;
    var es, t := EntriesOf(a, k), EntriesOf(a, k)[i].inum;
    assert DirOk(a, k) && DirOk(a, t);
    if t == k {
      forall j | 0 <= j < |es| - 1 ensures EntriesSwapRemove(es, i)[j].inum < |a| { SwapAt(es, i, j); }
    }
  }

  ghost predicate LastOfDirAt(a: Table, k: nat, i: nat)
    requires k < |a| && i < |EntriesOf(a, k)|
  {
    EntriesOf(a, k)[i].inum < |a| && LastOfDir(a, k, i)
  }

  /** Removing any entry keeps names unique; it keeps the counts right exactly under `KeepsCounts`. */
  lemma UnlinkExact(a: Table, k: nat, i: nat)
    requires MapInv(a) && k < |a| && a[k].kind == Directory && |a[k].content| % DIRENT_SZ == 0
    requires i < |EntriesOf(a, k)| && EntriesOf(a, k)[i].inum < |a|
    ensures TableOk(Unlink(a, k, i)) && UniqueAll(Unlink(a, k, i))
    ensures MapInv(Unlink(a, k, i)) <==> KeepsCounts(a, k, i)
  {
    hide Entries, SwapRemove, Links, TableOk, UniqueAll, CountIn, IsDot, OnlyDots, OnlyNames, Rest;
    var b, e := Unlink(a, k, i), EntriesOf(a, k)[i];
    var t := e.inum;
    UnlinkOk(a, k, i);
    UnlinkUnique(a, k, i);
    forall u: nat ensures Links(b, u) == Links(a, u) - Lost(a, k, i, u) { UnlinkLinks(a, k, i, u); }
    if !IsDot(e.name) { NamedHasLink(a, k, i); }
    UnlinkCounts(a, b, k, i);
    LostExact(a, k, i);
  }

  /** `KeepsCounts` says just that. */
  lemma LostExact(a: Table, k: nat, i: nat)
    requires TableOk(a) && k < |a| && a[k].kind == Directory && i < |EntriesOf(a, k)| && EntriesOf(a, k)[i].inum < |a|
    ensures KeepsCounts(a, k, i)
       <==> (forall u: nat :: u < |a| && u != EntriesOf(a, k)[i].inum ==> Lost(a, k, i, u) == 0)
            && Lost(a, k, i, EntriesOf(a, k)[i].inum) == 1
  {
    hide EntriesOf, TableOk, CountIn, IsDot, OnlyDots, OnlyNames, Rest, LastOfDir;
    var e := EntriesOf(a, k)[i];
    var t := e.inum;
    assert Drops(e, t) == if IsDot(e.name) then 0 else 1;
    if LastOfDir(a, k, i) {
      var es := Rest(a, k, i);
      RestNames(a, k, i);
      CountsNone(es, |a|, t);
      forall u: nat | u != t ensures Lost(a, k, i, u) == CountIn(es, u) { }
      assert Lost(a, k, i, t) == Drops(e, t) + CountIn(es, t);
      if OnlyNames(es, t) {
        forall u: nat | u < |a| && u != t ensures Lost(a, k, i, u) == 0 { assert CountIn(es, u) == 0; }
      } else {
        var u: nat :| u < |a| && u != t && CountIn(es, u) != 0;
        assert Lost(a, k, i, u) != 0;
        assert !KeepsCounts(a, k, i);
      }
    }
  }

  /** The counts come out right exactly if nobody but t loses a link, and t loses one. */
  lemma UnlinkCounts(a: Table, b: Table, k: nat, i: nat)
    requires LinksOk(a) && k < |a| && i < |EntriesOf(a, k)| && EntriesOf(a, k)[i].inum < |a| == |b|
    requires forall u: nat :: Links(b, u) == Links(a, u) - Lost(a, k, i, u)
    requires var t := EntriesOf(a, k)[i].inum;
             && (forall u: nat :: u < |a| && u != t ==> b[u].nlink == a[u].nlink)
             && b[t].nlink == if a[t].nlink == 0 then 0xFFFF_FFFF else a[t].nlink - 1
    ensures LinksOk(b) <==> (forall u: nat :: u < |a| && u != EntriesOf(a, k)[i].inum ==> Lost(a, k, i, u) == 0)
                            && Lost(a, k, i, EntriesOf(a, k)[i].inum) == 1
  {
    hide EntriesOf, Links, Lost;
    var t := EntriesOf(a, k)[i].inum;
    assert a[t].nlink == Links(a, t) + if t == 0 then 1 else 0;
  }

  /** So removing a directory that names something, here one with a file in it, spoils the counts. */
  lemma UnlinkSpoils(dir: Name, file: Name)
    requires NameOk(dir) && NameOk(file)
    ensures var a := Create(Create(Fresh(), 0, dir, Directory), 1, file, File);
            && MapInv(a) && |EntriesOf(a, 0)| == 3 && EntriesOf(a, 0)[2] == Dirent(dir, 1)
            && |a[0].content| % DIRENT_SZ == 0 && !MapInv(Unlink(a, 0, 2))
  {
    hide Entries, TableOk, Links, DotEntries, UniqueNames, NulFree, Encode, CountIn, IsDot, FindName, Lookup;
    var f := Fresh();
    var c := Create(f, 0, dir, Directory);
    var a := Create(c, 1, file, File);
    FreshInv();
    DotsOk(0, 0);
    TwoDots(f, 0, 0);
    LookupFound(f, 0, dir);
    CreateKeeps(f, 0, dir, Directory);
    CreateAppended(f, 0, dir, Directory);
    DotsOk(1, 0);
    TwoDots(c, 1, 0);
    LookupFound(c, 1, file);
    CreateKeeps(c, 1, file, File);
    CreateAppended(c, 1, file, File);
    assert EntriesOf(a, 0)[2] == Dirent(dir, 1) && EntriesOf(a, 1)[2] == Dirent(file, 2);
    ListedBelow(a, 0);
    assert a[1].nlink == 1 && a[1].kind == Directory;
    UnlinkExact(a, 0, 2);
  }

  /** Clearing an inode keeps the counts exactly if it is a file or holds nothing but dots. */
  lemma ClearExact(a: Table, k: nat)
    requires MapInv(a) && k < |a|
    ensures MapInv(ClearFile(a, k)) <==> a[k].kind == File || OnlyDots(EntriesOf(a, k))
  {
    hide Entries, Links, TableOk, CountIn, IsDot, UniqueNames, OnlyNames;
    var b := ClearFile(a, k);
    OneFileOk(a, k, b[k]);
    EmptyDir();
    NoNames();
    forall u: nat ensures Links(b, u) == Links(a, u) - CountIn(Listing(a, k), u) { ClearedLinks(a, b, k, u); }
    if a[k].kind == Directory {
      ListedBelow(a, k);
      CountsNone(EntriesOf(a, k), |a|, k);
      ClearCounts(a, b, k);
    } else {
      forall u: nat ensures CountIn(Listing(a, k), u) == 0 { CountInZero([], u); }
    }
  }

  lemma ListedBelow(a: Table, k: nat)
    requires TableOk(a) && k < |a| && a[k].kind == Directory
    ensures forall j :: 0 <= j < |EntriesOf(a, k)| ==> EntriesOf(a, k)[j].inum < |a|
    ensures |a[k].content| % DIRENT_SZ == 0
  {
    hide Entries;
    assert DirOk(a, k);
  }

  lemma ClearCounts(a: Table, b: Table, k: nat)
    requires LinksOk(a) && k < |a| == |b| && forall u: nat :: u < |a| ==> b[u].nlink == a[u].nlink
    requires forall u: nat :: Links(b, u) == Links(a, u) - CountIn(EntriesOf(a, k), u)
    ensures LinksOk(b) <==> forall u: nat :: u < |a| ==> CountIn(EntriesOf(a, k), u) == 0
  {
    hide EntriesOf, Links, CountIn;
    if LinksOk(b) {
      forall u: nat | u < |a| ensures CountIn(EntriesOf(a, k), u) == 0 { assert b[u].nlink == a[u].nlink; }
    } else {
      var u: nat :| u < |b| && b[u].nlink != Links(b, u) + if u == 0 then 1 else 0;
      assert a[u].nlink == Links(a, u) + if u == 0 then 1 else 0;
      assert CountIn(EntriesOf(a, k), u) != 0;
    }
  }

  /** So truncating a directory that names something, here the root with one file in it, spoils the counts. */
  lemma ClearSpoils(name: Name)
    requires NameOk(name)
    ensures var a := Create(Fresh(), 0, name, File); MapInv(a) && !MapInv(ClearFile(a, 0))
  {
    hide Entries, TableOk, Links, DotEntries, UniqueNames, NulFree, Encode;
    var a := Create(Fresh(), 0, name, File);
    FreshInv();
    DotsOk(0, 0);
    TwoDots(Fresh(), 0, 0);
    LookupFound(Fresh(), 0, name);
    CreateKeeps(Fresh(), 0, name, File);
    CreateAppended(Fresh(), 0, name, File);
    ClearExact(a, 0);
    assert EntriesOf(a, 0)[2] == Dirent(name, 1);
  }

  /** What a file holds is no matter. */
  lemma FileKeeps(a: Table, k: nat, content: seq<byte>)
    requires MapInv(a) && k < |a| && a[k].kind == File
    ensures MapInv(a[k := a[k].(content := content)])
  {
    hide Entries, Links, TableOk, UniqueNames;
    var b := a[k := a[k].(content := content)];
    OneFileOk(a, k, b[k]);
    forall u: nat ensures Links(b, u) == Links(a, u) { SameLinks(a, b, k, u); }
  }

  // ---- runs ----

  datatype Op =
    | MakeInode(dir: nat, name: Name, kind: Kind)
    | AddLink(dir: nat, name: Name, src: nat)
    | RemoveName(dir: nat, name: Name)
    | Write(file: nat, off: nat, buf: seq<byte>)
    | Truncate(inode: nat)

  /** What can be asked of the file system without a panic: inodes that exist, names that fit an entry. */
  ghost predicate Asked(a: Table, op: Op) {
    match op
    case MakeInode(k, name, _) => k < |a| < 0x1_0000_0000 && a[k].kind == Directory && |name| <= NAME_LENGTH_LIMIT
    case AddLink(k, name, src) =>
      && k < |a| && src < |a| && src < 0x1_0000_0000 && a[k].kind == Directory && |name| <= NAME_LENGTH_LIMIT
    case RemoveName(k, _) => k < |a|
    case Write(k, _, buf) => k < |a| && a[k].kind == File && buf != []
    case Truncate(k) => k < |a|
  }

  /** What keeps names and counts right, moreover: names without NUL other than the dots, counts that do not wrap, and
      removals and truncations that lose no link. */
  ghost predicate Allowed(a: Table, op: Op) {
    && Asked(a, op)
    && match op
       case MakeInode(_, name, _) => NameOk(name)
       case AddLink(_, name, src) => NameOk(name) && a[src].nlink < 0xFFFF_FFFF
       case RemoveName(k, name) =>
         var i := FindName(EntriesOf(a, k), name);
         a[k].kind == Directory && i < |EntriesOf(a, k)| ==> EntriesOf(a, k)[i].inum < |a| && KeepsCounts(a, k, i)
       case Write(_, _, _) => true
       case Truncate(k) => a[k].kind == Directory ==> OnlyDots(EntriesOf(a, k))
  }

  /** The operation as the file system carries it out. */
  ghost function Apply(a: Table, op: Op): Table
    requires TableOk(a) && Asked(a, op)
  {
    match op
    case MakeInode(k, name, kind) => if Lookup(a, k, name).Some? then a else Create(a, k, name, kind)
    case AddLink(k, name, src) => if Lookup(a, k, name).Some? then a else Link(a, k, name, src)
    case RemoveName(k, name) =>
      var i := FindName(EntriesOf(a, k), name);
      if a[k].kind == Directory && i < |EntriesOf(a, k)| then
        ListedBelow(a, k);
        Unlink(a, k, i)
      else a
    case Write(k, off, buf) => WriteFile(a, k, off, buf)
    case Truncate(k) => ClearFile(a, k)
  }

  lemma ApplyKeeps(a: Table, op: Op)
    requires MapInv(a) && Allowed(a, op)
    ensures MapInv(Apply(a, op))
  {
    hide LinksOk, UniqueAll, EntriesOf, Lookup, FindName, KeepsCounts, OnlyDots, NulFree, TableOk;
    match op
    case MakeInode(k, name, kind) => if Lookup(a, k, name).None? { CreateKeeps(a, k, name, kind); }
    case AddLink(k, name, src) => if Lookup(a, k, name).None? { LinkExact(a, k, name, src); }
    case RemoveName(k, name) =>
      var i := FindName(EntriesOf(a, k), name);
      if a[k].kind == Directory && i < |EntriesOf(a, k)| {
        ListedBelow(a, k);
        UnlinkExact(a, k, i);
      }
    case Write(k, off, buf) => FileKeeps(a, k, Splice(a[k].content, off, buf));
    case Truncate(k) => ClearExact(a, k);
  }

  /** `states` are the tables that `ops` make of a new volume one after the other. */
  ghost predicate IsTrace(states: seq<Table>, ops: seq<Op>) {
    && |states| == |ops| + 1 && states[0] == Fresh()
    && forall i: nat :: i < |ops| ==>
         TableOk(states[i]) && Asked(states[i], ops[i]) && states[i + 1] == Apply(states[i], ops[i])
  }

  /** A trace of which every operation was allowed when it was made. */
  ghost predicate IsRun(states: seq<Table>, ops: seq<Op>) {
    IsTrace(states, ops) && forall i: nat :: i < |ops| ==> Allowed(states[i], ops[i])
  }

  lemma FreshInv()
    ensures MapInv(Fresh())
  {
    hide DotEntries, Entries;
    var a := Fresh();
    DotsOk(0, 0);
    TwoDots(a, 0, 0);
    forall t: nat ensures Links(a, t) == 0 {
      CountInZero(EntriesOf(a, 0), t);
      CountToZero(a, 1, t);
    }
    assert DirOk(a, 0);
  }

  /** Every state of every run has unique names and right link counts. */
  lemma {:induction false} RunKeeps(states: seq<Table>, ops: seq<Op>, n: nat)
    requires IsRun(states, ops) && n < |states|
    ensures MapInv(states[n])
  {
    hide MapInv, Apply, Allowed, Asked, TableOk;
    if n == 0 {
      FreshInv();
    } else {
      RunKeeps(states, ops, n - 1);
      ApplyKeeps(states[n - 1], ops[n - 1]);
    }
  }
}
