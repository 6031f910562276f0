/** Ways up and the tree of directories, over whole runs: what `name_for_inode` relies on.  Link counts play no part. */
module DirTree {
  import opened Basics
  import opened Disk
  import opened Contents
  import opened Dirents
  import opened FileTable
  import opened Namespace
  import opened Bindings

  const SLASH: byte := 47

  /** What ".." of directory k says, if it is there. */
  function Parent(a: Table, k: nat): Option<u32>
    requires k < |a|
  {
    Lookup(a, k, DOT_DOT)
  }

  /** The ".." of every directory but the root, if it is there, is an older directory: going up comes to an end. */
  ghost predicate UpOk(a: Table) {
    && 0 < |a| && a[0].kind == Directory
    && forall k: nat :: 0 < k < |a| && a[k].kind == Directory && Parent(a, k).Some? ==>
         Parent(a, k).value < k && a[Parent(a, k).value].kind == Directory
  }

  ghost predicate DirInv(a: Table) {
    TableOk(a) && UniqueAll(a) && UpOk(a)
  }

  lemma DotsAreDots()
    ensures IsDot(DOT_DOT) && IsDot(DOT)
  {
  }

  // ---- adding one entry ----

  lemma FindAppend(es: seq<Dirent>, e: Dirent, name: Name)
    requires e.name != name
    ensures FindName(es + [e], name) == if FindName(es, name) < |es| then FindName(es, name) else |es| + 1
  {
    var i := FindName(es, name);
    var fs := es + [e];
    var j := FindName(fs, name);
    if i < |es| {
      assert fs[i] == es[i];
    } else {
      assert forall k :: 0 <= k < |es| ==> fs[k] == es[k];
    }
  }

  lemma FindNew(es: seq<Dirent>, e: Dirent)
    requires FindName(es, e.name) == |es|
    ensures FindName(es + [e], e.name) == |es|
  {
    var fs := es + [e];
    var j := FindName(fs, e.name);
    assert fs[|es|] == e && forall k :: 0 <= k < |es| ==> fs[k] == es[k];
  }

  /** Only the new name is found anew. */
  lemma AppendLookup(a: Table, b: Table, k: nat, e: Dirent, l: nat, name: Name)
    requires Appended(a, b, k, e) && l < |a| && a[l].kind == Directory && Lookup(a, k, e.name).None?
    ensures Lookup(b, l, name) == if l == k && e.name == name then Some(e.inum) else Lookup(a, l, name)
  {
    hide EntriesOf, FindName;
    if l == k {
      LookupFound(a, k, name);
      LookupFound(b, k, name);
      if e.name == name { FindNew(EntriesOf(a, k), e); } else { FindAppend(EntriesOf(a, k), e, name); }
    }
  }

  lemma CreateParts(a: Table, k: nat, name: Name, kind: Kind)
    requires TableOk(a) && k < |a| < 0x1_0000_0000 && a[k].kind == Directory && Readable(name)
    ensures var b := Create(a, k, name, kind);
            && Appended(a, b, k, Dirent(name, |a|)) && |b| == |a| + 1 && b[|a|].kind == kind
            && b[0].kind == a[0].kind
            && (kind == Directory ==>
                  && EntriesOf(b, |a|) == [Dirent(DOT, |a|), Dirent(DOT_DOT, k)]
                  && Lookup(b, |a|, DOT) == Some(|a|) && Lookup(b, |a|, DOT_DOT) == Some(k))
  {
    hide Encode, DotEntries, Entries, NulFree, TableOk, Lookup;
    CreateAppended(a, k, name, kind);
    if kind == Directory {
      DotsOk(|a|, k);
      TwoDots(Create(a, k, name, kind), |a|, k);
    }
  }

  // ---- losing entries ----

  /** Every directory of b holds some of what it held in a. */
  ghost predicate Shrunk(a: Table, b: Table) {
    && |b| == |a|
    && (forall l: nat :: l < |a| ==> b[l].kind == a[l].kind)
    && (forall l: nat :: l < |a| && a[l].kind == Directory ==> Sub(EntriesOf(a, l), EntriesOf(b, l)))
  }

  ghost predicate Sub(es: seq<Dirent>, fs: seq<Dirent>) {
    UniqueNames(fs) && forall x :: x in fs ==> x in es
  }

  lemma SubLookup(es: seq<Dirent>, fs: seq<Dirent>, name: Name)
    requires UniqueNames(es) && Sub(es, fs) && FindName(fs, name) < |fs|
    ensures FindName(es, name) < |es| && es[FindName(es, name)] == fs[FindName(fs, name)]
  {
    hide FindName;
    var x := fs[FindName(fs, name)];
    assert x in fs;
    var i :| 0 <= i < |es| && es[i] == x;
    FoundUnique(es, i);
  }

  lemma FoundUnique(es: seq<Dirent>, i: nat)
    requires UniqueNames(es) && i < |es|
    ensures FindName(es, es[i].name) == i
  {
    var j := FindName(es, es[i].name);
  }

  lemma ShrunkLookup(a: Table, b: Table, l: nat, name: Name)
    requires Shrunk(a, b) && UniqueAll(a) && l < |a| && a[l].kind == Directory && Lookup(b, l, name).Some?
    ensures Lookup(a, l, name) == Lookup(b, l, name)
  {
    hide EntriesOf, FindName, UniqueNames, Sub;
    LookupFound(a, l, name);
    LookupFound(b, l, name);
    SubLookup(EntriesOf(a, l), EntriesOf(b, l), name);
  }

  lemma SwapSub(es: seq<Dirent>, i: nat)
    requires UniqueNames(es) && i < |es|
    ensures Sub(es, EntriesSwapRemove(es, i))
  {
    hide EntriesSwapRemove, UniqueNames;
    SwapUnique(es, i);
    forall j | 0 <= j < |es| - 1 ensures EntriesSwapRemove(es, i)[j] in es { SwapAt(es, i, j); }
  }

  lemma SubTrivial(es: seq<Dirent>)
    requires UniqueNames(es)
    ensures Sub(es, es) && Sub(es, [])
  {
  }

  lemma UnlinkShrunk(a: Table, k: nat, i: nat)
    requires UniqueAll(a) && k < |a| && a[k].kind == Directory && |a[k].content| % DIRENT_SZ == 0
    requires i < |EntriesOf(a, k)| && EntriesOf(a, k)[i].inum < |a|
    ensures Shrunk(a, Unlink(a, k, i))
  {
    hide Entries, SwapRemove, EntriesSwapRemove, Links, UniqueNames, Sub;
    var b := Unlink(a, k, i);
    SwappedEntries(a, k, i);
    EmptyDir();
    SwapSub(EntriesOf(a, k), i);
    forall l: nat | l < |a| && a[l].kind == Directory ensures Sub(EntriesOf(a, l), EntriesOf(b, l)) {
      SubTrivial(EntriesOf(a, l));
      if l == k && b[l].content != [] { assert b[l].content == Swapped(a, k, i)[l].content; }
    }
  }

  lemma ClearShrunk(a: Table, k: nat)
    requires UniqueAll(a) && k < |a|
    ensures Shrunk(a, ClearFile(a, k))
  {
    hide Entries, UniqueNames, Sub;
    EmptyDir();
    forall l: nat | l < |a| && a[l].kind == Directory ensures Sub(EntriesOf(a, l), EntriesOf(ClearFile(a, k), l)) {
      SubTrivial(EntriesOf(a, l));
    }
  }

  lemma WriteShrunk(a: Table, k: nat, off: nat, buf: seq<byte>)
    requires UniqueAll(a) && k < |a| && a[k].kind == File
    ensures Shrunk(a, WriteFile(a, k, off, buf))
  {
    hide Entries, UniqueNames, Sub, Splice;
    forall l: nat | l < |a| && a[l].kind == Directory
      ensures Sub(EntriesOf(a, l), EntriesOf(WriteFile(a, k, off, buf), l))
    {
      SubTrivial(EntriesOf(a, l));
    }
  }

  lemma ShrunkUnique(a: Table, b: Table)
    requires Shrunk(a, b)
    ensures UniqueAll(b)
  {
    hide EntriesOf, UniqueNames;
    forall l: nat | l < |b| && b[l].kind == Directory ensures UniqueNames(EntriesOf(b, l)) {
      assert Sub(EntriesOf(a, l), EntriesOf(b, l));
    }
  }

  lemma ShrunkUp(a: Table, b: Table)
    requires UniqueAll(a) && UpOk(a) && Shrunk(a, b)
    ensures UpOk(b)
  {
    hide EntriesOf, Lookup, UniqueAll, Sub;
    forall k: nat | 0 < k < |b| && b[k].kind == Directory && Parent(b, k).Some?
      ensures Parent(b, k).value < k && b[Parent(b, k).value].kind == Directory
    {
      ShrunkLookup(a, b, k, DOT_DOT);
    }
  }

  // ---- ways up, whatever is linked where ----

  /** New names read back as given. */
  ghost predicate Legible(op: Op) {
    op.MakeInode? || op.AddLink? ==> Readable(op.name)
  }

  /** No operation gives a directory other than the root, which lacks its "..", one that is not an older directory. */
  ghost predicate UpFit(a: Table, op: Op)
    requires Asked(a, op)
  {
    match op
    case MakeInode(k, name, _) => name == DOT_DOT && Lookup(a, k, name).None? ==> k == 0
    case AddLink(k, name, src) =>
      name == DOT_DOT && Lookup(a, k, name).None? && k != 0 ==> src < k && a[src].kind == Directory
    case _ => true
  }

  lemma CreateUp(a: Table, k: nat, name: Name, kind: Kind)
    requires DirInv(a) && k < |a| < 0x1_0000_0000 && a[k].kind == Directory && Readable(name)
    requires Lookup(a, k, name).None?
    ensures DirInv(Create(a, k, name, kind)) <==> (name == DOT_DOT ==> k == 0)
  {
    hide TableOk, UniqueAll, EntriesOf, Lookup, NulFree, Create, Appended;
    var b, e := Create(a, k, name, kind), Dirent(name, |a|);
    CreateOk(a, k, name, kind);
    CreateUnique(a, k, name, kind);
    CreateParts(a, k, name, kind);
    AppendKinds(a, b, k, e);
    forall l: nat | l < |a| && a[l].kind == Directory
      ensures Parent(b, l) == if l == k && name == DOT_DOT then Some(|a|) else Parent(a, l)
    {
      AppendLookup(a, b, k, e, l, DOT_DOT);
    }
    if name == DOT_DOT && k != 0 { assert !UpOk(b); }
  }

  lemma AppendKinds(a: Table, b: Table, k: nat, e: Dirent)
    requires Appended(a, b, k, e)
    ensures |a| <= |b| && forall l: nat :: l < |a| ==> b[l].kind == a[l].kind
  {
    hide EntriesOf;
  }

  lemma LinkUp(a: Table, k: nat, name: Name, src: nat)
    requires DirInv(a) && k < |a| && src < |a| && src < 0x1_0000_0000 && a[k].kind == Directory && Readable(name)
    requires Lookup(a, k, name).None?
    ensures DirInv(Link(a, k, name, src))
       <==> (name == DOT_DOT && k != 0 ==> src < k && a[src].kind == Directory)
  {
    hide TableOk, UniqueAll, EntriesOf, Lookup, NulFree, Link, Appended;
    var b, e := Link(a, k, name, src), Dirent(name, src);
    LinkOk(a, k, name, src);
    LinkUnique(a, k, name, src);
    LinkAppended(a, k, name, src);
    LinkKinds(a, k, name, src);
    forall l: nat | l < |a| && a[l].kind == Directory
      ensures Parent(b, l) == if l == k && name == DOT_DOT then Some(src) else Parent(a, l)
    {
      AppendLookup(a, b, k, e, l, DOT_DOT);
    }
    if name == DOT_DOT && k != 0 && !(src < k && a[src].kind == Directory) { assert !UpOk(b); }
  }

  /** Of all that can be asked for, with names that read back, exactly what `UpFit` rules out spoils a way up. */
  lemma UpExact(a: Table, op: Op)
    requires DirInv(a) && Asked(a, op) && Legible(op)
    ensures DirInv(Apply(a, op)) <==> UpFit(a, op)
  {
    hide TableOk, UniqueAll, UpOk, EntriesOf, Lookup, NulFree, FindName, Create, Link, Unlink, ClearFile, WriteFile,
         Shrunk;
    match op
    case MakeInode(k, name, kind) => if Lookup(a, k, name).None? { CreateUp(a, k, name, kind); }
    case AddLink(k, name, src) => if Lookup(a, k, name).None? { LinkUp(a, k, name, src); }
    case RemoveName(k, name) =>
      var i := FindName(EntriesOf(a, k), name);
      if a[k].kind == Directory && i < |EntriesOf(a, k)| {
        ListedBelow(a, k);
        UnlinkOk(a, k, i);
        UnlinkShrunk(a, k, i);
        ShrunkKeeps(a, Unlink(a, k, i));
      }
    case Write(k, off, buf) =>
      WriteOk(a, k, off, buf);
      WriteShrunk(a, k, off, buf);
      ShrunkKeeps(a, WriteFile(a, k, off, buf));
    case Truncate(k) =>
      ClearOk(a, k);
      ClearShrunk(a, k);
      ShrunkKeeps(a, ClearFile(a, k));
  }

  lemma ShrunkKeeps(a: Table, b: Table)
    requires DirInv(a) && Shrunk(a, b) && TableOk(b)
    ensures DirInv(b)
  {
    hide TableOk, UniqueAll, UpOk, Shrunk;
    ShrunkUnique(a, b);
    ShrunkUp(a, b);
  }

  lemma ClearOk(a: Table, k: nat)
    requires TableOk(a) && k < |a|
    ensures TableOk(ClearFile(a, k))
  {
    hide TableOk;
    OneFileOk(a, k, a[k].(content := []));
  }

  lemma WriteOk(a: Table, k: nat, off: nat, buf: seq<byte>)
    requires TableOk(a) && k < |a| && a[k].kind == File
    ensures TableOk(WriteFile(a, k, off, buf))
  {
    hide TableOk, Splice;
    OneFileOk(a, k, a[k].(content := Splice(a[k].content, off, buf)));
  }

  /** A trace in which no operation spoils a way up. */
  ghost predicate IsUpTrace(states: seq<Table>, ops: seq<Op>) {
    && IsTrace(states, ops)
    && forall i: nat :: i < |ops| ==> Legible(ops[i]) && UpFit(states[i], ops[i])
  }

  lemma FreshUp()
    ensures DirInv(Fresh())
  {
    hide DotEntries, LinksOk, UniqueAll, TableOk;
    FreshInv();
  }

  /** In every such trace, hard links to directories included, going up by ".." comes to an end. */
  lemma {:induction false} UpRunKeeps(states: seq<Table>, ops: seq<Op>, n: nat)
    requires IsUpTrace(states, ops) && n < |states|
    ensures DirInv(states[n])
  {
    hide DirInv, Apply, Asked, TableOk, Legible, UpFit;
    if n == 0 {
      FreshUp();
    } else {
      UpRunKeeps(states, ops, n - 1);
      UpExact(states[n - 1], ops[n - 1]);
    }
  }

  /** An empty directory, truncated, in which a directory ".." is then made: each is the
      other's parent, and going up never ends. */
  lemma UpLoops(name: Name)
    requires NameOk(name)
    ensures var c := ClearFile(Create(Fresh(), 0, name, Directory), 1);
            && DirInv(c) && |c| == 2 && c[1].kind == Directory && Lookup(c, 1, DOT_DOT).None?
            && var a := Create(c, 1, DOT_DOT, Directory);
            |a| == 3 && Parent(a, 1) == Some(2) && Parent(a, 2) == Some(1) && !UpOk(a)
  {
    hide Entries, DotEntries, Encode, NulFree, UniqueAll, TableOk, Appended, Shrunk, FindName, Lookup;
    var f := Fresh();
    FreshUp();
    DotsOk(0, 0);
    TwoDots(f, 0, 0);
    LookupFound(f, 0, name);
    CreateUp(f, 0, name, Directory);
    CreateParts(f, 0, name, Directory);
    var d := Create(f, 0, name, Directory);
    var c := ClearFile(d, 1);
    ClearOk(d, 1);
    ClearShrunk(d, 1);
    ShrunkKeeps(d, c);
    EmptyDir();
    LookupFound(c, 1, DOT_DOT);
    assert Readable(DOT_DOT) by { DotReadable(); }
    CreateParts(c, 1, DOT_DOT, Directory);
    var a := Create(c, 1, DOT_DOT, Directory);
    AppendLookup(c, a, 1, Dirent(DOT_DOT, 2), 1, DOT_DOT);
    AppendKinds(c, a, 1, Dirent(DOT_DOT, 2));
  }

  lemma DotReadable()
    ensures Readable(DOT_DOT)
  {
  }

  // ---- the tree, without hard links to directories ----

  /** A name that a path can spell. */
  predicate PlainName(name: Name) {
    name != [] && SLASH !in name
  }

  /** "." is the directory itself, ".." of the root the root.  In a tidy table every
      directory that is named has its "..". */
  ghost predicate DotsShape(a: Table, k: nat, tidy: bool)
    requires k < |a|
  {
    && (Lookup(a, k, DOT).Some? ==> Lookup(a, k, DOT) == Some(k))
    && (k == 0 && Parent(a, k).Some? ==> Parent(a, k) == Some(0))
    && (tidy && Links(a, k) > 0 ==> Parent(a, k).Some?)
  }

  /** An entry of directory k: a dot, or a name of a file, or of a younger directory whose "..", if any, is k. */
  ghost predicate EntryOk(a: Table, k: nat, e: Dirent, tidy: bool)
    requires k < |a|
  {
    IsDot(e.name) ||
    (e.inum < |a| &&
     (a[e.inum].kind == Directory ==>
        && k < e.inum && (Parent(a, e.inum).Some? ==> Parent(a, e.inum) == Some(k))
        && (tidy ==> PlainName(e.name))))
  }

  ghost predicate Shape(a: Table, k: nat, tidy: bool)
    requires k < |a|
  {
    a[k].kind == Directory ==>
      && DotsShape(a, k, tidy)
      && forall i :: 0 <= i < |EntriesOf(a, k)| ==> EntryOk(a, k, EntriesOf(a, k)[i], tidy)
  }

  /** At most one entry of the whole table names a directory, dots aside. */
  ghost predicate OneNamed(a: Table) {
    forall x: nat :: x < |a| && a[x].kind == Directory ==> Links(a, x) <= 1
  }

  ghost predicate TreeInv(a: Table, tidy: bool) {
    DirInv(a) && OneNamed(a) && forall k: nat :: k < |a| ==> Shape(a, k, tidy)
  }

  // ---- adding one entry to a tree ----

  lemma HungDots(a: Table, b: Table, k: nat, e: Dirent, l: nat, tidy: bool)
    requires Appended(a, b, k, e) && !IsDot(e.name) && Lookup(a, k, e.name).None?
    requires l < |a| && a[l].kind == Directory && DotsShape(a, l, tidy) && Links(b, l) == Links(a, l)
    ensures DotsShape(b, l, tidy)
  {
    hide EntriesOf, FindName, Lookup, IsDot, Links;
    DotsAreDots();
    AppendLookup(a, b, k, e, l, DOT);
    AppendLookup(a, b, k, e, l, DOT_DOT);
  }

  lemma HungEntry(a: Table, b: Table, k: nat, e: Dirent, l: nat, x: Dirent, tidy: bool)
    requires Appended(a, b, k, e) && !IsDot(e.name) && Lookup(a, k, e.name).None? && l < |a| && EntryOk(a, l, x, tidy)
    ensures EntryOk(b, l, x, tidy)
  {
    hide EntriesOf, FindName, Lookup, PlainName, IsDot;
    DotsAreDots();
    if !IsDot(x.name) && a[x.inum].kind == Directory { AppendLookup(a, b, k, e, x.inum, DOT_DOT); }
  }

  lemma HungShape(a: Table, b: Table, k: nat, e: Dirent, l: nat, tidy: bool)
    requires Appended(a, b, k, e) && !IsDot(e.name) && Lookup(a, k, e.name).None? && EntryOk(b, k, e, tidy)
    requires l < |a| && Shape(a, l, tidy) && (a[l].kind == Directory ==> Links(b, l) == Links(a, l))
    ensures Shape(b, l, tidy)
  {
    hide EntriesOf, FindName, Lookup, EntryOk, DotsShape, IsDot, Links;
    if a[l].kind == Directory {
      HungDots(a, b, k, e, l, tidy);
      var es := EntriesOf(b, l);
      forall i | 0 <= i < |es| ensures EntryOk(b, l, es[i], tidy) {
        if i < |EntriesOf(a, l)| {
          assert es[i] == EntriesOf(a, l)[i];
          HungEntry(a, b, k, e, l, es[i], tidy);
        }
      }
    }
  }

  /** The new inode and the entry that names it are as they should be. */
  lemma CreateNew(a: Table, k: nat, name: Name, kind: Kind, tidy: bool)
    requires TableOk(a) && k < |a| < 0x1_0000_0000 && a[k].kind == Directory && NameOk(name)
    requires tidy && kind == Directory ==> PlainName(name)
    ensures var b := Create(a, k, name, kind);
            |b| == |a| + 1 && EntryOk(b, k, Dirent(name, |a|), tidy) && Shape(b, |a|, tidy)
  {
    hide Entries, FindName, Lookup, TableOk, NulFree, Create, Links, PlainName, Appended;
    CreateParts(a, k, name, kind);
  }

  lemma CreateCounts(a: Table, k: nat, name: Name, kind: Kind, t: nat)
    requires TableOk(a) && k < |a| < 0x1_0000_0000 && a[k].kind == Directory && NameOk(name)
    ensures Links(Create(a, k, name, kind), t) == Links(a, t) + if t == |a| then 1 else 0
  {
    hide EntriesOf, CountIn, TableOk, NulFree, Create, Appended;
    var b, e := Create(a, k, name, kind), Dirent(name, |a|);
    CreateParts(a, k, name, kind);
    AppendLinks(a, b, k, e, t);
    CountInZero(Listing(b, |a|), t);
  }

  lemma CreateKeepsTree(a: Table, k: nat, name: Name, kind: Kind, tidy: bool)
    requires TreeInv(a, tidy) && k < |a| < 0x1_0000_0000 && a[k].kind == Directory && NameOk(name)
    requires Lookup(a, k, name).None? && (tidy && kind == Directory ==> PlainName(name))
    ensures TreeInv(Create(a, k, name, kind), tidy)
  {
    hide Lookup, TableOk, UniqueAll, UpOk, NameOk, EntryOk, Create, PlainName, Shape, Links, Appended, EntriesOf;
    ShortName(name);
    DotsAreDots();
    var b, e := Create(a, k, name, kind), Dirent(name, |a|);
    CreateUp(a, k, name, kind);
    CreateParts(a, k, name, kind);
    AppendKinds(a, b, k, e);
    CreateNew(a, k, name, kind, tidy);
    forall t: nat ensures Links(b, t) == Links(a, t) + if t == |a| then 1 else 0 { CreateCounts(a, k, name, kind, t); }
    NoLinksBeyond(a, |a|);
    forall l: nat | l < |b| ensures Shape(b, l, tidy) {
      if l < |a| { HungShape(a, b, k, e, l, tidy); }
    }
  }

  lemma LinkKeepsTree(a: Table, k: nat, name: Name, src: nat, tidy: bool)
    requires TreeInv(a, tidy) && k < |a| && src < |a| && src < 0x1_0000_0000 && a[k].kind == Directory && NameOk(name)
    requires Lookup(a, k, name).None? && a[src].kind == File
    ensures TreeInv(Link(a, k, name, src), tidy)
  {
    hide Lookup, EntriesOf, TableOk, UniqueAll, UpOk, NameOk, Link, Appended, Shape, Links;
    ShortName(name);
    DotsAreDots();
    var b, e := Link(a, k, name, src), Dirent(name, src);
    LinkUp(a, k, name, src);
    LinkAppended(a, k, name, src);
    LinkKinds(a, k, name, src);
    forall t: nat ensures Links(b, t) == Links(a, t) + if t == src then 1 else 0 { LinksAppended(a, b, k, e, t); }
    forall l: nat | l < |b| ensures Shape(b, l, tidy) { HungShape(a, b, k, e, l, tidy); }
  }

  // ---- losing entries of a tree ----

  /** What is left of a tree is a tree.  It stays tidy if no directory that is still named loses its "..". */
  lemma ShrunkTree(a: Table, b: Table, tidy: bool)
    requires TreeInv(a, tidy) && Shrunk(a, b) && TableOk(b)
    requires forall x: nat :: x < |a| && a[x].kind == Directory ==> Links(b, x) <= Links(a, x)
    requires tidy ==> forall x: nat :: x < |a| && a[x].kind == Directory && Links(b, x) > 0 && Parent(a, x).Some? ==>
                        Parent(b, x).Some?
    ensures TreeInv(b, tidy)
  {
    hide TableOk, UniqueAll, UpOk, Shape, Links, Lookup, EntriesOf, Sub;
    ShrunkKeeps(a, b);
    forall l: nat | l < |b| ensures Shape(b, l, tidy) { ShrunkShape(a, b, l, tidy); }
  }

  lemma ShrunkShape(a: Table, b: Table, l: nat, tidy: bool)
    requires UniqueAll(a) && Shrunk(a, b) && l < |a| && Shape(a, l, tidy)
    requires a[l].kind == Directory ==> Links(b, l) <= Links(a, l)
    requires tidy && a[l].kind == Directory && Links(b, l) > 0 && Parent(a, l).Some? ==> Parent(b, l).Some?
    ensures Shape(b, l, tidy)
  {
    hide EntriesOf, FindName, Lookup, EntryOk, UniqueAll, Links, UniqueNames;
    if a[l].kind == Directory {
      if Lookup(b, l, DOT).Some? { ShrunkLookup(a, b, l, DOT); }
      if Lookup(b, l, DOT_DOT).Some? { ShrunkLookup(a, b, l, DOT_DOT); }
      var es := EntriesOf(b, l);
      assert Sub(EntriesOf(a, l), es);
      forall i | 0 <= i < |es| ensures EntryOk(b, l, es[i], tidy) {
        assert es[i] in EntriesOf(a, l);
        ShrunkEntry(a, b, l, es[i], tidy);
      }
    }
  }

  lemma ShrunkEntry(a: Table, b: Table, l: nat, x: Dirent, tidy: bool)
    requires UniqueAll(a) && Shrunk(a, b) && l < |a| && EntryOk(a, l, x, tidy)
    ensures EntryOk(b, l, x, tidy)
  {
    hide EntriesOf, FindName, Lookup, PlainName, IsDot, UniqueAll, Sub;
    if !IsDot(x.name) && a[x.inum].kind == Directory && Parent(b, x.inum).Some? {
      ShrunkLookup(a, b, x.inum, DOT_DOT);
    }
  }

  /** Removing any name, of a directory that holds something too. */
  lemma UnlinkKeepsTree(a: Table, k: nat, i: nat, tidy: bool)
    requires TreeInv(a, tidy) && k < |a| && a[k].kind == Directory && |a[k].content| % DIRENT_SZ == 0
    requires i < |EntriesOf(a, k)| && EntriesOf(a, k)[i].inum < |a|
    requires tidy ==> !IsDot(EntriesOf(a, k)[i].name)
    ensures TreeInv(Unlink(a, k, i), tidy)
  {
    hide Entries, TableOk, UniqueAll, UpOk, Shape, Unlink, Links, Sub, Lookup, Lost, IsDot;
    var b := Unlink(a, k, i);
    UnlinkOk(a, k, i);
    UnlinkShrunk(a, k, i);
    forall x: nat ensures Links(b, x) == Links(a, x) - Lost(a, k, i, x) { UnlinkLinks(a, k, i, x); }
    if tidy {
      assert Shape(a, k, tidy);
      forall x: nat | x < |a| && a[x].kind == Directory && Links(b, x) > 0 && Parent(a, x).Some?
        ensures Parent(b, x).Some?
      {
        NamedLost(a, k, i);
        UnlinkParent(a, k, i, x);
      }
    }
    ShrunkTree(a, b, tidy);
  }

  /** The inode an entry names loses that link. */
  lemma NamedLost(a: Table, k: nat, i: nat)
    requires k < |a| && i < |EntriesOf(a, k)| && EntriesOf(a, k)[i].inum < |a| && !IsDot(EntriesOf(a, k)[i].name)
    ensures Lost(a, k, i, EntriesOf(a, k)[i].inum) >= 1
  {
    hide EntriesOf, IsDot, CountIn, LastOfDir, Rest;
  }

  /** Unlinking a name other than a dot takes the ".." of no directory but the one that loses its name. */
  lemma UnlinkParent(a: Table, k: nat, i: nat, x: nat)
    requires UniqueAll(a) && k < |a| && a[k].kind == Directory && |a[k].content| % DIRENT_SZ == 0
    requires i < |EntriesOf(a, k)| && EntriesOf(a, k)[i].inum < |a| && !IsDot(EntriesOf(a, k)[i].name)
    requires x < |a| && a[x].kind == Directory && x != EntriesOf(a, k)[i].inum
    ensures Parent(Unlink(a, k, i), x) == Parent(a, x)
  {
    hide Entries, SwapRemove, EntriesSwapRemove, Links, UniqueNames, FindName;
    DotsAreDots();
    SwappedEntries(a, k, i);
    var es := EntriesOf(a, k);
    assert es[i].name != DOT_DOT;
    if x == k { SwapLookup(es, i, DOT_DOT); }
  }

  lemma SwapLookup(es: seq<Dirent>, i: nat, name: Name)
    requires UniqueNames(es) && i < |es| && es[i].name != name
    ensures var fs := EntriesSwapRemove(es, i);
            && (FindName(fs, name) < |fs| <==> FindName(es, name) < |es|)
            && (FindName(es, name) < |es| ==> fs[FindName(fs, name)].inum == es[FindName(es, name)].inum)
  {
    hide ToMap, UniqueNames, FindName, EntriesSwapRemove;
    var fs := EntriesSwapRemove(es, i);
    SwapIsRemove(es, i);
    LookupIsMap(es, name);
    LookupIsMap(fs, name);
  }

  /** Truncating any inode; a tidy table only stays tidy if it is a file. */
  lemma ClearKeepsTree(a: Table, k: nat, tidy: bool)
    requires TreeInv(a, tidy) && k < |a| && (tidy ==> a[k].kind == File)
    ensures TreeInv(ClearFile(a, k), tidy)
  {
    hide Entries, TableOk, UniqueAll, UpOk, Shape, Links, Shrunk;
    var b := ClearFile(a, k);
    ClearOk(a, k);
    ClearShrunk(a, k);
    EmptyDir();
    forall x: nat ensures Links(b, x) <= Links(a, x) { ClearedLinks(a, b, k, x); }
    ShrunkTree(a, b, tidy);
  }

  lemma WriteKeepsTree(a: Table, k: nat, off: nat, buf: seq<byte>, tidy: bool)
    requires TreeInv(a, tidy) && k < |a| && a[k].kind == File
    ensures TreeInv(WriteFile(a, k, off, buf), tidy)
  {
    hide Entries, TableOk, UniqueAll, UpOk, Shape, Links, Shrunk, Splice;
    var b := WriteFile(a, k, off, buf);
    WriteOk(a, k, off, buf);
    WriteShrunk(a, k, off, buf);
    forall x: nat ensures Links(b, x) == Links(a, x) { SameLinks(a, b, k, x); }
    ShrunkTree(a, b, tidy);
  }

  // ---- runs ----

  /** New names are no dots and have no NUL, and no directory gets a second name.  A tidy run, moreover, gives
      directories plain names, truncates none and removes no dot. */
  ghost predicate TreeOp(a: Table, op: Op, tidy: bool) {
    && (op.MakeInode? || op.AddLink? ==> NameOk(op.name))
    && (op.AddLink? ==> op.src < |a| && a[op.src].kind == File)
    && (tidy && op.MakeInode? && op.kind == Directory ==> PlainName(op.name))
    && (tidy && op.RemoveName? ==> !IsDot(op.name))
    && (tidy && op.Truncate? ==> op.inode < |a| && a[op.inode].kind == File)
  }

  lemma ApplyKeepsTree(a: Table, op: Op, tidy: bool)
    requires TreeInv(a, tidy) && Asked(a, op) && TreeOp(a, op, tidy)
    ensures TreeInv(Apply(a, op), tidy)
  {
    hide TreeInv, EntriesOf, Lookup, FindName, NameOk, TableOk, PlainName, IsDot;
    assert TableOk(a) by { TreeTable(a, tidy); }
    match op
    case MakeInode(k, name, kind) => if Lookup(a, k, name).None? { CreateKeepsTree(a, k, name, kind, tidy); }
    case AddLink(k, name, src) => if Lookup(a, k, name).None? { LinkKeepsTree(a, k, name, src, tidy); }
    case RemoveName(k, name) =>
      var i := FindName(EntriesOf(a, k), name);
      if a[k].kind == Directory && i < |EntriesOf(a, k)| {
        ListedBelow(a, k);
        UnlinkKeepsTree(a, k, i, tidy);
      }
    case Write(k, off, buf) => WriteKeepsTree(a, k, off, buf, tidy);
    case Truncate(k) => ClearKeepsTree(a, k, tidy);
  }

  lemma TreeTable(a: Table, tidy: bool)
    requires TreeInv(a, tidy)
    ensures TableOk(a) && UpOk(a)
  {
    hide TableOk, UniqueAll, UpOk, OneNamed, Shape;
  }

  /** A trace in which no directory ever has two names. */
  ghost predicate IsTreeTrace(states: seq<Table>, ops: seq<Op>, tidy: bool) {
    IsTrace(states, ops) && forall i: nat :: i < |ops| ==> TreeOp(states[i], ops[i], tidy)
  }

  lemma TreeIsUp(states: seq<Table>, ops: seq<Op>, tidy: bool)
    requires IsTreeTrace(states, ops, tidy)
    ensures IsUpTrace(states, ops)
  {
    hide Lookup, TableOk, Apply, NulFree;
    DotsAreDots();
    forall i: nat | i < |ops| ensures Legible(ops[i]) && UpFit(states[i], ops[i]) {
      assert TreeOp(states[i], ops[i], tidy);
    }
  }

  lemma FreshTree(tidy: bool)
    ensures TreeInv(Fresh(), tidy)
  {
    hide DotEntries, Entries, DirInv, UniqueNames, TableOk, UniqueAll;
    FreshUp();
    FreshInv();
    DotsOk(0, 0);
    TwoDots(Fresh(), 0, 0);
  }

  /** Every state of every trace without hard links to directories is a tree, whatever was removed or truncated. */
  lemma {:induction false} TreeRunKeeps(states: seq<Table>, ops: seq<Op>, tidy: bool, n: nat)
    requires IsTreeTrace(states, ops, tidy) && n < |states|
    ensures TreeInv(states[n], tidy)
  {
    hide TreeInv, Apply, Asked, TableOk, TreeOp;
    if n == 0 {
      FreshTree(tidy);
    } else {
      TreeRunKeeps(states, ops, tidy, n - 1);
      ApplyKeepsTree(states[n - 1], ops[n - 1], tidy);
    }
  }
}
