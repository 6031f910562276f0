/** Path lookup (easy-fs/src/vfs.rs:137-168) and the names the kernel derives for directories
    (os/src/fs/inode.rs:194-216). */
module Paths {
  import opened Basics
  import opened Disk
  import opened Dirents
  import opened FileTable
  import opened Namespace
  import opened Bindings
  import opened DirTree

  type Path = seq<byte>

  /** Position of the first slash, or the length. */
  function SlashAt(s: Path): (k: nat)
    ensures k <= |s| && (k < |s| ==> s[k] == SLASH) && SLASH !in s[..k]
  {
    if s == [] then 0
    else if s[0] == SLASH then 0
    else
      var k := SlashAt(s[1..]);
      assert s[..k + 1] == [s[0]] + s[1..][..k];
      k + 1
  }

  /** `split('/')`. */
  function Split(s: Path): seq<Path>
    decreases |s|
  {
    var k := SlashAt(s);
    if k == |s| then [s] else [s[..k]] + Split(s[k + 1..])
  }

  /** `filter(|s| !s.is_empty())`. */
  function NonEmpty(ps: seq<Path>): seq<Path> {
    if ps == [] then [] else (if ps[0] == [] then [] else [ps[0]]) + NonEmpty(ps[1..])
  }

  function Components(s: Path): seq<Path> {
    NonEmpty(Split(s))
  }

  /** `find`, component by component: nothing is found below a regular file. */
  function Walk(a: Table, k: nat, names: seq<Path>): Option<nat>
    requires k < |a|
    decreases |names|
  {
    if names == [] then Some(k)
    else if a[k].kind == File then None
    else match Lookup(a, k, names[0])
      case None => None
      case Some(v) => if v < |a| then Walk(a, v, names[1..]) else None
  }

  /** Inodes ks lead from one to the next by the names: each but the last is a directory that lists the next. */
  ghost predicate IsChain(a: Table, ks: seq<nat>, names: seq<Path>) {
    && |ks| == |names| + 1 && (forall i :: 0 <= i < |ks| ==> ks[i] < |a|)
    && forall i :: 0 <= i < |names| ==> a[ks[i]].kind == Directory && Lookup(a, ks[i], names[i]) == Some(ks[i + 1])
  }

  /** A walk ends at d exactly if such a chain does; so it finds nothing if a component is not listed, or lies below a
      file. */
  lemma {:induction false} WalkExact(a: Table, k: nat, names: seq<Path>, d: nat)
    requires k < |a|
    ensures Walk(a, k, names) == Some(d)
       <==> exists ks: seq<nat> :: IsChain(a, ks, names) && ks[0] == k && ks[|names|] == d
    decreases |names|
  {
    hide Lookup;
    if names == [] {
      assert IsChain(a, [k], names);
    } else {
      var v := Lookup(a, k, names[0]);
      if a[k].kind == Directory && v.Some? && v.value < |a| { WalkExact(a, v.value, names[1..], d); }
      if Walk(a, k, names) == Some(d) {
        var ks: seq<nat> :| IsChain(a, ks, names[1..]) && ks[0] == v.value && ks[|names| - 1] == d;
        ChainMore(a, k, ks, names);
      }
      if ks: seq<nat> :| IsChain(a, ks, names) && ks[0] == k && ks[|names|] == d { ChainLess(a, ks, names); }
    }
  }

  lemma ChainMore(a: Table, k: nat, ks: seq<nat>, names: seq<Path>)
    requires names != [] && k < |a| && a[k].kind == Directory && IsChain(a, ks, names[1..])
    requires Lookup(a, k, names[0]) == Some(ks[0])
    ensures IsChain(a, [k] + ks, names) && ([k] + ks)[0] == k && ([k] + ks)[|names|] == ks[|names| - 1]
  {
    hide Lookup;
    var js := [k] + ks;
    forall i | 0 <= i < |names| ensures a[js[i]].kind == Directory && Lookup(a, js[i], names[i]) == Some(js[i + 1]) {
      if i > 0 { assert names[i] == names[1..][i - 1]; }
    }
  }

  lemma ChainLess(a: Table, ks: seq<nat>, names: seq<Path>)
    requires names != [] && IsChain(a, ks, names)
    ensures IsChain(a, ks[1..], names[1..])
    ensures a[ks[0]].kind == Directory && Lookup(a, ks[0], names[0]) == Some(ks[1])
  {
    hide Lookup;
  }

  function Find(a: Table, k: nat, path: Path): Option<nat>
    requires k < |a|
  {
    Walk(a, k, Components(path))
  }

  lemma SlashAtUnique(s: Path, k: nat)
    requires k <= |s| && (k < |s| ==> s[k] == SLASH) && SLASH !in s[..k]
    ensures SlashAt(s) == k
  {
    var m := SlashAt(s);
    assert forall j :: 0 <= j < k ==> s[j] == s[..k][j] && s[j] != SLASH;
    assert forall j :: 0 <= j < m ==> s[j] == s[..m][j] && s[j] != SLASH;
  }

  lemma {:induction false} SplitJoin(p: Path, q: Path)
    ensures Split(p + [SLASH] + q) == Split(p) + Split(q)
    decreases |p|
  {
    hide SlashAt, Split;
    var s, k := p + [SLASH] + q, SlashAt(p);
    assert s[..k] == p[..k];
    SlashAtUnique(s, k);
    SplitOnce(s);
    SplitOnce(p);
    if k == |p| {
      assert s[..k] == p && s[k + 1..] == q;
    } else {
      var r := p[k + 1..];
      SplitJoin(r, q);
      assert s[k + 1..] == r + [SLASH] + q;
      Regroup(p[..k], Split(r), Split(q));
    }
  }

  lemma SplitOnce(s: Path)
    ensures var k := SlashAt(s); Split(s) == if k == |s| then [s] else [s[..k]] + Split(s[k + 1..])
  {
    hide SlashAt;
  }

  lemma Regroup(x: Path, ps: seq<Path>, qs: seq<Path>)
    ensures [x] + (ps + qs) == ([x] + ps) + qs
  {
  }

  lemma {:induction false} NonEmptyConcat(ps: seq<Path>, qs: seq<Path>)
    ensures NonEmpty(ps + qs) == NonEmpty(ps) + NonEmpty(qs)
  {
    if ps == [] {
      assert ps + qs == qs;
    } else {
      var h := if ps[0] == [] then [] else [ps[0]];
      NonEmptyConcat(ps[1..], qs);
      assert (ps + qs)[0] == ps[0] && (ps + qs)[1..] == ps[1..] + qs;
      assert NonEmpty(ps + qs) == h + NonEmpty(ps[1..] + qs);
      assert h + (NonEmpty(ps[1..]) + NonEmpty(qs)) == (h + NonEmpty(ps[1..])) + NonEmpty(qs);
    }
  }

  lemma ComponentsJoin(p: Path, q: Path)
    ensures Components(p + [SLASH] + q) == Components(p) + Components(q)
  {
    SplitJoin(p, q);
    NonEmptyConcat(Split(p), Split(q));
  }

  lemma {:induction false} WalkConcat(a: Table, k: nat, ps: seq<Path>, qs: seq<Path>)
    requires k < |a|
    ensures Walk(a, k, ps).None? ==> ps != [] && Walk(a, k, ps + qs).None?
    ensures Walk(a, k, ps).Some? ==>
                Walk(a, k, ps).value < |a| && Walk(a, k, ps + qs) == Walk(a, Walk(a, k, ps).value, qs)
    decreases |ps|
  {
    if ps == [] {
      assert ps + qs == qs;
    } else {
      assert (ps + qs)[0] == ps[0] && (ps + qs)[1..] == ps[1..] + qs;
      if a[k].kind == Directory && Lookup(a, k, ps[0]).Some? && Lookup(a, k, ps[0]).value < |a| {
        WalkConcat(a, Lookup(a, k, ps[0]).value, ps[1..], qs);
      }
    }
  }

  /** Looking up p/q is looking up p and then q from there. */
  lemma FindComposes(a: Table, k: nat, p: Path, q: Path)
    requires k < |a|
    ensures Find(a, k, p).None? ==> Find(a, k, p + [SLASH] + q).None?
    ensures Find(a, k, p).Some? ==>
              Find(a, k, p).value < |a| && Find(a, k, p + [SLASH] + q) == Find(a, Find(a, k, p).value, q)
  {
    ComponentsJoin(p, q);
    WalkConcat(a, k, Components(p), Components(q));
  }

  /** Name under which directory p lists inode d: `read_dirent`, the first entry that bears the number. */
  function NameIn(es: seq<Dirent>, d: nat): Option<Name> {
    if es == [] then None else if es[0].inum == d then Some(es[0].name) else NameIn(es[1..], d)
  }

  lemma {:induction false} NameInFound(es: seq<Dirent>, d: nat)
    ensures NameIn(es, d).None? <==> forall i :: 0 <= i < |es| ==> es[i].inum != d
    ensures NameIn(es, d).Some? ==>
                exists i :: 0 <= i < |es| && es[i] == Dirent(NameIn(es, d).value, es[i].inum) && es[i].inum == d
  {
    if es != [] && es[0].inum != d {
      NameInFound(es[1..], d);
      if NameIn(es, d).Some? {
        var fs := es[1..];
        var i :| 0 <= i < |fs| && fs[i] == Dirent(NameIn(fs, d).value, fs[i].inum) && fs[i].inum == d;
        assert es[i + 1] == fs[i];
      } else {
        forall i | 0 <= i < |es| ensures es[i].inum != d { if i > 0 { assert es[i] == es[1..][i - 1]; } }
      }
    }
  }

  // ---- the name of a directory ----

  /** An older directory that lists d lists it under a name that is no dot, and that finds it. */
  lemma ParentStep(a: Table, d: nat, p: nat)
    requires TreeInv(a, false) && p < d < |a| && a[p].kind == Directory && NameIn(EntriesOf(a, p), d).Some?
    ensures var name := NameIn(EntriesOf(a, p), d).value; !IsDot(name) && Lookup(a, p, name) == Some(d)
  {
    hide Entries, FindName, TableOk, UpOk, Lookup, IsDot, PlainName, Links;
    var es := EntriesOf(a, p);
    assert Shape(a, p, false) && UniqueNames(es);
    NameInFound(es, d);
    var i :| 0 <= i < |es| && es[i] == Dirent(NameIn(es, d).value, es[i].inum) && es[i].inum == d;
    UniqueLookup(a, p, i);
    UpOlder(a, p);
    DotsElsewhere(a, p, i, d);
  }

  /** Neither dot of directory p names a younger inode. */
  lemma UpOlder(a: Table, p: nat)
    requires TreeInv(a, false) && p < |a| && a[p].kind == Directory
    ensures Lookup(a, p, DOT).Some? ==> Lookup(a, p, DOT).value <= p
    ensures Lookup(a, p, DOT_DOT).Some? ==> Lookup(a, p, DOT_DOT).value <= p
  {
    hide Entries, FindName, TableOk, UniqueAll, Lookup, EntryOk, Links;
    assert Shape(a, p, false);
  }

  /** Entries of p that name a younger inode are not its dots. */
  lemma DotsElsewhere(a: Table, p: nat, i: nat, d: nat)
    requires p < d && p < |a| && UniqueNames(EntriesOf(a, p))
    requires Lookup(a, p, DOT).Some? ==> Lookup(a, p, DOT).value <= p
    requires Lookup(a, p, DOT_DOT).Some? ==> Lookup(a, p, DOT_DOT).value <= p
    requires i < |EntriesOf(a, p)| && EntriesOf(a, p)[i].inum == d
    ensures !IsDot(EntriesOf(a, p)[i].name)
  {
    hide Entries, FindName;
    UniqueLookup(a, p, i);
  }

  lemma UniqueLookup(a: Table, p: nat, i: nat)
    requires p < |a| && UniqueNames(EntriesOf(a, p)) && i < |EntriesOf(a, p)|
    ensures Lookup(a, p, EntriesOf(a, p)[i].name) == Some(EntriesOf(a, p)[i].inum)
  {
    hide EntriesOf;
    var j := FindName(EntriesOf(a, p), EntriesOf(a, p)[i].name);
  }

  /** The recursion inside `name_for_inode`; None where it panics.  Parents are
      older than their children, so it ends. */
  ghost function NameInner(a: Table, d: nat): Option<Path>
    requires UpOk(a) && d < |a|
    decreases d
  {
    if d == 0 then Some([])
    else if a[d].kind == File || Parent(a, d).None? then None
    else
      var p := Parent(a, d).value;
      var name, above := NameIn(EntriesOf(a, p), d), NameInner(a, p);
      if name.None? || above.None? then None else Some(above.value + [SLASH] + name.value)
  }

  /** `name_for_inode`. */
  ghost function NameFor(a: Table, d: nat): Option<Path>
    requires UpOk(a) && d < |a|
  {
    var s := NameInner(a, d);
    if s == Some([]) then Some([SLASH]) else s
  }

  /** The parent of directory d is p, which lists d under the name first. */
  ghost predicate ClimbStep(a: Table, d: nat, p: nat, name: Name) {
    && 0 < d < |a| && p < |a| && a[d].kind == Directory
    && Parent(a, d) == Some(p) && NameIn(EntriesOf(a, p), d) == Some(name)
  }

  /** Inodes ks climb by ".." to the root, each listed by the next under the name ns has for it. */
  ghost predicate IsClimb(a: Table, ks: seq<nat>, ns: seq<Name>) {
    && |ks| == |ns| + 1 && ks[|ns|] == 0
    && forall i :: 0 <= i < |ns| ==> ClimbStep(a, ks[i], ks[i + 1], ns[i])
  }

  /** The names from the last to the first, a slash before each. */
  function Joined(ns: seq<Name>): Path {
    if ns == [] then [] else Joined(ns[1..]) + [SLASH] + ns[0]
  }

  /** A climb from d to the root spells s. */
  ghost predicate Climbs(a: Table, d: nat, s: Path) {
    exists ks: seq<nat>, ns: seq<Name> :: IsClimb(a, ks, ns) && ks[0] == d && s == Joined(ns)
  }

  /** The recursion yields s exactly if a climb from d spells it; it panics exactly if there is no climb. */
  lemma {:induction false} NameClimbs(a: Table, d: nat, s: Path)
    requires UpOk(a) && d < |a|
    ensures NameInner(a, d) == Some(s) <==> Climbs(a, d, s)
    decreases d
  {
    hide UpOk, Climbs, Parent, EntriesOf, NameIn;
    if d == 0 {
      ClimbRoot(a, s);
    } else {
      if NameInner(a, d) == Some(s) {
        ParentOlder(a, d);
        var p := Parent(a, d).value;
        NameClimbs(a, p, NameInner(a, p).value);
        ClimbMore(a, d, p, NameIn(EntriesOf(a, p), d).value, NameInner(a, p).value);
      }
      if Climbs(a, d, s) {
        var p, name, t := ClimbLess(a, d, s);
        ParentOlder(a, d);
        NameClimbs(a, p, t);
      }
    }
  }

  lemma ParentOlder(a: Table, d: nat)
    requires UpOk(a) && 0 < d < |a| && a[d].kind == Directory && Parent(a, d).Some?
    ensures Parent(a, d).value < d
  {
    hide Lookup;
  }

  lemma ClimbRoot(a: Table, s: Path)
    ensures Climbs(a, 0, s) <==> s == []
  {
    hide Parent, NameIn, EntriesOf;
    assert IsClimb(a, [0], []) && Joined([]) == [];
    if ks: seq<nat>, ns: seq<Name> :| IsClimb(a, ks, ns) && ks[0] == 0 && s == Joined(ns) {
      assert ns != [] ==> ClimbStep(a, ks[0], ks[1], ns[0]);
    }
  }

  lemma ClimbMore(a: Table, d: nat, p: nat, name: Name, t: Path)
    requires ClimbStep(a, d, p, name) && Climbs(a, p, t)
    ensures Climbs(a, d, t + [SLASH] + name)
  {
    hide ClimbStep;
    var ks: seq<nat>, ns: seq<Name> :| IsClimb(a, ks, ns) && ks[0] == p && t == Joined(ns);
    assert ([name] + ns)[1..] == ns;
    assert IsClimb(a, [d] + ks, [name] + ns) && ([d] + ks)[0] == d;
  }

  lemma ClimbLess(a: Table, d: nat, s: Path) returns (p: nat, name: Name, t: Path)
    requires Climbs(a, d, s) && d != 0
    ensures ClimbStep(a, d, p, name) && Climbs(a, p, t) && s == t + [SLASH] + name
  {
    hide ClimbStep;
    var ks: seq<nat>, ns: seq<Name> :| IsClimb(a, ks, ns) && ks[0] == d && s == Joined(ns);
    p, name, t := ks[1], ns[0], Joined(ns[1..]);
    assert IsClimb(a, ks[1..], ns[1..]);
  }

  /** Every directory on the way from d up to the root has its ".." and a name that a path can spell. */
  ghost predicate Spelled(a: Table, d: nat)
    requires UpOk(a) && d < |a|
    decreases d
  {
    d == 0 ||
    (a[d].kind == Directory && Parent(a, d).Some? &&
     var p := Parent(a, d).value;
     var name := NameIn(EntriesOf(a, p), d);
     name.Some? && PlainName(name.value) && Spelled(a, p))
  }

  lemma OneComponent(name: Name)
    requires PlainName(name)
    ensures Components(name) == [name]
  {
    SlashAtUnique(name, |name|);
    assert name[..|name|] == name;
    assert Split(name) == [name];
    assert NonEmpty([name]) == [name] + NonEmpty([name][1..]);
  }

  lemma {:induction false} NameInnerLeadsBack(a: Table, d: nat)
    requires TreeInv(a, false) && UpOk(a) && d < |a| && Spelled(a, d)
    ensures NameInner(a, d).Some? && Find(a, 0, NameInner(a, d).value) == Some(d)
    decreases d
  {
    hide TreeInv, Lookup, EntriesOf, NameIn, PlainName, Components;
    if d == 0 {
      NoComponents();
    } else {
      ParentStep(a, d, Parent(a, d).value);
      var p := Parent(a, d).value;
      var name := NameIn(EntriesOf(a, p), d).value;
      NameInnerLeadsBack(a, p);
      FindComposes(a, 0, NameInner(a, p).value, name);
      OneComponent(name);
      OneStep(a, p, name, d);
    }
  }

  lemma OneStep(a: Table, p: nat, name: Name, d: nat)
    requires p < |a| && d < |a| && a[p].kind == Directory && Lookup(a, p, name) == Some(d)
    ensures Walk(a, p, [name]) == Some(d)
  {
    hide Lookup;
    assert [name][1..] == [];
  }

  lemma NoComponents()
    ensures Components([]) == [] && Components([SLASH]) == []
  {
    assert Split([]) == [[]];
    SlashAtUnique([SLASH], 0);
    assert [SLASH][..0] == [] && [SLASH][1..] == [];
    assert Split([SLASH]) == [[]] + Split([]);
  }

  // ---- the converse: a name that cannot be spelled does not lead back ----

  lemma {:induction false} SplitPlain(s: Path)
    ensures forall c :: c in Split(s) ==> SLASH !in c
    decreases |s|
  {
    hide SlashAt, Split;
    SplitOnce(s);
    var k := SlashAt(s);
    if k < |s| { SplitPlain(s[k + 1..]); } else { assert s[..k] == s; }
  }

  lemma {:induction false} NonEmptyIn(ps: seq<Path>)
    ensures forall c :: c in NonEmpty(ps) ==> c != [] && c in ps
  {
    if ps != [] { NonEmptyIn(ps[1..]); }
  }

  lemma ComponentsPlain(s: Path)
    ensures forall c :: c in Components(s) ==> PlainName(c)
  {
    SplitPlain(s);
    NonEmptyIn(Split(s));
  }

  /** Directory d lies below x, or is x, by its "..". */
  ghost predicate Under(a: Table, d: nat, x: nat)
    requires UpOk(a) && d < |a|
    decreases d
  {
    d == x || (0 < d && a[d].kind == Directory && Parent(a, d).Some? && Under(a, Parent(a, d).value, x))
  }

  /** Directory x has a ".." and a name, and no path can spell that name. */
  ghost predicate Hidden(a: Table, x: nat)
    requires UpOk(a)
  {
    && 0 < x < |a| && a[x].kind == Directory && Parent(a, x).Some?
    && var name := NameIn(EntriesOf(a, Parent(a, x).value), x);
    name.Some? && !PlainName(name.value)
  }

  /** A directory of a tree has one name. */
  lemma OneName(a: Table, x: nat, p: nat, i: nat)
    requires TreeInv(a, false) && p < x < |a| && a[x].kind == Directory
    requires a[p].kind == Directory && i < |EntriesOf(a, p)| && EntriesOf(a, p)[i].inum == x
    requires !IsDot(EntriesOf(a, p)[i].name)
    ensures Some(EntriesOf(a, p)[i].name) == NameIn(EntriesOf(a, p), x)
  {
    hide Entries, FindName, TableOk, UniqueAll, UpOk, Lookup, IsDot, PlainName, CountIn, Shape, NameIn;
    var es := EntriesOf(a, p);
    NameInFound(es, x);
    assert es[i].inum == x;
    var j :| 0 <= j < |es| && es[j] == Dirent(NameIn(es, x).value, es[j].inum) && es[j].inum == x;
    if i != j {
      ParentStep(a, x, p);
      CountInTwo(es, x, i, j);
      CountToAtLeast(a, |a|, p, x);
    }
  }

  /** A step along a path does not enter the part of the tree below a hidden name. */
  lemma StepAvoids(a: Table, k: nat, c: Path, x: nat, v: nat)
    requires TreeInv(a, false) && UpOk(a) && Hidden(a, x) && k < |a| && a[k].kind == Directory && !Under(a, k, x)
    requires PlainName(c) && Lookup(a, k, c) == Some(v) && v < |a| && a[v].kind == Directory
    ensures !Under(a, v, x)
  {
    hide EntriesOf, FindName, TableOk, UniqueAll, PlainName, NameIn, NameInner, Links;
    assert Shape(a, k, false);
    if c == DOT {
    } else if c == DOT_DOT {
    } else {
      LookupFound(a, k, c);
      var es := EntriesOf(a, k);
      var i := FindName(es, c);
      assert EntryOk(a, k, es[i], false) && !IsDot(c);
      if v == x { OneName(a, x, k, i); }
    }
  }

  lemma {:induction false} WalkAvoids(a: Table, k: nat, names: seq<Path>, x: nat, d: nat)
    requires TreeInv(a, false) && UpOk(a) && Hidden(a, x) && k < |a| && !Under(a, k, x)
    requires (forall c :: c in names ==> PlainName(c)) && Walk(a, k, names) == Some(d)
    requires d < |a| && a[d].kind == Directory
    ensures !Under(a, d, x)
    decreases |names|
  {
    hide TreeInv, UpOk, Hidden, Under, Lookup, PlainName;
    if names != [] {
      var v := Lookup(a, k, names[0]).value;
      if a[v].kind == Directory {
        StepAvoids(a, k, names[0], x, v);
        WalkAvoids(a, v, names[1..], x, d);
      } else {
        FileEnds(a, v, names[1..]);
      }
    }
  }

  lemma FileEnds(a: Table, v: nat, names: seq<Path>)
    requires v < |a| && a[v].kind == File
    ensures Walk(a, v, names) == if names == [] then Some(v) else None
  {
  }

  /** If the derivation succeeds but the way is not spelled, some directory on it has a hidden name. */
  lemma {:induction false} HiddenAbove(a: Table, d: nat) returns (x: nat)
    requires UpOk(a) && d < |a| && NameInner(a, d).Some? && !Spelled(a, d)
    ensures Hidden(a, x) && Under(a, d, x)
    decreases d
  {
    hide EntriesOf, NameIn, PlainName, Lookup;
    var p := Parent(a, d).value;
    if PlainName(NameIn(EntriesOf(a, p), d).value) {
      x := HiddenAbove(a, p);
    } else {
      x := d;
    }
  }

  /** The name derived for a directory leads from the root back to it exactly if every directory on the way up has its
      ".." and a name that is not empty and holds no slash. */
  lemma NameExact(a: Table, d: nat)
    requires TreeInv(a, false) && d < |a| && a[d].kind == Directory
    ensures UpOk(a)
    ensures NameFor(a, d).Some? && Find(a, 0, NameFor(a, d).value) == Some(d) <==> Spelled(a, d)
  {
    hide TreeInv, UpOk, Components, Hidden, Under;
    TreeTable(a, false);
    NoComponents();
    if Spelled(a, d) {
      NameInnerLeadsBack(a, d);
    } else if NameFor(a, d).Some? {
      var x := HiddenAbove(a, d);
      RootAvoids(a, x);
      var s := NameFor(a, d).value;
      ComponentsPlain(s);
      if Find(a, 0, s) == Some(d) { WalkAvoids(a, 0, Components(s), x, d); }
    }
  }

  lemma RootAvoids(a: Table, x: nat)
    requires UpOk(a) && Hidden(a, x)
    ensures 0 < |a| && !Under(a, 0, x)
  {
  }

  /** A directory with an empty name: the path derived for it leads to the root. */
  lemma EmptyNameLost()
    ensures var a := Create(Fresh(), 0, [], Directory);
            TreeInv(a, false) && UpOk(a) && NameFor(a, 1) == Some([SLASH]) && Find(a, 0, [SLASH]) == Some(0)
  {
    hide Entries, EntriesOf, DotEntries, Components, TreeInv, FindName, Encode, NameIn, Parent, Create, Appended,
         UpOk;
    var a := Create(Fresh(), 0, [], Directory);
    FirstDir([]);
    TreeTable(a, false);
    assert NameInner(a, 0) == Some([]);
    var none: Path := [];
    assert none + [SLASH] + none == [SLASH];
    assert NameInner(a, 1) == Some([SLASH]);
    NoComponents();
  }

  /** The first directory made on a new volume, under any name. */
  lemma FirstDir(name: Name)
    requires NameOk(name)
    ensures var a := Create(Fresh(), 0, name, Directory);
            && |a| == 2 && a[0].kind == a[1].kind == Directory && TreeInv(a, false) && Parent(a, 1) == Some(0)
            && NameIn(EntriesOf(a, 0), 1) == Some(name) && OnlyDots(EntriesOf(a, 1)) && a[1].nlink == 1
            && Lookup(a, 0, name) == Some(1)
  {
    hide Entries, DotEntries, TreeInv, FindName, Encode, NameIn, NulFree, Lookup, IsDot;
    var f := Fresh();
    var a := Create(f, 0, name, Directory);
    FreshTree(false);
    DotsOk(0, 0);
    TwoDots(f, 0, 0);
    LookupFound(f, 0, name);
    CreateKeepsTree(f, 0, name, Directory, false);
    CreateAppended(f, 0, name, Directory);
    DotsOk(1, 0);
    TwoDots(a, 1, 0);
    assert EntriesOf(a, 0) == [Dirent(DOT, 0)] + ([Dirent(DOT_DOT, 0)] + [Dirent(name, 1)]);
    NameInSkip(Dirent(DOT, 0), [Dirent(DOT_DOT, 0)] + [Dirent(name, 1)], 1);
    NameInSkip(Dirent(DOT_DOT, 0), [Dirent(name, 1)], 1);
    NameInLast(name);
    LookupThird(a, 0, name);
  }

  lemma NameInLast(name: Name)
    ensures NameIn([Dirent(name, 1)], 1) == Some(name)
  {
  }

  lemma LookupThird(a: Table, k: nat, name: Name)
    requires k < |a| && !IsDot(name)
    requires EntriesOf(a, k) == [Dirent(DOT, 0)] + ([Dirent(DOT_DOT, 0)] + [Dirent(name, 1)])
    ensures Lookup(a, k, name) == Some(1)
  {
    hide EntriesOf;
    var es := EntriesOf(a, k);
    assert es[0].name == DOT && es[1].name == DOT_DOT && es[2].name == name;
    assert FindName(es, name) == 2;
  }

  /** An empty directory that a path reaches, truncated: it has lost its "..", and deriving its name panics. */
  lemma TruncatedNameless(name: Name)
    requires NameOk(name) && PlainName(name)
    ensures var a := ClearFile(Create(Fresh(), 0, name, Directory), 1);
            |a| == 2 && TreeInv(a, false) && UpOk(a) && Find(a, 0, name) == Some(1) && NameFor(a, 1) == None
  {
    hide Entries, DotEntries, Components, TreeInv, FindName, Encode, NameIn, Create, NulFree, UpOk, PlainName;
    var c := Create(Fresh(), 0, name, Directory);
    FirstDir(name);
    var a := ClearFile(c, 1);
    ClearKeepsTree(c, 1, false);
    TreeTable(a, false);
    EmptyDir();
    assert Parent(a, 1) == None;
    OneComponent(name);
    assert Lookup(a, 0, name) == Lookup(c, 0, name);
    OneStep(a, 0, name, 1);
  }

  lemma NameInSkip(e: Dirent, es: seq<Dirent>, d: nat)
    requires e.inum != d
    ensures NameIn([e] + es, d) == NameIn(es, d)
  {
    assert ([e] + es)[1..] == es;
  }

  // ---- runs ----

  /** In a tidy tree, whatever directory a path leads to is spelled. */
  lemma {:induction false} WalkSpelled(a: Table, k: nat, names: seq<Path>, d: nat)
    requires TreeInv(a, true) && TreeInv(a, false) && UpOk(a)
    requires k < |a| && a[k].kind == Directory && Spelled(a, k)
    requires Walk(a, k, names) == Some(d) && d < |a| && a[d].kind == Directory
    ensures Spelled(a, d)
    decreases |names|
  {
    hide TreeInv, UpOk, Spelled, Lookup;
    if names != [] {
      var v := Lookup(a, k, names[0]).value;
      if a[v].kind == Directory {
        StepSpelled(a, k, names[0], v);
        WalkSpelled(a, v, names[1..], d);
      } else {
        FileEnds(a, v, names[1..]);
      }
    }
  }

  lemma StepSpelled(a: Table, k: nat, c: Path, v: nat)
    requires TreeInv(a, true) && TreeInv(a, false) && UpOk(a)
    requires k < |a| && a[k].kind == Directory && Spelled(a, k)
    requires Lookup(a, k, c) == Some(v) && v < |a| && a[v].kind == Directory
    ensures Spelled(a, v)
  {
    hide EntriesOf, FindName, TableOk, UniqueAll, PlainName, NameIn, Links, NameInner, TreeInv;
    assert Shape(a, k, true) && Shape(a, v, true) by { ShapeOf(a, k, true); ShapeOf(a, v, true); }
    if c == DOT {
    } else if c == DOT_DOT {
    } else {
      LookupFound(a, k, c);
      var es := EntriesOf(a, k);
      var i := FindName(es, c);
      assert EntryOk(a, k, es[i], true) && !IsDot(c);
      NamedHasLink(a, k, i);
      OneName(a, v, k, i);
    }
  }

  lemma ShapeOf(a: Table, k: nat, tidy: bool)
    requires TreeInv(a, tidy) && k < |a|
    ensures Shape(a, k, tidy)
  {
    hide DirInv, Shape, OneNamed;
  }

  lemma TidyIsTree(a: Table)
    requires TreeInv(a, true)
    ensures TreeInv(a, false)
  {
    hide Entries, FindName, DirInv, Links;
    forall k: nat | k < |a| ensures Shape(a, k, false) {
      assert Shape(a, k, true);
      if a[k].kind == Directory {
        var es := EntriesOf(a, k);
        forall i | 0 <= i < |es| ensures EntryOk(a, k, es[i], false) { assert EntryOk(a, k, es[i], true); }
      }
    }
  }

  /** In every state of every trace without hard links to directories, odd directory names, truncated directories
      or removed dots, the name derived for a directory that any path leads to leads back to it.  Directories
      may be removed with all that is in them. */
  lemma NameLeadsBack(states: seq<Table>, ops: seq<Op>, n: nat, path: Path, d: nat)
    requires IsTreeTrace(states, ops, true) && n < |states| && 0 < |states[n]|
    requires Find(states[n], 0, path) == Some(d) && d < |states[n]| && states[n][d].kind == Directory
    ensures TreeInv(states[n], false) && UpOk(states[n])
    ensures NameFor(states[n], d).Some? && Find(states[n], 0, NameFor(states[n], d).value) == Some(d)
  {
    hide IsTreeTrace, TreeInv, Components, NameFor;
    TreeRunKeeps(states, ops, true, n);
    TidyIsTree(states[n]);
    TreeTable(states[n], false);
    WalkSpelled(states[n], 0, Components(path), d);
    NameExact(states[n], d);
  }
}
