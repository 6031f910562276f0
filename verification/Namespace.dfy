/** Directories as maps, link counts and path lookup: what the operations on a table promise over whole runs. */
module Namespace {
  import opened Basics
  import opened Disk
  import opened Dirents
  import opened FileTable

  // ---- a directory is a map from names to inodes ----

  ghost predicate UniqueNames(es: seq<Dirent>) {
    forall i, j :: 0 <= i < j < |es| ==> es[i].name != es[j].name
  }

  function ToMap(es: seq<Dirent>): map<Name, u32> {
    if es == [] then map[] else ToMap(es[..|es| - 1])[es[|es| - 1].name := es[|es| - 1].inum]
  }

  lemma {:induction false} MapHas(es: seq<Dirent>, name: Name)
    ensures name in ToMap(es) <==> exists i :: 0 <= i < |es| && es[i].name == name
  {
    if es != [] {
      MapHas(es[..|es| - 1], name);
    }
  }

  lemma {:induction false} MapAt(es: seq<Dirent>, i: nat)
    requires UniqueNames(es) && i < |es|
    ensures es[i].name in ToMap(es) && ToMap(es)[es[i].name] == es[i].inum
  {
    if i < |es| - 1 {
      MapAt(es[..|es| - 1], i);
      assert es[..|es| - 1][i] == es[i];
    }
  }

  /** The scan finds exactly what the map holds. */
  lemma LookupIsMap(es: seq<Dirent>, name: Name)
    requires UniqueNames(es)
    ensures FindName(es, name) < |es| <==> name in ToMap(es)
    ensures FindName(es, name) < |es| ==> ToMap(es)[name] == es[FindName(es, name)].inum
  {
    MapHas(es, name);
    var i := FindName(es, name);
    if i < |es| { MapAt(es, i); }
  }

  /** Appending an entry with a new name adds one binding. */
  lemma AppendIsAdd(es: seq<Dirent>, e: Dirent)
    requires UniqueNames(es) && FindName(es, e.name) == |es|
    ensures UniqueNames(es + [e]) && ToMap(es + [e]) == ToMap(es)[e.name := e.inum] && e.name !in ToMap(es)
  {
    hide ToMap;
    LookupIsMap(es, e.name);
    MapSnoc(es, e);
  }

  lemma MapSnoc(es: seq<Dirent>, e: Dirent)
    ensures ToMap(es + [e]) == ToMap(es)[e.name := e.inum]
  {
    assert (es + [e])[..|es|] == es;
  }

  /** Swapping the last entry into the hole removes exactly one binding. */
  lemma SwapIsRemove(es: seq<Dirent>, i: nat)
    requires UniqueNames(es) && i < |es|
    ensures UniqueNames(EntriesSwapRemove(es, i))
    ensures ToMap(EntriesSwapRemove(es, i)) == ToMap(es) - {es[i].name}
  {
    hide ToMap, EntriesSwapRemove;
    SwapUnique(es, i);
    var m, m' := ToMap(es), ToMap(EntriesSwapRemove(es, i));
    forall n: Name ensures n in m' <==> n in m && n != es[i].name { SwapKeys(es, i, n); }
    forall n | n in m' ensures m'[n] == m[n] { SwapValue(es, i, n); }
    MapMinus(m, m', es[i].name);
  }

  lemma MapMinus(m: map<Name, u32>, m': map<Name, u32>, x: Name)
    requires forall n: Name :: n in m' <==> n in m && n != x
    requires forall n :: n in m' ==> m'[n] == m[n]
    ensures m' == m - {x}
  {
  }

  lemma SwapUnique(es: seq<Dirent>, i: nat)
    requires UniqueNames(es) && i < |es|
    ensures UniqueNames(EntriesSwapRemove(es, i))
  {
    var fs, last := EntriesSwapRemove(es, i), |es| - 1;
    forall j, k | 0 <= j < k < |fs| ensures fs[j].name != fs[k].name {
      var j', k' := if j == i then last else j, if k == i then last else k;
      assert fs[j] == es[j'] && fs[k] == es[k'];
    }
  }

  lemma SwapKeys(es: seq<Dirent>, i: nat, n: Name)
    requires UniqueNames(es) && i < |es|
    ensures n in ToMap(EntriesSwapRemove(es, i)) <==> n in ToMap(es) && n != es[i].name
  {
    hide ToMap, EntriesSwapRemove, UniqueNames;
    var fs, last := EntriesSwapRemove(es, i), |es| - 1;
    MapHas(fs, n);
    MapHas(es, n);
    if n in ToMap(es) && n != es[i].name {
      var j :| 0 <= j < |es| && es[j].name == n;
      SwapAt(es, i, if j == last then i else j);
    }
    if n in ToMap(fs) {
      var j :| 0 <= j < |fs| && fs[j].name == n;
      SwapAt(es, i, j);
      NamesDiffer(es, i, if j == i then last else j);
    }
  }

  lemma NamesDiffer(es: seq<Dirent>, i: nat, j: nat)
    requires UniqueNames(es) && i < |es| && j < |es| && i != j
    ensures es[i].name != es[j].name
  {
  }

  /** Where the entries left over come from. */
  lemma SwapAt(es: seq<Dirent>, i: nat, j: nat)
    requires i < |es| && j < |es| - 1
    ensures EntriesSwapRemove(es, i)[j] == es[if j == i then |es| - 1 else j]
  {
  }

  lemma SwapValue(es: seq<Dirent>, i: nat, n: Name)
    requires UniqueNames(es) && i < |es| && n in ToMap(EntriesSwapRemove(es, i))
    ensures n in ToMap(es) && ToMap(EntriesSwapRemove(es, i))[n] == ToMap(es)[n]
  {
    SwapUnique(es, i);
    hide ToMap, EntriesSwapRemove, UniqueNames;
    var fs, last := EntriesSwapRemove(es, i), |es| - 1;
    SwapKeys(es, i, n);
    MapHas(fs, n);
    var j :| 0 <= j < |fs| && fs[j].name == n;
    SwapAt(es, i, j);
    MapAt(fs, j);
    MapAt(es, if j == i then last else j);
  }

  // ---- link counts ----

  predicate IsDot(name: Name) {
    name == DOT || name == DOT_DOT
  }

  /** Entries of es that count as links of inode t. */
  function CountIn(es: seq<Dirent>, t: nat): nat {
    if es == [] then 0
    else CountIn(es[..|es| - 1], t) + if es[|es| - 1].inum == t && !IsDot(es[|es| - 1].name) then 1 else 0
  }

  /** The entries inode l holds. */
  function Listing(a: Table, l: nat): seq<Dirent>
    requires l < |a|
  {
    if a[l].kind == Directory then EntriesOf(a, l) else []
  }

  /** Links of inode t from the first n inodes of the table. */
  function CountTo(a: Table, n: nat, t: nat): nat
    requires n <= |a|
  {
    if n == 0 then 0 else CountTo(a, n - 1, t) + CountIn(Listing(a, n - 1), t)
  }

  function Links(a: Table, t: nat): nat {
    CountTo(a, |a|, t)
  }

  lemma CountInAppend(es: seq<Dirent>, e: Dirent, t: nat)
    ensures CountIn(es + [e], t) == CountIn(es, t) + if e.inum == t && !IsDot(e.name) then 1 else 0
  {
    assert (es + [e])[..|es|] == es;
  }

  lemma {:induction false} CountInUpdate(es: seq<Dirent>, i: nat, e: Dirent, t: nat)
    requires i < |es|
    ensures CountIn(es[i := e], t) + (if es[i].inum == t && !IsDot(es[i].name) then 1 else 0)
         == CountIn(es, t) + if e.inum == t && !IsDot(e.name) then 1 else 0
  {
    var last := |es| - 1;
    if i == last {
      assert es[i := e][..last] == es[..last];
    } else {
      assert es[i := e][..last] == es[..last][i := e];
      CountInUpdate(es[..last], i, e, t);
    }
  }

  lemma CountInSwap(es: seq<Dirent>, i: nat, t: nat)
    requires i < |es|
    ensures CountIn(EntriesSwapRemove(es, i), t) + (if es[i].inum == t && !IsDot(es[i].name) then 1 else 0)
         == CountIn(es, t)
  {
    var last := |es| - 1;
    CountInUpdate(es, i, es[last], t);
    var u := es[i := es[last]];
    CountInAppend(u[..last], u[last], t);
    assert u[..last] + [u[last]] == u;
  }

  /** Entries that do not name t do not count. */
  lemma {:induction false} CountInZero(es: seq<Dirent>, t: nat)
    requires forall i :: 0 <= i < |es| ==> es[i].inum != t || IsDot(es[i].name)
    ensures CountIn(es, t) == 0
  {
    if es != [] { CountInZero(es[..|es| - 1], t); }
  }

  lemma {:induction false} CountInPositive(es: seq<Dirent>, t: nat, i: nat)
    requires i < |es| && es[i].inum == t && !IsDot(es[i].name)
    ensures CountIn(es, t) > 0
  {
    if i < |es| - 1 { CountInPositive(es[..|es| - 1], t, i); }
  }

  /** Two entries that name t count twice. */
  lemma {:induction false} CountInTwo(es: seq<Dirent>, t: nat, i: nat, j: nat)
    requires i < |es| && j < |es| && i != j
    requires es[i].inum == es[j].inum == t && !IsDot(es[i].name) && !IsDot(es[j].name)
    ensures CountIn(es, t) >= 2
  {
    var last := |es| - 1;
    if i == last {
      CountInPositive(es[..last], t, j);
    } else if j == last {
      CountInPositive(es[..last], t, i);
    } else {
      CountInTwo(es[..last], t, i, j);
    }
  }

  lemma {:induction false} CountToAtLeast(a: Table, n: nat, k: nat, t: nat)
    requires k < n <= |a|
    ensures CountTo(a, n, t) >= CountIn(Listing(a, k), t)
  {
    hide Listing, CountIn;
    if k < n - 1 { CountToAtLeast(a, n - 1, k, t); }
  }

  /** Only what inode k holds may change the count, and by how much it changes there. */
  lemma {:induction false} CountToChange(a: Table, b: Table, n: nat, k: nat, t: nat)
    requires n <= |a| && n <= |b| && k < |a| && k < |b|
    requires forall l: nat :: l < n && l != k ==> CountIn(Listing(b, l), t) == CountIn(Listing(a, l), t)
    ensures CountTo(b, n, t) - CountTo(a, n, t)
         == if k < n then CountIn(Listing(b, k), t) - CountIn(Listing(a, k), t) else 0
  {
    hide Listing, CountIn;
    if n > 0 { CountToChange(a, b, n - 1, k, t); }
  }

  lemma {:induction false} CountToZero(a: Table, n: nat, t: nat)
    requires n <= |a| && forall l: nat :: l < n ==> CountIn(Listing(a, l), t) == 0
    ensures CountTo(a, n, t) == 0
  {
    hide Listing, CountIn;
    if n > 0 { CountToZero(a, n - 1, t); }
  }

  lemma {:induction false} CountToPositive(a: Table, n: nat, k: nat, t: nat)
    requires k < n <= |a| && CountIn(Listing(a, k), t) > 0
    ensures CountTo(a, n, t) > 0
  {
    hide Listing, CountIn;
    if k < n - 1 { CountToPositive(a, n - 1, k, t); }
  }
}
