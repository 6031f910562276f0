/** What each operation does to the whole table, said of kinds, link counts, bytes and the maps that directories are. */
module Effects {
  import opened Basics
  import opened Disk
  import opened Contents
  import opened Dirents
  import opened FileTable
  import opened Namespace
  import opened Bindings

  /** Directory l as a map from names to inode numbers. */
  function Dir(a: Table, l: nat): map<Name, u32>
    requires l < |a|
  {
    ToMap(EntriesOf(a, l))
  }

  /** A name is found exactly if the map has it. */
  lemma DirLookup(a: Table, l: nat, name: Name)
    requires l < |a| && UniqueNames(EntriesOf(a, l))
    ensures Lookup(a, l, name) == if name in Dir(a, l) then Some(Dir(a, l)[name]) else None
  {
    hide Entries, ToMap, FindName, UniqueNames;
    LookupIsMap(EntriesOf(a, l), name);
    LookupFound(a, l, name);
  }

  /** A new volume: the root alone, with one link and both dots naming itself. */
  lemma FreshEffect()
    ensures var a := Fresh();
            |a| == 1 && a[0].kind == Directory && a[0].nlink == 1 && Dir(a, 0) == map[DOT := 0, DOT_DOT := 0]
  {
    hide Entries, ToMap, DotEntries;
    DotsOk(0, 0);
    TwoBindings(0, 0);
  }

  /** Creating: nothing if the name is taken; otherwise one more inode, empty with one link, one more binding, and all
      else as it was. */
  lemma MakeEffect(a: Table, k: nat, name: Name, kind: Kind)
    requires TableOk(a) && UniqueAll(a) && Asked(a, MakeInode(k, name, kind)) && Readable(name)
    ensures var b, n := Apply(a, MakeInode(k, name, kind)), |a|;
            if name in Dir(a, k) then b == a
            else
              && |b| == n + 1 && (forall l :: 0 <= l < n && l != k ==> b[l] == a[l])
              && b[k].kind == Directory && b[k].nlink == a[k].nlink && Dir(b, k) == Dir(a, k)[name := n]
              && b[n].kind == kind && b[n].nlink == 1
              && (kind == File ==> b[n].content == [])
              && (kind == Directory ==> Dir(b, n) == map[DOT := n, DOT_DOT := k])
  {
    hide Entries, ToMap, FindName, Lookup, UniqueNames, Encode, DotEntries, TableOk, NulFree;
    var b, n := Apply(a, MakeInode(k, name, kind)), |a|;
    DirLookup(a, k, name);
    if name !in Dir(a, k) {
      CreateAppended(a, k, name, kind);
      LookupFound(a, k, name);
      AppendIsAdd(EntriesOf(a, k), Dirent(name, n));
      if kind == Directory {
        DotsOk(n, k);
        TwoBindings(n, k);
      }
    }
  }

  lemma TwoBindings(n: u32, k: u32)
    ensures ToMap([Dirent(DOT, n), Dirent(DOT_DOT, k)]) == map[DOT := n, DOT_DOT := k]
  {
    hide ToMap;
    MapSnoc([Dirent(DOT, n)], Dirent(DOT_DOT, k));
    MapSnoc([], Dirent(DOT, n));
    NoBindings();
    assert [Dirent(DOT, n)] + [Dirent(DOT_DOT, k)] == [Dirent(DOT, n), Dirent(DOT_DOT, k)];
    assert [] + [Dirent(DOT, n)] == [Dirent(DOT, n)];
  }

  lemma NoBindings()
    ensures ToMap([]) == map[]
  {
  }

  /** Linking: nothing if the name is taken; otherwise one more binding and one more link, and all else as it was. */
  lemma LinkEffect(a: Table, k: nat, name: Name, src: nat)
    requires TableOk(a) && UniqueAll(a) && Asked(a, AddLink(k, name, src)) && Readable(name)
    ensures var b := Apply(a, AddLink(k, name, src));
            if name in Dir(a, k) then b == a
            else
              && |b| == |a| && (forall l :: 0 <= l < |a| && l != k && l != src ==> b[l] == a[l])
              && Dir(b, k) == Dir(a, k)[name := src]
              && b[k].kind == Directory && (k != src ==> b[k].nlink == a[k].nlink)
              && b[src].kind == a[src].kind && b[src].nlink == (a[src].nlink as int + 1) % 0x1_0000_0000
              && (k != src ==> b[src].content == a[src].content)
  {
    hide Entries, ToMap, FindName, Lookup, UniqueNames, Encode, TableOk, NulFree;
    DirLookup(a, k, name);
    if name !in Dir(a, k) {
      LinkAppended(a, k, name, src);
      LookupFound(a, k, name);
      AppendIsAdd(EntriesOf(a, k), Dirent(name, src));
    }
  }

  /** Unlinking: nothing without such a name; otherwise one binding less and one link less.  The inode that loses its
      last link, file or directory, is empty.  All else is as it was. */
  lemma RemoveEffect(a: Table, k: nat, name: Name)
    requires TableOk(a) && UniqueAll(a) && Asked(a, RemoveName(k, name))
    ensures var b := Apply(a, RemoveName(k, name));
            if a[k].kind == File || name !in Dir(a, k) then b == a
            else
              var t := Dir(a, k)[name];
              && t < |a| == |b| && (forall l :: 0 <= l < |a| && l != k && l != t ==> b[l] == a[l])
              && b[k].kind == Directory && (k != t ==> b[k].nlink == a[k].nlink)
              && b[t].kind == a[t].kind && b[t].nlink == (a[t].nlink as int - 1) % 0x1_0000_0000
              && (a[t].nlink == 1 ==> b[t].content == [])
              && (a[t].nlink != 1 && t != k ==> b[t].content == a[t].content)
              && (a[t].nlink != 1 || t != k ==> Dir(b, k) == Dir(a, k) - {name})
  {
    hide Entries, ToMap, FindName, Lookup, UniqueNames, TableOk, SwapRemove, EntriesSwapRemove, Links;
    if a[k].kind == Directory {
      DirLookup(a, k, name);
      LookupFound(a, k, name);
      var es, i := EntriesOf(a, k), FindName(EntriesOf(a, k), name);
      if i < |es| {
        ListedBelow(a, k);
        FoundName(es, name);
        SwappedEntries(a, k, i);
        SwapIsRemove(es, i);
        assert Swapped(a, k, i)[k].content == SwapRemove(a[k].content, i);
      }
    }
  }

  lemma FoundName(es: seq<Dirent>, name: Name)
    requires FindName(es, name) < |es|
    ensures es[FindName(es, name)].name == name
  {
  }

  /** Writing: see `FileTable.WriteBytes`, which this ties to the operation. */
  lemma WriteEffect(a: Table, k: nat, off: nat, buf: seq<byte>)
    requires TableOk(a) && Asked(a, Write(k, off, buf))
    ensures var b := Apply(a, Write(k, off, buf));
            && |b| == |a| && b[k].kind == File && b[k].nlink == a[k].nlink
            && (forall l :: 0 <= l < |a| && l != k ==> b[l] == a[l])
            && var s, t := a[k].content, b[k].content;
            && |t| == (if off + |buf| <= |s| then |s| else off + |buf|)
            && forall p :: 0 <= p < |t| ==>
                 t[p] == if off <= p < off + |buf| then buf[p - off] else if p < |s| then s[p] else 0
  {
    hide Splice, TableOk;
    WriteBytes(a, k, off, buf);
  }

  /** Truncating: the inode is empty, and all else is as it was. */
  lemma TruncateEffect(a: Table, k: nat)
    requires TableOk(a) && Asked(a, Truncate(k))
    ensures var b := Apply(a, Truncate(k));
            && |b| == |a| && b[k].content == [] && b[k].kind == a[k].kind && b[k].nlink == a[k].nlink
            && forall l :: 0 <= l < |a| && l != k ==> b[l] == a[l]
  {
    hide TableOk;
  }
}
