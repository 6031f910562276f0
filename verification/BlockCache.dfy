/** The write-back block cache of easy-fs: at most sixteen cached blocks in front of one block device.

    A cache object is a slot of `queue`.  The source hands out `Arc` handles to it; `handles` is the number of
    handles held outside the queue, so `Arc::strong_count(slot) == 1` reads `handles == 0` here.  Only such a slot
    is ever dropped, and dropping it writes it back.

    `view` is what the rest of the file system sees: for every block, the bytes a reader would get.  `pinned` counts
    the handles outstanding for every block. */
module BlockCache {
  import opened Basics

  const BLOCK_CACHE_SIZE := 16

  datatype Slot<T> = Slot(id: nat, data: T, modified: bool, handles: nat)

  ghost predicate DistinctIds<T>(queue: seq<Slot<T>>) {
    forall i, j :: 0 <= i < j < |queue| ==> queue[i].id != queue[j].id
  }

  /** Position of the slot of block `id`, or |queue| when the block is not cached. */
  function IndexOf<T>(queue: seq<Slot<T>>, id: nat): (k: nat)
    ensures k <= |queue|
    ensures k < |queue| ==> queue[k].id == id
    ensures forall j :: 0 <= j < k ==> queue[j].id != id
  {
    if queue == [] then 0
    else if queue[0].id == id then 0
    else
      var k := IndexOf(queue[1..], id);
      assert forall j :: 1 <= j < k + 1 ==> queue[j] == queue[1..][j - 1];
      k + 1
  }

  ghost predicate Cached<T>(queue: seq<Slot<T>>, b: nat) {
    exists i :: 0 <= i < |queue| && queue[i].id == b
  }

  /** How queue and device make up what readers see.  A clean slot agrees with the
      device, so dropping it loses nothing. */
  ghost predicate Coherent<T>(queue: seq<Slot<T>>, device: map<nat, T>, view: map<nat, T>, pinned: multiset<nat>) {
    && DistinctIds(queue)
    && view.Keys == device.Keys
    && (forall i :: 0 <= i < |queue| ==> queue[i].id in device)
    && (forall i :: 0 <= i < |queue| ==> view[queue[i].id] == queue[i].data)
    && (forall i :: 0 <= i < |queue| ==> pinned[queue[i].id] == queue[i].handles)
    && (forall i :: 0 <= i < |queue| && !queue[i].modified ==> queue[i].data == device[queue[i].id])
    && (forall b {:trigger Cached(queue, b)} :: b in device && !Cached(queue, b) ==> view[b] == device[b])
    && (forall b: nat {:trigger Cached(queue, b)} :: !Cached(queue, b) ==> pinned[b] == 0)
  }

  /** Sixteen distinct pinned blocks need sixteen handles. */
  lemma PinnedBound<T>(queue: seq<Slot<T>>, pinned: multiset<nat>)
    requires DistinctIds(queue)
    requires forall i :: 0 <= i < |queue| ==> pinned[queue[i].id] > 0
    ensures |queue| <= |pinned|
  {
    var ids := seq(|queue|, i requires 0 <= i < |queue| => queue[i].id);
    forall x ensures multiset(ids)[x] <= pinned[x] { CountOnce(ids, x); }
    assert pinned == multiset(ids) + (pinned - multiset(ids));
  }

  lemma {:induction false} CountOnce(s: seq<nat>, x: nat)
    requires NoDup(s)
    ensures multiset(s)[x] <= 1 && (multiset(s)[x] == 1 <==> x in s)
  {
    if s != [] {
      var t := s[..|s| - 1];
      CountOnce(t, x);
      assert s == t + [s[|s| - 1]];
    }
  }

  class BlockCacheManager<T> {
    var queue: seq<Slot<T>>
    var device: map<nat, T>
    ghost var view: map<nat, T>
    ghost var pinned: multiset<nat>

    ghost predicate Valid()
      reads this
    {
      && |queue| <= BLOCK_CACHE_SIZE
      && Coherent(queue, device, view, pinned)
    }

    constructor (device: map<nat, T>)
      ensures Valid()
      ensures view == device && this.device == device && pinned == multiset{} && queue == []
    {
      this.queue, this.device := [], device;
      this.view, this.pinned := device, multiset{};
    }

    /** Write slot k back if it was modified: `BlockCache::sync`. */
    method Sync(k: nat)
      requires Valid() && k < |queue|
      modifies this`queue, this`device
      ensures Valid()
      ensures |queue| == |old(queue)| && queue == old(queue)[k := old(queue)[k].(modified := false)]
    {
      var slot := queue[k];
      if slot.modified {
        device := device[slot.id := slot.data];
        queue := queue[k := slot.(modified := false)];
        SameIds(old(queue), queue);
      }
    }

    /** First slot nobody holds a handle to, if any. */
    method FindUnreferenced() returns (k: nat)
      requires Valid()
      ensures k <= |queue|
      ensures k < |queue| ==> queue[k].handles == 0
      ensures forall i :: 0 <= i < k ==> queue[i].handles > 0
    {
      k := 0;
      while k < |queue| && queue[k].handles > 0
        invariant k <= |queue|
        invariant forall i :: 0 <= i < k ==> queue[i].handles > 0
      {
        k := k + 1;
      }
    }

    /** Drop slot k from the queue.  Its last handle goes away, so it is synced first. */
    method Evict(k: nat)
      requires Valid() && k < |queue| && queue[k].handles == 0
      modifies this`queue, this`device
      ensures Valid()
      ensures queue == old(queue)[..k] + old(queue)[k + 1..]
    {
      Sync(k);
      RemoveCoherent(queue, k, device, view, pinned);
      assert queue[..k] == old(queue)[..k] && queue[k + 1..] == old(queue)[k + 1..];
      queue := queue[..k] + queue[k + 1..];
    }

    /** Hand out a handle to block `id`, loading it if need be.  `ok` is false where the source
        panics with "Run out of BlockCache!". */
    method GetBlockCache(id: nat) returns (ok: bool)
      requires Valid() && id in view
      modifies this`queue, this`device, this`pinned
      ensures Valid()
      ensures !ok <==> |old(queue)| == BLOCK_CACHE_SIZE
                       && forall i :: 0 <= i < |old(queue)| ==> old(queue)[i].handles > 0 && old(queue)[i].id != id
      ensures ok ==> pinned == old(pinned) + multiset{id}
      ensures !ok ==> unchanged(this)
      ensures |old(pinned)| < BLOCK_CACHE_SIZE ==> ok
    {
      var k := IndexOf(queue, id);
      if k == |queue| {
        ok := Load(id);
        if !ok { return; }
        k := |queue| - 1;
      }
      AddHandle(k);
      ok := true;
    }

    /** Put a block that is not cached at the end of the queue, making room for it if there is none. */
    method Load(id: nat) returns (ok: bool)
      requires Valid() && id in view && !Cached(queue, id)
      modifies this`queue, this`device
      ensures Valid() && (ok ==> queue != [] && queue[|queue| - 1].id == id)
      ensures !ok <==> |old(queue)| == BLOCK_CACHE_SIZE
                       && forall i :: 0 <= i < |old(queue)| ==> old(queue)[i].handles > 0
      ensures !ok ==> unchanged(this)
      ensures |pinned| < BLOCK_CACHE_SIZE ==> ok
    {
      if |queue| == BLOCK_CACHE_SIZE {
        var u := FindUnreferenced();
        if u == |queue| {
          PinnedBound(queue, pinned);
          return false;
        }
        Evict(u);
        StillAbsent(old(queue), u, id);
      }
      hide Cached;
      assert id in device;
      AppendCoherent(queue, id, device, view, pinned);
      queue := queue + [Slot(id, device[id], false, 0)];
      ok := true;
    }

    method AddHandle(k: nat)
      requires Valid() && k < |queue|
      modifies this`queue, this`pinned
      ensures Valid()
      ensures pinned == old(pinned) + multiset{old(queue)[k].id}
    {
      queue := queue[k := queue[k].(handles := queue[k].handles + 1)];
      pinned := pinned + multiset{queue[k].id};
      SameIds(old(queue), queue);
    }

    /** `BlockCache::read` through a handle. */
    method Read(id: nat) returns (data: T)
      requires Valid() && pinned[id] > 0
      ensures id in view && data == view[id]
    {
      assert Cached(queue, id);
      var k := IndexOf(queue, id);
      data := queue[k].data;
    }

    /** `BlockCache::modify` through a handle: `modified` is set before the closure runs. */
    method Modify(id: nat, data: T)
      requires Valid() && pinned[id] > 0
      modifies this`queue, this`view
      ensures Valid()
      ensures id in old(view) && view == old(view)[id := data]
    {
      assert Cached(queue, id);
      var k := IndexOf(queue, id);
      queue := queue[k := queue[k].(data := data, modified := true)];
      view := view[id := data];
      SameIds(old(queue), queue);
    }

    /** A handle goes out of scope. */
    method Release(id: nat)
      requires Valid() && pinned[id] > 0
      modifies this`queue, this`pinned
      ensures Valid()
      ensures pinned == old(pinned) - multiset{id}
    {
      assert Cached(queue, id);
      var k := IndexOf(queue, id);
      queue := queue[k := queue[k].(handles := queue[k].handles - 1)];
      pinned := pinned - multiset{id};
      SameIds(old(queue), queue);
    }

    /** `block_cache_sync_all`: afterwards the device holds what readers see.  It locks every cached block
        in turn, so the caller may hold none. */
    method SyncAll()
      requires Valid() && pinned == multiset{}
      modifies this`queue, this`device
      ensures Valid()
      ensures device == view
    {
      var k := 0;
      while k < |queue|
        invariant Valid() && k <= |queue|
        invariant forall i :: 0 <= i < k ==> !queue[i].modified
      {
        Sync(k);
        k := k + 1;
      }
      forall b | b in device ensures device[b] == view[b] {
        if Cached(queue, b) { var i :| 0 <= i < |queue| && queue[i].id == b; }
      }
    }

    /** Lock, read and let go of a block in one statement.  The caller must not hold the block's lock already (the
        source's spin lock would never return), and may hold at most two others. */
    method ReadBlock(id: nat) returns (data: T)
      requires Valid() && id in view && id !in pinned && |pinned| <= 2
      modifies this`queue, this`device, this`pinned
      ensures Valid() && pinned == old(pinned)
      ensures data == view[id]
    {
      Lock(id);
      data := Read(id);
      Release(id);
      assert old(pinned) + multiset{id} - multiset{id} == old(pinned);
    }

    /** Lock, overwrite and let go of a block in one statement. */
    method WriteBlock(id: nat, data: T)
      requires Valid() && id in view && id !in pinned && |pinned| <= 2
      modifies this
      ensures Valid() && pinned == old(pinned)
      ensures view == old(view)[id := data]
    {
      Lock(id);
      Modify(id, data);
      Release(id);
      assert old(pinned) + multiset{id} - multiset{id} == old(pinned);
    }

    /** `get_block_cache(id).lock()`.  Holding at most two blocks already, the cache cannot run out. */
    method Lock(id: nat)
      requires Valid() && id in view && id !in pinned && |pinned| <= 2
      modifies this`queue, this`device, this`pinned
      ensures Valid()
      ensures pinned == old(pinned) + multiset{id}
    {
      var ok := GetBlockCache(id);
      assert ok;
    }
  }

  /** Slots rewritten in place cache the same blocks. */
  lemma SameIds<T>(q: seq<Slot<T>>, r: seq<Slot<T>>)
    requires |q| == |r| && forall i :: 0 <= i < |q| ==> q[i].id == r[i].id
    ensures forall b: nat :: Cached(q, b) <==> Cached(r, b)
  {
    forall b: nat ensures Cached(q, b) <==> Cached(r, b) {
      if Cached(q, b) { var i :| 0 <= i < |q| && q[i].id == b; assert r[i].id == b; }
      if Cached(r, b) { var i :| 0 <= i < |r| && r[i].id == b; assert q[i].id == b; }
    }
  }

  /** Dropping a clean slot nobody holds changes neither what readers see nor the handles. */
  lemma RemoveCoherent<T>(q: seq<Slot<T>>, k: nat, device: map<nat, T>, view: map<nat, T>, pinned: multiset<nat>)
    requires Coherent(q, device, view, pinned)
    requires k < |q| && q[k].handles == 0 && !q[k].modified
    ensures Coherent(q[..k] + q[k + 1..], device, view, pinned)
    ensures forall b: nat :: Cached(q[..k] + q[k + 1..], b) ==> Cached(q, b)
  {
    var r := q[..k] + q[k + 1..];
    assert forall i :: 0 <= i < |r| ==> r[i] == q[if i < k then i else i + 1];
    forall b: nat | Cached(q, b) && b != q[k].id ensures Cached(r, b) {
      var i :| 0 <= i < |q| && q[i].id == b;
      assert r[if i < k then i else i - 1].id == b;
    }
    forall b: nat | Cached(r, b) ensures Cached(q, b) {
      var i :| 0 <= i < |r| && r[i].id == b;
      assert q[if i < k then i else i + 1].id == b;
    }
  }

  /** So does loading a block that is not cached yet. */
  lemma StillAbsent<T>(q: seq<Slot<T>>, k: nat, id: nat)
    requires k < |q| && !Cached(q, id)
    ensures !Cached(q[..k] + q[k + 1..], id)
  {
  }

  lemma AppendCoherent<T>(q: seq<Slot<T>>, id: nat, device: map<nat, T>, view: map<nat, T>, pinned: multiset<nat>)
    requires Coherent(q, device, view, pinned)
    requires !Cached(q, id) && id in device
    ensures Coherent(q + [Slot(id, device[id], false, 0)], device, view, pinned)
  {
    var r := q + [Slot(id, device[id], false, 0)];
    forall b: nat | Cached(q, b) ensures Cached(r, b) {
      var i :| 0 <= i < |q| && q[i].id == b;
      assert r[i].id == b;
    }
    assert r[|q|].id == id;
  }
}
