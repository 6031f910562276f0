/** easy-fs/src/bitmap.rs: a bitmap over consecutive blocks, 64 words of 64 bits each. */
module Bitmaps {
  import opened Basics
  import opened Disk
  import opened BlockCache

  /** Bit p of the bitmap that starts at block `start`. */
  function Bit(d: Volume, start: nat, p: nat): bool {
    var b := start + p / BLOCK_BITS;
    b in d && d[b].Bitmap? && d[b].words[p % BLOCK_BITS / 64][p % 64]
  }

  function SetBit(d: Volume, start: nat, p: nat, v: bool): Volume {
    var b, w := start + p / BLOCK_BITS, p % BLOCK_BITS / 64;
    if b in d && d[b].Bitmap? then d[b := Bitmap(WithBit(d[b].words, w, p % 64, v))] else d
  }

  /** The words with bit i of word w set to v. */
  function WithBit(words: BitmapBlock, w: nat, i: nat, v: bool): BitmapBlock
    requires w < 64 && i < 64
  {
    words[w := words[w][i := v]]
  }

  /** The bits that are set among the first n. */
  ghost function Bits(d: Volume, start: nat, n: nat): set<nat> {
    set p | p in Below(n) && Bit(d, start, p)
  }

  /** `decompsition`: block, word and bit position. */
  function Decompose(bit: nat): (nat, nat, nat) {
    (bit / BLOCK_BITS, bit % BLOCK_BITS / 64, bit % BLOCK_BITS % 64)
  }

  /** Different bits have different positions, and the positions give the bit back. */
  lemma DecomposeInverse(bit: nat)
    ensures var (b, w, i) := Decompose(bit); w < 64 && i < 64 && bit == b * BLOCK_BITS + w * 64 + i && i == bit % 64
  {
    var r := bit % BLOCK_BITS;
    LowBits(bit / BLOCK_BITS * 64, r);
  }

  lemma LowBits(q: nat, r: nat)
    ensures (64 * q + r) % 64 == r % 64
  {
  }

  lemma SetBitGet(d: Volume, start: nat, p: nat, v: bool, q: nat)
    requires start + p / BLOCK_BITS in d && d[start + p / BLOCK_BITS].Bitmap?
    ensures Bit(SetBit(d, start, p, v), start, q) == if p == q then v else Bit(d, start, q)
  {
    var b, w, i := start + p / BLOCK_BITS, p % BLOCK_BITS / 64, p % 64;
    var b', w', i' := start + q / BLOCK_BITS, q % BLOCK_BITS / 64, q % 64;
    DecomposeInverse(p);
    DecomposeInverse(q);
    assert p == q <==> b == b' && w == w' && i == i';
    SetWordGet(d[b].words, w, i, v, w', i');
  }

  lemma SetWordGet(words: BitmapBlock, w: nat, i: nat, v: bool, w': nat, i': nat)
    requires w < 64 && i < 64 && w' < 64 && i' < 64
    ensures WithBit(words, w, i, v)[w'][i'] == if w == w' && i == i' then v else words[w'][i']
  {
  }

  lemma SetBitBits(d: Volume, start: nat, p: nat, n: nat)
    requires start + p / BLOCK_BITS in d && d[start + p / BLOCK_BITS].Bitmap? && p < n
    ensures Bits(SetBit(d, start, p, true), start, n) == Bits(d, start, n) + {p}
    ensures Bits(SetBit(d, start, p, false), start, n) == Bits(d, start, n) - {p}
  {
    forall q: nat, v: bool ensures Bit(SetBit(d, start, p, v), start, q) == if p == q then v else Bit(d, start, q) {
      SetBitGet(d, start, p, v, q);
    }
  }

  /** The lowest clear bit is no higher than the number of bits in use. */
  lemma LowestClear(d: Volume, start: nat, n: nat, p: nat)
    requires p <= n && forall q: nat :: q < p ==> Bit(d, start, q)
    ensures p <= |Bits(d, start, n)|
  {
    forall q | q in Below(p) ensures q in Bits(d, start, n) { assert q in Below(n); }
    SubsetCard(Below(p), Bits(d, start, n));
  }

  /** All blocks of a bitmap are there and can be locked. */
  ghost predicate Ready(d: Volume, pinned: multiset<nat>, start: nat, blocks: nat) {
    forall b: nat :: start <= b < start + blocks ==> b in d && d[b].Bitmap? && b !in pinned
  }

  /** r is the lowest clear bit of a block, as word and position, if there is one. */
  ghost predicate Scan(words: BitmapBlock, r: Option<(nat, nat)>) {
    && (r.None? ==> forall w, i :: 0 <= w < 64 && 0 <= i < 64 ==> words[w][i])
    && (r.Some? ==>
          && r.value.0 < 64 && r.value.1 < 64 && !words[r.value.0][r.value.1]
          && (forall w, i :: 0 <= w < r.value.0 && 0 <= i < 64 ==> words[w][i])
          && (forall i :: 0 <= i < r.value.1 ==> words[r.value.0][i]))
  }

  /** First word with a clear bit, and the number of ones below that bit: `find` and `trailing_ones`. */
  method FindClear(words: BitmapBlock) returns (r: Option<(nat, nat)>)
    ensures Scan(words, r)
  {
    var w := 0;
    while w < 64
      invariant w <= 64
      invariant forall v, i :: 0 <= v < w && 0 <= i < 64 ==> words[v][i]
    {
      var i := TrailingOnes(words[w]);
      if i < 64 { return Some((w, i)); }
      w := w + 1;
    }
    return None;
  }

  method TrailingOnes(word: Word64) returns (i: nat)
    ensures i <= 64 && (i < 64 ==> !word[i]) && forall j :: 0 <= j < i ==> word[j]
  {
    i := 0;
    while i < 64 && word[i]
      invariant i <= 64 && forall j :: 0 <= j < i ==> word[j]
    {
      i := i + 1;
    }
  }

  datatype BitmapRegion = BitmapRegion(start: nat, blocks: nat) {

    /** Number of bits: `maxmium`. */
    function Maximum(): nat {
      blocks * BLOCK_BITS
    }

    /** Position p is the lowest clear bit of d, and d' is d with it set. */
    ghost predicate Taken(d: Volume, d': Volume, p: nat) {
      && p < Maximum() && !Bit(d, start, p)
      && (forall q: nat :: q < p ==> Bit(d, start, q))
      && start + p / BLOCK_BITS in d && d[start + p / BLOCK_BITS].Bitmap?
      && d' == SetBit(d, start, p, true)
    }

    ghost predicate FullBelow(d: Volume, n: nat) {
      forall q: nat :: q < n ==> Bit(d, start, q)
    }

    /** Set and return the lowest clear bit. */
    method Alloc(cache: BlockCacheManager<Block>) returns (pos: Option<nat>)
      requires cache.Valid() && |cache.pinned| <= 2 && Ready(cache.view, cache.pinned, start, blocks)
      modifies cache
      ensures cache.Valid() && cache.pinned == old(cache.pinned)
      ensures pos.None? ==> cache.view == old(cache.view) && FullBelow(cache.view, Maximum())
      ensures pos.Some? ==> Taken(old(cache.view), cache.view, pos.value)
    {
      hide Coherent, Bit, SetBit;
      pos := None;
      var idx := 0;
      while idx < blocks
        invariant idx <= blocks
        invariant cache.Valid() && cache.pinned == old(cache.pinned) && cache.view == old(cache.view)
        invariant FullBelow(cache.view, idx * BLOCK_BITS)
      {
        pos := AllocIn(cache, idx);
        if pos.Some? { return; }
        idx := idx + 1;
      }
      pos := None;
    }

    /** The same within one block, those before it being full. */
    method AllocIn(cache: BlockCacheManager<Block>, idx: nat) returns (pos: Option<nat>)
      requires cache.Valid() && |cache.pinned| <= 2 && Ready(cache.view, cache.pinned, start, blocks)
      requires idx < blocks && FullBelow(cache.view, idx * BLOCK_BITS)
      modifies cache
      ensures cache.Valid() && cache.pinned == old(cache.pinned)
      ensures pos.None? ==> cache.view == old(cache.view) && FullBelow(cache.view, (idx + 1) * BLOCK_BITS)
      ensures pos.Some? ==> Taken(old(cache.view), cache.view, pos.value)
    {
      hide Coherent, Bit, Taken, FullBelow, Scan, WithBit;
      var b := start + idx;
      cache.Lock(b);
      var block := cache.Read(b);
      var r := FindClear(block.words);
      Scanned(cache.view, idx, r);
      if r.Some? {
        var (w, i) := r.value;
        cache.Modify(b, Bitmap(WithBit(block.words, w, i, true)));
        pos := Some(idx * BLOCK_BITS + w * 64 + i);
      } else {
        pos := None;
      }
      cache.Release(b);
      assert old(cache.pinned) + multiset{b} - multiset{b} == old(cache.pinned);
    }

    lemma Scanned(d: Volume, idx: nat, r: Option<(nat, nat)>)
      requires idx < blocks && start + idx in d && d[start + idx].Bitmap? && FullBelow(d, idx * BLOCK_BITS)
      requires Scan(d[start + idx].words, r)
      ensures r.None? ==> FullBelow(d, (idx + 1) * BLOCK_BITS)
      ensures r.Some? ==> r.value.0 < 64 && r.value.1 < 64
      ensures r.Some? ==>
                var (w, i) := r.value;
                var words := d[start + idx].words;
                Taken(d, d[start + idx := Bitmap(WithBit(words, w, i, true))], idx * BLOCK_BITS + w * 64 + i)
    {
      hide Bit;
      BlockScan(d, start, idx, r);
    }

    /** Clear a bit.  The source asserts that it is set. */
    method Dealloc(cache: BlockCacheManager<Block>, bit: nat)
      requires cache.Valid() && |cache.pinned| <= 2 && Ready(cache.view, cache.pinned, start, blocks)
      requires bit < Maximum() && Bit(cache.view, start, bit)
      modifies cache
      ensures cache.Valid() && cache.pinned == old(cache.pinned)
      ensures cache.view == SetBit(old(cache.view), start, bit, false)
    {
      hide Coherent, Bit, SetBit, Decompose, WithBit, Ready;
      var (b, w, i) := Decompose(bit);
      ClearAt(cache.view, cache.pinned, bit);
      cache.Lock(start + b);
      var block := cache.Read(start + b);
      assert block.words[w][i];
      cache.Modify(start + b, Bitmap(WithBit(block.words, w, i, false)));
      cache.Release(start + b);
      assert old(cache.pinned) + multiset{start + b} - multiset{start + b} == old(cache.pinned);
    }

    /** Where a set bit is, and what clearing it does. */
    lemma ClearAt(d: Volume, pinned: multiset<nat>, bit: nat)
      requires Ready(d, pinned, start, blocks) && bit < Maximum() && Bit(d, start, bit)
      ensures var (b, w, i) := Decompose(bit);
              && start + b in d && d[start + b].Bitmap? && start + b !in pinned && w < 64 && i < 64
              && d[start + b].words[w][i]
              && d[start + b := Bitmap(WithBit(d[start + b].words, w, i, false))] == SetBit(d, start, bit, false)
    {
      hide WithBit;
      DecomposeInverse(bit);
      assert bit / BLOCK_BITS < blocks;
    }
  }

  /** What the scan of one block says about the bits of the bitmap. */
  lemma BlockScan(d: Volume, start: nat, idx: nat, r: Option<(nat, nat)>)
    requires start + idx in d && d[start + idx].Bitmap?
    requires forall q: nat :: q < idx * BLOCK_BITS ==> Bit(d, start, q)
    requires Scan(d[start + idx].words, r)
    ensures r.None? ==> forall q: nat :: q < (idx + 1) * BLOCK_BITS ==> Bit(d, start, q)
    ensures r.Some? ==>
              var p := idx * BLOCK_BITS + r.value.0 * 64 + r.value.1;
              && Decompose(p) == (idx, r.value.0, r.value.1)
              && p % BLOCK_BITS / 64 == r.value.0 && p % 64 == r.value.1
              && !Bit(d, start, p) && (forall q: nat :: q < p ==> Bit(d, start, q))
  {
    hide Bit, Decompose;
    forall q: nat | idx * BLOCK_BITS <= q < (idx + 1) * BLOCK_BITS
      ensures var o := q - idx * BLOCK_BITS; o / 64 < 64 && Bit(d, start, q) == d[start + idx].words[o / 64][o % 64]
    {
      var o := q - idx * BLOCK_BITS;
      BitInBlock(d, start, idx, o / 64, o % 64);
    }
    if r.Some? { BitInBlock(d, start, idx, r.value.0, r.value.1); }
  }

  lemma BitInBlock(d: Volume, start: nat, idx: nat, w: nat, i: nat)
    requires start + idx in d && d[start + idx].Bitmap? && w < 64 && i < 64
    ensures var p := idx * BLOCK_BITS + w * 64 + i;
            && Decompose(p) == (idx, w, i) && p % BLOCK_BITS / 64 == w && p % 64 == i
            && Bit(d, start, p) == d[start + idx].words[w][i]
  {
    Compose(idx, w, i);
  }

  lemma Compose(idx: nat, w: nat, i: nat)
    requires w < 64 && i < 64
    ensures var p := idx * BLOCK_BITS + w * 64 + i;
            p / BLOCK_BITS == idx && p % BLOCK_BITS / 64 == w && p % BLOCK_BITS % 64 == i && p % 64 == i
  {
    var p, r := idx * BLOCK_BITS + w * 64 + i, w * 64 + i;
    assert p == BLOCK_BITS * idx + r;
    LowBits(w, i);
    LowBits(64 * idx, r);
  }
}
