/** os/src/mm/page_table.rs: the three-level Sv39 table in physical memory, as a
    finite map from page numbers to entries. */
module PageTables {
  import opened Basics
  import opened FrameAllocator

  const VPN_BOUND := 0x800_0000
  const PPN_BOUND := 0x1000_0000_0000

  // ---- entries ----

  const PTE_V := 1
  const PTE_R := 2
  const PTE_W := 4
  const PTE_X := 8

  /** `PageTableEntry::new`: ppn << 10 | flags. */
  function Pte(ppn: nat, flags: nat): u64
    requires ppn < PPN_BOUND && flags < 0x100
  {
    ppn * 1024 + flags
  }

  function PpnOf(e: u64): nat {
    e / 1024 % PPN_BOUND
  }

  function FlagsOf(e: u64): nat {
    e % 0x100
  }

  /** Bit with weight w of a flag byte. */
  predicate Has(flags: nat, w: nat)
    requires w > 0
  {
    flags / w % 2 == 1
  }

  predicate IsValid(e: u64) {
    Has(FlagsOf(e), PTE_V)
  }

  /** `flags | PTEFlags::V`. */
  function WithV(flags: nat): nat {
    if Has(flags, PTE_V) then flags else flags + 1
  }

  /** The weights of the eight bits. */
  predicate IsBit(w: nat) {
    w == 1 || w == 2 || w == 4 || w == 8 || w == 16 || w == 32 || w == 64 || w == 128
  }

  /** f has exactly the bits of `given`, and V. */
  ghost predicate SameBits(given: nat, f: nat) {
    f < 0x100 && forall w: nat :: IsBit(w) ==> (Has(f, w) <==> w == PTE_V || Has(given, w))
  }

  lemma WithVBits(flags: nat)
    requires flags < 0x100
    ensures SameBits(flags, WithV(flags))
  {
    forall w: nat | IsBit(w) ensures Has(WithV(flags), w) <==> w == PTE_V || Has(flags, w) { OneBit(flags, w); }
  }

  lemma OneBit(flags: nat, w: nat)
    requires flags < 0x100 && IsBit(w)
    ensures Has(WithV(flags), w) <==> w == PTE_V || Has(flags, w)
  {
    hide IsBit;
    if flags % 2 == 0 && w != 1 {
      OddNext(flags / 2, w);
      assert flags == 2 * (flags / 2);
    }
  }

  /** Above the lowest bit an even number and the next are alike. */
  lemma OddNext(h: nat, w: nat)
    requires IsBit(w) && w != 1
    ensures (2 * h + 1) / w == 2 * h / w
  {
    assert w == 2 * (w / 2);
    Twice(h, w / 2);
  }

  lemma Twice(h: nat, m: nat)
    requires m > 0
    ensures 2 * h / (2 * m) == h / m && (2 * h + 1) / (2 * m) == h / m
  {
    var q, r := h / m, h % m;
    assert h == m * q + r;
    assert 2 * h == 2 * m * q + 2 * r;
    Quotient(2 * h, 2 * m, q, 2 * r);
    Quotient(2 * h + 1, 2 * m, q, 2 * r + 1);
  }

  lemma Quotient(x: nat, w: nat, q: nat, r: nat)
    requires x == w * q + r && r < w
    ensures x / w == q
  {
    var p := x / w;
    assert x == w * p + x % w;
    assert p < q ==> w * (p + 1) <= w * q;
    assert q < p ==> w * (q + 1) <= w * p;
  }

  lemma PteFields(ppn: nat, flags: nat)
    requires ppn < PPN_BOUND && flags < 0x100
    ensures PpnOf(Pte(ppn, flags)) == ppn && FlagsOf(Pte(ppn, flags)) == flags
    ensures IsValid(Pte(ppn, flags)) <==> Has(flags, PTE_V)
  {
    hide Has;
    LowByte(4 * ppn, flags);
  }

  lemma LowByte(q: nat, r: nat)
    requires r < 0x100
    ensures (0x100 * q + r) % 0x100 == r
  {
  }

  // ---- the three indexes ----

  /** `VirtPageNum::indexes`. */
  method Indexes(vpn: nat) returns (idx: seq<nat>)
    ensures |idx| == 3 && idx[0] == Index(vpn, 0) && idx[1] == Index(vpn, 1) && idx[2] == Index(vpn, 2)
  {
    idx := [0, 0, 0];
    var v, i := vpn, 3;
    while i > 0
      invariant 0 <= i <= 3 && |idx| == 3
      invariant i == 3 ==> v == vpn
      invariant i == 2 ==> v == vpn / 512
      invariant i == 1 ==> v == vpn / 0x4_0000
      invariant i == 0 ==> v == vpn / 0x4_0000 / 512
      invariant i <= 2 ==> idx[2] == vpn % 512
      invariant i <= 1 ==> idx[1] == vpn / 512 % 512
      invariant i <= 0 ==> idx[0] == vpn / 0x4_0000 % 512
    {
      i := i - 1;
      idx := idx[i := v % 512];
      v := v / 512;
    }
  }

  function Index(vpn: nat, level: nat): (i: nat)
    ensures i < 512
  {
    if level == 0 then vpn / 0x4_0000 % 512 else if level == 1 then vpn / 512 % 512 else vpn % 512
  }

  /** Different page numbers take different ways through the table. */
  lemma IndexesInjective(v: nat, w: nat)
    requires v < VPN_BOUND && w < VPN_BOUND
    requires Index(v, 0) == Index(w, 0) && Index(v, 1) == Index(w, 1) && Index(v, 2) == Index(w, 2)
    ensures v == w
  {
    IndexesSum(v);
    IndexesSum(w);
  }

  lemma IndexesSum(v: nat)
    requires v < VPN_BOUND
    ensures v == Index(v, 0) * 0x4_0000 + Index(v, 1) * 512 + Index(v, 2)
  {
    assert v / 0x4_0000 == v / 512 / 512;
  }

  // ---- the tree ----

  /** Where a table frame hangs: at the top, below entry i of the top, or below entry j of that. */
  datatype Position = Root | Mid(i: nat) | Leaf(i: nat, j: nat)

  function EntryAt(m: Memory, p: nat, i: nat): u64
    requires i < 512
  {
    FrameOf(m, p)[i]
  }

  /** Table frame below entry i of frame p. */
  function Below1(m: Memory, p: nat, i: nat): nat
    requires i < 512
  {
    PpnOf(EntryAt(m, p, i))
  }

  /** Every table frame hangs in one place only, and inner entries are plain pointers. */
  ghost predicate TreeOk(m: Memory, root: nat, pos: map<nat, Position>) {
    && root in pos && pos[root] == Root
    && (forall i: nat :: i < 512 && IsValid(EntryAt(m, root, i)) ==> MidOk(m, root, pos, i))
    && EntriesOk(m, pos)
  }

  /** Bits 54 to 63 of an entry are reserved. */
  const PTE_BOUND := 0x40_0000_0000_0000

  /** No valid entry of a table frame has a reserved bit set. */
  ghost predicate EntriesOk(m: Memory, pos: map<nat, Position>) {
    forall p: nat, k: nat :: p in pos && k < 512 && IsValid(EntryAt(m, p, k)) ==> EntryAt(m, p, k) < PTE_BOUND
  }

  /** Storing an entry without reserved bits, perhaps after adding a zeroed frame to the table, keeps it so. */
  lemma EntriesStored(m: Memory, pos: map<nat, Position>, pos': map<nat, Position>, f: nat, p: nat, i: nat, e: u64)
    requires EntriesOk(m, pos) && i < 512 && (IsValid(e) ==> e < PTE_BOUND)
    requires forall q: nat :: q in pos' ==> q in pos || (q == f && FrameOf(m, f) == ZeroFrame())
    ensures EntriesOk(SetEntry(m, p, i, e), pos')
  {
    hide IsValid, ZeroFrame;
    var m' := SetEntry(m, p, i, e);
    forall q: nat, k: nat | q in pos' && k < 512 && IsValid(EntryAt(m', q, k)) ensures EntryAt(m', q, k) < PTE_BOUND {
      assert EntryAt(m', q, k) == if q == p && k == i then e else EntryAt(m, q, k);
      if q !in pos { ZeroInvalid(k); }
    }
  }

  lemma PteBound(ppn: nat, flags: nat)
    requires ppn < PPN_BOUND && flags < 0x100
    ensures Pte(ppn, flags) < PTE_BOUND
  {
  }

  ghost predicate MidOk(m: Memory, root: nat, pos: map<nat, Position>, i: nat)
    requires i < 512
  {
    var p := Below1(m, root, i);
    && FlagsOf(EntryAt(m, root, i)) == PTE_V
    && p in pos && pos[p] == Mid(i)
    && forall j: nat :: j < 512 && IsValid(EntryAt(m, p, j)) ==>
         FlagsOf(EntryAt(m, p, j)) == PTE_V && Below1(m, p, j) in pos && pos[Below1(m, p, j)] == Leaf(i, j)
  }

  /** The frame holding the entry of page vpn, if the way there exists: `find_pte`. */
  function LeafFrame(m: Memory, root: nat, vpn: nat): Option<nat> {
    if !IsValid(EntryAt(m, root, Index(vpn, 0))) then None
    else
      var p := Below1(m, root, Index(vpn, 0));
      if !IsValid(EntryAt(m, p, Index(vpn, 1))) then None else Some(Below1(m, p, Index(vpn, 1)))
  }

  /** What page vpn is mapped to, if it is. */
  function Mapping(m: Memory, root: nat, vpn: nat): Option<(nat, nat)> {
    match LeafFrame(m, root, vpn)
    case None => None
    case Some(p) =>
      var e := EntryAt(m, p, Index(vpn, 2));
      if IsValid(e) then Some((PpnOf(e), FlagsOf(e))) else None
  }

  lemma LeafPosition(m: Memory, root: nat, pos: map<nat, Position>, vpn: nat)
    requires TreeOk(m, root, pos) && LeafFrame(m, root, vpn).Some?
    ensures var p := LeafFrame(m, root, vpn).value; p in pos && pos[p] == Leaf(Index(vpn, 0), Index(vpn, 1))
  {
    hide FrameOf, IsValid, PpnOf, FlagsOf, Index;
    assert MidOk(m, root, pos, Index(vpn, 0));
  }

  /** A table depends on memory only through its own frames. */
  lemma TableFrame(m: Memory, m': Memory, root: nat, pos: map<nat, Position>)
    requires TreeOk(m, root, pos) && forall p :: p in pos ==> FrameOf(m', p) == FrameOf(m, p)
    ensures TreeOk(m', root, pos)
    ensures forall vpn: nat ::
              Mapping(m', root, vpn) == Mapping(m, root, vpn) && LeafFrame(m', root, vpn) == LeafFrame(m, root, vpn)
  {
    hide FrameOf, IsValid, PpnOf, FlagsOf, Index;
    forall i: nat | i < 512 && IsValid(EntryAt(m', root, i)) ensures MidOk(m', root, pos, i) {
      assert EntryAt(m', root, i) == EntryAt(m, root, i);
      assert MidOk(m, root, pos, i);
      SameMid(m, m', root, pos, pos, i);
    }
    forall p: nat, k: nat | p in pos && k < 512 && IsValid(EntryAt(m', p, k)) ensures EntryAt(m', p, k) < PTE_BOUND {
      assert EntryAt(m', p, k) == EntryAt(m, p, k);
    }
    forall vpn: nat
      ensures Mapping(m', root, vpn) == Mapping(m, root, vpn) && LeafFrame(m', root, vpn) == LeafFrame(m, root, vpn)
    {
      if IsValid(EntryAt(m, root, Index(vpn, 0))) { assert MidOk(m, root, pos, Index(vpn, 0)); }
      if LeafFrame(m, root, vpn).Some? { LeafPosition(m, root, pos, vpn); }
    }
  }

  function SetEntry(m: Memory, p: nat, i: nat, e: u64): Memory
    requires i < 512
  {
    m[p := FrameOf(m, p)[i := e]]
  }

  lemma ZeroInvalid(i: nat)
    requires i < 512
    ensures !IsValid(ZeroFrame()[i])
  {
  }

  lemma EmptyInvalid()
    ensures !IsValid(0)
  {
  }

  /** Hanging a zeroed frame f below entry i of the top changes no mapping. */
  lemma HangMid(m: Memory, root: nat, pos: map<nat, Position>, i: nat, f: nat)
    requires TreeOk(m, root, pos) && i < 512 && !IsValid(EntryAt(m, root, i))
    requires f !in pos && f < PPN_BOUND && FrameOf(m, f) == ZeroFrame()
    ensures var m' := SetEntry(m, root, i, Pte(f, PTE_V));
            && TreeOk(m', root, pos[f := Mid(i)])
            && (forall vpn: nat :: Mapping(m', root, vpn) == Mapping(m, root, vpn))
            && IsValid(EntryAt(m', root, i)) && Below1(m', root, i) == f
            && (forall p: nat :: p != root ==> FrameOf(m', p) == FrameOf(m, p))
  {
    hide IsValid, PpnOf, FlagsOf, Index, Pte, ZeroFrame, EntriesOk;
    var e := Pte(f, PTE_V);
    var m', pos' := SetEntry(m, root, i, e), pos[f := Mid(i)];
    PteFields(f, PTE_V);
    PteBound(f, PTE_V);
    EntriesStored(m, pos, pos', f, root, i, e);
    assert IsValid(e) by { OneIsV(); }
    assert forall j: nat :: j < 512 ==> EntryAt(m', root, j) == if j == i then e else EntryAt(m, root, j);
    assert forall p: nat :: p != root ==> FrameOf(m', p) == FrameOf(m, p);
    forall j: nat | j < 512 && IsValid(EntryAt(m', root, j)) ensures MidOk(m', root, pos', j) {
      if j == i {
        forall k: nat | k < 512 ensures !IsValid(EntryAt(m', f, k)) { ZeroInvalid(k); }
      } else {
        assert MidOk(m, root, pos, j);
        SameMid(m, m', root, pos, pos', j);
      }
    }
    forall vpn: nat ensures Mapping(m', root, vpn) == Mapping(m, root, vpn) {
      HangMidMapping(m, m', root, pos, i, f, vpn);
    }
  }

  lemma OneIsV()
    ensures Has(PTE_V, PTE_V)
  {
  }

  lemma SameMid(m: Memory, m': Memory, root: nat, pos: map<nat, Position>, pos': map<nat, Position>, j: nat)
    requires j < 512 && MidOk(m, root, pos, j) && EntryAt(m', root, j) == EntryAt(m, root, j)
    requires FrameOf(m', Below1(m, root, j)) == FrameOf(m, Below1(m, root, j))
    requires forall p :: p in pos ==> p in pos' && pos'[p] == pos[p]
    ensures MidOk(m', root, pos', j)
  {
    hide IsValid, PpnOf, FlagsOf, FrameOf;
    var p := Below1(m, root, j);
    assert forall k: nat :: k < 512 ==> EntryAt(m', p, k) == EntryAt(m, p, k);
  }

  lemma HangMidMapping(m: Memory, m': Memory, root: nat, pos: map<nat, Position>, i: nat, f: nat, vpn: nat)
    requires TreeOk(m, root, pos) && i < 512 && f != root && FrameOf(m', f) == ZeroFrame()
    requires !IsValid(EntryAt(m, root, i)) && Below1(m', root, i) == f
    requires forall j: nat :: j < 512 && j != i ==> EntryAt(m', root, j) == EntryAt(m, root, j)
    requires forall p: nat :: p != root ==> FrameOf(m', p) == FrameOf(m, p)
    ensures Mapping(m', root, vpn) == Mapping(m, root, vpn)
  {
    hide IsValid, PpnOf, FlagsOf, Index, FrameOf, ZeroFrame;
    if Index(vpn, 0) == i {
      ZeroInvalid(Index(vpn, 1));
      assert !IsValid(EntryAt(m', f, Index(vpn, 1)));
    } else if IsValid(EntryAt(m, root, Index(vpn, 0))) {
      assert MidOk(m, root, pos, Index(vpn, 0));
      if LeafFrame(m, root, vpn).Some? { LeafPosition(m, root, pos, vpn); }
    }
  }

  /** Hanging a zeroed frame f below entry j of a middle frame changes no mapping. */
  lemma HangLeaf(m: Memory, root: nat, pos: map<nat, Position>, i: nat, j: nat, f: nat)
    requires TreeOk(m, root, pos) && i < 512 && j < 512 && IsValid(EntryAt(m, root, i))
    requires !IsValid(EntryAt(m, Below1(m, root, i), j))
    requires f !in pos && f < PPN_BOUND && FrameOf(m, f) == ZeroFrame()
    ensures var p := Below1(m, root, i);
            var m' := SetEntry(m, p, j, Pte(f, PTE_V));
            && p in pos && p != root
            && TreeOk(m', root, pos[f := Leaf(i, j)])
            && (forall vpn: nat :: Mapping(m', root, vpn) == Mapping(m, root, vpn))
            && EntryAt(m', root, i) == EntryAt(m, root, i) && IsValid(EntryAt(m', p, j)) && Below1(m', p, j) == f
            && (forall q: nat :: q != p ==> FrameOf(m', q) == FrameOf(m, q))
  {
    hide IsValid, PpnOf, FlagsOf, Index, Pte, ZeroFrame, EntriesOk;
    assert MidOk(m, root, pos, i);
    var p, e := Below1(m, root, i), Pte(f, PTE_V);
    var m', pos' := SetEntry(m, p, j, e), pos[f := Leaf(i, j)];
    PteFields(f, PTE_V);
    PteBound(f, PTE_V);
    EntriesStored(m, pos, pos', f, p, j, e);
    assert IsValid(e) by { OneIsV(); }
    assert forall k: nat :: k < 512 ==> EntryAt(m', p, k) == if k == j then e else EntryAt(m, p, k);
    assert forall q: nat :: q != p ==> FrameOf(m', q) == FrameOf(m, q);
    forall k: nat | k < 512 && IsValid(EntryAt(m', root, k)) ensures MidOk(m', root, pos', k) {
      assert MidOk(m, root, pos, k);
      if k != i { SameMid(m, m', root, pos, pos', k); }
    }
    forall vpn: nat ensures Mapping(m', root, vpn) == Mapping(m, root, vpn) {
      HangLeafMapping(m, m', root, pos, i, j, f, vpn);
    }
  }

  lemma HangLeafMapping(m: Memory, m': Memory, root: nat, pos: map<nat, Position>, i: nat, j: nat, f: nat, vpn: nat)
    requires TreeOk(m, root, pos) && i < 512 && j < 512 && IsValid(EntryAt(m, root, i))
    requires var p := Below1(m, root, i);
             && !IsValid(EntryAt(m, p, j)) && Below1(m', p, j) == f
             && (forall k: nat :: k < 512 && k != j ==> EntryAt(m', p, k) == EntryAt(m, p, k))
             && (forall q: nat :: q != p ==> FrameOf(m', q) == FrameOf(m, q))
             && p != root && f != p
    requires FrameOf(m', f) == ZeroFrame()
    ensures Mapping(m', root, vpn) == Mapping(m, root, vpn)
  {
    hide IsValid, PpnOf, FlagsOf, Index, FrameOf, ZeroFrame;
    var p := Below1(m, root, i);
    assert MidOk(m, root, pos, i);
    if Index(vpn, 0) == i && Index(vpn, 1) == j {
      ZeroInvalid(Index(vpn, 2));
      assert !IsValid(EntryAt(m', f, Index(vpn, 2)));
    } else if IsValid(EntryAt(m, root, Index(vpn, 0))) {
      assert MidOk(m, root, pos, Index(vpn, 0));
      if LeafFrame(m, root, vpn).Some? { LeafPosition(m, root, pos, vpn); }
    }
  }

  /** Writing the entry of page vpn changes the mapping of that page and no other. */
  lemma WriteLeaf(m: Memory, root: nat, pos: map<nat, Position>, vpn: nat, e: u64)
    requires TreeOk(m, root, pos) && LeafFrame(m, root, vpn).Some? && vpn < VPN_BOUND
    requires IsValid(e) ==> e < PTE_BOUND
    ensures var p := LeafFrame(m, root, vpn).value;
            var m' := SetEntry(m, p, Index(vpn, 2), e);
            && p in pos && TreeOk(m', root, pos)
            && (forall q: nat :: q != p ==> FrameOf(m', q) == FrameOf(m, q))
            && Mapping(m', root, vpn) == (if IsValid(e) then Some((PpnOf(e), FlagsOf(e))) else None)
            && forall w: nat :: w < VPN_BOUND && w != vpn ==> Mapping(m', root, w) == Mapping(m, root, w)
  {
    hide IsValid, PpnOf, FlagsOf, Index, EntriesOk;
    LeafPosition(m, root, pos, vpn);
    var p := LeafFrame(m, root, vpn).value;
    var m' := SetEntry(m, p, Index(vpn, 2), e);
    EntriesStored(m, pos, pos, p, p, Index(vpn, 2), e);
    assert forall k: nat :: k < 512 ==> EntryAt(m', p, k) == if k == Index(vpn, 2) then e else EntryAt(m, p, k);
    assert forall q: nat :: q != p ==> FrameOf(m', q) == FrameOf(m, q);
    assert p != root;
    forall k: nat | k < 512 && IsValid(EntryAt(m', root, k))
      ensures MidOk(m', root, pos, k) && Below1(m, root, k) != p
    {
      assert MidOk(m, root, pos, k);
      SameMid(m, m', root, pos, pos, k);
    }
    forall w: nat | w < VPN_BOUND
      ensures LeafFrame(m', root, w) == LeafFrame(m, root, w)
      ensures w != vpn ==> Mapping(m', root, w) == Mapping(m, root, w)
    {
      if IsValid(EntryAt(m, root, Index(w, 0))) { assert MidOk(m, root, pos, Index(w, 0)); }
      if LeafFrame(m, root, w).Some? && w != vpn { OtherLeaf(m, root, pos, vpn, w); }
    }
  }

  /** Another page is in another frame or at another index of the same. */
  lemma OtherLeaf(m: Memory, root: nat, pos: map<nat, Position>, v: nat, w: nat)
    requires TreeOk(m, root, pos) && v < VPN_BOUND && w < VPN_BOUND && v != w
    requires LeafFrame(m, root, v).Some? && LeafFrame(m, root, w).Some?
    ensures LeafFrame(m, root, v) != LeafFrame(m, root, w) || Index(v, 2) != Index(w, 2)
  {
    hide IsValid, PpnOf, FlagsOf, Index, EntryAt;
    LeafPosition(m, root, pos, v);
    LeafPosition(m, root, pos, w);
    if Index(v, 0) == Index(w, 0) && Index(v, 1) == Index(w, 1) && Index(v, 2) == Index(w, 2) {
      IndexesInjective(v, w);
    }
  }

  // ---- the page table object ----

  /** The table maps what `entries` says and nothing else. */
  ghost predicate Refines(m: Memory, root: nat, entries: map<nat, (nat, nat)>) {
    && (forall v :: v in entries ==> v < VPN_BOUND)
    && (forall v: nat :: v < VPN_BOUND ==> Mapping(m, root, v) == if v in entries then Some(entries[v]) else None)
  }

  /** The walk for page vpn has reached frame p after i levels. */
  ghost predicate Reached(m: Memory, root: nat, vpn: nat, i: nat, p: nat) {
    if i == 0 then p == root
    else if i == 1 then IsValid(EntryAt(m, root, Index(vpn, 0))) && p == Below1(m, root, Index(vpn, 0))
    else LeafFrame(m, root, vpn) == Some(p)
  }

  datatype MapResult = Done | OutOfFrames | AlreadyMapped

  class PageTable {
    const rootPpn: nat
    var frames: seq<nat>
    ghost var pos: map<nat, Position>
    ghost var entries: map<nat, (nat, nat)>

    constructor (root: nat)
      ensures rootPpn == root && frames == [root] && pos == map[root := Root] && entries == map[]
    {
      rootPpn, frames, pos, entries := root, [root], map[root := Root], map[];
    }

    ghost predicate Valid(m: Memory, inUse: set<nat>)
      reads this
    {
      && NoDup(frames)
      && (forall p: nat :: p in frames <==> p in pos)
      && (forall p :: p in frames ==> p in inUse)
      && TreeOk(m, rootPpn, pos)
      && Refines(m, rootPpn, entries)
    }

    /** `PageTable::new`, on a zeroed frame. */
    static method New(mem: PhysMemory, alloc: StackFrameAllocator) returns (pt: PageTable?)
      requires alloc.Valid()
      modifies mem, alloc`current, alloc`recycled
      ensures alloc.Valid()
      ensures pt == null ==>
                  alloc.InUse() == old(alloc.InUse()) && forall p: nat :: alloc.Managed(p) ==> p in alloc.InUse()
      ensures pt != null ==>
                && fresh(pt) && pt.Valid(mem.frames, alloc.InUse()) && pt.entries == map[]
                && pt.frames == [pt.rootPpn] && pt.rootPpn !in old(alloc.InUse())
                && alloc.InUse() == old(alloc.InUse()) + {pt.rootPpn}
                && mem.frames == old(mem.frames)[pt.rootPpn := ZeroFrame()]
    {
      var f := mem.FrameAlloc(alloc);
      if f.None? { return null; }
      pt := new PageTable(f.value);
      EmptyTable(mem.frames, f.value);
    }

    /** One level of `find_pte_create`: follow entry `idx` of frame ppn, hanging a
        fresh zeroed frame there if it is empty. */
    method Descend(i: nat, ppn: nat, idx: nat, mem: PhysMemory, alloc: StackFrameAllocator, ghost vpn: nat)
      returns (r: Option<nat>)
      requires alloc.Valid() && alloc.end <= PPN_BOUND && Valid(mem.frames, alloc.InUse())
      requires i < 2 && idx == Index(vpn, i) && Reached(mem.frames, rootPpn, vpn, i, ppn)
      modifies `frames, `pos, mem, alloc`current, alloc`recycled
      ensures alloc.Valid() && Valid(mem.frames, alloc.InUse())
      ensures r.Some? ==> Reached(mem.frames, rootPpn, vpn, i + 1, r.value)
      ensures r.None? ==> forall p: nat :: alloc.Managed(p) ==> p in alloc.InUse()
      ensures Grew(old(mem.frames), mem.frames, old(frames), frames, old(alloc.InUse()), alloc.InUse())
      ensures IsValid(EntryAt(old(mem.frames), ppn, idx)) ==>
                  r.Some? && mem.frames == old(mem.frames) && frames == old(frames)
    {
      hide Refines, TreeOk, Mapping, LeafFrame, IsValid, PpnOf, Index, FrameOf, ZeroFrame, NoDup, Grew, Taken, Reached,
           Valid;
      var e := FrameOf(mem.frames, ppn)[idx];
      if IsValid(e) {
        Followed(mem.frames, rootPpn, vpn, i, ppn);
        GrewNone(mem.frames, frames, alloc.InUse());
        return Some(PpnOf(e));
      }
      ghost var m, u := mem.frames, alloc.InUse();
      var f := mem.FrameAlloc(alloc);
      if f.None? {
        GrewNone(mem.frames, frames, alloc.InUse());
        return None;
      }
      HangFrame(i, ppn, idx, f.value, mem, vpn, m, u);
      r := Some(f.value);
    }

    /** Hang the fresh zeroed frame f below entry `idx` of frame ppn. */
    method HangFrame(i: nat, ppn: nat, idx: nat, f: nat, mem: PhysMemory, ghost vpn: nat, ghost m: Memory,
                     ghost u: set<nat>)
      requires Valid(m, u) && f !in u && f < PPN_BOUND && mem.frames == m[f := ZeroFrame()]
      requires i < 2 && idx == Index(vpn, i) && Reached(m, rootPpn, vpn, i, ppn) && !IsValid(EntryAt(m, ppn, idx))
      modifies `frames, `pos, mem
      ensures Valid(mem.frames, u + {f}) && Reached(mem.frames, rootPpn, vpn, i + 1, f)
      ensures Grew(m, mem.frames, old(frames), frames, u, u + {f})
    {
      hide Refines, TreeOk, Mapping, LeafFrame, IsValid, PpnOf, Index, FrameOf, ZeroFrame, NoDup, Grew, Reached,
           EntryAt, Pte, SetEntry;
      ghost var where := if i == 0 then Mid(Index(vpn, 0)) else Leaf(Index(vpn, 0), Index(vpn, 1));
      Hang(m, mem.frames, rootPpn, pos, entries, vpn, i, ppn, f);
      mem.frames := SetEntry(mem.frames, ppn, idx, Pte(f, PTE_V));
      frames := frames + [f];
      pos := pos[f := where];
      NoDupSnoc(old(frames), f);
      GrewOne(m, mem.frames, old(frames), f, ppn, u);
    }

    /** `find_pte_create`: the frame that holds the entry of page vpn, building the way there. */
    method FindPteCreate(vpn: nat, mem: PhysMemory, alloc: StackFrameAllocator) returns (r: Option<nat>)
      requires alloc.Valid() && alloc.end <= PPN_BOUND && Valid(mem.frames, alloc.InUse())
      modifies `frames, `pos, mem, alloc`current, alloc`recycled
      ensures alloc.Valid() && Valid(mem.frames, alloc.InUse())
      ensures r.Some? ==> LeafFrame(mem.frames, rootPpn, vpn) == r
      ensures r.None? ==> forall p: nat :: alloc.Managed(p) ==> p in alloc.InUse()
      ensures Grew(old(mem.frames), mem.frames, old(frames), frames, old(alloc.InUse()), alloc.InUse())
      ensures LeafFrame(old(mem.frames), rootPpn, vpn).Some? ==>
                  r.Some? && mem.frames == old(mem.frames) && frames == old(frames)
    {
      hide Refines, TreeOk, Mapping, IsValid, PpnOf, Index, FrameOf, ZeroFrame, NoDup, Grew;
      var idx := Indexes(vpn);
      var ppn, i := rootPpn, 0;
      GrewNone(mem.frames, frames, alloc.InUse());
      while i < 2
        invariant i <= 2 && alloc.Valid() && Valid(mem.frames, alloc.InUse())
        invariant Reached(mem.frames, rootPpn, vpn, i, ppn)
        invariant Grew(old(mem.frames), mem.frames, old(frames), frames, old(alloc.InUse()), alloc.InUse())
        invariant LeafFrame(old(mem.frames), rootPpn, vpn).Some? ==>
                      mem.frames == old(mem.frames) && frames == old(frames)
      {
        ghost var m, fs, inUse := mem.frames, frames, alloc.InUse();
        if LeafFrame(old(mem.frames), rootPpn, vpn).Some? { OnTheWay(m, rootPpn, vpn, i, ppn); }
        var next := Descend(i, ppn, idx[i], mem, alloc, vpn);
        GrewMore(old(mem.frames), m, mem.frames, old(frames), fs, frames, old(alloc.InUse()), inUse, alloc.InUse());
        if next.None? { return None; }
        ppn, i := next.value, i + 1;
      }
      r := Some(ppn);
    }

    /** `find_pte`: the same without building; the entry found may be invalid. */
    method FindPte(vpn: nat, mem: PhysMemory) returns (r: Option<nat>)
      ensures r == LeafFrame(mem.frames, rootPpn, vpn)
    {
      var idx := Indexes(vpn);
      var ppn, i := rootPpn, 0;
      while i < 2
        invariant i <= 2
        invariant Reached(mem.frames, rootPpn, vpn, i, ppn)
      {
        var e := FrameOf(mem.frames, ppn)[idx[i]];
        if !IsValid(e) { return None; }
        ppn, i := PpnOf(e), i + 1;
      }
      r := Some(ppn);
    }

    /** `translate`: the entry of page vpn, valid or not, if the way to it exists.  It is valid exactly for the pages
        the table maps, and then says what they are mapped to. */
    method Translate(vpn: nat, mem: PhysMemory, ghost inUse: set<nat>) returns (r: Option<u64>)
      requires Valid(mem.frames, inUse) && vpn < VPN_BOUND
      ensures r.Some? <==> LeafFrame(mem.frames, rootPpn, vpn).Some?
      ensures r.Some? && IsValid(r.value) <==> vpn in entries
      ensures vpn in entries ==> entries[vpn] == (PpnOf(r.value), FlagsOf(r.value))
    {
      hide TreeOk, PpnOf, FlagsOf, Index, FrameOf, NoDup, LeafFrame, IsValid;
      InEntries(mem.frames, rootPpn, entries, vpn);
      var p := FindPte(vpn, mem);
      if p.None? { return None; }
      var idx := Indexes(vpn);
      r := Some(FrameOf(mem.frames, p.value)[idx[2]]);
    }

    /** `map`: one more page.  The source asserts that it was not mapped. */
    method Map(vpn: nat, ppn: nat, flags: nat, mem: PhysMemory, alloc: StackFrameAllocator) returns (r: MapResult)
      requires alloc.Valid() && alloc.end <= PPN_BOUND && Valid(mem.frames, alloc.InUse())
      requires vpn < VPN_BOUND && ppn < PPN_BOUND && flags < 0x100
      modifies `frames, `pos, `entries, mem, alloc`current, alloc`recycled
      ensures alloc.Valid() && Valid(mem.frames, alloc.InUse())
      ensures r.AlreadyMapped? <==> vpn in old(entries)
      ensures r.OutOfFrames? ==> forall p: nat :: alloc.Managed(p) ==> p in alloc.InUse()
      ensures entries == if r.Done? then old(entries)[vpn := (ppn, WithV(flags))] else old(entries)
      ensures r.Done? ==> vpn in entries && entries[vpn].0 == ppn && SameBits(flags, entries[vpn].1)
      ensures r.Done? && LeafFlags(flags) ==>
                var w := HardwareWalk(mem.frames, rootPpn, vpn, 2);
                w.Page? && w.ppn == ppn && SameBits(flags, w.flags)
      ensures Grew(old(mem.frames), mem.frames, old(frames), frames, old(alloc.InUse()), alloc.InUse())
    {
      hide TreeOk, PpnOf, Index, FrameOf, ZeroFrame, NoDup, Grew, LeafFrame, Pte, IsValid, FlagsOf, WithV, Refines,
           Mapping;
      InEntries(mem.frames, rootPpn, entries, vpn);
      var p := FindPteCreate(vpn, mem, alloc);
      if p.None? { return OutOfFrames; }
      var idx := Indexes(vpn);
      ghost var m := mem.frames;
      var e := FrameOf(mem.frames, p.value)[idx[2]];
      InEntries(m, rootPpn, entries, vpn);
      if IsValid(e) { return AlreadyMapped; }
      hide Valid;
      WriteEntry(vpn, p.value, ppn, flags, mem, alloc.InUse());
      WithVBits(flags);
      if LeafFlags(flags) { MappedWalk(this, mem.frames, alloc.InUse(), vpn, flags); }
      GrewWrite(old(mem.frames), m, mem.frames, old(frames), frames, old(alloc.InUse()), alloc.InUse(), p.value);
      r := Done;
    }

    /** Store the entry of page vpn in its leaf frame p. */
    method WriteEntry(vpn: nat, p: nat, ppn: nat, flags: nat, mem: PhysMemory, ghost inUse: set<nat>)
      requires Valid(mem.frames, inUse) && LeafFrame(mem.frames, rootPpn, vpn) == Some(p)
      requires vpn < VPN_BOUND && ppn < PPN_BOUND && flags < 0x100
      modifies `entries, mem
      ensures Valid(mem.frames, inUse) && entries == old(entries)[vpn := (ppn, WithV(flags))]
      ensures p in frames && forall q: nat :: q != p ==> FrameOf(mem.frames, q) == FrameOf(old(mem.frames), q)
    {
      hide TreeOk, PpnOf, Index, FrameOf, NoDup, LeafFrame, Pte, IsValid, FlagsOf, WithV, Refines, Mapping, SetEntry;
      var idx := Indexes(vpn);
      ghost var m := mem.frames;
      WithVValid(flags);
      PteBound(ppn, WithV(flags));
      WriteLeaf(m, rootPpn, pos, vpn, Pte(ppn, WithV(flags)));
      PteFields(ppn, WithV(flags));
      mem.frames := SetEntry(mem.frames, p, idx[2], Pte(ppn, WithV(flags)));
      RefinesSet(m, mem.frames, rootPpn, entries, vpn, (ppn, WithV(flags)));
      entries := entries[vpn := (ppn, WithV(flags))];
    }

    /** `unmap`: one page less.  `ok` is false where the source panics: the page was not mapped. */
    method Unmap(vpn: nat, mem: PhysMemory, ghost inUse: set<nat>) returns (ok: bool)
      requires Valid(mem.frames, inUse) && vpn < VPN_BOUND
      modifies `entries, mem
      ensures Valid(mem.frames, inUse)
      ensures ok <==> vpn in old(entries)
      ensures entries == old(entries) - {vpn}
      ensures forall p: nat :: p !in frames ==> FrameOf(mem.frames, p) == FrameOf(old(mem.frames), p)
    {
      hide TreeOk, PpnOf, Index, FrameOf, ZeroFrame, NoDup, LeafFrame, FlagsOf, Refines, Mapping;
      ghost var m := mem.frames;
      InEntries(m, rootPpn, entries, vpn);
      var p := FindPte(vpn, mem);
      assert vpn !in entries ==> entries - {vpn} == entries;
      if p.None? { return false; }
      var idx := Indexes(vpn);
      var e := FrameOf(mem.frames, p.value)[idx[2]];
      if !IsValid(e) { return false; }
      EmptyInvalid();
      WriteLeaf(mem.frames, rootPpn, pos, vpn, 0);
      mem.frames := SetEntry(mem.frames, p.value, idx[2], 0);
      RefinesRemove(m, mem.frames, rootPpn, entries, vpn);
      entries := entries - {vpn};
      ok := true;
    }
  }

  /** Between two states of memory only table frames differ, the table only gained frames, and those were free. */
  ghost predicate Grew(m: Memory, m': Memory, fs: seq<nat>, fs': seq<nat>, inUse: set<nat>, inUse': set<nat>) {
    && fs <= fs'
    && (forall p: nat :: p !in fs' ==> FrameOf(m', p) == FrameOf(m, p))
    && (forall p :: p in fs'[|fs|..] ==> p !in inUse)
    && inUse' == inUse + (set p | p in fs'[|fs|..])
  }

  lemma GrewNone(m: Memory, fs: seq<nat>, inUse: set<nat>)
    ensures Grew(m, m, fs, fs, inUse, inUse)
  {
    assert fs[|fs|..] == [];
  }

  lemma GrewOne(m: Memory, m': Memory, fs: seq<nat>, f: nat, p: nat, inUse: set<nat>)
    requires f !in inUse && p in fs && forall q: nat :: q != f && q != p ==> FrameOf(m', q) == FrameOf(m, q)
    ensures Grew(m, m', fs, fs + [f], inUse, inUse + {f})
  {
    hide FrameOf;
    assert (fs + [f])[|fs|..] == [f];
  }

  lemma GrewMore(m: Memory, m1: Memory, m2: Memory, fs: seq<nat>, fs1: seq<nat>, fs2: seq<nat>,
                 u: set<nat>, u1: set<nat>, u2: set<nat>)
    requires Grew(m, m1, fs, fs1, u, u1) && Grew(m1, m2, fs1, fs2, u1, u2)
    ensures Grew(m, m2, fs, fs2, u, u2)
  {
    hide FrameOf;
    assert fs2[|fs|..] == fs1[|fs|..] + fs2[|fs1|..];
    assert fs2 == fs1 + fs2[|fs1|..];
  }

  lemma GrewWrite(m: Memory, m1: Memory, m2: Memory, fs: seq<nat>, fs1: seq<nat>, u: set<nat>, u1: set<nat>, p: nat)
    requires Grew(m, m1, fs, fs1, u, u1) && p in fs1 && forall q: nat :: q != p ==> FrameOf(m2, q) == FrameOf(m1, q)
    ensures Grew(m, m2, fs, fs1, u, u1)
  {
    hide FrameOf;
  }

  lemma EmptyTable(m: Memory, f: nat)
    requires FrameOf(m, f) == ZeroFrame()
    ensures TreeOk(m, f, map[f := Root]) && Refines(m, f, map[])
  {
    hide IsValid, Index, ZeroFrame, FrameOf;
    forall i: nat | i < 512 ensures !IsValid(EntryAt(m, f, i)) { ZeroInvalid(i); }
  }

  lemma Followed(m: Memory, root: nat, vpn: nat, i: nat, p: nat)
    requires i < 2 && Reached(m, root, vpn, i, p) && IsValid(EntryAt(m, p, Index(vpn, i)))
    ensures Reached(m, root, vpn, i + 1, Below1(m, p, Index(vpn, i)))
  {
    hide IsValid, Index, FrameOf, PpnOf;
  }

  /** Where the way to vpn exists, every entry on it is valid. */
  lemma OnTheWay(m: Memory, root: nat, vpn: nat, i: nat, p: nat)
    requires i < 2 && Reached(m, root, vpn, i, p) && LeafFrame(m, root, vpn).Some?
    ensures IsValid(EntryAt(m, p, Index(vpn, i)))
  {
    hide IsValid, Index, FrameOf, PpnOf;
  }

  /** A page is mapped when the way to its entry exists and the entry is valid. */
  lemma InEntries(m: Memory, root: nat, entries: map<nat, (nat, nat)>, vpn: nat)
    requires Refines(m, root, entries) && vpn < VPN_BOUND
    ensures vpn in entries <==>
              LeafFrame(m, root, vpn).Some? && IsValid(FrameOf(m, LeafFrame(m, root, vpn).value)[Index(vpn, 2)])
  {
    hide LeafFrame, IsValid, FrameOf, Index;
    assert Mapping(m, root, vpn) == if vpn in entries then Some(entries[vpn]) else None;
  }

  lemma RefinesSet(m: Memory, m': Memory, root: nat, entries: map<nat, (nat, nat)>, vpn: nat, x: (nat, nat))
    requires Refines(m, root, entries) && vpn < VPN_BOUND && Mapping(m', root, vpn) == Some(x)
    requires forall w: nat :: w < VPN_BOUND && w != vpn ==> Mapping(m', root, w) == Mapping(m, root, w)
    ensures Refines(m', root, entries[vpn := x])
  {
    hide Mapping;
  }

  lemma RefinesRemove(m: Memory, m': Memory, root: nat, entries: map<nat, (nat, nat)>, vpn: nat)
    requires Refines(m, root, entries) && vpn < VPN_BOUND && Mapping(m', root, vpn) == None
    requires forall w: nat :: w < VPN_BOUND && w != vpn ==> Mapping(m', root, w) == Mapping(m, root, w)
    ensures Refines(m', root, entries - {vpn})
  {
    hide Mapping;
  }

  lemma WithVValid(flags: nat)
    requires flags < 0x100
    ensures WithV(flags) < 0x100 && Has(WithV(flags), PTE_V)
  {
  }

  /** Hanging a fresh frame where the walk for vpn got stuck. */
  lemma Hang(m: Memory, m1: Memory, root: nat, pos: map<nat, Position>, entries: map<nat, (nat, nat)>, vpn: nat,
             i: nat, p: nat, f: nat)
    requires TreeOk(m, root, pos) && Refines(m, root, entries) && i < 2 && Reached(m, root, vpn, i, p)
    requires !IsValid(EntryAt(m, p, Index(vpn, i))) && f !in pos && f < PPN_BOUND && m1 == m[f := ZeroFrame()]
    ensures var m' := SetEntry(m1, p, Index(vpn, i), Pte(f, PTE_V));
            var where := if i == 0 then Mid(Index(vpn, 0)) else Leaf(Index(vpn, 0), Index(vpn, 1));
            && p in pos && TreeOk(m', root, pos[f := where]) && Refines(m', root, entries)
            && Reached(m', root, vpn, i + 1, f)
            && (forall q: nat :: q != f && q != p ==> FrameOf(m', q) == FrameOf(m, q))
  {
    hide IsValid, Index, PpnOf, Mapping, TreeOk, Pte, ZeroFrame, EntryAt;
    RootIn(m, root, pos);
    assert forall q: nat :: q != f ==> FrameOf(m1, q) == FrameOf(m, q);
    TableFrame(m, m1, root, pos);
    if i == 0 {
      assert EntryAt(m1, root, Index(vpn, 0)) == EntryAt(m, root, Index(vpn, 0)) by {
        SameEntry(m, m1, root, Index(vpn, 0));
      }
      HangMid(m1, root, pos, Index(vpn, 0), f);
    } else {
      MidIn(m, root, pos, Index(vpn, 0));
      SameEntry(m, m1, root, Index(vpn, 0));
      SameEntry(m, m1, p, Index(vpn, 1));
      HangLeaf(m1, root, pos, Index(vpn, 0), Index(vpn, 1), f);
    }
  }

  lemma SameEntry(m: Memory, m': Memory, p: nat, i: nat)
    requires i < 512 && FrameOf(m', p) == FrameOf(m, p)
    ensures EntryAt(m', p, i) == EntryAt(m, p, i)
  {
    hide FrameOf;
  }

  lemma RootIn(m: Memory, root: nat, pos: map<nat, Position>)
    requires TreeOk(m, root, pos)
    ensures root in pos
  {
  }

  lemma MidIn(m: Memory, root: nat, pos: map<nat, Position>, i: nat)
    requires TreeOk(m, root, pos) && i < 512 && IsValid(EntryAt(m, root, i))
    ensures Below1(m, root, i) in pos
  {
    hide EntryAt, IsValid;
    assert MidOk(m, root, pos, i);
  }

  // ---- the hardware's view ----

  datatype Walk = Fault | Page(ppn: nat, flags: nat)

  /** The address translation of Sv39 (sections 4.3.2 and 4.4 of the RISC-V Privileged Architecture,
      20211203), for a page number of 27 bits, up to the access checks: level counts down from 2 to 0 and
      `a` is the frame of the current table. */
  function HardwareWalk(m: Memory, a: nat, vpn: nat, level: nat): Walk
    requires level <= 2
    decreases level
  {
    var e := EntryAt(m, a, Index(vpn, 2 - level));
    var flags := FlagsOf(e);
    if !Has(flags, PTE_V) || (!Has(flags, PTE_R) && Has(flags, PTE_W)) || e >= PTE_BOUND then Fault
    else if Has(flags, PTE_R) || Has(flags, PTE_X) then
      if level == 2 && PpnOf(e) % 0x4_0000 != 0 then Fault
      else if level == 1 && PpnOf(e) % 512 != 0 then Fault
      else Page(PpnOf(e), flags)
    else if level == 0 then Fault
    else HardwareWalk(m, PpnOf(e), vpn, level - 1)
  }

  /** Flags the hardware accepts for a page. */
  predicate LeafFlags(flags: nat) {
    (Has(flags, PTE_R) || Has(flags, PTE_X)) && (Has(flags, PTE_R) || !Has(flags, PTE_W))
  }

  /** A page the table maps with flags that make a leaf is found by the hardware, with those flags and V. */
  lemma MappedWalk(pt: PageTable, m: Memory, inUse: set<nat>, vpn: nat, flags: nat)
    requires pt.Valid(m, inUse) && vpn in pt.entries && flags < 0x100 && LeafFlags(flags)
    requires pt.entries[vpn].1 == WithV(flags)
    ensures HardwareWalk(m, pt.rootPpn, vpn, 2) == Page(pt.entries[vpn].0, WithV(flags))
  {
    hide TreeOk, NoDup, Mapping, HardwareWalk, Has, WithV;
    HardwareAgrees(m, pt.rootPpn, pt.pos, vpn);
    WithVBits(flags);
    assert IsBit(PTE_R) && IsBit(PTE_W) && IsBit(PTE_X);
  }

  lemma PointerFlags()
    ensures Has(PTE_V, PTE_V) && !Has(PTE_V, PTE_R) && !Has(PTE_V, PTE_W) && !Has(PTE_V, PTE_X)
  {
  }

  /** The hardware finds exactly what the table maps with acceptable flags, and faults everywhere else. */
  lemma HardwareAgrees(m: Memory, root: nat, pos: map<nat, Position>, vpn: nat)
    requires TreeOk(m, root, pos)
    ensures HardwareWalk(m, root, vpn, 2)
         == match Mapping(m, root, vpn)
            case None => Fault
            case Some((ppn, flags)) => if LeafFlags(flags) then Page(ppn, flags) else Fault
  {
    hide PpnOf, Index, EntryAt, Has, FlagsOf;
    PointerFlags();
    var e := EntryAt(m, root, Index(vpn, 0));
    if IsValid(e) {
      assert MidOk(m, root, pos, Index(vpn, 0));
      var p := PpnOf(e);
      var e1 := EntryAt(m, p, Index(vpn, 1));
      if IsValid(e1) {
        LeafPosition(m, root, pos, vpn);
        assert HardwareWalk(m, p, vpn, 1) == HardwareWalk(m, PpnOf(e1), vpn, 0);
      }
    }
  }
}
