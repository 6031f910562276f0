/** What one step of `increase_size` does to the block tree: the facts its loops are proved with. */
module Growth {
  import opened Basics
  import opened Disk
  import opened BlockTree

  /** Block b holds something else on d than it did on d0. */
  ghost predicate Changed(d0: Volume, d: Volume, b: nat)
    requires d.Keys == d0.Keys
  {
    b in d && d[b] != d0[b]
  }

  /** Growing a tree that was t0 with blocks from nb: the first u of them are used up, c data blocks are in place, and
      the index blocks `pend` have been taken but do not index anything yet.  Only index blocks have been written. */
  ghost predicate Progress(d0: Volume, t0: seq<u32>, nb: seq<u32>, d: Volume, n: Node, c: nat, pend: seq<u32>, u: nat) {
    && u <= |nb|
    && d.Keys == d0.Keys
    && Tree(d, n, c) + pend == t0 + nb[..u]
    && (forall b :: Changed(d0, d, b) ==> IsIndex(d, n, c, b) || b in pend)
    && (forall b :: Changed(d0, d, b) ==> d0[b].Data? && d[b].Data?)
  }

  /** The blocks a run of `increase_size` may use are raw blocks, all different. */
  ghost predicate Supply(d0: Volume, t0: seq<u32>, nb: seq<u32>) {
    && NoDup(t0 + nb)
    && (forall b :: b in t0 + nb ==> b in d0 && d0[b].Data?)
  }

  lemma Start(d0: Volume, t0: seq<u32>, nb: seq<u32>, n: Node, c: nat)
    requires Tree(d0, n, c) == t0
    ensures Progress(d0, t0, nb, d0, n, c, [], 0)
  {
    assert Tree(d0, n, c) + [] == t0 + nb[..0];
  }

  /** There is a next block to take as long as the tree is short of its target. */
  lemma Room(d0: Volume, t0: seq<u32>, nb: seq<u32>, d: Volume, n: Node, c: nat, pend: seq<u32>, u: nat, target: nat)
    requires Progress(d0, t0, nb, d, n, c, pend, u)
    requires c < target && |pend| <= IndexCount(c)
    requires Total(target) - |t0| <= |nb|
    ensures u < |nb|
  {
    TreeLength(d, n, c);
    TotalMonotone(c, target);
    assert |Tree(d, n, c) + pend| == |t0| + u;
  }

  /** At the target, as many blocks are used up as the source counts. */
  lemma Finish(d0: Volume, t0: seq<u32>, nb: seq<u32>, d: Volume, n: Node, c: nat, u: nat)
    requires Progress(d0, t0, nb, d, n, c, [], u)
    ensures u == Total(c) - |t0| && 0 <= u <= |nb|
    ensures Tree(d, n, c) == t0 + nb[..u]
    ensures d.Keys == d0.Keys
    ensures forall b :: Changed(d0, d, b) ==> IsIndex(d, n, c, b)
    ensures forall b :: Changed(d0, d, b) ==> d0[b].Data? && d[b].Data?
  {
    TreeLength(d, n, c);
    assert Tree(d, n, c) + [] == Tree(d, n, c);
    assert |Tree(d, n, c) + []| == |t0| + u;
  }

  lemma TakeNext<T>(t0: seq<T>, nb: seq<T>, u: nat, s: seq<T>, p: seq<T>)
    requires u < |nb| && s + p == t0 + nb[..u] && NoDup(t0 + nb)
    ensures s + p + [nb[u]] == t0 + nb[..u + 1]
    ensures NoDup(s + p + [nb[u]])
    ensures NoDup(s + p) && nb[u] !in s + p
  {
    assert nb[..u + 1] == nb[..u] + [nb[u]];
    assert t0 + nb[..u + 1] == t0 + nb[..u] + [nb[u]];
    assert t0 + nb == t0 + nb[..u + 1] + nb[u + 1..];
    NoDupSplit(t0 + nb[..u + 1], nb[u + 1..]);
    NoDupSplit(s + p, [nb[u]]);
  }

  lemma StepDirect(d0: Volume, t0: seq<u32>, nb: seq<u32>, d: Volume, n: Node, c: nat, u: nat)
    requires Progress(d0, t0, nb, d, n, c, [], u) && Supply(d0, t0, nb)
    requires c < DIRECT_BOUND && u < |nb| && d == d0
    ensures Progress(d0, t0, nb, d, n.(direct := n.direct[c := nb[u]]), c + 1, [], u + 1)
  {
    GrowDirect(d, n, c, nb[u]);
    TakeNext(t0, nb, u, Tree(d, n, c), []);
    assert Tree(d, n, c) + [] == Tree(d, n, c);
  }

  lemma TakeIndirect1(d0: Volume, t0: seq<u32>, nb: seq<u32>, d: Volume, n: Node, u: nat)
    requires Progress(d0, t0, nb, d, n, DIRECT_BOUND, [], u) && Supply(d0, t0, nb)
    requires u < |nb| && d == d0
    ensures Progress(d0, t0, nb, d, n.(indirect1 := nb[u]), DIRECT_BOUND, [nb[u]], u + 1)
  {
    ChangeIndirect1(d, n, DIRECT_BOUND, nb[u]);
    TakeNext(t0, nb, u, Tree(d, n, DIRECT_BOUND), []);
    assert Tree(d, n, DIRECT_BOUND) + [] == Tree(d, n, DIRECT_BOUND);
  }

  lemma StepIndirect1(d0: Volume, t0: seq<u32>, nb: seq<u32>, d: Volume, n: Node, c: nat, u: nat)
    requires Progress(d0, t0, nb, d, n, c, IndexAt(d, n, c), u) && Supply(d0, t0, nb)
    requires DIRECT_BOUND <= c < INDIRECT1_BOUND && u < |nb|
    ensures n.indirect1 in d && d[n.indirect1].Data? && n.indirect1 in t0 + nb
    ensures Progress(d0, t0, nb, SetWord(d, n.indirect1, c - DIRECT_BOUND, nb[u]), n, c + 1, [], u + 1)
  {
    hide Tree, NoDup, IndexAt, IsIndex, Word;
    var pend, d' := IndexAt(d, n, c), SetWord(d, n.indirect1, c - DIRECT_BOUND, nb[u]);
    GrowIndirect1(d, n, c, nb[u]);
    TakeNext(t0, nb, u, Tree(d, n, c), pend);
    Indirect1Taken(d, n, c, t0 + nb[..u]);
    assert n.indirect1 in t0 + nb;
    StillRaw(d0, t0, nb, d, n.indirect1);
    assert Tree(d', n, c + 1) + [] == t0 + nb[..u + 1];
    forall b | Changed(d0, d', b) ensures IsIndex(d', n, c + 1, b) {
      if b != n.indirect1 {
        assert Changed(d0, d, b);
        SmallIndex(d, n, c, b);
      }
      Indirect1Index(d', n, c);
    }
  }

  lemma Indirect1Taken(d: Volume, n: Node, c: nat, s: seq<u32>)
    requires DIRECT_BOUND <= c < INDIRECT1_BOUND && Tree(d, n, c) + IndexAt(d, n, c) == s
    ensures n.indirect1 in s
  {
    hide Tree;
    assert n.indirect1 in IndexAt(d, n, DIRECT_BOUND);
    if c > DIRECT_BOUND {
      assert IsIndex(d, n, c, n.indirect1);
      IndexInTree(d, n, c, n.indirect1);
    }
  }

  lemma Indirect1Index(d: Volume, n: Node, c: nat)
    requires DIRECT_BOUND <= c
    ensures IsIndex(d, n, c + 1, n.indirect1)
  {
    assert n.indirect1 in IndexAt(d, n, DIRECT_BOUND);
  }

  /** A top-level index block of the tree so far came from the old tree or the supply. */
  lemma TopTaken(d0: Volume, t0: seq<u32>, nb: seq<u32>, d: Volume, n: Node, c: nat, u: nat, i: nat, b: u32)
    requires Progress(d0, t0, nb, d, n, c, [], u) && i < c && b in IndexAt(d, n, i)
    ensures b in t0 + nb
  {
    TreeAt(d, n, i, c);
    assert b in Step(d, n, i);
    assert b in Tree(d, n, c) + [];
    assert b in t0 + nb[..u];
  }

  lemma StillRaw(d0: Volume, t0: seq<u32>, nb: seq<u32>, d: Volume, b: nat)
    requires Supply(d0, t0, nb) && b in t0 + nb && d.Keys == d0.Keys
    requires forall b :: Changed(d0, d, b) ==> d0[b].Data? && d[b].Data?
    ensures b in d && d[b].Data?
  {
    if d[b] != d0[b] { assert Changed(d0, d, b); }
  }

  lemma SupplyRaw(d0: Volume, t0: seq<u32>, nb: seq<u32>, d: Volume, n: Node, c: nat, pend: seq<u32>, u: nat, b: nat)
    requires Progress(d0, t0, nb, d, n, c, pend, u) && Supply(d0, t0, nb) && b in t0 + nb
    ensures b in d && d[b].Data?
  {
    StillRaw(d0, t0, nb, d, b);
  }

  /** Below the double-indirect tier the only index block is the indirect one. */
  lemma SmallIndex(d: Volume, n: Node, c: nat, b: nat)
    requires c < INDIRECT1_BOUND && (IsIndex(d, n, c, b) || b in IndexAt(d, n, c))
    ensures b == n.indirect1
  {
  }

  lemma TakeIndirect2(d0: Volume, t0: seq<u32>, nb: seq<u32>, d: Volume, n: Node, u: nat)
    requires Progress(d0, t0, nb, d, n, INDIRECT1_BOUND, [], u) && Supply(d0, t0, nb)
    requires u < |nb|
    ensures Progress(d0, t0, nb, d, n.(indirect2 := nb[u]), INDIRECT1_BOUND, [nb[u]], u + 1)
  {
    var n' := n.(indirect2 := nb[u]);
    ChangeIndirect2(d, n, INDIRECT1_BOUND, nb[u]);
    TakeNext(t0, nb, u, Tree(d, n, INDIRECT1_BOUND), []);
    assert Tree(d, n, INDIRECT1_BOUND) + [] == Tree(d, n, INDIRECT1_BOUND);
    forall b | Changed(d0, d, b) ensures IsIndex(d, n', INDIRECT1_BOUND, b) {
      var i: nat :| i < INDIRECT1_BOUND && b in IndexAt(d, n, i);
      assert b in IndexAt(d, n', i);
    }
  }

  /** Index blocks that did not move are still index blocks. */
  lemma SameIndex(d: Volume, d': Volume, n: Node, c: nat, b: nat)
    requires forall i: nat :: i < c ==> Step(d', n, i) == Step(d, n, i)
    requires IsIndex(d, n, c, b)
    ensures IsIndex(d', n, c, b)
  {
    var i: nat :| i < c && b in IndexAt(d, n, i);
    assert IndexAt(d, n, i) == Step(d, n, i)[..|Step(d, n, i)| - 1];
    assert IndexAt(d', n, i) == Step(d', n, i)[..|Step(d', n, i)| - 1];
  }

  lemma MoreIndex(d: Volume, n: Node, c: nat, b: nat)
    requires IsIndex(d, n, c, b) || b in IndexAt(d, n, c)
    ensures IsIndex(d, n, c + 1, b)
  {
    if IsIndex(d, n, c, b) { var i: nat :| i < c && b in IndexAt(d, n, i); }
  }

  /** Index blocks taken before the block that indexes data block c is. */
  function Before(n: Node, c: nat): seq<u32> {
    if c == INDIRECT1_BOUND then [n.indirect2] else []
  }

  lemma TakeGroup(d0: Volume, t0: seq<u32>, nb: seq<u32>, d: Volume, n: Node, c: nat, u: nat)
    requires Progress(d0, t0, nb, d, n, c, Before(n, c), u) && Supply(d0, t0, nb)
    requires INDIRECT1_BOUND <= c < MAX_BLOCKS && (c - INDIRECT1_BOUND) % 128 == 0 && u < |nb|
    ensures n.indirect2 in d && d[n.indirect2].Data? && n.indirect2 in t0 + nb
    ensures var d' := SetWord(d, n.indirect2, (c - INDIRECT1_BOUND) / 128, nb[u]);
            Progress(d0, t0, nb, d', n, c, IndexAt(d', n, c), u + 1)
  {
    hide Tree, IndexAt, IsIndex, Step;
    var pend := Before(n, c);
    var d' := SetWord(d, n.indirect2, (c - INDIRECT1_BOUND) / 128, nb[u]);
    TakeNext(t0, nb, u, Tree(d, n, c), pend);
    NoDupSplit(Tree(d, n, c), pend);
    if c == INDIRECT1_BOUND { assert n.indirect2 in pend; }
    HookGroup(d, n, c, nb[u]);
    Indirect2Taken(d, n, c, t0 + nb[..u]);
    hide Tree, IndexAt, IsIndex, Step, NoDup;
    assert n.indirect2 in t0 + nb;
    StillRaw(d0, t0, nb, d, n.indirect2);
    assert Tree(d', n, c) + (pend + [nb[u]]) == Tree(d, n, c) + pend + [nb[u]];
    forall b | Changed(d0, d', b) ensures IsIndex(d', n, c, b) || b in IndexAt(d', n, c) {
      GroupIndex(d0, d, d', n, c, b);
    }
  }

  lemma GroupIndex(d0: Volume, d: Volume, d': Volume, n: Node, c: nat, b: nat)
    requires d.Keys == d0.Keys == d'.Keys && INDIRECT1_BOUND <= c < MAX_BLOCKS
    requires b != n.indirect2 ==> (b in d ==> d'[b] == d[b])
    requires forall b :: Changed(d0, d, b) ==> IsIndex(d, n, c, b) || b in Before(n, c)
    requires forall i: nat :: i < c ==> Step(d', n, i) == Step(d, n, i)
    requires Changed(d0, d', b)
    ensures IsIndex(d', n, c, b) || b in IndexAt(d', n, c)
  {
    hide IndexAt, IsIndex, Step;
    if b == n.indirect2 {
      Indirect2Index(d', n, c);
    } else {
      assert Changed(d0, d, b);
      SameIndex(d, d', n, c, b);
    }
  }

  lemma Indirect2Taken(d: Volume, n: Node, c: nat, s: seq<u32>)
    requires INDIRECT1_BOUND <= c < MAX_BLOCKS && Tree(d, n, c) + Before(n, c) == s
    ensures n.indirect2 in s
  {
    if c > INDIRECT1_BOUND {
      assert n.indirect2 in Step(d, n, INDIRECT1_BOUND);
      TreeAt(d, n, INDIRECT1_BOUND, c);
    } else {
      assert n.indirect2 in Before(n, c);
    }
  }

  lemma Indirect2Index(d: Volume, n: Node, c: nat)
    requires INDIRECT1_BOUND <= c < MAX_BLOCKS
    ensures IsIndex(d, n, c, n.indirect2) || n.indirect2 in IndexAt(d, n, c)
  {
    assert n.indirect2 in IndexAt(d, n, INDIRECT1_BOUND);
  }

  lemma StepIndirect2(d0: Volume, t0: seq<u32>, nb: seq<u32>, d: Volume, n: Node, c: nat, u: nat)
    requires Progress(d0, t0, nb, d, n, c, IndexAt(d, n, c), u) && Supply(d0, t0, nb)
    requires INDIRECT1_BOUND <= c < MAX_BLOCKS && u < |nb|
    ensures var g := GroupOf(d, n, c);
            && g in d && d[g].Data? && g in t0 + nb
            && Progress(d0, t0, nb, SetWord(d, g, (c - INDIRECT1_BOUND) % 128, nb[u]), n, c + 1, [], u + 1)
  {
    hide BlockAt, PutU32, GetU32, NoDup;
    var pend, g := IndexAt(d, n, c), GroupOf(d, n, c);
    var d' := SetWord(d, g, (c - INDIRECT1_BOUND) % 128, nb[u]);
    TakeNext(t0, nb, u, Tree(d, n, c), pend);
    GrowIndirect2(d, n, c, nb[u]);
    GroupTaken(d, n, c, t0 + nb[..u]);
    assert g in t0 + nb;
    StillRaw(d0, t0, nb, d, g);
    assert Tree(d', n, c + 1) + [] == t0 + nb[..u + 1];
    forall b | Changed(d0, d', b) ensures IsIndex(d', n, c + 1, b) {
      if b == g {
        GroupIndexed(d', n, c);
        SetWordGet(d, g, (c - INDIRECT1_BOUND) % 128, nb[u], n.indirect2, (c - INDIRECT1_BOUND) / 128);
        GroupDistinct(d, n, c);
      } else {
        assert Changed(d0, d, b);
        if IsIndex(d, n, c, b) { SameIndex(d, d', n, c, b); }
        MoreIndex(d', n, c, b);
      }
    }
  }

  lemma GroupTaken(d: Volume, n: Node, c: nat, s: seq<u32>)
    requires INDIRECT1_BOUND <= c < MAX_BLOCKS && Tree(d, n, c) + IndexAt(d, n, c) == s
    ensures GroupOf(d, n, c) in s
  {
    GroupInIndex(d, n, c);
    if FirstOf(c) < c {
      TreeAt(d, n, FirstOf(c), c);
      assert GroupOf(d, n, c) in Step(d, n, FirstOf(c));
    }
  }

  lemma GroupIndexed(d: Volume, n: Node, c: nat)
    requires INDIRECT1_BOUND <= c < MAX_BLOCKS
    ensures IsIndex(d, n, c + 1, GroupOf(d, n, c))
  {
    GroupInIndex(d, n, c);
  }
}
