/** Machine integers, options and a few facts about sequences shared by every module. */
module Basics {

  type byte = x: int | 0 <= x < 0x100
  type u32 = x: int | 0 <= x < 0x1_0000_0000

  datatype Option<+T> = None | Some(value: T)

  function Min(a: int, b: int): int {
    if a <= b then a else b
  }

  /** A word is the sum of its four bytes. */
  lemma Digits(v: u32)
    ensures v % 0x100 + 0x100 * (v / 0x100 % 0x100) + 0x1_0000 * (v / 0x1_0000 % 0x100) + 0x100_0000 * (v / 0x100_0000)
         == v
  {
    assert v / 0x1_0000 == v / 0x100 / 0x100 && v / 0x100_0000 == v / 0x1_0000 / 0x100;
  }

  /** n copies of x. */
  function Fill<T>(x: T, n: nat): (s: seq<T>)
    ensures |s| == n && forall i :: 0 <= i < n ==> s[i] == x
  {
    seq(n, i => x)
  }

  ghost predicate NoDup<T>(s: seq<T>) {
    forall i, j :: 0 <= i < j < |s| ==> s[i] != s[j]
  }

  ghost predicate Disjoint<T>(s: seq<T>, t: seq<T>) {
    forall x :: x in s ==> x !in t
  }

  lemma NoDupConcat<T>(s: seq<T>, t: seq<T>)
    ensures NoDup(s + t) <==> NoDup(s) && NoDup(t) && Disjoint(s, t)
  {
    if NoDup(s + t) { NoDupSplit(s, t); }
    if NoDup(s) && NoDup(t) && Disjoint(s, t) {
      forall i, j | 0 <= i < j < |s + t| ensures (s + t)[i] != (s + t)[j] {
        if i < |s| <= j { assert s[i] in s && t[j - |s|] in t; }
      }
    }
  }

  lemma NoDupSplit<T>(s: seq<T>, t: seq<T>)
    requires NoDup(s + t)
    ensures NoDup(s) && NoDup(t) && Disjoint(s, t)
  {
    var u := s + t;
    forall i, j | 0 <= i < j < |s| ensures s[i] != s[j] { assert s[i] == u[i] && s[j] == u[j]; }
    forall i, j | 0 <= i < j < |t| ensures t[i] != t[j] {
      assert t[i] == u[|s| + i] && t[j] == u[|s| + j];
    }
    forall i, j | 0 <= i < |s| && 0 <= j < |t| ensures s[i] != t[j] {
      assert s[i] == u[i] && t[j] == u[|s| + j];
    }
  }

  lemma NoDupSnoc<T>(s: seq<T>, x: T)
    requires NoDup(s) && x !in s
    ensures NoDup(s + [x])
  {
  }

  /** Two segments of a duplicate-free sequence, one after the other, have nothing in common. */
  lemma SegmentsDisjoint<T>(a: seq<T>, s: seq<T>, b: seq<T>, u: seq<T>, t: seq<T>)
    requires a + s <= b && b + u <= t && NoDup(t)
    ensures Disjoint(s, u)
  {
    Segment(a, s, b);
    Segment(b, u, t);
    forall k, l | 0 <= k < |s| && 0 <= l < |u| ensures s[k] != u[l] {
      assert b[|a| + k] == s[k] && t[|a| + k] == b[|a| + k] && t[|b| + l] == u[l];
    }
  }

  lemma DisjointHeads<T>(a: seq<T>, b: seq<T>, s: seq<T>, t: seq<T>)
    requires Disjoint(a + b, s + t)
    ensures Disjoint(a, s)
  {
    forall x | x in a ensures x !in s { assert x in a + b; }
  }

  lemma DisjointSub<T>(a: seq<T>, b: seq<T>, t: seq<T>, s: seq<T>)
    requires Disjoint(t, s) && forall x :: x in a + b ==> x in t
    ensures Disjoint(a, s)
  {
    forall x | x in a ensures x !in s { assert x in a + b; }
  }

  lemma SliceJoin<T>(s: seq<T>, a: nat, b: nat, c: nat)
    requires a <= b <= c <= |s|
    ensures s[a..b] + s[b..c] == s[a..c]
  {
  }

  /** How a segment shows up in a longer sequence. */
  lemma Segment<T>(a: seq<T>, s: seq<T>, t: seq<T>)
    requires a + s <= t
    ensures |a| + |s| <= |t|
    ensures forall k :: 0 <= k < |s| ==> t[|a| + k] == s[k]
    ensures forall x :: x in s ==> x in t
  {
    forall k | 0 <= k < |s| ensures t[|a| + k] == s[k] { assert (a + s)[|a| + k] == s[k]; }
  }

  /** A duplicate-free sequence drawn from a set is no longer than the set is big. */
  lemma {:induction false} NoDupFits<T>(s: seq<T>, m: set<T>)
    requires NoDup(s) && forall x :: x in s ==> x in m
    ensures |s| <= |m|
  {
    if s != [] {
      var last := s[|s| - 1];
      forall x | x in s[..|s| - 1] ensures x in m - {last} { }
      NoDupFits(s[..|s| - 1], m - {last});
    }
  }

  lemma {:induction false} SubsetCard<T>(a: set<T>, b: set<T>)
    requires a <= b
    ensures |a| <= |b|
  {
    if a != {} {
      var x :| x in a;
      SubsetCard(a - {x}, b - {x});
    }
  }

  /** The naturals below n. */
  function Below(n: nat): (s: set<nat>)
    ensures forall i: nat :: i in s <==> i < n
    ensures |s| == n
  {
    if n == 0 then {} else Below(n - 1) + {n - 1}
  }

  // ---- concatenation of a family of sequences ----

  function Flat<T>(f: nat -> seq<T>, c: nat): seq<T> {
    if c == 0 then [] else Flat(f, c - 1) + f(c - 1)
  }

  function SumTo(g: nat -> nat, c: nat): nat {
    if c == 0 then 0 else SumTo(g, c - 1) + g(c - 1)
  }

  lemma {:induction false} FlatLength<T>(f: nat -> seq<T>, g: nat -> nat, c: nat)
    requires forall i: nat :: i < c ==> |f(i)| == g(i)
    ensures |Flat(f, c)| == SumTo(g, c)
  {
    if c > 0 { FlatLength(f, g, c - 1); }
  }

  lemma {:induction false} FlatPrefix<T>(f: nat -> seq<T>, c: nat, c': nat)
    requires c <= c'
    ensures Flat(f, c) <= Flat(f, c')
  {
    if c < c' { FlatPrefix(f, c, c' - 1); }
  }

  /** Where piece i sits. */
  lemma FlatAt<T>(f: nat -> seq<T>, i: nat, c: nat)
    requires i < c
    ensures |Flat(f, i)| + |f(i)| <= |Flat(f, c)|
    ensures forall k :: 0 <= k < |f(i)| ==> Flat(f, c)[|Flat(f, i)| + k] == f(i)[k]
    ensures forall x :: x in f(i) ==> x in Flat(f, c)
  {
    hide *;
    FlatNext(f, i);
    FlatPrefix(f, i + 1, c);
    var p, q, w := Flat(f, i), f(i), Flat(f, c);
    Segment(p, q, w);
  }

  lemma FlatNext<T>(f: nat -> seq<T>, i: nat)
    ensures Flat(f, i + 1) == Flat(f, i) + f(i)
  {
  }

  lemma {:induction false} FlatMember<T>(f: nat -> seq<T>, c: nat, x: T)
    requires x in Flat(f, c)
    ensures exists i: nat :: i < c && x in f(i)
  {
    if x !in f(c - 1) { FlatMember(f, c - 1, x); }
  }

  lemma {:induction false} FlatSame<T>(f: nat -> seq<T>, g: nat -> seq<T>, c: nat)
    requires forall i: nat :: i < c ==> f(i) == g(i)
    ensures Flat(f, c) == Flat(g, c)
  {
    if c > 0 { FlatSame(f, g, c - 1); }
  }

  lemma FlatDisjoint<T>(f: nat -> seq<T>, c: nat, i: nat, j: nat)
    requires NoDup(Flat(f, c)) && i < j < c
    ensures Disjoint(f(i), f(j))
  {
    FlatPrefix(f, i + 1, j);
    FlatPrefix(f, j + 1, c);
    SegmentsDisjoint(Flat(f, i), f(i), Flat(f, j), f(j), Flat(f, c));
  }

  lemma FlatNoDup<T>(f: nat -> seq<T>, c: nat, i: nat)
    requires NoDup(Flat(f, c)) && i < c
    ensures NoDup(f(i))
  {
    FlatAt(f, i, c);
    var t, a := Flat(f, c), |Flat(f, i)|;
    forall k, l | 0 <= k < l < |f(i)| ensures f(i)[k] != f(i)[l] { assert t[a + k] != t[a + l]; }
  }

  // ---- a weight summed over a sequence ----

  function Sum<T>(s: seq<T>, w: T -> int): int {
    if s == [] then 0 else Sum(s[..|s| - 1], w) + w(s[|s| - 1])
  }

  lemma {:induction false} SumUpdate<T>(s: seq<T>, w: T -> int, i: nat, x: T)
    requires i < |s|
    ensures Sum(s[i := x], w) == Sum(s, w) - w(s[i]) + w(x)
  {
    var u, c := s[i := x], |s| - 1;
    if i == c {
      assert u[..c] == s[..c];
    } else {
      assert u[..c] == s[..c][i := x];
      SumUpdate(s[..c], w, i, x);
    }
  }

  lemma {:induction false} SumBounds<T>(s: seq<T>, w: T -> int, lo: int, hi: int)
    requires forall i :: 0 <= i < |s| ==> lo <= w(s[i]) <= hi
    ensures lo * |s| <= Sum(s, w) <= hi * |s|
  {
    if s != [] {
      var c := |s| - 1;
      SumBounds(s[..c], w, lo, hi);
      assert lo * |s| == lo * c + lo && hi * |s| == hi * c + hi;
    }
  }

  lemma {:induction false} SumOne<T>(s: seq<T>, w: T -> int, i: nat)
    requires i < |s| && forall k :: 0 <= k < |s| ==> w(s[k]) >= 0
    ensures 0 <= w(s[i]) <= Sum(s, w)
  {
    var c := |s| - 1;
    if c > 0 { SumOne(s[..c], w, if i < c then i else 0); }
  }

  lemma {:induction false} SumNat<T>(s: seq<T>, w: T -> int)
    requires forall k :: 0 <= k < |s| ==> w(s[k]) >= 0
    ensures Sum(s, w) >= 0
  {
    if s != [] { SumNat(s[..|s| - 1], w); }
  }

  lemma {:induction false} SumTwo<T>(s: seq<T>, w: T -> int, i: nat, j: nat)
    requires i < j < |s| && forall k :: 0 <= k < |s| ==> w(s[k]) >= 0
    ensures w(s[i]) + w(s[j]) <= Sum(s, w)
  {
    var c := |s| - 1;
    if j < c {
      SumTwo(s[..c], w, i, j);
    } else {
      SumOne(s[..c], w, i);
    }
  }

  lemma {:induction false} SumAtMost<T>(s: seq<T>, t: seq<T>, w: T -> int)
    requires |s| == |t| && forall k :: 0 <= k < |s| ==> w(s[k]) <= w(t[k])
    ensures Sum(s, w) <= Sum(t, w)
  {
    if s != [] { SumAtMost(s[..|s| - 1], t[..|s| - 1], w); }
  }

  lemma SumLess<T>(s: seq<T>, t: seq<T>, w: T -> int, i: nat)
    requires |s| == |t| && i < |s| && w(s[i]) < w(t[i]) && forall k :: 0 <= k < |s| ==> w(s[k]) <= w(t[k])
    ensures Sum(s, w) < Sum(t, w)
  {
    SumUpdate(t, w, i, s[i]);
    SumAtMost(s, t[i := s[i]], w);
  }

  lemma {:induction false} SumCapped<T>(s: seq<T>, w: T -> int)
    requires forall k :: 0 <= k < |s| ==> w(s[k]) <= 1
    ensures Sum(s, w) <= |s|
  {
    if s != [] { SumCapped(s[..|s| - 1], w); }
  }

  /** Weights of at most one that add up to their number are all one. */
  lemma {:induction false} SumFull<T>(s: seq<T>, w: T -> int, i: nat)
    requires i < |s| && Sum(s, w) >= |s| && forall k :: 0 <= k < |s| ==> w(s[k]) <= 1
    ensures w(s[i]) == 1
  {
    var c := |s| - 1;
    SumCapped(s[..c], w);
    if i < c { SumFull(s[..c], w, i); }
  }
}
