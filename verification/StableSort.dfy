/** Stable sorting by a comparison function, as a specification. */
module StableSort {
  import opened HashTable
  import opened AppList

  /** `cmp` ranks elements: any two are comparable, and the ranking is transitive. */
  ghost predicate TotalPreorder(cmp: (Cache, Cache) -> int) {
    && (forall a, b :: cmp(a, b) <= 0 || cmp(b, a) <= 0)
    && (forall a, b, c :: cmp(a, b) <= 0 && cmp(b, c) <= 0 ==> cmp(a, c) <= 0)
  }

  lemma LeTransitive(a: Handle, b: Handle, c: Handle, cmp: (Cache, Cache) -> int)
    requires TotalPreorder(cmp) && !Gt(a, b, cmp) && !Gt(b, c, cmp)
    ensures !Gt(a, c, cmp)
  {
  }

  lemma LeTotal(a: Handle, b: Handle, cmp: (Cache, Cache) -> int)
    requires TotalPreorder(cmp)
    ensures !Gt(a, b, cmp) || !Gt(b, a, cmp)
  {
    assert cmp(a.elt, b.elt) <= 0 || cmp(b.elt, a.elt) <= 0;
  }

  ghost predicate Ranked(s: seq<Handle>, cmp: (Cache, Cache) -> int) {
    forall i, j :: 0 <= i < j < |s| ==> !Gt(s[i], s[j], cmp)
  }

  /** `x` goes before the first element ranked after it. */
  ghost function Ins(s: seq<Handle>, x: Handle, cmp: (Cache, Cache) -> int): seq<Handle> {
    if s == [] || Gt(s[0], x, cmp) then [x] + s else [s[0]] + Ins(s[1..], x, cmp)
  }

  lemma {:induction false} InsIsInserted(s: seq<Handle>, x: Handle, cmp: (Cache, Cache) -> int)
    ensures Ins(s, x, cmp) == Inserted(s, Place(s, x, cmp), x)
  {
    if s == [] || Gt(s[0], x, cmp) {
    } else {
      InsIsInserted(s[1..], x, cmp);
      var p := Place(s[1..], x, cmp);
      assert s[..p + 1] == [s[0]] + s[1..][..p] && s[p + 1..] == s[1..][p..];
    }
  }

  /** The stable sort of `s`: insert its elements one after the other. */
  ghost function SortOf(s: seq<Handle>, cmp: (Cache, Cache) -> int): seq<Handle> {
    if s == [] then [] else Ins(SortOf(s[..|s| - 1], cmp), s[|s| - 1], cmp)
  }

  // ---------- what the stable sort guarantees ----------

  lemma {:induction false} InsRanked(s: seq<Handle>, x: Handle, cmp: (Cache, Cache) -> int)
    requires TotalPreorder(cmp) && Ranked(s, cmp)
    ensures Ranked(Ins(s, x, cmp), cmp) && multiset(Ins(s, x, cmp)) == multiset(s) + multiset{x}
    ensures |Ins(s, x, cmp)| == |s| + 1
  {
    hide TotalPreorder, Ranked;
    RankedOne(x, cmp);
    if s == [] {
      assert [x] + s == [x];
    } else if Gt(s[0], x, cmp) {
      LeTotal(x, s[0], cmp);
      forall j | 0 <= j < |s| ensures !Gt(x, s[j], cmp) {
        if j > 0 {
          RankedHead(s, j, cmp);
          LeTransitive(x, s[0], s[j], cmp);
        }
      }
      RankedCons(x, s, cmp);
    } else {
      var t := s[1..];
      assert s == [s[0]] + t;
      RankedTail(s, cmp);
      InsRanked(t, x, cmp);
      var r := Ins(t, x, cmp);
      forall j | 0 <= j < |r| ensures !Gt(s[0], r[j], cmp) {
        assert r[j] in multiset(r);
        if r[j] != x {
          assert r[j] in t;
          var i :| 0 <= i < |t| && t[i] == r[j];
          RankedHead(s, i + 1, cmp);
        }
      }
      RankedCons(s[0], r, cmp);
    }
  }

  lemma RankedOne(x: Handle, cmp: (Cache, Cache) -> int)
    ensures Ranked([x], cmp)
  {
  }

  lemma RankedHead(s: seq<Handle>, j: nat, cmp: (Cache, Cache) -> int)
    requires Ranked(s, cmp) && 0 < j < |s|
    ensures !Gt(s[0], s[j], cmp)
  {
  }

  lemma RankedTail(s: seq<Handle>, cmp: (Cache, Cache) -> int)
    requires Ranked(s, cmp) && s != []
    ensures Ranked(s[1..], cmp)
  {
  }

  lemma RankedCons(x: Handle, s: seq<Handle>, cmp: (Cache, Cache) -> int)
    requires Ranked(s, cmp) && forall j :: 0 <= j < |s| ==> !Gt(x, s[j], cmp)
    ensures Ranked([x] + s, cmp)
  {
  }

  lemma {:induction false} SortedIsRanked(s: seq<Handle>, cmp: (Cache, Cache) -> int)
    requires TotalPreorder(cmp)
    ensures Ranked(SortOf(s, cmp), cmp) && multiset(SortOf(s, cmp)) == multiset(s) && |SortOf(s, cmp)| == |s|
  {
    if s != [] {
      var r := s[..|s| - 1];
      SortedIsRanked(r, cmp);
      InsRanked(SortOf(r, cmp), s[|s| - 1], cmp);
      assert s == r + [s[|s| - 1]];
    }
  }

  predicate SameRank(a: Handle, b: Handle, cmp: (Cache, Cache) -> int) { !Gt(a, b, cmp) && !Gt(b, a, cmp) }

  /** The elements of one rank, in the order of `s`. */
  ghost function OfRank(s: seq<Handle>, p: Handle, cmp: (Cache, Cache) -> int): seq<Handle> {
    if s == [] then []
    else OfRank(s[..|s| - 1], p, cmp) + if SameRank(s[|s| - 1], p, cmp) then [s[|s| - 1]] else []
  }

  lemma {:induction false} OfRankJoin(s: seq<Handle>, t: seq<Handle>, p: Handle, cmp: (Cache, Cache) -> int)
    ensures OfRank(s + t, p, cmp) == OfRank(s, p, cmp) + OfRank(t, p, cmp)
  {
    if t == [] {
      assert s + t == s;
    } else {
      var u := t[..|t| - 1];
      OfRankJoin(s, u, p, cmp);
      assert (s + t)[..|s + t| - 1] == s + u;
    }
  }

  lemma {:induction false} OfRankNone(s: seq<Handle>, p: Handle, cmp: (Cache, Cache) -> int)
    requires forall i :: 0 <= i < |s| ==> !SameRank(s[i], p, cmp)
    ensures OfRank(s, p, cmp) == []
  {
    if s != [] { OfRankNone(s[..|s| - 1], p, cmp); }
  }

  /** Insertion puts `x` after all elements of its rank. */
  lemma InsStable(s: seq<Handle>, x: Handle, p: Handle, cmp: (Cache, Cache) -> int)
    requires TotalPreorder(cmp) && Ranked(s, cmp)
    ensures OfRank(Ins(s, x, cmp), p, cmp) == OfRank(s + [x], p, cmp)
  {
    hide OfRank, Ranked, TotalPreorder, Gt;
    InsIsInserted(s, x, cmp);
    var k := Place(s, x, cmp);
    var a, b := s[..k], s[k..];
    assert s == a + b && Inserted(s, k, x) == a + [x] + b;
    OfRankJoin(s, [x], p, cmp);
    OfRankJoin(a, b, p, cmp);
    OfRankJoin(a, [x], p, cmp);
    OfRankJoin(a + [x], b, p, cmp);
    if SameRank(x, p, cmp) {
      NoneAfter(s, x, p, cmp);
      OfRankNone(b, p, cmp);
    } else {
      OfRankNone([x], p, cmp);
    }
  }

  lemma NoneAfter(s: seq<Handle>, x: Handle, p: Handle, cmp: (Cache, Cache) -> int)
    requires TotalPreorder(cmp) && Ranked(s, cmp) && SameRank(x, p, cmp)
    ensures forall i :: Place(s, x, cmp) <= i < |s| ==> !SameRank(s[i], p, cmp)
  {
    hide TotalPreorder, Gt;
    var k := Place(s, x, cmp);
    PlaceIs(s, x, cmp);
    forall i | k <= i < |s| ensures !SameRank(s[i], p, cmp) {
      if SameRank(s[i], p, cmp) {
        LeTransitive(s[i], p, x, cmp);
        if i > k { LeTransitive(s[k], s[i], x, cmp); }
      }
    }
  }

  lemma {:induction false} PlaceIs(s: seq<Handle>, x: Handle, cmp: (Cache, Cache) -> int)
    ensures var k := Place(s, x, cmp);
            (k < |s| ==> Gt(s[k], x, cmp)) && forall i :: 0 <= i < k ==> !Gt(s[i], x, cmp)
  {
    if s != [] && !Gt(s[0], x, cmp) { PlaceIs(s[1..], x, cmp); }
  }

  /** Stability: within every rank the sort keeps the order of its input. */
  lemma {:induction false} SortedStable(s: seq<Handle>, p: Handle, cmp: (Cache, Cache) -> int)
    requires TotalPreorder(cmp)
    ensures OfRank(SortOf(s, cmp), p, cmp) == OfRank(s, p, cmp)
  {
    hide TotalPreorder, OfRank, Ins, Ranked;
    if s != [] {
      var r, x := s[..|s| - 1], s[|s| - 1];
      SortedStable(r, p, cmp);
      SortedIsRanked(r, cmp);
      InsStable(SortOf(r, cmp), x, p, cmp);
      OfRankJoin(SortOf(r, cmp), [x], p, cmp);
      OfRankJoin(r, [x], p, cmp);
      assert s == r + [x];
    }
  }

  /** In the comparison's own terms: no element compares greater than one that comes after it. */
  ghost predicate Ascends(s: seq<Handle>, cmp: (Cache, Cache) -> int) {
    forall i, j :: 0 <= i < j < |s| ==> cmp(s[i].elt, s[j].elt) <= 0
  }

  lemma SortAscends(s: seq<Handle>, cmp: (Cache, Cache) -> int)
    requires TotalPreorder(cmp)
    ensures Ascends(SortOf(s, cmp), cmp)
  {
    hide TotalPreorder, SortOf;
    SortedIsRanked(s, cmp);
    RankedMeans(SortOf(s, cmp), cmp);
  }

  lemma RankedMeans(s: seq<Handle>, cmp: (Cache, Cache) -> int)
    requires Ranked(s, cmp)
    ensures Ascends(s, cmp)
  {
  }

  /** Two elements of the rank of `p` stand in OfRank as they stand in the list. */
  lemma {:induction false} OfRankOrder(s: seq<Handle>, p: Handle, cmp: (Cache, Cache) -> int, i: nat, j: nat)
    returns (a: nat, b: nat)
    requires i < j < |s| && SameRank(s[i], p, cmp) && SameRank(s[j], p, cmp)
    ensures var r := OfRank(s, p, cmp); a < b < |r| && r[a] == s[i] && r[b] == s[j]
    decreases |s|
  {
    hide SameRank;
    var t := s[..|s| - 1];
    if j < |t| {
      a, b := OfRankOrder(t, p, cmp, i, j);
    } else {
      a := OfRankHas(t, p, cmp, i);
      b := |OfRank(t, p, cmp)|;
    }
  }

  lemma {:induction false} OfRankHas(s: seq<Handle>, p: Handle, cmp: (Cache, Cache) -> int, i: nat) returns (a: nat)
    requires i < |s| && SameRank(s[i], p, cmp)
    ensures a < |OfRank(s, p, cmp)| && OfRank(s, p, cmp)[a] == s[i]
    decreases |s|
  {
    hide SameRank;
    var t := s[..|s| - 1];
    if i < |t| { a := OfRankHas(t, p, cmp, i); } else { a := |OfRank(t, p, cmp)|; }
  }

  lemma {:induction false} OfRankNoDup(s: seq<Handle>, p: Handle, cmp: (Cache, Cache) -> int)
    requires NoDup(s)
    ensures NoDup(OfRank(s, p, cmp)) && forall h :: h in OfRank(s, p, cmp) ==> h in s
  {
    hide SameRank;
    if s != [] {
      var t, x := s[..|s| - 1], s[|s| - 1];
      assert s == t + [x];
      OfRankNoDup(t, p, cmp);
      assert x !in t;
    }
  }

  /** In the comparison's own terms: of two elements that compare equal, the one that came first stays first. */
  lemma SortKeepsTies(s: seq<Handle>, cmp: (Cache, Cache) -> int, i: nat, j: nat, k: nat, l: nat)
    requires TotalPreorder(cmp) && NoDup(s) && i < j < |s|
    requires cmp(s[i].elt, s[j].elt) <= 0 && cmp(s[j].elt, s[i].elt) <= 0
    requires k < |SortOf(s, cmp)| && l < |SortOf(s, cmp)| && SortOf(s, cmp)[k] == s[i] && SortOf(s, cmp)[l] == s[j]
    ensures k < l
  {
    hide SortOf, TotalPreorder, OfRank;
    var t, p := SortOf(s, cmp), s[i];
    LeTotal(p, p, cmp);
    assert SameRank(s[i], p, cmp) && SameRank(s[j], p, cmp);
    SortedStable(s, p, cmp);
    OfRankNoDup(s, p, cmp);
    var a, b := OfRankOrder(s, p, cmp, i, j);
    if l < k { var c, d := OfRankOrder(t, p, cmp, l, k); }
  }

  // ---------- merging ----------

  /** The merge of HASH_SRT: on ties the first run goes first. */
  ghost function Merge(a: seq<Handle>, b: seq<Handle>, cmp: (Cache, Cache) -> int): seq<Handle>
    decreases |a| + |b|
  {
    if a == [] then b
    else if b == [] then a
    else if !Gt(a[0], b[0], cmp) then [a[0]] + Merge(a[1..], b, cmp)
    else [b[0]] + Merge(a, b[1..], cmp)
  }

  lemma {:induction false} MergeIns(a: seq<Handle>, b: seq<Handle>, x: Handle, cmp: (Cache, Cache) -> int)
    requires TotalPreorder(cmp)
    ensures Merge(a, Ins(b, x, cmp), cmp) == Ins(Merge(a, b, cmp), x, cmp)
    decreases |a| + |b|
  {
    var c := Ins(b, x, cmp);
    if a == [] {
    } else if b == [] {
      if !Gt(a[0], x, cmp) {
        MergeIns(a[1..], b, x, cmp);
        assert Merge(a[1..], b, cmp) == a[1..];
      }
    } else if Gt(b[0], x, cmp) {
      assert c[0] == x && c[1..] == b;
      if !Gt(a[0], x, cmp) {
        MergeIns(a[1..], b, x, cmp);
        LeTotal(x, b[0], cmp);
        LeTransitive(a[0], x, b[0], cmp);
        assert Merge(a, b, cmp)[1..] == Merge(a[1..], b, cmp);
      }
    } else {
      assert c[0] == b[0] && c[1..] == Ins(b[1..], x, cmp);
      if !Gt(a[0], b[0], cmp) {
        MergeIns(a[1..], b, x, cmp);
        LeTransitive(a[0], b[0], x, cmp);
        assert Merge(a, b, cmp)[1..] == Merge(a[1..], b, cmp);
      } else {
        MergeIns(a, b[1..], x, cmp);
        assert Merge(a, b, cmp)[1..] == Merge(a, b[1..], cmp);
      }
    }
  }

  /** Merging two sorted runs gives the stable sort of their concatenation. */
  lemma {:induction false} MergeSorted(a: seq<Handle>, b: seq<Handle>, cmp: (Cache, Cache) -> int)
    requires TotalPreorder(cmp)
    ensures Merge(SortOf(a, cmp), SortOf(b, cmp), cmp) == SortOf(a + b, cmp)
  {
    if b == [] {
      assert a + b == a;
      assert Merge(SortOf(a, cmp), [], cmp) == SortOf(a, cmp);
    } else {
      var c, x := b[..|b| - 1], b[|b| - 1];
      MergeSorted(a, c, cmp);
      MergeIns(SortOf(a, cmp), SortOf(c, cmp), x, cmp);
      assert (a + b)[..|a + b| - 1] == a + c;
    }
  }
}
