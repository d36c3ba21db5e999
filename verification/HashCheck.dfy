/** HASH_FSCK, and what every link of a hash is. */
module HashCheck {
  import opened Words
  import opened HashTable
  import opened AppList
  import opened UtHash

  ghost function TotalLen(chains: seq<seq<Handle>>): nat {
    if chains == [] then 0 else TotalLen(chains[..|chains| - 1]) + |chains[|chains| - 1]|
  }

  lemma {:induction false} SetOfNoDup(s: seq<Handle>)
    requires NoDup(s)
    ensures |Elements(s)| == |s|
  {
    if s != [] {
      var r, x := s[..|s| - 1], s[|s| - 1];
      SetOfNoDup(r);
      assert Elements(s) == Elements(r) + {x} by { assert s == r + [x]; }
      assert x !in r;
    }
  }

  ghost function FirstItems(items: set<Handle>, k: nat, i: nat): set<Handle> {
    set h | h in items && LowBits(h.hv, k) < i
  }

  lemma {:induction false} CountFirst(items: set<Handle>, chains: seq<seq<Handle>>, k: nat, i: nat)
    requires Placed(items, chains, k) && i <= |chains|
    requires forall b :: 0 <= b < |chains| ==> NoDup(chains[b])
    ensures TotalLen(chains[..i]) == |FirstItems(items, k, i)|
  {
    if i == 0 {
      assert FirstItems(items, k, 0) == {};
    } else {
      CountFirst(items, chains, k, i - 1);
      assert chains[..i][..i - 1] == chains[..i - 1];
      var c := chains[i - 1];
      SetOfNoDup(c);
      var f, e := FirstItems(items, k, i - 1), Elements(c);
      assert FirstItems(items, k, i) == f + e by {
        forall h | h in items && LowBits(h.hv, k) == i - 1 ensures h in e { assert h in chains[LowBits(h.hv, k)]; }
      }
      assert f * e == {};
    }
  }

  /** The bucket counts add up to the number of items. */
  lemma CountsAddUp(h: Hash)
    requires h.Valid() && h.tbl != null
    ensures TotalLen(h.tbl.chains) == |h.order| == h.tbl.numItems
  {
    var t := h.tbl;
    CountFirst(t.items, t.chains, t.log2NumBuckets, |t.chains|);
    assert t.chains[..|t.chains|] == t.chains;
    assert FirstItems(t.items, t.log2NumBuckets, |t.chains|) == t.items;
    SetOfNoDup(h.order);
  }

  /** The back links of a chain, and of the list, whose forward links are those of the sequence. */
  ghost predicate BackLinks(c: seq<Handle>)
    reads c`hhPrev
  {
    forall i {:trigger c[i].hhPrev} :: 0 <= i < |c| ==> c[i].hhPrev == if i == 0 then null else c[i - 1]
  }

  ghost predicate PrevLinks(s: seq<Handle>)
    reads s`prev
  {
    forall i {:trigger s[i].prev} :: 0 <= i < |s| ==> s[i].prev == if i == 0 then null else s[i - 1]
  }

  ghost predicate Onward(s: seq<Handle>)
    reads s`next
  {
    forall i {:trigger s[i].next} :: 0 <= i < |s| ==> s[i].next == if i + 1 == |s| then null else s[i + 1]
  }

  /** One bucket of HASH_FSCK: whether every hh_prev is the element before, and how many elements there are. */
  method WalkChain(hd: Handle?, ghost c: seq<Handle>) returns (good: bool, n: nat)
    requires Forward(hd, c)
    ensures good <==> BackLinks(c)
    ensures good ==> n == |c|
  {
    good, n := true, 0;
    var thh, prev: Handle? := hd, null;
    while thh != null
      invariant n <= |c| && thh == (if n == |c| then null else c[n]) && prev == if n == 0 then null else c[n - 1]
      invariant forall i {:trigger c[i].hhPrev} :: 0 <= i < n ==> c[i].hhPrev == if i == 0 then null else c[i - 1]
      decreases |c| - n
    {
      if prev != thh.hhPrev {
        assert c[n].hhPrev != prev;
        return false, n;
      }
      n := n + 1;
      prev := thh;
      thh := thh.hhNext;
    }
  }

  /** The application-order half of HASH_FSCK. */
  method WalkList(head: Handle, ghost s: seq<Handle>) returns (good: bool, n: nat)
    requires s != [] && head == s[0] && Onward(s)
    ensures good <==> PrevLinks(s)
    ensures good ==> n == |s|
  {
    good, n := true, 0;
    var thh, prev: Handle? := head, null;
    while thh != null
      invariant n <= |s| && thh == (if n == |s| then null else s[n]) && prev == if n == 0 then null else s[n - 1]
      invariant forall i {:trigger s[i].prev} :: 0 <= i < n ==> s[i].prev == if i == 0 then null else s[i - 1]
      decreases |s| - n
    {
      if prev != thh.prev {
        assert s[n].prev != prev;
        return false, n + 1;
      }
      n := n + 1;
      prev := thh;
      thh := thh.next;
    }
  }

  /** Following the forward links visits `chains` bucket by bucket, and the list `s`. */
  ghost predicate Walkable(t: Table, head: Handle, chains: seq<seq<Handle>>, s: seq<Handle>)
    reads t`buckets, t`numBuckets, t.buckets, s`next, AllOf(chains)`hhNext
  {
    && t.numBuckets == t.buckets.Length == |chains| && s != [] && head == s[0] && Onward(s)
    && forall b {:trigger chains[b]} :: 0 <= b < |chains| ==> Forward(t.buckets[b].hhHead, chains[b])
  }

  ghost function AllOf(chains: seq<seq<Handle>>): set<Handle> {
    set b, i | 0 <= b < |chains| && 0 <= i < |chains[b]| :: chains[b][i]
  }

  /** What the check looks at: back links and counts of every bucket, the totals, and the list's back links. */
  ghost predicate Consistent(t: Table, chains: seq<seq<Handle>>, s: seq<Handle>)
    reads t`buckets, t`numItems, t.buckets, s`prev, AllOf(chains)`hhPrev
  {
    && t.buckets.Length == |chains| && TotalLen(chains) == t.numItems && PrevLinks(s) && |s| == t.numItems
    && forall b {:trigger chains[b]} :: 0 <= b < |chains| ==> BackLinks(chains[b]) && t.buckets[b].count == |chains[b]|
  }

  /** HASH_FSCK on any table whose forward links can be walked: it reports nothing exactly when all back links and
      counts are right. */
  method Fsck(head: Handle?, ghost chains: seq<seq<Handle>>, ghost s: seq<Handle>) returns (ok: bool)
    requires head != null ==> head.tbl != null && Walkable(head.tbl, head, chains, s)
    ensures ok <==> head == null || Consistent(head.tbl, chains, s)
  {
    hide TotalLen, Forward, Onward, BackLinks, PrevLinks, NoDup;
    if head == null {
      return true;
    }
    var t := head.tbl;
    var i, count := 0, 0;
    LenNone(chains);
    while i < t.numBuckets
      invariant i <= |chains| && count == TotalLen(chains[..i])
      invariant forall b {:trigger chains[b]} :: 0 <= b < i ==>
        BackLinks(chains[b]) && t.buckets[b].count == |chains[b]|
    {
      var good, n := WalkChain(t.buckets[i].hhHead, chains[i]);
      if !good || t.buckets[i].count != n {
        return false;
      }
      LenNext(chains, i);
      count := count + n;
      i := i + 1;
    }
    assert chains[..i] == chains;
    if count != t.numItems {
      return false;
    }
    var good, n := WalkList(head, s);
    return good && n == t.numItems;
  }

  lemma LenNone(chains: seq<seq<Handle>>)
    ensures TotalLen(chains[..0]) == 0
  {
  }

  /** So it finds nothing to report in a valid hash. */
  lemma ValidPasses(h: Hash)
    requires h.Valid() && h.head != null
    ensures h.head.tbl == h.tbl && Walkable(h.tbl, h.head, h.tbl.chains, h.order)
    ensures Consistent(h.tbl, h.tbl.chains, h.order)
  {
    hide TotalLen, LowBits;
    CountsAddUp(h);
    var t := h.tbl;
    assert forall b {:trigger t.chains[b]} :: 0 <= b < |t.chains| ==>
      Chain(t.buckets[b].hhHead, t.chains[b]) && t.buckets[b].count == |t.chains[b]|;
  }

  lemma LenNext(chains: seq<seq<Handle>>, i: nat)
    requires i < |chains|
    ensures TotalLen(chains[..i + 1]) == TotalLen(chains[..i]) + |chains[i]|
  {
    assert chains[..i + 1][..i] == chains[..i];
  }

  /** All four links of an element are functions of the list and the chains. */
  lemma LinksAre(h: Hash, x: Handle)
    requires h.Valid() && x in h.order
    ensures x.prev == Before(h.order, x) && x.next == After(h.order, x)
    ensures var c := h.State().shape.chains[BucketOf(h.State().shape, x)];
            x in c && x.hhPrev == Before(c, x) && x.hhNext == After(c, x)
  {
    assert x in h.tbl.items;
  }
}
