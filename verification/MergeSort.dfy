/** HASH_SRT: a bottom-up merge sort on the links of the application-order list. */
module MergeSort {
  import opened HashTable
  import opened AppList
  import opened StableSort
  import opened UtHash

  // ---------- the passes, on sequences ----------

  function Min(a: nat, b: nat): nat { if a < b then a else b }

  /** One pass: merge the first two runs of length `k`, then go on behind them. */
  ghost function Pass(s: seq<Handle>, k: nat, cmp: (Cache, Cache) -> int): seq<Handle>
    requires k > 0
    decreases |s|
  {
    if s == [] then []
    else
      Merge(s[..Min(k, |s|)], s[Min(k, |s|)..Min(2 * k, |s|)], cmp) + Pass(s[Min(2 * k, |s|)..], k, cmp)
  }

  /** `s` cut into blocks of length `k`, each sorted. */
  ghost function Blocks(s: seq<Handle>, k: nat, cmp: (Cache, Cache) -> int): seq<Handle>
    requires k > 0
    decreases |s|
  {
    if |s| <= k then SortOf(s, cmp) else SortOf(s[..k], cmp) + Blocks(s[k..], k, cmp)
  }

  lemma {:induction false} BlocksOfOne(s: seq<Handle>, cmp: (Cache, Cache) -> int)
    ensures Blocks(s, 1, cmp) == s
    decreases |s|
  {
    if |s| == 1 {
      assert s[..0] == [];
      assert SortOf(s, cmp) == Ins([], s[0], cmp) == s;
    } else if |s| > 1 {
      BlocksOfOne(s[1..], cmp);
      BlocksOfOne(s[..1], cmp);
    }
  }

  lemma {:induction false} BlocksLength(s: seq<Handle>, k: nat, cmp: (Cache, Cache) -> int)
    requires k > 0 && TotalPreorder(cmp)
    ensures |Blocks(s, k, cmp)| == |s|
    decreases |s|
  {
    if |s| <= k {
      SortedIsRanked(s, cmp);
    } else {
      SortedIsRanked(s[..k], cmp);
      BlocksLength(s[k..], k, cmp);
    }
  }

  lemma SortLength(s: seq<Handle>, cmp: (Cache, Cache) -> int)
    requires TotalPreorder(cmp)
    ensures |SortOf(s, cmp)| == |s|
  {
    SortedIsRanked(s, cmp);
  }

  /** A pass over one run. */
  lemma PassOne(c: seq<Handle>, k: nat, cmp: (Cache, Cache) -> int)
    requires 0 < k && |c| <= k
    ensures Pass(c, k, cmp) == c
  {
    hide Merge;
    if c != [] {
      assert c[..|c|] == c && c[|c|..] == [];
      MergeEmpty(c, cmp);
    }
  }

  /** A pass over a full run, a second run, and what follows a full second run. */
  lemma PassTwo(x: seq<Handle>, y: seq<Handle>, z: seq<Handle>, k: nat, cmp: (Cache, Cache) -> int)
    requires 0 < k == |x| && |y| <= k && (|y| < k ==> z == [])
    ensures Pass(x + (y + z), k, cmp) == Merge(x, y, cmp) + Pass(z, k, cmp)
  {
    hide Merge;
    var c := x + (y + z);
    assert c[..k] == x && c[k..Min(2 * k, |c|)] == y && c[Min(2 * k, |c|)..] == z;
  }

  /** Two neighbouring blocks, and what follows a full second block. */
  lemma BlocksTwo(a: seq<Handle>, b: seq<Handle>, u: seq<Handle>, k: nat, cmp: (Cache, Cache) -> int)
    requires 0 < k == |a| && 0 < |b| <= k && (|b| < k ==> u == [])
    ensures Blocks(a + (b + u), k, cmp) == SortOf(a, cmp) + (SortOf(b, cmp) + Blocks(u, k, cmp))
    ensures Blocks(a + (b + u), 2 * k, cmp) == SortOf(a + b, cmp) + Blocks(u, 2 * k, cmp)
  {
    hide SortOf;
    var s, t := a + (b + u), b + u;
    assert s[..k] == a && s[k..] == t;
    SortNone(cmp);
    if u == [] {
      assert t == b && s == a + b;
    } else {
      assert t[..k] == b && t[k..] == u;
      assert s[..2 * k] == a + b && s[2 * k..] == u;
    }
  }

  lemma SortNone(cmp: (Cache, Cache) -> int)
    ensures SortOf([], cmp) == []
  {
  }

  /** A pass over sorted blocks doubles their length. */
  lemma {:induction false} PassDoubles(s: seq<Handle>, k: nat, cmp: (Cache, Cache) -> int)
    requires k > 0 && TotalPreorder(cmp)
    ensures Pass(Blocks(s, k, cmp), k, cmp) == Blocks(s, 2 * k, cmp)
    decreases |s|
  {
    hide TotalPreorder, SortOf, Merge, Pass;
    if |s| <= k {
      SortLength(s, cmp);
      PassOne(SortOf(s, cmp), k, cmp);
    } else {
      var a, b, u := s[..k], s[k..Min(2 * k, |s|)], s[Min(2 * k, |s|)..];
      assert s == a + (b + u);
      SortLength(a, cmp);
      SortLength(b, cmp);
      MergeSorted(a, b, cmp);
      BlocksTwo(a, b, u, k, cmp);
      BlocksNone(u, k, cmp);
      PassTwo(SortOf(a, cmp), SortOf(b, cmp), Blocks(u, k, cmp), k, cmp);
      PassDoubles(u, k, cmp);
    }
  }

  lemma BlocksNone(u: seq<Handle>, k: nat, cmp: (Cache, Cache) -> int)
    requires k > 0
    ensures u == [] ==> Blocks(u, k, cmp) == []
  {
  }

  lemma MergeEmpty(a: seq<Handle>, cmp: (Cache, Cache) -> int)
    ensures Merge(a, [], cmp) == a && Merge([], a, cmp) == a
  {
  }

  // ---------- the links during a pass ----------

  /** Forward links from `hd` through `s`; the last one is null. */
  ghost predicate Rest(hd: Handle?, s: seq<Handle>)
    reads s`next
  {
    && NoDup(s) && hd == First(s)
    && (forall i {:trigger s[i].next} :: 0 <= i < |s| ==> s[i].next == if i + 1 == |s| then null else s[i + 1])
  }

  /** Forward links from `hd` inside the run `s`; the last one may point anywhere. */
  ghost predicate RunAt(hd: Handle?, s: seq<Handle>)
    reads s`next
  {
    && NoDup(s) && (s != [] ==> hd == s[0])
    && (forall i {:trigger s[i].next} :: 0 <= i < |s| - 1 ==> s[i].next == s[i + 1])
  }

  /** The list built so far, linked both ways; the last next is still to be set. */
  ghost predicate Built(list: Handle?, tail: Handle?, s: seq<Handle>)
    reads s`next, s`prev
  {
    && NoDup(s) && list == First(s) && tail == (if s == [] then null else s[|s| - 1])
    && (forall i {:trigger s[i].next} :: 0 <= i < |s| - 1 ==> s[i].next == s[i + 1])
    && (forall i {:trigger s[i].prev} :: 0 <= i < |s| ==> s[i].prev == if i == 0 then null else s[i - 1])
  }

  ghost predicate Apart(s: seq<Handle>, t: seq<Handle>) {
    forall i, j {:trigger s[i], t[j]} :: 0 <= i < |s| && 0 <= j < |t| ==> s[i] != t[j]
  }

  ghost predicate Among(s: seq<Handle>, all: set<Handle>) {
    forall i {:trigger s[i]} :: 0 <= i < |s| ==> s[i] in all
  }

  /** The state of a merge: `out` built, `ps` left of the first run, `qr` from q on. */
  ghost predicate Merging(p: Handle?, q: Handle?, list: Handle?, tail: Handle?,
                          out: seq<Handle>, ps: seq<Handle>, qr: seq<Handle>, all: set<Handle>)
    reads all`next, all`prev
  {
    && Among(out, all) && Among(ps, all) && Among(qr, all)
    && Built(list, tail, out) && RunAt(p, ps) && Rest(q, qr)
    && Apart(out, ps) && Apart(out, qr) && Apart(ps, qr)
  }

  /** Append `e` to the list being built. */
  method Link(list: Handle?, tail: Handle?, e: Handle, ghost out: seq<Handle>) returns (l: Handle)
    requires Built(list, tail, out) && e !in out
    modifies out`next, e`prev
    ensures Built(l, e, out + [e])
    ensures e.next == old(e.next)
  {
    if tail != null {
      tail.next := e;
      l := list;
    } else {
      l := e;
    }
    e.prev := tail;
  }

  /** Move the first element of the first run to the list being built. */
  method TakeP(p0: Handle, q: Handle?, list: Handle?, tail: Handle?,
               ghost out: seq<Handle>, ghost ps: seq<Handle>, ghost qr: seq<Handle>, ghost all: set<Handle>)
    returns (p: Handle?, l: Handle)
    requires Merging(p0, q, list, tail, out, ps, qr, all) && ps != []
    modifies all`next, all`prev
    ensures Merging(p, q, l, p0, out + [ps[0]], ps[1..], qr, all)
  {
    var e := p0;
    p := p0.next;
    l := Link(list, tail, e, out);
  }

  /** Move the first element from q on to the list being built. */
  method TakeQ(p: Handle?, q0: Handle, list: Handle?, tail: Handle?,
               ghost out: seq<Handle>, ghost ps: seq<Handle>, ghost qr: seq<Handle>, ghost all: set<Handle>)
    returns (q: Handle?, l: Handle)
    requires Merging(p, q0, list, tail, out, ps, qr, all) && qr != []
    modifies all`next, all`prev
    ensures Merging(p, q, l, q0, out + [qr[0]], ps, qr[1..], all)
  {
    var e := q0;
    q := q0.next;
    l := Link(list, tail, e, out);
  }

  /** The inner merge loop: the run `ps0` from p and at most `size` elements from q. */
  method MergeRuns(p0: Handle, psize0: nat, q0: Handle?, size: nat, list0: Handle?, tail0: Handle?, cmp: (Cache,
      Cache) -> int,
                   ghost out0: seq<Handle>, ghost ps0: seq<Handle>, ghost qr0: seq<Handle>, ghost all: set<Handle>)
    returns (q: Handle?, list: Handle?, tail: Handle?)
    requires Merging(p0, q0, list0, tail0, out0, ps0, qr0, all) && psize0 == |ps0|
    modifies all`next, all`prev
    ensures var n := Min(size, |qr0|);
            Merging(null, q, list, tail, out0 + Merge(ps0, qr0[..n], cmp), [], qr0[n..], all)
  {
    hide Built, RunAt, Rest, Apart, Among, Merge, Gt;
    var p: Handle?, psize, qsize := p0, psize0, size;
    q, list, tail := q0, list0, tail0;
    ghost var out, ps, qr, n := out0, ps0, qr0, Min(size, |qr0|);
    while psize != 0 || (qsize != 0 && q != null)
      invariant Merging(p, q, list, tail, out, ps, qr, all) && psize == |ps| && n <= |qr| && n == Min(qsize, |qr|)
      invariant out + Merge(ps, qr[..n], cmp) == out0 + Merge(ps0, qr0[..Min(size, |qr0|)], cmp)
      invariant qr[n..] == qr0[Min(size, |qr0|)..]
      decreases psize + n
    {
      Ends(p, q, list, tail, out, ps, qr, all);
      if psize == 0 || (qsize != 0 && q != null && Gt(p, q, cmp)) {
        MergeQ(ps, qr[..n], cmp);
        var e := q;
        ghost var x := qr[0];
        q, list := TakeQ(p, q, list, tail, out, ps, qr, all);
        tail := e;
        assert qr[..n][1..] == qr[1..][..n - 1] && qr[1..][n - 1..] == qr[n..];
        Shift(out, x, Merge(ps, qr[1..][..n - 1], cmp));
        out, qr, n, qsize := out + [x], qr[1..], n - 1, qsize - 1;
      } else {
        MergeP(ps, qr[..n], cmp);
        var e := p;
        ghost var x := ps[0];
        p, list := TakeP(p, q, list, tail, out, ps, qr, all);
        tail := e;
        Shift(out, x, Merge(ps[1..], qr[..n], cmp));
        out, ps, psize := out + [x], ps[1..], psize - 1;
      }
    }
    Ends(p, q, list, tail, out, ps, qr, all);
    assert qr[..n] == [] && out + [] == out;
    MergeNone(cmp);
    EmptyRun(p, q, list, tail, out, qr, all);
  }

  lemma Ends(p: Handle?, q: Handle?, list: Handle?, tail: Handle?,
             out: seq<Handle>, ps: seq<Handle>, qr: seq<Handle>, all: set<Handle>)
    requires Merging(p, q, list, tail, out, ps, qr, all)
    ensures q == First(qr) && (ps != [] ==> p == ps[0])
  {
  }

  lemma EmptyRun(p: Handle?, q: Handle?, list: Handle?, tail: Handle?, out: seq<Handle>, qr: seq<Handle>,
      all: set<Handle>)
    requires Merging(p, q, list, tail, out, [], qr, all)
    ensures Merging(null, q, list, tail, out, [], qr, all)
  {
  }

  lemma Shift(out: seq<Handle>, x: Handle, rest: seq<Handle>)
    ensures out + ([x] + rest) == (out + [x]) + rest
  {
  }

  lemma MergeNone(cmp: (Cache, Cache) -> int)
    ensures Merge([], [], cmp) == []
  {
  }

  lemma MergeQ(a: seq<Handle>, b: seq<Handle>, cmp: (Cache, Cache) -> int)
    requires b != [] && (a != [] ==> Gt(a[0], b[0], cmp))
    ensures Merge(a, b, cmp) == [b[0]] + Merge(a, b[1..], cmp)
  {
  }

  lemma MergeP(a: seq<Handle>, b: seq<Handle>, cmp: (Cache, Cache) -> int)
    requires a != [] && (b != [] ==> !Gt(a[0], b[0], cmp))
    ensures Merge(a, b, cmp) == [a[0]] + Merge(a[1..], b, cmp)
  {
    if b == [] { MergeEmpty(a[1..], cmp); }
  }

  /** The counting loop that finds the second run. */
  method FindRunEnd(p: Handle, insize: nat, ghost s: seq<Handle>) returns (q: Handle?, psize: nat)
    requires Rest(p, s) && s != [] && insize >= 1
    ensures psize == Min(insize, |s|) && q == if psize < |s| then s[psize] else null
  {
    q, psize := p, 0;
    for i := 0 to insize
      invariant psize == i < |s| && q == s[i]
    {
      psize := psize + 1;
      q := q.next;
      if q == null {
        return;
      }
    }
  }

  lemma SplitRest(p: Handle, q: Handle?, list: Handle?, tail: Handle?, out: seq<Handle>, rest: seq<Handle>, n: nat,
      all: set<Handle>)
    requires Merging(null, p, list, tail, out, [], rest, all) && n <= |rest|
      && q == if n < |rest| then rest[n] else null
    ensures Merging(p, q, list, tail, out, rest[..n], rest[n..], all)
  {
  }

  lemma EmptyStart(p: Handle?, cur: seq<Handle>, all: set<Handle>)
    requires Rest(p, cur) && Among(cur, all)
    ensures Merging(null, p, null, null, [], [], cur, all)
  {
  }

  /** One pass over the list, merging runs of `insize` elements two by two. */
  method OnePass(list0: Handle?, insize: nat, cmp: (Cache, Cache) -> int, ghost cur: seq<Handle>,
      ghost all: set<Handle>)
    returns (list: Handle?, tail: Handle?, nmerges: nat)
    requires Rest(list0, cur) && Among(cur, all) && insize >= 1
    modifies all`next, all`prev
    ensures Built(list, tail, Pass(cur, insize, cmp)) && Rest(list, Pass(cur, insize, cmp))
      && Among(Pass(cur, insize, cmp), all)
    ensures nmerges <= 1 <==> |cur| <= 2 * insize
  {
    hide Built, RunAt, Rest, Apart, Among, FirstMerge, Merging, Pass;
    var p := list0;
    list, tail, nmerges := null, null, 0;
    ghost var out: seq<Handle>, rest := [], cur;
    assert [] + Pass(cur, insize, cmp) == Pass(cur, insize, cmp);
    EmptyStart(p, cur, all);
    Ends(null, p, list, tail, out, [], rest, all);
    while p != null
      invariant Merging(null, p, list, tail, out, [], rest, all) && p == First(rest)
      invariant out + Pass(rest, insize, cmp) == Pass(cur, insize, cmp)
      invariant nmerges == 0 ==> rest == cur
      invariant nmerges == 1 ==> rest == cur[Min(2 * insize, |cur|)..]
      invariant nmerges >= 2 ==> |cur| > 2 * insize
      decreases |rest|
    {
      nmerges := nmerges + 1;
      ghost var two := PassStep(out, rest, insize, cmp);
      p, list, tail := MergeTwo(p, insize, list, tail, cmp, out, rest, all);
      out, rest := out + FirstMerge(rest, insize, cmp), rest[two..];
    }
    PassDone(out, insize, cmp);
    Parts(null, p, list, tail, out, [], rest, all);
    Finish(list, tail, out);
  }

  /** The merge of the first two runs of `s`. */
  ghost function FirstMerge(s: seq<Handle>, k: nat, cmp: (Cache, Cache) -> int): seq<Handle> {
    Merge(s[..Min(k, |s|)], s[Min(k, |s|)..][..Min(k, |s| - Min(k, |s|))], cmp)
  }

  /** The body of a pass: find the second run and merge it with the first. */
  method MergeTwo(p: Handle, insize: nat, list0: Handle?, tail0: Handle?, cmp: (Cache, Cache) -> int,
                  ghost out: seq<Handle>, ghost rest: seq<Handle>, ghost all: set<Handle>)
    returns (q: Handle?, list: Handle?, tail: Handle?)
    requires Merging(null, p, list0, tail0, out, [], rest, all) && rest != [] && insize >= 1
    modifies all`next, all`prev
    ensures Merging(null, q, list, tail, out + FirstMerge(rest, insize, cmp), [], rest[Min(2 * insize, |rest|)..], all)
    ensures q == First(rest[Min(2 * insize, |rest|)..])
  {
    hide Built, RunAt, Rest, Apart, Among, Merge, Merging;
    Parts(null, p, list0, tail0, out, [], rest, all);
    var psize;
    q, psize := FindRunEnd(p, insize, rest);
    SplitRest(p, q, list0, tail0, out, rest, psize, all);
    ghost var n := Min(insize, |rest| - psize);
    TwoRuns(rest, psize, n);
    q, list, tail := MergeRuns(p, psize, q, insize, list0, tail0, cmp, out, rest[..psize], rest[psize..], all);
    Ends(null, q, list, tail, out + FirstMerge(rest, insize, cmp), [], rest[psize + n..], all);
  }

  lemma PassStep(out: seq<Handle>, rest: seq<Handle>, k: nat, cmp: (Cache, Cache) -> int) returns (two: nat)
    requires k > 0 && rest != []
    ensures two == Min(2 * k, |rest|)
    ensures out + Pass(rest, k, cmp) == out + FirstMerge(rest, k, cmp) + Pass(rest[two..], k, cmp)
  {
    hide Merge;
    two := Min(2 * k, |rest|);
    var m := Min(k, |rest|);
    var n := Min(k, |rest| - m);
    TwoRuns(rest, m, n);
    var x, y := Merge(rest[..m], rest[m..two], cmp), Pass(rest[two..], k, cmp);
    assert Pass(rest, k, cmp) == x + y;
    assert out + (x + y) == out + x + y;
  }

  lemma TwoRuns(s: seq<Handle>, m: nat, n: nat)
    requires m + n <= |s|
    ensures s[m..][..n] == s[m..m + n] && s[m..][n..] == s[m + n..]
  {
  }

  lemma PassDone(out: seq<Handle>, k: nat, cmp: (Cache, Cache) -> int)
    requires k > 0
    ensures out + Pass([], k, cmp) == out
  {
  }

  lemma Parts(p: Handle?, q: Handle?, list: Handle?, tail: Handle?,
              out: seq<Handle>, ps: seq<Handle>, qr: seq<Handle>, all: set<Handle>)
    requires Merging(p, q, list, tail, out, ps, qr, all)
    ensures Built(list, tail, out) && Rest(q, qr) && Among(out, all) && (tail != null ==> tail in out)
      && (out == [] ==> tail == null)
  {
  }

  /** The null that ends the list after a pass. */
  method Finish(list: Handle?, tail: Handle?, ghost out: seq<Handle>)
    requires Built(list, tail, out)
    modifies out`next
    ensures Built(list, tail, out) && Rest(list, out)
  {
    if tail != null {
      tail.next := null;
    }
  }

  /** The sorting loop on the links: passes with doubled run length until one merge was enough. */
  method SortLinks(head: Handle, cmp: (Cache, Cache) -> int, ghost s: seq<Handle>)
    returns (list: Handle, tail: Handle)
    requires TotalPreorder(cmp) && s != [] && head == s[0] && Linked(s)
    modifies s`next, s`prev
    ensures var r := SortOf(s, cmp); r != [] && Linked(r) && list == r[0] && tail == r[|r| - 1]
  {
    hide Built, Rest, Among, TotalPreorder, SortOf, Linked, Blocks, Pass;
    var insize, looping := 1, true;
    var l: Handle?, t: Handle? := head, null;
    ghost var all := Elements(s);
    ghost var cur := s;
    SortStart(s, cmp);
    while looping
      invariant insize >= 1 && looping ==> cur == Blocks(s, insize, cmp) && |s| == |cur|
      invariant insize >= 1 && Rest(l, cur) && Among(cur, all)
      invariant !looping ==> cur == SortOf(s, cmp) && Built(l, t, cur)
      decreases looping, 2 * |s| - insize
    {
      var n;
      ghost var was := cur;
      l, t, n := OnePass(l, insize, cmp, cur, all);
      cur := Pass(cur, insize, cmp);
      PassDoubles(s, insize, cmp);
      BlocksLength(s, 2 * insize, cmp);
      if n <= 1 {
        looping := false;
        LastPass(s, 2 * insize, cmp);
      }
      insize := insize * 2;
    }
    SortedIsRanked(s, cmp);
    BuiltIsLinked(l, t, cur);
    list, tail := l, t;
  }

  lemma SortStart(s: seq<Handle>, cmp: (Cache, Cache) -> int)
    requires s != [] && Linked(s)
    ensures Rest(s[0], s) && Among(s, Elements(s)) && s == Blocks(s, 1, cmp)
  {
    BlocksOfOne(s, cmp);
  }

  lemma LastPass(s: seq<Handle>, k: nat, cmp: (Cache, Cache) -> int)
    requires 0 < k && |s| <= k
    ensures Blocks(s, k, cmp) == SortOf(s, cmp)
  {
  }

  lemma BuiltIsLinked(l: Handle?, t: Handle?, s: seq<Handle>)
    requires Built(l, t, s) && Rest(l, s)
    ensures Linked(s) && l == First(s) && (s != [] ==> t == s[|s| - 1])
  {
  }

  lemma SameMembers(s: seq<Handle>, t: seq<Handle>)
    requires multiset(s) == multiset(t)
    ensures Elements(s) == Elements(t) && |s| == |t|
    ensures forall i :: 0 <= i < |t| ==> t[i] in s
  {
    assert |multiset(s)| == |s| && |multiset(t)| == |t|;
    forall h: Handle | true ensures h in s <==> h in t {
      assert h in s <==> h in multiset(s);
      assert h in t <==> h in multiset(t);
    }
  }

  lemma UniquePermuted(s: seq<Handle>, t: seq<Handle>)
    requires UniqueKeys(s) && NoDup(t) && forall i :: 0 <= i < |t| ==> t[i] in s
    ensures UniqueKeys(t)
  {
    forall i, j | 0 <= i < j < |t|
      ensures !(t[i].hv == t[j].hv && t[i].elt.id == t[j].elt.id)
    {
      var a :| 0 <= a < |s| && s[a] == t[i];
      var b :| 0 <= b < |s| && s[b] == t[j];
      assert a != b;
    }
  }

  /** HASH_SRT: the list becomes the stable sort of what it was; the table stays. */
  method Srt(h: Hash, cmp: (Cache, Cache) -> int)
    requires h.Valid() && TotalPreorder(cmp)
    modifies h`head, h`order, h.Repr(), h.order
    ensures h.Valid() && h.tbl == old(h.tbl) && h.Repr() == old(h.Repr())
    ensures h.State() == Model(SortOf(old(h.order), cmp), old(h.State().shape))
    ensures Ascends(h.order, cmp)
  {
    hide Hash.Valid, Hash.State, Hash.Threaded, Hash.Separate, Hash.Holds, Hash.FilterOk, Table.Valid, Table.ValidBut;
    hide TotalPreorder, SortOf, Linked, UniqueKeys, NoDup, Elements, Table.State, Ranked, Ascends;
    h.Heads();
    SortEmpty(cmp);
    SortAscends(h.order, cmp);
    if h.head != null {
      h.SameTable();
      var list, tail := SortLinks(h.head, cmp, h.order);
      SortedIsRanked(h.order, cmp);
      SetEnds(h, list, tail, SortOf(h.order, cmp));
    }
    h.StateOrder();
  }

  /** The head and tail of the sorted list. */
  method SetEnds(h: Hash, list: Handle, tail: Handle, ghost r: seq<Handle>)
    requires h.head != null && h.tbl != null && h.head.tbl == h.tbl && h.order != []
    requires r != [] && Linked(r) && list == r[0] && tail == r[|r| - 1] && multiset(r) == multiset(h.order)
    requires h.tbl.Valid() && h.tbl.items == Elements(h.order) && h.tbl.numItems == |h.order|
    requires forall i :: 0 <= i < |h.order| ==> h.order[i].tbl == h.tbl
    requires UniqueKeys(h.order) && h.FilterOk(h.tbl.bloom, h.order) && h.Separate()
    modifies h`head, h`order, h.tbl`tail
    ensures h.Valid() && h.tbl == old(h.tbl) && h.Repr() == old(h.Repr())
    ensures h.State() == Model(r, old(h.State().shape))
  {
    hide Hash.Valid, Hash.Threaded, Hash.Separate, Hash.Holds, Hash.FilterOk, Table.Valid, Table.ValidBut, Table.State;
    hide Linked, UniqueKeys;
    SameMembers(h.order, r);
    LinkedNoDup(r);
    UniquePermuted(h.order, r);
    h.FilterMembers(h.order, r);
    h.head.tbl.tail := tail;
    h.head := list;
    h.order := r;
    h.HoldsNow();
    h.ThreadNow();
    h.MakeValid();
  }

  lemma SortEmpty(cmp: (Cache, Cache) -> int)
    ensures SortOf([], cmp) == []
  {
  }

  lemma LinkedNoDup(s: seq<Handle>)
    requires Linked(s)
    ensures NoDup(s)
  {
  }
}
