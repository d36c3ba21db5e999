/** The bucket side of a table: chains, bucket arrays, and bucket expansion. */
module HashTable {
  import opened Words
  import opened BloomFilter

  datatype Key = Key(bytes: seq<Octet>)

  /** The element the registry keeps: back end, its context, and the id the table is keyed by. */
  datatype Cache = Cache(id: Key, fn: nat, ctx: nat)

  /** An element with its embedded hash handle; element and handle addresses are one object here. */
  class Handle {
    const elt: Cache
    ghost const hv: Word  // the value HASH_VALUE gives for the element's key
    var tbl: Table?
    var prev: Handle?
    var next: Handle?
    var hhPrev: Handle?
    var hhNext: Handle?
    var hashv: Word

    constructor (e: Cache, ghost v: Word)
      ensures elt == e && hv == v
    {
      elt, hv, hashv := e, v, 0;
      tbl, prev, next, hhPrev, hhNext := null, null, null, null, null;
    }
  }

  datatype Bucket = Bucket(hhHead: Handle?, count: nat, expandMult: nat)

  const EMPTY_BUCKET := Bucket(null, 0, 0)
  const INITIAL_NUM_BUCKETS: nat := 32
  const INITIAL_NUM_BUCKETS_LOG2: nat := 5
  const BKT_CAPACITY_THRESH: nat := 10

  ghost predicate NoDup(s: seq<Handle>) {
    forall i, j :: 0 <= i < j < |s| ==> s[i] != s[j]
  }

  /** `c` is a doubly linked bucket chain starting at `hd`. */
  ghost predicate Chain(hd: Handle?, c: seq<Handle>)
    reads c`hhPrev, c`hhNext
  {
    && NoDup(c)
    && hd == (if c == [] then null else c[0])
    && (forall i {:trigger c[i].hhPrev} :: 0 <= i < |c| ==> c[i].hhPrev == if i == 0 then null else c[i - 1])
    && (forall i {:trigger c[i].hhNext} :: 0 <= i < |c| ==> c[i].hhNext == if i + 1 == |c| then null else c[i + 1])
  }

  /** Only the forward links of a chain. */
  ghost predicate Forward(hd: Handle?, c: seq<Handle>)
    reads c`hhNext
  {
    && NoDup(c)
    && hd == (if c == [] then null else c[0])
    && (forall i {:trigger c[i].hhNext} :: 0 <= i < |c| ==> c[i].hhNext == if i + 1 == |c| then null else c[i + 1])
  }

  /** The sequence without its element `i`, if it has one. */
  ghost function Without(c: seq<Handle>, i: nat): seq<Handle> {
    if i < |c| then c[..i] + c[i + 1..] else c
  }

  const NONE: int := -1

  /** Bucket heads and counts describe the chains; the count of bucket `extra`, if any, is one too high. */
  ghost predicate ChainsOk(bks: array<Bucket>, chains: seq<seq<Handle>>, items: set<Handle>, extra: int)
    reads bks, items`hhPrev, items`hhNext
  {
    && bks.Length == |chains| && AllIn(chains, items)
    && forall b {:trigger chains[b]} :: 0 <= b < |chains| ==>
         bks[b].count == |chains[b]| + (if b == extra then 1 else 0) && Chain(bks[b].hhHead, chains[b])
  }

  /** Every item is in the chain its hash value selects, and the chains hold nothing else. */
  ghost predicate Placed(items: set<Handle>, chains: seq<seq<Handle>>, k: nat) {
    && |chains| == Pow2(k)
    && (forall b, i {:trigger chains[b][i]} :: 0 <= b < |chains| && 0 <= i < |chains[b]| ==>
          chains[b][i] in items && LowBits(chains[b][i].hv, k) == b)
    && (forall h :: h in items ==> h in chains[LowBits(h.hv, k)])
  }

  /** Each chain holds only items whose hash value selects it. */
  ghost predicate BySlot(chains: seq<seq<Handle>>, k: nat) {
    forall b, i {:trigger chains[b][i]} :: 0 <= b < |chains| && 0 <= i < |chains[b]| ==>
        LowBits(chains[b][i].hv, k) == b
  }

  ghost predicate AllIn(chains: seq<seq<Handle>>, items: set<Handle>) {
    forall b, i {:trigger chains[b][i]} :: 0 <= b < |chains| && 0 <= i < |chains[b]| ==> chains[b][i] in items
  }

  ghost predicate Apart(chains: seq<seq<Handle>>, c: seq<Handle>) {
    forall b, i {:trigger chains[b][i]} :: 0 <= b < |chains| && 0 <= i < |chains[b]| ==> chains[b][i] !in c
  }

  lemma PlacedAdd(items: set<Handle>, chains: seq<seq<Handle>>, k: nat, x: Handle)
    requires Placed(items, chains, k)
    ensures var b := LowBits(x.hv, k); Placed(items + {x}, chains[b := [x] + chains[b]], k)
  {
  }

  lemma PlacedRemove(items: set<Handle>, chains: seq<seq<Handle>>, k: nat, b: nat, i: nat)
    requires Placed(items, chains, k)
    requires b < |chains| && i < |chains[b]| && NoDup(chains[b])
    ensures var rest := chains[b := Without(chains[b], i)];
            Placed(items - {chains[b][i]}, rest, k) && AllIn(rest, items - {chains[b][i]})
                && |rest[b]| == |chains[b]| - 1
    ensures BySlot(chains, k)
  {
    var c, x := chains[b], chains[b][i];
    var r := c[..i] + c[i + 1..];
    assert forall h :: h in c && h != x ==> h in r;
    assert forall h :: h in r ==> h in c && h != x;
    assert x in chains[b];
  }

  // ---------- what expansion does, on sequences ----------

  ghost function Empties(n: nat): (r: seq<seq<Handle>>)
    ensures |r| == n && forall i :: 0 <= i < n ==> r[i] == []
  {
    seq(n, i => [])
  }

  /** The new chains after walking `c` from its front and pushing each item on its new chain. */
  ghost function Deal(nc: seq<seq<Handle>>, c: seq<Handle>, k: nat): (r: seq<seq<Handle>>)
    requires |nc| == Pow2(k)
    ensures |r| == |nc|
  {
    if c == [] then nc
    else
      var r := Deal(nc, c[..|c| - 1], k);
      var x := c[|c| - 1];
      r[LowBits(x.hv, k) := [x] + r[LowBits(x.hv, k)]]
  }

  /** The new chains after the first `i` old buckets have been dealt. */
  ghost function DealAll(chains: seq<seq<Handle>>, i: nat, k: nat): (r: seq<seq<Handle>>)
    requires i <= |chains|
    ensures |r| == Pow2(k)
  {
    if i == 0 then Empties(Pow2(k)) else Deal(DealAll(chains, i - 1, k), chains[i - 1], k)
  }

  ghost predicate InFirst(chains: seq<seq<Handle>>, i: nat, h: Handle)
    requires i <= |chains|
  {
    exists b :: 0 <= b < i && h in chains[b]
  }

  lemma {:induction false} DealMembers(nc: seq<seq<Handle>>, c: seq<Handle>, k: nat, j: nat, h: Handle)
    requires |nc| == Pow2(k) && j < |nc|
    ensures h in Deal(nc, c, k)[j] <==> h in nc[j] || (h in c && LowBits(h.hv, k) == j)
  {
    if c != [] {
      var d, x := c[..|c| - 1], c[|c| - 1];
      DealMembers(nc, d, k, j, h);
      assert c == d + [x];
      assert h in c <==> h in d || h == x;
    }
  }

  lemma {:induction false} DealAllMembers(chains: seq<seq<Handle>>, i: nat, k: nat, j: nat, h: Handle)
    requires i <= |chains| && j < Pow2(k)
    ensures h in DealAll(chains, i, k)[j] <==> InFirst(chains, i, h) && LowBits(h.hv, k) == j
  {
    if i > 0 {
      DealAllMembers(chains, i - 1, k, j, h);
      DealMembers(DealAll(chains, i - 1, k), chains[i - 1], k, j, h);
      assert InFirst(chains, i, h) <==> InFirst(chains, i - 1, h) || h in chains[i - 1];
    }
  }

  /** Doubling keeps every item, each in the new bucket its hash value selects. */
  lemma PlacedDealt(items: set<Handle>, chains: seq<seq<Handle>>, k: nat)
    requires Placed(items, chains, k)
    ensures Placed(items, DealAll(chains, |chains|, k + 1), k + 1)
  {
    var r := DealAll(chains, |chains|, k + 1);
    forall j, t | 0 <= j < |r| && 0 <= t < |r[j]|
      ensures r[j][t] in items && LowBits(r[j][t].hv, k + 1) == j
    {
      DealAllMembers(chains, |chains|, k + 1, j, r[j][t]);
    }
    forall h | h in items
      ensures h in r[LowBits(h.hv, k + 1)]
    {
      assert h in chains[LowBits(h.hv, k)];
      DealAllMembers(chains, |chains|, k + 1, LowBits(h.hv, k + 1), h);
    }
  }

  // ---------- chain-quality bookkeeping ----------

  /** expand_mult of a new bucket after `c` items were moved into it. */
  function ExpandMult(c: nat, l: nat): nat
  {
    if c == 0 then 0
    else
      var m := ExpandMult(c - 1, l);
      if c > l && c > m * l then m + 1 else m
  }

  function Over(n: nat, l: nat): nat { if n > l then n - l else 0 }

  /** Items beyond the ideal chain length, over all chains. */
  ghost function Excess(chains: seq<seq<Handle>>, l: nat): nat
  {
    if chains == [] then 0 else Excess(chains[..|chains| - 1], l) + Over(|chains[|chains| - 1]|, l)
  }

  lemma {:induction false} ExcessUpdate(chains: seq<seq<Handle>>, j: nat, c: seq<Handle>, l: nat)
    requires j < |chains|
    ensures Excess(chains[j := c], l) == Excess(chains, l) - Over(|chains[j]|, l) + Over(|c|, l)
  {
    var n := |chains| - 1;
    if j == n {
      assert chains[j := c][..n] == chains[..n];
    } else {
      assert chains[j := c][..n] == chains[..n][j := c];
      ExcessUpdate(chains[..n], j, c, l);
    }
  }

  lemma {:induction false} ExcessEmpties(n: nat, l: nat)
    ensures Excess(Empties(n), l) == 0
  {
    if n > 0 {
      assert Empties(n)[..n - 1] == Empties(n - 1);
      ExcessEmpties(n - 1, l);
    }
  }

  /** The number of trailing ineffective expansions. */
  ghost function Trailing(log: seq<bool>): nat {
    if log == [] || !log[|log| - 1] then 0 else 1 + Trailing(log[..|log| - 1])
  }

  /** Two consecutive expansions were ineffective. */
  ghost predicate TwoInARow(log: seq<bool>) {
    exists i, j {:trigger log[i], log[j]} :: 0 <= i && j == i + 1 && j < |log| && log[i] && log[j]
  }

  // ---------- the state of a table, as a value ----------

  /** Chains, multipliers and statistics; there are 2^(5 + |log|) buckets after |log| expansions. */
  datatype Shape = Shape(chains: seq<seq<Handle>>, mults: seq<nat>, ideal: nat, nonideal: nat, log: seq<bool>)

  ghost function Log2(s: Shape): nat { INITIAL_NUM_BUCKETS_LOG2 + |s.log| }

  ghost function BucketOf(s: Shape, x: Handle): nat { LowBits(x.hv, Log2(s)) }

  ghost function StartShape(): Shape {
    Shape(Empties(INITIAL_NUM_BUCKETS), seq(INITIAL_NUM_BUCKETS, i => 0), 0, 0, [])
  }

  /** One more item in bucket `b` makes the table expand. */
  ghost predicate Full(s: Shape, b: nat) {
    && b < |s.chains| && b < |s.mults|
    && |s.chains[b]| + 1 >= (s.mults[b] + 1) * BKT_CAPACITY_THRESH && !TwoInARow(s.log)
  }

  ghost function Pushed(s: Shape, x: Handle, b: nat): Shape {
    if b < |s.chains| then s.(chains := s.chains[b := [x] + s.chains[b]]) else s
  }

  ghost function MultsFor(chains: seq<seq<Handle>>, l: nat): seq<nat> {
    seq(|chains|, i requires 0 <= i < |chains| => ExpandMult(|chains[i]|, l))
  }

  /** The table after expanding with `n` items counted. */
  ghost function Doubled(s: Shape, n: nat): Shape {
    var nc := DealAll(s.chains, |s.chains|, Log2(s) + 1);
    var l := IdealChain(n, Log2(s) + 1);
    Shape(nc, MultsFor(nc, l), l, Excess(nc, l), s.log + [Excess(nc, l) > n / 2])
  }

  /** The table after adding `x` as the `n`th item. */
  ghost function WithItem(s: Shape, x: Handle, n: nat): Shape {
    var b := BucketOf(s, x);
    if Full(s, b) then Doubled(Pushed(s, x, b), n) else Pushed(s, x, b)
  }

  lemma DoubledLog(s: Shape, n: nat)
    ensures Log2(Doubled(s, n)) == Log2(s) + 1
  {
  }

  ghost function DropAt(s: Shape, b: nat, i: nat): Shape {
    if b < |s.chains| then s.(chains := s.chains[b := Without(s.chains[b], i)]) else s
  }

  ghost function Mults(bks: seq<Bucket>): seq<nat> {
    seq(|bks|, i requires 0 <= i < |bks| => bks[i].expandMult)
  }

  // ---------- bucket operations ----------

  /** Head insertion into a bucket chain; the caller keeps the count. */
  method PushBkt(bks: array<Bucket>, b: nat, x: Handle, ghost c: seq<Handle>)
    requires b < bks.Length && Chain(bks[b].hhHead, c) && x !in c
    modifies bks, x`hhPrev, x`hhNext, c`hhPrev
    ensures bks[..] == old(bks[..])[b := old(bks[b]).(hhHead := x)]
    ensures Chain(x, [x] + c)
  {
    x.hhNext := bks[b].hhHead;
    x.hhPrev := null;
    if bks[b].hhHead != null {
      bks[b].hhHead.hhPrev := x;
    }
    bks[b] := bks[b].(hhHead := x);
  }

  /** HASH_DEL_IN_BKT: `i` is the item's place in the chain, or |c| for an item whose links are already cleared. */
  method UnlinkBkt(bks: array<Bucket>, b: nat, x: Handle, ghost c: seq<Handle>, ghost i: nat)
    requires b < bks.Length && bks[b].count >= 1 && i <= |c| && Chain(bks[b].hhHead, c)
    requires i < |c| ==> c[i] == x
    requires i == |c| ==> x !in c && x.hhPrev == null && x.hhNext == null
    modifies bks, c`hhPrev, c`hhNext
    ensures bks[..] == old(bks[..])[b := Bucket(bks[b].hhHead, old(bks[b].count) - 1, old(bks[b].expandMult))]
    ensures i < |c| ==> Chain(bks[b].hhHead, c[..i] + c[i + 1..])
    ensures i == |c| ==> Chain(bks[b].hhHead, c)
    ensures x.hhPrev == old(x.hhPrev) && x.hhNext == old(x.hhNext)
  {
    bks[b] := bks[b].(count := bks[b].count - 1);
    if bks[b].hhHead == x {
      bks[b] := bks[b].(hhHead := x.hhNext);
    }
    if x.hhPrev != null {
      x.hhPrev.hhNext := x.hhNext;
    }
    if x.hhNext != null {
      x.hhNext.hhPrev := x.hhPrev;
    }
    if i < |c| {
      ghost var r := c[..i] + c[i + 1..];
      forall t | 0 <= t < |r|
        ensures r[t].hhPrev == if t == 0 then null else r[t - 1]
        ensures r[t].hhNext == if t + 1 == |r| then null else r[t + 1]
      {
        if t < i { assert r[t] == c[t]; } else { assert r[t] == c[t + 1]; }
      }
    }
  }

  /** The count and head insertion of HASH_ADD_TO_BKT leave the other chains alone. */
  method PushAmong(bks: array<Bucket>, b: nat, x: Handle, ghost chains: seq<seq<Handle>>, ghost items: set<Handle>,
      ghost k: nat)
    requires b < |chains| && BySlot(chains, k) && ChainsOk(bks, chains, items, NONE) && x !in items
    requires LowBits(x.hv, k) == b
    modifies bks, items`hhPrev, x`hhPrev, x`hhNext
    ensures Mults(bks[..]) == old(Mults(bks[..]))
    ensures ChainsOk(bks, chains[b := [x] + chains[b]], items + {x}, NONE)
  {
    hide LowBits, Chain;
    ghost var c, was := chains[b], bks[..];
    bks[b] := bks[b].(count := bks[b].count + 1);
    PushBkt(bks, b, x, c);
    assert bks[b] == bks[..][b];
    assert forall j :: 0 <= j < |chains| && j != b ==> bks[j] == bks[..][j] == was[j] == old(bks[j]);
    forall j | 0 <= j < |chains| && j != b
      ensures Chain(bks[j].hhHead, chains[j])
    {
      assert old(Chain(bks[j].hhHead, chains[j]));
    }
  }

  /** Unlinking in one bucket leaves the chains of the others alone. */
  method UnlinkAmong(bks: array<Bucket>, b: nat, x: Handle, ghost chains: seq<seq<Handle>>, ghost items: set<Handle>,
                     ghost k: nat, ghost i: nat)
    requires b < |chains| && i <= |chains[b]| && BySlot(chains, k)
    requires ChainsOk(bks, chains, items, if i < |chains[b]| then NONE else b)
    requires AllIn(chains[b := Without(chains[b], i)], items - {x})
    requires i < |chains[b]| ==> chains[b][i] == x
    requires i == |chains[b]| ==> x !in items && x.hhPrev == null && x.hhNext == null
    modifies bks, items`hhPrev, items`hhNext
    ensures Mults(bks[..]) == old(Mults(bks[..]))
    ensures ChainsOk(bks, chains[b := Without(chains[b], i)], items - {x}, NONE)
    ensures x.hhPrev == old(x.hhPrev) && x.hhNext == old(x.hhNext)
  {
    hide LowBits, Chain;
    ghost var was := bks[..];
    UnlinkBkt(bks, b, x, chains[b], i);
    assert bks[b] == bks[..][b];
    assert forall j :: 0 <= j < |chains| && j != b ==> bks[j] == bks[..][j] == was[j] == old(bks[j]);
    forall j | 0 <= j < |chains| && j != b
      ensures Chain(bks[j].hhHead, chains[j])
    {
      assert old(Chain(bks[j].hhHead, chains[j]));
    }
  }

  /** The statistics kept while an item is counted into new bucket `j`, which holds `n` items so far. */
  method CountNew(bks: array<Bucket>, j: nat, ghost n: nat, l: nat, nonideal: nat) returns (ni: nat)
    requires j < bks.Length && bks[j].count == n && bks[j].expandMult == ExpandMult(n, l)
    modifies bks
    ensures bks[..] == old(bks[..])[j := Bucket(old(bks[j].hhHead), n + 1, ExpandMult(n + 1, l))]
    ensures ni == nonideal - Over(n, l) + Over(n + 1, l)
  {
    ni := nonideal;
    bks[j] := bks[j].(count := bks[j].count + 1);
    if bks[j].count > l {
      ni := ni + 1;
      if bks[j].count > bks[j].expandMult * l {
        bks[j] := bks[j].(expandMult := bks[j].expandMult + 1);
      }
    }
  }

  /** The new bucket array describes the new chains: heads, links, counts and multipliers. */
  ghost predicate NewOk(bks: array<Bucket>, nc: seq<seq<Handle>>, l: nat, items: set<Handle>)
    reads bks, items`hhPrev, items`hhNext
  {
    && bks.Length == |nc| && AllIn(nc, items)
    && forall b {:trigger nc[b]} :: 0 <= b < |nc| ==>
         bks[b].count == |nc[b]| && bks[b].expandMult == ExpandMult(|nc[b]|, l) && Chain(bks[b].hhHead, nc[b])
  }

  /** Count and push `x` onto new bucket `j`; no other bucket is touched. */
  method PushNew(bks: array<Bucket>, j: nat, x: Handle, k: nat, l: nat, nonideal: nat,
                 ghost nc: seq<seq<Handle>>, ghost items: set<Handle>)
    returns (ni: nat)
    requires j < bks.Length && NewOk(bks, nc, l, items) && BySlot(nc, k)
    requires LowBits(x.hv, k) == j && x !in nc[j]
    modifies bks, x`hhPrev, x`hhNext, nc[j]`hhPrev
    ensures Chain(bks[j].hhHead, [x] + nc[j])
    ensures bks[j].count == |nc[j]| + 1 && bks[j].expandMult == ExpandMult(|nc[j]| + 1, l)
    ensures forall i {:trigger nc[i]} :: 0 <= i < |nc| && i != j ==>
              bks[i] == old(bks[i]) && Chain(bks[i].hhHead, nc[i])
    ensures ni == nonideal - Over(|nc[j]|, l) + Over(|nc[j]| + 1, l)
  {
    ghost var was := bks[..];
    ni := CountNew(bks, j, |nc[j]|, l, nonideal);
    assert bks[j] == bks[..][j];
    PushBkt(bks, j, x, nc[j]);
    assert forall i :: 0 <= i < |nc| && i != j ==> bks[i] == bks[..][i] == was[i] == old(bks[i]);
    assert bks[j] == bks[..][j];
    forall i | 0 <= i < |nc| && i != j
      ensures Chain(bks[i].hhHead, nc[i])
    {
      assert old(Chain(bks[i].hhHead, nc[i]));
    }
  }

  /** Move one item into the new bucket array during expansion. */
  method MoveToNew(bks: array<Bucket>, x: Handle, k: nat, l: nat, nonideal: nat,
                   ghost nc: seq<seq<Handle>>, ghost items: set<Handle>)
    returns (ni: nat)
    requires bks.Length == Pow2(k) && NewOk(bks, nc, l, items) && BySlot(nc, k)
    requires x in items && x.hashv == x.hv && x !in nc[LowBits(x.hv, k)]
    requires nonideal == Excess(nc, l)
    modifies bks, x`hhPrev, x`hhNext, nc[LowBits(x.hv, k)]`hhPrev
    ensures var j := LowBits(x.hv, k);
            var r := nc[j := [x] + nc[j]];
            NewOk(bks, r, l, items) && ni == Excess(r, l)
  {
    AndMask(x.hashv, k);
    var j := And(x.hashv, Pow2(k) - 1);
    ExcessUpdate(nc, j, [x] + nc[j], l);
    ni := PushNew(bks, j, x, k, l, nonideal, nc, items);
  }

  /** Walk one old chain, moving each item on. */
  method DealBucket(bks: array<Bucket>, hd: Handle?, k: nat, l: nat, nonideal: nat,
                    ghost nc: seq<seq<Handle>>, ghost c: seq<Handle>, ghost items: set<Handle>)
    returns (ni: nat)
    requires bks.Length == Pow2(k) && NewOk(bks, nc, l, items)
    requires BySlot(nc, k) && Apart(nc, c)
    requires Forward(hd, c) && (forall h :: h in c ==> h in items)
    requires forall h :: h in items ==> h.hashv == h.hv
    requires nonideal == Excess(nc, l)
    modifies bks, items`hhPrev, c`hhNext
    ensures NewOk(bks, Deal(nc, c, k), l, items) && ni == Excess(Deal(nc, c, k), l)
  {
    ni := nonideal;
    var thh := hd;
    ghost var m := 0;
    assert c[..0] == [];
    assert Deal(nc, c[..0], k) == nc;
    hide LowBits, Deal, Excess, NewOk, BySlot, Apart;
    while thh != null
      invariant 0 <= m <= |c| && thh == (if m == |c| then null else c[m])
      invariant forall i {:trigger c[i].hhNext} :: m <= i < |c| ==>
        c[i].hhNext == if i + 1 == |c| then null else c[i + 1]
      invariant NewOk(bks, Deal(nc, c[..m], k), l, items)
      invariant ni == Excess(Deal(nc, c[..m], k), l)
      decreases |c| - m
    {
      var nxt := thh.hhNext;
      ghost var d := Deal(nc, c[..m], k);
      DealSoFar(nc, c, k, m);
      ni := MoveToNew(bks, thh, k, l, ni, d, items);
      DealStep(nc, c, k, m);
      thh, m := nxt, m + 1;
    }
    assert c[..m] == c;
  }

  lemma DealStep(nc: seq<seq<Handle>>, c: seq<Handle>, k: nat, m: nat)
    requires |nc| == Pow2(k) && m < |c|
    ensures var d := Deal(nc, c[..m], k);
            var j := LowBits(c[m].hv, k);
            Deal(nc, c[..m + 1], k) == d[j := [c[m]] + d[j]]
  {
    assert c[..m + 1][..m] == c[..m];
  }

  lemma DealSoFar(nc: seq<seq<Handle>>, c: seq<Handle>, k: nat, m: nat)
    requires |nc| == Pow2(k) && m < |c| && NoDup(c)
    requires BySlot(nc, k) && Apart(nc, c)
    ensures var d := Deal(nc, c[..m], k);
            BySlot(d, k) && c[m] !in d[LowBits(c[m].hv, k)]
  {
    var d: seq<seq<Handle>> := Deal(nc, c[..m], k);
    forall j: nat, t: nat | 0 <= j < |d| && 0 <= t < |d[j]|
      ensures LowBits(d[j][t].hv, k) == j
    {
      DealMembers(nc, c[..m], k, j, d[j][t]);
    }
    DealMembers(nc, c[..m], k, LowBits(c[m].hv, k), c[m]);
    assert c[m] in c && c[m] !in c[..m];
  }

  /** ceil(n / 2^k), computed as the expansion does. */
  function IdealChain(n: nat, k: nat): nat
  {
    Shr(n, k) + if LowBits(n, k) != 0 then 1 else 0
  }

  class Table {
    var buckets: array<Bucket>
    var numBuckets: Word
    var log2NumBuckets: nat
    var numItems: nat
    var tail: Handle
    var idealChainMaxlen: nat
    var nonidealItems: nat
    var ineffExpands: nat
    var noexpand: bool
    var bloom: Bloom?
    ghost var chains: seq<seq<Handle>>
    ghost var items: set<Handle>
    ghost var expandLog: seq<bool>  // for each expansion so far, whether it was ineffective

    ghost predicate History()
      reads `log2NumBuckets, `expandLog, `ineffExpands, `noexpand
    {
      && log2NumBuckets == INITIAL_NUM_BUCKETS_LOG2 + |expandLog|
      && ineffExpands == Trailing(expandLog)
      && (noexpand <==> TwoInARow(expandLog))
      && (expandLog != [] ==> !TwoInARow(expandLog[..|expandLog| - 1]))
    }

    ghost predicate Valid()
      reads `buckets, `numBuckets, `log2NumBuckets, `chains, `items, `expandLog, `ineffExpands, `noexpand
      reads buckets, items`hhPrev, items`hhNext, items`hashv
    {
      ValidBut(NONE)
    }

    /** Valid, except that the count of bucket `extra` is one too high. */
    ghost predicate ValidBut(extra: int)
      reads `buckets, `numBuckets, `log2NumBuckets, `chains, `items, `expandLog, `ineffExpands, `noexpand
      reads buckets, items`hhPrev, items`hhNext, items`hashv
    {
      && numBuckets == Pow2(log2NumBuckets) == buckets.Length
      && Placed(items, chains, log2NumBuckets)
      && ChainsOk(buckets, chains, items, extra)
      && (forall h :: h in items ==> h.hashv == h.hv)
      && History()
    }

    ghost function State(): Shape
      reads `chains, `buckets, buckets, `idealChainMaxlen, `nonidealItems, `expandLog
    {
      Shape(chains, Mults(buckets[..]), idealChainMaxlen, nonidealItems, expandLog)
    }

    /** The table HASH_MAKE_TABLE builds once its bucket array is allocated. */
    constructor (hd: Handle)
      ensures Valid() && items == {} && numItems == 0 && tail == hd && bloom == null && expandLog == []
      ensures fresh(buckets) && State() == StartShape()
    {
      tail, numBuckets, log2NumBuckets, numItems := hd, INITIAL_NUM_BUCKETS, INITIAL_NUM_BUCKETS_LOG2, 0;
      buckets := new Bucket[INITIAL_NUM_BUCKETS](_ => EMPTY_BUCKET);
      idealChainMaxlen, nonidealItems, ineffExpands, noexpand, bloom := 0, 0, 0, false, null;
      chains, items, expandLog := Empties(INITIAL_NUM_BUCKETS), {}, [];
      new;
      assert Pow2(5) == 2 * Pow2(4) && Pow2(4) == 2 * Pow2(3) && Pow2(3) == 2 * Pow2(2);
    }

    /** HASH_EXPAND_BUCKETS; the argument is whether malloc succeeds. */
    method ExpandBuckets(mallocOk: bool) returns (oomed: bool)
      requires Valid() && !noexpand && (mallocOk ==> 2 * numBuckets < TWO32)
      modifies this, items`hhPrev, items`hhNext
      ensures oomed == !mallocOk && Valid()
      ensures items == old(items) && numItems == old(numItems) && tail == old(tail) && bloom == old(bloom)
      ensures oomed ==> unchanged(this) && unchanged(items)
      ensures !oomed ==> fresh(buckets) && State() == Doubled(old(State()), numItems)
    {
      if !mallocOk {
        return true;
      }
      oomed := false;
      var newBuckets := new Bucket[2 * numBuckets](_ => EMPTY_BUCKET);
      Double(newBuckets);
    }

    method Double(newBuckets: array<Bucket>)
      requires Valid() && !noexpand && newBuckets != buckets && newBuckets.Length == 2 * numBuckets < TWO32
      requires forall b :: 0 <= b < newBuckets.Length ==> newBuckets[b] == EMPTY_BUCKET
      modifies this, newBuckets, items`hhPrev, items`hhNext
      ensures buckets == newBuckets && Valid() && State() == Doubled(old(State()), numItems)
      ensures items == old(items) && numItems == old(numItems) && tail == old(tail) && bloom == old(bloom)
    {
      hide LowBits, Deal, DealAll, Excess, Chain, Trailing, TwoInARow;
      var l, ni := Rebuild(newBuckets);
      Install(newBuckets, l, ni);
    }

    /** Fill the new bucket array; the table still holds the old one. */
    method Rebuild(newBuckets: array<Bucket>) returns (l: nat, ni: nat)
      requires Valid() && newBuckets != buckets && newBuckets.Length == 2 * numBuckets
      requires forall b :: 0 <= b < newBuckets.Length ==> newBuckets[b] == EMPTY_BUCKET
      modifies newBuckets, items`hhPrev, items`hhNext
      ensures l == IdealChain(numItems, log2NumBuckets + 1)
      ensures var nc := DealAll(chains, |chains|, log2NumBuckets + 1);
              ChainsOk(newBuckets, nc, items, NONE) && Mults(newBuckets[..]) == MultsFor(nc, l) && ni == Excess(nc, l)
              && Placed(items, nc, log2NumBuckets + 1)
    {
      hide LowBits, Deal, DealAll, Excess, Chain, Forward, Trailing;
      ghost var j := log2NumBuckets;
      var k := log2NumBuckets + 1;
      AndMask(numItems, k);
      l := Shr(numItems, k) + if And(numItems, numBuckets * 2 - 1) != 0 then 1 else 0;
      AllForward(buckets, chains, items);
      ni := DealBuckets(buckets, newBuckets, k - 1, l, chains, items);
      PlacedDealt(items, chains, j);
      NewIsOk(newBuckets, DealAll(chains, |chains|, j + 1), l, items);
    }

    /** The table fields the expansion leaves behind. */
    method Install(newBuckets: array<Bucket>, l: nat, ni: nat)
      requires History() && !noexpand && 2 * numBuckets < TWO32
      modifies this
      ensures History()
      ensures numBuckets == 2 * old(numBuckets) && log2NumBuckets == old(log2NumBuckets) + 1 && buckets == newBuckets
      ensures chains == DealAll(old(chains), old(|chains|), log2NumBuckets)
      ensures idealChainMaxlen == l && nonidealItems == ni
      ensures expandLog == old(expandLog) + [ni > numItems / 2]
      ensures items == old(items) && numItems == old(numItems) && tail == old(tail) && bloom == old(bloom)
    {
      hide Deal, DealAll, Excess, Placed, ChainsOk;
      idealChainMaxlen, nonidealItems := l, ni;
      numBuckets := numBuckets * 2;
      buckets := newBuckets;
      chains := DealAll(chains, |chains|, log2NumBuckets + 1);
      assert Shr(numItems, 1) == Shr(numItems / 2, 0) == numItems / 2;
      LogExpansion(nonidealItems > Shr(numItems, 1));
    }

    /** Count the doubling, and stop expanding after two ineffective ones in a row. */
    method LogExpansion(ineffective: bool)
      requires History() && !noexpand
      modifies `log2NumBuckets, `ineffExpands, `noexpand, `expandLog
      ensures History() && expandLog == old(expandLog) + [ineffective] && log2NumBuckets == old(log2NumBuckets) + 1
    {
      LogGrows(expandLog, ineffective);
      hide Trailing, TwoInARow;
      log2NumBuckets := log2NumBuckets + 1;
      ineffExpands := if ineffective then ineffExpands + 1 else 0;
      if ineffExpands > 1 {
        noexpand := true;
      }
      expandLog := expandLog + [ineffective];
      assert expandLog[..|expandLog| - 1] == old(expandLog);
    }

    /** Head insertion into the bucket the hash value selects. */
    method Push(x: Handle, b: nat)
      requires Valid() && x !in items && x.hashv == x.hv && b == LowBits(x.hv, log2NumBuckets) && b < |chains|
      modifies this`chains, this`items, buckets, items`hhPrev, x`hhPrev, x`hhNext
      ensures Valid() && items == old(items) + {x}
      ensures chains == old(chains)[b := [x] + old(chains)[b]]
      ensures Mults(buckets[..]) == old(Mults(buckets[..]))
    {
      hide *;
      CanPush(x, b);
      ghost var c, s := chains, items;
      items, chains := s + {x}, c[b := [x] + c[b]];
      PushAmong(buckets, b, x, c, s, log2NumBuckets);
      Assemble();
    }

    lemma CanPush(x: Handle, b: nat)
      requires Valid() && b == LowBits(x.hv, log2NumBuckets) && b < |chains| && x.hashv == x.hv
      ensures Placed(items + {x}, chains[b := [x] + chains[b]], log2NumBuckets)
      ensures BySlot(chains, log2NumBuckets) && ChainsOk(buckets, chains, items, NONE)
      ensures numBuckets == Pow2(log2NumBuckets) == buckets.Length && History()
        && forall h :: h in items + {x} ==> h.hashv == h.hv
    {
      PlacedAdd(items, chains, log2NumBuckets, x);
    }

    lemma CanDelete(x: Handle, b: nat, i: nat)
      requires b < |chains| && i <= |chains[b]| && (i < |chains[b]| ==> chains[b][i] == x)
      requires ValidBut(if i < |chains[b]| then NONE else b) && (i == |chains[b]| ==> x !in items)
      ensures var rest := chains[b := Without(chains[b], i)];
              Placed(items - {x}, rest, log2NumBuckets) && AllIn(rest, items - {x})
      ensures BySlot(chains, log2NumBuckets) && ChainsOk(buckets, chains, items, if i < |chains[b]| then NONE else b)
      ensures numBuckets == Pow2(log2NumBuckets) == buckets.Length && History()
        && forall h :: h in items ==> h.hashv == h.hv
    {
      if i < |chains[b]| {
        PlacedRemove(items, chains, log2NumBuckets, b, i);
      } else {
        assert chains[b := Without(chains[b], i)] == chains && items - {x} == items;
      }
    }

    /** HASH_DEL_IN_BKT on the bucket of `x`: place `i` of its chain, or past its end when its links are cleared. */
    method DelInBkt(x: Handle, b: nat, ghost i: nat)
      requires b < |chains| && i <= |chains[b]| && (i < |chains[b]| ==> chains[b][i] == x)
      requires ValidBut(if i < |chains[b]| then NONE else b)
      requires i == |chains[b]| ==> x !in items && x.hhPrev == null && x.hhNext == null
      modifies this`chains, this`items, buckets, items`hhPrev, items`hhNext
      ensures Valid() && items == old(items) - {x} && State() == DropAt(old(State()), b, i)
      ensures x.hhPrev == old(x.hhPrev) && x.hhNext == old(x.hhNext)
    {
      hide LowBits, Placed, ChainsOk, BySlot, AllIn, Without, Pow2, History, ValidBut, Valid;
      CanDelete(x, b, i);
      ghost var c, s := chains, items;
      items, chains := s - {x}, c[b := Without(c[b], i)];
      UnlinkAmong(buckets, b, x, c, s, log2NumBuckets, i);
      Assemble();
    }

    lemma Assemble()
      requires numBuckets == Pow2(log2NumBuckets) == buckets.Length && Placed(items, chains, log2NumBuckets)
      requires ChainsOk(buckets, chains, items, NONE) && (forall h :: h in items ==> h.hashv == h.hv) && History()
      ensures Valid()
    {
    }

    /** HASH_ADD_TO_BKT; a failed expansion unlinks the item again. */
    method AddToBkt(x: Handle, b: nat, mallocOk: bool) returns (oomed: bool)
      requires Valid() && x !in items && x.hashv == x.hv && b == LowBits(x.hv, log2NumBuckets)
        && b < buckets.Length == |chains|
      requires Full(State(), b) && mallocOk ==> 2 * numBuckets < TWO32
      modifies this, buckets, items`hhPrev, items`hhNext, x`hhPrev, x`hhNext
      ensures Valid() && numItems == old(numItems) && tail == old(tail) && bloom == old(bloom)
      ensures oomed == (Full(old(State()), b) && !mallocOk)
      ensures oomed ==>
          && items == old(items) && State() == old(State()) && buckets == old(buckets)
          && log2NumBuckets == old(log2NumBuckets)
      ensures !oomed ==> items == old(items) + {x} && State() == WithItem(old(State()), x, numItems)
      ensures buckets == old(buckets) || fresh(buckets)
      ensures var due := old(buckets[b].count) + 1 >= 10 * (old(buckets[b].expandMult) + 1) && !old(noexpand);
              && oomed == (due && !mallocOk)
              && numBuckets == (if due && mallocOk then 2 * old(numBuckets) else old(numBuckets))
              && (!due ==> chains == old(chains[b := [x] + chains[b]]))
    {
      hide LowBits, Chain, ChainsOk, Placed, History, DealAll, Excess, ValidBut, Mults, TwoInARow, Doubled, Pow2;
      SizeIs();
      oomed := false;
      HeadOf(b);
      Push(x, b);
      HeadOf(b);
      if buckets[b].count >= (buckets[b].expandMult + 1) * BKT_CAPACITY_THRESH && !noexpand {
        oomed := ExpandOrUndo(x, b, mallocOk, old(chains[b]));
      }
      DoubledLog(Pushed(old(State()), x, b), numItems);
      SizeIs();
    }

    lemma SizeIs()
      requires Valid()
      ensures numBuckets == Pow2(Log2(State())) && (Log2(State()) > 0 ==> numBuckets == 2 * Pow2(Log2(State()) - 1))
    {
    }

    /** Expand after a push, or take the pushed item out again when malloc fails. */
    method ExpandOrUndo(x: Handle, b: nat, mallocOk: bool, ghost c: seq<Handle>) returns (oomed: bool)
      requires Valid() && !noexpand && b < |chains| && chains[b] == [x] + c && x !in c
      requires mallocOk ==> 2 * numBuckets < TWO32
      modifies this, buckets, items`hhPrev, items`hhNext
      ensures Valid() && numItems == old(numItems) && tail == old(tail) && bloom == old(bloom) && oomed == !mallocOk
      ensures oomed ==>
        && items == old(items) - {x} && State() == old(State()).(chains := old(chains)[b := c])
            && buckets == old(buckets) && log2NumBuckets == old(log2NumBuckets)
      ensures !oomed ==> fresh(buckets) && items == old(items) && State() == Doubled(old(State()), numItems)
    {
      hide LowBits, Chain, ChainsOk, Placed, History, DealAll, Excess;
      oomed := ExpandBuckets(mallocOk);
      if oomed {
        Undo(x, b, c);
      }
    }

    /** Take the item just pushed out again. */
    method Undo(x: Handle, b: nat, ghost c: seq<Handle>)
      requires Valid() && b < |chains| && chains[b] == [x] + c && x !in c
      modifies this`chains, this`items, buckets, items`hhPrev, items`hhNext
      ensures Valid() && items == old(items) - {x} && State() == old(State()).(chains := old(chains)[b := c])
    {
      hide LowBits, Chain, ChainsOk, Placed, History;
      HeadOf(b);
      DelInBkt(x, b, 0);
      assert Without([x] + c, 0) == c;
    }

    lemma HeadOf(b: nat)
      requires Valid() && b < |chains|
      ensures b < buckets.Length && buckets[b].count == |chains[b]| && forall h :: h in chains[b] ==> h in items
      ensures b < |State().mults| && State().mults[b] == buckets[b].expandMult
      ensures (noexpand <==> TwoInARow(expandLog)) && log2NumBuckets == Log2(State())
    {
    }
  }

  ghost predicate Matches(h: Handle, key: Key, hv: Word) {
    h.hv == hv && h.elt.id == key
  }

  /** The first element of `c` under this key, if any. */
  ghost function FirstMatch(c: seq<Handle>, key: Key, hv: Word): Handle?
  {
    if c == [] then null else if Matches(c[0], key, hv) then c[0] else FirstMatch(c[1..], key, hv)
  }

  lemma {:induction false} FirstMatchFinds(c: seq<Handle>, key: Key, hv: Word)
    ensures var h := FirstMatch(c, key, hv);
            if h == null then forall g :: g in c ==> !Matches(g, key, hv) else h in c && Matches(h, key, hv)
  {
    if c != [] { FirstMatchFinds(c[1..], key, hv); }
  }

  /** HASH_FIND_IN_BKT: walk the chain comparing hash value, then key. */
  method FindInBkt(head: Bucket, key: Key, hashval: Word, ghost c: seq<Handle>) returns (out: Handle?)
    requires Chain(head.hhHead, c) && forall h :: h in c ==> h.hashv == h.hv
    ensures out == FirstMatch(c, key, hashval)
  {
    out := head.hhHead;
    ghost var m := 0;
    while out != null
      invariant 0 <= m <= |c| && out == (if m == |c| then null else c[m])
      invariant FirstMatch(c, key, hashval) == FirstMatch(c[m..], key, hashval)
      decreases |c| - m
    {
      if out.hashv == hashval && |out.elt.id.bytes| == |key.bytes| {
        if out.elt.id == key {
          break;
        }
      }
      out, m := out.hhNext, m + 1;
    }
  }

  /** Every old chain has its forward links. */
  ghost predicate ForwardFrom(bks: array<Bucket>, chains: seq<seq<Handle>>, i: nat, items: set<Handle>)
    reads bks, items`hhNext
  {
    && bks.Length == |chains|
    && AllIn(chains, items)
    && forall b {:trigger chains[b]} :: i <= b < |chains| ==> Forward(bks[b].hhHead, chains[b])
  }

  lemma AllForward(bks: array<Bucket>, chains: seq<seq<Handle>>, items: set<Handle>)
    requires ChainsOk(bks, chains, items, NONE)
    ensures ForwardFrom(bks, chains, 0, items)
  {
  }

  /** The redistribution loop of the expansion. */
  method DealBuckets(bks: array<Bucket>, newBks: array<Bucket>, k: nat, l: nat,
                     ghost chains: seq<seq<Handle>>, ghost items: set<Handle>)
    returns (ni: nat)
    requires Placed(items, chains, k) && ForwardFrom(bks, chains, 0, items)
    requires newBks != bks && newBks.Length == Pow2(k + 1) && bks.Length == |chains|
    requires forall b :: 0 <= b < newBks.Length ==> newBks[b] == EMPTY_BUCKET
    requires forall h :: h in items ==> h.hashv == h.hv
    modifies newBks, items`hhPrev, items`hhNext
    ensures NewOk(newBks, DealAll(chains, |chains|, k + 1), l, items)
    ensures ni == Excess(DealAll(chains, |chains|, k + 1), l)
  {
    ni := 0;
    NewEmpty(newBks, l, items);
    assert DealAll(chains, 0, k + 1) == Empties(newBks.Length);
    hide NewOk, ForwardFrom, DealAll, Excess, Placed, LowBits, Pow2;
    var i := 0;
    while i < bks.Length
      invariant 0 <= i <= bks.Length
      invariant NewOk(newBks, DealAll(chains, i, k + 1), l, items)
      invariant ni == Excess(DealAll(chains, i, k + 1), l)
      invariant ForwardFrom(bks, chains, i, items)
    {
      ni := DealNext(bks, newBks, k, l, ni, i, chains, items);
      i := i + 1;
    }
  }

  lemma NewEmpty(bks: array<Bucket>, l: nat, items: set<Handle>)
    requires forall b :: 0 <= b < bks.Length ==> bks[b] == EMPTY_BUCKET
    ensures NewOk(bks, Empties(bks.Length), l, items) && Excess(Empties(bks.Length), l) == 0
  {
    ExcessEmpties(bks.Length, l);
  }

  method DealNext(bks: array<Bucket>, newBks: array<Bucket>, k: nat, l: nat, nonideal: nat, i: nat,
                  ghost chains: seq<seq<Handle>>, ghost items: set<Handle>)
    returns (ni: nat)
    requires Placed(items, chains, k) && i < |chains| && ForwardFrom(bks, chains, i, items)
    requires newBks != bks && newBks.Length == Pow2(k + 1)
    requires NewOk(newBks, DealAll(chains, i, k + 1), l, items)
    requires nonideal == Excess(DealAll(chains, i, k + 1), l)
    requires forall h :: h in items ==> h.hashv == h.hv
    modifies newBks, items`hhPrev, items`hhNext
    ensures NewOk(newBks, DealAll(chains, i + 1, k + 1), l, items)
    ensures ni == Excess(DealAll(chains, i + 1, k + 1), l)
    ensures ForwardFrom(bks, chains, i + 1, items)
  {
    DealAllSoFar(items, chains, k, i);
    ni := DealBucket(newBks, bks[i].hhHead, k + 1, l, nonideal, DealAll(chains, i, k + 1), chains[i], items);
    forall b {:trigger chains[b]} | i < b < |chains|
      ensures Forward(bks[b].hhHead, chains[b])
    {
      assert old(Forward(bks[b].hhHead, chains[b]));
    }
  }

  lemma NewIsOk(bks: array<Bucket>, nc: seq<seq<Handle>>, l: nat, items: set<Handle>)
    requires NewOk(bks, nc, l, items)
    ensures ChainsOk(bks, nc, items, NONE) && Mults(bks[..]) == MultsFor(nc, l)
  {
  }

  /** One more expansion on the log. */
  lemma LogGrows(log: seq<bool>, b: bool)
    requires !TwoInARow(log)
    ensures Trailing(log + [b]) == if b then Trailing(log) + 1 else 0
    ensures TwoInARow(log + [b]) <==> Trailing(log + [b]) > 1
  {
    var r := log + [b];
    assert r[..|r| - 1] == log;
    if log != [] && log[|log| - 1] && b {
      assert r[|log| - 1] && r[|log|];
    }
    forall i, j | 0 <= i && j == i + 1 && j < |log|
      ensures !(r[i] && r[j])
    {
      assert !(log[i] && log[j]);
    }
  }

  lemma DealAllSoFar(items: set<Handle>, chains: seq<seq<Handle>>, k: nat, i: nat)
    requires Placed(items, chains, k) && i < |chains|
    ensures var nc := DealAll(chains, i, k + 1); BySlot(nc, k + 1) && Apart(nc, chains[i])
    ensures forall h :: h in chains[i] ==> h in items
  {
    hide LowBits, DealAll;
    var nc: seq<seq<Handle>> := DealAll(chains, i, k + 1);
    forall j, t {:trigger nc[j][t]} | 0 <= j < |nc| && 0 <= t < |nc[j]|
      ensures LowBits(nc[j][t].hv, k + 1) == j && nc[j][t] !in chains[i]
    {
      DealAllMembers(chains, i, k + 1, j, nc[j][t]);
    }
  }
}
