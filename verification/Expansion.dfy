/** What doubling the buckets does to chains, lookups and statistics. */
module Expansion {
  import opened Words
  import opened HashTable

  // ---------- where the items go ----------

  /** The elements of `c` that the hash value sends to bucket `j` of 2^k, last first. */
  ghost function Selected(c: seq<Handle>, k: nat, j: nat): seq<Handle> {
    if c == [] then []
    else if LowBits(c[|c| - 1].hv, k) == j then [c[|c| - 1]] + Selected(c[..|c| - 1], k, j)
    else Selected(c[..|c| - 1], k, j)
  }

  /** The old bucket whose items can reach new bucket `j`, when there were `n`. */
  function Origin(j: nat, n: nat): nat { if j < n then j else j - n }

  lemma {:induction false} DealSelects(nc: seq<seq<Handle>>, c: seq<Handle>, k: nat, j: nat)
    requires |nc| == Pow2(k) && j < |nc|
    ensures Deal(nc, c, k)[j] == Selected(c, k, j) + nc[j]
  {
    if c != [] {
      DealSelects(nc, c[..|c| - 1], k, j);
    }
  }

  lemma {:induction false} SelectsNothing(c: seq<Handle>, k: nat, j: nat)
    requires forall i :: 0 <= i < |c| ==> LowBits(c[i].hv, k) != j
    ensures Selected(c, k, j) == []
  {
    if c != [] { SelectsNothing(c[..|c| - 1], k, j); }
  }

  lemma {:induction false} DealAllSelects(chains: seq<seq<Handle>>, i: nat, k: nat, j: nat)
    requires |chains| == Pow2(k) && i <= |chains| && j < 2 * |chains| && BySlot(chains, k)
    ensures DealAll(chains, i, k + 1)[j]
         == if Origin(j, |chains|) < i then Selected(chains[Origin(j, |chains|)], k + 1, j) else []
  {
    hide LowBits, Deal, Selected;
    if i > 0 {
      DealAllSelects(chains, i - 1, k, j);
      DealSelects(DealAll(chains, i - 1, k + 1), chains[i - 1], k + 1, j);
      if Origin(j, |chains|) != i - 1 {
        var c := chains[i - 1];
        forall t | 0 <= t < |c| ensures LowBits(c[t].hv, k + 1) != j {
          assert LowBits(chains[i - 1][t].hv, k) == i - 1;
          LowBitsDouble(c[t].hv, k);
        }
        SelectsNothing(c, k + 1, j);
      }
    }
  }

  /** New bucket `j` holds exactly the items of old bucket `j` or `j - n` that belong there, in reverse order. */
  lemma NewChain(s: Shape, n: nat, j: nat)
    requires |s.chains| == Pow2(Log2(s)) && BySlot(s.chains, Log2(s)) && j < 2 * |s.chains|
    ensures |Doubled(s, n).chains| == 2 * |s.chains|
    ensures Doubled(s, n).chains[j] == Selected(s.chains[Origin(j, |s.chains|)], Log2(s) + 1, j)
  {
    DealAllSelects(s.chains, |s.chains|, Log2(s), j);
  }

  /** Doubling keeps the items, and an item of bucket `b` goes to `b` or to `b` plus the old bucket count. */
  lemma ItemsMove(s: Shape, n: nat, items: set<Handle>, b: nat, x: Handle)
    requires Placed(items, s.chains, Log2(s)) && b < |s.chains| && x in s.chains[b]
    ensures Placed(items, Doubled(s, n).chains, Log2(s) + 1) && Log2(Doubled(s, n)) == Log2(s) + 1
    ensures x in items && (x in Doubled(s, n).chains[b] || x in Doubled(s, n).chains[b + |s.chains|])
  {
    PlacedDealt(items, s.chains, Log2(s));
    LowBitsDouble(x.hv, Log2(s));
    var i :| 0 <= i < |s.chains[b]| && s.chains[b][i] == x;
  }

  ghost predicate DistinctKeys(items: set<Handle>) {
    forall g, h :: g in items && h in items && g != h ==> !(g.hv == h.hv && g.elt.id == h.elt.id)
  }

  /** Every lookup gives the same answer before and after doubling, although chains are reversed. */
  lemma LookupKept(s: Shape, n: nat, items: set<Handle>, key: Key, hv: Word)
    requires Placed(items, s.chains, Log2(s)) && DistinctKeys(items)
    ensures |s.chains| == Pow2(Log2(s)) && |Doubled(s, n).chains| == Pow2(Log2(s) + 1)
    ensures FirstMatch(Doubled(s, n).chains[LowBits(hv, Log2(s) + 1)], key, hv)
         == FirstMatch(s.chains[LowBits(hv, Log2(s))], key, hv)
  {
    var d := Doubled(s, n);
    PlacedDealt(items, s.chains, Log2(s));
    var a, b := s.chains[LowBits(hv, Log2(s))], d.chains[LowBits(hv, Log2(s) + 1)];
    FirstMatchFinds(a, key, hv);
    FirstMatchFinds(b, key, hv);
    var g, h := FirstMatch(a, key, hv), FirstMatch(b, key, hv);
    if g != null { assert g in items && g in b; }
    if h != null { assert h in items && h in a; }
  }

  // ---------- the bookkeeping ----------

  lemma OneMore(q: nat, d: nat)
    ensures (q + 1) * d == q * d + d
  {
  }

  /** ideal_chain_maxlen is the ceiling of the item count over the new bucket count. */
  lemma IdealIsCeiling(n: nat, k: nat)
    ensures var l := IdealChain(n, k);
            n <= l * Pow2(k) < n + Pow2(k)
  {
    hide Pow2, Shr, LowBits;
    ShiftAndMask(n, k);
    OneMore(Shr(n, k), Pow2(k));
  }

  /** The threshold a bucket gets: its multiplier times the ideal length covers its count but one, and by less than
      two ideal lengths. */
  lemma {:induction false} ExpandMultBounds(c: nat, l: nat)
    requires l >= 1
    ensures c <= l ==> ExpandMult(c, l) == 0
    ensures c > l ==> c - 1 <= ExpandMult(c, l) * l < c + l
  {
    if c > 0 {
      ExpandMultBounds(c - 1, l);
      OneMore(ExpandMult(c - 1, l), l);
    }
  }

  /** The multiplier's exact value: it rises once with each item past the ideal length, until it covers the chain. */
  lemma {:induction false} ExpandMultIs(c: nat, l: nat)
    requires l >= 1
    ensures ExpandMult(c, l) == MultiplierFor(c, l)
  {
    hide CeilDiv;
    CeilDivIs(c, l);
    if c > l {
      ExpandMultIs(c - 1, l);
      CeilDivIs(c - 1, l);
      Next(c, l, ExpandMult(c - 1, l), CeilDiv(c - 1, l), CeilDiv(c, l));
    } else {
      ExpandMultBounds(c, l);
    }
  }

  lemma Next(c: nat, l: nat, m: nat, p: nat, q: nat)
    requires c > l >= 1 && (p - 1) * l < c - 1 <= p * l && (q - 1) * l < c <= q * l
    requires m == if c - 1 <= l then 0 else if c - 1 - l < p then c - 1 - l else p
    ensures (if c > m * l then m + 1 else m) == if c - l < q then c - l else q
  {
    Ceilings(c, l, p, q);
    Order(m, p - 1, l);
    Order(1, p - 1, l);
  }

  lemma Ceilings(c: nat, l: nat, p: nat, q: nat)
    requires c > l >= 1 && (p - 1) * l < c - 1 <= p * l && (q - 1) * l < c <= q * l
    ensures p <= q <= p + 1 && (c > p * l <==> q == p + 1) && q >= 2
  {
    Order(1, q - 1, l);
    Order(p, q - 1, l);
    Order(p - 1, q, l);
    Order(p + 1, q - 1, l);
    Order(q, p, l);
    Order(q, 1, l);
  }

  lemma Order(a: int, b: int, l: nat)
    requires l >= 1
    ensures a <= b ==> a * l <= b * l
    ensures a > b ==> a * l >= b * l + l
  {
    if a <= b { assert (b - a) * l >= 0; } else { assert (a - b - 1) * l >= 0; }
  }

  /** The lesser of the items past the ideal length and the ceiling of the chain's length over it. */
  function MultiplierFor(c: nat, l: nat): nat
    requires l >= 1
  {
    if c <= l then 0 else if c - l < CeilDiv(c, l) then c - l else CeilDiv(c, l)
  }

  function CeilDiv(c: nat, l: nat): nat
    requires l >= 1
  {
    (c + l - 1) / l
  }

  lemma CeilDivIs(c: nat, l: nat)
    requires l >= 1
    ensures var q := CeilDiv(c, l); (q - 1) * l < c <= q * l && (c > 0 ==> q >= 1)
  {
    var q, r := (c + l - 1) / l, (c + l - 1) % l;
    assert c + l - 1 == q * l + r;
    OneLess(q, l);
  }

  lemma OneLess(q: int, d: int)
    ensures (q - 1) * d == q * d - d
  {
  }

  /** Nonideal items are those whose place in their chain is at or beyond the ideal length. */
  ghost function Beyond(chains: seq<seq<Handle>>, l: nat): set<(int, int)> {
    set b, i {:trigger chains[b][i]} | 0 <= b < |chains| && l <= i < |chains[b]| :: (b, i)
  }

  lemma BeyondIs(chains: seq<seq<Handle>>, l: nat, b: int, i: int)
    ensures (b, i) in Beyond(chains, l) <==> 0 <= b < |chains| && l <= i < |chains[b]|
  {
    if 0 <= b < |chains| && l <= i < |chains[b]| { assert chains[b][i] in chains[b]; }
  }

  lemma {:induction false} ExcessCounts(chains: seq<seq<Handle>>, l: nat)
    ensures Excess(chains, l) == |Beyond(chains, l)|
  {
    if chains == [] {
      assert Beyond(chains, l) == {};
    } else {
      var m := |chains| - 1;
      var c := chains[m];
      ExcessCounts(chains[..m], l);
      Slots(m, l, |c|);
      var a, b := Beyond(chains[..m], l), SlotsOf(m, l, |c|);
      forall x: int, y: int | true ensures (x, y) in Beyond(chains, l) <==> (x, y) in a + b {
        BeyondIs(chains, l, x, y);
        BeyondIs(chains[..m], l, x, y);
      }
      assert Beyond(chains, l) == a + b && a !! b;
    }
  }

  /** Places `l` up to `n` of bucket `m`. */
  ghost function SlotsOf(m: int, l: nat, n: nat): set<(int, int)> {
    set i {:trigger (m, i)} | l <= i < n :: (m, i)
  }

  lemma {:induction false} Slots(m: int, l: nat, n: nat)
    ensures |SlotsOf(m, l, n)| == if n > l then n - l else 0
  {
    if n <= l {
      assert SlotsOf(m, l, n) == {};
    } else {
      Slots(m, l, n - 1);
      assert SlotsOf(m, l, n) == SlotsOf(m, l, n - 1) + {(m, n - 1)};
    }
  }

  /** The statistics right after an expansion with `n` items counted. */
  lemma StatisticsAfter(s: Shape, n: nat, b: nat)
    requires n >= 1 && |s.chains| == Pow2(Log2(s)) && b < 2 * |s.chains|
    ensures var d := Doubled(s, n);
            var c := |d.chains[b]|;
            && |d.chains| == |d.mults| == Pow2(Log2(s) + 1) && d.ideal >= 1
            && n <= d.ideal * |d.chains| < n + |d.chains|
            && d.nonideal == |Beyond(d.chains, d.ideal)|
            && (c <= d.ideal ==> d.mults[b] == 0)
            && (c > d.ideal ==> c - 1 <= d.mults[b] * d.ideal < c + d.ideal)
            && d.mults[b] == MultiplierFor(c, d.ideal)
            && d.log == s.log + [2 * d.nonideal > if n % 2 == 0 then n else n - 1]
  {
    hide LowBits, Beyond;
    var d := Doubled(s, n);
    IdealIsCeiling(n, Log2(s) + 1);
    ExcessCounts(d.chains, d.ideal);
    if d.ideal >= 1 {
      ExpandMultBounds(|d.chains[b]|, d.ideal);
      ExpandMultIs(|d.chains[b]|, d.ideal);
    }
  }
}
