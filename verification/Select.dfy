/** HASH_SELECT: a second hash over the elements of a first that meet a condition, through their second handles. */
module Select {
  import opened Words
  import opened HashTable
  import opened AppList
  import opened UtHash
  import HashCheck

  /** A selection: where the second handle of an element is, found at a fixed offset from its first; the condition;
      which
      allocations would succeed while an element is added; and whether there is a Bloom filter. */
  datatype Query = Query(at: Handle -> Handle, cond: Cache -> bool, mem: Handle -> Mem, bloom: bool)

  /** The order in which the buckets and their chains are walked. */
  ghost function Walk(chains: seq<seq<Handle>>): seq<Handle> {
    if chains == [] then [] else Walk(chains[..|chains| - 1]) + chains[|chains| - 1]
  }

  /** The second handles of the elements that meet the condition and whose addition does not run out of memory. */
  ghost function Picked(hs: seq<Handle>, q: Query): seq<Handle> {
    if hs == [] then [] else Next(Picked(hs[..|hs| - 1], q), hs[|hs| - 1], q)
  }

  ghost function Next(sel: seq<Handle>, h: Handle, q: Query): seq<Handle> {
    if Joins(sel, h, q) then sel + [q.at(h)] else sel
  }

  ghost predicate Joins(sel: seq<Handle>, h: Handle, q: Query) {
    q.cond(h.elt) && !OutOfMemory(Model(sel, Built(sel)), q.at(h), q.mem(h), q.bloom)
  }

  /** The table that holds `sel`; when an element expands it, num_items does not yet count that element. */
  ghost function Built(sel: seq<Handle>): Shape {
    if sel == [] then StartShape() else WithItem(Built(sel[..|sel| - 1]), sel[|sel| - 1], |sel| - 1)
  }

  /** Whenever an element selected from `hs` doubles the table, 32 bits hold the new bucket count. */
  ghost predicate Fits(hs: seq<Handle>, q: Query) {
    hs == [] ||
    (var r, h := hs[..|hs| - 1], hs[|hs| - 1];
     Fits(r, q) && (q.cond(h.elt) ==> CanGrow(Model(Picked(r, q), Built(Picked(r, q))), q.at(h), q.mem(h))))
  }

  /** List links, head and table pointers; the tail stays at the first element. */
  ghost predicate Strung(dst: Hash, sel: seq<Handle>)
    reads dst`head, dst`tbl, sel`prev, sel`next, sel`tbl, (if dst.tbl == null then {} else {dst.tbl})`tail
  {
    && sel != [] && dst.tbl != null && dst.head == sel[0] && Linked(sel) && dst.tbl.tail == sel[0]
    && (forall i {:trigger sel[i].tbl} :: 0 <= i < |sel| ==> sel[i].tbl == dst.tbl)
  }

  /** What the destination is after `sel` was selected: all of a valid hash but the tail pointer. */
  ghost predicate Selected(dst: Hash, sel: seq<Handle>)
    reads dst, dst.Repr(), sel
  {
    && dst.order == sel && dst.Separate()
    && (sel == [] ==> dst.head == null && dst.tbl == null)
    && (sel != [] ==>
        && Strung(dst, sel) && dst.Holds(sel) && dst.FilterOk(dst.tbl.bloom, sel)
        && dst.tbl.State() == Built(sel))
  }

  ghost function Last(s: seq<Handle>): Handle? { if s == [] then null else s[|s| - 1] }

  /** The element's links and the destination's head and table are set; the table does not have it yet. */
  ghost predicate Entering(dst: Hash, x: Handle, sel: seq<Handle>)
    reads dst, dst.Repr(), sel, x
  {
    && Strung(dst, sel + [x]) && dst.Holds(sel) && dst.FilterOk(dst.tbl.bloom, sel) && dst.Separate()
    && dst.tbl.State() == Built(sel) && x.hashv == x.hv && x !in sel && dst.order == sel
  }

  /** The list links of a selected element; `last` is the one selected before it. */
  method Link(x: Handle, last: Handle?, ghost sel: seq<Handle>)
    requires Linked(sel) && last == Last(sel) && x !in sel
    modifies x`prev, x`next, sel`next
    ensures Linked(sel + [x])
  {
    x.prev := last;
    x.next := null;
    if last != null {
      last.next := x;
    }
  }

  /** The first element selected makes the destination's table. */
  method Begin(dst: Hash, x: Handle, mem: Mem) returns (oomed: bool)
    requires Selected(dst, []) && x.hashv == x.hv && Linked([x])
    modifies dst`head, dst`tbl, x`tbl
    ensures oomed == OutOfMemory(Model([], Built([])), x, mem, dst.bloomOn)
    ensures oomed ==> Selected(dst, [])
    ensures !oomed ==> Entering(dst, x, [])
    ensures fresh(dst.Repr())
  {
    hide Table.ValidBut, Table.Valid, Table.State, Hash.FilterOk;
    dst.head := x;
    oomed := dst.MakeTable(x, mem);
    if oomed {
      dst.head := null;
    } else {
      dst.tbl := x.tbl;
      assert Linked([] + [x]) by { assert [] + [x] == [x]; }
      assert Elements([]) == {};
    }
  }

  /** A later element gets the table of the first. */
  method Continue(dst: Hash, x: Handle, last: Handle?, ghost sel: seq<Handle>)
    requires Selected(dst, sel) && sel != [] && last == Last(sel) && x !in sel && x.hashv == x.hv
    modifies x`prev, x`next, x`tbl, sel`next
    ensures Entering(dst, x, sel) && dst.Repr() == old(dst.Repr())
  {
    hide Table.ValidBut, Table.Valid, Table.State, Hash.FilterOk, Linked;
    Link(x, last, sel);
    x.tbl := dst.head.tbl;
    assert dst.Repr() == old(dst.Repr());
    forall i {:trigger (sel + [x])[i]} | 0 <= i < |sel + [x]| ensures (sel + [x])[i].tbl == dst.tbl {
      if i < |sel| { assert (sel + [x])[i] == sel[i] && sel[i].tbl == dst.tbl; }
    }
  }

  /** HASH_ADD_TO_BKT and only then num_items++. */
  method AddThenCount(t: Table, x: Handle, mallocOk: bool, ghost b: nat) returns (oomed: bool)
    requires t.Valid() && x !in t.items && x.hashv == x.hv && b == LowBits(x.hv, t.log2NumBuckets)
      && b < t.buckets.Length == |t.chains|
    requires t.numBuckets == Pow2(t.log2NumBuckets) && (Full(t.State(), b) && mallocOk ==> 2 * t.numBuckets < TWO32)
    modifies t, t.buckets, t.items`hhPrev, t.items`hhNext, x`hhPrev, x`hhNext
    ensures t.Valid() && t.numItems == old(t.numItems) + 1 && t.tail == old(t.tail) && t.bloom == old(t.bloom)
    ensures oomed == (old(Full(t.State(), b)) && !mallocOk)
    ensures oomed ==>
      && t.items == old(t.items) && t.State() == old(t.State()) && t.buckets == old(t.buckets)
      && t.log2NumBuckets == old(t.log2NumBuckets) && t.chains == old(t.chains)
    ensures !oomed ==> t.items == old(t.items) + {x} && t.State() == WithItem(old(t.State()), x, old(t.numItems))
    ensures t.buckets == old(t.buckets) || fresh(t.buckets)
  {
    hide LowBits, And, Table.ValidBut, Table.Valid, Full, WithItem;
    AndMask(x.hashv, t.log2NumBuckets);
    var bkt := And(x.hashv, t.numBuckets - 1);
    oomed := t.AddToBkt(x, bkt, mallocOk);
    t.numItems := t.numItems + 1;
  }

  /** What entering needs of the table. */
  lemma TableFacts(dst: Hash, x: Handle, sel: seq<Handle>)
    requires Entering(dst, x, sel)
    ensures dst.tbl != null && dst.Separate() && Strung(dst, sel + [x]) && x !in sel && dst.order == sel
    ensures var t := dst.tbl; var b := LowBits(x.hv, t.log2NumBuckets);
            && t.Valid() && x !in t.items && x.hashv == x.hv && b < t.buckets.Length == |t.chains|
            && b == BucketOf(Built(sel), x) && t.log2NumBuckets == Log2(Built(sel))
            && t.numBuckets == Pow2(t.log2NumBuckets) && t.numItems == |sel| && t.items == Elements(sel)
            && Elements(sel + [x]) == Elements(sel) + {x} && (forall h :: h in t.items ==> h in sel)
            && dst.head != null && dst.head.tbl == t && dst.FilterOk(t.bloom, sel) && t.State() == Built(sel)
            && (forall h :: h in sel + [x] ==> h == x || h in sel)
    ensures sel == [] ==> !Full(Built(sel), BucketOf(Built(sel), x))
  {
  }

  /** The element enters the table, or leaves list and table again. */
  method Enter(dst: Hash, x: Handle, mallocOk: bool, ghost sel: seq<Handle>) returns (oomed: bool)
    requires Entering(dst, x, sel)
    requires var s := Built(sel); Full(s, BucketOf(s, x)) && mallocOk ==> 2 * Pow2(Log2(s)) < TWO32
    modifies dst`order, dst.Repr(), sel, x
    ensures oomed == (Full(Built(sel), BucketOf(Built(sel), x)) && !mallocOk)
    ensures Selected(dst, if oomed then sel else sel + [x]) && fresh(dst.Repr() - old(dst.Repr()))
    ensures oomed ==> sel != []
  {
    hide Selected, Entering, Strung, Hash.Holds, Hash.FilterOk, Table.ValidBut, Table.Valid, Table.State, LowBits,
        WithItem, Built,
         Elements, Log2, Full;
    TableFacts(dst, x, sel);
    ghost var t, b := dst.tbl, LowBits(x.hv, dst.tbl.log2NumBuckets);
    assert Full(t.State(), b) == Full(Built(sel), BucketOf(Built(sel), x));
    oomed := AddThenCount(dst.head.tbl, x, mallocOk, b);
    if oomed {
      assert sel != [];
      Undo(dst, x, sel, b);
    } else {
      dst.order := sel + [x];
      dst.MarkBloom(x, sel);
      dst.HoldsNow();
      BuiltNext(sel, x);
      SelectedNow(dst, sel + [x]);
    }
  }

  /** HASH_ROLLBACK_BKT and HASH_DELETE_HH for the element just linked, which is neither the first nor the tail. */
  method Undo(dst: Hash, x: Handle, ghost sel: seq<Handle>, ghost b: nat)
    requires Strung(dst, sel + [x]) && dst.order == sel && sel != [] && x !in sel && x.hashv == x.hv && dst.Separate()
    requires dst.head != null && dst.head.tbl == dst.tbl && dst.FilterOk(dst.tbl.bloom, sel)
      && dst.tbl.State() == Built(sel)
    requires dst.tbl.Valid() && dst.tbl.items == Elements(sel) && dst.tbl.numItems == |sel| + 1 && x !in dst.tbl.items
    requires b == LowBits(x.hv, dst.tbl.log2NumBuckets) && b < |dst.tbl.chains|
      && forall h :: h in dst.tbl.items ==> h in sel
    modifies dst.tbl`chains, dst.tbl`items, dst.tbl`numItems, dst.tbl.buckets, sel, x
    ensures Selected(dst, sel) && dst.Repr() == old(dst.Repr())
  {
    hide Selected, Strung, Hash.Holds, Hash.FilterOk, Table.ValidBut, Table.Valid, Table.State, LowBits, Built,
        Elements, Linked;
    StrungParts(dst, x, sel);
    RollbackAndUnlink(dst, x, sel, b);
    DropLost(dst, x, sel, b);
    x.tbl := null;
    StrungNow(dst, sel);
    dst.HoldsNow();
    SelectedNow(dst, sel);
  }

  lemma SelectedNow(dst: Hash, sel: seq<Handle>)
    requires sel != [] && dst.order == sel && dst.Separate() && Strung(dst, sel) && dst.Holds(sel)
    requires dst.FilterOk(dst.tbl.bloom, sel) && dst.tbl.State() == Built(sel)
    ensures Selected(dst, sel)
  {
  }

  /** HASH_ROLLBACK_BKT, and HASH_DELETE_HH's half on the links. */
  method RollbackAndUnlink(dst: Hash, x: Handle, ghost sel: seq<Handle>, ghost b: nat)
    requires Linked(sel + [x]) && (sel + [x])[|sel|] == x && x !in sel && x.hashv == x.hv && dst.Separate()
    requires dst.head != null && dst.tbl != null && dst.head.tbl == dst.tbl && dst.FilterOk(dst.tbl.bloom, sel)
    requires dst.tbl.Valid() && x !in dst.tbl.items && b == LowBits(x.hv, dst.tbl.log2NumBuckets)
      && b < |dst.tbl.chains|
    modifies dst.tbl.buckets, sel`prev, sel`next, x`prev, x`next, x`hhPrev, x`hhNext
    ensures Linked(sel) && dst.tbl.ValidBut(b) && x.hhPrev == null && x.hhNext == null
    ensures dst.tbl.State() == old(dst.tbl.State()) && dst.FilterOk(dst.tbl.bloom, sel)
  {
    hide Hash.FilterOk, Table.ValidBut, Table.Valid, Table.State, LowBits, Linked;
    dst.RollbackBkt(x, b);
    UnlinkLinks(x, sel + [x], |sel|);
    assert Without(sel + [x], |sel|) == sel;
  }

  /** HASH_DELETE_HH's half on the table, for an element its bucket has lost already. */
  method DropLost(dst: Hash, x: Handle, ghost sel: seq<Handle>, ghost b: nat)
    requires dst.head != null && dst.tbl != null && dst.head.tbl == dst.tbl && x.hashv == x.hv && dst.tbl.numItems >= 1
    requires b == LowBits(x.hv, dst.tbl.log2NumBuckets) && b < |dst.tbl.chains|
      && dst.FilterOk(dst.tbl.bloom, sel) && dst.Separate()
    requires dst.tbl.ValidBut(b) && x !in dst.tbl.items && x.hhPrev == null && x.hhNext == null
    modifies dst.tbl`chains, dst.tbl`items, dst.tbl`numItems, dst.tbl.buckets, dst.tbl.items`hhPrev,
        dst.tbl.items`hhNext
    ensures dst.tbl.Valid() && dst.tbl.items == old(dst.tbl.items) && dst.tbl.numItems == old(dst.tbl.numItems) - 1
    ensures dst.tbl.State() == old(dst.tbl.State()) && dst.FilterOk(dst.tbl.bloom, sel)
  {
    hide Table.ValidBut, Table.Valid, Hash.FilterOk, LowBits;
    ghost var c := dst.tbl.chains[b];
    assert Without(c, |c|) == c && dst.tbl.chains[b := c] == dst.tbl.chains;
    dst.Drop(x, b, |c|);
  }

  lemma StrungParts(dst: Hash, x: Handle, sel: seq<Handle>)
    requires Strung(dst, sel + [x]) && sel != []
    ensures dst.tbl != null && dst.head == sel[0] && dst.tbl.tail == sel[0] && Linked(sel + [x])
      && (sel + [x])[|sel|] == x
    ensures forall i {:trigger sel[i].tbl} :: 0 <= i < |sel| ==> sel[i].tbl == dst.tbl
  {
    assert forall i :: 0 <= i < |sel| ==> (sel + [x])[i] == sel[i];
  }

  lemma StrungNow(dst: Hash, sel: seq<Handle>)
    requires sel != [] && dst.tbl != null && dst.head == sel[0] && dst.tbl.tail == sel[0] && Linked(sel)
    requires forall i {:trigger sel[i].tbl} :: 0 <= i < |sel| ==> sel[i].tbl == dst.tbl
    ensures Strung(dst, sel)
  {
  }

  lemma BuiltNext(sel: seq<Handle>, x: Handle)
    ensures Built(sel + [x]) == WithItem(Built(sel), x, |sel|)
  {
    assert (sel + [x])[..|sel + [x]| - 1] == sel;
  }

  /** One element that meets the condition: its second handle `x` joins the destination, if memory lasts. */
  method Take(dst: Hash, x: Handle, hashv: Word, mem: Mem, last: Handle?, ghost sel: seq<Handle>) returns (oomed: bool)
    requires Selected(dst, sel) && last == Last(sel) && x !in sel && hashv == x.hv
    requires CanGrow(Model(sel, Built(sel)), x, mem)
    modifies dst`head, dst`tbl, dst`order, dst.Repr(), sel, x
    ensures oomed == OutOfMemory(Model(sel, Built(sel)), x, mem, dst.bloomOn)
    ensures Selected(dst, if oomed then sel else sel + [x]) && fresh(dst.Repr() - old(dst.Repr()))
  {
    hide Selected, Entering, Built, Log2, Linked, Full;
    x.hashv := hashv;
    assert dst.Repr() == old(dst.Repr());
    HeadNull(dst, sel);
    if dst.head == null {
      oomed := TakeFirst(dst, x, mem, last);
      if oomed {
        return;
      }
    } else {
      Continue(dst, x, last, sel);
    }
    oomed := Enter(dst, x, mem.expand, sel);
  }

  /** The links and the table of the first element. */
  method TakeFirst(dst: Hash, x: Handle, mem: Mem, last: Handle?) returns (oomed: bool)
    requires Selected(dst, []) && dst.head == null && last == null && x.hashv == x.hv
    modifies dst`head, dst`tbl, x
    ensures oomed == OutOfMemory(Model([], Built([])), x, mem, dst.bloomOn) && fresh(dst.Repr())
    ensures oomed ==> Selected(dst, [])
    ensures !oomed ==> Entering(dst, x, []) && !Full(Built([]), BucketOf(Built([]), x))
  {
    hide Selected, Entering, Linked, Built, OutOfMemory, Full;
    HeadNull(dst, []);
    Link(x, last, []);
    assert [] + [x] == [x];
    assert dst.Repr() == old(dst.Repr());
    oomed := Begin(dst, x, mem);
    NotFull(x);
  }

  /** The first element of a table never doubles it. */
  lemma NotFull(x: Handle)
    ensures !Full(Built([]), BucketOf(Built([]), x))
  {
  }

  lemma HeadNull(dst: Hash, sel: seq<Handle>)
    requires Selected(dst, sel)
    ensures dst.head == null <==> sel == []
    ensures Linked([]) && Last([]) == null && (dst.tbl == null <==> sel == [])
  {
  }

  // ---------- walking the source ----------

  ghost function Seconds(s: seq<Handle>, q: Query): set<Handle> { set h | h in s :: q.at(h) }

  /** Second handles belong to the same element, are handles of nothing in the source, and are one per element. */
  ghost predicate Embedded(s: seq<Handle>, q: Query) {
    && (forall h :: h in s ==> q.at(h).elt == h.elt && q.at(h).hv == h.hv && q.at(h) !in s)
    && (forall g, h :: g in s && h in s && q.at(g) == q.at(h) ==> g == h)
  }

  lemma {:induction false} WalkMembers(chains: seq<seq<Handle>>, h: Handle)
    ensures h in Walk(chains) <==> exists b {:trigger chains[b]} :: 0 <= b < |chains| && h in chains[b]
  {
    if chains != [] { WalkMembers(chains[..|chains| - 1], h); }
  }

  /** Only elements that meet the condition are picked. */
  lemma {:induction false} PickedMembers(hs: seq<Handle>, q: Query, x: Handle)
    requires x in Picked(hs, q)
    ensures exists h {:trigger q.at(h)} :: h in hs && q.cond(h.elt) && q.at(h) == x
  {
    hide Built, OutOfMemory;
    var r, g := hs[..|hs| - 1], hs[|hs| - 1];
    if x in Picked(r, q) {
      PickedMembers(r, q, x);
      var h :| h in r && q.cond(h.elt) && q.at(h) == x;
      assert h in hs;
    } else {
      assert q.at(g) == x;
    }
  }

  lemma PickedNext(hs: seq<Handle>, h: Handle, q: Query)
    ensures Picked(hs + [h], q) == Next(Picked(hs, q), h, q)
  {
    hide Next;
    assert (hs + [h])[..|hs + [h]| - 1] == hs;
  }

  /** What has been walked before place `i` of bucket `b`. */
  ghost function Walked(chains: seq<seq<Handle>>, b: nat, i: nat): seq<Handle>
    requires b < |chains| && i <= |chains[b]|
  {
    Walk(chains[..b]) + chains[b][..i]
  }

  /** The element at place `i` of bucket `b`, its link, and that it is new to the walk. */
  lemma AtPlace(src: Hash, q: Query, b: nat, i: nat)
    requires src.Valid() && src.tbl != null && Embedded(src.order, q) && b < |src.tbl.chains| && i < |src.tbl.chains[b]|
    ensures var c := src.tbl.chains[b]; var h := c[i];
            && h in src.order && h.hashv == h.hv && h.hhNext == (if i + 1 < |c| then c[i + 1] else null)
            && q.at(h) !in Picked(Walked(src.tbl.chains, b, i), q)
  {
    hide LowBits, Picked, OutOfMemory;
    var chains, h := src.tbl.chains, src.tbl.chains[b][i];
    assert h in src.tbl.items;
    if q.at(h) in Picked(Walked(chains, b, i), q) { PickedMembers(Walked(chains, b, i), q, q.at(h)); }
    WalkMembers(chains[..b], h);
    WalkInside(src, b, i);
    assert forall j :: 0 <= j < i ==> chains[b][j] != h;
    assert forall d :: 0 <= d < b ==> chains[..b][d] == chains[d];
  }

  /** Everything walked is in the source. */
  lemma WalkInside(src: Hash, b: nat, i: nat)
    requires src.Valid() && src.tbl != null && b < |src.tbl.chains| && i <= |src.tbl.chains[b]|
    ensures forall h :: h in Walked(src.tbl.chains, b, i) ==> h in src.order
  {
    hide LowBits;
    var chains: seq<seq<Handle>> := src.tbl.chains;
    forall h | h in Walked(chains, b, i) ensures h in src.order {
      WalkMembers(chains[..b], h);
      if h in chains[b][..i] {
        assert h in src.tbl.items;
      } else {
        var d: nat :| d < |chains[..b]| && h in chains[d];
        assert h in chains[d] && h in src.tbl.items;
      }
    }
  }

  lemma {:induction false} PickedPrefix(hs: seq<Handle>, more: seq<Handle>, q: Query)
    ensures Picked(hs, q) <= Picked(hs + more, q)
    decreases |more|
  {
    if more == [] {
      assert hs + more == hs;
    } else {
      var m := more[..|more| - 1];
      PickedPrefix(hs, m, q);
      assert hs + more == hs + m + [more[|more| - 1]];
      PickedNext(hs + m, more[|more| - 1], q);
    }
  }

  lemma {:induction false} WalkPrefix(chains: seq<seq<Handle>>, b: nat, i: nat) returns (more: seq<Handle>)
    requires b < |chains| && i <= |chains[b]|
    ensures Walk(chains) == Walked(chains, b, i) + more
    decreases |chains|
  {
    var r, c := chains[..|chains| - 1], chains[|chains| - 1];
    if b == |r| {
      more := c[i..];
      assert c == c[..i] + c[i..];
    } else {
      more := WalkPrefix(r, b, i);
      more := more + c;
      assert r[..b] == chains[..b];
    }
  }

  lemma {:induction false} FitsPrefix(hs: seq<Handle>, more: seq<Handle>, q: Query)
    requires Fits(hs + more, q)
    ensures Fits(hs, q)
    decreases |more|
  {
    hide Picked, Built, CanGrow;
    if more == [] {
      assert hs + more == hs;
    } else {
      var m := more[..|more| - 1];
      assert (hs + more)[..|hs + more| - 1] == hs + m;
      FitsPrefix(hs, m, q);
    }
  }

  lemma FitsHere(chains: seq<seq<Handle>>, b: nat, i: nat, q: Query)
    requires b < |chains| && i < |chains[b]| && Fits(Walk(chains), q) && q.cond(chains[b][i].elt)
    ensures var sel := Picked(Walked(chains, b, i), q); CanGrow(Model(sel, Built(sel)), q.at(chains[b][i]),
      q.mem(chains[b][i]))
  {
    hide Picked, Built, CanGrow, Walk, Walked;
    var more := WalkPrefix(chains, b, i + 1);
    FitsPrefix(Walked(chains, b, i + 1), more, q);
    WalkedNext(chains, b, i);
    var hs, h := Walked(chains, b, i), chains[b][i];
    assert (hs + [h])[..|hs + [h]| - 1] == hs;
  }

  lemma WalkedNext(chains: seq<seq<Handle>>, b: nat, i: nat)
    requires b < |chains| && i < |chains[b]|
    ensures Walked(chains, b, i + 1) == Walked(chains, b, i) + [chains[b][i]]
  {
    assert chains[b][..i + 1] == chains[b][..i] + [chains[b][i]];
  }

  lemma WalkedEnds(chains: seq<seq<Handle>>, b: nat)
    requires b < |chains|
    ensures Walked(chains, b, 0) == Walk(chains[..b]) && Walked(chains, b, |chains[b]|) == Walk(chains[..b + 1])
  {
    assert chains[..b + 1][..b] == chains[..b];
  }

  /** The source and its second handles, as they are all through the selection. */
  ghost predicate Walking(dst: Hash, src: Hash, q: Query)
    reads src, src.Repr(), src.order
  {
    && dst != src && dst.bloomOn == q.bloom && src.Valid() && src.tbl != null && Embedded(src.order, q)
    && Fits(Walk(src.tbl.chains), q)
  }

  /** The source while `hs` has been walked and `chains` are its chains, and what has been selected by then. */
  ghost predicate Reached(dst: Hash, src: Hash, q: Query, chains: seq<seq<Handle>>, hs: seq<Handle>, last: Handle?)
    reads src, src.Repr(), src.order, dst, dst.Repr(), Picked(hs, q)
  {
    && Walking(dst, src, q) && src.tbl.chains == chains && dst.Repr() !! src.Repr() && src !in dst.Repr()
    && Selected(dst, Picked(hs, q)) && last == Last(Picked(hs, q))
  }

  /** Selecting one element of the source, or passing it over. */
  method SelectOne(dst: Hash, src: Hash, q: Query, h: Handle, last: Handle?, ghost chains: seq<seq<Handle>>,
      ghost b: nat, ghost i: nat)
    returns (last1: Handle?)
    requires b < |chains| && i < |chains[b]| && chains[b][i] == h
      && Reached(dst, src, q, chains, Walked(chains, b, i), last)
    modifies dst`head, dst`tbl, dst`order, dst.Repr(), Seconds(src.order, q)
    ensures Reached(dst, src, q, chains, Walked(chains, b, i + 1), last1) && src.order == old(src.order)
    ensures fresh(dst.Repr() - old(dst.Repr()))
  {
    hide Hash.Valid, Embedded, Fits, Picked, Walked, Walk, Selected, Built, OutOfMemory, CanGrow, Seconds;
    ghost var sel := Picked(Walked(chains, b, i), q);
    last1 := last;
    WalkedNext(chains, b, i);
    PickedNext(Walked(chains, b, i), h, q);
    if q.cond(h.elt) {
      AtPlace(src, q, b, i);
      FitsHere(chains, b, i, q);
      Apart(src, q, b, i);
      var x := q.at(h);
      Disjoint(dst, src, sel + [x]);
      var oomed := Take(dst, x, h.hashv, q.mem(h), last, sel);
      if !oomed {
        last1 := x;
      }
      assert src.Repr() == old(src.Repr());
    }
  }

  lemma Disjoint(dst: Hash, src: Hash, s: seq<Handle>)
    requires dst != src && forall k {:trigger s[k]} :: 0 <= k < |s| ==> s[k] !in src.order
    ensures forall k {:trigger src.order[k]} :: 0 <= k < |src.order| ==>
        && src.order[k] !in s
        && (src.order[k] as object) !in dst.Repr()
    ensures src !in dst.Repr() && dst !in src.Repr()
  {
  }

  /** The second handles picked so far are second handles, and so is the next; none is part of the source. */
  lemma Apart(src: Hash, q: Query, b: nat, i: nat)
    requires src.Valid() && src.tbl != null && Embedded(src.order, q) && b < |src.tbl.chains| && i < |src.tbl.chains[b]|
    ensures var sel := Picked(Walked(src.tbl.chains, b, i), q);
            forall k {:trigger sel[k]} :: 0 <= k < |sel| ==> sel[k] in Seconds(src.order, q) && sel[k] !in src.order
    ensures var h := src.tbl.chains[b][i];
        q.at(h) in Seconds(src.order, q) && q.at(h) !in src.order
        && q.at(h).hv == h.hv
  {
    hide Picked, Walked;
    AtPlace(src, q, b, i);
    WalkInside(src, b, i);
    var sel := Picked(Walked(src.tbl.chains, b, i), q);
    forall k {:trigger sel[k]} | 0 <= k < |sel|
      ensures sel[k] in Seconds(src.order, q) && sel[k] !in src.order
    {
      PickedMembers(Walked(src.tbl.chains, b, i), q, sel[k]);
    }
  }

  /** Where a bucket's chain starts. */
  lemma ChainStart(dst: Hash, src: Hash, q: Query, chains: seq<seq<Handle>>, b: nat, last: Handle?)
    requires b <= |chains| && Reached(dst, src, q, chains, Walk(chains[..b]), last)
    ensures src.head != null && src.head.tbl != null && src.head.tbl.numBuckets == src.head.tbl.buckets.Length
      == |chains|
    ensures b < |chains| ==>
      && src.head.tbl.buckets[b].hhHead == First(chains[b])
      && Walked(chains, b, 0) == Walk(chains[..b]) && Walked(chains, b, |chains[b]|) == Walk(chains[..b + 1])
  {
    hide Walk, Picked, Selected, LowBits, Fits;
    if b < |chains| {
      assert Chain(src.tbl.buckets[b].hhHead, chains[b]);
      WalkedEnds(chains, b);
    }
  }

  /** Where an element's chain goes on. */
  lemma NextInChain(dst: Hash, src: Hash, q: Query, chains: seq<seq<Handle>>, hs: seq<Handle>, b: nat, i: nat,
      last: Handle?)
    requires b < |chains| && i < |chains[b]| && Reached(dst, src, q, chains, hs, last)
    ensures chains[b][i].hhNext == if i + 1 < |chains[b]| then chains[b][i + 1] else null
  {
    hide Walk, Picked, Selected, Fits, Hash.Valid;
    AtPlace(src, q, b, i);
  }

  /** The inner loop, over one bucket's chain. */
  method SelectChain(dst: Hash, src: Hash, q: Query, last: Handle?, ghost chains: seq<seq<Handle>>,
      b: nat) returns (last1: Handle?)
    requires b < |chains| && Reached(dst, src, q, chains, Walk(chains[..b]), last)
    modifies dst`head, dst`tbl, dst`order, dst.Repr(), Seconds(src.order, q)
    ensures Reached(dst, src, q, chains, Walk(chains[..b + 1]), last1) && src.order == old(src.order)
    ensures fresh(dst.Repr() - old(dst.Repr()))
  {
    hide Reached, Walk, Walked, Seconds;
    ghost var i := 0;
    ChainStart(dst, src, q, chains, b, last);
    last1 := last;
    var h := src.head.tbl.buckets[b].hhHead;
    while h != null
      invariant 0 <= i <= |chains[b]| && h == if i < |chains[b]| then chains[b][i] else null
      invariant Reached(dst, src, q, chains, Walked(chains, b, i), last1)
      invariant fresh(dst.Repr() - old(dst.Repr())) && src.order == old(src.order)
      decreases |chains[b]| - i
    {
      last1 := SelectOne(dst, src, q, h, last1, chains, b, i);
      NextInChain(dst, src, q, chains, Walked(chains, b, i + 1), b, i, last1);
      h := h.hhNext;
      i := i + 1;
    }
  }

  /** HASH_SELECT into an empty hash: the destination gets the second handles of exactly the elements that meet the
      condition and for which memory lasts, in the order of the bucket walk, and the source stays as it is. */
  method Select(dst: Hash, src: Hash, q: Query)
    requires dst != src && dst.bloomOn == q.bloom && src.Valid() && dst.Valid() && dst.head == null
      && Embedded(src.order, q)
    requires src.tbl != null ==> Fits(Walk(src.tbl.chains), q)
    modifies dst`head, dst`tbl, dst`order, Seconds(src.order, q)
    ensures src.Valid() && src.State() == old(src.State()) && src.head == old(src.head)
    ensures Selected(dst, if src.tbl == null then [] else Picked(Walk(src.tbl.chains), q))
  {
    hide Hash.Valid, Hash.State, Embedded, Fits, Picked, Walk, Selected, Seconds, LowBits, Reached;
    src.Heads();
    dst.Heads();
    NothingSelected(dst, q);
    if src.head != null {
      Start(dst, src, q);
      SelectAll(dst, src, q, src.tbl.chains);
      Finish(dst, src, q, src.tbl.chains);
    }
  }

  lemma Start(dst: Hash, src: Hash, q: Query)
    requires Walking(dst, src, q) && dst.tbl == null && Selected(dst, [])
    ensures Reached(dst, src, q, src.tbl.chains, Walk([]), null)
  {
    NothingSelected(dst, q);
  }

  lemma Finish(dst: Hash, src: Hash, q: Query, chains: seq<seq<Handle>>)
    requires exists last :: Reached(dst, src, q, chains, Walk(chains), last)
    ensures src.Valid() && src.tbl != null && src.tbl.chains == chains && Selected(dst, Picked(Walk(chains), q))
  {
  }

  /** The outer loop, over the buckets. */
  method SelectAll(dst: Hash, src: Hash, q: Query, ghost chains: seq<seq<Handle>>)
    requires Reached(dst, src, q, chains, Walk([]), null) && dst.tbl == null && src.tbl != null
    modifies dst`head, dst`tbl, dst`order, Seconds(src.order, q)
    ensures src.State() == old(src.State()) && exists last :: Reached(dst, src, q, chains, Walk(chains), last)
  {
    hide Reached, Walk, Hash.State, Seconds;
    var last: Handle? := null;
    var b := 0;
    assert chains[..0] == [];
    ChainStart(dst, src, q, chains, 0, last);
    while b < src.head.tbl.numBuckets
      invariant 0 <= b <= |chains|
      invariant Reached(dst, src, q, chains, Walk(chains[..b]), last) && fresh(dst.Repr())
      invariant src.head != null && src.head.tbl != null && src.head.tbl.numBuckets == |chains|
    {
      last := SelectChain(dst, src, q, last, chains, b);
      b := b + 1;
      ChainStart(dst, src, q, chains, b, last);
    }
    assert chains[..b] == chains;
  }

  lemma NothingSelected(dst: Hash, q: Query)
    ensures Picked(Walk([]), q) == [] && Last([]) == null
    ensures dst.head == null && dst.tbl == null && dst.order == [] ==> Selected(dst, [])
  {
  }

  // ---------- what the destination is ----------

  lemma {:induction false} PickedAt(hs: seq<Handle>, q: Query, i: nat)
    requires NoDup(hs) && Embedded(hs, q) && i < |hs|
    ensures q.at(hs[i]) in Picked(hs, q) <==> Joins(Picked(hs[..i], q), hs[i], q)
  {
    hide Joins, Picked, Embedded;
    var n := |hs| - 1;
    var r, h := hs[..n], hs[n];
    assert hs == r + [h];
    PickedNext(r, h, q);
    EmbeddedPart(hs, q, n);
    if i == n {
      if q.at(h) in Picked(r, q) { PickedMembers(r, q, q.at(h)); }
    } else {
      PickedAt(r, q, i);
      assert r[..i] == hs[..i] && hs[i] != h;
    }
  }

  lemma EmbeddedPart(hs: seq<Handle>, q: Query, n: nat)
    requires Embedded(hs, q) && n <= |hs|
    ensures Embedded(hs[..n], q)
    ensures forall g, h :: g in hs && h in hs && q.at(g) == q.at(h) ==> g == h
  {
  }

  /** The walk goes bucket by bucket, and along each chain: place `i` of bucket `b` comes after all buckets before. */
  lemma {:induction false} WalkAt(chains: seq<seq<Handle>>, b: nat, i: nat)
    requires b < |chains| && i < |chains[b]|
    ensures var k := HashCheck.TotalLen(chains[..b]) + i; k < |Walk(chains)| && Walk(chains)[k] == chains[b][i]
    decreases |chains|
  {
    var r := chains[..|chains| - 1];
    WalkLength(r);
    if b < |r| {
      WalkAt(r, b, i);
      assert r[..b] == chains[..b];
    } else {
      assert chains[..b] == r;
    }
  }

  lemma {:induction false} WalkLength(chains: seq<seq<Handle>>)
    ensures |Walk(chains)| == HashCheck.TotalLen(chains)
  {
    if chains != [] { WalkLength(chains[..|chains| - 1]); }
  }

  /** The walk visits every element of the source once. */
  lemma WalkOnce(src: Hash)
    requires src.Valid() && src.tbl != null
    ensures NoDup(Walk(src.tbl.chains)) && forall h :: h in Walk(src.tbl.chains) <==> h in src.order
  {
    hide LowBits, Walk;
    forall h | true ensures h in Walk(src.tbl.chains) <==> h in src.order {
      WalkMembers(src.tbl.chains, h);
      InTable(src, h);
    }
    WalkNoDup(src.tbl.chains, src.tbl.log2NumBuckets);
  }

  lemma {:induction false} WalkNoDup(chains: seq<seq<Handle>>, k: nat)
    requires BySlot(chains, k) && forall b {:trigger chains[b]} :: 0 <= b < |chains| ==> NoDup(chains[b])
    ensures NoDup(Walk(chains))
  {
    hide LowBits;
    if chains != [] {
      var r, c := chains[..|chains| - 1], chains[|chains| - 1];
      assert forall b :: 0 <= b < |r| ==> r[b] == chains[b];
      WalkNoDup(r, k);
      forall h | h in c ensures h !in Walk(r) {
        WalkMembers(r, h);
        if b: nat :| b < |r| && h in r[b] { OneBucket(chains, k, b, |r|, h); }
      }
      NoDupJoin(Walk(r), c);
    }
  }

  lemma OneBucket(chains: seq<seq<Handle>>, k: nat, b: nat, c: nat, h: Handle)
    requires BySlot(chains, k) && b < |chains| && c < |chains| && h in chains[b] && h in chains[c]
    ensures b == c
  {
    hide LowBits;
    var i :| 0 <= i < |chains[b]| && chains[b][i] == h;
    var j :| 0 <= j < |chains[c]| && chains[c][j] == h;
    assert LowBits(chains[b][i].hv, k) == b && LowBits(chains[c][j].hv, k) == c;
  }

  lemma NoDupJoin(a: seq<Handle>, b: seq<Handle>)
    requires NoDup(a) && NoDup(b) && forall h :: h in b ==> h !in a
    ensures NoDup(a + b)
  {
    var c := a + b;
    forall i, j | 0 <= i < j < |c| ensures c[i] != c[j] {
      if i < |a| <= j { assert c[j] in b && c[i] in a; }
    }
  }

  lemma EmbeddedSame(s: seq<Handle>, t: seq<Handle>, q: Query)
    requires Embedded(s, q) && forall h :: h in t <==> h in s
    ensures Embedded(t, q)
  {
  }

  /** An element of the source is selected exactly when it meets the condition and, with what was selected before it,
      its
      addition does not run out of memory. */
  lemma SelectsExactly(src: Hash, q: Query, i: nat)
    requires src.Valid() && src.tbl != null && Embedded(src.order, q) && i < |Walk(src.tbl.chains)|
    ensures var hs := Walk(src.tbl.chains); q.at(hs[i]) in Picked(hs, q) <==> Joins(Picked(hs[..i], q), hs[i], q)
  {
    hide Joins, Picked, Walk, Hash.Valid;
    WalkOnce(src);
    EmbeddedSame(src.order, Walk(src.tbl.chains), q);
    PickedAt(Walk(src.tbl.chains), q, i);
  }

  /** When memory lasts, the second handles selected are those of exactly the source's elements that meet the
      condition. */
  lemma SelectsAll(src: Hash, q: Query, x: Handle)
    requires src.Valid() && src.tbl != null && Embedded(src.order, q)
    requires forall h {:trigger q.mem(h)} :: q.mem(h) == Mem(true, true, true, true)
    ensures x in Picked(Walk(src.tbl.chains), q) <==> exists h {:trigger q.at(h)} ::
        h in src.order
        && q.cond(h.elt) && q.at(h) == x
  {
    hide Picked, Walk, Hash.Valid, Built, Embedded;
    var hs := Walk(src.tbl.chains);
    WalkOnce(src);
    if x in Picked(hs, q) { PickedMembers(hs, q, x); }
    if h :| h in src.order && q.cond(h.elt) && q.at(h) == x {
      var i :| 0 <= i < |hs| && hs[i] == h;
      SelectsExactly(src, q, i);
    }
  }

  lemma InTable(src: Hash, h: Handle)
    requires src.Valid() && src.tbl != null
    ensures h in src.order <==> exists b {:trigger src.tbl.chains[b]} ::
        0 <= b < |src.tbl.chains|
        && h in src.tbl.chains[b]
  {
    hide LowBits;
    if h in src.order {
      assert h in src.tbl.items && h in src.tbl.chains[LowBits(h.hv, src.tbl.log2NumBuckets)];
    }
  }

  /** No two of them have the same key. */
  lemma SelectedUnique(dst: Hash, src: Hash, q: Query)
    requires src.Valid() && src.tbl != null && Embedded(src.order, q)
    requires Selected(dst, Picked(Walk(src.tbl.chains), q))
    ensures UniqueKeys(Picked(Walk(src.tbl.chains), q))
  {
    hide Picked, Walk, Hash.Valid, Hash.Holds;
    var sel := Picked(Walk(src.tbl.chains), q);
    src.Heads();
    WalkOnce(src);
    forall i, j | 0 <= i < j < |sel|
      ensures !(sel[i].hv == sel[j].hv && sel[i].elt.id == sel[j].elt.id)
    {
      PickedMembers(Walk(src.tbl.chains), q, sel[i]);
      PickedMembers(Walk(src.tbl.chains), q, sel[j]);
      var g :| g in src.order && q.at(g) == sel[i];
      var h :| h in src.order && q.at(h) == sel[j];
      assert sel[i] != sel[j] && g != h;
      KeysDiffer(src.order, g, h);
    }
  }

  lemma KeysDiffer(s: seq<Handle>, g: Handle, h: Handle)
    requires UniqueKeys(s) && g in s && h in s && g != h
    ensures !(g.hv == h.hv && g.elt.id == h.elt.id)
  {
    var i :| 0 <= i < |s| && s[i] == g;
    var j :| 0 <= j < |s| && s[j] == h;
    if i < j { assert !(s[i].hv == s[j].hv && s[i].elt.id == s[j].elt.id); }
  }

  /** A lookup in the destination's bucket finds the selected element under the key, and the filter, if any, never
      hides it. */
  lemma SelectedFinds(dst: Hash, sel: seq<Handle>, key: Key, hv: Word)
    requires Selected(dst, sel) && sel != [] && UniqueKeys(sel)
    ensures var t := dst.tbl; LowBits(hv, t.log2NumBuckets) < |t.chains|
    ensures FirstMatch(dst.tbl.chains[LowBits(hv, dst.tbl.log2NumBuckets)], key, hv) == FirstMatch(sel, key, hv)
    ensures dst.tbl.bloom != null && FirstMatch(sel, key, hv) != null ==>
      LowBits(hv, dst.bloomNbits) in dst.tbl.bloom.marked
  {
    hide LowBits;
    var c := dst.tbl.chains[LowBits(hv, dst.tbl.log2NumBuckets)];
    FirstMatchFinds(sel, key, hv);
    FirstMatchFinds(c, key, hv);
    var g, h := FirstMatch(c, key, hv), FirstMatch(sel, key, hv);
    if h != null { assert h in dst.tbl.items && h in c; }
    if g != null { assert g in dst.tbl.items && g in sel; }
    if g != null && h != null && g != h { KeysDiffer(sel, g, h); }
  }

  /** The destination is a valid hash exactly when at most one element was selected: with more, the tail pointer is
      stale,
      and the next element added at the end would be linked after the first. */
  lemma ValidWhen(dst: Hash, sel: seq<Handle>)
    requires Selected(dst, sel) && UniqueKeys(sel)
    ensures dst.Valid() <==> |sel| <= 1
  {
    hide Table.ValidBut, Table.Valid;
    if sel != [] {
      assert forall i :: 0 <= i < |sel| ==> sel[i].tbl == dst.tbl;
    }
  }
}
