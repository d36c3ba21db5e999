/** The hash the application holds by its head pointer: HASH_ADD, HASH_FIND, HASH_DELETE and their kin. */
module UtHash {
  import opened Words
  import opened BloomFilter
  import opened HashTable
  import opened AppList

  /** Which of the allocations an operation may make succeed. */
  datatype Mem = Mem(table: bool, buckets: bool, bloom: bool, expand: bool)

  ghost predicate UniqueKeys(s: seq<Handle>) {
    forall i, j :: 0 <= i < j < |s| ==> !(s[i].hv == s[j].hv && s[i].elt.id == s[j].elt.id)
  }

  lemma ElementsWithout(s: seq<Handle>, i: nat)
    requires i < |s| && NoDup(s)
    ensures Elements(Without(s, i)) == Elements(s) - {s[i]}
    ensures |Without(s, i)| == |s| - 1
  {
    var r := Without(s, i);
    forall h | h in s && h != s[i]
      ensures h in r
    {
      var t :| 0 <= t < |s| && s[t] == h;
      if t < i { assert r[t] == h; } else { assert r[t - 1] == h; }
    }
  }

  lemma ElementsInserted(s: seq<Handle>, i: nat, x: Handle)
    requires i <= |s|
    ensures Elements(Inserted(s, i, x)) == Elements(s) + {x} && |Inserted(s, i, x)| == |s| + 1
    ensures Without(Inserted(s, i, x), i) == s
  {
    var r := Inserted(s, i, x);
    assert r[i] == x;
    forall h | h in s
      ensures h in r
    {
      var t :| 0 <= t < |s| && s[t] == h;
      if t < i { assert r[t] == h; } else { assert r[t + 1] == h; }
    }
  }

  /** The application's list and the state of its table; without a table, the state a new one would start from. */
  datatype Model = Model(order: seq<Handle>, shape: Shape)

  ghost function EmptyModel(): Model { Model([], StartShape()) }

  /** Some allocation that adding `x` makes fails: those of a new table, or that of a doubling when one is due. */
  ghost predicate OutOfMemory(m: Model, x: Handle, mem: Mem, bloom: bool) {
    if m.order == [] then !(mem.table && mem.buckets && (bloom ==> mem.bloom))
    else Full(m.shape, BucketOf(m.shape, x)) && !mem.expand
  }

  /** If adding `x` doubles the table, 32 bits hold the new bucket count. */
  ghost predicate CanGrow(m: Model, x: Handle, mem: Mem) {
    m.order != [] && Full(m.shape, BucketOf(m.shape, x)) && mem.expand ==> 2 * Pow2(Log2(m.shape)) < TWO32
  }

  class Hash {
    const bloomOn: bool  // HASH_BLOOM is defined
    const bloomNbits: nat
    var head: Handle?
    ghost var order: seq<Handle>
    ghost var tbl: Table?

    constructor (bloom: bool, nbits: nat)
      ensures Valid() && State() == EmptyModel() && head == null && tbl == null
    {
      bloomOn, bloomNbits := bloom, nbits;
      head, tbl, order := null, null, [];
    }

    ghost function Repr(): set<object?>
      reads this, tbl
    {
      if tbl == null then {}
      else {tbl, tbl.buckets} + if tbl.bloom == null then {} else {tbl.bloom, tbl.bloom.bv}
    }

    /** The list links, the head and tail pointers, and every element's table pointer. */
    ghost predicate Threaded()
      reads this, order`prev, order`next, order`tbl, (if tbl == null then {} else {tbl})`tail
    {
      && order != [] && tbl != null && head == order[0] && Linked(order) && tbl.tail == order[|order| - 1]
      && (forall h :: h in order ==> h.tbl == tbl)
    }

    /** The table holds exactly the elements of `s`. */
    ghost predicate Holds(s: seq<Handle>)
      reads this, Repr(), s`hhPrev, s`hhNext, s`hashv
    {
      && tbl != null && tbl.items == Elements(s) && tbl.numItems == |s|
      && (forall h :: h in tbl.items ==> h in s)
      && tbl.Valid()
    }

    /** The Bloom filter, when there is one, has a bit for every element of `s`. */
    ghost predicate FilterOk(bloom: Bloom?, s: seq<Handle>)
      reads if bloom == null then {} else {bloom, bloom.bv}
    {
      && (bloomOn <==> bloom != null)
      && (bloom != null ==>
            && bloom.Valid() && bloom.nbits == bloomNbits
            && forall h {:trigger h in s} :: h in s ==> LowBits(h.hv, bloomNbits) in bloom.marked)
    }

    /** The filter's bytes are no part of the bucket array. */
    ghost predicate Separate()
      reads this`tbl, (if tbl == null then {} else {tbl})`bloom, (if tbl == null then {} else {tbl})`buckets
    {
      tbl != null && tbl.bloom != null ==> (tbl.bloom.bv as object) != tbl.buckets
    }

    ghost function State(): Model
      reads this`order, this`tbl, tbl, if tbl == null then {} else {tbl.buckets}
    {
      Model(order, if tbl == null then StartShape() else tbl.State())
    }

    ghost predicate Valid()
      reads this, Repr(), order
    {
      && UniqueKeys(order) && Separate()
      && (order == [] ==> head == null && tbl == null)
      && (order != [] ==> Threaded() && Holds(order) && FilterOk(tbl.bloom, order))
    }

    /** Links and pointers of HASH_DELETE_HH for an element that is not alone. */
    method Unthread(x: Handle, ghost i: nat)
      requires Threaded() && |order| >= 2 && i < |order| && order[i] == x
      modifies this`head, this`order, tbl`tail, order`prev, order`next
      ensures tbl == old(tbl) && order == Without(old(order), i) && Threaded()
      ensures unchanged(x) && head != null && head.tbl == tbl
    {
      if x == head.tbl.tail {
        head.tbl.tail := x.prev;
      }
      UnlinkLinks(x, order, i);
      if x.prev == null {
        head := x.next;
      }
      order := Without(order, i);
    }

    /** HASH_DELETE_HH; `j` is the place in the bucket chain, or past its end when the chain no longer has `x`. */
    method DeleteHH(x: Handle, ghost i: nat, ghost b: nat, ghost j: nat)
      requires Threaded() && i < |order| && order[i] == x && tbl.numItems == |order| && x.hashv == x.hv
      requires b == LowBits(x.hv, tbl.log2NumBuckets) && b < |tbl.chains| && j <= |tbl.chains[b]|
      requires j < |tbl.chains[b]| ==> tbl.chains[b][j] == x && Holds(order)
      requires j == |tbl.chains[b]| ==>
        |order| >= 2 && tbl.items == Elements(order) - {x} && tbl.ValidBut(b) && x.hhPrev == null && x.hhNext == null
      modifies this`head, this`order, this`tbl, tbl`tail, tbl`chains, tbl`items, tbl`numItems, tbl.buckets
      modifies order`prev, order`next, order`hhPrev, order`hhNext
      ensures order == Without(old(order), i)
      ensures order == [] ==> head == null && tbl == null
      ensures order != [] ==>
        && tbl == old(tbl) && Threaded() && Holds(order)
        && tbl.items == Elements(order) && tbl.numItems == |order| && tbl.Valid()
            && tbl.State() == DropAt(old(tbl.State()), b, j)
    {
      if x.prev == null && x.next == null {
        head, tbl, order := null, null, [];
      } else {
        DeleteOne(x, i, b, j);
      }
    }

    /** HASH_DELETE_HH for an element that is not alone. */
    method DeleteOne(x: Handle, ghost i: nat, ghost b: nat, ghost j: nat)
      requires Threaded() && |order| >= 2 && i < |order| && order[i] == x && tbl.numItems == |order| && x.hashv == x.hv
      requires b == LowBits(x.hv, tbl.log2NumBuckets) && b < |tbl.chains| && j <= |tbl.chains[b]|
      requires j < |tbl.chains[b]| ==> tbl.chains[b][j] == x && Holds(order)
      requires j == |tbl.chains[b]| ==>
        tbl.items == Elements(order) - {x} && tbl.ValidBut(b) && x.hhPrev == null && x.hhNext == null
      modifies this`head, this`order, tbl`tail, tbl`chains, tbl`items, tbl`numItems, tbl.buckets
      modifies order`prev, order`next, order`hhPrev, order`hhNext
      ensures tbl == old(tbl) && order == Without(old(order), i) && Threaded() && Holds(order)
      ensures tbl.items == Elements(order) && tbl.numItems == |order| && tbl.Valid()
        && tbl.State() == DropAt(old(tbl.State()), b, j)
    {
      hide LowBits, Linked, Elements, Without, Threaded, Holds, Table.ValidBut, Table.Valid;
      BeforeDelete(x, i, b, j);
      Unthread(x, i);
      Drop(x, b, j);
      HoldsNow();
    }

    lemma BeforeDelete(x: Handle, i: nat, b: nat, j: nat)
      requires Threaded() && |order| >= 2 && i < |order| && order[i] == x && tbl.numItems == |order|
      requires b < |tbl.chains| && j <= |tbl.chains[b]|
      requires j < |tbl.chains[b]| ==> Holds(order)
      requires j == |tbl.chains[b]| ==> tbl.items == Elements(order) - {x} && tbl.ValidBut(b)
      ensures tbl.items - {x} == Elements(Without(order, i)) && |Without(order, i)| == tbl.numItems - 1
      ensures (forall h :: h in tbl.items ==> h in order) && (forall h :: h in tbl.items - {x} ==>
        h in Without(order, i))
      ensures tbl.ValidBut(if j < |tbl.chains[b]| then NONE else b)
    {
      ElementsWithout(order, i);
    }

    /** The table half of HASH_DELETE_HH. */
    method Drop(x: Handle, ghost b: nat, ghost j: nat)
      requires head != null && tbl != null && head.tbl == tbl && x.hashv == x.hv && tbl.numItems >= 1
      requires b == LowBits(x.hv, tbl.log2NumBuckets) && b < |tbl.chains| && j <= |tbl.chains[b]|
      requires j < |tbl.chains[b]| ==> tbl.chains[b][j] == x
      requires tbl.ValidBut(if j < |tbl.chains[b]| then NONE else b)
      requires j == |tbl.chains[b]| ==> x !in tbl.items && x.hhPrev == null && x.hhNext == null
      modifies tbl`chains, tbl`items, tbl`numItems, tbl.buckets, tbl.items`hhPrev, tbl.items`hhNext
      ensures tbl.Valid() && tbl.items == old(tbl.items) - {x} && tbl.numItems == old(tbl.numItems) - 1
      ensures tbl.State() == DropAt(old(tbl.State()), b, j)
    {
      hide LowBits, And, Placed, ChainsOk, Table.History;
      AndMask(x.hashv, tbl.log2NumBuckets);
      var bkt := And(x.hashv, head.tbl.numBuckets - 1);
      head.tbl.DelInBkt(x, bkt, j);
      head.tbl.numItems := head.tbl.numItems - 1;
    }

    /** HASH_ROLLBACK_BKT: put the count back up and clear the item's chain links. */
    method RollbackBkt(x: Handle, ghost b: nat)
      requires head != null && tbl != null && head.tbl == tbl && tbl.Valid() && x.hashv == x.hv && x !in tbl.items
      requires b == LowBits(x.hv, tbl.log2NumBuckets) && b < |tbl.chains|
      modifies tbl.buckets, x`hhPrev, x`hhNext
      ensures tbl.ValidBut(b) && tbl.State() == old(tbl.State()) && x.hhPrev == null && x.hhNext == null
    {
      hide LowBits, And, Placed, Chain, Table.History;
      AndMask(x.hashv, tbl.log2NumBuckets);
      var bkt := And(x.hashv, head.tbl.numBuckets - 1);
      head.tbl.buckets[bkt] := head.tbl.buckets[bkt].(count := head.tbl.buckets[bkt].count + 1);
      x.hhNext := null;
      x.hhPrev := null;
      forall j {:trigger tbl.chains[j]} | 0 <= j < |tbl.chains|
        ensures Chain(tbl.buckets[j].hhHead, tbl.chains[j])
      {
        assert old(Chain(tbl.buckets[j].hhHead, tbl.chains[j]));
      }
    }

    /** The app list already has `x` at place `p`; the table still holds the list without it. */
    ghost predicate Joining(x: Handle, was: seq<Handle>, p: nat, b: nat)
      reads this, Repr(), order, was
    {
      && p <= |was| && x !in was && order == Inserted(was, p, x) && x == order[p]
      && Threaded() && Holds(was) && FilterOk(tbl.bloom, was) && x.hashv == x.hv
      && b == LowBits(x.hv, tbl.log2NumBuckets) && b < tbl.buckets.Length == |tbl.chains|
      && (Full(tbl.State(), b) ==> was != []) && Separate()
    }

    /** HASH_ADD_TO_TABLE. */
    method AddToTable(x: Handle, mallocOk: bool, ghost was: seq<Handle>, ghost p: nat,
        ghost b: nat) returns (oomed: bool)
      requires Joining(x, was, p, b)
      requires Full(tbl.State(), b) && mallocOk ==> 2 * tbl.numBuckets < TWO32
      modifies this`head, this`order, this`tbl, Repr(), order
      ensures oomed == (old(Full(tbl.State(), b)) && !mallocOk)
      ensures !oomed ==>
        && tbl == old(tbl) && head == old(head) && order == old(order) && Threaded() && Holds(order)
            && FilterOk(tbl.bloom, order)
        && tbl.State() == WithItem(old(tbl.State()), x, |order|)
            && (tbl.buckets == old(tbl.buckets) || fresh(tbl.buckets))
        && tbl.bloom == old(tbl.bloom)
      ensures oomed ==>
        && tbl == old(tbl) && order == was && Threaded() && Holds(was) && FilterOk(tbl.bloom, was)
        && tbl.State() == old(tbl.State()) && tbl.bloom == old(tbl.bloom) && x.tbl == null
            && tbl.buckets == old(tbl.buckets)
      ensures Separate() && tbl.numItems == |order|
    {
      hide LowBits, And, Linked, Elements, Inserted, Joining, Threaded, Holds, FilterOk, Table.ValidBut, Table.Valid,
          Table.State, Full, WithItem;
      BeforeEnter(x, was, p, b);
      oomed := CountAndAdd(x, mallocOk, b);
      if oomed {
        UndoAdd(x, was, p, b);
      } else {
        MarkBloom(x, was);
        HoldsNow();
      }
    }

    /** num_items++, the bucket number, and HASH_ADD_TO_BKT. */
    method CountAndAdd(x: Handle, mallocOk: bool, ghost b: nat) returns (oomed: bool)
      requires head != null && tbl != null && head.tbl == tbl && tbl.Valid() && x !in tbl.items && x.hashv == x.hv
      requires b == LowBits(x.hv, tbl.log2NumBuckets) && b < tbl.buckets.Length == |tbl.chains|
      requires tbl.numBuckets == Pow2(tbl.log2NumBuckets)
      requires Full(tbl.State(), b) && mallocOk ==> 2 * tbl.numBuckets < TWO32
      modifies tbl, tbl.buckets, tbl.items`hhPrev, tbl.items`hhNext, x`hhPrev, x`hhNext
      ensures tbl.Valid() && tbl.numItems == old(tbl.numItems) + 1 && tbl.tail == old(tbl.tail)
        && tbl.bloom == old(tbl.bloom)
      ensures oomed == (old(Full(tbl.State(), b)) && !mallocOk)
      ensures oomed ==>
        && tbl.items == old(tbl.items) && tbl.State() == old(tbl.State()) && tbl.buckets == old(tbl.buckets)
        && tbl.log2NumBuckets == old(tbl.log2NumBuckets) && tbl.chains == old(tbl.chains)
      ensures !oomed ==> tbl.items == old(tbl.items) + {x} && tbl.State() == WithItem(old(tbl.State()), x, tbl.numItems)
      ensures tbl.buckets == old(tbl.buckets) || fresh(tbl.buckets)
    {
      hide LowBits, And, Table.ValidBut, Table.Valid, Full, WithItem;
      AndMask(x.hashv, tbl.log2NumBuckets);
      head.tbl.numItems := head.tbl.numItems + 1;
      var bkt := And(x.hashv, head.tbl.numBuckets - 1);
      oomed := head.tbl.AddToBkt(x, bkt, mallocOk);
    }

    method MarkBloom(x: Handle, ghost was: seq<Handle>)
      requires head != null && tbl != null && head.tbl == tbl && x.hashv == x.hv && FilterOk(tbl.bloom, was)
      requires forall h :: h in order ==> h == x || h in was
      modifies if tbl.bloom == null then {} else {tbl.bloom, tbl.bloom.bv}
      ensures FilterOk(tbl.bloom, order)
    {
      if bloomOn {
        head.tbl.bloom.Add(x.hashv);
      }
    }

    /** After a failed expansion: roll the bucket back, then take the element off the list and out of the bucket
        again. */
    method UndoAdd(x: Handle, ghost was: seq<Handle>, ghost p: nat, ghost b: nat)
      requires head != null && tbl != null && head.tbl == tbl
      requires Threaded() && |order| >= 2 && p < |order| && order[p] == x && tbl.numItems == |order| && x.hashv == x.hv
      requires b == LowBits(x.hv, tbl.log2NumBuckets) && b < |tbl.chains| && Without(order, p) == was && x !in was
      requires tbl.items == Elements(order) - {x} && tbl.Valid() && x !in tbl.items
      modifies this`head, this`order, this`tbl, tbl`tail, tbl`chains, tbl`items, tbl`numItems, tbl.buckets
      modifies order`prev, order`next, order`hhPrev, order`hhNext, x`tbl
      ensures tbl == old(tbl) && order == was && Threaded() && Holds(was)
      ensures tbl.State() == old(tbl.State()) && x.tbl == null && tbl.items == Elements(was) && tbl.numItems == |was|
    {
      hide LowBits, Linked, Elements, Threaded, Holds, Table.ValidBut, Table.Valid, Mults;
      RollbackBkt(x, b);
      DeleteHH(x, p, b, |tbl.chains[b]|);
      x.tbl := null;
      HoldsNow();
    }

    lemma HoldsNow()
      requires tbl != null && tbl.items == Elements(order) && tbl.numItems == |order| && tbl.Valid()
      ensures Holds(order)
    {
    }

    lemma BeforeEnter(x: Handle, was: seq<Handle>, p: nat, b: nat)
      requires Joining(x, was, p, b)
      ensures Elements(order) == Elements(was) + {x} && |order| == |was| + 1 && Without(order, p) == was
      ensures head != null && tbl != null && head.tbl == tbl && tbl.numItems == |was| && tbl.Valid()
      ensures tbl.numBuckets == Pow2(tbl.log2NumBuckets)
      ensures tbl.items == Elements(was) && x !in tbl.items && forall h :: h in tbl.items ==> h in order
      ensures Linked(order) && order[p] == x && p < |order| && x in order
      ensures FilterOk(tbl.bloom, was) && Threaded() && (Full(tbl.State(), b) ==> |order| >= 2)
      ensures b == LowBits(x.hv, tbl.log2NumBuckets) && b < tbl.buckets.Length == |tbl.chains| && x.hashv == x.hv
      ensures (forall h :: h in order ==> h == x || h in was) && x !in was && Separate()
    {
      ElementsInserted(was, p, x);
    }

    lemma Sizes(t: Table, x: Handle)
      requires t.Valid()
      ensures LowBits(x.hv, t.log2NumBuckets) < t.buckets.Length == |t.chains| && t.numBuckets == Pow2(t.log2NumBuckets)
    {
    }

    // ---------- HASH_MAKE_TABLE and the two ways into the list ----------

    /** HASH_MAKE_TABLE for the first element. */
    method MakeTable(x: Handle, mem: Mem) returns (oomed: bool)
      modifies x`tbl
      ensures oomed == !(mem.table && mem.buckets && (bloomOn ==> mem.bloom))
      ensures !oomed ==>
        && x.tbl != null && fresh(x.tbl) && fresh(x.tbl.buckets) && x.tbl.Valid() && x.tbl.items == {}
            && x.tbl.numItems == 0
        && x.tbl.tail == x && x.tbl.State() == StartShape() && (x.tbl.bloom != null ==>
            && fresh(x.tbl.bloom)
            && fresh(x.tbl.bloom.bv))
        && FilterOk(x.tbl.bloom, []) && (x.tbl.bloom != null ==> (x.tbl.bloom.bv as object) != x.tbl.buckets)
    {
      oomed := false;
      if !mem.table || !mem.buckets {
        return true;
      }
      var t := new Table(x);
      if bloomOn {
        if !mem.bloom {
          return true;
        }
        var bl := new Bloom(bloomNbits);
        t.bloom := bl;
      }
      x.tbl := t;
    }

    /** The first element makes the table and becomes the head. */
    method StartTable(x: Handle, mem: Mem, ghost b: nat) returns (oomed: bool)
      requires head == null && tbl == null && order == [] && x.hashv == x.hv
      modifies this`head, this`order, this`tbl, x`prev, x`next, x`tbl
      ensures oomed == !(mem.table && mem.buckets && (bloomOn ==> mem.bloom))
      ensures oomed ==> unchanged(this)
      ensures !oomed ==> tbl != null && fresh(Repr()) && order == [x] && tbl.State() == StartShape()
      ensures !oomed && b == LowBits(x.hv, INITIAL_NUM_BUCKETS_LOG2) ==> Joining(x, [], 0, b)
    {
      x.next := null;
      x.prev := null;
      oomed := MakeTable(x, mem);
      if !oomed {
        head := x;
        tbl, order := x.tbl, [x];
        assert order == Inserted([], 0, x);
      }
    }

    /** HASH_APPEND_LIST. */
    method Append(x: Handle, ghost b: nat)
      requires Valid() && order != [] && x !in order && x.tbl == tbl && x.hashv == x.hv
        && b == LowBits(x.hv, tbl.log2NumBuckets)
      modifies this`order, tbl`tail, order`prev, order`next, x`prev, x`next
      ensures Joining(x, old(order), |old(order)|, b) && tbl == old(tbl) && order == old(order) + [x]
      ensures tbl.State() == old(tbl.State())
    {
      hide LowBits, Table.Valid, FilterOk;
      Sizes(tbl, x);
      ghost var was := order;
      AppendLinks(head.tbl.tail, x, order);
      head.tbl.tail := x;
      order := order + [x];
      assert order == Inserted(was, |was|, x);
    }

    /** The sorted insertion of HASH_ADD_KEYPTR_BYHASHVALUE_INORDER. */
    method InsertInOrder(x: Handle, cmp: (Cache, Cache) -> int, ghost b: nat)
      requires Valid() && order != [] && x !in order && x.tbl == tbl && x.hashv == x.hv
        && b == LowBits(x.hv, tbl.log2NumBuckets)
      modifies this`head, this`order, tbl`tail, order`prev, order`next, x`prev, x`next
      ensures Joining(x, old(order), Place(old(order), x, cmp), b) && tbl == old(tbl)
      ensures tbl.State() == old(tbl.State()) && order == Inserted(old(order), Place(old(order), x, cmp), x)
    {
      hide LowBits, Valid, Table.Valid, FilterOk, Place, Linked, Threaded, Inserted, Holds, Joining;
      Heads();
      var it := FindPlace(head, x, cmp, order);
      assert Repr() == old(Repr());
      if it != null {
        InsertBefore(it, x, Place(order, x, cmp), b);
      } else {
        InsertedAtEnd(order, x);
        Append(x, b);
      }
    }

    /** Insertion before `it`, moving the head when `it` was first. */
    method InsertBefore(it: Handle, x: Handle, ghost p: nat, ghost b: nat)
      requires Valid() && order != [] && x !in order && x.tbl == tbl && x.hashv == x.hv
        && b == LowBits(x.hv, tbl.log2NumBuckets)
      requires p < |order| && order[p] == it
      modifies this`head, this`order, order`prev, order`next, x`prev, x`next
      ensures Joining(x, old(order), p, b) && tbl == old(tbl)
      ensures tbl.State() == old(tbl.State()) && order == Inserted(old(order), p, x)
    {
      hide LowBits, Table.Valid, Table.ValidBut, Table.State, FilterOk, Linked, Valid, Holds, Threaded, Joining;
      hide Inserted, Full, Elements;
      Heads();
      SameTable();
      Sizes(tbl, x);
      ghost var was := order;
      LinkBefore(it, x, p);
      Inserts(was, p, x);
      ThreadNow();
      JoinNow(x, was, p, b);
    }

    /** The links and the head of an insertion before `it`. */
    method LinkBefore(it: Handle, x: Handle, ghost p: nat)
      requires Linked(order) && p < |order| && order[p] == it && x !in order && head == order[0]
      modifies this`head, this`order, order`prev, order`next, x`prev, x`next
      ensures order == Inserted(old(order), p, x) && Linked(order) && head == order[0]
    {
      hide Linked, Inserted;
      ghost var was := order;
      Sides(was, p);
      InsertLinks(it, x, order, p);
      if x.prev == null {
        head := x;
      }
      order := Inserted(was, p, x);
      Inserts(was, p, x);
      Sides(order, p);
    }

    /** Where the old elements are after an insertion. */
    lemma Inserts(s: seq<Handle>, p: nat, x: Handle)
      requires p < |s|
      ensures var r := Inserted(s, p, x);
              && |r| == |s| + 1 && r[p] == x && r[|r| - 1] == s[|s| - 1] && (p > 0 ==> r[0] == s[0])
              && forall i :: 0 <= i < |r| ==> r[i] == x || r[i] in s
    {
    }

    lemma JoinNow(x: Handle, was: seq<Handle>, p: nat, b: nat)
      requires p <= |was| && x !in was && was != [] && order == Inserted(was, p, x) && x == order[p]
      requires Threaded() && FilterOk(tbl.bloom, was) && x.hashv == x.hv && Separate()
      requires tbl.items == Elements(was) && tbl.numItems == |was| && tbl.Valid()
      requires b == LowBits(x.hv, tbl.log2NumBuckets) && b < tbl.buckets.Length == |tbl.chains|
      ensures Joining(x, was, p, b)
    {
      hide LowBits, Table.Valid, Table.ValidBut, Full, Inserted, FilterOk, Linked;
    }

    lemma Sides(s: seq<Handle>, i: nat)
      requires Linked(s) && i < |s|
      ensures s[i].prev == null <==> i == 0
    {
    }

    /** How the head and the table pointer go together. */
    lemma Heads()
      requires Valid()
      ensures (head == null <==> order == []) && (tbl == null <==> order == [])
      ensures head != null ==>
          && head == order[0] && head.tbl == tbl && head in order && Linked(order) && Threaded()
          && Holds(order) && tbl.Valid()
      ensures UniqueKeys(order) && (order == [] ==> State() == EmptyModel()) && State().order == order
      ensures head != null ==>
        && tbl.tail == order[|order| - 1] && tbl.numItems == |order| && tbl.numBuckets == Pow2(tbl.log2NumBuckets)
        && tbl.log2NumBuckets == Log2(tbl.State())
    {
    }

    // ---------- the operations an application uses ----------

    /** Some allocation that adding `x` makes would fail. */
    ghost predicate RunsOut(x: Handle, mem: Mem)
      reads this`order, this`tbl, tbl, if tbl == null then {} else {tbl.buckets}
    {
      OutOfMemory(State(), x, mem, bloomOn)
    }

    ghost predicate Absent(x: Handle)
      reads this`order
    {
      AbsentFrom(order, x)
    }

    /** What may be added: an absent key, its own hash value, and a bucket count that can double in 32 bits if it
        must. */
    ghost predicate MayAdd(x: Handle, hashval: Word, mem: Mem)
      reads this`order, this`tbl, tbl, if tbl == null then {} else {tbl.buckets}
    {
      Absent(x) && hashval == x.hv && CanGrow(State(), x, mem)
    }

    /** HASH_ADD_KEYPTR_BYHASHVALUE. */
    method Add(x: Handle, hashval: Word, mem: Mem) returns (oomed: bool)
      requires Valid() && MayAdd(x, hashval, mem)
      modifies this`head, this`order, this`tbl, Repr(), order, x
      ensures Valid() && fresh(Repr() - old(Repr()))
      ensures oomed == old(RunsOut(x, mem))
      ensures State() == if oomed then old(State()) else AddedAt(old(State()), |old(order)|, x)
      ensures oomed ==> head == old(head) && tbl == old(tbl) && x.tbl == null
    {
      hide Valid, State, OutOfMemory, AddedAt, CanGrow;
      Heads();
      x.hashv := hashval;
      assert Repr() == old(Repr());
      if head == null {
        oomed := AddFirst(x, mem);
      } else {
        oomed := AddNext(x, mem);
      }
    }

    /** HASH_ADD to a hash that has elements. */
    method AddNext(x: Handle, mem: Mem) returns (oomed: bool)
      requires Valid() && order != [] && Absent(x) && x.hashv == x.hv && CanGrow(State(), x, mem)
      modifies this`head, this`order, this`tbl, Repr(), order, x
      ensures Valid() && fresh(Repr() - old(Repr())) && tbl == old(tbl)
      ensures oomed == OutOfMemory(old(State()), x, mem, bloomOn)
      ensures State() == if oomed then old(State()) else AddedAt(old(State()), |old(order)|, x)
      ensures oomed ==> head == old(head) && x.tbl == null
    {
      hide Valid, Threaded, Holds, FilterOk, Joining, UniqueKeys, Table.Valid, Table.ValidBut, Table.State;
      hide Full, WithItem, LowBits, Linked, Elements;
      Heads();
      ghost var was, b := order, LowBits(x.hv, tbl.log2NumBuckets);
      x.tbl := head.tbl;
      assert Repr() == old(Repr());
      Append(x, b);
      assert Repr() == old(Repr());
      InsertedAtEnd(was, x);
      oomed := Enter(x, mem.expand, was, |was|, b);
      Heads();
    }

    /** The rest of an addition to an empty hash. */
    method AddFirst(x: Handle, mem: Mem) returns (oomed: bool)
      requires Valid() && order == [] && x.hashv == x.hv
      modifies this`head, this`order, this`tbl, x
      ensures Valid() && fresh(Repr())
      ensures oomed == OutOfMemory(EmptyModel(), x, mem, bloomOn)
      ensures State() == if oomed then EmptyModel() else AddedAt(EmptyModel(), 0, x)
      ensures oomed ==> head == null && tbl == null && x.tbl == null
    {
      hide Valid, Threaded, Holds, FilterOk, Joining, Table.Valid, Table.ValidBut, Table.State;
      hide LowBits, Linked, Elements;
      ghost var b := LowBits(x.hv, INITIAL_NUM_BUCKETS_LOG2);
      Heads();
      oomed := StartTable(x, mem, b);
      if oomed {
        x.tbl := null;
        assert Repr() == old(Repr());
      } else {
        assert Inserted([], 0, x) == [x];
        oomed := Enter(x, mem.expand, [], 0, b);
      }
      Heads();
    }

    /** HASH_ADD_KEYPTR_BYHASHVALUE_INORDER. */
    method AddInOrder(x: Handle, hashval: Word, cmp: (Cache, Cache) -> int, mem: Mem) returns (oomed: bool)
      requires Valid() && MayAdd(x, hashval, mem)
      modifies this`head, this`order, this`tbl, Repr(), order, x
      ensures Valid() && fresh(Repr() - old(Repr()))
      ensures oomed == old(RunsOut(x, mem))
      ensures State() == if oomed then old(State()) else AddedAt(old(State()), Place(old(order), x, cmp), x)
      ensures oomed ==> head == old(head) && tbl == old(tbl) && x.tbl == null
      ensures !oomed ==> InsertedInOrder(old(order), order, x, cmp)
    {
      hide Valid, State, OutOfMemory, AddedAt, Place, CanGrow, InsertedInOrder;
      Heads();
      x.hashv := hashval;
      assert Repr() == old(Repr());
      if head == null {
        oomed := AddFirst(x, mem);
      } else {
        oomed := AddNextInOrder(x, cmp, mem);
      }
      StateOrder();
      AddedInOrder(old(State()), x, cmp);
    }

    /** HASH_ADD_INORDER to a hash that has elements. */
    method AddNextInOrder(x: Handle, cmp: (Cache, Cache) -> int, mem: Mem) returns (oomed: bool)
      requires Valid() && order != [] && Absent(x) && x.hashv == x.hv && CanGrow(State(), x, mem)
      modifies this`head, this`order, this`tbl, Repr(), order, x
      ensures Valid() && fresh(Repr() - old(Repr())) && tbl == old(tbl)
      ensures oomed == OutOfMemory(old(State()), x, mem, bloomOn)
      ensures State() == if oomed then old(State()) else AddedAt(old(State()), Place(old(order), x, cmp), x)
      ensures oomed ==> head == old(head) && x.tbl == null
    {
      hide Valid, Threaded, Holds, FilterOk, Joining, UniqueKeys, Table.Valid, Table.ValidBut, Table.State;
      hide Full, WithItem, LowBits, Linked, Elements, Place, Separate;
      Heads();
      ghost var was, b := order, LowBits(x.hv, tbl.log2NumBuckets);
      x.tbl := head.tbl;
      assert Repr() == old(Repr());
      InsertInOrder(x, cmp, b);
      assert Repr() == old(Repr());
      oomed := Enter(x, mem.expand, was, Place(was, x, cmp), b);
      Heads();
    }

    /** HASH_FIND_BYHASHVALUE: the first, hence only, element of the list under this key; the filter changes nothing. */
    method FindByHashValue(key: Key, hashval: Word) returns (out: Handle?)
      requires Valid()
      ensures out == FirstMatch(order, key, hashval)
    {
      hide LowBits, And, Linked, FirstMatch, Bloom.Valid;
      out := null;
      FindInChain(key, hashval);
      if head != null {
        AndMask(hashval, tbl.log2NumBuckets);
        var bkt := And(hashval, head.tbl.numBuckets - 1);
        var hit := true;
        if bloomOn {
          hit := head.tbl.bloom.Test(hashval);
        }
        if hit {
          out := FindInBkt(head.tbl.buckets[bkt], key, hashval, tbl.chains[bkt]);
        }
      }
    }

    /** The bucket chain and the list agree on every key; a key the filter rules out is in neither. */
    lemma FindInChain(key: Key, hashval: Word)
      requires Valid()
      ensures tbl == null ==> FirstMatch(order, key, hashval) == null
      ensures tbl != null ==>
        && LowBits(hashval, tbl.log2NumBuckets) < |tbl.chains|
        && FirstMatch(tbl.chains[LowBits(hashval, tbl.log2NumBuckets)], key, hashval) == FirstMatch(order, key, hashval)
      ensures tbl != null && tbl.bloom != null && LowBits(hashval, bloomNbits) !in tbl.bloom.marked ==>
        FirstMatch(order, key, hashval) == null
    {
      FirstMatchFinds(order, key, hashval);
      if tbl != null {
        var c := tbl.chains[LowBits(hashval, tbl.log2NumBuckets)];
        FirstMatchFinds(c, key, hashval);
        var h := FirstMatch(order, key, hashval);
        var g := FirstMatch(c, key, hashval);
        if h != null {
          assert h in tbl.items && h in c;
        }
        if g != null {
          assert g in tbl.items && g in order;
        }
      }
    }

    /** HASH_DELETE. */
    method Delete(x: Handle)
      requires Valid() && x in order
      modifies this`head, this`order, this`tbl, Repr(), order
      ensures Valid() && Repr() <= old(Repr())
      ensures State() == RemovedFrom(old(State()), x)
      ensures tbl == (if order == [] then null else old(tbl))
        && (forall i :: 0 <= i < |order| ==> order[i] in old(order))
      ensures tbl != null ==> tbl.numBuckets == old(tbl.numBuckets)
    {
      hide Valid, Threaded, Holds, FilterOk, UniqueKeys, Table.Valid, Table.State, DropAt, Without, LowBits;
      Heads();
      ghost var i, b := IndexOf(order, x), LowBits(x.hv, tbl.log2NumBuckets);
      InChain(x);
      DeleteHH(x, i, b, IndexOf(tbl.chains[b], x));
      StillUnique(old(order), i);
      if tbl != null {
        assert FilterOk(tbl.bloom, old(order));
        FilterShrinks(old(order), i);
      }
      MakeValid();
    }

    lemma InChain(x: Handle)
      requires Valid() && x in order
      ensures tbl != null && x.hashv == x.hv && tbl.numItems == |order| && Threaded() && Holds(order)
        && UniqueKeys(order)
      ensures var b := LowBits(x.hv, tbl.log2NumBuckets); b < |tbl.chains| && x in tbl.chains[b]
      ensures tbl.chains == State().shape.chains && tbl.log2NumBuckets == Log2(State().shape)
      ensures FilterOk(tbl.bloom, order) && Separate()
    {
      assert x in tbl.items;
    }

    lemma FilterShrinks(s: seq<Handle>, i: nat)
      requires tbl != null && FilterOk(tbl.bloom, s)
      ensures FilterOk(tbl.bloom, Without(s, i))
    {
      assert forall h :: h in Without(s, i) ==> h in s;
    }

    lemma SameTable()
      requires Valid() && order != []
      ensures tbl != null && tbl.items == Elements(order) && tbl.numItems == |order| && tbl.Valid()
      ensures (forall i :: 0 <= i < |order| ==> order[i].tbl == tbl) && UniqueKeys(order)
        && FilterOk(tbl.bloom, order) && Separate()
      ensures State() == Model(order, tbl.State())
    {
    }

    lemma ThreadNow()
      requires order != [] && tbl != null && head == order[0] && Linked(order) && tbl.tail == order[|order| - 1]
      requires forall i :: 0 <= i < |order| ==> order[i].tbl == tbl
      ensures Threaded()
    {
    }

    lemma FilterMembers(s: seq<Handle>, t: seq<Handle>)
      requires tbl != null && FilterOk(tbl.bloom, s) && forall i :: 0 <= i < |t| ==> t[i] in s
      ensures FilterOk(tbl.bloom, t)
    {
    }

    lemma MakeValid()
      requires UniqueKeys(order) && Separate() && (order == [] ==> head == null && tbl == null)
      requires order != [] ==> tbl != null && Threaded() && Holds(order) && FilterOk(tbl.bloom, order)
      ensures Valid()
    {
    }

    /** HASH_REPLACE_BYHASHVALUE; the element replaced may be `x` itself. */
    method Replace(x: Handle, hashval: Word, mem: Mem) returns (replaced: Handle?, oomed: bool)
      requires Valid() && MayReplace(x, hashval, mem)
      modifies this`head, this`order, this`tbl, Repr(), order, x
      ensures Valid() && fresh(Repr() - old(Repr()))
      ensures replaced == FirstMatch(old(order), x.elt.id, hashval)
      ensures var m := Without1(old(State()), replaced);
              && oomed == OutOfMemory(m, x, mem, bloomOn)
              && State() == if oomed then m else AddedAt(m, |m.order|, x)
    {
      hide Valid, State, MayReplace, MayAdd, Without1, AddedAt, OutOfMemory, CanGrow;
      replaced := Evict(x, hashval, mem);
      assert forall i :: 0 <= i < |order| ==> order[i] in old(order);
      oomed := Add(x, hashval, mem);
    }

    /** HASH_REPLACE_BYHASHVALUE_INORDER. */
    method ReplaceInOrder(x: Handle, hashval: Word, cmp: (Cache, Cache) -> int, mem: Mem) returns (replaced: Handle?,
        oomed: bool)
      requires Valid() && MayReplace(x, hashval, mem)
      modifies this`head, this`order, this`tbl, Repr(), order, x
      ensures Valid() && fresh(Repr() - old(Repr()))
      ensures replaced == FirstMatch(old(order), x.elt.id, hashval)
      ensures var m := Without1(old(State()), replaced);
              && oomed == OutOfMemory(m, x, mem, bloomOn)
              && (State() == if oomed then m else AddedAt(m, Place(m.order, x, cmp), x))
              && (!oomed ==> InsertedInOrder(m.order, order, x, cmp))
    {
      hide Valid, State, MayReplace, MayAdd, Without1, AddedAt, OutOfMemory, CanGrow, Place, InsertedInOrder;
      replaced := Evict(x, hashval, mem);
      assert forall i :: 0 <= i < |order| ==> order[i] in old(order);
      oomed := AddInOrder(x, hashval, cmp, mem);
    }

    /** What may replace: its own hash value, and a bucket count that can double if the addition must double it. */
    ghost predicate MayReplace(x: Handle, hashval: Word, mem: Mem)
      reads this`order, this`tbl, tbl, if tbl == null then {} else {tbl.buckets}
    {
      hashval == x.hv && CanGrow(Without1(State(), FirstMatch(order, x.elt.id, x.hv)), x, mem)
    }

    /** The find and delete a replacement starts with. */
    method Evict(x: Handle, hashval: Word, ghost mem: Mem) returns (replaced: Handle?)
      requires Valid() && MayReplace(x, hashval, mem)
      modifies this`head, this`order, this`tbl, Repr(), order
      ensures Valid() && Repr() <= old(Repr()) && MayAdd(x, hashval, mem)
      ensures forall i :: 0 <= i < |order| ==> order[i] in old(order)
      ensures replaced == FirstMatch(old(order), x.elt.id, hashval)
      ensures State() == Without1(old(State()), replaced) && State().order == order
    {
      hide Valid, State, RemovedFrom, CanGrow;
      replaced := FindByHashValue(x.elt.id, hashval);
      assert Repr() == old(Repr()) && State() == old(State());
      KeyGone(x);
      if replaced != null {
        Delete(replaced);
      }
      StateOrder();
    }

    lemma StateOrder()
      ensures State().order == order
    {
    }

    /** Deleting the element found under a key leaves the key absent. */
    lemma KeyGone(x: Handle)
      requires Valid()
      ensures var h := FirstMatch(order, x.elt.id, x.hv);
              && (h == null ==> Absent(x))
              && (h != null ==> h in order && AbsentFrom(RemovedFrom(State(), h).order, x))
      ensures State().order == order
    {
      hide Valid, Table.State, FirstMatch, AbsentFrom, RemovedFrom, UniqueKeys;
      Heads();
      Displaced(State(), x);
    }

    /** HASH_CLEAR. */
    method Clear()
      requires Valid()
      modifies this`head, this`order, this`tbl
      ensures Valid() && State() == EmptyModel() && head == null && tbl == null
    {
      if head != null {
        head, tbl, order := null, null, [];
      }
    }

    lemma InsertedAtEnd(s: seq<Handle>, x: Handle)
      ensures Inserted(s, |s|, x) == s + [x]
    {
    }

    /** HASH_ADD_TO_TABLE makes a joining element a full member, or takes it off the list again. */
    method Enter(x: Handle, mallocOk: bool, ghost was: seq<Handle>, ghost p: nat, ghost b: nat) returns (oomed: bool)
      requires Joining(x, was, p, b) && UniqueKeys(was)
      requires forall i :: 0 <= i < |was| ==> !(was[i].hv == x.hv && was[i].elt.id == x.elt.id)
      requires Full(tbl.State(), b) && mallocOk ==> 2 * tbl.numBuckets < TWO32
      modifies this`head, this`order, this`tbl, Repr(), order
      ensures Valid() && tbl == old(tbl) && fresh(Repr() - old(Repr()))
      ensures oomed == (Full(old(tbl.State()), b) && !mallocOk)
      ensures order == if oomed then was else Inserted(was, p, x)
      ensures tbl.State() == if oomed then old(tbl.State()) else WithItem(old(tbl.State()), x, |was| + 1)
      ensures oomed ==> was != [] && x.tbl == null
    {
      hide LowBits, Linked, Elements, Threaded, Holds, FilterOk, Table.Valid, Table.State, Full, WithItem;
      UniqueInserted(was, p, x);
      oomed := AddToTable(x, mallocOk, was, p, b);
    }
  }

  /** `r` is `s` with `x` after elements that compare at most equal to it, and before one, if any, that compares
      greater. */
  ghost predicate InsertedInOrder(s: seq<Handle>, r: seq<Handle>, x: Handle, cmp: (Cache, Cache) -> int) {
    exists p: nat {:trigger s[..p]} :: p <= |s| && r == s[..p] + [x] + s[p..]
      && (forall i :: 0 <= i < p ==> cmp(s[i].elt, x.elt) <= 0) && (p < |s| ==> cmp(s[p].elt, x.elt) > 0)
  }

  lemma AddedInOrder(m: Model, x: Handle, cmp: (Cache, Cache) -> int)
    ensures InsertedInOrder(m.order, AddedAt(m, Place(m.order, x, cmp), x).order, x, cmp)
  {
    PlaceMeans(m.order, x, cmp);
    var p := Place(m.order, x, cmp);
    assert Inserted(m.order, p, x) == m.order[..p] + [x] + m.order[p..];
  }

  ghost predicate AbsentFrom(s: seq<Handle>, x: Handle) {
    x !in s && forall i :: 0 <= i < |s| ==> !(s[i].hv == x.hv && s[i].elt.id == x.elt.id)
  }

  ghost function Without1(m: Model, h: Handle?): Model { if h == null then m else RemovedFrom(m, h) }

  /** Taking the element found under a key out of a list leaves the key absent. */
  lemma Displaced(m: Model, x: Handle)
    requires UniqueKeys(m.order)
    ensures var h := FirstMatch(m.order, x.elt.id, x.hv);
            && (h == null ==> AbsentFrom(m.order, x))
            && (h != null ==> h in m.order && AbsentFrom(RemovedFrom(m, h).order, x))
  {
    hide FirstMatch, DropFrom, UniqueKeys;
    var h, s := FirstMatch(m.order, x.elt.id, x.hv), m.order;
    FirstMatchFinds(s, x.elt.id, x.hv);
    if h == null {
      forall i | 0 <= i < |s| ensures !Matches(s[i], x.elt.id, x.hv) { assert s[i] in s; }
    } else {
      var r := Without(s, IndexOf(s, h));
      forall t | 0 <= t < |r| ensures r[t] != x && !Matches(r[t], x.elt.id, x.hv) {
        var u := if t < IndexOf(s, h) then t else t + 1;
        assert r[t] == s[u];
        OtherKey(s, IndexOf(s, h), u);
      }
    }
  }

  lemma OtherKey(s: seq<Handle>, i: nat, j: nat)
    requires UniqueKeys(s) && i < |s| && j < |s| && i != j
    ensures s[i] != s[j] && !(s[i].hv == s[j].hv && s[i].elt.id == s[j].elt.id)
  {
    if i < j { assert !(s[i].hv == s[j].hv && s[i].elt.id == s[j].elt.id); }
    else { assert !(s[j].hv == s[i].hv && s[j].elt.id == s[i].elt.id); }
  }

  lemma StillUnique(s: seq<Handle>, i: nat)
    requires UniqueKeys(s)
    ensures UniqueKeys(Without(s, i)) && (i < |s| ==> |Without(s, i)| == |s| - 1)
    ensures forall h :: h in Without(s, i) ==> h in s
  {
    var r := Without(s, i);
    assert i < |s| ==> forall t :: 0 <= t < |r| ==> r[t] == if t < i then s[t] else s[t + 1];
  }

  ghost function DropFrom(s: Shape, x: Handle, b: nat): Shape
  {
    if b < |s.chains| && x in s.chains[b] then DropAt(s, b, IndexOf(s.chains[b], x)) else s
  }

  /** The list and table without `x`; removing the last element frees the table. */
  ghost function RemovedFrom(m: Model, x: Handle): Model
  {
    if x !in m.order then m
    else if |m.order| == 1 then EmptyModel()
    else Model(Removed(m.order, x), DropFrom(m.shape, x, BucketOf(m.shape, x)))
  }

  ghost function AddedAt(m: Model, p: nat, x: Handle): Model
  {
    if p <= |m.order| then Model(Inserted(m.order, p, x), WithItem(m.shape, x, |m.order| + 1)) else m
  }

  lemma UniqueInserted(s: seq<Handle>, p: nat, x: Handle)
    requires UniqueKeys(s) && p <= |s|
    requires forall i :: 0 <= i < |s| ==> !(s[i].hv == x.hv && s[i].elt.id == x.elt.id)
    ensures UniqueKeys(Inserted(s, p, x))
  {
    var r := Inserted(s, p, x);
    forall i, j | 0 <= i < j < |r|
      ensures !(r[i].hv == r[j].hv && r[i].elt.id == r[j].elt.id)
    {
      assert i < p ==> r[i] == s[i];
      assert i > p ==> r[i] == s[i - 1];
      assert j < p ==> r[j] == s[j];
      assert j > p ==> r[j] == s[j - 1];
    }
  }
}
