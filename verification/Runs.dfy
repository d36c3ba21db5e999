/** Runs of table operations, on the values the methods of a hash are proved to compute. */
module Runs {
  import opened Words
  import opened HashTable
  import opened AppList
  import opened UtHash
  import opened StableSort
  import opened MergeSort

  /** One request, with the allocations that would succeed during it; those whose precondition fails are not
      requests. */
  datatype Op =
    | Add(x: Handle, mem: Mem)
    | AddInOrder(x: Handle, mem: Mem)
    | Replace(x: Handle, mem: Mem)
    | ReplaceInOrder(x: Handle, mem: Mem)
    | Delete(x: Handle)
    | Sort
    | Clear

  /** What an application compiles in: its comparison, and whether there is a Bloom filter. */
  datatype Build = Build(cmp: (Cache, Cache) -> int, bloom: bool)

  ghost predicate Allowed(m: Model, op: Op) {
    match op
    case Add(x, _) => AbsentFrom(m.order, x)
    case AddInOrder(x, _) => AbsentFrom(m.order, x)
    case Delete(x) => x in m.order
    case _ => true
  }

  ghost predicate Replaces(op: Op) { op.Replace? || op.ReplaceInOrder? }

  ghost predicate Adds(op: Op) { op.Add? || op.AddInOrder? || Replaces(op) }

  /** The element a replacement by `x` displaces. */
  ghost function Match(m: Model, x: Handle): Handle? { FirstMatch(m.order, x.elt.id, x.hv) }

  /** What an operation leaves of a state before it adds anything. */
  ghost function Vacated(m: Model, op: Op): Model { if Replaces(op) then Without1(m, Match(m, op.x)) else m }

  /** The operation's addition runs out of memory. */
  ghost predicate Fails(m: Model, op: Op, b: Build) { Adds(op) && OutOfMemory(Vacated(m, op), op.x, op.mem, b.bloom) }

  ghost function Appended(m: Model, x: Handle): Model { AddedAt(m, |m.order|, x) }

  ghost function InOrder(m: Model, x: Handle, cmp: (Cache, Cache) -> int): Model { AddedAt(m, Place(m.order, x, cmp),
      x) }

  /** The state after one operation; one that fails stops before its addition. */
  ghost function Step(m: Model, op: Op, b: Build): Model {
    if Fails(m, op, b) then Vacated(m, op) else
    match op
    case Add(x, _) => Appended(m, x)
    case AddInOrder(x, _) => InOrder(m, x, b.cmp)
    case Replace(x, _) => Appended(Vacated(m, op), x)
    case ReplaceInOrder(x, _) => InOrder(Vacated(m, op), x, b.cmp)
    case Delete(x) => RemovedFrom(m, x)
    case Sort => Model(SortOf(m.order, b.cmp), m.shape)
    case Clear => EmptyModel()
  }

  ghost function Run(m: Model, ops: seq<Op>, b: Build): Model {
    if ops == [] then m else Step(Run(m, ops[..|ops| - 1], b), ops[|ops| - 1], b)
  }

  ghost predicate AllAllowed(m: Model, ops: seq<Op>, b: Build) {
    ops == [] || (AllAllowed(m, ops[..|ops| - 1], b) && Allowed(Run(m, ops[..|ops| - 1], b), ops[|ops| - 1]))
  }

  // ---------- the table invariant over every run ----------

  /** List and chains hold the same elements once each, every element in the bucket of its hash value. */
  ghost predicate Sound(m: Model) {
    && NoDup(m.order) && UniqueKeys(m.order)
    && ShapeOk(Elements(m.order), m.shape)
    && (m.order == [] ==> m == EmptyModel())
  }

  /** No expansion happens after two ineffective ones in a row. */
  ghost predicate Stopped(log: seq<bool>) { log != [] ==> !TwoInARow(log[..|log| - 1]) }

  lemma EmptySound()
    ensures Sound(EmptyModel())
  {
    assert Pow2(5) == 2 * Pow2(4) && Pow2(4) == 2 * Pow2(3) && Pow2(3) == 2 * Pow2(2);
    var m := EmptyModel();
    assert Elements(m.order) == {};
  }

  ghost predicate NoDups(chains: seq<seq<Handle>>) {
    forall b {:trigger chains[b]} :: 0 <= b < |chains| ==> NoDup(chains[b])
  }

  /** Chains of a doubled table have no duplicates. */
  lemma {:induction false} DealNoDup(nc: seq<seq<Handle>>, c: seq<Handle>, k: nat)
    requires |nc| == Pow2(k) && NoDup(c) && NoDups(nc) && HashTable.Apart(nc, c)
    ensures NoDups(Deal(nc, c, k))
  {
    if c != [] {
      var d, x := c[..|c| - 1], c[|c| - 1];
      DealNoDup(nc, d, k);
      assert x !in d && x in c;
      DealMembers(nc, d, k, LowBits(x.hv, k), x);
    }
  }

  lemma {:induction false} DealAllNoDup(items: set<Handle>, chains: seq<seq<Handle>>, k: nat, i: nat)
    requires Placed(items, chains, k) && i <= |chains| && NoDups(chains)
    ensures NoDups(DealAll(chains, i, k + 1))
  {
    if i > 0 {
      DealAllNoDup(items, chains, k, i - 1);
      DealAllSoFar(items, chains, k, i - 1);
      DealNoDup(DealAll(chains, i - 1, k + 1), chains[i - 1], k + 1);
    }
  }

  /** The chain part of soundness. */
  ghost predicate ShapeOk(items: set<Handle>, s: Shape) {
    |s.mults| == |s.chains| && Placed(items, s.chains, Log2(s)) && Stopped(s.log) && NoDups(s.chains)
  }

  lemma WithItemOk(items: set<Handle>, s: Shape, x: Handle, n: nat)
    requires ShapeOk(items, s) && x !in items
    ensures ShapeOk(items + {x}, WithItem(s, x, n))
  {
    hide ShapeOk, Doubled, Pushed;
    PushedOk(items, s, x);
    DoubledOk(items + {x}, Pushed(s, x, BucketOf(s, x)), n);
  }

  lemma PushedOk(items: set<Handle>, s: Shape, x: Handle)
    requires ShapeOk(items, s) && x !in items
    ensures ShapeOk(items + {x}, Pushed(s, x, BucketOf(s, x))) && Pushed(s, x, BucketOf(s, x)).log == s.log
  {
    hide LowBits;
    var b := BucketOf(s, x);
    PlacedAdd(items, s.chains, Log2(s), x);
    assert forall t :: 0 <= t < |s.chains[b]| ==> s.chains[b][t] in items;
  }

  lemma DoubledOk(items: set<Handle>, p: Shape, n: nat)
    requires ShapeOk(items, p)
    ensures !TwoInARow(p.log) ==> ShapeOk(items, Doubled(p, n))
  {
    hide LowBits, Excess, DealAll, TwoInARow;
    PlacedDealt(items, p.chains, Log2(p));
    DealAllNoDup(items, p.chains, Log2(p), |p.chains|);
    var d := Doubled(p, n);
    assert d.log[..|d.log| - 1] == p.log;
  }

  lemma DropFromOk(items: set<Handle>, s: Shape, x: Handle)
    requires ShapeOk(items, s) && x in items
    ensures ShapeOk(items - {x}, DropFrom(s, x, BucketOf(s, x)))
  {
    var b := BucketOf(s, x);
    PlacedRemove(items, s.chains, Log2(s), b, IndexOf(s.chains[b], x));
  }

  lemma AddedSound(m: Model, p: nat, x: Handle)
    requires Sound(m) && AbsentFrom(m.order, x) && p <= |m.order|
    ensures Sound(AddedAt(m, p, x))
  {
    WithItemOk(Elements(m.order), m.shape, x, |m.order| + 1);
    ElementsInserted(m.order, p, x);
    UniqueInserted(m.order, p, x);
    InsertedNoDup(m.order, p, x);
  }

  lemma InsertedNoDup(s: seq<Handle>, p: nat, x: Handle)
    requires NoDup(s) && x !in s && p <= |s|
    ensures NoDup(Inserted(s, p, x))
  {
    var r := Inserted(s, p, x);
    assert forall t :: 0 <= t < |r| ==> r[t] == if t < p then s[t] else if t == p then x else s[t - 1];
  }

  lemma WithoutNoDup(s: seq<Handle>, i: nat)
    requires NoDup(s)
    ensures NoDup(Without(s, i))
  {
    var r := Without(s, i);
    assert i < |s| ==> forall t :: 0 <= t < |r| ==> r[t] == if t < i then s[t] else s[t + 1];
  }

  lemma RemovedSound(m: Model, x: Handle)
    requires Sound(m) && x in m.order
    ensures Sound(RemovedFrom(m, x))
  {
    if |m.order| == 1 {
      EmptySound();
    } else {
      var i := IndexOf(m.order, x);
      DropFromOk(Elements(m.order), m.shape, x);
      ElementsWithout(m.order, i);
      StillUnique(m.order, i);
      WithoutNoDup(m.order, i);
    }
  }

  lemma DisplacedSound(m: Model, x: Handle)
    requires Sound(m)
    ensures var d := Without1(m, Match(m, x)); Sound(d) && AbsentFrom(d.order, x)
  {
    hide FirstMatch, AbsentFrom, RemovedFrom, Sound;
    UniqueOf(m);
    Displaced(m, x);
    var h := Match(m, x);
    if h != null { RemovedSound(m, h); }
  }

  lemma UniqueOf(m: Model)
    requires Sound(m)
    ensures UniqueKeys(m.order) && NoDup(m.order)
  {
  }

  lemma SortSound(m: Model, cmp: (Cache, Cache) -> int)
    requires Sound(m) && TotalPreorder(cmp)
    ensures Sound(Model(SortOf(m.order, cmp), m.shape))
  {
    var t := SortOf(m.order, cmp);
    SortedIsRanked(m.order, cmp);
    SameMembers(m.order, t);
    PermutedNoDup(m.order, t);
    UniquePermuted(m.order, t);
  }

  lemma PermutedNoDup(s: seq<Handle>, t: seq<Handle>)
    requires multiset(s) == multiset(t) && NoDup(s)
    ensures NoDup(t)
  {
    forall i, j | 0 <= i < j < |t| ensures t[i] != t[j] {
      if t[i] == t[j] {
        assert t == t[..j] + [t[j]] + t[j + 1..];
        assert t[i] in t[..j];
        assert multiset(t)[t[i]] >= 2;
        OnceOnly(s, t[i]);
      }
    }
  }

  lemma {:induction false} OnceOnly(s: seq<Handle>, h: Handle)
    requires NoDup(s)
    ensures multiset(s)[h] <= 1
  {
    if s != [] {
      var r := s[..|s| - 1];
      OnceOnly(r, h);
      assert s == r + [s[|s| - 1]];
      assert s[|s| - 1] !in r;
    }
  }

  lemma StepSound(m: Model, op: Op, b: Build)
    requires Sound(m) && Allowed(m, op) && TotalPreorder(b.cmp)
    ensures Sound(Step(m, op, b))
  {
    hide Sound, SortOf, TotalPreorder, AddedAt, RemovedFrom, Place, FirstMatch, Without1, OutOfMemory;
    var d := Vacated(m, op);
    if Replaces(op) { DisplacedSound(m, op.x); }
    if !Fails(m, op, b) {
      match op {
        case Add(x, _) => AddedSound(m, |m.order|, x);
        case AddInOrder(x, _) => AddedSound(m, Place(m.order, x, b.cmp), x);
        case Replace(x, _) => AddedSound(d, |d.order|, x);
        case ReplaceInOrder(x, _) => AddedSound(d, Place(d.order, x, b.cmp), x);
        case Delete(x) => RemovedSound(m, x);
        case Sort => SortSound(m, b.cmp);
        case Clear => EmptySound();
      }
    }
  }

  /** Over every run of requests, failed ones included, the list and the chains hold the same elements once each, in
      their
      buckets. */
  lemma {:induction false} RunSound(ops: seq<Op>, b: Build)
    requires TotalPreorder(b.cmp) && AllAllowed(EmptyModel(), ops, b)
    ensures Sound(Run(EmptyModel(), ops, b))
  {
    hide Sound, TotalPreorder, Step, Allowed;
    if ops == [] {
      EmptySound();
    } else {
      RunSound(ops[..|ops| - 1], b);
      StepSound(Run(EmptyModel(), ops[..|ops| - 1], b), ops[|ops| - 1], b);
    }
  }

  // ---------- when a table doubles ----------

  /** The table is due to double when `x` is added: its bucket, counting `x`, holds ten times one more than the bucket's
      multiplier, and the last two expansions were not both ineffective. */
  ghost predicate Due(s: Shape, x: Handle) {
    var n, l := |s.chains|, |s.log|;
    && n > 0 && |s.mults| == n && |s.chains[x.hv % n]| + 1 >= 10 * (s.mults[x.hv % n] + 1)
    && !(l >= 2 && s.log[l - 1] && s.log[l - 2])
  }

  lemma EarlyTwo(log: seq<bool>, i: nat)
    requires i + 2 < |log| && log[i] && log[i + 1]
    ensures TwoInARow(log[..|log| - 1])
  {
    var r := log[..|log| - 1];
    assert r[i] && r[i + 1];
  }

  lemma LastTwo(log: seq<bool>)
    requires Stopped(log)
    ensures var l := |log|; TwoInARow(log) <==> l >= 2 && log[l - 1] && log[l - 2]
  {
    var l := |log|;
    if TwoInARow(log) {
      var i: nat, j: nat :| j == i + 1 && j < |log| && log[i] && log[j];
      if j < l - 1 { EarlyTwo(log, i); }
    }
  }

  lemma FullIsDue(items: set<Handle>, s: Shape, x: Handle)
    requires ShapeOk(items, s)
    ensures |s.chains| > 0 && BucketOf(s, x) == x.hv % |s.chains| && (Full(s, BucketOf(s, x)) <==> Due(s, x))
  {
    hide LowBits, TwoInARow, Stopped;
    LowBitsIsMod(x.hv, Log2(s));
    LastTwo(s.log);
  }

  /** An addition doubles the table exactly when that is due, and otherwise puts `x` at the front of its chain and
      changes nothing else. */
  lemma AddDoubles(items: set<Handle>, s: Shape, x: Handle, n: nat)
    requires ShapeOk(items, s)
    ensures var t, b := WithItem(s, x, n), x.hv % |s.chains|;
            if Due(s, x) then |t.chains| == 2 * |s.chains| && |t.log| == |s.log| + 1
            else t == s.(chains := s.chains[b := [x] + s.chains[b]])
  {
    hide LowBits, Excess, Due, Full;
    FullIsDue(items, s, x);
  }

  /** A new table: 32 empty buckets, multiplier zero, no expansion yet. */
  lemma StartIs()
    ensures var s := EmptyModel().shape;
            && |s.chains| == |s.mults| == 32 && s.log == []
            && forall b {:trigger s.chains[b]} :: 0 <= b < 32 ==> s.chains[b] == [] && s.mults[b] == 0
  {
  }

  /** An addition runs out of memory exactly when a table must be made and one of its allocations fails, or a doubling
      is due and its allocation fails. */
  lemma OutOfMemoryMeans(m: Model, x: Handle, mem: Mem, bloom: bool)
    requires Sound(m)
    ensures m.order == [] ==> (OutOfMemory(m, x, mem, bloom) <==> !mem.table || !mem.buckets || (bloom && !mem.bloom))
    ensures m.order != [] ==> (OutOfMemory(m, x, mem, bloom) <==> Due(m.shape, x) && !mem.expand)
  {
    hide ShapeOk, Due, Full;
    FullIsDue(Elements(m.order), m.shape, x);
  }

  // ---------- when expansion stops ----------

  lemma StepFrozen(m: Model, op: Op, b: Build)
    requires TwoInARow(m.shape.log) && Allowed(m, op) && Step(m, op, b).order != [] && Vacated(m, op).order != []
    ensures Step(m, op, b).shape.log == m.shape.log
  {
    hide AddedAt, RemovedFrom, OutOfMemory, Place, FirstMatch, SortOf, TwoInARow;
    var d := Vacated(m, op);
    if Replaces(op) && Match(m, op.x) != null { RemovedFrozen(m, Match(m, op.x)); }
    if op.Delete? { RemovedFrozen(m, op.x); }
    if Adds(op) {
      AddedFrozen(d, |d.order|, op.x);
      AddedFrozen(d, Place(d.order, op.x, b.cmp), op.x);
    }
  }

  lemma AddedFrozen(m: Model, p: nat, x: Handle)
    requires TwoInARow(m.shape.log)
    ensures AddedAt(m, p, x).shape.log == m.shape.log
  {
    hide TwoInARow;
  }

  lemma RemovedFrozen(m: Model, x: Handle)
    requires RemovedFrom(m, x).order != []
    ensures RemovedFrom(m, x).shape.log == m.shape.log
  {
  }

  /** The list, and hence the table, survives every step of the run, also between the two halves of a replacement. */
  ghost predicate TableLives(m: Model, ops: seq<Op>, b: Build) {
    ops == [] ||
    (var n, op := Run(m, ops[..|ops| - 1], b), ops[|ops| - 1];
     TableLives(m, ops[..|ops| - 1], b) && Step(n, op, b).order != [] && Vacated(n, op).order != [])
  }

  /** Once two consecutive expansions were ineffective, the bucket count never changes while the table lives. */
  lemma {:induction false} RunFrozen(m: Model, ops: seq<Op>, b: Build)
    requires TwoInARow(m.shape.log) && AllAllowed(m, ops, b) && TableLives(m, ops, b)
    ensures Run(m, ops, b).shape.log == m.shape.log && Log2(Run(m, ops, b).shape) == Log2(m.shape)
  {
    if ops != [] {
      RunFrozen(m, ops[..|ops| - 1], b);
      StepFrozen(Run(m, ops[..|ops| - 1], b), ops[|ops| - 1], b);
    }
  }

  // ---------- the hash object and these values ----------

  /** What a valid hash computes is a sound state, with noexpand set exactly after two ineffective expansions in a
      row. */
  lemma ValidIsSound(h: Hash)
    requires h.Valid()
    ensures Sound(h.State())
    ensures h.tbl != null ==>
      && h.tbl.numBuckets == Pow2(Log2(h.State().shape)) && (h.tbl.noexpand <==> TwoInARow(h.State().shape.log))
  {
    if h.tbl == null {
      EmptySound();
    }
  }

  /** If the operation's addition doubles the table, 32 bits hold the new bucket count. */
  ghost predicate Grows(m: Model, op: Op) { Adds(op) ==> CanGrow(Vacated(m, op), op.x, op.mem) }

  /** Every operation of a hash is the step these runs are made of. */
  method Perform(h: Hash, op: Op, hashval: Word, b: Build)
    requires Adds(op) ==> hashval == op.x.hv
    requires h.Valid() && Allowed(h.State(), op) && Grows(h.State(), op) && h.bloomOn == b.bloom && TotalPreorder(b.cmp)
    modifies h, h.Repr(), h.order, (if Adds(op) then {op.x} else {})
    ensures h.Valid() && h.State() == Step(old(h.State()), op, b) && fresh(h.Repr() - old(h.Repr()))
  {
    hide Hash.Valid, Hash.State, TotalPreorder, AddedAt, RemovedFrom, Place, FirstMatch, Without1, OutOfMemory,
        CanGrow, SortOf;
    h.StateOrder();
    match op {
      case Add(x, mem) => var _ := h.Add(x, hashval, mem);
      case AddInOrder(x, mem) => var _ := h.AddInOrder(x, hashval, b.cmp, mem);
      case Replace(x, mem) => var _, _ := h.Replace(x, hashval, mem);
      case ReplaceInOrder(x, mem) => var _, _ := h.ReplaceInOrder(x, hashval, b.cmp, mem);
      case Delete(x) => h.Delete(x);
      case Sort => Srt(h, b.cmp);
      case Clear => h.Clear();
    }
  }
}
