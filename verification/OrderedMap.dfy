/** A hash refines a map that remembers the order of insertion. */
module OrderedMap {
  import opened Words
  import opened HashTable
  import opened AppList
  import opened UtHash
  import opened Runs
  import StableSort
  import MergeSort

  datatype MapKey = MapKey(key: Key, hv: Word)

  /** Keys in insertion order, and the element under each. */
  datatype OMap = OMap(keys: seq<MapKey>, vals: map<MapKey, Handle>)

  ghost function KeyOf(h: Handle): MapKey { MapKey(h.elt.id, h.hv) }

  ghost function Put(m: OMap, h: Handle): OMap { OMap(m.keys + [KeyOf(h)], m.vals[KeyOf(h) := h]) }

  ghost function Get(m: OMap, k: MapKey): Handle? { if k in m.vals then m.vals[k] else null }

  ghost function CutKey(keys: seq<MapKey>, k: MapKey): seq<MapKey> {
    if keys == [] then [] else if keys[0] == k then keys[1..] else [keys[0]] + CutKey(keys[1..], k)
  }

  ghost function Remove(m: OMap, k: MapKey): OMap { OMap(CutKey(m.keys, k), m.vals - {k}) }

  /** The map operations the table operations stand for; a replaced key moves to the end, and a failed replacement
      has only
      removed. */
  ghost function MapStep(m: OMap, op: Op, failed: bool): OMap {
    match op
    case Delete(x) => Remove(m, KeyOf(x))
    case Clear => OMap([], map[])
    case Sort => m
    case _ =>
      var r := if Replaces(op) then Remove(m, KeyOf(op.x)) else m;
      if failed then r else Put(r, op.x)
  }

  /** The map after a run of the state `s`, whose memory decides which additions fail. */
  ghost function MapRun(m: OMap, s: Model, ops: seq<Op>, b: Build): OMap {
    if ops == [] then m
    else var r, op := ops[..|ops| - 1], ops[|ops| - 1];
         MapStep(MapRun(m, s, r, b), op, Fails(Run(s, r, b), op, b))
  }

  // ---------- the abstraction ----------

  ghost function KeysOf(s: seq<Handle>): seq<MapKey> { seq(|s|, i requires 0 <= i < |s| => KeyOf(s[i])) }

  ghost function ValsOf(s: seq<Handle>): map<MapKey, Handle> {
    if s == [] then map[] else ValsOf(s[..|s| - 1])[KeyOf(s[|s| - 1]) := s[|s| - 1]]
  }

  ghost function Abs(s: seq<Handle>): OMap { OMap(KeysOf(s), ValsOf(s)) }

  lemma {:induction false} ValsAre(s: seq<Handle>, k: MapKey)
    requires UniqueKeys(s)
    ensures k in ValsOf(s) <==> exists i :: 0 <= i < |s| && KeyOf(s[i]) == k
    ensures forall i :: 0 <= i < |s| && KeyOf(s[i]) == k ==> ValsOf(s)[k] == s[i]
  {
    if s != [] {
      var r := s[..|s| - 1];
      ValsAre(r, k);
      assert forall i :: 0 <= i < |r| ==> r[i] == s[i];
    }
  }

  /** HASH_FIND returns exactly the map's entry. */
  lemma FindIsGet(s: seq<Handle>, key: Key, hv: Word)
    requires UniqueKeys(s)
    ensures FirstMatch(s, key, hv) == Get(Abs(s), MapKey(key, hv))
  {
    FirstMatchFinds(s, key, hv);
    ValsAre(s, MapKey(key, hv));
    var h := FirstMatch(s, key, hv);
    if h != null {
      var i :| 0 <= i < |s| && s[i] == h;
      assert KeyOf(s[i]) == MapKey(key, hv);
    } else {
      assert forall i :: 0 <= i < |s| ==> s[i] in s;
    }
  }

  lemma AbsAppended(s: seq<Handle>, x: Handle)
    ensures Abs(Inserted(s, |s|, x)) == Put(Abs(s), x)
  {
    var r := Inserted(s, |s|, x);
    assert r == s + [x] && r[..|r| - 1] == s;
  }

  lemma {:induction false} CutIs(keys: seq<MapKey>, i: nat)
    requires i < |keys| && forall j :: 0 <= j < i ==> keys[j] != keys[i]
    ensures CutKey(keys, keys[i]) == keys[..i] + keys[i + 1..]
  {
    if i > 0 {
      CutIs(keys[1..], i - 1);
      assert keys[..i] == [keys[0]] + keys[1..][..i - 1] && keys[i + 1..] == keys[1..][i..];
    }
  }

  lemma CutAt(s: seq<Handle>, i: nat)
    requires UniqueKeys(s) && i < |s|
    ensures CutKey(KeysOf(s), KeyOf(s[i])) == KeysOf(Without(s, i))
  {
    hide CutKey;
    CutIs(KeysOf(s), i);
    assert KeysOf(Without(s, i)) == KeysOf(s)[..i] + KeysOf(s)[i + 1..];
  }

  lemma CutAbsent(keys: seq<MapKey>, k: MapKey)
    requires k !in keys
    ensures CutKey(keys, k) == keys
  {
  }

  lemma AbsRemoved(s: seq<Handle>, x: Handle)
    requires UniqueKeys(s) && x in s
    ensures Abs(Removed(s, x)) == Remove(Abs(s), KeyOf(x))
  {
    var i := IndexOf(s, x);
    var r := Without(s, i);
    CutAt(s, i);
    StillUnique(s, i);
    assert forall t :: 0 <= t < |r| ==> r[t] == if t < i then s[t] else s[t + 1];
    forall k | true
      ensures k in ValsOf(r) <==> k in ValsOf(s) && k != KeyOf(x)
      ensures k in ValsOf(r) ==> ValsOf(r)[k] == ValsOf(s)[k]
    {
      SameOff(s, i, k);
    }
    assert ValsOf(r) == ValsOf(s) - {KeyOf(x)};
  }

  lemma SameOff(s: seq<Handle>, i: nat, k: MapKey)
    requires UniqueKeys(s) && i < |s|
    ensures var r := Without(s, i);
            && (k in ValsOf(r) <==> k in ValsOf(s) && k != KeyOf(s[i]))
            && (k in ValsOf(r) ==> ValsOf(r)[k] == ValsOf(s)[k])
  {
    hide ValsOf, FirstMatch;
    var r := Without(s, i);
    StillUnique(s, i);
    FindIsGet(s, k.key, k.hv);
    FindIsGet(r, k.key, k.hv);
    MatchOff(s, i, k);
  }

  lemma MatchOff(s: seq<Handle>, i: nat, k: MapKey)
    requires UniqueKeys(s) && i < |s|
    ensures FirstMatch(Without(s, i), k.key, k.hv) == if k == KeyOf(s[i]) then null else FirstMatch(s, k.key, k.hv)
  {
    hide FirstMatch, Without, UniqueKeys;
    MembersOff(s, i);
    FirstMatchFinds(s, k.key, k.hv);
    FirstMatchFinds(Without(s, i), k.key, k.hv);
    var g, h := FirstMatch(s, k.key, k.hv), FirstMatch(Without(s, i), k.key, k.hv);
    if h != null && g != null { SameKeySame(s, g, h); }
    if h != null && k == KeyOf(s[i]) { SameKeySame(s, s[i], h); }
    if g != null && k != KeyOf(s[i]) { assert g in Without(s, i); }
  }

  lemma SameKeySame(s: seq<Handle>, g: Handle, h: Handle)
    requires UniqueKeys(s) && g in s && h in s && KeyOf(g) == KeyOf(h)
    ensures g == h
  {
    var a :| 0 <= a < |s| && s[a] == g;
    var b :| 0 <= b < |s| && s[b] == h;
    assert a == b;
  }

  lemma MembersOff(s: seq<Handle>, i: nat)
    requires UniqueKeys(s) && i < |s|
    ensures s[i] in s && s[i] !in Without(s, i)
    ensures forall h :: h in Without(s, i) ==> h in s
    ensures forall h :: h in s && h != s[i] ==> h in Without(s, i)
  {
    ElementsWithout(s, i);
    assert forall h :: h in Without(s, i) <==> h in Elements(Without(s, i));
  }

  /** A run that neither sorts nor inserts in order. */
  ghost predicate ByArrival(ops: seq<Op>) {
    forall i :: 0 <= i < |ops| ==> ops[i].Add? || ops[i].Replace? || ops[i].Delete? || ops[i].Clear?
  }

  /** The part of a replacement that comes before its addition. */
  lemma VacatedRefines(m: Model, x: Handle)
    requires Sound(m)
    ensures var d := Without1(m, Match(m, x));
        Sound(d) && AbsentFrom(d.order, x)
        && Abs(d.order) == Remove(Abs(m.order), KeyOf(x))
  {
    hide ShapeOk, DropFrom, Abs, Remove;
    DisplacedSound(m, x);
    FirstMatchFinds(m.order, x.elt.id, x.hv);
    var h := Match(m, x);
    if h == null {
      NoSuchKey(m.order, x);
    } else {
      RemovedOrder(m, h);
    }
  }

  lemma StepRefines(m: Model, op: Op, b: Build)
    requires Sound(m) && Allowed(m, op) && (op.Add? || op.Replace? || op.Delete? || op.Clear?)
    ensures Abs(Step(m, op, b).order) == MapStep(Abs(m.order), op, Fails(m, op, b))
  {
    hide Sound, WithItem, RemovedFrom, Without1, OutOfMemory, Remove, Put;
    if op.Replace? { VacatedRefines(m, op.x); }
    match op {
      case Add(x, _) => AbsAppended(m.order, x);
      case Replace(x, _) => AbsAppended(Vacated(m, op).order, x);
      case Delete(x) => RemovedOrder(m, x);
      case Clear => NoElements();
    }
  }

  lemma NoElements()
    ensures Abs([]) == OMap([], map[])
  {
  }

  lemma NoSuchKey(s: seq<Handle>, x: Handle)
    requires UniqueKeys(s) && FirstMatch(s, x.elt.id, x.hv) == null
    ensures Remove(Abs(s), KeyOf(x)) == Abs(s)
  {
    FindIsGet(s, x.elt.id, x.hv);
    FirstMatchFinds(s, x.elt.id, x.hv);
    forall i | 0 <= i < |s| ensures KeysOf(s)[i] != KeyOf(x) {
      assert s[i] in s;
    }
    ValsAre(s, KeyOf(x));
    CutAbsent(KeysOf(s), KeyOf(x));
  }

  lemma RemovedOrder(m: Model, x: Handle)
    requires Sound(m) && x in m.order
    ensures Abs(RemovedFrom(m, x).order) == Remove(Abs(m.order), KeyOf(x))
  {
    AbsRemoved(m.order, x);
    if |m.order| == 1 {
      assert Removed(m.order, x) == [];
    }
  }

  /** The list of a hash is always the insertion-ordered map its requests describe. */
  lemma {:induction false} RunRefines(ops: seq<Op>, b: Build)
    requires StableSort.TotalPreorder(b.cmp) && AllAllowed(EmptyModel(), ops, b) && ByArrival(ops)
    ensures Abs(Run(EmptyModel(), ops, b).order) == MapRun(OMap([], map[]), EmptyModel(), ops, b)
  {
    hide Sound, Abs, Step, MapStep, Fails, Allowed;
    if ops == [] {
      NoElements();
    } else {
      var r := ops[..|ops| - 1];
      RunRefines(r, b);
      RunSound(r, b);
      StepRefines(Run(EmptyModel(), r, b), ops[|ops| - 1], b);
    }
  }

  // ---------- runs that also sort and insert in order ----------

  /** The list holds the map's entries, in some order. */
  ghost predicate Agrees(s: seq<Handle>, m: OMap) {
    ValsOf(s) == m.vals && multiset(KeysOf(s)) == multiset(m.keys)
  }

  lemma {:induction false} CutMultiset(keys: seq<MapKey>, k: MapKey)
    ensures multiset(CutKey(keys, k)) == multiset(keys) - multiset{k}
  {
    if keys == [] {
    } else {
      assert keys == [keys[0]] + keys[1..];
      CutMultiset(keys[1..], k);
    }
  }

  lemma RemoveAgrees(s: seq<Handle>, t: seq<Handle>, m: OMap, k: MapKey)
    requires Agrees(s, m) && Abs(t) == Remove(Abs(s), k)
    ensures Agrees(t, Remove(m, k))
  {
    CutMultiset(KeysOf(s), k);
    CutMultiset(m.keys, k);
  }

  lemma InsertedKeys(s: seq<Handle>, p: nat, x: Handle)
    requires p <= |s|
    ensures multiset(KeysOf(Inserted(s, p, x))) == multiset(KeysOf(s)) + multiset{KeyOf(x)}
  {
    var k := KeysOf(s);
    assert KeysOf(Inserted(s, p, x)) == k[..p] + [KeyOf(x)] + k[p..];
    assert k == k[..p] + k[p..];
  }

  /** The map has the elements of `s` under their keys, and nothing else. */
  ghost predicate MapOf(s: seq<Handle>, m: map<MapKey, Handle>) {
    && (forall h :: h in s ==> KeyOf(h) in m && m[KeyOf(h)] == h)
    && (forall k :: k in m ==> m[k] in s && KeyOf(m[k]) == k)
  }

  lemma ValsAreMap(s: seq<Handle>)
    requires UniqueKeys(s)
    ensures MapOf(s, ValsOf(s))
  {
    hide ValsOf, UniqueKeys;
    forall h | h in s ensures KeyOf(h) in ValsOf(s) && ValsOf(s)[KeyOf(h)] == h {
      ValsAre(s, KeyOf(h));
    }
    forall k | k in ValsOf(s) ensures ValsOf(s)[k] in s && KeyOf(ValsOf(s)[k]) == k {
      ValsAre(s, k);
    }
  }

  lemma OnlyMap(s: seq<Handle>, t: seq<Handle>, m: map<MapKey, Handle>)
    requires UniqueKeys(t) && MapOf(s, m) && forall h :: h in s <==> h in t
    ensures ValsOf(t) == m
  {
    hide ValsOf, UniqueKeys;
    ValsAreMap(t);
    forall k | true ensures k in ValsOf(t) <==> k in m {
      if k in m { assert m[k] in t; }
      if k in ValsOf(t) { assert ValsOf(t)[k] in s; }
    }
  }

  /** Where an element is inserted makes no difference to what its key maps to. */
  lemma InsertedVals(s: seq<Handle>, p: nat, x: Handle)
    requires UniqueKeys(s) && AbsentFrom(s, x) && p <= |s|
    ensures ValsOf(Inserted(s, p, x)) == ValsOf(s)[KeyOf(x) := x]
  {
    hide ValsOf, UniqueKeys, MapOf, Inserted;
    UniqueInserted(s, p, x);
    ValsAreMap(s);
    MapGrows(s, x, ValsOf(s));
    ElementsInserted(s, p, x);
    SameElements(s + [x], Inserted(s, p, x)) by { assert forall h :: h in s + [x] <==> h in s || h == x; }
    OnlyMap(s + [x], Inserted(s, p, x), ValsOf(s)[KeyOf(x) := x]);
  }

  lemma SameElements(s: seq<Handle>, t: seq<Handle>)
    requires Elements(s) == Elements(t)
    ensures forall h :: h in s <==> h in t
  {
    assert forall h :: h in s <==> h in Elements(s);
    assert forall h :: h in t <==> h in Elements(t);
  }

  lemma MapGrows(s: seq<Handle>, x: Handle, m: map<MapKey, Handle>)
    requires MapOf(s, m) && AbsentFrom(s, x)
    ensures MapOf(s + [x], m[KeyOf(x) := x])
  {
    forall h | h in s ensures KeyOf(h) != KeyOf(x) {
      var i :| 0 <= i < |s| && s[i] == h;
    }
  }

  lemma InsertAgrees(s: seq<Handle>, p: nat, x: Handle, m: OMap)
    requires UniqueKeys(s) && AbsentFrom(s, x) && p <= |s| && Agrees(s, m)
    ensures Agrees(Inserted(s, p, x), Put(m, x))
  {
    hide ValsOf, UniqueKeys, AbsentFrom, KeysOf;
    InsertedKeys(s, p, x);
    InsertedVals(s, p, x);
    assert multiset(m.keys + [KeyOf(x)]) == multiset(m.keys) + multiset{KeyOf(x)};
  }

  lemma {:induction false} SortedKeys(s: seq<Handle>, cmp: (Cache, Cache) -> int)
    ensures multiset(KeysOf(StableSort.SortOf(s, cmp))) == multiset(KeysOf(s))
  {
    if s != [] {
      var r, x := s[..|s| - 1], s[|s| - 1];
      var t := StableSort.SortOf(r, cmp);
      SortedKeys(r, cmp);
      StableSort.InsIsInserted(t, x, cmp);
      InsertedKeys(t, Place(t, x, cmp), x);
      assert KeysOf(s) == KeysOf(r) + [KeyOf(x)];
    }
  }

  lemma SortAgrees(s: seq<Handle>, m: OMap, cmp: (Cache, Cache) -> int)
    requires StableSort.TotalPreorder(cmp) && UniqueKeys(s) && NoDup(s) && Agrees(s, m)
    ensures Agrees(StableSort.SortOf(s, cmp), m)
  {
    hide ValsOf, UniqueKeys, NoDup, KeysOf, StableSort.SortOf, StableSort.TotalPreorder;
    var t := StableSort.SortOf(s, cmp);
    StableSort.SortedIsRanked(s, cmp);
    MergeSort.SameMembers(s, t);
    PermutedNoDup(s, t);
    MergeSort.UniquePermuted(s, t);
    SortedKeys(s, cmp);
    ValsAreMap(s);
    assert forall h :: h in s <==> h in Elements(s);
    assert forall h :: h in t <==> h in Elements(t);
    OnlyMap(s, t, ValsOf(s));
  }

  lemma StepAgrees(m: Model, op: Op, b: Build, om: OMap)
    requires StableSort.TotalPreorder(b.cmp) && Sound(m) && Allowed(m, op) && Agrees(m.order, om)
    ensures Agrees(Step(m, op, b).order, MapStep(om, op, Fails(m, op, b)))
  {
    hide Sound, WithItem, RemovedFrom, Without1, OutOfMemory, Remove, Put, Agrees, StableSort.SortOf,
        StableSort.TotalPreorder,
         AbsentFrom, Place, Inserted;
    UniqueOf(m);
    var d, k := Vacated(m, op), if Replaces(op) then Remove(om, KeyOf(op.x)) else om;
    if Replaces(op) {
      VacatedRefines(m, op.x);
      RemoveAgrees(m.order, d.order, om, KeyOf(op.x));
      UniqueOf(d);
    }
    if !Fails(m, op, b) {
      match op {
        case Add(x, _) => InsertAgrees(m.order, |m.order|, x, om);
        case AddInOrder(x, _) => InsertAgrees(m.order, Place(m.order, x, b.cmp), x, om);
        case Replace(x, _) => InsertAgrees(d.order, |d.order|, x, k);
        case ReplaceInOrder(x, _) => InsertAgrees(d.order, Place(d.order, x, b.cmp), x, k);
        case Delete(x) =>
          RemovedOrder(m, x);
          RemoveAgrees(m.order, RemovedFrom(m, x).order, om, KeyOf(x));
        case Sort => SortAgrees(m.order, om, b.cmp);
        case Clear => NothingAgrees();
      }
    }
  }

  lemma NothingAgrees()
    ensures Agrees([], OMap([], map[]))
  {
  }

  /** In every run, with any mix of operations and failures, the list holds exactly the entries of the map its requests
      describe, in the order its in-order operations and sorts give it. */
  lemma {:induction false} RunAgrees(ops: seq<Op>, b: Build)
    requires StableSort.TotalPreorder(b.cmp) && AllAllowed(EmptyModel(), ops, b)
    ensures Agrees(Run(EmptyModel(), ops, b).order, MapRun(OMap([], map[]), EmptyModel(), ops, b))
  {
    hide Sound, Agrees, Step, MapStep, Fails, Allowed, StableSort.TotalPreorder;
    if ops == [] {
      NothingAgrees();
    } else {
      var r := ops[..|ops| - 1];
      RunAgrees(r, b);
      RunSound(r, b);
      StepAgrees(Run(EmptyModel(), r, b), ops[|ops| - 1], b, MapRun(OMap([], map[]), EmptyModel(), r, b));
    }
  }
}
