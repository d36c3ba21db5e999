/** The provider's registry of caches, kept in a hash under their ids. */
module Registry {
  import opened Words
  import opened HashTable
  import opened AppList
  import opened UtHash
  import opened Wrappers
  import Jenkins

  datatype Ret = Success | InvalidToken | InvalidBackend | InvalidCache | BackendError(code: int)

  /** How a back end's context was given back: by its close or by its destroy function. */
  datatype Release = Release(ctx: nat, destroyed: bool)

  /** The caches in order of insertion, the contexts handed out by back ends (numbered in order), those given back, and
      those no cache remembers. */
  datatype Reg = Reg(entries: seq<Cache>, produced: nat, released: seq<Release>, leaked: seq<nat>)

  /** The provider's token, if it has one, and the names of its back ends. */
  datatype Conf = Conf(token: Option<string>, backends: seq<string>)

  /** One remote request; `code` is what the back end's function returns, zero for success. */
  datatype Request =
    | Create(token: string, typ: string, id: Key, code: int)
    | Open(token: string, typ: string, id: Key, code: int)
    | Close(token: string, id: Key, code: int)
    | Destroy(token: string, id: Key)
    | List(token: string, max: nat)

  // ---------- what a request does ----------

  /** The place of the cache with this id, or the number of caches. */
  function PlaceOf(es: seq<Cache>, id: Key): (i: nat)
    ensures i <= |es| && (i < |es| ==> es[i].id == id) && forall j :: 0 <= j < i ==> es[j].id != id
  {
    if es == [] || es[0].id == id then 0 else 1 + PlaceOf(es[1..], id)
  }

  function Known(es: seq<Cache>, id: Key): bool { PlaceOf(es, id) < |es| }

  function Cut(es: seq<Cache>, i: nat): seq<Cache> { if i < |es| then es[..i] + es[i + 1..] else es }

  function TokenOk(conf: Conf, token: string): bool { conf.token.Some? ==> conf.token.value == token }

  /** The first back end of this name, or the number of back ends. */
  function BackendOf(names: seq<string>, name: string): (i: nat)
    ensures i <= |names| && (i < |names| ==> names[i] == name) && forall j :: 0 <= j < i ==> names[j] != name
  {
    if names == [] || names[0] == name then 0 else 1 + BackendOf(names[1..], name)
  }

  /** A new context is recorded under a new id, and lost when the id is taken. */
  function Admitted(r: Reg, id: Key, fn: nat): Reg {
    if Known(r.entries, id) then r.(produced := r.produced + 1, leaked := r.leaked + [r.produced])
    else r.(produced := r.produced + 1, entries := r.entries + [Cache(id, fn, r.produced)])
  }

  function Dropped(r: Reg, id: Key, destroyed: bool): Reg {
    var i := PlaceOf(r.entries, id);
    if i < |r.entries| then
      r.(entries := Cut(r.entries, i), released := r.released + [Release(r.entries[i].ctx, destroyed)])
    else r
  }

  function NewCache(conf: Conf, r: Reg, token: string, typ: string, id: Key, code: int): (Reg, Ret) {
    if !TokenOk(conf, token) then (r, InvalidToken)
    else if BackendOf(conf.backends, typ) == |conf.backends| then (r, InvalidBackend)
    else if code != 0 then (r, BackendError(code))
    else (Admitted(r, id, BackendOf(conf.backends, typ)), Success)
  }

  /** The registry after a request, and the answer. */
  function Handled(conf: Conf, r: Reg, q: Request): (Reg, Ret) {
    match q
    case Create(token, typ, id, code) => NewCache(conf, r, token, typ, id, code)
    case Open(token, typ, id, code) => NewCache(conf, r, token, typ, id, code)
    case Close(token, id, code) =>
      if !TokenOk(conf, token) then (r, InvalidToken)
      else if !Known(r.entries, id) then (r, InvalidCache)
      else (Dropped(r, id, false), if code == 0 then Success else BackendError(code))
    case Destroy(token, id) =>
      if !TokenOk(conf, token) then (r, InvalidToken)
      else if !Known(r.entries, id) then (r, InvalidCache)
      else (Dropped(r, id, true), Success)
    case List(token, _) => (r, if TokenOk(conf, token) then Success else InvalidToken)
  }

  function ClosedAll(es: seq<Cache>): seq<Release> { seq(|es|, i requires 0 <= i < |es| => Release(es[i].ctx, false)) }

  /** Finalizing closes every cache left, in order. */
  function Finalized(r: Reg): Reg { r.(entries := [], released := r.released + ClosedAll(r.entries)) }

  // ---------- the hash and these values ----------

  ghost function Elts(s: seq<Handle>): seq<Cache> { seq(|s|, i requires 0 <= i < |s| => s[i].elt) }

  /** Every element's hash value is the Jenkins hash of its id. */
  ghost predicate Hashed(s: seq<Handle>) {
    forall i {:trigger s[i]} :: 0 <= i < |s| ==> s[i].hv == Jenkins.Hash(s[i].elt.id.bytes)
  }

  lemma {:induction false} PlaceIs(s: seq<Handle>, id: Key)
    requires Hashed(s)
    ensures var i := PlaceOf(Elts(s), id);
            FirstMatch(s, id, Jenkins.Hash(id.bytes)) == if i < |s| then s[i] else null
  {
    hide Jenkins.Hash;
    if s != [] {
      assert Elts(s)[1..] == Elts(s[1..]);
      assert Hashed(s[1..]) by { assert forall i :: 0 <= i < |s[1..]| ==> s[1..][i] == s[i + 1]; }
      PlaceIs(s[1..], id);
    }
  }

  lemma IndexIs(s: seq<Handle>, i: nat)
    requires NoDup(s) && i < |s|
    ensures s[i] in s && IndexOf(s, s[i]) == i && Elts(Removed(s, s[i])) == Cut(Elts(s), i)
    ensures Hashed(s) ==> Hashed(Removed(s, s[i]))
  {
    hide Jenkins.Hash, IndexOf, Elts;
    assert IndexOf(s, s[i]) == i;
    EltsCut(s, i);
  }

  lemma EltsCut(s: seq<Handle>, i: nat)
    requires i < |s|
    ensures Elts(Without(s, i)) == Cut(Elts(s), i)
    ensures Hashed(s) ==> Hashed(Without(s, i))
  {
    hide Jenkins.Hash;
    var r, c := Without(s, i), Cut(Elts(s), i);
    forall t | 0 <= t < |r|
      ensures r[t] == (if t < i then s[t] else s[t + 1]) && c[t] == r[t].elt
    {
      if t < i { assert c[t] == Elts(s)[t]; } else { assert c[t] == Elts(s)[t + 1]; }
    }
    assert Elts(r) == c;
  }

  class Provider {
    const caches: Hash
    const token: Option<string>
    var backends: seq<string>
    var numCaches: nat
    var produced: nat
    ghost var released: seq<Release>
    ghost var leaked: seq<nat>

    ghost predicate Valid()
      reads this, caches, caches.Repr(), caches.order
    {
      caches.Valid() && numCaches == |caches.order| && Hashed(caches.order)
    }

    ghost function Abs(): Reg
      reads this, caches`order
    {
      Reg(Elts(caches.order), produced, released, leaked)
    }

    function Config(): Conf
      reads this
    {
      Conf(token, backends)
    }

    /** The table can still double. */
    ghost predicate Roomy()
      reads caches`tbl, caches.tbl
    {
      caches.tbl != null ==> 2 * caches.tbl.numBuckets < TWO32
    }

    /** A provider's registry before its first request; an empty token is no token. */
    constructor (tok: string, bloom: bool, nbits: nat)
      ensures Valid() && Abs() == Reg([], 0, [], []) && Config() == Conf(if tok == "" then None else Some(tok), [])
      ensures fresh(caches) && fresh(caches.Repr()) && caches.order == []
    {
      caches := new Hash(bloom, nbits);
      token := if tok == "" then None else Some(tok);
      backends, numCaches, produced, released, leaked := [], 0, 0, [], [];
    }

    method FindBackend(name: string) returns (i: nat)
      ensures i == BackendOf(backends, name)
    {
      i := 0;
      while i < |backends|
        invariant 0 <= i <= |backends| && BackendOf(backends, name) == i + BackendOf(backends[i..], name)
      {
        if backends[i] == name {
          return;
        }
        i := i + 1;
      }
    }

    /** find_cache. */
    method FindCache(id: Key) returns (cache: Handle?)
      requires Valid()
      ensures Valid() && caches.Repr() == old(caches.Repr())
      ensures var i := PlaceOf(Abs().entries, id);
              && (cache == if i < |caches.order| then caches.order[i] else null) && |Abs().entries| == |caches.order|
              && (cache != null ==> cache.elt == Abs().entries[i])
      ensures cache == FirstMatch(caches.order, id, Jenkins.Hash(id.bytes))
    {
      hide Hash.Valid, FirstMatch, Hashed, Jenkins.Hash, PlaceOf;
      PlaceIs(caches.order, id);
      var hashv := Jenkins.Jen(id.bytes);
      assert caches.Repr() == old(caches.Repr());
      cache := caches.FindByHashValue(id, hashv);
      assert caches.Repr() == old(caches.Repr());
    }

    /** add_cache; its one caller ignores the result. */
    method AddCache(cache: Handle) returns (ret: Ret)
      requires Valid() && Roomy() && cache !in caches.order && cache.hv == Jenkins.Hash(cache.elt.id.bytes)
      modifies this`numCaches, caches, caches.Repr(), caches.order, cache
      ensures Valid() && fresh(caches.Repr() - old(caches.Repr()))
      ensures ret == if Known(old(Abs()).entries, cache.elt.id) then InvalidCache else Success
      ensures caches.order == if ret == Success then old(caches.order) + [cache] else old(caches.order)
    {
      hide Hash.Valid, Hash.State, FirstMatch, Hashed, Jenkins.Hash, PlaceOf, Elts, AddedAt, Full;
      var existing := FindCache(cache.elt.id);
      assert caches.Repr() == old(caches.Repr());
      if existing != null {
        return InvalidCache;
      }
      NotThere(cache);
      var hashv := Jenkins.Jen(cache.elt.id.bytes);
      assert caches.Repr() == old(caches.Repr());
      var _ := caches.Add(cache, hashv, Mem(true, true, true, true));
      NowThere(old(caches.State()), cache);
      numCaches := numCaches + 1;
      HashedEnd(old(caches.order), cache);
      ret := Success;
    }

    lemma NotThere(cache: Handle)
      requires caches.Valid() && cache !in caches.order && FirstMatch(caches.order, cache.elt.id, cache.hv)
        == null && Roomy()
      ensures caches.MayAdd(cache, cache.hv, Mem(true, true, true, true))
        && !caches.RunsOut(cache, Mem(true, true, true, true))
      ensures caches.State().order == caches.order
    {
      FirstMatchFinds(caches.order, cache.elt.id, cache.hv);
      assert forall i :: 0 <= i < |caches.order| ==> caches.order[i] in caches.order;
    }

    lemma NowThere(m: Model, cache: Handle)
      requires caches.State() == AddedAt(m, |m.order|, cache)
      ensures caches.order == m.order + [cache]
    {
      assert Inserted(m.order, |m.order|, cache) == m.order + [cache];
    }

    /** A back end's close function, which gives the context back whatever code it returns. */
    method CloseContext(ctx: nat, code: int) returns (ret: Ret)
      modifies this`released
      ensures released == old(released) + [Release(ctx, false)]
      ensures ret == if code == 0 then Success else BackendError(code)
    {
      released := released + [Release(ctx, false)];
      ret := if code == 0 then Success else BackendError(code);
    }

    /** A back end's destroy function. */
    method DestroyContext(ctx: nat)
      requires Valid()
      modifies this`released
      ensures released == old(released) + [Release(ctx, true)] && Valid() && caches.Repr() == old(caches.Repr())
    {
      hide Hash.Valid, Hashed;
      released := released + [Release(ctx, true)];
      assert caches.Repr() == old(caches.Repr());
    }

    /** HASH_DEL. */
    method HashDel(cache: Handle, ghost i: nat)
      requires caches.Valid() && Hashed(caches.order) && i < |caches.order| && caches.order[i] == cache
      modifies caches, caches.Repr(), caches.order
      ensures caches.Valid() && caches.Repr() <= old(caches.Repr()) && Hashed(caches.order)
      ensures caches.order == Without(old(caches.order), i) && |caches.order| == |old(caches.order)| - 1
      ensures Elts(caches.order) == Cut(old(Elts(caches.order)), i)
      ensures cache !in caches.order && forall j :: 0 <= j < |caches.order| ==> caches.order[j] in old(caches.order)
      ensures old(Roomy()) ==> Roomy()
    {
      hide Hash.Valid, Hash.State, RemovedFrom, Hashed, Elts, Linked, Cut, IndexOf;
      ghost var was := caches.order;
      caches.Heads();
      ListNoDup(was);
      IndexIs(was, i);
      caches.Delete(cache);
      OrderAfter(old(caches.State()), cache);
      RemovedGone(was, i);
    }

    /** free: nothing the element pointed to can be read through it afterwards. */
    method Free(cache: Handle)
      requires caches.Valid() && cache !in caches.order
      modifies cache
      ensures caches.Valid() && caches.Repr() == old(caches.Repr())
    {
      hide Hash.Valid;
      cache.tbl, cache.prev, cache.next, cache.hhPrev, cache.hhNext, cache.hashv := null, null, null, null, null, 0;
      assert caches.Repr() == old(caches.Repr());
    }

    lemma OrderAfter(m: Model, cache: Handle)
      requires caches.State() == RemovedFrom(m, cache) && cache in m.order
      ensures caches.order == Removed(m.order, cache)
    {
    }

    /** remove_cache. */
    method RemoveCache(id: Key, close: bool, code: int) returns (ret: Ret)
      requires Valid()
      modifies this`numCaches, this`released, caches, caches.Repr(), caches.order
      ensures Valid() && caches.Repr() <= old(caches.Repr()) && (old(Roomy()) ==> Roomy())
      ensures forall i :: 0 <= i < |caches.order| ==> caches.order[i] in old(caches.order)
      ensures var was := old(Abs());
              && Abs().entries == Cut(was.entries, PlaceOf(was.entries, id))
              && ret == (if !Known(was.entries, id) then InvalidCache else if close
                  && code != 0 then BackendError(code) else Success)
              && released == if close && Known(was.entries, id) then
                               was.released + [Release(was.entries[PlaceOf(was.entries, id)].ctx,
                                   false)] else was.released
    {
      hide Hash.Valid, Hashed, PlaceOf, Elts, Cut, Without, FirstMatch, Jenkins.Hash;
      ghost var i := PlaceOf(Abs().entries, id);
      var cache := FindCache(id);
      assert caches.Repr() == old(caches.Repr());
      if cache == null {
        CutNone(Abs().entries);
        return InvalidCache;
      }
      ret := Success;
      if close {
        ret := CloseContext(cache.elt.ctx, code);
      }
      HashDel(cache, i);
      Free(cache);
      numCaches := numCaches - 1;
    }

    // ---------- the request handlers ----------

    /** add_backend_impl. */
    method AddBackend(name: string)
      requires Valid()
      modifies this`backends
      ensures Valid() && Abs() == old(Abs()) && backends == old(backends) + [name]
    {
      hide Hash.Valid, Hashed, Elts;
      backends := backends + [name];
      assert caches.Repr() == old(caches.Repr());
    }

    /** The back end makes a context, and a cache for it is added under the new id. */
    method Admit(id: Key, fn: nat)
      requires Valid() && Roomy()
      modifies this`numCaches, this`produced, this`leaked, caches, caches.Repr(), caches.order
      ensures Valid() && fresh(caches.Repr() - old(caches.Repr()))
      ensures forall i :: 0 <= i < |caches.order| ==> caches.order[i] in old(caches.order) || fresh(caches.order[i])
      ensures Abs() == Admitted(old(Abs()), id, fn)
    {
      hide Hash.Valid, Hashed, Jenkins.Hash, PlaceOf, Elts;
      var context := produced;
      produced := produced + 1;
      var cache := new Handle(Cache(id, fn, context), Jenkins.Hash(id.bytes));
      assert caches.Repr() == old(caches.Repr());
      HashedEnd(caches.order, cache);
      var ret := AddCache(cache);
      if ret != Success {
        leaked := leaked + [context];
      }
    }

    /** The create handler; `id` is the new uuid, and `code` what the back end returns. */
    method CreateCache(tok: string, typ: string, id: Key, code: int) returns (ret: Ret)
      requires Valid() && Roomy()
      modifies this`numCaches, this`produced, this`leaked, caches, caches.Repr(), caches.order
      ensures Valid() && fresh(caches.Repr() - old(caches.Repr()))
      ensures forall i :: 0 <= i < |caches.order| ==> caches.order[i] in old(caches.order) || fresh(caches.order[i])
      ensures (Abs(), ret) == Handled(Config(), old(Abs()), Create(tok, typ, id, code))
    {
      hide Hash.Valid, Hashed, PlaceOf, Elts, Admitted;
      ret := NewContext(tok, typ, code);
      assert caches.Repr() == old(caches.Repr());
      if ret == Success {
        var backend := FindBackend(typ);
        assert caches.Repr() == old(caches.Repr());
        Admit(id, backend);
      }
    }

    /** The open handler differs in the back end function it calls. */
    method OpenCache(tok: string, typ: string, id: Key, code: int) returns (ret: Ret)
      requires Valid() && Roomy()
      modifies this`numCaches, this`produced, this`leaked, caches, caches.Repr(), caches.order
      ensures Valid() && fresh(caches.Repr() - old(caches.Repr()))
      ensures forall i :: 0 <= i < |caches.order| ==> caches.order[i] in old(caches.order) || fresh(caches.order[i])
      ensures (Abs(), ret) == Handled(Config(), old(Abs()), Open(tok, typ, id, code))
    {
      ret := CreateCache(tok, typ, id, code);
    }

    /** The checks both handlers make before a context exists. */
    method NewContext(tok: string, typ: string, code: int) returns (ret: Ret)
      ensures ret == if !TokenOk(Config(), tok) then InvalidToken
                     else if BackendOf(backends, typ) == |backends| then InvalidBackend
                     else if code != 0 then BackendError(code) else Success
    {
      if !TokenOk(Config(), tok) {
        return InvalidToken;
      }
      var backend := FindBackend(typ);
      if backend == |backends| {
        return InvalidBackend;
      }
      ret := if code != 0 then BackendError(code) else Success;
    }

    method CloseCache(tok: string, id: Key, code: int) returns (ret: Ret)
      requires Valid()
      modifies this`numCaches, this`released, caches, caches.Repr(), caches.order
      ensures Valid() && caches.Repr() <= old(caches.Repr()) && (old(Roomy()) ==> Roomy())
      ensures forall i :: 0 <= i < |caches.order| ==> caches.order[i] in old(caches.order)
      ensures (Abs(), ret) == Handled(Config(), old(Abs()), Close(tok, id, code))
    {
      hide Hash.Valid, Hashed, PlaceOf, Elts, Cut;
      if !TokenOk(Config(), tok) {
        return InvalidToken;
      }
      CutNone(Abs().entries);
      ret := RemoveCache(id, true, code);
    }

    method DestroyCache(tok: string, id: Key) returns (ret: Ret)
      requires Valid()
      modifies this`numCaches, this`released, caches, caches.Repr(), caches.order
      ensures Valid() && caches.Repr() <= old(caches.Repr()) && (old(Roomy()) ==> Roomy())
      ensures forall i :: 0 <= i < |caches.order| ==> caches.order[i] in old(caches.order)
      ensures (Abs(), ret) == Handled(Config(), old(Abs()), Destroy(tok, id))
    {
      hide Hash.Valid, Hashed, PlaceOf, Elts, Cut;
      ret := DestroyFound(tok, id);
      if ret == Success {
        ret := RemoveCache(id, false, 0);
      }
    }

    /** The destroy handler up to and with the call of the back end's destroy function. */
    method DestroyFound(tok: string, id: Key) returns (ret: Ret)
      requires Valid()
      modifies this`released
      ensures Valid() && caches.Repr() == old(caches.Repr())
      ensures var r := old(Abs());
              && ret == (if !TokenOk(Config(), tok) then InvalidToken else if !Known(r.entries,
                  id) then InvalidCache else Success)
              && released == if ret != Success then r.released
                             else r.released + [Release(r.entries[PlaceOf(r.entries, id)].ctx, true)]
    {
      hide Hash.Valid, Hashed, PlaceOf, Elts, Cut;
      if !TokenOk(Config(), tok) {
        return InvalidToken;
      }
      var cache := FindCache(id);
      if cache == null {
        return InvalidCache;
      }
      DestroyContext(cache.elt.ctx);
      ret := Success;
    }

    /** The list handler: an array with room for every cache is filled, and the answer says how many of its ids
        count. */
    method ListCaches(tok: string, max: nat) returns (ret: Ret, count: nat, ids: array?<Key>)
      requires Valid()
      ensures (Abs(), ret) == Handled(Config(), old(Abs()), List(tok, max))
      ensures ret == Success ==>
        && ids != null && count <= ids.Length && count == (if |Abs().entries| < max then |Abs().entries| else max)
        && forall i :: 0 <= i < count ==> ids[i] == Abs().entries[i].id
    {
      hide Hash.Valid, Hashed, Linked, Elts, PlaceOf;
      if !TokenOk(Config(), tok) {
        return InvalidToken, 0, null;
      }
      count := if numCaches < max then numCaches else max;
      ids := new Key[numCaches](_ => Key([]));
      assert caches.Repr() == old(caches.Repr());
      caches.Heads();
      ghost var s := caches.order;
      EltsLength(s);
      FillIds(caches.head, ids, s);
      ret := Success;
    }

    /** HASH_ITER over the list, copying every id. */
    method FillIds(head: Handle?, ids: array<Key>, ghost s: seq<Handle>)
      requires ids.Length == |s| && head == At(s, 0) && (s != [] ==> Linked(s))
      modifies ids
      ensures forall j :: 0 <= j < |s| ==> ids[j] == s[j].elt.id
    {
      hide Linked;
      if s != [] { Nexts(s); }
      var i := 0;
      var r := head;
      var tmp := if r == null then null else r.next;
      while r != null
        invariant i <= |s| && r == At(s, i) && (i < |s| ==> tmp == At(s, i + 1))
        invariant forall j :: 0 <= j < i ==> ids[j] == s[j].elt.id
        decreases |s| - i
      {
        ids[i] := r.elt.id;
        i := i + 1;
        r := tmp;
        tmp := if tmp == null then null else tmp.next;
      }
    }

    /** remove_all_caches: the next element is read before the current one is deleted and freed. */
    method RemoveAllCaches()
      requires Valid()
      modifies this`numCaches, this`released, caches, caches.Repr(), caches.order
      ensures Valid() && Abs() == Finalized(old(Abs()))
    {
      hide Hash.Valid, Hashed, Elts, Linked, ClosedAll;
      var r, tmp := FirstTwo();
      while r != null
        invariant caches.Valid() && Hashed(caches.order) && caches.Repr() <= old(caches.Repr())
        invariant r == At(caches.order, 0) && tmp == At(caches.order, 1)
        invariant forall j :: 0 <= j < |caches.order| ==> caches.order[j] in old(caches.order)
        invariant released + ClosedAll(Elts(caches.order)) == old(released + ClosedAll(Elts(caches.order)))
        decreases |caches.order|
      {
        r, tmp := RemoveFirst(r, tmp);
      }
      NothingLeft();
      numCaches := 0;
    }

    /** The start of the loop. */
    method FirstTwo() returns (r: Handle?, tmp: Handle?)
      requires caches.Valid()
      ensures r == At(caches.order, 0) && tmp == At(caches.order, 1) && caches.Valid()
        && caches.Repr() == old(caches.Repr())
    {
      hide Hash.Valid, Linked;
      caches.Heads();
      r := caches.head;
      if r != null { Nexts(caches.order); }
      tmp := if r == null then null else r.next;
    }

    /** One round of the loop, on the first element left. */
    method RemoveFirst(r: Handle, tmp: Handle?) returns (r1: Handle?, tmp1: Handle?)
      requires caches.Valid() && Hashed(caches.order) && r == At(caches.order, 0) && tmp == At(caches.order, 1)
      modifies this`released, caches, caches.Repr(), caches.order
      ensures caches.Valid() && Hashed(caches.order) && caches.Repr() <= old(caches.Repr())
      ensures |caches.order| < |old(caches.order)| && forall j :: 0 <= j < |caches.order| ==>
        caches.order[j] in old(caches.order)
      ensures released + ClosedAll(Elts(caches.order)) == old(released + ClosedAll(Elts(caches.order)))
      ensures r1 == At(caches.order, 0) && tmp1 == At(caches.order, 1)
    {
      hide Hash.Valid, Hashed, Elts, ClosedAll, Linked;
      ClosedFirst(caches.order, released);
      HashDel(r, 0);
      CloseAndFree(r);
      r1, tmp1 := Advance(tmp);
    }

    method CloseAndFree(r: Handle)
      requires caches.Valid() && Hashed(caches.order) && r !in caches.order
      modifies this`released, r
      ensures caches.Valid() && Hashed(caches.order) && caches.Repr() == old(caches.Repr())
      ensures released == old(released) + [Release(r.elt.ctx, false)]
    {
      hide Hash.Valid, Hashed;
      var _ := CloseContext(r.elt.ctx, 0);
      assert caches.Repr() == old(caches.Repr());
      Free(r);
    }

    /** The step of HASH_ITER: the element read ahead is still on the list, now as its first. */
    method Advance(tmp: Handle?) returns (r: Handle?, tmp1: Handle?)
      requires caches.Valid() && tmp == At(caches.order, 0)
      ensures r == At(caches.order, 0) && tmp1 == At(caches.order, 1)
    {
      hide Hash.Valid, Linked;
      caches.Heads();
      if tmp != null { Nexts(caches.order); }
      r := tmp;
      tmp1 := if tmp == null then null else tmp.next;
    }
  }

  lemma EltsLength(s: seq<Handle>)
    ensures |Elts(s)| == |s| && forall i :: 0 <= i < |s| ==> Elts(s)[i] == s[i].elt
  {
  }

  lemma Nexts(s: seq<Handle>)
    requires Linked(s)
    ensures forall j {:trigger s[j].next} :: 0 <= j < |s| ==> s[j].next == At(s, j + 1)
  {
  }

  lemma ClosedFirst(s: seq<Handle>, released: seq<Release>)
    requires s != []
    ensures var r := Without(s, 0);
            && At(s, 1) == At(r, 0) && |r| == |s| - 1
            && released + ClosedAll(Elts(s)) == (released + [Release(s[0].elt.ctx, false)]) + ClosedAll(Elts(r))
  {
    var r := Without(s, 0);
    assert ClosedAll(Elts(s)) == [Release(s[0].elt.ctx, false)] + ClosedAll(Elts(r));
  }

  lemma NothingLeft()
    ensures Elts([]) == [] && ClosedAll([]) == [] && Hashed([])
    ensures forall s: seq<Release> :: s + [] == s
  {
  }

  ghost function At(s: seq<Handle>, i: nat): Handle? { if i < |s| then s[i] else null }

  lemma CutNone(es: seq<Cache>)
    ensures Cut(es, |es|) == es
  {
  }

  lemma HashedEnd(s: seq<Handle>, x: Handle)
    requires Hashed(s) && x.hv == Jenkins.Hash(x.elt.id.bytes)
    ensures Hashed(s + [x]) && Elts(s + [x]) == Elts(s) + [x.elt]
  {
  }

  lemma ListNoDup(s: seq<Handle>)
    requires Linked(s)
    ensures NoDup(s)
  {
  }

  lemma RemovedGone(s: seq<Handle>, i: nat)
    requires NoDup(s) && i < |s|
    ensures s[i] !in Without(s, i) && |Without(s, i)| == |s| - 1
    ensures forall j :: 0 <= j < |Without(s, i)| ==> Without(s, i)[j] in s
  {
    var r := Without(s, i);
    assert forall t :: 0 <= t < |r| ==> r[t] == if t < i then s[t] else s[t + 1];
  }
}
