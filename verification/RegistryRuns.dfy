/** Every run of registry requests gives each back end context back exactly once, unless an id was taken. */
module RegistryRuns {
  import opened HashTable
  import opened Registry
  import opened Wrappers
  import Jenkins

  ghost function After(conf: Conf, r: Reg, qs: seq<Request>): Reg {
    if qs == [] then r else Handled(conf, After(conf, r, qs[..|qs| - 1]), qs[|qs| - 1]).0
  }

  const EMPTY := Reg([], 0, [], [])

  /** A request that makes a context, for an id that some cache has already. */
  ghost predicate Collides(conf: Conf, r: Reg, q: Request) {
    MakesContext(conf, q) && Known(r.entries, q.id)
  }

  ghost predicate AllFresh(conf: Conf, r: Reg, qs: seq<Request>) {
    qs == [] ||
    (AllFresh(conf, r, qs[..|qs| - 1]) && !Collides(conf, After(conf, r, qs[..|qs| - 1]), qs[|qs| - 1]))
  }

  // ---------- contexts are conserved ----------

  ghost function UpTo(n: nat): multiset<nat> { if n == 0 then multiset{} else UpTo(n - 1) + multiset{n - 1} }

  lemma {:induction false} UpToIs(n: nat, c: nat)
    ensures UpTo(n)[c] == if c < n then 1 else 0
  {
    if n > 0 { UpToIs(n - 1, c); }
  }

  ghost function Held(es: seq<Cache>): multiset<nat> {
    if es == [] then multiset{} else Held(es[..|es| - 1]) + multiset{es[|es| - 1].ctx}
  }

  ghost function Back(rs: seq<Release>): multiset<nat> {
    if rs == [] then multiset{} else Back(rs[..|rs| - 1]) + multiset{rs[|rs| - 1].ctx}
  }

  /** Every context handed out is held by one cache, was given back once, or was lost. */
  ghost predicate Accounted(r: Reg) {
    Held(r.entries) + Back(r.released) + multiset(r.leaked) == UpTo(r.produced)
  }

  ghost predicate DistinctIds(es: seq<Cache>) { forall i, j :: 0 <= i < j < |es| ==> es[i].id != es[j].id }

  lemma HeldEnd(es: seq<Cache>, e: Cache)
    ensures Held(es + [e]) == Held(es) + multiset{e.ctx}
  {
    assert (es + [e])[..|es + [e]| - 1] == es;
  }

  lemma BackEnd(rs: seq<Release>, e: Release)
    ensures Back(rs + [e]) == Back(rs) + multiset{e.ctx}
  {
    assert (rs + [e])[..|rs + [e]| - 1] == rs;
  }

  lemma {:induction false} HeldCut(es: seq<Cache>, i: nat)
    requires i < |es|
    ensures Held(es) == Held(Cut(es, i)) + multiset{es[i].ctx}
  {
    hide Held, Cut;
    var r, e := es[..|es| - 1], es[|es| - 1];
    assert es == r + [e];
    HeldEnd(r, e);
    CutEnd(es, i);
    if i < |r| {
      HeldCut(r, i);
      HeldEnd(Cut(r, i), e);
    }
  }

  lemma CutEnd(es: seq<Cache>, i: nat)
    requires i < |es|
    ensures var m := |es| - 1; Cut(es, i) == if i == m then es[..m] else Cut(es[..m], i) + [es[m]]
  {
  }

  lemma {:induction false} UnknownEverywhere(es: seq<Cache>, id: Key)
    ensures !Known(es, id) <==> forall i :: 0 <= i < |es| ==> es[i].id != id
  {
    if es != [] { UnknownEverywhere(es[1..], id); }
  }

  lemma HandledKeeps(conf: Conf, r: Reg, q: Request)
    requires Accounted(r) && DistinctIds(r.entries)
    ensures var s := Handled(conf, r, q).0;
            Accounted(s) && DistinctIds(s.entries) && (|s.leaked| > |r.leaked| <==> Collides(conf, r, q))
                && |s.leaked| >= |r.leaked|
  {
    hide Accounted, Admitted, Dropped, DistinctIds;
    if q.Create? || q.Open? {
      BackendKnown(conf.backends, q.typ);
      AdmittedKeeps(r, q.id, BackendOf(conf.backends, q.typ));
    } else if !q.List? {
      DroppedKeeps(r, q.id, q.Destroy?);
    }
  }

  lemma AdmittedKeeps(r: Reg, id: Key, fn: nat)
    requires Accounted(r) && DistinctIds(r.entries)
    ensures var s := Admitted(r, id, fn);
            Accounted(s) && DistinctIds(s.entries) && |s.leaked| == |r.leaked| + if Known(r.entries, id) then 1 else 0
  {
    hide Held, Back;
    UnknownEverywhere(r.entries, id);
    HeldEnd(r.entries, Cache(id, fn, r.produced));
  }

  lemma DroppedKeeps(r: Reg, id: Key, destroyed: bool)
    requires Accounted(r) && DistinctIds(r.entries)
    ensures var s := Dropped(r, id, destroyed); Accounted(s) && DistinctIds(s.entries) && s.leaked == r.leaked
  {
    hide Held, Back;
    var i := PlaceOf(r.entries, id);
    if i < |r.entries| {
      HeldCut(r.entries, i);
      BackEnd(r.released, Release(r.entries[i].ctx, destroyed));
      var c := Cut(r.entries, i);
      assert forall t :: 0 <= t < |c| ==> c[t] == r.entries[if t < i then t else t + 1];
    }
  }

  lemma {:induction false} RunAccounts(conf: Conf, qs: seq<Request>)
    ensures var r := After(conf, EMPTY, qs);
            Accounted(r) && DistinctIds(r.entries) && (r.leaked == [] <==> AllFresh(conf, EMPTY, qs))
  {
    hide Accounted, DistinctIds, Handled, Collides;
    if qs == [] {
      StartAccounts();
    } else {
      RunAccounts(conf, qs[..|qs| - 1]);
      HandledKeeps(conf, After(conf, EMPTY, qs[..|qs| - 1]), qs[|qs| - 1]);
    }
  }

  lemma StartAccounts()
    ensures Accounted(EMPTY) && DistinctIds(EMPTY.entries)
  {
  }

  lemma {:induction false} AllBack(rs: seq<Release>, es: seq<Cache>)
    ensures Back(rs + ClosedAll(es)) == Back(rs) + Held(es)
  {
    hide Held, Back, ClosedAll;
    ClosedEnd(rs, es);
    if es != [] {
      var r, e := es[..|es| - 1], es[|es| - 1];
      assert es == r + [e];
      HeldEnd(r, e);
      AllBack(rs, r);
      BackEnd(rs + ClosedAll(r), Release(e.ctx, false));
    }
  }

  lemma ClosedEnd(rs: seq<Release>, es: seq<Cache>)
    ensures es == [] ==> rs + ClosedAll(es) == rs && Held(es) == multiset{}
    ensures es != [] ==> rs + ClosedAll(es) == (rs + ClosedAll(es[..|es| - 1])) + [Release(es[|es| - 1].ctx, false)]
  {
    if es == [] {
      assert ClosedAll(es) == [];
    } else {
      var m := |es| - 1;
      ClosedStep(es, m);
    }
  }

  lemma ClosedStep(es: seq<Cache>, m: nat)
    requires |es| == m + 1
    ensures ClosedAll(es) == ClosedAll(es[..m]) + [Release(es[m].ctx, false)]
  {
    var a, b := ClosedAll(es), ClosedAll(es[..m]);
    forall i | 0 <= i < m ensures a[i] == b[i] {
      assert es[..m][i] == es[i];
    }
  }

  /** After any requests and finalize, every context handed out has been closed or destroyed exactly once, precisely
      when
      no context was made for an id already in use; the contexts never given back are those made for such ids. */
  lemma ReleasedOnce(conf: Conf, qs: seq<Request>)
    ensures var r := Finalized(After(conf, EMPTY, qs));
            && Back(r.released) + multiset(r.leaked) == UpTo(r.produced)
            && ((forall c: nat :: c < r.produced ==> Back(r.released)[c] == 1) <==> AllFresh(conf, EMPTY, qs))
            && (forall c: nat :: Back(r.released)[c] <= 1 && (Back(r.released)[c] == 1 ==> c < r.produced))
  {
    hide Held, Back, UpTo, After, AllFresh, DistinctIds;
    var s := After(conf, EMPTY, qs);
    var r := Finalized(s);
    RunAccounts(conf, qs);
    AllBack(s.released, s.entries);
    forall c: nat | true
      ensures Back(r.released)[c] + multiset(r.leaked)[c] == if c < r.produced then 1 else 0
    {
      UpToIs(r.produced, c);
    }
    if r.leaked != [] {
      assert multiset(r.leaked)[r.leaked[0]] >= 1;
    }
  }

  /** One id chosen twice is enough to lose a context. */
  lemma CollisionLeaks(id: Key)
    ensures var q := Create("", "dummy", id, 0);
            Finalized(After(Conf(None, ["dummy"]), EMPTY, [q, q])) == Reg([], 2, [Release(0, false)], [1])
  {
    var q, conf := Create("", "dummy", id, 0), Conf(None, ["dummy"]);
    assert [q, q][..1] == [q] && [q][..0] == [];
    assert After(conf, EMPTY, [q]) == Reg([Cache(id, 0, 0)], 1, [], []);
    assert After(conf, EMPTY, [q, q]) == Reg([Cache(id, 0, 0)], 2, [], [1]);
  }

  // ---------- what each request answers and does ----------

  /** A back end of this name is registered. */
  lemma {:induction false} BackendKnown(names: seq<string>, name: string)
    ensures BackendOf(names, name) < |names| <==> name in names
  {
    if names != [] { BackendKnown(names[1..], name); }
  }

  /** The answers, in the order of the checks: a token that differs, a type no back end has, an id no cache has, a
      code other than zero from the back end, and success. A request that fails before its back end is called changes
      nothing. */
  lemma Answers(conf: Conf, r: Reg, q: Request)
    ensures var (s, a) := Handled(conf, r, q);
            var wrong := conf.token.Some? && conf.token.value != q.token;
            var news, ends := q.Create? || q.Open?, q.Close? || q.Destroy?;
            && (a == InvalidToken <==> wrong)
            && (a == InvalidBackend <==> !wrong && news && q.typ !in conf.backends)
            && (a == InvalidCache <==> !wrong && ends && forall i :: 0 <= i < |r.entries| ==> r.entries[i].id != q.id)
            && (a.BackendError? <==>
                !wrong && (news || q.Close?) && q.code != 0
                && a != InvalidBackend && a != InvalidCache)
            && (a.BackendError? ==> a == BackendError(q.code))
            && (a == InvalidToken || a == InvalidBackend || a == InvalidCache || q.List? ==> s == r)
            && (news && q.code != 0 ==> s == r)
  {
    hide PlaceOf, BackendOf, Cut;
    if q.Create? || q.Open? { BackendKnown(conf.backends, q.typ); }
    if q.Close? || q.Destroy? { UnknownEverywhere(r.entries, q.id); }
  }

  /** A successful create or open under a fresh id records one new cache: that id, the first back end of the type
      asked for, and the context just made. */
  lemma RecordsNew(conf: Conf, r: Reg, q: Request)
    requires (q.Create? || q.Open?) && Handled(conf, r, q).1 == Success
    requires forall i :: 0 <= i < |r.entries| ==> r.entries[i].id != q.id
    ensures var s := Handled(conf, r, q).0;
            && |s.entries| == |r.entries| + 1 && s.entries[..|r.entries|] == r.entries && s.produced == r.produced + 1
            && s.released == r.released && s.leaked == r.leaked
            && var c := s.entries[|r.entries|];
               && c.id == q.id && c.ctx == r.produced && c.fn < |conf.backends| && conf.backends[c.fn] == q.typ
               && forall j :: 0 <= j < c.fn ==> conf.backends[j] != q.typ
  {
    hide PlaceOf, BackendOf;
    UnknownEverywhere(r.entries, q.id);
  }

  /** Closing or destroying a known id gives that cache's own context back, in the way asked for, and removes that
      cache. */
  lemma GivesBack(conf: Conf, r: Reg, q: Request, i: nat)
    requires (q.Close? || q.Destroy?) && (conf.token.Some? ==> q.token == conf.token.value)
    requires DistinctIds(r.entries) && i < |r.entries| && r.entries[i].id == q.id
    ensures var s := Handled(conf, r, q).0;
            && s.entries == r.entries[..i] + r.entries[i + 1..] && s.produced == r.produced && s.leaked == r.leaked
            && s.released == r.released + [Release(r.entries[i].ctx, q.Destroy?)]
  {
    hide PlaceOf;
    assert PlaceOf(r.entries, q.id) == i;
  }

  /** Some request of the run made a cache like `c`: its id, and a back end of the type asked for. */
  ghost predicate MadeBy(conf: Conf, qs: seq<Request>, c: Cache) {
    exists k {:trigger qs[k]} :: 0 <= k < |qs| && MakesContext(conf, qs[k]) && qs[k].id == c.id
      && c.fn < |conf.backends| && conf.backends[c.fn] == qs[k].typ
  }

  lemma MadeByMore(conf: Conf, qs: seq<Request>, c: Cache)
    requires qs != [] && MadeBy(conf, qs[..|qs| - 1], c)
    ensures MadeBy(conf, qs, c)
  {
    var r := qs[..|qs| - 1];
    var k :| 0 <= k < |r| && MakesContext(conf, r[k]) && r[k].id == c.id
      && c.fn < |conf.backends| && conf.backends[c.fn] == r[k].typ;
    assert qs[k] == r[k];
  }

  lemma HandledOrigin(conf: Conf, r: Reg, q: Request, c: Cache)
    requires c in Handled(conf, r, q).0.entries && c !in r.entries
    ensures MadeBy(conf, [q], c)
  {
    hide PlaceOf, BackendOf;
    assert [q][0] == q;
    BackendKnownAt(conf, q);
    if q.Create? || q.Open? { BackendKnown(conf.backends, q.typ); }
  }

  lemma BackendKnownAt(conf: Conf, q: Request)
    ensures (q.Create? || q.Open?) && BackendOf(conf.backends, q.typ) < |conf.backends| ==>
              conf.backends[BackendOf(conf.backends, q.typ)] == q.typ
  {
  }

  /** In every run each cache was made by a request for its id, and its back end is the one of the type that request
      named. */
  lemma {:induction false} RunOrigins(conf: Conf, qs: seq<Request>, c: Cache)
    requires c in After(conf, EMPTY, qs).entries
    ensures MadeBy(conf, qs, c)
  {
    hide Handled, MadeBy;
    if qs != [] {
      var p, q := qs[..|qs| - 1], qs[|qs| - 1];
      var r := After(conf, EMPTY, p);
      if c in r.entries {
        RunOrigins(conf, p, c);
        MadeByMore(conf, qs, c);
      } else {
        HandledOrigin(conf, r, q, c);
        MadeByLast(conf, qs, c);
      }
    }
  }

  lemma MadeByLast(conf: Conf, qs: seq<Request>, c: Cache)
    requires qs != [] && MadeBy(conf, [qs[|qs| - 1]], c)
    ensures MadeBy(conf, qs, c)
  {
    hide MakesContext;
    assert qs[|qs| - 1] == [qs[|qs| - 1]][0];
  }

  // ---------- which ids are known ----------

  /** A create or open that gets as far as a new context. */
  ghost predicate MakesContext(conf: Conf, q: Request) {
    && (q.Create? || q.Open?) && (conf.token.Some? ==> conf.token.value == q.token)
    && q.typ in conf.backends && q.code == 0
  }

  /** By the requests alone: an id was created or opened and neither closed nor destroyed since. */
  ghost predicate Live(conf: Conf, qs: seq<Request>, id: Key) {
    qs != [] &&
    var q, r := qs[|qs| - 1], qs[..|qs| - 1];
    if MakesContext(conf, q) && q.id == id then true
    else if (q.Close? || q.Destroy?) && TokenOk(conf, q.token) && q.id == id then false
    else Live(conf, r, id)
  }

  lemma CutUnknown(es: seq<Cache>, other: Key, id: Key)
    requires DistinctIds(es)
    ensures Known(Cut(es, PlaceOf(es, other)), id) <==> Known(es, id) && id != other
  {
    hide PlaceOf, Known, Cut;
    var i := PlaceOf(es, other);
    UnknownEverywhere(es, id);
    UnknownEverywhere(es, other);
    UnknownEverywhere(Cut(es, i), id);
    CutHas(es, i, id);
  }

  lemma CutHas(es: seq<Cache>, i: nat, id: Key)
    requires DistinctIds(es)
    ensures (exists j :: 0 <= j < |Cut(es, i)| && Cut(es, i)[j].id == id)
       <==> exists j :: 0 <= j < |es| && j != i && es[j].id == id
  {
    var c := Cut(es, i);
    forall t | 0 <= t < |c| ensures c[t] == es[if i < |es| && t >= i then t + 1 else t] {}
    if j: nat :| j < |es| && j != i && es[j].id == id {
      assert c[if i < |es| && j > i then j - 1 else j] == es[j];
    }
  }

  lemma AppendKnown(es: seq<Cache>, e: Cache, id: Key)
    ensures Known(es + [e], id) <==> Known(es, id) || e.id == id
  {
    UnknownEverywhere(es, id);
    UnknownEverywhere(es + [e], id);
    assert forall t :: 0 <= t < |es| ==> (es + [e])[t] == es[t];
    assert (es + [e])[|es|] == e;
  }

  lemma HandledKnown(conf: Conf, r: Reg, q: Request, id: Key)
    requires DistinctIds(r.entries)
    ensures Known(Handled(conf, r, q).0.entries, id) <==>
              if MakesContext(conf, q) && q.id == id then true
              else if (q.Close? || q.Destroy?) && TokenOk(conf, q.token) && q.id == id then false
              else Known(r.entries, id)
  {
    hide PlaceOf, Cut, DistinctIds, BackendOf;
    if q.Create? || q.Open? {
      BackendKnown(conf.backends, q.typ);
      AppendKnown(r.entries, Cache(q.id, BackendOf(conf.backends, q.typ), r.produced), id);
    } else if !q.List? {
      CutUnknown(r.entries, q.id, id);
    }
  }

  /** After any run the registry answers for exactly the ids that are live, whatever else was requested in between. */
  lemma {:induction false} KnownIffLive(conf: Conf, qs: seq<Request>, id: Key)
    ensures Known(After(conf, EMPTY, qs).entries, id) <==> Live(conf, qs, id)
  {
    hide Handled, Known, DistinctIds, MakesContext, TokenOk, Accounted;
    if qs == [] {
      NoneKnown(id);
    } else {
      var r := qs[..|qs| - 1];
      KnownIffLive(conf, r, id);
      RunAccounts(conf, r);
      HandledKnown(conf, After(conf, EMPTY, r), qs[|qs| - 1], id);
    }
  }

  lemma NoneKnown(id: Key)
    ensures !Known([], id)
  {
  }

  // ---------- the provider and these values ----------

  /** The caches listed have distinct ids, one table item each, and the list is as long as the counter says. */
  lemma CountersAgree(p: Provider)
    requires p.Valid()
    ensures p.numCaches == |p.Abs().entries| == |p.caches.order| && DistinctIds(p.Abs().entries)
    ensures p.caches.tbl != null ==> p.caches.tbl.numItems == p.numCaches
    ensures p.caches.tbl == null <==> p.numCaches == 0
  {
    hide HashTable.Table.Valid;
    forall i, j | 0 <= i < j < |p.caches.order|
      ensures p.caches.order[i].elt.id != p.caches.order[j].elt.id
    {
      assert p.caches.order[i].hv == Jenkins.Hash(p.caches.order[i].elt.id.bytes);
      assert p.caches.order[j].hv == Jenkins.Hash(p.caches.order[j].elt.id.bytes);
    }
  }
}
