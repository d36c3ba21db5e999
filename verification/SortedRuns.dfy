/** Runs in sorted mode: elements enter only through the in-order operations. */
module SortedRuns {
  import opened Words
  import opened HashTable
  import opened AppList
  import opened UtHash
  import opened StableSort
  import opened MergeSort
  import opened Runs

  ghost predicate InOrderOnly(ops: seq<Op>) {
    forall i :: 0 <= i < |ops| ==> !ops[i].Add? && !ops[i].Replace?
  }

  /** The live elements in the order they arrived, whatever the list does. */
  ghost function Arrive(u: seq<Handle>, op: Op, failed: bool): seq<Handle> {
    match op
    case AddInOrder(x, _) => if failed then u else u + [x]
    case ReplaceInOrder(x, _) =>
      var r := Gone(u, FirstMatch(u, x.elt.id, x.hv));
      if failed then r else r + [x]
    case Delete(x) => Gone(u, x)
    case Clear => []
    case _ => u
  }

  /** Arrivals over a run of the state `m`; which additions fail depends on it. */
  ghost function Arrivals(u: seq<Handle>, m: Model, ops: seq<Op>, b: Build): seq<Handle> {
    if ops == [] then u
    else var r, op := ops[..|ops| - 1], ops[|ops| - 1];
         Arrive(Arrivals(u, m, r, b), op, Fails(Run(m, r, b), op, b))
  }

  ghost function Gone(u: seq<Handle>, h: Handle?): seq<Handle> { if h == null || h !in u then u else Removed(u, h) }

  lemma RemovedHead(s: seq<Handle>, x: Handle)
    requires x in s && s[0] == x
    ensures Removed(s, x) == s[1..]
  {
  }

  lemma RemovedTail(s: seq<Handle>, x: Handle)
    requires x in s && s[0] != x
    ensures x in s[1..] && Removed(s, x) == [s[0]] + Removed(s[1..], x)
  {
    hide IndexOf;
    IndexTail(s, x);
    var i := IndexOf(s[1..], x);
    assert s[..i + 1] == [s[0]] + s[1..][..i] && s[i + 2..] == s[1..][i + 1..];
  }

  lemma IndexTail(s: seq<Handle>, x: Handle)
    requires x in s && s[0] != x
    ensures x in s[1..] && IndexOf(s, x) == 1 + IndexOf(s[1..], x)
  {
  }

  /** Removing an element commutes with inserting another in order. */
  lemma {:induction false} RemoveIns(s: seq<Handle>, x: Handle, y: Handle, cmp: (Cache, Cache) -> int)
    requires TotalPreorder(cmp) && Ranked(s, cmp) && x in s && x != y
    ensures x in Ins(s, y, cmp) && Removed(Ins(s, y, cmp), x) == Ins(Removed(s, x), y, cmp)
  {
    hide Removed, TotalPreorder;
    var t := Ins(s, y, cmp);
    if Gt(s[0], y, cmp) {
      RemovedTail(t, x);
      assert t[1..] == s;
      if s[0] == x {
        RemovedHead(s, x);
        if |s| > 1 { BigTail(s, y, cmp); }
      } else {
        RemovedTail(s, x);
      }
    } else if s[0] == x {
      RemovedHead(s, x);
      RemovedHead(t, x);
    } else {
      assert x in s[1..] && t[1..] == Ins(s[1..], y, cmp);
      RemoveIns(s[1..], x, y, cmp);
      RemovedTail(s, x);
      RemovedTail(t, x);
      var r := Removed(s, x);
      assert r[0] == s[0] && r[1..] == Removed(s[1..], x);
    }
  }

  lemma BigTail(s: seq<Handle>, y: Handle, cmp: (Cache, Cache) -> int)
    requires TotalPreorder(cmp) && Ranked(s, cmp) && |s| > 1 && Gt(s[0], y, cmp)
    ensures Gt(s[1], y, cmp)
  {
    if !Gt(s[1], y, cmp) { LeTransitive(s[0], s[1], y, cmp); }
  }

  lemma {:induction false} RemoveInserted(s: seq<Handle>, x: Handle, cmp: (Cache, Cache) -> int)
    requires x !in s
    ensures x in Ins(s, x, cmp) && Removed(Ins(s, x, cmp), x) == s
  {
    var t := Ins(s, x, cmp);
    if s == [] || Gt(s[0], x, cmp) {
      RemovedHead(t, x);
    } else {
      RemoveInserted(s[1..], x, cmp);
      RemovedTail(t, x);
    }
  }

  /** Deleting from the sorted list is sorting what is left. */
  lemma {:induction false} RemoveSorted(u: seq<Handle>, x: Handle, cmp: (Cache, Cache) -> int)
    requires TotalPreorder(cmp) && NoDup(u) && x in u
    ensures x in SortOf(u, cmp) && Removed(SortOf(u, cmp), x) == SortOf(Removed(u, x), cmp)
  {
    var r, y := u[..|u| - 1], u[|u| - 1];
    SortedIsRanked(r, cmp);
    SameMembers(r, SortOf(r, cmp));
    MembersSorted(r, cmp, x);
    if x == y {
      RemoveInserted(SortOf(r, cmp), x, cmp);
      LastIndex(u);
      assert Removed(u, x) == r;
    } else {
      assert x in r;
      RemoveSorted(r, x, cmp);
      RemoveIns(SortOf(r, cmp), x, y, cmp);
      RemovedFront(u, x);
      var q := Removed(u, x);
      assert q[..|q| - 1] == Removed(r, x) && q[|q| - 1] == y;
    }
  }

  lemma MembersSorted(s: seq<Handle>, cmp: (Cache, Cache) -> int, x: Handle)
    requires TotalPreorder(cmp)
    ensures x in SortOf(s, cmp) <==> x in s
  {
    SortedIsRanked(s, cmp);
    assert x in s <==> x in multiset(s);
    assert x in SortOf(s, cmp) <==> x in multiset(SortOf(s, cmp));
  }

  lemma LastIndex(u: seq<Handle>)
    requires u != [] && NoDup(u)
    ensures u[|u| - 1] in u && IndexOf(u, u[|u| - 1]) == |u| - 1
  {
  }

  lemma RemovedFront(u: seq<Handle>, x: Handle)
    requires u != [] && NoDup(u) && x in u && x != u[|u| - 1]
    ensures x in u[..|u| - 1] && Removed(u, x) == Removed(u[..|u| - 1], x) + [u[|u| - 1]]
  {
    var r := u[..|u| - 1];
    assert u == r + [u[|u| - 1]];
    var i := IndexOf(u, x);
    assert r[i] == x && IndexOf(r, x) == i;
  }

  /** Sorting a ranked list changes nothing, so HASH_SRT keeps the mode. */
  lemma {:induction false} SortRanked(s: seq<Handle>, cmp: (Cache, Cache) -> int)
    requires TotalPreorder(cmp) && Ranked(s, cmp)
    ensures SortOf(s, cmp) == s
  {
    if s != [] {
      var r, x := s[..|s| - 1], s[|s| - 1];
      SortRanked(r, cmp);
      InsLast(r, x, cmp);
    }
  }

  lemma {:induction false} InsLast(s: seq<Handle>, x: Handle, cmp: (Cache, Cache) -> int)
    requires forall i :: 0 <= i < |s| ==> !Gt(s[i], x, cmp)
    ensures Ins(s, x, cmp) == s + [x]
  {
    if s != [] { InsLast(s[1..], x, cmp); }
  }

  /** The mode: the list is the stable sort of the arrivals. */
  ghost predicate SortedMode(m: Model, u: seq<Handle>, cmp: (Cache, Cache) -> int) {
    Sound(m) && NoDup(u) && UniqueKeys(u) && m.order == SortOf(u, cmp)
  }

  lemma AddKeepsMode(m: Model, u: seq<Handle>, x: Handle, cmp: (Cache, Cache) -> int)
    requires TotalPreorder(cmp) && SortedMode(m, u, cmp) && AbsentFrom(m.order, x)
    ensures SortedMode(InOrder(m, x, cmp), u + [x], cmp)
  {
    AddedSound(m, Place(m.order, x, cmp), x);
    InsIsInserted(m.order, x, cmp);
    assert (u + [x])[..|u + [x]| - 1] == u;
    SortedIsRanked(u, cmp);
    SameMembers(u, m.order);
    forall i | 0 <= i < |u| ensures u[i] != x && !(u[i].hv == x.hv && u[i].elt.id == x.elt.id) {
      MembersSorted(u, cmp, u[i]);
      var j :| 0 <= j < |m.order| && m.order[j] == u[i];
    }
  }

  lemma RemoveKeepsMode(m: Model, u: seq<Handle>, x: Handle, cmp: (Cache, Cache) -> int)
    requires TotalPreorder(cmp) && SortedMode(m, u, cmp) && x in m.order
    ensures SortedMode(RemovedFrom(m, x), Gone(u, x), cmp)
  {
    MembersSorted(u, cmp, x);
    RemovedSound(m, x);
    RemoveSorted(u, x, cmp);
    WithoutNoDup(u, IndexOf(u, x));
    StillUnique(u, IndexOf(u, x));
    SortedIsRanked(u, cmp);
    if |m.order| == 1 {
      assert |u| == 1 && Removed(u, x) == [];
    }
  }

  /** The list and the arrivals agree on every lookup. */
  lemma SameMatch(m: Model, u: seq<Handle>, key: Key, hv: Word, cmp: (Cache, Cache) -> int)
    requires TotalPreorder(cmp) && SortedMode(m, u, cmp)
    ensures FirstMatch(m.order, key, hv) == FirstMatch(u, key, hv)
  {
    FirstMatchFinds(m.order, key, hv);
    FirstMatchFinds(u, key, hv);
    var g, h := FirstMatch(m.order, key, hv), FirstMatch(u, key, hv);
    if g != null { MembersSorted(u, cmp, g); }
    if h != null { MembersSorted(u, cmp, h); }
    if g != null && h != null {
      var a :| 0 <= a < |u| && u[a] == g;
      var b :| 0 <= b < |u| && u[b] == h;
    }
  }

  lemma StepKeepsMode(m: Model, u: seq<Handle>, op: Op, b: Build)
    requires TotalPreorder(b.cmp) && SortedMode(m, u, b.cmp) && Allowed(m, op) && !op.Add? && !op.Replace?
    ensures SortedMode(Step(m, op, b), Arrive(u, op, Fails(m, op, b)), b.cmp)
  {
    hide Sound, SortOf, RemovedFrom, AddedAt, Place, FirstMatch, TotalPreorder, SortedMode, AbsentFrom, Removed,
        OutOfMemory;
    if op.ReplaceInOrder? { VacatedKeepsMode(m, u, op.x, b.cmp); }
    if !Fails(m, op, b) {
      match op {
        case AddInOrder(x, _) => AddKeepsMode(m, u, x, b.cmp);
        case ReplaceInOrder(x, _) => AddKeepsMode(Vacated(m, op), Gone(u, Match(m, x)), x, b.cmp);
        case Delete(x) => RemoveKeepsMode(m, u, x, b.cmp);
        case Sort => SortKeepsMode(m, u, b.cmp);
        case Clear => ClearKeepsMode(b.cmp);
      }
    }
  }

  /** Taking out what a replacement displaces keeps the mode. */
  lemma VacatedKeepsMode(m: Model, u: seq<Handle>, x: Handle, cmp: (Cache, Cache) -> int)
    requires TotalPreorder(cmp) && SortedMode(m, u, cmp)
    ensures FirstMatch(u, x.elt.id, x.hv) == Match(m, x)
    ensures var d := Without1(m, Match(m, x)); SortedMode(d, Gone(u, Match(m, x)), cmp) && AbsentFrom(d.order, x)
  {
    hide Sound, RemovedFrom, FirstMatch, TotalPreorder, SortedMode, AbsentFrom, Removed;
    SameMatch(m, u, x.elt.id, x.hv, cmp);
    ModeSound(m, u, cmp);
    DisplacedSound(m, x);
    FirstMatchFinds(m.order, x.elt.id, x.hv);
    var h := Match(m, x);
    if h != null { RemoveKeepsMode(m, u, h, cmp); }
  }

  lemma ModeSound(m: Model, u: seq<Handle>, cmp: (Cache, Cache) -> int)
    requires SortedMode(m, u, cmp)
    ensures Sound(m)
  {
  }

  lemma SortKeepsMode(m: Model, u: seq<Handle>, cmp: (Cache, Cache) -> int)
    requires TotalPreorder(cmp) && SortedMode(m, u, cmp)
    ensures SortedMode(Model(SortOf(m.order, cmp), m.shape), u, cmp)
  {
    SortedIsRanked(u, cmp);
    SortRanked(m.order, cmp);
  }

  lemma ClearKeepsMode(cmp: (Cache, Cache) -> int)
    ensures SortedMode(EmptyModel(), [], cmp)
  {
    EmptySound();
  }

  /** In sorted mode every run keeps the list equal to the stable sort of the live elements in arrival order. */
  lemma {:induction false} RunKeepsMode(m: Model, u: seq<Handle>, ops: seq<Op>, b: Build)
    requires TotalPreorder(b.cmp) && SortedMode(m, u, b.cmp) && AllAllowed(m, ops, b) && InOrderOnly(ops)
    ensures SortedMode(Run(m, ops, b), Arrivals(u, m, ops, b), b.cmp)
  {
    hide SortedMode, TotalPreorder, Step, Arrive, Fails, Allowed;
    if ops != [] {
      var r := ops[..|ops| - 1];
      RunKeepsMode(m, u, r, b);
      StepKeepsMode(Run(m, r, b), Arrivals(u, m, r, b), ops[|ops| - 1], b);
    }
  }

  /** HASH_SRT starts the mode from any list, with the list itself as the arrivals. */
  lemma SortStartsMode(m: Model, b: Build)
    requires TotalPreorder(b.cmp) && Sound(m)
    ensures SortedMode(Step(m, Sort, b), m.order, b.cmp)
  {
    SortSound(m, b.cmp);
  }

  /** So after every such run the list is ranked, and elements of one rank stand in arrival order. */
  lemma SortedModeMeans(m: Model, u: seq<Handle>, cmp: (Cache, Cache) -> int)
    requires TotalPreorder(cmp) && SortedMode(m, u, cmp)
    ensures Ascends(m.order, cmp)
    ensures multiset(m.order) == multiset(u)
    ensures forall p :: OfRank(m.order, p, cmp) == OfRank(u, p, cmp)
  {
    SortedIsRanked(u, cmp);
    SortAscends(u, cmp);
    forall p | true ensures OfRank(m.order, p, cmp) == OfRank(u, p, cmp) {
      SortedStable(u, p, cmp);
    }
  }
}
