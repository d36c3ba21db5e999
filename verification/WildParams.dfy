/** Running one test with every combination of its wildcard parameters. */
module WildParams {
  import opened Wrappers

  /** A name and the address of its characters; equal names may lie at different addresses. */
  datatype Name = Name(text: string, addr: nat)

  /** A parameter a test declares; its list of values may be missing. */
  datatype Enum = Enum(name: Name, values: Option<seq<string>>)

  /** An entry of a parameter array, which ends with an entry without a name. */
  datatype Param = Param(name: Name, value: Option<string>) | End

  datatype Outcome = Done | NullDereference | DividesByZero

  // ---------- the combinations ----------

  ghost function Lists(enums: seq<Enum>, names: seq<Name>): seq<seq<string>> {
    seq(|names|, i requires 0 <= i < |names| => ValuesOf(enums, names[i]))
  }

  /** The first declaration whose name lies at this address, or one past the end. */
  function Declared(enums: seq<Enum>, name: Name): (i: nat)
    ensures i <= |enums| && (i < |enums| ==> enums[i].name.addr == name.addr)
    ensures forall j :: 0 <= j < i ==> enums[j].name.addr != name.addr
  {
    if enums == [] || enums[0].name.addr == name.addr then 0 else 1 + Declared(enums[1..], name)
  }

  function ValuesOf(enums: seq<Enum>, name: Name): seq<string> {
    var i := Declared(enums, name);
    if i < |enums| && enums[i].values.Some? then enums[i].values.value else []
  }

  /** The parameter arrays of the runs, in order, when `prefix` is fixed and the parameters `rest` range over their
      lists. */
  ghost function Sweep(enums: seq<Enum>, prefix: seq<Param>, rest: seq<Name>): seq<seq<Param>>
    decreases |rest|, 1, 0
  {
    if rest == [] then [prefix] else SweepFrom(enums, prefix, rest, ValuesOf(enums, rest[0]))
  }

  ghost function SweepFrom(enums: seq<Enum>, prefix: seq<Param>, rest: seq<Name>, vs: seq<string>): seq<seq<Param>>
    requires rest != []
    decreases |rest|, 0, |vs|
  {
    if vs == [] then []
    else Sweep(enums, prefix + [Param(rest[0], Some(vs[0]))], rest[1..]) + SweepFrom(enums, prefix, rest, vs[1..])
  }

  /** How many combinations there are. */
  ghost function Product(ls: seq<seq<string>>): nat { if ls == [] then 1 else |ls[0]| * Product(ls[1..]) }

  /** A choice of one place in each list. */
  ghost predicate Choice(ls: seq<seq<string>>, c: seq<nat>) {
    |c| == |ls| && forall i :: 0 <= i < |c| ==> c[i] < |ls[i]|
  }

  /** The place of a choice in lexicographic order. */
  ghost function Rank(ls: seq<seq<string>>, c: seq<nat>): nat
    requires |c| == |ls|
    decreases |ls|
  {
    if ls == [] then 0 else c[0] * Product(ls[1..]) + Rank(ls[1..], c[1..])
  }

  ghost predicate Earlier(c: seq<nat>, d: seq<nat>)
    requires |c| == |d|
  {
    c != [] && (c[0] < d[0] || (c[0] == d[0] && Earlier(c[1..], d[1..])))
  }

  /** The entries a choice makes. */
  ghost function Chosen(enums: seq<Enum>, names: seq<Name>, c: seq<nat>): seq<Param>
    requires Choice(Lists(enums, names), c)
  {
    seq(|names|, i requires 0 <= i < |names| => Param(names[i], Some(Lists(enums, names)[i][c[i]])))
  }

  lemma ListsTail(enums: seq<Enum>, names: seq<Name>)
    requires names != []
    ensures Lists(enums, names)[1..] == Lists(enums, names[1..]) && Lists(enums, names)[0] == ValuesOf(enums, names[0])
  {
  }

  lemma {:induction false} SweepLength(enums: seq<Enum>, prefix: seq<Param>, rest: seq<Name>)
    ensures |Sweep(enums, prefix, rest)| == Product(Lists(enums, rest))
    decreases |rest|, 1, 0
  {
    if rest != [] {
      ListsTail(enums, rest);
      SweepFromLength(enums, prefix, rest, ValuesOf(enums, rest[0]));
    }
  }

  lemma {:induction false} SweepFromLength(enums: seq<Enum>, prefix: seq<Param>, rest: seq<Name>, vs: seq<string>)
    requires rest != []
    ensures |SweepFrom(enums, prefix, rest, vs)| == |vs| * Product(Lists(enums, rest[1..]))
    decreases |rest|, 0, |vs|
  {
    if vs != [] {
      SweepLength(enums, prefix + [Param(rest[0], Some(vs[0]))], rest[1..]);
      SweepFromLength(enums, prefix, rest, vs[1..]);
      OneMore(|vs|, Product(Lists(enums, rest[1..])));
    }
  }

  lemma OneMore(k: int, p: int)
    ensures k * p == p + (k - 1) * p
  {
  }

  /** The run with the rank of a choice has the entries of that choice after the fixed prefix. */
  lemma {:induction false} SweepAt(enums: seq<Enum>, prefix: seq<Param>, rest: seq<Name>, c: seq<nat>)
    requires Choice(Lists(enums, rest), c)
    ensures var r := Rank(Lists(enums, rest), c);
            r < |Sweep(enums, prefix, rest)| && Sweep(enums, prefix, rest)[r] == prefix + Chosen(enums, rest, c)
    decreases |rest|, 1, 0
  {
    if rest != [] {
      ListsTail(enums, rest);
      SweepFromAt(enums, prefix, rest, ValuesOf(enums, rest[0]), c[0], c[1..]);
      var p, q := Param(rest[0], Some(ValuesOf(enums, rest[0])[c[0]])), Chosen(enums, rest[1..], c[1..]);
      assert Chosen(enums, rest, c) == [p] + q;
      assert prefix + [p] + q == prefix + ([p] + q);
    }
  }

  lemma {:induction false} SweepFromAt(enums: seq<Enum>, prefix: seq<Param>, rest: seq<Name>, vs: seq<string>,
      k: nat, d: seq<nat>)
    requires rest != [] && k < |vs| && Choice(Lists(enums, rest[1..]), d)
    ensures var r := k * Product(Lists(enums, rest[1..])) + Rank(Lists(enums, rest[1..]), d);
            && r < |SweepFrom(enums, prefix, rest, vs)|
            && SweepFrom(enums, prefix, rest, vs)[r] == prefix + [Param(rest[0], Some(vs[k]))] + Chosen(enums,
                rest[1..], d)
    decreases |rest|, 0, |vs|
  {
    hide Lists, Product, Rank, Chosen, Choice;
    var ls := Lists(enums, rest[1..]);
    var first := Sweep(enums, prefix + [Param(rest[0], Some(vs[0]))], rest[1..]);
    SweepLength(enums, prefix + [Param(rest[0], Some(vs[0]))], rest[1..]);
    if k == 0 {
      SweepAt(enums, prefix + [Param(rest[0], Some(vs[0]))], rest[1..], d);
    } else {
      SweepFromAt(enums, prefix, rest, vs[1..], k - 1, d);
      OneMore(k, Product(ls));
    }
  }

  /** Earlier choices have smaller ranks. */
  lemma {:induction false} RankOrders(ls: seq<seq<string>>, c: seq<nat>, d: seq<nat>)
    requires Choice(ls, c) && Choice(ls, d) && Earlier(c, d)
    ensures Rank(ls, c) < Rank(ls, d)
    decreases |ls|
  {
    hide Product;
    var p := Product(ls[1..]);
    if c[0] < d[0] {
      RankBounded(ls[1..], c[1..]);
      Steps(c[0], d[0], p);
    } else {
      RankOrders(ls[1..], c[1..], d[1..]);
    }
  }

  lemma Steps(a: nat, b: nat, p: nat)
    requires a < b
    ensures a * p + p <= b * p
  {
    Spread(a, b - a - 1, p);
  }

  lemma Spread(a: nat, d: nat, p: nat)
    ensures (a + 1 + d) * p == a * p + p + d * p && d * p >= 0
  {
  }

  lemma {:induction false} RankBounded(ls: seq<seq<string>>, c: seq<nat>)
    requires Choice(ls, c)
    ensures Rank(ls, c) < Product(ls)
    decreases |ls|
  {
    if ls != [] {
      RankBounded(ls[1..], c[1..]);
      Steps(c[0], |ls[0]|, Product(ls[1..]));
    }
  }

  /** Every rank belongs to a choice. */
  lemma {:induction false} Unrank(ls: seq<seq<string>>, r: nat) returns (c: seq<nat>)
    requires r < Product(ls)
    ensures Choice(ls, c) && Rank(ls, c) == r
    decreases |ls|
  {
    if ls == [] {
      c := [];
    } else {
      var p := Product(ls[1..]);
      var q := Quotient(r, p, |ls[0]|);
      var d := Unrank(ls[1..], r - q * p);
      c := [q] + d;
      assert c[1..] == d;
    }
  }

  lemma {:induction false} Quotient(r: nat, p: nat, n: nat) returns (q: nat)
    requires r < n * p
    ensures q < n && 0 <= r - q * p < p
    decreases n
  {
    OneMore(n, p);
    if r < (n - 1) * p {
      q := Quotient(r, p, n - 1);
    } else {
      q := n - 1;
    }
  }

  ghost predicate HasRank(ls: seq<seq<string>>, r: nat) { exists c :: Choice(ls, c) && Rank(ls, c) == r }

  /** The runs are the Cartesian product of the lists, each combination once, in lexicographic order. */
  lemma SweepIsProduct(enums: seq<Enum>, prefix: seq<Param>, names: seq<Name>)
    ensures var ls, runs := Lists(enums, names), Sweep(enums, prefix, names);
            && |runs| == Product(ls)
            && (forall c {:trigger Rank(ls, c)} :: Choice(ls, c) ==>
                  Rank(ls, c) < |runs| && runs[Rank(ls, c)] == prefix + Chosen(enums, names, c))
            && (forall r :: 0 <= r < |runs| ==> HasRank(ls, r))
            && (forall c, d :: Choice(ls, c) && Choice(ls, d) && Earlier(c, d) ==> Rank(ls, c) < Rank(ls, d))
  {
    hide Lists, Rank, Product, Sweep, Earlier;
    var ls, runs := Lists(enums, names), Sweep(enums, prefix, names);
    SweepLength(enums, prefix, names);
    forall c | Choice(ls, c)
      ensures Rank(ls, c) < |runs| && runs[Rank(ls, c)] == prefix + Chosen(enums, names, c)
    {
      SweepAt(enums, prefix, names, c);
    }
    forall r | 0 <= r < |runs|
      ensures HasRank(ls, r)
    {
      var c := Unrank(ls, r);
    }
    forall c, d | Choice(ls, c) && Choice(ls, d) && Earlier(c, d)
      ensures Rank(ls, c) < Rank(ls, d)
    {
      RankOrders(ls, c, d);
    }
  }

  // ---------- counting outcomes, and stopping at the first failure ----------

  datatype Result = Passed | Skipped | Failed | Errored

  datatype Report = Report(successful: nat, skipped: nat, failed: nat, errored: nat)

  /** The outcome of a run, by its number and its parameters. */
  type Verdict = (nat, seq<Param>) -> Result

  function Count(r: Report, x: Result): Report {
    match x
    case Passed => r.(successful := r.successful + 1)
    case Skipped => r.(skipped := r.skipped + 1)
    case Failed => r.(failed := r.failed + 1)
    case Errored => r.(errored := r.errored + 1)
  }

  predicate Bad(r: Report) { r.failed != 0 || r.errored != 0 }

  /** The counters after the runs `done`, the first of which has number `n`. */
  ghost function Tally(v: Verdict, n: nat, r: Report, done: seq<seq<Param>>): Report
    decreases |done|
  {
    if done == [] then r else Tally(v, n + 1, Count(r, v(n, done[0])), done[1..])
  }

  /** The runs made of a planned list: all of it, or with fatal failures the part up to the first after which some
      run has
      failed, counting failures from before. */
  ghost function Cut(v: Verdict, fatal: bool, n: nat, r: Report, all: seq<seq<Param>>): seq<seq<Param>>
    decreases |all|
  {
    if all == [] then []
    else
      var now := Count(r, v(n, all[0]));
      if fatal && Bad(now) then [all[0]] else [all[0]] + Cut(v, fatal, n + 1, now, all[1..])
  }

  /** The runs of `done` that came out as `x`. */
  ghost function Outcomes(v: Verdict, n: nat, done: seq<seq<Param>>, x: Result): set<int> {
    set i | 0 <= i < |done| && v(n + i, done[i]) == x
  }

  /** Each counter rises by the number of runs with its outcome. */
  lemma {:induction false} TallyCounts(v: Verdict, n: nat, r: Report, done: seq<seq<Param>>)
    ensures var t := Tally(v, n, r, done);
            && t.successful == r.successful + |Outcomes(v, n, done, Passed)|
            && t.skipped == r.skipped + |Outcomes(v, n, done, Skipped)|
            && t.failed == r.failed + |Outcomes(v, n, done, Failed)|
            && t.errored == r.errored + |Outcomes(v, n, done, Errored)|
    decreases |done|
  {
    hide Tally, Outcomes;
    if done == [] {
      TallyNone(v, n, r);
      NoOutcomes(v, n);
    } else {
      var d, x := done[..|done| - 1], done[|done| - 1];
      assert done == d + [x];
      TallyCounts(v, n, r, d);
      TallyJoin(v, n, r, d, [x]);
      TallyOne(v, n + |d|, Tally(v, n, r, d), x);
      LastOutcome(v, n, d, x, Passed);
      LastOutcome(v, n, d, x, Skipped);
      LastOutcome(v, n, d, x, Failed);
      LastOutcome(v, n, d, x, Errored);
    }
  }

  lemma NoOutcomes(v: Verdict, n: nat)
    ensures forall x :: Outcomes(v, n, [], x) == {}
  {
  }

  lemma LastOutcome(v: Verdict, n: nat, d: seq<seq<Param>>, last: seq<Param>, x: Result)
    ensures |Outcomes(v, n, d + [last], x)| == |Outcomes(v, n, d, x)| + if v(n + |d|, last) == x then 1 else 0
  {
    var a, b := Outcomes(v, n, d + [last], x), Outcomes(v, n, d, x);
    assert |d| !in b;
    assert a == if v(n + |d|, last) == x then b + {|d|} else b;
  }

  /** The runs made are the first ones planned. With fatal failures no run follows one after which a failure or an
      error has been counted, and planned runs are left out only after such a run. */
  lemma {:induction false} CutMeans(v: Verdict, fatal: bool, n: nat, r: Report, all: seq<seq<Param>>)
    ensures var done := Cut(v, fatal, n, r, all);
            && done <= all && (!fatal ==> done == all)
            && (fatal ==> forall k :: 0 < k < |done| ==>
                  var t := Tally(v, n, r, done[..k]); t.failed == 0 && t.errored == 0)
            && (|done| < |all| ==> var t := Tally(v, n, r, done); t.failed > 0 || t.errored > 0)
    decreases |all|
  {
    hide Tally, Cut;
    if all == [] {
      CutNone(v, fatal, n, r);
    } else {
      var x, t, now := all[0], all[1..], Count(r, v(n, all[0]));
      assert all == [x] + t;
      CutFirst(v, fatal, n, r, x, t);
      CutMeans(v, fatal, n + 1, now, t);
      TallyOne(v, n, r, x);
      var done, rest := Cut(v, fatal, n, r, all), Cut(v, fatal, n + 1, now, t);
      TallyFirst(v, n, r, x, rest);
      if !(fatal && Bad(now)) {
        forall k | 0 < k < |done|
          ensures fatal ==> var u := Tally(v, n, r, done[..k]); u.failed == 0 && u.errored == 0
        {
          assert done[..k] == [x] + rest[..k - 1];
          TallyFirst(v, n, r, x, rest[..k - 1]);
          if k == 1 { TallyNone(v, n + 1, now); }
        }
      }
    }
  }

  /** Without fatal failures everything planned is run. */
  lemma {:induction false} CutAll(v: Verdict, n: nat, r: Report, all: seq<seq<Param>>)
    ensures Cut(v, false, n, r, all) == all
    decreases |all|
  {
    if all != [] { CutAll(v, n + 1, Count(r, v(n, all[0])), all[1..]); }
  }

  lemma {:induction false} TallyJoin(v: Verdict, n: nat, r: Report, a: seq<seq<Param>>, b: seq<seq<Param>>)
    ensures Tally(v, n, r, a + b) == Tally(v, n + |a|, Tally(v, n, r, a), b)
    decreases |a|
  {
    if a == [] {
      assert a + b == b;
    } else {
      assert (a + b)[0] == a[0] && (a + b)[1..] == a[1..] + b;
      TallyJoin(v, n + 1, Count(r, v(n, a[0])), a[1..], b);
    }
  }

  lemma {:induction false} CutAppend(v: Verdict, fatal: bool, n: nat, r: Report, a: seq<seq<Param>>, b: seq<seq<Param>>)
    requires a != []
    ensures var done := Cut(v, fatal, n, r, a);
            var now := Tally(v, n, r, done);
            Cut(v, fatal, n, r, a + b) == if fatal && Bad(now) then done else done + Cut(v, fatal, n + |done|, now, b)
    decreases |a|
  {
    hide Cut, Tally, Bad;
    var x, t, now := a[0], a[1..], Count(r, v(n, a[0]));
    assert a == [x] + t && a + b == [x] + (t + b);
    CutFirst(v, fatal, n, r, x, t);
    CutFirst(v, fatal, n, r, x, t + b);
    TallyOne(v, n, r, x);
    if !(fatal && Bad(now)) {
      if t == [] {
        assert t + b == b && [x] + [] == [x];
        CutNone(v, fatal, n + 1, now);
      } else {
        var rest := Cut(v, fatal, n + 1, now, t);
        CutAppend(v, fatal, n + 1, now, t, b);
        TallyFirst(v, n, r, x, rest);
        Joined([x], rest, Cut(v, fatal, n + 1 + |rest|, Tally(v, n + 1, now, rest), b), []);
      }
    }
  }

  lemma CutFirst(v: Verdict, fatal: bool, n: nat, r: Report, x: seq<Param>, t: seq<seq<Param>>)
    ensures var now := Count(r, v(n, x));
            Cut(v, fatal, n, r, [x] + t) == if fatal && Bad(now) then [x] else [x] + Cut(v, fatal, n + 1, now, t)
  {
    assert ([x] + t)[1..] == t;
  }

  lemma CutNone(v: Verdict, fatal: bool, n: nat, r: Report)
    ensures Cut(v, fatal, n, r, []) == []
  {
  }

  lemma TallyOne(v: Verdict, n: nat, r: Report, x: seq<Param>)
    ensures Tally(v, n, r, [x]) == Count(r, v(n, x))
  {
    assert [x][1..] == [];
  }

  lemma TallyFirst(v: Verdict, n: nat, r: Report, x: seq<Param>, rest: seq<seq<Param>>)
    ensures Tally(v, n, r, [x] + rest) == Tally(v, n + 1, Count(r, v(n, x)), rest)
  {
    assert ([x] + rest)[1..] == rest;
  }

  // ---------- the runner ----------

  ghost predicate Ends(a: array<Param>, n: nat)
    reads a
  {
    n < a.Length && a[n] == End && forall i :: 0 <= i < n ==> a[i].Param?
  }

  const UNNAMED := Name("", 0)

  ghost function NamesOf(s: seq<Param>): seq<Name> {
    seq(|s|, i requires 0 <= i < |s| => if s[i].Param? then s[i].name else UNNAMED)
  }

  /** Every name is found among the declarations, with a list of values. */
  ghost predicate Listed(enums: seq<Enum>, names: seq<Name>) {
    forall i {:trigger names[i]} :: 0 <= i < |names| ==>
      Declared(enums, names[i]) < |enums| && enums[Declared(enums, names[i])].values.Some?
  }

  class Runner {
    const fatal: bool
    const verdict: Verdict  // what the test's own code makes of a run
    var report: Report
    var runs: seq<seq<Param>>

    /** Run the test on the entries before the end mark, none without an array. */
    method RunTestWithParams(a: array?<Param>, ghost n: nat)
      requires if a == null then n == 0 else Ends(a, n)
      modifies this
      ensures var row := if a == null then [] else a[..n];
              runs == old(runs) + [row] && report == Count(old(report), verdict(|old(runs)|, row))
    {
      var k := 0;
      while a != null && a[k] != End
        invariant 0 <= k <= n
        decreases n - k
      {
        k := k + 1;
      }
      var row := if a == null then [] else a[..k];
      report := Count(report, verdict(|runs|, row));
      runs := runs + [row];
    }

    /** munit_test_runner_run_test_wild, from entry `p`. */
    method RunWild(enums: seq<Enum>, a: array<Param>, p: nat, ghost n: nat)
      requires p < n && Ends(a, n) && Listed(enums, NamesOf(a[p..n]))
      modifies this, a
      ensures Ends(a, n) && a[..p] == old(a[..p]) && NamesOf(a[..n]) == old(NamesOf(a[..n]))
      ensures var done := Cut(verdict, fatal, |old(runs)|, old(report), Sweep(enums, old(a[..p]),
        old(NamesOf(a[p..n]))));
              runs == old(runs) + done && report == Tally(verdict, |old(runs)|, old(report), done)
      decreases n - p, 1
    {
      hide Sweep, SweepFrom, Cut, Tally, Listed, ValuesOf, Declared, NamesOf, Bad;
      ghost var prefix, names, all := a[..p], NamesOf(a[p..n]), NamesOf(a[..n]);
      NamesSplit(a[..n], p);
      assert a[..n][p..] == a[p..n] && a[..n][p] == a[p];
      var pe := FindEnum(enums, a[p].name, names);
      var values := enums[pe].values.value;
      SweepStarts(enums, prefix, names);
      ghost var done := [];
      assert names == all[p..] && names[0] == all[p] && names[1..] == all[p + 1..];
      ListedTail(enums, names);
      TallyNone(verdict, |runs|, report);
      var k := 0;
      assert values[0..] == values;
      while k < |values|
        invariant 0 <= k <= |values| && Ends(a, n) && a[..p] == prefix && NamesOf(a[..n]) == all
        invariant runs == old(runs) + done && report == Tally(verdict, |old(runs)|, old(report), done)
        invariant Cut(verdict, fatal, |old(runs)|, old(report), Sweep(enums, prefix, names))
               == done + Cut(verdict, fatal, |runs|, report, SweepFrom(enums, prefix, names, values[k..]))
      {
        ghost var m, r := |runs|, report;
        ghost var part := Cut(verdict, fatal, m, r, Sweep(enums, prefix + [Param(names[0], Some(values[k]))],
            names[1..]));
        WriteValue(a, p, values[k], n, prefix, all);
        RunNext(enums, a, p, n);
        assert a[..p + 1][..p] == a[..p];
        OneValue(enums, prefix, names, values, k, verdict, fatal, m, r);
        TallyJoin(verdict, |old(runs)|, old(report), done, part);
        Joined(old(runs), done, part, Cut(verdict, fatal, |runs|, report, SweepFrom(enums, prefix, names,
            values[k + 1..])));
        done := done + part;
        if fatal && Bad(report) {
          break;
        }
        k := k + 1;
      }
      if k == |values| {
        assert values[k..] == [] && done + [] == done;
        SweepEnds(enums, prefix, names, verdict, fatal, |runs|, report);
      }
    }

    /** Put a value into entry `p`. */
    method WriteValue(a: array<Param>, p: nat, v: string, ghost n: nat, ghost prefix: seq<Param>, ghost all: seq<Name>)
      requires p < n && Ends(a, n) && a[..p] == prefix && NamesOf(a[..n]) == all
      modifies a
      ensures Ends(a, n) && a[..p + 1] == prefix + [Param(all[p], Some(v))]
      ensures NamesOf(a[..n]) == all && NamesOf(a[p + 1..n]) == all[p + 1..]
    {
      assert forall i :: 0 <= i < n ==> all[i] == a[..n][i].name;
      a[p] := a[p].(value := Some(v));
      NamesSplit(a[..n], p + 1);
      assert a[..n][p + 1..] == a[p + 1..n];
    }

    /** The body of the loop: run the test when no entry is left, and go on to the next entry otherwise. */
    method RunNext(enums: seq<Enum>, a: array<Param>, p: nat, ghost n: nat)
      requires p < n && Ends(a, n) && Listed(enums, NamesOf(a[p + 1..n]))
      modifies this, a
      ensures Ends(a, n) && a[..p + 1] == old(a[..p + 1]) && NamesOf(a[..n]) == old(NamesOf(a[..n]))
      ensures var all := Sweep(enums, old(a[..p + 1]), old(NamesOf(a[p + 1..n])));
              var done := Cut(verdict, fatal, |old(runs)|, old(report), all);
              runs == old(runs) + done && report == Tally(verdict, |old(runs)|, old(report), done)
      decreases n - p, 0
    {
      hide SweepFrom, Listed;
      var next := p + 1;
      if a[next] == End {
        assert a[..n] == a[..p + 1] && NamesOf(a[p + 1..n]) == [];
        JustOne(verdict, fatal, |runs|, report, a[..n]);
        RunTestWithParams(a, n);
      } else {
        RunWild(enums, a, next, n);
      }
    }
  }

  /** The search for the declaration of an entry. */
  method FindEnum(enums: seq<Enum>, name: Name, ghost names: seq<Name>) returns (pe: nat)
    requires Listed(enums, names) && names != [] && names[0] == name
    ensures pe < |enums| && enums[pe].values.Some? && enums[pe].values.value == ValuesOf(enums, name)
  {
    pe := 0;
    while pe < |enums| && enums[pe].name.addr != name.addr
      invariant 0 <= pe <= |enums| && Declared(enums, name) == pe + Declared(enums[pe..], name)
    {
      pe := pe + 1;
    }
    assert Declared(enums, names[0]) == pe;
  }

  lemma NamesSplit(s: seq<Param>, p: nat)
    requires p <= |s|
    ensures NamesOf(s)[p..] == NamesOf(s[p..]) && |NamesOf(s)| == |s|
    ensures p < |s| && s[p].Param? ==> NamesOf(s)[p] == s[p].name
  {
  }

  lemma ListedTail(enums: seq<Enum>, names: seq<Name>)
    requires Listed(enums, names) && names != []
    ensures Listed(enums, names[1..])
  {
    assert forall i :: 0 <= i < |names[1..]| ==> names[1..][i] == names[i + 1];
  }

  lemma Joined(runs: seq<seq<Param>>, done: seq<seq<Param>>, part: seq<seq<Param>>, rest: seq<seq<Param>>)
    ensures runs + done + part == runs + (done + part) && done + (part + rest) == (done + part) + rest
  {
  }

  lemma SweepStarts(enums: seq<Enum>, prefix: seq<Param>, names: seq<Name>)
    requires names != []
    ensures Sweep(enums, prefix, names) == SweepFrom(enums, prefix, names, ValuesOf(enums, names[0]))
  {
  }

  lemma SweepEnds(enums: seq<Enum>, prefix: seq<Param>, names: seq<Name>, v: Verdict, fatal: bool, n: nat, r: Report)
    requires names != []
    ensures Cut(v, fatal, n, r, SweepFrom(enums, prefix, names, [])) == []
  {
  }

  lemma TallyNone(v: Verdict, n: nat, r: Report)
    ensures Tally(v, n, r, []) == r
  {
  }

  lemma JustOne(v: Verdict, fatal: bool, n: nat, r: Report, run: seq<Param>)
    ensures Cut(v, fatal, n, r, [run]) == [run] && Tally(v, n, r, [run]) == Count(r, v(n, run))
  {
    TallyOne(v, n, r, run);
  }

  /** The runs for one value of the first parameter left, and what remains after them. */
  lemma OneValue(enums: seq<Enum>, prefix: seq<Param>, names: seq<Name>, values: seq<string>, k: nat, v: Verdict,
                 fatal: bool, n: nat, r: Report)
    requires names != [] && k < |values|
    ensures var part := Cut(v, fatal, n, r, Sweep(enums, prefix + [Param(names[0], Some(values[k]))], names[1..]));
            var now := Tally(v, n, r, part);
            var rest := Cut(v, fatal, n + |part|, now, SweepFrom(enums, prefix, names, values[k + 1..]));
            Cut(v, fatal, n, r, SweepFrom(enums, prefix, names, values[k..])) == if fatal
                && Bad(now) then part else part + rest
  {
    hide Tally, Bad, Lists, Product;
    var p := prefix + [Param(names[0], Some(values[k]))];
    var all, rest := Sweep(enums, p, names[1..]), SweepFrom(enums, prefix, names, values[k + 1..]);
    assert values[k..][0] == values[k] && values[k..][1..] == values[k + 1..];
    if all == [] {
      SweepLength(enums, p, names[1..]);
      SweepFromLength(enums, prefix, names, values[k + 1..]);
      assert rest == [] && all + rest == [];
      TallyNone(v, n, r);
    } else {
      CutAppend(v, fatal, n, r, all, rest);
    }
  }
}
