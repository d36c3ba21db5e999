/** Running one test: collecting its parameters, then one run or all combinations. */
module WildTest {
  import opened Words
  import opened Wrappers
  import opened WildParams
  import Draws
  import Prng

  /** A parameter given on the command line. */
  datatype Arg = Arg(name: string, value: string)

  function CliValue(cli: seq<Arg>, name: string): Option<string> {
    if cli == [] then None else if cli[0].name == name then Some(cli[0].value) else CliValue(cli[1..], name)
  }

  /** `v` is the value of the first argument of this name, and none when no argument has it. */
  ghost predicate FirstArg(cli: seq<Arg>, name: string, v: Option<string>) {
    if v.None? then forall k :: 0 <= k < |cli| ==> cli[k].name != name
    else exists k :: 0 <= k < |cli| && cli[k] == Arg(name, v.value) && forall j :: 0 <= j < k ==> cli[j].name != name
  }

  lemma {:induction false} CliMeans(cli: seq<Arg>, name: string)
    ensures FirstArg(cli, name, CliValue(cli, name))
  {
    if cli != [] && cli[0].name != name {
      var t := cli[1..];
      CliMeans(t, name);
      assert forall k :: 0 <= k < |t| ==> t[k] == cli[k + 1];
      if v: string :| CliValue(t, name) == Some(v) {
        var k :| 0 <= k < |t| && t[k] == Arg(name, v) && forall j :: 0 <= j < k ==> t[j].name != name;
        assert cli[k + 1] == Arg(name, v);
        assert forall j :: 0 < j < k + 1 ==> cli[j] == t[j - 1];
      }
    } else if cli != [] {
      assert cli[0] == Arg(name, cli[0].value);
    }
  }

  /** Neither given on the command line nor without values: all its values are to be tried. */
  ghost predicate Wild(e: Enum, cli: seq<Arg>) {
    CliValue(cli, e.name.text) == None && e.values.Some? && e.values.value != []
  }

  /** The entries the command line fills. */
  ghost function Fixed(enums: seq<Enum>, cli: seq<Arg>): seq<Param> {
    if enums == [] then []
    else var r, e := Fixed(enums[..|enums| - 1], cli), enums[|enums| - 1];
         var v := CliValue(cli, e.name.text);
         if v.Some? then r + [Param(e.name, v)] else r
  }

  /** The entries filled are those of declarations that some argument names, with the first such argument's value. */
  lemma {:induction false} FixedMeans(enums: seq<Enum>, cli: seq<Arg>, p: Param)
    ensures p in Fixed(enums, cli) <==>
      p.Param? && p.value.Some? && exists i {:trigger enums[i]} ::
        0 <= i < |enums| && enums[i].name == p.name && FirstArg(cli, p.name.text, p.value)
  {
    hide CliValue, FirstArg;
    if enums != [] {
      var r, e := enums[..|enums| - 1], enums[|enums| - 1];
      FixedMeans(r, cli, p);
      CliMeans(cli, e.name.text);
      if p.Param? { OneArg(cli, e.name.text, p.value); }
      assert forall i :: 0 <= i < |r| ==> r[i] == enums[i];
    }
  }

  lemma OneArg(cli: seq<Arg>, name: string, v: Option<string>)
    ensures FirstArg(cli, name, v) <==> v == CliValue(cli, name)
  {
    CliMeans(cli, name);
  }

  /** A wildcard is a declaration that no argument names and that has values. */
  lemma WildMeans(e: Enum, cli: seq<Arg>)
    ensures Wild(e, cli) <==>
      (forall k :: 0 <= k < |cli| ==> cli[k].name != e.name.text) && e.values.Some? && e.values.value != []
  {
    CliMeans(cli, e.name.text);
  }

  /** The places of the wildcard declarations. */
  ghost function WildAt(enums: seq<Enum>, cli: seq<Arg>): (ps: seq<nat>)
    ensures forall k :: 0 <= k < |ps| ==> ps[k] < |enums| && Wild(enums[ps[k]], cli)
  {
    if enums == [] then []
    else var n := |enums| - 1;
         var r := WildAt(enums[..n], cli);
         if Wild(enums[n], cli) then r + [n] else r
  }

  /** The declarations before the first without a list of values. */
  ghost function Front(enums: seq<Enum>): seq<Enum> {
    if enums == [] || enums[0].values == None then [] else [enums[0]] + Front(enums[1..])
  }

  /** The places in `f` of the declarations with this name. */
  ghost function Matching(f: seq<Enum>, text: string): (ps: seq<nat>)
    ensures forall k :: 0 <= k < |ps| ==> ps[k] < |f| && f[ps[k]].name.text == text
  {
    if f == [] then []
    else var n := |f| - 1;
         var r := Matching(f[..n], text);
         if f[n].name.text == text then r + [n] else r
  }

  /** For each wildcard in turn, the places in `f` of the declarations with its name. */
  ghost function Matches(f: seq<Enum>, enums: seq<Enum>, ps: seq<nat>): (r: seq<nat>)
    requires forall k :: 0 <= k < |ps| ==> ps[k] < |enums|
    ensures forall k :: 0 <= k < |r| ==> r[k] < |f|
  {
    if ps == [] then []
    else Matches(f, enums, ps[..|ps| - 1]) + Matching(f, enums[ps[|ps| - 1]].name.text)
  }

  /** The places the second pass enumerates: it looks each wildcard up by name, up to the first declaration without a
      list. */
  ghost function KeptAt(enums: seq<Enum>, cli: seq<Arg>): seq<nat> { Matches(Front(enums), enums, WildAt(enums, cli)) }

  ghost function NamesAt(enums: seq<Enum>, ps: seq<nat>): seq<Name>
    requires forall k :: 0 <= k < |ps| ==> ps[k] < |enums|
  {
    seq(|ps|, k requires 0 <= k < |ps| => enums[ps[k]].name)
  }

  ghost function WildNames(enums: seq<Enum>, cli: seq<Arg>): seq<Name> { NamesAt(enums, WildAt(enums, cli)) }

  ghost function Kept(enums: seq<Enum>, cli: seq<Arg>): seq<Name> { NamesAt(Front(enums), KeptAt(enums, cli)) }

  /** With --single, a declaration's effect on the parameters and on the generator's state: a wildcard takes the value
      whose number is drawn below the length of its list. */
  ghost predicate Draws1(e: Enum, cli: seq<Arg>, salt: Word, s: Word, row: seq<Param>, t: Word, now: seq<Param>) {
    var v := CliValue(cli, e.name.text);
    if v.Some? then now == row + [Param(e.name, v)] && t == s
    else if !Wild(e, cli) then now == row && t == s
    else
      var n := |e.values.value|;
      && n <= 0x7fff_ffff
      && exists k: nat, i: Word ::
        Draws.Yields(s, salt, n - 1, k, i) && i < n && t == Prng.Orbit(s, k)
        && now == row + [Param(e.name, Some(e.values.value[i]))]
  }

  /** The parameters of the one run, when the generator starts from `s` and ends in `t`. */
  ghost predicate SingleRow(enums: seq<Enum>, cli: seq<Arg>, salt: Word, s: Word, row: seq<Param>, t: Word) {
    if enums == [] then row == [] && t == s
    else
      var r, e := enums[..|enums| - 1], enums[|enums| - 1];
      exists was, u :: SingleRow(r, cli, salt, s, was, u) && Draws1(e, cli, salt, u, was, t, row)
  }

  /** Some wildcard parameter has exactly one value, so a random choice among its values divides by zero. */
  ghost predicate HasSole(enums: seq<Enum>, cli: seq<Arg>) {
    exists i {:trigger enums[i]} :: 0 <= i < |enums| && Wild(enums[i], cli) && |enums[i].values.value| == 1
  }

  /** What a test declares: characters at one address are one name, and an int can count every list. */
  ghost predicate Declares(enums: seq<Enum>) {
    && (forall i, j :: 0 <= i < j < |enums| && enums[i].name.addr == enums[j].name.addr ==>
        enums[i].name == enums[j].name)
    && (forall i {:trigger enums[i]} :: 0 <= i < |enums| && enums[i].values.Some? ==>
        |enums[i].values.value| <= 0x7fff_ffff)
  }

  // ---------- what the second pass finds ----------

  lemma {:induction false} FrontIs(enums: seq<Enum>)
    ensures var n := |Front(enums)|;
        n <= |enums| && Front(enums) == enums[..n]
        && (n < |enums| ==> enums[n].values == None)
    ensures forall i :: 0 <= i < |Front(enums)| ==> enums[i].values.Some?
  {
    if enums != [] && enums[0].values.Some? {
      FrontIs(enums[1..]);
    }
  }

  /** What the second pass enumerates is found again by its name's address, and has a list. */
  lemma KeptListed(enums: seq<Enum>, cli: seq<Arg>)
    ensures Listed(enums, Kept(enums, cli))
  {
    hide Matches, Front, WildAt;
    FrontIs(enums);
    var names, ps := Kept(enums, cli), KeptAt(enums, cli);
    forall k {:trigger names[k]} | 0 <= k < |names|
      ensures Declared(enums, names[k]) < |enums| && enums[Declared(enums, names[k])].values.Some?
    {
      assert Front(enums)[ps[k]] == enums[ps[k]];
      assert Declared(enums, names[k]) <= ps[k];
    }
  }

  // ---------- parameter arrays ----------

  class Params {
    var a: array?<Param>
    var size: nat

    ghost predicate Valid()
      reads this, a
    {
      if a == null then size == 0 else Ends(a, size)
    }

    ghost function Entries(): seq<Param>
      reads this, a
      requires Valid()
    {
      if a == null then [] else a[..size]
    }

    constructor ()
      ensures Valid() && a == null && Entries() == []
    {
      a, size := null, 0;
    }

    /** munit_parameters_add: reallocate with room for one more entry and the end mark. */
    method Add(name: Name, value: Option<string>)
      requires Valid()
      modifies this
      ensures Valid() && a != null && fresh(a) && Entries() == old(Entries()) + [Param(name, value)]
    {
      var b := new Param[size + 2](_ => End);
      var k := 0;
      while k < size
        invariant 0 <= k <= size && a == old(a) && size == old(size) && Valid()
        invariant forall i :: 0 <= i < k ==> b[i] == a[i]
        modifies b
      {
        b[k] := a[k];
        k := k + 1;
      }
      b[size] := Param(name, value);
      b[size + 1] := End;
      a, size := b, size + 1;
    }
  }

  /** The search of the command line for a parameter. */
  method FindArg(cli: seq<Arg>, name: string) returns (v: Option<string>)
    ensures v == CliValue(cli, name) && FirstArg(cli, name, v)
  {
    CliMeans(cli, name);
    var k := 0;
    while k < |cli|
      invariant 0 <= k <= |cli| && CliValue(cli, name) == CliValue(cli[k..], name)
    {
      if cli[k].name == name {
        return Some(cli[k].value);
      }
      k := k + 1;
    }
    return None;
  }

  /** One declaration of the first pass. */
  method GatherOne(e: Enum, cli: seq<Arg>, single: bool, salt: Word, g: Draws.Generator, ps: Params, ws: Params)
    returns (out: Outcome)
    requires ps != ws && ps.Valid() && ws.Valid()
    requires e.values.Some? ==> |e.values.value| <= 0x7fff_ffff
    modifies g, ps, ws
    ensures ps.Valid() && ws.Valid() && (ps.a == old(ps.a) || fresh(ps.a)) && (ws.a == old(ws.a) || fresh(ws.a))
    ensures out == if single && Wild(e, cli) && |e.values.value| == 1 then DividesByZero else Done
    ensures ws.Entries() ==
      if !single && Wild(e, cli) then old(ws.Entries()) + [Param(e.name, None)] else old(ws.Entries())
    ensures !single ==>
      var v := CliValue(cli, e.name.text);
      ps.Entries() == if v.Some? then old(ps.Entries()) + [Param(e.name, v)] else old(ps.Entries())
    ensures single && out == Done ==> Draws1(e, cli, salt, old(g.state), old(ps.Entries()), g.state, ps.Entries())
  {
    hide CliValue, FirstArg, Ends, Draws.Yields, Prng.Orbit;
    out := Done;
    var v := FindArg(cli, e.name.text);
    if v.Some? {
      ps.Add(e.name, v);
      return;
    }
    if e.values == None || e.values.value == [] {
      return;
    }
    if single {
      var pidx;
      ghost var draws;
      out, pidx, draws := Pick(e.values.value, salt, g);
      if out == Done {
        ps.Add(e.name, Some(e.values.value[pidx]));
        PickedNow(e, cli, salt, old(g.state), old(ps.Entries()), draws, pidx);
      }
    } else {
      ws.Add(e.name, None);
    }
  }

  /** The random choice of a place in a list. */
  method Pick(values: seq<string>, salt: Word, g: Draws.Generator) returns (out: Outcome, pidx: nat, ghost draws: nat)
    requires 0 < |values| <= 0x7fff_ffff
    modifies g
    ensures out == if |values| == 1 then DividesByZero else Done
    ensures out == Done ==>
      && pidx < |values| && Draws.Yields(old(g.state), salt, |values| - 1, draws, pidx)
      && g.state == Prng.Orbit(old(g.state), draws)
  {
    hide Draws.Yields, Prng.Orbit, Prng.FromState, Xor32;
    var possible := |values|;
    var r;
    r, draws := g.AtMost(salt, possible - 1);
    if r.DividesByZero? {
      return DividesByZero, 0, draws;
    }
    out, pidx := Done, r.v;
  }

  lemma PickedNow(e: Enum, cli: seq<Arg>, salt: Word, s: Word, row: seq<Param>, draws: nat, pidx: nat)
    requires Wild(e, cli) && |e.values.value| <= 0x7fff_ffff && pidx < |e.values.value|
    requires Draws.Yields(s, salt, |e.values.value| - 1, draws, pidx)
    ensures Draws1(e, cli, salt, s, row, Prng.Orbit(s, draws), row + [Param(e.name, Some(e.values.value[pidx]))])
  {
    hide Draws.Yields, Prng.Orbit;
  }

  ghost function Blank(names: seq<Name>): seq<Param> {
    seq(|names|, i requires 0 <= i < |names| => Param(names[i], None))
  }

  /** The first pass over the declarations. */
  method Gather(enums: seq<Enum>, cli: seq<Arg>, single: bool, salt: Word, g: Draws.Generator, ps: Params, ws: Params)
    returns (out: Outcome)
    requires Declares(enums) && ps != ws && ps.Valid() && ws.Valid() && ps.a == null && ws.a == null
    modifies g, ps, ws
    ensures ps.Valid() && ws.Valid() && (ps.a == null || fresh(ps.a)) && (ws.a == null || fresh(ws.a))
    ensures out == if single && HasSole(enums, cli) then DividesByZero else Done
    ensures !single ==> ps.Entries() == Fixed(enums, cli) && ws.Entries() == Blank(WildNames(enums, cli))
    ensures single && out == Done ==>
      SingleRow(enums, cli, salt, old(g.state), ps.Entries(), g.state) && ws.Entries() == []
  {
    hide CliValue, Ends, Wild, Params.Valid, Params.Entries, Draws1, SingleRow;
    var k := 0;
    out := Done;
    PassStart(cli, ps, ws);
    RowStart(cli, salt, g.state);
    while k < |enums|
      invariant 0 <= k <= |enums| && out == Done && ps.Valid() && ws.Valid() && (ps.a == null || fresh(ps.a))
        && (ws.a == null || fresh(ws.a))
      invariant single ==> !HasSole(enums[..k], cli) && ws.Entries() == []
      invariant single ==> SingleRow(enums[..k], cli, salt, old(g.state), ps.Entries(), g.state)
      invariant !single ==> ps.Entries() == Fixed(enums[..k], cli) && ws.Entries() == Blank(WildNames(enums[..k], cli))
    {
      ghost var row, u := ps.Entries(), g.state;
      out := GatherOne(enums[k], cli, single, salt, g, ps, ws);
      if out != Done {
        SoleFound(enums, k, cli);
        return;
      }
      Passed(enums, k, cli);
      WildPassed(enums, k, cli);
      if single { RowStep(enums, k, cli, salt, old(g.state), row, u, ps.Entries(), g.state); }
      k := k + 1;
    }
    assert enums[..|enums|] == enums;
  }

  lemma PassStart(cli: seq<Arg>, ps: Params, ws: Params)
    requires ps.Valid() && ws.Valid() && ps.a == null && ws.a == null
    ensures ps.Entries() == [] && ws.Entries() == []
  {
  }

  /** The blanks after one more declaration. */
  lemma WildPassed(enums: seq<Enum>, k: nat, cli: seq<Arg>)
    requires k < |enums|
    ensures var was := Blank(WildNames(enums[..k], cli));
            Blank(WildNames(enums[..k + 1], cli)) ==
              if Wild(enums[k], cli) then was + [Param(enums[k].name, None)] else was
  {
    hide Wild;
    Passed(enums, k, cli);
    var ps := WildAt(enums[..k], cli);
    assert NamesAt(enums[..k + 1], ps) == NamesAt(enums[..k], ps);
  }

  lemma Passed(enums: seq<Enum>, k: nat, cli: seq<Arg>)
    requires k < |enums|
    ensures enums[..k + 1][..k] == enums[..k] && enums[..k + 1][k] == enums[k] && |enums[..k + 1]| == k + 1
  {
  }

  lemma RowStart(cli: seq<Arg>, salt: Word, s: Word)
    ensures SingleRow([], cli, salt, s, [], s)
  {
  }

  lemma RowStep(enums: seq<Enum>, k: nat, cli: seq<Arg>, salt: Word, s: Word, row: seq<Param>, u: Word,
                now: seq<Param>, t: Word)
    requires k < |enums| && !HasSole(enums[..k], cli) && SingleRow(enums[..k], cli, salt, s, row, u)
    requires Draws1(enums[k], cli, salt, u, row, t, now)
    requires Wild(enums[k], cli) ==> |enums[k].values.value| != 1
    ensures SingleRow(enums[..k + 1], cli, salt, s, now, t) && !HasSole(enums[..k + 1], cli)
  {
    hide CliValue, Draws1;
    Passed(enums, k, cli);
    assert forall i :: 0 <= i < k ==> enums[..k + 1][i] == enums[..k][i];
  }

  lemma SoleFound(enums: seq<Enum>, k: nat, cli: seq<Arg>)
    requires k < |enums| && Wild(enums[k], cli) && |enums[k].values.value| == 1
    ensures HasSole(enums, cli)
  {
  }

  // ---------- the second pass and the runs ----------

  /** The fixed entries, then one entry for each name. */
  ghost predicate Extended(row: seq<Param>, fixed: seq<Param>, names: seq<Name>) {
    |row| == |fixed| + |names| && row[..|fixed|] == fixed && NamesOf(row[|fixed|..]) == names
  }

  lemma ExtendNone(fixed: seq<Param>)
    ensures Extended(fixed, fixed, [])
  {
  }

  lemma ExtendOne(row: seq<Param>, fixed: seq<Param>, names: seq<Name>, name: Name, v: Option<string>)
    requires Extended(row, fixed, names)
    ensures Extended(row + [Param(name, v)], fixed, names + [name])
  {
    var now := row + [Param(name, v)];
    assert now[|fixed|..] == row[|fixed|..] + [Param(name, v)];
    assert NamesOf(now[|fixed|..]) == NamesOf(row[|fixed|..]) + [name];
  }

  lemma MatchingNext(f: seq<Enum>, k: nat, text: string)
    requires k < |f|
    ensures var was := NamesAt(f[..k], Matching(f[..k], text));
            NamesAt(f[..k + 1], Matching(f[..k + 1], text)) == if f[k].name.text == text then was + [f[k].name] else was
  {
    assert f[..k + 1][..k] == f[..k] && f[..k + 1][k] == f[k];
    var ps := Matching(f[..k], text);
    assert NamesAt(f[..k + 1], ps) == NamesAt(f[..k], ps);
  }

  lemma MatchingStart(f: seq<Enum>, text: string)
    ensures NamesAt(f[..0], Matching(f[..0], text)) == []
  {
  }

  /** Look one wildcard parameter up among the declarations, up to the first without a list. */
  method AddListed(enums: seq<Enum>, text: string, ps: Params, ghost fixed: seq<Param>, ghost names: seq<Name>)
    requires ps.Valid() && Extended(ps.Entries(), fixed, names) && (names != [] ==> ps.a != null)
    modifies ps
    ensures ps.Valid() && (ps.a == old(ps.a) || fresh(ps.a))
    ensures var f := Front(enums); var now := names + NamesAt(f, Matching(f, text));
            Extended(ps.Entries(), fixed, now) && (now != [] ==> ps.a != null)
  {
    hide Matching, Extended, NamesAt, Params.Valid, Params.Entries, NamesOf;
    FrontIs(enums);
    ghost var f := Front(enums);
    MatchingStart(f, text);
    ghost var now := names;
    assert names + [] == names;
    var pe := 0;
    while pe < |enums| && enums[pe].values != None
      invariant 0 <= pe <= |f| <= |enums| && ps.Valid() && (ps.a == old(ps.a) || fresh(ps.a))
      invariant now == names + NamesAt(f[..pe], Matching(f[..pe], text))
      invariant Extended(ps.Entries(), fixed, now) && (now != [] ==> ps.a != null)
    {
      MatchingNext(f, pe, text);
      if enums[pe].name.text == text {
        var values := enums[pe].values.value;
        var v := if values == [] then None else Some(values[0]);
        ExtendOne(ps.Entries(), fixed, now, enums[pe].name, v);
        ps.Add(enums[pe].name, v);
        now := now + [enums[pe].name];
      }
      pe := pe + 1;
    }
    assert f[..pe] == f;
  }

  /** The runs planned for a test: all combinations of the parameters enumerated, after those fixed. */
  ghost function Planned(enums: seq<Enum>, cli: seq<Arg>, names: seq<Name>): seq<seq<Param>> {
    Sweep(enums, Fixed(enums, cli), names)
  }

  lemma BlankAt(ws: Params, names: seq<Name>)
    requires ws.Valid() && ws.a != null && ws.Entries() == Blank(names)
    ensures ws.size == |names| && ws.size < ws.a.Length && ws.a[ws.size] == End
    ensures forall i :: 0 <= i < ws.size ==> ws.a[i] == Param(names[i], None)
  {
    assert forall i :: 0 <= i < |ws.Entries()| ==>
        && ws.Entries()[i] == ws.a[i]
        && Blank(names)[i] == Param(names[i], None);
  }

  /** What the first `k` wildcards contribute to the second pass. */
  ghost function KeptBy(enums: seq<Enum>, cli: seq<Arg>, k: nat): seq<Name>
    requires k <= |WildAt(enums, cli)|
  {
    NamesAt(Front(enums), Matches(Front(enums), enums, WildAt(enums, cli)[..k]))
  }

  lemma KeptNext(enums: seq<Enum>, cli: seq<Arg>, k: nat)
    requires k < |WildAt(enums, cli)|
    ensures var f := Front(enums);
            KeptBy(enums, cli, k + 1) == KeptBy(enums, cli, k) + NamesAt(f, Matching(f, WildNames(enums, cli)[k].text))
  {
    hide Matching, WildAt, Front;
    var ps := WildAt(enums, cli);
    assert ps[..k + 1][..k] == ps[..k];
  }

  lemma KeptEnds(enums: seq<Enum>, cli: seq<Arg>)
    ensures |WildNames(enums, cli)| == |WildAt(enums, cli)|
    ensures KeptBy(enums, cli, 0) == [] && KeptBy(enums, cli, |WildAt(enums, cli)|) == Kept(enums, cli)
  {
    hide WildAt, Front;
    var ps := WildAt(enums, cli);
    assert ps[..0] == [] && ps[..|ps|] == ps;
  }

  /** The second pass: put the wildcard parameters after the fixed ones. */
  method AddWild(enums: seq<Enum>, cli: seq<Arg>, ps: Params, ws: Params)
    requires ps != ws && ps.Valid() && ws.Valid() && ws.a != null
    requires ps.Entries() == Fixed(enums, cli) && ws.Entries() == Blank(WildNames(enums, cli))
    modifies ps
    ensures ps.Valid() && (ps.a == old(ps.a) || fresh(ps.a))
    ensures Extended(ps.Entries(), Fixed(enums, cli), Kept(enums, cli))
    ensures Kept(enums, cli) != [] ==> ps.a != null
  {
    hide Fixed, WildNames, WildAt, Kept, KeptBy, NamesOf, Blank, Extended, Matching, NamesAt, Params.Valid,
        Params.Entries;
    BlankAt(ws, WildNames(enums, cli));
    ghost var fixed := Fixed(enums, cli);
    ExtendNone(fixed);
    KeptEnds(enums, cli);
    var wp := 0;
    while ws.a[wp] != End
      invariant 0 <= wp <= ws.size && ps.Valid() && (ps.a == old(ps.a) || fresh(ps.a))
      invariant Extended(ps.Entries(), fixed, KeptBy(enums, cli, wp)) && (KeptBy(enums, cli, wp) != [] ==> ps.a != null)
      decreases ws.size - wp
    {
      KeptNext(enums, cli, wp);
      AddListed(enums, ws.a[wp].name.text, ps, fixed, KeptBy(enums, cli, wp));
      wp := wp + 1;
    }
  }

  /** munit_test_runner_run_test, without the output. */
  method RunTest(runner: Runner, enums: seq<Enum>, cli: seq<Arg>, single: bool, seed: Word,
      salt: Word) returns (out: Outcome)
    requires Declares(enums)
    modifies runner
    ensures single ==> out == if HasSole(enums, cli) then DividesByZero else Done
    ensures single && out == Done ==>
              var s := Prng.NextState((seed + 1729) % TWO32);
              exists row, t ::
                SingleRow(enums, cli, salt, s, row, t) && Ran(runner, old(runner.runs), old(runner.report), [row])
    ensures !single ==> out == if WildNames(enums, cli) != [] && Kept(enums, cli) == [] then NullDereference else Done
    ensures !single && out == Done ==> Ran(runner, old(runner.runs), old(runner.report), Planned(enums, cli,
      Kept(enums, cli)))
    ensures out != Done ==> runner.runs == old(runner.runs) && runner.report == old(runner.report)
  {
    hide Fixed, WildNames, Declares, Kept, Blank, HasSole, SingleRow, Params.Valid, Params.Entries, Cut, Tally,
        Extended, NamesOf;
    var g := new Draws.Generator(Prng.NextState((seed + Prng.INCREMENT) % TWO32));
    var ps := new Params();
    var ws := new Params();
    out := Gather(enums, cli, single, salt, g, ps, ws);
    if out != Done {
      return;
    }
    NoneKept(enums, cli);
    SizeIs(ws);
    if ws.size != 0 {
      out := RunAll(runner, enums, cli, ps, ws);
    } else {
      SizeIs(ps);
      JustOne(runner.verdict, runner.fatal, |runner.runs|, runner.report, ps.Entries());
      runner.RunTestWithParams(ps.a, ps.size);
    }
  }

  /** The runner has made the runs planned, up to the first failure when failures are fatal, and counted their
      outcomes. */
  ghost predicate Ran(runner: Runner, runs: seq<seq<Param>>, report: Report, planned: seq<seq<Param>>)
    reads runner
  {
    var done := Cut(runner.verdict, runner.fatal, |runs|, report, planned);
    runner.runs == runs + done && runner.report == Tally(runner.verdict, |runs|, report, done)
  }

  /** The branch with wildcard parameters. */
  method RunAll(runner: Runner, enums: seq<Enum>, cli: seq<Arg>, ps: Params, ws: Params) returns (out: Outcome)
    requires ps != ws && ps.Valid() && ws.Valid() && ws.a != null
    requires ps.Entries() == Fixed(enums, cli) && ws.Entries() == Blank(WildNames(enums, cli))
    modifies runner, ps, ps.a
    ensures out == if Kept(enums, cli) == [] then NullDereference else Done
    ensures out == Done ==> Ran(runner, old(runner.runs), old(runner.report), Planned(enums, cli, Kept(enums, cli)))
    ensures out != Done ==> runner.runs == old(runner.runs) && runner.report == old(runner.report)
  {
    hide Fixed, WildNames, Kept, Blank, Params.Valid, Params.Entries, Cut, Tally, Extended, NamesOf, Listed;
    SizeIs(ps);
    var firstWild := ps.size;
    AddWild(enums, cli, ps, ws);
    SizeIs(ps);
    ExtendedAt(ps, Fixed(enums, cli), Kept(enums, cli));
    if ps.a == null || ps.a[firstWild] == End {
      return NullDereference;
    }
    KeptListed(enums, cli);
    runner.RunWild(enums, ps.a, firstWild, ps.size);
    out := Done;
  }

  lemma SizeIs(ps: Params)
    requires ps.Valid()
    ensures ps.size == |ps.Entries()| && (ps.a == null ==> ps.Entries() == []) && (ps.a != null ==> Ends(ps.a, ps.size))
    ensures ps.a != null ==> ps.Entries() == ps.a[..ps.size]
  {
  }

  lemma ExtendedAt(ps: Params, fixed: seq<Param>, names: seq<Name>)
    requires ps.Valid() && Extended(ps.Entries(), fixed, names)
    ensures ps.size == |fixed| + |names|
    ensures ps.a != null ==>
        && ps.a[..|fixed|] == fixed && NamesOf(ps.a[|fixed|..ps.size]) == names
        && |fixed| < ps.a.Length
    ensures ps.a != null ==> (ps.a[|fixed|] == End <==> names == [])
  {
    if ps.a != null {
      assert ps.a[..ps.size][..|fixed|] == ps.a[..|fixed|];
      assert ps.a[..ps.size][|fixed|..] == ps.a[|fixed|..ps.size];
    }
  }

  lemma NoneKept(enums: seq<Enum>, cli: seq<Arg>)
    ensures WildNames(enums, cli) == [] ==> Kept(enums, cli) == []
    ensures |Blank(WildNames(enums, cli))| == |WildNames(enums, cli)|
    ensures Planned(enums, cli, []) == [Fixed(enums, cli)]
  {
  }

  // ---------- when all combinations are run ----------

  /** A wildcard parameter declared after one without a list. */
  ghost predicate Overlooked(enums: seq<Enum>, cli: seq<Arg>) {
    exists i, j {:trigger enums[i], enums[j]} :: 0 <= i < j < |enums| && enums[i].values == None && Wild(enums[j], cli)
  }

  /** A wildcard parameter whose name is declared twice, with lists. */
  ghost predicate Doubled(enums: seq<Enum>, cli: seq<Arg>) {
    exists i, j {:trigger enums[i], enums[j]} :: 0 <= i < |enums| && 0 <= j < |Front(enums)| <= |enums| && i != j
      && Wild(enums[i], cli) && enums[i].name.text == enums[j].name.text
  }

  lemma {:induction false} MatchingHas(f: seq<Enum>, text: string, p: nat)
    ensures p in Matching(f, text) <==> p < |f| && f[p].name.text == text
  {
    if f != [] { MatchingHas(f[..|f| - 1], text, p); }
  }

  /** A name declared once matches there only. */
  lemma {:induction false} MatchingOnce(f: seq<Enum>, text: string, p: nat)
    requires p < |f| && f[p].name.text == text && forall j :: 0 <= j < |f| && j != p ==> f[j].name.text != text
    ensures Matching(f, text) == [p]
  {
    var n := |f| - 1;
    if p == n {
      MatchingNone(f[..n], text);
    } else {
      MatchingOnce(f[..n], text, p);
    }
  }

  lemma {:induction false} MatchingNone(f: seq<Enum>, text: string)
    requires forall j :: 0 <= j < |f| ==> f[j].name.text != text
    ensures Matching(f, text) == []
  {
    if f != [] { MatchingNone(f[..|f| - 1], text); }
  }

  /** Wildcards that each match only themselves are enumerated as they are. */
  lemma {:induction false} MatchesSame(f: seq<Enum>, enums: seq<Enum>, ps: seq<nat>)
    requires forall k :: 0 <= k < |ps| ==> ps[k] < |f| <= |enums| && Matching(f, enums[ps[k]].name.text) == [ps[k]]
    ensures Matches(f, enums, ps) == ps
  {
    hide Matching, Matches;
    MatchesNone(f, enums);
    if ps != [] {
      var r, p := ps[..|ps| - 1], ps[|ps| - 1];
      assert forall k :: 0 <= k < |r| ==> r[k] == ps[k];
      MatchesSame(f, enums, r);
      MatchesEnd(f, enums, ps);
      assert ps == r + [p];
    }
  }

  lemma MatchesNone(f: seq<Enum>, enums: seq<Enum>)
    ensures Matches(f, enums, []) == []
  {
  }

  lemma MatchesEnd(f: seq<Enum>, enums: seq<Enum>, ps: seq<nat>)
    requires ps != [] && forall k :: 0 <= k < |ps| ==> ps[k] < |enums|
    ensures var n := |ps| - 1; Matches(f, enums, ps) == Matches(f, enums, ps[..n]) + Matching(f, enums[ps[n]].name.text)
  {
  }

  /** Wildcards that match at least themselves give as many places as there are wildcards only if none matches
      another. */
  lemma {:induction false} MatchesCount(f: seq<Enum>, enums: seq<Enum>, ps: seq<nat>)
    requires forall k :: 0 <= k < |ps| ==> ps[k] < |enums| && Matching(f, enums[ps[k]].name.text) != []
    ensures |Matches(f, enums, ps)| >= |ps|
    ensures |Matches(f, enums, ps)| == |ps| ==> forall k :: 0 <= k < |ps| ==> |Matching(f, enums[ps[k]].name.text)| == 1
  {
    hide Matching;
    if ps != [] { MatchesCount(f, enums, ps[..|ps| - 1]); }
  }

  lemma {:induction false} WildHas(enums: seq<Enum>, cli: seq<Arg>, p: nat)
    ensures p in WildAt(enums, cli) <==> p < |enums| && Wild(enums[p], cli)
  {
    if enums != [] { WildHas(enums[..|enums| - 1], cli, p); }
  }

  /** All wildcard declarations, each once, are what the second pass enumerates, exactly when none comes after a
      declaration
      without a list and no name among them is declared twice. */
  lemma AllCombinations(enums: seq<Enum>, cli: seq<Arg>)
    ensures KeptAt(enums, cli) == WildAt(enums, cli) <==> !Overlooked(enums, cli) && !Doubled(enums, cli)
  {
    hide WildAt, Matching, Matches, Wild;
    FrontIs(enums);
    if KeptAt(enums, cli) == WildAt(enums, cli) {
      NoneOverlooked(enums, cli);
      NoneDoubled(enums, cli);
    }
    if !Overlooked(enums, cli) && !Doubled(enums, cli) {
      var f, ps := Front(enums), WildAt(enums, cli);
      forall k | 0 <= k < |ps|
        ensures ps[k] < |f| && Matching(f, enums[ps[k]].name.text) == [ps[k]]
      {
        ItselfOnly(enums, cli, ps[k]);
      }
      MatchesSame(f, enums, ps);
    }
  }

  lemma NoneOverlooked(enums: seq<Enum>, cli: seq<Arg>)
    requires KeptAt(enums, cli) == WildAt(enums, cli)
    ensures !Overlooked(enums, cli)
  {
    hide WildAt, Matching, Matches, Wild;
    FrontIs(enums);
    forall i, j {:trigger enums[i], enums[j]} | 0 <= i < j < |enums| && enums[i].values == None
      ensures !Wild(enums[j], cli)
    {
      WildHas(enums, cli, j);
    }
  }

  lemma NoneDoubled(enums: seq<Enum>, cli: seq<Arg>)
    requires KeptAt(enums, cli) == WildAt(enums, cli)
    ensures !Doubled(enums, cli)
  {
    hide WildAt, Matching, Matches, Wild;
    FrontIs(enums);
    var f, ps := Front(enums), WildAt(enums, cli);
    forall k | 0 <= k < |ps| ensures Matching(f, enums[ps[k]].name.text) != [] {
      MatchingHas(f, enums[ps[k]].name.text, ps[k]);
    }
    MatchesCount(f, enums, ps);
    forall i, j {:trigger enums[i], enums[j]} | 0 <= i < |enums| && 0 <= j < |f| && i != j && Wild(enums[i], cli)
      ensures enums[i].name.text != enums[j].name.text
    {
      WildHas(enums, cli, i);
      var k :| 0 <= k < |ps| && ps[k] == i;
      MatchingHas(f, enums[i].name.text, i);
      MatchingHas(f, enums[i].name.text, j);
    }
  }

  lemma LateOverlooked(enums: seq<Enum>, cli: seq<Arg>, p: nat)
    requires |Front(enums)| <= p < |enums| && Wild(enums[p], cli)
    ensures Overlooked(enums, cli)
  {
    FrontIs(enums);
    var i := |Front(enums)|;
    assert enums[i].values == None && enums[p].values.Some?;
  }

  lemma ItselfOnly(enums: seq<Enum>, cli: seq<Arg>, p: nat)
    requires !Overlooked(enums, cli) && !Doubled(enums, cli) && p < |enums| && Wild(enums[p], cli)
    ensures p < |Front(enums)| && Matching(Front(enums), enums[p].name.text) == [p]
  {
    FrontIs(enums);
    var f := Front(enums);
    if p >= |f| { LateOverlooked(enums, cli, p); }
    forall j | 0 <= j < |f| && j != p ensures f[j].name.text != enums[p].name.text {
      assert f[j] == enums[j] && enums[p] == enums[p];
    }
    MatchingOnce(f, enums[p].name.text, p);
  }

  /** And then each of them ranges over its own list. */
  lemma OwnLists(enums: seq<Enum>, cli: seq<Arg>)
    requires Declares(enums) && !Overlooked(enums, cli) && !Doubled(enums, cli)
    ensures var ps := WildAt(enums, cli);
            && Kept(enums, cli) == WildNames(enums, cli)
            && Lists(enums, Kept(enums, cli)) == seq(|ps|, k requires 0 <= k < |ps| => enums[ps[k]].values.value)
  {
    hide WildAt, Matching, Matches, Declares;
    AllCombinations(enums, cli);
    FrontIs(enums);
    var ps, names := WildAt(enums, cli), Kept(enums, cli);
    assert names == WildNames(enums, cli);
    forall k | 0 <= k < |ps| ensures Lists(enums, names)[k] == enums[ps[k]].values.value {
      OwnList(enums, cli, ps[k]);
    }
  }

  lemma OwnList(enums: seq<Enum>, cli: seq<Arg>, p: nat)
    requires Declares(enums) && !Overlooked(enums, cli) && !Doubled(enums, cli) && p < |enums| && Wild(enums[p], cli)
    ensures ValuesOf(enums, enums[p].name) == enums[p].values.value
  {
    ItselfOnly(enums, cli, p);
    FrontIs(enums);
    var i := Declared(enums, enums[p].name);
    if i < p {
      assert enums[i].name == enums[p].name;
      assert Doubled(enums, cli);
    }
  }

  /** A test that loses half of its combinations, one that reads through a null pointer, and one that makes sixteen
      runs for
      four combinations. */
  lemma Overlooks()
    ensures var enums := [Sample(0), Sample(1), Sample(2)];
            |Planned(enums, [], WildNames(enums, []))| == 4 && |Planned(enums, [], Kept(enums, []))| == 2
    ensures WildNames([Sample(1), Sample(2)], []) == [Sample(2).name] && Kept([Sample(1), Sample(2)], []) == []
    ensures var enums := [Sample(0), Sample(3)];
            |Planned(enums, [], WildNames(enums, []))| == 4 && |Planned(enums, [], Kept(enums, []))| == 16
  {
    hide WildNames, Kept, Planned;
    OverlooksHalf();
    OverlooksAll();
    RunsTwice();
  }

  lemma WildEnd(es: seq<Enum>, e: Enum)
    ensures WildAt(es + [e], []) == if e.values.Some? && e.values.value != [] then WildAt(es,
      []) + [|es|] else WildAt(es, [])
  {
    assert (es + [e])[..|es|] == es;
  }

  lemma MatchingEnd(f: seq<Enum>, e: Enum, text: string)
    ensures Matching(f + [e], text) == if e.name.text == text then Matching(f, text) + [|f|] else Matching(f, text)
  {
    assert (f + [e])[..|f|] == f;
  }

  lemma MatchesTwo(f: seq<Enum>, enums: seq<Enum>, p: nat, q: nat)
    requires p < |enums| && q < |enums|
    ensures Matches(f, enums, [p]) == Matching(f, enums[p].name.text)
    ensures Matches(f, enums, [p, q]) == Matching(f, enums[p].name.text) + Matching(f, enums[q].name.text)
  {
    hide Matching;
    assert [p][..0] == [] && [p, q][..1] == [p];
  }

  lemma FrontStart(e: Enum, es: seq<Enum>)
    ensures Front([e] + es) == if e.values.None? then [] else [e] + Front(es)
  {
    assert ([e] + es)[1..] == es;
  }

  lemma Nothing(text: string)
    ensures WildAt([], []) == [] && Matching([], text) == [] && Front([]) == []
  {
  }

  lemma OverlooksAll()
    ensures WildNames([Sample(1), Sample(2)], []) == [Sample(2).name] && Kept([Sample(1), Sample(2)], []) == []
  {
    hide WildAt, Matching, Matches, Front;
    var b, c := Sample(1), Sample(2);
    Nothing("c");
    assert [] + [b] == [b] && [b] + [c] == [b, c];
    WildEnd([], b);
    WildEnd([b], c);
    FrontStart(b, [c]);
    assert WildAt([b, c], []) == [1];
    MatchesTwo([], [b, c], 1, 1);
  }

  /** The declarations of the three tests: two lists, one missing, one more list under a name used before. */
  function Sample(k: nat): Enum {
    if k == 0 then Enum(Name("a", 1), Some(["1", "2"]))
    else if k == 1 then Enum(Name("b", 2), None)
    else if k == 2 then Enum(Name("c", 3), Some(["x", "y"]))
    else Enum(Name("a", 4), Some(["1", "2"]))
  }

  lemma HalfWild()
    ensures WildAt([Sample(0), Sample(1), Sample(2)], []) == [0, 2]
  {
    hide WildAt;
    var a, b, c := Sample(0), Sample(1), Sample(2);
    Nothing("");
    assert [] + [a] == [a] && [a] + [b] == [a, b] && [a, b] + [c] == [a, b, c];
    WildEnd([], a);
    WildEnd([a], b);
    WildEnd([a, b], c);
  }

  lemma HalfFront()
    ensures Front([Sample(0), Sample(1), Sample(2)]) == [Sample(0)]
  {
    hide Front;
    var a, b, c := Sample(0), Sample(1), Sample(2);
    assert [a] + [b, c] == [a, b, c] && [b] + [c] == [b, c] && [a] + [] == [a];
    FrontStart(b, [c]);
    FrontStart(a, [b, c]);
  }

  lemma HalfKept()
    ensures KeptAt([Sample(0), Sample(1), Sample(2)], []) == [0]
      && Front([Sample(0), Sample(1), Sample(2)]) == [Sample(0)]
  {
    hide WildAt, Matching, Matches, Front;
    var a := Sample(0);
    HalfWild();
    HalfFront();
    Nothing("a");
    Nothing("c");
    assert [] + [a] == [a];
    MatchingEnd([], a, "a");
    MatchingEnd([], a, "c");
    MatchesTwo([a], [a, Sample(1), Sample(2)], 0, 2);
  }

  lemma OverlooksHalf()
    ensures var enums := [Sample(0), Sample(1), Sample(2)];
            |Planned(enums, [], WildNames(enums, []))| == 4 && |Planned(enums, [], Kept(enums, []))| == 2
  {
    hide WildAt, KeptAt, Front, Planned, Declared;
    var enums := [Sample(0), Sample(1), Sample(2)];
    HalfWild();
    HalfKept();
    assert WildNames(enums, []) == [Sample(0).name, Sample(2).name] && Kept(enums, []) == [Sample(0).name];
    TwoLists(enums, 0, 2);
  }

  lemma TwiceWild()
    ensures WildAt([Sample(0), Sample(3)], []) == [0, 1] && Front([Sample(0), Sample(3)]) == [Sample(0), Sample(3)]
  {
    hide WildAt, Front;
    var a, d := Sample(0), Sample(3);
    Nothing("");
    assert [] + [a] == [a] && [a] + [d] == [a, d] && [d] + [] == [d];
    WildEnd([], a);
    assert WildAt([a], []) == [0];
    WildEnd([a], d);
    FrontStart(d, []);
    FrontStart(a, [d]);
  }

  lemma TwiceKept()
    ensures KeptAt([Sample(0), Sample(3)], []) == [0, 1, 0, 1]
  {
    hide WildAt, Matching, Matches, Front;
    var a, d := Sample(0), Sample(3);
    TwiceWild();
    Nothing("a");
    assert [] + [a] == [a] && [a] + [d] == [a, d];
    MatchingEnd([], a, "a");
    MatchingEnd([a], d, "a");
    assert Matching([a], "a") == [0];
    assert Matching([a, d], "a") == [0, 1];
    MatchesTwo([a, d], [a, d], 0, 1);
    assert KeptAt([a, d], []) == Matches([a, d], [a, d], [0, 1]);
  }

  lemma RunsTwice()
    ensures var enums := [Sample(0), Sample(3)];
            |Planned(enums, [], WildNames(enums, []))| == 4 && |Planned(enums, [], Kept(enums, []))| == 16
  {
    hide WildAt, KeptAt, Front, Planned, Declared;
    var enums := [Sample(0), Sample(3)];
    var a, d := Sample(0).name, Sample(3).name;
    TwiceWild();
    TwiceKept();
    assert WildNames(enums, []) == [a, d] && Kept(enums, []) == [a, d, a, d];
    TwoLists(enums, 0, 1);
    FourLists(enums, a, d);
  }

  /** Two declared parameters of two values each make four combinations, and the first alone two. */
  lemma TwoLists(enums: seq<Enum>, i: nat, j: nat)
    requires i < |enums| && j < |enums| && forall k, l :: 0 <= k < l < |enums| ==>
      enums[k].name.addr != enums[l].name.addr
    requires enums[i].values.Some? && |enums[i].values.value| == 2 && enums[j].values.Some?
      && |enums[j].values.value| == 2
    ensures Product(Lists(enums, [enums[i].name, enums[j].name])) == 4
    ensures |Planned(enums, [], [enums[i].name, enums[j].name])| == 4 && |Planned(enums, [], [enums[i].name])| == 2
  {
    hide Fixed, Sweep, Declared;
    var a, c := enums[i].name, enums[j].name;
    assert Declared(enums, a) == i && Declared(enums, c) == j;
    var ls := Lists(enums, [a, c]);
    assert ls[1..][1..] == [] && Product(ls[1..]) == 2;
    assert Lists(enums, [a])[1..] == [];
    SweepLength(enums, Fixed(enums, []), [a, c]);
    SweepLength(enums, Fixed(enums, []), [a]);
  }

  lemma FourLists(enums: seq<Enum>, a: Name, d: Name)
    requires Product(Lists(enums, [a, d])) == 4
    ensures |Planned(enums, [], [a, d, a, d])| == 16
  {
    var two, names := Lists(enums, [a, d]), [a, d, a, d];
    var ls := Lists(enums, names);
    SweepLength(enums, Fixed(enums, []), names);
    var x, y := |ValuesOf(enums, a)|, |ValuesOf(enums, d)|;
    assert two[1..] == [ValuesOf(enums, d)] && two[1..][1..] == [];
    assert Product(two[1..]) == y * Product([]) == y && Product(two) == x * y;
    assert ls[1..][1..] == two;
    assert Product(ls[1..]) == y * 4 && Product(ls) == x * (y * 4);
    assert x * (y * 4) == (x * y) * 4;
  }
}
