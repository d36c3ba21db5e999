/** Threads drawing from one shared generator state through compare-and-swap retry loops. */
module CasLoop {
  import opened Words
  import opened Prng
  import opened Draws

  /** munit_rand_uint32, munit_rand_memory and munit_rand_at_most. */
  datatype Call = Uint32 | Fill(size: nat) | AtMost(salt: Word, max: Word)

  /** Between calls, about to load, or with a value loaded when `seen` calls had returned. */
  datatype Thread = Idle | Ready(call: Call) | Loaded(call: Call, was: Word, seen: nat)

  /** A call that has returned, with the value its successful attempt loaded. */
  datatype Return = Return(t: nat, call: Call, was: Word)

  /** What may happen next: a thread starts a call, loads and computes, or tries its swap, which may fail spuriously. */
  datatype Action = Begin(t: nat, call: Call) | Load(t: nat) | Swap(t: nat, spurious: bool)

  ghost predicate Defined(call: Call) { call.AtMost? ==> call.max >= 1 }

  /** The number of candidates rejected before the first that is not. */
  ghost function Rejections(s: Word, salt: Word, floor: Word, i: nat): nat
    requires AllRejected(s, salt, floor, i)
    decreases floor + 1 - i
  {
    FewRejected(s, salt, floor, i);
    if Candidate(s, salt, i) >= floor then i
    else
      assert AllRejected(s, salt, floor, i + 1);
      FewRejected(s, salt, floor, i + 1);
      Rejections(s, salt, floor, i + 1)
  }

  /** States a call uses up when its attempt starts from `s`. */
  ghost function Taken(call: Call, s: Word): nat {
    match call
    case Uint32 => 1
    case Fill(n) => Words4(n)
    case AtMost(salt, max) =>
      if max == 0 then 0 else if max == MAX32 then 1 else Rejections(s, salt, Floor(max), 0) + 1
  }

  /** The value, or the bytes, the call returns. */
  ghost function Answer(call: Call, s: Word): seq<int> {
    match call
    case Uint32 => [FromState(s)]
    case Fill(n) => seq(n, i requires 0 <= i < n => StreamByte(s, i))
    case AtMost(salt, max) =>
      if max == 0 then []
      else if max == MAX32 then [Candidate(s, salt, 0)]
      else [Candidate(s, salt, Taken(call, s) - 1) % (max + 1)]
  }

  lemma {:induction false} RejectionsEnd(s: Word, salt: Word, floor: Word, i: nat)
    requires AllRejected(s, salt, floor, i)
    ensures var n := Rejections(s, salt, floor, i); AllRejected(s, salt, floor, n) && Candidate(s, salt, n) >= floor
    decreases floor + 1 - i
  {
    hide Candidate;
    FewRejected(s, salt, floor, i);
    if Candidate(s, salt, i) < floor {
      assert AllRejected(s, salt, floor, i + 1);
      FewRejected(s, salt, floor, i + 1);
      RejectionsEnd(s, salt, floor, i + 1);
    }
  }

  /** A bounded draw returns what the sequential function returns from the loaded state, and only that. */
  lemma AtMostAnswers(s: Word, salt: Word, max: Word, n: nat, v: Word)
    requires max >= 1
    ensures Yields(s, salt, max, n, v) <==> n == Taken(AtMost(salt, max), s) && [v] == Answer(AtMost(salt, max), s)
  {
    hide Candidate, Floor;
    if max < MAX32 {
      RejectionsEnd(s, salt, Floor(max), 0);
      var k := Rejections(s, salt, Floor(max), 0);
      if Yields(s, salt, max, n, v) {
        assert n == k + 1;
      }
    }
  }

  // ---------- the state machine ----------

  datatype System = System(cell: Word, threads: map<nat, Thread>, log: seq<Return>)

  ghost function ThreadOf(y: System, t: nat): Thread { if t in y.threads then y.threads[t] else Idle }

  ghost predicate Enabled(y: System, a: Action) {
    match a
    case Begin(t, call) => ThreadOf(y, t).Idle? && Defined(call)
    case Load(t) => ThreadOf(y, t).Ready?
    case Swap(t, _) => ThreadOf(y, t).Loaded?
  }

  ghost function Step(y: System, a: Action): System
    requires Enabled(y, a)
  {
    match a
    case Begin(t, call) => y.(threads := y.threads[t := Ready(call)])
    case Load(t) => y.(threads := y.threads[t := Loaded(ThreadOf(y, t).call, y.cell, |y.log|)])
    case Swap(t, spurious) =>
      var l := ThreadOf(y, t);
      if y.cell == l.was && !spurious then
        System(Orbit(l.was, Taken(l.call, l.was)), y.threads[t := Idle], y.log + [Return(t, l.call, l.was)])
      else y.(threads := y.threads[t := Ready(l.call)])
  }

  /** The actions of `acts` happen one after another from the seeded state, ending in `y`. */
  ghost predicate Runs(seed: Word, acts: seq<Action>, y: System)
    decreases |acts|
  {
    if acts == [] then y == System(seed, map[], [])
    else var a, r := acts[|acts| - 1], acts[..|acts| - 1];
         exists x :: Moves(x, a, y) && Runs(seed, r, x)
  }

  ghost predicate Moves(x: System, a: Action, y: System) { Enabled(x, a) && y == Step(x, a) }

  // ---------- linearization ----------

  /** Draws made by a sequence of returned calls. */
  ghost function Total(rs: seq<Return>): nat {
    if rs == [] then 0 else Total(rs[..|rs| - 1]) + Taken(rs[|rs| - 1].call, rs[|rs| - 1].was)
  }

  /** The same calls made one after another, each starting where the one before it stopped. */
  ghost predicate Serial(seed: Word, rs: seq<Return>) {
    rs == [] || (Serial(seed, rs[..|rs| - 1]) && rs[|rs| - 1].was == Orbit(seed, Total(rs[..|rs| - 1])))
  }

  /** A loaded value is out of date only if some call has returned since. */
  ghost predicate Fresh(y: System) {
    forall t :: t in y.threads && y.threads[t].Loaded? ==>
      && y.threads[t].seen <= |y.log|
      && (y.threads[t].seen == |y.log| ==> y.threads[t].was == y.cell)
  }

  ghost predicate Invariant(seed: Word, y: System) {
    y.cell == Orbit(seed, Total(y.log)) && Serial(seed, y.log) && Fresh(y)
  }

  lemma StepKeeps(seed: Word, x: System, a: Action, y: System)
    requires Invariant(seed, x) && Moves(x, a, y)
    ensures Invariant(seed, y)
  {
    hide Orbit, Taken, Fresh, Serial, Total;
    StepFresh(x, a, y);
    LogGrows(x, a, y);
    if y.log != x.log {
      var l := ThreadOf(x, a.t);
      Appended(x.log, Return(a.t, l.call, l.was), seed);
      OrbitTwice(seed, Total(x.log), Taken(l.call, l.was));
    }
  }

  lemma Appended(rs: seq<Return>, r: Return, seed: Word)
    ensures Total(rs + [r]) == Total(rs) + Taken(r.call, r.was)
    ensures Serial(seed, rs + [r]) <==> Serial(seed, rs) && r.was == Orbit(seed, Total(rs))
  {
    hide Orbit, Taken;
    assert (rs + [r])[..|rs + [r]| - 1] == rs;
  }

  lemma StepFresh(x: System, a: Action, y: System)
    requires Fresh(x) && Moves(x, a, y)
    ensures Fresh(y)
  {
    hide Orbit, Taken;
  }

  /** Returns are only ever added at the end, so calls that do not overlap are linearized in their real order. */
  lemma LogGrows(x: System, a: Action, y: System)
    requires Moves(x, a, y)
    ensures x.log <= y.log && (y.log == x.log ==> y.cell == x.cell)
    ensures y.log != x.log ==>
      && var l := ThreadOf(x, a.t);
      && a.Swap? && l.Loaded? && l.was == x.cell
      && y.log == x.log + [Return(a.t, l.call, l.was)] && y.cell == Orbit(l.was, Taken(l.call, l.was))
  {
    hide Orbit, Taken;
  }

  /** Under every interleaving the shared state has walked one orbit from the seed, and the calls that returned did so
      as if made one after another. */
  lemma {:induction false} Linearizes(seed: Word, acts: seq<Action>, y: System)
    requires Runs(seed, acts, y)
    ensures Invariant(seed, y)
    decreases |acts|
  {
    hide Invariant, Moves;
    if acts == [] {
      StartKeeps(seed);
    } else {
      var x :| Moves(x, acts[|acts| - 1], y) && Runs(seed, acts[..|acts| - 1], x);
      Linearizes(seed, acts[..|acts| - 1], x);
      StepKeeps(seed, x, acts[|acts| - 1], y);
    }
  }

  lemma StartKeeps(seed: Word)
    ensures Invariant(seed, System(seed, map[], []))
  {
  }

  /** A swap that fails without being spurious lost to a call that returned after the load. */
  lemma FailedSwap(seed: Word, acts: seq<Action>, y: System, t: nat)
    requires Runs(seed, acts, y) && ThreadOf(y, t).Loaded?
    requires Step(y, Swap(t, false)).log == y.log
    ensures ThreadOf(y, t).seen < |y.log|
  {
    Linearizes(seed, acts, y);
  }

  // ---------- who gets which draw ----------

  /** The draws of return `i` are numbers First(rs, i) up to First(rs, i + 1) of the orbit. */
  ghost function First(rs: seq<Return>, i: nat): nat
    requires i <= |rs|
  {
    Total(rs[..i])
  }

  lemma {:induction false} SerialAt(seed: Word, rs: seq<Return>, i: nat)
    requires Serial(seed, rs) && i < |rs|
    ensures rs[i].was == Orbit(seed, First(rs, i)) && First(rs, i + 1) == First(rs, i) + Taken(rs[i].call, rs[i].was)
    decreases |rs|
  {
    hide Orbit, Taken;
    var r := rs[..|rs| - 1];
    if i == |r| {
      assert rs[..i + 1] == rs;
    } else {
      SerialAt(seed, r, i);
      assert r[..i] == rs[..i] && r[..i + 1] == rs[..i + 1];
    }
  }

  lemma {:induction false} FirstGrows(rs: seq<Return>, i: nat, j: nat)
    requires i <= j <= |rs|
    ensures First(rs, i) <= First(rs, j)
    decreases j
  {
    hide Taken;
    if i < j {
      FirstGrows(rs, i, j - 1);
      assert rs[..j][..j - 1] == rs[..j - 1];
    }
  }

  lemma {:induction false} Owner(rs: seq<Return>, n: nat, p: nat) returns (i: nat)
    requires n <= |rs| && p < First(rs, n)
    ensures i < n && First(rs, i) <= p < First(rs, i + 1)
    decreases n
  {
    hide Taken;
    if p < First(rs, n - 1) {
      i := Owner(rs, n - 1, p);
    } else {
      i := n - 1;
    }
  }

  /** Every draw the shared state has moved past went to exactly one call. */
  lemma EachDrawOnce(rs: seq<Return>, p: nat)
    requires p < Total(rs)
    ensures exists i {:trigger First(rs, i)} :: 0 <= i < |rs| && First(rs, i) <= p < First(rs, i + 1)
    ensures forall i, j :: 0 <= i < j < |rs| && First(rs, i) <= p < First(rs, i + 1) ==> p < First(rs, j)
  {
    hide Total;
    assert rs[..|rs|] == rs;
    var i := Owner(rs, |rs|, p);
    forall i, j | 0 <= i < j < |rs| && First(rs, i) <= p < First(rs, i + 1)
      ensures p < First(rs, j)
    {
      FirstGrows(rs, i + 1, j);
    }
  }

  /** A fill of n bytes uses up ceil(n / 4) consecutive states of the shared orbit and returns their bytes. */
  lemma FillTakes(seed: Word, acts: seq<Action>, y: System, i: nat)
    requires Runs(seed, acts, y) && i < |y.log| && y.log[i].call.Fill?
    ensures var c, k, b := y.log[i].call, First(y.log, i), Answer(y.log[i].call, y.log[i].was);
            && First(y.log, i + 1) == k + (c.size + 3) / 4 && |b| == c.size
            && forall j :: 0 <= j < c.size ==> b[j] == ByteOf(FromState(Orbit(seed, k + j / 4)), j % 4)
  {
    hide Orbit, FromState, ByteOf, First;
    Linearizes(seed, acts, y);
    SerialAt(seed, y.log, i);
    var c, k := y.log[i].call, First(y.log, i);
    forall j | 0 <= j < c.size
      ensures Answer(c, y.log[i].was)[j] == ByteOf(FromState(Orbit(seed, k + j / 4)), j % 4)
    {
      OrbitTwice(seed, k, j / 4);
    }
  }

  /** A 32-bit draw returns the output of exactly one state of the shared orbit. */
  lemma Uint32Takes(seed: Word, acts: seq<Action>, y: System, i: nat)
    requires Runs(seed, acts, y) && i < |y.log| && y.log[i].call.Uint32?
    ensures var k := First(y.log, i);
            First(y.log, i + 1) == k + 1 && Answer(Uint32, y.log[i].was) == [FromState(Orbit(seed, k))]
  {
    hide Orbit, FromState, First;
    Linearizes(seed, acts, y);
    SerialAt(seed, y.log, i);
  }

  /** A bounded draw takes the states the sequential rejection loop takes, from where the shared orbit then was. */
  lemma AtMostTakes(seed: Word, acts: seq<Action>, y: System, i: nat)
    requires Runs(seed, acts, y) && i < |y.log| && y.log[i].call.AtMost? && y.log[i].call.max >= 1
    ensures var c, k := y.log[i].call, First(y.log, i);
            exists n: nat, v: Word :: Yields(Orbit(seed, k), c.salt, c.max, n, v)
              && First(y.log, i + 1) == k + n && Answer(c, y.log[i].was) == [v]
  {
    hide Orbit, FromState, First, Yields;
    Linearizes(seed, acts, y);
    SerialAt(seed, y.log, i);
    var c, s := y.log[i].call, y.log[i].was;
    var v: Word := Answer(c, s)[0];
    assert Answer(c, s) == [v];
    AtMostAnswers(s, c.salt, c.max, Taken(c, s), v);
  }

  // ---------- each thread's own order ----------

  /** The calls `t` has begun, in order. */
  ghost function Begun(acts: seq<Action>, t: nat): seq<Call> {
    if acts == [] then []
    else var a, r := acts[|acts| - 1], Begun(acts[..|acts| - 1], t);
         if a.Begin? && a.t == t then r + [a.call] else r
  }

  /** The calls of `t` among those that returned, in the order of the linearization. */
  ghost function Done(rs: seq<Return>, t: nat): seq<Call> {
    if rs == [] then []
    else var e, r := rs[|rs| - 1], Done(rs[..|rs| - 1], t);
         if e.t == t then r + [e.call] else r
  }

  ghost function Pending(y: System, t: nat): seq<Call> {
    if ThreadOf(y, t).Idle? then [] else [ThreadOf(y, t).call]
  }

  /** No call is lost or answered twice: each thread's calls return once each, in the order it began them. */
  lemma {:induction false} CallsReturnOnce(seed: Word, acts: seq<Action>, y: System, t: nat)
    requires Runs(seed, acts, y)
    ensures Begun(acts, t) == Done(y.log, t) + Pending(y, t)
    decreases |acts|
  {
    hide Moves, Done;
    if acts == [] {
      NothingDone(t);
    } else {
      var r, a := acts[..|acts| - 1], acts[|acts| - 1];
      var x :| Moves(x, a, y) && Runs(seed, r, x);
      CallsReturnOnce(seed, r, x, t);
      MoveCalls(x, a, y, t);
    }
  }

  lemma NothingDone(t: nat)
    ensures Done([], t) == []
  {
  }

  lemma MoveCalls(x: System, a: Action, y: System, t: nat)
    requires Moves(x, a, y)
    ensures Done(y.log, t) + Pending(y, t) == Done(x.log, t) + Pending(x, t) + if a.Begin?
      && a.t == t then [a.call] else []
  {
    hide Taken, Orbit;
    if y.log != x.log {
      assert y.log[..|y.log| - 1] == x.log;
    }
  }
}
