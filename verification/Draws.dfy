/** The draws made from one generator state: the rejection loop, integer ranges, and memory fills. */
module Draws {
  import opened Words
  import opened Prng

  const MAX32: Word := 0xffff_ffff

  /** The remainder by zero, for which C defines no result, is an outcome of its own. */
  datatype Outcome = Value(v: int) | DividesByZero

  /** The `i`th candidate of the rejection loop. */
  function Candidate(s: Word, salt: Word, i: nat): Word { Xor32(FromState(Orbit(s, i)), salt) }

  /** The bound below which the loop rejects; it is computed before the maximum is incremented. */
  function Floor(max: Word): Word
    requires max >= 1
  {
    (TWO32 - max) % max
  }

  ghost predicate AllRejected(s: Word, salt: Word, floor: Word, n: nat) {
    forall i :: 0 <= i < n ==> Candidate(s, salt, i) < floor
  }

  /** A call from state `s` makes `n` draws and returns `v`. */
  ghost predicate Yields(s: Word, salt: Word, max: Word, n: nat, v: Word) {
    && max >= 1 && n >= 1
    && if max == MAX32 then n == 1 && v == Candidate(s, salt, 0)
       else AllRejected(s, salt, Floor(max), n - 1) && Candidate(s, salt, n - 1) >= Floor(max)
            && v == Candidate(s, salt, n - 1) % (max + 1)
  }

  // ---------- termination of the rejection loop ----------

  lemma CandidatesDiffer(s: Word, salt: Word, i: nat, j: nat)
    requires i < j < i + TWO32
    ensures Candidate(s, salt, i) != Candidate(s, salt, j)
  {
    hide FromState, Orbit, Xor, ToState;
    NoShortCycle(s, i, j);
    var a, b := Orbit(s, i), Orbit(s, j);
    OutputBijective(a);
    OutputBijective(b);
    XorCancels(FromState(a), salt);
    XorCancels(FromState(b), salt);
  }

  ghost function FirstCandidates(s: Word, salt: Word, n: nat): set<int> {
    if n == 0 then {} else FirstCandidates(s, salt, n - 1) + {Candidate(s, salt, n - 1)}
  }

  lemma {:induction false} FirstAre(s: Word, salt: Word, n: nat, x: int)
    ensures x in FirstCandidates(s, salt, n) <==> exists i :: 0 <= i < n && Candidate(s, salt, i) == x
  {
    if n > 0 { FirstAre(s, salt, n - 1, x); }
  }

  lemma {:induction false} FirstCount(s: Word, salt: Word, n: nat)
    requires n <= TWO32
    ensures |FirstCandidates(s, salt, n)| == n
  {
    hide Candidate;
    if n > 0 {
      FirstCount(s, salt, n - 1);
      var x := Candidate(s, salt, n - 1);
      FirstAre(s, salt, n - 1, x);
      forall i | 0 <= i < n - 1 ensures Candidate(s, salt, i) != x {
        CandidatesDiffer(s, salt, i, n - 1);
      }
    }
  }

  ghost function Below(n: nat): set<int> { if n == 0 then {} else Below(n - 1) + {n - 1} }

  lemma {:induction false} BelowIs(n: nat)
    ensures |Below(n)| == n && forall x :: x in Below(n) <==> 0 <= x < n
  {
    if n > 0 { BelowIs(n - 1); }
  }

  lemma SubsetSize(a: set<int>, b: set<int>)
    requires a <= b
    ensures |a| <= |b| && (|a| == |b| ==> a == b)
  {
    var d := b - a;
    assert b == a + d && |b| == |a| + |d|;
  }

  /** At most `floor` draws in a row can be rejected, whatever the state and the salt. */
  lemma FewRejected(s: Word, salt: Word, floor: Word, n: nat)
    requires AllRejected(s, salt, floor, n)
    ensures n <= floor
  {
    hide Candidate, FirstCandidates, Below;
    var m := if n <= floor then n else floor + 1;
    FirstCount(s, salt, m);
    BelowIs(floor);
    forall x | x in FirstCandidates(s, salt, m) ensures x in Below(floor) {
      FirstAre(s, salt, m, x);
    }
    SubsetSize(FirstCandidates(s, salt, m), Below(floor));
  }

  /** Every word is a candidate of every orbit, exactly once in 2^32 steps. */
  lemma EveryWordOnce(s: Word, salt: Word, w: Word)
    ensures exists n :: 0 <= n < TWO32 && Candidate(s, salt, n) == w
    ensures forall i, j :: 0 <= i < j < TWO32 ==> !(Candidate(s, salt, i) == w && Candidate(s, salt, j) == w)
  {
    hide Candidate, FirstCandidates, Below;
    FirstCount(s, salt, TWO32);
    BelowIs(TWO32);
    forall x | x in FirstCandidates(s, salt, TWO32) ensures x in Below(TWO32) {
      FirstAre(s, salt, TWO32, x);
    }
    SubsetSize(FirstCandidates(s, salt, TWO32), Below(TWO32));
    FirstAre(s, salt, TWO32, w);
    forall i, j | 0 <= i < j < TWO32 ensures !(Candidate(s, salt, i) == w && Candidate(s, salt, j) == w) {
      CandidatesDiffer(s, salt, i, j);
    }
  }

  // ---------- the drawing functions ----------

  /** The state a caller hands in by pointer. */
  class Generator {
    var state: Word

    constructor (s: Word)
      ensures state == s
    {
      state := s;
    }

    /** munit_rand_state_uint32. */
    method Uint32() returns (r: Word)
      modifies this
      ensures state == Orbit(old(state), 1) && r == FromState(old(state))
    {
      var was := state;
      state := NextState(was);
      assert Orbit(was, 0) == was;
      r := FromState(was);
    }

    /** munit_rand_state_at_most; it ends within Floor(max) + 1 draws from any state. */
    method AtMost(salt: Word, max: Word) returns (r: Outcome, ghost draws: nat)
      modifies this
      ensures r == DividesByZero <==> max == 0
      ensures max == 0 ==> state == old(state)
      ensures r.Value? ==>
        && 0 <= r.v <= max && 1 <= draws <= Floor(max) + 1 && state == Orbit(old(state), draws)
        && Yields(old(state), salt, max, draws, r.v)
      ensures r.Value? && max == 0xffff_ffff ==> draws == 1 && r.v == Xor32(FromState(old(state)), salt)
      ensures r.Value? && max < 0xffff_ffff ==>
        && (forall i :: 0 <= i < draws - 1 ==> Xor32(FromState(Orbit(old(state), i)), salt) < Floor(max))
        && Xor32(FromState(Orbit(old(state), draws - 1)), salt) >= Floor(max)
        && r.v == Xor32(FromState(Orbit(old(state), draws - 1)), salt) % (max + 1)
    {
      hide Orbit, FromState, Xor32, Floor, Yields, AllRejected;
      if max == 0 {
        return DividesByZero, 0;
      }
      var floor := (TWO32 - max) % max;
      FloorIs(max);
      ghost var s := state;
      OrbitStart(s);
      draws := 1;
      if max == MAX32 {
        var y := Uint32();
        Accepted(s, salt, max, 1);
        return Value(Xor32(y, salt)), draws;
      }
      var x := Uint32();
      x := Xor32(x, salt);
      NoneRejected(s, salt, floor);
      while x < floor
        invariant draws >= 1 && state == Orbit(s, draws) && x == Candidate(s, salt, draws - 1)
        invariant AllRejected(s, salt, floor, draws - 1)
        decreases floor + 1 - draws
      {
        OneRejected(s, salt, floor, draws);
        FewRejected(s, salt, floor, draws);
        OrbitTwice(s, draws, 1);
        x := Uint32();
        x := Xor32(x, salt);
        draws := draws + 1;
      }
      FewRejected(s, salt, floor, draws - 1);
      Accepted(s, salt, max, draws);
      r := Value(x % (max + 1));
    }

    /** munit_rand_state_memory: whole words first, then the bytes left over. */
    method Memory(data: array<Octet>)
      modifies this, data
      ensures state == Orbit(old(state), (data.Length + 3) / 4)
      ensures forall i :: 0 <= i < data.Length ==> data[i] == ByteOf(FromState(Orbit(old(state), i / 4)), i % 4)
    {
      hide Orbit, FromState, ByteOf;
      var members, rest := data.Length / 4, data.Length % 4;
      var b := 0;
      ghost var s, done := state, 0;
      OrbitStart(s);
      while members > 0
        invariant b == 4 * done && 0 <= members && done + members == data.Length / 4 && state == Orbit(s, done)
        invariant forall i :: 0 <= i < b ==> data[i] == StreamByte(s, i)
      {
        members := members - 1;
        OrbitTwice(s, done, 1);
        var rv := Uint32();
        Copy(data, b, rv, 4, s);
        b := b + 4;
        done := done + 1;
      }
      if rest != 0 {
        OrbitTwice(s, done, 1);
        var rv := Uint32();
        Copy(data, b, rv, rest, s);
      }
    }
  }

  lemma NoneRejected(s: Word, salt: Word, floor: Word)
    ensures AllRejected(s, salt, floor, 0)
  {
  }

  lemma OneRejected(s: Word, salt: Word, floor: Word, n: nat)
    requires n >= 1 && AllRejected(s, salt, floor, n - 1) && Candidate(s, salt, n - 1) < floor
    ensures AllRejected(s, salt, floor, n)
  {
  }

  /** The first candidate not rejected is what the call yields. */
  lemma Accepted(s: Word, salt: Word, max: Word, n: nat)
    requires max >= 1 && n >= 1
    requires if max == MAX32 then n == 1
      else AllRejected(s, salt, Floor(max), n - 1) && Candidate(s, salt, n - 1) >= Floor(max)
    ensures Yields(s, salt, max, n,
                   if max == MAX32 then Candidate(s, salt, 0) else Candidate(s, salt, n - 1) % (max + 1))
    ensures max < MAX32 ==> forall i :: 0 <= i < n - 1 ==> Xor32(FromState(Orbit(s, i)), salt) < Floor(max)
  {
    hide FromState, Xor32, Floor;
    assert forall i: nat :: Candidate(s, salt, i) == Xor32(FromState(Orbit(s, i)), salt);
  }

  lemma OrbitStart(s: Word)
    ensures Orbit(s, 0) == s
  {
  }

  lemma FloorIs(max: Word)
    requires max >= 1
    ensures Floor(max) == (TWO32 - max) % max && Floor(max) < max
  {
  }

  /** Four-byte words needed for `n` bytes, the last one possibly in part. */
  function Words4(n: nat): nat { (n + 3) / 4 }

  /** Byte `i` of a word as it lies in memory, least significant first. */
  function ByteOf(w: Word, i: nat): Octet { Shr32(w, 8 * i) % 256 }

  /** The bytes of a word, least significant first, make up the word. */
  lemma BytesOfWord(w: Word)
    ensures w == ByteOf(w, 0) + 0x100 * ByteOf(w, 1) + 0x1_0000 * ByteOf(w, 2) + 0x100_0000 * ByteOf(w, 3)
  {
    hide Shr, Pow2;
    Powers();
    Pow2Add(8, 16);
    ShrIsDiv(w, 0);
    ShrIsDiv(w, 8);
    ShrIsDiv(w, 16);
    ShrIsDiv(w, 24);
    assert Pow2(24) == 0x100_0000 && Pow2(0) == 1 by { PowZero(); }
    FourBytes(w);
  }

  lemma PowZero()
    ensures Pow2(0) == 1
  {
  }

  lemma FourBytes(w: Word)
    ensures w == w % 256 + 0x100 * (w / 0x100 % 256)
               + 0x1_0000 * (w / 0x1_0000 % 256) + 0x100_0000 * (w / 0x100_0000 % 256)
  {
    assert w / 0x100 / 0x100 == w / 0x1_0000 && w / 0x1_0000 / 0x100 == w / 0x100_0000 && w / 0x100_0000 < 256;
  }

  /** Byte `i` of the words drawn one after another from state `s`. */
  function StreamByte(s: Word, i: nat): Octet { ByteOf(FromState(Orbit(s, i / 4)), i % 4) }

  /** memcpy of the first `n` bytes of a word. */
  method Copy(data: array<Octet>, b: nat, rv: Word, n: nat, ghost s: Word)
    requires n <= 4 && b % 4 == 0 && b + n <= data.Length && rv == FromState(Orbit(s, b / 4))
    requires forall i :: 0 <= i < b ==> data[i] == StreamByte(s, i)
    modifies data
    ensures forall i :: 0 <= i < b + n ==> data[i] == StreamByte(s, i)
  {
    hide Orbit, FromState, ByteOf;
    var k := 0;
    while k < n
      invariant 0 <= k <= n && forall i :: 0 <= i < b + k ==> data[i] == StreamByte(s, i)
    {
      data[b + k] := ByteOf(rv, k);
      assert (b + k) / 4 == b / 4 && (b + k) % 4 == k;
      k := k + 1;
    }
  }

  // ---------- integer ranges ----------

  type Int32 = x: int | -0x8000_0000 <= x <= 0x7fff_ffff

  const TWO64: nat := 0x1_0000_0000_0000_0000

  /** An int converted to a 64-bit unsigned value. */
  function ToUint64(x: Int32): nat { x % TWO64 }

  /** A 32-bit unsigned value converted to int. */
  function ToInt32(x: Word): Int32 { if x <= 0x7fff_ffff then x else x - TWO32 }

  lemma RangeIs(min: Int32, max: Int32)
    ensures min <= max ==> (ToUint64(max) - ToUint64(min)) % TWO64 == max - min
  {
    assert ToUint64(max) == if max < 0 then max + TWO64 else max;
    assert ToUint64(min) == if min < 0 then min + TWO64 else min;
  }

  lemma SumInt32(min: Int32, r: Word)
    ensures min + r <= 0x7fff_ffff ==> ToInt32((min % TWO32 + r) % TWO32) == min + r
  {
    assert min % TWO32 == if min < 0 then min + TWO32 else min;
  }

  /** munit_rand_int_range, from the state its one successful attempt loads: inside its bounds, unless they are
      equal. */
  method IntRange(g: Generator, min: Int32, max: Int32) returns (r: Outcome, ghost draws: nat)
    modifies g
    ensures r == DividesByZero <==> min == max
    ensures min < max ==> r.Value? && min <= r.v <= max && Yields(old(g.state), 0, max - min, draws, r.v - min)
    ensures min > max ==> r.Value? && max <= r.v <= min && Yields(old(g.state), 0, min - max, draws, r.v - max)
    ensures g.state == Orbit(old(g.state), draws)
    decreases if min > max then 1 else 0
  {
    hide Yields, Orbit, ToInt32, ToUint64;
    RangeIs(min, max);
    var range := (ToUint64(max) - ToUint64(min)) % TWO64;
    if min > max {
      r, draws := IntRange(g, max, min);
      return;
    }
    if range > MAX32 {
      range := MAX32;
    }
    OrbitStart(g.state);
    r, draws := g.AtMost(0, range);
    if r.Value? {
      SumInt32(min, r.v);
      r := Value(ToInt32((min % TWO32 + r.v) % TWO32));
    } else {
      draws := 0;
    }
  }

  // ---------- which values can come out ----------

  /** Some state makes a call return `v`. */
  ghost predicate Possible(salt: Word, max: Word, v: Word) {
    exists s: Word, n: nat :: Yields(s, salt, max, n, v)
  }

  ghost predicate Covers(salt: Word, max: Word) {
    forall v: Word :: v <= max ==> Possible(salt, max, v)
  }

  /** Some state makes `w` the first candidate. */
  lemma FirstDraw(salt: Word, w: Word)
    ensures exists s: Word :: Candidate(s, salt, 0) == w
  {
    hide FromState, ToState, Xor;
    var s := ToState(Xor32(w, salt));
    OutputBijective(Xor32(w, salt));
    XorCancels(w, salt);
    OrbitStart(s);
    assert Candidate(s, salt, 0) == w;
  }

  lemma DrawnAtOnce(salt: Word, max: Word, v: Word, w: Word)
    requires max >= 1 && if max == MAX32 then w == v else w >= Floor(max) && w % (max + 1) == v
    ensures Possible(salt, max, v)
  {
    hide Candidate, Floor;
    FirstDraw(salt, w);
    var s: Word :| Candidate(s, salt, 0) == w;
    assert Yields(s, salt, max, 1, v);
  }

  lemma ModSmall(x: nat, m: nat)
    requires m > 0
    ensures x < m ==> x % m == x
    ensures m <= x < 2 * m ==> x % m == x - m
  {
    if x < m { ModIs(m, 0, x); }
    else if x < 2 * m { ModIs(m, 1, x - m); }
  }

  /** With a maximum above 2^31 the words accepted are `max` in number: one value of the max + 1 is never returned. */
  lemma OneMissing(salt: Word, max: Word)
    requires 0x8000_0000 < max < MAX32
    ensures !Possible(salt, max, TWO32 - max - 1)
  {
    hide Candidate, Floor, AllRejected;
    FloorIs(max);
    ModSmall(TWO32 - max, max);
    if Possible(salt, max, TWO32 - max - 1) {
      var s: Word, n: nat :| Yields(s, salt, max, n, TWO32 - max - 1);
      ModSmall(Candidate(s, salt, n - 1), max + 1);
    }
  }

  lemma HalfCovers(salt: Word, max: Word, v: Word)
    requires 1 <= max <= 0x8000_0000 && v <= max
    ensures Possible(salt, max, v)
  {
    hide Candidate, Floor, Possible;
    FloorIs(max);
    if v >= Floor(max) {
      ModSmall(v, max + 1);
      DrawnAtOnce(salt, max, v, v);
    } else {
      ModSmall(v + max + 1, max + 1);
      DrawnAtOnce(salt, max, v, v + max + 1);
    }
  }

  /** Every value in [0, max] can come out exactly when max is at most 2^31, or all ones. */
  lemma CoversExactly(salt: Word, max: Word)
    requires max >= 1
    ensures Covers(salt, max) <==> max <= 0x8000_0000 || max == MAX32
  {
    hide Yields, Possible;
    if max == MAX32 {
      forall v: Word | v <= max ensures Possible(salt, max, v) {
        DrawnAtOnce(salt, max, v, v);
      }
    } else if max <= 0x8000_0000 {
      forall v: Word | v <= max ensures Possible(salt, max, v) {
        HalfCovers(salt, max, v);
      }
    } else {
      OneMissing(salt, max);
      var v: Word := TWO32 - max - 1;
      assert v <= max && !Possible(salt, max, v);
    }
  }
}
