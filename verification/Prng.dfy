/** The 32-bit generator: its state step, its output function, and the draws made from a state. */
module Prng {
  import opened Words

  const MULTIPLIER: nat := 747796405
  const INCREMENT: nat := 1729
  const FACTOR: nat := 277803737
  const FACTOR_INVERSE: nat := 2897767785

  function NextState(s: Word): Word { (s * MULTIPLIER + INCREMENT) % TWO32 }

  function XorShift(x: Word, k: nat): Word { Xor32(Shr32(x, k), x) }

  /** The first line of the output function, before the multiplication. */
  function Scramble(s: Word): Word { XorShift(s, Shr32(s, 28) + 4) }

  function Times(x: Word, f: nat): Word { x * f % TWO32 }

  function FromState(s: Word): Word { XorShift(Times(Scramble(s), FACTOR), 22) }

  /** The state after `n` steps. */
  function Orbit(s: Word, n: nat): Word {
    if n == 0 then s else NextState(Orbit(s, n - 1))
  }

  // ---------- the output function is a bijection ----------

  /** Undoes `x ^ (x >> k)`, from the top bit down. */
  function Unshift(r: nat, k: nat): nat
    requires k >= 1
    decreases r
  {
    if r == 0 then 0 else
    var h := Unshift(r / 2, k);
    2 * h + (r + Shr(h, k - 1)) % 2
  }

  lemma UnshiftHalves(r: nat, k: nat)
    requires k >= 1
    ensures Unshift(r, k) == 2 * Unshift(r / 2, k) + (r + Shr(Unshift(r / 2, k), k - 1)) % 2
  {
    hide Shr;
    ShrAtMost(0, k - 1);
    if r == 0 { assert Unshift(0, k) == 0; }
  }

  lemma {:induction false} UnshiftUndoes(x: nat, k: nat)
    requires k >= 1
    ensures Unshift(Xor(Shr(x, k), x), k) == x
    decreases x
  {
    hide Xor, Shr, Unshift;
    var r := Xor(Shr(x, k), x);
    ShrHalves(x, k);
    XorHalves(Shr(x, k), x);
    UnshiftHalves(r, k);
    if x == 0 {
      ShrAtMost(0, k);
      XorZero();
      UnshiftZero(k);
    } else {
      UnshiftUndoes(x / 2, k);
    }
  }

  lemma UnshiftZero(k: nat)
    requires k >= 1
    ensures Unshift(0, k) == 0
  {
  }

  lemma {:induction false} UnshiftUndone(r: nat, k: nat)
    requires k >= 1
    ensures Xor(Shr(Unshift(r, k), k), Unshift(r, k)) == r
    decreases r
  {
    hide Xor, Shr, Unshift;
    var x := Unshift(r, k);
    UnshiftHalves(r, k);
    ShrHalves(x, k);
    XorHalves(Shr(x, k), x);
    if r == 0 {
      UnshiftZero(k);
      ShrAtMost(0, k);
      XorZero();
    } else {
      UnshiftUndone(r / 2, k);
      XorStep(Shr(x, k), x);
    }
  }

  lemma {:induction false} UnshiftBounded(r: nat, k: nat, n: nat)
    requires k >= 1 && r < Pow2(n)
    ensures Unshift(r, k) < Pow2(n)
    decreases r
  {
    if r > 0 { UnshiftBounded(r / 2, k, n - 1); }
  }

  function Unshift32(r: Word, k: nat): Word
    requires k >= 1
  {
    Pow2Of32();
    UnshiftBounded(r, k, 32);
    Unshift(r, k)
  }

  /** The inverse of the output function. */
  function ToState(r: Word): Word {
    var y := Times(Unshift32(r, 22), FACTOR_INVERSE);
    Unshift32(y, Shr32(y, 28) + 4)
  }

  /** Shifting by four or more leaves the top four bits alone, so the shift amount can be read off the result. */
  lemma TopKept(x: Word, k: nat)
    requires k >= 4
    ensures Shr32(XorShift(x, k), 28) == Shr32(x, 28)
  {
    hide Xor, Shr;
    ShrXor(Shr(x, k), x, 28);
    ShrTwice(x, k, 28);
    Pow2Of32();
    Pow2Grows(32, k + 28);
    ShrZero(x, k + 28);
    XorWithZero(Shr(x, 28));
  }

  lemma XorWithZero(x: nat)
    ensures Xor(0, x) == x
  {
  }

  lemma TimesUndone(x: Word)
    ensures Times(Times(x, FACTOR), FACTOR_INVERSE) == x
    ensures Times(Times(x, FACTOR_INVERSE), FACTOR) == x
  {
    Cancel(x, FACTOR, FACTOR_INVERSE, FACTOR * FACTOR_INVERSE / TWO32);
    Cancel(x, FACTOR_INVERSE, FACTOR, FACTOR * FACTOR_INVERSE / TWO32);
  }

  lemma Cancel(x: Word, f: nat, g: nat, t: nat)
    requires f * g == t * TWO32 + 1
    ensures Times(Times(x, f), g) == x
  {
    var q, r := x * f / TWO32, x * f % TWO32;
    calc {
      r * g;
      (x * f - q * TWO32) * g;
      { DistributeSub(x * f, q * TWO32, g); }
      x * f * g - q * TWO32 * g;
      { Reassociate(x, f, g); Commute(q, TWO32, g); }
      x * (t * TWO32 + 1) - q * g * TWO32;
      { Collect(x, t, q * g); }
      (x * t - q * g) * TWO32 + x;
    }
    ModIs(TWO32, x * t - q * g, x);
  }

  lemma DistributeSub(x: int, y: int, z: int)
    ensures (x - y) * z == x * z - y * z
  {
  }

  lemma Reassociate(x: int, f: int, g: int)
    ensures x * f * g == x * (f * g)
  {
  }

  lemma Commute(x: int, f: int, g: int)
    ensures x * f * g == x * g * f
  {
  }

  lemma Collect(x: int, t: int, u: int)
    ensures x * (t * TWO32 + 1) - u * TWO32 == (x * t - u) * TWO32 + x
  {
  }

  /** munit_rand_from_state is a bijection on 32-bit words. */
  lemma OutputBijective(s: Word)
    ensures ToState(FromState(s)) == s && FromState(ToState(s)) == s
  {
    hide Times, Shr, Xor, Unshift;
    var y := Scramble(s);
    UnshiftUndoes(Times(y, FACTOR), 22);
    TimesUndone(y);
    TopKept(s, Shr32(s, 28) + 4);
    UnshiftUndoes(s, Shr32(s, 28) + 4);
    var z := Times(Unshift32(s, 22), FACTOR_INVERSE);
    UnshiftUndone(s, 22);
    TimesUndone(Unshift32(s, 22));
    UnshiftUndone(z, Shr32(z, 28) + 4);
    TopKept(Unshift32(z, Shr32(z, 28) + 4), Shr32(z, 28) + 4);
  }

  // ---------- the state step has full period ----------

  function Power(n: nat): nat { if n == 0 then 1 else MULTIPLIER * Power(n - 1) }

  /** 1 + a + ... + a^(n-1) for the multiplier a. */
  function Geometric(n: nat): nat { if n == 0 then 0 else 1 + MULTIPLIER * Geometric(n - 1) }

  lemma {:induction false} PowerMod4(n: nat)
    ensures Power(n) % 4 == 1
  {
    if n > 0 { PowerMod4(n - 1); }
  }

  lemma {:induction false} GeometricSum(m: nat, n: nat)
    ensures Geometric(m + n) == Geometric(m) + Power(m) * Geometric(n)
  {
    if m > 0 {
      GeometricSum(m - 1, n);
      Spread(MULTIPLIER, Geometric(m - 1), Power(m - 1), Geometric(n));
    }
  }

  lemma Spread(a: int, x: int, p: int, y: int)
    ensures a * (x + p * y) == a * x + (a * p) * y
  {
  }

  lemma {:induction false} GeometricParity(n: nat)
    ensures Geometric(n) % 2 == n % 2
  {
    hide Geometric;
    GeometricStep(n);
    if n > 0 {
      GeometricParity(n - 1);
      OddTimes(Geometric(n - 1));
    }
  }

  lemma GeometricStep(n: nat)
    ensures Geometric(n) == if n == 0 then 0 else 1 + MULTIPLIER * Geometric(n - 1)
  {
  }

  lemma OddTimes(g: nat)
    ensures (1 + MULTIPLIER * g) % 2 == (1 + g) % 2
  {
    assert MULTIPLIER * g == g + 2 * (373898202 * g);
  }

  /** An odd factor does not change which powers of two divide a number. */
  lemma {:induction false} OddFactor(x: nat, q: nat, k: nat)
    ensures LowBits(x * (2 * q + 1), k) == 0 <==> LowBits(x, k) == 0
    decreases k
  {
    hide LowBits;
    LowBitsStep(x * (2 * q + 1), k);
    LowBitsStep(x, k);
    if k > 0 {
      Pull(x, q);
      var y := x / 2;
      if x % 2 == 0 {
        Pull(y, q);
        Twice(y, 2 * q + 1);
        assert (x * (2 * q + 1)) / 2 == y * (2 * q + 1);
        OddFactor(y, q, k - 1);
      }
    }
  }

  lemma LowBitsStep(x: nat, k: nat)
    ensures LowBits(x, k) == 0 <==> k == 0 || (x % 2 == 0 && LowBits(x / 2, k - 1) == 0)
  {
  }

  lemma Pull(x: nat, q: nat)
    ensures x * (2 * q + 1) == 2 * (x * q) + x
  {
  }

  lemma Twice(y: nat, z: nat)
    ensures (2 * y) * z == 2 * (y * z)
  {
  }

  /** 2^k divides the geometric sum of n terms exactly when it divides n. */
  lemma {:induction false} GeometricDivides(n: nat, k: nat)
    ensures LowBits(Geometric(n), k) == 0 <==> LowBits(n, k) == 0
    decreases k
  {
    hide Geometric, Power, LowBits;
    LowBitsStep(n, k);
    LowBitsStep(Geometric(n), k);
    if k > 0 {
      GeometricParity(n);
      if n % 2 == 0 {
        var m, p := n / 2, Power(n / 2);
        GeometricSum(m, m);
        PowerMod4(m);
        Halve(Geometric(m), p);
        OddFactor(Geometric(m), p / 2 / 2, k - 1);
        GeometricDivides(m, k - 1);
      }
    }
  }

  lemma Halve(g: nat, p: nat)
    requires p % 4 == 1
    ensures (g + p * g) / 2 == g * (2 * (p / 2 / 2) + 1) && (g + p * g) % 2 == 0
  {
    var q := p / 4;
    assert p == 4 * q + 1 && p / 2 / 2 == q;
    assert p * g == 4 * (q * g) + g;
    assert g * (2 * q + 1) == 2 * (q * g) + g;
  }

  /** The states of the orbit, before reduction modulo 2^32, less the first. */
  lemma {:induction false} OrbitOffset(s: Word, n: nat)
    ensures Orbit(s, n) == (s + Geometric(n) * ((MULTIPLIER - 1) * s + INCREMENT)) % TWO32
  {
    hide Orbit, Geometric;
    GeometricStep(n);
    OrbitStep(s, n);
    if n > 0 {
      OrbitOffset(s, n - 1);
      var e: nat, g := (MULTIPLIER - 1) * s + INCREMENT, Geometric(n - 1);
      StepMod(s + g * e);
      Unroll(s, g, e);
    }
  }

  lemma OrbitStep(s: Word, n: nat)
    ensures Orbit(s, n) == if n == 0 then s else NextState(Orbit(s, n - 1))
  {
  }

  lemma Unroll(s: nat, g: nat, e: nat)
    requires e == (MULTIPLIER - 1) * s + INCREMENT
    ensures (s + g * e) * MULTIPLIER + INCREMENT == s + (1 + MULTIPLIER * g) * e
  {
    var p := g * e;
    assert (1 + MULTIPLIER * g) * e == e + MULTIPLIER * p;
  }

  lemma StepMod(x: nat)
    ensures (x % TWO32 * MULTIPLIER + INCREMENT) % TWO32 == (x * MULTIPLIER + INCREMENT) % TWO32
  {
    var q, r := x / TWO32, x % TWO32;
    var d, e := (r * MULTIPLIER + INCREMENT) / TWO32, (r * MULTIPLIER + INCREMENT) % TWO32;
    assert x * MULTIPLIER + INCREMENT == (q * MULTIPLIER + d) * TWO32 + e;
    ModIs(TWO32, q * MULTIPLIER + d, e);
  }

  lemma OddProduct(g: nat, e: nat)
    requires e % 2 == 1
    ensures g * e % TWO32 == 0 <==> LowBits(g, 32) == 0
  {
    hide LowBits;
    OddFactor(g, e / 2, 32);
    assert e == 2 * (e / 2) + 1;
    Pow2Of32();
    LowBitsIsMod(g * e, 32);
  }

  /** The state step has full period: the orbit comes back to a state exactly after multiples of 2^32 steps. */
  lemma FullPeriod(s: Word, n: nat)
    ensures Orbit(s, n) == s <==> n % TWO32 == 0
  {
    hide Orbit, Geometric, LowBits, Pow2;
    var e: nat := (MULTIPLIER - 1) * s + INCREMENT;
    OrbitOffset(s, n);
    GeometricDivides(n, 32);
    OddStart(s);
    OddProduct(Geometric(n), e);
    Pow2Of32();
    LowBitsIsMod(n, 32);
    BackToStart(s, Geometric(n) * e);
  }

  lemma OddStart(s: Word)
    ensures ((MULTIPLIER - 1) * s + INCREMENT) % 2 == 1
  {
    assert (MULTIPLIER - 1) * s == 2 * (373898202 * s);
  }

  lemma BackToStart(s: Word, d: nat)
    ensures (s + d) % TWO32 == s <==> d % TWO32 == 0
  {
  }

  lemma {:induction false} OrbitTwice(s: Word, i: nat, j: nat)
    ensures Orbit(Orbit(s, i), j) == Orbit(s, i + j)
  {
    if j > 0 { OrbitTwice(s, i, j - 1); }
  }

  /** So no state repeats within 2^32 steps. */
  lemma NoShortCycle(s: Word, i: nat, j: nat)
    requires i < j < i + TWO32
    ensures Orbit(s, i) != Orbit(s, j)
  {
    hide Orbit;
    OrbitTwice(s, i, j - i);
    FullPeriod(Orbit(s, i), j - i);
  }
}
