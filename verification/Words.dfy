/** Unsigned arithmetic of the source: 32-bit words, powers of two, masks and shifts. */
module Words {

  const TWO32: nat := 0x1_0000_0000

  type Word = x: int | 0 <= x < 0x1_0000_0000

  type Octet = x: int | 0 <= x < 256

  function Pow2(k: nat): (r: nat)
    ensures r >= 1
  {
    if k == 0 then 1 else 2 * Pow2(k - 1)
  }

  /** C's `x & y` on naturals, bit by bit. */
  function And(x: nat, y: nat): nat
    decreases x
  {
    if x == 0 || y == 0 then 0 else (x % 2) * (y % 2) + 2 * And(x / 2, y / 2)
  }

  /** C's `x >> k` on naturals. */
  function Shr(x: nat, k: nat): nat
  {
    if k == 0 then x else Shr(x / 2, k - 1)
  }

  /** The low `k` bits of `x`: the bucket number of a hash value in a table of 2^k buckets. */
  function LowBits(x: nat, k: nat): (r: nat)
    ensures r < Pow2(k)
  {
    if k == 0 then 0 else x % 2 + 2 * LowBits(x / 2, k - 1)
  }

  /** Masking with 2^k - 1 keeps the low k bits. */
  lemma {:induction false} AndMask(x: nat, k: nat)
    ensures And(x, Pow2(k) - 1) == LowBits(x, k)
    decreases k
  {
    if k > 0 {
      AndMask(x / 2, k - 1);
      if x == 0 { LowBitsZero(k); }
    }
  }

  lemma {:induction false} LowBitsZero(k: nat)
    ensures LowBits(0, k) == 0
  {
    if k > 0 { LowBitsZero(k - 1); }
  }

  /** Quotient and remainder by a power of two are the shift and the mask. */
  lemma {:induction false} ShiftAndMask(x: nat, k: nat)
    ensures x == Shr(x, k) * Pow2(k) + LowBits(x, k)
    decreases k
  {
    if k > 0 {
      ShiftAndMask(x / 2, k - 1);
      Halves(x, Shr(x / 2, k - 1), Pow2(k - 1), LowBits(x / 2, k - 1));
    }
  }

  lemma Halves(x: nat, q: nat, p: nat, r: nat)
    requires x / 2 == q * p + r
    ensures x == q * (2 * p) + (x % 2 + 2 * r)
  {
  }

  /** Doubling the table keeps a bucket number or moves it up by the old size. */
  lemma {:induction false} LowBitsDouble(x: nat, k: nat)
    ensures LowBits(x, k + 1) == LowBits(x, k) || LowBits(x, k + 1) == LowBits(x, k) + Pow2(k)
  {
    if k > 0 { LowBitsDouble(x / 2, k - 1); }
    else { assert LowBits(x / 2, 0) == 0; }
  }

  /** C's `x ^ y` on naturals, bit by bit. */
  function Xor(x: nat, y: nat): nat
    decreases x + y
  {
    if x == 0 then y else if y == 0 then x else (x + y) % 2 + 2 * Xor(x / 2, y / 2)
  }

  /** One bit of an exclusive or, also where one side has run out. */
  lemma XorStep(x: nat, y: nat)
    ensures Xor(x, y) == (x + y) % 2 + 2 * Xor(x / 2, y / 2)
  {
  }

  lemma XorHalves(x: nat, y: nat)
    ensures Xor(x, y) / 2 == Xor(x / 2, y / 2) && Xor(x, y) % 2 == (x + y) % 2
  {
    XorStep(x, y);
  }

  lemma {:induction false} XorCancels(x: nat, w: nat)
    ensures Xor(Xor(x, w), w) == x
    decreases x + w
  {
    hide Xor;
    var r := Xor(x, w);
    XorHalves(x, w);
    XorHalves(r, w);
    XorStep(r, w);
    if x + w > 0 {
      XorCancels(x / 2, w / 2);
    } else {
      XorZero();
    }
  }

  lemma XorZero()
    ensures Xor(0, 0) == 0
  {
  }

  lemma {:induction false} XorBounded(x: nat, y: nat, k: nat)
    requires x < Pow2(k) && y < Pow2(k)
    ensures Xor(x, y) < Pow2(k)
    decreases k
  {
    if k > 0 {
      XorStep(x, y);
      XorBounded(x / 2, y / 2, k - 1);
    }
  }

  lemma {:induction false} Pow2Add(j: nat, k: nat)
    ensures Pow2(j + k) == Pow2(j) * Pow2(k)
  {
    if j > 0 { Pow2Add(j - 1, k); }
  }

  lemma Pow2Of32()
    ensures Pow2(32) == TWO32
  {
    assert Pow2(4) == 16 && Pow2(8) == 256;
    Pow2Add(8, 8);
    Pow2Add(16, 16);
  }

  /** The 32-bit exclusive or. */
  function Xor32(x: Word, y: Word): Word {
    Pow2Of32();
    XorBounded(x, y, 32);
    Xor(x, y)
  }

  /** C's `x << k` on 32-bit words. */
  function Shl32(x: Word, k: nat): Word { x * Pow2(k) % TWO32 }

  lemma {:induction false} ShrAtMost(x: nat, k: nat)
    ensures Shr(x, k) <= x
  {
    if k > 0 { ShrAtMost(x / 2, k - 1); }
  }

  /** C's `x >> k` on 32-bit words. */
  function Shr32(x: Word, k: nat): Word {
    ShrAtMost(x, k);
    Shr(x, k)
  }

  /** Remainder by a power of two. */
  lemma LowBitsIsMod(x: nat, k: nat)
    ensures LowBits(x, k) == x % Pow2(k)
  {
    ShiftAndMask(x, k);
    ModIs(Pow2(k), Shr(x, k), LowBits(x, k));
  }

  lemma ModIs(m: nat, q: int, r: nat)
    requires r < m
    ensures (q * m + r) % m == r
  {
    var d, e := (q * m + r) / m, (q * m + r) % m;
    Factored(q, d, m);
    NoMultiple(q - d, m);
  }

  lemma Factored(q: int, d: int, m: int)
    ensures (q - d) * m == q * m - d * m
  {
  }

  lemma NoMultiple(k: int, m: int)
    requires m >= 0
    ensures -m < k * m < m ==> k == 0
  {
    if k > 0 { MulFacts(k - 1, m); }
    if k < 0 { MulFacts(-k - 1, m); }
  }

  lemma MulFacts(k: int, m: int)
    requires k >= 0
    ensures (m >= 0 ==> k * m >= 0) && (k + 1) * m == k * m + m && (-k - 1) * m == -(k * m) - m
  {
  }

  lemma {:induction false} ShrTwice(x: nat, j: nat, k: nat)
    ensures Shr(Shr(x, j), k) == Shr(x, j + k)
    decreases j
  {
    if j > 0 { ShrTwice(x / 2, j - 1, k); }
  }

  lemma ShrHalves(x: nat, k: nat)
    ensures Shr(x, k) / 2 == Shr(x / 2, k) && (k >= 1 ==> Shr(x, k) == Shr(x / 2, k - 1))
  {
    ShrTwice(x, k, 1);
    ShrTwice(x, 1, k);
    assert Shr(Shr(x, k), 1) == Shr(x, k) / 2 && Shr(x, 1) == x / 2;
  }

  lemma {:induction false} ShrZero(x: nat, k: nat)
    requires x < Pow2(k)
    ensures Shr(x, k) == 0
    decreases k
  {
    if k > 0 { ShrZero(x / 2, k - 1); }
  }

  lemma {:induction false} Pow2Grows(j: nat, k: nat)
    requires j <= k
    ensures Pow2(j) <= Pow2(k)
  {
    if j < k { Pow2Grows(j, k - 1); }
  }

  /** A shift takes the exclusive or apart. */
  lemma {:induction false} ShrXor(x: nat, y: nat, k: nat)
    ensures Shr(Xor(x, y), k) == Xor(Shr(x, k), Shr(y, k))
    decreases k
  {
    hide Xor;
    if k > 0 {
      XorHalves(x, y);
      ShrXor(x / 2, y / 2, k - 1);
    }
  }

  /** A shift right is a quotient. */
  lemma ShrIsDiv(x: nat, k: nat)
    ensures Shr(x, k) == x / Pow2(k)
  {
    hide Shr, Pow2;
    ShiftAndMask(x, k);
    DivIs(Pow2(k), Shr(x, k), LowBits(x, k));
  }

  lemma DivIs(m: nat, q: nat, r: nat)
    requires r < m
    ensures (q * m + r) / m == q
  {
    var d := (q * m + r) / m;
    ModIs(m, q, r);
    assert q * m + r == d * m + r;
    Factored(q, d, m);
    NoMultiple(q - d, m);
  }

  // ---------- exclusive or, digit by digit ----------

  /** Bit `i` of a number. */
  function BitOf(x: nat, i: nat): nat { x / Pow2(i) % 2 }

  /** A bit of an exclusive or is set exactly when the two bits differ. */
  lemma {:induction false} XorBit(x: nat, y: nat, i: nat)
    ensures BitOf(Xor(x, y), i) == if BitOf(x, i) != BitOf(y, i) then 1 else 0
  {
    hide Xor, Shr, Pow2;
    ShrIsDiv(x, i);
    ShrIsDiv(y, i);
    ShrIsDiv(Xor(x, y), i);
    ShrXor(x, y, i);
    XorHalves(Shr(x, i), Shr(y, i));
    OneBit(Shr(x, i), Shr(y, i));
  }

  lemma OneBit(a: nat, b: nat)
    ensures (a + b) % 2 == if a % 2 != b % 2 then 1 else 0
  {
  }

  /** The exclusive or of the last two bits. */
  function XorPair(x: nat, y: nat): nat { (x + y) % 2 + 2 * ((x / 2 + y / 2) % 2) }

  /** The exclusive or of the last hexadecimal digits. */
  function XorDigit(x: nat, y: nat): nat { XorPair(x, y) + 4 * XorPair(x / 4, y / 4) }

  lemma XorLastDigit(x: nat, y: nat)
    ensures Xor(x, y) == XorDigit(x, y) + 16 * Xor(x / 16, y / 16)
  {
    hide Xor, XorPair;
    XorTwo(x, y);
    XorTwo(x / 4, y / 4);
    assert x / 4 / 4 == x / 16 && y / 4 / 4 == y / 16;
  }

  lemma XorTwo(x: nat, y: nat)
    ensures Xor(x, y) == XorPair(x, y) + 4 * Xor(x / 4, y / 4)
  {
    hide Xor, XorPair;
    var a, b := x / 2, y / 2;
    XorTwice(x, y, a, b, a / 2, b / 2);
    PairIs(x, y, a, b);
    Quarter(x);
    Quarter(y);
  }

  lemma PairIs(x: nat, y: nat, a: nat, b: nat)
    requires a == x / 2 && b == y / 2
    ensures XorPair(x, y) == (x + y) % 2 + 2 * ((a + b) % 2)
  {
  }

  lemma Quarter(x: nat)
    ensures x / 2 / 2 == x / 4
  {
  }

  lemma XorTwice(x: nat, y: nat, a: nat, b: nat, c: nat, d: nat)
    requires a == x / 2 && b == y / 2 && c == a / 2 && d == b / 2
    ensures Xor(x, y) == (x + y) % 2 + 2 * ((a + b) % 2) + 4 * Xor(c, d)
  {
    hide Xor;
    XorStep(x, y);
    XorStep(a, b);
  }

  /** The exclusive or of two pairs of bits, and of two hexadecimal digits, on the bits themselves. */
  function PairXor(a: nat, b: nat): nat
    requires a < 4 && b < 4
  {
    ((a as bv2) ^ (b as bv2)) as nat
  }

  function HexXor(a: nat, b: nat): nat
    requires a < 16 && b < 16
  {
    ((a as bv4) ^ (b as bv4)) as nat
  }

  lemma PairBits(a: nat, b: nat)
    requires a < 4 && b < 4
    ensures XorPair(a, b) == PairXor(a, b)
  {
    if a == 0 {} else if a == 1 {} else if a == 2 {} else {}
  }

  lemma HexOfPairs(a: nat, r: nat, s: nat)
    requires a < 16 && r < 4 && s < 4
    ensures HexXor(a, 4 * r + s) == 4 * PairXor(a / 4, r) + PairXor(a % 4, s)
  {
    if r == 0 {} else if r == 1 {} else if r == 2 {} else {}
  }

  /** Bit by bit on numbers is bit by bit on digits. */
  lemma HexBits(a: nat, b: nat)
    requires a < 16 && b < 16
    ensures XorDigit(a, b) == HexXor(a, b)
  {
    hide XorPair, PairXor, HexXor;
    var p, q, r, s := a / 4, a % 4, b / 4, b % 4;
    assert a == 4 * p + q && b == 4 * r + s;
    PairBits(p, r);
    PairBits(q, s);
    HexOfPairs(a, r, s);
    PairOnly(p, r, q, s);
  }

  type Digit = x: nat | x < 16

  /** A word by its hexadecimal digits, the most significant first. */
  function FromHex(a: Digit, b: Digit, c: Digit, d: Digit, e: Digit, f: Digit, g: Digit, h: Digit): Word {
    16 * (16 * (16 * (16 * (16 * (16 * (16 * a + b) + c) + d) + e) + f) + g) + h
  }

  /** The exclusive or of two words, digit by digit. */
  lemma XorHex(a: Digit, b: Digit, c: Digit, d: Digit, e: Digit, f: Digit, g: Digit, h: Digit,
               i: Digit, j: Digit, k: Digit, l: Digit, m: Digit, n: Digit, o: Digit, p: Digit)
    ensures Xor32(FromHex(a, b, c, d, e, f, g, h), FromHex(i, j, k, l, m, n, o, p))
         == 16 * (16 * (16 * (16 * (16 * (16 * (16 * HexXor(a, i) + HexXor(b, j)) + HexXor(c, k)) + HexXor(d, l))
            + HexXor(e, m)) + HexXor(f, n)) + HexXor(g, o)) + HexXor(h, p)
  {
    hide Xor, HexXor;
    var a2, i2 := 16 * a + b, 16 * i + j;
    var a3, i3 := 16 * a2 + c, 16 * i2 + k;
    var a4, i4 := 16 * a3 + d, 16 * i3 + l;
    var a5, i5 := 16 * a4 + e, 16 * i4 + m;
    var a6, i6 := 16 * a5 + f, 16 * i5 + n;
    var a7, i7 := 16 * a6 + g, 16 * i6 + o;
    XorNext(a7, i7, h, p);
    XorNext(a6, i6, g, o);
    XorNext(a5, i5, f, n);
    XorNext(a4, i4, e, m);
    XorNext(a3, i3, d, l);
    XorNext(a2, i2, c, k);
    XorNext(a, i, b, j);
    XorNext(0, 0, a, i);
    XorZero();
  }

  lemma XorNext(p: nat, q: nat, a: Digit, b: Digit)
    ensures Xor(16 * p + a, 16 * q + b) == HexXor(a, b) + 16 * Xor(p, q)
  {
    hide Xor, XorDigit, HexXor;
    var x, y := 16 * p + a, 16 * q + b;
    XorLastDigit(x, y);
    assert x / 16 == p && y / 16 == q;
    DigitOnly(p, q, a, b);
    HexBits(a, b);
  }

  lemma DigitOnly(p: nat, q: nat, a: nat, b: nat)
    requires a < 16 && b < 16
    ensures XorDigit(16 * p + a, 16 * q + b) == XorDigit(a, b)
  {
    hide XorPair;
    var x, y := 16 * p + a, 16 * q + b;
    PairOnly(4 * p + a / 4, 4 * q + b / 4, a % 4, b % 4);
    PairOnly(a / 4, b / 4, a % 4, b % 4);
    PairOnly(p, q, a / 4, b / 4);
    assert a == 4 * (a / 4) + a % 4 && b == 4 * (b / 4) + b % 4;
    assert x / 4 == 4 * p + a / 4 && y / 4 == 4 * q + b / 4;
  }

  lemma PairOnly(p: nat, q: nat, a: nat, b: nat)
    requires a < 4 && b < 4
    ensures XorPair(4 * p + a, 4 * q + b) == XorPair(a, b)
  {
    hide XorPair;
    assert (4 * p + a) / 2 == 2 * p + a / 2 && (4 * q + b) / 2 == 2 * q + b / 2;
    EvenOff(2 * p + 2 * q, a + b);
    EvenOff(p + q, a / 2 + b / 2);
    PairIs(4 * p + a, 4 * q + b, 2 * p + a / 2, 2 * q + b / 2);
    PairIs(a, b, a / 2, b / 2);
  }

  lemma EvenOff(k: nat, r: nat)
    ensures (2 * k + r) % 2 == r % 2
  {
  }

  /** Some powers of two. */
  lemma Powers()
    ensures Pow2(3) == 8 && Pow2(5) == 32 && Pow2(8) == 256 && Pow2(10) == 1024 && Pow2(12) == 4096 && Pow2(13) == 8192
    ensures Pow2(15) == 32768 && Pow2(16) == 65536 && Pow2(17) == 131072 && Pow2(22) == 4194304 && Pow2(28) == 268435456
  {
    hide Pow2;
    SomePowers();
    Pow2Add(8, 2);
    Pow2Add(8, 4);
    Pow2Add(8, 5);
    Pow2Add(12, 3);
    Pow2Add(8, 8);
    Pow2Add(12, 5);
    Pow2Add(12, 10);
    Pow2Add(12, 16);
  }

  lemma SomePowers()
    ensures Pow2(2) == 4 && Pow2(3) == 8 && Pow2(4) == 16 && Pow2(5) == 32 && Pow2(8) == 256
  {
    assert Pow2(8) == 256;
  }
}
