/** HASH_JEN, the default hash function, on 32-bit words. */
module Jenkins {
  import opened Words

  datatype Triple = Triple(i: Word, j: Word, h: Word)

  // ---------- HASH_JEN_MIX ----------

  /** One line of the mix: take `y` and `z` off `x`, then flip the bits of `w`. */
  function Line(x: Word, y: Word, z: Word, w: Word): Word { Xor32((x - y - z) % TWO32, w) }

  function Unline(x: Word, y: Word, z: Word, w: Word): Word { (Xor32(x, w) + z + y) % TWO32 }

  lemma LineUndone(x: Word, y: Word, z: Word, w: Word)
    ensures Unline(Line(x, y, z, w), y, z, w) == x
    ensures Line(Unline(x, y, z, w), y, z, w) == x
  {
    hide Xor;
    var d := (x - y - z) % TWO32;
    XorCancels(d, w);
    XorCancels(x, w);
    Unmod(x, z + y);
    Unmod(Xor32(x, w), z + y);
  }

  lemma Unmod(x: Word, s: nat)
    ensures ((x - s) % TWO32 + s) % TWO32 == x && ((x + s) % TWO32 - s) % TWO32 == x
  {
  }

  /** Three lines of the mix, for one row of its shift amounts. */
  function Round(t: Triple, s1: nat, s2: nat, s3: nat): Triple
  {
    var a := Line(t.i, t.j, t.h, Shr32(t.h, s1));
    var b := Line(t.j, t.h, a, Shl32(a, s2));
    var c := Line(t.h, a, b, Shr32(b, s3));
    Triple(a, b, c)
  }

  function Mix(t: Triple): Triple {
    Round(Round(Round(t, 13, 8, 13), 12, 16, 5), 3, 10, 15)
  }

  /** The lines of one row undone, last first. */
  function Unround(t: Triple, s1: nat, s2: nat, s3: nat): Triple
  {
    var c := Unline(t.h, t.i, t.j, Shr32(t.j, s3));
    var b := Unline(t.j, c, t.i, Shl32(t.i, s2));
    var a := Unline(t.i, b, c, Shr32(c, s1));
    Triple(a, b, c)
  }

  function Unmix(t: Triple): Triple {
    Unround(Unround(Unround(t, 3, 10, 15), 12, 16, 5), 13, 8, 13)
  }

  lemma RoundUndone(t: Triple, s1: nat, s2: nat, s3: nat)
    ensures Unround(Round(t, s1, s2, s3), s1, s2, s3) == t
  {
    hide Line, Unline, Shl32, Shr32;
    var r := Round(t, s1, s2, s3);
    LineUndone(t.h, r.i, r.j, Shr32(r.j, s3));
    LineUndone(t.j, t.h, r.i, Shl32(r.i, s2));
    LineUndone(t.i, t.j, t.h, Shr32(t.h, s1));
  }

  lemma UnroundUndone(t: Triple, s1: nat, s2: nat, s3: nat)
    ensures Round(Unround(t, s1, s2, s3), s1, s2, s3) == t
  {
    hide Line, Unline, Shl32, Shr32;
    var r := Unround(t, s1, s2, s3);
    LineUndone(t.h, t.i, t.j, Shr32(t.j, s3));
    LineUndone(t.j, r.h, t.i, Shl32(t.i, s2));
    LineUndone(t.i, r.j, r.h, Shr32(r.h, s1));
  }

  /** HASH_JEN_MIX is a bijection on triples of words, and Unmix is its inverse. */
  lemma MixBijective(t: Triple)
    ensures Unmix(Mix(t)) == t && Mix(Unmix(t)) == t
  {
    hide Round, Unround;
    var u := Round(t, 13, 8, 13);
    var v := Round(u, 12, 16, 5);
    RoundUndone(v, 3, 10, 15);
    RoundUndone(u, 12, 16, 5);
    RoundUndone(t, 13, 8, 13);
    var p := Unround(t, 3, 10, 15);
    var q := Unround(p, 12, 16, 5);
    UnroundUndone(q, 13, 8, 13);
    UnroundUndone(p, 12, 16, 5);
    UnroundUndone(t, 3, 10, 15);
  }

  method MixLine(x: Word, y: Word, z: Word, w: Word) returns (r: Word)
    ensures r == Line(x, y, z, w)
  {
    hide Xor;
    SubTwice(x, y, z);
    r := x;
    r := (r - y) % TWO32;
    r := (r - z) % TWO32;
    r := Xor32(r, w);
  }

  lemma SubTwice(x: Word, y: Word, z: Word)
    ensures ((x - y) % TWO32 - z) % TWO32 == (x - y - z) % TWO32
  {
  }

  method JenMix(i: Word, j: Word, h: Word) returns (a: Word, b: Word, c: Word)
    ensures Triple(a, b, c) == Mix(Triple(i, j, h))
  {
    hide Line, Shl32, Shr32;
    a, b, c := i, j, h;
    a := MixLine(a, b, c, Shr32(c, 13));
    b := MixLine(b, c, a, Shl32(a, 8));
    c := MixLine(c, a, b, Shr32(b, 13));
    a := MixLine(a, b, c, Shr32(c, 12));
    b := MixLine(b, c, a, Shl32(a, 16));
    c := MixLine(c, a, b, Shr32(b, 5));
    a := MixLine(a, b, c, Shr32(c, 3));
    b := MixLine(b, c, a, Shl32(a, 10));
    c := MixLine(c, a, b, Shr32(b, 15));
  }

  // ---------- bytes and blocks ----------

  type Bytes = seq<Octet>

  /** Four bytes, least significant first. */
  function Load(b0: Octet, b1: Octet, b2: Octet, b3: Octet): Word {
    b0 + 0x100 * b1 + 0x1_0000 * b2 + 0x100_0000 * b3
  }

  function Add(x: Word, y: Word): Word { (x + y) % TWO32 }

  function Plus(t: Triple, u: Triple): Triple { Triple(Add(t.i, u.i), Add(t.j, u.j), Add(t.h, u.h)) }

  /** The twelve bytes of a block as three words. */
  function Block(k: Bytes): Triple
    requires |k| >= 12
  {
    Triple(Load(k[0], k[1], k[2], k[3]), Load(k[4], k[5], k[6], k[7]), Load(k[8], k[9], k[10], k[11]))
  }

  function Byte(k: Bytes, n: nat): Octet { if n < |k| then k[n] else 0 }

  /** Fewer than twelve last bytes, missing ones zero; the low byte of the third word is left to the key's length. */
  function Tail(k: Bytes): Triple {
    Triple(Load(Byte(k, 0), Byte(k, 1), Byte(k, 2), Byte(k, 3)),
           Load(Byte(k, 4), Byte(k, 5), Byte(k, 6), Byte(k, 7)),
           Load(0, Byte(k, 8), Byte(k, 9), Byte(k, 10)))
  }

  const START := Triple(0x9e3779b9, 0x9e3779b9, 0xfeedbeef)

  /** The three words after absorbing key `k`, when `len` is added before the tail. */
  function Absorb(t: Triple, k: Bytes, len: Word): Triple
    decreases |k|
  {
    if |k| >= 12 then Absorb(Mix(Plus(t, Block(k))), k[12..], len)
    else Mix(Plus(Plus(t, Triple(0, 0, len)), Tail(k)))
  }

  /** The key's length as the unsigned int the macro works with. */
  function Len(k: Bytes): nat { |k| % TWO32 }

  /** The final three words for a whole key; the hash value is the third. */
  function Final(k: Bytes): Triple { Absorb(START, k[..Len(k)], Len(k)) }

  function Hash(k: Bytes): Word { Final(k).h }

  // ---------- HASH_JEN ----------

  method Jen(key: Bytes) returns (hashv: Word)
    ensures hashv == Hash(key)
  {
    hide Mix, Load, Tail, Add;
    hashv := 0xfeedbeef;
    var i: Word, j: Word := 0x9e3779b9, 0x9e3779b9;
    var n, at: nat := Len(key), 0;
    assert key[0..Len(key)] == key[..Len(key)];
    while n >= 12
      invariant at + n == Len(key) <= |key|
      invariant Absorb(Triple(i, j, hashv), key[at..Len(key)], Len(key)) == Final(key)
    {
      ghost var was, rest := Triple(i, j, hashv), key[at..Len(key)];
      i := Add(i, Load(key[at], key[at + 1], key[at + 2], key[at + 3]));
      j := Add(j, Load(key[at + 4], key[at + 5], key[at + 6], key[at + 7]));
      hashv := Add(hashv, Load(key[at + 8], key[at + 9], key[at + 10], key[at + 11]));
      i, j, hashv := JenMix(i, j, hashv);
      assert Triple(i, j, hashv) == Mix(Plus(was, Block(rest)));
      assert rest[12..] == key[at + 12..Len(key)];
      at, n := at + 12, n - 12;
    }
    AddNothing(i);
    AddNothing(j);
    hashv := Add(hashv, Len(key));
    i, j, hashv := AddTail(i, j, hashv, key[at..Len(key)]);
    i, j, hashv := JenMix(i, j, hashv);
  }

  /** The switch over the number of bytes left, every case falling through to the next. */
  method AddTail(i0: Word, j0: Word, h0: Word, k: Bytes) returns (i: Word, j: Word, h: Word)
    requires |k| < 12
    ensures Triple(i, j, h) == Plus(Triple(i0, j0, h0), Tail(k))
  {
    hide Load, Add;
    i, j, h := i0, j0, h0;
    var n := |k|;
    h := AddCases(h, n >= 11, Byte(k, 10), n >= 10, Byte(k, 9), n >= 9, Byte(k, 8), false, 0);
    j := AddCases(j, n >= 8, Byte(k, 7), n >= 7, Byte(k, 6), n >= 6, Byte(k, 5), n >= 5, Byte(k, 4));
    i := AddCases(i, n >= 4, Byte(k, 3), n >= 3, Byte(k, 2), n >= 2, Byte(k, 1), n >= 1, Byte(k, 0));
  }

  /** Four successive cases of the switch, for the bytes of one word. */
  method AddCases(x0: Word, c3: bool, b3: Octet, c2: bool, b2: Octet, c1: bool, b1: Octet, c0: bool,
      b0: Octet) returns (x: Word)
    requires (c3 || b3 == 0) && (c2 || b2 == 0) && (c1 || b1 == 0) && (c0 || b0 == 0)
    ensures x == Add(x0, Load(b0, b1, b2, b3))
  {
    hide Add;
    AddNothing(x0);
    AddTwice(x0, Load(0, 0, 0, b3), Load(0, 0, b2, 0));
    AddTwice(x0, Load(0, 0, b2, b3), Load(0, b1, 0, 0));
    AddTwice(x0, Load(0, b1, b2, b3), Load(b0, 0, 0, 0));
    x := AddCase(x0, c3, Load(0, 0, 0, b3));
    x := AddCase(x, c2, Load(0, 0, b2, 0));
    x := AddCase(x, c1, Load(0, b1, 0, 0));
    x := AddCase(x, c0, Load(b0, 0, 0, 0));
  }

  method AddCase(x0: Word, taken: bool, w: Word) returns (x: Word)
    requires taken || w == 0
    ensures x == Add(x0, w)
  {
    x := x0;
    if taken {
      x := Add(x, w);
    }
  }

  lemma AddNothing(x: Word)
    ensures Add(x, 0) == x
  {
  }

  lemma AddTwice(x: Word, y: Word, z: Word)
    requires y + z < TWO32
    ensures Add(Add(x, y), z) == Add(x, y + z)
  {
  }

  // ---------- what changes when the key changes ----------

  lemma LoadInjective(a0: Octet, a1: Octet, a2: Octet, a3: Octet, b0: Octet, b1: Octet, b2: Octet, b3: Octet)
    requires Load(a0, a1, a2, a3) == Load(b0, b1, b2, b3)
    ensures a0 == b0 && a1 == b1 && a2 == b2 && a3 == b3
  {
    LowByte(a0, a1 + 0x100 * (a2 + 0x100 * a3), b0, b1 + 0x100 * (b2 + 0x100 * b3));
    LowByte(a1, a2 + 0x100 * a3, b1, b2 + 0x100 * b3);
    LowByte(a2, a3, b2, b3);
  }

  lemma LowByte(a: Octet, q: nat, b: Octet, r: nat)
    requires a + 0x100 * q == b + 0x100 * r
    ensures a == b && q == r
  {
  }

  /** For a fixed key the final words are a one-to-one function of the words before it. */
  lemma {:induction false} AbsorbInjective(t: Triple, u: Triple, k: Bytes, len: Word)
    requires Absorb(t, k, len) == Absorb(u, k, len)
    ensures t == u
    decreases |k|
  {
    hide Mix, Unmix, Load;
    if |k| >= 12 {
      AbsorbInjective(Mix(Plus(t, Block(k))), Mix(Plus(u, Block(k))), k[12..], len);
      MixInjective(Plus(t, Block(k)), Plus(u, Block(k)));
      PlusInjective(t, u, Block(k));
    } else {
      var e := Triple(0, 0, len);
      MixInjective(Plus(Plus(t, e), Tail(k)), Plus(Plus(u, e), Tail(k)));
      PlusInjective(Plus(t, e), Plus(u, e), Tail(k));
      PlusInjective(t, u, e);
    }
  }

  lemma MixInjective(t: Triple, u: Triple)
    requires Mix(t) == Mix(u)
    ensures t == u
  {
    hide Mix, Unmix;
    MixBijective(t);
    MixBijective(u);
  }

  lemma AddInjective(x: Word, y: Word, z: Word)
    requires Add(x, z) == Add(y, z) || Add(z, x) == Add(z, y)
    ensures x == y
  {
  }

  lemma PlusInjective(t: Triple, u: Triple, v: Triple)
    requires Plus(t, v) == Plus(u, v) || Plus(v, t) == Plus(v, u)
    ensures t == u
  {
    hide Add;
    AddInjective(t.i, u.i, v.i);
    AddInjective(t.j, u.j, v.j);
    AddInjective(t.h, u.h, v.h);
  }

  /** `k` and `l` have one length and agree outside block `n`, which may be the tail. */
  predicate OnlyBlock(k: Bytes, l: Bytes, n: nat) {
    |k| == |l| && forall i :: 0 <= i < |k| && k[i] != l[i] ==> 12 * n <= i < 12 * n + 12
  }

  lemma BlockInjective(k: Bytes, l: Bytes)
    requires |k| == |l| >= 12 && Block(k) == Block(l)
    ensures k[..12] == l[..12]
  {
    hide Load;
    LoadInjective(k[0], k[1], k[2], k[3], l[0], l[1], l[2], l[3]);
    LoadInjective(k[4], k[5], k[6], k[7], l[4], l[5], l[6], l[7]);
    LoadInjective(k[8], k[9], k[10], k[11], l[8], l[9], l[10], l[11]);
  }

  lemma TailInjective(k: Bytes, l: Bytes)
    requires |k| == |l| < 12 && Tail(k) == Tail(l)
    ensures k == l
  {
    hide Load;
    LoadInjective(Byte(k, 0), Byte(k, 1), Byte(k, 2), Byte(k, 3), Byte(l, 0), Byte(l, 1), Byte(l, 2), Byte(l, 3));
    LoadInjective(Byte(k, 4), Byte(k, 5), Byte(k, 6), Byte(k, 7), Byte(l, 4), Byte(l, 5), Byte(l, 6), Byte(l, 7));
    LoadInjective(0, Byte(k, 8), Byte(k, 9), Byte(k, 10), 0, Byte(l, 8), Byte(l, 9), Byte(l, 10));
    forall i | 0 <= i < |k| ensures k[i] == l[i] {
      assert Byte(k, i) == k[i] && Byte(l, i) == l[i];
    }
  }

  lemma {:induction false} BlockMatters(t: Triple, k: Bytes, l: Bytes, n: nat, len: Word)
    requires OnlyBlock(k, l, n) && Absorb(t, k, len) == Absorb(t, l, len)
    ensures k == l
    decreases n
  {
    hide Mix, Load, Tail, Plus;
    if |k| < 12 {
      var u := Plus(t, Triple(0, 0, len));
      MixInjective(Plus(u, Tail(k)), Plus(u, Tail(l)));
      PlusInjective(Tail(k), Tail(l), u);
      TailInjective(k, l);
    } else if n == 0 {
      assert k[12..] == l[12..];
      var p, q := Plus(t, Block(k)), Plus(t, Block(l));
      AbsorbInjective(Mix(p), Mix(q), k[12..], len);
      MixInjective(p, q);
      PlusInjective(Block(k), Block(l), t);
      BlockInjective(k, l);
      assert k == k[..12] + k[12..] && l == l[..12] + l[12..];
    } else {
      assert k[..12] == l[..12];
      assert forall i :: 0 <= i < 12 ==> k[i] == k[..12][i] && l[i] == l[..12][i];
      assert Block(k) == Block(l);
      BlockMatters(Mix(Plus(t, Block(k))), k[12..], l[12..], n - 1, len);
      assert k == k[..12] + k[12..] && l == l[..12] + l[12..];
    }
  }

  /** With the length and all other bytes fixed, a different block, or a different tail, gives different final words. */
  lemma OneBlockChanges(k: Bytes, l: Bytes, n: nat)
    requires OnlyBlock(k, l, n) && k != l && |k| < TWO32
    ensures Final(k) != Final(l)
  {
    hide Absorb;
    assert k[..Len(k)] == k && l[..Len(l)] == l;
    if Final(k) == Final(l) {
      BlockMatters(START, k, l, n, Len(k));
    }
  }

  lemma {:induction false} LengthAbsorbed(t: Triple, k: Bytes, len: Word, more: Word)
    requires |k| % 12 < 11 && len != more
    ensures Absorb(t, k, len) != Absorb(t, k + [0], more)
    decreases |k|
  {
    hide Mix, Unmix, Load, Add;
    var l := k + [0];
    if |k| >= 12 {
      assert l[12..] == k[12..] + [0];
      assert forall i :: 0 <= i < 12 ==> l[i] == k[i];
      LengthAbsorbed(Mix(Plus(t, Block(k))), k[12..], len, more);
    } else {
      assert forall n: nat :: Byte(l, n) == Byte(k, n);
      var u, v := Plus(t, Triple(0, 0, len)), Plus(t, Triple(0, 0, more));
      if Mix(Plus(u, Tail(k))) == Mix(Plus(v, Tail(l))) {
        MixInjective(Plus(u, Tail(k)), Plus(v, Tail(l)));
        PlusInjective(u, v, Tail(k));
        PlusInjective(Triple(0, 0, len), Triple(0, 0, more), t);
      }
    }
  }

  /** The length counts: a zero byte after the key's last bytes gives other final words, unless it fills up a block. */
  lemma LengthMatters(k: Bytes)
    requires |k| % 12 < 11 && |k| + 1 < TWO32
    ensures Final(k) != Final(k + [0])
  {
    hide Absorb;
    assert k[..Len(k)] == k && (k + [0])[..Len(k + [0])] == k + [0];
    LengthAbsorbed(START, k, Len(k), Len(k + [0]));
  }
}
