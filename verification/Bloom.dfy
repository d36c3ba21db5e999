/** The optional Bloom filter of a table, a bit vector kept in bytes. */
module BloomFilter {
  import opened Words

  function BitMask(i: nat): bv8
    requires i < 8
  {
    (1 as bv8) << i
  }

  predicate Bit(b: bv8, i: nat)
    requires i < 8
  {
    b & BitMask(i) != 0
  }

  /** Setting one bit of a byte sets that bit and no other. */
  lemma SetBit(b: bv8, i: nat, j: nat)
    requires i < 8 && j < 8
    ensures Bit(b | BitMask(i), j) <==> i == j || Bit(b, j)
  {
    assert BitMask(0) == 1 && BitMask(1) == 2 && BitMask(2) == 4 && BitMask(3) == 8;
    assert BitMask(4) == 16 && BitMask(5) == 32 && BitMask(6) == 64 && BitMask(7) == 128;
  }

  class Bloom {
    const nbits: nat
    const bv: array<bv8>
    ghost var marked: set<nat>  // the bit numbers that are set

    ghost predicate Valid()
      reads this, bv
    {
      && Pow2(nbits) <= 8 * bv.Length
      && forall i {:trigger i in marked} :: 0 <= i < 8 * bv.Length ==> (i in marked <==> Bit(bv[i / 8], i % 8))
    }

    constructor (n: nat)
      ensures Valid() && fresh(bv) && nbits == n && marked == {}
    {
      nbits := n;
      var bitlen := Pow2(n);
      bv := new bv8[bitlen / 8 + if bitlen % 8 != 0 then 1 else 0](_ => 0);
      marked := {};
    }

    method Add(hashv: Word)
      requires Valid()
      modifies this, bv
      ensures Valid() && marked == old(marked) + {LowBits(hashv, nbits)}
    {
      hide LowBits, And, Pow2, Bit, BitMask;
      AndMask(hashv, nbits);
      var idx := And(hashv, Pow2(nbits) - 1);
      ghost var was := bv[idx / 8];
      bv[idx / 8] := bv[idx / 8] | BitMask(idx % 8);
      marked := marked + {idx};
      forall i | 0 <= i < 8 * bv.Length
        ensures i in marked <==> Bit(bv[i / 8], i % 8)
      {
        if i / 8 == idx / 8 {
          SetBit(was, idx % 8, i % 8);
        }
      }
    }

    method Test(hashv: Word) returns (hit: bool)
      requires Valid()
      ensures hit <==> LowBits(hashv, nbits) in marked
    {
      AndMask(hashv, nbits);
      var idx := And(hashv, Pow2(nbits) - 1);
      hit := Bit(bv[idx / 8], idx % 8);
    }
  }
}
