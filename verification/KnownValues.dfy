/** Values worked out for single inputs: they fix every constant of the hash function and of the generator. */
module KnownValues {
  import opened Words
  import opened Jenkins
  import opened Prng

  // ---------- the generator ----------

  /** From state 42 the next state is 1342679667. */
  lemma KnownStep()
    ensures NextState(42) == 1342679667 && NextState(0) == 1729
  {
  }

  /** State 0xdeadbeef gives the output 0xf635a409; its top digit makes the first shift seventeen. */
  lemma KnownOutput()
    ensures FromState(0xdead_beef) == 0xf635a409
  {
    hide Xor, Xor32, Shr, Pow2;
    Powers();
    ShrIsDiv(0xdead_beef, 28);
    ShrIsDiv(0xdead_beef, 17);
    XorHex(0x0, 0x0, 0x0, 0x0, 0x6, 0xf, 0x5, 0x6,
           0xd, 0xe, 0xa, 0xd, 0xb, 0xe, 0xe, 0xf);
    assert Scramble(0xdead_beef) == 0xdeadd1b9 && Times(0xdeadd1b9, FACTOR) == 0xf635a7d1;
    ShrIsDiv(0xf635a7d1, 22);
    XorHex(0x0, 0x0, 0x0, 0x0, 0x0, 0x3, 0xd, 0x8,
           0xf, 0x6, 0x3, 0x5, 0xa, 0x7, 0xd, 0x1);
  }

  // ---------- the hash of a key of one block and eleven bytes more ----------

  /** The bytes 1 to 23. */
  function Sample(): Bytes {
    [1, 2, 3, 4, 5, 6, 7, 8, 9, 10, 11, 12, 13, 14, 15, 16, 17, 18, 19, 20, 21, 22, 23]
  }

  lemma Row1()
    ensures Round(Triple(0xa23a7bba, 0xa63e7fbe, 0xaf8c8f8), 13, 8, 13)
         == Triple(0xf10364c2, 0xa9269004, 0x70cb9d06)
  {
    hide Xor, Xor32, Shr, Pow2;
    Powers();
    ShrIsDiv(0xaf8c8f8, 13);
    XorHex(0xf, 0x1, 0x0, 0x3, 0x3, 0x3, 0x0, 0x4,
           0x0, 0x0, 0x0, 0x0, 0x5, 0x7, 0xc, 0x6);
    XorHex(0xa, 0xa, 0x4, 0x2, 0x5, 0x2, 0x0, 0x4,
           0x0, 0x3, 0x6, 0x4, 0xc, 0x2, 0x0, 0x0);
    ShrIsDiv(0xa9269004, 13);
    XorHex(0x7, 0x0, 0xc, 0xe, 0xd, 0x4, 0x3, 0x2,
           0x0, 0x0, 0x0, 0x5, 0x4, 0x9, 0x3, 0x4);
  }

  lemma Row2()
    ensures Round(Triple(0xf10364c2, 0xa9269004, 0x70cb9d06), 12, 16, 5)
         == Triple(0xd7163b01, 0x5a45b7fd, 0x3dbd87b7)
  {
    hide Xor, Xor32, Shr, Pow2;
    Powers();
    ShrIsDiv(0x70cb9d06, 12);
    XorHex(0xd, 0x7, 0x1, 0x1, 0x3, 0x7, 0xb, 0x8,
           0x0, 0x0, 0x0, 0x7, 0x0, 0xc, 0xb, 0x9);
    XorHex(0x6, 0x1, 0x4, 0x4, 0xb, 0x7, 0xf, 0xd,
           0x3, 0xb, 0x0, 0x1, 0x0, 0x0, 0x0, 0x0);
    ShrIsDiv(0x5a45b7fd, 5);
    XorHex(0x3, 0xf, 0x6, 0xf, 0xa, 0xa, 0x0, 0x8,
           0x0, 0x2, 0xd, 0x2, 0x2, 0xd, 0xb, 0xf);
  }

  lemma Row3()
    ensures Round(Triple(0xd7163b01, 0x5a45b7fd, 0x3dbd87b7), 3, 10, 15)
         == Triple(0x38a54bbb, 0x76cc088b, 0x8e4cdee9)
  {
    hide Xor, Xor32, Shr, Pow2;
    Powers();
    ShrIsDiv(0x3dbd87b7, 3);
    XorHex(0x3, 0xf, 0x1, 0x2, 0xf, 0xb, 0x4, 0xd,
           0x0, 0x7, 0xb, 0x7, 0xb, 0x0, 0xf, 0x6);
    XorHex(0xe, 0x3, 0xe, 0x2, 0xe, 0x4, 0x8, 0xb,
           0x9, 0x5, 0x2, 0xe, 0xe, 0xc, 0x0, 0x0);
    ShrIsDiv(0x76cc088b, 15);
    XorHex(0x8, 0xe, 0x4, 0xc, 0x3, 0x3, 0x7, 0x1,
           0x0, 0x0, 0x0, 0x0, 0xe, 0xd, 0x9, 0x8);
  }

  lemma Row4()
    ensures Round(Triple(0x48b459c8, 0x8adf1a9c, 0xa562f400), 13, 8, 13)
         == Triple(0x1877603b, 0xba64fd61, 0xd2834543)
  {
    hide Xor, Xor32, Shr, Pow2;
    Powers();
    ShrIsDiv(0xa562f400, 13);
    XorHex(0x1, 0x8, 0x7, 0x2, 0x4, 0xb, 0x2, 0xc,
           0x0, 0x0, 0x0, 0x5, 0x2, 0xb, 0x1, 0x7);
    XorHex(0xc, 0xd, 0x0, 0x4, 0xc, 0x6, 0x6, 0x1,
           0x7, 0x7, 0x6, 0x0, 0x3, 0xb, 0x0, 0x0);
    ShrIsDiv(0xba64fd61, 13);
    XorHex(0xd, 0x2, 0x8, 0x6, 0x9, 0x6, 0x6, 0x4,
           0x0, 0x0, 0x0, 0x5, 0xd, 0x3, 0x2, 0x7);
  }

  lemma Row5()
    ensures Round(Triple(0x1877603b, 0xba64fd61, 0xd2834543), 12, 16, 5)
         == Triple(0x8b8235a3, 0x69fc827b, 0xde4b6936)
  {
    hide Xor, Xor32, Shr, Pow2;
    Powers();
    ShrIsDiv(0xd2834543, 12);
    XorHex(0x8, 0xb, 0x8, 0xf, 0x1, 0xd, 0x9, 0x7,
           0x0, 0x0, 0x0, 0xd, 0x2, 0x8, 0x3, 0x4);
    XorHex(0x5, 0xc, 0x5, 0xf, 0x8, 0x2, 0x7, 0xb,
           0x3, 0x5, 0xa, 0x3, 0x0, 0x0, 0x0, 0x0);
    ShrIsDiv(0x69fc827b, 5);
    XorHex(0xd, 0xd, 0x0, 0x4, 0x8, 0xd, 0x2, 0x5,
           0x0, 0x3, 0x4, 0xf, 0xe, 0x4, 0x1, 0x3);
  }

  lemma Row6()
    ensures Round(Triple(0x8b8235a3, 0x69fc827b, 0xde4b6936), 3, 10, 15)
         == Triple(0x58f324d4, 0xfe2ea471, 0x872863ac)
  {
    hide Xor, Xor32, Shr, Pow2;
    Powers();
    ShrIsDiv(0xde4b6936, 3);
    XorHex(0x4, 0x3, 0x3, 0xa, 0x4, 0x9, 0xf, 0x2,
           0x1, 0xb, 0xc, 0x9, 0x6, 0xd, 0x2, 0x6);
    XorHex(0x3, 0x2, 0xb, 0xd, 0xf, 0x4, 0x7, 0x1,
           0xc, 0xc, 0x9, 0x3, 0x5, 0x0, 0x0, 0x0);
    ShrIsDiv(0xfe2ea471, 15);
    XorHex(0x8, 0x7, 0x2, 0x9, 0x9, 0xf, 0xf, 0x1,
           0x0, 0x0, 0x0, 0x1, 0xf, 0xc, 0x5, 0xd);
  }

  lemma MixOnce()
    ensures Mix(Triple(0xa23a7bba, 0xa63e7fbe, 0xaf8c8f8)) == Triple(0x38a54bbb, 0x76cc088b, 0x8e4cdee9)
    ensures Mix(Triple(0x48b459c8, 0x8adf1a9c, 0xa562f400)) == Triple(0x58f324d4, 0xfe2ea471, 0x872863ac)
  {
    hide Round;
    Row1();
    Row2();
    Row3();
    Row4();
    Row5();
    Row6();
  }

  /** The hash of the bytes 1 to 23 is 0x872863ac. */
  lemma KnownHash()
    ensures Hash(Sample()) == 0x872863ac
  {
    hide Mix, Round;
    MixOnce();
    var k := Sample();
    assert k[..23] == k && |k| == 23;
    var r := k[12..];
    assert r == [13, 14, 15, 16, 17, 18, 19, 20, 21, 22, 23];
    assert Plus(START, Block(k)) == Triple(0xa23a7bba, 0xa63e7fbe, 0xaf8c8f8);
    assert Plus(Plus(Triple(0x38a54bbb, 0x76cc088b, 0x8e4cdee9), Triple(0, 0, 23)), Tail(r))
        == Triple(0x48b459c8, 0x8adf1a9c, 0xa562f400);
    assert Absorb(Triple(0x38a54bbb, 0x76cc088b, 0x8e4cdee9), r, 23) == Triple(0x58f324d4, 0xfe2ea471, 0x872863ac);
  }
}
