/** The hashes of some keys, worked out step by step, and the laws that the steps need. */
module IntHashValues {
  import opened Arithmetic
  import opened IntHash

  // ----- Shifts and exclusive or on numbers -----

  lemma {:induction false} PowSum(j: nat, k: nat)
    ensures Pow2(j + k) == Pow2(j) * Pow2(k)
  {
    if j > 0 {
      PowSum(j - 1, k);
    }
  }

  lemma {:induction false} Powers()
    ensures Pow2(3) == 8 && Pow2(6) == 0x40 && Pow2(8) == 0x100 && Pow2(10) == 0x400 && Pow2(11) == 0x800
    ensures Pow2(13) == 0x2000 && Pow2(15) == 0x8000 && Pow2(16) == 0x1_0000
  {
  }

  lemma {:induction false} LargePowers()
    ensures Pow2(22) == 0x40_0000 && Pow2(27) == 0x800_0000 && Pow2(31) == 0x8000_0000
    ensures Pow2(32) == 0x1_0000_0000 && Pow2(64) == 0x1_0000_0000_0000_0000
  {
    hide Pow2;
    Powers();
    PowSum(16, 6);
    PowSum(16, 11);
    PowSum(16, 15);
    PowSum(16, 16);
    PowSum(32, 32);
  }

  lemma {:induction false} DivideTwice(x: nat, p: nat)
    requires p > 0
    ensures x / 2 / p == x / (2 * p)
  {
    var q, r := x / 2 / p, x / 2 % p;
    assert x / 2 == p * q + r;
    assert x == 2 * p * q + (2 * r + x % 2);
    Quotient(x, 2 * p, q, 2 * r + x % 2);
  }

  /** A shift down is a division. */
  lemma {:induction false} ShrIsDivision(x: nat, k: nat)
    ensures Shr(x, k) == x / Pow2(k)
  {
    if k > 0 {
      ShrIsDivision(x / 2, k - 1);
      DivideTwice(x, Pow2(k - 1));
    }
  }

  lemma {:induction false} Halves(a: nat, a': nat, p: nat)
    ensures (a * (2 * p) + a') / 2 == a * p + a' / 2 && (a * (2 * p) + a') % 2 == a' % 2
  {
    assert a * (2 * p) == 2 * (a * p);
  }

  /** Exclusive or works on the high and the low part of its arguments one by one. */
  lemma {:induction false} XorParts(a: nat, a': nat, b: nat, b': nat, k: nat)
    requires a' < Pow2(k) && b' < Pow2(k)
    ensures Xor(a * Pow2(k) + a', b * Pow2(k) + b') == Xor(a, b) * Pow2(k) + Xor(a', b')
  {
    hide Xor;
    if k == 0 {
      XorZero();
    } else {
      var p := Pow2(k - 1);
      XorParts(a, a' / 2, b, b' / 2, k - 1);
      Halves(a, a', p);
      Halves(b, b', p);
      XorStep(a * Pow2(k) + a', b * Pow2(k) + b');
      XorStep(a', b');
      Halves(Xor(a, b), Xor(a', b'), p);
    }
  }

  // The operations on bytes are named, so that only small lemmas look at bits.
  function Value(a: bv8): nat {
    a as nat
  }

  function Half(a: bv8): bv8 {
    a >> 1
  }

  function Differ(a: bv8, b: bv8): bv8 {
    a ^ b
  }

  lemma {:induction false} HalfOfByte(a: bv8)
    ensures Value(Half(a)) == Value(a) / 2
  {
  }

  lemma {:induction false} DifferOfBits(a: bv8, b: bv8)
    ensures Half(Differ(a, b)) == Differ(Half(a), Half(b))
  {
  }

  lemma {:induction false} LastBit(a: bv8)
    ensures Value(a) % 2 == if a & 1 == 1 then 1 else 0
  {
  }

  lemma {:induction false} DifferOfLastBits(a: bv8, b: bv8)
    ensures Value(Differ(a, b)) % 2 == (Value(a) % 2 + Value(b) % 2) % 2
  {
    LastBit(a);
    LastBit(b);
    LastBit(Differ(a, b));
  }

  lemma {:induction false} NoDifference(a: bv8, b: bv8)
    requires Value(a) == 0 && Value(b) == 0
    ensures Value(Differ(a, b)) == 0
  {
  }

  /** On bytes it is the exclusive or of their bits. */
  lemma {:induction false} XorOfBytes(a: bv8, b: bv8)
    ensures Xor(Value(a), Value(b)) == Value(Differ(a, b))
    decreases Value(a) + Value(b)
  {
    hide Xor, Value, Half, Differ;
    HalfOfByte(a);
    HalfOfByte(b);
    HalfOfByte(Differ(a, b));
    DifferOfBits(a, b);
    DifferOfLastBits(a, b);
    XorStep(Value(a), Value(b));
    if Value(a) + Value(b) > 0 {
      XorOfBytes(Half(a), Half(b));
    } else {
      NoDifference(a, b);
      XorZero();
    }
  }

  lemma {:induction false} XorOfPairs(a: bv8, b: bv8, c: bv8, d: bv8)
    ensures Xor(Value(a) * 0x100 + Value(b), Value(c) * 0x100 + Value(d)) == Value(a ^ c) * 0x100 + Value(b ^ d)
  {
    hide Xor, Pow2;
    Powers();
    XorOfBytes(a, c);
    XorOfBytes(b, d);
    XorParts(Value(a), Value(b), Value(c), Value(d), 8);
  }

  /** The number with the given digits to the base 2^16. */
  function Digits(a: nat, b: nat, c: nat, d: nat): nat {
    ((a * 0x1_0000 + b) * 0x1_0000 + c) * 0x1_0000 + d
  }

  lemma {:induction false} XorDigits(a: nat, b: nat, c: nat, d: nat, a': nat, b': nat, c': nat, d': nat)
    requires b < 0x1_0000 && c < 0x1_0000 && d < 0x1_0000 && b' < 0x1_0000 && c' < 0x1_0000 && d' < 0x1_0000
    ensures Xor(Digits(a, b, c, d), Digits(a', b', c', d')) == Digits(Xor(a, a'), Xor(b, b'), Xor(c, c'), Xor(d, d'))
  {
    hide Xor, Pow2;
    Powers();
    XorParts(a, b, a', b', 16);
    XorParts(a * 0x1_0000 + b, c, a' * 0x1_0000 + b', c', 16);
    XorParts((a * 0x1_0000 + b) * 0x1_0000 + c, d, (a' * 0x1_0000 + b') * 0x1_0000 + c', d', 16);
  }

  // ----- Values -----

  lemma {:induction false} MixStep(steps: seq<Step>, x: nat, w: nat)
    requires steps != []
    ensures Mix(steps, x, w) == Mix(steps[1..], Apply(steps[0], x, w), w) && Mix([], x, w) == x
  {
  }

  lemma {:induction false} NarrowStep1()
    ensures AddNotShl(1, 15, 32) == 0xffff_8000
  {
    hide Pow2;
    Powers();
    LargePowers();
  }

  lemma {:induction false} NarrowStep2()
    ensures XorShr(0xffff_8000, 10) == 0xffc0_7fe0
  {
    hide Shr, Pow2, Xor;
    Powers();
    LargePowers();
    ShrIsDivision(0xffff_8000, 10);
    XorDigits(0, 0, 0xffff, 0x8000, 0, 0, 0x003f, 0xffe0);
    XorOfPairs(0x00, 0x00, 0x00, 0x00);
    XorOfPairs(0x00, 0x00, 0x00, 0x00);
    XorOfPairs(0xff, 0xff, 0x00, 0x3f);
    XorOfPairs(0x80, 0x00, 0xff, 0xe0);
  }

  lemma {:induction false} NarrowStep3()
    ensures AddShl(0xffc0_7fe0, 3, 32) == 0xfdc4_7ee0
  {
    hide Pow2;
    Powers();
    LargePowers();
  }

  lemma {:induction false} NarrowStep4()
    ensures XorShr(0xfdc4_7ee0, 6) == 0xfe33_6f1b
  {
    hide Shr, Pow2, Xor;
    Powers();
    LargePowers();
    ShrIsDivision(0xfdc4_7ee0, 6);
    XorDigits(0, 0, 0xfdc4, 0x7ee0, 0, 0, 0x03f7, 0x11fb);
    XorOfPairs(0x00, 0x00, 0x00, 0x00);
    XorOfPairs(0x00, 0x00, 0x00, 0x00);
    XorOfPairs(0xfd, 0xc4, 0x03, 0xf7);
    XorOfPairs(0x7e, 0xe0, 0x11, 0xfb);
  }

  lemma {:induction false} NarrowStep5()
    ensures AddNotShl(0xfe33_6f1b, 11, 32) == 0x62ba_971a
  {
    hide Pow2;
    Powers();
    LargePowers();
  }

  lemma {:induction false} NarrowStep6()
    ensures XorShr(0x62ba_971a, 16) == 0x62ba_f5a0
  {
    hide Shr, Pow2, Xor;
    Powers();
    LargePowers();
    ShrIsDivision(0x62ba_971a, 16);
    XorDigits(0, 0, 0x62ba, 0x971a, 0, 0, 0, 0x62ba);
    XorOfPairs(0x00, 0x00, 0x00, 0x00);
    XorOfPairs(0x00, 0x00, 0x00, 0x00);
    XorOfPairs(0x62, 0xba, 0x00, 0x00);
    XorOfPairs(0x97, 0x1a, 0x62, 0xba);
  }

  lemma {:induction false} Hash32OfOne()
    ensures Hash32(1) == 0x62ba_f5a0
  {
    hide AddNotShl, AddShl, XorShr;
    NarrowStep1();
    NarrowStep2();
    NarrowStep3();
    NarrowStep4();
    NarrowStep5();
    NarrowStep6();
    var steps := [AddNot(15), XorDown(10), Add(3), XorDown(6), AddNot(11), XorDown(16)];
    MixStep(steps[0..], 1, 32);
    MixStep(steps[1..], 0xffff_8000, 32);
    MixStep(steps[2..], 0xffc0_7fe0, 32);
    MixStep(steps[3..], 0xfdc4_7ee0, 32);
    MixStep(steps[4..], 0xfe33_6f1b, 32);
    MixStep(steps[5..], 0x62ba_971a, 32);
  }

  lemma {:induction false} ZeroStep1()
    ensures AddNotShl(0, 32, 64) == 0xffff_ffff_ffff_ffff
  {
    hide Pow2;
    Powers();
    LargePowers();
  }

  lemma {:induction false} ZeroStep2()
    ensures XorShr(0xffff_ffff_ffff_ffff, 22) == 0xffff_fc00_0000_0000
  {
    hide Shr, Pow2, Xor;
    Powers();
    LargePowers();
    ShrIsDivision(0xffff_ffff_ffff_ffff, 22);
    XorDigits(0xffff, 0xffff, 0xffff, 0xffff, 0, 0x03ff, 0xffff, 0xffff);
    XorOfPairs(0xff, 0xff, 0x00, 0x00);
    XorOfPairs(0xff, 0xff, 0x03, 0xff);
    XorOfPairs(0xff, 0xff, 0xff, 0xff);
    XorOfPairs(0xff, 0xff, 0xff, 0xff);
  }

  lemma {:induction false} ZeroStep3()
    ensures AddNotShl(0xffff_fc00_0000_0000, 13, 64) == 0x007f_fbff_ffff_ffff
  {
    hide Pow2;
    Powers();
    LargePowers();
  }

  lemma {:induction false} ZeroStep4()
    ensures XorShr(0x007f_fbff_ffff_ffff, 8) == 0x007f_8404_0000_0000
  {
    hide Shr, Pow2, Xor;
    Powers();
    LargePowers();
    ShrIsDivision(0x007f_fbff_ffff_ffff, 8);
    XorDigits(0x007f, 0xfbff, 0xffff, 0xffff, 0, 0x7ffb, 0xffff, 0xffff);
    XorOfPairs(0x00, 0x7f, 0x00, 0x00);
    XorOfPairs(0xfb, 0xff, 0x7f, 0xfb);
    XorOfPairs(0xff, 0xff, 0xff, 0xff);
    XorOfPairs(0xff, 0xff, 0xff, 0xff);
  }

  lemma {:induction false} ZeroStep5()
    ensures AddShl(0x007f_8404_0000_0000, 3, 64) == 0x047b_a424_0000_0000
  {
    hide Pow2;
    Powers();
    LargePowers();
  }

  lemma {:induction false} ZeroStep6()
    ensures XorShr(0x047b_a424_0000_0000, 15) == 0x047b_acd3_4848_0000
  {
    hide Shr, Pow2, Xor;
    Powers();
    LargePowers();
    ShrIsDivision(0x047b_a424_0000_0000, 15);
    XorDigits(0x047b, 0xa424, 0, 0, 0, 0x08f7, 0x4848, 0);
    XorOfPairs(0x04, 0x7b, 0x00, 0x00);
    XorOfPairs(0xa4, 0x24, 0x08, 0xf7);
    XorOfPairs(0x00, 0x00, 0x48, 0x48);
    XorOfPairs(0x00, 0x00, 0x00, 0x00);
  }

  lemma {:induction false} ZeroStep7()
    ensures AddNotShl(0x047b_acd3_4848_0000, 27, 64) == 0x6a39_6cd3_4847_ffff
  {
    hide Pow2;
    Powers();
    LargePowers();
  }

  lemma {:induction false} ZeroStep8()
    ensures XorShr(0x6a39_6cd3_4847_ffff, 31) == 0x6a39_6cd3_9c35_2659
  {
    hide Shr, Pow2, Xor;
    Powers();
    LargePowers();
    ShrIsDivision(0x6a39_6cd3_4847_ffff, 31);
    XorDigits(0x6a39, 0x6cd3, 0x4847, 0xffff, 0, 0, 0xd472, 0xd9a6);
    XorOfPairs(0x6a, 0x39, 0x00, 0x00);
    XorOfPairs(0x6c, 0xd3, 0x00, 0x00);
    XorOfPairs(0x48, 0x47, 0xd4, 0x72);
    XorOfPairs(0xff, 0xff, 0xd9, 0xa6);
  }

  lemma {:induction false} Hash64OfZero()
    ensures Hash64(0) == 0x6a39_6cd3_9c35_2659
  {
    hide AddNotShl, AddShl, XorShr;
    ZeroStep1();
    ZeroStep2();
    ZeroStep3();
    ZeroStep4();
    ZeroStep5();
    ZeroStep6();
    ZeroStep7();
    ZeroStep8();
    var steps := [AddNot(32), XorDown(22), AddNot(13), XorDown(8), Add(3), XorDown(15), AddNot(27), XorDown(31)];
    MixStep(steps[0..], 0, 64);
    MixStep(steps[1..], 0xffff_ffff_ffff_ffff, 64);
    MixStep(steps[2..], 0xffff_fc00_0000_0000, 64);
    MixStep(steps[3..], 0x007f_fbff_ffff_ffff, 64);
    MixStep(steps[4..], 0x007f_8404_0000_0000, 64);
    MixStep(steps[5..], 0x047b_a424_0000_0000, 64);
    MixStep(steps[6..], 0x047b_acd3_4848_0000, 64);
    MixStep(steps[7..], 0x6a39_6cd3_4847_ffff, 64);
  }

  lemma {:induction false} FirstStep1()
    ensures AddNotShl(0x6a39_6cd3_9c35_2658, 32, 64) == 0xce04_467b_9c35_2657
  {
    hide Pow2;
    Powers();
    LargePowers();
  }

  lemma {:induction false} FirstStep2()
    ensures XorShr(0xce04_467b_9c35_2657, 22) == 0xce04_4543_8d2c_c827
  {
    hide Shr, Pow2, Xor;
    Powers();
    LargePowers();
    ShrIsDivision(0xce04_467b_9c35_2657, 22);
    XorDigits(0xce04, 0x467b, 0x9c35, 0x2657, 0, 0x0338, 0x1119, 0xee70);
    XorOfPairs(0xce, 0x04, 0x00, 0x00);
    XorOfPairs(0x46, 0x7b, 0x03, 0x38);
    XorOfPairs(0x9c, 0x35, 0x11, 0x19);
    XorOfPairs(0x26, 0x57, 0xee, 0x70);
  }

  lemma {:induction false} FirstStep3()
    ensures AddNotShl(0xce04_4543_8d2c_c827, 13, 64) == 0x455b_d39d_f427_e826
  {
    hide Pow2;
    Powers();
    LargePowers();
  }

  lemma {:induction false} FirstStep4()
    ensures XorShr(0x455b_d39d_f427_e826, 8) == 0x451e_884e_69d3_cfce
  {
    hide Shr, Pow2, Xor;
    Powers();
    LargePowers();
    ShrIsDivision(0x455b_d39d_f427_e826, 8);
    XorDigits(0x455b, 0xd39d, 0xf427, 0xe826, 0x0045, 0x5bd3, 0x9df4, 0x27e8);
    XorOfPairs(0x45, 0x5b, 0x00, 0x45);
    XorOfPairs(0xd3, 0x9d, 0x5b, 0xd3);
    XorOfPairs(0xf4, 0x27, 0x9d, 0xf4);
    XorOfPairs(0xe8, 0x26, 0x27, 0xe8);
  }

  lemma {:induction false} FirstStep5()
    ensures AddShl(0x451e_884e_69d3_cfce, 3, 64) == 0x6e12_cac1_b872_4e3e
  {
    hide Pow2;
    Powers();
    LargePowers();
  }

  lemma {:induction false} FirstStep6()
    ensures XorShr(0x6e12_cac1_b872_4e3e, 15) == 0x6e12_16e4_2df1_3eda
  {
    hide Shr, Pow2, Xor;
    Powers();
    LargePowers();
    ShrIsDivision(0x6e12_cac1_b872_4e3e, 15);
    XorDigits(0x6e12, 0xcac1, 0xb872, 0x4e3e, 0, 0xdc25, 0x9583, 0x70e4);
    XorOfPairs(0x6e, 0x12, 0x00, 0x00);
    XorOfPairs(0xca, 0xc1, 0xdc, 0x25);
    XorOfPairs(0xb8, 0x72, 0x95, 0x83);
    XorOfPairs(0x4e, 0x3e, 0x70, 0xe4);
  }

  lemma {:induction false} FirstStep7()
    ensures AddNotShl(0x6e12_16e4_2df1_3eda, 27, 64) == 0x4ca2_8ced_5df1_3ed9
  {
    hide Pow2;
    Powers();
    LargePowers();
  }

  lemma {:induction false} FirstStep8()
    ensures XorShr(0x4ca2_8ced_5df1_3ed9, 31) == 0x4ca2_8ced_c4b4_2703
  {
    hide Shr, Pow2, Xor;
    Powers();
    LargePowers();
    ShrIsDivision(0x4ca2_8ced_5df1_3ed9, 31);
    XorDigits(0x4ca2, 0x8ced, 0x5df1, 0x3ed9, 0, 0, 0x9945, 0x19da);
    XorOfPairs(0x4c, 0xa2, 0x00, 0x00);
    XorOfPairs(0x8c, 0xed, 0x00, 0x00);
    XorOfPairs(0x5d, 0xf1, 0x99, 0x45);
    XorOfPairs(0x3e, 0xd9, 0x19, 0xda);
  }

  lemma {:induction false} Hash64OfFirst()
    ensures Hash64(0x6a39_6cd3_9c35_2658) == 0x4ca2_8ced_c4b4_2703
  {
    hide AddNotShl, AddShl, XorShr;
    FirstStep1();
    FirstStep2();
    FirstStep3();
    FirstStep4();
    FirstStep5();
    FirstStep6();
    FirstStep7();
    FirstStep8();
    var steps := [AddNot(32), XorDown(22), AddNot(13), XorDown(8), Add(3), XorDown(15), AddNot(27), XorDown(31)];
    MixStep(steps[0..], 0x6a39_6cd3_9c35_2658, 64);
    MixStep(steps[1..], 0xce04_467b_9c35_2657, 64);
    MixStep(steps[2..], 0xce04_4543_8d2c_c827, 64);
    MixStep(steps[3..], 0x455b_d39d_f427_e826, 64);
    MixStep(steps[4..], 0x451e_884e_69d3_cfce, 64);
    MixStep(steps[5..], 0x6e12_cac1_b872_4e3e, 64);
    MixStep(steps[6..], 0x6e12_16e4_2df1_3eda, 64);
    MixStep(steps[7..], 0x4ca2_8ced_5df1_3ed9, 64);
  }

  lemma {:induction false} FirstXor()
    ensures Xor(0x6a39_6cd3_9c35_2659, 1) == 0x6a39_6cd3_9c35_2658
  {
    hide Xor;
    XorDigits(0x6a39, 0x6cd3, 0x9c35, 0x2659, 0, 0, 0, 1);
    XorOfPairs(0x6a, 0x39, 0x00, 0x00);
    XorOfPairs(0x6c, 0xd3, 0x00, 0x00);
    XorOfPairs(0x9c, 0x35, 0x00, 0x00);
    XorOfPairs(0x26, 0x59, 0x00, 0x01);
  }

  lemma {:induction false} SecondXor()
    ensures Xor(0x4ca2_8ced_c4b4_2703, 2) == 0x4ca2_8ced_c4b4_2701
  {
    hide Xor;
    XorDigits(0x4ca2, 0x8ced, 0xc4b4, 0x2703, 0, 0, 0, 2);
    XorOfPairs(0x4c, 0xa2, 0x00, 0x00);
    XorOfPairs(0x8c, 0xed, 0x00, 0x00);
    XorOfPairs(0xc4, 0xb4, 0x00, 0x00);
    XorOfPairs(0x27, 0x03, 0x00, 0x02);
  }

  /** The hash of a range of two elements with the hashes 1 and 2. */
  lemma {:induction false} RangeOfTwo()
    ensures RangeHash([1, 2]) == 0x4ca2_8ced_c4b4_2701
  {
    hide Hash64, Xor;
    Hash64OfZero();
    FirstXor();
    Hash64OfFirst();
    SecondXor();
    var range := [1, 2];
    assert range[..1] == [1] && [1][..0] == [];
    assert RangeHash([1]) == Combine(RangeHash([]), 1);
  }
}
