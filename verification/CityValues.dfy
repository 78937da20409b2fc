/**
  The hash of two messages worked out word by word: the bytes 0 to 64, which make one block, and the bytes 0 to 128, which
  make two. The constants, shifts and the order of the steps show in these values.
 */
module CityValues {
  import opened City

  /** The bytes 0, 1, 2 and so on. */
  function OctetAt(i: nat): Octet {
    if i == 0 then 0 else OctetAt(i - 1) + 1
  }

  function Counting(n: nat): seq<Octet> {
    seq(n, i requires 0 <= i < n => OctetAt(i))
  }

  /** The word with the bytes `b` to `b + 7`. */
  function Ascending(b: Octet): Word {
    (b as Word) | (((b + 1) as Word) << 8) | (((b + 2) as Word) << 16) | (((b + 3) as Word) << 24)
    | (((b + 4) as Word) << 32) | (((b + 5) as Word) << 40) | (((b + 6) as Word) << 48) | (((b + 7) as Word) << 56)
  }

  lemma {:induction false} NextOctets(i: nat)
    ensures OctetAt(i + 1) == OctetAt(i) + 1 && OctetAt(i + 2) == OctetAt(i) + 2 && OctetAt(i + 3) == OctetAt(i) + 3
    ensures OctetAt(i + 4) == OctetAt(i) + 4 && OctetAt(i + 5) == OctetAt(i) + 5 && OctetAt(i + 6) == OctetAt(i) + 6
    ensures OctetAt(i + 7) == OctetAt(i) + 7 && OctetAt(i + 8) == OctetAt(i) + 8
  {
  }

  lemma {:induction false} LoadCounting(n: nat, i: nat)
    requires i + 8 <= n
    ensures Load(Counting(n), i) == Ascending(OctetAt(i))
  {
    hide OctetAt;
    NextOctets(i);
  }

  const START_65 :=
    State(0xd702_4a98_f2cf_57a6, 0xa991_a0b3_518e_de37, 0xad23_1c67_708d_af50,
          (0x504c_4844_403c_3875, 0xf95e_35bd_46e9_ea6a),
          (0xaa0d_1b24_2592_47e7, 0xc8bb_ae1f_c7d8_4118))
  const END_65 :=
    State(0xaa8f_f45b_8397_03a1, 0x68d4_e130_c050_9113, 0x0618_1dce_70c2_0fe7,
          (0x07f3_0c24_11d4_b5ce, 0x1acc_5d21_4524_c43c),
          (0x4014_673c_0827_f969, 0x1bef_b88f_98d1_d68b))
  const START_129 :=
    State(0xc248_9600_1150_a69b, 0xf0c7_0d9b_4b1e_efd7, 0x7d6e_9780_3b5f_5ec1,
          (0x514d_4945_413d_39b5, 0x47ae_800f_9d38_3cfc),
          (0xcfbb_b814_cccf_e5a7, 0xe199_ff4e_f736_f634))
  const FIRST_129 :=
    State(0x7bc8_5db3_596a_97ca, 0x8a6a_d765_245c_5065, 0x8c14_8092_fc7d_8a89,
          (0x3325_3dce_43c1_d164, 0x9241_6c54_19ef_8e1d),
          (0x2a2b_21c3_0d5a_42ae, 0x9ebb_7e98_97e8_9c86))
  const END_129 :=
    State(0xf893_e413_d31f_d0a8, 0x90a3_c7e0_8866_b34e, 0x15e7_7fd1_f9bd_0db5,
          (0x94b4_ddd6_3f65_7637, 0x97b0_2ffc_2a48_2cee),
          (0x6519_286e_28c2_22de, 0x0dab_3d02_2544_96ca))

  lemma {:induction false} WeakCounting(n: nat, i: nat, a: Word, b: Word)
    requires i + 32 <= n
    ensures var c := OctetAt(i);
            WeakHash(Counting(n), i, a, b)
            == WeakHashWords(Ascending(c), Ascending(c + 8), Ascending(c + 16), Ascending(c + 24), a, b)
  {
    hide Load, Ascending, OctetAt, WeakHashWords;
    LoadCounting(n, i);
    LoadCounting(n, i + 8);
    LoadCounting(n, i + 16);
    LoadCounting(n, i + 24);
    NextOctets(i);
    NextOctets(i + 8);
    NextOctets(i + 16);
  }

  lemma {:induction false} FirstOctets()
    ensures OctetAt(0) == 0 && OctetAt(1) == 1
  {
  }

  lemma {:induction false} OctetsOfBlocks()
    ensures OctetAt(0) == 0 && OctetAt(16) == 16 && OctetAt(32) == 32 && OctetAt(48) == 48 && OctetAt(64) == 64
    ensures OctetAt(80) == 80 && OctetAt(96) == 96 && OctetAt(112) == 112
  {
    hide OctetAt;
    FirstOctets();
    NextOctets(0);
    NextOctets(8);
    NextOctets(16);
    NextOctets(24);
    NextOctets(32);
    NextOctets(40);
    NextOctets(48);
    NextOctets(56);
    NextOctets(64);
    NextOctets(72);
    NextOctets(80);
    NextOctets(88);
    NextOctets(96);
    NextOctets(104);
  }

  lemma {:induction false} OctetsOfTails()
    ensures OctetAt(1) == 1 && OctetAt(9) == 9 && OctetAt(33) == 33 && OctetAt(49) == 49 && OctetAt(65) == 65
    ensures OctetAt(73) == 73 && OctetAt(97) == 97 && OctetAt(113) == 113
  {
    hide OctetAt;
    FirstOctets();
    NextOctets(1);
    NextOctets(9);
    NextOctets(17);
    NextOctets(25);
    NextOctets(33);
    NextOctets(41);
    NextOctets(49);
    NextOctets(57);
    NextOctets(65);
    NextOctets(73);
    NextOctets(81);
    NextOctets(89);
    NextOctets(97);
    NextOctets(105);
  }

  // ----- The bytes 0 to 64 -----

  lemma {:induction false} StartWords65()
    ensures Load(Counting(65), 0) == 0x0706_0504_0302_0100
    ensures Load(Counting(65), 9) == 0x100f_0e0d_0c0b_0a09
    ensures Load(Counting(65), 49) == 0x3837_3635_3433_3231
  {
    hide Load, OctetAt, Counting;
    OctetsOfBlocks();
    OctetsOfTails();
    LoadCounting(65, 0);
    LoadCounting(65, 9);
    LoadCounting(65, 49);
  }

  lemma {:induction false} StartV65()
    ensures WeakHash(Counting(65), 1, 0x0000_0000_0000_0041, 0x8ca5_805a_8aab_c042)
         == (0x504c_4844_403c_3875, 0xf95e_35bd_46e9_ea6a)
  {
    hide WeakHash, OctetAt, Counting;
    OctetsOfTails();
    WeakCounting(65, 1, 0x0000_0000_0000_0041, 0x8ca5_805a_8aab_c042);
  }

  lemma {:induction false} StartW65()
    ensures WeakHash(Counting(65), 33, 0xd940_525f_64d5_8f33, 0xc3a5_c85c_97cb_3127)
         == (0xaa0d_1b24_2592_47e7, 0xc8bb_ae1f_c7d8_4118)
  {
    hide WeakHash, OctetAt, Counting;
    OctetsOfTails();
    WeakCounting(65, 33, 0xd940_525f_64d5_8f33, 0xc3a5_c85c_97cb_3127);
  }

  lemma {:induction false} Length65()
    ensures |Counting(65)| == 65 && LengthWord(65) == 65 && Times(65, K1) == 0xd940_525f_64d5_8f33
  {
    assert 65 % 0x1_0000_0000_0000_0000 == 65;
    assert (65 as Word) == 65;
  }

  lemma {:induction false} Start65()
    ensures StartAt(Counting(65)) == START_65
  {
    hide Load, WeakHash, Counting, LengthWord;
    Length65();
    StartWords65();
    StartV65();
    StartW65();
  }

  lemma {:induction false} BlockWords65()
    ensures Load(Counting(65), 16) == 0x1716_1514_1312_1110
    ensures Load(Counting(65), 48) == 0x3736_3534_3332_3130
  {
    hide Load, OctetAt, Counting;
    OctetsOfBlocks();
    OctetsOfTails();
    LoadCounting(65, 16);
    LoadCounting(65, 48);
  }

  lemma {:induction false} BlockV65()
    ensures WeakHash(Counting(65), 0, 0xbbaa_c7e3_d59c_819e, 0xb025_38f2_9654_57ce)
         == (0x07f3_0c24_11d4_b5ce, 0x1acc_5d21_4524_c43c)
  {
    hide WeakHash, OctetAt, Counting;
    OctetsOfBlocks();
    WeakCounting(65, 0, 0xbbaa_c7e3_d59c_819e, 0xb025_38f2_9654_57ce);
  }

  lemma {:induction false} BlockW65()
    ensures WeakHash(Counting(65), 32, 0x734b_a27b_4b6f_44b9, 0x68d4_e130_c050_9113)
         == (0x4014_673c_0827_f969, 0x1bef_b88f_98d1_d68b)
  {
    hide WeakHash, OctetAt, Counting;
    OctetsOfBlocks();
    WeakCounting(65, 32, 0x734b_a27b_4b6f_44b9, 0x68d4_e130_c050_9113);
  }

  lemma {:induction false} Block65()
    ensures RoundAt(START_65, Counting(65), 0) == END_65
  {
    hide Load, WeakHash, Counting;
    BlockWords65();
    BlockV65();
    BlockW65();
  }

  lemma {:induction false} Finish65()
    ensures Finish(END_65) == 0x510f_4ef7_76c6_476d
  {
  }

  /** The hash of the bytes 0 to 64. */
  lemma {:induction false} HashOf65()
    ensures LongHash(Counting(65)) == 0x510f_4ef7_76c6_476d
  {
    hide StartAt, RoundAt, Start, Round, Finish, Counting;
    var s := Counting(65);
    Length65();
    StartInPlace(s);
    Start65();
    NoRounds(START_65, s);
    NextRound(START_65, s, 0);
    RoundInPlace(START_65, s, 0);
    Block65();
    Finish65();
  }

  // ----- The bytes 0 to 128 -----

  lemma {:induction false} StartWords129()
    ensures Load(Counting(129), 0) == 0x0706_0504_0302_0100
    ensures Load(Counting(129), 73) == 0x504f_4e4d_4c4b_4a49
    ensures Load(Counting(129), 113) == 0x7877_7675_7473_7271
  {
    hide Load, OctetAt, Counting;
    OctetsOfBlocks();
    OctetsOfTails();
    LoadCounting(129, 0);
    LoadCounting(129, 73);
    LoadCounting(129, 113);
  }

  lemma {:induction false} StartV129()
    ensures WeakHash(Counting(129), 65, 0x0000_0000_0000_0081, 0xcce5_c01a_caeb_8002)
         == (0x514d_4945_413d_39b5, 0x47ae_800f_9d38_3cfc)
  {
    hide WeakHash, OctetAt, Counting;
    OctetsOfTails();
    WeakCounting(129, 65, 0x0000_0000_0000_0081, 0xcce5_c01a_caeb_8002);
  }

  lemma {:induction false} StartW129()
    ensures WeakHash(Counting(129), 97, 0xfded_ee4f_0b12_2bf3, 0xc3a5_c85c_97cb_3127)
         == (0xcfbb_b814_cccf_e5a7, 0xe199_ff4e_f736_f634)
  {
    hide WeakHash, OctetAt, Counting;
    OctetsOfTails();
    WeakCounting(129, 97, 0xfded_ee4f_0b12_2bf3, 0xc3a5_c85c_97cb_3127);
  }

  lemma {:induction false} Length129()
    ensures |Counting(129)| == 129 && LengthWord(129) == 129 && Times(129, K1) == 0xfded_ee4f_0b12_2bf3
  {
    assert 129 % 0x1_0000_0000_0000_0000 == 129;
    assert (129 as Word) == 129;
  }

  lemma {:induction false} Start129()
    ensures StartAt(Counting(129)) == START_129
  {
    hide Load, WeakHash, Counting, LengthWord;
    Length129();
    StartWords129();
    StartV129();
    StartW129();
  }

  lemma {:induction false} FirstWords129()
    ensures Load(Counting(129), 16) == 0x1716_1514_1312_1110
    ensures Load(Counting(129), 48) == 0x3736_3534_3332_3130
  {
    hide Load, OctetAt, Counting;
    OctetsOfBlocks();
    OctetsOfTails();
    LoadCounting(129, 16);
    LoadCounting(129, 48);
  }

  lemma {:induction false} FirstV129()
    ensures WeakHash(Counting(129), 0, 0xe6dc_f98e_0789_9d34, 0x5bd0_38a7_c94d_7030)
         == (0x3325_3dce_43c1_d164, 0x9241_6c54_19ef_8e1d)
  {
    hide WeakHash, OctetAt, Counting;
    OctetsOfBlocks();
    WeakCounting(129, 0, 0xe6dc_f98e_0789_9d34, 0x5bd0_38a7_c94d_7030);
  }

  lemma {:induction false} FirstW129()
    ensures WeakHash(Counting(129), 32, 0x5d62_5d02_50a1_8dfe, 0x8a6a_d765_245c_5065)
         == (0x2a2b_21c3_0d5a_42ae, 0x9ebb_7e98_97e8_9c86)
  {
    hide WeakHash, OctetAt, Counting;
    OctetsOfBlocks();
    WeakCounting(129, 32, 0x5d62_5d02_50a1_8dfe, 0x8a6a_d765_245c_5065);
  }

  lemma {:induction false} First129()
    ensures RoundAt(START_129, Counting(129), 0) == FIRST_129
  {
    hide Load, WeakHash, Counting;
    FirstWords129();
    FirstV129();
    FirstW129();
  }

  lemma {:induction false} SecondWords129()
    ensures Load(Counting(129), 80) == 0x5756_5554_5352_5150
    ensures Load(Counting(129), 112) == 0x7776_7574_7372_7170
  {
    hide Load, OctetAt, Counting;
    OctetsOfBlocks();
    OctetsOfTails();
    LoadCounting(129, 80);
    LoadCounting(129, 112);
  }

  lemma {:induction false} SecondV129()
    ensures WeakHash(Counting(129), 64, 0x476b_9895_022c_4107, 0x4012_a195_0717_5063)
         == (0x94b4_ddd6_3f65_7637, 0x97b0_2ffc_2a48_2cee)
  {
    hide WeakHash, OctetAt, Counting;
    OctetsOfBlocks();
    WeakCounting(129, 64, 0x476b_9895_022c_4107, 0x4012_a195_0717_5063);
  }

  lemma {:induction false} SecondW129()
    ensures WeakHash(Counting(129), 96, 0x974f_62ac_6b08_6d2e, 0x90a3_c7e0_8866_b34e)
         == (0x6519_286e_28c2_22de, 0x0dab_3d02_2544_96ca)
  {
    hide WeakHash, OctetAt, Counting;
    OctetsOfBlocks();
    WeakCounting(129, 96, 0x974f_62ac_6b08_6d2e, 0x90a3_c7e0_8866_b34e);
  }

  lemma {:induction false} Second129()
    ensures RoundAt(FIRST_129, Counting(129), 64) == END_129
  {
    hide Load, WeakHash, Counting;
    SecondWords129();
    SecondV129();
    SecondW129();
  }

  lemma {:induction false} Finish129()
    ensures Finish(END_129) == 0x3a49_051a_b10a_968c
  {
  }

  /** The hash of the bytes 0 to 128. */
  lemma {:induction false} HashOf129()
    ensures LongHash(Counting(129)) == 0x3a49_051a_b10a_968c
  {
    hide StartAt, RoundAt, Start, Round, Finish, Counting;
    var s := Counting(129);
    Length129();
    StartInPlace(s);
    Start129();
    NoRounds(START_129, s);
    NextRound(START_129, s, 0);
    RoundInPlace(START_129, s, 0);
    First129();
    NextRound(START_129, s, 1);
    RoundInPlace(FIRST_129, s, 64);
    Second129();
    Finish129();
  }
}
