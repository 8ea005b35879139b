/** What the operations of xxHash do to machine words, and the hashes published for some inputs. */
module XxHashVectors {
  import opened Arith
  import opened Bytes
  import opened Words
  import opened XxHash

  // ---------------------------------------------------------------- machine words

  /** `x` is a word of this width. */
  predicate Fits(w: Width, x: bv64) { w.W32? ==> x >> 32 == 0 }

  lemma FitsMeans(w: Width, x: bv64)
    requires Fits(w, x)
    ensures Down(x, w.Bits()) == 0
  {
    DownWord(x);
    DownAll(x);
  }

  /** Exclusive or is that of the bits. */
  lemma XorIsBitwise(w: Width, x: bv64, y: bv64)
    ensures Xor(w, Number(x, w.Bits()), Number(y, w.Bits())) == Number(x ^ y, w.Bits())
  {
    XorIs(x, y, w.Bits());
  }

  /** A shift is that of the bits, by `r` places. */
  lemma ShrIsShift(w: Width, x: bv64, r: nat)
    requires Fits(w, x) && r <= w.Bits()
    ensures Shr(Number(x, w.Bits()), r) == Number(Down(x, r), w.Bits())
  {
    FitsMeans(w, x);
    ShiftIs(x, w.Bits(), r);
  }

  /** A rotation is that of the bits: up by `r` places, and the bits that fall out come in below. */
  lemma RotlIsRotation(w: Width, x: bv64, r: nat)
    requires Fits(w, x) && 0 < r < w.Bits()
    ensures Rotl(w, Number(x, w.Bits()), r) == Number(Up(x, r) | Down(x, w.Bits() - r), w.Bits())
  {
    hide Number, Up, Down, Pow2, Shr;
    FitsMeans(w, x);
    Moduli(w);
    RotationIs(x, w.Bits(), r);
  }

  // ---------------------------------------------------------------- operations on given numbers

  const SMALL_POWERS: seq<nat> := [1, 2, 4, 8, 16, 32, 64, 128]
  const LARGE_POWERS: seq<nat> := [1, 0x100, 0x1_0000, 0x100_0000, 0x1_0000_0000, 0x100_0000_0000, 0x1_0000_0000_0000,
                                   0x100_0000_0000_0000]

  function Power(r: nat): nat
    requires r < 64
  {
    LARGE_POWERS[r / 8] * SMALL_POWERS[r % 8]
  }

  lemma FourMore(n: nat)
    ensures Pow2(n + 4) == 16 * Pow2(n)
  {
    assert Pow2(n + 4) == 2 * Pow2(n + 3) && Pow2(n + 3) == 2 * Pow2(n + 2) && Pow2(n + 2) == 2 * Pow2(n + 1);
  }

  lemma EightMore(n: nat)
    ensures Pow2(n + 8) == 256 * Pow2(n)
  {
    hide Pow2;
    FourMore(n);
    FourMore(n + 4);
  }

  lemma NoPower()
    ensures Pow2(0) == 1
  {
  }

  lemma LargePowers()
    ensures Pow2(0) == 1 && Pow2(8) == 0x100 && Pow2(16) == 0x1_0000 && Pow2(24) == 0x100_0000
    ensures Pow2(32) == 0x1_0000_0000 && Pow2(40) == 0x100_0000_0000 && Pow2(48) == 0x1_0000_0000_0000
    ensures Pow2(56) == 0x100_0000_0000_0000
  {
    hide Pow2;
    NoPower();
    EightMore(0);
    EightMore(8);
    EightMore(16);
    EightMore(24);
    EightMore(32);
    EightMore(40);
    EightMore(48);
  }

  lemma LargePower(k: nat)
    requires k < 8
    ensures Pow2(8 * k) == LARGE_POWERS[k]
  {
    hide Pow2;
    LargePowers();
  }

  lemma {:induction false} PowerIs(r: nat)
    requires r < 64
    ensures Pow2(r) == Power(r)
  {
    if r % 8 == 0 {
      LargePower(r / 8);
    } else {
      PowerIs(r - 1);
      assert Pow2(r) == 2 * Pow2(r - 1);
      SmallPower(r);
    }
  }

  lemma SmallPower(r: nat)
    requires r < 64 && r % 8 > 0
    ensures Power(r) == 2 * Power(r - 1)
  {
    var p := LARGE_POWERS[r / 8];
    assert (r - 1) / 8 == r / 8 && (r - 1) % 8 == r % 8 - 1;
    assert SMALL_POWERS[r % 8] == 2 * SMALL_POWERS[r % 8 - 1];
  }

  lemma Moduli(w: Width)
    ensures Pow2(w.Bits()) == w.Modulus()
  {
    LargePower(4);
    LargePower(7);
    EightMore(56);
  }

  /** The quotient by a power of two. */
  lemma {:induction false} ShrBetween(a: nat, r: nat, q: nat)
    requires q * Pow2(r) <= a < q * Pow2(r) + Pow2(r)
    ensures Shr(a, r) == q
    decreases r
  {
    if r > 0 {
      var p := Pow2(r - 1);
      assert q * Pow2(r) == 2 * (q * p);
      ShrBetween(a / 2, r - 1, q);
    } else {
      assert q * Pow2(0) == q;
    }
  }

  lemma ShrValue(a: nat, r: nat, q: nat)
    requires r < 64 && q * Power(r) <= a < q * Power(r) + Power(r)
    ensures Shr(a, r) == q
  {
    PowerIs(r);
    ShrBetween(a, r, q);
  }

  lemma RotlValue(w: Width, a: nat, r: nat, q: nat, v: nat)
    requires 0 < r < w.Bits() && var p := Power(w.Bits() - r); q * p <= a < q * p + p
    requires v == a * Power(r) % w.Modulus() + q
    ensures Rotl(w, a, r) == v
  {
    hide Pow2, Power, Shr;
    PowerIs(r);
    ShrValue(a, w.Bits() - r, q);
  }

  lemma MulValue(w: Width, a: nat, b: nat, v: nat)
    requires a * b % w.Modulus() == v
    ensures Mul(w, a, b) == v
  {
  }

  lemma AddValue(w: Width, a: nat, b: nat, v: nat)
    requires (a + b) % w.Modulus() == v
    ensures Add(w, a, b) == v
  {
  }

  lemma XorValue32(x: bv64, y: bv64, a: nat, b: nat, c: nat)
    requires a == Bytes32(x) && b == Bytes32(y) && c == Bytes32(x ^ y)
    ensures Xor(W32, a, b) == c
  {
    hide Bytes32, Bytes64, Number, XorBits;
    NumberByBytes(x);
    NumberByBytes(y);
    NumberByBytes(x ^ y);
    XorIs(x, y, 32);
  }

  lemma XorValue64(x: bv64, y: bv64, a: nat, b: nat, c: nat)
    requires a == Bytes64(x) && b == Bytes64(y) && c == Bytes64(x ^ y)
    ensures Xor(W64, a, b) == c
  {
    hide Bytes32, Bytes64, Number, XorBits;
    NumberByBytes(x);
    NumberByBytes(y);
    NumberByBytes(x ^ y);
    XorIs(x, y, 64);
  }

  lemma EmptyMix32()
    ensures Avalanche(W32, 0x1656_67B1) == 0x2CC_5D05
  {
    hide Add, Mul, Rotl, Shr, Xor;
    ShrValue(0x1656_67B1, 15, 0x2CAC);
    XorValue32(0x1656_67B1, 0x2CAC, 0x1656_67B1, 0x2CAC, 0x1656_4B1D);
    MulValue(W32, 0x1656_4B1D, 0x85EB_CA77, 0x7E00_CC7B);
    ShrValue(0x7E00_CC7B, 13, 0x3_F006);
    XorValue32(0x7E00_CC7B, 0x3_F006, 0x7E00_CC7B, 0x3_F006, 0x7E03_3C7D);
    MulValue(W32, 0x7E03_3C7D, 0xC2B2_AE3D, 0x2CC_5FC9);
    ShrValue(0x2CC_5FC9, 16, 0x2CC);
    XorValue32(0x2CC_5FC9, 0x2CC, 0x2CC_5FC9, 0x2CC, 0x2CC_5D05);
  }

  lemma EmptyMix64()
    ensures Avalanche(W64, 0x27D4_EB2F_1656_67C5) == 0xEF46_DB37_51D8_E999
  {
    hide Add, Mul, Rotl, Shr, Xor;
    ShrValue(0x27D4_EB2F_1656_67C5, 33, 0x13EA_7597);
    XorValue64(0x27D4_EB2F_1656_67C5, 0x13EA_7597, 0x27D4_EB2F_1656_67C5, 0x13EA_7597, 0x27D4_EB2F_05BC_1252);
    MulValue(W64, 0x27D4_EB2F_05BC_1252, 0xC2B2_AE3D_27D4_EB4F, 0xBEB1_3DDA_13C2_ED4E);
    ShrValue(0xBEB1_3DDA_13C2_ED4E, 29, 0x5_F589_EED0);
    XorValue64(0xBEB1_3DDA_13C2_ED4E, 0x5_F589_EED0, 0xBEB1_3DDA_13C2_ED4E, 0x5_F589_EED0, 0xBEB1_3DDF_E64B_039E);
    MulValue(W64, 0xBEB1_3DDF_E64B_039E, 0x1656_67B1_9E37_79F9, 0xEF46_DB37_BE9E_32AE);
    ShrValue(0xEF46_DB37_BE9E_32AE, 32, 0xEF46_DB37);
    XorValue64(0xEF46_DB37_BE9E_32AE, 0xEF46_DB37, 0xEF46_DB37_BE9E_32AE, 0xEF46_DB37, 0xEF46_DB37_51D8_E999);
  }

  lemma LetterByte32()
    ensures MixByte(W32, 0x1656_67B2, 97) == 0x6506_CBE8
  {
    hide Add, Mul, Rotl, Shr, Xor;
    MulValue(W32, 0x61, 0x1656_67B1, 0x76BD_4A11);
    AddValue(W32, 0x1656_67B2, 0x76BD_4A11, 0x8D13_B1C3);
    RotlValue(W32, 0x8D13_B1C3, 11, 0x468, 0x9D8E_1C68);
    MulValue(W32, 0x9D8E_1C68, 0x9E37_79B1, 0x6506_CBE8);
  }

  lemma LetterMix32()
    ensures Avalanche(W32, 0x6506_CBE8) == 0x550D_7456
  {
    hide Add, Mul, Rotl, Shr, Xor;
    ShrValue(0x6506_CBE8, 15, 0xCA0D);
    XorValue32(0x6506_CBE8, 0xCA0D, 0x6506_CBE8, 0xCA0D, 0x6506_01E5);
    MulValue(W32, 0x6506_01E5, 0x85EB_CA77, 0x6980_9373);
    ShrValue(0x6980_9373, 13, 0x3_4C04);
    XorValue32(0x6980_9373, 0x3_4C04, 0x6980_9373, 0x3_4C04, 0x6983_DF77);
    MulValue(W32, 0x6983_DF77, 0xC2B2_AE3D, 0x550D_215B);
    ShrValue(0x550D_215B, 16, 0x550D);
    XorValue32(0x550D_215B, 0x550D, 0x550D_215B, 0x550D, 0x550D_7456);
  }

  lemma LetterByte64()
    ensures MixByte(W64, 0x27D4_EB2F_1656_67C6, 97) == 0xB865_97E4_19D4_D215
  {
    hide Add, Mul, Rotl, Shr, Xor;
    MulValue(W64, 0x61, 0x27D4_EB2F_1656_67C5, 0x17AD_1CD7_76BD_51A5);
    XorValue64(0x27D4_EB2F_1656_67C6, 0x17AD_1CD7_76BD_51A5, 0x27D4_EB2F_1656_67C6,
               0x17AD_1CD7_76BD_51A5, 0x3079_F7F8_60EB_3663);
    RotlValue(W64, 0x3079_F7F8_60EB_3663, 11, 0x183, 0xCFBF_C307_59B3_1983);
    MulValue(W64, 0xCFBF_C307_59B3_1983, 0x9E37_79B1_85EB_CA87, 0xB865_97E4_19D4_D215);
  }

  lemma LetterMix64()
    ensures Avalanche(W64, 0xB865_97E4_19D4_D215) == 0xD24E_C4F1_A98C_6E5B
  {
    hide Add, Mul, Rotl, Shr, Xor;
    ShrValue(0xB865_97E4_19D4_D215, 33, 0x5C32_CBF2);
    XorValue64(0xB865_97E4_19D4_D215, 0x5C32_CBF2, 0xB865_97E4_19D4_D215, 0x5C32_CBF2, 0xB865_97E4_45E6_19E7);
    MulValue(W64, 0xB865_97E4_45E6_19E7, 0xC2B2_AE3D_27D4_EB4F, 0xD785_8A26_7015_0B49);
    ShrValue(0xD785_8A26_7015_0B49, 29, 0x6_BC2C_5133);
    XorValue64(0xD785_8A26_7015_0B49, 0x6_BC2C_5133, 0xD785_8A26_7015_0B49, 0x6_BC2C_5133, 0xD785_8A20_CC39_5A7A);
    MulValue(W64, 0xD785_8A20_CC39_5A7A, 0x1656_67B1_9E37_79F9, 0xD24E_C4F1_7BC2_AAAA);
    ShrValue(0xD24E_C4F1_7BC2_AAAA, 32, 0xD24E_C4F1);
    XorValue64(0xD24E_C4F1_7BC2_AAAA, 0xD24E_C4F1, 0xD24E_C4F1_7BC2_AAAA, 0xD24E_C4F1, 0xD24E_C4F1_A98C_6E5B);
  }

  lemma SanityWord()
    ensures MixWord(W64, 0x27D4_EB2F_1656_67D3, 0xDD2F_535E_4B1F_FF9E) == 0xB398_A4B2_0F24_F65A
  {
    hide Add, Mul, Rotl, Shr, Xor;
    MulValue(W64, 0xDD2F_535E_4B1F_FF9E, 0xC2B2_AE3D_27D4_EB4F, 0x38E3_AC26_4F5D_EBC2);
    AddValue(W64, 0x0, 0x38E3_AC26_4F5D_EBC2, 0x38E3_AC26_4F5D_EBC2);
    RotlValue(W64, 0x38E3_AC26_4F5D_EBC2, 31, 0x1C71_D613, 0x27AE_F5E1_1C71_D613);
    MulValue(W64, 0x27AE_F5E1_1C71_D613, 0x9E37_79B1_85EB_CA87, 0xD5AC_8902_3563_E205);
    XorValue64(0x27D4_EB2F_1656_67D3, 0xD5AC_8902_3563_E205, 0x27D4_EB2F_1656_67D3,
               0xD5AC_8902_3563_E205, 0xF278_622D_2335_85D6);
    RotlValue(W64, 0xF278_622D_2335_85D6, 27, 0x793_C311, 0x6919_AC2E_B793_C311);
    MulValue(W64, 0x6919_AC2E_B793_C311, 0x9E37_79B1_85EB_CA87, 0x2DAC_DA3A_4C72_47F7);
    AddValue(W64, 0x2DAC_DA3A_4C72_47F7, 0x85EB_CA77_C2B2_AE63, 0xB398_A4B2_0F24_F65A);
  }

  lemma SanityHalf()
    ensures MixHalf(0xB398_A4B2_0F24_F65A, 0x2A4D_54B5) == 0x2A21_F1E0_6460_3CA7
  {
    hide Add, Mul, Rotl, Shr, Xor;
    MulValue(W64, 0x2A4D_54B5, 0x9E37_79B1_85EB_CA87, 0xCB85_419B_1EC5_7D73);
    XorValue64(0xB398_A4B2_0F24_F65A, 0xCB85_419B_1EC5_7D73, 0xB398_A4B2_0F24_F65A,
               0xCB85_419B_1EC5_7D73, 0x781D_E529_11E1_8B29);
    RotlValue(W64, 0x781D_E529_11E1_8B29, 23, 0x3C_0EF2, 0x9488_F0C5_94BC_0EF2);
    MulValue(W64, 0x9488_F0C5_94BC_0EF2, 0xC2B2_AE3D_27D4_EB4F, 0x13CB_8A2E_C628_C2AE);
    AddValue(W64, 0x13CB_8A2E_C628_C2AE, 0x1656_67B1_9E37_79F9, 0x2A21_F1E0_6460_3CA7);
  }

  lemma SanityByte1()
    ensures MixByte(W64, 0x2A21_F1E0_6460_3CA7, 149) == 0xECBA_526D_8113_200A
  {
    hide Add, Mul, Rotl, Shr, Xor;
    MulValue(W64, 0x95, 0x27D4_EB2F_1656_67C5, 0x2EEC_E268_004A_65A9);
    XorValue64(0x2A21_F1E0_6460_3CA7, 0x2EEC_E268_004A_65A9, 0x2A21_F1E0_6460_3CA7,
               0x2EEC_E268_004A_65A9, 0x4CD_1388_642A_590E);
    RotlValue(W64, 0x4CD_1388_642A_590E, 11, 0x26, 0x689C_4321_52C8_7026);
    MulValue(W64, 0x689C_4321_52C8_7026, 0x9E37_79B1_85EB_CA87, 0xECBA_526D_8113_200A);
  }

  lemma SanityByte2()
    ensures MixByte(W64, 0xECBA_526D_8113_200A, 43) == 0x126D_2528_7043_FBB5
  {
    hide Add, Mul, Rotl, Shr, Xor;
    MulValue(W64, 0x2B, 0x27D4_EB2F_1656_67C5, 0xB0C3_80E8_C083_6E17);
    XorValue64(0xECBA_526D_8113_200A, 0xB0C3_80E8_C083_6E17, 0xECBA_526D_8113_200A,
               0xB0C3_80E8_C083_6E17, 0x5C79_D285_4190_4E1D);
    RotlValue(W64, 0x5C79_D285_4190_4E1D, 11, 0x2E3, 0xCE94_2A0C_8270_EAE3);
    MulValue(W64, 0xCE94_2A0C_8270_EAE3, 0x9E37_79B1_85EB_CA87, 0x126D_2528_7043_FBB5);
  }

  lemma SanityMix()
    ensures Avalanche(W64, 0x126D_2528_7043_FBB5) == 0xCFFA_8DB8_81BC_3A3D
  {
    hide Add, Mul, Rotl, Shr, Xor;
    ShrValue(0x126D_2528_7043_FBB5, 33, 0x936_9294);
    XorValue64(0x126D_2528_7043_FBB5, 0x936_9294, 0x126D_2528_7043_FBB5, 0x936_9294, 0x126D_2528_7975_6921);
    MulValue(W64, 0x126D_2528_7975_6921, 0xC2B2_AE3D_27D4_EB4F, 0xAA30_9218_5910_BC2F);
    ShrValue(0xAA30_9218_5910_BC2F, 29, 0x5_5184_90C2);
    XorValue64(0xAA30_9218_5910_BC2F, 0x5_5184_90C2, 0xAA30_9218_5910_BC2F, 0x5_5184_90C2, 0xAA30_921D_0894_2CED);
    MulValue(W64, 0xAA30_921D_0894_2CED, 0x1656_67B1_9E37_79F9, 0xCFFA_8DB8_4E46_B785);
    ShrValue(0xCFFA_8DB8_4E46_B785, 32, 0xCFFA_8DB8);
    XorValue64(0xCFFA_8DB8_4E46_B785, 0xCFFA_8DB8, 0xCFFA_8DB8_4E46_B785, 0xCFFA_8DB8, 0xCFFA_8DB8_81BC_3A3D);
  }

  lemma PhraseRounds32A()
    ensures Round(W32, 0x2423_4428, 0x6F62_6F4E) == 0x46A_700A
    ensures Round(W32, 0x85EB_CA77, 0x6920_7964) == 0xBFAD_F8E3
    ensures Round(W32, 0x0, 0x6570_736E) == 0x5B32_B4AA
    ensures Round(W32, 0x61C8_864F, 0x2073_7463) == 0x137E_5555
  {
    hide Add, Mul, Rotl, Shr, Xor;
    MulValue(W32, 0x6F62_6F4E, 0x85EB_CA77, 0x252F_4942);
    AddValue(W32, 0x2423_4428, 0x252F_4942, 0x4952_8D6A);
    RotlValue(W32, 0x4952_8D6A, 13, 0x92A, 0x51AD_492A);
    MulValue(W32, 0x51AD_492A, 0x9E37_79B1, 0x46A_700A);
    MulValue(W32, 0x6920_7964, 0x85EB_CA77, 0xE0AD_557C);
    AddValue(W32, 0x85EB_CA77, 0xE0AD_557C, 0x6699_1FF3);
    RotlValue(W32, 0x6699_1FF3, 13, 0xCD3, 0x23FE_6CD3);
    MulValue(W32, 0x23FE_6CD3, 0x9E37_79B1, 0xBFAD_F8E3);
    MulValue(W32, 0x6570_736E, 0x85EB_CA77, 0xFE54_7422);
    AddValue(W32, 0x0, 0xFE54_7422, 0xFE54_7422);
    RotlValue(W32, 0xFE54_7422, 13, 0x1FCA, 0x8E84_5FCA);
    MulValue(W32, 0x8E84_5FCA, 0x9E37_79B1, 0x5B32_B4AA);
    MulValue(W32, 0x2073_7463, 0x85EB_CA77, 0x7562_3805);
    AddValue(W32, 0x61C8_864F, 0x7562_3805, 0xD72A_BE54);
    RotlValue(W32, 0xD72A_BE54, 13, 0x1AE5, 0x57CA_9AE5);
    MulValue(W32, 0x57CA_9AE5, 0x9E37_79B1, 0x137E_5555);
  }

  lemma PhraseRounds32B()
    ensures Round(W32, 0x46A_700A, 0x2065_6874) == 0x719A_836E
    ensures Round(W32, 0xBFAD_F8E3, 0x6D61_7073) == 0x514C_1DE8
    ensures Round(W32, 0x5B32_B4AA, 0x6873_696D) == 0x97FA_4BA2
    ensures Round(W32, 0x137E_5555, 0x7065_7220) == 0x242A_97A2
  {
    hide Add, Mul, Rotl, Shr, Xor;
    MulValue(W32, 0x2065_6874, 0x85EB_CA77, 0x3A0B_15EC);
    AddValue(W32, 0x46A_700A, 0x3A0B_15EC, 0x3E75_85F6);
    RotlValue(W32, 0x3E75_85F6, 13, 0x7CE, 0xB0BE_C7CE);
    MulValue(W32, 0xB0BE_C7CE, 0x9E37_79B1, 0x719A_836E);
    MulValue(W32, 0x6D61_7073, 0x85EB_CA77, 0xB397_0375);
    AddValue(W32, 0xBFAD_F8E3, 0xB397_0375, 0x7344_FC58);
    RotlValue(W32, 0x7344_FC58, 13, 0xE68, 0x9F8B_0E68);
    MulValue(W32, 0x9F8B_0E68, 0x9E37_79B1, 0x514C_1DE8);
    MulValue(W32, 0x6873_696D, 0x85EB_CA77, 0x6E5_03AB);
    AddValue(W32, 0x5B32_B4AA, 0x6E5_03AB, 0x6217_B855);
    RotlValue(W32, 0x6217_B855, 13, 0xC42, 0xF70A_AC42);
    MulValue(W32, 0xF70A_AC42, 0x9E37_79B1, 0x97FA_4BA2);
    MulValue(W32, 0x7065_7220, 0x85EB_CA77, 0xAE95_4CE0);
    AddValue(W32, 0x137E_5555, 0xAE95_4CE0, 0xC213_A235);
    RotlValue(W32, 0xC213_A235, 13, 0x1842, 0x7446_B842);
    MulValue(W32, 0x7446_B842, 0x9E37_79B1, 0x242A_97A2);
  }

  lemma PhraseRotations32()
    ensures Add(W32, Add(W32, Add(W32, Rotl(W32, 0x719A_836E, 1), Rotl(W32, 0x514C_1DE8, 7)),
                    Rotl(W32, 0x97FA_4BA2, 12)), Rotl(W32, 0x242A_97A2, 18))
            == 0x8C86_B52D
  {
    hide Add, Mul, Rotl, Shr, Xor;
    RotlValue(W32, 0x719A_836E, 1, 0x0, 0xE335_06DC);
    RotlValue(W32, 0x514C_1DE8, 7, 0x28, 0xA60E_F428);
    RotlValue(W32, 0x97FA_4BA2, 12, 0x97F, 0xA4BA_297F);
    RotlValue(W32, 0x242A_97A2, 18, 0x90AA, 0x5E88_90AA);
    AddValue(W32, 0xE335_06DC, 0xA60E_F428, 0x8943_FB04);
    AddValue(W32, 0x8943_FB04, 0xA4BA_297F, 0x2DFE_2483);
    AddValue(W32, 0x2DFE_2483, 0x5E88_90AA, 0x8C86_B52D);
  }

  lemma PhraseWord()
    ensures MixWord(W32, 0x8C86_B554, 0x7469_7465) == 0x9B5_1544
  {
    hide Add, Mul, Rotl, Shr, Xor;
    MulValue(W32, 0x7469_7465, 0xC2B2_AE3D, 0xE277_6211);
    AddValue(W32, 0x8C86_B554, 0xE277_6211, 0x6EFE_1765);
    RotlValue(W32, 0x6EFE_1765, 17, 0xDDFC, 0x2ECA_DDFC);
    MulValue(W32, 0x2ECA_DDFC, 0x27D4_EB2F, 0x9B5_1544);
  }

  lemma PhraseBytes32()
    ensures MixByte(W32, 0x9B5_1544, 105) == 0xCDEF_D3C9
    ensures MixByte(W32, 0xCDEF_D3C9, 111) == 0x3852_087B
    ensures MixByte(W32, 0x3852_087B, 110) == 0xB3A7_011B
  {
    hide Add, Mul, Rotl, Shr, Xor;
    MulValue(W32, 0x69, 0x1656_67B1, 0x2970_8799);
    AddValue(W32, 0x9B5_1544, 0x2970_8799, 0x3325_9CDD);
    RotlValue(W32, 0x3325_9CDD, 11, 0x199, 0x2CE6_E999);
    MulValue(W32, 0x2CE6_E999, 0x9E37_79B1, 0xCDEF_D3C9);
    MulValue(W32, 0x6F, 0x1656_67B1, 0xAF76_F5BF);
    AddValue(W32, 0xCDEF_D3C9, 0xAF76_F5BF, 0x7D66_C988);
    RotlValue(W32, 0x7D66_C988, 11, 0x3EB, 0x364C_43EB);
    MulValue(W32, 0x364C_43EB, 0x9E37_79B1, 0x3852_087B);
    MulValue(W32, 0x6E, 0x1656_67B1, 0x9920_8E0E);
    AddValue(W32, 0x3852_087B, 0x9920_8E0E, 0xD172_9689);
    RotlValue(W32, 0xD172_9689, 11, 0x68B, 0x94B4_4E8B);
    MulValue(W32, 0x94B4_4E8B, 0x9E37_79B1, 0xB3A7_011B);
  }

  lemma PhraseMix32()
    ensures Avalanche(W32, 0xB3A7_011B) == 0xE229_3B2F
  {
    hide Add, Mul, Rotl, Shr, Xor;
    ShrValue(0xB3A7_011B, 15, 0x1_674E);
    XorValue32(0xB3A7_011B, 0x1_674E, 0xB3A7_011B, 0x1_674E, 0xB3A6_6655);
    MulValue(W32, 0xB3A6_6655, 0x85EB_CA77, 0xE81F_A383);
    ShrValue(0xE81F_A383, 13, 0x7_40FD);
    XorValue32(0xE81F_A383, 0x7_40FD, 0xE81F_A383, 0x7_40FD, 0xE818_E37E);
    MulValue(W32, 0xE818_E37E, 0xC2B2_AE3D, 0xE229_D906);
    ShrValue(0xE229_D906, 16, 0xE229);
    XorValue32(0xE229_D906, 0xE229, 0xE229_D906, 0xE229, 0xE229_3B2F);
  }

  lemma PhraseRounds64A()
    ensures Round(W64, 0x60EA_27EE_ADC0_B5D6, 0x6920_7964_6F62_6F4E) == 0x3724_5127_A406_7E4B
    ensures Round(W64, 0xC2B2_AE3D_27D4_EB4F, 0x2073_7463_6570_736E) == 0x1B30_2B0A_818F_92CF
  {
    hide Add, Mul, Rotl, Shr, Xor;
    MulValue(W64, 0x6920_7964_6F62_6F4E, 0xC2B2_AE3D_27D4_EB4F, 0x6F0_6E4C_CA24_F312);
    AddValue(W64, 0x60EA_27EE_ADC0_B5D6, 0x6F0_6E4C_CA24_F312, 0x67DA_963B_77E5_A8E8);
    RotlValue(W64, 0x67DA_963B_77E5_A8E8, 31, 0x33ED_4B1D, 0xBBF2_D474_33ED_4B1D);
    MulValue(W64, 0xBBF2_D474_33ED_4B1D, 0x9E37_79B1_85EB_CA87, 0x3724_5127_A406_7E4B);
    MulValue(W64, 0x2073_7463_6570_736E, 0xC2B2_AE3D_27D4_EB4F, 0xBEF8_90B5_E0C1_98F2);
    AddValue(W64, 0xC2B2_AE3D_27D4_EB4F, 0xBEF8_90B5_E0C1_98F2, 0x81AB_3EF3_0896_8441);
    RotlValue(W64, 0x81AB_3EF3_0896_8441, 31, 0x40D5_9F79, 0x844B_4220_C0D5_9F79);
    MulValue(W64, 0x844B_4220_C0D5_9F79, 0x9E37_79B1_85EB_CA87, 0x1B30_2B0A_818F_92CF);
  }

  lemma PhraseRounds64B()
    ensures Round(W64, 0x0, 0x6D61_7073_2065_6874) == 0xCD62_D843_D058_0FCA
    ensures Round(W64, 0x61C8_864E_7A14_3579, 0x7065_7220_6873_696D) == 0x1C16_E43E_F214_2A4A
  {
    hide Add, Mul, Rotl, Shr, Xor;
    MulValue(W64, 0x6D61_7073_2065_6874, 0xC2B2_AE3D_27D4_EB4F, 0xA62_64CC_423D_B7CC);
    AddValue(W64, 0x0, 0xA62_64CC_423D_B7CC, 0xA62_64CC_423D_B7CC);
    RotlValue(W64, 0xA62_64CC_423D_B7CC, 31, 0x531_3266, 0x211E_DBE6_0531_3266);
    MulValue(W64, 0x211E_DBE6_0531_3266, 0x9E37_79B1_85EB_CA87, 0xCD62_D843_D058_0FCA);
    MulValue(W64, 0x7065_7220_6873_696D, 0xC2B2_AE3D_27D4_EB4F, 0x7EC4_417E_16A8_97A3);
    AddValue(W64, 0x61C8_864E_7A14_3579, 0x7EC4_417E_16A8_97A3, 0xE08C_C7CC_90BC_CD1C);
    RotlValue(W64, 0xE08C_C7CC_90BC_CD1C, 31, 0x7046_63E6, 0x485E_668E_7046_63E6);
    MulValue(W64, 0x485E_668E_7046_63E6, 0x9E37_79B1_85EB_CA87, 0x1C16_E43E_F214_2A4A);
  }

  lemma PhraseRotations64()
    ensures Add(W64, Add(W64, Add(W64, Rotl(W64, 0x3724_5127_A406_7E4B, 1), Rotl(W64, 0x1B30_2B0A_818F_92CF, 7)),
                    Rotl(W64, 0xCD62_D843_D058_0FCA, 12)), Rotl(W64, 0x1C16_E43E_F214_2A4A, 18))
            == 0xC4DE_2CE6_39FB_8154
  {
    hide Add, Mul, Rotl, Shr, Xor;
    RotlValue(W64, 0x3724_5127_A406_7E4B, 1, 0x0, 0x6E48_A24F_480C_FC96);
    RotlValue(W64, 0x1B30_2B0A_818F_92CF, 7, 0xD, 0x9815_8540_C7C9_678D);
    RotlValue(W64, 0xCD62_D843_D058_0FCA, 12, 0xCD6, 0x2D84_3D05_80FC_ACD6);
    RotlValue(W64, 0x1C16_E43E_F214_2A4A, 18, 0x705B, 0x90FB_C850_A928_705B);
    AddValue(W64, 0x6E48_A24F_480C_FC96, 0x9815_8540_C7C9_678D, 0x65E_2790_0FD6_6423);
    AddValue(W64, 0x65E_2790_0FD6_6423, 0x2D84_3D05_80FC_ACD6, 0x33E2_6495_90D3_10F9);
    AddValue(W64, 0x33E2_6495_90D3_10F9, 0x90FB_C850_A928_705B, 0xC4DE_2CE6_39FB_8154);
  }

  lemma PhraseMerge1()
    ensures MergeRound(0xC4DE_2CE6_39FB_8154, 0x3724_5127_A406_7E4B) == 0x30D4_0DDD_00AE_A144
  {
    hide Add, Mul, Rotl, Shr, Xor;
    MulValue(W64, 0x3724_5127_A406_7E4B, 0xC2B2_AE3D_27D4_EB4F, 0xBF0E_534A_970B_D225);
    AddValue(W64, 0x0, 0xBF0E_534A_970B_D225, 0xBF0E_534A_970B_D225);
    RotlValue(W64, 0xBF0E_534A_970B_D225, 31, 0x5F87_29A5, 0x4B85_E912_DF87_29A5);
    MulValue(W64, 0x4B85_E912_DF87_29A5, 0x9E37_79B1_85EB_CA87, 0x7790_FF1F_7A9A_2803);
    XorValue64(0xC4DE_2CE6_39FB_8154, 0x7790_FF1F_7A9A_2803, 0xC4DE_2CE6_39FB_8154,
               0x7790_FF1F_7A9A_2803, 0xB34E_D3F9_4361_A957);
    MulValue(W64, 0xB34E_D3F9_4361_A957, 0x9E37_79B1_85EB_CA87, 0xAAE8_4365_3DFB_F2E1);
    AddValue(W64, 0xAAE8_4365_3DFB_F2E1, 0x85EB_CA77_C2B2_AE63, 0x30D4_0DDD_00AE_A144);
  }

  lemma PhraseMerge2()
    ensures MergeRound(0x30D4_0DDD_00AE_A144, 0x1B30_2B0A_818F_92CF) == 0xE5A1_F095_BF49_8698
  {
    hide Add, Mul, Rotl, Shr, Xor;
    MulValue(W64, 0x1B30_2B0A_818F_92CF, 0xC2B2_AE3D_27D4_EB4F, 0x40BC_C4C2_E37E_52E1);
    AddValue(W64, 0x0, 0x40BC_C4C2_E37E_52E1, 0x40BC_C4C2_E37E_52E1);
    RotlValue(W64, 0x40BC_C4C2_E37E_52E1, 31, 0x205E_6261, 0x71BF_2970_A05E_6261);
    MulValue(W64, 0x71BF_2970_A05E_6261, 0x9E37_79B1_85EB_CA87, 0xDECE_D6C0_BF71_6B27);
    XorValue64(0x30D4_0DDD_00AE_A144, 0xDECE_D6C0_BF71_6B27, 0x30D4_0DDD_00AE_A144,
               0xDECE_D6C0_BF71_6B27, 0xEE1A_DB1D_BFDF_CA63);
    MulValue(W64, 0xEE1A_DB1D_BFDF_CA63, 0x9E37_79B1_85EB_CA87, 0x5FB6_261D_FC96_D835);
    AddValue(W64, 0x5FB6_261D_FC96_D835, 0x85EB_CA77_C2B2_AE63, 0xE5A1_F095_BF49_8698);
  }

  lemma PhraseMerge3()
    ensures MergeRound(0xE5A1_F095_BF49_8698, 0xCD62_D843_D058_0FCA) == 0xF9CE_E721_E748_096D
  {
    hide Add, Mul, Rotl, Shr, Xor;
    MulValue(W64, 0xCD62_D843_D058_0FCA, 0xC2B2_AE3D_27D4_EB4F, 0x1917_FFA4_FAF3_4D56);
    AddValue(W64, 0x0, 0x1917_FFA4_FAF3_4D56, 0x1917_FFA4_FAF3_4D56);
    RotlValue(W64, 0x1917_FFA4_FAF3_4D56, 31, 0xC8B_FFD2, 0x7D79_A6AB_0C8B_FFD2);
    MulValue(W64, 0x7D79_A6AB_0C8B_FFD2, 0x9E37_79B1_85EB_CA87, 0x7007_3EB8_0575_9BBE);
    XorValue64(0xE5A1_F095_BF49_8698, 0x7007_3EB8_0575_9BBE, 0xE5A1_F095_BF49_8698,
               0x7007_3EB8_0575_9BBE, 0x95A6_CE2D_BA3C_1D26);
    MulValue(W64, 0x95A6_CE2D_BA3C_1D26, 0x9E37_79B1_85EB_CA87, 0x73E3_1CAA_2495_5B0A);
    AddValue(W64, 0x73E3_1CAA_2495_5B0A, 0x85EB_CA77_C2B2_AE63, 0xF9CE_E721_E748_096D);
  }

  lemma PhraseMerge4()
    ensures MergeRound(0xF9CE_E721_E748_096D, 0x1C16_E43E_F214_2A4A) == 0x84F2_2C42_1A11_A8B5
  {
    hide Add, Mul, Rotl, Shr, Xor;
    MulValue(W64, 0x1C16_E43E_F214_2A4A, 0xC2B2_AE3D_27D4_EB4F, 0x2898_226B_8252_FAD6);
    AddValue(W64, 0x0, 0x2898_226B_8252_FAD6, 0x2898_226B_8252_FAD6);
    RotlValue(W64, 0x2898_226B_8252_FAD6, 31, 0x144C_1135, 0xC129_7D6B_144C_1135);
    MulValue(W64, 0xC129_7D6B_144C_1135, 0x9E37_79B1_85EB_CA87, 0xC1CB_BAE5_0E57_E4F3);
    XorValue64(0xF9CE_E721_E748_096D, 0xC1CB_BAE5_0E57_E4F3, 0xF9CE_E721_E748_096D,
               0xC1CB_BAE5_0E57_E4F3, 0x3805_5DC4_E91F_ED9E);
    MulValue(W64, 0x3805_5DC4_E91F_ED9E, 0x9E37_79B1_85EB_CA87, 0xFF06_61CA_575E_FA52);
    AddValue(W64, 0xFF06_61CA_575E_FA52, 0x85EB_CA77_C2B2_AE63, 0x84F2_2C42_1A11_A8B5);
  }

  lemma PhraseHalf()
    ensures MixHalf(0x84F2_2C42_1A11_A8DC, 0x7469_7465) == 0x9FCA_0F5D_0AAA_110F
  {
    hide Add, Mul, Rotl, Shr, Xor;
    MulValue(W64, 0x7469_7465, 0x9E37_79B1_85EB_CA87, 0xE986_3933_EB2B_1343);
    XorValue64(0x84F2_2C42_1A11_A8DC, 0xE986_3933_EB2B_1343, 0x84F2_2C42_1A11_A8DC,
               0xE986_3933_EB2B_1343, 0x6D74_1571_F13A_BB9F);
    RotlValue(W64, 0x6D74_1571_F13A_BB9F, 23, 0x36_BA0A, 0xB8F8_9D5D_CFB6_BA0A);
    MulValue(W64, 0xB8F8_9D5D_CFB6_BA0A, 0xC2B2_AE3D_27D4_EB4F, 0x8973_A7AB_6C72_9716);
    AddValue(W64, 0x8973_A7AB_6C72_9716, 0x1656_67B1_9E37_79F9, 0x9FCA_0F5D_0AAA_110F);
  }

  lemma PhraseByte1()
    ensures MixByte(W64, 0x9FCA_0F5D_0AAA_110F, 105) == 0x7696_7154_6F21_BA14
  {
    hide Add, Mul, Rotl, Shr, Xor;
    MulValue(W64, 0x69, 0x27D4_EB2F_1656_67C5, 0x5654_7650_2970_8FCD);
    XorValue64(0x9FCA_0F5D_0AAA_110F, 0x5654_7650_2970_8FCD, 0x9FCA_0F5D_0AAA_110F,
               0x5654_7650_2970_8FCD, 0xC99E_790D_23DA_9EC2);
    RotlValue(W64, 0xC99E_790D_23DA_9EC2, 11, 0x64C, 0xF3C8_691E_D4F6_164C);
    MulValue(W64, 0xF3C8_691E_D4F6_164C, 0x9E37_79B1_85EB_CA87, 0x7696_7154_6F21_BA14);
  }

  lemma PhraseByte2()
    ensures MixByte(W64, 0x7696_7154_6F21_BA14, 111) == 0xEAE9_B643_C5F9_4E52
  {
    hide Add, Mul, Rotl, Shr, Xor;
    MulValue(W64, 0x6F, 0x27D4_EB2F_1656_67C5, 0x4551_F96A_AF76_FE6B);
    XorValue64(0x7696_7154_6F21_BA14, 0x4551_F96A_AF76_FE6B, 0x7696_7154_6F21_BA14,
               0x4551_F96A_AF76_FE6B, 0x33C7_883E_C057_447F);
    RotlValue(W64, 0x33C7_883E_C057_447F, 11, 0x19E, 0x3C41_F602_BA23_F99E);
    MulValue(W64, 0x3C41_F602_BA23_F99E, 0x9E37_79B1_85EB_CA87, 0xEAE9_B643_C5F9_4E52);
  }

  lemma PhraseByte3()
    ensures MixByte(W64, 0xEAE9_B643_C5F9_4E52, 110) == 0x1D0A_4748_3B37_CC24
  {
    hide Add, Mul, Rotl, Shr, Xor;
    MulValue(W64, 0x6E, 0x27D4_EB2F_1656_67C5, 0x1D7D_0E3B_9920_96A6);
    XorValue64(0xEAE9_B643_C5F9_4E52, 0x1D7D_0E3B_9920_96A6, 0xEAE9_B643_C5F9_4E52,
               0x1D7D_0E3B_9920_96A6, 0xF794_B878_5CD9_D8F4);
    RotlValue(W64, 0xF794_B878_5CD9_D8F4, 11, 0x7BC, 0xA5C3_C2E6_CEC7_A7BC);
    MulValue(W64, 0xA5C3_C2E6_CEC7_A7BC, 0x9E37_79B1_85EB_CA87, 0x1D0A_4748_3B37_CC24);
  }

  lemma PhraseMix64()
    ensures Avalanche(W64, 0x1D0A_4748_3B37_CC24) == 0xFBCE_A83C_8A37_8BF1
  {
    hide Add, Mul, Rotl, Shr, Xor;
    ShrValue(0x1D0A_4748_3B37_CC24, 33, 0xE85_23A4);
    XorValue64(0x1D0A_4748_3B37_CC24, 0xE85_23A4, 0x1D0A_4748_3B37_CC24, 0xE85_23A4, 0x1D0A_4748_35B2_EF80);
    MulValue(W64, 0x1D0A_4748_35B2_EF80, 0xC2B2_AE3D_27D4_EB4F, 0x5F02_14BE_AA12_6880);
    ShrValue(0x5F02_14BE_AA12_6880, 29, 0x2_F810_A5F5);
    XorValue64(0x5F02_14BE_AA12_6880, 0x2_F810_A5F5, 0x5F02_14BE_AA12_6880, 0x2_F810_A5F5, 0x5F02_14BC_5202_CD75);
    MulValue(W64, 0x5F02_14BC_5202_CD75, 0x1656_67B1_9E37_79F9, 0xFBCE_A83C_71F9_23CD);
    ShrValue(0xFBCE_A83C_71F9_23CD, 32, 0xFBCE_A83C);
    XorValue64(0xFBCE_A83C_71F9_23CD, 0xFBCE_A83C, 0xFBCE_A83C_71F9_23CD, 0xFBCE_A83C, 0xFBCE_A83C_8A37_8BF1);
  }
  // ---------------------------------------------------------------- given inputs

  /** The hash of an input shorter than a stripe, from its tail on. */
  lemma ShortHash(w: Width, data: seq<Byte>)
    requires |data| < w.Stripe()
    ensures Hash(w, data, 0) == Avalanche(w, FinishWords(w, w.Prime(5) + |data|, data))
  {
    hide FinishWords, Avalanche, TakeStripes, Leftover, Add, Wrap;
    ShortLanes(w, data);
    AddValue(w, 0, w.Prime(5), w.Prime(5));
    AddValue(w, w.Prime(5), |data|, w.Prime(5) + |data|);
    Unwrapped(w, |data|);
  }

  lemma Unwrapped(w: Width, n: nat)
    requires n < w.Modulus()
    ensures Wrap(w, n) == n
  {
  }

  lemma ShortLanes(w: Width, data: seq<Byte>)
    requires |data| < w.Stripe()
    ensures TakeStripes(w, InitialLanes(w, 0), data).v3 == 0 && Leftover(w, data) == data
  {
    hide Add, Sub;
  }

  lemma OneByte(w: Width, h: nat, b: Byte)
    ensures FinishWords(w, h, [b]) == MixByte(w, h, b)
  {
    hide MixByte;
    assert [b][1..] == [];
    assert FinishBytes(w, MixByte(w, h, b), []) == MixByte(w, h, b);
  }

  /** The hashes of nothing. */
  lemma EmptyHashes()
    ensures Hash(W32, [], 0) == 0x02CC_5D05 && Hash(W64, [], 0) == 0xEF46_DB37_51D8_E999
  {
    hide Avalanche;
    EmptyMix32();
    EmptyMix64();
    ShortHash(W32, []);
    ShortHash(W64, []);
  }

  /** Those of "a": a byte of tail. */
  lemma LetterHashes()
    ensures Hash(W32, [97], 0) == 0x550D_7456 && Hash(W64, [97], 0) == 0xD24E_C4F1_A98C_6E5B
  {
    hide Avalanche, MixByte, FinishWords;
    LetterByte32();
    LetterByte64();
    LetterMix32();
    LetterMix64();
    ShortHash(W32, [97]);
    ShortHash(W64, [97]);
    OneByte(W32, 0x1656_67B2, 97);
    OneByte(W64, 0x27D4_EB2F_1656_67C6, 97);
  }

  lemma Quarters(data: seq<Byte>, p: nat, k: nat)
    requires p + 4 * k <= |data|
    ensures var s := data[p..p + 4 * k];
            s[..k] == data[p..p + k] && s[k..2 * k] == data[p + k..p + 2 * k]
            && s[2 * k..3 * k] == data[p + 2 * k..p + 3 * k] && s[3 * k..] == data[p + 3 * k..p + 4 * k]
  {
    var s := data[p..p + 4 * k];
    assert s[..4 * k] == s;
    SameSlice(s, 4 * k, data, p, 0, k);
    SameSlice(s, 4 * k, data, p, k, 2 * k);
    SameSlice(s, 4 * k, data, p, 2 * k, 3 * k);
    SameSlice(s, 4 * k, data, p, 3 * k, 4 * k);
    assert s[3 * k..] == s[3 * k..4 * k];
  }

  /** The stripe at `p`. */
  lemma StripeAt(w: Width, l: Lanes, data: seq<Byte>, p: nat)
    requires p + w.Stripe() <= |data|
    ensures var k := w.Word();
            TakeStripe(w, l, data[p..p + w.Stripe()]) ==
            Lanes(Round(w, l.v1, FromLe(data[p..p + k])), Round(w, l.v2, FromLe(data[p + k..p + 2 * k])),
                  Round(w, l.v3, FromLe(data[p + 2 * k..p + 3 * k])),
                  Round(w, l.v4, FromLe(data[p + 3 * k..p + 4 * k])))
  {
    hide Round, FromLe;
    var k := w.Word();
    assert w.Stripe() == 4 * k;
    Quarters(data, p, k);
  }

  lemma NextWord(w: Width, h: nat, t: seq<Byte>)
    requires |t| >= w.Word()
    ensures FinishWords(w, h, t) == FinishWords(w, MixWord(w, h, FromLe(t[..w.Word()])), t[w.Word()..])
  {
    hide MixWord, FromLe, FinishHalf;
  }

  /** The half word and what follows it. */
  lemma NextHalf(h: nat, t: seq<Byte>)
    requires 4 <= |t| < 8
    ensures FinishWords(W64, h, t) == FinishBytes(W64, MixHalf(h, FromLe(t[..4])), t[4..])
  {
    hide MixHalf, FromLe, FinishBytes;
  }

  lemma NoWord(h: nat, t: seq<Byte>)
    requires |t| < 4
    ensures FinishWords(W32, h, t) == FinishBytes(W32, h, t)
  {
    hide FinishBytes;
  }

  lemma TwoBytes(w: Width, h: nat, a: Byte, b: Byte)
    ensures FinishBytes(w, h, [a, b]) == MixByte(w, MixByte(w, h, a), b)
  {
    hide MixByte;
    assert [a, b][1..] == [b] && [b][1..] == [];
    assert FinishBytes(w, MixByte(w, h, a), [b]) == FinishBytes(w, MixByte(w, MixByte(w, h, a), b), []);
  }

  lemma ThreeBytes(w: Width, h: nat, a: Byte, b: Byte, c: Byte)
    ensures FinishBytes(w, h, [a, b, c]) == MixByte(w, MixByte(w, MixByte(w, h, a), b), c)
  {
    hide MixByte;
    assert [a, b, c][1..] == [b, c];
    TwoBytes(w, MixByte(w, h, a), b, c);
  }

  /** The first bytes of the buffer that xxHash's own self test hashes. */
  const SANITY: seq<Byte> := [158, 255, 31, 75, 94, 83, 47, 221, 181, 84, 77, 42, 149, 43]

  /** The 64-bit hash of 14 bytes: a word, a half word and two bytes of tail. */
  lemma SanityHash()
    ensures Hash(W64, SANITY, 0) == 0xCFFA_8DB8_81BC_3A3D
  {
    hide Avalanche, MixByte, MixWord, MixHalf, FinishWords, FinishBytes, FromLe, Hash;
    SanityWord();
    SanityHalf();
    SanityByte1();
    SanityByte2();
    SanityMix();
    ShortHash(W64, SANITY);
    EightBytes(SANITY[..8]);
    assert SANITY[..8][..4] == SANITY[..4] && SANITY[..8][4..] == SANITY[4..8];
    FourBytes(SANITY[..4]);
    FourBytes(SANITY[4..8]);
    NextWord(W64, 0x27D4_EB2F_1656_67D3, SANITY);
    var t := SANITY[8..];
    assert t[..4] == [181, 84, 77, 42] && t[4..] == [149, 43];
    FourBytes(t[..4]);
    NextHalf(0xB398_A4B2_0F24_F65A, t);
    TwoBytes(W64, 0x2A21_F1E0_6460_3CA7, 149, 43);
  }

  /** "Nobody inspects the spammish repetition". */
  const PHRASE_A: seq<Byte> := [78, 111, 98, 111, 100, 121, 32, 105, 110, 115, 112, 101, 99, 116, 115, 32]
  const PHRASE_B: seq<Byte> := [116, 104, 101, 32, 115, 112, 97, 109, 109, 105, 115, 104, 32, 114, 101, 112]
  const PHRASE_C: seq<Byte> := [101, 116, 105, 116, 105, 111, 110]
  const PHRASE := PHRASE_A + PHRASE_B + PHRASE_C

  /** Four bytes of the phrase from `at` on, which is `k` in this part of it. */
  lemma WordAt(s: seq<Byte>, at: nat, part: seq<Byte>, k: nat, a: Byte, b: Byte, c: Byte, d: Byte)
    requires at >= k && k + 4 <= |part| && at - k + |part| <= |s| && s[at - k..at - k + |part|] == part
    requires part[k] == a && part[k + 1] == b && part[k + 2] == c && part[k + 3] == d
    ensures FromLe(s[at..at + 4]) == a as nat + 0x100 * b as nat + 0x1_0000 * c as nat + 0x100_0000 * d as nat
  {
    hide FromLe;
    var t := s[at - k..at - k + |part|];
    assert t[k] == s[at] && t[k + 1] == s[at + 1] && t[k + 2] == s[at + 2] && t[k + 3] == s[at + 3];
    FourBytes(s[at..at + 4]);
  }

  lemma PhraseParts()
    ensures |PHRASE| == 39
    ensures PHRASE[0..16] == PHRASE_A && PHRASE[16..32] == PHRASE_B && PHRASE[32..39] == PHRASE_C
  {
  }

  lemma PhraseWordsA()
    ensures FromLe(PHRASE[0..4]) == 0x6F62_6F4E
    ensures FromLe(PHRASE[4..8]) == 0x6920_7964
  {
    hide FromLe, PHRASE;
    PhraseParts();
    WordAt(PHRASE, 0, PHRASE_A, 0, 78, 111, 98, 111);
    WordAt(PHRASE, 4, PHRASE_A, 4, 100, 121, 32, 105);
  }

  lemma PhraseWordsB()
    ensures FromLe(PHRASE[8..12]) == 0x6570_736E
    ensures FromLe(PHRASE[12..16]) == 0x2073_7463
  {
    hide FromLe, PHRASE;
    PhraseParts();
    WordAt(PHRASE, 8, PHRASE_A, 8, 110, 115, 112, 101);
    WordAt(PHRASE, 12, PHRASE_A, 12, 99, 116, 115, 32);
  }

  lemma PhraseWordsC()
    ensures FromLe(PHRASE[16..20]) == 0x2065_6874
    ensures FromLe(PHRASE[20..24]) == 0x6D61_7073
  {
    hide FromLe, PHRASE;
    PhraseParts();
    WordAt(PHRASE, 16, PHRASE_B, 0, 116, 104, 101, 32);
    WordAt(PHRASE, 20, PHRASE_B, 4, 115, 112, 97, 109);
  }

  lemma PhraseWordsD()
    ensures FromLe(PHRASE[24..28]) == 0x6873_696D
    ensures FromLe(PHRASE[28..32]) == 0x7065_7220
  {
    hide FromLe, PHRASE;
    PhraseParts();
    WordAt(PHRASE, 24, PHRASE_B, 8, 109, 105, 115, 104);
    WordAt(PHRASE, 28, PHRASE_B, 12, 32, 114, 101, 112);
  }

  lemma PhraseWordE()
    ensures FromLe(PHRASE[32..36]) == 0x7469_7465
  {
    hide FromLe, PHRASE;
    PhraseParts();
    WordAt(PHRASE, 32, PHRASE_C, 0, 101, 116, 105, 116);
  }

  lemma PhraseWords64()
    ensures FromLe(PHRASE[0..8]) == 0x6920_7964_6F62_6F4E
    ensures FromLe(PHRASE[8..16]) == 0x2073_7463_6570_736E
    ensures FromLe(PHRASE[16..24]) == 0x6D61_7073_2065_6874
    ensures FromLe(PHRASE[24..32]) == 0x7065_7220_6873_696D
  {
    hide FromLe;
    PhraseWordsA();
    PhraseWordsB();
    PhraseWordsC();
    PhraseWordsD();
    EightBytes(PHRASE[0..8]);
    assert PHRASE[0..8][..4] == PHRASE[0..4] && PHRASE[0..8][4..] == PHRASE[4..8];
    EightBytes(PHRASE[8..16]);
    assert PHRASE[8..16][..4] == PHRASE[8..12] && PHRASE[8..16][4..] == PHRASE[12..16];
    EightBytes(PHRASE[16..24]);
    assert PHRASE[16..24][..4] == PHRASE[16..20] && PHRASE[16..24][4..] == PHRASE[20..24];
    EightBytes(PHRASE[24..32]);
    assert PHRASE[24..32][..4] == PHRASE[24..28] && PHRASE[24..32][4..] == PHRASE[28..32];
  }

  lemma NextStripeTaken(w: Width, l: Lanes, s: seq<Byte>)
    requires |s| >= w.Stripe()
    ensures TakeStripes(w, l, s) == TakeStripes(w, TakeStripe(w, l, s[..w.Stripe()]), s[w.Stripe()..])
    ensures Leftover(w, s) == Leftover(w, s[w.Stripe()..])
  {
    hide TakeStripe;
  }

  lemma NoStripe(w: Width, l: Lanes, s: seq<Byte>)
    requires |s| < w.Stripe()
    ensures TakeStripes(w, l, s) == l && Leftover(w, s) == s
  {
  }

  lemma AddTwice(w: Width, a: nat, b: nat, c: nat)
    ensures Add(w, Add(w, a, b), c) == Wrap(w, a + b + c)
  {
    var m := w.Modulus();
    ModAdds(a + b, c, m);
    ModAdds((a + b) % m, c, m);
    ModBound(a + b, m);
    ModUnique((a + b) % m, m, 0, (a + b) % m);
  }

  lemma AddWrapped(w: Width, a: nat, b: nat)
    ensures Add(w, Wrap(w, a), b) == Wrap(w, a + b)
  {
    hide Wrap;
    AddTwice(w, a, 0, b);
    assert Add(w, a, 0) == Wrap(w, a);
  }

  /** Every lane starts at the seed's distance from where it starts without one. */
  lemma SeedShiftsLanes(w: Width, seed: nat)
    ensures var l, l0 := InitialLanes(w, seed), InitialLanes(w, 0);
            l == Lanes(Add(w, l0.v1, seed), Add(w, l0.v2, seed), Add(w, l0.v3, seed), Add(w, l0.v4, seed))
  {
    hide Wrap;
    var p1, p2 := w.Prime(1), w.Prime(2);
    AddTwice(w, seed, p1, p2);
    AddTwice(w, 0, p1, p2);
    AddWrapped(w, p1 + p2, seed);
    AddWrapped(w, p2, seed);
    AddWrapped(w, 0, seed);
    AddWrapped(w, w.Modulus() - p1, seed);
  }

  lemma FirstLanes32()
    ensures InitialLanes(W32, 0) == Lanes(0x2423_4428, 0x85EB_CA77, 0x0, 0x61C8_864F)
  {
  }

  lemma FirstLanes64()
    ensures InitialLanes(W64, 0) == Lanes(0x60EA_27EE_ADC0_B5D6, 0xC2B2_AE3D_27D4_EB4F, 0x0, 0x61C8_864E_7A14_3579)
  {
  }

  lemma PhraseStripes32()
    ensures TakeStripes(W32, InitialLanes(W32, 0), PHRASE)
            == Lanes(0x719A_836E, 0x514C_1DE8, 0x97FA_4BA2, 0x242A_97A2)
    ensures Leftover(W32, PHRASE) == PHRASE[32..]
  {
    hide TakeStripe, TakeStripes, Leftover, InitialLanes, Round, FromLe;
    PhraseWordsA();
    PhraseWordsB();
    PhraseWordsC();
    PhraseWordsD();
    PhraseRounds32A();
    PhraseRounds32B();
    FirstLanes32();
    var l, l1 := InitialLanes(W32, 0), Lanes(0x46A_700A, 0xBFAD_F8E3, 0x5B32_B4AA, 0x137E_5555);
    StripeAt(W32, l, PHRASE, 0);
    StripeAt(W32, l1, PHRASE, 16);
    var rest := PHRASE[16..];
    assert PHRASE[..16] == PHRASE[0..16] && rest[..16] == PHRASE[16..32] && rest[16..] == PHRASE[32..];
    NextStripeTaken(W32, l, PHRASE);
    NextStripeTaken(W32, l1, rest);
    NoStripe(W32, Lanes(0x719A_836E, 0x514C_1DE8, 0x97FA_4BA2, 0x242A_97A2), PHRASE[32..]);
  }

  lemma PhraseStripes64()
    ensures TakeStripes(W64, InitialLanes(W64, 0), PHRASE)
            == Lanes(0x3724_5127_A406_7E4B, 0x1B30_2B0A_818F_92CF, 0xCD62_D843_D058_0FCA, 0x1C16_E43E_F214_2A4A)
    ensures Leftover(W64, PHRASE) == PHRASE[32..]
  {
    hide TakeStripe, TakeStripes, Leftover, InitialLanes, Round, FromLe;
    PhraseWords64();
    PhraseRounds64A();
    PhraseRounds64B();
    FirstLanes64();
    var l := InitialLanes(W64, 0);
    StripeAt(W64, l, PHRASE, 0);
    assert PHRASE[..32] == PHRASE[0..32];
    NextStripeTaken(W64, l, PHRASE);
    NoStripe(W64, Lanes(0x3724_5127_A406_7E4B, 0x1B30_2B0A_818F_92CF, 0xCD62_D843_D058_0FCA, 0x1C16_E43E_F214_2A4A),
                        PHRASE[32..]);
  }

  /** Two stripes, a word and three bytes of tail. */
  lemma PhraseHash32()
    ensures Hash(W32, PHRASE, 0) == 0xE229_3B2F
  {
    hide Avalanche, MixByte, MixWord, FinishWords, FinishBytes, FromLe, TakeStripes, Leftover, InitialLanes, Rotl, Add;
    PhraseStripes32();
    PhraseRotations32();
    AddValue(W32, 0x8C86_B52D, 39, 0x8C86_B554);
    PhraseWord();
    PhraseBytes32();
    PhraseMix32();
    var t := PHRASE[32..];
    assert t == PHRASE_C && t[..4] == PHRASE[32..36] && t[4..] == [105, 111, 110];
    PhraseWordE();
    NextWord(W32, 0x8C86_B554, t);
    NoWord(0x9B5_1544, t[4..]);
    ThreeBytes(W32, 0x9B5_1544, 105, 111, 110);
  }

  /** One stripe, a half word and three bytes of tail. */
  lemma PhraseHash64()
    ensures Hash(W64, PHRASE, 0) == 0xFBCE_A83C_8A37_8BF1
  {
    hide Avalanche, MixByte, MixHalf, FinishWords, FinishBytes, FromLe, TakeStripes, Leftover, InitialLanes, Rotl, Add;
    hide MergeRound;
    PhraseStripes64();
    PhraseRotations64();
    PhraseMerge1();
    PhraseMerge2();
    PhraseMerge3();
    PhraseMerge4();
    AddValue(W64, 0x84F2_2C42_1A11_A8B5, 39, 0x84F2_2C42_1A11_A8DC);
    PhraseHalf();
    PhraseByte1();
    PhraseByte2();
    PhraseByte3();
    PhraseMix64();
    var t := PHRASE[32..];
    assert t == PHRASE_C && t[..4] == PHRASE[32..36] && t[4..] == [105, 111, 110];
    PhraseWordE();
    NextHalf(0x84F2_2C42_1A11_A8DC, t);
    ThreeBytes(W64, 0x9FCA_0F5D_0AAA_110F, 105, 111, 110);
  }
}
