module GoldilocksCertificate {
  import opened NumberTheory

  /** The Goldilocks prime, 2^64 - 2^32 + 1. */
  const P: nat := 0xFFFF_FFFF_0000_0001

  lemma PowSum(g: nat, a: nat, b: nat, m: nat, x: nat, y: nat, z: nat)
    requires m > 1 && Pow(g, a, m) == x && Pow(g, b, m) == y && (x * y) % m == z
    ensures Pow(g, a + b, m) == z
  {
    PowAdd(g, a, b, m);
  }

  lemma Double1(g: nat, e: nat, m: nat, x0: nat, x1: nat)
    requires m > 1 && Pow(g, e, m) == x0 && (x0 * x0) % m == x1
    ensures Pow(g, 2 * e, m) == x1
  {
    PowAdd(g, e, e, m);
  }

  lemma Double2(g: nat, e: nat, m: nat, x0: nat, x1: nat, x2: nat)
    requires m > 1 && Pow(g, e, m) == x0 && (x0 * x0) % m == x1 && (x1 * x1) % m == x2
    ensures Pow(g, 4 * e, m) == x2
  {
    Double1(g, e, m, x0, x1);
    Double1(g, 2 * e, m, x1, x2);
  }

  lemma Double4(g: nat, e: nat, m: nat, x0: nat, x1: nat, x2: nat, x3: nat, x4: nat)
    requires m > 1 && Pow(g, e, m) == x0 && (x0 * x0) % m == x1 && (x1 * x1) % m == x2
    requires (x2 * x2) % m == x3 && (x3 * x3) % m == x4
    ensures Pow(g, 16 * e, m) == x4
  {
    Double2(g, e, m, x0, x1, x2);
    Double2(g, 4 * e, m, x2, x3, x4);
  }

  lemma Double8(g: nat, e: nat, m: nat, x0: nat, x1: nat, x2: nat, x3: nat,
                x4: nat, x5: nat, x6: nat, x7: nat, x8: nat)
    requires m > 1 && Pow(g, e, m) == x0 && (x0 * x0) % m == x1 && (x1 * x1) % m == x2
    requires (x2 * x2) % m == x3 && (x3 * x3) % m == x4 && (x4 * x4) % m == x5
    requires (x5 * x5) % m == x6 && (x6 * x6) % m == x7 && (x7 * x7) % m == x8
    ensures Pow(g, 256 * e, m) == x8
  {
    Double4(g, e, m, x0, x1, x2, x3, x4);
    Double4(g, 16 * e, m, x4, x5, x6, x7, x8);
  }

  lemma PowOfOne(g: nat, m: nat)
    requires m > g
    requires m > 1
    ensures Pow(g, 1, m) == g
  {
    RemainderUnique(g, m, 0, g);
  }

  // ----- the prime factors of P - 1 are 2 and the five known Fermat primes -----

  function TwosThen(k: nat, rest: seq<nat>): (s: seq<nat>) {
    if k == 0 then rest else [2] + TwosThen(k - 1, rest)
  }

  function PowerOfTwo(k: nat): (r: nat) {
    if k == 0 then 1 else 2 * PowerOfTwo(k - 1)
  }

  lemma {:induction false} TwosProduct(k: nat, rest: seq<nat>, c: nat)
    requires Product(rest) == c
    ensures Product(TwosThen(k, rest)) == PowerOfTwo(k) * c
    ensures forall q :: q in TwosThen(k, rest) ==> q == 2 || q in rest
  {
    if k > 0 {
      TwosProduct(k - 1, rest, c);
      assert TwosThen(k, rest)[1..] == TwosThen(k - 1, rest);
      var p := PowerOfTwo(k - 1);
      assert 2 * (p * c) == (2 * p) * c;
    }
  }

  lemma MinusOneSquared(n: nat)
    requires n > 1
    ensures ((n - 1) * (n - 1)) % n == 1
  {
    assert (n - 1) * (n - 1) == (n - 2) * n + 1;
    RemainderUnique((n - 1) * (n - 1), n, n - 2, 1);
  }

  lemma EmptyProduct()
    ensures Product([]) == 1
  {
  }

  lemma EvenPower(k: nat)
    requires k > 0
    ensures PowerOfTwo(k) % 2 == 0
  {
  }

  lemma PowersOfTwo()
    ensures PowerOfTwo(16) == 0x1_0000 && PowerOfTwo(32) == 0x1_0000_0000
  {
    assert PowerOfTwo(6) == 0x40;
    assert PowerOfTwo(12) == 0x1000;
    assert PowerOfTwo(18) == 0x4_0000;
    assert PowerOfTwo(24) == 0x100_0000;
    assert PowerOfTwo(30) == 0x4000_0000;
  }

  /** Pépin's test: one power of g decides a Fermat number. */
  lemma FermatPrime(n: nat, g: nat, k: nat)
    requires n > 2 && n - 1 == PowerOfTwo(k) && k > 0
    requires Pow(g, (n - 1) / 2, n) == n - 1
    ensures IsPrime(n)
  {
    hide Pow, Product, TwosThen, PowerOfTwo;
    var e := (n - 1) / 2;
    PowAdd(g, e, e, n);
    MinusOneSquared(n);
    EmptyProduct();
    TwosProduct(k, [], 1);
    EvenPower(k);
    assert IsPrime(2);
    var qs := TwosThen(k, []);
    forall i | 0 <= i < |qs|
      ensures IsPrime(qs[i]) && !IsExponent(g, qs[i], n)
    {
      assert qs[i] in qs;
    }
    CertifiedPrime(n, g, qs);
  }

  lemma Prime3()
    ensures IsPrime(3)
  {
    hide Pow;
    PowOfOne(2, 3);
    FermatPrime(3, 2, 1);
  }

  lemma Prime5()
    ensures IsPrime(5)
  {
    hide Pow;
    PowOfOne(2, 5);
    Double1(2, 1, 5, 2, 4);
    FermatPrime(5, 2, 2);
  }

  lemma Prime17()
    ensures IsPrime(17)
  {
    hide Pow;
    PowOfOne(3, 17);
    Double2(3, 1, 17, 3, 9, 13);
    Double1(3, 4, 17, 13, 16);
    FermatPrime(17, 3, 4);
  }

  lemma Prime257()
    ensures IsPrime(257)
  {
    hide Pow;
    PowOfOne(3, 257);
    Double4(3, 1, 257, 3, 9, 81, 136, 249);
    Double2(3, 16, 257, 249, 64, 241);
    Double1(3, 64, 257, 241, 256);
    FermatPrime(257, 3, 8);
  }

  lemma Prime65537()
    ensures IsPrime(65537)
  {
    hide Pow;
    PowOfOne(3, 65537);
    Double8(3, 1, 65537, 3, 9, 81, 6561, 54449, 61869, 19139, 15028, 282);
    Double4(3, 256, 65537, 282, 13987, 8224, 65529, 64);
    Double2(3, 4096, 65537, 64, 4096, 65281);
    Double1(3, 16384, 65537, 65281, 65536);
    PowersOfTwo();
    FermatPrime(65537, 3, 16);
  }

  lemma Power31()
    ensures Pow(7, 0x8000_0000, P) == 0xF132_3B7A_CAB0_9084
  {
    hide Pow;
    PowOfOne(7, P);
    Double8(7, 0x1, P, 0x7, 0x31, 0x961, 0x0057_F6C1, 0x1E39_A505_7D81, 0x33CD_C300_6AFF_AB59, 0x9C23_2DFB_69AB_851E,
            0xA8C0_0422_5447_0173, 0x1553_5AD6_9462_D090);
    Double8(7, 0x100, P, 0x1553_5AD6_9462_D090, 0xFEF4_5A86_9AAB_8679, 0x21BE_CCB8_B6D8_F6FA, 0x583C_F0D9_02A8_6ABC,
            0x8BF1_2873_1AB1_A0B5, 0xD17A_D58E_E893_A7D2, 0xFAA3_79DA_87A7_F914, 0x9220_D622_D5CF_1603,
            0x9AD5_0A05_4DA1_207F);
    Double8(7, 0x0001_0000, P, 0x9AD5_0A05_4DA1_207F, 0xA452_F750_DD9B_8A44, 0x1415_F3B2_BCE0_9454,
            0xD3DB_3F11_768A_E838, 0xB446_26E0_5EDF_0086, 0xE4DE_14A4_047C_B0BF, 0xF4D8_5BD7_E852_EC36,
            0x3D56_E129_7235_21FD, 0x6402_E9B2_8E42_BFE3);
    Double4(7, 0x0100_0000, P, 0x6402_E9B2_8E42_BFE3, 0xF7FD_0E66_3289_5A3A, 0x4444_7512_BD52_434A,
            0xC878_1611_02D0_F705, 0xF52D_AC93_873E_B7CE);
    Double2(7, 0x1000_0000, P, 0xF52D_AC93_873E_B7CE, 0x4BF5_4669_63DD_8AAE, 0x392E_C704_9F67_A8B5);
    Double1(7, 0x4000_0000, P, 0x392E_C704_9F67_A8B5, 0xF132_3B7A_CAB0_9084);
  }

  lemma PowerHalf()
    ensures Pow(7, 0x7FFF_FFFF_8000_0000, P) == 0xFFFF_FFFF_0000_0000
    ensures Pow(7, 0xFFFF_FFFF_0000_0000, P) == 0x1
  {
    hide Pow;
    Power31();
    Double1(7, 0x8000_0000, P, 0xF132_3B7A_CAB0_9084, 0xAA5B_2509_F86B_B4D4);
    PowSum(7, 0x0001_0000_0000, 0x8000_0000, P, 0xAA5B_2509_F86B_B4D4, 0xF132_3B7A_CAB0_9084, 0xE2C7_CBF7_4FD4_FABC);
    Double2(7, 0x0001_8000_0000, P, 0xE2C7_CBF7_4FD4_FABC, 0x11C3_7210_161A_0AA8, 0x9CDA_E742_EF12_8E1B);
    PowSum(7, 0x0006_0000_0000, 0x0001_8000_0000, P, 0x9CDA_E742_EF12_8E1B, 0xE2C7_CBF7_4FD4_FABC,
           0xC9F8_E732_2F37_943A);
    Double4(7, 0x0007_8000_0000, P, 0xC9F8_E732_2F37_943A, 0x9C78_64A4_2339_F298, 0xA77E_C2F1_9190_7C3B,
            0x4B55_223D_C0E9_C39C, 0xD6F3_AD33_A0A4_7EB4);
    PowSum(7, 0x0078_0000_0000, 0x0007_8000_0000, P, 0xD6F3_AD33_A0A4_7EB4, 0xC9F8_E732_2F37_943A,
           0x7C6D_90CE_C1EE_DB1F);
    Double8(7, 0x007F_8000_0000, P, 0x7C6D_90CE_C1EE_DB1F, 0xF415_55F9_BCDD_EFBF, 0x097D_C88F_27B3_AA5C,
            0x7A9F_B44C_2BF4_D5A4, 0x2E90_CD88_C0AE_8B5A, 0xF704_47BD_AD9E_B3CA, 0x9B2F_D461_2A32_6A25,
            0x9D83_EA9B_136C_176C, 0xB93F_58B1_44D1_3108);
    PowSum(7, 0x7F80_0000_0000, 0x007F_8000_0000, P, 0xB93F_58B1_44D1_3108, 0x7C6D_90CE_C1EE_DB1F,
           0x658F_57B6_ADAA_80C2);
    Double8(7, 0x7FFF_8000_0000, P, 0x658F_57B6_ADAA_80C2, 0x75AB_0DE7_0CF3_ED11, 0x2AEA_E1BC_8675_21B7,
            0xA649_340C_12B3_9ADD, 0x08E0_8BF0_3501_1EEB, 0xA412_3045_5B17_8F2E, 0xD2D7_4476_A5A0_096B,
            0x36BF_3810_4D1E_D025, 0xFE7E_F81C_130F_B44D);
    Double8(7, 0x007F_FF80_0000_0000, P, 0xFE7E_F81C_130F_B44D, 0xC3E8_4BD1_2F15_D698, 0x68E3_53DC_F391_EAF1,
            0xFB7F_F3B6_FC6E_7092, 0x1716_C532_DD4F_FF10, 0xA84B_35ED_6782_0B3E, 0xDBEF_E1DE_A482_182C,
            0x4675_1476_BF8D_1B43, 0x67D8_7D1F_4A61_EFE6);
    PowSum(7, 0x7FFF_8000_0000_0000, 0x7FFF_8000_0000, P, 0x67D8_7D1F_4A61_EFE6, 0x658F_57B6_ADAA_80C2,
           0xFFFF_FFFF_0000_0000);
    Double1(7, 0x7FFF_FFFF_8000_0000, P, 0xFFFF_FFFF_0000_0000, 0x1);
  }

  lemma PowerOver65537()
    ensures Pow(7, 0x0001_0000_0000, P) == 0xAA5B_2509_F86B_B4D4
    ensures Pow(7, 0x0003_0000_0000, P) == 0x11C3_7210_161A_0AA8
    ensures Pow(7, 0x000F_0000_0000, P) == 0x9C78_64A4_2339_F298
    ensures Pow(7, 0x00FF_0000_0000, P) == 0xF415_55F9_BCDD_EFBF
    ensures Pow(7, 0xFFFF_0000_0000, P) == 0x75AB_0DE7_0CF3_ED11
  {
    hide Pow;
    Power31();
    Double1(7, 0x8000_0000, P, 0xF132_3B7A_CAB0_9084, 0xAA5B_2509_F86B_B4D4);
    Double1(7, 0x0001_0000_0000, P, 0xAA5B_2509_F86B_B4D4, 0x4202_6581_5F34_16FD);
    PowSum(7, 0x0002_0000_0000, 0x0001_0000_0000, P, 0x4202_6581_5F34_16FD, 0xAA5B_2509_F86B_B4D4,
           0x11C3_7210_161A_0AA8);
    Double2(7, 0x0003_0000_0000, P, 0x11C3_7210_161A_0AA8, 0x9CDA_E742_EF12_8E1B, 0xD18D_4C58_124A_CC13);
    PowSum(7, 0x000C_0000_0000, 0x0003_0000_0000, P, 0xD18D_4C58_124A_CC13, 0x11C3_7210_161A_0AA8,
           0x9C78_64A4_2339_F298);
    Double4(7, 0x000F_0000_0000, P, 0x9C78_64A4_2339_F298, 0xA77E_C2F1_9190_7C3B, 0x4B55_223D_C0E9_C39C,
            0xD6F3_AD33_A0A4_7EB4, 0xC914_996F_4B14_9367);
    PowSum(7, 0x00F0_0000_0000, 0x000F_0000_0000, P, 0xC914_996F_4B14_9367, 0x9C78_64A4_2339_F298,
           0xF415_55F9_BCDD_EFBF);
    Double8(7, 0x00FF_0000_0000, P, 0xF415_55F9_BCDD_EFBF, 0x097D_C88F_27B3_AA5C, 0x7A9F_B44C_2BF4_D5A4,
            0x2E90_CD88_C0AE_8B5A, 0xF704_47BD_AD9E_B3CA, 0x9B2F_D461_2A32_6A25, 0x9D83_EA9B_136C_176C,
            0xB93F_58B1_44D1_3108, 0xBADB_ABEF_D6F6_E080);
    PowSum(7, 0xFF00_0000_0000, 0x00FF_0000_0000, P, 0xBADB_ABEF_D6F6_E080, 0xF415_55F9_BCDD_EFBF,
           0x75AB_0DE7_0CF3_ED11);
  }

  lemma PowerOver257()
    ensures Pow(7, 0x00FF_00FF_0000_0000, P) == 0x0DCF_40D2_9487_36A7
  {
    hide Pow;
    PowerOver65537();
    Double8(7, 0x00FF_0000_0000, P, 0xF415_55F9_BCDD_EFBF, 0x097D_C88F_27B3_AA5C, 0x7A9F_B44C_2BF4_D5A4,
            0x2E90_CD88_C0AE_8B5A, 0xF704_47BD_AD9E_B3CA, 0x9B2F_D461_2A32_6A25, 0x9D83_EA9B_136C_176C,
            0xB93F_58B1_44D1_3108, 0xBADB_ABEF_D6F6_E080);
    Double8(7, 0xFF00_0000_0000, P, 0xBADB_ABEF_D6F6_E080, 0x2496_AEE8_8E49_7B29, 0xCBC8_ED76_175B_5541,
            0x1F91_B175_968E_BE91, 0x557B_3982_E224_022D, 0xB168_9C45_B944_E8BE, 0xF97E_8FF6_D75A_3B90,
            0x5DBD_3FE2_A515_0716, 0xC017_D1CE_52F0_CB78);
    PowSum(7, 0x00FF_0000_0000_0000, 0x00FF_0000_0000, P, 0xC017_D1CE_52F0_CB78, 0xF415_55F9_BCDD_EFBF,
           0x0DCF_40D2_9487_36A7);
  }

  lemma PowerOver17()
    ensures Pow(7, 0x0F0F_0F0F_0000_0000, P) == 0xE23A_E4F9_49F9_787A
  {
    hide Pow;
    PowerOver65537();
    Double8(7, 0x000F_0000_0000, P, 0x9C78_64A4_2339_F298, 0xA77E_C2F1_9190_7C3B, 0x4B55_223D_C0E9_C39C,
            0xD6F3_AD33_A0A4_7EB4, 0xC914_996F_4B14_9367, 0xA966_4425_FFC5_D609, 0x05BB_9BA6_0E95_A1B9,
            0xDACC_1F5C_A395_B1D5, 0x32C0_99AB_3A62_B877);
    PowSum(7, 0x0F00_0000_0000, 0x000F_0000_0000, P, 0x32C0_99AB_3A62_B877, 0x9C78_64A4_2339_F298,
           0xED0B_EF76_0F3B_1B9D);
    Double8(7, 0x0F0F_0000_0000, P, 0xED0B_EF76_0F3B_1B9D, 0x86C8_FCB4_3B82_FD43, 0xFEB3_23D5_4C45_0756,
            0x3082_6FBC_A284_30C4, 0x2BF8_EA52_F0ED_293B, 0x327A_017A_4236_3030, 0x714C_BF70_E8F7_B0E7,
            0x25BC_0714_6DFC_EDC2, 0xCAB5_E687_D332_1B02);
    Double8(7, 0x000F_0F00_0000_0000, P, 0xCAB5_E687_D332_1B02, 0xF363_C576_1629_CBEF, 0xB8E2_7E42_A1E4_E751,
            0x03C5_46C6_4120_5C5C, 0x74F2_A46C_4A0C_0643, 0xEFB3_E5CC_B390_9976, 0xAFCC_3006_C279_E535,
            0xFB8A_BAA8_82ED_EDB5, 0x4452_89EF_A42C_46F2);
    PowSum(7, 0x0F0F_0000_0000_0000, 0x0F0F_0000_0000, P, 0x4452_89EF_A42C_46F2, 0xED0B_EF76_0F3B_1B9D,
           0xE23A_E4F9_49F9_787A);
  }

  lemma PowerOver5()
    ensures Pow(7, 0x3333_3333_0000_0000, P) == 0x130E_0794_8A9D_41D6
  {
    hide Pow;
    PowerOver65537();
    Double4(7, 0x0003_0000_0000, P, 0x11C3_7210_161A_0AA8, 0x9CDA_E742_EF12_8E1B, 0xD18D_4C58_124A_CC13,
            0xCE7A_E060_A07B_9400, 0x3752_C9F0_C3FC_EEA0);
    PowSum(7, 0x0030_0000_0000, 0x0003_0000_0000, P, 0x3752_C9F0_C3FC_EEA0, 0x11C3_7210_161A_0AA8,
           0x2ABF_65C0_506E_72FB);
    Double8(7, 0x0033_0000_0000, P, 0x2ABF_65C0_506E_72FB, 0xEC03_507C_C467_9324, 0x702D_975C_FB9A_7758,
            0xE85E_49CA_4004_9260, 0x0B08_4DB9_39F2_5692, 0x68BA_286E_EEAD_4EDB, 0x93D9_66B6_CBED_E890,
            0x0B7B_B81E_3F32_CCF9, 0x4E58_9C2D_37F3_55BA);
    PowSum(7, 0x3300_0000_0000, 0x0033_0000_0000, P, 0x4E58_9C2D_37F3_55BA, 0x2ABF_65C0_506E_72FB,
           0xB60B_27C4_5EFD_A2D3);
    Double8(7, 0x3333_0000_0000, P, 0xB60B_27C4_5EFD_A2D3, 0x897D_14D8_070B_A3FF, 0x5EB0_0819_94ED_CC4A,
            0x7467_5C69_6437_418A, 0xE1B2_CD9A_D428_E5A3, 0x06DB_5AEF_0890_F987, 0x1914_9CB8_313C_7C05,
            0xB8AF_1728_6FA1_4DA0, 0xFBA1_1182_29B4_B266);
    Double8(7, 0x0033_3300_0000_0000, P, 0xFBA1_1182_29B4_B266, 0x0F01_731B_CBB9_6C23, 0x8083_275A_9D89_131E,
            0x642D_096A_18B3_037E, 0xEA1C_F98B_281B_CF5F, 0xA5AE_4FD5_50E8_2CEE, 0x805A_35E8_32DD_E474,
            0xE3ED_27F5_2650_DEBA, 0x04E0_10D7_9EFF_B56B);
    PowSum(7, 0x3333_0000_0000_0000, 0x3333_0000_0000, P, 0x04E0_10D7_9EFF_B56B, 0xB60B_27C4_5EFD_A2D3,
           0x130E_0794_8A9D_41D6);
  }

  lemma PowerOver3()
    ensures Pow(7, 0x5555_5555_0000_0000, P) == 0xFFFF_FFFE_0000_0001
  {
    hide Pow;
    PowerOver65537();
    Double2(7, 0x0001_0000_0000, P, 0xAA5B_2509_F86B_B4D4, 0x4202_6581_5F34_16FD, 0x735A_2FCD_9A77_8A82);
    PowSum(7, 0x0004_0000_0000, 0x0001_0000_0000, P, 0x735A_2FCD_9A77_8A82, 0xAA5B_2509_F86B_B4D4,
           0x6BFB_C418_7247_8FA8);
    Double4(7, 0x0005_0000_0000, P, 0x6BFB_C418_7247_8FA8, 0xE585_5B2E_E493_54FD, 0x647A_A352_CCD9_B135,
            0x28B6_8D11_73EC_6D0D, 0x7F48_032E_8F2B_9345);
    PowSum(7, 0x0050_0000_0000, 0x0005_0000_0000, P, 0x7F48_032E_8F2B_9345, 0x6BFB_C418_7247_8FA8,
           0x41B1_05BB_C9CF_BBC7);
    Double8(7, 0x0055_0000_0000, P, 0x41B1_05BB_C9CF_BBC7, 0x9361_6668_5869_8720, 0xCBC7_8488_3126_4133,
            0x42E7_58E0_013D_1876, 0x2C71_F900_8155_B9C4, 0x54D8_6B0E_7223_DC98, 0xF9C4_5F9F_0379_A388,
            0x74BB_804A_575F_85E0, 0xC840_19F8_A0F3_6A92);
    PowSum(7, 0x5500_0000_0000, 0x0055_0000_0000, P, 0xC840_19F8_A0F3_6A92, 0x41B1_05BB_C9CF_BBC7,
           0x0202_8136_4BC5_00DE);
    Double8(7, 0x5555_0000_0000, P, 0x0202_8136_4BC5_00DE, 0x3321_26BC_4A68_AF81, 0x20CC_173C_92DE_0FC8,
            0x694C_E6F3_4C47_DD28, 0xADAE_CBCC_7A8B_9752, 0x7C6B_BCFA_54D2_F185, 0x5EF4_0FC2_26A7_3F01,
            0xAA10_8455_CC22_84E6, 0xA1C0_6D47_EEDC_19BB);
    Double8(7, 0x0055_5500_0000_0000, P, 0xA1C0_6D47_EEDC_19BB, 0x2E5A_F8EE_F4CC_FC5F, 0xB10E_5A08_65C0_B54B,
            0x2373_3464_8F24_C714, 0x05D3_6E72_4F51_BA43, 0x590F_63ED_089B_1B65, 0x0344_F20C_B37C_B617,
            0x27D4_7C0B_49F1_BB55, 0xE7B9_41F9_9397_CC7D);
    PowSum(7, 0x5555_0000_0000_0000, 0x5555_0000_0000, P, 0xE7B9_41F9_9397_CC7D, 0x0202_8136_4BC5_00DE,
           0xFFFF_FFFE_0000_0001);
  }
  const OddFactors: seq<nat> := [3, 5, 17, 257, 65537]
  const Factors: seq<nat> := TwosThen(32, OddFactors)

  lemma FactorsMultiplyToOrder()
    ensures Product(Factors) == P - 1
    ensures forall q :: q in Factors ==> q == 2 || q in OddFactors
  {
    assert Product([257, 65537]) == 16843009;
    assert Product([17, 257, 65537]) == 286331153;
    assert Product([5, 17, 257, 65537]) == 1431655765;
    PowersOfTwo();
    TwosProduct(32, OddFactors, 0xFFFF_FFFF);
  }

  /** 7 is certified as a primitive root modulo P. */
  lemma Certificate()
    ensures Certifies(P, 7, Factors)
  {
    hide Pow, Product, TwosThen;
    FactorsMultiplyToOrder();
    Prime3();
    Prime5();
    Prime17();
    Prime257();
    Prime65537();
    PowerHalf();
    PowerOver3();
    PowerOver5();
    PowerOver17();
    PowerOver257();
    PowerOver65537();
    assert IsPrime(2);
    forall i | 0 <= i < |Factors|
      ensures IsPrime(Factors[i]) && !IsExponent(7, Factors[i], P)
    {
      assert Factors[i] in Factors;
    }
  }
}
