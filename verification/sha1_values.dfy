/** The numbers of FIPS 180-4: where its constants come from, and the digest of "abc". */
module Sha1Values {
  import opened Sha1

  // ---------- the constants ----------

  /** The constant of each quarter is 2^30 times a square root: of 2, 3, 5 and 10. */
  lemma RoundConstants(t: nat)
    requires t < 80
    ensures var n, k := if t < 20 then 2 else if t < 40 then 3 else if t < 60 then 5 else 10, K(t) as int;
            k * k <= n * 0x1000_0000_0000_0000 < (k + 1) * (k + 1)
  {}

  /** In little-endian order the initial value counts up and down in hexadecimal digits. */
  lemma InitialValue()
    ensures var h := INITIAL;
            && Reversed(h.a) == [0x01, 0x23, 0x45, 0x67] && Reversed(h.b) == [0x89, 0xAB, 0xCD, 0xEF]
            && Reversed(h.c) == [0xFE, 0xDC, 0xBA, 0x98] && Reversed(h.d) == [0x76, 0x54, 0x32, 0x10]
            && Reversed(h.e) == [0xF0, 0xE1, 0xD2, 0xC3]
  {}

  function Reversed(w: Word): seq<Word> {
    [w & 0xFF, (w >> 8) & 0xFF, (w >> 16) & 0xFF, (w >> 24) & 0xFF]
  }

  // ---------- the digest of "abc" ----------

  const ABC: seq<Octet> := [0x61, 0x62, 0x63]

  /** The one block of the padded message. */
  predicate IsAbc(b: seq<Octet>)
    requires |b| == 64
  {
    && b[0] == 0x61 && b[1] == 0x62 && b[2] == 0x63 && b[3] == 0x80
    && (forall i | 4 <= i < 63 :: b[i] == 0) && b[63] == 0x18
  }

  lemma PaddedAbc()
    ensures |Padded(ABC)| == 64 && IsAbc(Padded(ABC))
  {
    assert BigEndian64(24) == [0, 0, 0, 0, 0, 0, 0, 24];
    assert ZeroCount(3) == 52;
  }

  lemma FourOctetValues()
    ensures FourOctets(0, 0, 0, 0) == 0 && FourOctets(0x61, 0x62, 0x63, 0x80) == 0x6162_6380 && FourOctets(0, 0, 0, 0x18) == 0x18
  {}

  lemma MessageWords(b: seq<Octet>)
    requires |b| == 64 && IsAbc(b)
    ensures Schedule(b, 0) == 0x6162_6380 && Schedule(b, 1) == 0 && Schedule(b, 2) == 0 && Schedule(b, 3) == 0
            && Schedule(b, 4) == 0 && Schedule(b, 5) == 0 && Schedule(b, 6) == 0 && Schedule(b, 7) == 0
            && Schedule(b, 8) == 0 && Schedule(b, 9) == 0 && Schedule(b, 10) == 0 && Schedule(b, 11) == 0
            && Schedule(b, 12) == 0 && Schedule(b, 13) == 0 && Schedule(b, 14) == 0 && Schedule(b, 15) == 0x18
  {
    hide FourOctets;
    FourOctetValues();
  }

  lemma Words1(b: seq<Octet>)
    requires |b| == 64 && IsAbc(b)
    ensures Schedule(b, 16) == 0xC2C4_C700 && Schedule(b, 17) == 0x0000_0000 && Schedule(b, 18) == 0x0000_0030 && Schedule(b, 19) == 0x8589_8E01
            && Schedule(b, 20) == 0x0000_0000 && Schedule(b, 21) == 0x0000_0060 && Schedule(b, 22) == 0x0B13_1C03 && Schedule(b, 23) == 0x0000_0030
            && Schedule(b, 24) == 0x8589_8EC1 && Schedule(b, 25) == 0x1626_3806 && Schedule(b, 26) == 0x0000_0000 && Schedule(b, 27) == 0x0000_0180
            && Schedule(b, 28) == 0x2C4C_700C && Schedule(b, 29) == 0x0000_00F0 && Schedule(b, 30) == 0x93AF_B507 && Schedule(b, 31) == 0x5898_E048
  {
    hide BlockWord, IsAbc;
    MessageWords(b);
  }

  lemma Words2(b: seq<Octet>)
    requires |b| == 64 && IsAbc(b)
    ensures Schedule(b, 32) == 0x8E9A_9202 && Schedule(b, 33) == 0x0000_0600 && Schedule(b, 34) == 0xB131_C0F0 && Schedule(b, 35) == 0x1626_3BC6
            && Schedule(b, 36) == 0x4EBE_D41E && Schedule(b, 37) == 0x6263_80A1 && Schedule(b, 38) == 0x1626_3806 && Schedule(b, 39) == 0x0000_18C0
            && Schedule(b, 40) == 0xD2E1_38C4 && Schedule(b, 41) == 0x0000_0F00 && Schedule(b, 42) == 0x3AFB_5079 && Schedule(b, 43) == 0x898E_04E5
            && Schedule(b, 44) == 0xE2BA_3C2B && Schedule(b, 45) == 0x0000_60C0 && Schedule(b, 46) == 0x053A_37CD && Schedule(b, 47) == 0x7445_8547
  {
    hide BlockWord, IsAbc;
    Words1(b);
  }

  lemma Words3(b: seq<Octet>)
    requires |b| == 64 && IsAbc(b)
    ensures Schedule(b, 48) == 0xDA94_15ED && Schedule(b, 49) == 0x2638_0A16 && Schedule(b, 50) == 0x6263_83A1 && Schedule(b, 51) == 0x4EBF_54DE
            && Schedule(b, 52) == 0x3835_B44B && Schedule(b, 53) == 0x0000_F600 && Schedule(b, 54) == 0x1E84_C7A3 && Schedule(b, 55) == 0x98E0_4D98
            && Schedule(b, 56) == 0x651D_16A0 && Schedule(b, 57) == 0x6265_8CA1 && Schedule(b, 58) == 0x4585_44D6 && Schedule(b, 59) == 0x4458_4CB7
            && Schedule(b, 60) == 0x7BA0_6619 && Schedule(b, 61) == 0x6380_AEA2 && Schedule(b, 62) == 0x0AE5_5269 && Schedule(b, 63) == 0x627B_49A1
  {
    hide BlockWord, IsAbc;
    Words2(b);
  }

  lemma Words4(b: seq<Octet>)
    requires |b| == 64 && IsAbc(b)
    ensures Schedule(b, 64) == 0x7CD4_5C9D && Schedule(b, 65) == 0x000F_0000 && Schedule(b, 66) == 0xFB50_753A && Schedule(b, 67) == 0xEC67_65E8
            && Schedule(b, 68) == 0xBA3C_2BE2 && Schedule(b, 69) == 0x0060_C000 && Schedule(b, 70) == 0x3A37_CD05 && Schedule(b, 71) == 0x4585_46F4
            && Schedule(b, 72) == 0xB859_9DD6 && Schedule(b, 73) == 0x380A_1A26 && Schedule(b, 74) == 0x01E0_2203 && Schedule(b, 75) == 0xE7CC_3456
            && Schedule(b, 76) == 0xE6E6_0B69 && Schedule(b, 77) == 0x00F6_0A00 && Schedule(b, 78) == 0x5795_EF4F && Schedule(b, 79) == 0x822E_0879
  {
    hide BlockWord, IsAbc;
    Words3(b);
  }

  lemma Rounds1(b: seq<Octet>)
    requires |b| == 64 && IsAbc(b)
    ensures Rounds(b, INITIAL, 10) == Hash(0x8351_F929, 0x4B6A_E328, 0x27A3_01F5, 0x664F_8C30, 0x0FF1_F290)
  {
    hide Schedule, IsAbc;
    MessageWords(b);
    assert Rounds(b, INITIAL, 0) == INITIAL;
    assert Rounds(b, INITIAL, 1).a == 0x0116_FC33 && Rounds(b, INITIAL, 2).a == 0x8990_536D;
    assert Rounds(b, INITIAL, 3).a == 0xA139_0F08 && Rounds(b, INITIAL, 4).a == 0xCDD8_E11B;
    assert Rounds(b, INITIAL, 5).a == 0xCFD4_99DE && Rounds(b, INITIAL, 6).a == 0x3FC7_CA40;
    assert Rounds(b, INITIAL, 7).a == 0x993E_30C1 && Rounds(b, INITIAL, 8).a == 0x9E8C_07D4;
    assert Rounds(b, INITIAL, 9).a == 0x4B6A_E328 && Rounds(b, INITIAL, 10).a == 0x8351_F929;
  }

  lemma Rounds2(b: seq<Octet>)
    requires |b| == 64 && IsAbc(b)
    ensures Rounds(b, INITIAL, 20) == Hash(0xFD9E_1D7D, 0xDC64_901D, 0x20AA_99CA, 0xD3A4_9608, 0xC82F_758B)
  {
    hide Schedule, IsAbc;
    MessageWords(b); Words1(b);
    Rounds1(b);
    assert Rounds(b, INITIAL, 11).a == 0xFBDA_9E89 && Rounds(b, INITIAL, 12).a == 0x6318_8FE4;
    assert Rounds(b, INITIAL, 13).a == 0x4607_B664 && Rounds(b, INITIAL, 14).a == 0x9128_F695;
    assert Rounds(b, INITIAL, 15).a == 0x196B_EE77 && Rounds(b, INITIAL, 16).a == 0x20BD_D62F;
    assert Rounds(b, INITIAL, 17).a == 0x4E92_5823 && Rounds(b, INITIAL, 18).a == 0x82AA_6728;
    assert Rounds(b, INITIAL, 19).a == 0xDC64_901D && Rounds(b, INITIAL, 20).a == 0xFD9E_1D7D;
  }

  lemma Rounds3(b: seq<Octet>)
    requires |b| == 64 && IsAbc(b)
    ensures Rounds(b, INITIAL, 30) == Hash(0xC5FB_AF5D, 0x8370_B52E, 0xD2AA_1365, 0x6F8D_7EF5, 0x1210_4EE9)
  {
    hide Schedule, IsAbc;
    Words1(b);
    Rounds2(b);
    assert Rounds(b, INITIAL, 21).a == 0x1A37_B0CA && Rounds(b, INITIAL, 22).a == 0x33A2_3BFC;
    assert Rounds(b, INITIAL, 23).a == 0x2128_3486 && Rounds(b, INITIAL, 24).a == 0xD541_F12D;
    assert Rounds(b, INITIAL, 25).a == 0xC756_7DC6 && Rounds(b, INITIAL, 26).a == 0x4841_3BA4;
    assert Rounds(b, INITIAL, 27).a == 0xBE35_FBD5 && Rounds(b, INITIAL, 28).a == 0x4AA8_4D97;
    assert Rounds(b, INITIAL, 29).a == 0x8370_B52E && Rounds(b, INITIAL, 30).a == 0xC5FB_AF5D;
  }

  lemma Rounds4(b: seq<Octet>)
    requires |b| == 64 && IsAbc(b)
    ensures Rounds(b, INITIAL, 40) == Hash(0x32DE_1CBA, 0x4C98_6405, 0xF718_E5CF, 0x03D4_47F6, 0xF72E_EC32)
  {
    hide Schedule, IsAbc;
    Words1(b); Words2(b);
    Rounds3(b);
    assert Rounds(b, INITIAL, 31).a == 0x1267_B407 && Rounds(b, INITIAL, 32).a == 0x3B84_5D33;
    assert Rounds(b, INITIAL, 33).a == 0x046F_AA0A && Rounds(b, INITIAL, 34).a == 0x2C0E_BC11;
    assert Rounds(b, INITIAL, 35).a == 0x2179_6AD4 && Rounds(b, INITIAL, 36).a == 0xDCBB_B0CB;
    assert Rounds(b, INITIAL, 37).a == 0x0F51_1FD8 && Rounds(b, INITIAL, 38).a == 0xDC63_973F;
    assert Rounds(b, INITIAL, 39).a == 0x4C98_6405 && Rounds(b, INITIAL, 40).a == 0x32DE_1CBA;
  }

  lemma Rounds5(b: seq<Octet>)
    requires |b| == 64 && IsAbc(b)
    ensures Rounds(b, INITIAL, 50) == Hash(0x1207_31C5, 0xBAF3_9337, 0xAFAB_40B2, 0x2806_E11B, 0x8714_787C)
  {
    hide Schedule, IsAbc;
    Words2(b); Words3(b);
    Rounds4(b);
    assert Rounds(b, INITIAL, 41).a == 0xFC87_DEDF && Rounds(b, INITIAL, 42).a == 0x970A_0D5C;
    assert Rounds(b, INITIAL, 43).a == 0x7F19_3DC5 && Rounds(b, INITIAL, 44).a == 0xEE1B_1AAF;
    assert Rounds(b, INITIAL, 45).a == 0x40F2_8E09 && Rounds(b, INITIAL, 46).a == 0x1C51_E1F2;
    assert Rounds(b, INITIAL, 47).a == 0xA01B_846C && Rounds(b, INITIAL, 48).a == 0xBEAD_02CA;
    assert Rounds(b, INITIAL, 49).a == 0xBAF3_9337 && Rounds(b, INITIAL, 50).a == 0x1207_31C5;
  }

  lemma Rounds6(b: seq<Octet>)
    requires |b| == 64 && IsAbc(b)
    ensures Rounds(b, INITIAL, 60) == Hash(0x3F52_DE5A, 0x09D7_85FD, 0x3498_BFD4, 0xF211_824F, 0xD799_15AB)
  {
    hide Schedule, IsAbc;
    Words3(b);
    Rounds5(b);
    assert Rounds(b, INITIAL, 51).a == 0x641D_B2CE && Rounds(b, INITIAL, 52).a == 0x3847_AD66;
    assert Rounds(b, INITIAL, 53).a == 0xE490_436D && Rounds(b, INITIAL, 54).a == 0x27E9_F1D8;
    assert Rounds(b, INITIAL, 55).a == 0x7B71_F76D && Rounds(b, INITIAL, 56).a == 0x5E64_56AF;
    assert Rounds(b, INITIAL, 57).a == 0xC846_093F && Rounds(b, INITIAL, 58).a == 0xD262_FF50;
    assert Rounds(b, INITIAL, 59).a == 0x09D7_85FD && Rounds(b, INITIAL, 60).a == 0x3F52_DE5A;
  }

  lemma Rounds7(b: seq<Octet>)
    requires |b| == 64 && IsAbc(b)
    ensures Rounds(b, INITIAL, 70) == Hash(0x3F25_88C2, 0x4970_93C0, 0xDE37_534A, 0x030F_7CAD, 0x4405_957E)
  {
    hide Schedule, IsAbc;
    Words3(b); Words4(b);
    Rounds6(b);
    assert Rounds(b, INITIAL, 61).a == 0xD756_C147 && Rounds(b, INITIAL, 62).a == 0x548C_9CB2;
    assert Rounds(b, INITIAL, 63).a == 0xB66C_020B && Rounds(b, INITIAL, 64).a == 0x6B61_C9E1;
    assert Rounds(b, INITIAL, 65).a == 0x19DF_A7AC && Rounds(b, INITIAL, 66).a == 0x1016_55F9;
    assert Rounds(b, INITIAL, 67).a == 0x0C3D_F2B4 && Rounds(b, INITIAL, 68).a == 0x78DD_4D2B;
    assert Rounds(b, INITIAL, 69).a == 0x4970_93C0 && Rounds(b, INITIAL, 70).a == 0x3F25_88C2;
  }

  lemma Rounds8(b: seq<Octet>)
    requires |b| == 64 && IsAbc(b)
    ensures Rounds(b, INITIAL, 80) == Hash(0x4254_1B35, 0x5738_D5E1, 0x2183_4873, 0x681E_6DF6, 0xD8FD_F6AD)
  {
    hide Schedule, IsAbc;
    Words4(b);
    Rounds7(b);
    assert Rounds(b, INITIAL, 71).a == 0xC199_F8C7 && Rounds(b, INITIAL, 72).a == 0x3985_9DE7;
    assert Rounds(b, INITIAL, 73).a == 0xEDB4_2DE4 && Rounds(b, INITIAL, 74).a == 0x1179_3F6F;
    assert Rounds(b, INITIAL, 75).a == 0x5EE7_6897 && Rounds(b, INITIAL, 76).a == 0x63F7_DAB7;
    assert Rounds(b, INITIAL, 77).a == 0xA079_B7D9 && Rounds(b, INITIAL, 78).a == 0x860D_21CC;
    assert Rounds(b, INITIAL, 79).a == 0x5738_D5E1 && Rounds(b, INITIAL, 80).a == 0x4254_1B35;
  }

  /** The digest of "abc": a9993e36 4706816a ba3e2571 7850c26c 9cd0d89d. */
  lemma DigestOfAbc()
    ensures Sha1.Sha1(ABC) == Hash(0xA999_3E36, 0x4706_816A, 0xBA3E_2571, 0x7850_C26C, 0x9CD0_D89D)
  {
    hide Rounds, IsAbc, Padded;
    var b := Padded(ABC);
    PaddedAbc();
    Rounds8(b);
    assert b[..0] == [] && b[0..] == b;
    assert HashBlocks([]) == INITIAL;
  }

  lemma DigestBytesOfAbc()
    ensures HashBytes(Sha1.Sha1(ABC)) ==
            [0xA9, 0x99, 0x3E, 0x36, 0x47, 0x06, 0x81, 0x6A, 0xBA, 0x3E,
             0x25, 0x71, 0x78, 0x50, 0xC2, 0x6C, 0x9C, 0xD0, 0xD8, 0x9D]
  {
    hide Sha1.Sha1;
    DigestOfAbc();
  }
}
