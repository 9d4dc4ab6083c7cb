/** Check values of short messages, worked out byte by byte. */
module CrcExamples {
  import opened Bytes
  import opened Crc32
  import opened Conversions
  import opened XzIndex

  /** One byte: the entry of the table it selects, and the rest of the register. */
  lemma Next(s: seq<Octet>, i: nat, b: Octet, r: bv32, r': bv32)
    requires i < |s| && s[i] == b && Xor(Steps((b as bv32 ^ r) & 0xFF, 8), r >> 8) == r'
    ensures Divide(MessageBits(s[i..]), r) == Divide(MessageBits(s[i + 1..]), r')
  {
    hide MessageBits, Divide, Steps, LowBits, Xor;
    var t := s[i..];
    assert t[1..] == s[i + 1..];
    DivideByte(t, r);
    TableStep(b, r);
  }

  lemma Check(t: seq<Byte>, s: seq<Octet>, crc: bv32, r: bv32)
    requires |s| == |t| && forall i :: 0 <= i < |s| ==> s[i] as int == t[i]
    requires Divide(MessageBits(s[0..]), !crc) == Divide(MessageBits(s[|s|..]), r)
    ensures CrcOf(t, crc) == !r
  {
    hide Octets, MessageBits, Divide;
    assert s[0..] == s && s[|s|..] == [];
    OctetsAre(t, s);
    NoBits(r);
  }

  lemma NoBits(r: bv32)
    ensures Divide(MessageBits([]), r) == r
  {
  }

  lemma {:induction false} OctetsAre(t: seq<Byte>, s: seq<Octet>)
    requires |s| == |t| && forall i :: 0 <= i < |s| ==> s[i] as int == t[i]
    ensures Octets(t) == s
  {
    if t != [] {
      OctetAndBack(s[0]);
      OctetsAre(t[1..], s[1..]);
    }
  }

  lemma CheckValueFirst()
    ensures CrcOf([0x31, 0x32, 0x33, 0x34, 0x35], 0) == 0xCBF5_3A1C
  {
    hide Octets, MessageBits, Divide, Crc, CrcOf;
    var s: seq<Octet> := [0x31, 0x32, 0x33, 0x34, 0x35];
    Next(s, 0, 0x31, 0xFFFF_FFFF, 0x7C23_1048);
    Next(s, 1, 0x32, 0x7C23_1048, 0xB0AC_BB32);
    Next(s, 2, 0x33, 0xB0AC_BB32, 0x77B7_9C2D);
    Next(s, 3, 0x34, 0x77B7_9C2D, 0x641C_1F5C);
    Next(s, 4, 0x35, 0x641C_1F5C, 0x340A_C5E3);
    Check([0x31, 0x32, 0x33, 0x34, 0x35], s, 0, 0x340A_C5E3);
  }

  lemma CheckValueSecond()
    ensures CrcOf([0x36, 0x37, 0x38, 0x39], 0xCBF5_3A1C) == 0xCBF4_3926
  {
    hide Octets, MessageBits, Divide, Crc, CrcOf;
    var s: seq<Octet> := [0x36, 0x37, 0x38, 0x39];
    Next(s, 0, 0x36, 0x340A_C5E3, 0xF68D_2C9E);
    Next(s, 1, 0x37, 0xF68D_2C9E, 0xAFFC_9660);
    Next(s, 2, 0x38, 0xAFFC_9660, 0x651F_2550);
    Next(s, 3, 0x39, 0x651F_2550, 0x340B_C6D9);
    Check([0x36, 0x37, 0x38, 0x39], s, 0xCBF5_3A1C, 0x340B_C6D9);
  }

  /** The digits from 1 to 9. */
  lemma CheckValue()
    ensures CrcOf([0x31, 0x32, 0x33, 0x34, 0x35, 0x36, 0x37, 0x38, 0x39], 0) == 0xCBF4_3926
  {
    hide Octets, CrcOf;
    var (s: seq<Byte>, t: seq<Byte>) := ([0x31, 0x32, 0x33, 0x34, 0x35], [0x36, 0x37, 0x38, 0x39]);
    assert s + t == [0x31, 0x32, 0x33, 0x34, 0x35, 0x36, 0x37, 0x38, 0x39];
    CrcOfAppend(s, t, 0);
    CheckValueFirst();
    CheckValueSecond();
  }

  /** The two kinds of Stream Flags. */
  lemma FlagsNone()
    ensures CrcOf([0, 0], 0) == 0x41D9_12FF
  {
    hide Octets, MessageBits, Divide, Crc, CrcOf;
    var s: seq<Octet> := [0, 0];
    Next(s, 0, 0, 0xFFFF_FFFF, 0x2DFD_1072);
    Next(s, 1, 0, 0x2DFD_1072, 0xBE26_ED00);
    Check([0, 0], s, 0, 0xBE26_ED00);
  }

  lemma FlagsCrc()
    ensures CrcOf([0, 1], 0) == 0x36DE_2269
  {
    hide Octets, MessageBits, Divide, Crc, CrcOf;
    var s: seq<Octet> := [0, 1];
    Next(s, 0, 0, 0xFFFF_FFFF, 0x2DFD_1072);
    Next(s, 1, 1, 0x2DFD_1072, 0xC921_DD96);
    Check([0, 1], s, 0, 0xC921_DD96);
  }

  lemma HeaderCheckFirst()
    ensures CrcOf([2, 1, 5, 0, 0x21], 0) == 0x4EFC_11AD
  {
    hide Octets, MessageBits, Divide, Crc, CrcOf;
    var s: seq<Octet> := [2, 1, 5, 0, 0x21];
    Next(s, 0, 2, 0xFFFF_FFFF, 0xC3F3_715E);
    Next(s, 1, 1, 0xC3F3_715E, 0xFB17_BF14);
    Next(s, 2, 5, 0xFB17_BF14, 0x6A4B_374D);
    Next(s, 3, 0, 0x6A4B_374D, 0x0807_761A);
    Next(s, 4, 0x21, 0x0807_761A, 0xB103_EE52);
    Check([2, 1, 5, 0, 0x21], s, 0, 0xB103_EE52);
  }

  lemma HeaderCheckSecond()
    ensures CrcOf([1, 0, 0], 0x4EFC_11AD) == 0xC8F1_E07F
  {
    hide Octets, MessageBits, Divide, Crc, CrcOf;
    var s: seq<Octet> := [1, 0, 0];
    Next(s, 0, 1, 0xB103_EE52, 0xF2D3_03A0);
    Next(s, 1, 0, 0xF2D3_03A0, 0xD624_70EB);
    Next(s, 2, 0, 0xD624_70EB, 0x370E_1F80);
    Check([1, 0, 0], s, 0x4EFC_11AD, 0x370E_1F80);
  }

  /** A Block Header. */
  lemma HeaderCheck()
    ensures CrcOf([2, 1, 5, 0, 0x21, 1, 0, 0], 0) == 0xC8F1_E07F
  {
    hide Octets, CrcOf;
    var (s: seq<Byte>, t: seq<Byte>) := ([2, 1, 5, 0, 0x21], [1, 0, 0]);
    assert s + t == [2, 1, 5, 0, 0x21, 1, 0, 0];
    CrcOfAppend(s, t, 0);
    HeaderCheckFirst();
    HeaderCheckSecond();
  }

  lemma DataCheckFirst()
    ensures CrcOf([0x7C, 8, 2, 0xA6, 0x48], 0) == 0xBC6A_D49F
  {
    hide Octets, MessageBits, Divide, Crc, CrcOf;
    var s: seq<Octet> := [0x7C, 8, 2, 0xA6, 0x48];
    Next(s, 0, 0x7C, 0xFFFF_FFFF, 0x744E_2D65);
    Next(s, 1, 8, 0x744E_2D65, 0x3377_53C8);
    Next(s, 2, 2, 0x3377_53C8, 0x7B82_5CFD);
    Next(s, 3, 0xA6, 0x7B82_5CFD, 0xFCC2_0A20);
    Next(s, 4, 0x48, 0xFCC2_0A20, 0x4395_2B60);
    Check([0x7C, 8, 2, 0xA6, 0x48], s, 0, 0x4395_2B60);
  }

  lemma DataCheckSecond()
    ensures CrcOf([0, 0, 5, 0x61], 0xBC6A_D49F) == 0x54E0_6A03
  {
    hide Octets, MessageBits, Divide, Crc, CrcOf;
    var s: seq<Octet> := [0, 0, 5, 0x61];
    Next(s, 0, 0, 0x4395_2B60, 0x4DF1_F473);
    Next(s, 1, 0, 0x4DF1_F473, 0xC941_D172);
    Next(s, 2, 5, 0xC941_D172, 0xCEA8_A54E);
    Next(s, 3, 0x61, 0xCEA8_A54E, 0xAB1F_95FC);
    Check([0, 0, 5, 0x61], s, 0xBC6A_D49F, 0xAB1F_95FC);
  }

  /** Three instructions' worth of data. */
  lemma DataCheck()
    ensures CrcOf([0x7C, 8, 2, 0xA6, 0x48, 0, 0, 5, 0x61], 0) == 0x54E0_6A03
  {
    hide Octets, CrcOf;
    var (s: seq<Byte>, t: seq<Byte>) := ([0x7C, 8, 2, 0xA6, 0x48], [0, 0, 5, 0x61]);
    assert s + t == [0x7C, 8, 2, 0xA6, 0x48, 0, 0, 5, 0x61];
    CrcOfAppend(s, t, 0);
    DataCheckFirst();
    DataCheckSecond();
  }

  /** An Index. */
  lemma IndexCheck()
    ensures CrcOf([0, 1, 0x1D, 9], 0) == 0xA636_6193
  {
    hide Octets, MessageBits, Divide, Crc, CrcOf;
    var s: seq<Octet> := [0, 1, 0x1D, 9];
    Next(s, 0, 0, 0xFFFF_FFFF, 0x2DFD_1072);
    Next(s, 1, 1, 0x2DFD_1072, 0xC921_DD96);
    Next(s, 2, 0x1D, 0xC921_DD96, 0x7AA3_7B75);
    Next(s, 3, 9, 0x7AA3_7B75, 0x59C9_9E6C);
    Check([0, 1, 0x1D, 9], s, 0, 0x59C9_9E6C);
  }

  lemma FooterCheckFirst()
    ensures CrcOf([1, 0, 0, 0, 0], 0) == 0xFB42_DEAD
  {
    hide Octets, MessageBits, Divide, Crc, CrcOf;
    var s: seq<Octet> := [1, 0, 0, 0, 0];
    Next(s, 0, 1, 0xFFFF_FFFF, 0x5AFA_20E4);
    Next(s, 1, 0, 0x5AFA_20E4, 0xA73D_DC41);
    Next(s, 2, 0, 0xA73D_DC41, 0x017C_4CDA);
    Next(s, 3, 0, 0x017C_4CDA, 0x6607_4786);
    Next(s, 4, 0, 0x6607_4786, 0x04BD_2152);
    Check([1, 0, 0, 0, 0], s, 0, 0x04BD_2152);
  }

  lemma FooterCheckSecond()
    ensures CrcOf([1], 0xFB42_DEAD) == 0x0D99_4290
  {
    hide Octets, MessageBits, Divide, Crc, CrcOf;
    var s: seq<Octet> := [1];
    Next(s, 0, 1, 0x04BD_2152, 0xF266_BD6F);
    Check([1], s, 0xFB42_DEAD, 0xF266_BD6F);
  }

  /** The fields of a Stream Footer. */
  lemma FooterCheck()
    ensures CrcOf([1, 0, 0, 0, 0, 1], 0) == 0x0D99_4290
  {
    hide Octets, CrcOf;
    var (s: seq<Byte>, t: seq<Byte>) := ([1, 0, 0, 0, 0], [1]);
    assert s + t == [1, 0, 0, 0, 0, 1];
    CrcOfAppend(s, t, 0);
    FooterCheckFirst();
    FooterCheckSecond();
  }

  /** The structure a hash is taken over, highest bytes first. */
  lemma HashLayout()
    ensures HashOctets(Hash(0x102, 0x304, 0x0506_0708)) ==
      [0, 0, 0, 0, 0, 0, 1, 2, 0, 0, 0, 0, 0, 0, 3, 4, 5, 6, 7, 8, 0, 0, 0, 0]
  {
    hide Digits, Octets, WordOctets;
    EightDigits(1, 2);
    EightDigits(3, 4);
    var t: seq<Byte> := [0, 0, 0, 0, 0, 0, 1, 2, 0, 0, 0, 0, 0, 0, 3, 4];
    assert Digits(0x102, 8) + Digits(0x304, 8) == t;
    OctetsAre(t, [0, 0, 0, 0, 0, 0, 1, 2, 0, 0, 0, 0, 0, 0, 3, 4]);
    WordHighest();
  }

  lemma WordHighest()
    ensures WordOctets(0x0506_0708) == [5, 6, 7, 8]
  {
  }

  lemma EightDigits(a: Byte, b: Byte)
    ensures Digits(0x100 * a + b, 8) == [0, 0, 0, 0, 0, 0, a, b]
  {
    assert Digits(0, 3) == [0, 0, 0];
    assert Digits(0, 6) == Digits(0, 3) + [0] + [0] + [0];
    assert Digits(a, 7) == Digits(0, 6) + [a];
  }
}
