/** A file of 64 bytes that is an .xz stream: nine bytes of PowerPC code, stored, with the branch filter and a CRC32. It
    fixes the numbers of the format: magic bytes, filter IDs, flags, sizes, byte order and polynomial. */
module XzExample {
  import opened Bytes
  import opened PowerPc
  import opened Crc32
  import Vli
  import opened Lzma2Reference
  import opened Lzma2Encoding
  import opened Dictionary
  import opened Lzma2
  import opened Bcj
  import opened XzIndex
  import opened XzBlock
  import opened XzHeader
  import opened XzStream
  import opened CrcExamples

  const CODE: seq<Byte> := [0x7C, 8, 2, 0xA6, 0x48, 0, 0, 5, 0x61]

  const FILE: seq<Byte> :=
    [0xFD, 0x37, 0x7A, 0x58, 0x5A, 0, 0, 1, 0x69, 0x22, 0xDE, 0x36]
    + [2, 1, 5, 0, 0x21, 1, 0, 0, 0x7F, 0xE0, 0xF1, 0xC8]
    + [1, 0, 8, 0x7C, 8, 2, 0xA6, 0x48, 0, 0, 9, 0x61, 0] + [0, 0, 0, 3, 0x6A, 0xE0, 0x54]
    + [0, 1, 0x1D, 9, 0x93, 0x61, 0x36, 0xA6]
    + [0x90, 0x42, 0x99, 0x0D, 1, 0, 0, 0, 0, 1, 0x59, 0x5A]

  // ----------------------------------------------------------------------- the parts

  lemma HeaderBytes()
    ensures StreamHeader(true) == [0xFD, 0x37, 0x7A, 0x58, 0x5A, 0, 0, 1, 0x69, 0x22, 0xDE, 0x36]
    ensures StreamHeader(false) == [0xFD, 0x37, 0x7A, 0x58, 0x5A, 0, 0, 0, 0xFF, 0x12, 0xD9, 0x41]
  {
    hide CrcOf, LittleEndian;
    FlagsCrc();
    FlagsNone();
    FlagsWords();
  }

  lemma FlagsWords()
    ensures LittleEndian(0x36DE_2269) == [0x69, 0x22, 0xDE, 0x36]
    ensures LittleEndian(0x41D9_12FF) == [0xFF, 0x12, 0xD9, 0x41]
  {
  }

  lemma OtherWords()
    ensures LittleEndian(0xC8F1_E07F) == [0x7F, 0xE0, 0xF1, 0xC8]
    ensures LittleEndian(0x54E0_6A03) == [3, 0x6A, 0xE0, 0x54]
    ensures LittleEndian(0xA636_6193) == [0x93, 0x61, 0x36, 0xA6]
    ensures LittleEndian(0x0D99_4290) == [0x90, 0x42, 0x99, 0x0D]
  {
  }

  const HEAD := Head(true, Unknown, Unknown, 0)

  lemma HeadBytes12()
    ensures Writable(HEAD, 12) && EncodeHead(HEAD, 12) == [2, 1, 5, 0, 0x21, 1, 0, 0, 0x7F, 0xE0, 0xF1, 0xC8]
  {
    hide CrcOf, LittleEndian;
    assert Fields(HEAD) == [1, 5, 0, 0x21, 1, 0];
    assert HeadBytes(HEAD, 12) == [2] + (Fields(HEAD) + [0]) == [2, 1, 5, 0, 0x21, 1, 0, 0];
    HeaderCheck();
    OtherWords();
  }

  /** The second instruction is a branch with link, at position 4. */
  lemma FilteredCode()
    ensures Pass(CODE, 0, true) == [0x7C, 8, 2, 0xA6, 0x48, 0, 0, 9, 0x61]
  {
    hide Pass, Group;
    var (a: seq<Byte>, b: seq<Byte>, c: seq<Byte>) := ([0x7C, 8, 2, 0xA6], [0x48, 0, 0, 5], [0x61]);
    assert CODE == a + b + c;
    PassSplit(a + b, c, 0, true);
    PassSplit(a, b, 0, true);
    OneGroup(a, 0);
    OneGroup(b, 4);
    Remainder(c, 8);
    Groups();
  }

  lemma OneGroup(s: seq<Byte>, at: nat)
    requires |s| == 4
    ensures Pass(s, at, true) == Group(s, at, true)
  {
    hide Group;
    assert s[..4] == s && s[4..] == [];
  }

  lemma Remainder(s: seq<Byte>, at: nat)
    requires |s| < 4
    ensures Pass(s, at, true) == s
  {
  }

  lemma Groups()
    ensures Group([0x7C, 8, 2, 0xA6], 0, true) == [0x7C, 8, 2, 0xA6]
    ensures Group([0x48, 0, 0, 5], 4, true) == [0x48, 0, 0, 9]
  {
  }

  lemma TrailerBytes()
    ensures Trailer(13, CODE, true) == [0, 0, 0, 3, 0x6A, 0xE0, 0x54]
  {
    hide CrcOf, LittleEndian;
    DataCheck();
    OtherWords();
    assert RoundUp(13) == 16 && Zeros(3) == [0, 0, 0];
  }

  const RECORDS := [Record(29, 9)]

  lemma IndexBytes()
    ensures EncodeIndex(RECORDS) == [0, 1, 0x1D, 9]
  {
    assert EncodeRecords([]) == [] && RECORDS[..0] == [];
    assert EncodeRecords(RECORDS) == [0x1D, 9];
    assert EncodeList(1, RECORDS) == [0, 1, 0x1D, 9];
    assert RoundUp(4) == 4 && Zeros(0) == [];
  }

  lemma EndBytes()
    ensures |EncodeIndex(RECORDS)| / 4 < U32
    ensures EndOf(RECORDS, true) == [0, 1, 0x1D, 9, 0x93, 0x61, 0x36, 0xA6, 0x90, 0x42, 0x99, 0x0D, 1, 0, 0, 0, 0, 1, 0x59, 0x5A]
  {
    hide CrcOf, LittleEndian, EncodeIndex;
    IndexBytes();
    IndexCheck();
    FooterCheck();
    OtherWords();
    assert ToLittle(1) + StreamFlags(true) == [1, 0, 0, 0, 0, 1];
  }

  // ------------------------------------------------------------------------ the whole

  /** The one Block of the file. */
  function Only(): Entry {
    Entry(12, HEAD, [0x7C, 8, 2, 0xA6, 0x48, 0, 0, 9, 0x61], 13)
  }

  lemma OnlyData()
    ensures Data(Only()) == CODE
  {
    hide Pass;
    FilteredCode();
    PassInverse(CODE, 0, true);
  }

  lemma OnlyBlock()
    ensures BlockAt(FILE, 12, true, Only())
  {
    hide Pass, Accepts, EncodeHead, Writable, Trailer, Data;
    HeadBytes12();
    TrailerBytes();
    OnlyData();
    var (e, rest) := (Only(), FILE[37..]);
    Stored(DictSize(0), e.text, rest);
    assert FILE[24..] == [1, 0, 8] + e.text + [0] + rest;
  }

  lemma TheEnd()
    ensures EndsAt(FILE, 44, true, RECORDS)
  {
    hide EndOf, HashAll, EncodeIndex;
    EndBytes();
    Exponent();
    assert Lists(RECORDS, RECORDS);
  }

  lemma Exponent()
    ensures Storable(RECORDS)
  {
    PowMonotone(2, 5, 63);
  }

  /** The file is a well-formed stream with a CRC32 check, and its data is the code. */
  lemma FileIsXz()
    ensures IsXz(FILE, 0, true, [Only()]) && AllData([Only()]) == CODE
  {
    hide BlockAt, EndsAt, Data, StreamHeader;
    HeaderBytes();
    OnlyBlock();
    OnlyData();
    TheEnd();
    assert RecordOf(Only(), true) == Record(29, 9) && [] + RECORDS == RECORDS && NextAt(12, Only(), true) == 44;
    GoesNowhere(FILE, 44, true, RECORDS);
    GoesFarther(FILE, 12, true, [], Only(), []);
    assert [Only()] + [] == [Only()];
  }

  /** The program unpacks it. */
  method UnpackExample(b: XzBuf) returns (o: Outcome)
    requires b.Valid() && b.input == FILE && b.inPos == 0 && b.outPos == 0 && b.outSize == 9
    modifies b`inPos, b`out, b`outPos, b`outSize, b.out
    ensures o == Returned(XzStreamEnd) && b.out == old(b.out) && b.outPos == 9 && b.out[..9] == CODE
  {
    hide IsXz, AllData;
    FileIsXz();
    var table := new Table();
    ghost var crc, es;
    o, crc, es := Run(table, b);
    assert IsXz(b.input, 0, true, [Only()]) && |AllData([Only()])| == 9;
    OneStream(b.input, 0, crc, es, true, [Only()]);
  }
}
