/** The Index of an .xz stream (section 4 of the format): a record for every block, checked against what was observed
    while the blocks were decoded, whatever pieces the input comes in. */
module XzIndex {
  import opened Bytes
  import opened Crc32
  import opened Conversions
  import opened Vli
  import opened Dictionary
  import opened Lzma2

  const U64 := 0x1_0000_0000_0000_0000

  function Octets(s: seq<Byte>): (r: seq<Octet>)
    ensures |r| == |s|
  {
    if s == [] then [] else [s[0] as bv8] + Octets(s[1..])
  }

  lemma {:induction false} OctetsAppend(s: seq<Byte>, t: seq<Byte>)
    ensures Octets(s + t) == Octets(s) + Octets(t)
  {
    if s == [] {
      assert s + t == t;
    } else {
      assert (s + t)[1..] == s[1..] + t;
      OctetsAppend(s[1..], t);
    }
  }

  function CrcOf(s: seq<Byte>, crc: bv32): bv32 {
    Crc(Octets(s), crc)
  }

  lemma CrcOfAppend(s: seq<Byte>, t: seq<Byte>, crc: bv32)
    ensures CrcOf(s + t, crc) == CrcOf(t, CrcOf(s, crc))
  {
    hide Crc, Octets;
    OctetsAppend(s, t);
    CrcAppend(Octets(s), Octets(t), crc);
  }

  lemma CrcOfNothing(crc: bv32)
    ensures CrcOf([], crc) == crc
  {
  }

  // ---------------------------------------------------------------- sizes and hash

  datatype Record = Record(unpadded: nat, uncompressed: nat)

  /** Both sums modulo 2^64, and a CRC32 over their successive values. */
  datatype Hash = Hash(unpadded: nat, uncompressed: nat, crc: bv32)

  function WordOctets(x: bv32): (s: seq<Octet>)
    ensures |s| == 4
  {
    [((x >> 24) & 0xFF) as bv8, ((x >> 16) & 0xFF) as bv8, ((x >> 8) & 0xFF) as bv8, (x & 0xFF) as bv8]
  }

  function LowByte(x: bv32): Byte {
    (x & 0xFF) as int
  }

  function LittleEndian(x: bv32): (s: seq<Byte>)
    ensures |s| == 4
  {
    [LowByte(x), LowByte(x >> 8), LowByte(x >> 16), LowByte(x >> 24)]
  }

  /** The structure in memory: two 64-bit and one 32-bit big-endian numbers, and four bytes of padding. */
  function HashOctets(h: Hash): seq<Octet> {
    Octets(Digits(h.unpadded, 8) + Digits(h.uncompressed, 8)) + WordOctets(h.crc) + [0, 0, 0, 0]
  }

  /** The structure shows both sums and the check value so far: what the hash is taken over differs when they do. */
  lemma HashWhole(h: Hash, h': Hash)
    requires h.unpadded < U64 && h.uncompressed < U64 && h'.unpadded < U64 && h'.uncompressed < U64
    requires HashOctets(h) == HashOctets(h')
    ensures h == h'
  {
    hide WordOctets, Octets, Digits;
    var (s, t) := (Digits(h.unpadded, 8) + Digits(h.uncompressed, 8), Digits(h'.unpadded, 8) + Digits(h'.uncompressed, 8));
    var (o, o') := (HashOctets(h), HashOctets(h'));
    assert o[..16] == Octets(s) && o'[..16] == Octets(t) && o[16..20] == WordOctets(h.crc) && o'[16..20] == WordOctets(h'.crc);
    OctetsSame(s, t);
    assert s[..8] == Digits(h.unpadded, 8) && t[..8] == Digits(h'.unpadded, 8);
    assert s[8..] == Digits(h.uncompressed, 8) && t[8..] == Digits(h'.uncompressed, 8);
    SameDigits(h.unpadded, h'.unpadded);
    SameDigits(h.uncompressed, h'.uncompressed);
    SameWord(h.crc, h'.crc);
  }

  lemma SameDigits(v: nat, w: nat)
    requires v < U64 && w < U64 && Digits(v, 8) == Digits(w, 8)
    ensures v == w
  {
    hide Digits, BigEndian;
    DigitsRead(v, 8);
    DigitsRead(w, 8);
    EightBytes();
  }

  lemma EightBytes()
    ensures Pow(256, 8) == U64
  {
    PowAdd(256, 4, 4);
    assert Pow(256, 4) == 0x1_0000_0000;
  }

  lemma {:induction false} OctetsSame(s: seq<Byte>, t: seq<Byte>)
    requires Octets(s) == Octets(t)
    ensures s == t
    decreases |s|
  {
    if s != [] {
      assert Octets(s)[0] == s[0] as bv8 && Octets(t)[0] == t[0] as bv8;
      assert Octets(s)[1..] == Octets(s[1..]) && Octets(t)[1..] == Octets(t[1..]);
      OctetsSame(s[1..], t[1..]);
      SameOctet(s[0], t[0]);
    }
  }

  lemma SameOctet(a: Byte, b: Byte)
    requires a as bv8 == b as bv8
    ensures a == b
  {
    ByteAndBack(a);
    ByteAndBack(b);
  }

  lemma SameWord(x: bv32, y: bv32)
    requires WordOctets(x) == WordOctets(y)
    ensures x == y
  {
    var (s, t) := (WordOctets(x), WordOctets(y));
    assert s[0] == t[0] && s[1] == t[1] && s[2] == t[2] && s[3] == t[3];
  }

  function AddRecord(h: Hash, r: Record): Hash {
    var sums := Hash((h.unpadded + r.unpadded) % U64, (h.uncompressed + r.uncompressed) % U64, h.crc);
    sums.(crc := Crc(HashOctets(sums), h.crc))
  }

  const NO_RECORDS := Hash(0, 0, 0)

  function HashAll(rs: seq<Record>): Hash {
    if rs == [] then NO_RECORDS else AddRecord(HashAll(rs[..|rs| - 1]), rs[|rs| - 1])
  }

  lemma HashSnoc(rs: seq<Record>, r: Record)
    ensures HashAll(rs + [r]) == AddRecord(HashAll(rs), r)
  {
  }

  function TotalUnpadded(rs: seq<Record>): nat {
    if rs == [] then 0 else TotalUnpadded(rs[..|rs| - 1]) + rs[|rs| - 1].unpadded
  }

  function TotalUncompressed(rs: seq<Record>): nat {
    if rs == [] then 0 else TotalUncompressed(rs[..|rs| - 1]) + rs[|rs| - 1].uncompressed
  }

  lemma {:induction false} HashSums(rs: seq<Record>)
    ensures HashAll(rs).unpadded == TotalUnpadded(rs) % U64 && HashAll(rs).uncompressed == TotalUncompressed(rs) % U64
  {
    hide HashOctets, Crc;
    if rs == [] {
    } else {
      var (front, last) := (rs[..|rs| - 1], rs[|rs| - 1]);
      HashSums(front);
      SumWraps(TotalUnpadded(front), last.unpadded);
      SumWraps(TotalUncompressed(front), last.uncompressed);
    }
  }

  lemma SumWraps(a: nat, b: nat)
    ensures (a % U64 + b) % U64 == (a + b) % U64
  {
  }

  // ------------------------------------------------------------------- the Index

  function EncodeRecords(rs: seq<Record>): seq<Byte> {
    if rs == [] then []
    else EncodeRecords(rs[..|rs| - 1]) + Encode(rs[|rs| - 1].unpadded) + Encode(rs[|rs| - 1].uncompressed)
  }

  /** Indicator, number of records and records. */
  function EncodeList(n: nat, rs: seq<Record>): seq<Byte> {
    [0] + Encode(n) + EncodeRecords(rs)
  }

  function Zeros(n: nat): (s: seq<Byte>)
    ensures |s| == n && forall i :: 0 <= i < n ==> s[i] == 0
  {
    if n == 0 then [] else Zeros(n - 1) + [0]
  }

  function RoundUp(n: nat): (r: nat)
    ensures n <= r < n + 4 && r % 4 == 0 && forall m :: n <= m < r ==> m % 4 != 0
  {
    (n + 3) / 4 * 4
  }

  /** The Index without its CRC32: padded to a multiple of four bytes. */
  function EncodeIndex(rs: seq<Record>): seq<Byte> {
    var list := EncodeList(|rs|, rs);
    list + Zeros(RoundUp(|list|) - |list|)
  }

  /** The integers the format allows. */
  ghost predicate Storable(rs: seq<Record>) {
    |rs| < Pow(2, 63) && forall i :: 0 <= i < |rs| ==> rs[i].unpadded < Pow(2, 63) && rs[i].uncompressed < Pow(2, 63)
  }

  /** The integer that follows some records, and what follows it. */
  function After(rs: seq<Record>, k: nat): seq<Byte>
    requires k <= |rs|
    decreases |rs| - k
  {
    if k == |rs| then [] else Encode(rs[k].unpadded) + (Encode(rs[k].uncompressed) + After(rs, k + 1))
  }

  lemma {:induction false} RecordsSplit(rs: seq<Record>, k: nat)
    requires k <= |rs|
    ensures EncodeRecords(rs) == EncodeRecords(rs[..k]) + After(rs, k)
    decreases |rs| - k
  {
    hide Encode;
    if k == |rs| {
      assert rs[..k] == rs;
    } else {
      RecordsSplit(rs, k + 1);
      var (front, r) := (rs[..k], rs[k]);
      assert rs[..k + 1][..k] == front;
      var (e, u, c, rest) := (EncodeRecords(front), Encode(r.unpadded), Encode(r.uncompressed), After(rs, k + 1));
      assert e + u + c + rest == e + (u + (c + rest));
    }
  }

  /** No list of records starts with the encoding of another one. */
  lemma {:induction false} RecordsUnique(rs: seq<Record>, want: seq<Record>, tail: seq<Byte>)
    requires |rs| <= |want| && EncodeRecords(rs) <= EncodeRecords(want) + tail && Storable(rs) && Storable(want)
    ensures rs <= want
  {
    hide Encode, Feed, Pow;
    if rs == [] {
    } else {
      var k := |rs| - 1;
      var (front, r, w) := (rs[..k], rs[k], want[k]);
      var (e, mine) := (EncodeRecords(front), Encode(r.unpadded) + Encode(r.uncompressed));
      Regrouped(e, Encode(r.unpadded), Encode(r.uncompressed));
      assert EncodeRecords(rs) == e + mine;
      PrefixFirst(e, mine, EncodeRecords(want) + tail);
      RecordsUnique(front, want, tail);
      RecordsSplit(want, k);
      assert front == want[..k];
      Rejoined(e, Encode(w.unpadded), Encode(w.uncompressed), After(want, k + 1), tail);
      var rest := After(want, k + 1) + tail;
      PrefixTail(e, mine, Encode(w.unpadded) + (Encode(w.uncompressed) + rest));
      SameRecord(r, w, rest);
      assert rs == front + [r];
    }
  }

  /** Neither of the two is a prefix of the other. */
  predicate Differ(s: seq<Byte>, t: seq<Byte>) {
    !(s <= t) && !(t <= s)
  }

  lemma PrefixFirst(e: seq<Byte>, s: seq<Byte>, t: seq<Byte>)
    requires e + s <= t
    ensures e <= t
  {
    assert e == (e + s)[..|e|] == t[..|e|];
  }

  lemma Rejoined(e: seq<Byte>, a: seq<Byte>, b: seq<Byte>, c: seq<Byte>, tail: seq<Byte>)
    ensures e + (a + (b + c)) + tail == e + (a + (b + (c + tail)))
  {
  }

  lemma PrefixTail(e: seq<Byte>, s: seq<Byte>, t: seq<Byte>)
    requires e + s <= e + t
    ensures s <= t
  {
    assert (e + s)[|e|..] == s && (e + t)[|e|..] == t;
    assert (e + t)[..|e + s|] == e + s;
    assert t[..|s|] == (e + t)[|e|..|e + s|];
  }

  lemma SameRecord(r: Record, w: Record, rest: seq<Byte>)
    requires r.unpadded < Pow(2, 63) && r.uncompressed < Pow(2, 63) && w.unpadded < Pow(2, 63) && w.uncompressed < Pow(2, 63)
    requires Encode(r.unpadded) + Encode(r.uncompressed) <= Encode(w.unpadded) + (Encode(w.uncompressed) + rest)
    ensures r == w
  {
    hide Encode, Pow;
    SameInteger(r.unpadded, Encode(r.uncompressed), w.unpadded, Encode(w.uncompressed) + rest);
    assert Encode(r.uncompressed) + [] == Encode(r.uncompressed);
    SameInteger(r.uncompressed, [], w.uncompressed, rest);
  }

  /** What follows some of the records, when there are more. */
  lemma RecordsGoOn(rs: seq<Record>, want: seq<Record>, tail: seq<Byte>, part: seq<Byte>)
    requires |rs| < |want| && Storable(rs) && Storable(want) && EncodeRecords(rs) + part <= EncodeRecords(want) + tail
    ensures rs <= want && |EncodeRecords(rs)| <= |EncodeRecords(want) + tail|
    ensures var w := want[|rs|];
            var rest := Encode(w.unpadded) + (Encode(w.uncompressed) + (After(want, |rs| + 1) + tail));
            (EncodeRecords(want) + tail)[|EncodeRecords(rs)|..] == rest && part <= rest
  {
    hide Encode, Pow, Storable;
    var (k, e, all) := (|rs|, EncodeRecords(rs), EncodeRecords(want) + tail);
    assert e <= e + part;
    RecordsUnique(rs, want, tail);
    RecordsSplit(want, k);
    assert rs == want[..k];
    var rest := Encode(want[k].unpadded) + (Encode(want[k].uncompressed) + (After(want, k + 1) + tail));
    assert all == e + rest;
    PrefixTail(e, part, rest);
  }

  /** Two byte strings that start with integers, one a prefix of the other: the integers are the same. */
  lemma SameInteger(v: nat, s: seq<Byte>, w: nat, t: seq<Byte>)
    requires v < Pow(2, 63) && w < Pow(2, 63) && Encode(v) + s <= Encode(w) + t
    ensures v == w && s <= t
  {
    hide Encode, Feed, Pow;
    var (a, all) := (Encode(v) + s, Encode(w) + t);
    RoundTrip(v, s + all[|a|..]);
    assert Encode(v) + (s + all[|a|..]) == all;
    RoundTrip(w, t);
    assert a[|Encode(v)|..] == s && all[|Encode(v)|..] == t;
  }

  /** The encoding of records, and perhaps of one more integer, does not hold that of more records. */
  lemma TooFew(rs: seq<Record>, want: seq<Record>, more: bool, first: nat)
    requires Storable(rs) && Storable(want) && |rs| < |want| && first < Pow(2, 63)
    ensures !(EncodeRecords(want) <= EncodeRecords(rs) + if more then Encode(first) else [])
  {
    hide Encode, Pow, Storable, EncodeRecords;
    var (k, e) := (|rs|, if more then Encode(first) else []);
    if EncodeRecords(want) <= EncodeRecords(rs) + e {
      StorableParts(want, k);
      RecordsSplit(want, k);
      PrefixFirst(EncodeRecords(want[..k]), After(want, k), EncodeRecords(rs) + e);
      RecordsUnique(want[..k], rs, e);
      assert want[..k] == rs;
      PrefixTail(EncodeRecords(rs), After(want, k), e);
      AfterAlone(want, k, first);
      assert false;
    }
  }

  /** An Index and its CRC32. */
  function CheckedIndex(rs: seq<Record>): seq<Byte> {
    EncodeIndex(rs) + LittleEndian(CrcOf(EncodeIndex(rs), 0))
  }

  lemma ListFirst(rs: seq<Record>)
    ensures EncodeList(|rs|, rs) <= EncodeIndex(rs)
  {
  }

  lemma CheckAlike(x: seq<Byte>, c: seq<Byte>, d: seq<Byte>, rest: seq<Byte>)
    requires x + c <= rest && x + d <= rest && |d| <= |c|
    ensures d <= c
  {
    assert rest[|x|..][..|c|] == c && rest[|x|..][..|d|] == d;
  }

  /** Bytes that begin with a list of records agree with the Index of no other list of the same length. */
  lemma SameList(rs: seq<Record>, want: seq<Record>, s: seq<Byte>)
    requires Storable(rs) && Storable(want) && |rs| == |want| && EncodeList(|rs|, rs) <= s && !Differ(s, EncodeIndex(want))
    ensures rs == want
  {
    hide Encode, Pow, RoundUp, Storable, EncodeRecords;
    var (list, x) := (EncodeList(|rs|, rs), EncodeIndex(want));
    var zeros := Zeros(RoundUp(|EncodeList(|want|, want)|) - |EncodeList(|want|, want)|);
    var head := [0] + Encode(|want|);
    assert x == head + (EncodeRecords(want) + zeros) && list == head + EncodeRecords(rs);
    if list <= x {
      PrefixTail(head, EncodeRecords(rs), EncodeRecords(want) + zeros);
      RecordsUnique(rs, want, zeros);
    } else {
      assert x <= s && x <= list;
      PrefixTail(head, EncodeRecords(want) + zeros, EncodeRecords(rs));
      PrefixFirst(EncodeRecords(want), zeros, EncodeRecords(rs));
      assert EncodeRecords(rs) + [] == EncodeRecords(rs);
      RecordsUnique(want, rs, []);
      assert want == rs;
    }
  }

  lemma AfterAlone(rs: seq<Record>, k: nat, first: nat)
    requires k < |rs| && rs[k].unpadded < Pow(2, 63) && first < Pow(2, 63)
    ensures !(After(rs, k) <= []) && !(After(rs, k) <= Encode(first))
  {
    hide Encode, Pow;
    var rest := Encode(rs[k].uncompressed) + After(rs, k + 1);
    assert Encode(first) + [] == Encode(first);
    if After(rs, k) <= Encode(first) {
      SameInteger(rs[k].unpadded, rest, first, []);
      assert false;
    }
  }

  lemma StorableParts(rs: seq<Record>, k: nat)
    requires Storable(rs) && k < |rs|
    ensures Storable(rs[..k]) && rs[k].unpadded < Pow(2, 63) && rs[k].uncompressed < Pow(2, 63)
  {
  }

  /** Bytes that agree with an integer's encoding, as far as both go, are not malformed, and read if they hold it. */
  lemma IntegerAlike(v: nat, t: seq<Byte>, part: seq<Byte>)
    requires v < Pow(2, 63) && !Differ(part, Encode(v) + t)
    ensures !Feed(FRESH, part).Bad? && (Encode(v) + t <= part ==> Feed(FRESH, part).Done?)
  {
    hide Feed, Encode, Pow;
    var x := Encode(v) + t;
    if part <= x {
      RoundTrip(v, t);
      FeedParts(FRESH, part, x[|part|..]);
      assert part + x[|part|..] == x;
      if x <= part {
        assert x == part;
      }
    } else {
      var rest := part[|x|..];
      RoundTrip(v, t + rest);
      assert Encode(v) + (t + rest) == part;
    }
  }

  // ----------------------------------------------------------------- the decoder

  datatype Step = StepBlockStart | StepIndex | StepPadding | StepCrc | StepFooter

  datatype Field = FieldCount | FieldUnpadded | FieldUncompressed

  class IndexDec {
    const table: Table
    var step: Step
    var field: Field
    var pos: nat
    var vli: nat
    var crc: bv32
    var inStart: nat
    var blockCount: nat
    var blockHash: Hash
    var size: nat
    var count: nat
    var hash: Hash

    /** Every byte of the Index up to where the input stands, those of it that make up whole integers, and the records
        read so far. */
    ghost var taken: seq<Byte>
    ghost var done: seq<Byte>
    ghost var records: seq<Record>
    ghost var first: nat

    /** Bytes of the CRC32 field compared so far. */
    ghost var seen: seq<Byte>

    /** The blocks decoded before. */
    ghost var blocks: seq<Record>

    constructor (table: Table)
      requires table.Ready()
      ensures this.table == table && step == StepBlockStart && blocks == [] && blockCount == 0 && blockHash == Hash(0, 0, 0)
      ensures Valid()
    {
      this.table, step, field, pos, vli, crc, inStart := table, StepBlockStart, FieldCount, 0, 0, 0, 0;
      blockCount, blockHash, size, count, hash := 0, NO_RECORDS, 0, 0, NO_RECORDS;
      taken, done, records, first, seen, blocks := [], [], [], 0, [], [];
    }

    ghost predicate Valid()
      reads this, table.entries
    {
      && table.Ready() && blockCount == |blocks| && blockHash == HashAll(blocks)
      && match step
         case StepBlockStart => AtStart()
         case StepIndex => InIndex() && Tallied() && seen == []
         case StepPadding => InPadding() && Tallied() && seen == []
         case StepCrc => Checked() && Tallied() && InCheck()
         case StepFooter => Checked() && seen == LittleEndian(CrcOf(taken, 0))
    }

    ghost predicate AtStart()
      reads this
    {
      pos == 0 && crc == 0 && size == 0 && count == 0 && hash == NO_RECORDS && field == FieldCount && taken == [] == done && records == [] && seen == []
    }

    /** Between calls the size and the CRC32 are those of the bytes taken. */
    ghost predicate Tallied()
      reads `size, `crc, `taken
    {
      size == |taken| && crc == CrcOf(taken, 0)
    }

    /** The bytes taken are whole integers, whose values are the records so far, and the first bytes of one more. */
    ghost predicate InIndex()
      reads `pos, `vli, `field, `count, `hash, `blockCount, `taken, `done, `records, `first
    {
      && pos % 7 == 0 && pos < 7 * VLI_BYTES_MAX
      && done <= taken && Feed(FRESH, taken[|done|..]) == More(Inside()) && Placed()
    }

    ghost predicate Placed()
      reads `field, `count, `hash, `blockCount, `done, `records, `first
    {
      && Storable(records)
      && match field
         case FieldCount => done == [0] && records == [] && hash == NO_RECORDS
         case FieldUnpadded => Listed() && 0 < count == blockCount - |records| && blockCount < Pow(2, 63)
         case FieldUncompressed =>
           && blockCount < Pow(2, 63) && 0 < count == blockCount - |records| && first < Pow(2, 63)
           && done == EncodeList(blockCount, records) + Encode(first)
           && hash == HashAll(records).(unpadded := (HashAll(records).unpadded + first) % U64)
    }

    ghost predicate Listed()
      reads `hash, `blockCount, `done, `records
    {
      done == EncodeList(blockCount, records) && hash == HashAll(records)
    }

    ghost predicate InPadding()
      reads `pos, `hash, `blockCount, `taken, `done, `records
    {
      && pos == 0 && Storable(records) && Listed() && |records| == blockCount && |done| <= |taken| <= RoundUp(|done|)
      && taken == done + Zeros(|taken| - |done|)
    }

    /** The Index is complete: it lists as many records as there were blocks, with the same sums and the same hash; its
        size and CRC32 are those of its bytes. */
    ghost predicate Checked()
      reads `blockHash, `blockCount, `taken, `records, `size
    {
      && taken == EncodeIndex(records) && |records| == blockCount && Storable(records)
      && size % 4 == 0 && HashAll(records) == blockHash && size == |taken|
    }

    ghost predicate InCheck()
      reads `pos, `crc, `seen
    {
      pos == 8 * |seen| && |seen| < 4 && seen == LittleEndian(crc)[..|seen|]
    }

    /** Where the decoder stands inside an integer. */
    ghost function Inside(): State
      reads `pos, `vli
    {
      if pos == 0 then FRESH else State(pos / 7, vli)
    }

    // ------------------------------------------------------------------ integers

    /** dec_vli: what the pieces before and this one amount to is decided by their bytes alone. */
    method DecVli(b: XzBuf) returns (ret: XzRet)
      requires b.Valid() && pos % 7 == 0 && pos < 7 * VLI_BYTES_MAX
      modifies `pos, `vli, b`inPos
      ensures b.Valid() && old(b.inPos) <= b.inPos && pos % 7 == 0
      ensures match Feed(old(Inside()), b.input[old(b.inPos)..])
              case More(st) => ret == XzOk && b.inPos == |b.input| && Inside() == st && pos < 7 * VLI_BYTES_MAX
              case Done(v, used) => ret == XzStreamEnd && vli == v && pos == 0 && b.inPos == old(b.inPos) + used
              case Bad(used) => ret == XzDataError && b.inPos == old(b.inPos) + used
    {
      hide Feed, Pow;
      if pos == 0 {
        vli := 0;
      }
      ghost var (first, from) := (Inside(), b.inPos);
      ghost var st := first;
      while b.inPos < |b.input|
        invariant b.Valid() && from <= b.inPos && pos % 7 == 0 && pos < 7 * VLI_BYTES_MAX
        invariant st == State(pos / 7, vli) == Inside()
        invariant Feed(first, b.input[from..]) == Skip(Feed(st, b.input[b.inPos..]), b.inPos - from)
        modifies `pos, `vli, b`inPos
      {
        var byte := b.input[b.inPos];
        FeedOne(st, b.input[b.inPos..]);
        assert b.input[b.inPos..][1..] == b.input[b.inPos + 1..];
        b.inPos := b.inPos + 1;
        Sevens(pos / 7);
        vli := vli + byte % 0x80 * Pow(2, pos);
        if byte < 0x80 {
          if byte == 0 && pos != 0 {
            return XzDataError;
          }
          pos := 0;
          return XzStreamEnd;
        }
        pos := pos + 7;
        if pos == 7 * VLI_BYTES_MAX {
          return XzDataError;
        }
        st := State(pos / 7, vli);
      }
      assert b.input[b.inPos..] == [];
      FeedNone(st);
      ret := XzOk;
    }

    lemma FeedNone(st: State)
      ensures Feed(st, []) == More(st)
    {
    }

    lemma FeedOne(st: State, s: seq<Byte>)
      requires s != []
      ensures var value := st.value + s[0] % 0x80 * Pow(0x80, st.n);
              Feed(st, s) ==
              if s[0] < 0x80 then (if s[0] == 0 && st.n != 0 then Bad(1) else Done(value, 1))
              else if st.n + 1 == VLI_BYTES_MAX then Bad(1)
              else Skip(Feed(State(st.n + 1, value), s[1..]), 1)
    {
    }

    // ------------------------------------------------------------------- blocks

    /** The end of dec_block: one more record to expect. header is the size of the Block Header, check that of the
        check field. */
    method CountBlock(compressed: nat, uncompressed: nat, header: nat, check: nat)
      requires Valid() && step == StepBlockStart
      modifies `blockCount, `blockHash, `blocks
      ensures Valid() && step == StepBlockStart && blocks == old(blocks) + [Record(header + compressed + check, uncompressed)]
    {
      hide HashOctets, Crc, HashAll;
      var r := Record(header + compressed + check, uncompressed);
      HashSnoc(blocks, r);
      var sums := Hash((blockHash.unpadded + r.unpadded) % U64, (blockHash.uncompressed + r.uncompressed) % U64, blockHash.crc);
      var crc32 := table.Update(HashOctets(sums), sums.crc);
      blockHash := sums.(crc := crc32);
      blocks := blocks + [r];
      blockCount := blockCount + 1;
    }

    // ------------------------------------------------------------------ the Index

    /** During a call, the bytes since inStart are not yet in the size and the CRC32. */
    ghost predicate Lagging(b: XzBuf)
      reads `size, `crc, `taken, `inStart, b
    {
      && b.Valid() && inStart <= b.inPos && size <= |taken|
      && taken[size..] == b.input[inStart..b.inPos] && crc == CrcOf(taken[..size], 0)
    }

    /** index_update */
    method UpdateIndex(b: XzBuf)
      requires table.Ready() && Lagging(b)
      modifies `size, `crc
      ensures Tallied()
    {
      hide Crc, Octets;
      var used := b.inPos - inStart;
      CrcOfAppend(taken[..size], taken[size..], 0);
      assert taken == taken[..size] + taken[size..];
      crc := table.Update(Octets(b.input[inStart..b.inPos]), crc);
      size := size + used;
    }

    /** SEQ_BLOCK_START with the Index Indicator */
    method StartIndex(b: XzBuf)
      requires Valid() && step == StepBlockStart && b.Valid() && b.inPos < |b.input| && b.input[b.inPos] == 0
      modifies this, b`inPos
      ensures table.Ready() && step == StepIndex && InIndex() && Lagging(b) && b.inPos == old(b.inPos) + 1
      ensures taken == [0] && seen == []
      ensures unchanged(`blocks, `blockCount, `blockHash)
    {
      hide Crc, HashOctets, Pow, HashAll, EncodeList, RoundUp, EncodeIndex;
      inStart := b.inPos;
      b.inPos := b.inPos + 1;
      step := StepIndex;
      taken, done := [0], [0];
      assert taken[..0] == [] && taken[0..] == [0];
      CrcOfNothing(0);
      FeedNone(FRESH);
      assert taken[|done|..] == [];
    }

    /** No well-formed Index that lists the blocks starts with these bytes, and none is the start of them. */
    ghost predicate Refuted(s: seq<Byte>)
      reads `blockCount, `blockHash
    {
      forall want: seq<Record> :: Matches(want) ==> Differ(s, EncodeIndex(want))
    }

    ghost predicate Matches(want: seq<Record>)
      reads `blockCount, `blockHash
    {
      Storable(want) && |want| == blockCount && HashAll(want) == blockHash
    }

    /** dec_vli on the next integer of the Index. */
    method ReadInteger(b: XzBuf) returns (ret: XzRet)
      requires table.Ready() && InIndex() && Lagging(b)
      modifies `pos, `vli, `taken, b`inPos
      ensures Lagging(b) && old(b.inPos) <= b.inPos <= |b.input| && Placed() && done <= taken
      ensures ret == XzOk ==> InIndex() && b.inPos == |b.input|
      ensures ret == XzStreamEnd ==> taken == done + Encode(vli) && pos == 0 && vli < Pow(2, 63) && old(b.inPos) < b.inPos
      ensures ret == XzDataError ==> Feed(FRESH, taken[|done|..]).Bad?
      ensures taken == old(taken) + b.input[old(b.inPos)..b.inPos]
    {
      hide Feed, Encode, Pow, CrcOf, Placed;
      ghost var (part, from, st) := (taken[|done|..], b.inPos, Inside());
      FeedUsed(st, b.input[from..]);
      ret := DecVli(b);
      ghost var piece := b.input[from..b.inPos];
      PieceTaken(done, taken, b.input, from, b.inPos);
      FeedParts(FRESH, part, piece);
      LagMore(b, from);
      taken := taken + piece;
      if ret == XzStreamEnd {
        OneEncoding(part + piece);
      }
    }

    lemma PieceTaken(done: seq<Byte>, taken: seq<Byte>, input: seq<Byte>, from: nat, to: nat)
      requires done <= taken && from <= to <= |input|
      ensures var (part, piece) := (taken[|done|..], input[from..to]);
              && input[from..][..to - from] == piece && (to == |input| ==> piece == input[from..])
              && (taken + piece)[|done|..] == part + piece && (part + piece)[..|part + piece|] == part + piece
              && taken + piece == done + (part + piece) && done <= taken + piece
    {
    }

    lemma LagMore(b: XzBuf, from: nat)
      requires inStart <= from <= b.inPos <= |b.input| && size <= |taken| && taken[size..] == b.input[inStart..from]
      ensures var t := taken + b.input[from..b.inPos]; t[size..] == b.input[inStart..b.inPos] && t[..size] == taken[..size]
    {
      var t := taken + b.input[from..b.inPos];
      Split(b.input, inStart, from, b.inPos);
      assert t[size..] == taken[size..] + b.input[from..b.inPos];
    }

    /** The integer an Index of these records has next. */
    ghost function NextValue(want: seq<Record>): nat
      requires field != FieldCount ==> |records| < |want|
      reads `field, `records
    {
      match field
      case FieldCount => |want|
      case FieldUnpadded => want[|records|].unpadded
      case FieldUncompressed => want[|records|].uncompressed
    }

    lemma NextInteger(want: seq<Record>) returns (t: seq<Byte>)
      requires Placed() && Matches(want) && done <= EncodeIndex(want)
      ensures records <= want && (field != FieldCount ==> |records| < |want|) && NextValue(want) < Pow(2, 63)
      ensures EncodeIndex(want)[|done|..] == Encode(NextValue(want)) + t
    {
      hide Encode, Pow, HashAll, RoundUp, Storable;
      var x := EncodeIndex(want);
      var zeros := Zeros(RoundUp(|EncodeList(|want|, want)|) - |EncodeList(|want|, want)|);
      var (head, body) := ([0] + Encode(|want|), EncodeRecords(want) + zeros);
      assert x == head + body;
      BoundsOf(want);
      match field
      case FieldCount =>
        t := body;
        assert x[1..] == Encode(|want|) + body;
      case FieldUnpadded =>
        t := NextUnpadded(want, head, body, zeros);
      case FieldUncompressed =>
        t := NextUncompressed(want, head, body, zeros);
    }

    lemma BoundsOf(want: seq<Record>)
      requires Storable(want)
      ensures |want| < Pow(2, 63) && (|records| < |want| ==> want[|records|].unpadded < Pow(2, 63) && want[|records|].uncompressed < Pow(2, 63))
    {
    }

    lemma NextUnpadded(want: seq<Record>, head: seq<Byte>, body: seq<Byte>, zeros: seq<Byte>) returns (t: seq<Byte>)
      requires Storable(records) && Storable(want) && |records| < |want| && body == EncodeRecords(want) + zeros
      requires done == head + EncodeRecords(records) && done <= head + body
      ensures records <= want && |done| <= |head + body| && (head + body)[|done|..] == Encode(want[|records|].unpadded) + t
    {
      hide Encode, Pow, Storable, EncodeRecords;
      assert done == head + (EncodeRecords(records) + []);
      PrefixTail(head, EncodeRecords(records) + [], body);
      RecordsGoOn(records, want, zeros, []);
      t := Encode(want[|records|].uncompressed) + (After(want, |records| + 1) + zeros);
      assert (head + body)[|done|..] == body[|EncodeRecords(records)|..];
    }

    lemma NextUncompressed(want: seq<Record>, head: seq<Byte>, body: seq<Byte>, zeros: seq<Byte>) returns (t: seq<Byte>)
      requires Storable(records) && Storable(want) && |records| < |want| && body == EncodeRecords(want) + zeros && first < Pow(2, 63)
      requires done == head + EncodeRecords(records) + Encode(first) && done <= head + body
      ensures records <= want && |done| <= |head + body| && first == want[|records|].unpadded
      ensures (head + body)[|done|..] == Encode(want[|records|].uncompressed) + t
    {
      hide Encode, Pow, Storable, EncodeRecords;
      var w := want[|records|];
      BoundsOf(want);
      var mine := EncodeRecords(records) + Encode(first);
      assert done == head + mine;
      PrefixTail(head, mine, body);
      RecordsGoOn(records, want, zeros, Encode(first));
      t := After(want, |records| + 1) + zeros;
      assert Encode(first) + [] == Encode(first);
      SameInteger(first, [], w.unpadded, Encode(w.uncompressed) + t);
      assert (head + body)[|done|..] == body[|EncodeRecords(records)|..][|Encode(first)|..];
    }

    lemma RestAlike(d: seq<Byte>, s: seq<Byte>, t: seq<Byte>)
      requires d <= s && d <= t && !Differ(s, t)
      ensures !Differ(s[|d|..], t[|d|..])
    {
      if s <= t {
        assert t[..|s|] == s && s[|d|..] == t[|d|..][..|s| - |d|];
      } else {
        assert s[..|t|] == t && t[|d|..] == s[|d|..][..|t| - |d|];
      }
    }

    lemma CountsAlike(n: nat, m: nat, t: seq<Byte>)
      requires n < Pow(2, 63) && m < Pow(2, 63) && !Differ(Encode(n), Encode(m) + t)
      ensures n == m
    {
      hide Encode, Pow;
      assert Encode(n) + [] == Encode(n);
      if Encode(n) <= Encode(m) + t {
        SameInteger(n, [], m, t);
      } else {
        SameInteger(m, t, n, []);
      }
    }

    /** An Index of the blocks that agrees with what was taken has all that was read so far. */
    lemma StartsAlike(want: seq<Record>)
      requires Placed() && done <= taken && Matches(want) && !Differ(taken, EncodeIndex(want))
      ensures done <= EncodeIndex(want)
    {
      hide Encode, Pow, HashAll, RoundUp, Storable, EncodeRecords;
      var x := EncodeIndex(want);
      if !(done <= x) {
        assert x <= taken && x <= done;
        var zeros := Zeros(RoundUp(|EncodeList(|want|, want)|) - |EncodeList(|want|, want)|);
        var head := [0] + Encode(|want|);
        var e := EncodeRecords(records) + if field == FieldUncompressed then Encode(first) else [];
        assert x == head + (EncodeRecords(want) + zeros) && done == head + e;
        PrefixTail(head, EncodeRecords(want) + zeros, e);
        PrefixFirst(EncodeRecords(want), zeros, e);
        TooFew(records, want, field == FieldUncompressed, if field == FieldUncompressed then first else 0);
        assert false;
      }
    }

    /** A malformed integer: no Index of these blocks goes on like this. */
    lemma BadInteger()
      requires Placed() && done <= taken && Feed(FRESH, taken[|done|..]).Bad?
      ensures Refuted(taken)
    {
      hide Feed, Placed, Matches, EncodeIndex, Encode, Pow;
      forall want: seq<Record> | Matches(want) ensures Differ(taken, EncodeIndex(want)) {
        var x := EncodeIndex(want);
        if !Differ(taken, x) {
          StartsAlike(want);
          var t := NextInteger(want);
          RestAlike(done, taken, x);
          IntegerAlike(NextValue(want), t, taken[|done|..]);
          assert false;
        }
      }
    }

    /** An integer that is not the number of blocks, where the number of records belongs. */
    lemma WrongCount()
      requires Placed() && field == FieldCount && vli < Pow(2, 63) && taken == done + Encode(vli) && vli != blockCount
      ensures Refuted(taken)
    {
      hide Feed, Placed, EncodeIndex, Encode, Pow;
      forall want: seq<Record> | Matches(want) ensures Differ(taken, EncodeIndex(want)) {
        var x := EncodeIndex(want);
        if !Differ(taken, x) {
          StartsAlike(want);
          var t := NextInteger(want);
          RestAlike(done, taken, x);
          CountsAlike(vli, |want|, t);
          assert false;
        }
      }
    }

    /** The switch of dec_index: the integer goes where the field says. */
    method StoreInteger()
      requires table.Ready() && Placed() && pos == 0 && vli < Pow(2, 63) && taken == done + Encode(vli)
      requires field == FieldCount ==> vli == blockCount
      modifies `field, `count, `hash, `done, `records, `first
      ensures count > 0 ==> InIndex()
      ensures count == 0 ==> Listed() && Storable(records) && |records| == blockCount && field == FieldUnpadded
      ensures taken == done && pos == 0
    {
      hide Encode, Pow, HashAll, Feed;
      FeedNone(FRESH);
      done := taken;
      assert taken[|done|..] == [];
      match field {
        case FieldCount =>
          count := vli;
          field := FieldUnpadded;
          assert EncodeList(blockCount, []) == [0] + Encode(blockCount);
          assert HashAll([]) == NO_RECORDS by { HashNone(); }
        case FieldUnpadded =>
          hash := hash.(unpadded := (hash.unpadded + vli) % U64);
          first := vli;
          field := FieldUncompressed;
        case FieldUncompressed =>
          StoreRecord();
      }
    }

    lemma HashNone()
      ensures HashAll([]) == NO_RECORDS
    {
    }

    method StoreRecord()
      requires table.Ready() && Storable(records) && first < Pow(2, 63) && vli < Pow(2, 63) && |records| < Pow(2, 63) - 1
      requires 0 < count == blockCount - |records| && hash == HashAll(records).(unpadded := (HashAll(records).unpadded + first) % U64)
      requires done == EncodeList(blockCount, records) + Encode(first) + Encode(vli)
      modifies `field, `count, `hash, `records
      ensures Listed() && Storable(records) && count == blockCount - |records| && field == FieldUnpadded
    {
      hide Encode, Pow, Crc, HashOctets, HashAll;
      ghost var r := Record(first, vli);
      HashSnoc(records, r);
      var sums := hash.(uncompressed := (hash.uncompressed + vli) % U64);
      var crc32 := table.Update(HashOctets(sums), sums.crc);
      hash := sums.(crc := crc32);
      ListSnoc(blockCount, records, r);
      records := records + [r];
      count := count - 1;
      field := FieldUnpadded;
    }

    lemma ListSnoc(n: nat, rs: seq<Record>, r: Record)
      ensures EncodeList(n, rs + [r]) == EncodeList(n, rs) + Encode(r.unpadded) + Encode(r.uncompressed)
    {
    }

    /** dec_index: integers until all the records are there. */
    method DecIndex(b: XzBuf) returns (ret: XzRet)
      requires table.Ready() && InIndex() && Lagging(b) && b.inPos <= |b.input|
      modifies `pos, `vli, `taken, `done, `field, `count, `hash, `records, `first, `size, `crc, b`inPos
      ensures old(b.inPos) <= b.inPos <= |b.input|
      ensures ret == XzOk ==> InIndex() && Tallied() && b.inPos == |b.input|
      ensures ret == XzStreamEnd ==> Listed() && Storable(records) && |records| == blockCount && taken == done && pos == 0 && Lagging(b)
      ensures ret == XzDataError ==> Refuted(taken)
      ensures taken == old(taken) + b.input[old(b.inPos)..b.inPos]
    {
      hide InIndex, Placed, Listed, Storable, Lagging, CrcOf, Encode, Feed, Pow, Refuted;
      while true
        invariant table.Ready() && InIndex() && Lagging(b) && old(b.inPos) <= b.inPos <= |b.input|
        invariant taken == old(taken) + b.input[old(b.inPos)..b.inPos]
        decreases |b.input| - b.inPos
      {
        ghost var from := b.inPos;
        ret := ReadInteger(b);
        Split(b.input, old(b.inPos), from, b.inPos);
        if ret != XzStreamEnd {
          if ret == XzDataError {
            BadInteger();
          }
          UpdateIndex(b);
          return;
        }
        if field == FieldCount && vli != blockCount {
          WrongCount();
          return XzDataError;
        }
        StoreInteger();
        if count == 0 {
          return;
        }
      }
    }

    /** SEQ_INDEX_PADDING: zeros up to a multiple of four bytes, then the comparison with the blocks. */
    method Padding(b: XzBuf) returns (ret: XzRet)
      requires table.Ready() && InPadding() && Lagging(b)
      modifies `taken, `size, `crc, b`inPos
      ensures old(b.inPos) <= b.inPos <= |b.input|
      ensures ret == XzOk ==> InPadding() && Tallied() && b.inPos == |b.input|
      ensures ret == XzStreamEnd ==> Checked() && Tallied() && pos == 0
      ensures ret == XzDataError ==> Refuted(taken)
      ensures taken == old(taken) + b.input[old(b.inPos)..b.inPos]
    {
      hide InPadding, Lagging, HashAll, Refuted, Checked, CrcOf;
      ret := PadAll(b);
      if ret == XzStreamEnd {
        ret := CompareHash(b);
      }
    }

    method PadAll(b: XzBuf) returns (ret: XzRet)
      requires table.Ready() && InPadding() && Lagging(b)
      modifies `taken, `size, `crc, b`inPos
      ensures old(b.inPos) <= b.inPos <= |b.input|
      ensures ret == XzOk ==> InPadding() && Tallied() && b.inPos == |b.input|
      ensures ret == XzStreamEnd ==> InPadding() && Lagging(b) && |taken| % 4 == 0
      ensures ret == XzDataError ==> Refuted(taken)
      ensures taken == old(taken) + b.input[old(b.inPos)..b.inPos]
    {
      hide Listed, Storable, CrcOf, RoundUp, HashAll, Encode, Refuted, InPadding, Lagging, Zeros;
      LagSize(b);
      while (size + (b.inPos - inStart)) % 4 != 0
        invariant InPadding() && Lagging(b) && old(b.inPos) <= b.inPos <= |b.input|
        invariant taken == old(taken) + b.input[old(b.inPos)..b.inPos]
        decreases RoundUp(|done|) - |taken|
      {
        LagSize(b);
        MoreToPad();
        if b.inPos == |b.input| {
          UpdateIndex(b);
          return XzOk;
        }
        ghost var from := b.inPos;
        var zero := PadByte(b);
        Split(b.input, old(b.inPos), from, b.inPos);
        if !zero {
          return XzDataError;
        }
        LagSize(b);
      }
      LagSize(b);
      ret := XzStreamEnd;
    }

    lemma MoreToPad()
      requires InPadding() && |taken| % 4 != 0
      ensures |taken| < RoundUp(|done|)
    {
      hide Listed, Storable, Zeros;
    }

    /** The comparison of the hashes. */
    method CompareHash(b: XzBuf) returns (ret: XzRet)
      requires table.Ready() && InPadding() && Lagging(b) && |taken| % 4 == 0
      modifies `size, `crc
      ensures ret == XzStreamEnd ==> Checked() && Tallied() && pos == 0
      ensures ret == XzDataError ==> Refuted(taken)
      ensures ret != XzOk
    {
      hide Listed, Storable, CrcOf, RoundUp, HashAll, Encode, Refuted;
      UpdateIndex(b);
      IndexWhole();
      ListedHash();
      if blockHash != hash {
        NotTheBlocks();
        return XzDataError;
      }
      ret := XzStreamEnd;
    }

    method PadByte(b: XzBuf) returns (zero: bool)
      requires InPadding() && Lagging(b) && b.inPos < |b.input| && |taken| % 4 != 0
      modifies `taken, b`inPos
      ensures b.inPos == old(b.inPos) + 1 && taken == old(taken) + b.input[old(b.inPos)..b.inPos]
      ensures zero ==> InPadding() && Lagging(b)
      ensures !zero ==> Refuted(taken)
    {
      hide Listed, Storable, CrcOf, HashAll, Encode, Refuted;
      ghost var from := b.inPos;
      var byte := b.input[b.inPos];
      b.inPos := b.inPos + 1;
      LagMore(b, from);
      assert b.input[from..b.inPos] == [byte];
      taken := taken + [byte];
      zero := byte == 0;
      if zero {
        ZerosSnoc(done, |taken| - |done|);
      } else {
        NotPadding();
      }
    }

    lemma ListedHash()
      requires Listed()
      ensures hash == HashAll(records) && done == EncodeList(blockCount, records)
    {
    }

    lemma LagSize(b: XzBuf)
      requires Lagging(b)
      ensures |taken| == size + (b.inPos - inStart) && inStart <= b.inPos <= |b.input|
    {
    }

    lemma ZerosSnoc(s: seq<Byte>, n: nat)
      requires n > 0
      ensures s + Zeros(n - 1) + [0] == s + Zeros(n)
    {
    }

    lemma IndexWhole()
      requires InPadding() && |taken| % 4 == 0
      ensures taken == EncodeIndex(records)
    {
    }

    /** A byte that is not zero, where the padding belongs. */
    lemma NotPadding()
      requires |taken| > 0 && taken[|taken| - 1] != 0 && |done| < |taken| <= RoundUp(|done|)
      requires done <= taken && Listed() && Storable(records) && |records| == blockCount
      ensures Refuted(taken)
    {
      hide Encode, HashAll, RoundUp, Storable, EncodeRecords;
      forall want: seq<Record> | Matches(want) ensures Differ(taken, EncodeIndex(want)) {
        var x := EncodeIndex(want);
        if !Differ(taken, x) {
          AllAlike(want);
          assert false;
        }
      }
    }

    /** All records are read, but they are not those of the blocks. */
    lemma NotTheBlocks()
      requires InPadding() && blockHash != hash
      ensures Refuted(taken)
    {
      hide Encode, HashAll, RoundUp, Storable, EncodeRecords, Zeros;
      forall want: seq<Record> | Matches(want) ensures Differ(taken, EncodeIndex(want)) {
        if !Differ(taken, EncodeIndex(want)) {
          AllAlike(want);
          assert false;
        }
      }
    }

    /** With all records read, an Index of the blocks that agrees with what was taken is that of the records. */
    lemma AllAlike(want: seq<Record>)
      requires Matches(want) && Listed() && Storable(records) && |records| == blockCount && done <= taken
      requires !Differ(taken, EncodeIndex(want))
      ensures records == want
    {
      hide EncodeList, EncodeIndex, HashAll, Storable, Matches;
      AsMany(want);
      SameList(records, want, taken);
    }

    lemma AsMany(want: seq<Record>)
      requires Matches(want)
      ensures |want| == blockCount && Storable(want)
    {
    }

    /** crc_validate: the four bytes of the CRC32 field, as they come. */
    method CheckCrc(b: XzBuf) returns (ret: XzRet)
      requires InCheck() && b.Valid()
      modifies `pos, `crc, `seen, b`inPos
      ensures old(b.inPos) <= b.inPos <= |b.input| && old(seen) <= seen
      ensures seen[|old(seen)|..] == b.input[old(b.inPos)..b.inPos]
      ensures ret == XzOk ==> InCheck() && crc == old(crc) && b.inPos == |b.input|
      ensures ret == XzStreamEnd ==> seen == LittleEndian(old(crc)) && pos == 0 && crc == 0
      ensures ret == XzDataError ==> |seen| <= 4 && !(seen <= LittleEndian(old(crc)))
    {
      hide LittleEndian;
      ret := CompareCrc(b, LittleEndian(crc));
      if ret == XzStreamEnd {
        crc := 0;
        pos := 0;
      }
    }

    method CompareCrc(b: XzBuf, ghost want: seq<Byte>) returns (ret: XzRet)
      requires b.Valid() && pos == 8 * |seen| && |seen| < 4 && |want| == 4 && want == LittleEndian(crc) && seen == want[..|seen|]
      modifies `pos, `seen, b`inPos
      ensures old(b.inPos) <= b.inPos <= |b.input| && old(seen) <= seen
      ensures seen[|old(seen)|..] == b.input[old(b.inPos)..b.inPos]
      ensures ret == XzOk ==> pos == 8 * |seen| && |seen| < 4 && seen == want[..|seen|] && b.inPos == |b.input|
      ensures ret == XzStreamEnd ==> seen == want
      ensures ret == XzDataError ==> |seen| <= 4 && !(seen <= want)
    {
      hide LittleEndian;
      while pos < 32
        invariant 0 <= |seen| <= 4 && pos == 8 * |seen| && seen == want[..|seen|]
        invariant old(b.inPos) <= b.inPos <= |b.input| && old(seen) <= seen
        invariant seen[|old(seen)|..] == b.input[old(b.inPos)..b.inPos]
      {
        if b.inPos == |b.input| {
          return XzOk;
        }
        var expected := CrcByte(crc, pos / 8);
        var byte := TakeCrcByte(b, |old(seen)|, old(b.inPos));
        if expected != byte {
          assert seen[|seen| - 1] != want[|seen| - 1];
          return XzDataError;
        }
        pos := pos + 8;
      }
      ret := XzStreamEnd;
    }

    method TakeCrcByte(b: XzBuf, ghost n: nat, ghost from: nat) returns (byte: Byte)
      requires n <= |seen| && from <= b.inPos < |b.input| && seen[n..] == b.input[from..b.inPos]
      modifies `seen, b`inPos
      ensures b.inPos == old(b.inPos) + 1 && byte == b.input[old(b.inPos)] && seen == old(seen) + [byte]
      ensures seen[n..] == b.input[from..b.inPos]
    {
      byte := b.input[b.inPos];
      ghost var was := seen[n..];
      Split(b.input, from, b.inPos, b.inPos + 1);
      b.inPos := b.inPos + 1;
      seen := seen + [byte];
      assert seen[n..] == was + [byte];
    }

    static method CrcByte(crc: bv32, k: nat) returns (byte: Byte)
      requires k < 4
      ensures byte == LittleEndian(crc)[k]
    {
      hide LowByte;
      if k == 0 {
        byte := LowByte(crc);
      } else if k == 1 {
        byte := LowByte(crc >> 8);
      } else if k == 2 {
        byte := LowByte(crc >> 16);
      } else {
        byte := LowByte(crc >> 24);
      }
    }

    /** The Index part of dec_main: the Index is accepted when it lists exactly the blocks that were decoded and is
        followed by its CRC32; it is refused only if no Index that does so has these bytes. */
    method DecodeIndex(b: XzBuf) returns (ret: XzRet)
      requires Valid() && step in {StepIndex, StepPadding, StepCrc} && b.Valid()
      modifies this, b`inPos
      ensures old(b.inPos) <= b.inPos <= |b.input| && taken + seen == old(taken + seen) + b.input[old(b.inPos)..b.inPos]
      ensures ret == XzOk ==> Valid() && b.inPos == |b.input| && step in {StepIndex, StepPadding, StepCrc}
      ensures ret == XzStreamEnd ==> Valid() && step == StepFooter && pos == 0
      ensures ret == XzDataError ==> Refuted(taken) || WrongCrc()
      ensures blocks == old(blocks) && blockCount == old(blockCount) && blockHash == old(blockHash)
    {
      hide InIndex, InPadding, Tallied, CrcOf, LittleEndian, Refuted, HashAll;
      inStart := b.inPos;
      if step != StepCrc {
        TalliedLags(b);
      }
      ret := Continue(b);
    }

    lemma TalliedLags(b: XzBuf)
      requires Tallied() && b.Valid() && inStart == b.inPos
      ensures Lagging(b)
    {
      hide CrcOf;
      assert taken[..size] == taken && taken[size..] == [];
    }

    /** The Index is right, but the field after it is not its CRC32. */
    ghost predicate WrongCrc()
      reads `taken, `records, `seen, `blockCount
    {
      && taken == EncodeIndex(records) && Storable(records) && |records| == blockCount
      && |seen| <= 4 && !(seen <= LittleEndian(CrcOf(taken, 0)))
    }

    /** Where the decoder has refused, there is no Index of the blocks with its CRC32. */
    lemma Denied(want: seq<Record>, rest: seq<Byte>)
      requires (Refuted(taken) || WrongCrc()) && Matches(want) && taken + seen <= rest
      ensures !(CheckedIndex(want) <= rest)
    {
      hide EncodeIndex, EncodeList, HashAll, CrcOf, LittleEndian, Storable, Matches;
      var x := EncodeIndex(want);
      if CheckedIndex(want) <= rest {
        PrefixFirst(x, LittleEndian(CrcOf(x, 0)), rest);
        PrefixFirst(taken, seen, rest);
        assert !Differ(taken, x);
        AsMany(want);
        ListFirst(records);
        SameList(records, want, taken);
        CheckAlike(x, LittleEndian(CrcOf(x, 0)), seen, rest);
        assert false;
      }
    }

    /** Where the decoder waits for more, there is none either, if this was all of the input. */
    lemma Unfinished(want: seq<Record>)
      requires Valid() && step in {StepIndex, StepPadding, StepCrc} && Matches(want)
      ensures !(CheckedIndex(want) <= taken + seen)
    {
      hide EncodeIndex, EncodeList, EncodeRecords, HashAll, CrcOf, LittleEndian, Storable, Matches, Placed, Feed, Encode, Pow, Tallied, RoundUp;
      var x := EncodeIndex(want);
      if CheckedIndex(want) <= taken + seen {
        PrefixFirst(x, LittleEndian(CrcOf(x, 0)), taken + seen);
        AsMany(want);
        if step == StepIndex {
          assert taken + seen == taken;
          StartsAlike(want);
          var t := NextInteger(want);
          RestAlike(done, taken, x);
          assert x[|done|..] <= taken[|done|..];
          IntegerAlike(NextValue(want), t, taken[|done|..]);
        } else if step == StepPadding {
          assert taken + seen == taken;
          AllAlike(want);
          PaddedSize(want);
        } else {
          ListFirst(records);
          SameList(records, want, taken + seen);
        }
        assert false;
      }
    }

    lemma PaddedSize(want: seq<Record>)
      requires Listed() && records == want && |want| == blockCount
      ensures |EncodeIndex(want)| == RoundUp(|done|)
    {
      hide RoundUp, EncodeList;
    }

    method Continue(b: XzBuf) returns (ret: XzRet)
      requires table.Ready() && blockCount == |blocks| && blockHash == HashAll(blocks) && b.Valid()
      requires step in {StepIndex, StepPadding, StepCrc}
      requires step == StepIndex ==> InIndex() && Lagging(b) && seen == []
      requires step == StepPadding ==> InPadding() && Lagging(b) && seen == []
      requires step == StepCrc ==> Checked() && Tallied() && InCheck()
      modifies this, b`inPos
      ensures old(b.inPos) <= b.inPos <= |b.input| && taken + seen == old(taken + seen) + b.input[old(b.inPos)..b.inPos]
      ensures ret == XzOk ==> Valid() && b.inPos == |b.input| && step in {StepIndex, StepPadding, StepCrc}
      ensures ret == XzStreamEnd ==> Valid() && step == StepFooter && pos == 0
      ensures ret == XzDataError ==> Refuted(taken) || WrongCrc()
      ensures blocks == old(blocks) && blockCount == old(blockCount) && blockHash == old(blockHash)
    {
      hide InIndex, InPadding, CrcOf, LittleEndian, Refuted, HashAll, Lagging, Checked, InCheck, WrongCrc, Valid, Listed, Storable, Tallied;
      if step == StepCrc {
        ret := FromCrc(b);
      } else if step == StepPadding {
        ret := FromPadding(b);
      } else {
        ghost var (from, was) := (b.inPos, taken);
        ret := DecIndex(b);
        NoneSeen(was, b.input, from, b.inPos);
        if ret == XzOk {
          InIndexStill();
        }
        if ret == XzStreamEnd {
          step := StepPadding;
          AllListed();
          ghost var mid := b.inPos;
          ret := FromPadding(b);
          Joined(was, b.input, from, mid, b.inPos);
        }
      }
    }

    lemma InIndexStill()
      requires table.Ready() && blockCount == |blocks| && blockHash == HashAll(blocks)
      requires step == StepIndex && InIndex() && Tallied() && seen == []
      ensures Valid()
    {
    }

    lemma NoneSeen(was: seq<Byte>, input: seq<Byte>, from: nat, to: nat)
      requires from <= to <= |input|
      ensures (was + input[from..to]) + [] == (was + []) + input[from..to]
    {
    }

    lemma Joined(was: seq<Byte>, input: seq<Byte>, from: nat, mid: nat, to: nat)
      requires from <= mid <= to <= |input|
      ensures ((was + input[from..mid]) + []) + input[mid..to] == (was + []) + input[from..to]
    {
    }

    method FromPadding(b: XzBuf) returns (ret: XzRet)
      requires table.Ready() && blockCount == |blocks| && blockHash == HashAll(blocks) && b.Valid()
      requires step == StepPadding && InPadding() && Lagging(b) && seen == []
      modifies this, b`inPos
      ensures old(b.inPos) <= b.inPos <= |b.input| && taken + seen == old(taken + seen) + b.input[old(b.inPos)..b.inPos]
      ensures ret == XzOk ==> Valid() && b.inPos == |b.input| && step in {StepIndex, StepPadding, StepCrc}
      ensures ret == XzStreamEnd ==> Valid() && step == StepFooter && pos == 0
      ensures ret == XzDataError ==> Refuted(taken) || WrongCrc()
      ensures blocks == old(blocks) && blockCount == old(blockCount) && blockHash == old(blockHash)
    {
      hide InPadding, CrcOf, LittleEndian, Refuted, HashAll, Lagging, Checked, InCheck, WrongCrc;
      ghost var (from, was) := (b.inPos, taken);
      ret := Padding(b);
      NoneSeen(was, b.input, from, b.inPos);
      if ret == XzStreamEnd {
        step := StepCrc;
        NothingSeen();
        ghost var mid := b.inPos;
        ret := FromCrc(b);
        Joined(was, b.input, from, mid, b.inPos);
      }
    }

    method FromCrc(b: XzBuf) returns (ret: XzRet)
      requires table.Ready() && blockCount == |blocks| && blockHash == HashAll(blocks) && b.Valid()
      requires step == StepCrc && Checked() && Tallied() && InCheck()
      modifies this, b`inPos
      ensures old(b.inPos) <= b.inPos <= |b.input| && taken + seen == old(taken + seen) + b.input[old(b.inPos)..b.inPos]
      ensures ret == XzOk ==> Valid() && b.inPos == |b.input| && step in {StepIndex, StepPadding, StepCrc}
      ensures ret == XzStreamEnd ==> Valid() && step == StepFooter && pos == 0
      ensures ret == XzDataError ==> Refuted(taken) || WrongCrc()
      ensures blocks == old(blocks) && blockCount == old(blockCount) && blockHash == old(blockHash)
    {
      hide CrcOf, LittleEndian, Refuted, HashAll, InCheck;
      ghost var was := seen;
      ret := CheckCrc(b);
      assert taken + seen == taken + was + seen[|was|..];
      if ret == XzStreamEnd {
        step := StepFooter;
      }
    }

    lemma AllListed()
      requires Listed() && Storable(records) && |records| == blockCount && taken == done && pos == 0
      ensures InPadding()
    {
    }

    lemma NothingSeen()
      requires seen == [] && pos == 0
      ensures InCheck()
    {
    }
  }
}
