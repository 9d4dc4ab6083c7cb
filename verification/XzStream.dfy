/** A whole .xz stream in the single call the program makes: header, Blocks, Index and footer. The call comes to the end
    exactly for well-formed streams for whose data there is room. */
module XzStream {
  import opened Bytes
  import opened PowerPc
  import opened Crc32
  import Vli
  import opened Dictionary
  import opened Lzma2Reference
  import opened Lzma2Encoding
  import opened Lzma2
  import opened Bcj
  import opened XzIndex
  import opened XzBlock
  import opened XzHeader

  // ------------------------------------------------------------ well-formed streams

  /** A Block: the size of its header, what the header says, and the text and length of its LZMA2 stream. */
  datatype Entry = Entry(size: nat, head: Head, text: seq<Byte>, used: nat)

  ghost function Data(e: Entry): (data: seq<Byte>)
    ensures |data| == |e.text|
  {
    DataOf(e.head.filtered, e.text)
  }

  function CheckSize(hasCrc: bool): nat {
    if hasCrc then CRC_SIZE else 0
  }

  /** What follows the LZMA2 stream: padding to a multiple of four bytes, and the check value of the data. */
  ghost function Trailer(used: nat, data: seq<Byte>, hasCrc: bool): (s: seq<Byte>)
    ensures |s| == RoundUp(used) - used + CheckSize(hasCrc)
  {
    Zeros(RoundUp(used) - used) + if hasCrc then LittleEndian(CrcOf(data, 0)) else []
  }

  function RecordOf(e: Entry, hasCrc: bool): Record {
    Record(e.size + e.used + CheckSize(hasCrc), |e.text|)
  }

  function NextAt(at: nat, e: Entry, hasCrc: bool): nat {
    at + e.size + RoundUp(e.used) + CheckSize(hasCrc)
  }

  ghost predicate BlockAt(s: seq<Byte>, at: nat, hasCrc: bool, e: Entry) {
    && Writable(e.head, e.size) && Holds(s, at, EncodeHead(e.head, e.size))
    && TextAt(s, at + e.size, e.head, e.text, e.used)
    && Holds(s, at + e.size + e.used, Trailer(e.used, Data(e), hasCrc))
  }

  /** An LZMA2 stream with this text, and the sizes the header declares. */
  ghost predicate TextAt(s: seq<Byte>, at: nat, h: Head, text: seq<Byte>, used: nat) {
    && at + used <= |s| && Accepts(s[at..], DictSize(h.props), text, used)
    && Agrees(used, h.compressed) && Agrees(|text|, h.uncompressed)
  }

  /** The Index with its CRC32, and the footer. */
  ghost predicate EndsAt(s: seq<Byte>, at: nat, hasCrc: bool, recs: seq<Record>) {
    exists rs: seq<Record> :: Lists(rs, recs) && Holds(s, at, EndOf(rs, hasCrc))
  }

  ghost function EndOf(rs: seq<Record>, hasCrc: bool): seq<Byte>
    requires |EncodeIndex(rs)| / 4 < U32
  {
    CheckedIndex(rs) + StreamFooter(|EncodeIndex(rs)|, hasCrc)
  }

  /** An Index is compared with the Blocks by their number, the sums of the sizes and the hash. */
  ghost predicate Lists(rs: seq<Record>, recs: seq<Record>) {
    Storable(rs) && |rs| == |recs| && HashAll(rs) == HashAll(recs) && |EncodeIndex(rs)| / 4 < U32
  }

  /** From a position on there are these Blocks and the end of the stream; recs are the Blocks before. */
  ghost predicate Goes(s: seq<Byte>, at: nat, hasCrc: bool, recs: seq<Record>, es: seq<Entry>)
    decreases |es|
  {
    if es == [] then EndsAt(s, at, hasCrc, recs)
    else BlockAt(s, at, hasCrc, es[0]) && Goes(s, NextAt(at, es[0], hasCrc), hasCrc, recs + [RecordOf(es[0], hasCrc)], es[1..])
  }

  ghost predicate IsXz(s: seq<Byte>, at: nat, hasCrc: bool, es: seq<Entry>) {
    Holds(s, at, StreamHeader(hasCrc)) && Goes(s, at + STREAM_HEADER_SIZE, hasCrc, [], es)
  }

  /** The data of all the Blocks. */
  ghost function AllData(es: seq<Entry>): seq<Byte> {
    if es == [] then [] else Data(es[0]) + AllData(es[1..])
  }

  /** How the call comes out: a Block for which there is no room ends it. */
  function Comes(es: seq<Entry>, room: nat): Outcome {
    if es == [] then Returned(XzStreamEnd)
    else if |es[0].text| <= room then Comes(es[1..], room - |es[0].text|)
    else CallOf(es[0].head.filtered, |es[0].text|, room)
  }

  // ----------------------------------------------------------------------- lemmas

  lemma HeadOne(h: Head, h': Head, size: nat)
    requires Writable(h, size) && Writable(h', size) && HeadBytes(h, size) == HeadBytes(h', size)
    ensures h == h'
  {
    hide ParseHead;
    HeadRead(h, size);
    HeadRead(h', size);
  }

  /** The first byte tells a Block from the Index, and says how long its header is. */
  lemma BlockStarts(s: seq<Byte>, at: nat, hasCrc: bool, e: Entry)
    requires BlockAt(s, at, hasCrc, e)
    ensures at + e.size <= |s| && s[at] == e.size / 4 - 1 > 0 && s[at..at + e.size] == EncodeHead(e.head, e.size)
    ensures var first: nat := s[at]; e.size == 4 * (first + 1) && TextAt(s, at + e.size, e.head, e.text, e.used)
  {
    hide CrcOf, LittleEndian, Fields, Accepts, Trailer, HeadBytes, EncodeHead, Writable;
    HeadFirst(e.head, e.size);
    HoldsAt(s, at, EncodeHead(e.head, e.size), 0);
  }

  lemma HeadFirst(h: Head, size: nat)
    requires Writable(h, size)
    ensures EncodeHead(h, size)[0] == size / 4 - 1 > 0 && HeadSize(size) && 4 * (size / 4) == size
  {
    hide CrcOf, LittleEndian, Fields, Small;
  }

  lemma EndStarts(s: seq<Byte>, at: nat, hasCrc: bool, recs: seq<Record>)
    requires EndsAt(s, at, hasCrc, recs)
    ensures at < |s| && s[at] == 0
  {
    hide CrcOf, LittleEndian, HashAll, Storable, EncodeRecords, RoundUp, Vli.Encode;
    var rs: seq<Record> :| Lists(rs, recs) && Holds(s, at, EndOf(rs, hasCrc));
    HoldsAt(s, at, EndOf(rs, hasCrc), 0);
    assert EncodeIndex(rs)[0] == 0;
  }

  /** A Block is determined by where it begins. */
  lemma SameBlock(s: seq<Byte>, at: nat, hasCrc: bool, e: Entry, e': Entry)
    requires BlockAt(s, at, hasCrc, e) && BlockAt(s, at, hasCrc, e')
    ensures e == e'
  {
    hide CrcOf, LittleEndian, HeadBytes, Writable, Accepts, Trailer, Holds;
    BlockStarts(s, at, hasCrc, e);
    BlockStarts(s, at, hasCrc, e');
    SameHead(e.head, e'.head, e.size);
    OneVerdict(s[at + e.size..], DictSize(e.head.props), e.text, e.used, e'.text, e'.used);
  }

  lemma SameHead(h: Head, h': Head, size: nat)
    requires Writable(h, size) && Writable(h', size) && EncodeHead(h, size) == EncodeHead(h', size)
    ensures h == h'
  {
    hide HeadBytes, Writable, CrcOf, LittleEndian;
    assert EncodeHead(h, size)[..size - 4] == HeadBytes(h, size) && EncodeHead(h', size)[..size - 4] == HeadBytes(h', size);
    HeadOne(h, h', size);
  }

  /** A string of bytes in two parts. */
  lemma HoldsBoth(s: seq<Byte>, at: nat, a: seq<Byte>, b: seq<Byte>)
    ensures Holds(s, at, a + b) <==> Holds(s, at, a) && Holds(s, at + |a|, b)
  {
    if Holds(s, at, a + b) {
      HoldsParts(s, at, a, b);
    }
    if Holds(s, at, a) && Holds(s, at + |a|, b) {
      Split(s, at, at + |a|, at + |a| + |b|);
    }
  }

  /** What is known after some Blocks: any stream that goes on from the beginning goes on from here, after these
      Blocks, and the other way round. */
  ghost predicate Passed(s: seq<Byte>, hasCrc: bool, from: nat, room0: nat, at: nat, recs: seq<Record>, room: nat, es: seq<Entry>)
  {
    && (forall all: seq<Entry> :: Goes(s, from, hasCrc, [], all) ==>
          es <= all && Goes(s, at, hasCrc, recs, all[|es|..]) && Comes(all, room0) == Comes(all[|es|..], room))
    && (forall rest: seq<Entry> :: Goes(s, at, hasCrc, recs, rest) ==> Goes(s, from, hasCrc, [], es + rest))
  }

  lemma PassedNone(s: seq<Byte>, hasCrc: bool, from: nat, room: nat)
    ensures Passed(s, hasCrc, from, room, from, [], room, [])
  {
    hide Goes, Comes;
    assert forall all: seq<Entry> :: all[0..] == all && [] + all == all;
  }

  lemma PassedOne(s: seq<Byte>, hasCrc: bool, from: nat, room0: nat, at: nat, recs: seq<Record>, room: nat, es: seq<Entry>, e: Entry)
    requires Passed(s, hasCrc, from, room0, at, recs, room, es) && BlockAt(s, at, hasCrc, e) && |e.text| <= room
    ensures Passed(s, hasCrc, from, room0, NextAt(at, e, hasCrc), recs + [RecordOf(e, hasCrc)], room - |e.text|, es + [e])
  {
    hide BlockAt, Goes, Comes;
    var (next, recs') := (NextAt(at, e, hasCrc), recs + [RecordOf(e, hasCrc)]);
    PassedForced(s, hasCrc, from, room0, at, recs, room, es, e);
    PassedBuilt(s, hasCrc, from, room0, at, recs, room, es, e);
  }

  lemma PassedForced(s: seq<Byte>, hasCrc: bool, from: nat, room0: nat, at: nat, recs: seq<Record>, room: nat, es: seq<Entry>, e: Entry)
    requires Passed(s, hasCrc, from, room0, at, recs, room, es) && BlockAt(s, at, hasCrc, e) && |e.text| <= room
    ensures forall all: seq<Entry> :: Goes(s, from, hasCrc, [], all) ==>
      && es + [e] <= all && Goes(s, NextAt(at, e, hasCrc), hasCrc, recs + [RecordOf(e, hasCrc)], all[|es + [e]|..])
      && Comes(all, room0) == Comes(all[|es + [e]|..], room - |e.text|)
  {
    hide BlockAt, Goes, Comes;
    forall all: seq<Entry> | Goes(s, from, hasCrc, [], all)
      ensures es + [e] <= all && Goes(s, NextAt(at, e, hasCrc), hasCrc, recs + [RecordOf(e, hasCrc)], all[|es + [e]|..])
              && Comes(all, room0) == Comes(all[|es + [e]|..], room - |e.text|)
    {
      var rest := all[|es|..];
      FirstIs(s, at, hasCrc, recs, rest, e);
      GoesOn(s, at, hasCrc, recs, rest);
      ComesOn(rest, room);
      assert all[|es + [e]|..] == rest[1..];
      assert all == es + rest && rest == [e] + rest[1..];
    }
  }

  lemma PassedBuilt(s: seq<Byte>, hasCrc: bool, from: nat, room0: nat, at: nat, recs: seq<Record>, room: nat, es: seq<Entry>, e: Entry)
    requires Passed(s, hasCrc, from, room0, at, recs, room, es) && BlockAt(s, at, hasCrc, e)
    ensures forall rest: seq<Entry> :: Goes(s, NextAt(at, e, hasCrc), hasCrc, recs + [RecordOf(e, hasCrc)], rest) ==>
      Goes(s, from, hasCrc, [], es + [e] + rest)
  {
    hide BlockAt, Comes, EndsAt, Goes, AllData, NextAt, RecordOf;
    var (next, recs') := (NextAt(at, e, hasCrc), recs + [RecordOf(e, hasCrc)]);
    forall rest: seq<Entry> | Goes(s, next, hasCrc, recs', rest) ensures Goes(s, from, hasCrc, [], es + [e] + rest) {
      GoesFarther(s, at, hasCrc, recs, e, rest);
      assert es + ([e] + rest) == es + [e] + rest;
    }
  }

  lemma GoesFarther(s: seq<Byte>, at: nat, hasCrc: bool, recs: seq<Record>, e: Entry, rest: seq<Entry>)
    requires BlockAt(s, at, hasCrc, e) && Goes(s, NextAt(at, e, hasCrc), hasCrc, recs + [RecordOf(e, hasCrc)], rest)
    ensures Goes(s, at, hasCrc, recs, [e] + rest) && AllData([e] + rest) == Data(e) + AllData(rest)
  {
    hide BlockAt, NextAt, RecordOf, Data;
    assert ([e] + rest)[1..] == rest;
  }

  lemma FirstIs(s: seq<Byte>, at: nat, hasCrc: bool, recs: seq<Record>, rest: seq<Entry>, e: Entry)
    requires Goes(s, at, hasCrc, recs, rest) && BlockAt(s, at, hasCrc, e)
    ensures rest != [] && rest[0] == e
  {
    hide BlockAt, EndsAt, Goes, Comes, RecordOf, NextAt;
    BlockStarts(s, at, hasCrc, e);
    GoesOn(s, at, hasCrc, recs, rest);
    if rest == [] {
      EndStarts(s, at, hasCrc, recs);
    } else {
      SameBlock(s, at, hasCrc, e, rest[0]);
    }
  }

  lemma GoesOn(s: seq<Byte>, at: nat, hasCrc: bool, recs: seq<Record>, rest: seq<Entry>)
    requires Goes(s, at, hasCrc, recs, rest)
    ensures if rest == [] then EndsAt(s, at, hasCrc, recs) else
      BlockAt(s, at, hasCrc, rest[0]) && Goes(s, NextAt(at, rest[0], hasCrc), hasCrc, recs + [RecordOf(rest[0], hasCrc)], rest[1..])
  {
  }

  lemma ComesOn(rest: seq<Entry>, room: nat)
    requires rest != [] && |rest[0].text| <= room
    ensures Comes(rest, room) == Comes(rest[1..], room - |rest[0].text|)
  {
  }

  lemma Continues(s: seq<Byte>, hasCrc: bool, from: nat, room0: nat, at: nat, recs: seq<Record>, room: nat, es: seq<Entry>)
    requires Passed(s, hasCrc, from, room0, at, recs, room, es)
    ensures forall all: seq<Entry> :: Goes(s, from, hasCrc, [], all) ==>
      |es| <= |all| && Goes(s, at, hasCrc, recs, all[|es|..]) && Comes(all, room0) == Comes(all[|es|..], room)
  {
    hide Goes, Comes;
  }

  lemma BlockLong(s: seq<Byte>, at: nat, hasCrc: bool, e: Entry)
    requires BlockAt(s, at, hasCrc, e)
    ensures at < NextAt(at, e, hasCrc)
  {
    hide BlockAt;
    BlockStarts(s, at, hasCrc, e);
  }

  /** A Block that did not come to its end is where the stream stops. */
  lemma Stops(s: seq<Byte>, at: nat, hasCrc: bool, recs: seq<Record>, rest: seq<Entry>, room: nat, o: Outcome)
    requires Goes(s, at, hasCrc, recs, rest) && at < |s| && s[at] != 0 && o != Returned(XzStreamEnd)
    requires forall e: Entry :: BlockAt(s, at, hasCrc, e) ==> o == CallOf(e.head.filtered, |e.text|, room)
    ensures o == Comes(rest, room)
  {
    hide BlockAt, EndsAt;
    if rest == [] {
      EndStarts(s, at, hasCrc, recs);
    }
  }

  /** At a zero byte there is no further Block. */
  lemma NothingButEnd(s: seq<Byte>, hasCrc: bool, from: nat, room0: nat, at: nat, recs: seq<Record>, room: nat, es: seq<Entry>)
    requires Passed(s, hasCrc, from, room0, at, recs, room, es) && at < |s| && s[at] == 0
    ensures forall all: seq<Entry> :: Goes(s, from, hasCrc, [], all) ==>
      EndsAt(s, at, hasCrc, recs) && Comes(all, room0) == Returned(XzStreamEnd)
    ensures EndsAt(s, at, hasCrc, recs) ==> Goes(s, from, hasCrc, [], es)
  {
    hide BlockAt, EndsAt;
    forall all: seq<Entry> | Goes(s, from, hasCrc, [], all)
      ensures EndsAt(s, at, hasCrc, recs) && Comes(all, room0) == Returned(XzStreamEnd)
    {
      var rest := all[|es|..];
      if rest != [] {
        BlockStarts(s, at, hasCrc, rest[0]);
      }
    }
    if EndsAt(s, at, hasCrc, recs) {
      assert Goes(s, at, hasCrc, recs, []) && es + [] == es;
    }
  }

  /** At the end of the input there is nothing. */
  lemma NothingMore(s: seq<Byte>, hasCrc: bool, from: nat, room0: nat, at: nat, recs: seq<Record>, room: nat, es: seq<Entry>)
    requires Passed(s, hasCrc, from, room0, at, recs, room, es) && at >= |s|
    ensures forall all: seq<Entry> :: !Goes(s, from, hasCrc, [], all)
  {
    hide BlockAt, EndsAt;
    forall all: seq<Entry> ensures !Goes(s, from, hasCrc, [], all) {
      if Goes(s, from, hasCrc, [], all) {
        var rest := all[|es|..];
        if rest != [] {
          BlockStarts(s, at, hasCrc, rest[0]);
        } else {
          EndStarts(s, at, hasCrc, recs);
        }
      }
    }
  }

  lemma NoData(before: seq<Byte>)
    ensures before + AllData([]) == before
  {
  }

  lemma MoreData(before: seq<Byte>, es: seq<Entry>, e: Entry)
    ensures before + AllData(es) + Data(e) == before + AllData(es + [e])
  {
    hide Data;
    DataSnoc(es, e);
  }
  lemma OneHeader(temp: seq<Byte>, hasCrc: bool)
    requires temp == StreamHeader(hasCrc)
    ensures forall crc: bool :: temp == StreamHeader(crc) ==> crc == hasCrc
  {
    hide LittleEndian, CrcOf;
    assert temp[7] == if hasCrc then 1 else 0;
    assert forall crc: bool :: StreamHeader(crc)[7] == if crc then 1 else 0;
  }

  lemma {:induction false} DataSnoc(es: seq<Entry>, e: Entry)
    ensures AllData(es + [e]) == AllData(es) + Data(e)
    decreases |es|
  {
    hide Data;
    if es == [] {
      assert ([] + [e])[1..] == [] && [] + [e] == [e];
      assert AllData([e]) == Data(e) + AllData([]);
    } else {
      assert (es + [e])[1..] == es[1..] + [e];
      DataSnoc(es[1..], e);
    }
  }

  // ------------------------------------------------------------------ the decoder

  class XzDec {
    const index: IndexDec
    var hasCrc: bool
    var head: Head
    var headSize: nat

    constructor (table: Table)
      requires table.Ready()
      ensures AtBlock() && index.blocks == [] && fresh(index) && index.table == table
    {
      index := new IndexDec(table);
      hasCrc, head, headSize := false, Head(false, Unknown, Unknown, 0), 0;
    }

    /** Between Blocks. */
    ghost predicate AtBlock()
      reads index, index.table.entries
    {
      index.Valid() && index.step == StepBlockStart && index.table.Ready()
    }

    /** The output is not the table's memory. */
    ghost predicate Apart(b: XzBuf)
      reads b`out
    {
      b.out as object != index.table.entries
    }

    /** fill_temp */
    method FillTemp(b: XzBuf, n: nat) returns (ok: bool, temp: seq<Byte>)
      requires b.Valid()
      modifies b`inPos
      ensures b.Valid() && (ok <==> old(b.inPos) + n <= |b.input|)
      ensures ok ==> b.inPos == old(b.inPos) + n && temp == b.input[old(b.inPos)..b.inPos]
    {
      var size := Min(|b.input| - b.inPos, n);
      temp := b.input[b.inPos..b.inPos + size];
      b.inPos := b.inPos + size;
      ok := size == n;
    }

    /** dec_stream_header */
    method DecStreamHeader(temp: seq<Byte>) returns (ok: bool)
      requires |temp| == STREAM_HEADER_SIZE && index.table.Ready()
      modifies `hasCrc
      ensures ok <==> temp == StreamHeader(false) || temp == StreamHeader(true)
      ensures ok ==> temp == StreamHeader(hasCrc)
    {
      hide LittleEndian, Crc, Octets;
      HeaderParts(temp);
      if temp[..6] != MAGIC {
        return false;
      }
      var crc32 := index.table.Update(Octets(temp[6..8]), 0);
      if LittleEndian(crc32) != temp[8..] {
        return false;
      }
      if temp[6] != 0 || temp[7] > 1 {
        return false;
      }
      hasCrc := temp[7] == 1;
      ok := true;
    }

    lemma HeaderParts(temp: seq<Byte>)
      requires |temp| == STREAM_HEADER_SIZE
      ensures forall crc: bool :: temp == StreamHeader(crc) <==>
        temp[..6] == MAGIC && temp[6..8] == StreamFlags(crc) && temp[8..] == LittleEndian(CrcOf(StreamFlags(crc), 0))
      ensures forall crc: bool :: temp[6..8] == StreamFlags(crc) <==> temp[6] == 0 && temp[7] == if crc then 1 else 0
    {
      hide LittleEndian, CrcOf;
      forall crc: bool
        ensures temp == StreamHeader(crc) <==>
          temp[..6] == MAGIC && temp[6..8] == StreamFlags(crc) && temp[8..] == LittleEndian(CrcOf(StreamFlags(crc), 0))
      {
        var (f, c) := (StreamFlags(crc), LittleEndian(CrcOf(StreamFlags(crc), 0)));
        assert temp == temp[..6] + temp[6..8] + temp[8..];
        assert (MAGIC + f + c)[..6] == MAGIC && (MAGIC + f + c)[6..8] == f && (MAGIC + f + c)[8..] == c;
      }
    }

    /** dec_stream_footer */
    method DecStreamFooter(temp: seq<Byte>) returns (ok: bool)
      requires |temp| == STREAM_HEADER_SIZE && index.table.Ready()
      ensures ok <==> index.size / 4 < U32 && temp == StreamFooter(index.size, hasCrc)
    {
      hide LittleEndian, Crc, Octets, FromLittle, ToLittle;
      if temp[10..] != FOOTER_MAGIC {
        FooterParts(temp, index.size, hasCrc);
        return false;
      }
      var crc32 := index.table.Update(Octets(temp[4..10]), 0);
      FooterParts(temp, index.size, hasCrc);
      LittleRead(index.size / 4, temp[4..8]);
      if LittleEndian(crc32) != temp[..4] {
        return false;
      }
      if index.size / 4 != FromLittle(temp[4..8]) {
        return false;
      }
      ok := temp[8] == 0 && temp[9] == if hasCrc then 1 else 0;
    }

    lemma FooterParts(temp: seq<Byte>, size: nat, crc: bool)
      requires |temp| == STREAM_HEADER_SIZE
      ensures size / 4 < U32 ==>
        (temp == StreamFooter(size, crc) <==>
         temp[10..] == FOOTER_MAGIC && temp[..4] == LittleEndian(CrcOf(temp[4..10], 0)) && temp[4..8] == ToLittle(size / 4)
         && temp[8] == 0 && temp[9] == if crc then 1 else 0)
    {
      hide LittleEndian, CrcOf, ToLittle;
      if size / 4 < U32 {
        var (n, f) := (ToLittle(size / 4), StreamFlags(crc));
        var c := LittleEndian(CrcOf(n + f, 0));
        var footer := c + (n + f) + FOOTER_MAGIC;
        assert temp == temp[..4] + temp[4..10] + temp[10..] && temp[4..10] == temp[4..8] + temp[8..10];
        assert footer[..4] == c && footer[4..10] == n + f && footer[10..] == FOOTER_MAGIC;
        assert footer[4..8] == n && footer[8] == f[0] && footer[9] == f[1];
        assert temp[8..10] == [temp[8], temp[9]];
      }
    }

    // -------------------------------------------------------------- the Block Header

    /** dec_block_header */
    method DecBlockHeader(temp: seq<Byte>) returns (ok: bool)
      requires AtBlock() && HeadSize(|temp|) && temp[0] == |temp| / 4 - 1
      modifies `head, index`pos, index`vli
      ensures ok ==> AtBlock() && Writable(head, |temp|) && temp == EncodeHead(head, |temp|)
      ensures !ok ==> forall h: Head :: Writable(h, |temp|) ==> temp != EncodeHead(h, |temp|)
    {
      hide LittleEndian, Crc, Octets, ParseHead, HeadBytes, EncodeHead, Writable;
      var n := |temp| - 4;
      HeadParts(temp);
      var crc32 := index.table.Update(Octets(temp[..n]), 0);
      if temp[n..] != LittleEndian(crc32) {
        return false;
      }
      ok := DecFields(temp[..n]);
      if ok {
        HeadOnly(temp[..n], |temp|);
      } else {
        forall h: Head | Writable(h, |temp|) ensures temp != EncodeHead(h, |temp|) {
          HeadRead(h, |temp|);
        }
      }
    }

    lemma HeadParts(temp: seq<Byte>)
      requires HeadSize(|temp|)
      ensures var n := |temp| - 4;
              forall h: Head :: Writable(h, |temp|) ==>
                (temp == EncodeHead(h, |temp|) <==> temp[..n] == HeadBytes(h, |temp|) && temp[n..] == LittleEndian(CrcOf(temp[..n], 0)))
    {
      hide LittleEndian, CrcOf, HeadBytes, Writable;
      var n := |temp| - 4;
      forall h: Head | Writable(h, |temp|)
        ensures temp == EncodeHead(h, |temp|) <==> temp[..n] == HeadBytes(h, |temp|) && temp[n..] == LittleEndian(CrcOf(temp[..n], 0))
      {
        var (x, y) := (HeadBytes(h, |temp|), EncodeHead(h, |temp|));
        assert temp == temp[..n] + temp[n..] && y[..n] == x && y[n..] == LittleEndian(CrcOf(x, 0));
      }
    }

    /** The fields, one after the other. */
    method DecFields(t: seq<Byte>) returns (ok: bool)
      requires |t| >= 4 && index.pos == 0
      modifies `head, index`pos, index`vli
      ensures ParseHead(t) == if ok then Right(head, []) else Wrong
      ensures ok ==> index.pos == 0
    {
      hide ParseOptional, ParseFilters;
      var none := new Byte[0];
      var b := new XzBuf(t, none);
      b.inPos := 2;
      var flags := t[1];
      if flags % 0x40 >= 2 {
        return false;
      }
      var compressed, uncompressed, props;
      ok, compressed := DecOptional(b, flags / 0x40 % 2 == 1);
      if !ok {
        return;
      }
      ok, uncompressed := DecOptional(b, flags / 0x80 == 1);
      if !ok {
        return;
      }
      ok, props := DecFilters(b, flags % 2 == 1);
      if !ok {
        return;
      }
      ok := DecPadding(b);
      head := Head(flags % 2 == 1, compressed, uncompressed, props);
    }

    /** Compressed Size or Uncompressed Size */
    method DecOptional(b: XzBuf, present: bool) returns (ok: bool, d: Declared)
      requires b.Valid() && index.pos == 0
      modifies index`pos, index`vli, b`inPos
      ensures b.Valid() && (ok ==> index.pos == 0)
      ensures ParseOptional(present, b.input[old(b.inPos)..]) == if ok then Right(d, b.input[b.inPos..]) else Wrong
    {
      ok, d := true, Unknown;
      if present {
        Vli.FeedUsed(Vli.FRESH, b.input[b.inPos..]);
        ghost var from := b.inPos;
        var ret := index.DecVli(b);
        if ret != XzStreamEnd {
          return false, Unknown;
        }
        d := Known(index.vli);
        assert b.input[b.inPos..] == b.input[from..][b.inPos - from..];
      }
    }

    /** The filters: that of the processor, if there are two, and LZMA2. */
    method DecFilters(b: XzBuf, filtered: bool) returns (ok: bool, props: Byte)
      requires b.Valid()
      modifies b`inPos
      ensures b.Valid()
      ensures ParseFilters(filtered, b.input[old(b.inPos)..]) == if ok then Right(props, b.input[b.inPos..]) else Wrong
    {
      ghost var s := b.input[b.inPos..];
      ok, props := false, 0;
      if filtered {
        if |b.input| - b.inPos < 2 {
          return;
        }
        if b.input[b.inPos] != POWERPC || b.input[b.inPos + 1] != 0 {
          return;
        }
        b.inPos := b.inPos + 2;
      }
      if |b.input| - b.inPos < 2 {
        return;
      }
      if b.input[b.inPos] != LZMA2 || b.input[b.inPos + 1] != 1 {
        return;
      }
      b.inPos := b.inPos + 2;
      if |b.input| - b.inPos < 1 {
        return;
      }
      if b.input[b.inPos] > PROPS_MAX {
        return;
      }
      ok, props := true, b.input[b.inPos];
      b.inPos := b.inPos + 1;
      assert b.input[b.inPos..] == s[if filtered then 5 else 3..];
    }

    /** The rest must be zeros. */
    method DecPadding(b: XzBuf) returns (ok: bool)
      requires b.Valid()
      modifies b`inPos
      ensures ok <==> b.input[old(b.inPos)..] == Zeros(|b.input| - old(b.inPos))
    {
      ghost var from := b.inPos;
      while b.inPos < |b.input|
        invariant b.Valid() && from <= b.inPos && forall k :: from <= k < b.inPos ==> b.input[k] == 0
      {
        if b.input[b.inPos] != 0 {
          assert b.input[from..][b.inPos - from] != 0;
          return false;
        }
        b.inPos := b.inPos + 1;
      }
      assert b.input[from..] == Zeros(|b.input| - from);
      ok := true;
    }

    // --------------------------------------------------------------------- a Block

    /** dec_block for the Block of this header, with a decoder that is reset for it. */
    method DecBlock(b: XzBuf) returns (o: Outcome, n: nat, crc: bv32, ghost text: seq<Byte>)
      requires AtBlock() && b.Valid() && Apart(b) && head.props <= PROPS_MAX
      modifies index`blockCount, index`blockHash, index`blocks, b`inPos, b`out, b`outPos, b`outSize, b.out
      ensures o == Returned(XzStreamEnd) ==>
        && AtBlock() && TextAt(b.input, old(b.inPos), head, text, n) && b.Valid() && b.inPos == old(b.inPos) + n
        && b.out == old(b.out) && b.outSize == old(b.outSize)
        && b.out[..b.outPos] == old(b.out[..b.outPos]) + DataOf(head.filtered, text)
        && (hasCrc ==> crc == CrcOf(DataOf(head.filtered, text), 0))
        && index.blocks == old(index.blocks) + [Record(headSize + n + CheckSize(hasCrc), |text|)]
      ensures o != Returned(XzStreamEnd) ==> forall text': seq<Byte>, used: nat ::
        TextAt(b.input, old(b.inPos), head, text', used) ==> o == CallOf(head.filtered, |text'|, old(b.outSize - b.outPos))
    {
      hide Accepts, Crc, Octets, Pass, IndexDec.Valid, Lzma2Dec.Supplies, Lzma2Dec.Inv, BcjDec.FirstCall, DictSize, BlockDec.WantedWithin;
      ghost var (s, at, room) := (b.input, b.inPos, b.outSize - b.outPos);
      ghost var stream := s[at..];
      var filter := new BcjDec.Single(stream, DictSize(head.props), b);
      var block := new BlockDec.Single(b, filter, head.filtered, hasCrc, head.compressed, head.uncompressed);
      filter.AtFirst(b);
      Given(filter.lzma2, b, stream);
      assert block.Apart(b, index);
      o := block.DecBlockSingle(b, index, headSize);
      n, crc, text := block.compressed, block.crc, filter.lzma2.out;
      if o == Returned(XzStreamEnd) {
        assert block.Wanted(text, n);
      } else {
        forall text': seq<Byte>, used: nat | TextAt(s, at, head, text', used)
          ensures o == CallOf(head.filtered, |text'|, room)
        {
          assert block.Wanted(text', used);
        }
      }
    }

    /** All the rest of the input is given. */
    lemma Given(lzma2: Lzma2Dec, b: XzBuf, stream: seq<Byte>)
      requires b.Valid() && lzma2.stream == stream == b.input[b.inPos..] && lzma2.fed == 0
      ensures lzma2.Supplies(b) && lzma2.Reach(b) == |stream|
    {
      assert stream[0..|stream|] == stream;
    }

    /** SEQ_BLOCK_PADDING, after n bytes. */
    method SkipPadding(b: XzBuf, n: nat) returns (r: XzRet)
      requires b.Valid()
      modifies b`inPos
      ensures b.Valid() && (r == XzStreamEnd <==> Holds(b.input, old(b.inPos), Zeros(RoundUp(n) - n)))
      ensures r == XzStreamEnd ==> b.inPos == old(b.inPos) + (RoundUp(n) - n)
    {
      ghost var from := b.inPos;
      var k := n;
      while k % 4 != 0
        invariant b.Valid() && n <= k <= RoundUp(n) && b.inPos == from + (k - n)
        invariant forall i :: from <= i < b.inPos ==> b.input[i] == 0
        decreases RoundUp(n) - k
      {
        if b.inPos == |b.input| {
          return XzOk;
        }
        if b.input[b.inPos] != 0 {
          NotZeros(b.input, from, b.inPos - from, RoundUp(n) - n);
          b.inPos := b.inPos + 1;
          return XzDataError;
        }
        b.inPos := b.inPos + 1;
        k := k + 1;
      }
      assert b.input[from..b.inPos] == Zeros(RoundUp(n) - n);
      r := XzStreamEnd;
    }

    lemma NotZeros(s: seq<Byte>, from: nat, i: nat, n: nat)
      requires i < n && from + i < |s| && s[from + i] != 0
      ensures !Holds(s, from, Zeros(n))
    {
      if Holds(s, from, Zeros(n)) {
        HoldsAt(s, from, Zeros(n), i);
      }
    }

    /** SEQ_BLOCK_CHECK */
    method CheckBlock(b: XzBuf, crc: bv32) returns (r: XzRet)
      requires AtBlock() && b.Valid()
      modifies index`crc, index`pos, index`seen, b`inPos
      ensures b.Valid() && (r == XzStreamEnd ==> AtBlock() && b.inPos == old(b.inPos) + CheckSize(hasCrc))
      ensures r == XzStreamEnd <==> !hasCrc || Holds(b.input, old(b.inPos), LittleEndian(crc))
    {
      hide LittleEndian;
      if hasCrc {
        index.crc := crc;
        ghost var from := b.inPos;
        r := index.CheckCrc(b);
        assert index.seen == b.input[from..b.inPos];
        CheckSeen(b.input, from, b.inPos, LittleEndian(crc));
        index.seen := [];
      } else {
        r := XzStreamEnd;
      }
    }

    lemma CheckSeen(s: seq<Byte>, from: nat, to: nat, c: seq<Byte>)
      requires from <= to <= |s|
      ensures s[from..to] == c ==> Holds(s, from, c) && to == from + |c|
      ensures to - from < |c| && to == |s| ==> !Holds(s, from, c)
      ensures to - from <= |c| && !(s[from..to] <= c) ==> !Holds(s, from, c)
    {
      if Holds(s, from, c) && to - from <= |c| {
        assert s[from..to] == s[from..from + |c|][..to - from];
      }
    }

    /** The LZMA2 stream, its padding and its check value. */
    method DecBody(b: XzBuf) returns (o: Outcome, ghost text: seq<Byte>, ghost used: nat)
      requires AtBlock() && b.Valid() && Apart(b) && head.props <= PROPS_MAX
      modifies index, b`inPos, b`out, b`outPos, b`outSize, b.out
      ensures o == Returned(XzStreamEnd) ==>
        && AtBlock() && BodyAt(b.input, old(b.inPos), text, used) && b.Valid()
        && b.inPos == old(b.inPos) + RoundUp(used) + CheckSize(hasCrc)
        && b.out == old(b.out) && b.outSize == old(b.outSize)
        && b.out[..b.outPos] == old(b.out[..b.outPos]) + DataOf(head.filtered, text)
        && index.blocks == old(index.blocks) + [Record(headSize + used + CheckSize(hasCrc), |text|)]
      ensures o != Returned(XzStreamEnd) ==> forall text': seq<Byte>, used': nat ::
        BodyAt(b.input, old(b.inPos), text', used') ==> o == CallOf(head.filtered, |text'|, old(b.outSize - b.outPos))
    {
      hide TextAt, LittleEndian, CrcOf, IndexDec.Valid, RoundUp, Holds, DataOf, Zeros;
      ghost var (s, at) := (b.input, b.inPos);
      var n, crc;
      o, n, crc, text := DecBlock(b);
      used := n;
      if o == Returned(XzStreamEnd) {
        OneBody(s, at, text, used);
        TrailerParts(s, at + used, used, DataOf(head.filtered, text));
        var r := SkipPadding(b, n);
        if r == XzStreamEnd {
          r := CheckBlock(b, crc);
        }
        o := Returned(r);
      }
    }

    ghost predicate BodyAt(s: seq<Byte>, at: nat, text: seq<Byte>, used: nat)
      reads `head, `hasCrc
    {
      TextAt(s, at, head, text, used) && Holds(s, at + used, Trailer(used, DataOf(head.filtered, text), hasCrc))
    }

    lemma OneBody(s: seq<Byte>, at: nat, text: seq<Byte>, used: nat)
      requires TextAt(s, at, head, text, used)
      ensures forall text': seq<Byte>, used': nat :: BodyAt(s, at, text', used') ==> text == text' && used == used'
    {
      hide Accepts, Trailer, Holds;
      forall text': seq<Byte>, used': nat | BodyAt(s, at, text', used') ensures text == text' && used == used' {
        OneVerdict(s[at..], DictSize(head.props), text, used, text', used');
      }
    }

    lemma TrailerParts(s: seq<Byte>, at: nat, used: nat, data: seq<Byte>)
      ensures Holds(s, at, Trailer(used, data, hasCrc)) <==>
        && Holds(s, at, Zeros(RoundUp(used) - used))
        && (!hasCrc || Holds(s, at + (RoundUp(used) - used), LittleEndian(CrcOf(data, 0))))
    {
      hide LittleEndian, CrcOf, RoundUp, Zeros;
      var (z, c) := (Zeros(RoundUp(used) - used), LittleEndian(CrcOf(data, 0)));
      HoldsBoth(s, at, z, c);
      assert z + [] == z;
    }

    /** SEQ_BLOCK_START and SEQ_BLOCK_HEADER */
    method DecHeader(b: XzBuf) returns (r: XzRet)
      requires AtBlock() && b.Valid() && b.inPos < |b.input| && b.input[b.inPos] != 0
      modifies `head, `headSize, index`pos, index`vli, b`inPos
      ensures b.Valid()
      ensures r == XzStreamEnd ==>
        && AtBlock() && Writable(head, headSize) && Holds(b.input, old(b.inPos), EncodeHead(head, headSize))
        && b.inPos == old(b.inPos) + headSize && head.props <= PROPS_MAX
      ensures r != XzStreamEnd ==> forall e: Entry :: !BlockAt(b.input, old(b.inPos), hasCrc, e)
    {
      hide BlockAt, EncodeHead, Writable, IndexDec.Valid;
      ghost var (s, at) := (b.input, b.inPos);
      var first: nat := b.input[b.inPos];
      headSize := 4 * (first + 1);
      var ok, temp := FillTemp(b, headSize);
      r := XzOk;
      if ok {
        ok := DecBlockHeader(temp);
        r := if ok then XzStreamEnd else XzDataError;
        if ok {
          SmallProps();
        }
      }
      if !ok {
        NoBlock(s, at, headSize);
      }
    }

    /** No header, or not enough input for one. */
    lemma NoBlock(s: seq<Byte>, at: nat, size: nat)
      requires at < |s| && var first: nat := s[at]; size == 4 * (first + 1)
      requires at + size <= |s| ==> forall h: Head :: Writable(h, size) ==> s[at..at + size] != EncodeHead(h, size)
      ensures forall e: Entry :: !BlockAt(s, at, hasCrc, e)
    {
      hide BlockAt, EncodeHead, Writable;
      forall e: Entry ensures !BlockAt(s, at, hasCrc, e) {
        if BlockAt(s, at, hasCrc, e) {
          BlockStarts(s, at, hasCrc, e);
          WritableHead(s, at, hasCrc, e);
        }
      }
    }

    lemma SmallProps()
      requires Writable(head, headSize)
      ensures head.props <= PROPS_MAX
    {
    }

    lemma WritableHead(s: seq<Byte>, at: nat, crc: bool, e: Entry)
      requires BlockAt(s, at, crc, e)
      ensures Writable(e.head, e.size)
    {
    }

    /** A Block, from its header to its check value. */
    method OneBlock(b: XzBuf) returns (o: Outcome, ghost e: Entry)
      requires AtBlock() && b.Valid() && Apart(b) && b.inPos < |b.input| && b.input[b.inPos] != 0
      modifies `head, `headSize, index, b`inPos, b`out, b`outPos, b`outSize, b.out
      ensures o == Returned(XzStreamEnd) ==>
        && AtBlock() && BlockAt(b.input, old(b.inPos), hasCrc, e) && b.Valid() && b.inPos == NextAt(old(b.inPos), e, hasCrc)
        && b.out == old(b.out) && b.outSize == old(b.outSize)
        && b.out[..b.outPos] == old(b.out[..b.outPos]) + Data(e)
        && index.blocks == old(index.blocks) + [RecordOf(e, hasCrc)]
      ensures o != Returned(XzStreamEnd) ==> forall e': Entry ::
        BlockAt(b.input, old(b.inPos), hasCrc, e') ==> o == CallOf(e'.head.filtered, |e'.text|, old(b.outSize - b.outPos))
    {
      hide TextAt, Trailer, EncodeHead, IndexDec.Valid, RoundUp, Holds, DataOf, BlockAt, BodyAt, Writable, CallOf;
      ghost var (s, at, room) := (b.input, b.inPos, b.outSize - b.outPos);
      e := Entry(0, head, [], 0);
      var r := DecHeader(b);
      if r != XzStreamEnd {
        return Returned(r), e;
      }
      ghost var text, used;
      o, text, used := DecBody(b);
      e := Entry(headSize, head, text, used);
      BlockBody(s, at);
    }

    /** After the header, a Block is what follows it. */
    lemma BlockBody(s: seq<Byte>, at: nat)
      requires Writable(head, headSize) && Holds(s, at, EncodeHead(head, headSize))
      ensures forall e: Entry :: e.head == head && e.size == headSize && BodyAt(s, at + headSize, e.text, e.used) ==> BlockAt(s, at, hasCrc, e)
      ensures forall e: Entry :: BlockAt(s, at, hasCrc, e) ==> e.head == head && BodyAt(s, at + headSize, e.text, e.used)
    {
      hide TextAt, Trailer, EncodeHead, RoundUp, DataOf, Writable;
      forall e: Entry | BlockAt(s, at, hasCrc, e) ensures e.head == head && BodyAt(s, at + headSize, e.text, e.used) {
        BlockStarts(s, at, hasCrc, e);
        HeadFirst(head, headSize);
        HoldsAt(s, at, EncodeHead(head, headSize), 0);
        SameHead(head, e.head, headSize);
      }
    }

    // ------------------------------------------------------------- the Index and the end

    /** What is known of the Index while it is read. */
    lemma Counted()
      requires AtBlock()
      ensures index.table.Ready() && index.blockCount == |index.blocks| && index.blockHash == HashAll(index.blocks)
      ensures index.Valid() && index.step == StepBlockStart
    {
      hide IndexDec.AtStart;
    }

    /** SEQ_INDEX to SEQ_STREAM_FOOTER */
    method DecEnd(b: XzBuf) returns (r: XzRet)
      requires AtBlock() && b.Valid() && b.inPos < |b.input| && b.input[b.inPos] == 0
      modifies index, b`inPos
      ensures b.Valid() && (r == XzStreamEnd <==> EndsAt(b.input, old(b.inPos), hasCrc, old(index.blocks)))
    {
      hide HashAll, EncodeIndex, LittleEndian, CrcOf, EndsAt, StreamFooter, IndexDec.InIndex, IndexDec.Lagging, IndexDec.Refuted, IndexDec.WrongCrc,
           IndexDec.Valid;
      ghost var (s, at, recs) := (b.input, b.inPos, index.blocks);
      Counted();
      index.StartIndex(b);
      ghost var mid := b.inPos;
      r := index.Continue(b);
      TakenSoFar(s, at, mid, b.inPos);
      if r != XzStreamEnd {
        NoEnd(s, at, b.inPos, recs, r);
        return;
      }
      ghost var end := b.inPos;
      var ok, temp := FillTemp(b, STREAM_HEADER_SIZE);
      r := XzOk;
      if ok {
        ok := DecStreamFooter(temp);
        r := if ok then XzStreamEnd else XzDataError;
      }
      Ended(s, at, end, recs, ok);
    }

    lemma TakenSoFar(s: seq<Byte>, at: nat, mid: nat, to: nat)
      requires at + 1 == mid <= to <= |s| && s[at] == 0
      ensures [0] + [] + s[mid..to] == s[at..to] && s[at..to] <= s[at..]
    {
    }

    lemma NoEnd(s: seq<Byte>, at: nat, to: nat, recs: seq<Record>, r: XzRet)
      requires at <= to <= |s| && index.taken + index.seen == s[at..to] && r != XzStreamEnd
      requires index.blocks == recs && index.blockCount == |recs| && index.blockHash == HashAll(recs)
      requires r == XzOk ==> index.Valid() && index.step in {StepIndex, StepPadding, StepCrc} && to == |s|
      requires r == XzDataError ==> index.Refuted(index.taken) || index.WrongCrc()
      ensures !EndsAt(s, at, hasCrc, recs)
    {
      hide HashAll, EncodeIndex, LittleEndian, CrcOf, StreamFooter, Storable, IndexDec.Valid, IndexDec.Refuted, IndexDec.WrongCrc;
      if EndsAt(s, at, hasCrc, recs) {
        var rs: seq<Record> :| Lists(rs, recs) && Holds(s, at, EndOf(rs, hasCrc));
        HoldsParts(s, at, CheckedIndex(rs), StreamFooter(|EncodeIndex(rs)|, hasCrc));
        assert CheckedIndex(rs) <= s[at..] && s[at..to] <= s[at..];
        if r == XzOk {
          index.Unfinished(rs);
        } else {
          index.Denied(rs, s[at..]);
        }
        assert false;
      }
    }

    lemma Ended(s: seq<Byte>, at: nat, to: nat, recs: seq<Record>, ok: bool)
      requires index.Valid() && index.step == StepFooter && at <= to <= |s| && index.taken + index.seen == s[at..to]
      requires index.blocks == recs
      requires ok <==> to + STREAM_HEADER_SIZE <= |s| && index.size / 4 < U32
                       && s[to..to + STREAM_HEADER_SIZE] == StreamFooter(index.size, hasCrc)
      ensures EndsAt(s, at, hasCrc, recs) <==> ok
    {
      hide HashAll, EncodeIndex, LittleEndian, CrcOf, StreamFooter, Storable;
      var x := index.records;
      assert CheckedIndex(x) == s[at..to];
      if ok {
        HoldsBoth(s, at, CheckedIndex(x), StreamFooter(index.size, hasCrc));
        assert Lists(x, recs) && Holds(s, at, EndOf(x, hasCrc));
      }
      if EndsAt(s, at, hasCrc, recs) {
        var rs: seq<Record> :| Lists(rs, recs) && Holds(s, at, EndOf(rs, hasCrc));
        SameEnd(s, at, to, x, rs);
        HoldsParts(s, at, CheckedIndex(rs), StreamFooter(|EncodeIndex(rs)|, hasCrc));
      }
    }

    lemma SameEnd(s: seq<Byte>, at: nat, to: nat, x: seq<Record>, rs: seq<Record>)
      requires at <= to <= |s| && CheckedIndex(x) == s[at..to] && |x| == |rs| && Storable(x) && Storable(rs)
      requires |EncodeIndex(rs)| / 4 < U32 && Holds(s, at, EndOf(rs, hasCrc))
      ensures rs == x
    {
      hide EncodeIndex, LittleEndian, CrcOf, StreamFooter, Storable, EncodeList;
      var rest := s[at..];
      HoldsParts(s, at, CheckedIndex(rs), StreamFooter(|EncodeIndex(rs)|, hasCrc));
      assert CheckedIndex(rs) <= rest && CheckedIndex(x) <= rest;
      PrefixFirst(EncodeIndex(rs), LittleEndian(CrcOf(EncodeIndex(rs), 0)), rest);
      PrefixFirst(EncodeIndex(x), LittleEndian(CrcOf(EncodeIndex(x), 0)), rest);
      ListFirst(x);
      SameList(x, rs, rest);
    }

    // ------------------------------------------------------------------ the whole call

    /** dec_main in single-call mode: it comes out as the Blocks say, for every well-formed stream, and it does not come
        to the end for anything else. */
    method DecMain(b: XzBuf) returns (o: Outcome, ghost es: seq<Entry>)
      requires AtBlock() && index.blocks == [] && b.Valid() && Apart(b)
      modifies this, index, b`inPos, b`out, b`outPos, b`outSize, b.out
      ensures o == Returned(XzStreamEnd) ==>
        && IsXz(b.input, old(b.inPos), hasCrc, es) && b.Valid() && b.out == old(b.out) && b.outSize == old(b.outSize)
        && b.out[..b.outPos] == old(b.out[..b.outPos]) + AllData(es)
      ensures forall crc: bool, all: seq<Entry> ::
        IsXz(b.input, old(b.inPos), crc, all) ==> o == Comes(all, old(b.outSize - b.outPos))
    {
      hide Goes, Comes, StreamHeader, IndexDec.Valid, AllData;
      ghost var (s, at, room) := (b.input, b.inPos, b.outSize - b.outPos);
      es := [];
      var ok, temp := FillTemp(b, STREAM_HEADER_SIZE);
      if !ok {
        return Returned(XzOk), [];
      }
      ok := DecStreamHeader(temp);
      if !ok {
        return Returned(XzDataError), [];
      }
      OneHeader(temp, hasCrc);
      ghost var (from, flag) := (b.inPos, hasCrc);
      assert b.outSize - b.outPos == room;
      o, es := DecBlocks(b);
      assert b.input == s && hasCrc == flag;
      assert forall all: seq<Entry> :: Goes(s, from, flag, [], all) ==> o == Comes(all, room);
      forall crc: bool, all: seq<Entry> | IsXz(s, at, crc, all) ensures o == Comes(all, room) {
        assert temp == StreamHeader(crc);
      }
    }

    /** The loop over the Blocks, and the end. */
    method DecBlocks(b: XzBuf) returns (o: Outcome, ghost es: seq<Entry>)
      requires AtBlock() && index.blocks == [] && b.Valid() && Apart(b)
      modifies `head, `headSize, index, b`inPos, b`out, b`outPos, b`outSize, b.out
      ensures o == Returned(XzStreamEnd) ==>
        && Goes(b.input, old(b.inPos), hasCrc, [], es) && b.Valid() && b.out == old(b.out) && b.outSize == old(b.outSize)
        && b.out[..b.outPos] == old(b.out[..b.outPos]) + AllData(es)
      ensures forall all: seq<Entry> ::
        Goes(b.input, old(b.inPos), hasCrc, [], all) ==> o == Comes(all, old(b.outSize - b.outPos))
    {
      hide Goes, Comes, BlockAt, EndsAt, IndexDec.Valid, AllData, Data, CallOf, Passed;
      ghost var (from, room0, before) := (b.inPos, b.outSize - b.outPos, b.out[..b.outPos]);
      es := [];
      PassedNone(b.input, hasCrc, from, room0);
      NoData(before);
      while b.inPos < |b.input| && b.input[b.inPos] != 0
        invariant AtBlock() && b.Valid() && Apart(b) && b.out == old(b.out) && b.outSize == old(b.outSize) && from <= b.inPos
        invariant Passed(b.input, hasCrc, from, room0, b.inPos, index.blocks, b.outSize - b.outPos, es)
        invariant b.out[..b.outPos] == before + AllData(es)
        decreases |b.input| - b.inPos
      {
        ghost var e;
        o, e := Step(b, from, room0, es);
        if o != Returned(XzStreamEnd) {
          return;
        }
        MoreData(before, es, e);
        es := es + [e];
      }
      ghost var (at, room, recs) := (b.inPos, b.outSize - b.outPos, index.blocks);
      var r := XzOk;
      if b.inPos < |b.input| {
        NothingButEnd(b.input, hasCrc, from, room0, at, recs, room, es);
        r := DecEnd(b);
      } else {
        NothingMore(b.input, hasCrc, from, room0, at, recs, room, es);
      }
      o := Returned(r);
    }

    /** One Block, or the reason why there are no more. */
    method Step(b: XzBuf, ghost from: nat, ghost room0: nat, ghost es: seq<Entry>) returns (o: Outcome, ghost e: Entry)
      requires AtBlock() && b.Valid() && Apart(b) && b.inPos < |b.input| && b.input[b.inPos] != 0
      requires Passed(b.input, hasCrc, from, room0, b.inPos, index.blocks, b.outSize - b.outPos, es)
      modifies `head, `headSize, index, b`inPos, b`out, b`outPos, b`outSize, b.out
      ensures o == Returned(XzStreamEnd) ==>
        && AtBlock() && b.Valid() && b.out == old(b.out) && b.outSize == old(b.outSize) && old(b.inPos) < b.inPos
        && b.out[..b.outPos] == old(b.out[..b.outPos]) + Data(e)
        && Passed(b.input, hasCrc, from, room0, b.inPos, index.blocks, b.outSize - b.outPos, es + [e])
      ensures o != Returned(XzStreamEnd) ==> forall all: seq<Entry> ::
        Goes(b.input, from, hasCrc, [], all) ==> o == Comes(all, room0)
    {
      hide Goes, Comes, BlockAt, EndsAt, IndexDec.Valid, CallOf, Passed;
      ghost var (at, room, recs) := (b.inPos, b.outSize - b.outPos, index.blocks);
      Continues(b.input, hasCrc, from, room0, at, recs, room, es);
      o, e := OneBlock(b);
      if o == Returned(XzStreamEnd) {
        BlockLong(b.input, at, hasCrc, e);
        PassedOne(b.input, hasCrc, from, room0, at, recs, room, es, e);
      } else {
        forall all: seq<Entry> | Goes(b.input, from, hasCrc, [], all) ensures o == Comes(all, room0) {
          Stops(b.input, at, hasCrc, recs, all[|es|..], room, o);
        }
      }
    }
  }

  // ------------------------------------------------------------------ the whole call

  /** A call that stopped for lack of input or of room is an error. */
  function Settled(o: Outcome): Outcome {
    if o == Returned(XzOk) then Returned(XzDataError) else o
  }

  /** xz_dec_run in single-call mode: the call comes to the end exactly for a well-formed stream for whose data there is
      room, and the output is that data. For every well-formed stream it is known how it comes out; after an error the
      caller's positions are as before. */
  method Run(table: Table, b: XzBuf) returns (o: Outcome, ghost hasCrc: bool, ghost es: seq<Entry>)
    requires table.Ready() && b.Valid() && b.out as object != table.entries
    modifies b`inPos, b`out, b`outPos, b`outSize, b.out
    ensures o == Returned(XzStreamEnd) ==>
      && IsXz(b.input, old(b.inPos), hasCrc, es) && b.Valid() && b.out == old(b.out)
      && b.out[..b.outPos] == old(b.out[..b.outPos]) + AllData(es)
    ensures o == Returned(XzStreamEnd) <==> exists crc: bool, all: seq<Entry> ::
      IsXz(b.input, old(b.inPos), crc, all) && |AllData(all)| <= old(b.outSize - b.outPos)
    ensures forall crc: bool, all: seq<Entry> ::
      IsXz(b.input, old(b.inPos), crc, all) ==> o == Settled(Comes(all, old(b.outSize - b.outPos)))
    ensures o.Returned? && o != Returned(XzStreamEnd) ==>
      o == Returned(XzDataError) && b.inPos == old(b.inPos) && b.outPos == old(b.outPos)
  {
    hide IsXz, Comes, AllData;
    var (inStart, outStart) := (b.inPos, b.outPos);
    ghost var (s, room, before) := (b.input, b.outSize - b.outPos, b.out[..b.outPos]);
    var xz := new XzDec(table);
    var result;
    result, es := xz.DecMain(b);
    assert b.input == s;
    hasCrc := xz.hasCrc;
    o := Settled(result);
    assert o.Returned? ==> o.ret == XzStreamEnd || o.ret == XzDataError;
    if o.Returned? && o != Returned(XzStreamEnd) {
      b.inPos, b.outPos := inStart, outStart;
    }
    forall crc: bool, all: seq<Entry> | IsXz(s, inStart, crc, all) && |AllData(all)| <= room ensures o == Returned(XzStreamEnd) {
      RoomDecides(all, room);
    }
  }

  /** There is one reading of a stream. */
  lemma OneStream(s: seq<Byte>, at: nat, crc: bool, es: seq<Entry>, crc': bool, es': seq<Entry>)
    requires IsXz(s, at, crc, es) && IsXz(s, at, crc', es')
    ensures crc == crc' && es == es'
  {
    hide Goes, StreamHeader;
    OneHeader(StreamHeader(crc), crc);
    SameBlocks(s, at + STREAM_HEADER_SIZE, crc, [], es, es');
  }

  lemma {:induction false} SameBlocks(s: seq<Byte>, at: nat, hasCrc: bool, recs: seq<Record>, es: seq<Entry>, es': seq<Entry>)
    requires Goes(s, at, hasCrc, recs, es) && Goes(s, at, hasCrc, recs, es')
    ensures es == es'
    decreases |es|
  {
    hide BlockAt, EndsAt, Goes, RecordOf, NextAt;
    GoesOn(s, at, hasCrc, recs, es);
    GoesOn(s, at, hasCrc, recs, es');
    if es != [] {
      FirstIs(s, at, hasCrc, recs, es', es[0]);
      SameBlocks(s, NextAt(at, es[0], hasCrc), hasCrc, recs + [RecordOf(es[0], hasCrc)], es[1..], es'[1..]);
      assert es == [es[0]] + es[1..] && es' == [es'[0]] + es'[1..];
    } else if es' != [] {
      FirstIs(s, at, hasCrc, recs, es, es'[0]);
    }
  }

  lemma {:induction false} RoomDecides(es: seq<Entry>, room: nat)
    ensures Comes(es, room) == Returned(XzStreamEnd) <==> |AllData(es)| <= room
    decreases |es|
  {
    hide Data;
    if es != [] && |es[0].text| <= room {
      RoomDecides(es[1..], room - |es[0].text|);
    }
  }

  // ------------------------------------------------------------------- an encoder

  /** A Block to be written: its header and the header's size, its data, and the pieces its text is coded in. */
  datatype Plan = Plan(size: nat, head: Head, data: seq<Byte>, ps: seq<Piece>)

  ghost predicate Sound(p: Plan) {
    && Writable(p.head, p.size) && EncodableAll(FirstRef(), DictSize(p.head.props), p.ps)
    && Texts(FirstRef(), DictSize(p.head.props), p.ps) == (if p.head.filtered then Pass(p.data, 0, true) else p.data)
    && Agrees(|Packed(p)|, p.head.compressed) && Agrees(|p.data|, p.head.uncompressed)
  }

  ghost function Packed(p: Plan): seq<Byte>
    requires EncodableAll(FirstRef(), DictSize(p.head.props), p.ps)
  {
    EncodeStream(FirstRef(), DictSize(p.head.props), p.ps)
  }

  ghost predicate AllSound(ps: seq<Plan>) {
    forall i :: 0 <= i < |ps| ==> Sound(ps[i])
  }

  ghost function EntryOf(p: Plan): Entry
    requires Sound(p)
  {
    Entry(p.size, p.head, Texts(FirstRef(), DictSize(p.head.props), p.ps), |Packed(p)|)
  }

  ghost function EncodeBlock(p: Plan, hasCrc: bool): (s: seq<Byte>)
    requires Sound(p)
    ensures |s| == p.size + RoundUp(|Packed(p)|) + CheckSize(hasCrc)
  {
    EncodeHead(p.head, p.size) + (Packed(p) + Trailer(|Packed(p)|, p.data, hasCrc))
  }

  ghost function EntriesOf(ps: seq<Plan>): (es: seq<Entry>)
    requires AllSound(ps)
  {
    if ps == [] then [] else [EntryOf(ps[0])] + EntriesOf(ps[1..])
  }

  ghost function PlannedData(ps: seq<Plan>): seq<Byte> {
    if ps == [] then [] else ps[0].data + PlannedData(ps[1..])
  }

  /** The records of some more Blocks. */
  ghost function RecordsOf(recs: seq<Record>, ps: seq<Plan>, hasCrc: bool): seq<Record>
    requires AllSound(ps)
    decreases |ps|
  {
    if ps == [] then recs else RecordsOf(recs + [RecordOf(EntryOf(ps[0]), hasCrc)], ps[1..], hasCrc)
  }

  /** What the format asks of the Index. */
  ghost predicate Listable(rs: seq<Record>) {
    Storable(rs) && |EncodeIndex(rs)| / 4 < U32
  }

  /** The Blocks and the end, after Blocks with the records recs. */
  ghost function EncodeFrom(recs: seq<Record>, ps: seq<Plan>, hasCrc: bool): seq<Byte>
    requires AllSound(ps) && Listable(RecordsOf(recs, ps, hasCrc))
    decreases |ps|
  {
    if ps == [] then EndOf(recs, hasCrc)
    else EncodeBlock(ps[0], hasCrc) + EncodeFrom(recs + [RecordOf(EntryOf(ps[0]), hasCrc)], ps[1..], hasCrc)
  }

  ghost function EncodeXz(ps: seq<Plan>, hasCrc: bool): seq<Byte>
    requires AllSound(ps) && Listable(RecordsOf([], ps, hasCrc))
  {
    StreamHeader(hasCrc) + EncodeFrom([], ps, hasCrc)
  }

  lemma PlannedBlock(s: seq<Byte>, at: nat, p: Plan, hasCrc: bool)
    requires Sound(p) && Holds(s, at, EncodeBlock(p, hasCrc))
    ensures BlockAt(s, at, hasCrc, EntryOf(p)) && Data(EntryOf(p)) == p.data
    ensures NextAt(at, EntryOf(p), hasCrc) == at + |EncodeBlock(p, hasCrc)|
  {
    hide Accepts, EncodableAll, EncodeStream, Texts, Pass, EncodeHead, Trailer, Writable, DictSize, RoundUp;
    var (x, z, dictSize) := (Packed(p), Trailer(|Packed(p)|, p.data, hasCrc), DictSize(p.head.props));
    HoldsParts(s, at, EncodeHead(p.head, p.size), x + z);
    HoldsParts(s, at + p.size, x, z);
    StreamRoundTrip(dictSize, p.ps, s[at + p.size + |x|..]);
    assert s[at + p.size..] == x + s[at + p.size + |x|..];
    PassInverse(p.data, 0, true);
  }

  lemma {:induction false} PlannedBlocks(s: seq<Byte>, at: nat, recs: seq<Record>, ps: seq<Plan>, hasCrc: bool)
    requires AllSound(ps) && Listable(RecordsOf(recs, ps, hasCrc)) && Holds(s, at, EncodeFrom(recs, ps, hasCrc))
    ensures Goes(s, at, hasCrc, recs, EntriesOf(ps)) && AllData(EntriesOf(ps)) == PlannedData(ps)
    decreases |ps|
  {
    hide Sound, BlockAt, Data, EncodeBlock, EndOf, EntryOf, Listable, Goes, EndsAt, RecordOf, NextAt, AllData;
    if ps == [] {
      ListedEnd(s, at, recs, hasCrc);
      GoesNowhere(s, at, hasCrc, recs);
    } else {
      var (e, rest) := (EntryOf(ps[0]), EntriesOf(ps[1..]));
      HoldsParts(s, at, EncodeBlock(ps[0], hasCrc), EncodeFrom(recs + [RecordOf(e, hasCrc)], ps[1..], hasCrc));
      PlannedBlock(s, at, ps[0], hasCrc);
      PlannedBlocks(s, NextAt(at, e, hasCrc), recs + [RecordOf(e, hasCrc)], ps[1..], hasCrc);
      GoesFarther(s, at, hasCrc, recs, e, rest);
    }
  }

  lemma GoesNowhere(s: seq<Byte>, at: nat, hasCrc: bool, recs: seq<Record>)
    requires EndsAt(s, at, hasCrc, recs)
    ensures Goes(s, at, hasCrc, recs, []) && AllData([]) == []
  {
  }

  lemma ListedEnd(s: seq<Byte>, at: nat, recs: seq<Record>, hasCrc: bool)
    requires Listable(recs) && Holds(s, at, EndOf(recs, hasCrc))
    ensures EndsAt(s, at, hasCrc, recs)
  {
    hide Storable, EncodeIndex, HashAll, CheckedIndex, StreamFooter;
    assert Lists(recs, recs);
  }

  /** Every stream an encoder writes is well formed, whatever follows it, and has the data that was packed. */
  lemma EncodedIsXz(s: seq<Byte>, at: nat, ps: seq<Plan>, hasCrc: bool)
    requires AllSound(ps) && Listable(RecordsOf([], ps, hasCrc)) && Holds(s, at, EncodeXz(ps, hasCrc))
    ensures IsXz(s, at, hasCrc, EntriesOf(ps)) && AllData(EntriesOf(ps)) == PlannedData(ps)
  {
    hide Goes, EncodeFrom, StreamHeader, Listable, AllSound, RecordsOf;
    HoldsParts(s, at, StreamHeader(hasCrc), EncodeFrom([], ps, hasCrc));
    PlannedBlocks(s, at + STREAM_HEADER_SIZE, [], ps, hasCrc);
  }

  /** The program: whatever was packed is back in the buffer, if there is room for it. */
  method UnpackFile(b: XzBuf, ghost ps: seq<Plan>, ghost hasCrc: bool) returns (o: Outcome)
    requires AllSound(ps) && Listable(RecordsOf([], ps, hasCrc))
    requires b.Valid() && Holds(b.input, b.inPos, EncodeXz(ps, hasCrc)) && |PlannedData(ps)| <= b.outSize - b.outPos
    modifies b`inPos, b`out, b`outPos, b`outSize, b.out
    ensures o == Returned(XzStreamEnd) && b.Valid() && b.out == old(b.out)
    ensures b.out[..b.outPos] == old(b.out[..b.outPos]) + PlannedData(ps)
  {
    hide IsXz, AllSound, Listable, RecordsOf, EncodeXz, EntriesOf, AllData, PlannedData;
    EncodedIsXz(b.input, b.inPos, ps, hasCrc);
    ghost var (s, at) := (b.input, b.inPos);
    var table := new Table();
    ghost var crc, es;
    o, crc, es := Run(table, b);
    assert b.input == s;
    OneStream(s, at, crc, es, hasCrc, EntriesOf(ps));
  }
}
