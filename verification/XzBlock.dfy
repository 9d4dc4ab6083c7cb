/** The data of a Block of a .xz file: decoded, filtered and counted, over as many calls as it takes, and recorded for
    the comparison with the Index. */
module XzBlock {
  import opened Bytes
  import opened PowerPc
  import opened Crc32
  import opened Dictionary
  import opened Lzma2Reference
  import opened Lzma2
  import opened Bcj
  import opened XzIndex

  /** A size in the Block Header may be missing. */
  datatype Declared = Unknown | Known(n: nat)

  ghost predicate Exceeds(n: nat, d: Declared) {
    d.Known? && n > d.n
  }

  ghost predicate Agrees(n: nat, d: Declared) {
    d.Known? ==> n == d.n
  }

  const CRC_SIZE := 4

  /** What a Block's data is for the text of its LZMA2 stream. */
  ghost function DataOf(filtered: bool, text: seq<Byte>): (data: seq<Byte>)
    ensures |data| == |text|
  {
    if filtered then Pass(text, 0, false) else text
  }

  /** How the one call of a single-call decoder comes out, for all of a stream with n bytes of text. */
  function CallOf(filtered: bool, n: nat, room: nat): Outcome {
    if filtered then OneCall(n, room) else OneCallAlone(n, room)
  }

  class BlockDec {
    const bcj: BcjDec
    const filtered: bool
    const hasCrc: bool
    const declaredCompressed: Declared
    const declaredUncompressed: Declared
    var compressed: nat
    var uncompressed: nat
    var crc: bv32

    constructor (bcj: BcjDec, hasCrc: bool, declaredCompressed: Declared, declaredUncompressed: Declared)
      requires bcj.Valid() && bcj.ret == XzOk && bcj.lzma2.fed == 0 && bcj.given == []
      ensures this.bcj == bcj && filtered && this.hasCrc == hasCrc && Counts() && bcj.GoesOn()
      ensures this.declaredCompressed == declaredCompressed && this.declaredUncompressed == declaredUncompressed
    {
      hide Crc, BcjDec.Valid;
      CrcOfNothing(0);
      this.bcj, filtered, this.hasCrc, compressed, uncompressed, crc := bcj, true, hasCrc, 0, 0, 0;
      this.declaredCompressed, this.declaredUncompressed := declaredCompressed, declaredUncompressed;
    }

    /** The Block of a single-call decoder, which may be one without the filter. */
    constructor Single(b: XzBuf, bcj: BcjDec, filtered: bool, hasCrc: bool, declaredCompressed: Declared, declaredUncompressed: Declared)
      requires bcj.FirstCall(b)
      ensures this.bcj == bcj && this.filtered == filtered && this.hasCrc == hasCrc && Counts()
      ensures this.declaredCompressed == declaredCompressed && this.declaredUncompressed == declaredUncompressed
    {
      hide Crc, BcjDec.FirstCall;
      CrcOfNothing(0);
      bcj.AtFirst(b);
      this.bcj, this.filtered, this.hasCrc, compressed, uncompressed, crc := bcj, filtered, hasCrc, 0, 0, 0;
      this.declaredCompressed, this.declaredUncompressed := declaredCompressed, declaredUncompressed;
    }

    /** The sizes and the check value are those of the bytes taken and handed out so far. */
    ghost predicate Counts()
      reads `compressed, `uncompressed, `crc, bcj.lzma2`fed, bcj`given
    {
      && compressed == bcj.lzma2.fed && uncompressed == |bcj.given| && (hasCrc ==> crc == CrcOf(bcj.given, 0))
      && !Exceeds(compressed, declaredCompressed) && !Exceeds(uncompressed, declaredUncompressed)
    }

    /** The stream is well formed and has the sizes that were declared. */
    ghost predicate Wanted(text: seq<Byte>, used: nat)
      reads bcj.lzma2.dict`size
    {
      && Accepts(bcj.lzma2.stream, bcj.lzma2.dict.size, text, used)
      && Agrees(used, declaredCompressed) && Agrees(|text|, declaredUncompressed)
    }

    ghost predicate Apart(b: XzBuf, index: IndexDec)
      reads b, bcj.lzma2.dict`buf
    {
      && this !in bcj.lzma2.Heap() && index !in bcj.lzma2.Heap() && b as object != this
      && index.table.entries as object !in bcj.lzma2.Heap()
      && index.table.entries as object !in {b.out, bcj.temp, bcj.lzma2.dict.buf}
    }

    /** dec_block: when it comes to the end, the stream is well formed with the sizes declared, the check value is that of
        its text, and the Index is to list what was taken and produced; an error means that there is no such text. */
    method DecBlock(b: XzBuf, index: IndexDec, header: nat) returns (r: XzRet)
      requires filtered && bcj.Valid() && bcj.GoesOn() && bcj.Apart(b) && bcj.lzma2.Supplies(b) && Counts() && Apart(b, index)
      requires index.Valid() && index.step == StepBlockStart && index.table.Ready()
      modifies this, bcj`ret, bcj`pos, bcj`filtered, bcj`size, bcj`given, bcj.temp, bcj.lzma2.Heap(), bcj.lzma2.dict.buf
      modifies b`inPos, b`out, b`outPos, b`outSize, b.out, index`blockCount, index`blockHash, index`blocks
      ensures index.Valid() && index.step == StepBlockStart
      ensures r == XzOk ==> bcj.Valid() && bcj.GoesOn() && bcj.Apart(b) && bcj.lzma2.Supplies(b) && Counts()
      ensures r == XzStreamEnd ==> Wanted(bcj.lzma2.out, bcj.lzma2.fed) && bcj.given == Pass(bcj.lzma2.out, 0, false)
      ensures r == XzStreamEnd ==> compressed == bcj.lzma2.fed && uncompressed == |bcj.given|
      ensures r == XzStreamEnd && hasCrc ==> crc == CrcOf(bcj.given, 0)
      ensures r == XzDataError ==> forall text: seq<Byte>, used: nat :: !Wanted(text, used)
      ensures index.blocks == old(index.blocks) + if r != XzStreamEnd then [] else
        [Record(header + bcj.lzma2.fed + (if hasCrc then CRC_SIZE else 0), |bcj.lzma2.out|)]
    {
      hide Accepts, Refuses, Crc, Octets, Pass, IndexDec.Valid, BcjDec.Filtered, Lzma2Dec.Supplies, Lzma2Dec.Inv;
      var (inStart, outStart) := (b.inPos, b.outPos);
      ghost var was := bcj.given;
      r := bcj.FilterOn(b);
      if r == XzDataError {
        NeverAccepted();
        return;
      }
      Count(b, inStart, outStart, was, bcj.given, index.table);
      if (declaredCompressed.Known? && compressed > declaredCompressed.n)
         || (declaredUncompressed.Known? && uncompressed > declaredUncompressed.n) {
        TooLong();
        return XzDataError;
      }
      if r == XzStreamEnd {
        if (declaredCompressed.Known? && declaredCompressed.n != compressed)
           || (declaredUncompressed.Known? && declaredUncompressed.n != uncompressed) {
          OnlyText();
          return XzDataError;
        }
        index.CountBlock(compressed, uncompressed, header, if hasCrc then CRC_SIZE else 0);
      }
    }

    /** The filter, or the decoder alone. */
    method RunOnce(b: XzBuf) returns (o: Outcome, ghost data: seq<Byte>)
      requires bcj.FirstCall(b) && bcj.lzma2.Supplies(b)
      modifies bcj`ret, bcj`pos, bcj`filtered, bcj`size, bcj`given, bcj.temp, bcj.lzma2.Heap(), bcj.lzma2.dict.buf
      modifies b`inPos, b`out, b`outPos, b`outSize, b.out
      ensures o == Returned(XzStreamEnd) <==>
        EndsWithin(bcj.lzma2.stream, bcj.lzma2.dict.size, old(bcj.lzma2.Reach(b)), old(b.outSize - b.outPos))
      ensures o == Returned(XzStreamEnd) ==>
        && Accepts(bcj.lzma2.stream, bcj.lzma2.dict.size, bcj.lzma2.out, bcj.lzma2.fed)
        && b.inPos == old(b.inPos) + bcj.lzma2.fed && data == DataOf(filtered, bcj.lzma2.out)
      ensures o == Returned(XzDataError) ==> Refuses(bcj.lzma2.stream, bcj.lzma2.dict.size)
      ensures forall text: seq<Byte>, used: nat ::
        Accepts(bcj.lzma2.stream, bcj.lzma2.dict.size, text, used) && used <= old(bcj.lzma2.Reach(b))
        ==> o == CallOf(filtered, |text|, old(b.outSize - b.outPos))
      ensures o == Returned(XzOk) || o == Returned(XzStreamEnd) ==>
        && b.Valid() && b.out == old(b.out) && b.outSize == old(b.outSize)
        && b.out[..b.outPos] == old(b.out[..b.outPos]) + data
        && old(b.inPos) <= b.inPos && bcj.AtMost(b.inPos - old(b.inPos), |data|)
      ensures bcj.lzma2.dict.size == old(bcj.lzma2.dict.size)
    {
      hide Accepts, Refuses, EndsWithin, Pass, BcjDec.FirstCall, BcjDec.AtMost, Lzma2Dec.Inv, Lzma2Dec.Supplies, Lzma2Dec.Stuck, Lzma2Dec.Full;
      bcj.AtFirst(b);
      if filtered {
        o := bcj.FilterSingle(b);
        data := bcj.given;
      } else {
        ghost var (size, reach, room) := (bcj.lzma2.dict.size, bcj.lzma2.Reach(b), b.outSize - b.outPos);
        var r := bcj.DecodeFirst(b);
        o, data := Returned(r), bcj.lzma2.out;
        forall text: seq<Byte>, used: nat | Accepts(bcj.lzma2.stream, size, text, used) && used <= reach
          ensures o == OneCallAlone(|text|, room)
        {
          ByLengthAlone(bcj.lzma2.stream, size, reach, room, r, text, used);
        }
      }
    }

    lemma ByLengthAlone(stream: seq<Byte>, dictSize: nat, reach: int, room: nat, r: XzRet, text: seq<Byte>, used: nat)
      requires Accepts(stream, dictSize, text, used) && used <= reach
      requires r == XzStreamEnd <==> EndsWithin(stream, dictSize, reach, room)
      requires r == XzDataError ==> Refuses(stream, dictSize)
      ensures Returned(r) == OneCallAlone(|text|, room)
    {
      hide Accepts, Refuses;
      OneVerdict(stream, dictSize, text, used, text, used);
      if r == XzStreamEnd {
        var text': seq<Byte>, used': nat :| Accepts(stream, dictSize, text', used') && used' <= reach && |text'| <= room;
        OneVerdict(stream, dictSize, text, used, text', used');
      } else {
        assert r == XzOk;
      }
    }

    /** dec_block in the one call of a single-call decoder: it comes to the end exactly when it is given all of a
        well-formed stream with the sizes declared, and room for its text. */
    method DecBlockSingle(b: XzBuf, index: IndexDec, header: nat) returns (o: Outcome)
      requires bcj.FirstCall(b) && bcj.lzma2.Supplies(b) && Counts() && Apart(b, index)
      requires index.Valid() && index.step == StepBlockStart && index.table.Ready()
      modifies this, bcj`ret, bcj`pos, bcj`filtered, bcj`size, bcj`given, bcj.temp, bcj.lzma2.Heap(), bcj.lzma2.dict.buf
      modifies b`inPos, b`out, b`outPos, b`outSize, b.out, index`blockCount, index`blockHash, index`blocks
      ensures index.Valid() && index.step == StepBlockStart
      ensures o == Returned(XzStreamEnd) <==> WantedWithin(old(bcj.lzma2.Reach(b)), old(b.outSize - b.outPos))
      ensures o == Returned(XzStreamEnd) ==> Wanted(bcj.lzma2.out, bcj.lzma2.fed) && b.inPos == old(b.inPos) + bcj.lzma2.fed
      ensures o == Returned(XzStreamEnd) ==> b.Valid() && b.out == old(b.out) && b.outSize == old(b.outSize)
      ensures o == Returned(XzStreamEnd) ==> b.out[..b.outPos] == old(b.out[..b.outPos]) + DataOf(filtered, bcj.lzma2.out)
      ensures o == Returned(XzStreamEnd) ==> compressed == bcj.lzma2.fed && (hasCrc ==> crc == CrcOf(DataOf(filtered, bcj.lzma2.out), 0))
      ensures o == Returned(XzDataError) ==> forall text: seq<Byte>, used: nat :: !Wanted(text, used)
      ensures forall text: seq<Byte>, used: nat ::
        Wanted(text, used) && used <= old(bcj.lzma2.Reach(b)) ==> o == CallOf(filtered, |text|, old(b.outSize - b.outPos))
      ensures index.blocks == old(index.blocks) + if o != Returned(XzStreamEnd) then [] else
        [Record(header + bcj.lzma2.fed + (if hasCrc then CRC_SIZE else 0), |bcj.lzma2.out|)]
      ensures bcj.lzma2.dict.size == old(bcj.lzma2.dict.size)
    {
      hide Accepts, Refuses, EndsWithin, Crc, Octets, Pass, IndexDec.Valid, Lzma2Dec.Supplies, Lzma2Dec.Inv, BcjDec.FirstCall, BcjDec.AtMost;
      var (inStart, outStart) := (b.inPos, b.outPos);
      ghost var (reach, room) := (bcj.lzma2.Reach(b), b.outSize - b.outPos);
      bcj.AtFirst(b);
      CrcOfNothing(0);
      WantedEnds(reach, room);
      ghost var data;
      o, data := RunOnce(b);
      if o.NeverReturns? {
        return;
      }
      if o.ret == XzDataError {
        NeverAccepted();
        return;
      }
      Count(b, inStart, outStart, [], data, index.table);
      if (declaredCompressed.Known? && compressed > declaredCompressed.n)
         || (declaredUncompressed.Known? && uncompressed > declaredUncompressed.n) {
        TooMuch();
        return Returned(XzDataError);
      }
      if o.ret == XzStreamEnd {
        if (declaredCompressed.Known? && declaredCompressed.n != compressed)
           || (declaredUncompressed.Known? && declaredUncompressed.n != uncompressed) {
          OnlyText();
          return Returned(XzDataError);
        }
        EndWanted(reach, room);
        index.CountBlock(compressed, uncompressed, header, if hasCrc then CRC_SIZE else 0);
      }
    }

    ghost predicate WantedWithin(available: int, most: int)
      reads bcj.lzma2.dict`size
    {
      exists text: seq<Byte>, used: nat :: Wanted(text, used) && used <= available && |text| <= most
    }

    lemma WantedEnds(reach: int, room: int)
      ensures WantedWithin(reach, room) ==> EndsWithin(bcj.lzma2.stream, bcj.lzma2.dict.size, reach, room)
    {
      hide Accepts;
    }

    lemma EndWanted(reach: int, room: int)
      requires Wanted(bcj.lzma2.out, bcj.lzma2.fed) && EndsWithin(bcj.lzma2.stream, bcj.lzma2.dict.size, reach, room)
      ensures WantedWithin(reach, room)
    {
      hide Accepts;
      var (stream, dictSize) := (bcj.lzma2.stream, bcj.lzma2.dict.size);
      var text: seq<Byte>, used: nat :| Accepts(stream, dictSize, text, used) && used <= reach && |text| <= room;
      OneVerdict(stream, dictSize, text, used, bcj.lzma2.out, bcj.lzma2.fed);
    }

    lemma TooMuch()
      requires bcj.AtMost(compressed, uncompressed)
      requires Exceeds(compressed, declaredCompressed) || Exceeds(uncompressed, declaredUncompressed)
      ensures forall text: seq<Byte>, used: nat :: !Wanted(text, used)
    {
      hide Accepts;
    }

    /** The sizes and the check value go on over what a call took and handed out. */
    method Count(b: XzBuf, inStart: nat, outStart: nat, ghost was: seq<Byte>, ghost now: seq<Byte>, table: Table)
      requires table.Ready() && inStart <= b.inPos && outStart <= b.outPos <= b.out.Length
      requires was <= now && b.out[outStart..b.outPos] == now[|was|..]
      requires uncompressed == |was| && (hasCrc ==> crc == CrcOf(was, 0))
      modifies `compressed, `uncompressed, `crc
      ensures compressed == old(compressed) + (b.inPos - inStart) && uncompressed == |now|
      ensures hasCrc ==> crc == CrcOf(now, 0)
    {
      hide Crc, Octets;
      compressed := compressed + (b.inPos - inStart);
      uncompressed := uncompressed + (b.outPos - outStart);
      CrcOfAppend(was, now[|was|..], 0);
      assert was + now[|was|..] == now;
      if hasCrc {
        crc := table.Update(Octets(b.out[outStart..b.outPos]), crc);
      }
    }

    lemma NeverAccepted()
      requires Refuses(bcj.lzma2.stream, bcj.lzma2.dict.size)
      ensures forall text: seq<Byte>, used: nat :: !Wanted(text, used)
    {
      hide Accepts, Refuses;
      forall text: seq<Byte>, used: nat ensures !Wanted(text, used) {
        if Accepts(bcj.lzma2.stream, bcj.lzma2.dict.size, text, used) {
          OneVerdict(bcj.lzma2.stream, bcj.lzma2.dict.size, text, used, text, used);
        }
      }
    }

    /** More was taken or produced than was declared. */
    lemma TooLong()
      requires bcj.Valid() && bcj.ret != XzDataError
      requires Exceeds(bcj.lzma2.fed, declaredCompressed) || Exceeds(|bcj.given|, declaredUncompressed)
      ensures forall text: seq<Byte>, used: nat :: !Wanted(text, used)
    {
      hide Accepts, Pass;
      bcj.HeldSize();
      forall text: seq<Byte>, used: nat ensures !Wanted(text, used) {
        if Accepts(bcj.lzma2.stream, bcj.lzma2.dict.size, text, used) {
          bcj.SoFar(text, used);
        }
      }
    }

    /** Less was taken or produced than was declared, and there is nothing more. */
    lemma OnlyText()
      requires Accepts(bcj.lzma2.stream, bcj.lzma2.dict.size, bcj.lzma2.out, bcj.lzma2.fed)
      requires !Agrees(bcj.lzma2.fed, declaredCompressed) || !Agrees(|bcj.lzma2.out|, declaredUncompressed)
      ensures forall text: seq<Byte>, used: nat :: !Wanted(text, used)
    {
      hide Accepts;
      forall text: seq<Byte>, used: nat ensures !Wanted(text, used) {
        if Accepts(bcj.lzma2.stream, bcj.lzma2.dict.size, text, used) {
          OneVerdict(bcj.lzma2.stream, bcj.lzma2.dict.size, text, used, bcj.lzma2.out, bcj.lzma2.fed);
        }
      }
    }
  }
}
