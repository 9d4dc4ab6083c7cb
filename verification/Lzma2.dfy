/** The LZMA2 decoder: the control layer that is fed a stream in pieces, against the reference for the whole
    stream. */
module Lzma2 {
  import opened Bytes
  import opened RangeCoder
  import opened Consumption
  import opened LzmaModel
  import opened LzmaChunk
  import opened LzmaPieces
  import opened Dictionary
  import opened RangeDecoder
  import opened LzmaDecoder
  import opened Lzma2Input
  import opened Lzma2Reference

  datatype Sequence =
    | SeqControl | SeqUncompressed1 | SeqUncompressed2 | SeqCompressed0 | SeqCompressed1
    | SeqProperties | SeqLzmaPrepare | SeqLzmaRun | SeqCopy

  datatype XzRet = XzOk | XzStreamEnd | XzDataError

  lemma Advance(input: seq<Byte>, i: nat, stream: seq<Byte>, j: nat, d: nat)
    requires i + d <= |input| && j + (|input| - i) <= |stream| && input[i..] == stream[j..j + (|input| - i)]
    ensures input[i + d..] == stream[j + d..j + (|input| - i)] && input[i..i + d] == stream[j..j + d]
  {
    assert input[i..i + d] == input[i..][..d];
    assert stream[j..j + d] == stream[j..j + (|input| - i)][..d];
    assert input[i + d..] == input[i..][d..];
    assert stream[j + d..j + (|input| - i)] == stream[j..j + (|input| - i)][d..];
  }

  lemma BodyOverlaps(stream: seq<Byte>, at: nat, n: nat, off: nat, given: seq<Byte>)
    requires off <= n && at + off + |given| <= |stream| && given == stream[at + off..at + off + |given|]
    ensures Overlap(given, Body(stream, at, n)[off..])
  {
  }

  /** In an uncompressed chunk of the stream with left bytes to go: what was passed on is what was taken. */
  ghost predicate CopiedTo(ref: Ref, stream: seq<Byte>, fed: nat, left: nat, hist: seq<Byte>, out: seq<Byte>) {
    var (n, at) := (CompressedSize(stream, ref.pos + 1), ref.pos + 3);
    && left <= n && fed == at + n - left && fed <= |stream|
    && hist == AfterReset(ref, At(stream, ref.pos)).hist + stream[at..fed] && out == ref.out + stream[at..fed]
  }

  lemma CopiedMore(ref: Ref, stream: seq<Byte>, fed: nat, left: nat, hist: seq<Byte>, out: seq<Byte>, n: nat)
    requires CopiedTo(ref, stream, fed, left, hist, out) && n <= left && fed + n <= |stream|
    ensures CopiedTo(ref, stream, fed + n, left - n, hist + stream[fed..fed + n], out + stream[fed..fed + n])
  {
  }

  /** The stream 01 00 00 07 starts with a dictionary reset and one byte stored as it is. */
  lemma OneByteChunk(dictSize: nat)
    ensures Chunk([1, 0, 0, 7], dictSize, FirstRef()).Next?
  {
  }

  class Lzma2Dec {
    const feeder: Feeder
    const lzma: LzmaDec := feeder.lzma
    const rc: RangeDec := feeder.lzma.rc
    const dict: Dict := feeder.lzma.dict
    var sequence: Sequence
    var nextSequence: Sequence
    var uncompressed: nat
    var needDictReset: bool
    var needProps: bool

    /** All the input there will ever be, how much of it was taken, and all the output so far. */
    ghost const stream: seq<Byte>
    ghost var fed: nat
    ghost var out: seq<Byte>

    /** The chunks completed so far, and what the reference says after them. */
    ghost var chunks: nat
    ghost var ref: Ref

    /** Inside an LZMA chunk: the symbols decoded so far. */
    ghost var steps: nat

    // ------------------------------------------------------------ the invariant

    /** The objects the decoder is made of; the dictionary's buffer may change in single-call mode. */
    ghost function Heap(): set<object> {
      {this} + Parts()
    }

    ghost function Parts(): set<object> {
      {feeder, lzma, rc, dict, lzma.probs, feeder.temp}
    }

    ghost predicate Objects()
      reads dict`buf
    {
      && feeder.temp != dict.buf && feeder.temp as object != lzma.probs
    }

    /** The parts that hold whatever the sequence. */
    ghost predicate Common()
      reads `fed, `ref, `chunks, lzma, dict, dict.buf, lzma.probs
    {
      Base() && fed <= |stream| && dict.start == dict.pos && (!dict.single ==> dict.pos < dict.end)
    }

    /** What the reference says of the present chunk. */
    ghost predicate Says(v: Verdict)
      reads `ref, `chunks, dict`size
    {
      ref.Valid() && Chunks(stream, dict.size, FirstRef(), chunks) == Next(ref) && Chunk(stream, dict.size, ref) == v
    }

    ghost predicate Base()
      reads `ref, `chunks, lzma, dict, dict.buf, lzma.probs
    {
      && Objects() && lzma.Core() && feeder.temp.Length == TEMP_SIZE
      && ref.Valid() && Chunks(stream, dict.size, FirstRef(), chunks) == Next(ref)
    }

    ghost function Control(): Byte
      reads `ref
    {
      At(stream, ref.pos)
    }

    /** The reference state after the dictionary reset of the current chunk, if any. */
    ghost function Now(): Ref
      reads `ref
    {
      AfterReset(ref, Control())
    }

    ghost predicate RcFresh()
      reads rc
    {
      rc.range == 0xFFFF_FFFF && rc.code == 0 && rc.initBytesLeft == INIT_BYTES
    }

    /** The coder's model is that of a reference state, and nothing is pending. */
    ghost predicate ModelIs(r: Ref)
      reads lzma, lzma.probs
    {
      lzma.M() == r.m && lzma.probs[..] == r.probs && lzma.props == r.props && lzma.len == 0
    }

    /** Inside a chunk that the reference does not refuse for its control byte. */
    ghost predicate InChunk()
      reads `ref, `needDictReset
    {
      && Control() != 0 && !BadControl(Now(), Control())
      && !needDictReset
    }

    /** In an LZMA chunk before its first symbol. */
    ghost predicate InHeader()
      reads this, feeder`tempSize, lzma, rc, dict, lzma.probs
    {
      && InChunk() && Control() >= 0x80 && feeder.tempSize == 0
      && nextSequence == (if Control() >= 0xC0 then SeqProperties else SeqLzmaPrepare)
      && !needProps && out == ref.out && dict.hist == Now().hist
      && (Control() < 0xC0 ==> RcFresh() && lzma.Reaches() && ModelIs(AfterState(Now(), stream, Control())))
    }

    ghost predicate AtControl()
      reads this, feeder`tempSize, lzma, rc, dict, lzma.probs
    {
      && fed == ref.pos && out == ref.out && dict.hist == ref.hist && feeder.tempSize == 0
      && needDictReset == ref.needDict && needProps == ref.needProps
      && (needProps || needDictReset || (RcFresh() && lzma.Reaches())) && ModelIs(ref)
    }

    /** In the body of an LZMA chunk; its properties are in force. */
    ghost predicate InBody()
      reads `ref, `needDictReset, `needProps
    {
      && InChunk() && Control() >= 0x80 && !needProps
      && (Control() >= 0xC0 ==> ValidPropsByte(At(stream, ref.pos + 5)))
    }

    ghost function BodyAt(): nat
      reads `ref
    {
      BodyStart(stream, ref.pos)
    }

    ghost function ChunkBody(): seq<Byte>
      reads `ref
    {
      Body(stream, BodyAt(), CompressedSize(stream, ref.pos + 3))
    }

    ghost function StartRef(): Ref
      requires Control() >= 0xC0 ==> ValidPropsByte(At(stream, ref.pos + 5))
      reads `ref
    {
      AfterState(Now(), stream, Control())
    }

    ghost function Target(): nat
      reads `ref
    {
      |Now().hist| + UncompressedSize(stream, ref.pos)
    }

    ghost predicate Preparing()
      reads this, feeder, lzma, rc, dict, lzma.probs
    {
      && InBody() && feeder.tempSize == 0 && out == ref.out && dict.hist == Now().hist
      && lzma.Reaches() && ModelIs(StartRef())
      && feeder.compressed == CompressedSize(stream, ref.pos + 3)
      && uncompressed == UncompressedSize(stream, ref.pos)
      && rc.initBytesLeft <= INIT_BYTES && fed == BodyAt() + (INIT_BYTES - rc.initBytesLeft)
      && rc.range == 0xFFFF_FFFF
      && rc.code == BigEndian(Body(stream, BodyAt(), INIT_BYTES - rc.initBytesLeft)) % U32
    }

    /** In an LZMA chunk after its range decoder has started: where the decoder stands is where the one run over the
        whole chunk stands after some steps. */
    ghost predicate Decoding()
      reads `ref, `fed, `needDictReset, `needProps, `steps, feeder, feeder.temp, lzma, rc, dict`hist, dict`size, lzma.probs
    {
      DecodingAt(fed, steps)
    }

    ghost predicate DecodingAt(fed: nat, steps: nat)
      reads `ref, `needDictReset, `needProps, feeder, feeder.temp, lzma, rc, dict`hist, dict`size, lzma.probs
    {
      && InBody() && INIT_BYTES <= CompressedSize(stream, ref.pos + 3)
      && lzma.Reaches() && StartRef().Valid() && lzma.props == StartRef().props
      && TOP_VALUE <= rc.range && feeder.tempSize <= feeder.compressed && feeder.tempSize < IN_REQUIRED
      && feeder.tempSize <= feeder.temp.Length
      && feeder.compressed <= |ChunkBody()| && fed == BodyAt() + |ChunkBody()| - feeder.Due()
      && feeder.temp[..feeder.tempSize]
         == ChunkBody()[|ChunkBody()| - feeder.compressed..|ChunkBody()| - feeder.compressed + feeder.tempSize]
      && Stands(ChunkBody(), dict.size, StartRef(), steps, feeder.LzAt(ChunkBody()), Target())
    }

    ghost predicate Running()
      reads this, feeder, feeder.temp, lzma, rc, dict, lzma.probs
    {
      && Decoding() && uncompressed > 0 && |dict.hist| + uncompressed == Target() && Now().hist <= dict.hist
      && out == ref.out + dict.hist[|Now().hist|..]
    }

    ghost predicate Copying()
      reads this, feeder`tempSize, feeder`compressed, lzma, rc, dict`hist, dict`size, lzma.probs
    {
      && CopyState() && CopiedTo(ref, stream, fed, feeder.compressed, dict.hist, out)
    }

    ghost predicate CopyState()
      reads `ref, `needDictReset, `needProps, feeder`tempSize, lzma, rc, dict`hist, dict`size, lzma.probs
    {
      && InChunk() && Control() < 0x80 && feeder.tempSize == 0
      && (needProps || (RcFresh() && lzma.Reaches())) && ModelIs(ref) && needProps == Now().needProps
    }

    ghost predicate InCopyHeader()
      reads this, feeder`tempSize, lzma, rc, dict`hist, dict`size, lzma.probs
    {
      CopyState() && nextSequence == SeqCopy && dict.hist == Now().hist && out == ref.out
    }

    ghost predicate Inv()
      reads Heap(), dict.buf
    {
      Common() &&
      match sequence
      case SeqControl => AtControl()
      case SeqUncompressed1 => InHeader() && fed == ref.pos + 1 && uncompressed == Control() % 0x20 * 0x1_0000
      case SeqUncompressed2 => InHeader() && fed == ref.pos + 2
                               && uncompressed == Control() % 0x20 * 0x1_0000 + At(stream, ref.pos + 1) * 0x100
      case SeqCompressed0 =>
        if Control() >= 0x80 then InHeader() && fed == ref.pos + 3 && uncompressed == UncompressedSize(stream, ref.pos)
        else InCopyHeader() && fed == ref.pos + 1
      case SeqCompressed1 =>
        if Control() >= 0x80 then
          && InHeader() && fed == ref.pos + 4 && uncompressed == UncompressedSize(stream, ref.pos)
          && feeder.compressed == At(stream, ref.pos + 3) * 0x100
        else InCopyHeader() && fed == ref.pos + 2 && feeder.compressed == At(stream, ref.pos + 1) * 0x100
      case SeqProperties =>
        && InHeader() && fed == ref.pos + 5 && uncompressed == UncompressedSize(stream, ref.pos) && Control() >= 0xC0
        && feeder.compressed == CompressedSize(stream, ref.pos + 3)
      case SeqLzmaPrepare => Preparing() && rc.initBytesLeft > 0
      case SeqLzmaRun => Running()
      case SeqCopy => Copying() && feeder.compressed > 0
    }

    /** The caller's buffers: its input is the next stretch of the stream. */
    ghost predicate Linked(b: XzBuf)
      reads `fed, dict, b
    {
      && b.Valid() && dict.OutputOf(b)
      && (b as object) !in {this, feeder, lzma, rc, dict}
      && b.out != feeder.temp && b.out as object != lzma.probs
      && Supplies(b)
    }

    ghost predicate Supplies(b: XzBuf)
      reads `fed, b`input, b`inPos
    {
      && b.inPos <= |b.input| && fed + (|b.input| - b.inPos) <= |stream|
      && b.input[b.inPos..] == stream[fed..fed + (|b.input| - b.inPos)]
    }

    // ---------------------------------------------------------------- creation

    constructor Multi(ghost stream: seq<Byte>, dictSize: nat)
      requires dictSize % 16 == 0 && dictSize > 0
      ensures Inv() && this.stream == stream && fed == 0 && out == [] && sequence == SeqControl
      ensures dict.pos == dict.limit == 0 && dict.end == dictSize
      ensures !dict.single && dict.size == dictSize && ref == FirstRef() && fresh(dict.buf) && fresh(Parts())
    {
      hide Dict.Represents, FreshProbs, Chunk, ValidDistance, Bytes.Shl;
      var d := new Dict.Multi(dictSize);
      var l := new LzmaDec(d);
      var f := new Feeder(l);
      feeder := f;
      sequence, nextSequence, uncompressed, needDictReset, needProps := SeqControl, SeqControl, 0, true, false;
      this.stream, fed, out, chunks, ref, steps := stream, 0, [], 0, FirstRef(), 0;
    }

    /** In single-call mode the dictionary is the caller's output. */
    constructor Single(ghost stream: seq<Byte>, dictSize: nat, b: XzBuf)
      requires b.Valid()
      ensures Inv() && this.stream == stream && fed == 0 && out == [] && sequence == SeqControl
      ensures dict.single && dict.size == dictSize && ref == FirstRef() && dict.OutputOf(b) && fresh(Parts())
      ensures dict.pos == dict.limit == 0
    {
      hide Dict.Represents, FreshProbs, Chunk, ValidDistance, Bytes.Shl;
      var d := new Dict.Single(dictSize, b);
      var l := new LzmaDec(d);
      var f := new Feeder(l);
      feeder := f;
      sequence, nextSequence, uncompressed, needDictReset, needProps := SeqControl, SeqControl, 0, true, false;
      this.stream, fed, out, chunks, ref, steps := stream, 0, [], 0, FirstRef(), 0;
    }

    // ---------------------------------------------------------------- the steps

    method TakeByte(b: XzBuf) returns (byte: Byte)
      requires Common() && Linked(b) && b.inPos < |b.input|
      modifies `fed, b`inPos
      ensures Common() && Linked(b) && byte == At(stream, old(fed)) && fed == old(fed) + 1 <= |stream| && b.inPos == old(b.inPos) + 1
    {
      hide Chunks, Consistent;
      byte := b.input[b.inPos];
      assert b.input[b.inPos..][0] == stream[fed..fed + (|b.input| - b.inPos)][0];
      assert b.input[b.inPos + 1..] == b.input[b.inPos..][1..];
      b.inPos := b.inPos + 1;
      fed := fed + 1;
    }

    /** What the control byte alone decides. */
    lemma ControlVerdict()
      requires Common() && ref.pos < |stream|
      ensures Control() == 0 ==> Says(End(ref.pos + 1))
      ensures Control() != 0 && BadControl(Now(), Control()) ==> Says(Reject)
    {
    }

    /** SEQ_CONTROL */
    method ReadControl(b: XzBuf) returns (ret: XzRet)
      requires Inv() && Linked(b) && sequence == SeqControl && b.inPos < |b.input|
      modifies `sequence, `nextSequence, `uncompressed, `needDictReset, `needProps, `fed, b`inPos
      modifies dict, lzma`state, lzma`rep0, lzma`rep1, lzma`rep2, lzma`rep3, lzma`len, lzma.probs
      modifies rc`range, rc`code, rc`initBytesLeft
      ensures b.inPos == old(b.inPos) + 1 && fed == old(fed) + 1 && dict.size == old(dict.size) && dict.buf == old(dict.buf)
      ensures ret == XzOk ==> Inv() && Linked(b) && sequence != SeqControl
      ensures ret == XzStreamEnd ==> Says(End(fed)) && out == ref.out && Linked(b)
      ensures ret == XzDataError ==> Says(Reject)
      ensures (dict.pos, dict.limit) in {old((dict.pos, dict.limit)), (0, 0)} && (!dict.single ==> dict.end == old(dict.end))
    {
      hide Chunks, Chunk, BodyVerdict, Consistent, Ring, LzmaModel.FreshProbs, PropsOf, ValidPropsByte,
           Common, RcFresh, LzmaDec.Reaches, ModelIs, Dict.OutputOf;
      ControlVerdict();
      var c := TakeByte(b);
      if c == 0 {
        return XzStreamEnd;
      }
      var ok := ResetDictionary(b, c);
      if !ok {
        return XzDataError;
      }
      if c >= 0x80 {
        if c < 0xC0 && needProps {
          return XzDataError;
        }
        BeginLzma(c);
      } else {
        if c > 0x02 {
          return XzDataError;
        }
        BeginCopy(c);
      }
      ret := XzOk;
    }

    /** The first decision on a control byte: a dictionary reset, or none where one is needed. */
    method ResetDictionary(b: XzBuf, c: Byte) returns (ok: bool)
      requires Common() && Linked(b) && c == Control() && c != 0 && fed == ref.pos + 1
      requires out == ref.out && dict.hist == ref.hist && feeder.tempSize == 0
      requires needDictReset == ref.needDict && needProps == ref.needProps
      requires (needProps || needDictReset || (RcFresh() && lzma.Reaches())) && ModelIs(ref)
      modifies `needDictReset, `needProps, dict
      ensures ok ==> AfterDict() && Linked(b)
      ensures !ok ==> BadControl(Now(), c)
      ensures dict.size == old(dict.size) && dict.buf == old(dict.buf)
      ensures (dict.pos, dict.limit) in {old((dict.pos, dict.limit)), (0, 0)} && (!dict.single ==> dict.end == old(dict.end))
    {
      hide Chunks, Chunk, BodyVerdict, Consistent, Ring, LzmaModel.FreshProbs, PropsOf, ValidPropsByte, ValidDistance;
      ok := true;
      if c >= 0xE0 || c == 0x01 {
        needProps := true;
        needDictReset := false;
        dict.Reset(b);
      } else if needDictReset {
        ok := false;
      }
    }

    /** After the control byte and the dictionary reset it may ask for. */
    ghost predicate AfterDict()
      reads Heap(), dict.buf
    {
      && Common() && !needDictReset && Control() != 0 && fed == ref.pos + 1 && feeder.tempSize == 0
      && out == ref.out && dict.hist == Now().hist && needProps == Now().needProps && !Now().needDict
      && (needProps || (RcFresh() && lzma.Reaches())) && ModelIs(ref)
    }

    /** The sizes of an LZMA chunk follow; a state reset without new properties happens now. */
    method BeginLzma(c: Byte)
      requires AfterDict() && c == Control() && c >= 0x80 && !BadControl(Now(), c)
      modifies `sequence, `nextSequence, `uncompressed, `needProps
      modifies lzma`state, lzma`rep0, lzma`rep1, lzma`rep2, lzma`rep3, lzma`len, lzma.probs
      modifies rc`range, rc`code, rc`initBytesLeft
      ensures Common() && sequence == SeqUncompressed1
      ensures InHeader() && fed == ref.pos + 1
      ensures uncompressed == Control() % 0x20 * 0x1_0000
    {
      hide Chunks, Chunk, BodyVerdict, Consistent, Ring, LzmaModel.FreshProbs, PropsOf, ValidPropsByte, Dict.Valid, Props.Valid, Bytes.Shl;
      var high: nat := c % 0x20;
      uncompressed := high * 0x1_0000;
      sequence := SeqUncompressed1;
      if c >= 0xC0 {
        needProps := false;
        nextSequence := SeqProperties;
      } else {
        nextSequence := SeqLzmaPrepare;
        if c >= 0xA0 {
          lzma.ResetState();
        }
      }
    }

    /** The size of an uncompressed chunk follows. */
    method BeginCopy(c: Byte)
      requires AfterDict() && c == Control() && c <= 0x02
      modifies `sequence, `nextSequence
      ensures Common() && sequence == SeqCompressed0 && InCopyHeader() && fed == ref.pos + 1
    {
      hide Chunks, Consistent, LzmaModel.FreshProbs, PropsOf, ValidPropsByte;
      sequence := SeqCompressed0;
      nextSequence := SeqCopy;
    }

    /** SEQ_UNCOMPRESSED_1 and SEQ_UNCOMPRESSED_2 */
    method ReadUncompressed(b: XzBuf)
      requires Inv() && Linked(b) && b.inPos < |b.input| && (sequence == SeqUncompressed1 || sequence == SeqUncompressed2)
      modifies `sequence, `uncompressed, `fed, b`inPos
      ensures Inv() && Linked(b) && b.inPos == old(b.inPos) + 1 && fed == old(fed) + 1
    {
      hide Common, RcFresh, LzmaDec.Reaches, ModelIs, AfterState, Dict.OutputOf, BadControl, AfterReset, ValidPropsByte;
      var byte: nat := TakeByte(b);
      if sequence == SeqUncompressed1 {
        uncompressed := uncompressed + byte * 0x100;
        sequence := SeqUncompressed2;
      } else {
        uncompressed := uncompressed + byte + 1;
        sequence := SeqCompressed0;
      }
    }

    /** SEQ_COMPRESSED_0 */
    method ReadCompressedHigh(b: XzBuf)
      requires Inv() && Linked(b) && b.inPos < |b.input| && sequence == SeqCompressed0
      modifies `sequence, feeder`compressed, `fed, b`inPos
      ensures Inv() && Linked(b) && b.inPos == old(b.inPos) + 1 && fed == old(fed) + 1
    {
      hide Common, RcFresh, LzmaDec.Reaches, ModelIs, AfterState, Dict.OutputOf, BadControl, AfterReset, ValidPropsByte;
      var byte: nat := TakeByte(b);
      feeder.compressed := byte * 0x100;
      sequence := SeqCompressed1;
    }

    /** SEQ_COMPRESSED_1 */
    method ReadCompressedLow(b: XzBuf)
      requires Inv() && Linked(b) && b.inPos < |b.input| && sequence == SeqCompressed1
      modifies `sequence, feeder`compressed, `fed, b`inPos
      ensures Inv() && Linked(b) && b.inPos == old(b.inPos) + 1 && fed == old(fed) + 1
    {
      hide Common, RcFresh, LzmaDec.Reaches, ModelIs, AfterState, Dict.OutputOf, BadControl, AfterReset, ValidPropsByte,
           Preparing, Copying;
      var byte: nat := TakeByte(b);
      feeder.compressed := feeder.compressed + byte + 1;
      sequence := nextSequence;
      if sequence == SeqCopy {
        EnterCopy();
      } else if sequence == SeqLzmaPrepare {
        EnterPrepare();
      }
    }

    lemma EnterCopy()
      requires InCopyHeader() && fed == ref.pos + 3 <= |stream| && feeder.compressed == CompressedSize(stream, ref.pos + 1)
      ensures Copying()
    {
    }

    lemma EnterPrepare()
      requires InHeader() && fed == ref.pos + 5 && Control() < 0xC0
      requires uncompressed == UncompressedSize(stream, ref.pos) && feeder.compressed == CompressedSize(stream, ref.pos + 3)
      ensures Preparing() && rc.initBytesLeft > 0
    {
    }

    /** SEQ_PROPERTIES: the reference refuses what lzma_props refuses. */
    method ReadProperties(b: XzBuf) returns (ok: bool)
      requires Inv() && Linked(b) && b.inPos < |b.input| && sequence == SeqProperties
      modifies `sequence, `fed, b`inPos, lzma, lzma.probs, rc`range, rc`code, rc`initBytesLeft
      ensures b.inPos == old(b.inPos) + 1 && fed == old(fed) + 1
      ensures ok ==> Inv() && Linked(b) && sequence == SeqLzmaPrepare
      ensures !ok ==> Says(Reject)
    {
      hide Chunks, Chunk, BodyVerdict, ModelIs, Preparing, Consistent, Dict.Valid, Props.Valid, FreshProbs, PropsOf, ValidPropsByte, BadControl, AfterReset,
           Dict.OutputOf;
      var byte := TakeByte(b);
      ok := lzma.SetProps(byte);
      if ok {
        sequence := SeqLzmaPrepare;
        EnterWithProps();
      } else {
        Refused();
      }
    }

    lemma EnterWithProps()
      requires InChunk() && Control() >= 0xC0 && ValidPropsByte(At(stream, ref.pos + 5)) && fed == ref.pos + 6 && !needProps
      requires feeder.tempSize == 0 && out == ref.out && dict.hist == Now().hist && lzma.Reaches() && RcFresh()
      requires lzma.len == 0 && lzma.M() == FreshModel && lzma.probs[..] == FreshProbs()
      requires lzma.props == PropsOf(At(stream, ref.pos + 5))
      requires uncompressed == UncompressedSize(stream, ref.pos) && feeder.compressed == CompressedSize(stream, ref.pos + 3)
      ensures Preparing() && rc.initBytesLeft > 0
    {
    }

    lemma CommonRef()
      requires Common()
      ensures ref.Valid() && fed <= |stream| && Chunks(stream, dict.size, FirstRef(), chunks) == Next(ref)
    {
    }

    /** A header the reference refuses. */
    lemma Refused()
      requires ref.Valid() && InChunk() && Control() >= 0x80 && ref.pos < |stream|
      requires Chunks(stream, dict.size, FirstRef(), chunks) == Next(ref)
      requires CompressedSize(stream, ref.pos + 3) < INIT_BYTES || (Control() >= 0xC0 && !ValidPropsByte(At(stream, ref.pos + 5)))
      ensures Says(Reject)
    {
      hide BodyVerdict, BadControl, ValidPropsByte, Chunks;
    }

    /** SEQ_LZMA_PREPARE: five bytes start the range decoder, as they come. */
    method Prepare(b: XzBuf) returns (ok: bool)
      requires Inv() && Linked(b) && sequence == SeqLzmaPrepare
      modifies `sequence, `steps, `fed, b`inPos, rc`code, rc`initBytesLeft, feeder`compressed
      ensures ok ==> Inv() && Linked(b) && old(b.inPos) <= b.inPos && fed - b.inPos == old(fed - b.inPos)
      ensures ok ==> sequence == SeqLzmaRun || (sequence == SeqLzmaPrepare && b.inPos == |b.input|)
      ensures !ok ==> Says(Reject)
    {
      hide Chunks, Chunk, Common, Preparing, Running, Dict.OutputOf;
      if feeder.compressed < INIT_BYTES {
        TooShort();
        return false;
      }
      ok := true;
      var done := ReadInit(b);
      if done {
        StartRun();
      }
    }

    lemma TooShort()
      requires Common() && Preparing() && feeder.compressed < INIT_BYTES
      ensures Says(Reject)
    {
      hide Chunk, Common, LzmaDec.Reaches, ModelIs, AfterState, AfterReset, BadControl, ValidPropsByte, BigEndian;
      CommonRef();
      Refused();
    }

    /** rc_read_init */
    method ReadInit(b: XzBuf) returns (done: bool)
      requires Common() && Preparing() && Linked(b)
      modifies `fed, b`inPos, rc`code, rc`initBytesLeft
      ensures Common() && Preparing() && Linked(b) && old(b.inPos) <= b.inPos
      ensures done <==> rc.initBytesLeft == 0
      ensures !done ==> b.inPos == |b.input|
      ensures fed - b.inPos == old(fed - b.inPos)
    {
      hide Common, Preparing;
      while rc.initBytesLeft > 0
        invariant Common() && Preparing() && Linked(b) && old(b.inPos) <= b.inPos && fed - b.inPos == old(fed - b.inPos)
      {
        if b.inPos == |b.input| {
          return false;
        }
        InitByte(b);
      }
      done := true;
    }

    method InitByte(b: XzBuf)
      requires Common() && Preparing() && Linked(b) && rc.initBytesLeft > 0 && b.inPos < |b.input|
      modifies `fed, b`inPos, rc`code, rc`initBytesLeft
      ensures Common() && Preparing() && Linked(b) && rc.initBytesLeft == old(rc.initBytesLeft) - 1
      ensures b.inPos == old(b.inPos) + 1 && fed == old(fed) + 1
    {
      hide Common, LzmaDec.Reaches, ModelIs, AfterReset, AfterState, Dict.OutputOf, BadControl, ValidPropsByte;
      InitNext(stream, BodyAt(), INIT_BYTES - rc.initBytesLeft);
      var byte: nat := TakeByte(b);
      rc.code := (rc.code * 256 + byte) % U32;
      rc.initBytesLeft := rc.initBytesLeft - 1;
    }

    method StartRun()
      requires Common() && Preparing() && rc.initBytesLeft == 0 && feeder.compressed >= INIT_BYTES
      modifies `sequence, `steps, feeder`compressed
      ensures Common() && sequence == SeqLzmaRun && Running()
    {
      hide Common, LzmaDec.Reaches, AfterReset, AfterState, BadControl, ValidPropsByte, Props.Valid, Run, Below, BigEndian, LzCopy,
           Stands, Chunks;
      CommonRef();
      FirstState();
      feeder.compressed := feeder.compressed - INIT_BYTES;
      sequence := SeqLzmaRun;
      steps := 0;
    }

    /** The range decoder started byte by byte is the reference's start. */
    lemma FirstState()
      requires ref.Valid() && Preparing() && rc.initBytesLeft == 0 && feeder.compressed >= INIT_BYTES
      ensures StartRef().Valid() && Stands(ChunkBody(), dict.size, StartRef(), 0, At0(lzma.AsLz(), INIT_BYTES), Target())
      ensures StartRef().hist == Now().hist && lzma.props == StartRef().props && |ChunkBody()| == feeder.compressed
    {
      hide LzmaDec.Reaches, BadControl, ValidPropsByte, Props.Valid, BigEndian, LzCopy;
      StartIs(stream, BodyAt(), feeder.compressed, StartRef().probs);
      LzCopyZero(dict.hist, lzma.rep0);
    }

    /** The decoding part of SEQ_LZMA_RUN. */
    method FeedPass(b: XzBuf) returns (ok: bool)
      requires Base() && Decoding() && Linked(b) && |dict.hist| + dict.limit - dict.pos <= Target() && dict.pos <= dict.limit
      modifies `fed, `steps, feeder, feeder.temp, b`inPos, lzma, lzma.probs, rc
      modifies dict`pos, dict`full, dict`hist, dict.buf
      ensures dict.Valid() && dict.pos <= dict.limit && old(dict.hist) <= dict.hist
      ensures |dict.hist| - |old(dict.hist)| == dict.pos - old(dict.pos)
      ensures ok ==> Base() && Decoding() && Linked(b) && old(b.inPos) <= b.inPos && fed - b.inPos == old(fed - b.inPos)
      ensures ok && old(dict.pos) < dict.limit ==>
        old(dict.pos) < dict.pos || old(b.inPos) < b.inPos || (b.inPos == |b.input| && feeder.tempSize < feeder.compressed)
      ensures !ok ==> Says(Reject)
    {
      hide Base, DecodingAt, Chunks, Chunk, Dict.Valid, AfterReset;
      ghost var inPos := b.inPos;
      ghost var k;
      ok, k := Decode(b);
      if ok {
        Advance(b.input, inPos, stream, fed, b.inPos - inPos);
        fed := fed + (b.inPos - inPos);
        steps := steps + k;
      }
    }

    method Decode(b: XzBuf) returns (ok: bool, ghost k: nat)
      requires Base() && Decoding() && Linked(b) && |dict.hist| + dict.limit - dict.pos <= Target() && dict.pos <= dict.limit
      modifies feeder, feeder.temp, b`inPos, lzma, lzma.probs, rc
      modifies dict`pos, dict`full, dict`hist, dict.buf
      ensures dict.Valid() && dict.pos <= dict.limit && old(dict.hist) <= dict.hist
      ensures |dict.hist| - |old(dict.hist)| == dict.pos - old(dict.pos)
      ensures ok ==> Base() && old(b.inPos) <= b.inPos <= |b.input| && DecodingAt(fed + (b.inPos - old(b.inPos)), steps + k)
      ensures ok && old(dict.pos) < dict.limit ==>
        old(dict.pos) < dict.pos || old(b.inPos) < b.inPos || (b.inPos == |b.input| && feeder.tempSize < feeder.compressed)
      ensures !ok ==> Says(Reject)
    {
      hide Chunks, Chunk, BodyVerdict, Props.Valid, AfterReset, AfterState, BadControl, ValidPropsByte,
           Run, Below, LzCopy, Stands, Dict.Represents, LzmaDec.Reaches, DecodingAt, Feeder.Fed, InBody, Bytes.Shl,
           Feeder.Rested, Feeder.Saved, Base, Feeder.Valid, LzmaDec.Core;
      BaseParts();
      WhereSuspended();
      FeederSuspended();
      InputSuspended(b);
      BodyControl();
      ghost var (chunk, z, start, target) := (ChunkBody(), feeder.LzAt(ChunkBody()), StartRef(), Target());
      ok, k := feeder.Feed(b, chunk);
      assert ChunkBody() == chunk && StartRef() == start && Target() == target;
      if ok {
        FedBounds(b, chunk);
        BaseAgain();
        StandsMore(chunk, dict.size, start, steps, z, target, k, feeder.LzAt(chunk), lzma.Room());
        Resumed(b, fed + (b.inPos - old(b.inPos)), steps + k);
      } else {
        StandsFails(chunk, dict.size, start, steps, z, target, k, lzma.Room(), BodyAt() + |chunk|);
        BodyDecides();
      }
    }

    lemma BaseParts()
      requires Base()
      ensures ref.Valid() && Chunks(stream, dict.size, FirstRef(), chunks) == Next(ref) && feeder.temp.Length == TEMP_SIZE
    {
      hide Chunks, LzmaDec.Core;
    }

    lemma BaseAgain()
      requires feeder.Valid() && ref.Valid() && Chunks(stream, dict.size, FirstRef(), chunks) == Next(ref)
      ensures Base()
    {
      hide Chunks, LzmaDec.Core, LzmaDec.Reaches;
    }

    lemma BodyControl()
      requires InBody()
      ensures Control() >= 0x80 && (Control() >= 0xC0 ==> ValidPropsByte(At(stream, ref.pos + 5)))
    {
    }

    lemma FedBounds(b: XzBuf, chunk: seq<Byte>)
      requires feeder.Fed(chunk, b)
      ensures b.inPos <= |b.input|
    {
    }

    lemma WhereSuspended()
      requires Decoding()
      ensures InBody() && INIT_BYTES <= |ChunkBody()| && ref.pos < |stream| && StartRef().Valid() && lzma.props == StartRef().props
      ensures fed == BodyAt() + |ChunkBody()| - feeder.Due() && feeder.compressed <= |ChunkBody()|
      ensures Stands(ChunkBody(), dict.size, StartRef(), steps, feeder.LzAt(ChunkBody()), Target())
    {
      hide AfterReset, AfterState, BadControl, ValidPropsByte, Stands, LzmaDec.Reaches, Props.Valid, BodyStart, CompressedSize;
    }

    lemma FeederSuspended()
      requires Base() && Decoding()
      ensures feeder.Valid() && feeder.compressed <= |ChunkBody()| && feeder.LzAt(ChunkBody()).Valid()
    {
      hide AfterReset, AfterState, BadControl, ValidPropsByte, Stands, LzmaDec.Reaches, Chunks, Body, InBody, Dict.Valid;
    }

    lemma InputSuspended(b: XzBuf)
      requires Decoding() && Linked(b)
      ensures feeder.Fed(ChunkBody(), b) && b !in feeder.Footprint()
    {
      hide AfterReset, AfterState, BadControl, ValidPropsByte, Stands, LzmaDec.Reaches, Body, InBody, Overlap, Dict.OutputOf;
      BodyOverlaps(stream, BodyAt(), |ChunkBody()|, |ChunkBody()| - feeder.Due(), b.input[b.inPos..]);
    }

    lemma Resumed(b: XzBuf, fed: nat, steps: nat)
      requires InBody() && INIT_BYTES <= |ChunkBody()| && StartRef().Valid() && lzma.props == StartRef().props
      requires feeder.Valid() && feeder.Fed(ChunkBody(), b)
      requires fed == BodyAt() + |ChunkBody()| - feeder.Due()
      requires Stands(ChunkBody(), dict.size, StartRef(), steps, feeder.LzAt(ChunkBody()), Target())
      ensures DecodingAt(fed, steps)
    {
      hide Consistent, Props.Valid, AfterReset, AfterState, Stands, Overlap, LzmaDec.Reaches, InBody;
    }

    /** The chunk is what the reference makes of its body, if all of it is there. */
    lemma BodyDecides()
      requires ref.Valid() && InBody() && Control() >= 0x80 && INIT_BYTES <= |ChunkBody()| && ref.pos < |stream|
      ensures Chunk(stream, dict.size, ref) ==
        if BodyAt() + |ChunkBody()| > |stream| then Reject
        else BodyVerdict(ChunkBody(), dict.size, StartRef(), Target(), BodyAt() + |ChunkBody()|)
    {
      hide Chunk, BodyVerdict, AfterReset, AfterState, BadControl, ValidPropsByte;
      ChunkOfBody(stream, dict.size, ref);
    }

    /** dict_limit and lzma2_lzma; what the caller has already been given stays as it is. */
    method LimitedPass(b: XzBuf) returns (ok: bool)
      requires Common() && Running() && Linked(b)
      modifies `fed, `steps, feeder, feeder.temp, b`inPos, lzma, lzma.probs, rc
      modifies dict`limit, dict`pos, dict`full, dict`hist, dict.buf
      ensures b.out[..b.outPos] == old(b.out[..b.outPos])
      ensures old(dict.hist) <= dict.hist && 0 <= dict.pos - old(dict.pos) <= Min(b.outSize - b.outPos, uncompressed)
      ensures |Now().hist| <= old(|dict.hist|)
      ensures |dict.hist| - |old(dict.hist)| == dict.pos - old(dict.pos)
      ensures dict.pos <= dict.limit
      ensures ok ==> Base() && Decoding() && Linked(b) && old(b.inPos) <= b.inPos && fed - b.inPos == old(fed - b.inPos)
      ensures ok && b.outPos < b.outSize ==>
        old(dict.pos) < dict.pos || old(b.inPos) < b.inPos || (b.inPos == |b.input| && feeder.tempSize < feeder.compressed)
      ensures !ok ==> Says(Reject)
    {
      hide DecodingAt, Chunks, Chunk, AfterReset, Dict.Represents, Props.Valid;
      ghost var hist := dict.hist;
      if dict.single {
        OutputIs(b, hist);
      }
      dict.SetLimit(Min(b.outSize - b.outPos, uncompressed));
      ok := FeedPass(b);
      if dict.single {
        OutputIs(b, hist);
      }
    }

    /** In single-call mode, what the caller has been given is there although the dictionary has gone on in the same
        buffer. */
    lemma OutputIs(b: XzBuf, hist: seq<Byte>)
      requires dict.single && dict.Represents() && dict.OutputOf(b) && b.outPos <= b.out.Length
      requires dict.start <= dict.pos && hist <= dict.hist && |dict.hist| - |hist| == dict.pos - dict.start
      ensures b.out[..b.outPos] == dict.prior + hist
    {
      hide Consistent;
      dict.SingleOutput();
      var (all, n) := (dict.buf[..dict.base + dict.pos], dict.base + dict.start);
      assert all[..n] == b.out[..b.outPos];
      assert |dict.prior| == dict.base;
      assert (dict.prior + dict.hist)[..n] == dict.prior + dict.hist[..|hist|];
    }

    lemma TakenWithin(b: XzBuf)
      requires Supplies(b)
      ensures fed <= |stream|
    {
    }

    /** dict_flush: the new bytes go to the caller and count towards the chunk. */
    method FlushPass(b: XzBuf)
      requires Base() && Decoding() && Linked(b) && (!dict.single ==> dict.end > 0)
      requires dict.pos - dict.start <= Min(b.outSize - b.outPos, uncompressed) && dict.pos - dict.start <= |dict.hist| - |Now().hist|
      requires |dict.hist| + uncompressed - (dict.pos - dict.start) == Target()
      requires out == ref.out + dict.hist[|Now().hist|..|dict.hist| - (dict.pos - dict.start)]
      modifies `uncompressed, `out, dict`start, dict`pos, b`outPos, b.out
      ensures Common() && Decoding() && Linked(b) && |dict.hist| + uncompressed == Target()
      ensures out == ref.out + dict.hist[|Now().hist|..]
      ensures out == old(out) + dict.hist[|dict.hist| - old(dict.pos - dict.start)..] && (old(dict.pos) <= dict.limit ==> dict.pos <= dict.limit)
      ensures b.outPos == old(b.outPos) + old(dict.pos - dict.start)
      ensures b.out[..b.outPos] == old(b.out[..b.outPos]) + dict.hist[|dict.hist| - old(dict.pos - dict.start)..]
    {
      hide Common, Base, DecodingAt, Linked, AfterReset, Now;
      LinkedRoom(b);
      ghost var (hist, n) := (dict.hist, |Now().hist|);
      var copied := FlushDict(b);
      Split(hist, n, |hist| - copied, |hist|);
      Regrouped(ref.out, hist[n..|hist| - copied], hist[|hist| - copied..]);
      uncompressed := uncompressed - copied;
      out := out + hist[|hist| - copied..];
    }

    method FlushDict(b: XzBuf) returns (copied: nat)
      requires Base() && Linked(b) && (!dict.single ==> dict.end > 0)
      requires dict.pos - dict.start <= b.outSize - b.outPos
      modifies dict`start, dict`pos, b`outPos, b.out
      ensures Common() && Linked(b) && copied == old(dict.pos - dict.start) <= |dict.hist|
      ensures b.outPos == old(b.outPos) + copied <= b.out.Length && (old(dict.pos) <= dict.limit ==> dict.pos <= dict.limit)
      ensures b.out[..b.outPos] == old(b.out[..b.outPos]) + dict.hist[|dict.hist| - copied..]
    {
      hide Chunks, Dict.Represents, Props.Valid, Supplies, Bytes.Shl;
      TakenWithin(b);
      copied := dict.Flush(b);
    }

    /** All of the chunk's output is there: it is accepted only when all of its input was used up with nothing left
        over. */
    method FinishChunk() returns (ok: bool)
      requires Common() && Decoding() && |Now().hist| <= |dict.hist| == Target() && out == ref.out + dict.hist[|Now().hist|..]
      modifies `sequence, `ref, `chunks, rc`range, rc`code, rc`initBytesLeft
      ensures ok ==> Common() && AtControl() && sequence == SeqControl
      ensures !ok ==> Says(Reject)
    {
      hide Chunks, Chunk, Dict.Valid, Stands, DecodingAt, AfterState, AfterReset, BadControl, ValidPropsByte;
      Decided();
      if feeder.compressed > 0 || lzma.len > 0 || rc.code != 0 {
        return false;
      }
      ChunksSplit(stream, dict.size, FirstRef(), chunks);
      ref := NextRef();
      chunks := chunks + 1;
      rc.Reset();
      sequence := SeqControl;
      ok := true;
    }

    /** What the reference must say after the chunk if the decoder is right. */
    ghost function NextRef(): Ref
      requires Control() >= 0xC0 ==> ValidPropsByte(At(stream, ref.pos + 5))
      reads `ref, `out, lzma, lzma.probs, dict`hist
    {
      StartRef().(pos := BodyAt() + |ChunkBody()|, out := out, hist := dict.hist, m := lzma.M(), probs := lzma.probs[..])
    }

    lemma Decided()
      requires Common() && Decoding() && |Now().hist| <= |dict.hist| == Target() && out == ref.out + dict.hist[|Now().hist|..]
      ensures Control() >= 0xC0 ==> ValidPropsByte(At(stream, ref.pos + 5))
      ensures Chunk(stream, dict.size, ref) ==
        if feeder.compressed == 0 && lzma.len == 0 && rc.code == 0 then Next(NextRef()) else Reject
      ensures feeder.compressed == 0 && lzma.len == 0 && rc.code == 0 ==>
        && NextRef().Valid() && fed == NextRef().pos && !NextRef().needDict && !NextRef().needProps && feeder.tempSize == 0
        && lzma.Reaches() && lzma.props == NextRef().props && !needDictReset && !needProps
    {
      hide Chunk, BodyVerdict, Dict.Valid, Props.Valid, Stands, ValidPropsByte, LzmaDec.Reaches, PropsOf, FreshProbs, LzCopy;
      BodyDecides();
      LzCopyZero(dict.hist, lzma.rep0);
      StandsAtTarget(ChunkBody(), dict.size, StartRef(), steps, feeder.LzAt(ChunkBody()), Target(), BodyAt() + |ChunkBody()|);
    }

    /** SEQ_LZMA_RUN, once: more says whether the loop goes on. */
    method RunPass(b: XzBuf) returns (ok: bool, more: bool)
      requires Inv() && Linked(b) && sequence == SeqLzmaRun
      modifies `sequence, `uncompressed, `fed, `steps, `out, `ref, `chunks, feeder, feeder.temp, b`inPos, b`outPos, b.out
      modifies lzma, lzma.probs, rc, dict`limit, dict`start, dict`pos, dict`full, dict`hist, dict.buf
      ensures ok ==> Inv() && Linked(b) && old(b.inPos) <= b.inPos && fed - b.inPos == old(fed - b.inPos)
      ensures ok ==> old(b.outPos) <= b.outPos && old(out) <= out
      ensures ok ==> b.out[..b.outPos] == old(b.out[..b.outPos]) + out[|old(out)|..]
      ensures ok ==> dict.pos <= dict.limit
      ensures ok && more ==> old(b.inPos) < b.inPos || old(b.outPos) < b.outPos
      ensures ok && !more ==> sequence == SeqLzmaRun
      ensures ok && !more ==> b.outPos == b.outSize || (b.inPos == |b.input| && feeder.tempSize < feeder.compressed)
      ensures !ok ==> Says(Reject)
    {
      hide Base, DecodingAt, AfterReset, AtControl, Says, Supplies, Dict.OutputOf, BadControl, Chunks, Chunk, CompressedSize, UncompressedSize, Body;
      more := true;
      ok := LimitedPass(b);
      if !ok {
        return;
      }
      FlushPass(b);
      if uncompressed == 0 {
        ok := FinishChunk();
      } else if b.outPos == b.outSize || (b.inPos == |b.input| && feeder.tempSize < feeder.compressed) {
        more := false;
      }
    }

    /** SEQ_COPY, once. */
    method CopyPass(b: XzBuf) returns (more: bool)
      requires Inv() && Linked(b) && sequence == SeqCopy
      modifies `sequence, `fed, `out, `ref, `chunks, feeder`compressed, b`inPos, b`outPos, b.out
      modifies dict`start, dict`pos, dict`full, dict`hist, dict.buf
      ensures Inv() && Linked(b) && old(b.inPos) <= b.inPos && fed - b.inPos == old(fed - b.inPos)
      ensures old(b.outPos) <= b.outPos && old(out) <= out
      ensures b.out[..b.outPos] == old(b.out[..b.outPos]) + out[|old(out)|..]
      ensures more ==> old(b.inPos) < b.inPos
      ensures !more ==> sequence == SeqCopy && (b.inPos == |b.input| || b.outPos == b.outSize)
      ensures dict.pos == old(dict.Advanced(dict.Copyable(b, feeder.compressed)))
      ensures dict.pos <= dict.limit <==> old(dict.Advanced(dict.Copyable(b, feeder.compressed))) <= dict.limit
      ensures b.inPos == old(b.inPos + dict.Copyable(b, feeder.compressed)) && dict.hist == old(dict.hist) + out[|old(out)|..]
    {
      hide Chunks, Chunk, AfterReset, CopyState, AtControl, CopiedTo, Base, Dict.OutputOf;
      CopySome(b);
      more := feeder.compressed == 0;
      if more {
        FinishCopy();
      }
    }

    method CopySome(b: XzBuf)
      requires Common() && Copying() && feeder.compressed > 0 && Linked(b)
      modifies `fed, `out, feeder`compressed, b`inPos, b`outPos, b.out
      modifies dict`start, dict`pos, dict`full, dict`hist, dict.buf
      ensures Common() && Copying() && Linked(b) && old(b.inPos) <= b.inPos && fed - b.inPos == old(fed - b.inPos)
      ensures old(b.outPos) <= b.outPos && old(out) <= out
      ensures b.out[..b.outPos] == old(b.out[..b.outPos]) + out[|old(out)|..]
      ensures feeder.compressed == 0 ==> old(b.inPos) < b.inPos
      ensures feeder.compressed > 0 ==> b.inPos == |b.input| || b.outPos == b.outSize
      ensures dict.pos == old(dict.Advanced(dict.Copyable(b, feeder.compressed)))
      ensures b.inPos == old(b.inPos + dict.Copyable(b, feeder.compressed)) && dict.hist == old(dict.hist) + out[|old(out)|..]
    {
      hide Chunks, Chunk, AfterReset, RcFresh, ModelIs, Dict.Valid, Dict.OutputOf, Props.Valid, CopiedTo, BadControl;
      ghost var (inPos, out0, hist) := (b.inPos, out, dict.hist);
      var left := dict.Uncompressed(b, feeder.compressed);
      ghost var moved := b.inPos - inPos;
      Advance(b.input, inPos, stream, fed, moved);
      CopiedMore(ref, stream, fed, feeder.compressed, hist, out, moved);
      out := out + stream[fed..fed + moved];
      fed := fed + moved;
      feeder.compressed := left;
    }

    method FinishCopy()
      requires Common() && Copying() && feeder.compressed == 0
      modifies `sequence, `ref, `chunks
      ensures Common() && AtControl() && sequence == SeqControl
    {
      hide Chunks, Chunk, LzmaDec.Reaches, RcFresh, Dict.Valid;
      CopyDecided();
      ChunksSplit(stream, dict.size, FirstRef(), chunks);
      ref := Chunk(stream, dict.size, ref).ref;
      chunks := chunks + 1;
      sequence := SeqControl;
    }

    lemma CopyDecided()
      requires Common() && Copying() && feeder.compressed == 0
      ensures Chunk(stream, dict.size, ref) == Next(Now().(pos := fed, out := out, hist := dict.hist))
    {
      hide Chunks, LzmaDec.Reaches, RcFresh, ModelIs, Dict.Valid;
    }

    /** The caller's output is what it was when this decoder had produced n bytes, and all that was produced since. */
    ghost predicate Wrote(b: XzBuf, before: seq<Byte>, n: nat)
      reads `out, b, b.out
    {
      && n <= |out| && |before| <= b.outPos <= b.out.Length
      && b.out[..b.outPos] == before + out[n..]
    }

    lemma WroteNone(b: XzBuf)
      requires b.Valid()
      ensures Wrote(b, b.out[..b.outPos], |out|)
    {
    }

    /** The states that read a header: one byte is taken, and nothing produced. */
    method HeaderPass(b: XzBuf) returns (ret: XzRet)
      requires Inv() && Linked(b) && b.inPos < |b.input|
      requires sequence !in {SeqProperties, SeqLzmaPrepare, SeqLzmaRun, SeqCopy}
      modifies `sequence, `nextSequence, `uncompressed, `needDictReset, `needProps, `fed, b`inPos, feeder`compressed
      modifies dict, lzma`state, lzma`rep0, lzma`rep1, lzma`rep2, lzma`rep3, lzma`len, lzma.probs
      modifies rc`range, rc`code, rc`initBytesLeft
      ensures b.inPos == old(b.inPos) + 1 && fed == old(fed) + 1 && dict.size == old(dict.size) && dict.buf == old(dict.buf)
      ensures ret == XzOk ==> Inv() && Linked(b)
      ensures ret == XzStreamEnd ==> Says(End(fed)) && out == ref.out && Linked(b)
      ensures ret == XzDataError ==> Says(Reject)
      ensures (dict.pos, dict.limit) in {old((dict.pos, dict.limit)), (0, 0)}
    {
      hide Inv, Linked, Says;
      ret := XzOk;
      match sequence {
        case SeqControl =>
          ret := ReadControl(b);
        case SeqUncompressed1 =>
          ReadUncompressed(b);
        case SeqUncompressed2 =>
          ReadUncompressed(b);
        case SeqCompressed0 =>
          ReadCompressedHigh(b);
        case SeqCompressed1 =>
          ReadCompressedLow(b);
      }
    }

    /** One pass of the loop, with the cases that fall through into the next one. The position stays at most the write
        limit in all states but one; a stored chunk carries it past the limit exactly if it reaches so far. */
    method Pass(b: XzBuf) returns (ret: XzRet, more: bool)
      requires Inv() && Linked(b) && (b.inPos < |b.input| || sequence == SeqLzmaRun)
      modifies this, feeder, feeder.temp, b`inPos, b`outPos, b.out, lzma, lzma.probs, rc, dict, dict.buf
      ensures ret == XzOk ==> Inv()
      ensures ret != XzDataError ==> Linked(b) && fed - b.inPos == old(fed - b.inPos) && old(b.inPos) <= b.inPos
      ensures ret != XzDataError ==> Wrote(b, old(b.out[..b.outPos]), |old(out)|) && old(out) <= out
      ensures ret == XzOk && more ==> old(b.inPos) < b.inPos || old(b.outPos) < b.outPos
      ensures ret == XzOk && !more ==> Done(b)
      ensures ret == XzStreamEnd ==> Says(End(fed)) && out == ref.out
      ensures ret == XzDataError ==> Says(Reject)
      ensures ret == XzOk && old(sequence != SeqCopy && dict.pos <= dict.limit) ==> dict.pos <= dict.limit
      ensures ret == XzOk && old(sequence == SeqCopy) ==>
        (dict.pos <= dict.limit <==> old(dict.Advanced(dict.Copyable(b, feeder.compressed)) <= dict.limit))
      ensures dict.size == old(dict.size) && dict.buf == old(dict.buf)
    {
      hide Inv, Says, Dict.OutputOf;
      WroteNone(b);
      ret, more := XzOk, true;
      if sequence == SeqCopy {
        more := CopyPass(b);
        return;
      }
      if sequence != SeqProperties && sequence != SeqLzmaPrepare && sequence != SeqLzmaRun {
        ret := HeaderPass(b);
        return;
      }
      ret, more := LzmaPass(b);
    }

    /** The states of an LZMA chunk that fall through into the next one. */
    method LzmaPass(b: XzBuf) returns (ret: XzRet, more: bool)
      requires Inv() && Linked(b) && (b.inPos < |b.input| || sequence == SeqLzmaRun)
      requires sequence in {SeqProperties, SeqLzmaPrepare, SeqLzmaRun}
      modifies this, feeder, feeder.temp, b`inPos, b`outPos, b.out, lzma, lzma.probs, rc
      modifies dict`limit, dict`start, dict`pos, dict`full, dict`hist, dict.buf
      ensures ret == XzOk ==> Inv() && Linked(b) && fed - b.inPos == old(fed - b.inPos) && old(b.inPos) <= b.inPos
      ensures ret == XzOk ==> Wrote(b, old(b.out[..b.outPos]), |old(out)|) && old(out) <= out
      ensures ret == XzOk && more ==> old(b.inPos) < b.inPos || old(b.outPos) < b.outPos
      ensures ret == XzOk && !more ==> Done(b)
      ensures ret == XzDataError ==> Says(Reject)
      ensures ret == XzOk && old(dict.pos <= dict.limit) ==> dict.pos <= dict.limit
      ensures ret != XzStreamEnd
    {
      hide Inv, Says, Dict.OutputOf;
      WroteNone(b);
      more := true;
      var ok := true;
      if sequence == SeqProperties {
        ok := ReadProperties(b);
      }
      if ok && sequence == SeqLzmaPrepare {
        ok := Prepare(b);
      }
      if ok && sequence == SeqLzmaRun {
        ok, more := RunPass(b);
      }
      ret := if ok then XzOk else XzDataError;
    }

    /** Nothing more can be done for now: the output is full inside the data of a chunk, or all input was taken
        without completing what is being read. */
    ghost predicate Done(b: XzBuf)
      reads `sequence, feeder, b
    {
      || (b.outPos == b.outSize && sequence in {SeqLzmaRun, SeqCopy})
      || (b.inPos == |b.input| && Starved())
    }

    lemma LinkedRoom(b: XzBuf)
      requires Linked(b)
      ensures b.inPos <= |b.input| && b.outPos <= b.outSize <= b.out.Length
      ensures b !in Parts() && b as object != this && b.out as object != lzma.probs && b.out != feeder.temp
    {
    }

    lemma WroteMore(b: XzBuf, before: seq<Byte>, n: nat, mid: seq<Byte>, was: seq<Byte>)
      requires n <= |was| && mid == before + was[n..] && was <= out && Wrote(b, mid, |was|)
      ensures Wrote(b, before, n)
    {
    }

    /** A verdict on the present chunk is one on the stream. */
    lemma Concludes(v: Verdict)
      requires Says(v)
      ensures v == Reject ==> Refuses(stream, dict.size)
      ensures v.End? ==> Accepts(stream, dict.size, ref.out, v.pos)
    {
      hide Chunks, Chunk;
      ChunksSplit(stream, dict.size, FirstRef(), chunks);
      if v.End? {
        assert AcceptsAfter(stream, dict.size, chunks, ref.out, v.pos);
      }
    }

    /** Inside an LZMA chunk, not all of it is there. */
    ghost predicate Starved()
      reads `sequence, feeder
    {
      sequence == SeqLzmaRun ==> feeder.tempSize < feeder.compressed
    }

    /** All of the stream was taken and the decoder waits for more of it: the stream is cut short. */
    lemma CutShort()
      requires Inv() && fed == |stream| && Starved()
      ensures Says(Reject)
    {
      hide Chunks, BodyVerdict, BadControl, ValidPropsByte, RcFresh, LzmaDec.Reaches, ModelIs, AfterState, Dict.Valid, Stands;
    }

    /** Short of the end of a well-formed stream some of it has not been taken, and inside the data of a chunk some of
        the text has not been produced. */
    lemma StillShort(text: seq<Byte>, used: nat)
      requires Inv() && Accepts(stream, dict.size, text, used)
      ensures fed < used && |out| <= |text|
      ensures sequence in {SeqLzmaRun, SeqCopy} ==> |out| < |text|
    {
      hide Chunks, Chunk, Accepts, BodyVerdict, BadControl, ValidPropsByte, RcFresh, LzmaDec.Reaches, ModelIs, AfterState,
           Dict.Valid, Stands, CompressedSize, UncompressedSize, Body;
      StillToCome(stream, dict.size, chunks, ref, text, used);
      if Chunk(stream, dict.size, ref).Next? {
        ChunkExtent(stream, dict.size, ref);
        if sequence == SeqLzmaRun {
          assert |out| == |ref.out| + (|dict.hist| - |Now().hist|);
        } else if sequence == SeqCopy {
          assert |out| == |ref.out| + (CompressedSize(stream, ref.pos + 1) - feeder.compressed);
        }
      } else {
        MarkerOnly();
      }
    }

    /** In the header of a chunk stored as it is, the bytes taken say which state comes next. */
    lemma InStoredHeader()
      requires Inv() && Control() == 1 && fed > ref.pos
      ensures fed == ref.pos + 1 ==> sequence == SeqCompressed0
      ensures fed == ref.pos + 2 ==> sequence == SeqCompressed1
      ensures fed == ref.pos + 3 ==> sequence == SeqCopy
      ensures sequence == SeqCopy ==> feeder.compressed == CompressedSize(stream, ref.pos + 1) - (fed - ref.pos - 3)
      ensures sequence in {SeqCompressed0, SeqCompressed1, SeqCopy}
    {
      hide Common, ModelIs, RcFresh, LzmaDec.Reaches, BadControl;
    }

    // ------------------------------------------- a full dictionary and an output elsewhere

    /** A single-call decoder that has stopped with its dictionary full. */
    ghost predicate Full(b: XzBuf)
      reads Heap(), dict.buf, b
    {
      && Objects() && dict.Valid() && dict.single && dict.start == dict.pos == dict.end && b.Valid()
      && match sequence
         case SeqLzmaRun => uncompressed > 0 && feeder.Valid() && feeder.Fed(ChunkBody(), b)
         case SeqCopy => feeder.compressed > 0
         case _ => b.inPos == |b.input|
    }

    /** It is given room, but in a buffer that is not its dictionary. */
    ghost predicate Elsewhere(b: XzBuf)
      reads Heap(), dict.buf, b
    {
      && Full(b) && b.outPos < b.outSize
      && b !in Heap() && b.out != feeder.temp && b.out as object != lzma.probs
    }

    lemma FullStop(b: XzBuf)
      requires Inv() && Linked(b) && Done(b) && dict.single && b.outPos == b.outSize
      ensures Full(b)
    {
      hide Chunks, AfterReset, AfterState, CopyState, CopiedTo, RcFresh, ModelIs, LzmaDec.Reaches, Dict.Valid, Feeder.Valid, Feeder.Fed,
           Supplies, Decoding, Preparing, InHeader, InCopyHeader, AtControl;
      if sequence == SeqLzmaRun {
        FeederSuspended();
        InputSuspended(b);
      }
    }

    lemma FullWindow(b: XzBuf)
      requires Full(b)
      ensures dict.single && dict.start == dict.pos == dict.full == dict.end && dict.limit <= dict.end
      ensures dict.Valid() && dict.base + dict.end <= dict.buf.Length && |dict.hist| == dict.pos
    {
      hide Feeder.Valid, Feeder.Fed, Ring;
    }

    /** What its dictionary holds does not matter to it any more. */
    twostate lemma StillFull(b: XzBuf)
      requires old(Full(b)) && dict.Valid() && |dict.hist| == old(|dict.hist|)
      requires unchanged(this, feeder, feeder.temp, lzma, lzma.probs, rc, b`input, b`inPos) && b.Valid()
      requires unchanged(dict`buf, dict`start, dict`pos, dict`full, dict`limit, dict`end, dict`size)
      ensures Full(b)
    {
      hide Dict.Represents, Overlap, Props.Valid, Bytes.Shl;
    }

    /** Given all of a well-formed stream, a decoder that has stopped short of its end has no room left, and input that
        it will never take. */
    lemma WholeStuck(b: XzBuf, text: seq<Byte>, used: nat)
      requires Inv() && Supplies(b) && Done(b) && Accepts(stream, dict.size, text, used) && used <= Reach(b)
      ensures b.outPos == b.outSize && Stuck(b) && |out| < |text|
    {
      hide Accepts, Supplies;
      StillShort(text, used);
      if sequence == SeqLzmaRun {
        RunEnds(text, used);
      }
    }

    /** What is left of an LZMA chunk ends before the stream does. */
    lemma RunEnds(text: seq<Byte>, used: nat)
      requires Inv() && sequence == SeqLzmaRun && Accepts(stream, dict.size, text, used)
      ensures fed + feeder.Due() < used && feeder.tempSize <= feeder.compressed
    {
      hide Chunks, Chunk, Accepts, BodyVerdict, BadControl, ValidPropsByte, RcFresh, LzmaDec.Reaches, ModelIs, AfterState,
           Dict.Valid, Stands, Body;
      StillToCome(stream, dict.size, chunks, ref, text, used);
      if Chunk(stream, dict.size, ref).Next? {
        ChunkExtent(stream, dict.size, ref);
      } else {
        MarkerOnly();
      }
    }

    /** There is input that will never be taken. */
    predicate Stuck(b: XzBuf)
      reads `sequence, feeder`compressed, feeder`tempSize, b`input, b`inPos
    {
      var available := |b.input| - b.inPos;
      match sequence
      case SeqLzmaRun => feeder.compressed - feeder.tempSize <= available || feeder.tempSize + available >= IN_REQUIRED
      case SeqCopy => available > 0
      case _ => false
    }

    /** SEQ_LZMA_RUN, once, with nothing to decode into: at most a last few input bytes are saved. With input that will
        never be taken the loop goes on, and there still is such input, so it never ends; otherwise it ends now. */
    method PassElsewhere(b: XzBuf) returns (more: bool)
      requires Elsewhere(b) && sequence == SeqLzmaRun
      modifies `uncompressed, feeder, feeder.temp, b`inPos, b`outPos, lzma, lzma.probs, rc
      modifies dict`limit, dict`start, dict`pos, dict`full, dict`hist, dict.buf
      ensures Elsewhere(b) && b.outPos == old(b.outPos) && dict.buf[..] == old(dict.buf[..])
      ensures more <==> old(Stuck(b))
      ensures more <==> Stuck(b)
      ensures !more ==> b.inPos == |b.input|
      ensures b.inPos == old(b.inPos + feeder.Saved(b)) && feeder.tempSize == old(feeder.tempSize + feeder.Saved(b))
      ensures unchanged(`uncompressed, lzma, lzma.probs, rc`range, rc`code, feeder`compressed)
      ensures unchanged(dict`start, dict`pos, dict`full, dict`hist)
    {
      hide Elsewhere;
      WaitsElsewhere(b);
      FeedElsewhere(b);
      WaitsElsewhere(b);
      FlushElsewhere(b);
      more := b.outPos < b.outSize && !(b.inPos == |b.input| && feeder.tempSize < feeder.compressed);
    }

    /** dict_limit and lzma2_lzma */
    method FeedElsewhere(b: XzBuf)
      requires Elsewhere(b) && sequence == SeqLzmaRun
      modifies feeder, feeder.temp, b`inPos, lzma, lzma.probs, rc
      modifies dict`limit, dict`pos, dict`full, dict`hist, dict.buf
      ensures Elsewhere(b) && dict.buf[..] == old(dict.buf[..])
      ensures b.inPos == old(b.inPos + feeder.Saved(b)) && feeder.tempSize == old(feeder.tempSize + feeder.Saved(b))
      ensures unchanged(lzma, lzma.probs, rc`range, rc`code, feeder`compressed)
      ensures unchanged(dict`pos, dict`full, dict`hist)
    {
      hide Dict.Represents, LzmaDec.Reaches, Run, Below, LzCopy, Overlap, Props.Valid, Bytes.Shl;
      dict.SetLimit(Min(b.outSize - b.outPos, uncompressed));
      var _, _ := feeder.Feed(b, ChunkBody());
    }

    /** dict_flush finds nothing new. */
    method FlushElsewhere(b: XzBuf)
      requires Elsewhere(b) && sequence == SeqLzmaRun
      modifies `uncompressed, dict`start, b`outPos
      ensures Elsewhere(b) && unchanged(`uncompressed, dict`start, b`outPos)
    {
      hide Dict.Represents, LzmaDec.Reaches, Overlap, Props.Valid, Bytes.Shl;
      var copied := dict.pos - dict.start;
      dict.start := dict.pos;
      b.outPos := b.outPos + copied;
      uncompressed := uncompressed - copied;
    }

    /** SEQ_COPY with nothing to copy into: once round the loop of dict_uncompressed nothing has changed, and it goes
        round again. */
    method CopyElsewhere(b: XzBuf)
      requires Elsewhere(b) && sequence == SeqCopy && b.inPos < |b.input|
      modifies feeder`compressed, dict`pos, dict`start, b`inPos, b`outPos
      ensures Elsewhere(b) && unchanged(feeder, dict, b)
      ensures feeder.compressed > 0 && b.inPos < |b.input| && b.outPos < b.outSize
    {
      var n := Min(Min(|b.input| - b.inPos, b.outSize - b.outPos), Min(dict.end - dict.pos, feeder.compressed));
      feeder.compressed := feeder.compressed - n;
      dict.pos := dict.pos + n;
      dict.start := dict.pos;
      b.outPos := b.outPos + n;
      b.inPos := b.inPos + n;
    }

    /** Unless there is input that will never be taken, all input was taken, or will be in a pass. */
    lemma WaitsElsewhere(b: XzBuf)
      requires Elsewhere(b)
      ensures b.inPos <= |b.input| && b.outPos < b.outSize
      ensures sequence != SeqLzmaRun && !Stuck(b) ==> b.inPos == |b.input|
      ensures sequence == SeqLzmaRun ==> feeder.tempSize <= feeder.compressed && feeder.tempSize < IN_REQUIRED
    {
      hide Feeder.Fed, Objects, LzmaDec.Core;
    }

    /** xz_dec_lzma2_run: it never returns if there is input that will never be taken, because once round its loop, or
        that of dict_uncompressed, there still is. Otherwise it returns XZ_OK. */
    method RunElsewhere(b: XzBuf) returns (more: bool)
      requires Elsewhere(b)
      modifies `uncompressed, feeder, feeder.temp, b`inPos, b`outPos, lzma, lzma.probs, rc
      modifies dict`limit, dict`start, dict`pos, dict`full, dict`hist, dict.buf
      ensures Elsewhere(b) && b.outPos == old(b.outPos) && dict.buf[..] == old(dict.buf[..])
      ensures more <==> old(Stuck(b))
      ensures more <==> Stuck(b)
      ensures !more ==> b.inPos == |b.input|
    {
      hide Elsewhere, Full;
      WaitsElsewhere(b);
      more := b.inPos < |b.input| || sequence == SeqLzmaRun;
      if sequence == SeqLzmaRun {
        more := PassElsewhere(b);
      } else if more {
        CopyElsewhere(b);
      }
    }

    /** What the loop does with a dictionary reset and one byte stored as it is. */
    method StoreOne(b: XzBuf)
      requires Inv() && Linked(b) && stream == [1, 0, 0, 7] && fed == b.inPos == 0 && |b.input| == 4 && b.outPos < b.outSize
      requires sequence == SeqControl && ref == FirstRef() && out == [] && dict.pos == dict.limit == 0
      requires dict.single || dict.end > 1
      modifies Heap(), dict.buf, b`inPos, b`outPos, b.out
      ensures Inv() && fed == 4 && dict.limit == 0 && dict.pos == 1
    {
      hide Chunk, Chunks, Inv, Linked;
      OneByteChunk(dict.size);
      LinkedRoom(b);
      var ret := ReadControl(b);
      assert ret == XzOk;
      InStoredHeader();
      StoreRest(b);
    }

    /** The size and the byte. */
    method StoreRest(b: XzBuf)
      requires Inv() && Linked(b) && stream == [1, 0, 0, 7] && fed == b.inPos == 1 && |b.input| == 4 && b.outPos < b.outSize
      requires sequence == SeqCompressed0 && ref == FirstRef() && dict.pos == dict.limit == 0 && (dict.single || dict.end > 1)
      modifies Heap(), dict.buf, b`inPos, b`outPos, b.out
      ensures Inv() && fed == 4 && dict.limit == 0 && dict.pos == 1
    {
      hide Chunk, Chunks, Inv, Linked;
      InStoredHeader();
      ReadCompressedHigh(b);
      InStoredHeader();
      ReadCompressedLow(b);
      InStoredHeader();
      var _ := CopyPass(b);
    }

    lemma MarkerOnly()
      requires ref.Valid() && Chunk(stream, dict.size, ref).End?
      ensures Control() == 0 && Chunk(stream, dict.size, ref) == End(ref.pos + 1)
    {
    }

    /** How far the input reaches, and how much output there is room for in all. */
    ghost function Reach(b: XzBuf): int
      reads `fed, b
    {
      fed + (|b.input| - b.inPos)
    }

    ghost function Most(b: XzBuf): int
      reads `out, b
    {
      |out| + (b.outSize - b.outPos)
    }

    /** xz_dec_lzma2_run: however the stream is cut into input buffers and whatever room the output buffers have,
        what is written is the next part of the one output of the whole stream, and the verdict is the reference's. It
        comes to the end exactly when it is given what is left of a well-formed stream and room for just its text. */
    method DecodeMore(b: XzBuf) returns (ret: XzRet)
      requires Inv() && Linked(b)
      modifies Heap(), dict.buf, b`inPos, b`outPos, b.out
      ensures ret == XzOk ==> Inv() && Done(b)
      ensures ret == XzOk && fed == |stream| && b.outPos < b.outSize ==> Refuses(stream, dict.size)
      ensures ret != XzDataError ==> Linked(b) && fed - b.inPos == old(fed - b.inPos) && old(b.inPos) <= b.inPos
      ensures ret != XzDataError ==> Wrote(b, old(b.out[..b.outPos]), |old(out)|) && old(out) <= out
      ensures ret == XzStreamEnd ==> Accepts(stream, dict.size, out, fed)
      ensures ret == XzStreamEnd <==> EndsWithin(stream, dict.size, old(Reach(b)), old(Most(b)))
      ensures ret == XzDataError ==> Refuses(stream, dict.size)
      ensures dict.size == old(dict.size) && dict.buf == old(dict.buf)
    {
      hide Inv, Accepts, Refuses, Linked, Done;
      LinkedRoom(b);
      ghost var (reach, most) := (Reach(b), Most(b));
      ret := DecodeAll(b);
      if ret != XzDataError {
        LinkedRoom(b);
      }
      if ret == XzStreamEnd {
        assert fed <= reach && |out| <= most;
      } else if EndsWithin(stream, dict.size, reach, most) {
        ghost var text: seq<Byte>, used: nat :| Accepts(stream, dict.size, text, used) && used <= reach && |text| <= most;
        NotYet(b, ret, text, used);
      }
    }

    /** A decoder that has stopped without having come to the end was given too little. */
    lemma NotYet(b: XzBuf, ret: XzRet, text: seq<Byte>, used: nat)
      requires Accepts(stream, dict.size, text, used)
      requires ret == XzOk ==> Inv() && Done(b) && b.inPos <= |b.input|
      requires ret == XzDataError ==> Refuses(stream, dict.size)
      requires ret != XzStreamEnd
      ensures ret == XzOk && (used > Reach(b) || |text| > Most(b))
    {
      hide Accepts, Refuses, Inv;
      OneVerdict(stream, dict.size, text, used, text, used);
      if ret == XzOk {
        StillShort(text, used);
      }
    }

    /** The loop. */
    method DecodeAll(b: XzBuf) returns (ret: XzRet)
      requires Inv() && Linked(b)
      modifies Heap(), dict.buf, b`inPos, b`outPos, b.out
      ensures ret == XzOk ==> Inv() && Done(b)
      ensures ret == XzOk && fed == |stream| && b.outPos < b.outSize ==> Refuses(stream, dict.size)
      ensures ret != XzDataError ==> Linked(b) && fed - b.inPos == old(fed - b.inPos) && old(b.inPos) <= b.inPos
      ensures ret != XzDataError ==> Wrote(b, old(b.out[..b.outPos]), |old(out)|) && old(out) <= out
      ensures ret == XzStreamEnd ==> Accepts(stream, dict.size, out, fed)
      ensures ret == XzDataError ==> Refuses(stream, dict.size)
      ensures dict.size == old(dict.size) && dict.buf == old(dict.buf)
    {
      hide Inv, Says, Dict.OutputOf, Linked;
      LinkedRoom(b);
      ghost var (before, n, offset) := (b.out[..b.outPos], |out|, fed - b.inPos);
      WroteNone(b);
      while b.inPos < |b.input| || sequence == SeqLzmaRun
        invariant Inv() && Linked(b) && fed - b.inPos == offset && old(b.inPos) <= b.inPos && dict.size == old(dict.size) && dict.buf == old(dict.buf)
        invariant Wrote(b, before, n) && old(out) <= out && b.inPos <= |b.input| && b.outPos <= b.outSize <= b.out.Length
        decreases b.outSize - b.outPos + |b.input| - b.inPos
      {
        ghost var (mid, was) := (b.out[..b.outPos], out);
        var more;
        ret, more := Pass(b);
        if ret == XzDataError {
          Concludes(Reject);
          return;
        }
        LinkedRoom(b);
        WroteMore(b, before, n, mid, was);
        if ret == XzStreamEnd {
          Concludes(End(fed));
          return;
        }
        if !more {
          break;
        }
      }
      ret := XzOk;
      if fed == |stream| && b.outPos < b.outSize {
        assert Done(b);
        CutShort();
        Concludes(Reject);
      }
    }
  }

  // ------------------------------------------------------- the dictionary size byte

  const PROPS_MAX := 39

  function DictSize(props: Byte): nat {
    Shl(2 + props % 2, props / 2 + 11)
  }

  /** The sizes grow with the byte, from 4 KiB and 6 KiB to 3 GiB, twice as much with every second step, and are whole
      multiples of what position bits count in. */
  lemma DictSizes(props: Byte)
    requires props <= 39
    ensures 0x1000 <= DictSize(props) <= 0xC000_0000 && DictSize(props) % 16 == 0
    ensures props > 0 ==> DictSize(props - 1) < DictSize(props)
    ensures if props == 0 then DictSize(props) == 0x1000 else if props == 1 then DictSize(props) == 0x1800
            else DictSize(props) == 2 * DictSize(props - 2)
    ensures props == 39 ==> DictSize(props) == 0xC000_0000
  {
    hide Bytes.Shl;
    var (y, n) := (2 + props % 2, props / 2 + 11);
    SizeEnds();
    SizeMultiple(y, n - 4);
    ShlLonger(2, 11, n);
    ShlMonotone(2, y, n);
    ShlLonger(3, n, 30);
    ShlMonotone(y, 3, n);
    SizeSteps(n);
    if props > 0 && props % 2 == 0 {
      SizeSteps(n - 1);
    }
    if props >= 2 {
      assert (props - 2) / 2 + 11 == n - 1 && (props - 2) % 2 == props % 2;
      ShlTwice(y, n - 1);
    }
  }

  lemma SizeMultiple(y: nat, n: nat)
    ensures Shl(y, n + 4) % 16 == 0
  {
    hide Bytes.Shl;
    ShlShl(y, n, 4);
    ShlFour(Shl(y, n));
  }

  lemma SizeSteps(n: nat)
    ensures Shl(2, n) < Shl(3, n) < Shl(2, n + 1)
  {
    hide Bytes.Shl;
    ShlAdd(2, 1, n);
    ShlAdd(3, 1, n);
    ShlTwice(2, n);
  }

  lemma SixShifts(x: nat)
    ensures Shl(x, 6) == 64 * x
  {
    ShlShl(x, 4, 2);
    ShlFour(x);
    assert Shl(16 * x, 2) == Shl(32 * x, 1) == Shl(64 * x, 0);
  }

  lemma SizeEnds()
    ensures Shl(2, 11) == 0x1000 && Shl(3, 11) == 0x1800 && Shl(3, 30) == 0xC000_0000
  {
    ShlEight(3, 3);
    assert Shl(0x300, 3) == Shl(0x600, 2) == Shl(0xC00, 1) == 0x1800;
    ShlEight(2, 3);
    assert Shl(0x200, 3) == Shl(0x400, 2) == Shl(0x800, 1) == 0x1000;
    ShlEight(3, 22);
    ShlEight(0x300, 14);
    ShlEight(0x3_0000, 6);
    SixShifts(0x300_0000);
  }

  datatype Creation = OptionsError | MemlimitError | Made(decoder: Lzma2Dec)

  /** xz_dec_lzma2_create and xz_dec_lzma2_reset for a decoder with its own dictionary of at most sizeMax bytes. */
  method Create(ghost stream: seq<Byte>, props: Byte, sizeMax: nat) returns (r: Creation)
    ensures r.OptionsError? <==> props > 39
    ensures r.MemlimitError? <==> props <= 39 && DictSize(props) > sizeMax
    ensures r.Made? ==> r.decoder.Inv() && r.decoder.stream == stream && r.decoder.dict.size == DictSize(props) <= sizeMax
    ensures r.Made? ==> !r.decoder.dict.single && r.decoder.fed == 0 && r.decoder.out == []
  {
    if props > PROPS_MAX {
      return OptionsError;
    }
    DictSizes(props);
    if DictSize(props) > sizeMax {
      return MemlimitError;
    }
    var d := new Lzma2Dec.Multi(stream, DictSize(props));
    r := Made(d);
  }

  /** The position may pass the write limit: with that stream it stands at one and the limit at zero, in a decoder with
      its own dictionary and in a single-call one. */
  method LimitPassed(dictSize: nat) returns (d: Lzma2Dec)
    requires dictSize % 16 == 0 && dictSize > 1
    ensures !d.dict.single
    ensures d.Inv() && d.stream == [1, 0, 0, 7] && d.fed == 4 && d.dict.limit == 0 && d.dict.pos == 1
  {
    hide Chunk, Chunks, Lzma2Dec.Inv;
    var out := new Byte[1];
    var stream: seq<Byte> := [1, 0, 0, 7];
    var b := new XzBuf(stream, out);
    d := new Lzma2Dec.Multi(stream, dictSize);
    assert stream[0..|stream|] == stream && d.Supplies(b);
    assert d.Linked(b);
    d.StoreOne(b);
  }

  method LimitPassedSingle(dictSize: nat) returns (d: Lzma2Dec)
    ensures d.dict.single
    ensures d.Inv() && d.stream == [1, 0, 0, 7] && d.fed == 4 && d.dict.limit == 0 && d.dict.pos == 1
  {
    hide Chunk, Chunks, Lzma2Dec.Inv;
    var out := new Byte[1];
    var stream: seq<Byte> := [1, 0, 0, 7];
    var b := new XzBuf(stream, out);
    d := new Lzma2Dec.Single(stream, dictSize, b);
    assert stream[0..|stream|] == stream && d.Supplies(b);
    assert d.Linked(b);
    d.StoreOne(b);
  }
}
