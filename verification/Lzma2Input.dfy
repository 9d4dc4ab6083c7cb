/** How a chunk's bytes reach the decoder: directly from the caller's buffer while there is plenty, and through a
    small buffer of leftovers when there is not. */
module Lzma2Input {
  import opened Bytes
  import opened RangeCoder
  import opened Consumption
  import opened LzmaModel
  import opened LzmaChunk
  import opened LzmaPieces
  import opened Dictionary
  import opened RangeDecoder
  import opened LzmaDecoder

  const TEMP_SIZE := 63

  /** One of the two is a prefix of the other. */
  ghost predicate Overlap(given: seq<Byte>, next: seq<Byte>) {
    given[..Min(|given|, |next|)] == next[..Min(|given|, |next|)]
  }

  lemma OverlapDrop(given: seq<Byte>, next: seq<Byte>, d: nat)
    requires Overlap(given, next) && d <= |given| && d <= |next|
    ensures Overlap(given[d..], next[d..]) && given[..d] == next[..d]
  {
  }

  class Feeder {
    const lzma: LzmaDec
    const temp: array<Byte>
    var tempSize: nat

    /** Bytes of the chunk not yet consumed by the decoder; those in temp are among them. */
    var compressed: nat

    constructor (lzma: LzmaDec)
      ensures this.lzma == lzma && fresh(temp) && temp.Length == TEMP_SIZE && tempSize == compressed == 0
    {
      this.lzma := lzma;
      temp := new Byte[TEMP_SIZE](_ => 0);
      tempSize, compressed := 0, 0;
    }

    ghost predicate Valid()
      reads this, lzma, lzma.rc, lzma.dict, lzma.dict.buf, lzma.probs
    {
      && lzma.Valid() && TOP_VALUE <= lzma.rc.range
      && temp.Length == TEMP_SIZE && temp != lzma.dict.buf && temp as object != lzma.probs
      && tempSize <= compressed && tempSize < IN_REQUIRED
    }

    /** What is in temp and what the caller has next are the next bytes of the chunk. */
    ghost predicate Fed(chunk: seq<Byte>, b: XzBuf)
      reads this, temp, b
    {
      && compressed <= |chunk| && tempSize <= compressed && tempSize <= temp.Length && b.Valid()
      && temp[..tempSize] == chunk[|chunk| - compressed..|chunk| - compressed + tempSize]
      && Overlap(b.input[b.inPos..], chunk[|chunk| - compressed + tempSize..])
    }

    /** The state of the reference run over the chunk. */
    ghost function LzAt(chunk: seq<Byte>): Lz
      reads `compressed, lzma, lzma.rc, lzma.probs, lzma.dict`hist
      requires compressed <= |chunk|
    {
      At0(lzma.AsLz(), |chunk| - compressed)
    }

    /** Bytes of the chunk still to come from the caller. */
    function Due(): int
      reads `compressed, `tempSize
    {
      compressed - tempSize
    }

    /** With the dictionary full nothing is decoded. */
    twostate predicate Rested()
      reads this, lzma, lzma.rc, lzma.probs, lzma.dict, lzma.dict.buf
    {
      && compressed == old(compressed) && unchanged(lzma, lzma.rc`range, lzma.rc`code, lzma.probs, lzma.dict)
      && lzma.dict.buf[..] == old(lzma.dict.buf[..])
    }

    /** How many of the caller's bytes are saved in temp when the dictionary is full: a last few, if the caller has no
        more and the chunk needs more than the caller has, or if temp is empty. */
    ghost function Saved(b: XzBuf): int
      reads `compressed, `tempSize, b
    {
      var available := |b.input| - b.inPos;
      if tempSize > 0 then (if available < Due() && tempSize + available < IN_REQUIRED then available else 0)
      else if available < IN_REQUIRED then Min(available, compressed) else 0
    }

    /** Runs the decoder over x from i on, where n bytes of the chunk lie. */
    method RunOn(x: seq<Byte>, i: nat, inLimit: nat, ghost chunk: seq<Byte>, ghost n: nat)
      returns (ok: bool, ghost k: nat)
      requires lzma.Valid() && TOP_VALUE <= lzma.rc.range && lzma.dict.pos <= lzma.dict.limit
      requires compressed <= |chunk| && Stretch(x, i, chunk, |chunk| - compressed, n)
      requires inLimit + IN_REQUIRED <= |x|
      modifies lzma, lzma.rc`range, lzma.rc`code, lzma.rc`input, lzma.rc`inPos, lzma.rc`inLimit, lzma.probs
      modifies lzma.dict`pos, lzma.dict`full, lzma.dict`hist, lzma.dict.buf
      ensures unchanged(lzma`lc, lzma`literalPosMask, lzma`posMask, lzma`props)
      ensures lzma.dict.Valid() && lzma.dict.pos <= lzma.dict.limit && old(lzma.dict.hist) <= lzma.dict.hist
      ensures |lzma.dict.hist| - |old(lzma.dict.hist)| == lzma.dict.pos - old(lzma.dict.pos)
      ensures ok ==> lzma.Valid() && TOP_VALUE <= lzma.rc.range && i <= lzma.rc.inPos <= |x|
      ensures ok ==>
        Run(chunk, lzma.props, lzma.dict.size, old(LzAt(chunk)), k) == OnChunk(lzma.AsLz(), i, |chunk| - compressed, n)
      ensures ok && old(lzma.dict.pos) < lzma.dict.limit && i <= inLimit ==> old(lzma.dict.pos) < lzma.dict.pos
      ensures !ok ==> Run(chunk, lzma.props, lzma.dict.size, old(LzAt(chunk)), k).Corrupt?
      ensures Below(chunk, lzma.props, lzma.dict.size, old(LzAt(chunk)), k, lzma.Room())
      ensures old(lzma.dict.pos) == lzma.dict.limit ==> ok && Rested() && lzma.rc.inPos == i
    {
      hide Run, Stretch, Consistent, LzCopy, BadDistance, OnChunk, Below, LzmaDec.Reaches, Dict.Valid;
      StretchEnds(x, i, chunk, |chunk| - compressed, n);
      ghost var s := LzAt(chunk);
      lzma.rc.input, lzma.rc.inPos, lzma.rc.inLimit := x, i, inLimit;
      assert At0(s, i) == lzma.AsLz();
      ok, k := lzma.LzmaMain();
      if ok && k > 0 {
        RunGoodBefore(x, lzma.props, lzma.dict.size, At0(s, i), k - 1, k);
      }
      BelowTransfer(x, i, chunk, lzma.props, lzma.dict.size, s, n, if ok then k else k + 1, lzma.Room());
      if ok {
        RunTransfer(x, i, chunk, lzma.props, lzma.dict.size, s, n, k);
      } else {
        FailureTransfer(x, i, chunk, lzma.props, lzma.dict.size, s, n, k);
        k := k + 1;
      }
    }

    /** What every part of lzma2_lzma may change. */
    ghost function Footprint(): set<object>
      reads this, lzma, lzma.dict
    {
      {this, lzma, lzma.rc, lzma.probs, lzma.dict, lzma.dict.buf, temp}
    }

    /** memcpy of the next n input bytes behind what is in temp */
    method Append(b: XzBuf, n: nat, ghost chunk: seq<Byte>)
      requires Fed(chunk, b) && tempSize + n <= temp.Length && n <= |b.input| - b.inPos && tempSize + n <= compressed
      modifies temp
      ensures temp[..tempSize] == old(temp[..tempSize])
      ensures temp[..tempSize + n] == chunk[|chunk| - compressed..|chunk| - compressed + tempSize + n]
    {
      hide Overlap;
      ghost var (given, next) := (b.input[b.inPos..], chunk[|chunk| - compressed + tempSize..]);
      OverlapDrop(given, next, n);
      StoreAt(temp, tempSize, b.input[b.inPos..b.inPos + n]);
      var p := |chunk| - compressed;
      assert b.input[b.inPos..b.inPos + n] == given[..n];
      assert next[..n] == chunk[p + tempSize..p + tempSize + n];
      Split(temp[..], 0, tempSize, tempSize + n);
      Split(chunk, p, p + tempSize, p + tempSize + n);
    }

    /** Decodes from temp, topped up with as many of the caller's bytes as it takes. */
    method FromTemp(b: XzBuf, ghost chunk: seq<Byte>) returns (ok: bool, more: bool, ghost k: nat)
      requires Valid() && Fed(chunk, b) && lzma.dict.pos <= lzma.dict.limit && b !in Footprint()
      requires tempSize > 0 || compressed == 0
      modifies this, temp, b`inPos, lzma, lzma.rc`range, lzma.rc`code, lzma.rc`input, lzma.rc`inPos, lzma.rc`inLimit, lzma.probs
      modifies lzma.dict`pos, lzma.dict`full, lzma.dict`hist, lzma.dict.buf
      ensures unchanged(lzma`lc, lzma`literalPosMask, lzma`posMask, lzma`props)
      ensures lzma.dict.Valid() && lzma.dict.pos <= lzma.dict.limit && old(lzma.dict.hist) <= lzma.dict.hist
      ensures |lzma.dict.hist| - |old(lzma.dict.hist)| == lzma.dict.pos - old(lzma.dict.pos)
      ensures ok ==> Valid() && Fed(chunk, b)
      ensures ok ==> old(b.inPos) <= b.inPos && b.inPos + Due() == old(b.inPos + Due())
      ensures ok ==> Run(chunk, lzma.props, lzma.dict.size, old(LzAt(chunk)), k) == Good(LzAt(chunk))
      ensures ok && more ==> tempSize == 0
      ensures ok && old(lzma.dict.pos) < lzma.dict.limit ==>
        old(lzma.dict.pos) < lzma.dict.pos || (!more && b.inPos == |b.input| && tempSize < compressed)
      ensures !ok ==> Run(chunk, lzma.props, lzma.dict.size, old(LzAt(chunk)), k).Corrupt?
      ensures Below(chunk, lzma.props, lzma.dict.size, old(LzAt(chunk)), k, lzma.Room())
      ensures old(lzma.dict.pos) == lzma.dict.limit ==> ok && Rested() && (more <==> old(tempSize) == 0)
      ensures old(lzma.dict.pos) == lzma.dict.limit && old(tempSize) > 0 ==>
        tempSize == old(tempSize + Saved(b)) && b.inPos == old(b.inPos + Saved(b))
      ensures old(lzma.dict.pos) == lzma.dict.limit && old(tempSize) == 0 ==> tempSize == 0 && b.inPos == old(b.inPos)
    {
      hide Run, Stretch, Consistent, LzCopy, Below, Overlap;
      ok, more, k := true, false, 0;
      var enough, tmp, inLimit := TopUp(b, chunk);
      if !enough {
        RunUnfold(chunk, lzma.props, lzma.dict.size, LzAt(chunk), 0);
        BelowNone(chunk, lzma.props, lzma.dict.size, LzAt(chunk), lzma.Room());
      } else {
        ok, more, k := DecodeTemp(b, chunk, tmp, inLimit);
      }
    }

    method DecodeTemp(b: XzBuf, ghost chunk: seq<Byte>, tmp: nat, inLimit: nat) returns (ok: bool, more: bool, ghost k: nat)
      requires Valid() && Fed(chunk, b) && lzma.dict.pos <= lzma.dict.limit && b !in Footprint()
      requires tempSize + tmp <= compressed && tempSize + tmp <= temp.Length && tmp <= |b.input| - b.inPos
      requires inLimit + IN_REQUIRED <= temp.Length
      requires Stretch(temp[..inLimit + IN_REQUIRED], 0, chunk, |chunk| - compressed, tempSize + tmp)
      modifies this, temp, b`inPos, lzma, lzma.rc`range, lzma.rc`code, lzma.rc`input, lzma.rc`inPos, lzma.rc`inLimit, lzma.probs
      modifies lzma.dict`pos, lzma.dict`full, lzma.dict`hist, lzma.dict.buf
      ensures unchanged(lzma`lc, lzma`literalPosMask, lzma`posMask, lzma`props)
      ensures lzma.dict.Valid() && lzma.dict.pos <= lzma.dict.limit && old(lzma.dict.hist) <= lzma.dict.hist
      ensures |lzma.dict.hist| - |old(lzma.dict.hist)| == lzma.dict.pos - old(lzma.dict.pos)
      ensures ok ==> Valid() && Fed(chunk, b)
      ensures ok ==> old(b.inPos) <= b.inPos && b.inPos + Due() == old(b.inPos + Due())
      ensures ok ==> Run(chunk, lzma.props, lzma.dict.size, old(LzAt(chunk)), k) == Good(LzAt(chunk))
      ensures ok && more ==> tempSize == 0
      ensures ok && old(lzma.dict.pos) < lzma.dict.limit ==> old(lzma.dict.pos) < lzma.dict.pos
      ensures !ok ==> Run(chunk, lzma.props, lzma.dict.size, old(LzAt(chunk)), k).Corrupt?
      ensures Below(chunk, lzma.props, lzma.dict.size, old(LzAt(chunk)), k, lzma.Room())
      ensures old(lzma.dict.pos) == lzma.dict.limit ==>
        ok && Rested() && tempSize == old(tempSize) && b.inPos == old(b.inPos) && (more <==> tempSize == 0)
    {
      hide Run, Stretch, Consistent, LzCopy, Below, Overlap;
      more := false;
      ok, k := RunTemp(inLimit, chunk, tempSize + tmp);
      if ok {
        more := ToInput(b, chunk, tmp);
      }
    }

    /** Runs the decoder over temp; it must not read past the chunk's end. */
    method RunTemp(inLimit: nat, ghost chunk: seq<Byte>, n: nat) returns (ok: bool, ghost k: nat)
      requires lzma.Valid() && TOP_VALUE <= lzma.rc.range && lzma.dict.pos <= lzma.dict.limit && temp.Length == TEMP_SIZE
      requires temp != lzma.dict.buf && temp as object != lzma.probs && inLimit + IN_REQUIRED <= temp.Length
      requires n <= compressed <= |chunk| && Stretch(temp[..inLimit + IN_REQUIRED], 0, chunk, |chunk| - compressed, n)
      modifies lzma, lzma.rc`range, lzma.rc`code, lzma.rc`input, lzma.rc`inPos, lzma.rc`inLimit, lzma.probs
      modifies lzma.dict`pos, lzma.dict`full, lzma.dict`hist, lzma.dict.buf
      ensures unchanged(lzma`lc, lzma`literalPosMask, lzma`posMask, lzma`props)
      ensures lzma.dict.Valid() && lzma.dict.pos <= lzma.dict.limit && old(lzma.dict.hist) <= lzma.dict.hist
      ensures |lzma.dict.hist| - |old(lzma.dict.hist)| == lzma.dict.pos - old(lzma.dict.pos)
      ensures ok ==> lzma.Valid() && TOP_VALUE <= lzma.rc.range && lzma.rc.inPos <= n
      ensures ok ==> Run(chunk, lzma.props, lzma.dict.size, old(LzAt(chunk)), k)
                     == Good(At0(lzma.AsLz(), |chunk| - compressed + lzma.rc.inPos))
      ensures ok && old(lzma.dict.pos) < lzma.dict.limit ==> old(lzma.dict.pos) < lzma.dict.pos
      ensures !ok ==> Run(chunk, lzma.props, lzma.dict.size, old(LzAt(chunk)), k).Corrupt?
      ensures Below(chunk, lzma.props, lzma.dict.size, old(LzAt(chunk)), k, lzma.Room())
      ensures old(lzma.dict.pos) == lzma.dict.limit ==> ok && Rested() && lzma.rc.inPos == 0
    {
      hide Run, Stretch, Consistent, LzCopy, Below;
      ok, k := RunOn(temp[..inLimit + IN_REQUIRED], 0, inLimit, chunk, n);
      ok := ok && lzma.rc.inPos <= n;
    }

    /** Copies what fits behind the leftovers. Without a whole symbol or the end of the chunk, it stays there. */
    method TopUp(b: XzBuf, ghost chunk: seq<Byte>) returns (enough: bool, tmp: nat, inLimit: nat)
      requires Fed(chunk, b) && tempSize < IN_REQUIRED && temp.Length == TEMP_SIZE
      modifies temp, `tempSize, b`inPos
      ensures Fed(chunk, b) && tempSize < IN_REQUIRED && old(b.inPos) <= b.inPos
      ensures b.inPos + Due() == old(b.inPos + Due())
      ensures !enough ==> b.inPos == |b.input| && tempSize < compressed
      ensures !enough <==> old(|b.input| - b.inPos < Due() && tempSize + (|b.input| - b.inPos) < IN_REQUIRED)
      ensures enough ==> b.inPos == old(b.inPos)
      ensures enough ==> tempSize == old(tempSize) && tempSize + tmp <= compressed && tempSize + tmp <= 2 * IN_REQUIRED
      ensures enough ==> tmp <= |b.input| - b.inPos && inLimit + IN_REQUIRED <= temp.Length
      ensures enough ==> Stretch(temp[..inLimit + IN_REQUIRED], 0, chunk, |chunk| - compressed, tempSize + tmp)
    {
      hide Stretch, Overlap;
      enough, inLimit := true, 0;
      tmp := Min(Min(2 * IN_REQUIRED - tempSize, compressed - tempSize), |b.input| - b.inPos);
      Append(b, tmp, chunk);
      if tempSize + tmp == compressed {
        inLimit := tempSize + tmp;
      } else if tempSize + tmp < IN_REQUIRED {
        Taken(b, tmp, chunk);
        enough := false;
        return;
      } else {
        inLimit := tempSize + tmp - IN_REQUIRED;
      }
      TempStretch(temp[..inLimit + IN_REQUIRED], chunk, tempSize + tmp);
    }

    /** The bytes just appended stay in temp; the caller's buffer is used up. */
    method Taken(b: XzBuf, n: nat, ghost chunk: seq<Byte>)
      requires Fed(chunk, b) && tempSize + n <= compressed && tempSize + n <= temp.Length && n <= |b.input| - b.inPos
      requires temp[..tempSize + n] == chunk[|chunk| - compressed..|chunk| - compressed + tempSize + n]
      modifies `tempSize, b`inPos
      ensures Fed(chunk, b) && tempSize == old(tempSize) + n && b.inPos == old(b.inPos) + n
    {
      ghost var (given, next) := (b.input[b.inPos..], chunk[|chunk| - compressed + tempSize..]);
      OverlapDrop(given, next, n);
      tempSize := tempSize + n;
      b.inPos := b.inPos + n;
      assert b.input[b.inPos..] == given[n..];
      assert chunk[|chunk| - compressed + tempSize..] == next[n..];
    }

    lemma TempStretch(x: seq<Byte>, chunk: seq<Byte>, n: nat)
      requires n <= |x| <= temp.Length && x == temp[..|x|] && n <= compressed <= |chunk|
      requires temp[..n] == chunk[|chunk| - compressed..|chunk| - compressed + n]
      requires n == |x| || n == compressed
      ensures Stretch(x, 0, chunk, |chunk| - compressed, n)
    {
    }

    /** After decoding from temp: either some of its old bytes are left, or the caller's buffer takes over. */
    method ToInput(b: XzBuf, ghost chunk: seq<Byte>, tmp: nat) returns (more: bool)
      requires Fed(chunk, b) && tempSize + tmp <= compressed && tempSize + tmp <= temp.Length && tmp <= |b.input| - b.inPos
      requires lzma.rc.inPos <= tempSize + tmp
      modifies this, temp, b`inPos
      ensures Fed(chunk, b) && compressed == old(compressed) - lzma.rc.inPos && old(b.inPos) <= b.inPos
      ensures tempSize <= old(tempSize) && (more ==> tempSize == 0)
      ensures b.inPos + Due() == old(b.inPos + Due())
      ensures more <==> lzma.rc.inPos >= old(tempSize)
      ensures lzma.rc.inPos <= old(tempSize) ==> tempSize == old(tempSize) - lzma.rc.inPos && b.inPos == old(b.inPos)
    {
      hide Fed;
      if lzma.rc.inPos < tempSize {
        Leave(b, chunk, lzma.rc.inPos);
        more := false;
      } else {
        GoOn(b, chunk, lzma.rc.inPos - tempSize);
        more := true;
      }
    }

    /** Some of temp was consumed: memmove of the leftover bytes to the front. */
    method Leave(b: XzBuf, ghost chunk: seq<Byte>, used: nat)
      requires Fed(chunk, b) && used <= tempSize
      modifies `compressed, `tempSize, temp
      ensures Fed(chunk, b) && compressed == old(compressed) - used && tempSize == old(tempSize) - used
    {
      hide Overlap;
      LeaveSlices(chunk, temp[..tempSize], |chunk| - compressed, used);
      assert temp[used..tempSize] == temp[..tempSize][used..];
      MoveDown(temp, used, tempSize);
      tempSize := tempSize - used;
      compressed := compressed - used;
    }

    lemma LeaveSlices(chunk: seq<Byte>, was: seq<Byte>, p: nat, used: nat)
      requires p + |was| <= |chunk| && was == chunk[p..p + |was|] && used <= |was|
      ensures was[used..] == chunk[p + used..p + |was|]
    {
    }

    /** All of temp was consumed and some bytes beyond it, which are in the caller's buffer. */
    method GoOn(b: XzBuf, ghost chunk: seq<Byte>, d: nat)
      requires Fed(chunk, b) && tempSize + d <= compressed && d <= |b.input| - b.inPos
      modifies `compressed, `tempSize, b`inPos
      ensures Fed(chunk, b) && compressed == old(compressed) - (old(tempSize) + d) && tempSize == 0 && b.inPos == old(b.inPos) + d
    {
      hide Overlap;
      ghost var (given, next) := (b.input[b.inPos..], chunk[|chunk| - compressed + tempSize..]);
      OverlapDrop(given, next, d);
      b.inPos := b.inPos + d;
      compressed := compressed - (tempSize + d);
      tempSize := 0;
      assert b.input[b.inPos..] == given[d..];
      assert chunk[|chunk| - compressed + tempSize..] == next[d..];
    }

    /** Decodes directly from the caller's buffer, stopping early enough for a whole symbol. */
    method FromInput(b: XzBuf, ghost chunk: seq<Byte>) returns (ok: bool, ghost k: nat)
      requires Valid() && Fed(chunk, b) && lzma.dict.pos <= lzma.dict.limit && b !in Footprint()
      requires tempSize == 0 && |b.input| - b.inPos >= IN_REQUIRED
      modifies this, b`inPos, lzma, lzma.rc`range, lzma.rc`code, lzma.rc`input, lzma.rc`inPos, lzma.rc`inLimit, lzma.probs
      modifies lzma.dict`pos, lzma.dict`full, lzma.dict`hist, lzma.dict.buf
      ensures unchanged(lzma`lc, lzma`literalPosMask, lzma`posMask, lzma`props)
      ensures lzma.dict.Valid() && lzma.dict.pos <= lzma.dict.limit && old(lzma.dict.hist) <= lzma.dict.hist
      ensures |lzma.dict.hist| - |old(lzma.dict.hist)| == lzma.dict.pos - old(lzma.dict.pos)
      ensures ok ==> Valid() && Fed(chunk, b) && tempSize == 0
      ensures ok ==> old(b.inPos) <= b.inPos && b.inPos + Due() == old(b.inPos + Due())
      ensures ok ==> Run(chunk, lzma.props, lzma.dict.size, old(LzAt(chunk)), k) == Good(LzAt(chunk))
      ensures ok && old(lzma.dict.pos) < lzma.dict.limit ==> old(lzma.dict.pos) < lzma.dict.pos
      ensures !ok ==> Run(chunk, lzma.props, lzma.dict.size, old(LzAt(chunk)), k).Corrupt?
      ensures Below(chunk, lzma.props, lzma.dict.size, old(LzAt(chunk)), k, lzma.Room())
      ensures old(lzma.dict.pos) == lzma.dict.limit ==> ok && Rested() && b.inPos == old(b.inPos)
    {
      hide Run, Stretch, Consistent, LzCopy, Below;
      var available := |b.input| - b.inPos;
      var inLimit;
      if available >= compressed + IN_REQUIRED {
        inLimit := b.inPos + compressed;
      } else {
        inLimit := |b.input| - IN_REQUIRED;
      }
      ghost var n := Min(available, compressed);
      InputStretch(b, chunk, n);
      ok, k := RunOn(b.input, b.inPos, inLimit, chunk, n);
      if !ok {
        return;
      }
      var used := lzma.rc.inPos - b.inPos;
      if used > compressed {
        ok := false;
        return;
      }
      Consume(b, chunk, used);
    }

    lemma InputStretch(b: XzBuf, chunk: seq<Byte>, n: nat)
      requires Fed(chunk, b) && tempSize == 0 && n == Min(|b.input| - b.inPos, compressed)
      ensures Stretch(b.input, b.inPos, chunk, |chunk| - compressed, n)
    {
    }

    method Consume(b: XzBuf, ghost chunk: seq<Byte>, used: nat)
      requires Fed(chunk, b) && tempSize == 0 && used <= compressed && used <= |b.input| - b.inPos
      modifies `compressed, b`inPos
      ensures Fed(chunk, b) && compressed == old(compressed) - used && b.inPos == old(b.inPos) + used
    {
      ghost var (given, next) := (b.input[b.inPos..], chunk[|chunk| - compressed..]);
      OverlapDrop(given, next, used);
      compressed := compressed - used;
      b.inPos := b.inPos + used;
      assert b.input[b.inPos..] == given[used..];
      assert chunk[|chunk| - compressed..] == next[used..];
      assert temp[..tempSize] == [];
    }

    /** Saves the few bytes left of the caller's buffer for the next call. */
    method Save(b: XzBuf, ghost chunk: seq<Byte>)
      requires Fed(chunk, b) && tempSize == 0 && temp.Length == TEMP_SIZE && |b.input| - b.inPos < IN_REQUIRED
      modifies temp, `tempSize, b`inPos
      ensures Fed(chunk, b) && tempSize == Min(old(|b.input| - b.inPos), compressed) && b.inPos == old(b.inPos) + tempSize
    {
      var n := Min(|b.input| - b.inPos, compressed);
      Append(b, n, chunk);
      Taken(b, n, chunk);
    }

    /** lzma2_lzma: whatever stretch of a chunk it is given, and wherever the stretches before it ended, it takes
        some number of steps of the one run over the whole chunk, or finds the chunk corrupt. */
    method Feed(b: XzBuf, ghost chunk: seq<Byte>) returns (ok: bool, ghost k: nat)
      requires Valid() && Fed(chunk, b) && lzma.dict.pos <= lzma.dict.limit && b !in Footprint()
      modifies this, temp, b`inPos, lzma, lzma.rc`range, lzma.rc`code, lzma.rc`input, lzma.rc`inPos, lzma.rc`inLimit, lzma.probs
      modifies lzma.dict`pos, lzma.dict`full, lzma.dict`hist, lzma.dict.buf
      ensures unchanged(lzma`lc, lzma`literalPosMask, lzma`posMask, lzma`props)
      ensures lzma.dict.Valid() && lzma.dict.pos <= lzma.dict.limit && old(lzma.dict.hist) <= lzma.dict.hist
      ensures |lzma.dict.hist| - |old(lzma.dict.hist)| == lzma.dict.pos - old(lzma.dict.pos)
      ensures ok ==> Valid() && Fed(chunk, b)
      ensures ok ==> old(b.inPos) <= b.inPos && b.inPos + Due() == old(b.inPos + Due())
      ensures ok ==> Run(chunk, lzma.props, lzma.dict.size, old(LzAt(chunk)), k) == Good(LzAt(chunk))
      ensures ok && old(lzma.dict.pos) < lzma.dict.limit ==>
        old(lzma.dict.pos) < lzma.dict.pos || old(b.inPos) < b.inPos || (b.inPos == |b.input| && tempSize < compressed)
      ensures !ok ==> Run(chunk, lzma.props, lzma.dict.size, old(LzAt(chunk)), k).Corrupt?
      ensures Below(chunk, lzma.props, lzma.dict.size, old(LzAt(chunk)), k, lzma.Room())
      ensures old(lzma.dict.pos) == lzma.dict.limit ==>
        ok && Rested() && tempSize == old(tempSize + Saved(b)) && b.inPos == old(b.inPos + Saved(b))
    {
      hide Run, Stretch, Consistent, LzCopy, Overlap, Below, Valid, Fed;
      FedWithin(chunk, b);
      Sane(chunk);
      ghost var s := LzAt(chunk);
      if tempSize > 0 || compressed == 0 {
        var more;
        ok, more, k := FromTemp(b, chunk);
        if !ok || !more {
          return;
        }
        ok, k := GoDirect(b, chunk, s, k);
      } else {
        ok, k := FeedDirect(b, chunk);
      }
    }

    lemma Sane(chunk: seq<Byte>)
      requires Valid() && compressed <= |chunk|
      ensures lzma.props.Valid() && LzAt(chunk).Valid() && temp.Length == TEMP_SIZE
    {
      hide LzmaDec.Reaches, Dict.Valid;
    }

    lemma FedWithin(chunk: seq<Byte>, b: XzBuf)
      requires Fed(chunk, b)
      ensures tempSize <= compressed <= |chunk| && b.Valid()
    {
      hide Overlap;
    }

    /** The same after steps that were already taken. */
    method GoDirect(b: XzBuf, ghost chunk: seq<Byte>, ghost s: Lz, ghost done: nat) returns (ok: bool, ghost k: nat)
      requires Valid() && Fed(chunk, b) && lzma.dict.pos <= lzma.dict.limit && b !in Footprint() && tempSize == 0
      requires s.Valid() && Run(chunk, lzma.props, lzma.dict.size, s, done) == Good(LzAt(chunk))
      requires Below(chunk, lzma.props, lzma.dict.size, s, done, lzma.Room())
      modifies this, temp, b`inPos, lzma, lzma.rc`range, lzma.rc`code, lzma.rc`input, lzma.rc`inPos, lzma.rc`inLimit, lzma.probs
      modifies lzma.dict`pos, lzma.dict`full, lzma.dict`hist, lzma.dict.buf
      ensures unchanged(lzma`lc, lzma`literalPosMask, lzma`posMask, lzma`props)
      ensures lzma.dict.Valid() && lzma.dict.pos <= lzma.dict.limit && old(lzma.dict.hist) <= lzma.dict.hist
      ensures |lzma.dict.hist| - |old(lzma.dict.hist)| == lzma.dict.pos - old(lzma.dict.pos)
      ensures ok ==> Valid() && Fed(chunk, b)
      ensures ok ==> old(b.inPos) <= b.inPos && b.inPos + Due() == old(b.inPos + Due())
      ensures ok ==> Run(chunk, lzma.props, lzma.dict.size, s, k) == Good(LzAt(chunk))
      ensures ok && old(lzma.dict.pos) < lzma.dict.limit ==>
        old(lzma.dict.pos) < lzma.dict.pos || old(b.inPos) < b.inPos || old(compressed) == 0
        || (b.inPos == |b.input| && tempSize < compressed)
      ensures !ok ==> Run(chunk, lzma.props, lzma.dict.size, s, k).Corrupt?
      ensures Below(chunk, lzma.props, lzma.dict.size, s, k, lzma.Room())
      ensures old(lzma.dict.pos) == lzma.dict.limit ==>
        ok && Rested() && tempSize == old(tempSize + Saved(b)) && b.inPos == old(b.inPos + Saved(b))
    {
      hide Run, Stretch, Consistent, LzCopy, Overlap, Below, Valid, Fed, Saved, Rested;
      FedWithin(chunk, b);
      Sane(chunk);
      ghost var mid := LzAt(chunk);
      ok, k := FeedDirect(b, chunk);
      RunSplit(chunk, lzma.props, lzma.dict.size, s, done, k);
      BelowAppend(chunk, lzma.props, lzma.dict.size, s, done, mid, k, lzma.Room());
      k := done + k;
    }

    /** The part of lzma2_lzma after temp has been emptied. */
    method FeedDirect(b: XzBuf, ghost chunk: seq<Byte>) returns (ok: bool, ghost k: nat)
      requires Valid() && Fed(chunk, b) && lzma.dict.pos <= lzma.dict.limit && b !in Footprint() && tempSize == 0
      modifies this, temp, b`inPos, lzma, lzma.rc`range, lzma.rc`code, lzma.rc`input, lzma.rc`inPos, lzma.rc`inLimit, lzma.probs
      modifies lzma.dict`pos, lzma.dict`full, lzma.dict`hist, lzma.dict.buf
      ensures unchanged(lzma`lc, lzma`literalPosMask, lzma`posMask, lzma`props)
      ensures lzma.dict.Valid() && lzma.dict.pos <= lzma.dict.limit && old(lzma.dict.hist) <= lzma.dict.hist
      ensures |lzma.dict.hist| - |old(lzma.dict.hist)| == lzma.dict.pos - old(lzma.dict.pos)
      ensures ok ==> Valid() && Fed(chunk, b)
      ensures ok ==> old(b.inPos) <= b.inPos && b.inPos + Due() == old(b.inPos + Due())
      ensures ok ==> Run(chunk, lzma.props, lzma.dict.size, old(LzAt(chunk)), k) == Good(LzAt(chunk))
      ensures ok && old(lzma.dict.pos) < lzma.dict.limit ==>
        old(lzma.dict.pos) < lzma.dict.pos || old(b.inPos) < b.inPos || old(compressed) == 0
        || (b.inPos == |b.input| && tempSize < compressed)
      ensures !ok ==> Run(chunk, lzma.props, lzma.dict.size, old(LzAt(chunk)), k).Corrupt?
      ensures Below(chunk, lzma.props, lzma.dict.size, old(LzAt(chunk)), k, lzma.Room())
      ensures old(lzma.dict.pos) == lzma.dict.limit ==>
        ok && Rested() && tempSize == old(tempSize + Saved(b)) && b.inPos == old(b.inPos + Saved(b))
    {
      hide Run, Stretch, Consistent, LzCopy, Overlap, Below, Fed;
      ok, k := true, 0;
      FedWithin(chunk, b);
      RunUnfold(chunk, lzma.props, lzma.dict.size, LzAt(chunk), 0);
      BelowNone(chunk, lzma.props, lzma.dict.size, LzAt(chunk), lzma.Room());
      if |b.input| - b.inPos >= IN_REQUIRED {
        ok, k := FromInput(b, chunk);
        if !ok {
          return;
        }
      }
      if |b.input| - b.inPos < IN_REQUIRED {
        Save(b, chunk);
      }
    }
  }
}
