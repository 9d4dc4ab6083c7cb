/** The branch filter behind the LZMA2 decoder: it filters what the decoder writes to the caller's buffer, and keeps
    what it cannot yet filter, or what does not fit, in a small buffer of its own. */
module Bcj {
  import opened Bytes
  import opened PowerPc
  import opened Dictionary
  import opened Lzma2Reference
  import opened LzmaModel
  import opened Lzma2Encoding
  import opened Lzma2

  const BCJ_TEMP := 16

  /** Filtering what comes after the n bytes already filtered: whole groups are final, the rest has to wait. */
  lemma FilterMore(raw: seq<Byte>, n: nat)
    requires n <= |raw| && n % 4 == 0
    ensures var (more, q) := (Pass(raw[n..], n, false), Whole(|raw| - n));
            && Pass(raw, 0, false) == Pass(raw[..n], 0, false) + more
            && Pass(raw[..n + q], 0, false) == Pass(raw[..n], 0, false) + more[..q]
            && more[q..] == raw[n + q..]
  {
    hide Pass;
    var rest := raw[n..];
    var q := Whole(|rest|);
    assert raw == raw[..n] + rest;
    PassSplit(raw[..n], rest, 0, false);
    PassTail(rest, n, false);
    assert rest[..q] == raw[n..n + q];
    assert rest[q..] == raw[n + q..];
    assert raw[..n + q] == raw[..n] + rest[..q];
    PassSplit(raw[..n], rest[..q], 0, false);
  }

  /** A sequence with n of its elements from a position on replaced by others. */
  ghost predicate Spliced(x: seq<Byte>, all: seq<Byte>, from: nat, p: seq<Byte>) {
    from + |p| <= |all| && x == all[..from] + p + all[from + |p|..]
  }

  lemma SplicedNext(x: seq<Byte>, all: seq<Byte>, from: nat, p: seq<Byte>, g: seq<Byte>)
    requires Spliced(x, all, from, p) && from + |p| + |g| <= |all|
    ensures |x| == |all| && var k := from + |p|;
            && x[k..k + |g|] == all[k..k + |g|]
            && Spliced(x[..k] + g + x[k + |g|..], all, from, p + g)
  {
  }

  lemma SplicedParts(x: seq<Byte>, all: seq<Byte>, from: nat, p: seq<Byte>)
    requires Spliced(x, all, from, p)
    ensures |x| == |all| && x[..from] == all[..from] && x[from..from + |p|] == p && x[from + |p|..] == all[from + |p|..]
  {
  }

  /** An encoder filters its data one way and writes any pieces that stand for the result; what a decoder makes of
      that stream, filtered the other way, is the data. */
  lemma DataRoundTrip(data: seq<Byte>, dictSize: nat, ps: seq<Piece>, tail: seq<Byte>, out: seq<Byte>, used: nat)
    requires EncodableAll(FirstRef(), dictSize, ps) && Texts(FirstRef(), dictSize, ps) == Pass(data, 0, true)
    requires Accepts(EncodeStream(FirstRef(), dictSize, ps) + tail, dictSize, out, used)
    ensures Pass(out, 0, false) == data && used == |EncodeStream(FirstRef(), dictSize, ps)|
  {
    hide Accepts, Refuses, Encodable, EncodableAll, EncodeStream, Texts, FreshProbs, Pass;
    StreamRoundTrip(dictSize, ps, tail);
    OneVerdict(EncodeStream(FirstRef(), dictSize, ps) + tail, dictSize, Pass(data, 0, true),
               |EncodeStream(FirstRef(), dictSize, ps)|, out, used);
    PassInverse(data, 0, true);
  }

  /** What was handed out and the first part of what is held is the filtered output so far; the other part of what is
      held are the decoder's latest bytes, unfiltered. At the end of the stream everything is filtered. */
  ghost predicate Waiting(raw: seq<Byte>, given: seq<Byte>, held: seq<Byte>, filtered: nat, pos: Word, ended: bool) {
    var n := |given| + filtered;
    && filtered <= |held|
    && if ended then filtered == |held| && given + held == Pass(raw, 0, false)
       else
         && |held| - filtered < 4 && |given| + |held| == |raw| && n % 4 == 0 && pos == n % U32
         && given + held[..filtered] == Pass(raw[..n], 0, false) && held[filtered..] == raw[n..]
  }

  lemma HandOut(raw: seq<Byte>, given: seq<Byte>, held: seq<Byte>, filtered: nat, pos: Word, ended: bool, n: nat)
    requires Waiting(raw, given, held, filtered, pos, ended) && n <= filtered
    ensures Waiting(raw, given + held[..n], held[n..], filtered - n, pos, ended)
  {
  }

  /** What was held together with what was decoded since is what comes after the bytes handed out. */
  lemma Decoded(raw: seq<Byte>, given: seq<Byte>, held: seq<Byte>, pos: Word, raw': seq<Byte>)
    requires Waiting(raw, given, held, 0, pos, false) && raw <= raw'
    ensures var n := |given|;
            && n <= |raw'| && n % 4 == 0 && pos == n % U32 && held + raw'[|raw|..] == raw'[n..] && given == Pass(raw'[..n], 0, false)
  {
    hide Pass;
    assert raw[..|given|] == raw'[..|given|] && raw'[..|raw|] == raw;
    assert given + held[..0] == given;
    assert held[0..] == held;
  }

  /** Filtered as far as it goes: either the rest waits in the small buffer, or all of it does. */
  lemma WaitsOn(raw: seq<Byte>, given: seq<Byte>, s: seq<Byte>, q: nat)
    requires |given| <= |raw| && |given| % 4 == 0 && given == Pass(raw[..|given|], 0, false)
    requires s == Pass(raw[|given|..], |given|, false) && q == Whole(|s|)
    ensures Waiting(raw, given, s, q, (|given| + q) % U32, false)
    ensures Waiting(raw, given + s[..q], s[q..], 0, (|given| + q) % U32, false)
  {
    hide Pass, Waiting, Whole;
    FilterMore(raw, |given|);
    WholeGroups(|given|, |s|);
    WaitsShort(raw, given + s[..q], s[q..], |given| + q);
    WaitsLong(raw, given, s, q);
  }

  lemma WholeGroups(n: nat, k: nat)
    requires n % 4 == 0
    ensures (n + Whole(k)) % 4 == 0
  {
  }

  lemma WaitsLong(raw: seq<Byte>, given: seq<Byte>, s: seq<Byte>, q: nat)
    requires |given| + |s| == |raw| && q <= |s| < q + 4 && (|given| + q) % 4 == 0
    requires given + s[..q] == Pass(raw[..|given| + q], 0, false) && s[q..] == raw[|given| + q..]
    ensures Waiting(raw, given, s, q, (|given| + q) % U32, false)
  {
  }

  lemma WaitsShort(raw: seq<Byte>, given: seq<Byte>, rest: seq<Byte>, n: nat)
    requires |given| == n <= |raw| && n % 4 == 0 && given == Pass(raw[..n], 0, false) && rest == raw[n..] && |rest| < 4
    ensures Waiting(raw, given, rest, 0, n % U32, false)
  {
  }

  /** At the end of the stream the bytes that do not fill a group are final as well. */
  lemma WaitsNoMore(raw: seq<Byte>, given: seq<Byte>, s: seq<Byte>, pos: Word)
    requires |given| <= |raw| && |given| % 4 == 0 && given == Pass(raw[..|given|], 0, false)
    requires s == Pass(raw[|given|..], |given|, false)
    ensures Waiting(raw, given, s, |s|, pos, true) && Waiting(raw, given + s, [], 0, pos, true)
  {
    hide Pass;
    FilterMore(raw, |given|);
    assert given + s + [] == given + s;
  }

  /** Filtering in place leaves a single-call dictionary the window on its history that it was exactly when nothing was
      moved: a decoder that is to go on must not have its output filtered. */
  lemma InPlace(size: nat, ring: seq<Byte>, pos: nat, full: nat, hist: seq<Byte>)
    requires Consistent(true, size, ring, pos, full, hist)
    ensures pos == |hist| <= |ring|
    ensures Consistent(true, size, Pass(hist, 0, false) + ring[pos..], pos, full, hist) <==> Pass(hist, 0, false) == hist
  {
    hide Pass;
    SingleWindow(size, ring, pos, full, hist);
    var ring' := Pass(hist, 0, false) + ring[pos..];
    if Consistent(true, size, ring', pos, full, hist) {
      SingleWindow(size, ring', pos, full, hist);
      assert ring'[..pos] == Pass(hist, 0, false);
    }
    if Pass(hist, 0, false) == hist {
      assert ring' == ring;
    }
  }

  /** Something may be moved: a branch behind the first word. */
  lemma BranchMoves()
    ensures Pass([0, 0, 0, 0] + [0x48, 0, 0, 1], 0, false) == [0, 0, 0, 0] + [0x4B, 0xFF, 0xFF, 0xFD]
  {
    var (s, g) := ([0, 0, 0, 0], [0x48, 0, 0, 1]);
    WordMoves();
    PassSplit(s, g, 0, false);
    hide Group;
    assert s[..4] == s && s[4..] == [] && g[..4] == g && g[4..] == [];
  }

  lemma WordMoves()
    ensures Group([0, 0, 0, 0], 0, false) == [0, 0, 0, 0] && Group([0x48, 0, 0, 1], 4, false) == [0x4B, 0xFF, 0xFF, 0xFD]
  {
    assert Instruction(0x48, 0, 0, 1) == 0x4800_0001;
    assert Moved(0x4800_0001, -4) == 0x4BFF_FFFD;
    assert Bytes4(0x4BFF_FFFD) == [0x4B, 0xFF, 0xFF, 0xFD];
  }

  /** How the one call of a single-call decoder comes out. */
  datatype Outcome = Returned(ret: XzRet) | NeverReturns

  /** How it comes out for all of a stream with n bytes of text. */
  function OneCall(n: nat, room: nat): Outcome {
    if n <= room then Returned(XzStreamEnd) else if room % 4 == 0 then Returned(XzOk) else NeverReturns
  }

  /** The same for the decoder alone. */
  function OneCallAlone(n: nat, room: nat): Outcome {
    Returned(if n <= room then XzStreamEnd else XzOk)
  }

  lemma ByLength(stream: seq<Byte>, dictSize: nat, reach: int, room: nat, o: Outcome, text: seq<Byte>, used: nat)
    requires Accepts(stream, dictSize, text, used) && used <= reach
    requires o == Returned(XzStreamEnd) <==> EndsWithin(stream, dictSize, reach, room)
    requires o == Returned(XzDataError) ==> Refuses(stream, dictSize)
    requires o == Returned(XzOk) || o.NeverReturns? ==> (o.NeverReturns? <==> room % 4 != 0)
    ensures o == OneCall(|text|, room)
  {
    hide Accepts, Refuses;
    OneVerdict(stream, dictSize, text, used, text, used);
    if EndsWithin(stream, dictSize, reach, room) {
      var text': seq<Byte>, used': nat :| Accepts(stream, dictSize, text', used') && used' <= reach && |text'| <= room;
      OneVerdict(stream, dictSize, text, used, text', used');
    } else {
      assert o.NeverReturns? || o.ret == XzOk;
    }
  }

  class BcjDec {
    const lzma2: Lzma2Dec
    const temp: array<Byte>
    var ret: XzRet
    var pos: Word
    var filtered: nat
    var size: nat

    /** All the output so far. */
    ghost var given: seq<Byte>

    constructor (ghost stream: seq<Byte>, dictSize: nat)
      requires dictSize % 16 == 0 && dictSize > 0
      ensures Valid() && lzma2.stream == stream && lzma2.dict.size == dictSize && given == [] && ret == XzOk
      ensures temp.Length == 16 && fresh(temp) && fresh(lzma2.dict.buf) && fresh(lzma2.feeder.temp) && fresh(lzma2.lzma.probs)
    {
      hide Lzma2Dec.Inv, Pass;
      var buf := new Byte[BCJ_TEMP](_ => 0);
      var decoder := new Lzma2Dec.Multi(stream, dictSize);
      temp, lzma2 := buf, decoder;
      assert forall o :: o in decoder.Heap() + {decoder.dict.buf} ==> allocated(o);
      ret, pos, filtered, size, given := XzOk, 0, 0, 0, [];
      new;
      PassStart([], 0, [], 0);
      assert temp[..0] == [] && Filtered([]);
    }

    /** The filter of a single-call decoder, whose dictionary is the caller's output. */
    constructor Single(ghost stream: seq<Byte>, dictSize: nat, b: XzBuf)
      requires b.Valid()
      ensures FirstCall(b) && lzma2.stream == stream && lzma2.dict.size == dictSize && fresh(lzma2.Heap()) && temp.Length == 16 && fresh(temp)
    {
      hide Lzma2Dec.Inv;
      var buf := new Byte[BCJ_TEMP](_ => 0);
      var decoder := new Lzma2Dec.Single(stream, dictSize, b);
      temp, lzma2 := buf, decoder;
      assert forall o :: o in decoder.Heap() ==> allocated(o);
      ret, pos, filtered, size, given := XzOk, 0, 0, 0, [];
    }

    ghost predicate FirstCall(b: XzBuf)
      reads this, b, lzma2.Heap(), lzma2.dict.buf
    {
      && ret == XzOk && pos == filtered == size == 0 && given == [] && temp.Length == BCJ_TEMP
      && this !in lzma2.Heap() && temp !in lzma2.Heap() && b !in lzma2.Heap() && b as object != this && b.out != temp
      && lzma2.dict.single && lzma2.Inv() && lzma2.out == [] && lzma2.fed == 0
      && b.Valid() && lzma2.dict.OutputOf(b) && b.out !in lzma2.Heap()
    }

    lemma AtFirst(b: XzBuf)
      requires FirstCall(b)
      ensures lzma2.fed == 0 && given == [] && b.Valid() && b.out == lzma2.dict.buf && b !in lzma2.Heap()
    {
      hide Lzma2Dec.Inv;
    }

    ghost predicate Filtered(raw: seq<Byte>)
      reads this, temp
    {
      && filtered <= size <= temp.Length == BCJ_TEMP
      && Waiting(raw, given, Held(), filtered, pos, ret == XzStreamEnd)
    }

    /** After the end of the stream only what is filtered counts. */
    ghost function Held(): seq<Byte>
      requires filtered <= size <= temp.Length
      reads this, temp
    {
      temp[..if ret == XzStreamEnd then filtered else size]
    }

    ghost predicate Valid()
      reads this, temp, lzma2.Heap(), lzma2.dict.buf
    {
      && this !in lzma2.Heap() && temp !in lzma2.Heap() && temp != lzma2.dict.buf && !lzma2.dict.single
      && Filtered(lzma2.out) && Inner()
    }

    /** There is more to come. */
    predicate GoesOn()
      reads `ret, `filtered
    {
      ret == XzOk || (ret == XzStreamEnd && filtered > 0)
    }

    /** The decoder is ready to go on, or has come to the end of a well-formed stream. */
    ghost predicate Inner()
      reads `ret, lzma2.Heap(), lzma2.dict.buf
    {
      if ret == XzStreamEnd then Accepts(lzma2.stream, lzma2.dict.size, lzma2.out, lzma2.fed) else lzma2.Inv()
    }

    /** The caller's buffers are not the decoder's or the filter's own. */
    ghost predicate Apart(b: XzBuf)
      reads b, lzma2.dict
    {
      && b !in lzma2.Heap() && b as object != this && b.Valid()
      && b.out !in lzma2.Heap() && b.out !in {lzma2.dict.buf, temp}
    }

    /** How much output there is room for in all. */
    ghost function Most(b: XzBuf): int
      reads `given, b
    {
      |given| + (b.outSize - b.outPos)
    }

    // --------------------------------------------------------- filtering in place

    /** One instruction of a buffer. */
    method FilterGroup(buf: array<Byte>, k: nat, ghost at: nat, i: nat)
      requires k + 4 <= buf.Length && pos == at % U32
      modifies buf
      ensures buf[..] == old(buf[..k]) + Group(old(buf[k..k + 4]), at + i, false) + old(buf[k + 4..])
    {
      hide Moved, Bytes4;
      var instr := Instruction(buf[k], buf[k + 1], buf[k + 2], buf[k + 3]);
      assert old(buf[k..k + 4]) == [buf[k], buf[k + 1], buf[k + 2], buf[k + 3]];
      PositionWraps(instr, at + i);
      PositionSum(at, i);
      var moved := Bytes4(Moved(instr, Displacement((pos + i) % U32, false)));
      buf[k], buf[k + 1], buf[k + 2], buf[k + 3] := moved[0], moved[1], moved[2], moved[3];
      assert moved == [moved[0], moved[1], moved[2], moved[3]];
    }

    lemma PositionSum(at: nat, i: nat)
      ensures (at % U32 + i) % U32 == (at + i) % U32
    {
    }

    /** bcj_apply: filters the whole groups of buf[from..end], and says where it stopped. */
    method Apply(buf: array<Byte>, from: nat, end: nat, ghost at: nat) returns (next: nat)
      requires from <= end <= buf.Length && pos == at % U32
      modifies `pos, buf
      ensures next == from + Whole(end - from) && pos == (at + (next - from)) % U32
      ensures buf[..from] == old(buf[..from]) && buf[from..end] == Pass(old(buf[from..end]), at, false)
      ensures buf[end..] == old(buf[end..])
    {
      hide Group, Pass, Spliced;
      var size := Whole(end - from);
      var i := 0;
      ghost var (all, s, groups) := (buf[..], buf[from..end], 0);
      PassStart(s, at, all, from);
      assert size == (end - from) / 4 * 4;
      while i < size
        invariant 0 <= groups <= (end - from) / 4 && i == groups * 4
        invariant Spliced(buf[..], all, from, Pass(s[..i], at, false))
        modifies buf
      {
        ApplyGroup(buf, from, end, at, i, all);
        i := i + 4;
        groups := groups + 1;
      }
      PassEnd(buf[..], all, from, end, s, size, at);
      PositionSum(at, size);
      pos := (pos + size) % U32;
      next := from + size;
    }

    method ApplyGroup(buf: array<Byte>, from: nat, end: nat, ghost at: nat, i: nat, ghost all: seq<Byte>)
      requires from + i + 4 <= end <= buf.Length == |all| && pos == at % U32 && i % 4 == 0
      requires Spliced(buf[..], all, from, Pass(all[from..end][..i], at, false))
      modifies buf
      ensures Spliced(buf[..], all, from, Pass(all[from..end][..i + 4], at, false))
    {
      hide Group, Pass, Spliced;
      ghost var s := all[from..end];
      PassNext(s, at, i);
      SplicedNext(buf[..], all, from, Pass(s[..i], at, false), Group(s[i..i + 4], at + i, false));
      SliceOfSlice(all, from, end, i, i + 4);
      FilterGroup(buf, from + i, at, i);
    }

    lemma PassEnd(x: seq<Byte>, all: seq<Byte>, from: nat, end: nat, s: seq<Byte>, q: nat, at: nat)
      requires from <= end <= |all| && s == all[from..end] && q == Whole(|s|)
      requires Spliced(x, all, from, Pass(s[..q], at, false))
      ensures |x| == |all| && x[..from] == all[..from] && x[from..end] == Pass(s, at, false) && x[end..] == all[end..]
    {
      hide Pass, Spliced;
      PassTail(s, at, false);
      var (p, g) := (Pass(s[..q], at, false), s[q..]);
      SliceOfSlice(all, from, end, q, |s|);
      assert g == s[q..|s|] == all[from + q..end];
      SplicedNext(x, all, from, p, g);
      SplicedWhole(x, from + q, g);
      SplicedParts(x, all, from, p + g);
    }

    lemma SplicedWhole(x: seq<Byte>, k: nat, g: seq<Byte>)
      requires k + |g| <= |x| && x[k..k + |g|] == g
      ensures x[..k] + g + x[k + |g|..] == x
    {
    }

    lemma PassStart(s: seq<Byte>, at: nat, all: seq<Byte>, from: nat)
      requires from <= |all|
      ensures Spliced(all, all, from, Pass(s[..0], at, false))
    {
    }

    lemma PassNext(s: seq<Byte>, at: nat, i: nat)
      requires i % 4 == 0 && i + 4 <= |s|
      ensures Pass(s[..i + 4], at, false) == Pass(s[..i], at, false) + Group(s[i..i + 4], at + i, false)
    {
      hide Group;
      assert s[..i + 4] == s[..i] + s[i..i + 4];
      PassSplit(s[..i], s[i..i + 4], at, false);
      var g := s[i..i + 4];
      assert g[..4] == g && g[4..] == [];
      assert Pass(g, at + i, false) == Group(g, at + i, false) + Pass([], at + i + 4, false);
    }

    // ------------------------------------------------------------ the small buffer

    /** memcpy */
    method Copy(dst: array<Byte>, to: nat, src: array<Byte>, from: nat, n: nat)
      requires dst != src && to + n <= dst.Length && from + n <= src.Length
      modifies dst
      ensures dst[..] == old(dst[..to]) + src[from..from + n] + old(dst[to + n..])
    {
      var i := 0;
      while i < n
        invariant 0 <= i <= n
        invariant dst[..to] == old(dst[..to]) && dst[to..to + i] == src[from..from + i] && dst[to + n..] == old(dst[to + n..])
      {
        ghost var before := dst[..];
        dst[to + i] := src[from + i];
        assert dst[..] == before[to + i := src[from + i]];
        i := i + 1;
      }
    }

    /** bcj_flush: filtered bytes go to the caller, as far as there is room. */
    method Flush(b: XzBuf, ghost raw: seq<Byte>)
      requires Filtered(raw) && b.Valid() && b.out != temp && b as object != this
      modifies `filtered, `size, `given, temp, b`outPos, b.out
      ensures Filtered(raw) && b.Valid()
      ensures old(given) <= given && b.outPos == old(b.outPos) + (|given| - old(|given|))
      ensures filtered + |given| == old(filtered + |given|)
      ensures b.out[..b.outPos] == old(b.out[..b.outPos]) + given[old(|given|)..]
      ensures filtered > 0 ==> b.outPos == b.outSize
    {
      hide Waiting;
      var n := CanFlush(b, raw);
      Copy(b.out, b.outPos, temp, 0, n);
      b.outPos := b.outPos + n;
      Drop(n, raw);
    }

    /** The first n bytes of temp have been handed out. */
    method Drop(n: nat, ghost raw: seq<Byte>)
      requires Filtered(raw) && n <= filtered
      modifies `filtered, `size, `given, temp
      ensures Filtered(raw) && given == old(given) + old(temp[..n]) && filtered == old(filtered) - n
    {
      hide Waiting;
      ghost var (held, all) := (Held(), temp[..]);
      HandOut(raw, given, held, filtered, pos, ret == XzStreamEnd, n);
      Dropped(all, n, |held|, size);
      ShiftTemp(n, |held|);
      given := given + held[..n];
      filtered := filtered - n;
      assert Held() == held[n..];
    }

    /** memmove to the front */
    method ShiftTemp(n: nat, ghost k: nat)
      requires n <= k <= size <= temp.Length
      modifies temp, `size
      ensures size == old(size) - n && temp[..k - n] == old(temp[..k])[n..]
    {
      ghost var all := temp[..];
      Dropped(all, n, k, size);
      MoveDown(temp, n, size);
      size := size - n;
      assert temp[..k - n] == temp[..][..k - n];
      assert old(temp[..k]) == all[..k];
    }

    lemma Dropped(t: seq<Byte>, n: nat, k: nat, size: nat)
      requires n <= k <= size <= |t|
      ensures (t[n..size] + t[size - n..])[..k - n] == t[..k][n..] && t[..k][..n] == t[..n]
    {
    }

    method CanFlush(b: XzBuf, ghost raw: seq<Byte>) returns (n: nat)
      requires Filtered(raw) && b.Valid()
      ensures n == Min(filtered, b.outSize - b.outPos) <= filtered <= size
    {
      n := Min(filtered, b.outSize - b.outPos);
    }

    // --------------------------------------------------------------------- a call

    lemma Link(b: XzBuf, buf: array<Byte>)
      requires lzma2.Supplies(b) && b.Valid() && b.out == buf && !lzma2.dict.single
      requires b !in lzma2.Heap() && buf !in lzma2.Heap() && buf != lzma2.dict.buf
      ensures lzma2.Linked(b)
    {
    }

    /** The decoder's output goes behind what is held, in a buffer of the caller's or the filter's own. */
    method DecodeOn(b: XzBuf, ghost held: seq<Byte>) returns (r: XzRet)
      requires lzma2.Inv() && lzma2.Supplies(b) && b.Valid() && !lzma2.dict.single && this !in lzma2.Heap()
      requires b !in lzma2.Heap() && b.out !in lzma2.Heap() && b.out != lzma2.dict.buf
      requires Waiting(lzma2.out, given, held, 0, pos, false) && |held| <= b.outPos
      requires b.out[b.outPos - |held|..b.outPos] == held
      modifies lzma2.Heap(), lzma2.dict.buf, b`inPos, b`outPos, b.out
      ensures !lzma2.dict.single && lzma2.dict.buf == old(lzma2.dict.buf) && lzma2.dict.size == old(lzma2.dict.size)
      ensures r == XzOk ==> lzma2.Inv()
      ensures r == XzOk && b.outPos < b.outSize ==> b.inPos == |b.input|
      ensures r == XzOk && b.outPos < b.outSize && lzma2.fed == |lzma2.stream| ==> Refuses(lzma2.stream, lzma2.dict.size)
      ensures r == XzStreamEnd <==> EndsWithin(lzma2.stream, lzma2.dict.size, old(lzma2.Reach(b)), old(lzma2.Most(b)))
      ensures r == XzStreamEnd ==> Accepts(lzma2.stream, lzma2.dict.size, lzma2.out, lzma2.fed)
      ensures r == XzDataError ==> Refuses(lzma2.stream, lzma2.dict.size)
      ensures r != XzDataError ==> lzma2.Supplies(b) && b.Valid() && old(b.inPos) <= b.inPos && old(b.outPos) <= b.outPos
      ensures r != XzDataError ==> lzma2.fed - b.inPos == old(lzma2.fed - b.inPos)
      ensures r != XzDataError ==> Pending(lzma2.out) && b.out[..old(b.outPos) - |held|] == old(b.out[..b.outPos - |held|])
      ensures r != XzDataError ==> b.out[old(b.outPos) - |held|..b.outPos] == lzma2.out[|given|..]
    {
      hide Lzma2Dec.Inv, Accepts, Refuses, Waiting, Pass, Lzma2Dec.Supplies;
      ghost var (raw, before, n) := (lzma2.out, b.out[..b.outPos], b.outPos - |held|);
      Link(b, b.out);
      r := lzma2.DecodeMore(b);
      if r != XzDataError {
        Decoded(raw, given, held, pos, lzma2.out);
        assert b.out[..b.outPos] == before + lzma2.out[|raw|..];
        assert b.out[n..b.outPos] == before[n..] + lzma2.out[|raw|..];
      }
    }

    /** Everything before a position that is a multiple of four is filtered and handed out. */
    ghost predicate Pending(raw: seq<Byte>)
      reads `given, `pos
    {
      var n := |given|;
      n <= |raw| && n % 4 == 0 && pos == n % U32 && given == Pass(raw[..n], 0, false)
    }

    /** bcj_apply on the caller's buffer from a position on; what is too short for a group goes back to temp, except at
        the end of the stream. */
    method FilterDirect(b: XzBuf, start: nat, ghost raw: seq<Byte>) returns (more: bool)
      requires Pending(raw) && b.Valid() && b.out != temp && b as object != this && temp.Length == BCJ_TEMP
      requires filtered == 0 && size <= BCJ_TEMP && start <= b.outPos && b.out[start..b.outPos] == raw[|given|..]
      modifies `pos, `size, `given, temp, b`outPos, b.out
      ensures Filtered(raw) && b.Valid() && start <= b.outPos
      ensures b.out[..start] == old(b.out[..start]) && given == old(given) + b.out[start..b.outPos]
      ensures more <==> ret != XzStreamEnd && old(b.outPos) == b.outSize
      ensures more ==> b.outSize - b.outPos < 4
    {
      hide Waiting, Pass, Whole;
      ghost var (was, s, end) := (given, Pass(raw[|given|..], |given|, false), b.outPos);
      var next := Apply(b.out, start, b.outPos, |given|);
      assert b.out[start..end] == s;
      more := false;
      if ret == XzStreamEnd {
        WaitsNoMore(raw, was, s, pos);
        given := was + s;
        assert Held() == [];
      } else {
        WaitsOn(raw, was, s, next - start);
        DirectParts(b.out[..], start, next, end, s);
        HoldBack(b, next);
        given := was + s[..next - start];
        more := b.outPos + size >= b.outSize;
      }
    }

    /** The last bytes of the caller's output go back to temp. */
    method HoldBack(b: XzBuf, next: nat)
      requires b.Valid() && next <= b.outPos <= next + 4 && b.out != temp && b as object != this && temp.Length == BCJ_TEMP
      modifies `size, temp, b`outPos
      ensures b.outPos == next && size == old(b.outPos) - next && temp[..size] == b.out[next..next + size]
    {
      size := b.outPos - next;
      b.outPos := next;
      Copy(temp, 0, b.out, b.outPos, size);
      assert temp[..size] == temp[..][..size];
    }

    lemma DirectParts(x: seq<Byte>, start: nat, next: nat, end: nat, s: seq<Byte>)
      requires start <= next <= end <= |x| && x[start..end] == s
      ensures x[start..next] == s[..next - start] && x[next..end] == s[next - start..]
    {
    }

    /** The direct way: what is held goes to the caller's buffer, the decoder adds to it, and all is filtered there. */
    method Direct(b: XzBuf) returns (more: bool)
      requires Valid() && ret != XzStreamEnd && filtered == 0 && Apart(b) && lzma2.Supplies(b) && size <= b.outSize - b.outPos
      modifies `ret, `pos, `size, `given, temp, lzma2.Heap(), lzma2.dict.buf, b`inPos, b`outPos, b.out
      ensures lzma2.dict.buf == old(lzma2.dict.buf) && lzma2.dict.size == old(lzma2.dict.size)
      ensures ret == XzDataError ==> Refuses(lzma2.stream, lzma2.dict.size) && !more
      ensures ret != XzDataError ==> Valid() && Apart(b) && lzma2.Supplies(b) && old(b.inPos) <= b.inPos
      ensures ret != XzDataError ==> lzma2.fed - b.inPos == old(lzma2.fed - b.inPos)
      ensures ret != XzDataError ==> Delivered(b, old(b.out[..b.outPos]), old(given))
      ensures ret == XzOk && !more ==> b.inPos == |b.input|
      ensures ret == XzOk && !more && lzma2.fed == |lzma2.stream| ==> Refuses(lzma2.stream, lzma2.dict.size)
      ensures ret == XzStreamEnd <==> EndsWithin(lzma2.stream, lzma2.dict.size, old(lzma2.Reach(b)), old(Most(b)))
      ensures ret == XzStreamEnd ==> filtered == 0
      ensures more ==> ret == XzOk && b.outSize - b.outPos < 4
    {
      hide Inner, Lzma2Dec.Supplies, Accepts, Refuses, Filtered, Pending, Delivered;
      var start := b.outPos;
      DecodeDirect(b);
      if ret == XzDataError {
        return false;
      }
      more := FilterDirect(b, start, lzma2.out);
      DeliveredFrom(b, old(b.out[..b.outPos]), old(given));
    }

    lemma DeliveredFrom(b: XzBuf, before: seq<Byte>, was: seq<Byte>)
      requires |before| <= b.outPos <= b.out.Length && b.out[..|before|] == before && given == was + b.out[|before|..b.outPos]
      ensures Delivered(b, before, was)
    {
    }

    method DecodeDirect(b: XzBuf)
      requires Valid() && ret != XzStreamEnd && filtered == 0 && Apart(b) && lzma2.Supplies(b) && size <= b.outSize - b.outPos
      modifies `ret, lzma2.Heap(), lzma2.dict.buf, b`inPos, b`outPos, b.out
      ensures lzma2.dict.buf == old(lzma2.dict.buf) && lzma2.dict.size == old(lzma2.dict.size)
      ensures temp.Length == BCJ_TEMP && size <= BCJ_TEMP && old(b.outPos) <= b.out.Length
      ensures ret == XzDataError ==> Refuses(lzma2.stream, lzma2.dict.size)
      ensures ret != XzDataError ==> Inner()
      ensures ret == XzOk && b.outPos < b.outSize ==> b.inPos == |b.input|
      ensures ret == XzOk && b.outPos < b.outSize && lzma2.fed == |lzma2.stream| ==> Refuses(lzma2.stream, lzma2.dict.size)
      ensures ret == XzStreamEnd <==> EndsWithin(lzma2.stream, lzma2.dict.size, old(lzma2.Reach(b)), old(Most(b)))
      ensures ret != XzDataError ==> lzma2.Supplies(b) && b.Valid() && old(b.inPos) <= b.inPos && old(b.outPos) <= b.outPos
      ensures ret != XzDataError ==> lzma2.fed - b.inPos == old(lzma2.fed - b.inPos)
      ensures ret != XzDataError ==> Pending(lzma2.out) && b.out[..old(b.outPos)] == old(b.out[..b.outPos])
      ensures ret != XzDataError ==> b.out[old(b.outPos)..b.outPos] == lzma2.out[|given|..]
    {
      hide Lzma2Dec.Inv, Lzma2Dec.Supplies, Accepts, Refuses, Filtered, Waiting, Pending;
      HeldNow(lzma2.out);
      ghost var held := Held();
      PutHeld(b);
      ret := DecodeOn(b, held);
    }

    /** memcpy of temp to the caller's output */
    method PutHeld(b: XzBuf)
      requires b.Valid() && size <= b.outSize - b.outPos && b.out != temp && b as object != this && size <= temp.Length
      modifies b`outPos, b.out
      ensures b.outPos == old(b.outPos) + size && b.out[old(b.outPos)..b.outPos] == temp[..size]
      ensures b.out[..old(b.outPos)] == old(b.out[..b.outPos])
    {
      Copy(b.out, b.outPos, temp, 0, size);
      b.outPos := b.outPos + size;
      assert temp[0..0 + size] == temp[..size];
    }

    /** The caller's output is what it was and all that was handed out since. */
    ghost predicate Delivered(b: XzBuf, before: seq<Byte>, was: seq<Byte>)
      reads `given, b, b.out
    {
      was <= given && b.outPos <= b.out.Length && b.out[..b.outPos] == before + given[|was|..]
    }

    /** The other way: the decoder writes to the small buffer, behind what is held there, and all is filtered in it. */
    method Through(b: XzBuf)
      requires Valid() && ret != XzStreamEnd && filtered == 0 && Apart(b) && lzma2.Supplies(b)
      modifies `ret, `pos, `filtered, `size, temp, lzma2.Heap(), lzma2.dict.buf, b`inPos, b`out, b`outPos, b`outSize
      ensures b.out == old(b.out) && b.outPos == old(b.outPos) && b.outSize == old(b.outSize)
      ensures lzma2.dict.buf == old(lzma2.dict.buf) && lzma2.dict.size == old(lzma2.dict.size)
      ensures ret == XzDataError ==> Refuses(lzma2.stream, lzma2.dict.size)
      ensures ret != XzDataError ==> Valid() && Apart(b) && lzma2.Supplies(b) && old(b.inPos) <= b.inPos
      ensures ret != XzDataError ==> lzma2.fed - b.inPos == old(lzma2.fed - b.inPos)
      ensures ret == XzOk ==> b.inPos == |b.input| || filtered == BCJ_TEMP
      ensures ret == XzOk && lzma2.fed == |lzma2.stream| && filtered < BCJ_TEMP ==> Refuses(lzma2.stream, lzma2.dict.size)
      ensures ret == XzStreamEnd <==> EndsWithin(lzma2.stream, lzma2.dict.size, old(lzma2.Reach(b)), |given| + BCJ_TEMP)
    {
      hide Inner, Lzma2Dec.Supplies, Accepts, Refuses, Filtered, Pending;
      Exchange(b);
      if ret != XzDataError {
        FilterTemp(lzma2.out);
      }
    }

    /** The caller's buffer is exchanged for temp, and put back. */
    method Exchange(b: XzBuf)
      requires Valid() && ret != XzStreamEnd && filtered == 0 && Apart(b) && lzma2.Supplies(b)
      modifies `ret, `size, temp, lzma2.Heap(), lzma2.dict.buf, b`inPos, b`out, b`outPos, b`outSize
      ensures b.out == old(b.out) && b.outPos == old(b.outPos) && b.outSize == old(b.outSize)
      ensures lzma2.dict.buf == old(lzma2.dict.buf) && lzma2.dict.size == old(lzma2.dict.size) && temp.Length == BCJ_TEMP
      ensures ret == XzDataError ==> Refuses(lzma2.stream, lzma2.dict.size)
      ensures ret != XzDataError ==> Inner() && lzma2.Supplies(b) && old(b.inPos) <= b.inPos <= |b.input|
      ensures ret != XzDataError ==> lzma2.fed - b.inPos == old(lzma2.fed - b.inPos)
      ensures ret == XzOk ==> b.inPos == |b.input| || size == BCJ_TEMP
      ensures ret == XzOk && lzma2.fed == |lzma2.stream| && size < BCJ_TEMP ==> Refuses(lzma2.stream, lzma2.dict.size)
      ensures ret == XzStreamEnd <==> EndsWithin(lzma2.stream, lzma2.dict.size, old(lzma2.Reach(b)), |given| + BCJ_TEMP)
      ensures ret != XzDataError ==> Pending(lzma2.out) && size <= BCJ_TEMP && temp[..size] == lzma2.out[|given|..]
    {
      hide Inner, Lzma2Dec.Supplies, Accepts, Refuses, Filtered, Pending;
      var (out, outPos, outSize) := (b.out, b.outPos, b.outSize);
      DecodeToTemp(b);
      b.out, b.outPos, b.outSize := out, outPos, outSize;
    }

    method DecodeToTemp(b: XzBuf)
      requires Valid() && ret != XzStreamEnd && filtered == 0 && Apart(b) && lzma2.Supplies(b)
      modifies `ret, `size, temp, lzma2.Heap(), lzma2.dict.buf, b`inPos, b`out, b`outPos, b`outSize
      ensures lzma2.dict.buf == old(lzma2.dict.buf) && lzma2.dict.size == old(lzma2.dict.size) && temp.Length == BCJ_TEMP
      ensures ret == XzDataError ==> Refuses(lzma2.stream, lzma2.dict.size)
      ensures ret != XzDataError ==> Inner() && lzma2.Supplies(b) && old(b.inPos) <= b.inPos <= |b.input|
      ensures ret != XzDataError ==> lzma2.fed - b.inPos == old(lzma2.fed - b.inPos)
      ensures ret == XzOk ==> b.inPos == |b.input| || size == BCJ_TEMP
      ensures ret == XzOk && lzma2.fed == |lzma2.stream| && size < BCJ_TEMP ==> Refuses(lzma2.stream, lzma2.dict.size)
      ensures ret == XzStreamEnd <==> EndsWithin(lzma2.stream, lzma2.dict.size, old(lzma2.Reach(b)), |given| + BCJ_TEMP)
      ensures ret != XzDataError ==> Pending(lzma2.out) && size <= BCJ_TEMP && temp[..size] == lzma2.out[|given|..]
    {
      hide Lzma2Dec.Inv, Lzma2Dec.Supplies, Accepts, Refuses, Filtered, Waiting, Pending;
      HeldNow(lzma2.out);
      ghost var held := Held();
      assert temp[0..size] == held;
      b.out, b.outPos, b.outSize := temp, size, temp.Length;
      ret := DecodeOn(b, held);
      size := b.outPos;
    }

    lemma HeldNow(raw: seq<Byte>)
      requires Filtered(raw) && ret != XzStreamEnd && filtered == 0
      ensures size < 4 < temp.Length == BCJ_TEMP && Waiting(raw, given, temp[..size], 0, pos, false) && Held() == temp[..size]
    {
    }

    /** bcj_apply on temp; at the end of the stream everything counts as filtered. */
    method FilterTemp(ghost raw: seq<Byte>)
      requires Pending(raw) && filtered == 0 && size <= temp.Length == BCJ_TEMP && temp[..size] == raw[|given|..]
      modifies `pos, `filtered, temp
      ensures Filtered(raw) && (size == BCJ_TEMP ==> filtered == BCJ_TEMP)
    {
      hide Waiting, Pass;
      ghost var s := Pass(raw[|given|..], |given|, false);
      assert temp[0..size] == temp[..size];
      filtered := Apply(temp, 0, size, |given|);
      assert temp[..size] == temp[0..size] == s;
      if ret == XzStreamEnd {
        WaitsNoMore(raw, given, s, pos);
        filtered := size;
      } else {
        WaitsOn(raw, given, s, filtered);
      }
    }

    /** Filtered bytes that did not fit the last time. */
    method FlushFirst(b: XzBuf)
      requires Valid() && Apart(b) && lzma2.Supplies(b)
      modifies `filtered, `size, `given, temp, b`outPos, b.out
      ensures Valid() && Apart(b) && lzma2.Supplies(b) && Delivered(b, old(b.out[..b.outPos]), old(given))
      ensures filtered > 0 ==> b.outPos == b.outSize
      ensures b.outPos - |given| == old(b.outPos - |given|) && filtered + |given| == old(filtered + |given|)
    {
      hide Lzma2Dec.Inv, Lzma2Dec.Supplies, Accepts, Waiting;
      Flush(b, lzma2.out);
    }

    /** xz_dec_bcj_run: whatever room the caller's buffers have, what is handed out is the next part of the filtered
        output of the whole stream. */
    method FilterOn(b: XzBuf) returns (r: XzRet)
      requires Valid() && GoesOn() && Apart(b) && lzma2.Supplies(b)
      modifies `ret, `pos, `filtered, `size, `given, temp, lzma2.Heap(), lzma2.dict.buf
      modifies b`inPos, b`out, b`outPos, b`outSize, b.out
      ensures lzma2.dict.buf == old(lzma2.dict.buf) && lzma2.dict.size == old(lzma2.dict.size)
      ensures r == XzDataError ==> Refuses(lzma2.stream, lzma2.dict.size)
      ensures r != XzDataError ==> Valid() && Apart(b) && lzma2.Supplies(b)
      ensures r != XzDataError ==> b.out == old(b.out) && b.outSize == old(b.outSize) && old(b.inPos) <= b.inPos
      ensures r != XzDataError ==> lzma2.fed - b.inPos == old(lzma2.fed - b.inPos)
      ensures r != XzDataError ==> Delivered(b, old(b.out[..b.outPos]), old(given))
      ensures r == XzOk ==> b.outPos == b.outSize || b.inPos == |b.input|
      ensures (r == XzOk ==> GoesOn()) && (r == XzStreamEnd ==> ret == XzStreamEnd)
      ensures r == XzOk && lzma2.fed == |lzma2.stream| && b.outPos < b.outSize ==> Refuses(lzma2.stream, lzma2.dict.size)
      ensures r == XzStreamEnd <==> EndsWithin(lzma2.stream, lzma2.dict.size, old(lzma2.Reach(b)), old(Most(b)))
      ensures r == XzStreamEnd ==> given == Pass(lzma2.out, 0, false)
      ensures r == XzStreamEnd ==> Accepts(lzma2.stream, lzma2.dict.size, lzma2.out, lzma2.fed)
    {
      hide Lzma2Dec.Inv, Lzma2Dec.Supplies, Accepts, Refuses, Filtered, Waiting, Pass;
      ghost var (before, was) := (b.out[..b.outPos], given);
      if filtered > 0 {
        ghost var (reach, most) := (lzma2.Reach(b), Most(b));
        FlushFirst(b);
        if filtered > 0 {
          NoRoom(reach);
          return XzOk;
        }
        if ret == XzStreamEnd {
          AllOut(lzma2.out);
          AllWithin(reach, most);
          return XzStreamEnd;
        }
      }
      ghost var (mid, midGiven) := (b.out[..b.outPos], given);
      r := FilterNew(b);
      if r != XzDataError {
        DeliveredMore(b, before, was, mid, midGiven);
      }
    }

    /** The part of xz_dec_bcj_run after everything filtered has been handed out. */
    method FilterNew(b: XzBuf) returns (r: XzRet)
      requires Valid() && ret == XzOk && filtered == 0 && Apart(b) && lzma2.Supplies(b)
      modifies `ret, `pos, `filtered, `size, `given, temp, lzma2.Heap(), lzma2.dict.buf
      modifies b`inPos, b`out, b`outPos, b`outSize, b.out
      ensures lzma2.dict.buf == old(lzma2.dict.buf) && lzma2.dict.size == old(lzma2.dict.size)
      ensures r == XzDataError ==> Refuses(lzma2.stream, lzma2.dict.size)
      ensures r != XzDataError ==> Valid() && Apart(b) && lzma2.Supplies(b)
      ensures r != XzDataError ==> b.out == old(b.out) && b.outSize == old(b.outSize) && old(b.inPos) <= b.inPos
      ensures r != XzDataError ==> lzma2.fed - b.inPos == old(lzma2.fed - b.inPos)
      ensures r != XzDataError ==> Delivered(b, old(b.out[..b.outPos]), old(given))
      ensures r == XzOk ==> b.outPos == b.outSize || b.inPos == |b.input|
      ensures (r == XzOk ==> GoesOn()) && (r == XzStreamEnd ==> ret == XzStreamEnd)
      ensures r == XzOk && lzma2.fed == |lzma2.stream| && b.outPos < b.outSize ==> Refuses(lzma2.stream, lzma2.dict.size)
      ensures r == XzStreamEnd <==> EndsWithin(lzma2.stream, lzma2.dict.size, old(lzma2.Reach(b)), old(Most(b)))
      ensures r == XzStreamEnd ==> given == Pass(lzma2.out, 0, false)
      ensures r == XzStreamEnd ==> Accepts(lzma2.stream, lzma2.dict.size, lzma2.out, lzma2.fed)
    {
      hide Lzma2Dec.Inv, Lzma2Dec.Supplies, Accepts, Refuses, Filtered, Waiting, Pass;
      ghost var (before, was) := (b.out[..b.outPos], given);
      DeliveredNone(b);
      HeldNow(lzma2.out);
      if size < b.outSize - b.outPos || size == 0 {
        var more := Direct(b);
        if !more {
          if ret == XzStreamEnd {
            AllOut(lzma2.out);
          }
          return ret;
        }
        HeldNow(lzma2.out);
      }
      if b.outPos < b.outSize {
        ghost var (mid, midGiven) := (b.out[..b.outPos], given);
        r := FilterThrough(b);
        if r != XzDataError {
          DeliveredMore(b, before, was, mid, midGiven);
        }
      } else {
        if size > 0 {
          NoRoom(lzma2.Reach(b));
        }
        r := ret;
      }
    }

    method FilterThrough(b: XzBuf) returns (r: XzRet)
      requires Valid() && ret == XzOk && filtered == 0 && Apart(b) && lzma2.Supplies(b) && b.outSize - b.outPos < 4
      modifies `ret, `pos, `filtered, `size, `given, temp, lzma2.Heap(), lzma2.dict.buf
      modifies b`inPos, b`out, b`outPos, b`outSize, b.out
      ensures lzma2.dict.buf == old(lzma2.dict.buf) && lzma2.dict.size == old(lzma2.dict.size)
      ensures r == XzDataError ==> Refuses(lzma2.stream, lzma2.dict.size)
      ensures r != XzDataError ==> Valid() && Apart(b) && lzma2.Supplies(b)
      ensures r != XzDataError ==> b.out == old(b.out) && b.outSize == old(b.outSize) && old(b.inPos) <= b.inPos
      ensures r != XzDataError ==> lzma2.fed - b.inPos == old(lzma2.fed - b.inPos)
      ensures r != XzDataError ==> Delivered(b, old(b.out[..b.outPos]), old(given))
      ensures r == XzOk ==> b.outPos == b.outSize || b.inPos == |b.input|
      ensures (r == XzOk ==> GoesOn()) && (r == XzStreamEnd ==> ret == XzStreamEnd)
      ensures r == XzOk && lzma2.fed == |lzma2.stream| && b.outPos < b.outSize ==> Refuses(lzma2.stream, lzma2.dict.size)
      ensures r == XzStreamEnd <==> EndsWithin(lzma2.stream, lzma2.dict.size, old(lzma2.Reach(b)), old(Most(b)))
      ensures r == XzStreamEnd ==> given == Pass(lzma2.out, 0, false)
      ensures r == XzStreamEnd ==> Accepts(lzma2.stream, lzma2.dict.size, lzma2.out, lzma2.fed)
    {
      hide Lzma2Dec.Inv, Lzma2Dec.Supplies, Accepts, Refuses, Filtered, Waiting, Pass;
      ghost var (reach, most, room) := (lzma2.Reach(b), Most(b), |given| + BCJ_TEMP);
      Through(b);
      if ret != XzStreamEnd && EndsWithin(lzma2.stream, lzma2.dict.size, reach, most) {
        EndsWithinMore(lzma2.stream, lzma2.dict.size, reach, most, room);
      }
      if ret == XzDataError {
        return XzDataError;
      }
      FlushFirst(b);
      if filtered > 0 {
        NoRoom(reach);
        return XzOk;
      }
      if ret == XzStreamEnd {
        AllOut(lzma2.out);
        AllWithin(reach, most);
      }
      r := ret;
    }

    /** With bytes held and no room for them, the output was not going to fit. */
    lemma NoRoom(reach: int)
      requires Valid() && ret != XzDataError && (filtered > 0 || (ret == XzOk && size > 0))
      ensures !EndsWithin(lzma2.stream, lzma2.dict.size, reach, |given|)
    {
      hide Accepts, Refuses, Lzma2Dec.Inv, Pass;
      HeldSize();
      if EndsWithin(lzma2.stream, lzma2.dict.size, reach, |given|) {
        var text: seq<Byte>, used: nat :| Accepts(lzma2.stream, lzma2.dict.size, text, used) && |text| <= |given|;
        SoFar(text, used);
      }
    }

    /** Of a well-formed stream no more was taken and produced than there is. */
    lemma SoFar(text: seq<Byte>, used: nat)
      requires Inner() && Accepts(lzma2.stream, lzma2.dict.size, text, used)
      ensures lzma2.fed <= used && |lzma2.out| <= |text|
      ensures ret == XzStreamEnd ==> lzma2.fed == used && lzma2.out == text
    {
      hide Accepts, Refuses, Lzma2Dec.Inv;
      if ret == XzStreamEnd {
        OneVerdict(lzma2.stream, lzma2.dict.size, text, used, lzma2.out, lzma2.fed);
      } else {
        lzma2.StillShort(text, used);
      }
    }

    /** xz_dec_bcj_run in the one call of a single-call decoder. It comes to the end exactly when it is given all of a
        well-formed stream and room for its text. Otherwise it filters what the decoder may still look at, and with the
        output full but for an unfinished group it asks the decoder for more, in temp. That never returns exactly if
        there is input the decoder cannot take. All of a stream leaves such input, so that then the call returns exactly
        if the room is enough or a multiple of four. */
    method FilterSingle(b: XzBuf) returns (o: Outcome)
      requires FirstCall(b) && lzma2.Supplies(b)
      modifies `ret, `pos, `filtered, `size, `given, temp, lzma2.Heap(), lzma2.dict.buf
      modifies b`inPos, b`out, b`outPos, b`outSize, b.out
      ensures o == Returned(XzStreamEnd) <==>
        EndsWithin(lzma2.stream, old(lzma2.dict.size), old(lzma2.Reach(b)), old(b.outSize - b.outPos))
      ensures o == Returned(XzStreamEnd) ==>
        Accepts(lzma2.stream, old(lzma2.dict.size), lzma2.out, lzma2.fed) && b.inPos == old(b.inPos) + lzma2.fed
      ensures o == Returned(XzDataError) ==> Refuses(lzma2.stream, old(lzma2.dict.size))
      ensures (o == Returned(XzOk) || o.NeverReturns?) ==>
        (o.NeverReturns? <==> old(b.outSize - b.outPos) % 4 != 0 && |lzma2.out| == old(b.outSize - b.outPos) && lzma2.Stuck(b))
      ensures forall text: seq<Byte>, used: nat ::
        Accepts(lzma2.stream, old(lzma2.dict.size), text, used) && used <= old(lzma2.Reach(b))
        ==> o == OneCall(|text|, old(b.outSize - b.outPos))
      ensures o == Returned(XzOk) || o == Returned(XzStreamEnd) ==>
        && b.Valid() && b.out == old(b.out) && b.outSize == old(b.outSize)
        && b.out[..b.outPos] == old(b.out[..b.outPos]) + given && given == Final(lzma2.out, o == Returned(XzStreamEnd))
      ensures o == Returned(XzOk) || o == Returned(XzStreamEnd) ==>
        old(b.inPos) <= b.inPos && AtMost(b.inPos - old(b.inPos), |given|)
      ensures lzma2.dict.size == old(lzma2.dict.size)
    {
      hide Lzma2Dec.Inv, Lzma2Dec.Linked, Lzma2Dec.Supplies, Lzma2Dec.Full, Lzma2Dec.Stuck, Accepts, Refuses, EndsWithin, Pass,
           Filtered, Pending, Dict.OutputOf;
      var start := b.outPos;
      ghost var (size, reach, room) := (lzma2.dict.size, lzma2.Reach(b), b.outSize - b.outPos);
      ret := DecodeFirst(b);
      if ret == XzDataError {
        o := Returned(XzDataError);
      } else {
        var more := FilterFirst(b, start);
        if more && b.outPos < b.outSize {
          o := AskAgain(b);
        } else {
          o := Returned(ret);
        }
      }
      forall text: seq<Byte>, used: nat | Accepts(lzma2.stream, size, text, used) && used <= reach
        ensures o == OneCall(|text|, room)
      {
        ByLength(lzma2.stream, size, reach, room, o, text, used);
      }
    }

    /** If the stream is well formed, it has that many bytes, and its text has. */
    ghost predicate AtMost(taken: int, n: nat)
      reads lzma2.dict`size
    {
      forall text: seq<Byte>, used: nat :: Accepts(lzma2.stream, lzma2.dict.size, text, used) ==> taken <= used && n <= |text|
    }

    /** What of the text is handed out in one call: all of it at the end of the stream, and before that whole groups. */
    ghost function Final(raw: seq<Byte>, ended: bool): seq<Byte> {
      Pass(if ended then raw else raw[..Whole(|raw|)], 0, false)
    }

    /** The decoder's dictionary is the caller's output; all else is apart. */
    ghost predicate Own(b: XzBuf)
      reads b, lzma2.dict`buf
    {
      && this !in lzma2.Heap() && temp !in lzma2.Heap() && b !in lzma2.Heap() && b as object != this
      && b.Valid() && b.out !in lzma2.Heap() && b.out != temp && temp.Length == BCJ_TEMP
      && lzma2.dict.single && b.out == lzma2.dict.buf
    }

    /** The decoder alone, in the one call: xz_dec_lzma2_run for the first time. */
    method DecodeFirst(b: XzBuf) returns (r: XzRet)
      requires FirstCall(b) && lzma2.Supplies(b)
      modifies lzma2.Heap(), lzma2.dict.buf, b`inPos, b`outPos, b.out
      ensures r == XzStreamEnd <==>
        EndsWithin(lzma2.stream, old(lzma2.dict.size), old(lzma2.Reach(b)), old(b.outSize - b.outPos))
      ensures r == XzStreamEnd ==> Accepts(lzma2.stream, old(lzma2.dict.size), lzma2.out, lzma2.fed)
      ensures r == XzDataError ==> Refuses(lzma2.stream, old(lzma2.dict.size))
      ensures r != XzDataError ==> Own(b) && old(b.outPos) <= b.outPos && b.out[..old(b.outPos)] == old(b.out[..b.outPos])
      ensures r != XzDataError ==> b.out[old(b.outPos)..b.outPos] == lzma2.out && b.inPos == old(b.inPos) + lzma2.fed
      ensures r == XzOk && b.outPos == b.outSize ==> lzma2.Full(b)
      ensures r == XzOk ==> forall text: seq<Byte>, used: nat ::
        Accepts(lzma2.stream, old(lzma2.dict.size), text, used) && used <= old(lzma2.Reach(b))
        ==> b.outPos == b.outSize && lzma2.Stuck(b)
      ensures r != XzDataError ==> AtMost(lzma2.fed, |lzma2.out|)
      ensures lzma2.dict.size == old(lzma2.dict.size)
    {
      hide Lzma2Dec.Inv, Lzma2Dec.Supplies, Lzma2Dec.Full, Lzma2Dec.Stuck, Accepts, EndsWithin;
      assert lzma2.Linked(b);
      r := lzma2.DecodeMore(b);
      if r != XzDataError {
        lzma2.LinkedRoom(b);
      }
      if r == XzOk {
        if b.outPos == b.outSize {
          lzma2.FullStop(b);
        }
        forall text: seq<Byte>, used: nat |
          Accepts(lzma2.stream, old(lzma2.dict.size), text, used) && used <= old(lzma2.Reach(b))
          ensures b.outPos == b.outSize && lzma2.Stuck(b)
        {
          lzma2.WholeStuck(b, text, used);
        }
      }
      if r != XzDataError {
        NoMoreYet(r);
      }
    }

    lemma NoMoreYet(r: XzRet)
      requires if r == XzStreamEnd then Accepts(lzma2.stream, lzma2.dict.size, lzma2.out, lzma2.fed) else lzma2.Inv()
      ensures AtMost(lzma2.fed, |lzma2.out|)
    {
      hide Accepts, Lzma2Dec.Inv;
      forall text: seq<Byte>, used: nat | Accepts(lzma2.stream, lzma2.dict.size, text, used)
        ensures lzma2.fed <= used && |lzma2.out| <= |text|
      {
        if r == XzStreamEnd {
          OneVerdict(lzma2.stream, lzma2.dict.size, text, used, lzma2.out, lzma2.fed);
        } else {
          lzma2.StillShort(text, used);
        }
      }
    }

    /** The filter works on what the decoder has written, in its dictionary. */
    method FilterFirst(b: XzBuf, start: nat) returns (more: bool)
      requires Own(b) && pos == filtered == size == 0 && given == [] && ret != XzDataError
      requires start <= b.outPos && b.out[start..b.outPos] == lzma2.out
      requires ret == XzOk && b.outPos == b.outSize ==> lzma2.Full(b)
      modifies `pos, `size, `given, temp, b`outPos, b.out, lzma2.dict`hist, lzma2.dict`prior
      ensures Own(b) && Filtered(lzma2.out) && b.outPos == start + |given|
      ensures b.out[..b.outPos] == old(b.out[..start]) + given && given == Final(lzma2.out, ret == XzStreamEnd)
      ensures more <==> ret == XzOk && old(b.outPos) == b.outSize
      ensures more ==> lzma2.Full(b)
    {
      hide Lzma2Dec.Full, Filtered, Pending, Pass, Dict.Valid, Final;
      if ret == XzOk && b.outPos == b.outSize {
        lzma2.FullWindow(b);
      }
      label Before:
      PendingFirst(lzma2.out);
      more := FilterDirect(b, start, lzma2.out);
      GivenFirst(lzma2.out);
      if more {
        lzma2.dict.Reread();
        lzma2.StillFull@Before(b);
      }
      assert b.out[..b.outPos] == b.out[..start] + b.out[start..b.outPos];
    }

    lemma PendingFirst(raw: seq<Byte>)
      requires given == [] && pos == 0
      ensures Pending(raw) && raw[|given|..] == raw
    {
    }

    lemma GivenFirst(raw: seq<Byte>)
      requires Filtered(raw) && filtered == 0
      ensures given == Final(raw, ret == XzStreamEnd)
    {
      hide Pass;
      var n := |given|;
      if ret != XzStreamEnd {
        assert given + Held()[..0] == given;
        DivisionIs(|raw|, 4, n / 4, |raw| - n);
        assert n == Whole(|raw|);
      } else {
        assert Held() == [];
      }
    }

    /** The output is full but for an unfinished group: the decoder is run again, in temp. */
    method AskAgain(b: XzBuf) returns (o: Outcome)
      requires Own(b) && lzma2.Full(b) && Filtered(lzma2.out) && ret == XzOk && filtered == 0
      modifies `ret, `pos, `filtered, `size, `given, temp, lzma2.Heap(), lzma2.dict.buf
      modifies b`inPos, b`out, b`outPos, b`outSize, b.out
      ensures o.NeverReturns? <==> old(lzma2.Stuck(b))
      ensures o.NeverReturns? <==> lzma2.Stuck(b)
      ensures (o == Returned(XzOk) || o.NeverReturns?) && lzma2.out == old(lzma2.out) && lzma2.dict.size == old(lzma2.dict.size)
      ensures o == Returned(XzOk) ==> b.Valid() && b.out == old(b.out) && b.outPos == old(b.outPos) && b.outSize == old(b.outSize)
      ensures o == Returned(XzOk) ==> b.inPos == |b.input|
      ensures o == Returned(XzOk) ==> b.out[..b.outPos] == old(b.out[..b.outPos]) && given == old(given)
    {
      hide Lzma2Dec.Full, Lzma2Dec.Stuck, Lzma2Dec.Elsewhere, Filtered, Pending, Pass;
      ghost var raw := lzma2.out;
      var (out, outPos, outSize) := (b.out, b.outPos, b.outSize);
      HeldGroup(raw);
      var more := DecodeElsewhere(b);
      if more {
        return NeverReturns;
      }
      size := b.outPos;
      b.out, b.outPos, b.outSize := out, outPos, outSize;
      FilterTemp(raw);
      NoGroup(raw);
      Flush(b, raw);
      o := Returned(ret);
    }

    /** Fewer than four bytes are held: no group to filter. */
    lemma NoGroup(raw: seq<Byte>)
      requires Filtered(raw) && ret != XzStreamEnd && |given| % 4 == 0 && size < 4
      ensures filtered == 0
    {
      hide Pass;
    }

    lemma HeldGroup(raw: seq<Byte>)
      requires Filtered(raw) && ret != XzStreamEnd && filtered == 0
      ensures |given| % 4 == 0 && size < 4 && Pending(raw) && temp[..size] == raw[|given|..]
    {
      hide Pass;
      assert given + Held()[..0] == given;
    }

    /** The caller's buffer is exchanged for temp. */
    method DecodeElsewhere(b: XzBuf) returns (more: bool)
      requires Own(b) && lzma2.Full(b) && Filtered(lzma2.out) && ret == XzOk && filtered == 0
      modifies `ret, lzma2.Heap(), lzma2.dict.buf, b`inPos, b`out, b`outPos, b`outSize
      ensures more <==> old(lzma2.Stuck(b))
      ensures more <==> lzma2.Stuck(b)
      ensures lzma2.out == old(lzma2.out) && lzma2.dict.size == old(lzma2.dict.size)
      ensures lzma2.dict.buf == old(lzma2.dict.buf) && lzma2.dict.buf[..] == old(lzma2.dict.buf[..])
      ensures b.outPos == size && (!more ==> ret == XzOk && b.inPos == |b.input|)
    {
      hide Lzma2Dec.Full, Filtered, Pass, Dict.Valid;
      lzma2.FullWindow(b);
      label Before:
      HeldNow(lzma2.out);
      b.out, b.outPos, b.outSize := temp, size, temp.Length;
      lzma2.StillFull@Before(b);
      more := lzma2.RunElsewhere(b);
    }

    lemma HeldSize()
      requires Filtered(lzma2.out)
      ensures |given| + filtered <= |lzma2.out| && (ret != XzStreamEnd ==> |given| + size <= |lzma2.out|)
    {
      hide Pass;
    }

    /** Everything was handed out, within reach and room. */
    lemma AllWithin(reach: int, most: int)
      requires Accepts(lzma2.stream, lzma2.dict.size, lzma2.out, lzma2.fed) && given == Pass(lzma2.out, 0, false)
      requires lzma2.fed <= reach && |given| <= most
      ensures EndsWithin(lzma2.stream, lzma2.dict.size, reach, most)
    {
      hide Accepts, Pass;
    }

    lemma DeliveredNone(b: XzBuf)
      requires b.Valid()
      ensures Delivered(b, b.out[..b.outPos], given)
    {
    }

    lemma DeliveredMore(b: XzBuf, before: seq<Byte>, was: seq<Byte>, mid: seq<Byte>, midGiven: seq<Byte>)
      requires was <= midGiven && mid == before + midGiven[|was|..] && Delivered(b, mid, midGiven)
      ensures Delivered(b, before, was)
    {
    }

    lemma AllOut(raw: seq<Byte>)
      requires Filtered(raw) && ret == XzStreamEnd && filtered == 0
      ensures given == Pass(raw, 0, false)
    {
    }
  }

  /** The program's own use: one call, room for just the data, and the stream and whatever follows it as input. The data
      an encoder filtered and packed is back in the caller's buffer. */
  method Unpack(b: XzBuf, dictSize: nat, ghost data: seq<Byte>, ghost ps: seq<Piece>, ghost tail: seq<Byte>) returns (r: XzRet)
    requires EncodableAll(FirstRef(), dictSize, ps) && Texts(FirstRef(), dictSize, ps) == Pass(data, 0, true)
    requires b.Valid() && b.input[b.inPos..] == EncodeStream(FirstRef(), dictSize, ps) + tail && |data| <= b.outSize - b.outPos
    modifies b`inPos, b`out, b`outPos, b`outSize, b.out
    ensures b.Valid() && b.out == old(b.out) && b.outSize == old(b.outSize)
    ensures r == XzStreamEnd && b.out[..b.outPos] == old(b.out[..b.outPos]) + data
    ensures b.inPos == old(b.inPos) + |EncodeStream(FirstRef(), dictSize, ps)|
  {
    hide Accepts, Encodable, EncodableAll, EncodeStream, Texts, FreshProbs, Pass, Lzma2Dec.Inv;
    ghost var stream := b.input[b.inPos..];
    StreamRoundTrip(dictSize, ps, tail);
    var filter := new BcjDec.Single(stream, dictSize, b);
    assert stream[0..|stream|] == stream;
    var o := filter.FilterSingle(b);
    r := o.ret;
    DataRoundTrip(data, dictSize, ps, tail, filter.lzma2.out, filter.lzma2.fed);
  }

  /** Bytes stored as they are in one chunk, and the end marker. */
  lemma Stored(dictSize: nat, data: seq<Byte>, tail: seq<Byte>)
    requires 0 < |data| <= 0x100
    ensures Accepts([1, 0, |data| - 1] + data + [0] + tail, dictSize, data, |data| + 4)
  {
    hide Accepts, FreshProbs;
    var (r, ps) := (FirstRef(), [Plain(true, data)]);
    assert Encodable(r, dictSize, ps[0]) && ps[1..] == [];
    assert EncodePiece(r, dictSize, ps[0]) == [1, 0, |data| - 1] + data;
    var (next, s) := (Leaving(r, dictSize, ps[0]), EncodeStream(r, dictSize, ps));
    assert EncodeStream(next, dictSize, ps[1..]) == [0] && Texts(next, dictSize, ps[1..]) == [];
    assert s == [1, 0, |data| - 1] + data + [0];
    assert Texts(r, dictSize, ps) == data + [] == data;
    StreamRoundTrip(dictSize, ps, tail);
  }

  /** With room for three of them the one call never returns, whatever they are. */
  method NoReturn(b: XzBuf, dictSize: nat, ghost data: seq<Byte>) returns (o: Outcome)
    requires |data| == 5 && b.Valid() && b.input[b.inPos..] == [1, 0, 4] + data + [0] && b.outSize - b.outPos == 3
    modifies b`inPos, b`out, b`outPos, b`outSize, b.out
    ensures o.NeverReturns?
  {
    hide Accepts, Pass, Lzma2Dec.Inv;
    ghost var stream := b.input[b.inPos..];
    Stored(dictSize, data, []);
    assert [1, 0, 4] + data + [0] + [] == stream;
    var filter := new BcjDec.Single(stream, dictSize, b);
    assert stream[0..|stream|] == stream;
    o := filter.FilterSingle(b);
  }
}
