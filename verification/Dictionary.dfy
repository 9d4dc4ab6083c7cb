/** The sliding dictionary. In single-call mode it is the output buffer itself; in multi-call mode it is a ring
    whose new bytes are copied out. Both represent the unbounded history since the last reset. */
module Dictionary {
  import opened Bytes
  import opened LzmaModel

  /** The caller's buffers: input bytes to consume, and an output array to fill from outPos on. */
  class XzBuf {
    var input: seq<Byte>
    var inPos: nat
    var out: array<Byte>
    var outPos: nat
    var outSize: nat

    constructor (input: seq<Byte>, out: array<Byte>)
      ensures Valid() && this.input == input && inPos == 0 && this.out == out && outPos == 0 && outSize == out.Length
    {
      this.input, inPos, this.out, outPos, outSize := input, 0, out, 0, out.Length;
    }

    predicate Valid()
      reads this
    {
      inPos <= |input| && outPos <= outSize <= out.Length
    }
  }

  /** The position in a ring of end bytes that holds the byte d + 1 before pos. */
  function Slot(pos: nat, end: nat, d: nat): (i: nat)
    requires pos <= end && d < end
    ensures i < end || (i == 0 && end == 0)
  {
    if d < pos then pos - d - 1 else pos - d - 1 + end
  }

  /** The f latest bytes of the history are in the ring s, written up to pos. */
  ghost predicate Ring(s: seq<Byte>, pos: nat, hist: seq<Byte>, f: nat) {
    && pos <= |s| && f <= |s| && f <= |hist|
    && forall d :: 0 <= d < f ==> Found(s, pos, hist, d)
  }

  ghost predicate Found(s: seq<Byte>, pos: nat, hist: seq<Byte>, d: nat)
    requires pos <= |s| && d < |s| && d < |hist|
  {
    hist[|hist| - 1 - d] == s[Slot(pos, |s|, d)]
  }

  lemma RingPut(s: seq<Byte>, pos: nat, hist: seq<Byte>, f: nat, b: Byte, f': nat)
    requires Ring(s, pos, hist, f) && pos < |s| && f' <= f + 1 && f' <= |s|
    ensures Ring(s[pos := b], pos + 1, hist + [b], f')
  {
    var (s', hist') := (s[pos := b], hist + [b]);
    var pos' := pos + 1;
    forall d | 0 <= d < f' ensures Found(s', pos', hist', d) {
      if d > 0 {
        assert Found(s, pos, hist, d - 1);
      }
    }
  }

  lemma RingWrap(s: seq<Byte>, hist: seq<Byte>, f: nat)
    requires Ring(s, |s|, hist, f)
    ensures Ring(s, 0, hist, f)
  {
    forall d | 0 <= d < f ensures Found(s, 0, hist, d) {
      assert Found(s, |s|, hist, d);
    }
  }

  lemma RingRecent(s: seq<Byte>, pos: nat, hist: seq<Byte>, f: nat, n: nat)
    requires Ring(s, pos, hist, f) && n <= f && n <= pos
    ensures s[pos - n..pos] == hist[|hist| - n..]
  {
    var (a, b) := (s[pos - n..pos], hist[|hist| - n..]);
    forall k | 0 <= k < n ensures a[k] == b[k] {
      assert Found(s, pos, hist, n - 1 - k);
    }
  }

  /** How full the dictionary is, also while a copy has not yet brought full up to date. */
  function Extent(pos: nat, full: nat): nat {
    if full < pos then pos else full
  }

  /** The dictionary's variables agree with the history; ring is the whole buffer. */
  ghost predicate Consistent(single: bool, size: nat, ring: seq<Byte>, pos: nat, full: nat, hist: seq<Byte>) {
    var f := Extent(pos, full);
    && f == Min(|hist|, |ring|)
    && (f == pos || f == |ring|)
    && (single ==> |hist| == pos)
    && (!single ==> |ring| == size && |ring| % 16 == 0 && (|hist| - pos) % 16 == 0)
    && (|ring| == 0 ==> hist == [])
    && Ring(ring, pos, hist, f)
  }

  lemma ConsistentPut(single: bool, size: nat, ring: seq<Byte>, pos: nat, full: nat, hist: seq<Byte>, b: Byte)
    requires Consistent(single, size, ring, pos, full, hist) && pos < |ring|
    ensures Consistent(single, size, ring[pos := b], pos + 1, full, hist + [b])
  {
    RingPut(ring, pos, hist, Extent(pos, full), b, Extent(pos + 1, full));
  }

  /** A single-call dictionary starts with the whole history. */
  lemma SingleWindow(size: nat, ring: seq<Byte>, pos: nat, full: nat, hist: seq<Byte>)
    requires Consistent(true, size, ring, pos, full, hist)
    ensures pos == |hist| <= |ring| && ring[..pos] == hist
  {
    RingRecent(ring, pos, hist, Extent(pos, full), pos);
  }

  /** A position in a ring of e bytes, n bytes on. */
  lemma WrapsOn(x: nat, n: nat, e: nat)
    requires e > 0 && x % e + n <= e
    ensures (x + n) % e == if x % e + n == e then 0 else x % e + n
  {
    var (q, r) := (x / e, x % e);
    if r + n == e {
      DivisionIs(x + n, e, q + 1, 0);
    } else {
      DivisionIs(x + n, e, q, r + n);
    }
  }

  /** What a single-call dictionary holds is a history it represents. */
  lemma HeldWindow(size: nat, ring: seq<Byte>, pos: nat)
    requires pos <= |ring|
    ensures Consistent(true, size, ring, pos, pos, ring[..pos])
  {
    var hist := ring[..pos];
    forall d | 0 <= d < pos ensures Found(ring, pos, hist, d) {
    }
  }

  lemma HeadAndPart(s: seq<Byte>, base: nat, n: nat, k: nat)
    requires base + n <= |s| && k <= n
    ensures s[..base + k] == s[..base] + s[base..base + n][..k]
  {
  }

  class Dict {
    const single: bool
    var buf: array<Byte>
    var base: nat
    var start: nat
    var pos: nat
    var full: nat
    var limit: nat
    var end: nat
    var size: nat

    /** Every byte decoded since the last dictionary reset. */
    ghost var hist: seq<Byte>

    /** In single-call mode, what the output held before the dictionary's part of it at the last reset. */
    ghost var prior: seq<Byte>

    constructor Multi(dictSize: nat)
      requires dictSize % 16 == 0
      ensures !single && fresh(buf) && buf.Length == dictSize && size == dictSize == end
      ensures Valid() && hist == [] && limit == pos == start == 0
    {
      single, size, end, base := false, dictSize, dictSize, 0;
      buf := new Byte[dictSize];
      prior := [];
      start, pos, full, limit := 0, 0, 0, 0;
      hist := [];
    }

    constructor Single(dictSize: nat, b: XzBuf)
      requires b.Valid()
      ensures single && size == dictSize && Valid() && hist == [] && OutputOf(b)
      ensures limit == pos == start == 0
    {
      single, size := true, dictSize;
      buf, base, end := b.out, b.outPos, b.outSize - b.outPos;
      prior := b.out[..b.outPos];
      start, pos, full, limit := 0, 0, 0, 0;
      hist := [];
    }

    ghost predicate Represents()
      reads `buf, `base, `end, `size, `pos, `full, `hist, `prior, buf
    {
      && base + end <= buf.Length
      && Consistent(single, size, buf[base..base + end], pos, full, hist)
      && (single ==> buf[..base] == prior)
    }

    ghost predicate Valid()
      reads this, buf
    {
      start <= pos <= full <= end && limit <= end && Represents()
    }

    /** In single-call mode the bytes from start on are the caller's output from outPos on. */
    ghost predicate OutputOf(b: XzBuf)
      reads this, b
    {
      if single then buf == b.out && base + start == b.outPos && base + end == b.outSize
      else buf != b.out
    }

    /** The output was changed under a single-call dictionary: from now on its history is what it holds. */
    ghost method Reread()
      requires single && start <= pos == full <= end && limit <= end && base + end <= buf.Length
      modifies `hist, `prior
      ensures Valid() && |hist| == pos && unchanged(`pos, `full)
    {
      hist, prior := buf[base..base + end][..pos], buf[..base];
      HeldWindow(size, buf[base..base + end], pos);
    }

    predicate HasSpace()
      reads this
    {
      pos < limit
    }

    method Reset(b: XzBuf)
      requires Valid() && b.Valid() && OutputOf(b) && start == pos
      modifies this
      ensures Valid() && OutputOf(b) && hist == []
      ensures start == pos == limit == full == 0 && size == old(size) && buf == old(buf)
      ensures !single ==> end == old(end)
      ensures single ==> prior == b.out[..b.outPos] && base == b.outPos
    {
      if single {
        buf, base := b.out, b.outPos;
        end := b.outSize - b.outPos;
        prior := b.out[..b.outPos];
      }
      start, pos, limit, full := 0, 0, 0, 0;
      hist := [];
    }

    method SetLimit(outMax: nat)
      requires Valid()
      modifies `limit
      ensures Valid() && limit == Min(end, pos + outMax) && pos <= limit
    {
      if end - pos <= outMax {
        limit := end;
      } else {
        limit := pos + outMax;
      }
    }

    /** The byte dist + 1 back; zero for the byte before the first one. */
    function Get(dist: nat): (r: Byte)
      reads this, buf
      requires Valid() && (dist < full || (dist == 0 && full == 0))
      ensures r == HistGet(hist, dist)
    {
      if full > 0 then
        assert Found(buf[base..base + end], pos, hist, dist);
        buf[base + (if dist >= pos then pos - dist - 1 + end else pos - dist - 1)]
      else 0
    }

    /** One byte more, at the position. */
    method Store(b: Byte)
      requires Represents() && pos < end
      modifies `pos, `hist, buf
      ensures Represents() && hist == old(hist) + [b] && pos == old(pos) + 1
    {
      hide Consistent;
      ghost var ring := buf[base..base + end];
      ConsistentPut(single, size, ring, pos, full, hist, b);
      buf[base + pos] := b;
      assert buf[base..base + end] == ring[pos := b];
      pos := pos + 1;
      hist := hist + [b];
    }

    /** The dictionary is at least as full as it is written. */
    method Fill()
      requires Represents()
      modifies `full
      ensures Represents() && full == Extent(pos, old(full)) && pos <= full <= end
    {
      if full < pos {
        full := pos;
      }
    }

    method Put(b: Byte)
      requires Valid() && pos < limit
      modifies `pos, `full, `hist, buf
      ensures Valid() && hist == old(hist) + [b] && pos == old(pos) + 1 <= limit
    {
      Store(b);
      Fill();
    }

    lemma Look(dist: nat)
      requires Represents() && dist < Extent(pos, full)
      ensures pos <= end && dist < end && dist < |hist| && buf[base + Slot(pos, end, dist)] == HistGet(hist, dist)
    {
      assert Found(buf[base..base + end], pos, hist, dist);
    }

    /** Repeats as much of a match as fits below the limit; what did not fit is returned in left. */
    method Repeat(len: nat, dist: nat) returns (ok: bool, left: nat)
      requires Valid() && pos < limit && len > 0
      modifies `pos, `full, `hist, buf
      ensures Valid()
      ensures ok == (dist < |old(hist)| && dist < size)
      ensures ok ==> dist < end
      ensures !ok ==> left == len && hist == old(hist) && pos == old(pos)
      ensures ok ==> left == len - Min(limit - old(pos), len)
      ensures ok ==> pos == old(pos) + (len - left) <= limit && hist == LzCopy(old(hist), dist, len - left)
    {
      ok, left := true, len;
      if dist >= full || dist >= size {
        ok := false;
        return;
      }
      var todo := Min(limit - pos, len);
      left := len - todo;
      var back := if dist >= pos then pos - dist - 1 + end else pos - dist - 1;
      CopyLoop(dist, back, todo);
      Fill();
    }

    /** Copies byte by byte from an index on, which goes back to the front at the end; it may reach what was just
        copied. */
    method CopyLoop(dist: nat, from: nat, todo: nat)
      requires Represents() && dist < full && pos + todo <= end && full <= end
      requires from == Slot(pos, end, dist)
      modifies `pos, `hist, buf
      ensures Represents() && pos == old(pos) + todo && hist == LzCopy(old(hist), dist, todo)
    {
      hide Consistent, LzCopy;
      var back, i := from, 0;
      LzCopyZero(hist, dist);
      while i < todo
        invariant 0 <= i <= todo && pos == old(pos) + i
        invariant Represents()
        invariant i < todo ==> back == Slot(pos, end, dist)
        invariant hist == LzCopy(old(hist), dist, i)
      {
        Look(dist);
        LzCopyNext(old(hist), dist, i);
        Store(buf[base + back]);
        back := back + 1;
        if back == end {
          back := 0;
        }
        i := i + 1;
      }
    }

    /** The new bytes, from start on, are appended to the caller's output. */
    method Flush(b: XzBuf) returns (copied: nat)
      requires Valid() && b.Valid() && OutputOf(b) && this as object != b
      requires pos - start <= b.outSize - b.outPos
      modifies `start, `pos, b`outPos, b.out
      ensures Valid() && b.Valid() && OutputOf(b) && start == pos
      ensures !single && old(pos) == end ==> pos == 0
      ensures single || old(pos) != end ==> pos == old(pos)
      ensures old(pos) <= limit ==> pos <= limit
      ensures copied == old(pos - start) <= |hist| && b.outPos == old(b.outPos) + copied
      ensures b.out[..b.outPos] == old(b.out[..b.outPos]) + hist[|hist| - copied..]
    {
      hide Represents;
      copied := pos - start;
      Recent(copied);
      if single {
        Split(buf[..], 0, b.outPos, b.outPos + copied);
      } else {
        FlushOut(b, copied);
      }
      start := pos;
      b.outPos := b.outPos + copied;
    }

    /** What multi-call mode does besides. */
    method FlushOut(b: XzBuf, n: nat)
      requires Represents() && !single && start + n == pos <= full <= end && b.Valid() && buf != b.out && this as object != b
      requires n <= b.outSize - b.outPos && base + end <= buf.Length
      modifies `pos, b.out
      ensures Represents() && pos == if old(pos) == end then 0 else old(pos)
      ensures b.out[..b.outPos + n] == old(b.out[..b.outPos]) + buf[base + start..base + start + n]
    {
      hide Represents;
      WrapAtEnd();
      CopyOut(b, base + start, n);
    }

    lemma Recent(n: nat)
      requires Represents() && n <= pos
      ensures pos <= end && base + end <= buf.Length && n <= |hist| && buf[base + pos - n..base + pos] == hist[|hist| - n..]
    {
      var ring := buf[base..base + end];
      RingRecent(ring, pos, hist, Extent(pos, full), n);
      SliceOfSlice(buf[..], base, base + end, pos - n, pos);
      assert buf[base..base + end] == buf[..][base..base + end];
      assert buf[base + pos - n..base + pos] == buf[..][base + pos - n..base + pos];
    }

    /** From the end of the ring the position goes back to the front. */
    method WrapAtEnd()
      requires Represents() && !single && pos <= full <= end
      modifies `pos
      ensures Represents() && pos == if old(pos) == end then 0 else old(pos)
    {
      if pos == end {
        RingWrap(buf[base..base + end], hist, full);
        pos := 0;
      }
    }

    /** memcpy of dict->buf from an index on to the output */
    method CopyOut(b: XzBuf, from: nat, n: nat)
      requires b.Valid() && buf != b.out && from + n <= buf.Length && n <= b.outSize - b.outPos
      modifies b.out
      ensures b.out[..b.outPos + n] == old(b.out[..b.outPos]) + buf[from..from + n]
    {
      var i := 0;
      while i < n
        invariant 0 <= i <= n
        invariant b.out[..b.outPos + i] == old(b.out[..b.outPos]) + buf[from..from + i]
      {
        ghost var before := b.out[..];
        b.out[b.outPos + i] := buf[from + i];
        assert b.out[..] == before[b.outPos + i := buf[from + i]];
        assert b.out[..b.outPos + (i + 1)] == before[..b.outPos + i] + [buf[from + i]];
        assert buf[from..from + (i + 1)] == buf[from..from + i] + [buf[from + i]];
        i := i + 1;
      }
    }

    /** In single-call mode the output is what it held at the last reset, then the history. */
    lemma SingleOutput()
      requires Represents() && single
      ensures base + pos <= buf.Length && buf[..base + pos] == prior + hist
    {
      hide Consistent;
      SingleWindow(size, buf[base..base + end], pos, full, hist);
      HeadAndPart(buf[..], base, end, pos);
    }

    /** Between the calls of the functions here: everything is flushed, and there is room to write. */
    ghost predicate AtRest(b: XzBuf)
      reads this, buf, b
    {
      Valid() && b.Valid() && OutputOf(b) && start == pos && (!single ==> pos < end)
    }

    /** How many bytes of an uncompressed chunk with left bytes to go can be copied now. */
    ghost function Copyable(b: XzBuf, left: nat): int
      reads b
    {
      Min(left, Min(|b.input| - b.inPos, b.outSize - b.outPos))
    }

    /** The position n bytes on, back at the front at the end of a ring. */
    ghost function Advanced(n: nat): nat
      reads `pos, `end
    {
      if single || end == 0 then pos + n else (pos + n) % end
    }

    /** Copies an uncompressed chunk as is, as far as input and output allow. It does not look at the limit: the
        position is at most the limit afterwards exactly if it is not carried past it. */
    method Uncompressed(b: XzBuf, left: nat) returns (left': nat)
      requires AtRest(b) && this as object != b
      modifies `pos, `full, `start, `hist, buf, b`inPos, b`outPos, b.out
      ensures AtRest(b) && left' <= left
      ensures b.inPos == old(b.inPos) + (left - left') && b.outPos == old(b.outPos) + (left - left')
      ensures hist == old(hist) + b.input[old(b.inPos)..b.inPos]
      ensures b.out[..b.outPos] == old(b.out[..b.outPos]) + b.input[old(b.inPos)..b.inPos]
      ensures left' > 0 ==> b.inPos == |b.input| || b.outPos == b.outSize
      ensures left - left' == old(Copyable(b, left)) && pos == old(Advanced(Copyable(b, left)))
      ensures pos <= limit <==> old(Advanced(Copyable(b, left))) <= limit
    {
      hide AtRest, Represents, Copied;
      left' := left;
      Bounds(b);
      ghost var (hist0, out0, inPos0) := (hist, b.out[..b.outPos], b.inPos);
      CopiedNone(b);
      while left' > 0 && b.inPos < |b.input| && b.outPos < b.outSize
        invariant AtRest(b) && left' <= left && b.inPos <= |b.input| && b.outPos <= b.outSize <= b.out.Length
        invariant pos <= end && (!single || b.outPos < b.outSize ==> pos < end)
        invariant b.inPos == inPos0 + (left - left') && b.outPos == old(b.outPos) + (left - left')
        invariant Copied(b, hist0, out0, inPos0) && pos == old(Advanced(left - left'))
      {
        var n := Min(Min(|b.input| - b.inPos, b.outSize - b.outPos), Min(end - pos, left'));
        AdvancedMore(old(pos), left - left', n);
        left' := left' - n;
        CopyNext(b, n, hist0, out0, inPos0);
        Bounds(b);
      }
      assert Copied(b, hist0, out0, inPos0);
      CopiedAll(b, hist0, out0, inPos0);
    }

    /** The input from a position on went to the history and to the output. */
    ghost predicate Copied(b: XzBuf, hist0: seq<Byte>, out0: seq<Byte>, from: nat)
      reads `hist, b, b.out
    {
      && from <= b.inPos <= |b.input| && b.outPos <= b.out.Length
      && hist == hist0 + b.input[from..b.inPos] && b.out[..b.outPos] == out0 + b.input[from..b.inPos]
    }

    lemma CopiedNone(b: XzBuf)
      requires b.inPos <= |b.input| && b.outPos <= b.out.Length
      ensures Copied(b, hist, b.out[..b.outPos], b.inPos)
    {
    }

    lemma CopiedAll(b: XzBuf, hist0: seq<Byte>, out0: seq<Byte>, from: nat)
      requires Copied(b, hist0, out0, from)
      ensures from <= b.inPos <= |b.input| && b.outPos <= b.out.Length
      ensures hist == hist0 + b.input[from..b.inPos] && b.out[..b.outPos] == out0 + b.input[from..b.inPos]
    {
    }

    method CopyNext(b: XzBuf, n: nat, ghost hist0: seq<Byte>, ghost out0: seq<Byte>, ghost from: nat)
      requires AtRest(b) && this as object != b && Copied(b, hist0, out0, from)
      requires n <= |b.input| - b.inPos && n <= b.outSize - b.outPos && n <= end - pos
      modifies `pos, `full, `start, `hist, buf, b`inPos, b`outPos, b.out
      ensures AtRest(b) && b.inPos == old(b.inPos) + n && b.outPos == old(b.outPos) + n && Copied(b, hist0, out0, from)
      ensures pos == if !single && old(pos) + n == end then 0 else old(pos) + n
    {
      hide AtRest;
      PieceAfterPiece(b, from, n, hist0, out0);
      CopyPiece(b, n);
      Bounds(b);
    }

    lemma Bounds(b: XzBuf)
      requires AtRest(b)
      ensures b.inPos <= |b.input| && b.outPos <= b.outSize <= b.out.Length && pos <= end && (!single || b.outPos < b.outSize ==> pos < end)
    {
    }

    lemma AdvancedMore(from: nat, done: nat, n: nat)
      requires pos == (if single || end == 0 then from + done else (from + done) % end) && pos + n <= end
      ensures (if !single && pos + n == end then 0 else pos + n) == if single || end == 0 then from + (done + n) else (from + (done + n)) % end
    {
      if !single && end > 0 {
        WrapsOn(from + done, n, end);
      }
    }

    lemma PieceAfterPiece(b: XzBuf, from: nat, n: nat, hist0: seq<Byte>, out0: seq<Byte>)
      requires from <= b.inPos && b.inPos + n <= |b.input|
      ensures var (done, piece, all) := (b.input[from..b.inPos], b.input[b.inPos..b.inPos + n], b.input[from..b.inPos + n]);
              hist0 + done + piece == hist0 + all && out0 + done + piece == out0 + all
    {
    }

    /** memmove of n input bytes to the dictionary, and in multi-call mode to the output as well */
    method CopyPiece(b: XzBuf, n: nat)
      requires AtRest(b) && this as object != b
      requires n <= |b.input| - b.inPos && n <= b.outSize - b.outPos && n <= end - pos
      modifies `pos, `full, `start, `hist, buf, b`inPos, b`outPos, b.out
      ensures AtRest(b) && b.inPos == old(b.inPos) + n && b.outPos == old(b.outPos) + n
      ensures pos == if !single && old(pos) + n == end then 0 else old(pos) + n
      ensures hist == old(hist) + b.input[old(b.inPos)..old(b.inPos) + n]
      ensures b.out[..b.outPos] == old(b.out[..b.outPos]) + b.input[old(b.inPos)..old(b.inPos) + n]
    {
      hide Represents;
      StoreAndFill(b.input[b.inPos..b.inPos + n]);
      if !single {
        WrapAndCopy(b, n);
      }
      start := pos;
      b.outPos := b.outPos + n;
      b.inPos := b.inPos + n;
    }

    /** What multi-call mode does besides. */
    method WrapAndCopy(b: XzBuf, n: nat)
      requires Represents() && !single && pos <= full <= end && end > 0 && b.Valid() && buf != b.out && this as object != b
      requires n <= |b.input| - b.inPos && n <= b.outSize - b.outPos
      modifies `pos, b.out
      ensures Represents() && pos == (if old(pos) == end then 0 else old(pos)) < end
      ensures b.out[..b.outPos + n] == old(b.out[..b.outPos]) + b.input[b.inPos..b.inPos + n]
    {
      hide Represents;
      WrapAtEnd();
      CopyInput(b, n);
    }

    method StoreAndFill(src: seq<Byte>)
      requires Valid() && pos + |src| <= end
      modifies `pos, `full, `hist, buf
      ensures Represents() && pos == old(pos) + |src| && hist == old(hist) + src && full == Extent(pos, old(full)) <= end
      ensures single ==> base + pos <= buf.Length && buf[..base + pos] == old(buf[..base + pos]) + src
    {
      hide Represents;
      ghost var was := hist;
      if single {
        SingleOutput();
      }
      StoreAll(src);
      Fill();
      if single {
        SingleOutput();
        Regrouped(prior, was, src);
      }
    }

    method StoreAll(src: seq<Byte>)
      requires Represents() && pos + |src| <= end
      modifies `pos, `hist, buf
      ensures Represents() && pos == old(pos) + |src| && hist == old(hist) + src
    {
      hide Consistent;
      var i := 0;
      while i < |src|
        invariant 0 <= i <= |src| && Represents() && pos == old(pos) + i && hist == old(hist) + src[..i]
      {
        Store(src[i]);
        i := i + 1;
      }
    }

    method CopyInput(b: XzBuf, n: nat)
      requires b.Valid() && buf != b.out && n <= |b.input| - b.inPos && n <= b.outSize - b.outPos
      modifies b.out
      ensures b.out[..b.outPos + n] == old(b.out[..b.outPos]) + b.input[b.inPos..b.inPos + n]
    {
      var i := 0;
      while i < n
        invariant 0 <= i <= n
        invariant b.out[..b.outPos + i] == old(b.out[..b.outPos]) + b.input[b.inPos..b.inPos + i]
      {
        ghost var before := b.out[..];
        b.out[b.outPos + i] := b.input[b.inPos + i];
        assert b.out[..] == before[b.outPos + i := b.input[b.inPos + i]];
        assert b.out[..b.outPos + (i + 1)] == before[..b.outPos + i] + [b.input[b.inPos + i]];
        assert b.input[b.inPos..b.inPos + (i + 1)] == b.input[b.inPos..b.inPos + i] + [b.input[b.inPos + i]];
        i := i + 1;
      }
    }
  }
}
