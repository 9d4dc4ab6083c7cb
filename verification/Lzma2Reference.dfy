/** What an LZMA2 stream means, chunk by chunk, for a reader that has all of it: the reference that the
    incremental decoder is measured against. Section 5.3.1 of the .xz format refers to this encoding. */
module Lzma2Reference {
  import opened Bytes
  import opened RangeCoder
  import opened Consumption
  import opened LzmaModel
  import opened LzmaChunk
  import opened LzmaPieces

  /** Between two chunks: where the next one starts, what was produced, and what carries over. */
  datatype Ref = Ref(pos: nat, out: seq<Byte>, hist: seq<Byte>, m: Model, probs: seq<Prob>, props: Props,
                     needDict: bool, needProps: bool) {
    ghost predicate Valid() {
      |probs| == PROBS_TOTAL && props.Valid()
    }
  }

  datatype Verdict = Next(ref: Ref) | End(pos: nat) | Reject

  function FirstRef(): Ref {
    Ref(0, [], [], FreshModel, FreshProbs(), Props(0, 0, 0), true, false)
  }

  /** Whether a control byte starts with a dictionary reset. */
  predicate ResetsDict(c: Byte) {
    c >= 0xE0 || c == 0x01
  }

  function AfterReset(r: Ref, c: Byte): (r': Ref)
    ensures r.Valid() ==> r'.Valid()
  {
    if ResetsDict(c) then r.(hist := [], needDict := false, needProps := true) else r
  }

  /** Control bytes that may not come here: no dictionary yet, no properties yet, or meaningless. */
  predicate BadControl(r: Ref, c: Byte) {
    || (r.needDict && !ResetsDict(c))
    || (0x80 <= c < 0xC0 && r.needProps)
    || 0x02 < c < 0x80
  }

  /** LZMA chunks: control, two bytes of uncompressed size, two of compressed size, perhaps properties. */
  function UncompressedSize(stream: seq<Byte>, pos: nat): nat {
    At(stream, pos) % 0x20 * 0x1_0000 + At(stream, pos + 1) * 0x100 + At(stream, pos + 2) + 1
  }

  function CompressedSize(stream: seq<Byte>, at: nat): (r: nat)
    ensures 1 <= r <= 0x1_0000
  {
    At(stream, at) * 0x100 + At(stream, at + 1) + 1
  }

  function BodyStart(stream: seq<Byte>, pos: nat): nat {
    if At(stream, pos) >= 0xC0 then pos + 6 else pos + 5
  }

  /** n bytes from a position on, with zeros where the stream has ended. */
  function Body(stream: seq<Byte>, at: nat, n: nat): (s: seq<Byte>)
    ensures |s| == n && forall i :: 0 <= i < n ==> s[i] == At(stream, at + i)
  {
    if n == 0 then [] else Body(stream, at, n - 1) + [At(stream, at + n - 1)]
  }

  /** The coder state, symbol history and properties a chunk starts with. */
  function AfterState(r: Ref, stream: seq<Byte>, c: Byte): (r': Ref)
    requires c >= 0xC0 ==> ValidPropsByte(At(stream, r.pos + 5))
    ensures r.Valid() ==> r'.Valid()
  {
    if c >= 0xC0 then r.(m := FreshModel, probs := FreshProbs(), props := PropsOf(At(stream, r.pos + 5)), needProps := false)
    else if c >= 0xA0 then r.(m := FreshModel, probs := FreshProbs())
    else r
  }

  ghost function LzmaVerdict(stream: seq<Byte>, dictSize: nat, r: Ref): (v: Verdict)
    requires r.Valid()
    ensures v.Next? ==> v.ref.Valid()
  {
    var c := At(stream, r.pos);
    var at := BodyStart(stream, r.pos);
    var n := CompressedSize(stream, r.pos + 3);
    if at + n > |stream| || n < INIT_BYTES || (c >= 0xC0 && !ValidPropsByte(At(stream, r.pos + 5))) then Reject
    else
      var r1 := AfterState(r, stream, c);
      BodyVerdict(Body(stream, at, n), dictSize, r1, |r.hist| + UncompressedSize(stream, r.pos), at + n)
  }

  ghost function BodyVerdict(body: seq<Byte>, dictSize: nat, r: Ref, size: nat, end: nat): (v: Verdict)
    requires r.Valid()
    ensures v.Next? ==> v.ref.Valid()
  {
    var s := Lz(Start(body, r.probs), r.m, r.hist);
    if exists k: nat :: EndsAt(body, r.props, dictSize, s, size, k) then
      var k: nat :| EndsAt(body, r.props, dictSize, s, size, k);
      var z := Run(body, r.props, dictSize, s, k).lz;
      Next(r.(pos := end, out := r.out + z.hist[|r.hist|..], hist := z.hist, m := z.m, probs := z.c.probs))
    else Reject
  }

  function CopyVerdict(stream: seq<Byte>, r: Ref): (v: Verdict)
    ensures r.Valid() && v.Next? ==> v.ref.Valid()
  {
    var n := CompressedSize(stream, r.pos + 1);
    if r.pos + 3 + n > |stream| then Reject
    else
      var data := stream[r.pos + 3..r.pos + 3 + n];
      Next(r.(pos := r.pos + 3 + n, out := r.out + data, hist := r.hist + data))
  }

  /** One chunk. */
  ghost function Chunk(stream: seq<Byte>, dictSize: nat, r: Ref): (v: Verdict)
    requires r.Valid()
    ensures v.Next? ==> v.ref.Valid()
  {
    if r.pos >= |stream| then Reject else
      var c := stream[r.pos];
      var r1 := AfterReset(r, c);
      if c == 0 then End(r.pos + 1)
      else if BadControl(r1, c) then Reject
      else if c >= 0x80 then LzmaVerdict(stream, dictSize, r1)
      else CopyVerdict(stream, r1)
  }

  /** n chunks. */
  ghost function Chunks(stream: seq<Byte>, dictSize: nat, r: Ref, n: nat): (v: Verdict)
    requires r.Valid()
    ensures v.Next? ==> v.ref.Valid()
    decreases n
  {
    if n == 0 then Next(r) else
      var v := Chunk(stream, dictSize, r);
      if v.Next? then Chunks(stream, dictSize, v.ref, n - 1) else v
  }

  lemma {:induction false} ChunksSplit(stream: seq<Byte>, dictSize: nat, r: Ref, n: nat)
    requires r.Valid() && Chunks(stream, dictSize, r, n).Next?
    ensures Chunks(stream, dictSize, r, n + 1) == Chunk(stream, dictSize, Chunks(stream, dictSize, r, n).ref)
    decreases n
  {
    hide Chunk;
    var v := Chunk(stream, dictSize, r);
    if n > 0 {
      ChunksSplit(stream, dictSize, v.ref, n - 1);
    } else if v.Next? {
      assert Chunks(stream, dictSize, v.ref, 0) == v;
    }
  }

  // -------------------------------------------------------- how a body is decided

  /** A run that reaches the size with everything consumed is what the chunk means. */
  lemma BodyAccepted(body: seq<Byte>, dictSize: nat, r: Ref, size: nat, end: nat, k: nat)
    requires r.Valid()
    requires EndsAt(body, r.props, dictSize, Lz(Start(body, r.probs), r.m, r.hist), size, k)
    ensures var z := Run(body, r.props, dictSize, Lz(Start(body, r.probs), r.m, r.hist), k).lz;
            |r.hist| <= |z.hist| &&
            BodyVerdict(body, dictSize, r, size, end)
            == Next(r.(pos := end, out := r.out + z.hist[|r.hist|..], hist := z.hist, m := z.m, probs := z.c.probs))
  {
    hide Run;
    var s := Lz(Start(body, r.probs), r.m, r.hist);
    var j: nat :| EndsAt(body, r.props, dictSize, s, size, j)
      && BodyVerdict(body, dictSize, r, size, end)
      == Next(r.(pos := end, out := r.out + Run(body, r.props, dictSize, s, j).lz.hist[|r.hist|..],
                 hist := Run(body, r.props, dictSize, s, j).lz.hist, m := Run(body, r.props, dictSize, s, j).lz.m,
                 probs := Run(body, r.props, dictSize, s, j).lz.c.probs));
    EndsOnce(body, r.props, dictSize, s, j, k);
    EndsOnce(body, r.props, dictSize, s, k, j);
  }

  /** A run that is corrupt at the k-th step, or has then passed the size or not used up the chunk, and was below
      the size before, cannot end there. */
  lemma BodyRejected(body: seq<Byte>, dictSize: nat, r: Ref, size: nat, end: nat, k: nat)
    requires r.Valid()
    requires var s := Lz(Start(body, r.probs), r.m, r.hist);
             && Below(body, r.props, dictSize, s, k, size)
             && match Run(body, r.props, dictSize, s, k)
                case Corrupt => true
                case Good(z) => |z.hist| >= size && !(|z.hist| == size && z.c.pos == |body| && z.c.code == 0)
    ensures BodyVerdict(body, dictSize, r, size, end) == Reject
  {
    hide Run;
    var s := Lz(Start(body, r.probs), r.m, r.hist);
    if j: nat :| EndsAt(body, r.props, dictSize, s, size, j) {
      if j < k {
        assert false;
      } else if Run(body, r.props, dictSize, s, k).Corrupt? {
        RunGoodBefore(body, r.props, dictSize, s, k, j);
        assert false;
      } else {
        EndsOnce(body, r.props, dictSize, s, j, k);
        assert false;
      }
    }
  }

  /** The first code, a byte at a time in 32 bits. */
  lemma InitNext(stream: seq<Byte>, at: nat, n: nat)
    ensures (BigEndian(Body(stream, at, n)) % U32 * 256 + At(stream, at + n)) % U32
         == BigEndian(Body(stream, at, n + 1)) % U32
  {
    BigEndianSnoc(Body(stream, at, n), At(stream, at + n));
    WordShift(BigEndian(Body(stream, at, n)), At(stream, at + n));
  }

  lemma StartIs(stream: seq<Byte>, at: nat, n: nat, probs: seq<Prob>)
    requires n >= INIT_BYTES
    ensures Start(Body(stream, at, n), probs).code == BigEndian(Body(stream, at, INIT_BYTES)) % U32
  {
    var s := Body(stream, at, n);
    assert Body(stream, at, INIT_BYTES) == [At(s, 0), At(s, 1), At(s, 2), At(s, 3), At(s, 4)];
  }

  lemma WordShift(x: nat, b: Byte)
    ensures (x % U32 * 256 + b) % U32 == (x * 256 + b) % U32
  {
    var r := x % U32;
    assert x * 256 + b == r * 256 + b + U32 * (x / U32 * 256);
    MultipleMore(r * 256 + b, U32, x / U32 * 256);
  }

  // ------------------------------------------------------- where a run stands in a body

  /** After some steps from the start of a body the run is at z, and was below the target size before. */
  ghost predicate Stands(body: seq<Byte>, dictSize: nat, r: Ref, steps: nat, z: Lz, target: nat) {
    && r.Valid()
    && var s := Lz(Start(body, r.probs), r.m, r.hist);
    && Run(body, r.props, dictSize, s, steps) == Good(z)
    && Below(body, r.props, dictSize, s, steps, target)
  }

  lemma StandsMore(body: seq<Byte>, dictSize: nat, r: Ref, steps: nat, z: Lz, target: nat, k: nat, z': Lz, room: int)
    requires Stands(body, dictSize, r, steps, z, target) && z.Valid()
    requires Run(body, r.props, dictSize, z, k) == Good(z') && Below(body, r.props, dictSize, z, k, room) && room <= target
    ensures Stands(body, dictSize, r, steps + k, z', target)
  {
    hide Run;
    var s := Lz(Start(body, r.probs), r.m, r.hist);
    RunSplit(body, r.props, dictSize, s, steps, k);
    assert Below(body, r.props, dictSize, z, k, target);
    BelowAppend(body, r.props, dictSize, s, steps, z, k, target);
  }

  lemma StandsFails(body: seq<Byte>, dictSize: nat, r: Ref, steps: nat, z: Lz, target: nat, k: nat, room: int, end: nat)
    requires Stands(body, dictSize, r, steps, z, target) && z.Valid()
    requires Run(body, r.props, dictSize, z, k).Corrupt? && Below(body, r.props, dictSize, z, k, room) && room <= target
    ensures BodyVerdict(body, dictSize, r, target, end) == Reject
  {
    hide Run;
    var s := Lz(Start(body, r.probs), r.m, r.hist);
    RunSplit(body, r.props, dictSize, s, steps, k);
    assert Below(body, r.props, dictSize, z, k, target);
    BelowAppend(body, r.props, dictSize, s, steps, z, k, target);
    BodyRejected(body, dictSize, r, target, end, steps + k);
  }

  /** At the target size the chunk is decided: everything must have been consumed. */
  lemma StandsAtTarget(body: seq<Byte>, dictSize: nat, r: Ref, steps: nat, z: Lz, target: nat, end: nat)
    requires Stands(body, dictSize, r, steps, z, target) && |z.hist| >= target
    ensures |r.hist| <= |z.hist|
    ensures BodyVerdict(body, dictSize, r, target, end) ==
      if |z.hist| == target && z.c.pos == |body| && z.c.code == 0 then
        Next(r.(pos := end, out := r.out + z.hist[|r.hist|..], hist := z.hist, m := z.m, probs := z.c.probs))
      else Reject
  {
    hide Run;
    if |z.hist| == target && z.c.pos == |body| && z.c.code == 0 {
      BodyAccepted(body, dictSize, r, target, end, steps);
    } else {
      BodyRejected(body, dictSize, r, target, end, steps);
    }
  }

  /** An LZMA chunk whose header is in order is decided by its body, if all of it is there. */
  lemma ChunkOfBody(stream: seq<Byte>, dictSize: nat, r: Ref)
    requires r.Valid() && r.pos < |stream| && At(stream, r.pos) >= 0x80
    requires var c := At(stream, r.pos);
             !BadControl(AfterReset(r, c), c) && (c >= 0xC0 ==> ValidPropsByte(At(stream, r.pos + 5)))
    ensures var c := At(stream, r.pos);
            var (at, n, r1) := (BodyStart(stream, r.pos), CompressedSize(stream, r.pos + 3), AfterReset(r, c));
            Chunk(stream, dictSize, r) ==
            if n < INIT_BYTES || at + n > |stream| then Reject
            else BodyVerdict(Body(stream, at, n), dictSize, AfterState(r1, stream, c),
                             |r1.hist| + UncompressedSize(stream, r.pos), at + n)
  {
    hide BodyVerdict, Body, BodyStart, CompressedSize, UncompressedSize, AfterState, BadControl, ValidPropsByte;
  }

  // ------------------------------------------------------------- whole streams

  /** The stream is well formed: some number of chunks and then the end marker. */
  ghost predicate Accepts(stream: seq<Byte>, dictSize: nat, out: seq<Byte>, used: nat) {
    exists n: nat :: AcceptsAfter(stream, dictSize, n, out, used)
  }

  ghost predicate AcceptsAfter(stream: seq<Byte>, dictSize: nat, n: nat, out: seq<Byte>, used: nat) {
    && var v := Chunks(stream, dictSize, FirstRef(), n);
    && v.Next? && v.ref.out == out && Chunk(stream, dictSize, v.ref) == End(used)
  }

  ghost predicate Refuses(stream: seq<Byte>, dictSize: nat) {
    exists n: nat :: Chunks(stream, dictSize, FirstRef(), n) == Reject
  }

  /** The stream is well formed, ends within its first available bytes, and its output has at most so many bytes. */
  ghost predicate EndsWithin(stream: seq<Byte>, dictSize: nat, available: int, most: int) {
    exists out: seq<Byte>, used: nat :: Accepts(stream, dictSize, out, used) && used <= available && |out| <= most
  }

  lemma EndsWithinMore(stream: seq<Byte>, dictSize: nat, available: int, most: int, most': int)
    requires EndsWithin(stream, dictSize, available, most) && most <= most'
    ensures EndsWithin(stream, dictSize, available, most')
  {
    hide Accepts;
  }

  /** Once decided, the verdict stays. */
  lemma {:induction false} Settles(stream: seq<Byte>, dictSize: nat, r: Ref, m: nat, n: nat)
    requires r.Valid() && m <= n && !Chunks(stream, dictSize, r, m).Next?
    ensures Chunks(stream, dictSize, r, n) == Chunks(stream, dictSize, r, m)
    decreases n
  {
    hide Chunk;
    var v := Chunk(stream, dictSize, r);
    if v.Next? {
      Settles(stream, dictSize, v.ref, m - 1, n - 1);
    }
  }

  /** A stream has one output, ends in one place, and is not also refused. */
  lemma OneVerdict(stream: seq<Byte>, dictSize: nat, out: seq<Byte>, used: nat, out': seq<Byte>, used': nat)
    requires Accepts(stream, dictSize, out, used)
    ensures !Refuses(stream, dictSize)
    ensures Accepts(stream, dictSize, out', used') ==> out == out' && used == used'
  {
    hide Chunks, Chunk;
    var n: nat :| AcceptsAfter(stream, dictSize, n, out, used);
    ChunksSplit(stream, dictSize, FirstRef(), n);
    if k: nat :| Chunks(stream, dictSize, FirstRef(), k) == Reject {
      Settles(stream, dictSize, FirstRef(), if k < n + 1 then k else n + 1, if k < n + 1 then n + 1 else k);
      assert false;
    }
    if Accepts(stream, dictSize, out', used') {
      var k: nat :| AcceptsAfter(stream, dictSize, k, out', used');
      ChunksSplit(stream, dictSize, FirstRef(), k);
      var (a, b) := (if k < n then k else n, if k < n then n else k);
      Settles(stream, dictSize, FirstRef(), a + 1, b + 1);
      if a < b {
        Settles(stream, dictSize, FirstRef(), a + 1, b);
      }
    }
  }

  // ---------------------------------------------------------- what is still to come

  /** Where a chunk ends and how much it adds is in its header. */
  lemma ChunkExtent(stream: seq<Byte>, dictSize: nat, r: Ref)
    requires r.Valid() && Chunk(stream, dictSize, r).Next?
    ensures var (c, r') := (At(stream, r.pos), Chunk(stream, dictSize, r).ref);
            if c >= 0x80 then
              INIT_BYTES <= CompressedSize(stream, r.pos + 3)
              && r'.pos == BodyStart(stream, r.pos) + CompressedSize(stream, r.pos + 3)
              && |r'.out| == |r.out| + UncompressedSize(stream, r.pos)
            else
              var n := CompressedSize(stream, r.pos + 1); r'.pos == r.pos + 3 + n && |r'.out| == |r.out| + n
  {
    hide Body, CompressedSize, UncompressedSize, BodyStart, BadControl, ValidPropsByte, Run;
  }

  lemma {:induction false} ChunksAppend(stream: seq<Byte>, dictSize: nat, r: Ref, m: nat, n: nat)
    requires r.Valid() && Chunks(stream, dictSize, r, m).Next?
    ensures Chunks(stream, dictSize, r, m + n) == Chunks(stream, dictSize, Chunks(stream, dictSize, r, m).ref, n)
    decreases m
  {
    hide Chunk;
    if m == 0 {
    } else {
      ChunksAppend(stream, dictSize, Chunk(stream, dictSize, r).ref, m - 1, n);
    }
  }

  /** What n chunks and the end marker add comes after what is there before them. */
  lemma {:induction false} ChunksGrow(stream: seq<Byte>, dictSize: nat, r: Ref, n: nat)
    requires r.Valid() && Chunks(stream, dictSize, r, n).Next?
    ensures var r' := Chunks(stream, dictSize, r, n).ref; r.pos <= r'.pos && |r.out| <= |r'.out|
    decreases n
  {
    hide Chunk, CompressedSize, UncompressedSize;
    if n == 0 {
    } else {
      ChunkExtent(stream, dictSize, r);
      ChunksGrow(stream, dictSize, Chunk(stream, dictSize, r).ref, n - 1);
    }
  }

  /** Before the end of a well-formed stream: the next chunk is inside of what is left, or there is only the marker. */
  lemma StillToCome(stream: seq<Byte>, dictSize: nat, k: nat, r: Ref, text: seq<Byte>, used: nat)
    requires Chunks(stream, dictSize, FirstRef(), k) == Next(r) && Accepts(stream, dictSize, text, used)
    ensures match Chunk(stream, dictSize, r)
            case Next(r') => r'.pos < used && |r'.out| <= |text|
            case End(pos) => pos == used && r.out == text
            case Reject => false
  {
    hide Chunks, Chunk;
    var n: nat :| AcceptsAfter(stream, dictSize, n, text, used);
    ChunksSplit(stream, dictSize, FirstRef(), n);
    if n < k {
      Settles(stream, dictSize, FirstRef(), n + 1, k);
      assert false;
    } else if n > k {
      ChunksAppend(stream, dictSize, FirstRef(), k, n - k);
      EndsLater(stream, dictSize, r, n - k, used);
    }
  }

  lemma EndsLater(stream: seq<Byte>, dictSize: nat, r: Ref, n: nat, used: nat)
    requires r.Valid() && n > 0 && Chunks(stream, dictSize, r, n).Next?
    requires Chunk(stream, dictSize, Chunks(stream, dictSize, r, n).ref) == End(used)
    ensures Chunk(stream, dictSize, r).Next?
    ensures Chunk(stream, dictSize, r).ref.pos < used
    ensures |Chunk(stream, dictSize, r).ref.out| <= |Chunks(stream, dictSize, r, n).ref.out|
  {
    hide Chunk;
    MarkerEnds(stream, dictSize, Chunks(stream, dictSize, r, n).ref);
    ChunksGrow(stream, dictSize, Chunk(stream, dictSize, r).ref, n - 1);
  }

  lemma MarkerEnds(stream: seq<Byte>, dictSize: nat, r: Ref)
    requires r.Valid() && Chunk(stream, dictSize, r).End?
    ensures Chunk(stream, dictSize, r) == End(r.pos + 1)
  {
  }
}
