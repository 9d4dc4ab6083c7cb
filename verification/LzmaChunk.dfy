/** One LZMA chunk as a whole: the reference run over a complete chunk, what it consumes, what it depends on,
    and that it inverts the encoder. */
module LzmaChunk {
  import opened Bytes
  import opened RangeCoder
  import opened Consumption
  import opened LzmaModel
  import opened LzmaEncoding
  import opened LzmaTraces

  // ------------------------------------------------------------------ consumption

  lemma {:induction false} WithinAll(inp: seq<Byte>, c0: Coder, c: Coder, ops: seq<Op>, m: nat, d: nat)
    requires Within(c0, c, m, d) && ValidOps(ops, |c.probs|)
    requires ops == [] || EndsAdaptive(ops)
    requires Allowed(m + Adaptive(ops), d + Fixed(ops))
    ensures Within(c0, DecodeAll(inp, c, ops).1, m + Adaptive(ops), d + Fixed(ops))
    decreases |ops|
  {
    hide Within, Bit, DirectBit;
    if ops == [] {
    } else {
      EndsCounts(ops);
      if |ops| > 1 {
        EndsCounts(ops[1..]);
      }
      match ops[0] {
        case Modelled(i, _) =>
          WithinBit(inp, c0, c, i, m, d);
          WithinAll(inp, c0, Bit(inp, c, i).1, ops[1..], m + 1, d);
        case Direct(_) =>
          WithinDirect(inp, c0, c, m, d);
          WithinAll(inp, c0, DirectBit(inp, c).1, ops[1..], m, d + 1);
      }
    }
  }

  /** For every input, decoding one symbol reads at most 20 bytes, and 21 with the closing normalisation. */
  lemma SymbolConsumption(inp: seq<Byte>, c: Coder, m: Model, props: Props, hist: seq<Byte>)
    requires props.Valid() && |c.probs| == PROBS_TOTAL && RANGE_MIN <= c.range
    ensures var e := Symbol(inp, c, m, props, hist).2;
            && c.pos <= e.pos <= c.pos + SYMBOL_BYTES
            && Normalize(inp, e).pos <= c.pos + IN_REQUIRED
            && RANGE_MIN <= e.range
  {
    hide SymbolOps, Symbol, DecodeAll;
    var ch := SymbolProduces(inp, c, m, props, hist);
    CountSymbol(m, props, hist, ch);
    WithinStart(c);
    WithinAll(inp, c, c, SymbolOps(m, props, hist, ch), 0, 0);
  }

  // --------------------------------------------------------------------- locality

  /** n bytes of x from i on are those of y from j on. */
  ghost predicate Agree(x: seq<Byte>, i: nat, y: seq<Byte>, j: nat, n: nat) {
    forall k :: 0 <= k < n ==> AgreeAt(x, i, y, j, k)
  }

  ghost predicate AgreeAt(x: seq<Byte>, i: nat, y: seq<Byte>, j: nat, k: nat) {
    At(x, i + k) == At(y, j + k)
  }

  lemma AgreeSwap(x: seq<Byte>, i: nat, y: seq<Byte>, j: nat, n: nat)
    requires Agree(x, i, y, j, n)
    ensures Agree(y, j, x, i, n)
  {
    forall k | 0 <= k < n ensures AgreeAt(y, j, x, i, k) {
      assert AgreeAt(x, i, y, j, k);
    }
  }

  lemma AgreeDrop(x: seq<Byte>, i: nat, y: seq<Byte>, j: nat, n: nat, d: nat)
    requires Agree(x, i, y, j, n) && d <= n
    ensures Agree(x, i + d, y, j + d, n - d)
  {
    var (i', j') := (i + d, j + d);
    forall k | 0 <= k < n - d ensures AgreeAt(x, i', y, j', k) {
      var k' := d + k;
      assert AgreeAt(x, i, y, j, k');
    }
  }

  function MovedTo(c: Coder, pos: nat): Coder {
    c.(pos := pos)
  }

  lemma {:induction false} YieldsMonotone(inp: seq<Byte>, c: Coder, ops: seq<Op>, e: Coder)
    requires Yields(inp, c, ops, e)
    ensures c.pos <= e.pos
    decreases |ops|
  {
    if ops == [] {
    } else {
      assert ops == [ops[0]] + ops[1..];
      YieldsOp(inp, c, ops[0], ops[1..], e);
      YieldsMonotone(inp, DecodeOp(inp, c, ops[0]).1, ops[1..], e);
    }
  }

  lemma LocalNormalize(x: seq<Byte>, i: nat, y: seq<Byte>, c: Coder, n: nat)
    requires Agree(x, i, y, c.pos, n) && Normalize(y, c).pos <= c.pos + n
    ensures var e := Normalize(y, c);
            && c.pos <= e.pos
            && Normalize(x, MovedTo(c, i)) == MovedTo(e, i + (e.pos - c.pos))
  {
    if c.range < TOP_VALUE {
      assert AgreeAt(x, i, y, c.pos, 0);
    }
  }

  lemma LocalOp(x: seq<Byte>, i: nat, y: seq<Byte>, c: Coder, op: Op, n: nat)
    requires op.Modelled? ==> op.ctx < |c.probs|
    requires Agree(x, i, y, c.pos, n) && DecodeOp(y, c, op).1.pos <= c.pos + n
    ensures var (o, e) := DecodeOp(y, c, op);
            && c.pos <= e.pos
            && DecodeOp(x, MovedTo(c, i), op) == (o, MovedTo(e, i + (e.pos - c.pos)))
  {
    hide Normalize, Agree, Bound, Adapt;
    LocalNormalize(x, i, y, c, n);
  }

  lemma {:induction false} LocalAll(x: seq<Byte>, i: nat, y: seq<Byte>, c: Coder, ops: seq<Op>, e: Coder, n: nat)
    requires Agree(x, i, y, c.pos, n) && Yields(y, c, ops, e) && e.pos <= c.pos + n
    ensures c.pos <= e.pos && Yields(x, MovedTo(c, i), ops, MovedTo(e, i + (e.pos - c.pos)))
    decreases |ops|
  {
    hide Yields, Agree, DecodeOp;
    if ops == [] {
      YieldsNothing(y, c, e);
      YieldsNil(x, MovedTo(c, i));
    } else {
      var (op, rest) := (ops[0], ops[1..]);
      assert ops == [op] + rest;
      YieldsOp(y, c, op, rest, e);
      var c1 := DecodeOp(y, c, op).1;
      YieldsMonotone(y, c1, rest, e);
      LocalOp(x, i, y, c, op, n);
      var used := c1.pos - c.pos;
      AgreeDrop(x, i, y, c.pos, n, used);
      LocalAll(x, i + used, y, c1, rest, e, n - used);
      YieldsOp(x, MovedTo(c, i), op, rest, MovedTo(e, i + (e.pos - c.pos)));
    }
  }

  /** A symbol depends only on the bytes it consumes. */
  lemma SymbolLocal(x: seq<Byte>, i: nat, y: seq<Byte>, c: Coder, m: Model, props: Props, hist: seq<Byte>, n: nat)
    requires props.Valid() && |c.probs| == PROBS_TOTAL && Agree(x, i, y, c.pos, n)
    requires Symbol(y, c, m, props, hist).2.pos <= c.pos + n
    ensures var (a, m', e) := Symbol(y, c, m, props, hist);
            && c.pos <= e.pos
            && Symbol(x, MovedTo(c, i), m, props, hist) == (a, m', MovedTo(e, i + (e.pos - c.pos)))
  {
    hide SymbolOps, Symbol, DecodeAll, Agree;
    var ch := SymbolProduces(y, c, m, props, hist);
    var e := Symbol(y, c, m, props, hist).2;
    var ops := SymbolOps(m, props, hist, ch);
    LocalAll(x, i, y, c, ops, e, n);
    assert ops + [] == ops;
    var e' := MovedTo(e, i + (e.pos - c.pos));
    SymbolDecodes(x, MovedTo(c, i), m, props, hist, ch, [], e');
    YieldsNothing(x, Symbol(x, MovedTo(c, i), m, props, hist).2, e');
  }

  lemma YieldsNothing(inp: seq<Byte>, c: Coder, e: Coder)
    requires Yields(inp, c, [], e)
    ensures c == e
  {
  }

  /** Where two inputs agree on n bytes, both runs of a symbol stay inside them or neither does. */
  lemma SymbolOverruns(x: seq<Byte>, i: nat, y: seq<Byte>, c: Coder, m: Model, props: Props, hist: seq<Byte>, n: nat)
    requires props.Valid() && |c.probs| == PROBS_TOTAL && Agree(x, i, y, c.pos, n)
    ensures Symbol(y, c, m, props, hist).2.pos <= c.pos + n
            <==> Symbol(x, MovedTo(c, i), m, props, hist).2.pos <= i + n
  {
    hide Symbol, Agree;
    if Symbol(y, c, m, props, hist).2.pos <= c.pos + n {
      SymbolLocal(x, i, y, c, m, props, hist, n);
    }
    if Symbol(x, MovedTo(c, i), m, props, hist).2.pos <= i + n {
      AgreeSwap(x, i, y, c.pos, n);
      SymbolLocal(y, c.pos, x, MovedTo(c, i), m, props, hist, n);
      assert MovedTo(MovedTo(c, i), c.pos) == c;
    }
  }

  // ------------------------------------------------------------- the reference run

  /** The decoder between two symbols, normalised, with no copy pending. */
  datatype Lz = Lz(c: Coder, m: Model, hist: seq<Byte>) {
    ghost predicate Valid() {
      |c.probs| == PROBS_TOTAL && TOP_VALUE <= c.range
    }
  }

  datatype Outcome = Good(lz: Lz) | Corrupt

  predicate ValidDistance(hist: seq<Byte>, dist: nat, dictSize: nat) {
    dist < |hist| && dist < dictSize
  }

  function Perform(hist: seq<Byte>, m: Model, a: Action): seq<Byte> {
    match a
    case Put(b) => hist + [b]
    case Copy(len) => LzCopy(hist, m.rep0, len)
  }

  /** One symbol. Its distance must reach back into the history, its bytes must lie inside the chunk. */
  function Step(chunk: seq<Byte>, props: Props, dictSize: nat, s: Lz): (r: Outcome)
    requires props.Valid() && s.Valid()
    ensures r.Good? ==> r.lz.Valid() && |s.hist| < |r.lz.hist|
  {
    var (a, m, c) := Symbol(chunk, s.c, s.m, props, s.hist);
    var n := Normalize(chunk, c);
    if (a.Copy? && !ValidDistance(s.hist, m.rep0, dictSize)) || n.pos > |chunk| then Corrupt
    else
      assert n.range >= TOP_VALUE by { SymbolConsumption(chunk, s.c, s.m, props, s.hist); }
      Good(Lz(n, m, Perform(s.hist, m, a)))
  }

  function Run(chunk: seq<Byte>, props: Props, dictSize: nat, s: Lz, k: nat): (r: Outcome)
    requires props.Valid() && s.Valid()
    ensures r.Good? ==> r.lz.Valid() && |s.hist| + k <= |r.lz.hist|
    decreases k
  {
    if k == 0 then Good(s) else
      match Step(chunk, props, dictSize, s)
      case Corrupt => Corrupt
      case Good(s1) => Run(chunk, props, dictSize, s1, k - 1)
  }

  lemma {:induction false} RunSplit(chunk: seq<Byte>, props: Props, dictSize: nat, s: Lz, a: nat, b: nat)
    requires props.Valid() && s.Valid()
    ensures Run(chunk, props, dictSize, s, a + b)
         == match Run(chunk, props, dictSize, s, a)
            case Corrupt => Corrupt
            case Good(z) => Run(chunk, props, dictSize, z, b)
    decreases a
  {
    hide Step;
    if a > 0 && Step(chunk, props, dictSize, s).Good? {
      RunSplit(chunk, props, dictSize, Step(chunk, props, dictSize, s).lz, a - 1, b);
    }
  }

  /** After k symbols the chunk is used up, its code is zero, and the history has reached its size. */
  ghost predicate EndsAt(chunk: seq<Byte>, props: Props, dictSize: nat, s: Lz, size: nat, k: nat)
    requires props.Valid() && s.Valid()
  {
    match Run(chunk, props, dictSize, s, k)
    case Corrupt => false
    case Good(z) => |z.hist| == size && z.c.pos == |chunk| && z.c.code == 0
  }

  /** A run passes each history size at most once, so a chunk that is accepted has one result. */
  lemma EndsOnce(chunk: seq<Byte>, props: Props, dictSize: nat, s: Lz, j: nat, k: nat)
    requires props.Valid() && s.Valid()
    requires Run(chunk, props, dictSize, s, j).Good? && Run(chunk, props, dictSize, s, k).Good?
    requires |Run(chunk, props, dictSize, s, j).lz.hist| <= |Run(chunk, props, dictSize, s, k).lz.hist|
    ensures j <= k
  {
    hide Step;
    if k < j {
      RunSplit(chunk, props, dictSize, s, k, j - k);
    }
  }

  // -------------------------------------------------------------- encoding a chunk

  /** Choices an encoder may make: every distance used lies in the history and the dictionary. */
  predicate ValidChoices(m: Model, hist: seq<Byte>, dictSize: nat, chs: seq<Choice>)
    decreases |chs|
  {
    chs == [] ||
    var m' := After(m, chs[0]);
    && ValidChoice(chs[0])
    && (!chs[0].Literal? ==> ValidDistance(hist, m'.rep0, dictSize))
    && ValidChoices(m', Perform(hist, m', ActionOf(chs[0])), dictSize, chs[1..])
  }

  /** The text that choices stand for. */
  function Expand(m: Model, hist: seq<Byte>, chs: seq<Choice>): seq<Byte>
    decreases |chs|
  {
    if chs == [] then hist else
      var m' := After(m, chs[0]);
      Expand(m', Perform(hist, m', ActionOf(chs[0])), chs[1..])
  }

  function ChunkOps(m: Model, props: Props, hist: seq<Byte>, dictSize: nat, chs: seq<Choice>): (ops: seq<Op>)
    requires props.Valid() && ValidChoices(m, hist, dictSize, chs)
    ensures ValidOps(ops, PROBS_TOTAL)
    decreases |chs|
  {
    if chs == [] then [] else
      var m' := After(m, chs[0]);
      SymbolOps(m, props, hist, chs[0]) + ChunkOps(m', props, Perform(hist, m', ActionOf(chs[0])), dictSize, chs[1..])
  }

  function EncodeChunk(probs: seq<Prob>, m: Model, props: Props, hist: seq<Byte>, dictSize: nat, chs: seq<Choice>): seq<Byte>
    requires props.Valid() && |probs| == PROBS_TOTAL && ValidChoices(m, hist, dictSize, chs)
  {
    Encode(probs, ChunkOps(m, props, hist, dictSize, chs))
  }

  lemma {:induction false} TracksRun(chunk: seq<Byte>, props: Props, dictSize: nat, s: Lz, chs: seq<Choice>)
    requires props.Valid() && s.Valid() && ValidChoices(s.m, s.hist, dictSize, chs)
    requires Tracks(chunk, s.c, ChunkOps(s.m, props, s.hist, dictSize, chs), |chunk|)
    ensures var r := Run(chunk, props, dictSize, s, |chs|);
            r.Good? && r.lz.hist == Expand(s.m, s.hist, chs) && r.lz.c.pos == |chunk| && r.lz.c.code == 0
    decreases |chs|
  {
    hide Tracks, Step, Symbol, SymbolOps, ValidOps;
    if chs == [] {
      TracksEnd(chunk, s.c, |chunk|);
    } else {
      TracksSymbol(chunk, props, dictSize, s, chs);
      TracksRun(chunk, props, dictSize, Step(chunk, props, dictSize, s).lz, chs[1..]);
    }
  }

  lemma TracksSymbol(chunk: seq<Byte>, props: Props, dictSize: nat, s: Lz, chs: seq<Choice>)
    requires props.Valid() && s.Valid() && ValidChoices(s.m, s.hist, dictSize, chs) && chs != []
    requires Tracks(chunk, s.c, ChunkOps(s.m, props, s.hist, dictSize, chs), |chunk|)
    ensures var r := Step(chunk, props, dictSize, s);
            var m' := After(s.m, chs[0]);
            && r.Good? && r.lz.m == m' && r.lz.hist == Perform(s.hist, m', ActionOf(chs[0]))
            && Tracks(chunk, r.lz.c, ChunkOps(m', props, r.lz.hist, dictSize, chs[1..]), |chunk|)
  {
    hide Tracks, SymbolOps, Symbol, ValidOps, DecodeAll;
    var m' := After(s.m, chs[0]);
    var ops := SymbolOps(s.m, props, s.hist, chs[0]);
    var rest := ChunkOps(m', props, Perform(s.hist, m', ActionOf(chs[0])), dictSize, chs[1..]);
    TracksAll(chunk, s.c, ops, rest, |chunk|);
    var e := DecodeAll(chunk, s.c, ops).1;
    assert ops + [] == ops;
    SymbolDecodes(chunk, s.c, s.m, props, s.hist, chs[0], [], e);
    YieldsNothing(chunk, Symbol(chunk, s.c, s.m, props, s.hist).2, e);
    TracksNormalize(chunk, e, rest, |chunk|);
    TracksBounded(chunk, Normalize(chunk, e), rest, |chunk|);
  }

  lemma TracksBounded(inp: seq<Byte>, c: Coder, ops: seq<Op>, end: nat)
    requires Tracks(inp, c, ops, end)
    ensures c.pos <= end
  {
  }

  /** Decoding an encoded chunk reproduces the text its symbols stand for, uses up exactly the chunk, and ends
      with a code of zero and no symbol left over. */
  lemma ChunkRoundTrip(probs: seq<Prob>, m: Model, props: Props, hist: seq<Byte>, dictSize: nat, chs: seq<Choice>)
    requires props.Valid() && |probs| == PROBS_TOTAL && ValidChoices(m, hist, dictSize, chs)
    ensures var chunk := EncodeChunk(probs, m, props, hist, dictSize, chs);
            var s := Lz(Start(chunk, probs), m, hist);
            && EndsAt(chunk, props, dictSize, s, |Expand(m, hist, chs)|, |chs|)
            && Run(chunk, props, dictSize, s, |chs|).lz.hist == Expand(m, hist, chs)
  {
    var chunk := EncodeChunk(probs, m, props, hist, dictSize, chs);
    StartTracks(probs, ChunkOps(m, props, hist, dictSize, chs), []);
    assert chunk + [] == chunk;
    TracksRun(chunk, props, dictSize, Lz(Start(chunk, probs), m, hist), chs);
  }
}
