/** An LZMA2 encoder to measure the reference by: whatever pieces it writes, the reference accepts the stream and
    returns the text the pieces stand for. */
module Lzma2Encoding {
  import opened Bytes
  import opened RangeCoder
  import opened LzmaModel
  import opened LzmaEncoding
  import opened LzmaChunk
  import opened LzmaPieces
  import opened Lzma2Reference

  /** The four kinds of LZMA chunk, by what they reset. */
  datatype Level = Nothing | State | NewProps | Everything {
    function Code(): nat {
      match this
      case Nothing => 0x80
      case State => 0xA0
      case NewProps => 0xC0
      case Everything => 0xE0
    }
  }

  datatype Piece = Symbols(level: Level, props: Props, chs: seq<Choice>) | Plain(reset: bool, data: seq<Byte>)

  /** The state a piece is written in, after its resets. */
  ghost function Entering(r: Ref, p: Piece): (r': Ref)
    requires r.Valid() && (p.Symbols? ==> p.props.Valid())
    ensures r'.Valid()
  {
    match p
    case Plain(reset, _) => if reset then r.(hist := [], needDict := false, needProps := true) else r
    case Symbols(level, props, _) =>
      match level
      case Nothing => r
      case State => r.(m := FreshModel, probs := FreshProbs())
      case NewProps => r.(m := FreshModel, probs := FreshProbs(), props := props, needProps := false)
      case Everything =>
        r.(hist := [], needDict := false, m := FreshModel, probs := FreshProbs(), props := props, needProps := false)
  }

  /** What an encoder has to respect, apart from the sizes. */
  ghost predicate InOrder(r: Ref, dictSize: nat, p: Piece) {
    && r.Valid() && (p.Symbols? ==> p.props.Valid())
    && var e := Entering(r, p);
    && !e.needDict && (p.Symbols? ==> !e.needProps && ValidChoices(e.m, e.hist, dictSize, p.chs))
  }

  /** The bytes a piece adds to the output. */
  ghost function Text(r: Ref, p: Piece): seq<Byte>
    requires r.Valid() && (p.Symbols? ==> p.props.Valid())
  {
    match p
    case Plain(_, data) => data
    case Symbols(_, _, chs) =>
      var e := Entering(r, p);
      ExpandKeeps(e.m, e.hist, chs);
      Expand(e.m, e.hist, chs)[|e.hist|..]
  }

  lemma {:induction false} ExpandKeeps(m: Model, hist: seq<Byte>, chs: seq<Choice>)
    ensures hist <= Expand(m, hist, chs)
    decreases |chs|
  {
    if chs == [] {
    } else {
      var m' := After(m, chs[0]);
      var hist' := Perform(hist, m', ActionOf(chs[0]));
      if ActionOf(chs[0]).Copy? {
        CopyKeeps(hist, m'.rep0, ActionOf(chs[0]).len);
      }
      ExpandKeeps(m', hist', chs[1..]);
    }
  }

  lemma {:induction false} CopyKeeps(hist: seq<Byte>, dist: nat, len: nat)
    ensures hist <= LzCopy(hist, dist, len)
    decreases len
  {
  }

  ghost function Payload(r: Ref, dictSize: nat, p: Piece): seq<Byte>
    requires InOrder(r, dictSize, p)
  {
    match p
    case Plain(_, data) => data
    case Symbols(_, _, chs) =>
      var e := Entering(r, p);
      EncodeChunk(e.probs, e.m, e.props, e.hist, dictSize, chs)
  }

  /** The sizes must fit their fields. */
  ghost predicate Encodable(r: Ref, dictSize: nat, p: Piece) {
    && InOrder(r, dictSize, p) && 0 < |Payload(r, dictSize, p)| <= 0x1_0000
    && (p.Symbols? ==> 0 < |Text(r, p)| <= 0x20_0000)
  }

  function Wide(n: nat): (s: seq<Byte>)
    requires n < 0x1_0000
    ensures |s| == 2
  {
    [n / 0x100, n % 0x100]
  }

  ghost function Header(r: Ref, dictSize: nat, p: Piece): seq<Byte>
    requires Encodable(r, dictSize, p)
  {
    var n := |Payload(r, dictSize, p)| - 1;
    match p
    case Plain(reset, _) => [if reset then 1 else 2] + Wide(n)
    case Symbols(level, props, _) =>
      SizeBytes(level, |Text(r, p)| - 1) + Wide(n)
      + (if level.NewProps? || level.Everything? then [PropsCode(props)] else [])
  }

  /** The control byte with the highest five bits of the size, and the rest of the size. */
  function SizeBytes(level: Level, size: nat): (s: seq<Byte>)
    requires size < 0x20_0000
    ensures |s| == 3
  {
    var high: nat := size / 0x1_0000;
    [level.Code() + high] + Wide(size % 0x1_0000)
  }

  function PropsCode(props: Props): Byte
    requires props.Valid()
  {
    (props.pb * 5 + props.lp) * 9 + props.lc
  }

  ghost function EncodePiece(r: Ref, dictSize: nat, p: Piece): seq<Byte>
    requires Encodable(r, dictSize, p)
  {
    Header(r, dictSize, p) + Payload(r, dictSize, p)
  }

  /** The state after a piece; an encoder keeps the decoder's model of the symbols. */
  ghost function Leaving(r: Ref, dictSize: nat, p: Piece): (r': Ref)
    requires Encodable(r, dictSize, p)
    ensures r'.Valid()
  {
    var e := Entering(r, p);
    var next := e.(pos := r.pos + |EncodePiece(r, dictSize, p)|, out := r.out + Text(r, p), hist := e.hist + Text(r, p));
    if p.Plain? then next else
      var body := Payload(r, dictSize, p);
      ChunkRoundTrip(e.probs, e.m, e.props, e.hist, dictSize, p.chs);
      var z := Run(body, e.props, dictSize, Lz(Start(body, e.probs), e.m, e.hist), |p.chs|).lz;
      next.(m := z.m, probs := z.c.probs)
  }

  /** A stretch of the stream holds these bytes. */
  ghost predicate Holds(stream: seq<Byte>, at: nat, s: seq<Byte>) {
    at + |s| <= |stream| && stream[at..at + |s|] == s
  }

  lemma HoldsAt(stream: seq<Byte>, at: nat, s: seq<Byte>, i: nat)
    requires Holds(stream, at, s) && i < |s|
    ensures At(stream, at + i) == s[i] && at + i < |stream|
  {
  }

  lemma HoldsParts(stream: seq<Byte>, at: nat, s: seq<Byte>, t: seq<Byte>)
    requires Holds(stream, at, s + t)
    ensures Holds(stream, at, s) && Holds(stream, at + |s|, t)
  {
    var all := stream[at..at + |s + t|];
    assert all[..|s|] == s && all[|s|..] == t;
    assert stream[at..at + |s|] == all[..|s|] && stream[at + |s|..at + |s| + |t|] == all[|s|..];
  }

  lemma PlainRoundTrip(stream: seq<Byte>, dictSize: nat, r: Ref, p: Piece)
    requires p.Plain? && Encodable(r, dictSize, p) && Holds(stream, r.pos, EncodePiece(r, dictSize, p))
    ensures Chunk(stream, dictSize, r) == Next(Leaving(r, dictSize, p))
  {
    hide FreshProbs, Expand, EncodeChunk, ValidChoices;
    var h := Header(r, dictSize, p);
    HoldsParts(stream, r.pos, h, p.data);
    HoldsAt(stream, r.pos, h, 0);
    HoldsAt(stream, r.pos, h, 1);
    HoldsAt(stream, r.pos, h, 2);
  }

  /** The header of an LZMA chunk says what the encoder put there. */
  lemma HeaderReads(stream: seq<Byte>, dictSize: nat, r: Ref, p: Piece)
    requires p.Symbols? && Encodable(r, dictSize, p) && Holds(stream, r.pos, Header(r, dictSize, p))
    ensures var c := At(stream, r.pos);
            && c >= 0x80 && r.pos < |stream| && !BadControl(AfterReset(r, c), c)
            && (c >= 0xC0 ==> ValidPropsByte(At(stream, r.pos + 5)))
            && BodyStart(stream, r.pos) == r.pos + |Header(r, dictSize, p)|
            && CompressedSize(stream, r.pos + 3) == |Payload(r, dictSize, p)|
            && UncompressedSize(stream, r.pos) == |Text(r, p)|
            && AfterState(AfterReset(r, c), stream, c) == Entering(r, p)
            && AfterReset(r, c).hist == Entering(r, p).hist
  {
    hide ValidChoices, FreshProbs, EncodeChunk, Expand, Holds, PropsOf, ValidPropsByte, SizeBytes, Wide, PropsCode, Payload, Text;
    var h := Header(r, dictSize, p);
    var (size, n) := (|Text(r, p)| - 1, |Payload(r, dictSize, p)| - 1);
    HoldsAt(stream, r.pos, h, 0);
    HoldsAt(stream, r.pos, h, 1);
    HoldsAt(stream, r.pos, h, 2);
    HoldsAt(stream, r.pos, h, 3);
    HoldsAt(stream, r.pos, h, 4);
    SizeReads(p.level, size);
    WideReads(n);
    PropsReads(p.props);
    if |h| == 6 {
      HoldsAt(stream, r.pos, h, 5);
    }
  }

  lemma WideReads(n: nat)
    requires n < 0x1_0000
    ensures var (a: int, b: int) := (Wide(n)[0], Wide(n)[1]); a * 0x100 + b == n
  {
  }

  lemma SizeReads(level: Level, size: nat)
    requires size < 0x20_0000
    ensures var s := SizeBytes(level, size);
            var (a: int, b: int, c: int) := (s[0], s[1], s[2]);
            level.Code() <= a < level.Code() + 0x20 && a % 0x20 * 0x1_0000 + b * 0x100 + c == size
  {
    WideReads(size % 0x1_0000);
  }

  lemma PropsReads(props: Props)
    requires props.Valid()
    ensures ValidPropsByte(PropsCode(props)) && PropsOf(PropsCode(props)) == props
  {
    PropsByte(props.lc, props.lp, props.pb);
  }

  lemma SymbolsRoundTrip(stream: seq<Byte>, dictSize: nat, r: Ref, p: Piece)
    requires p.Symbols? && Encodable(r, dictSize, p) && Holds(stream, r.pos, EncodePiece(r, dictSize, p))
    ensures Chunk(stream, dictSize, r) == Next(Leaving(r, dictSize, p))
  {
    hide ValidChoices, FreshProbs, EncodeChunk, Run, BodyVerdict, Header, Chunk, AfterReset, AfterState, Entering, Leaving, Text, Payload,
         BodyStart, CompressedSize, UncompressedSize, BadControl, ValidPropsByte;
    var (e, body, h) := (Entering(r, p), Payload(r, dictSize, p), Header(r, dictSize, p));
    HoldsParts(stream, r.pos, h, body);
    HeaderReads(stream, dictSize, r, p);
    ChunkOfBody(stream, dictSize, r);
    BodyIs(stream, r.pos + |h|, body);
    BodyEncoded(dictSize, r, p);
  }

  lemma BodyEncoded(dictSize: nat, r: Ref, p: Piece)
    requires p.Symbols? && Encodable(r, dictSize, p)
    ensures var (e, body) := (Entering(r, p), Payload(r, dictSize, p));
            && INIT_BYTES <= |body|
            && BodyVerdict(body, dictSize, e, |e.hist| + |Text(r, p)|, r.pos + |EncodePiece(r, dictSize, p)|)
            == Next(Leaving(r, dictSize, p))
  {
    hide ValidChoices, FreshProbs, EncodeChunk, Run, BodyVerdict, Header, Entering;
    var (e, body) := (Entering(r, p), Payload(r, dictSize, p));
    ChunkRoundTrip(e.probs, e.m, e.props, e.hist, dictSize, p.chs);
    RunForward(body, e.props, dictSize, Lz(Start(body, e.probs), e.m, e.hist), |p.chs|);
    ExpandKeeps(e.m, e.hist, p.chs);
    BodyAccepted(body, dictSize, e, |Expand(e.m, e.hist, p.chs)|, r.pos + |EncodePiece(r, dictSize, p)|, |p.chs|);
    assert Leaving(r, dictSize, p).out == r.out + Text(r, p);
    assert e.hist + Text(r, p) == Expand(e.m, e.hist, p.chs);
    EnteringKeeps(r, p);
  }

  lemma EnteringKeeps(r: Ref, p: Piece)
    requires r.Valid() && (p.Symbols? ==> p.props.Valid())
    ensures Entering(r, p).out == r.out && Entering(r, p).pos == r.pos
  {
  }

  lemma BodyIs(stream: seq<Byte>, at: nat, body: seq<Byte>)
    requires Holds(stream, at, body)
    ensures Body(stream, at, |body|) == body
  {
  }

  // ------------------------------------------------------------- whole streams

  ghost predicate EncodableAll(r: Ref, dictSize: nat, ps: seq<Piece>)
    decreases |ps|
  {
    ps == [] || (Encodable(r, dictSize, ps[0]) && EncodableAll(Leaving(r, dictSize, ps[0]), dictSize, ps[1..]))
  }

  /** The pieces one after the other, and the end marker. */
  ghost function EncodeStream(r: Ref, dictSize: nat, ps: seq<Piece>): seq<Byte>
    requires EncodableAll(r, dictSize, ps)
    decreases |ps|
  {
    if ps == [] then [0]
    else EncodePiece(r, dictSize, ps[0]) + EncodeStream(Leaving(r, dictSize, ps[0]), dictSize, ps[1..])
  }

  ghost function Texts(r: Ref, dictSize: nat, ps: seq<Piece>): seq<Byte>
    requires EncodableAll(r, dictSize, ps)
    decreases |ps|
  {
    if ps == [] then []
    else Text(r, ps[0]) + Texts(Leaving(r, dictSize, ps[0]), dictSize, ps[1..])
  }

  lemma {:induction false} ChunksOfPieces(stream: seq<Byte>, dictSize: nat, r: Ref, ps: seq<Piece>)
    requires r.Valid() && EncodableAll(r, dictSize, ps) && Holds(stream, r.pos, EncodeStream(r, dictSize, ps))
    ensures var v := Chunks(stream, dictSize, r, |ps|);
            && v.Next? && v.ref.out == r.out + Texts(r, dictSize, ps)
            && Chunk(stream, dictSize, v.ref) == End(r.pos + |EncodeStream(r, dictSize, ps)|)
    decreases |ps|
  {
    hide Chunk, ValidChoices, EncodePiece, Leaving, Payload, Entering, Expand;
    if ps == [] {
      HoldsAt(stream, r.pos, [0], 0);
      EndMarker(stream, dictSize, r);
      assert r.out + [] == r.out;
    } else {
      var next := Leaving(r, dictSize, ps[0]);
      HoldsParts(stream, r.pos, EncodePiece(r, dictSize, ps[0]), EncodeStream(next, dictSize, ps[1..]));
      PieceRoundTrip(stream, dictSize, r, ps[0]);
      ChunksOfPieces(stream, dictSize, next, ps[1..]);
      assert next.out + Texts(next, dictSize, ps[1..]) == r.out + (Text(r, ps[0]) + Texts(next, dictSize, ps[1..]));
    }
  }

  lemma EndMarker(stream: seq<Byte>, dictSize: nat, r: Ref)
    requires r.Valid() && r.pos < |stream| && stream[r.pos] == 0
    ensures Chunk(stream, dictSize, r) == End(r.pos + 1)
  {
  }

  lemma PieceRoundTrip(stream: seq<Byte>, dictSize: nat, r: Ref, p: Piece)
    requires Encodable(r, dictSize, p) && Holds(stream, r.pos, EncodePiece(r, dictSize, p))
    ensures Chunk(stream, dictSize, r) == Next(Leaving(r, dictSize, p))
    ensures Leaving(r, dictSize, p).pos == r.pos + |EncodePiece(r, dictSize, p)|
    ensures Leaving(r, dictSize, p).out == r.out + Text(r, p)
  {
    hide Chunk, Encodable, EncodePiece, Text, Entering;
    if p.Plain? {
      PlainRoundTrip(stream, dictSize, r, p);
    } else {
      SymbolsRoundTrip(stream, dictSize, r, p);
    }
  }

  /** Whatever pieces an encoder writes, and whatever follows them, the stream decodes to the text of the pieces and
      ends where the encoder stopped. */
  lemma StreamRoundTrip(dictSize: nat, ps: seq<Piece>, tail: seq<Byte>)
    requires EncodableAll(FirstRef(), dictSize, ps)
    ensures var s := EncodeStream(FirstRef(), dictSize, ps);
            Accepts(s + tail, dictSize, Texts(FirstRef(), dictSize, ps), |s|)
  {
    hide Chunk, Chunks, Encodable, EncodePiece, Text, Leaving, FreshProbs, EncodableAll;
    var (s, out) := (EncodeStream(FirstRef(), dictSize, ps), Texts(FirstRef(), dictSize, ps));
    assert (s + tail)[0..0 + |s|] == s;
    ChunksOfPieces(s + tail, dictSize, FirstRef(), ps);
    assert [] + out == out;
    assert AcceptsAfter(s + tail, dictSize, |ps|, out, |s|);
  }
}
