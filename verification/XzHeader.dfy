/** The fixed fields of an .xz stream: Stream Header and Footer and the Block Header, sections 2.1 and 3.1 of the format,
    as an encoder writes them, and what a decoder may make of them. */
module XzHeader {
  import opened Bytes
  import opened Vli
  import opened XzIndex
  import opened XzBlock
  import opened Lzma2

  const POWERPC: Byte := 5
  const LZMA2: Byte := 0x21

  // ------------------------------------------------------------ Stream Header and Footer

  const MAGIC: seq<Byte> := [0xFD, 0x37, 0x7A, 0x58, 0x5A, 0]
  const FOOTER_MAGIC: seq<Byte> := [0x59, 0x5A]
  const STREAM_HEADER_SIZE := 12

  /** The check values that are supported: none, or a CRC32. */
  function StreamFlags(hasCrc: bool): seq<Byte> {
    [0, if hasCrc then 1 else 0]
  }

  function StreamHeader(hasCrc: bool): (s: seq<Byte>)
    ensures |s| == STREAM_HEADER_SIZE
  {
    MAGIC + StreamFlags(hasCrc) + LittleEndian(CrcOf(StreamFlags(hasCrc), 0))
  }

  /** Four bytes, lowest first. */
  function FromLittle(s: seq<Byte>): nat
    requires |s| == 4
  {
    var (a: nat, b: nat, c: nat, d: nat) := (s[0], s[1], s[2], s[3]);
    a + 0x100 * b + 0x1_0000 * c + 0x100_0000 * d
  }

  function ToLittle(n: nat): (s: seq<Byte>)
    requires n < U32
    ensures |s| == 4
  {
    [n % 0x100, n / 0x100 % 0x100, n / 0x1_0000 % 0x100, n / 0x100_0000]
  }

  lemma LittleRead(n: nat, s: seq<Byte>)
    requires |s| == 4
    ensures FromLittle(s) < U32 && (n < U32 ==> (FromLittle(s) == n <==> s == ToLittle(n)))
  {
    var (a, b, c, d) := (s[0], s[1], s[2], s[3]);
    if n < U32 {
      var t := ToLittle(n);
      FromTo(n);
      if FromLittle(s) == n {
        ToFrom(a, b, c, d);
        assert s == t;
      }
    }
  }

  lemma FromTo(n: nat)
    requires n < U32
    ensures FromLittle(ToLittle(n)) == n
  {
    assert n / 0x1_0000 == n / 0x100 / 0x100 && n / 0x100_0000 == n / 0x1_0000 / 0x100;
  }

  lemma ToFrom(a: Byte, b: Byte, c: Byte, d: Byte)
    ensures var n := a + 0x100 * b + 0x1_0000 * c + 0x100_0000 * d; n < U32 && ToLittle(n) == [a, b, c, d]
  {
    var n := a + 0x100 * b + 0x1_0000 * c + 0x100_0000 * d;
    DivisionIs(n, 0x100, b + 0x100 * c + 0x1_0000 * d, a);
    DivisionIs(n, 0x1_0000, c + 0x100 * d, a + 0x100 * b);
    DivisionIs(n, 0x100_0000, d, a + 0x100 * b + 0x1_0000 * c);
    DivisionIs(b + 0x100 * c + 0x1_0000 * d, 0x100, c + 0x100 * d, b);
    DivisionIs(c + 0x100 * d, 0x100, d, c);
  }

  /** The end of a stream whose Index has size bytes without its CRC32. */
  function StreamFooter(size: nat, hasCrc: bool): (s: seq<Byte>)
    requires size / 4 < U32
    ensures |s| == STREAM_HEADER_SIZE
  {
    var fields := ToLittle(size / 4) + StreamFlags(hasCrc);
    LittleEndian(CrcOf(fields, 0)) + fields + FOOTER_MAGIC
  }

  // ----------------------------------------------------------------- Block Header

  datatype Head = Head(filtered: bool, compressed: Declared, uncompressed: Declared, props: Byte)

  function Optional(d: Declared): seq<Byte> {
    match d
    case Unknown => []
    case Known(n) => Encode(n)
  }

  function Flags(h: Head): Byte {
    (if h.filtered then 1 else 0) + (if h.compressed.Known? then 0x40 else 0) + (if h.uncompressed.Known? then 0x80 else 0)
  }

  function FilterFlags(filtered: bool, props: Byte): seq<Byte> {
    (if filtered then [POWERPC, 0] else []) + [LZMA2, 1, props]
  }

  function Fields(h: Head): seq<Byte> {
    [Flags(h)] + (Optional(h.compressed) + (Optional(h.uncompressed) + FilterFlags(h.filtered, h.props)))
  }

  ghost predicate Small(d: Declared) {
    d.Known? ==> d.n < Pow(2, 63)
  }

  predicate HeadSize(size: nat) {
    size % 4 == 0 && 8 <= size <= 1024
  }

  ghost predicate Writable(h: Head, size: nat) {
    && HeadSize(size) && |Fields(h)| + 5 <= size && h.props <= PROPS_MAX && Small(h.compressed) && Small(h.uncompressed)
  }

  /** The header without its CRC32: its size comes first, and padding makes it up. */
  ghost function HeadBytes(h: Head, size: nat): (s: seq<Byte>)
    requires Writable(h, size)
    ensures |s| == size - 4
  {
    [size / 4 - 1] + (Fields(h) + Zeros(size - 5 - |Fields(h)|))
  }

  ghost function EncodeHead(h: Head, size: nat): (s: seq<Byte>)
    requires Writable(h, size)
    ensures |s| == size
  {
    HeadBytes(h, size) + LittleEndian(CrcOf(HeadBytes(h, size), 0))
  }

  // ---------------------------------------------------------------------- reading

  datatype Parsed<T> = Right(value: T, rest: seq<Byte>) | Wrong

  function ParseOptional(present: bool, s: seq<Byte>): Parsed<Declared> {
    FeedUsed(FRESH, s);
    if !present then Right(Unknown, s) else
      match Feed(FRESH, s)
      case Done(v, used) => Right(Known(v), s[used..])
      case _ => Wrong
  }

  function ParseFilters(filtered: bool, s: seq<Byte>): Parsed<Byte> {
    if filtered && (|s| < 2 || s[0] != POWERPC || s[1] != 0) then Wrong else
      var t := if filtered then s[2..] else s;
      if |t| < 3 || t[0] != LZMA2 || t[1] != 1 || t[2] > PROPS_MAX then Wrong else Right(t[2], t[3..])
  }

  /** A header without its CRC32. */
  function ParseHead(t: seq<Byte>): Parsed<Head>
    requires |t| >= 4
  {
    var flags := t[1];
    if flags % 0x40 >= 2 then Wrong else
      var c := ParseOptional(flags / 0x40 % 2 == 1, t[2..]);
      if c.Wrong? then Wrong else
        var u := ParseOptional(flags / 0x80 == 1, c.rest);
        if u.Wrong? then Wrong else
          var f := ParseFilters(flags % 2 == 1, u.rest);
          if f.Wrong? || f.rest != Zeros(|f.rest|) then Wrong
          else Right(Head(flags % 2 == 1, c.value, u.value, f.value), [])
  }

  lemma OptionalRead(d: Declared, tail: seq<Byte>)
    requires Small(d)
    ensures ParseOptional(d.Known?, Optional(d) + tail) == Right(d, tail)
  {
    hide Feed, Encode, Pow;
    match d
    case Unknown => assert [] + tail == tail;
    case Known(n) =>
      RoundTrip(n, tail);
      assert (Encode(n) + tail)[|Encode(n)|..] == tail;
  }

  lemma OptionalOnly(present: bool, s: seq<Byte>)
    requires ParseOptional(present, s).Right?
    ensures var Right(d, rest) := ParseOptional(present, s); d.Known? == present && Small(d) && s == Optional(d) + rest
  {
    hide Feed, Encode, Pow;
    if present {
      OneEncoding(s);
      FeedUsed(FRESH, s);
    }
  }

  lemma FiltersRead(filtered: bool, props: Byte, tail: seq<Byte>)
    requires props <= PROPS_MAX
    ensures ParseFilters(filtered, FilterFlags(filtered, props) + tail) == Right(props, tail)
  {
    var s := FilterFlags(filtered, props) + tail;
    if filtered {
      assert s == [POWERPC, 0, LZMA2, 1, props] + tail;
      assert s[2..] == [LZMA2, 1, props] + tail && s[2..][3..] == tail;
    } else {
      assert s == [LZMA2, 1, props] + tail && s[3..] == tail;
    }
  }

  lemma FiltersOnly(filtered: bool, s: seq<Byte>)
    requires ParseFilters(filtered, s).Right?
    ensures var Right(props, rest) := ParseFilters(filtered, s); props <= PROPS_MAX && s == FilterFlags(filtered, props) + rest
  {
  }

  lemma FlagsRead(h: Head)
    ensures var flags := Flags(h);
            && flags % 0x40 < 2 && (flags / 0x40 % 2 == 1 <==> h.compressed.Known?)
            && (flags / 0x80 == 1 <==> h.uncompressed.Known?) && (flags % 2 == 1 <==> h.filtered)
  {
  }

  lemma FlagsOnly(flags: Byte, h: Head)
    requires flags % 0x40 < 2 && (flags / 0x40 % 2 == 1 <==> h.compressed.Known?)
    requires (flags / 0x80 == 1 <==> h.uncompressed.Known?) && (flags % 2 == 1 <==> h.filtered)
    ensures flags == Flags(h)
  {
    var (q, r) := (flags / 0x40, flags % 0x40);
    assert flags == 0x40 * q + r && q < 4 && flags / 0x80 == q / 2 && flags % 2 == r % 2;
  }

  /** Every header an encoder may write is read back. */
  lemma HeadRead(h: Head, size: nat)
    requires Writable(h, size)
    ensures ParseHead(HeadBytes(h, size)) == Right(h, [])
  {
    hide Encode, Pow, Feed, ParseOptional, ParseFilters, FilterFlags, Optional, Flags;
    var (t, zeros) := (HeadBytes(h, size), Zeros(size - 5 - |Fields(h)|));
    var (c, u, f) := (Optional(h.compressed), Optional(h.uncompressed), FilterFlags(h.filtered, h.props));
    assert t[2..] == c + (u + (f + zeros));
    FlagsRead(h);
    OptionalRead(h.compressed, u + (f + zeros));
    OptionalRead(h.uncompressed, f + zeros);
    FiltersRead(h.filtered, h.props, zeros);
  }

  /** Only such headers are read: what is read is the one header with these bytes. */
  lemma HeadOnly(t: seq<Byte>, size: nat)
    requires HeadSize(size) && |t| == size - 4 && t[0] == size / 4 - 1 && ParseHead(t).Right?
    ensures var h := ParseHead(t).value; Writable(h, size) && t == HeadBytes(h, size)
  {
    hide Encode, Pow, Feed, ParseOptional, ParseFilters, FilterFlags, Optional, Flags;
    var flags := t[1];
    var c := ParseOptional(flags / 0x40 % 2 == 1, t[2..]);
    var u := ParseOptional(flags / 0x80 == 1, c.rest);
    var f := ParseFilters(flags % 2 == 1, u.rest);
    var h := ParseHead(t).value;
    OptionalOnly(flags / 0x40 % 2 == 1, t[2..]);
    OptionalOnly(flags / 0x80 == 1, c.rest);
    FiltersOnly(flags % 2 == 1, u.rest);
    FlagsOnly(flags, h);
    var fields := Optional(h.compressed) + (Optional(h.uncompressed) + FilterFlags(h.filtered, h.props));
    assert t[2..] == fields + f.rest;
    assert t == [t[0]] + ([flags] + fields + f.rest);
  }
}
