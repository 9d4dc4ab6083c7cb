/** The ADPCM decoder of the disc's audio tracks, and the bounds that keep its 32-bit arithmetic exact. */
module Adpcm {
  import opened Bytes
  import opened Words
  import opened Fifo

  const S16_MIN: int := -0x8000
  const S16_MAX: int := 0x7FFF
  const S22_MIN: int := -0x20_0000
  const S22_MAX: int := 0x1F_FFFF
  const HISTORY: int := 0x40_0000

  datatype Sample = Sample(l: int, r: int)

  /** The two latest values of one channel, latest first. */
  datatype Channel = Channel(latest: int, before: int)

  datatype State = State(l: Channel, r: Channel)

  function Clamp(x: int, lo: int, hi: int): (r: int)
    requires lo <= hi
    ensures lo <= r <= hi && (lo <= x <= hi ==> r == x)
  {
    if x < lo then lo else if x > hi then hi else x
  }

  // ------------------------------------------------------------- clamping on words

  /** The number a word stands for in two's complement. */
  function Signed(x: bv32): int {
    if AtMost(x, 0x7FFF_FFFF) then Val(x, 32) else Val(x, 32) - U32
  }

  /** x >> 31 */
  function SignWord(x: bv32): bv32 {
    if AtMost(x, 0x7FFF_FFFF) then 0 else ALL
  }

  function ClampS16(x: bv32): bv32 {
    if (x + 0x8000) & !0xFFFF != 0 then SignWord(x) ^ 0x7FFF else x
  }

  function ClampS22(x: bv32): bv32 {
    if (x + 0x20_0000) & !0x3F_FFFF != 0 then SignWord(x) ^ 0x1F_FFFF else x
  }

  /** Where a word lies decides what it is replaced with. */
  lemma Cases16(x: bv32)
    ensures if AtMost(x, 0x7FFF) || AtMost(0xFFFF_8000, x) then ClampS16(x) == x
            else if AtMost(x, 0x7FFF_FFFF) then ClampS16(x) == 0x7FFF && AtMost(0x8000, x)
            else ClampS16(x) == 0xFFFF_8000 && AtMost(x, 0xFFFF_7FFF)
  {
  }

  lemma Cases22(x: bv32)
    ensures if AtMost(x, 0x1F_FFFF) || AtMost(0xFFE0_0000, x) then ClampS22(x) == x
            else if AtMost(x, 0x7FFF_FFFF) then ClampS22(x) == 0x1F_FFFF && AtMost(0x20_0000, x)
            else ClampS22(x) == 0xFFE0_0000 && AtMost(x, 0xFFDF_FFFF)
  {
  }

  lemma Ends16()
    ensures Val(0x7FFF, 32) == 0x7FFF && Val(0xFFFF_8000, 32) == U32 - 0x8000
    ensures Val(0x8000, 32) == 0x8000 && Val(0xFFFF_7FFF, 32) == U32 - 1 - 0x8000
  {
    hide Ones, Val;
    WholeMasks();
    OneMore(0xFFF, 12);
    OneMore(0x1FFF, 13);
    OneMore(0x3FFF, 14);
    OneMore(0x7FFF, 15);
    Powers();
    SignedEnds(0x7FFF, 0xFFFF, 15);
  }

  lemma Ends22()
    ensures Val(0x1F_FFFF, 32) == 0x1F_FFFF && Val(0xFFE0_0000, 32) == U32 - 0x20_0000
    ensures Val(0x20_0000, 32) == 0x20_0000 && Val(0xFFDF_FFFF, 32) == U32 - 1 - 0x20_0000
  {
    hide Ones, Val;
    WholeMasks();
    OneMore(0xF_FFFF, 20);
    OneMore(0x1F_FFFF, 21);
    Powers();
    SignedEnds(0x1F_FFFF, 0x3F_FFFF, 21);
  }

  lemma SmallPositive(x: bv32)
    ensures AtMost(x, 0x7FFF) ==> AtMost(x, 0x7FFF_FFFF)
    ensures AtMost(x, 0x1F_FFFF) ==> AtMost(x, 0x7FFF_FFFF)
  {
  }

  lemma SmallNegative(x: bv32)
    ensures AtMost(0xFFFF_8000, x) ==> !AtMost(x, 0x7FFF_FFFF)
    ensures AtMost(0xFFE0_0000, x) ==> !AtMost(x, 0x7FFF_FFFF)
  {
  }

  lemma WordBelow(x: bv32)
    ensures Val(x, 32) < U32
  {
    hide Val;
    ValBound(x, 32);
    Powers();
  }

  /** clamp_s16 clamps the number its word stands for. */
  lemma ClampBits16(x: bv32)
    ensures Signed(ClampS16(x)) == Clamp(Signed(x), S16_MIN, S16_MAX)
  {
    hide ClampS16, AtMost, Val;
    Cases16(x);
    Ends16();
    WordBelow(x);
    SmallPositive(x);
    SmallNegative(x);
    if AtMost(x, 0x7FFF) {
      Compare(x, 0x7FFF);
    } else if AtMost(0xFFFF_8000, x) {
      Compare(0xFFFF_8000, x);
    } else if AtMost(x, 0x7FFF_FFFF) {
      Compare(0x8000, x);
      MiddleSigns();
    } else {
      Compare(x, 0xFFFF_7FFF);
      MiddleSigns();
    }
  }

  lemma MiddleSigns()
    ensures AtMost(0x7FFF, 0x7FFF_FFFF) && !AtMost(0xFFFF_8000, 0x7FFF_FFFF)
    ensures AtMost(0x1F_FFFF, 0x7FFF_FFFF) && !AtMost(0xFFE0_0000, 0x7FFF_FFFF)
  {
  }

  /** So does clamp_s22. */
  lemma ClampBits22(x: bv32)
    ensures Signed(ClampS22(x)) == Clamp(Signed(x), S22_MIN, S22_MAX)
  {
    hide ClampS22, AtMost, Val;
    Cases22(x);
    Ends22();
    WordBelow(x);
    SmallPositive(x);
    SmallNegative(x);
    if AtMost(x, 0x1F_FFFF) {
      Compare(x, 0x1F_FFFF);
    } else if AtMost(0xFFE0_0000, x) {
      Compare(0xFFE0_0000, x);
    } else if AtMost(x, 0x7FFF_FFFF) {
      Compare(0x20_0000, x);
      MiddleSigns();
    } else {
      Compare(x, 0xFFDF_FFFF);
      MiddleSigns();
    }
  }

  /** The filter coefficients for the header's two filter bits, in 64ths. */
  function Gain(header: Byte): (g: (nat, nat))
    ensures g.0 <= 115 && g.1 <= 55
  {
    var index := header / 16 % 4;
    if index == 0 then (0, 0) else if index == 1 then (60, 0) else if index == 2 then (115, 52) else (98, 55)
  }

  function Power2(n: nat): (p: nat)
    ensures p > 0
  {
    if n == 0 then 1 else 2 * Power2(n - 1)
  }

  /** (int16_t)(sample << 12) >> shift << 6, for four bits of data */
  function Residual(header: Byte, nibble: nat): int
    requires nibble < 16
  {
    (if nibble < 8 then nibble else nibble - 16) * 0x1000 / Power2(header % 16) * 64
  }

  lemma ResidualBounds(header: Byte, nibble: nat)
    requires nibble < 16
    ensures -0x20_0000 <= Residual(header, nibble) <= 0x1C_0000
  {
    var v := (if nibble < 8 then nibble else nibble - 16) * 0x1000;
    assert -0x8000 <= v <= 0x7000;
    ShiftedBounds(v, Power2(header % 16));
  }

  lemma ShiftedBounds(v: int, p: nat)
    requires p > 0 && -0x8000 <= v <= 0x7000
    ensures -0x8000 <= v / p <= 0x7000
  {
    var (q, r) := (v / p, v % p);
    assert v == q * p + r;
    if q >= 0 {
      MulMonotone(q, 1, p);
    } else {
      var k: nat := 0 - q - 1;
      MulMonotone(k, 1, p);
      assert q * p == 0 - k * p - p;
    }
  }

  predicate Bounded(c: Channel) {
    -HISTORY <= c.latest < HISTORY && -HISTORY <= c.before < HISTORY
  }

  function Predicted(header: Byte, c: Channel): int {
    c.latest * Gain(header).0 - c.before * Gain(header).1
  }

  function Next(header: Byte, nibble: nat, c: Channel): int
    requires nibble < 16
  {
    Clamp((Predicted(header, c) + 32) / 64, S22_MIN, S22_MAX) + Residual(header, nibble)
  }

  /** decode_sample */
  function Decode(header: Byte, nibble: nat, c: Channel): (int, Channel)
    requires nibble < 16
  {
    var curr := Next(header, nibble, c);
    (Clamp((curr + 32) / 64, S16_MIN, S16_MAX), Channel(curr, c.latest))
  }

  /** The value in a range that is nearest to another one. */
  ghost predicate Nearest(r: int, x: int, lo: int, hi: int) {
    if x < lo then r == lo else if x > hi then r == hi else r == x
  }

  /** q is x divided by d, rounded down. */
  ghost predicate Quotient(q: int, x: int, d: nat) {
    q * d <= x < q * d + d
  }

  /** The four filters, in 64ths of the two latest values. */
  ghost function Filtered(filter: nat, latest: int, before: int): int {
    match filter
    case 1 => 60 * latest
    case 2 => 115 * latest - 52 * before
    case 3 => 98 * latest - 55 * before
    case _ => 0
  }

  /** One sample: the filter, chosen by the header's two bits from the fifth on, is rounded and kept to 22 bits; four bits
      of data, with a sign and scaled down by the header's four lowest bits, are added; the sample is that in 64ths,
      rounded and kept to 16 bits. */
  lemma DecodeIs(header: Byte, nibble: nat, c: Channel) returns (p: int, r: int, q: int)
    requires nibble < 16
    ensures var (x, c') := Decode(header, nibble, c);
            && c'.before == c.latest
            && Quotient(p, Filtered(header / 16 % 4, c.latest, c.before) + 32, 64)
            && Quotient(r, 4096 * (if nibble < 8 then nibble else nibble - 16), Pow(2, header % 16))
            && Nearest(c'.latest - 64 * r, p, -0x20_0000, 0x1F_FFFF)
            && Quotient(q, c'.latest + 32, 64) && Nearest(x, q, -0x8000, 0x7FFF)
  {
    var v := (if nibble < 8 then nibble else nibble - 16) * 0x1000;
    p := (Predicted(header, c) + 32) / 64;
    r := v / Power2(header % 16);
    q := (Next(header, nibble, c) + 32) / 64;
    PowerOfTwo(header % 16);
    QuotientIs(v, Power2(header % 16));
    QuotientIs(Predicted(header, c) + 32, 64);
    QuotientIs(Next(header, nibble, c) + 32, 64);
    FilterIs(header, c);
    ClampIs((Predicted(header, c) + 32) / 64, S22_MIN, S22_MAX);
    ClampIs(q, S16_MIN, S16_MAX);
  }

  lemma FilterIs(header: Byte, c: Channel)
    ensures Predicted(header, c) == Filtered(header / 16 % 4, c.latest, c.before)
  {
  }

  lemma ClampIs(x: int, lo: int, hi: int)
    requires lo <= hi
    ensures Nearest(Clamp(x, lo, hi), x, lo, hi)
  {
  }

  lemma QuotientIs(x: int, d: nat)
    requires d > 0
    ensures Quotient(x / d, x, d)
  {
  }

  lemma {:induction false} PowerOfTwo(n: nat)
    ensures Power2(n) == Pow(2, n)
  {
    if n > 0 {
      PowerOfTwo(n - 1);
    }
  }

  /** The history stays within 23 bits, so that no intermediate result leaves 32 bits, and samples fit 16. */
  lemma HistoryStays(header: Byte, nibble: nat, c: Channel)
    requires nibble < 16 && Bounded(c)
    ensures var (x, c') := Decode(header, nibble, c); Bounded(c') && S16_MIN <= x <= S16_MAX
    ensures -0x8000_0000 <= c.latest * Gain(header).0 < 0x8000_0000
    ensures -0x8000_0000 <= Predicted(header, c) && Predicted(header, c) + 32 < 0x8000_0000
  {
    hide Residual;
    ResidualBounds(header, nibble);
    Product(c.latest, Gain(header).0, 115);
    Product(c.before, Gain(header).1, 55);
  }

  lemma Product(x: int, g: nat, m: nat)
    requires -HISTORY <= x < HISTORY && g <= m
    ensures -HISTORY * m <= x * g <= HISTORY * m
  {
    if x >= 0 {
      MulMonotone(g, x, HISTORY);
      assert g * HISTORY <= m * HISTORY;
    } else {
      MulMonotone(g, -x, HISTORY);
      assert g * HISTORY <= m * HISTORY;
    }
  }

  // ----------------------------------------------------------------------- blocks

  /** One sample of a block: two headers, two bytes of which are repeated, then 28 bytes with a nibble a channel. */
  function SampleAt(block: seq<Byte>, i: nat, st: State): (Sample, State)
    requires |block| == 32 && i < 28
  {
    var (l, cl) := Decode(block[0], block[4 + i] % 16, st.l);
    var (r, cr) := Decode(block[1], block[4 + i] / 16, st.r);
    (Sample(l, r), State(cl, cr))
  }

  function Block(block: seq<Byte>, n: nat, st: State): (r: (seq<Sample>, State))
    requires |block| == 32 && n <= 28
    ensures |r.0| == n
  {
    if n == 0 then ([], st) else
      var (s, st1) := Block(block, n - 1, st);
      var (x, st2) := SampleAt(block, n - 1, st1);
      (s + [x], st2)
  }

  /** k blocks of 32 bytes, 28 samples each. */
  function Blocks(data: seq<Byte>, k: nat, st: State): (r: (seq<Sample>, State))
    requires 32 * k <= |data|
    ensures |r.0| == 28 * k
  {
    if k == 0 then ([], st) else
      var (s, st1) := Blocks(data, k - 1, st);
      var (t, st2) := Block(data[32 * (k - 1)..32 * k], 28, st1);
      (s + t, st2)
  }

  ghost predicate StateBounded(st: State) {
    Bounded(st.l) && Bounded(st.r)
  }

  lemma {:induction false} BlockStays(block: seq<Byte>, n: nat, st: State)
    requires |block| == 32 && n <= 28 && StateBounded(st)
    ensures StateBounded(Block(block, n, st).1)
    ensures forall i :: 0 <= i < n ==> Fits(Block(block, n, st).0[i])
  {
    hide Decode, Bounded;
    if n == 0 {
    } else {
      BlockStays(block, n - 1, st);
      var st1 := Block(block, n - 1, st).1;
      HistoryStays(block[0], block[4 + (n - 1)] % 16, st1.l);
      HistoryStays(block[1], block[4 + (n - 1)] / 16, st1.r);
    }
  }

  predicate Fits(x: Sample) {
    S16_MIN <= x.l <= S16_MAX && S16_MIN <= x.r <= S16_MAX
  }

  /** From silence on, whatever the data: the history never overflows and every sample fits sixteen bits. */
  lemma {:induction false} BlocksStay(data: seq<Byte>, k: nat, st: State)
    requires 32 * k <= |data| && StateBounded(st)
    ensures StateBounded(Blocks(data, k, st).1)
    ensures forall i :: 0 <= i < 28 * k ==> Fits(Blocks(data, k, st).0[i])
  {
    hide Block;
    if k == 0 {
    } else {
      BlocksStay(data, k - 1, st);
      BlockStays(data[32 * (k - 1)..32 * k], 28, Blocks(data, k - 1, st).1);
    }
  }

  const SILENCE := State(Channel(0, 0), Channel(0, 0))

  class Decoder {
    var state: State

    constructor ()
      ensures state == State(Channel(0, 0), Channel(0, 0))
    {
      state := SILENCE;
    }

    /** adpcm_reset */
    method Reset()
      modifies this
      ensures state == State(Channel(0, 0), Channel(0, 0))
    {
      state := SILENCE;
    }

    /** adpcm_decode, for count samples: all of them go to the fifo when there is room for all of them. */
    method DecodeAll(fifo: Ring<Sample>, data: seq<Byte>, count: nat)
      requires fifo.Valid() && count % 28 == 0 && |data| == count / 28 * 32 && count <= fifo.Space()
      modifies this, fifo, fifo.buffer
      ensures fifo.Valid() && fifo.Contents() == old(fifo.Contents()) + Blocks(data, count / 28, old(state)).0
      ensures state == Blocks(data, count / 28, old(state)).1
    {
      hide Blocks, Block, Ring.Contents;
      var k := 0;
      ghost var st := state;
      NoBlocks(data, st);
      while k < count / 28
        invariant 0 <= k <= count / 28 && fifo.Valid() && count - 28 * k <= fifo.Space()
        invariant fifo.Contents() == old(fifo.Contents()) + Blocks(data, k, st).0 && state == Blocks(data, k, st).1
      {
        OneMoreBlock(data, k, st);
        DecodeBlock(fifo, data[32 * k..32 * (k + 1)]);
        k := k + 1;
      }
    }

    lemma NoBlocks(data: seq<Byte>, st: State)
      ensures Blocks(data, 0, st) == ([], st)
    {
    }

    lemma OneMoreBlock(data: seq<Byte>, k: nat, st: State)
      requires 32 * (k + 1) <= |data|
      ensures var (s, st1) := Blocks(data, k, st);
              var (t, st2) := Block(data[32 * k..32 * (k + 1)], 28, st1);
              Blocks(data, k + 1, st) == (s + t, st2)
    {
      hide Block;
    }

    method DecodeBlock(fifo: Ring<Sample>, block: seq<Byte>)
      requires fifo.Valid() && |block| == 32 && 28 <= fifo.Space()
      modifies this, fifo, fifo.buffer
      ensures fifo.Valid() && fifo.Contents() == old(fifo.Contents()) + Block(block, 28, old(state)).0
      ensures state == Block(block, 28, old(state)).1
    {
      hide Decode;
      var i := 0;
      ghost var st := state;
      while i < 28
        invariant 0 <= i <= 28 && fifo.Valid() && 28 - i <= fifo.Space()
        invariant fifo.Contents() == old(fifo.Contents()) + Block(block, i, st).0 && state == Block(block, i, st).1
      {
        var (l, cl) := Decode(block[0], block[4 + i] % 16, state.l);
        var (r, cr) := Decode(block[1], block[4 + i] / 16, state.r);
        state := State(cl, cr);
        fifo.Push(Sample(l, r));
        i := i + 1;
      }
    }
  }
}
