/** The adaptive binary range decoder and, as its independent reference, exact interval coding over
    unbounded integers. */
module RangeCoder {
  import opened Bytes

  const TOP_VALUE := 0x100_0000
  const BIT_MODEL_TOTAL := 2048
  const INIT_BYTES := 5

  /** What a probability can become: 1024 moved by steps of a thirty-second of the distance to an end. */
  type Prob = p: int | 31 <= p <= 2017 witness 1024

  function Adapt(p: Prob, bit: bool): Prob {
    if bit then p - p / 32 else p + (BIT_MODEL_TOTAL - p) / 32
  }

  /** Everything the decoding of one bit reads and writes. */
  datatype Coder = Coder(range: Word, code: Word, pos: nat, probs: seq<Prob>)

  function Normalize(inp: seq<Byte>, c: Coder): Coder {
    if c.range < TOP_VALUE then
      c.(range := c.range * 256, code := (c.code * 256 + At(inp, c.pos)) % U32, pos := c.pos + 1)
    else c
  }

  /** The part of a range of q BIT_MODEL_TOTALths that a probability gives to the bit 0. */
  function Share(q: nat, p: Prob): (b: nat)
    ensures 31 * q <= b <= 2017 * q
  {
    MulMonotone(q, 31, p);
    MulMonotone(q, p, 2017);
    q * p
  }

  function Bound(range: Word, p: Prob): (b: Word)
    ensures b <= range
    ensures range >= TOP_VALUE ==> 253952 <= b && b + 253952 <= range
  {
    Share(range / BIT_MODEL_TOTAL, p)
  }

  function Bit(inp: seq<Byte>, c: Coder, i: nat): (r: (bool, Coder))
    requires i < |c.probs|
    ensures |r.1.probs| == |c.probs|
  {
    var n := Normalize(inp, c);
    var p := n.probs[i];
    var bound := Bound(n.range, p);
    if n.code < bound then
      (false, n.(range := bound, probs := n.probs[i := Adapt(p, false)]))
    else
      (true, n.(range := n.range - bound, code := n.code - bound, probs := n.probs[i := Adapt(p, true)]))
  }

  /** A probability moves towards the bit by a thirty-second of the way to that end, rounded down. */
  ghost predicate Moves(p: int, p': int, bit: bool) {
    if bit then 32 * (p - p') <= p < 32 * (p - p' + 1) else 32 * (p' - p) <= 2048 - p < 32 * (p' - p + 1)
  }

  /** Range and code with one more byte if the range has got below 2^24. */
  ghost predicate Normal(inp: seq<Byte>, c: Coder, r: int, x: int) {
    if c.range < 0x100_0000 then r == c.range * 0x100 && x == (c.code * 0x100 + At(inp, c.pos)) % 0x1_0000_0000
    else r == c.range && x == c.code
  }

  /** What a decision takes of the range: the bit 0 its probability in 2048ths of it, the bit 1 the rest. */
  ghost predicate Decides(inp: seq<Byte>, c: Coder, i: nat, bit: bool, c': Coder)
    requires i < |c.probs|
  {
    exists r: int, x: int :: Normal(inp, c, r, x) &&
      var part := r / 2048 * c.probs[i];
      && (bit <==> part <= x)
      && c'.range == (if bit then r - part else part) && c'.code == (if bit then x - part else x)
      && c'.pos == c.pos + if c.range < 0x100_0000 then 1 else 0
  }

  lemma BitDecides(inp: seq<Byte>, c: Coder, i: nat)
    requires i < |c.probs|
    ensures var (bit, c') := Bit(inp, c, i);
            && Decides(inp, c, i, bit, c') && |c'.probs| == |c.probs| && Moves(c.probs[i], c'.probs[i], bit)
            && forall j :: 0 <= j < |c.probs| && j != i ==> c'.probs[j] == c.probs[j]
  {
    var n := Normalize(inp, c);
    assert Normal(inp, c, n.range, n.code);
  }

  /** A direct decision halves the range; while the code is below it, the bit says in which half the code is. */
  lemma DirectHalves(inp: seq<Byte>, c: Coder, r: int, x: int)
    requires Normal(inp, c, r, x) && x < r
    ensures var (bit, c') := DirectBit(inp, c);
            && (bit <==> r / 2 <= x) && c'.range == r / 2 && c'.code == x - (if bit then r / 2 else 0) && c'.probs == c.probs
            && c'.pos == c.pos + if c.range < 0x100_0000 then 1 else 0
  {
    hide Normalize;
    NormalIs(inp, c, r, x);
    HalfWraps(r, x);
  }

  lemma NormalIs(inp: seq<Byte>, c: Coder, r: int, x: int)
    requires Normal(inp, c, r, x)
    ensures var n := Normalize(inp, c); n.range == r && n.code == x && n.pos == c.pos + if c.range < 0x100_0000 then 1 else 0
  {
  }

  /** Subtracting the half wraps around, and adding it again wraps back. */
  lemma HalfWraps(r: Word, x: Word)
    requires x < r
    ensures var code := (x - r / 2) % U32;
            (code >= 0x8000_0000 <==> x < r / 2) && (code + r / 2) % U32 == x && (r / 2 <= x ==> code == x - r / 2)
  {
  }

  /** One context decoding the same bit n times. */
  function Repeated(p: Prob, bit: bool, n: nat): Prob {
    if n == 0 then p else Adapt(Repeated(p, bit, n - 1), bit)
  }

  /** Zeros bring a probability up to 2017 and ones down to 31, and there it stays. */
  lemma {:induction false} Saturates(p: Prob, n: nat)
    ensures Repeated(p, false, n) >= Min(2017, p + n) && Repeated(p, true, n) <= Max(31, p - n)
    ensures n >= 1986 ==> Repeated(p, false, n) == 2017 && Repeated(p, true, n) == 31
    decreases n
  {
    if n > 0 {
      Saturates(p, n - 1);
    }
  }

  function DirectBit(inp: seq<Byte>, c: Coder): (r: (bool, Coder))
    ensures r.1.probs == c.probs
  {
    var n := Normalize(inp, c);
    var half := n.range / 2;
    var code := (n.code - half) % U32;
    if code >= 0x8000_0000 then
      (false, n.(range := half, code := (code + half) % U32))
    else
      (true, n.(range := half, code := code))
  }

  /** The first INIT_BYTES bytes; the first of them is shifted out of the 32 bits again. */
  function Start(inp: seq<Byte>, probs: seq<Prob>): Coder {
    Coder(0xFFFF_FFFF, BigEndian([At(inp, 0), At(inp, 1), At(inp, 2), At(inp, 3), At(inp, 4)]) % U32, INIT_BYTES, probs)
  }

  // ---------------------------------------------------------------- the encoder

  /** One coded decision: with an adaptive probability, or at fixed even odds. */
  datatype Op = Modelled(ctx: nat, bit: bool) | Direct(bit: bool)

  ghost predicate ValidOps(ops: seq<Op>, n: nat) {
    forall k :: 0 <= k < |ops| && ops[k].Modelled? ==> ops[k].ctx < n
  }

  /** A range after at least one decision on a normalised one. */
  type Range = r: int | 0x1_0000 <= r < 0x1_0000_0000 witness 0x1_0000

  /** The interval [low, low + range) in units of 256^-shifts of the first one. */
  datatype Interval = Interval(low: nat, range: Range, shifts: nat, probs: seq<Prob>)

  function Widen(e: Interval): (r: Interval)
    ensures r.range >= TOP_VALUE && r.probs == e.probs
  {
    if e.range < TOP_VALUE then Interval(e.low * 256, e.range * 256, e.shifts + 1, e.probs) else e
  }

  function EncodeOp(e: Interval, op: Op): (r: Interval)
    requires op.Modelled? ==> op.ctx < |e.probs|
    ensures |r.probs| == |e.probs|
  {
    var w := Widen(e);
    match op
    case Modelled(i, bit) =>
      var bound := Bound(w.range, w.probs[i]);
      var probs := w.probs[i := Adapt(w.probs[i], bit)];
      if bit then Interval(w.low + bound, w.range - bound, w.shifts, probs)
      else Interval(w.low, bound, w.shifts, probs)
    case Direct(bit) =>
      var half := w.range / 2;
      Interval(if bit then w.low + half else w.low, half, w.shifts, w.probs)
  }

  function EncodeAll(e: Interval, ops: seq<Op>): (r: Interval)
    requires ValidOps(ops, |e.probs|)
    ensures |r.probs| == |e.probs|
    decreases |ops|
  {
    if ops == [] then Widen(e) else EncodeAll(EncodeOp(e, ops[0]), ops[1..])
  }

  function FirstInterval(probs: seq<Prob>): Interval {
    Interval(0, 0xFFFF_FFFF, 0, probs)
  }

  /** The compressed bytes: a zero byte, then the lower end of the last interval. */
  function Encode(probs: seq<Prob>, ops: seq<Op>): seq<Byte>
    requires ValidOps(ops, |probs|)
  {
    var e := EncodeAll(FirstInterval(probs), ops);
    [0] + Digits(e.low, e.shifts + 4)
  }

  // ------------------------------------------------------- decoding what was encoded

  /** Coding ops from the whole of a range: low is how far the lower end moves, in final units. */
  function FromZero(range: Range, probs: seq<Prob>, ops: seq<Op>): Interval
    requires ValidOps(ops, |probs|)
  {
    EncodeAll(Interval(0, range, 0, probs), ops)
  }

  lemma Distribute(a: nat, p: nat, b: nat, q: nat)
    ensures (a * p + b) * q == a * (p * q) + b * q
  {
  }

  lemma StepFromZero(e: Interval, op: Op)
    requires op.Modelled? ==> op.ctx < |e.probs|
    ensures var (r, o) := (EncodeOp(e, op), EncodeOp(Interval(0, e.range, 0, e.probs), op));
            && r == Interval(e.low * Pow(256, o.shifts) + o.low, o.range, e.shifts + o.shifts, o.probs)
            && o.low + o.range <= e.range * Pow(256, o.shifts)
  {
    hide Bytes.Pow, Bound, Adapt;
    PowersOfByte();
    var shifts := Widen(e).shifts - e.shifts;
    Scaled(e.low, Pow(256, shifts));
    Scaled(e.range, Pow(256, shifts));
  }

  lemma Scaled(a: nat, p: nat)
    ensures p == 1 ==> a * p == a
    ensures p == 256 ==> a * p == a * 256
  {
  }

  lemma PowersOfByte()
    ensures Pow(256, 0) == 1 && Pow(256, 1) == 256
  {
    assert Pow(256, 1) == 256 * Pow(256, 0);
  }

  lemma {:induction false} EncodeFromZero(e: Interval, ops: seq<Op>)
    requires ValidOps(ops, |e.probs|)
    ensures var z := FromZero(e.range, e.probs, ops);
            EncodeAll(e, ops) == Interval(e.low * Pow(256, z.shifts) + z.low, z.range, e.shifts + z.shifts, z.probs)
    decreases |ops|
  {
    PowersOfByte();
    hide EncodeOp, Bytes.Pow;
    if ops == [] {
    } else {
      var o := EncodeOp(Interval(0, e.range, 0, e.probs), ops[0]);
      StepFromZero(e, ops[0]);
      EncodeFromZero(EncodeOp(e, ops[0]), ops[1..]);
      EncodeFromZero(o, ops[1..]);
      var z := FromZero(o.range, o.probs, ops[1..]);
      PowAdd(256, o.shifts, z.shifts);
      Distribute(e.low, Pow(256, o.shifts), o.low, Pow(256, z.shifts));
    }
  }

  /** The final interval lies inside the one it was coded from. */
  lemma {:induction false} Nested(range: Range, probs: seq<Prob>, ops: seq<Op>)
    requires ValidOps(ops, |probs|)
    ensures var z := FromZero(range, probs, ops); z.low + z.range <= range * Pow(256, z.shifts)
    decreases |ops|
  {
    PowersOfByte();
    hide EncodeOp, Bytes.Pow;
    if ops == [] {
    } else {
      var o := EncodeOp(Interval(0, range, 0, probs), ops[0]);
      StepFromZero(Interval(0, range, 0, probs), ops[0]);
      Nested(o.range, o.probs, ops[1..]);
      EncodeFromZero(o, ops[1..]);
      var z := FromZero(o.range, o.probs, ops[1..]);
      PowAdd(256, o.shifts, z.shifts);
      NestedProduct(range, Pow(256, o.shifts), Pow(256, z.shifts), o.low, o.range);
    }
  }

  lemma NestedProduct(range: nat, p: nat, q: nat, low: nat, inner: nat)
    requires low + inner <= range * p
    ensures low * q + inner * q <= range * (p * q)
  {
  }

  /** The decoder is about to read ops, which end exactly at position end: its code is the leading part of
      the distance from the lower end of its interval to the encoder's final one. */
  ghost predicate Tracks(inp: seq<Byte>, c: Coder, ops: seq<Op>, end: nat) {
    && 0x1_0000 <= c.range
    && ValidOps(ops, |c.probs|)
    && var z := FromZero(c.range, c.probs, ops);
    && c.pos + z.shifts == end <= |inp|
    && c.code * Pow(256, z.shifts) + BigEndian(inp[c.pos..end]) == z.low
  }

  /** On the encoder's bytes the code stays below the range, so no arithmetic wraps. */
  lemma TracksInside(inp: seq<Byte>, c: Coder, ops: seq<Op>, end: nat)
    requires Tracks(inp, c, ops, end)
    ensures c.code < c.range
  {
    var z := FromZero(c.range, c.probs, ops);
    Nested(c.range, c.probs, ops);
    BigEndianBound(inp[c.pos..end]);
    var q := Pow(256, z.shifts);
    LeadingPart(c.code, BigEndian(inp[c.pos..end]), q, c.range);
  }

  lemma WidenFirst(range: Range, probs: seq<Prob>, ops: seq<Op>)
    requires ValidOps(ops, |probs|) && range < TOP_VALUE
    ensures var (z, z') := (FromZero(range, probs, ops), FromZero(range * 256, probs, ops));
            z.shifts == 1 + z'.shifts && z.low == z'.low
  {
    var w := Interval(0, range * 256, 1, probs);
    assert EncodeAll(w, ops) == FromZero(range, probs, ops) by {
      assert Widen(Interval(0, range, 0, probs)) == w == Widen(w);
    }
    EncodeFromZero(w, ops);
  }

  lemma TracksNormalize(inp: seq<Byte>, c: Coder, ops: seq<Op>, end: nat)
    requires Tracks(inp, c, ops, end)
    ensures Tracks(inp, Normalize(inp, c), ops, end) && Normalize(inp, c).range >= TOP_VALUE
  {
    hide EncodeAll, BigEndian, Bytes.Pow, Normalize;
    TracksInside(inp, c, ops, end);
    if c.range < TOP_VALUE {
      WidenFirst(c.range, c.probs, ops);
      NormalizeIs(inp, c);
      var q := Pow(256, FromZero(c.range * 256, c.probs, ops).shifts);
      var s := inp[c.pos..end];
      assert s[1..] == inp[c.pos + 1..end];
      FirstDigit(s);
      ShiftIn(c.code, inp[c.pos], q, BigEndian(s[1..]));
    } else {
      NormalizeNot(inp, c);
    }
  }

  lemma NormalizeIs(inp: seq<Byte>, c: Coder)
    requires c.code < c.range < TOP_VALUE && c.pos < |inp|
    ensures Normalize(inp, c) == Coder(c.range * 256, c.code * 256 + inp[c.pos], c.pos + 1, c.probs)
  {
  }

  lemma NormalizeNot(inp: seq<Byte>, c: Coder)
    requires c.range >= TOP_VALUE
    ensures Normalize(inp, c) == c
  {
  }

  lemma FirstDigit(s: seq<Byte>)
    requires s != []
    ensures BigEndian(s) == s[0] * Pow(256, |s| - 1) + BigEndian(s[1..]) && Pow(256, |s|) == 256 * Pow(256, |s| - 1)
  {
  }

  lemma ShiftIn(code: nat, b: nat, q: nat, rest: nat)
    ensures code * (256 * q) + (b * q + rest) == (code * 256 + b) * q + rest
  {
  }

  /** Dividing a residual: below b whole units exactly when the leading part is. */
  lemma LeadingPart(code: nat, rest: nat, unit: nat, b: nat)
    requires rest < unit
    ensures code * unit + rest < b * unit <==> code < b
    ensures code >= b ==> code * unit + rest == b * unit + (code - b) * unit + rest
  {
    if code < b {
      MulMonotone(unit, code + 1, b);
      assert unit * (code + 1) == code * unit + unit && unit * b == b * unit;
    } else {
      MulMonotone(unit, b, code);
      assert unit * b == b * unit && unit * code == code * unit;
      assert (code - b) * unit == code * unit - b * unit;
    }
  }

  /** What tracking a normalised decoder means for the next decision: the code lies in the half that the
      encoder chose, and moved to that half it tracks the rest. */
  lemma TracksHalf(inp: seq<Byte>, n: Coder, op: Op, rest: seq<Op>, end: nat, half: Word)
    requires Tracks(inp, n, [op] + rest, end) && n.range >= TOP_VALUE
    requires half == match op case Modelled(i, _) => Bound(n.range, n.probs[i]) case Direct(_) => n.range / 2
    ensures op.bit <==> half <= n.code
    ensures var o := EncodeOp(Interval(0, n.range, 0, n.probs), op);
            Tracks(inp, Coder(o.range, if op.bit then n.code - half else n.code, n.pos, o.probs), rest, end)
  {
    var ops := [op] + rest;
    assert ops[1..] == rest;
    var o := EncodeOp(Interval(0, n.range, 0, n.probs), op);
    assert ValidOps(rest, |o.probs|) by { assert forall k :: 0 <= k < |rest| ==> rest[k] == ops[k + 1]; }
    EncodeFromZero(o, rest);
    Nested(o.range, o.probs, rest);
    var z := FromZero(o.range, o.probs, rest);
    BigEndianBound(inp[n.pos..end]);
    LeadingPart(n.code, BigEndian(inp[n.pos..end]), Pow(256, z.shifts), half);
  }

  /** Decoding an adaptive bit yields the encoded one, and the decoder tracks the remaining ones. */
  lemma TracksBit(inp: seq<Byte>, c: Coder, i: nat, bit: bool, rest: seq<Op>, end: nat)
    requires Tracks(inp, c, [Modelled(i, bit)] + rest, end)
    ensures i < |c.probs|
    ensures var (b, c') := Bit(inp, c, i); b == bit && Tracks(inp, c', rest, end)
  {
    var ops := [Modelled(i, bit)] + rest;
    assert ops[0].ctx < |c.probs|;
    TracksNormalize(inp, c, ops, end);
    var n := Normalize(inp, c);
    TracksHalf(inp, n, ops[0], rest, end, Bound(n.range, n.probs[i]));
  }

  /** Subtracting the half modulo 2^32 and looking at the top bit is comparing with the half. */
  lemma HalfCode(code: nat, half: nat)
    requires code <= 2 * half && half < 0x8000_0000
    ensures var d := (code - half) % U32;
            if code < half then d >= 0x8000_0000 && (d + half) % U32 == code else d == code - half < 0x8000_0000
  {
  }

  lemma TracksDirect(inp: seq<Byte>, c: Coder, bit: bool, rest: seq<Op>, end: nat)
    requires Tracks(inp, c, [Direct(bit)] + rest, end)
    ensures var (b, c') := DirectBit(inp, c); b == bit && Tracks(inp, c', rest, end)
  {
    TracksNormalize(inp, c, [Direct(bit)] + rest, end);
    var n := Normalize(inp, c);
    TracksInside(inp, n, [Direct(bit)] + rest, end);
    TracksHalf(inp, n, Direct(bit), rest, end, n.range / 2);
    HalfCode(n.code, n.range / 2);
  }

  function DecodeOp(inp: seq<Byte>, c: Coder, op: Op): (r: (Op, Coder))
    requires op.Modelled? ==> op.ctx < |c.probs|
    ensures |r.1.probs| == |c.probs|
  {
    match op
    case Modelled(i, _) => var (b, c') := Bit(inp, c, i); (Modelled(i, b), c')
    case Direct(_) => var (b, c') := DirectBit(inp, c); (Direct(b), c')
  }

  /** Decodes one bit for each op, taking from the op only what kind of bit it is. */
  function DecodeAll(inp: seq<Byte>, c: Coder, ops: seq<Op>): (r: (seq<Op>, Coder))
    requires ValidOps(ops, |c.probs|)
    ensures |r.1.probs| == |c.probs|
    decreases |ops|
  {
    if ops == [] then ([], c) else
      var (op, c1) := DecodeOp(inp, c, ops[0]);
      var (tail, c2) := DecodeAll(inp, c1, ops[1..]);
      ([op] + tail, c2)
  }

  /** Decoding along ops finds just these bits, and e is the decoder afterwards. */
  ghost predicate Yields(inp: seq<Byte>, c: Coder, ops: seq<Op>, e: Coder) {
    ValidOps(ops, |c.probs|) && DecodeAll(inp, c, ops) == (ops, e)
  }

  lemma YieldsOp(inp: seq<Byte>, c: Coder, op: Op, rest: seq<Op>, e: Coder)
    ensures Yields(inp, c, [op] + rest, e) <==>
              && (op.Modelled? ==> op.ctx < |c.probs|)
              && DecodeOp(inp, c, op).0 == op
              && Yields(inp, DecodeOp(inp, c, op).1, rest, e)
  {
  }

  lemma YieldsBit(inp: seq<Byte>, c: Coder, i: nat, bit: bool, rest: seq<Op>, e: Coder)
    requires Yields(inp, c, [Modelled(i, bit)] + rest, e)
    ensures i < |c.probs|
    ensures var (b, c') := Bit(inp, c, i); b == bit && Yields(inp, c', rest, e)
  {
  }

  lemma YieldsDirect(inp: seq<Byte>, c: Coder, bit: bool, rest: seq<Op>, e: Coder)
    requires Yields(inp, c, [Direct(bit)] + rest, e)
    ensures var (b, c') := DirectBit(inp, c); b == bit && Yields(inp, c', rest, e)
  {
  }

  lemma {:induction false} TracksAll(inp: seq<Byte>, c: Coder, ops: seq<Op>, rest: seq<Op>, end: nat)
    requires Tracks(inp, c, ops + rest, end)
    ensures ValidOps(ops, |c.probs|)
    ensures var (ops', e) := DecodeAll(inp, c, ops); ops' == ops && Tracks(inp, e, rest, end)
    decreases |ops|
  {
    assert forall k :: 0 <= k < |ops| ==> ops[k] == (ops + rest)[k];
    if ops == [] {
      assert ops + rest == rest;
    } else {
      assert ops + rest == [ops[0]] + (ops[1..] + rest);
      match ops[0] {
        case Modelled(i, bit) => TracksBit(inp, c, i, bit, ops[1..] + rest, end);
        case Direct(bit) => TracksDirect(inp, c, bit, ops[1..] + rest, end);
      }
      TracksAll(inp, DecodeOp(inp, c, ops[0]).1, ops[1..], rest, end);
    }
  }

  lemma TracksEnd(inp: seq<Byte>, c: Coder, end: nat)
    requires Tracks(inp, c, [], end)
    ensures Normalize(inp, c).code == 0 && Normalize(inp, c).pos == end
  {
  }

  lemma {:induction false} SameProbs(inp: seq<Byte>, c: Coder, ops: seq<Op>)
    requires ValidOps(ops, |c.probs|) && 0x1_0000 <= c.range
    requires DecodeAll(inp, c, ops).0 == ops
    ensures DecodeAll(inp, c, ops).1.probs == EncodeAll(Interval(0, c.range, 0, c.probs), ops).probs
    decreases |ops|
  {
    if ops == [] {
    } else {
      var c1 := DecodeOp(inp, c, ops[0]).1;
      var o := EncodeOp(Interval(0, c.range, 0, c.probs), ops[0]);
      assert DecodeAll(inp, c, ops).0[0] == ops[0];
      assert DecodeAll(inp, c1, ops[1..]).0 == DecodeAll(inp, c, ops).0[1..];
      assert o.range == c1.range && o.probs == c1.probs;
      EncodeFromZero(o, ops[1..]);
      SameProbs(inp, c1, ops[1..]);
    }
  }

  lemma StartTracks(probs: seq<Prob>, ops: seq<Op>, tail: seq<Byte>)
    requires ValidOps(ops, |probs|)
    ensures var bytes := Encode(probs, ops);
            Tracks(bytes + tail, Start(bytes + tail, probs), ops, |bytes|)
  {
    var bytes := Encode(probs, ops);
    var inp := bytes + tail;
    var z := FromZero(0xFFFF_FFFF, probs, ops);
    Nested(0xFFFF_FFFF, probs, ops);
    var q := Pow(256, z.shifts);
    FourBytes(q, z.shifts);
    DigitsRead(z.low, z.shifts + 4);
    var d := Digits(z.low, z.shifts + 4);
    assert inp[5..|bytes|] == d[4..];
    FirstFour(d);
    StartCode(inp, d);
  }

  function Word4(a: nat, b: nat, c: nat, d: nat): nat {
    a * 0x100_0000 + b * 0x1_0000 + c * 0x100 + d
  }

  lemma StartCode(inp: seq<Byte>, d: seq<Byte>)
    requires |d| >= 4 && [0] + d <= inp
    ensures BigEndian([At(inp, 0), At(inp, 1), At(inp, 2), At(inp, 3), At(inp, 4)]) % U32
         == Word4(d[0], d[1], d[2], d[3])
  {
    hide BigEndian;
    FirstBytes(inp, d);
    FiveBytes([At(inp, 0), At(inp, 1), At(inp, 2), At(inp, 3), At(inp, 4)]);
  }

  lemma FirstBytes(inp: seq<Byte>, d: seq<Byte>)
    requires |d| >= 4 && [0] + d <= inp
    ensures At(inp, 0) == 0 && At(inp, 1) == d[0] && At(inp, 2) == d[1] && At(inp, 3) == d[2] && At(inp, 4) == d[3]
  {
    assert inp[..5] == ([0] + d)[..5];
  }

  lemma FiveBytes(h: seq<Byte>)
    requires |h| == 5 && h[0] == 0
    ensures BigEndian(h) == Word4(h[1], h[2], h[3], h[4])
  {
    FirstFour(h[1..]);
    assert Pow(256, 0) == 1;
    assert h[1..][4..] == [];
  }

  lemma FourBytes(q: nat, n: nat)
    requires q == Pow(256, n)
    ensures Pow(256, n + 4) == U32 * q
  {
    PowAdd(256, 4, n);
    assert Pow(256, 4) == U32 by {
      assert Pow(256, 1) == 256 * Pow(256, 0) && Pow(256, 2) == 256 * Pow(256, 1) && Pow(256, 3) == 256 * Pow(256, 2);
    }
  }

  lemma FirstFour(d: seq<Byte>)
    requires |d| >= 4
    ensures BigEndian(d) == Word4(d[0], d[1], d[2], d[3]) * Pow(256, |d| - 4) + BigEndian(d[4..])
  {
    var q := Pow(256, |d| - 4);
    assert Pow(256, |d| - 3) == 256 * q;
    assert Pow(256, |d| - 2) == 0x1_0000 * q;
    assert Pow(256, |d| - 1) == 0x100_0000 * q;
    assert d[1..][1..] == d[2..] && d[2..][1..] == d[3..] && d[3..][1..] == d[4..];
    assert BigEndian(d) == d[0] * Pow(256, |d| - 1) + BigEndian(d[1..]);
    assert BigEndian(d[1..]) == d[1] * Pow(256, |d| - 2) + BigEndian(d[2..]);
    assert BigEndian(d[2..]) == d[2] * Pow(256, |d| - 3) + BigEndian(d[3..]);
    assert BigEndian(d[3..]) == d[3] * Pow(256, |d| - 4) + BigEndian(d[4..]);
    FourTerms(d[0], d[1], d[2], d[3], q);
  }

  lemma FourTerms(a: nat, b: nat, c: nat, d: nat, q: nat)
    ensures Word4(a, b, c, d) * q
         == a * (0x100_0000 * q) + b * (0x1_0000 * q) + c * (0x100 * q) + d * q
  {
  }

  /** Decoding the bytes of an encoder over unbounded integers returns the coded decisions and the same
      probabilities, and with the closing normalisation consumes exactly those bytes, whatever follows them,
      and ends with code = 0. */
  lemma RoundTrip(probs: seq<Prob>, ops: seq<Op>, tail: seq<Byte>)
    requires ValidOps(ops, |probs|)
    ensures var bytes := Encode(probs, ops);
            var (ops', e) := DecodeAll(bytes + tail, Start(bytes + tail, probs), ops);
            && ops' == ops
            && e.probs == EncodeAll(FirstInterval(probs), ops).probs
            && Normalize(bytes + tail, e).pos == |bytes|
            && Normalize(bytes + tail, e).code == 0
  {
    var bytes := Encode(probs, ops);
    var inp := bytes + tail;
    StartTracks(probs, ops, tail);
    assert ops + [] == ops;
    TracksAll(inp, Start(inp, probs), ops, [], |bytes|);
    TracksEnd(inp, DecodeAll(inp, Start(inp, probs), ops).1, |bytes|);
    SameProbs(inp, Start(inp, probs), ops);
  }
}
