/** A reference encoder of LZMA symbols into coder decisions, and the proof that decoding its output gives the
    symbols back. */
module LzmaEncoding {
  import opened Bytes
  import opened RangeCoder
  import opened LzmaModel

  /** What an encoder chooses to say next. */
  datatype Choice =
    | Literal(byte: Byte)
    | Match(len: nat, dist: Word)
    | ShortRep
    | LongRep(index: nat, repLen: nat)

  predicate ValidChoice(ch: Choice) {
    match ch
    case Literal(_) => true
    case Match(len, _) => MATCH_LEN_MIN <= len <= MATCH_LEN_MAX
    case ShortRep => true
    case LongRep(index, len) => index < 4 && MATCH_LEN_MIN <= len <= MATCH_LEN_MAX
  }

  function ActionOf(ch: Choice): Action {
    match ch
    case Literal(b) => Put(b)
    case Match(len, _) => Copy(len)
    case ShortRep => Copy(1)
    case LongRep(_, len) => Copy(len)
  }

  /** The most recently used distance moves to the front; the others keep their order. */
  function After(m: Model, ch: Choice): Model {
    match ch
    case Literal(_) => m.(state := StateLiteral(m.state))
    case Match(_, dist) => Model(StateMatch(m.state), dist, m.rep0, m.rep1, m.rep2)
    case ShortRep => m.(state := StateShortRep(m.state))
    case LongRep(i, _) =>
      var s := StateLongRep(m.state);
      if i == 0 then m.(state := s)
      else if i == 1 then Model(s, m.rep1, m.rep0, m.rep2, m.rep3)
      else if i == 2 then Model(s, m.rep2, m.rep0, m.rep1, m.rep3)
      else Model(s, m.rep3, m.rep0, m.rep1, m.rep2)
  }

  // ------------------------------------------------------------ the decisions of a symbol

  /** The top bit of an n-bit value. */
  function TopBit(v: nat, n: nat): bool
    requires n > 0
  {
    v >= Shl(1, n - 1)
  }

  function Below(v: nat, n: nat): (r: nat)
    requires n > 0 && v < Shl(1, n)
    ensures r < Shl(1, n - 1)
  {
    TreeStep(0, n);
    if TopBit(v, n) then v - Shl(1, n - 1) else v
  }

  /** The first of n + 1 more bits of a symbol and what is left of its value. */
  lemma TopOf(symbol: nat, n: nat, b: bool, s: nat)
    requires n > 0 && Shl(Push(symbol, b), n - 1) <= s < Shl(Push(symbol, b) + 1, n - 1)
    ensures 0 <= s - Shl(symbol, n) < Shl(1, n)
    ensures var v := s - Shl(symbol, n);
            TopBit(v, n) == b && Below(v, n) == s - Shl(Push(symbol, b), n - 1)
  {
    TreeStep(symbol, n);
  }

  function Push(symbol: nat, b: bool): nat {
    if b then 2 * symbol + 1 else 2 * symbol
  }

  function Cons(op: Op, ops: seq<Op>): (r: seq<Op>)
    ensures ValidOps(ops, PROBS_TOTAL) && (op.Modelled? ==> op.ctx < PROBS_TOTAL) ==> ValidOps(r, PROBS_TOTAL)
  {
    [op] + ops
  }

  function TreeOps(base: nat, symbol: nat, n: nat, v: nat): (ops: seq<Op>)
    requires v < Shl(1, n)
    ensures base + Shl(symbol + 1, n) <= PROBS_TOTAL ==> ValidOps(ops, PROBS_TOTAL)
    decreases n, v
  {
    if n == 0 then [] else
      TreeStep(symbol, n);
      var b := TopBit(v, n);
      [Modelled(base + symbol, b)] + TreeOps(base, Push(symbol, b), n - 1, Below(v, n))
  }

  function ReverseOps(base: nat, symbol: nat, n: nat, v: nat): (ops: seq<Op>)
    requires v < Shl(1, n)
    ensures base + Shl(symbol + 1, n) <= PROBS_TOTAL ==> ValidOps(ops, PROBS_TOTAL)
    decreases n, v
  {
    if n == 0 then [] else
      TreeStep(symbol, n);
      var b := v % 2 == 1;
      [Modelled(base + symbol, b)] + ReverseOps(base, Push(symbol, b), n - 1, v / 2)
  }

  function DirectOps(n: nat, v: nat): (ops: seq<Op>)
    requires v < Shl(1, n)
    ensures ValidOps(ops, PROBS_TOTAL)
    decreases n, v
  {
    if n == 0 then [] else [Direct(TopBit(v, n))] + DirectOps(n - 1, Below(v, n))
  }

  function MatchedOps(base: nat, symbol: nat, matchByte: nat, same: bool, n: nat, v: nat): (ops: seq<Op>)
    requires v < Shl(1, n)
    ensures base + LITERAL_CODER_SIZE <= PROBS_TOTAL && Shl(symbol + 1, n) <= 512 ==> ValidOps(ops, PROBS_TOTAL)
    decreases n, v
  {
    if n == 0 then [] else
      TreeStep(symbol, n);
      var matchBit := MatchBit(matchByte);
      var b := TopBit(v, n);
      [Modelled(base + MatchedIndex(same, matchBit) + symbol, b)]
      + MatchedOps(base, Push(symbol, b), matchByte * 2, same && b == matchBit, n - 1, Below(v, n))
  }

  function LiteralOps(m: Model, props: Props, hist: seq<Byte>, b: Byte): (ops: seq<Op>)
    requires props.Valid()
    ensures ValidOps(ops, PROBS_TOTAL)
  {
    TreeSizes();
    var base := LiteralCoder(props, |hist|, HistGet(hist, 0));
    if m.state < LIT_STATES then TreeOps(base, 1, 8, b)
    else MatchedOps(base, 1, HistGet(hist, m.rep0) * 2, true, 8, b)
  }

  function LengthOps(base: nat, posState: nat, len: nat): (ops: seq<Op>)
    requires MATCH_LEN_MIN <= len <= MATCH_LEN_MAX && base <= REP_LEN && posState < POS_STATES_MAX
    ensures ValidOps(ops, PROBS_TOTAL)
  {
    TreeSizes();
    if len < MATCH_LEN_MIN + 8 then
      Cons(Modelled(base, false), TreeOps(base + LEN_LOW + posState * 8, 1, 3, len - MATCH_LEN_MIN))
    else if len < MATCH_LEN_MIN + 16 then
      Cons(Modelled(base, true),
           Cons(Modelled(base + LEN_CHOICE2, false), TreeOps(base + LEN_MID + posState * 8, 1, 3, len - MATCH_LEN_MIN - 8)))
    else
      Cons(Modelled(base, true),
           Cons(Modelled(base + LEN_CHOICE2, true), TreeOps(base + LEN_HIGH, 1, 8, len - MATCH_LEN_MIN - 16)))
  }

  /** The number of bits of a distance below its two highest ones. */
  function ExtraBits(dist: nat): (n: nat)
    requires dist >= 4
    ensures Shl(2, n) <= dist < Shl(4, n) && n >= 1
  {
    if dist < 8 then
      assert Shl(2, 1) == 4 && Shl(4, 1) == 8;
      1
    else
      var n := ExtraBits(dist / 2);
      ShlTwice(2, n);
      ShlTwice(4, n);
      1 + n
  }

  function SlotOf(dist: nat): nat {
    if dist < DIST_MODEL_START then dist
    else 2 * (ExtraBits(dist) + 1) + (if dist >= Shl(3, ExtraBits(dist)) then 1 else 0)
  }

  lemma SlotFacts(dist: Word)
    ensures SlotOf(dist) < 64
    ensures dist < DIST_MODEL_START ==> SlotOf(dist) == dist
    ensures dist >= DIST_MODEL_START ==>
      var (slot, n) := (SlotOf(dist), ExtraBits(dist));
      && slot / 2 - 1 == n && DIST_MODEL_START <= slot
      && Shl(2 + slot % 2, n) <= dist < Shl(2 + slot % 2, n) + Shl(1, n)
      && (slot >= DIST_MODEL_END <==> n >= 6)
  {
    TreeSizes();
    if dist >= DIST_MODEL_START {
      var n := ExtraBits(dist);
      ShlAdd(2, 1, n);
      ShlAdd(3, 1, n);
      if n > 30 {
        ShlLonger(2, 31, n);
        BigShifts();
        assert false;
      }
    }
  }

  function ExtraOps(dist: Word): (ops: seq<Op>)
    ensures ValidOps(ops, PROBS_TOTAL)
  {
    if dist < DIST_MODEL_START then [] else
      SlotFacts(dist);
      var slot := SlotOf(dist);
      LowOps(slot, dist - Shl(2 + slot % 2, slot / 2 - 1))
  }

  function LowOps(slot: nat, low: nat): (ops: seq<Op>)
    requires DIST_MODEL_START <= slot < 64 && low < Shl(1, slot / 2 - 1)
    ensures ValidOps(ops, PROBS_TOTAL)
  {
    var n := slot / 2 - 1;
    SlotBounds(slot);
    if slot < DIST_MODEL_END then
      ReverseOps(DIST_SPECIAL + Shl(2 + slot % 2, n) - slot - 1, 1, n, low)
    else
      SixteenthBelow(low, n);
      DirectOps(n - ALIGN_BITS, low / 16) + ReverseOps(DIST_ALIGN, 1, ALIGN_BITS, low % 16)
  }

  lemma SixteenthBelow(low: nat, n: nat)
    requires n >= ALIGN_BITS && low < Shl(1, n) && Shl(1, ALIGN_BITS) == 16
    ensures low / 16 < Shl(1, n - ALIGN_BITS) && Shl(1, n) == Shl(1, n - ALIGN_BITS) * 16
  {
    ShlShl(1, n - ALIGN_BITS, ALIGN_BITS);
    ShlFour(Shl(1, n - ALIGN_BITS));
  }

  function DistanceOps(len: nat, dist: Word): (ops: seq<Op>)
    requires MATCH_LEN_MIN <= len
    ensures ValidOps(ops, PROBS_TOTAL)
  {
    TreeSizes();
    SlotFacts(dist);
    TreeOps(DIST_SLOT + DistState(len) * 64, 1, 6, SlotOf(dist)) + ExtraOps(dist)
  }

  function RepOps(m: Model, posState: nat, ch: Choice): (ops: seq<Op>)
    requires posState < POS_STATES_MAX && ValidChoice(ch) && (ch.ShortRep? || ch.LongRep?)
    ensures ValidOps(ops, PROBS_TOTAL)
  {
    var rep0 := IS_REP0 + m.state;
    var long := IS_REP0_LONG + m.state * POS_STATES_MAX + posState;
    match ch
    case ShortRep => Cons(Modelled(rep0, false), Cons(Modelled(long, false), []))
    case LongRep(i, len) =>
      var lenOps := LengthOps(REP_LEN, posState, len);
      IndexOps(m, posState, i, lenOps)
  }

  /** Which of the four latest distances a match repeats, before the decisions of its length. */
  function IndexOps(m: Model, posState: nat, i: nat, lenOps: seq<Op>): (ops: seq<Op>)
    requires posState < POS_STATES_MAX && i < 4
    ensures ValidOps(lenOps, PROBS_TOTAL) ==> ValidOps(ops, PROBS_TOTAL)
  {
    var (rep0, rep1) := (IS_REP0 + m.state, IS_REP1 + m.state);
    var long := IS_REP0_LONG + m.state * POS_STATES_MAX + posState;
    if i == 0 then Cons(Modelled(rep0, false), Cons(Modelled(long, true), lenOps))
    else if i == 1 then Cons(Modelled(rep0, true), Cons(Modelled(rep1, false), lenOps))
    else Cons(Modelled(rep0, true), Cons(Modelled(rep1, true), Cons(Modelled(IS_REP2 + m.state, i == 3), lenOps)))
  }

  function SymbolOps(m: Model, props: Props, hist: seq<Byte>, ch: Choice): (ops: seq<Op>)
    requires props.Valid() && ValidChoice(ch)
    ensures ValidOps(ops, PROBS_TOTAL)
  {
    var posState := PosState(props, |hist|);
    var isMatch := IS_MATCH + m.state * POS_STATES_MAX + posState;
    match ch
    case Literal(b) => Cons(Modelled(isMatch, false), LiteralOps(m, props, hist, b))
    case Match(len, dist) =>
      Cons(Modelled(isMatch, true), Cons(Modelled(IS_REP + m.state, false),
           LengthOps(MATCH_LEN, posState, len) + DistanceOps(len, dist)))
    case _ => Cons(Modelled(isMatch, true), Cons(Modelled(IS_REP + m.state, true), RepOps(m, posState, ch)))
  }

  // ----------------------------------------------------------------- decoding them

  lemma TreeDecodes(inp: seq<Byte>, c: Coder, base: nat, symbol: nat, n: nat, v: nat, rest: seq<Op>, end: Coder)
    requires v < Shl(1, n) && base + Shl(symbol + 1, n) <= |c.probs|
    requires Yields(inp, c, TreeOps(base, symbol, n, v) + rest, end)
    ensures var (s, c') := Tree(inp, c, base, symbol, n);
            s == Shl(symbol, n) + v && Yields(inp, c', rest, end)
    decreases n
  {
    hide RangeCoder.Yields, RangeCoder.Bit, RangeCoder.DirectBit;
    if n == 0 {
      assert TreeOps(base, symbol, n, v) + rest == rest;
    } else {
      TreeStep(symbol, n);
      var b := TopBit(v, n);
      var tail := TreeOps(base, Push(symbol, b), n - 1, Below(v, n));
      assert TreeOps(base, symbol, n, v) + rest == [Modelled(base + symbol, b)] + (tail + rest);
      YieldsBit(inp, c, base + symbol, b, tail + rest, end);
      TreeDecodes(inp, Bit(inp, c, base + symbol).1, base, Push(symbol, b), n - 1, Below(v, n), rest, end);
    }
  }

  lemma ReverseDecodes(inp: seq<Byte>, c: Coder, base: nat, symbol: nat, n: nat, v: nat, rest: seq<Op>, end: Coder)
    requires v < Shl(1, n) && base + Shl(symbol + 1, n) <= |c.probs|
    requires Yields(inp, c, ReverseOps(base, symbol, n, v) + rest, end)
    ensures var (v', c') := Reverse(inp, c, base, symbol, n); v' == v && Yields(inp, c', rest, end)
    decreases n
  {
    hide RangeCoder.Yields, RangeCoder.Bit, RangeCoder.DirectBit;
    if n == 0 {
      assert ReverseOps(base, symbol, n, v) + rest == rest;
    } else {
      TreeStep(symbol, n);
      var b := v % 2 == 1;
      var tail := ReverseOps(base, Push(symbol, b), n - 1, v / 2);
      assert ReverseOps(base, symbol, n, v) + rest == [Modelled(base + symbol, b)] + (tail + rest);
      YieldsBit(inp, c, base + symbol, b, tail + rest, end);
      ReverseDecodes(inp, Bit(inp, c, base + symbol).1, base, Push(symbol, b), n - 1, v / 2, rest, end);
    }
  }

  lemma DirectDecodes(inp: seq<Byte>, c: Coder, dest: nat, n: nat, v: nat, rest: seq<Op>, end: Coder)
    requires v < Shl(1, n)
    requires Yields(inp, c, DirectOps(n, v) + rest, end)
    ensures var (d, c') := DirectBits(inp, c, dest, n);
            d == Shl(dest, n) + v && Yields(inp, c', rest, end)
    decreases n
  {
    hide RangeCoder.Yields, RangeCoder.Bit, RangeCoder.DirectBit;
    if n == 0 {
      assert DirectOps(n, v) + rest == rest;
    } else {
      TreeStep(dest, n);
      var b := TopBit(v, n);
      var tail := DirectOps(n - 1, Below(v, n));
      assert DirectOps(n, v) + rest == [Direct(b)] + (tail + rest);
      YieldsDirect(inp, c, b, tail + rest, end);
      DirectDecodes(inp, DirectBit(inp, c).1, Push(dest, b), n - 1, Below(v, n), rest, end);
    }
  }

  lemma MatchedDecodes(inp: seq<Byte>, c: Coder, base: nat, symbol: nat, matchByte: nat, same: bool, n: nat, v: nat,
                       rest: seq<Op>, end: Coder)
    requires v < Shl(1, n) && base + LITERAL_CODER_SIZE <= |c.probs| && Shl(symbol + 1, n) <= 512
    requires Yields(inp, c, MatchedOps(base, symbol, matchByte, same, n, v) + rest, end)
    ensures var (s, c') := MatchedLiteral(inp, c, base, symbol, matchByte, same, n);
            s == Shl(symbol, n) + v && Yields(inp, c', rest, end)
    decreases n
  {
    hide RangeCoder.Yields, RangeCoder.Bit, ValidOps, MatchBit, MatchedIndex, Cons, Bytes.Shl, TopBit, Below;
    if n == 0 {
      assert MatchedOps(base, symbol, matchByte, same, n, v) + rest == rest;
      NoShift(symbol);
    } else {
      TreeStep(symbol, n);
      var matchBit := MatchBit(matchByte);
      var b := TopBit(v, n);
      var i := base + MatchedIndex(same, matchBit) + symbol;
      var tail := MatchedOps(base, Push(symbol, b), matchByte * 2, same && b == matchBit, n - 1, Below(v, n));
      ConsIs(Modelled(i, b), tail);
      ConsDecodes(inp, c, i, b, tail, rest, end);
      TopBits(symbol, n, v);
      MatchedDecodes(inp, Bit(inp, c, i).1, base, Push(symbol, b), matchByte * 2, same && b == matchBit, n - 1,
                     Below(v, n), rest, end);
    }
  }

  lemma ConsIs(op: Op, ops: seq<Op>)
    ensures Cons(op, ops) == [op] + ops
  {
  }

  lemma NoShift(x: nat)
    ensures Shl(x, 0) == x && Shl(1, 0) == 1
  {
  }

  /** The highest bit of a value joins the symbol. */
  lemma TopBits(symbol: nat, n: nat, v: nat)
    requires n > 0 && v < Shl(1, n)
    ensures var b := TopBit(v, n);
            && Below(v, n) < Shl(1, n - 1) && Shl(Push(symbol, b), n - 1) + Below(v, n) == Shl(symbol, n) + v
            && Shl(Push(symbol, b) + 1, n - 1) <= Shl(symbol + 1, n)
  {
    TreeStep(symbol, n);
    ShlMonotone(Push(symbol, TopBit(v, n)) + 1, 2 * symbol + 2, n - 1);
  }

  lemma LiteralDecodes(inp: seq<Byte>, c: Coder, m: Model, props: Props, hist: seq<Byte>, b: Byte, rest: seq<Op>, end: Coder)
    requires props.Valid() && |c.probs| == PROBS_TOTAL
    requires Yields(inp, c, LiteralOps(m, props, hist, b) + rest, end)
    ensures var (b', c') := LiteralByte(inp, c, m, props, hist); b' == b && Yields(inp, c', rest, end)
  {
    hide RangeCoder.Yields, RangeCoder.Bit, RangeCoder.DirectBit;
    TreeSizes();
    var base := LiteralCoder(props, |hist|, HistGet(hist, 0));
    if m.state < LIT_STATES {
      TreeDecodes(inp, c, base, 1, 8, b, rest, end);
    } else {
      MatchedDecodes(inp, c, base, 1, HistGet(hist, m.rep0) * 2, true, 8, b, rest, end);
    }
  }

  /** The first decision of several is taken as it was coded. */
  lemma ConsDecodes(inp: seq<Byte>, c: Coder, i: nat, bit: bool, ops: seq<Op>, rest: seq<Op>, end: Coder)
    requires i < |c.probs| && Yields(inp, c, Cons(Modelled(i, bit), ops) + rest, end)
    ensures Bit(inp, c, i).0 == bit && Yields(inp, Bit(inp, c, i).1, ops + rest, end)
  {
    hide RangeCoder.Yields, RangeCoder.Bit;
    assert Cons(Modelled(i, bit), ops) + rest == [Modelled(i, bit)] + (ops + rest);
    YieldsBit(inp, c, i, bit, ops + rest, end);
  }

  lemma LengthDecodes(inp: seq<Byte>, c: Coder, base: nat, posState: nat, len: nat, rest: seq<Op>, end: Coder)
    requires |c.probs| == PROBS_TOTAL && base <= REP_LEN && posState < POS_STATES_MAX
    requires MATCH_LEN_MIN <= len <= MATCH_LEN_MAX
    requires Yields(inp, c, LengthOps(base, posState, len) + rest, end)
    ensures var (len', c') := Length(inp, c, base, posState); len' == len && Yields(inp, c', rest, end)
  {
    hide RangeCoder.Yields, RangeCoder.Bit, RangeCoder.DirectBit, Tree, TreeOps, ValidOps, Cons;
    TreeSizes();
    if len < MATCH_LEN_MIN + 8 {
      var (b, v) := (base + LEN_LOW + posState * 8, len - MATCH_LEN_MIN);
      ConsDecodes(inp, c, base, false, TreeOps(b, 1, 3, v), rest, end);
      TreeDecodes(inp, Bit(inp, c, base).1, b, 1, 3, v, rest, end);
    } else {
      var mid := len < MATCH_LEN_MIN + 16;
      var (b, n, v) := if mid then (base + LEN_MID + posState * 8, 3, len - MATCH_LEN_MIN - 8)
                       else (base + LEN_HIGH, 8, len - MATCH_LEN_MIN - 16);
      var t := TreeOps(b, 1, n, v);
      ConsDecodes(inp, c, base, true, Cons(Modelled(base + LEN_CHOICE2, !mid), t), rest, end);
      var c1 := Bit(inp, c, base).1;
      ConsDecodes(inp, c1, base + LEN_CHOICE2, !mid, t, rest, end);
      TreeDecodes(inp, Bit(inp, c1, base + LEN_CHOICE2).1, b, 1, n, v, rest, end);
    }
  }

  lemma DistanceDecodes(inp: seq<Byte>, c: Coder, len: nat, dist: Word, rest: seq<Op>, end: Coder)
    requires |c.probs| == PROBS_TOTAL && MATCH_LEN_MIN <= len
    requires Yields(inp, c, DistanceOps(len, dist) + rest, end)
    ensures var (dist', c') := Distance(inp, c, len); dist' == dist && Yields(inp, c', rest, end)
  {
    hide RangeCoder.Yields, RangeCoder.Bit, RangeCoder.DirectBit, Tree, TreeOps, ValidOps, Reverse, ReverseOps, DirectBits, DirectOps,
         Bytes.Shl, SlotOf, ExtraBits;
    TreeSizes();
    SlotFacts(dist);
    var slot := SlotOf(dist);
    var base := DIST_SLOT + DistState(len) * 64;
    assert DistanceOps(len, dist) + rest == TreeOps(base, 1, 6, slot) + (ExtraOps(dist) + rest);
    TreeDecodes(inp, c, base, 1, 6, slot, ExtraOps(dist) + rest, end);
    var c1 := Tree(inp, c, base, 1, 6).1;
    if dist < DIST_MODEL_START {
      assert ExtraOps(dist) + rest == rest;
    } else {
      ExtraDecodes(inp, c1, dist, rest, end);
    }
  }

  lemma ExtraDecodes(inp: seq<Byte>, c: Coder, dist: Word, rest: seq<Op>, end: Coder)
    requires |c.probs| == PROBS_TOTAL && dist >= DIST_MODEL_START
    requires Yields(inp, c, ExtraOps(dist) + rest, end)
    ensures DIST_MODEL_START <= SlotOf(dist) < 64
    ensures var (dist', c') := Extra(inp, c, SlotOf(dist)); dist' == dist && Yields(inp, c', rest, end)
  {
    hide RangeCoder.Yields, Reverse, ReverseOps, DirectBits, DirectOps, ValidOps, Bytes.Shl, SlotOf, ExtraBits;
    SlotFacts(dist);
    var (slot, n) := (SlotOf(dist), ExtraBits(dist));
    var top := 2 + slot % 2;
    var low := dist - Shl(top, n);
    SlotBounds(slot);
    if slot < DIST_MODEL_END {
      ReverseDecodes(inp, c, DIST_SPECIAL + Shl(top, n) - slot - 1, 1, n, low, rest, end);
    } else {
      SixteenthBelow(low, n);
      AlignedDecodes(inp, c, top, n - ALIGN_BITS, low, rest, end);
      ShlShl(top, n - ALIGN_BITS, ALIGN_BITS);
      ShlAdd(Shl(top, n - ALIGN_BITS), low / 16, ALIGN_BITS);
      ShlFour(low / 16);
    }
  }

  lemma AlignedDecodes(inp: seq<Byte>, c: Coder, top: nat, k: nat, low: nat, rest: seq<Op>, end: Coder)
    requires |c.probs| == PROBS_TOTAL && low / 16 < Shl(1, k) && Shl(1, ALIGN_BITS) == 16
    requires Yields(inp, c, DirectOps(k, low / 16) + ReverseOps(DIST_ALIGN, 1, ALIGN_BITS, low % 16) + rest, end)
    ensures var (d, c2) := DirectBits(inp, c, top, k);
            var (v, c3) := Reverse(inp, c2, DIST_ALIGN, 1, ALIGN_BITS);
            d == Shl(top, k) + low / 16 && v == low % 16 && Yields(inp, c3, rest, end)
  {
    hide RangeCoder.Yields, Reverse, ReverseOps, DirectBits, DirectOps, ValidOps;
    var r := ReverseOps(DIST_ALIGN, 1, ALIGN_BITS, low % 16);
    var d := DirectOps(k, low / 16);
    assert d + r + rest == d + (r + rest);
    DirectDecodes(inp, c, top, k, low / 16, r + rest, end);
    ReverseDecodes(inp, DirectBits(inp, c, top, k).1, DIST_ALIGN, 1, ALIGN_BITS, low % 16, rest, end);
  }

  lemma RepDecodes(inp: seq<Byte>, c: Coder, m: Model, posState: nat, ch: Choice, rest: seq<Op>, end: Coder)
    requires |c.probs| == PROBS_TOTAL && posState < POS_STATES_MAX && ValidChoice(ch) && (ch.ShortRep? || ch.LongRep?)
    requires Yields(inp, c, RepOps(m, posState, ch) + rest, end)
    ensures var (len, m', c') := RepMatch(inp, c, m, posState);
            Copy(len) == ActionOf(ch) && m' == After(m, ch) && Yields(inp, c', rest, end)
  {
    hide RangeCoder.Yields, RangeCoder.Bit, RangeCoder.DirectBit, Length, LengthOps, ValidOps, Cons;
    var (rep0, rep1) := (IS_REP0 + m.state, IS_REP1 + m.state);
    var long := IS_REP0_LONG + m.state * POS_STATES_MAX + posState;
    var c0 := Bit(inp, c, rep0).1;
    if ch.ShortRep? {
      ConsDecodes(inp, c, rep0, false, Cons(Modelled(long, false), []), rest, end);
      ConsDecodes(inp, c0, long, false, [], rest, end);
      assert [] + rest == rest;
    } else {
      var lenOps := LengthOps(REP_LEN, posState, ch.repLen);
      var c1 := LongRepDecodes(inp, c, m, posState, ch.index, lenOps, rest, end);
      LengthDecodes(inp, c1, REP_LEN, posState, ch.repLen, rest, end);
    }
  }

  /** Which of the four latest distances it is. */
  lemma LongRepDecodes(inp: seq<Byte>, c: Coder, m: Model, posState: nat, i: nat, lenOps: seq<Op>, rest: seq<Op>, end: Coder)
    returns (c': Coder)
    requires |c.probs| == PROBS_TOTAL && posState < POS_STATES_MAX && i < 4
    requires Yields(inp, c, IndexOps(m, posState, i, lenOps) + rest, end)
    ensures Yields(inp, c', lenOps + rest, end) && |c'.probs| == PROBS_TOTAL
    ensures var c0 := Bit(inp, c, IS_REP0 + m.state).1;
            var c1 := Bit(inp, c0, IS_REP1 + m.state).1;
            var long := IS_REP0_LONG + m.state * POS_STATES_MAX + posState;
            && Bit(inp, c, IS_REP0 + m.state).0 == (i != 0)
            && (i == 0 ==> Bit(inp, c0, long) == (true, c'))
            && (i == 1 ==> Bit(inp, c0, IS_REP1 + m.state) == (false, c'))
            && (i >= 2 ==> Bit(inp, c0, IS_REP1 + m.state).0 && Bit(inp, c1, IS_REP2 + m.state) == (i == 3, c'))
  {
    hide RangeCoder.Yields, RangeCoder.Bit, Cons;
    var (rep0, rep1, rep2) := (IS_REP0 + m.state, IS_REP1 + m.state, IS_REP2 + m.state);
    var long := IS_REP0_LONG + m.state * POS_STATES_MAX + posState;
    var c0 := Bit(inp, c, rep0).1;
    if i == 0 {
      ConsDecodes(inp, c, rep0, false, Cons(Modelled(long, true), lenOps), rest, end);
      ConsDecodes(inp, c0, long, true, lenOps, rest, end);
      c' := Bit(inp, c0, long).1;
    } else {
      var more := if i == 1 then lenOps else Cons(Modelled(rep2, i == 3), lenOps);
      ConsDecodes(inp, c, rep0, true, Cons(Modelled(rep1, i >= 2), more), rest, end);
      ConsDecodes(inp, c0, rep1, i >= 2, more, rest, end);
      c' := Bit(inp, c0, rep1).1;
      if i >= 2 {
        ConsDecodes(inp, c', rep2, i == 3, lenOps, rest, end);
        c' := Bit(inp, c', rep2).1;
      }
    }
  }

  /** If the decisions of a symbol come first, decoding returns that symbol and stands before the others. */
  lemma SymbolDecodes(inp: seq<Byte>, c: Coder, m: Model, props: Props, hist: seq<Byte>, ch: Choice, rest: seq<Op>, end: Coder)
    requires props.Valid() && |c.probs| == PROBS_TOTAL && ValidChoice(ch)
    requires Yields(inp, c, SymbolOps(m, props, hist, ch) + rest, end)
    ensures var (a, m', c') := Symbol(inp, c, m, props, hist);
            a == ActionOf(ch) && m' == After(m, ch) && Yields(inp, c', rest, end)
  {
    hide RangeCoder.Yields, RangeCoder.Bit, RangeCoder.DirectBit, Length, LengthOps, ValidOps, DistanceOps, Distance, LiteralOps,
         LiteralByte, RepOps, RepMatch, Cons;
    var posState := PosState(props, |hist|);
    var (isMatch, isRep) := (IS_MATCH + m.state * POS_STATES_MAX + posState, IS_REP + m.state);
    var c1 := Bit(inp, c, isMatch).1;
    var c2 := Bit(inp, c1, isRep).1;
    if ch.Literal? {
      ConsDecodes(inp, c, isMatch, false, LiteralOps(m, props, hist, ch.byte), rest, end);
      LiteralDecodes(inp, c1, m, props, hist, ch.byte, rest, end);
    } else if ch.Match? {
      var (l, d) := (LengthOps(MATCH_LEN, posState, ch.len), DistanceOps(ch.len, ch.dist));
      ConsDecodes(inp, c, isMatch, true, Cons(Modelled(isRep, false), l + d), rest, end);
      ConsDecodes(inp, c1, isRep, false, l + d, rest, end);
      assert l + d + rest == l + (d + rest);
      LengthDecodes(inp, c2, MATCH_LEN, posState, ch.len, d + rest, end);
      DistanceDecodes(inp, Length(inp, c2, MATCH_LEN, posState).1, ch.len, ch.dist, rest, end);
    } else {
      var ops := RepOps(m, posState, ch);
      ConsDecodes(inp, c, isMatch, true, Cons(Modelled(isRep, true), ops), rest, end);
      ConsDecodes(inp, c1, isRep, true, ops, rest, end);
      RepDecodes(inp, c2, m, posState, ch, rest, end);
    }
  }
}
