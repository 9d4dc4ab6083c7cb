/** Every run of the symbol decoder, on any input, is the run for exactly one encodable symbol. What a decision
    list says therefore holds of the decoder itself: how much input a symbol consumes, and that it depends on
    nothing else. */
module LzmaTraces {
  import opened Bytes
  import opened RangeCoder
  import opened Consumption
  import opened LzmaModel
  import opened LzmaEncoding

  lemma {:induction false} YieldsAppend(inp: seq<Byte>, c: Coder, a: seq<Op>, mid: Coder, b: seq<Op>, e: Coder)
    requires Yields(inp, c, a, mid) && Yields(inp, mid, b, e)
    ensures Yields(inp, c, a + b, e)
    decreases |a|
  {
    if a == [] {
      assert a + b == b;
    } else {
      assert a == [a[0]] + a[1..];
      YieldsOp(inp, c, a[0], a[1..], mid);
      YieldsAppend(inp, DecodeOp(inp, c, a[0]).1, a[1..], mid, b, e);
      assert a + b == [a[0]] + (a[1..] + b);
      YieldsOp(inp, c, a[0], a[1..] + b, e);
    }
  }

  // ---------------------------------------------------- every decoded value was encodable

  lemma TreeProduces(inp: seq<Byte>, c: Coder, base: nat, symbol: nat, n: nat)
    requires base + Shl(symbol + 1, n) <= |c.probs|
    ensures var (s, e) := Tree(inp, c, base, symbol, n);
            s - Shl(symbol, n) < Shl(1, n) && Yields(inp, c, TreeOps(base, symbol, n, s - Shl(symbol, n)), e)
    decreases n
  {
    hide RangeCoder.Yields, Bit, DecodeOp, DecodeAll, ValidOps, Bytes.Shl, TopBit, Below, Push, TreeOps, Tree;
    ShlAdd(symbol, 1, n);
    if n == 0 {
      NoTree(inp, c, base, symbol);
      YieldsNil(inp, c);
    } else {
      var b := TreeNext(inp, c, base, symbol, n);
      var c1 := Bit(inp, c, base + symbol).1;
      TreeProduces(inp, c1, base, Push(symbol, b), n - 1);
      var (s, e) := Tree(inp, c, base, symbol, n);
      ShlAdd(Push(symbol, b), 1, n - 1);
      TopOf(symbol, n, b, s);
      TreeOpsNext(base, symbol, n, s - Shl(symbol, n));
      PrependBit(inp, c, base + symbol, TreeOps(base, Push(symbol, b), n - 1, s - Shl(Push(symbol, b), n - 1)), e);
    }
  }

  lemma NoTree(inp: seq<Byte>, c: Coder, base: nat, symbol: nat)
    requires base + Shl(symbol + 1, 0) <= |c.probs|
    ensures Tree(inp, c, base, symbol, 0) == (symbol, c) && Shl(symbol, 0) == symbol && Shl(1, 0) == 1
    ensures TreeOps(base, symbol, 0, 0) == []
  {
  }

  lemma TreeNext(inp: seq<Byte>, c: Coder, base: nat, symbol: nat, n: nat) returns (b: bool)
    requires n > 0 && base + Shl(symbol + 1, n) <= |c.probs|
    ensures base + symbol < |c.probs| && b == Bit(inp, c, base + symbol).0
    ensures base + Shl(Push(symbol, b) + 1, n - 1) <= |c.probs|
    ensures Tree(inp, c, base, symbol, n) == Tree(inp, Bit(inp, c, base + symbol).1, base, Push(symbol, b), n - 1)
  {
    hide Bit, Bytes.Shl;
    TreeStep(symbol, n);
    b := Bit(inp, c, base + symbol).0;
    ShlMonotone(Push(symbol, b) + 1, 2 * symbol + 2, n - 1);
  }

  lemma TreeOpsNext(base: nat, symbol: nat, n: nat, v: nat)
    requires n > 0 && v < Shl(1, n)
    ensures Below(v, n) < Shl(1, n - 1)
    ensures TreeOps(base, symbol, n, v)
         == [Modelled(base + symbol, TopBit(v, n))] + TreeOps(base, Push(symbol, TopBit(v, n)), n - 1, Below(v, n))
  {
    hide Bytes.Shl;
    TreeStep(symbol, n);
  }

  lemma YieldsNil(inp: seq<Byte>, c: Coder)
    ensures Yields(inp, c, [], c)
  {
  }

  lemma PrependBit(inp: seq<Byte>, c: Coder, i: nat, ops: seq<Op>, e: Coder)
    requires i < |c.probs| && Yields(inp, Bit(inp, c, i).1, ops, e)
    ensures Yields(inp, c, [Modelled(i, Bit(inp, c, i).0)] + ops, e)
  {
  }

  lemma ReverseProduces(inp: seq<Byte>, c: Coder, base: nat, symbol: nat, n: nat)
    requires base + Shl(symbol + 1, n) <= |c.probs|
    ensures var (v, e) := Reverse(inp, c, base, symbol, n); Yields(inp, c, ReverseOps(base, symbol, n, v), e)
    decreases n
  {
    hide RangeCoder.Yields, Bit, ValidOps, Bytes.Shl, TopBit, Below;
    if n == 0 {
      YieldsNil(inp, c);
    } else {
      TreeStep(symbol, n);
      var (b, c1) := Bit(inp, c, base + symbol);
      ReverseProduces(inp, c1, base, Push(symbol, b), n - 1);
      var (v, e) := Reverse(inp, c, base, symbol, n);
      PrependBit(inp, c, base + symbol, ReverseOps(base, Push(symbol, b), n - 1, v / 2), e);
    }
  }

  lemma DirectProduces(inp: seq<Byte>, c: Coder, dest: nat, n: nat)
    ensures var (d, e) := DirectBits(inp, c, dest, n);
            Shl(dest, n) <= d < Shl(dest + 1, n) && d - Shl(dest, n) < Shl(1, n)
            && Yields(inp, c, DirectOps(n, d - Shl(dest, n)), e)
    decreases n
  {
    hide RangeCoder.Yields, DirectBit, ValidOps, Bytes.Shl, TopBit, Below;
    ShlAdd(dest, 1, n);
    if n == 0 {
      YieldsNil(inp, c);
    } else {
      TreeStep(dest, n);
      var (b, c1) := DirectBit(inp, c);
      DirectProduces(inp, c1, Push(dest, b), n - 1);
      var (d, e) := DirectBits(inp, c, dest, n);
      var v := d - Shl(dest, n);
      TopOf(dest, n, b, d);
      YieldsOp(inp, c, Direct(b), DirectOps(n - 1, Below(v, n)), e);
    }
  }

  lemma MatchedProduces(inp: seq<Byte>, c: Coder, base: nat, symbol: nat, matchByte: nat, same: bool, n: nat)
    requires base + LITERAL_CODER_SIZE <= |c.probs| && Shl(symbol + 1, n) <= 512
    ensures var (s, e) := MatchedLiteral(inp, c, base, symbol, matchByte, same, n);
            s - Shl(symbol, n) < Shl(1, n)
            && Yields(inp, c, MatchedOps(base, symbol, matchByte, same, n, s - Shl(symbol, n)), e)
    decreases n
  {
    hide RangeCoder.Yields, Bit, ValidOps, Bytes.Shl, TopBit, Below, MatchBit, MatchedIndex, MatchedLiteral, MatchedOps;
    ShlAdd(symbol, 1, n);
    if n == 0 {
      MatchedNil(inp, c, base, symbol, matchByte, same);
      YieldsNil(inp, c);
    } else {
      TreeStep(symbol, n);
      var matchBit := MatchBit(matchByte);
      var i := base + MatchedIndex(same, matchBit) + symbol;
      var (b, c1) := Bit(inp, c, i);
      MatchedProduces(inp, c1, base, Push(symbol, b), matchByte * 2, same && b == matchBit, n - 1);
      var s := MatchedCons(inp, c, base, symbol, matchByte, same, n);
      var tail := MatchedOps(base, Push(symbol, b), matchByte * 2, same && b == matchBit, n - 1, Below(s - Shl(symbol, n), n));
      PrependBit(inp, c, i, tail, MatchedLiteral(inp, c, base, symbol, matchByte, same, n).1);
    }
  }

  lemma MatchedNil(inp: seq<Byte>, c: Coder, base: nat, symbol: nat, matchByte: nat, same: bool)
    requires base + LITERAL_CODER_SIZE <= |c.probs| && Shl(symbol + 1, 0) <= 512
    ensures MatchedLiteral(inp, c, base, symbol, matchByte, same, 0) == (symbol, c)
    ensures Shl(symbol, 0) == symbol && Shl(1, 0) == 1 && MatchedOps(base, symbol, matchByte, same, 0, 0) == []
  {
  }

  lemma MatchedCons(inp: seq<Byte>, c: Coder, base: nat, symbol: nat, matchByte: nat, same: bool, n: nat) returns (s: nat)
    requires base + LITERAL_CODER_SIZE <= |c.probs| && Shl(symbol + 1, n) <= 512 && n > 0
    requires Shl(2 * symbol + 2, n - 1) == Shl(symbol + 1, n) && 2 * symbol + 2 <= Shl(symbol + 1, n)
    ensures var matchBit := MatchBit(matchByte);
            var i := base + MatchedIndex(same, matchBit) + symbol;
            && Shl(Push(symbol, Bit(inp, c, i).0) + 1, n - 1) <= 512
            && MatchedLiteral(inp, c, base, symbol, matchByte, same, n)
               == MatchedLiteral(inp, Bit(inp, c, i).1, base, Push(symbol, Bit(inp, c, i).0), matchByte * 2,
                                 same && Bit(inp, c, i).0 == matchBit, n - 1)
            && s == MatchedLiteral(inp, c, base, symbol, matchByte, same, n).0
            && 0 <= s - Shl(symbol, n) < Shl(1, n)
            && Below(s - Shl(symbol, n), n) == s - Shl(Push(symbol, Bit(inp, c, i).0), n - 1)
            && MatchedOps(base, symbol, matchByte, same, n, s - Shl(symbol, n))
               == [Modelled(i, Bit(inp, c, i).0)]
                  + MatchedOps(base, Push(symbol, Bit(inp, c, i).0), matchByte * 2,
                               same && Bit(inp, c, i).0 == matchBit, n - 1, Below(s - Shl(symbol, n), n))
  {
    hide RangeCoder.Yields, Bit, ValidOps, Bytes.Shl, TopBit, Below, MatchBit, MatchedIndex, RangeCoder.Normalize, Adapt;
    s := MatchedLiteral(inp, c, base, symbol, matchByte, same, n).0;
    var b := Bit(inp, c, base + MatchedIndex(same, MatchBit(matchByte)) + symbol).0;
    ShlMonotone(Push(symbol, b) + 1, 2 * symbol + 2, n - 1);
    TopOf(symbol, n, b, s);
  }

  lemma LiteralProduces(inp: seq<Byte>, c: Coder, m: Model, props: Props, hist: seq<Byte>)
    requires props.Valid() && |c.probs| == PROBS_TOTAL
    ensures var (b, e) := LiteralByte(inp, c, m, props, hist); Yields(inp, c, LiteralOps(m, props, hist, b), e)
  {
    hide RangeCoder.Yields, Tree, TreeOps, MatchedLiteral, MatchedOps;
    TreeSizes();
    var base := LiteralCoder(props, |hist|, HistGet(hist, 0));
    if m.state < LIT_STATES {
      TreeProduces(inp, c, base, 1, 8);
    } else {
      MatchedProduces(inp, c, base, 1, HistGet(hist, m.rep0) * 2, true, 8);
    }
  }

  lemma LengthProduces(inp: seq<Byte>, c: Coder, base: nat, posState: nat)
    requires |c.probs| == PROBS_TOTAL && base <= REP_LEN && posState < POS_STATES_MAX
    ensures var (len, e) := Length(inp, c, base, posState); Yields(inp, c, LengthOps(base, posState, len), e)
  {
    hide RangeCoder.Yields, Tree, TreeOps, Bit;
    TreeSizes();
    var (len, e) := Length(inp, c, base, posState);
    var (b, c1) := Bit(inp, c, base);
    if !b {
      TreeProduces(inp, c1, base + LEN_LOW + posState * 8, 1, 3);
      PrependBit(inp, c, base, TreeOps(base + LEN_LOW + posState * 8, 1, 3, len - MATCH_LEN_MIN), e);
    } else {
      var (b2, c2) := Bit(inp, c1, base + LEN_CHOICE2);
      var (tb, n, v) := if !b2 then (base + LEN_MID + posState * 8, 3, len - MATCH_LEN_MIN - 8)
                        else (base + LEN_HIGH, 8, len - MATCH_LEN_MIN - 16);
      TreeProduces(inp, c2, tb, 1, n);
      PrependBit(inp, c1, base + LEN_CHOICE2, TreeOps(tb, 1, n, v), e);
      PrependBit(inp, c, base, [Modelled(base + LEN_CHOICE2, b2)] + TreeOps(tb, 1, n, v), e);
    }
  }

  lemma {:induction false} ExtraBitsUnique(dist: nat, n: nat)
    requires Shl(2, n) <= dist < Shl(4, n) && n >= 1 && dist >= 4
    ensures ExtraBits(dist) == n
    decreases n
  {
    var k := ExtraBits(dist);
    if k < n {
      ShlTwice(2, k);
      ShlLonger(2, k + 1, n);
    } else if n < k {
      ShlTwice(2, n);
      ShlLonger(2, n + 1, k);
    }
  }

  lemma DistanceProduces(inp: seq<Byte>, c: Coder, len: nat)
    requires |c.probs| == PROBS_TOTAL && MATCH_LEN_MIN <= len
    ensures var (dist, e) := Distance(inp, c, len); Yields(inp, c, DistanceOps(len, dist), e)
  {
    hide RangeCoder.Yields, Tree, TreeOps, Reverse, ReverseOps, DirectBits, DirectOps, ValidOps, Bytes.Shl, ExtraBits;
    TreeSizes();
    var (dist, e) := Distance(inp, c, len);
    var base := DIST_SLOT + DistState(len) * 64;
    var (s, c1) := Tree(inp, c, base, 1, 6);
    var slot := s - 64;
    TreeProduces(inp, c, base, 1, 6);
    if slot < DIST_MODEL_START {
      assert SlotOf(dist) == slot;
      YieldsNil(inp, c1);
      YieldsAppend(inp, c, TreeOps(base, 1, 6, slot), c1, [], e);
    } else {
      ExtraProduces(inp, c1, slot);
      YieldsAppend(inp, c, TreeOps(base, 1, 6, slot), c1, ExtraOps(dist), e);
    }
  }

  lemma ExtraProduces(inp: seq<Byte>, c: Coder, slot: nat)
    requires |c.probs| == PROBS_TOTAL && DIST_MODEL_START <= slot < 64
    ensures var (dist, e) := Extra(inp, c, slot);
            dist >= DIST_MODEL_START && SlotOf(dist) == slot && Yields(inp, c, ExtraOps(dist), e)
  {
    hide RangeCoder.Yields, Reverse, ReverseOps, DirectBits, DirectOps, ValidOps, Bytes.Shl, ExtraBits;
    var (dist, e) := Extra(inp, c, slot);
    var (n, top) := (slot / 2 - 1, 2 + slot % 2);
    SlotBounds(slot);
    if slot < DIST_MODEL_END {
      var base := DIST_SPECIAL + Shl(top, n) - slot - 1;
      ReverseProduces(inp, c, base, 1, n);
      SlotFound(slot, dist, Reverse(inp, c, base, 1, n).0);
    } else {
      var (d, c2) := DirectBits(inp, c, top, n - ALIGN_BITS);
      var v := Reverse(inp, c2, DIST_ALIGN, 1, ALIGN_BITS).0;
      var low := AlignedProduces(inp, c, top, n - ALIGN_BITS);
      SlotFound(slot, dist, low * 16 + v);
      assert (low * 16 + v) / 16 == low && (low * 16 + v) % 16 == v;
    }
  }

  /** Direct bits and four adaptive ones below them. */
  lemma AlignedProduces(inp: seq<Byte>, c: Coder, top: nat, k: nat) returns (low: nat)
    requires |c.probs| == PROBS_TOTAL && Shl(1, ALIGN_BITS) == 16 && Shl(2, ALIGN_BITS) == 32
    ensures var (d, c2) := DirectBits(inp, c, top, k);
            var (v, e) := Reverse(inp, c2, DIST_ALIGN, 1, ALIGN_BITS);
            && low < Shl(1, k) && v < 16 && Shl(1, k + ALIGN_BITS) == 16 * Shl(1, k) && d == Shl(top, k) + low
            && Shl(d, ALIGN_BITS) + v == Shl(top, k + ALIGN_BITS) + (low * 16 + v)
            && Yields(inp, c, DirectOps(k, low) + ReverseOps(DIST_ALIGN, 1, ALIGN_BITS, v), e)
  {
    hide RangeCoder.Yields, Reverse, ReverseOps, DirectBits, DirectOps, ValidOps, Bytes.Shl;
    DirectProduces(inp, c, top, k);
    var (d, c2) := DirectBits(inp, c, top, k);
    ReverseProduces(inp, c2, DIST_ALIGN, 1, ALIGN_BITS);
    var (v, e) := Reverse(inp, c2, DIST_ALIGN, 1, ALIGN_BITS);
    low := d - Shl(top, k);
    ShlShl(top, k, ALIGN_BITS);
    ShlAdd(Shl(top, k), low, ALIGN_BITS);
    ShlFour(low);
    ShlShl(1, k, ALIGN_BITS);
    ShlFour(Shl(1, k));
    YieldsAppend(inp, c, DirectOps(k, low), c2, ReverseOps(DIST_ALIGN, 1, ALIGN_BITS, v), e);
  }

  lemma SlotFound(slot: nat, dist: nat, low: nat)
    requires DIST_MODEL_START <= slot < 64 && low < Shl(1, slot / 2 - 1)
    requires dist == Shl(2 + slot % 2, slot / 2 - 1) + low
    ensures dist >= DIST_MODEL_START && ExtraBits(dist) == slot / 2 - 1 && SlotOf(dist) == slot
  {
    var n := slot / 2 - 1;
    ShlAdd(2, 1, n);
    ShlAdd(3, 1, n);
    ShlMonotone(2, 2 + slot % 2, n);
    ShlLonger(2, 1, n);
    assert Shl(2, 1) == 4;
    ExtraBitsUnique(dist, n);
  }

  lemma RepProduces(inp: seq<Byte>, c: Coder, m: Model, posState: nat) returns (ch: Choice)
    requires |c.probs| == PROBS_TOTAL && posState < POS_STATES_MAX
    ensures ValidChoice(ch) && (ch.ShortRep? || ch.LongRep?)
    ensures var (len, m', e) := RepMatch(inp, c, m, posState);
            Copy(len) == ActionOf(ch) && m' == After(m, ch) && Yields(inp, c, RepOps(m, posState, ch), e)
  {
    hide RangeCoder.Yields, Length, LengthOps, Bit;
    var (len, m', e) := RepMatch(inp, c, m, posState);
    var (b0, c0) := Bit(inp, c, IS_REP0 + m.state);
    var long := IS_REP0_LONG + m.state * POS_STATES_MAX + posState;
    if !b0 {
      var (b, c1) := Bit(inp, c0, long);
      if !b {
        ch := ShortRep;
        YieldsNil(inp, e);
        PrependBit(inp, c0, long, [], e);
        PrependBit(inp, c, IS_REP0 + m.state, [Modelled(long, false)] + [], e);
      } else {
        ch := LongRep(0, len);
        LengthProduces(inp, c1, REP_LEN, posState);
        PrependBit(inp, c0, long, LengthOps(REP_LEN, posState, len), e);
        PrependBit(inp, c, IS_REP0 + m.state, [Modelled(long, true)] + LengthOps(REP_LEN, posState, len), e);
      }
    } else {
      var (b1, c1) := Bit(inp, c0, IS_REP1 + m.state);
      var tail := LengthOps(REP_LEN, posState, len);
      if !b1 {
        ch := LongRep(1, len);
        LengthProduces(inp, c1, REP_LEN, posState);
      } else {
        var (b2, c2) := Bit(inp, c1, IS_REP2 + m.state);
        ch := LongRep(if b2 then 3 else 2, len);
        LengthProduces(inp, c2, REP_LEN, posState);
        PrependBit(inp, c1, IS_REP2 + m.state, tail, e);
        tail := [Modelled(IS_REP2 + m.state, b2)] + tail;
      }
      PrependBit(inp, c0, IS_REP1 + m.state, tail, e);
      PrependBit(inp, c, IS_REP0 + m.state, [Modelled(IS_REP1 + m.state, b1)] + tail, e);
    }
  }

  /** Whatever the input, what Symbol decodes is an encodable symbol, read from just that symbol's decisions. */
  lemma SymbolProduces(inp: seq<Byte>, c: Coder, m: Model, props: Props, hist: seq<Byte>) returns (ch: Choice)
    requires props.Valid() && |c.probs| == PROBS_TOTAL
    ensures ValidChoice(ch)
    ensures var (a, m', e) := Symbol(inp, c, m, props, hist);
            a == ActionOf(ch) && m' == After(m, ch) && Yields(inp, c, SymbolOps(m, props, hist, ch), e)
  {
    hide RangeCoder.Yields, Length, LengthOps, Bit, LiteralByte, LiteralOps, Distance, DistanceOps, RepMatch, RepOps;
    var posState := PosState(props, |hist|);
    var first := IS_MATCH + m.state * POS_STATES_MAX + posState;
    var (a, m', e) := Symbol(inp, c, m, props, hist);
    var (isMatch, c1) := Bit(inp, c, first);
    if !isMatch {
      ch := Literal(a.byte);
      LiteralProduces(inp, c1, m, props, hist);
      PrependBit(inp, c, first, LiteralOps(m, props, hist, a.byte), e);
    } else {
      var (isRep, c2) := Bit(inp, c1, IS_REP + m.state);
      var ops;
      if isRep {
        ch := RepProduces(inp, c2, m, posState);
        ops := RepOps(m, posState, ch);
      } else {
        var (len, c3) := Length(inp, c2, MATCH_LEN, posState);
        var (dist, _) := Distance(inp, c3, len);
        ch := Match(len, dist);
        LengthProduces(inp, c2, MATCH_LEN, posState);
        DistanceProduces(inp, c3, len);
        ops := LengthOps(MATCH_LEN, posState, len) + DistanceOps(len, dist);
        YieldsAppend(inp, c2, LengthOps(MATCH_LEN, posState, len), c3, DistanceOps(len, dist), e);
      }
      PrependBit(inp, c1, IS_REP + m.state, ops, e);
      PrependBit(inp, c, first, [Modelled(IS_REP + m.state, isRep)] + ops, e);
    }
  }

  // --------------------------------------------------------- how much a symbol consumes

  function Adaptive(ops: seq<Op>): nat {
    if ops == [] then 0 else (if ops[0].Modelled? then 1 else 0) + Adaptive(ops[1..])
  }

  function Fixed(ops: seq<Op>): nat {
    if ops == [] then 0 else (if ops[0].Direct? then 1 else 0) + Fixed(ops[1..])
  }

  predicate EndsAdaptive(ops: seq<Op>) {
    ops != [] && ops[|ops| - 1].Modelled?
  }

  lemma {:induction false} CountAppend(a: seq<Op>, b: seq<Op>)
    ensures Adaptive(a + b) == Adaptive(a) + Adaptive(b) && Fixed(a + b) == Fixed(a) + Fixed(b)
    ensures EndsAdaptive(b) ==> EndsAdaptive(a + b)
  {
    if a == [] {
      assert a + b == b;
    } else {
      assert (a + b)[1..] == a[1..] + b;
      CountAppend(a[1..], b);
    }
  }

  lemma CountNone()
    ensures Adaptive([]) == 0 && Fixed([]) == 0
  {
  }

  lemma CountCons(i: nat, b: bool, ops: seq<Op>)
    ensures Adaptive(Cons(Modelled(i, b), ops)) == 1 + Adaptive(ops) && Fixed(Cons(Modelled(i, b), ops)) == Fixed(ops)
    ensures EndsAdaptive(ops) || ops == [] ==> EndsAdaptive(Cons(Modelled(i, b), ops))
  {
  }

  lemma {:induction false} EndsCounts(ops: seq<Op>)
    requires EndsAdaptive(ops)
    ensures Adaptive(ops) >= 1
  {
    if |ops| <= 1 {
    } else {
      EndsCounts(ops[1..]);
    }
  }

  lemma {:induction false} CountTree(base: nat, symbol: nat, n: nat, v: nat)
    requires v < Shl(1, n)
    ensures var ops := TreeOps(base, symbol, n, v);
            Adaptive(ops) == n && Fixed(ops) == 0 && (n > 0 ==> EndsAdaptive(ops))
    decreases n
  {
    if n == 0 {
    } else {
      var b := TopBit(v, n);
      CountTree(base, Push(symbol, b), n - 1, Below(v, n));
      CountCons(base + symbol, b, TreeOps(base, Push(symbol, b), n - 1, Below(v, n)));
    }
  }

  lemma {:induction false} CountReverse(base: nat, symbol: nat, n: nat, v: nat)
    requires v < Shl(1, n)
    ensures var ops := ReverseOps(base, symbol, n, v);
            Adaptive(ops) == n && Fixed(ops) == 0 && (n > 0 ==> EndsAdaptive(ops))
    decreases n
  {
    if n == 0 {
    } else {
      TreeStep(symbol, n);
      var b := v % 2 == 1;
      CountReverse(base, Push(symbol, b), n - 1, v / 2);
      CountCons(base + symbol, b, ReverseOps(base, Push(symbol, b), n - 1, v / 2));
    }
  }

  lemma {:induction false} CountDirect(n: nat, v: nat)
    requires v < Shl(1, n)
    ensures Adaptive(DirectOps(n, v)) == 0 && Fixed(DirectOps(n, v)) == n
    decreases n
  {
    if n == 0 {
    } else {
      CountDirect(n - 1, Below(v, n));
      assert DirectOps(n, v)[1..] == DirectOps(n - 1, Below(v, n));
    }
  }

  lemma {:induction false} CountMatched(base: nat, symbol: nat, matchByte: nat, same: bool, n: nat, v: nat)
    requires v < Shl(1, n)
    ensures var ops := MatchedOps(base, symbol, matchByte, same, n, v);
            Adaptive(ops) == n && Fixed(ops) == 0 && (n > 0 ==> EndsAdaptive(ops))
    decreases n
  {
    hide MatchBit, MatchedIndex;
    if n == 0 {
    } else {
      var matchBit := MatchBit(matchByte);
      var b := TopBit(v, n);
      var tail := MatchedOps(base, Push(symbol, b), matchByte * 2, same && b == matchBit, n - 1, Below(v, n));
      CountMatched(base, Push(symbol, b), matchByte * 2, same && b == matchBit, n - 1, Below(v, n));
      CountCons(base + MatchedIndex(same, matchBit) + symbol, b, tail);
    }
  }

  lemma CountLength(base: nat, posState: nat, len: nat)
    requires MATCH_LEN_MIN <= len <= MATCH_LEN_MAX && base <= REP_LEN && posState < POS_STATES_MAX
    ensures var ops := LengthOps(base, posState, len);
            Adaptive(ops) <= 10 && Fixed(ops) == 0 && EndsAdaptive(ops) && (len >= MATCH_LEN_MIN + 16 ==> Adaptive(ops) == 10)
  {
    hide TreeOps, Adaptive, Fixed, EndsAdaptive, Cons;
    TreeSizes();
    if len < MATCH_LEN_MIN + 8 {
      CountTree(base + LEN_LOW + posState * 8, 1, 3, len - MATCH_LEN_MIN);
      CountCons(base, false, TreeOps(base + LEN_LOW + posState * 8, 1, 3, len - MATCH_LEN_MIN));
    } else {
      var mid := len < MATCH_LEN_MIN + 16;
      var (tb, n, v) := if mid then (base + LEN_MID + posState * 8, 3, len - MATCH_LEN_MIN - 8)
                        else (base + LEN_HIGH, 8, len - MATCH_LEN_MIN - 16);
      CountTree(tb, 1, n, v);
      CountCons(base + LEN_CHOICE2, !mid, TreeOps(tb, 1, n, v));
      CountCons(base, true, Cons(Modelled(base + LEN_CHOICE2, !mid), TreeOps(tb, 1, n, v)));
    }
  }

  /** A slot takes six bits; up to five more are adaptive, or up to 26 direct and four adaptive ones follow. */
  lemma CountDistance(len: nat, dist: Word)
    requires MATCH_LEN_MIN <= len
    ensures var ops := DistanceOps(len, dist);
            && Adaptive(ops) <= 11 && (Fixed(ops) > 0 ==> Adaptive(ops) <= 10) && Fixed(ops) <= DIRECT_MAX
            && EndsAdaptive(ops)
            && (SlotOf(dist) in {12, 13} ==> Adaptive(ops) == 11 && Fixed(ops) == 0)
            && (SlotOf(dist) in {62, 63} ==> Adaptive(ops) == 10 && Fixed(ops) == DIRECT_MAX)
  {
    hide TreeOps, ReverseOps, DirectOps, Adaptive, Fixed, EndsAdaptive, Bytes.Shl, SlotOf, ExtraBits, ValidOps;
    TreeSizes();
    SlotFacts(dist);
    var t := TreeOps(DIST_SLOT + DistState(len) * 64, 1, 6, SlotOf(dist));
    CountTree(DIST_SLOT + DistState(len) * 64, 1, 6, SlotOf(dist));
    CountAppend(t, ExtraOps(dist));
    if dist < DIST_MODEL_START {
      assert t + ExtraOps(dist) == t;
    } else {
      var (slot, n) := (SlotOf(dist), ExtraBits(dist));
      CountLow(slot, dist - Shl(2 + slot % 2, n));
    }
  }

  lemma CountLow(slot: nat, low: nat)
    requires DIST_MODEL_START <= slot < 64 && low < Shl(1, slot / 2 - 1)
    ensures var ops := LowOps(slot, low);
            && Adaptive(ops) <= 5 && (Fixed(ops) > 0 ==> Adaptive(ops) <= 4) && Fixed(ops) <= DIRECT_MAX
            && EndsAdaptive(ops)
            && (slot in {12, 13} ==> Adaptive(ops) == 5 && Fixed(ops) == 0)
            && (slot in {62, 63} ==> Adaptive(ops) == 4 && Fixed(ops) == DIRECT_MAX)
  {
    hide ReverseOps, DirectOps, Adaptive, Fixed, EndsAdaptive, Bytes.Shl, ValidOps;
    var n := slot / 2 - 1;
    SlotBounds(slot);
    if slot < DIST_MODEL_END {
      CountReverse(DIST_SPECIAL + Shl(2 + slot % 2, n) - slot - 1, 1, n, low);
    } else {
      SixteenthBelow(low, n);
      CountDirect(n - ALIGN_BITS, low / 16);
      CountReverse(DIST_ALIGN, 1, ALIGN_BITS, low % 16);
      CountAppend(DirectOps(n - ALIGN_BITS, low / 16), ReverseOps(DIST_ALIGN, 1, ALIGN_BITS, low % 16));
    }
  }

  lemma CountRep(m: Model, posState: nat, ch: Choice)
    requires posState < POS_STATES_MAX && ValidChoice(ch) && (ch.ShortRep? || ch.LongRep?)
    ensures var ops := RepOps(m, posState, ch); Adaptive(ops) <= 13 && Fixed(ops) == 0 && EndsAdaptive(ops)
  {
    hide LengthOps, Adaptive, Fixed, EndsAdaptive, Cons;
    var (rep0, rep1) := (IS_REP0 + m.state, IS_REP1 + m.state);
    var long := IS_REP0_LONG + m.state * POS_STATES_MAX + posState;
    var none: seq<Op> := [];
    CountNone();
    if ch.ShortRep? {
      CountCons(long, false, none);
      CountCons(rep0, false, Cons(Modelled(long, false), none));
    } else {
      var ops := LengthOps(REP_LEN, posState, ch.repLen);
      CountLength(REP_LEN, posState, ch.repLen);
      CountCons(long, true, ops);
      CountCons(rep0, false, Cons(Modelled(long, true), ops));
      CountCons(rep1, false, ops);
      CountCons(rep0, true, Cons(Modelled(rep1, false), ops));
      var third := Cons(Modelled(IS_REP2 + m.state, ch.index == 3), ops);
      CountCons(IS_REP2 + m.state, ch.index == 3, ops);
      CountCons(rep1, true, third);
      CountCons(rep0, true, Cons(Modelled(rep1, true), third));
    }
  }

  /** A symbol takes at most 22 adaptive and 26 direct decisions, or 23 adaptive ones, and the last is adaptive. */
  lemma CountSymbol(m: Model, props: Props, hist: seq<Byte>, ch: Choice)
    requires props.Valid() && ValidChoice(ch)
    ensures var ops := SymbolOps(m, props, hist, ch);
            Allowed(Adaptive(ops), Fixed(ops)) && EndsAdaptive(ops)
  {
    hide LengthOps, DistanceOps, LiteralOps, RepOps, TreeOps, MatchedOps, Adaptive, Fixed, EndsAdaptive, Cons, ValidOps;
    var posState := PosState(props, |hist|);
    var isMatch := IS_MATCH + m.state * POS_STATES_MAX + posState;
    if ch.Literal? {
      var ops := LiteralOps(m, props, hist, ch.byte);
      CountLiteral(m, props, hist, ch.byte);
      CountCons(isMatch, false, ops);
    } else {
      var ops := if ch.Match? then LengthOps(MATCH_LEN, posState, ch.len) + DistanceOps(ch.len, ch.dist) else RepOps(m, posState, ch);
      if ch.Match? {
        CountLength(MATCH_LEN, posState, ch.len);
        CountDistance(ch.len, ch.dist);
        CountAppend(LengthOps(MATCH_LEN, posState, ch.len), DistanceOps(ch.len, ch.dist));
      } else {
        CountRep(m, posState, ch);
      }
      CountCons(IS_REP + m.state, !ch.Match?, ops);
      CountCons(isMatch, true, Cons(Modelled(IS_REP + m.state, !ch.Match?), ops));
    }
  }

  /** Both bounds are attained, by long matches: the one at a distance of slot 12 or 13, the other in the last slots. */
  lemma CountLongest(m: Model, props: Props, hist: seq<Byte>, len: nat, dist: Word)
    requires props.Valid() && ValidChoice(Match(len, dist)) && len >= MATCH_LEN_MIN + 16
    ensures var ops := SymbolOps(m, props, hist, Match(len, dist));
            && (SlotOf(dist) in {12, 13} ==> Adaptive(ops) == 23 && Fixed(ops) == 0)
            && (SlotOf(dist) in {62, 63} ==> Adaptive(ops) == 22 && Fixed(ops) == 26)
  {
    hide LengthOps, DistanceOps, Adaptive, Fixed, EndsAdaptive, Cons, ValidOps, SlotOf;
    var posState := PosState(props, |hist|);
    var ops := LengthOps(MATCH_LEN, posState, len) + DistanceOps(len, dist);
    CountLength(MATCH_LEN, posState, len);
    CountDistance(len, dist);
    CountAppend(LengthOps(MATCH_LEN, posState, len), DistanceOps(len, dist));
    CountCons(IS_REP + m.state, false, ops);
    CountCons(IS_MATCH + m.state * POS_STATES_MAX + posState, true, Cons(Modelled(IS_REP + m.state, false), ops));
  }

  /** There are such distances. */
  lemma LongestSlots()
    ensures SlotOf(64) == 12 && SlotOf(0xC000_0000) in {62, 63}
  {
    SmallSlot();
    LastSlot();
  }

  lemma SmallSlot()
    ensures SlotOf(64) == 12
  {
    assert ExtraBits(8) == 2;
    assert ExtraBits(32) == 4;
    assert Shl(3, 5) == 96 by {
      assert Shl(3, 5) == Shl(6, 4) == Shl(12, 3);
    }
  }

  lemma LastSlot()
    ensures SlotOf(0xC000_0000) in {62, 63}
  {
    hide Bytes.Shl, ExtraBits;
    var n := ExtraBits(0xC000_0000);
    SlotFacts(0xC000_0000);
    BigShifts();
    ShlTwice(2, 29);
    ShlTwice(2, 30);
    if n < 30 {
      ShlLonger(4, n, 29);
    }
  }

  lemma CountLiteral(m: Model, props: Props, hist: seq<Byte>, b: Byte)
    requires props.Valid()
    ensures var ops := LiteralOps(m, props, hist, b); Adaptive(ops) == 8 && Fixed(ops) == 0 && EndsAdaptive(ops)
  {
    hide TreeOps, MatchedOps, Adaptive, Fixed, EndsAdaptive;
    TreeSizes();
    var base := LiteralCoder(props, |hist|, HistGet(hist, 0));
    CountTree(base, 1, 8, b);
    CountMatched(base, 1, HistGet(hist, m.rep0) * 2, true, 8, b);
  }
}
