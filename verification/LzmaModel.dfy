/** The LZMA symbol layer: which probability codes which decision, what a symbol does to the remembered
    distances, and the decoder of one symbol as a function of its input. */
module LzmaModel {
  import opened Bytes
  import opened RangeCoder

  // ------------------------------------------------------ symbols and properties

  const LIT_STATES := 7
  const POS_STATES_MAX := 16
  const MATCH_LEN_MIN := 2
  const MATCH_LEN_MAX := 273
  const DIST_MODEL_START := 4
  const DIST_MODEL_END := 14
  const ALIGN_BITS := 4

  /** The kinds of the latest symbols; below LIT_STATES the very latest one was a literal. */
  type State = s: int | 0 <= s < 12

  function StateLiteral(s: State): State {
    if s <= 3 then 0 else if s <= 9 then s - 3 else s - 6
  }

  function StateMatch(s: State): State {
    if s < LIT_STATES then 7 else 10
  }

  function StateLongRep(s: State): State {
    if s < LIT_STATES then 8 else 11
  }

  function StateShortRep(s: State): State {
    if s < LIT_STATES then 9 else 11
  }

  /** lc, lp and pb of the properties byte. */
  datatype Props = Props(lc: nat, lp: nat, pb: nat) {
    predicate Valid() {
      lc + lp <= 4 && pb <= 4
    }
  }

  /** The symbol history: state and the four latest distances (minus one). */
  datatype Model = Model(state: State, rep0: Word, rep1: Word, rep2: Word, rep3: Word)

  const FreshModel := Model(0, 0, 0, 0, 0)

  datatype Action = Put(byte: Byte) | Copy(len: nat)

  // --------------------------------------------------- the flat probability array

  const IS_MATCH := 0
  const IS_REP := 192
  const IS_REP0 := 204
  const IS_REP1 := 216
  const IS_REP2 := 228
  const IS_REP0_LONG := 240
  const DIST_SLOT := 432
  const DIST_SPECIAL := 688
  const DIST_ALIGN := 802
  const MATCH_LEN := 818
  const REP_LEN := 1332
  const LITERAL := 1846
  const LITERAL_CODER_SIZE := 0x300
  const PROBS_TOTAL := 14134

  const LEN_CHOICE2 := 1
  const LEN_LOW := 2
  const LEN_MID := 130
  const LEN_HIGH := 258

  function PosState(props: Props, pos: nat): (r: nat)
    ensures props.pb <= 4 ==> r < POS_STATES_MAX
  {
    SmallPowers();
    pos % Shl(1, props.pb)
  }

  lemma SmallPowers()
    ensures Shl(1, 0) == 1 && Shl(1, 1) == 2 && Shl(1, 2) == 4 && Shl(1, 3) == 8 && Shl(1, 4) == 16
    ensures Shl(1, 5) == 32 && Shl(1, 6) == 64 && Shl(1, 7) == 128 && Shl(1, 8) == 256
  {
  }

  /** The sizes of the three kinds of bit trees. */
  lemma TreeSizes()
    ensures Shl(1, 3) == 8 && Shl(2, 3) == 16 && Shl(1, 6) == 64 && Shl(2, 6) == 128 && Shl(1, 8) == 256 && Shl(2, 8) == 512
  {
  }

  lemma BigShifts()
    ensures Shl(4, 26) == 0x1000_0000 && Shl(2, 31) == U32
  {
    ShlEight(4, 18);
    ShlEight(0x400, 10);
    ShlEight(0x4_0000, 2);
    assert Shl(0x400_0000, 2) == 0x1000_0000;
    ShlShl(2, 1, 30);
    ShlShl(4, 26, 4);
    ShlFour(0x1000_0000);
    assert Shl(2, 1) == 4;
  }

  lemma ShlEight(x: nat, n: nat)
    ensures Shl(x, 8 + n) == Shl(256 * x, n)
  {
    ShlShl(x, 4, 4 + n);
    ShlFour(x);
    ShlShl(16 * x, 4, n);
    ShlFour(16 * x);
  }

  /** The byte d + 1 back; zero when there is none. */
  function HistGet(hist: seq<Byte>, d: nat): Byte {
    if d < |hist| then hist[|hist| - 1 - d] else 0
  }

  function LiteralCoder(props: Props, pos: nat, prev: Byte): (r: nat)
    requires props.Valid()
    ensures LITERAL <= r && r + LITERAL_CODER_SIZE <= PROBS_TOTAL
  {
    SmallPowers();
    var low := prev / Shl(1, 8 - props.lc);
    var high := Shl(pos % Shl(1, props.lp), props.lc);
    assert low + high < 16 by { LiteralContext(props.lc, props.lp, prev, pos); }
    LITERAL + (low + high) * LITERAL_CODER_SIZE
  }

  lemma LiteralContext(lc: nat, lp: nat, prev: Byte, pos: nat)
    requires lc + lp <= 4
    ensures prev / Shl(1, 8 - lc) + Shl(pos % Shl(1, lp), lc) < 16
  {
    SmallPowers();
    var x := pos % Shl(1, lp);
    assert Shl(x, 0) == x && Shl(x, 1) == 2 * x && Shl(2 * x, 1) == 4 * x && Shl(4 * x, 1) == 8 * x;
    if lc == 0 { assert prev / Shl(1, 8) == 0; }
    else if lc == 1 { assert prev / Shl(1, 7) <= 1; }
    else if lc == 2 { assert prev / Shl(1, 6) <= 3; }
    else if lc == 3 { assert prev / Shl(1, 5) <= 7; }
    else { assert lp == 0 && x == 0; }
  }

  function DistState(len: nat): nat
    requires len >= MATCH_LEN_MIN
  {
    if len < 4 + MATCH_LEN_MIN then len - MATCH_LEN_MIN else 3
  }

  function FreshProbs(): (p: seq<Prob>)
    ensures |p| == PROBS_TOTAL && forall i :: 0 <= i < |p| ==> p[i] == 1024
  {
    seq(PROBS_TOTAL, _ => 1024)
  }

  /** The properties byte is (pb * 5 + lp) * 9 + lc. */
  function PropsOf(b: Byte): Props {
    Props(b % 9, b / 9 % 5, b / 45)
  }

  predicate ValidPropsByte(b: Byte) {
    b <= (4 * 5 + 4) * 9 + 8 && b % 9 + b / 9 % 5 <= 4
  }

  lemma PropsByte(lc: nat, lp: nat, pb: nat)
    requires lc < 9 && lp < 5 && pb < 5
    ensures PropsOf((pb * 5 + lp) * 9 + lc) == Props(lc, lp, pb)
    ensures ValidPropsByte((pb * 5 + lp) * 9 + lc) <==> Props(lc, lp, pb).Valid()
  {
    var b := (pb * 5 + lp) * 9 + lc;
    DivisionIs(b, 9, pb * 5 + lp, lc);
    DivisionIs(pb * 5 + lp, 5, pb, lp);
    DivisionIs(b, 45, pb, lp * 9 + lc);
  }

  // ------------------------------------------------------------------ the decoder

  /** A bit tree read from the most significant bit; symbol holds the bits so far under a leading one. */
  function Tree(inp: seq<Byte>, c: Coder, base: nat, symbol: nat, n: nat): (r: (nat, Coder))
    requires base + Shl(symbol + 1, n) <= |c.probs|
    ensures |r.1.probs| == |c.probs|
    ensures Shl(symbol, n) <= r.0 < Shl(symbol + 1, n)
    decreases n, c.pos
  {
    if n == 0 then (symbol, c) else
      TreeStep(symbol, n);
      var (b, c1) := Bit(inp, c, base + symbol);
      Tree(inp, c1, base, if b then 2 * symbol + 1 else 2 * symbol, n - 1)
  }

  lemma TreeStep(symbol: nat, n: nat)
    requires n > 0
    ensures Shl(2 * symbol, n - 1) == Shl(symbol, n)
    ensures Shl(2 * symbol + 1, n - 1) == Shl(symbol, n) + Shl(1, n - 1)
    ensures Shl(2 * symbol + 2, n - 1) == Shl(symbol + 1, n)
    ensures 2 * symbol + 2 <= Shl(symbol + 1, n) == Shl(symbol, n) + Shl(1, n)
    ensures Shl(1, n) == 2 * Shl(1, n - 1)
  {
    ShlAdd(2 * symbol, 1, n - 1);
    ShlAdd(symbol, 1, n);
    ShlTwice(1, n - 1);
  }

  /** A bit tree read from the least significant bit: the value of its n bits. */
  function Reverse(inp: seq<Byte>, c: Coder, base: nat, symbol: nat, n: nat): (r: (nat, Coder))
    requires base + Shl(symbol + 1, n) <= |c.probs|
    ensures |r.1.probs| == |c.probs| && r.0 < Shl(1, n)
    decreases n, c.pos
  {
    if n == 0 then (0, c) else
      TreeStep(symbol, n);
      var (b, c1) := Bit(inp, c, base + symbol);
      var (v, c2) := Reverse(inp, c1, base, if b then 2 * symbol + 1 else 2 * symbol, n - 1);
      (if b then 1 + 2 * v else 2 * v, c2)
  }

  function DirectBits(inp: seq<Byte>, c: Coder, dest: nat, n: nat): (r: (nat, Coder))
    ensures |r.1.probs| == |c.probs|
    ensures Shl(dest, n) <= r.0 < Shl(dest + 1, n)
    decreases n, c.pos
  {
    if n == 0 then (dest, c) else
      TreeStep(dest, n);
      var (b, c1) := DirectBit(inp, c);
      DirectBits(inp, c1, if b then 2 * dest + 1 else 2 * dest, n - 1)
  }

  /** A literal after a match: as long as its bits agree with the byte at the last distance, they are coded
      with probabilities of their own. matchByte is that byte shifted so that its next bit has weight 256. */
  function MatchedLiteral(inp: seq<Byte>, c: Coder, base: nat, symbol: nat, matchByte: nat, same: bool, n: nat): (r: (nat, Coder))
    requires base + LITERAL_CODER_SIZE <= |c.probs| && Shl(symbol + 1, n) <= 512
    ensures |r.1.probs| == |c.probs|
    ensures Shl(symbol, n) <= r.0 < Shl(symbol + 1, n)
    decreases n, c.pos
  {
    if n == 0 then (symbol, c) else
      TreeStep(symbol, n);
      var matchBit := MatchBit(matchByte);
      var (b, c1) := Bit(inp, c, base + MatchedIndex(same, matchBit) + symbol);
      MatchedLiteral(inp, c1, base, if b then 2 * symbol + 1 else 2 * symbol, matchByte * 2, same && b == matchBit, n - 1)
  }

  predicate MatchBit(matchByte: nat) {
    matchByte / 256 % 2 == 1
  }

  /** offset + match_bit */
  function MatchedIndex(same: bool, matchBit: bool): (r: nat)
    ensures r <= 0x200
  {
    if !same then 0 else if matchBit then 0x200 else 0x100
  }

  function LiteralByte(inp: seq<Byte>, c: Coder, m: Model, props: Props, hist: seq<Byte>): (r: (Byte, Coder))
    requires props.Valid() && |c.probs| == PROBS_TOTAL
    ensures |r.1.probs| == PROBS_TOTAL
  {
    TreeSizes();
    var base := LiteralCoder(props, |hist|, HistGet(hist, 0));
    var (symbol, c1) :=
      if m.state < LIT_STATES then Tree(inp, c, base, 1, 8)
      else MatchedLiteral(inp, c, base, 1, HistGet(hist, m.rep0) * 2, true, 8);
    (symbol - 256, c1)
  }

  function Length(inp: seq<Byte>, c: Coder, base: nat, posState: nat): (r: (nat, Coder))
    requires |c.probs| == PROBS_TOTAL && base <= REP_LEN && posState < POS_STATES_MAX
    ensures |r.1.probs| == PROBS_TOTAL && MATCH_LEN_MIN <= r.0 <= MATCH_LEN_MAX
  {
    TreeSizes();
    var (b, c1) := Bit(inp, c, base);
    if !b then
      var (s, c2) := Tree(inp, c1, base + LEN_LOW + posState * 8, 1, 3);
      (MATCH_LEN_MIN + s - 8, c2)
    else
      var (b2, c2) := Bit(inp, c1, base + LEN_CHOICE2);
      if !b2 then
        var (s, c3) := Tree(inp, c2, base + LEN_MID + posState * 8, 1, 3);
        (MATCH_LEN_MIN + 8 + s - 8, c3)
      else
        var (s, c3) := Tree(inp, c2, base + LEN_HIGH, 1, 8);
        (MATCH_LEN_MIN + 16 + s - 256, c3)
  }

  function Distance(inp: seq<Byte>, c: Coder, len: nat): (r: (Word, Coder))
    requires |c.probs| == PROBS_TOTAL && MATCH_LEN_MIN <= len
    ensures |r.1.probs| == PROBS_TOTAL
  {
    TreeSizes();
    var (s, c1) := Tree(inp, c, DIST_SLOT + DistState(len) * 64, 1, 6);
    var slot := s - 64;
    if slot < DIST_MODEL_START then (slot, c1) else Extra(inp, c1, slot)
  }

  /** The distance of a slot: its two highest bits are in the slot, the others follow. */
  function Extra(inp: seq<Byte>, c: Coder, slot: nat): (r: (Word, Coder))
    requires |c.probs| == PROBS_TOTAL && DIST_MODEL_START <= slot < 64
    ensures |r.1.probs| == PROBS_TOTAL
  {
    SlotBounds(slot);
    var n := slot / 2 - 1;
    var top := 2 + slot % 2;
    if slot < DIST_MODEL_END then
      var high := Shl(top, n);
      var (v, c1) := Reverse(inp, c, DIST_SPECIAL + high - slot - 1, 1, n);
      (high + v, c1)
    else
      var (d, c1) := DirectBits(inp, c, top, n - ALIGN_BITS);
      var (v, c2) := Reverse(inp, c1, DIST_ALIGN, 1, ALIGN_BITS);
      AlignFits(d, v);
      (Shl(d, ALIGN_BITS) + v, c2)
  }

  /** The slots below DIST_MODEL_END keep to dist_special, and no distance exceeds 32 bits. */
  lemma SlotBounds(slot: nat)
    requires DIST_MODEL_START <= slot < 64
    ensures Shl(1, ALIGN_BITS) == 16 && Shl(2, ALIGN_BITS) == 32
    ensures Shl(2, slot / 2 - 1) == 2 * Shl(1, slot / 2 - 1)
    ensures var (n, top) := (slot / 2 - 1, 2 + slot % 2);
            if slot < DIST_MODEL_END then
              var base := DIST_SPECIAL + Shl(top, n) - slot - 1;
              && DIST_SPECIAL <= base + 1 && base + Shl(1, n) <= DIST_ALIGN
              && 0 <= Shl(top, n) && Shl(top, n) + Shl(1, n) <= 128 && Shl(1, n) <= 32
            else
              Shl(top + 1, n - ALIGN_BITS) <= 0x1000_0000
  {
    SmallPowers();
    var n := slot / 2 - 1;
    ShlTwice(1, n);
    ShlAdd(2, 1, n);
    if slot < DIST_MODEL_END {
      assert n == 1 || n == 2 || n == 3 || n == 4 || n == 5;
    } else {
      ShlMonotone(2 + slot % 2 + 1, 4, n - ALIGN_BITS);
      ShlLonger(4, n - ALIGN_BITS, 26);
      BigShifts();
    }
  }

  /** Four low bits below at most 28. */
  lemma AlignFits(d: nat, v: nat)
    requires d < 0x1000_0000 && v < 16
    ensures Shl(d, ALIGN_BITS) == d * 16 && Shl(d, ALIGN_BITS) + v < U32
  {
  }

  function NewMatch(inp: seq<Byte>, c: Coder, m: Model, posState: nat): (r: (nat, Model, Coder))
    requires |c.probs| == PROBS_TOTAL && posState < POS_STATES_MAX
    ensures |r.2.probs| == PROBS_TOTAL && MATCH_LEN_MIN <= r.0 <= MATCH_LEN_MAX
  {
    var (len, c1) := Length(inp, c, MATCH_LEN, posState);
    var (dist, c2) := Distance(inp, c1, len);
    (len, Model(StateMatch(m.state), dist, m.rep0, m.rep1, m.rep2), c2)
  }

  function RepMatch(inp: seq<Byte>, c: Coder, m: Model, posState: nat): (r: (nat, Model, Coder))
    requires |c.probs| == PROBS_TOTAL && posState < POS_STATES_MAX
    ensures |r.2.probs| == PROBS_TOTAL && 1 <= r.0 <= MATCH_LEN_MAX
  {
    var (b0, c0) := Bit(inp, c, IS_REP0 + m.state);
    if !b0 then
      var (b, c1) := Bit(inp, c0, IS_REP0_LONG + m.state * POS_STATES_MAX + posState);
      if !b then (1, m.(state := StateShortRep(m.state)), c1) else
        var (len, c2) := Length(inp, c1, REP_LEN, posState);
        (len, m.(state := StateLongRep(m.state)), c2)
    else
      var (b1, c1) := Bit(inp, c0, IS_REP1 + m.state);
      var (m2, c2) :=
        if !b1 then (Model(m.state, m.rep1, m.rep0, m.rep2, m.rep3), c1) else
          var (b2, c2) := Bit(inp, c1, IS_REP2 + m.state);
          if !b2 then (Model(m.state, m.rep2, m.rep0, m.rep1, m.rep3), c2)
          else (Model(m.state, m.rep3, m.rep0, m.rep1, m.rep2), c2);
      var (len, c3) := Length(inp, c2, REP_LEN, posState);
      (len, m2.(state := StateLongRep(m.state)), c3)
  }

  /** One iteration of the decoding loop, up to the copying of the match. */
  function Symbol(inp: seq<Byte>, c: Coder, m: Model, props: Props, hist: seq<Byte>): (r: (Action, Model, Coder))
    requires props.Valid() && |c.probs| == PROBS_TOTAL
    ensures |r.2.probs| == PROBS_TOTAL
    ensures r.0.Copy? ==> 1 <= r.0.len <= MATCH_LEN_MAX
  {
    var posState := PosState(props, |hist|);
    var (isMatch, c1) := Bit(inp, c, IS_MATCH + m.state * POS_STATES_MAX + posState);
    if !isMatch then
      var (b, c2) := LiteralByte(inp, c1, m, props, hist);
      (Put(b), m.(state := StateLiteral(m.state)), c2)
    else
      var (isRep, c2) := Bit(inp, c1, IS_REP + m.state);
      var (len, m', c3) := if isRep then RepMatch(inp, c2, m, posState) else NewMatch(inp, c2, m, posState);
      (Copy(len), m', c3)
  }

  // -------------------------------------------------------------- effect on history

  /** The overlapping copy: each byte is the one dist + 1 back, which may be a byte just copied. */
  function LzCopy(hist: seq<Byte>, dist: nat, len: nat): (r: seq<Byte>)
    ensures |r| == |hist| + len && hist <= r
    decreases len
  {
    if len == 0 then hist else LzCopy(hist + [HistGet(hist, dist)], dist, len - 1)
  }

  lemma {:induction false} LzCopySplit(hist: seq<Byte>, dist: nat, a: nat, b: nat)
    ensures LzCopy(hist, dist, a + b) == LzCopy(LzCopy(hist, dist, a), dist, b)
    decreases a
  {
    if a == 0 {
    } else {
      LzCopySplit(hist + [HistGet(hist, dist)], dist, a - 1, b);
    }
  }

  lemma LzCopyZero(hist: seq<Byte>, dist: nat)
    ensures LzCopy(hist, dist, 0) == hist
  {
  }

  lemma LzCopyNext(hist: seq<Byte>, dist: nat, n: nat)
    ensures LzCopy(hist, dist, n + 1) == LzCopy(hist, dist, n) + [HistGet(LzCopy(hist, dist, n), dist)]
  {
    LzCopySplit(hist, dist, n, 1);
    var h := LzCopy(hist, dist, n);
    assert LzCopy(h, dist, 1) == LzCopy(h + [HistGet(h, dist)], dist, 0);
  }

  /** Every copied byte repeats with the period of the distance. */
  lemma {:induction false} LzCopyPeriod(hist: seq<Byte>, dist: nat, len: nat, k: nat)
    requires dist < |hist| && |hist| <= k < |hist| + len
    ensures LzCopy(hist, dist, len)[k] == LzCopy(hist, dist, len)[k - dist - 1]
    decreases len
  {
    var next := hist + [HistGet(hist, dist)];
    if k == |hist| {
      assert LzCopy(hist, dist, len)[..|next|] == next;
      assert next[k] == next[k - dist - 1];
      assert LzCopy(hist, dist, len)[k] == next[k];
      assert LzCopy(hist, dist, len)[k - dist - 1] == next[k - dist - 1];
    } else {
      LzCopyPeriod(next, dist, len - 1, k);
    }
  }
}
