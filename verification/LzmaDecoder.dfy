/** The LZMA decoder over a dictionary: one symbol, and the loop of lzma_main. */
module LzmaDecoder {
  import opened Bytes
  import opened RangeCoder
  import opened Consumption
  import opened LzmaModel
  import opened LzmaChunk
  import opened LzmaPieces
  import opened Dictionary
  import opened RangeDecoder

  class LzmaDec {
    const rc: RangeDec
    const dict: Dict
    const probs: array<Prob>
    var state: LzmaModel.State
    var rep0: Word
    var rep1: Word
    var rep2: Word
    var rep3: Word
    var len: nat
    var lc: nat
    var literalPosMask: nat
    var posMask: nat

    /** lp and pb behind the masks */
    ghost var props: Props

    constructor (dict: Dict)
      requires dict.Valid()
      ensures Valid() && this.dict == dict && fresh(rc) && fresh(probs) && fresh(this)
      ensures len == 0 && M() == FreshModel && probs[..] == FreshProbs() && props == Props(0, 0, 0)
      ensures rc.range == 0xFFFF_FFFF && rc.code == 0 && rc.initBytesLeft == INIT_BYTES
    {
      rc := new RangeDec();
      this.dict := dict;
      probs := new Prob[PROBS_TOTAL](_ => 1024);
      state, rep0, rep1, rep2, rep3, len := 0, 0, 0, 0, 0, 0;
      lc, literalPosMask, posMask, props := 0, 0, 0, Props(0, 0, 0);
      new;
      SmallPowers();
    }

    /** Properties and dictionary are in order. */
    ghost predicate Core()
      reads this, dict, dict.buf, probs
    {
      && probs.Length == PROBS_TOTAL && probs as object != dict.buf
      && dict.Valid()
      && props.Valid() && lc == props.lc && literalPosMask == Shl(1, props.lp) - 1 && posMask == Shl(1, props.pb) - 1
    }

    /** A distance that may be used without being checked reaches back into the history. */
    ghost predicate Reaches()
      reads `state, `rep0, `len, dict`hist, dict`size
    {
      state >= LIT_STATES || len > 0 ==> ValidDistance(dict.hist, rep0, dict.size)
    }

    ghost predicate Valid()
      reads this, dict, dict.buf, probs
    {
      Core() && Reaches()
    }

    /** lzma_reset */
    method ResetState()
      requires Core()
      modifies `state, `rep0, `rep1, `rep2, `rep3, `len, probs, rc`range, rc`code, rc`initBytesLeft
      ensures Valid() && len == 0 && M() == FreshModel && probs[..] == FreshProbs()
      ensures rc.range == 0xFFFF_FFFF && rc.code == 0 && rc.initBytesLeft == INIT_BYTES
    {
      state, rep0, rep1, rep2, rep3, len := 0, 0, 0, 0, 0, 0;
      var i := 0;
      while i < PROBS_TOTAL
        invariant 0 <= i <= PROBS_TOTAL && forall k :: 0 <= k < i ==> probs[k] == 1024
        modifies probs
      {
        probs[i] := BIT_MODEL_TOTAL / 2;
        i := i + 1;
      }
      assert probs[..] == FreshProbs();
      rc.Reset();
    }

    /** lzma_props: the three properties are peeled off the byte; on success the state is reset. */
    method SetProps(b: Byte) returns (ok: bool)
      requires Core()
      modifies this, probs, rc`range, rc`code, rc`initBytesLeft
      ensures ok <==> ValidPropsByte(b)
      ensures ok ==> Valid() && props == PropsOf(b) && len == 0 && M() == FreshModel && probs[..] == FreshProbs()
      ensures ok ==> rc.range == 0xFFFF_FFFF && rc.code == 0 && rc.initBytesLeft == INIT_BYTES
    {
      if b > (4 * 5 + 4) * 9 + 8 {
        return false;
      }
      hide FreshProbs, Consistent, PropsOf, ValidPropsByte, Dict.Valid, Bytes.Shl;
      var (rest, pb, lp) := (b as int, 0, 0);
      while rest >= 9 * 5
        invariant 0 <= rest && rest + pb * 45 == b && 0 <= pb <= 4
      {
        rest := rest - 9 * 5;
        pb := pb + 1;
      }
      while rest >= 9
        invariant 0 <= rest && rest + lp * 9 + pb * 45 == b && 0 <= lp <= 4
        invariant rest + lp * 9 < 45
      {
        rest := rest - 9;
        lp := lp + 1;
      }
      PropsByte(rest, lp, pb);
      if rest + lp > 4 {
        return false;
      }
      lc, literalPosMask, posMask := rest, Shl(1, lp) - 1, Shl(1, pb) - 1;
      props := Props(rest, lp, pb);
      ResetState();
      ok := true;
    }

    ghost function M(): Model
      reads this
    {
      Model(state, rep0, rep1, rep2, rep3)
    }

    ghost function C(): Coder
      reads this, rc, probs
    {
      rc.State(probs[..])
    }

    /** The state once a match cut off by the dictionary limit is finished. */
    ghost function AsLz(): Lz
      reads this, rc, probs, dict`hist
    {
      Lz(C(), M(), LzCopy(dict.hist, rep0, len))
    }

    method Literal(ghost c0: Coder)
      requires Valid() && dict.pos < dict.limit && len == 0 && rc.Budget(c0, probs[..], 1, 0)
      modifies this`state, rc`range, rc`code, rc`inPos, probs, dict`pos, dict`full, dict`hist, dict.buf
      ensures Valid() && rc.Budget(c0, probs[..], 9, 0)
      ensures var (b, c) := LiteralByte(rc.input, old(C()), old(M()), props, old(dict.hist));
              && C() == c && dict.hist == old(dict.hist) + [b] && dict.pos == old(dict.pos) + 1
              && M() == old(M()).(state := StateLiteral(old(state)))
    {
      hide Within, LzmaModel.LiteralByte;
      var symbol := LiteralSymbol(c0);
      dict.Put(symbol);
      state := StateLiteral(state);
    }

    method LiteralSymbol(ghost c0: Coder) returns (symbol: Byte)
      requires Valid() && rc.Budget(c0, probs[..], 1, 0)
      modifies rc`range, rc`code, rc`inPos, probs
      ensures Valid() && rc.Budget(c0, probs[..], 9, 0)
      ensures (symbol, C()) == LiteralByte(rc.input, old(C()), old(M()), props, dict.hist)
    {
      hide Within, LzmaModel.LiteralCoder, Consistent, Tree, LzmaModel.MatchedLiteral;
      DictFacts();
      var prev := dict.Get(0);
      var base := LiteralProbs(prev);
      TreeSizes();
      var s;
      if state < LIT_STATES {
        s := rc.BitTree(probs, base, 0x100, 8, c0, 1, 0);
      } else {
        s := MatchedLiteral(base, dict.Get(rep0) * 2, 8, c0);
      }
      symbol := s - 0x100;
    }

    lemma DictFacts()
      requires Valid()
      ensures dict.full == 0 ==> dict.hist == []
      ensures state >= LIT_STATES || len > 0 ==> rep0 < dict.full <= dict.end
    {
    }

    /** What is left of the budget after a symbol: where the input stands. */
    ghost predicate SymbolRead(c0: Coder)
      reads rc
    {
      RANGE_MIN <= rc.range && c0.pos <= rc.inPos <= c0.pos + SYMBOL_BYTES
    }

    lemma BudgetRead(c0: Coder, m: nat, d: nat)
      requires rc.Budget(c0, probs[..], m, d)
      ensures SymbolRead(c0)
    {
    }

    method LiteralProbs(prev: Byte) returns (base: nat)
      requires Valid() && prev == HistGet(dict.hist, 0)
      ensures base == LiteralCoder(props, |dict.hist|, prev)
    {
      hide Dict.Valid;
      PosMod(props.lp);
      SmallPowers();
      base := LITERAL + (prev / Shl(1, 8 - lc) + Shl(dict.pos % (literalPosMask + 1), lc)) * LITERAL_CODER_SIZE;
    }

    /** The position in the ring and the length of the history agree in their low four bits. */
    lemma PosMod(n: nat)
      requires Valid() && n <= 4
      ensures Shl(1, n) > 0 && dict.pos % Shl(1, n) == |dict.hist| % Shl(1, n)
    {
      SmallPowers();
      ModAgrees(|dict.hist|, dict.pos, n);
    }

    lemma ModAgrees(a: nat, b: nat, n: nat)
      requires a == b || (a >= b && (a - b) % 16 == 0)
      requires n <= 4
      ensures Shl(1, n) > 0 && b % Shl(1, n) == a % Shl(1, n)
    {
      SmallPowers();
      LowBits(a, b);
      assert n == 0 || n == 1 || n == 2 || n == 3 || n == 4;
    }

    lemma LowBits(a: nat, b: nat)
      requires a >= b && (a - b) % 16 == 0
      ensures a % 2 == b % 2 && a % 4 == b % 4 && a % 8 == b % 8 && a % 16 == b % 16
    {
      var q := (a - b) / 16;
      assert a == b + 16 * q;
      Low2(b, 8 * q);
      Low4(b, 4 * q);
      Low8(b, 2 * q);
      Low16(b, q);
    }

    lemma Low2(b: nat, q: nat)
      ensures (b + 2 * q) % 2 == b % 2
    {
    }

    lemma Low4(b: nat, q: nat)
      ensures (b + 4 * q) % 4 == b % 4
    {
    }

    lemma Low8(b: nat, q: nat)
      ensures (b + 8 * q) % 8 == b % 8
    {
    }

    lemma Low16(b: nat, q: nat)
      ensures (b + 16 * q) % 16 == b % 16
    {
    }

    method MatchedLiteral(base: nat, first: nat, ghost n: nat, ghost c0: Coder) returns (symbol: nat)
      requires n == 8 && base + LITERAL_CODER_SIZE <= probs.Length && rc.Budget(c0, probs[..], 1, 0) && Shl(2, 8) == 512
      modifies rc`range, rc`code, rc`inPos, probs
      ensures (symbol, C()) == LzmaModel.MatchedLiteral(rc.input, old(C()), base, 1, first, true, n)
      ensures rc.Budget(c0, probs[..], 9, 0)
    {
      hide Within, Bytes.Shl, LzmaModel.MatchedLiteral;
      symbol := 1;
      var matchByte, same := first, true;
      ghost var (i, before) := (0, C());
      rc.FirstSymbol();
      TreeSizes();
      while symbol < 0x100
        invariant 0 <= i <= n && Shl(1, i) <= symbol < Shl(2, i)
        invariant Shl(symbol + 1, n - i) <= 512
        invariant LzmaModel.MatchedLiteral(rc.input, before, base, 1, first, true, n)
               == LzmaModel.MatchedLiteral(rc.input, C(), base, symbol, matchByte, same, n - i)
        invariant rc.Budget(c0, probs[..], 1 + i, 0)
        decreases n - i
      {
        rc.TreeProgress(symbol, i, n);
        symbol, same := MatchedBit(base, symbol, matchByte, same, n - i, c0, 1 + i);
        matchByte := matchByte * 2;
        i := i + 1;
      }
      rc.TreeProgress(symbol, i, n);
      MatchedEnd(base, symbol, matchByte, same);
    }

    lemma MatchedEnd(base: nat, symbol: nat, matchByte: nat, same: bool)
      requires base + LITERAL_CODER_SIZE <= probs.Length && Shl(symbol + 1, 0) <= 512
      ensures LzmaModel.MatchedLiteral(rc.input, C(), base, symbol, matchByte, same, 0) == (symbol, C())
    {
    }

    method MatchedBit(base: nat, symbol: nat, matchByte: nat, same: bool, ghost k: nat, ghost c0: Coder, ghost m: nat)
      returns (next: nat, same': bool)
      requires base + LITERAL_CODER_SIZE <= probs.Length && k > 0 && Shl(symbol + 1, k) <= 512
      requires rc.Budget(c0, probs[..], m, 0) && Allowed(m + 1, 0)
      modifies rc`range, rc`code, rc`inPos, probs
      ensures (next == 2 * symbol || next == 2 * symbol + 1) && Shl(next + 1, k - 1) <= 512
      ensures LzmaModel.MatchedLiteral(rc.input, old(C()), base, symbol, matchByte, same, k)
           == LzmaModel.MatchedLiteral(rc.input, C(), base, next, matchByte * 2, same', k - 1)
      ensures rc.Budget(c0, probs[..], m + 1, 0)
    {
      hide Within, RangeCoder.Bit, Decides, Moves, LzmaModel.MatchBit, Bytes.Shl;
      TreeStep(symbol, k);
      var matchBit := MatchBit(matchByte);
      var bit := rc.Bit(probs, base + MatchedIndex(same, matchBit) + symbol, c0, m, 0);
      if bit {
        next := symbol * 2 + 1;
        same' := same && matchBit;
      } else {
        next := symbol * 2;
        same' := same && !matchBit;
      }
      ShlMonotone(next + 1, 2 * symbol + 2, k - 1);
    }

    method Length(base: nat, posState: nat, ghost c0: Coder, ghost m: nat)
      requires probs.Length == PROBS_TOTAL && base <= REP_LEN && posState < POS_STATES_MAX
      requires rc.Budget(c0, probs[..], m, 0) && m + 10 <= MODELLED_MAX
      modifies `len, rc`range, rc`code, rc`inPos, probs
      ensures (len, C()) == LzmaModel.Length(rc.input, old(C()), base, posState)
      ensures rc.Budget(c0, probs[..], m + 10, 0)
    {
      hide Within, RangeCoder.Bit, Decides, Moves, LzmaModel.Tree;
      TreeSizes();
      var b := rc.Bit(probs, base, c0, m, 0);
      var offset, limit;
      ghost var (n, used) := (3, 4);
      if !b {
        offset, limit, len := base + LEN_LOW + posState * 8, 8, MATCH_LEN_MIN;
      } else {
        used := 5;
        b := rc.Bit(probs, base + LEN_CHOICE2, c0, m + 1, 0);
        if !b {
          offset, limit, len := base + LEN_MID + posState * 8, 8, MATCH_LEN_MIN + 8;
        } else {
          offset, limit, len := base + LEN_HIGH, 256, MATCH_LEN_MIN + 8 + 8;
          n, used := 8, 10;
        }
      }
      var symbol := rc.BitTree(probs, offset, limit, n, c0, m + used - n, 0);
      len := len + symbol - limit;
      WithinMore(c0, C(), m + used, m + 10, 0);
    }

    method Distance(ghost c0: Coder)
      requires probs.Length == PROBS_TOTAL && len >= MATCH_LEN_MIN
      requires rc.Budget(c0, probs[..], 12, 0)
      modifies `rep0, rc`range, rc`code, rc`inPos, probs
      ensures (rep0, C()) == LzmaModel.Distance(rc.input, old(C()), len)
      ensures SymbolRead(c0)
    {
      hide Within, LzmaModel.Tree, LzmaModel.Extra;
      TreeSizes();
      var s := rc.BitTree(probs, DIST_SLOT + DistState(len) * 64, 64, 6, c0, 12, 0);
      var slot := s - 64;
      if slot < DIST_MODEL_START {
        rep0 := slot;
        BudgetRead(c0, 18, 0);
      } else {
        Extra(slot, c0);
      }
    }

    method Extra(slot: nat, ghost c0: Coder)
      requires probs.Length == PROBS_TOTAL && DIST_MODEL_START <= slot < 64
      requires rc.Budget(c0, probs[..], 18, 0)
      modifies `rep0, rc`range, rc`code, rc`inPos, probs
      ensures (rep0, C()) == LzmaModel.Extra(rc.input, old(C()), slot)
      ensures SymbolRead(c0)
    {
      hide Within, LzmaModel.Reverse, LzmaModel.DirectBits, Bytes.Shl;
      SlotBounds(slot);
      var limit := slot / 2 - 1;
      var dist := 2 + slot % 2;
      if slot < DIST_MODEL_END {
        var high := Shl(dist, limit);
        dist := rc.BitTreeReverse(probs, DIST_SPECIAL + high - slot - 1, high, limit, c0, 18, 0);
        BudgetRead(c0, 18 + limit, 0);
      } else {
        dist := rc.DirectBits(probs, dist, limit - ALIGN_BITS, c0, 18, 0);
        AlignFits(dist, 0);
        dist := rc.BitTreeReverse(probs, DIST_ALIGN, Shl(dist, ALIGN_BITS), ALIGN_BITS, c0, 18, limit - ALIGN_BITS);
        BudgetRead(c0, 22, limit - ALIGN_BITS);
      }
      rep0 := dist;
    }

    method NewMatch(posState: nat, ghost c0: Coder)
      requires probs.Length == PROBS_TOTAL && posState < POS_STATES_MAX && rc.Budget(c0, probs[..], 2, 0)
      modifies `state, `rep0, `rep1, `rep2, `rep3, `len, rc`range, rc`code, rc`inPos, probs
      ensures (len, M(), C()) == LzmaModel.NewMatch(rc.input, old(C()), old(M()), posState)
      ensures SymbolRead(c0)
    {
      hide LzmaModel.Length, LzmaModel.Distance, Within;
      state := StateMatch(state);
      rep3 := rep2;
      rep2 := rep1;
      rep1 := rep0;
      Length(MATCH_LEN, posState, c0, 2);
      Distance(c0);
    }

    method RepMatch(posState: nat, ghost c0: Coder)
      requires probs.Length == PROBS_TOTAL && posState < POS_STATES_MAX && rc.Budget(c0, probs[..], 2, 0)
      modifies `state, `rep0, `rep1, `rep2, `rep3, `len, rc`range, rc`code, rc`inPos, probs
      ensures (len, M(), C()) == LzmaModel.RepMatch(rc.input, old(C()), old(M()), posState)
      ensures SymbolRead(c0)
    {
      hide LzmaModel.Length, RangeCoder.Bit, Within, Decides, Moves;
      ghost var m := 4;
      var b := rc.Bit(probs, IS_REP0 + state, c0, 2, 0);
      if !b {
        b := rc.Bit(probs, IS_REP0_LONG + state * POS_STATES_MAX + posState, c0, 3, 0);
        if !b {
          state := StateShortRep(state);
          len := 1;
          BudgetRead(c0, 4, 0);
          return;
        }
      } else {
        var tmp;
        b := rc.Bit(probs, IS_REP1 + state, c0, 3, 0);
        if !b {
          tmp := rep1;
        } else {
          m := 5;
          b := rc.Bit(probs, IS_REP2 + state, c0, 4, 0);
          if !b {
            tmp := rep2;
          } else {
            tmp := rep3;
            rep3 := rep2;
          }
          rep2 := rep1;
        }
        rep1 := rep0;
        rep0 := tmp;
      }
      state := StateLongRep(state);
      Length(REP_LEN, posState, c0, m);
      BudgetRead(c0, m + 10, 0);
    }

    /** One symbol: decoded, and a literal also put; the copy of a match is still to do. */
    method DecodeSymbol() returns (isMatch: bool)
      requires Valid() && dict.pos < dict.limit && len == 0
      requires RANGE_MIN <= rc.range && rc.inPos + SYMBOL_BYTES <= |rc.input|
      modifies `state, `rep0, `rep1, `rep2, `rep3, `len, rc`range, rc`code, rc`inPos, probs
      modifies dict`pos, dict`full, dict`hist, dict.buf
      ensures probs as object != dict.buf && dict.Valid() && SymbolRead(old(C()))
      ensures var (a, m, c) := Symbol(rc.input, old(C()), old(M()), props, old(dict.hist));
              && C() == c && M() == m
              && isMatch == a.Copy?
              && (isMatch ==> len == a.len && dict.hist == old(dict.hist) && dict.pos == old(dict.pos))
              && (!isMatch ==> len == 0 && dict.hist == old(dict.hist) + [a.byte] && dict.pos == old(dict.pos) + 1)
              && (!isMatch ==> Valid())
    {
      hide Within, RangeCoder.Bit, Decides, Moves, LzmaModel.LiteralByte, LzmaModel.RepMatch, LzmaModel.NewMatch, Consistent, Bytes.Shl;
      ghost var c0 := C();
      WithinStart(c0);
      var posState := PositionState();
      isMatch := rc.Bit(probs, IS_MATCH + state * POS_STATES_MAX + posState, c0, 0, 0);
      if !isMatch {
        Literal(c0);
        BudgetRead(c0, 9, 0);
      } else {
        var isRep := rc.Bit(probs, IS_REP + state, c0, 1, 0);
        if isRep {
          RepMatch(posState, c0);
        } else {
          NewMatch(posState, c0);
        }
      }
    }

    method PositionState() returns (posState: nat)
      requires Valid()
      ensures posState == PosState(props, |dict.hist|) < POS_STATES_MAX
    {
      PosMod(props.pb);
      posState := dict.pos % (posMask + 1);
    }

    /** Where the reference run over the present input stands: normalised, with the pending match finished. */
    ghost function Settled(): Lz
      reads this, rc, probs, dict`hist
    {
      Lz(RangeCoder.Normalize(rc.input, C()), M(), LzCopy(dict.hist, rep0, len))
    }

    /** The size of the history when the dictionary limit is reached. */
    ghost function Room(): int
      reads dict
    {
      |dict.hist| + dict.limit - dict.pos
    }

    ghost predicate FailsAfter(first: Lz, k: nat)
      reads rc, this, dict
    {
      && props.Valid() && first.Valid()
      && var r := Run(rc.input, props, dict.size, first, k);
      r.Good? && BadDistance(rc.input, props, dict.size, r.lz)
    }

    /** lzma_main: decodes symbols until the dictionary limit or the input limit is reached. What it does is k
        steps of the reference run; it fails only where that run meets a bad distance. */
    method LzmaMain() returns (ok: bool, ghost k: nat)
      requires Valid() && TOP_VALUE <= rc.range && dict.pos <= dict.limit
      requires rc.inPos <= |rc.input| && rc.inLimit + IN_REQUIRED <= |rc.input|
      modifies `state, `rep0, `rep1, `rep2, `rep3, `len, rc`range, rc`code, rc`inPos, probs
      modifies dict`pos, dict`full, dict`hist, dict.buf
      ensures dict.Valid() && dict.pos <= dict.limit && old(dict.hist) <= dict.hist
      ensures |dict.hist| - |old(dict.hist)| == dict.pos - old(dict.pos)
      ensures ok ==> Valid() && TOP_VALUE <= rc.range
      ensures ok ==> Run(rc.input, props, dict.size, old(AsLz()), k) == Good(AsLz())
      ensures ok ==> old(rc.inPos) <= rc.inPos <= |rc.input|
      ensures ok ==> dict.pos == dict.limit || rc.inPos > rc.inLimit
      ensures ok && len > 0 ==> dict.pos == dict.limit
      ensures ok && old(dict.pos) < dict.limit && old(rc.inPos) <= rc.inLimit ==> old(dict.pos) < dict.pos
      ensures !ok ==> FailsAfter(old(AsLz()), k)
      ensures Below(rc.input, props, dict.size, old(AsLz()), if ok then k else k + 1, Room())
      ensures old(dict.pos) == dict.limit ==> ok && unchanged(this, rc`range, rc`code, rc`inPos, probs, dict, dict.buf)
    {
      hide Consistent, Symbol, Step, Run, Within, LzCopy, Ring, Bytes.Shl, FailsAfter, RangeCoder.Normalize, Below, Settled,
           Dict.Valid, Reaches, Props.Valid;
      ghost var (first, room) := (AsLz(), Room());
      ok, k := true, 0;
      BelowNone(rc.input, props, dict.size, first, room);
      if dict.HasSpace() && len > 0 {
        FinishMatch();
      }
      RunNone(first);
      ok, k := Symbols(first);
      if ok {
        Close();
      }
    }

    /** The loop: as many symbols as there is room and input for. */
    method Symbols(ghost first: Lz) returns (ok: bool, ghost k: nat)
      requires Valid() && TOP_VALUE <= rc.range && dict.pos <= dict.limit && (len > 0 ==> dict.pos == dict.limit) && first.Valid()
      requires rc.inPos <= |rc.input| && rc.inLimit + IN_REQUIRED <= |rc.input|
      requires Run(rc.input, props, dict.size, first, 0) == Good(Settled()) && Below(rc.input, props, dict.size, first, 0, Room())
      modifies `state, `rep0, `rep1, `rep2, `rep3, `len, rc`range, rc`code, rc`inPos, probs
      modifies dict`pos, dict`full, dict`hist, dict.buf
      ensures dict.Valid() && dict.pos <= dict.limit && old(dict.hist) <= dict.hist && Room() == old(Room())
      ensures |dict.hist| - |old(dict.hist)| == dict.pos - old(dict.pos)
      ensures ok ==> Valid() && (len > 0 ==> dict.pos == dict.limit) && (dict.pos == dict.limit || rc.inPos > rc.inLimit)
      ensures ok ==> RANGE_MIN <= rc.range && (TOP_VALUE <= rc.range || rc.inPos <= rc.inLimit + SYMBOL_BYTES)
      ensures ok ==> old(rc.inPos) <= rc.inPos && (rc.inPos <= rc.inLimit + SYMBOL_BYTES || rc.inPos == old(rc.inPos))
      ensures ok ==> old(dict.pos) < dict.pos || old(dict.pos) == dict.limit || old(rc.inPos) > rc.inLimit
      ensures ok ==> Run(rc.input, props, dict.size, first, k) == Good(Settled())
      ensures !ok ==> FailsAfter(first, k)
      ensures Below(rc.input, props, dict.size, first, if ok then k else k + 1, Room())
      ensures old(dict.pos) == dict.limit ==> ok && unchanged(this, rc`range, rc`code, rc`inPos, probs, dict, dict.buf)
    {
      hide Consistent, Symbol, Step, Run, Within, LzCopy, Ring, Bytes.Shl, FailsAfter, RangeCoder.Normalize, Below, Settled,
           Dict.Valid, Reaches, Props.Valid;
      ghost var room := Room();
      ok, k := true, 0;
      while dict.HasSpace() && rc.inPos <= rc.inLimit
        invariant ok && Valid()
        invariant old(dict.hist) <= dict.hist && |dict.hist| - |old(dict.hist)| == dict.pos - old(dict.pos)
        invariant dict.pos <= dict.limit && (len > 0 ==> dict.pos == dict.limit)
        invariant old(rc.inPos) <= rc.inPos && (dict.pos == old(dict.pos) ==> rc.inPos == old(rc.inPos))
        invariant RANGE_MIN <= rc.range && (TOP_VALUE <= rc.range || rc.inPos <= rc.inLimit + SYMBOL_BYTES)
        invariant rc.inPos <= rc.inLimit + SYMBOL_BYTES || rc.inPos == old(rc.inPos)
        invariant Run(rc.input, props, dict.size, first, k) == Good(Settled())
        invariant Below(rc.input, props, dict.size, first, k, room) && Room() == room
        invariant old(dict.pos) == dict.limit ==> unchanged(this, rc`range, rc`code, rc`inPos, probs, dict, dict.buf)
        decreases dict.limit - dict.pos
      {
        StillBelow(first, k);
        ok := OneSymbol(first, k);
        if !ok {
          return;
        }
        k := k + 1;
      }
    }

    lemma StillBelow(first: Lz, k: nat)
      requires props.Valid() && first.Valid() && len == 0 && dict.pos < dict.limit
      requires Run(rc.input, props, dict.size, first, k) == Good(Settled())
      requires Below(rc.input, props, dict.size, first, k, Room())
      ensures Below(rc.input, props, dict.size, first, k + 1, Room())
    {
      LzCopyZero(dict.hist, rep0);
      BelowNext(rc.input, props, dict.size, first, k, Room());
    }

    /** The normalisation before lzma_main returns. */
    method Close()
      requires props.Valid() && RANGE_MIN <= rc.range && (TOP_VALUE <= rc.range || rc.inPos < |rc.input|)
      modifies rc`range, rc`code, rc`inPos
      ensures AsLz() == old(Settled()) && TOP_VALUE <= rc.range
      ensures old(rc.inPos) <= rc.inPos && (rc.inPos <= old(rc.inPos) || rc.inPos <= |rc.input|)
      ensures TOP_VALUE <= old(rc.range) ==> unchanged(rc`range, rc`code, rc`inPos)
    {
      hide LzCopy;
      rc.Normalize(probs[..]);
    }

    lemma RunNone(z: Lz)
      requires Valid() && TOP_VALUE <= rc.range && z == AsLz()
      ensures Run(rc.input, props, dict.size, z, 0) == Good(Settled())
    {
    }

    /** Continues a match that the last call cut off. */
    method FinishMatch()
      requires Valid() && dict.pos < dict.limit && len > 0
      modifies `len, dict`pos, dict`full, dict`hist, dict.buf
      ensures Valid() && AsLz() == old(AsLz())
      ensures old(dict.pos) < dict.pos <= dict.limit && (len > 0 ==> dict.pos == dict.limit)
      ensures old(dict.hist) <= dict.hist && |dict.hist| - |old(dict.hist)| == dict.pos - old(dict.pos)
    {
      hide Consistent, LzCopy, Bytes.Shl;
      ghost var (all, was) := (len, dict.hist);
      var ok;
      ok, len := dict.Repeat(len, rep0);
      LzCopySplit(was, rep0, all - len, len);
    }

    lemma Stepped(first: Lz, k: nat, z: Lz, a: Action)
      requires props.Valid() && first.Valid() && z.Valid() && Run(rc.input, props, dict.size, first, k) == Good(z)
      requires Symbol(rc.input, z.c, z.m, props, z.hist) == (a, M(), C())
      requires a.Copy? ==> ValidDistance(z.hist, rep0, dict.size)
      requires RangeCoder.Normalize(rc.input, C()).pos <= |rc.input|
      requires match a
               case Put(byte) => len == 0 && dict.hist == z.hist + [byte]
               case Copy(all) => len <= all && dict.hist == LzCopy(z.hist, rep0, all - len)
      ensures Run(rc.input, props, dict.size, first, k + 1) == Good(Settled())
    {
      hide Symbol, Run, Step, LzCopy;
      if a.Copy? {
        LzCopySplit(z.hist, rep0, a.len - len, len);
      } else {
        LzCopyZero(dict.hist, rep0);
      }
      StepIs(rc.input, props, dict.size, z, a, M(), C());
      NextRun(rc.input, props, dict.size, first, k, z);
    }

    /** The body of the loop: one more step of the reference run from first, or the failure of that step. */
    method OneSymbol(ghost first: Lz, ghost k: nat) returns (ok: bool)
      requires Valid() && dict.pos < dict.limit && len == 0 && first.Valid()
      requires RANGE_MIN <= rc.range && rc.inPos <= rc.inLimit && rc.inLimit + IN_REQUIRED <= |rc.input|
      requires Run(rc.input, props, dict.size, first, k) == Good(Settled())
      modifies `state, `rep0, `rep1, `rep2, `rep3, `len, rc`range, rc`code, rc`inPos, probs
      modifies dict`pos, dict`full, dict`hist, dict.buf
      ensures dict.Valid() && dict.pos <= dict.limit && old(dict.hist) <= dict.hist
      ensures |dict.hist| - |old(dict.hist)| == dict.pos - old(dict.pos)
      ensures ok ==> Valid() && old(dict.pos) < dict.pos && (len > 0 ==> dict.pos == dict.limit)
      ensures ok ==> RANGE_MIN <= rc.range && old(rc.inPos) <= rc.inPos <= rc.inLimit + SYMBOL_BYTES
      ensures ok ==> Run(rc.input, props, dict.size, first, k + 1) == Good(Settled())
      ensures !ok ==> FailsAfter(first, k)
    {
      hide Consistent, Symbol, Step, Run, Within, LzCopy, Ring, Bytes.Shl, LzmaModel.HistGet, Dict.Represents, Dict.Valid, Perform, Props.Valid;
      ghost var (z, before, m0, hist) := (Settled(), C(), M(), dict.hist);
      LzCopyZero(hist, rep0);
      SymbolNormalized(rc.input, before, m0, props, hist);
      var isMatch := DecodeSymbol();
      ghost var all := len;
      ok := true;
      if isMatch {
        ok, len := dict.Repeat(len, rep0);
      }
      if ok {
        Stepped(first, k, z, if isMatch then Copy(all) else Put(dict.hist[|hist|]));
      }
    }
  }

  lemma SymbolNormalized(inp: seq<Byte>, c: Coder, m: Model, props: Props, hist: seq<Byte>)
    requires props.Valid() && |c.probs| == PROBS_TOTAL && 0x1_0000 <= c.range
    ensures Symbol(inp, RangeCoder.Normalize(inp, c), m, props, hist) == Symbol(inp, c, m, props, hist)
  {
    hide LiteralByte, LzmaModel.RepMatch, LzmaModel.NewMatch;
    var i := IS_MATCH + m.state * POS_STATES_MAX + PosState(props, |hist|);
    assert RangeCoder.Bit(inp, RangeCoder.Normalize(inp, c), i) == RangeCoder.Bit(inp, c, i);
  }

  lemma StepIs(inp: seq<Byte>, props: Props, dictSize: nat, z: Lz, a: Action, m: Model, c: Coder)
    requires props.Valid() && z.Valid() && Symbol(inp, z.c, z.m, props, z.hist) == (a, m, c)
    requires (a.Copy? ==> ValidDistance(z.hist, m.rep0, dictSize)) && RangeCoder.Normalize(inp, c).pos <= |inp|
    ensures Step(inp, props, dictSize, z) == Good(Lz(RangeCoder.Normalize(inp, c), m, Perform(z.hist, m, a)))
  {
    hide Symbol;
  }

  lemma NextRun(inp: seq<Byte>, props: Props, dictSize: nat, first: Lz, k: nat, z: Lz)
    requires props.Valid() && first.Valid() && Run(inp, props, dictSize, first, k) == Good(z)
    ensures Run(inp, props, dictSize, first, k + 1) == Step(inp, props, dictSize, z)
  {
    hide Step;
    RunSplit(inp, props, dictSize, first, k, 1);
    var s := Step(inp, props, dictSize, z);
    if s.Good? {
      assert Run(inp, props, dictSize, s.lz, 0) == s;
    }
  }
}
