/** The range decoder as the source writes it: an object whose fields are updated bit by bit, over an array of
    probabilities. Each method is the function of the same name applied to the state. */
module RangeDecoder {
  import opened Bytes
  import opened RangeCoder
  import opened Consumption
  import opened LzmaModel

  class RangeDec {
    var range: Word
    var code: Word
    var initBytesLeft: nat
    var input: seq<Byte>
    var inPos: nat
    var inLimit: nat

    constructor ()
      ensures initBytesLeft == INIT_BYTES && range == 0xFFFF_FFFF && code == 0 && input == [] && inPos == inLimit == 0
    {
      range, code, initBytesLeft, input, inPos, inLimit := 0xFFFF_FFFF, 0, INIT_BYTES, [], 0, 0;
    }

    ghost function State(probs: seq<Prob>): Coder
      reads this
    {
      Coder(range, code, inPos, probs)
    }

    /** Inside a symbol that started at c0, after m adaptive and d direct decisions, with room for the rest. */
    ghost predicate Budget(c0: Coder, probs: seq<Prob>, m: nat, d: nat)
      reads this
    {
      Within(c0, State(probs), m, d) && c0.pos + SYMBOL_BYTES <= |input|
    }

    method Reset()
      modifies `range, `code, `initBytesLeft
      ensures range == 0xFFFF_FFFF && code == 0 && initBytesLeft == INIT_BYTES
    {
      range, code, initBytesLeft := 0xFFFF_FFFF, 0, INIT_BYTES;
    }

    method Normalize(ghost probs: seq<Prob>)
      requires range < TOP_VALUE ==> inPos < |input|
      modifies `range, `code, `inPos
      ensures State(probs) == RangeCoder.Normalize(input, old(State(probs)))
    {
      if range < TOP_VALUE {
        range := range * 256;
        code := (code * 256 + input[inPos]) % U32;
        inPos := inPos + 1;
      }
    }

    method Bit(probs: array<Prob>, i: nat, ghost c0: Coder, ghost m: nat, ghost d: nat) returns (bit: bool)
      requires i < probs.Length && Budget(c0, probs[..], m, d) && Allowed(m + 1, d)
      modifies `range, `code, `inPos, probs
      ensures (bit, State(probs[..])) == RangeCoder.Bit(input, old(State(probs[..])), i)
      ensures Budget(c0, probs[..], m + 1, d)
      ensures Decides(input, old(State(probs[..])), i, bit, State(probs[..])) && Moves(old(probs[i]), probs[i], bit)
      ensures forall j :: 0 <= j < probs.Length && j != i ==> probs[j] == old(probs[j])
    {
      hide Decides, Moves;
      ghost var before := State(probs[..]);
      BitDecides(input, before, i);
      WithinBit(input, c0, before, i, m, d);
      Normalize(probs[..]);
      var p := probs[i];
      var bound := Bound(range, p);
      if code < bound {
        range := bound;
        probs[i] := Adapt(p, false);
        bit := false;
      } else {
        range := range - bound;
        code := code - bound;
        probs[i] := Adapt(p, true);
        bit := true;
      }
      assert probs[..] == before.probs[i := Adapt(p, bit)];
    }

    /** One bit of a tree with k bits to go. */
    method TreeBit(probs: array<Prob>, base: nat, symbol: nat, ghost k: nat, ghost c0: Coder, ghost m: nat, ghost d: nat)
      returns (bit: bool, next: nat)
      requires k > 0 && base + Shl(symbol + 1, k) <= probs.Length
      requires Budget(c0, probs[..], m, d) && Allowed(m + 1, d)
      modifies `range, `code, `inPos, probs
      ensures next == 2 * symbol + (if bit then 1 else 0) && base + Shl(next + 1, k - 1) <= probs.Length
      ensures Tree(input, old(State(probs[..])), base, symbol, k) == Tree(input, State(probs[..]), base, next, k - 1)
      ensures var (v, c) := Reverse(input, State(probs[..]), base, next, k - 1);
              Reverse(input, old(State(probs[..])), base, symbol, k) == ((if bit then 1 else 0) + 2 * v, c)
      ensures Budget(c0, probs[..], m + 1, d)
    {
      hide Within, RangeCoder.Bit, Decides, Moves;
      TreeStep(symbol, k);
      bit := Bit(probs, base + symbol, c0, m, d);
      if bit {
        next := symbol * 2 + 1;
      } else {
        next := symbol * 2;
      }
      ShlMonotone(next + 1, 2 * symbol + 2, k - 1);
    }

    method BitTree(probs: array<Prob>, base: nat, limit: nat, ghost n: nat, ghost c0: Coder, ghost m: nat, ghost d: nat)
      returns (symbol: nat)
      requires limit == Shl(1, n) && base + Shl(2, n) <= probs.Length
      requires Budget(c0, probs[..], m, d) && Allowed(m + n, d)
      modifies `range, `code, `inPos, probs
      ensures (symbol, State(probs[..])) == Tree(input, old(State(probs[..])), base, 1, n)
      ensures Budget(c0, probs[..], m + n, d)
    {
      hide Within, RangeCoder.Bit, Decides, Moves, Bytes.Shl, Tree, Reverse;
      symbol := 1;
      ghost var i := 0;
      ghost var first := State(probs[..]);
      FirstSymbol();
      while symbol < limit
        invariant 0 <= i <= n && Shl(1, i) <= symbol < Shl(2, i)
        invariant base + Shl(symbol + 1, n - i) <= probs.Length
        invariant Tree(input, first, base, 1, n) == Tree(input, State(probs[..]), base, symbol, n - i)
        invariant Budget(c0, probs[..], m + i, d)
        decreases n - i
      {
        TreeProgress(symbol, i, n);
        var bit;
        bit, symbol := TreeBit(probs, base, symbol, n - i, c0, m + i, d);
        i := i + 1;
      }
      TreeProgress(symbol, i, n);
      NoBits(State(probs[..]), base, symbol);
    }

    lemma NoBits(c: Coder, base: nat, symbol: nat)
      requires base + Shl(symbol + 1, 0) <= |c.probs|
      ensures Tree(input, c, base, symbol, 0) == (symbol, c) && Reverse(input, c, base, symbol, 0) == (0, c)
    {
    }

    lemma FirstSymbol()
      ensures Shl(1, 0) == 1 && Shl(2, 0) == 2
    {
    }

    lemma TreeProgress(symbol: nat, i: nat, n: nat)
      requires i <= n && Shl(1, i) <= symbol < Shl(2, i)
      ensures symbol < Shl(1, n) <==> i < n
      ensures Shl(1, i + 1) <= 2 * symbol && 2 * symbol + 1 < Shl(2, i + 1)
    {
      ShlTwice(1, i);
      ShlTwice(2, i);
      if i < n {
        ShlLonger(2, i, n - 1);
      }
    }

    method BitTreeReverse(probs: array<Prob>, base: nat, dest: nat, limit: nat, ghost c0: Coder, ghost m: nat, ghost d: nat)
      returns (dest': nat)
      requires base + Shl(2, limit) <= probs.Length
      requires Budget(c0, probs[..], m, d) && Allowed(m + limit, d)
      modifies `range, `code, `inPos, probs
      ensures var (v, c) := Reverse(input, old(State(probs[..])), base, 1, limit);
              dest' == dest + v && State(probs[..]) == c
      ensures Budget(c0, probs[..], m + limit, d)
    {
      hide Within, RangeCoder.Bit, Decides, Moves, Bytes.Shl, Tree, Reverse;
      var symbol, i := 1, 0;
      dest' := dest;
      ghost var all := Reverse(input, State(probs[..]), base, 1, limit);
      ReverseWeight(all.0, 0);
      while i < limit
        invariant 0 <= i <= limit
        invariant base + Shl(symbol + 1, limit - i) <= probs.Length
        invariant var (v, c) := Reverse(input, State(probs[..]), base, symbol, limit - i);
                  all.1 == c && dest + all.0 == dest' + Shl(v, i)
        invariant Budget(c0, probs[..], m + i, d)
      {
        var bit;
        bit, symbol := TreeBit(probs, base, symbol, limit - i, c0, m + i, d);
        ReverseWeight(Reverse(input, State(probs[..]), base, symbol, limit - i - 1).0, i);
        if bit {
          dest' := dest' + Shl(1, i);
        }
        i := i + 1;
      }
      NoBits(State(probs[..]), base, symbol);
      ReverseWeight(0, i);
    }

    /** Bit i of a value and the bits above it. */
    lemma ReverseWeight(v: nat, i: nat)
      ensures Shl(2 * v, i) == Shl(v, i + 1) && Shl(1 + 2 * v, i) == Shl(1, i) + Shl(v, i + 1)
      ensures Shl(v, 0) == v && (v == 0 ==> Shl(v, i) == 0)
    {
      ShlAdd(1, 2 * v, i);
      ShlAdd(0, 0, i);
    }

    method DirectBits(probs: array<Prob>, dest: nat, limit: nat, ghost c0: Coder, ghost m: nat, ghost d: nat)
      returns (dest': nat)
      requires Budget(c0, probs[..], m, d) && m < MODELLED_MAX && d + limit <= DIRECT_MAX
      modifies `range, `code, `inPos
      ensures (dest', State(probs[..])) == LzmaModel.DirectBits(input, old(State(probs[..])), dest, limit)
      ensures Budget(c0, probs[..], m, d + limit)
    {
      hide Within, RangeCoder.DirectBit, LzmaModel.DirectBits, Budget;
      var i := 0;
      dest' := dest;
      ghost var (first, ps) := (State(probs[..]), probs[..]);
      while i < limit
        invariant 0 <= i <= limit
        invariant LzmaModel.DirectBits(input, first, dest, limit)
               == LzmaModel.DirectBits(input, State(ps), dest', limit - i)
        invariant Budget(c0, ps, m, d + i)
      {
        OneDirectBit(State(ps), dest', limit - i);
        var bit := DirectBit(ps, c0, m, d + i);
        dest' := dest' * 2 + (if bit then 1 else 0);
        i := i + 1;
      }
      NoDirectBits(State(ps), dest');
      assert probs[..] == ps;
    }

    lemma OneDirectBit(c: Coder, dest: nat, n: nat)
      requires n > 0
      ensures var (b, c1) := RangeCoder.DirectBit(input, c);
              LzmaModel.DirectBits(input, c, dest, n) == LzmaModel.DirectBits(input, c1, dest * 2 + (if b then 1 else 0), n - 1)
    {
      hide RangeCoder.DirectBit;
    }

    lemma NoDirectBits(c: Coder, dest: nat)
      ensures LzmaModel.DirectBits(input, c, dest, 0) == (dest, c)
    {
    }

    /** The body of rc_direct's loop. */
    method DirectBit(ghost probs: seq<Prob>, ghost c0: Coder, ghost m: nat, ghost d: nat) returns (bit: bool)
      requires Budget(c0, probs, m, d) && m < MODELLED_MAX && d < DIRECT_MAX
      modifies `range, `code, `inPos
      ensures (bit, State(probs)) == RangeCoder.DirectBit(input, old(State(probs)))
      ensures Budget(c0, probs, m, d + 1)
    {
      hide Within;
      WithinDirect(input, c0, State(probs), m, d);
      Normalize(probs);
      range := range / 2;
      code := (code - range) % U32;
      bit := code < 0x8000_0000;
      if !bit {
        code := (code + range) % U32;
      }
    }
  }
}
