/** How many input bytes a bounded number of decisions can consume, whatever the input is. Every adaptive
    decision keeps at least a 67th of the range and every direct one 1000/2001 of it; a byte is read each time
    the range has lost eight bits, so the loss bounds the bytes. */
module Consumption {
  import opened Bytes
  import opened RangeCoder

  const MODELLED_MAX := 22
  const DIRECT_MAX := 26
  const SYMBOL_BYTES := 20
  const IN_REQUIRED := 21

  /** The range below which a decision on a normalised range never falls. */
  const RANGE_MIN := 253952

  /** The decisions of one symbol: 22 adaptive and 26 direct, or 23 adaptive ones and no direct one. */
  predicate Allowed(m: nat, d: nat) {
    (m <= MODELLED_MAX && d <= DIRECT_MAX) || (m <= MODELLED_MAX + 1 && d == 0)
  }

  ghost function Loss(m: nat, d: nat): nat {
    Pow(67, m) * Pow(2001, d)
  }

  ghost predicate Spent(c0: Coder, c: Coder, m: nat, d: nat) {
    && c0.pos <= c.pos
    && c0.range * Pow(256, c.pos - c0.pos) * Pow(1000, d) <= c.range * Loss(m, d)
  }

  /** Within one symbol started at c0, after m adaptive and d direct decisions. */
  ghost predicate Within(c0: Coder, c: Coder, m: nat, d: nat) {
    && RANGE_MIN <= c0.range && RANGE_MIN <= c.range
    && Spent(c0, c, m, d)
    && c.pos <= c0.pos + SYMBOL_BYTES
  }

  lemma WithinStart(c: Coder)
    requires RANGE_MIN <= c.range
    ensures Within(c, c, 0, 0)
  {
  }

  lemma WithinMore(c0: Coder, c: Coder, m: nat, m': nat, d: nat)
    requires Within(c0, c, m, d) && m <= m'
    ensures Within(c0, c, m', d)
  {
    SpentMoreModelled(c0, c, m, m', d);
  }

  lemma SpentNormalize(inp: seq<Byte>, c0: Coder, c: Coder, m: nat, d: nat)
    requires Spent(c0, c, m, d)
    ensures Spent(c0, Normalize(inp, c), m, d)
  {
    if c.range < TOP_VALUE {
      var p := Pow(256, c.pos - c0.pos);
      assert Pow(256, c.pos + 1 - c0.pos) == 256 * p;
      Times256(c0.range, p, Pow(1000, d), c.range, Loss(m, d));
    }
  }

  lemma Times256(a: nat, p: nat, t: nat, r: nat, l: nat)
    requires a * p * t <= r * l
    ensures a * (256 * p) * t <= (r * 256) * l
  {
  }

  lemma SpentModelled(c0: Coder, n: Coder, c: Coder, m: nat, d: nat)
    requires Spent(c0, n, m, d) && c.pos == n.pos && n.range <= 67 * c.range
    ensures Spent(c0, c, m + 1, d)
  {
    MulMonotone(Loss(m, d), n.range, 67 * c.range);
    assert Loss(m + 1, d) == 67 * Loss(m, d) by { assert 67 * Pow(67, m) * Pow(2001, d) == 67 * (Pow(67, m) * Pow(2001, d)); }
    assert Loss(m, d) * (67 * c.range) == c.range * (67 * Loss(m, d));
  }

  lemma SpentDirect(c0: Coder, n: Coder, c: Coder, m: nat, d: nat)
    requires Spent(c0, n, m, d) && c.pos == n.pos && 1000 * n.range <= 2001 * c.range
    ensures Spent(c0, c, m, d + 1)
  {
    var (a, t, l) := (c0.range * Pow(256, c.pos - c0.pos), Pow(1000, d), Loss(m, d));
    Times1000(a, t, n.range, c.range, l);
    LossDirect(m, d);
  }

  lemma LossDirect(m: nat, d: nat)
    ensures Loss(m, d + 1) == 2001 * Loss(m, d) && Pow(1000, d + 1) == 1000 * Pow(1000, d)
  {
    Regroup(2001, Pow(67, m), Pow(2001, d));
  }

  lemma Times1000(a: nat, t: nat, r: nat, r': nat, l: nat)
    requires a * t <= r * l && 1000 * r <= 2001 * r'
    ensures a * (1000 * t) <= r' * (2001 * l)
  {
  }

  lemma {:induction false} SpentMoreModelled(c0: Coder, c: Coder, m: nat, m': nat, d: nat)
    requires Spent(c0, c, m, d) && m <= m'
    ensures Spent(c0, c, m', d)
    decreases m'
  {
    if m == m' {
    } else {
      SpentMoreModelled(c0, c, m, m' - 1, d);
      SpentModelled(c0, c, c, m' - 1, d);
    }
  }

  lemma {:induction false} SpentMoreDirect(c0: Coder, c: Coder, m: nat, d: nat, d': nat)
    requires Spent(c0, c, m, d) && d <= d'
    ensures Spent(c0, c, m, d')
    decreases d'
  {
    if d == d' {
    } else {
      SpentMoreDirect(c0, c, m, d, d' - 1);
      SpentDirect(c0, c, c, m, d' - 1);
    }
  }

  /** After twenty bytes and at most 21 adaptive decisions the range cannot fall below 2^24 once more. */
  lemma NoFurtherByte(c0: Coder, c: Coder, m: nat, d: nat)
    requires Spent(c0, c, m, d) && RANGE_MIN <= c0.range && c.range < TOP_VALUE
    requires Allowed(m + 1, d)
    ensures c.pos < c0.pos + SYMBOL_BYTES
  {
    hide Bytes.Pow, Loss;
    var (m', d') := if d == 0 then (MODELLED_MAX, 0) else (MODELLED_MAX - 1, DIRECT_MAX);
    SpentMoreModelled(c0, c, m, m', d);
    SpentMoreDirect(c0, c, m', d, d');
    if c.pos >= c0.pos + SYMBOL_BYTES {
      PowMonotone(256, SYMBOL_BYTES, c.pos - c0.pos);
      var (p, q, t, l) := (Pow(256, SYMBOL_BYTES), Pow(256, c.pos - c0.pos), Pow(1000, d'), Loss(m', d'));
      LowerProduct(RANGE_MIN, c0.range, p, q, t);
      MulMonotone(l, c.range, TOP_VALUE);
      Numbers();
      assert false;
    }
  }

  lemma LowerProduct(a: nat, a': nat, p: nat, p': nat, t: nat)
    requires a <= a' && p <= p'
    ensures a * p * t <= a' * p' * t
  {
    MulMonotone(p, a, a');
    MulMonotone(a', p, p');
    MulMonotone(t, a * p, a' * p');
  }

  lemma Numbers()
    ensures TOP_VALUE * Loss(21, 26) < RANGE_MIN * Pow(256, 20) * Pow(1000, 26)
    ensures TOP_VALUE * Loss(22, 0) < RANGE_MIN * Pow(256, 20) * Pow(1000, 0)
  {
    assert Pow(67, 22) == 67 * Pow(67, 21) && Pow(2001, 0) == 1 && Pow(1000, 0) == 1;
    Power67();
    Power2001();
    Power256();
    Power1000();
  }

  lemma Power67()
    ensures Pow(67, 21) == 222623423334106740048017938136372833267
  {
    assert Pow(67, 0) == 1;
    assert Pow(67, 1) == 67;
    assert Pow(67, 2) == 4489;
    assert Pow(67, 3) == 300763;
    PowAdd(67, 2, 3);
    assert Pow(67, 5) == 1350125107;
    PowAdd(67, 5, 5);
    assert Pow(67, 10) == 1822837804551761449;
    PowAdd(67, 3, 3);
    assert Pow(67, 6) == 90458382169;
    PowAdd(67, 5, 6);
    assert Pow(67, 11) == 122130132904968017083;
    PowAdd(67, 10, 11);
    assert Pow(67, 21) == 222623423334106740048017938136372833267;
  }

  lemma Power2001()
    ensures Pow(2001, 26) == 67986753700423837217499077306980794087878088967816496809626613136825199220801300052001
  {
    assert Pow(2001, 0) == 1;
    assert Pow(2001, 1) == 2001;
    assert Pow(2001, 2) == 4004001;
    assert Pow(2001, 3) == 8012006001;
    PowAdd(2001, 3, 3);
    assert Pow(2001, 6) == 64192240160060012001;
    assert Pow(2001, 4) == 16032024008001;
    PowAdd(2001, 3, 4);
    assert Pow(2001, 7) == 128448672560280084014001;
    PowAdd(2001, 6, 7);
    assert Pow(2001, 13) == 8245408037230409691757865195442288312026001;
    PowAdd(2001, 13, 13);
    assert Pow(2001, 26) == 67986753700423837217499077306980794087878088967816496809626613136825199220801300052001;
  }

  lemma Power256()
    ensures Pow(256, 20) == 1461501637330902918203684832716283019655932542976
  {
    assert Pow(256, 0) == 1;
    assert Pow(256, 1) == 256;
    assert Pow(256, 2) == 65536;
    assert Pow(256, 3) == 16777216;
    PowAdd(256, 2, 3);
    assert Pow(256, 5) == 1099511627776;
    PowAdd(256, 5, 5);
    assert Pow(256, 10) == 1208925819614629174706176;
    PowAdd(256, 10, 10);
    assert Pow(256, 20) == 1461501637330902918203684832716283019655932542976;
  }

  lemma Power1000()
    ensures Pow(1000, 26) == 1000000000000000000000000000000000000000000000000000000000000000000000000000000
  {
    assert Pow(1000, 0) == 1;
    assert Pow(1000, 1) == 1000;
    assert Pow(1000, 2) == 1000000;
    assert Pow(1000, 3) == 1000000000;
    PowAdd(1000, 3, 3);
    assert Pow(1000, 6) == 1000000000000000000;
    assert Pow(1000, 4) == 1000000000000;
    PowAdd(1000, 3, 4);
    assert Pow(1000, 7) == 1000000000000000000000;
    PowAdd(1000, 6, 7);
    assert Pow(1000, 13) == 1000000000000000000000000000000000000000;
    PowAdd(1000, 13, 13);
    assert Pow(1000, 26) == 1000000000000000000000000000000000000000000000000000000000000000000000000000000;
  }

  /** One more adaptive decision stays within the symbol's twenty bytes. */
  lemma WithinBit(inp: seq<Byte>, c0: Coder, c: Coder, i: nat, m: nat, d: nat)
    requires Within(c0, c, m, d) && Allowed(m + 1, d) && i < |c.probs|
    ensures Within(c0, Bit(inp, c, i).1, m + 1, d)
    ensures Normalize(inp, c).pos <= c0.pos + SYMBOL_BYTES
  {
    var n := Normalize(inp, c);
    SpentNormalize(inp, c0, c, m, d);
    if c.range < TOP_VALUE {
      NoFurtherByte(c0, c, m, d);
    }
    var (q, p) := (n.range / BIT_MODEL_TOTAL, n.probs[i]);
    var b := Share(q, p);
    assert n.range <= 67 * (31 * q);
    SpentModelled(c0, n, Bit(inp, c, i).1, m, d);
  }

  lemma WithinDirect(inp: seq<Byte>, c0: Coder, c: Coder, m: nat, d: nat)
    requires Within(c0, c, m, d) && m < MODELLED_MAX && d < DIRECT_MAX
    ensures Within(c0, DirectBit(inp, c).1, m, d + 1)
    ensures Normalize(inp, c).pos <= c0.pos + SYMBOL_BYTES
  {
    var n := Normalize(inp, c);
    SpentNormalize(inp, c0, c, m, d);
    if c.range < TOP_VALUE {
      NoFurtherByte(c0, c, m, d);
    }
    SpentDirect(c0, n, DirectBit(inp, c).1, m, d);
  }
}
