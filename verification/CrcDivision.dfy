/** The check value as a remainder: long division of the message by the generating polynomial of section 3.2.9 of
    IEEE 802.3, coefficient by coefficient. */
module CrcDivision {
  import opened Crc32

  /** The exponents of the generating polynomial. */
  const EXPONENTS: set<int> := {32, 26, 23, 22, 16, 12, 11, 10, 8, 7, 5, 4, 2, 1, 0}

  /** A dividend without its highest coefficient, less the polynomial's other coefficients; the highest come first. */
  function Subtract(s: seq<bool>): (r: seq<bool>)
    ensures |r| == |s|
  {
    seq(|s|, i requires 0 <= i < |s| => if i < 32 then s[i] != (31 - i in EXPONENTS) else s[i])
  }

  /** The remainder of dividing a polynomial over two elements, its highest coefficient first, by the generating one. */
  function Remainder(s: seq<bool>): (r: seq<bool>)
    requires |s| >= 32
    ensures |r| == 32
    decreases |s|
  {
    if |s| == 32 then s else Remainder(if s[0] then Subtract(s[1..]) else s[1..])
  }

  /** The first coefficients of s with those of t added. */
  function Added(s: seq<bool>, t: seq<bool>): (r: seq<bool>)
    ensures |r| == |s|
  {
    seq(|s|, i requires 0 <= i < |s| => if i < |t| then s[i] != t[i] else s[i])
  }

  function Zeros(n: nat): (s: seq<bool>)
    ensures |s| == n
  {
    seq(n, _ => false)
  }

  lemma {:induction false} LowLength(x: bv32, n: nat)
    ensures |LowBits(x, n)| == n
    decreases n
  {
    if n > 0 {
      LowLength(x >> 1, n - 1);
    }
  }

  lemma {:induction false} LowSnoc(x: bv32, n: nat)
    ensures LowBits(x, n + 1) == LowBits(x, n) + [ShiftRight(x, n) & 1 == 1]
    decreases n
  {
    if n > 0 {
      LowSnoc(x >> 1, n - 1);
    }
  }

  lemma {:induction false} BitsXor(x: bv32, y: bv32, n: nat)
    ensures |LowBits(x, n)| == |LowBits(y, n)| == n && LowBits(Xor(x, y), n) == Added(LowBits(x, n), LowBits(y, n))
    decreases n
  {
    hide Xor;
    if n > 0 {
      BitsXor(x >> 1, y >> 1, n - 1);
      XorShifts(x, y);
      XorLow(x, y);
      var (a, b) := (LowBits(x, n), LowBits(y, n));
      assert a[1..] == LowBits(x >> 1, n - 1) && b[1..] == LowBits(y >> 1, n - 1);
      assert Added(a, b) == [a[0] != b[0]] + Added(a[1..], b[1..]);
    }
  }

  lemma XorShifts(x: bv32, y: bv32)
    ensures Xor(x, y) >> 1 == Xor(x >> 1, y >> 1)
  {
    hide Xor;
    XorIs(x, y);
    XorIs(x >> 1, y >> 1);
    ShiftsXor(x, y);
  }

  lemma ShiftsXor(x: bv32, y: bv32)
    ensures (x ^ y) >> 1 == (x >> 1) ^ (y >> 1)
  {
  }

  lemma XorLow(x: bv32, y: bv32)
    ensures (Xor(x, y) & 1 == 1) == ((x & 1 == 1) != (y & 1 == 1))
  {
    assert Xor(x, y) & 1 == (x & 1) ^ (y & 1);
    assert x & 1 == 0 || x & 1 == 1;
    assert y & 1 == 0 || y & 1 == 1;
  }

  /** One place on: the coefficient that was first is gone, and a zero comes last. */
  lemma BitsOn(x: bv32)
    ensures |LowBits(x, 32)| == 32
    ensures LowBits(x, 32)[1..] + [false] == LowBits(x >> 1, 32) && LowBits(x, 32)[0] == (x & 1 == 1)
  {
    LowLength(x, 32);
    LowSnoc(x >> 1, 31);
    TopShifted(x);
    assert LowBits(x, 32)[1..] == LowBits(x >> 1, 31);
  }

  lemma {:induction false} ShiftMore(x: bv32, m: nat, n: nat)
    ensures ShiftRight(x, m + n) == ShiftRight(ShiftRight(x, m), n)
    decreases m
  {
    if m > 0 {
      ShiftMore(x >> 1, m - 1, n);
    }
  }

  lemma TopShifted(x: bv32)
    ensures ShiftRight(x >> 1, 31) & 1 != 1
  {
    hide ShiftRight;
    Eights(x >> 1);
    LastSeven(x);
  }

  lemma Eights(y: bv32)
    ensures ShiftRight(y, 31) == ShiftRight(y >> 8 >> 8 >> 8, 7)
  {
    hide ShiftRight, Trailing;
    ShiftMore(y, 8, 23);
    ShiftEight(y);
    var z := y >> 8;
    ShiftMore(z, 8, 15);
    ShiftEight(z);
    var w := z >> 8;
    ShiftMore(w, 8, 7);
    ShiftEight(w);
  }

  lemma LastSeven(x: bv32)
    ensures ShiftRight(x >> 1 >> 8 >> 8 >> 8, 7) == 0
  {
  }

  /** Four coefficients at a time. */
  lemma Four(x: bv32, n: nat)
    ensures LowBits(x, n + 4) == [x & 1 == 1, x & 2 == 2, x & 4 == 4, x & 8 == 8] + LowBits(x >> 4, n)
  {
    hide LowBits;
    var y := x >> 1 >> 1;
    Two(x, n + 2);
    Two(y, n);
    FourShifts(x);
  }

  lemma Two(x: bv32, n: nat)
    ensures LowBits(x, n + 2) == [x & 1 == 1, (x >> 1) & 1 == 1] + LowBits(x >> 1 >> 1, n)
  {
    var y := x >> 1;
    assert LowBits(x, n + 2) == [x & 1 == 1] + LowBits(y, n + 1);
    assert LowBits(y, n + 1) == [y & 1 == 1] + LowBits(y >> 1, n);
  }

  lemma FourShifts(x: bv32)
    ensures (x >> 1) & 1 == 1 <==> x & 2 == 2
    ensures (x >> 1 >> 1) & 1 == 1 <==> x & 4 == 4
    ensures (x >> 1 >> 1 >> 1) & 1 == 1 <==> x & 8 == 8
    ensures x >> 1 >> 1 >> 1 >> 1 == x >> 4
  {
  }

  /** The reflected polynomial of the division step has just these coefficients. */
  lemma Coefficients()
    ensures LowBits(POLYNOMIAL, 32) == seq(32, i requires 0 <= i < 32 => 31 - i in EXPONENTS)
  {
    hide LowBits;
    Four(0xEDB8_8320, 28);
    Four(0x0EDB_8832, 24);
    Four(0x00ED_B883, 20);
    Four(0x000E_DB88, 16);
    Four(0x0000_EDB8, 12);
    Four(0x0000_0EDB, 8);
    Four(0x0000_00ED, 4);
    Four(0x0000_000E, 0);
    LowLength(0, 0);
  }

  /** One division step is one place of the long division. */
  lemma StepDivides(w: bv32)
    ensures LowBits(Step(w), 32) == (if LowBits(w, 32)[0] then Subtract(LowBits(w, 32)[1..] + [false]) else LowBits(w, 32)[1..] + [false])
    ensures |LowBits(w, 32)| == 32
  {
    hide LowBits, Step, Xor;
    BitsOn(w);
    StepCases(w);
    if w & 1 == 1 {
      BitsXor(w >> 1, POLYNOMIAL, 32);
      Coefficients();
      assert Step(w) == Xor(w >> 1, POLYNOMIAL) by { XorIs(w >> 1, POLYNOMIAL); }
    }
  }

  lemma XorIs(x: bv32, y: bv32)
    ensures Xor(x, y) == x ^ y
  {
  }

  /** The register holds the remainder: of the message with thirty-two zeros behind it, and what the register held
      before added to its first coefficients. */
  lemma {:induction false} DivideIsLong(bits: seq<bool>, r: bv32)
    ensures |bits + Zeros(32)| >= 32
    ensures LowBits(Divide(bits, r), 32) == Remainder(Added(bits + Zeros(32), LowBits(r, 32)))
    decreases |bits|
  {
    hide LowBits, Step, Xor, Remainder, Crc32.Bit;
    LowLength(r, 32);
    var d := Added(bits + Zeros(32), LowBits(r, 32));
    if bits == [] {
      assert d == LowBits(r, 32);
      RemainderDone(d);
    } else {
      var w := Xor(r, Crc32.Bit(bits[0]));
      BitsXor(r, Crc32.Bit(bits[0]), 32);
      OneBit(bits[0]);
      StepDivides(w);
      DivideIsLong(bits[1..], Step(w));
      RemainderNext(d);
      assert (bits + Zeros(32))[1..] == bits[1..] + Zeros(32);
      NextDividend(bits + Zeros(32), LowBits(r, 32));
    }
  }

  /** The first coefficient of the dividend and what is left of it, by those of the register. */
  lemma NextDividend(s: seq<bool>, low: seq<bool>)
    requires |s| > 32 == |low|
    ensures var (d, w) := (Added(s, low), Added(low, [s[0]] + Zeros(31)));
            && w[0] == d[0]
            && Added(s[1..], if w[0] then Subtract(w[1..] + [false]) else w[1..] + [false]) == if d[0] then Subtract(d[1..]) else d[1..]
  {
    var (d, w) := (Added(s, low), Added(low, [s[0]] + Zeros(31)));
    assert w[1..] == low[1..];
    var left := if w[0] then Subtract(w[1..] + [false]) else w[1..] + [false];
    assert Added(s[1..], left) == if d[0] then Subtract(d[1..]) else d[1..];
  }

  lemma RemainderDone(d: seq<bool>)
    requires |d| == 32
    ensures Remainder(d) == d
  {
  }

  lemma RemainderNext(d: seq<bool>)
    requires |d| > 32
    ensures Remainder(d) == Remainder(if d[0] then Subtract(d[1..]) else d[1..])
  {
  }

  lemma OneBit(b: bool)
    ensures LowBits(Crc32.Bit(b), 32) == [b] + Zeros(31)
  {
    ZeroBits(31);
    assert Crc32.Bit(b) >> 1 == 0 && (Crc32.Bit(b) & 1 == 1) == b;
  }

  function Ones(n: nat): (s: seq<bool>)
    ensures |s| == n
  {
    seq(n, _ => true)
  }

  lemma NotIs(x: bv32)
    ensures Not(x) == Xor(x, 0xFFFF_FFFF)
  {
  }

  lemma OneBits()
    ensures LowBits(0xFFFF_FFFF, 32) == Ones(32)
  {
    hide LowBits;
    Four(0xFFFF_FFFF, 28);
    Four(0x0FFF_FFFF, 24);
    Four(0x00FF_FFFF, 20);
    Four(0x000F_FFFF, 16);
    Four(0x0000_FFFF, 12);
    Four(0x0000_0FFF, 8);
    Four(0x0000_00FF, 4);
    Four(0x0000_000F, 0);
    LowLength(0, 0);
  }

  /** The check value of a message, lowest bit of each byte first: its first thirty-two bits are complemented, it is
      divided with thirty-two zeros behind it, and the remainder is complemented. */
  lemma CrcIsRemainder(s: seq<Octet>)
    ensures |MessageBits(s) + Zeros(32)| >= 32
    ensures LowBits(Crc(s, 0), 32) == Added(Remainder(Added(MessageBits(s) + Zeros(32), Ones(32))), Ones(32))
  {
    hide LowBits, Remainder, MessageBits, Divide, Not, Xor;
    var r := Divide(MessageBits(s), Not(0));
    DivideIsLong(MessageBits(s), Not(0));
    NotIs(0);
    NotIs(r);
    OneBits();
    ZeroBits(32);
    BitsXor(0, 0xFFFF_FFFF, 32);
    BitsXor(r, 0xFFFF_FFFF, 32);
    assert Added(Zeros(32), Ones(32)) == Ones(32);
  }

  lemma {:induction false} ZeroBits(n: nat)
    ensures LowBits(0, n) == Zeros(n)
    decreases n
  {
    if n > 0 {
      ZeroBits(n - 1);
    }
  }
}
