/** CRC32 as in section 3.2.9 of IEEE 802.3: the definition divides bit by bit, lowest bit first; the program divides
    a byte at a time with a table. */
module Crc32 {
  type Octet = bv8

  const POLYNOMIAL: bv32 := 0xEDB8_8320

  /** One step of the reflected division: (r >> 1) ^ (poly & ~((r & 1) - 1)) */
  function Step(r: bv32): bv32 {
    (r >> 1) ^ (POLYNOMIAL & !((r & 1) - 1))
  }

  function Steps(r: bv32, n: nat): bv32
    decreases n
  {
    if n == 0 then r else Steps(Step(r), n - 1)
  }

  // ------------------------------------------------------------- the definition

  function Xor(x: bv32, y: bv32): bv32 {
    x ^ y
  }

  function Bit(b: bool): bv32 {
    if b then 1 else 0
  }

  function Not(x: bv32): bv32 {
    !x
  }

  /** The remainder after some message bits. */
  function Divide(bits: seq<bool>, r: bv32): bv32 {
    if bits == [] then r else Divide(bits[1..], Step(Xor(r, Bit(bits[0]))))
  }

  /** The n lowest bits, lowest first. */
  function LowBits(b: bv32, n: nat): seq<bool>
    decreases n
  {
    if n == 0 then [] else [b & 1 == 1] + LowBits(b >> 1, n - 1)
  }

  function MessageBits(s: seq<Octet>): seq<bool> {
    if s == [] then [] else LowBits(s[0] as bv32, 8) + MessageBits(s[1..])
  }

  /** The check value of a message that continues one with check value crc. */
  function Crc(s: seq<Octet>, crc: bv32): bv32 {
    Not(Divide(MessageBits(s), Not(crc)))
  }

  // ----------------------------------------------------------- the division is linear

  lemma StepCases(r: bv32)
    ensures r & 1 == 0 ==> Step(r) == r >> 1
    ensures r & 1 != 0 ==> Step(r) == (r >> 1) ^ POLYNOMIAL
  {
  }

  lemma StepLinear(x: bv32, y: bv32)
    ensures Step(x ^ y) == Step(x) ^ Step(y)
  {
    StepCases(x);
    StepCases(y);
    StepCases(x ^ y);
    assert (x ^ y) & 1 == (x & 1) ^ (y & 1);
    assert (x ^ y) >> 1 == (x >> 1) ^ (y >> 1);
  }

  lemma StepXor(x: bv32, y: bv32)
    ensures Step(Xor(x, y)) == Xor(Step(x), Step(y))
  {
    StepLinear(x, y);
  }

  lemma {:induction false} StepsLinear(x: bv32, y: bv32, n: nat)
    ensures Steps(Xor(x, y), n) == Xor(Steps(x, n), Steps(y, n))
    decreases n
  {
    hide Step, Xor;
    if n == 0 {
    } else {
      StepXor(x, y);
      StepsLinear(Step(x), Step(y), n - 1);
    }
  }

  function ShiftRight(b: bv32, n: nat): bv32
    decreases n
  {
    if n == 0 then b else ShiftRight(b >> 1, n - 1)
  }

  /** Dividing by n bits one after the other is n steps with all of them added first. */
  lemma {:induction false} BitsAtOnce(b: bv32, n: nat, r: bv32)
    ensures Divide(LowBits(b, n), r) == Xor(Steps(Xor(r, b), n), ShiftRight(b, n))
    decreases n
  {
    hide Step, Xor, Bit;
    if n == 0 {
      XorTwice(r, b);
    } else {
      var bits := LowBits(b, n);
      assert bits[1..] == LowBits(b >> 1, n - 1);
      BitsAtOnce(b >> 1, n - 1, Step(Xor(r, Bit(bits[0]))));
      BitFirst(r, b);
    }
  }

  lemma XorTwice(r: bv32, b: bv32)
    ensures Xor(Xor(r, b), b) == r
  {
  }

  /** The lowest bit goes into the step, the others come after it. */
  lemma BitFirst(r: bv32, b: bv32)
    ensures Xor(Step(Xor(r, Bit(b & 1 == 1))), b >> 1) == Step(Xor(r, b))
  {
    hide Step, Xor, Bit;
    var (low, high) := (b & 1, b & !1);
    LowAndRest(r, b);
    StepXor(Xor(r, low), high);
    EvenStep(high);
    RestShifted(b);
    LowBit(b);
  }

  lemma LowAndRest(r: bv32, b: bv32)
    ensures Xor(r, b) == Xor(Xor(r, b & 1), b & !1)
  {
  }

  lemma EvenStep(z: bv32)
    requires z & 1 == 0
    ensures Step(z) == z >> 1
  {
  }

  lemma RestShifted(b: bv32)
    ensures (b & !1) & 1 == 0 && (b & !1) >> 1 == b >> 1
  {
  }

  lemma LowBit(b: bv32)
    ensures Bit(b & 1 == 1) == b & 1
  {
  }

  /** Eight zero bits are shifted out without a subtraction. */
  lemma {:induction false} ZerosShiftOut(z: bv32, n: nat)
    requires Trailing(z, n)
    ensures Steps(z, n) == ShiftRight(z, n)
    decreases n
  {
    hide Step;
    if n == 0 {
    } else {
      EvenStep(z);
      ZerosShiftOut(z >> 1, n - 1);
    }
  }

  predicate Trailing(z: bv32, n: nat)
    decreases n
  {
    n == 0 || (z & 1 == 0 && Trailing(z >> 1, n - 1))
  }

  lemma ShiftEight(b: bv32)
    ensures ShiftRight(b, 8) == b >> 8
    ensures b & 0xFF == 0 ==> Trailing(b, 8)
  {
  }

  // ------------------------------------------------------------- what it detects

  /** No step loses information: the polynomial's highest bit tells what was shifted out. */
  lemma StepInjective(x: bv32, y: bv32)
    requires Step(x) == Step(y)
    ensures x == y
  {
  }

  lemma {:induction false} StepsInjective(x: bv32, y: bv32, n: nat)
    requires Steps(x, n) == Steps(y, n)
    ensures x == y
    decreases n
  {
    hide Step;
    if n == 0 {
    } else {
      StepsInjective(Step(x), Step(y), n - 1);
      StepInjective(x, y);
    }
  }

  lemma XorCancel(x: bv32, y: bv32, z: bv32)
    requires Xor(x, z) == Xor(y, z) || Xor(z, x) == Xor(z, y)
    ensures x == y
  {
  }

  lemma {:induction false} DivideInjective(bits: seq<bool>, r: bv32, r': bv32)
    requires Divide(bits, r) == Divide(bits, r')
    ensures r == r'
  {
    hide Step, Xor, Bit;
    if bits == [] {
    } else {
      var b := Bit(bits[0]);
      DivideInjective(bits[1..], Step(Xor(r, b)), Step(Xor(r', b)));
      StepInjective(Xor(r, b), Xor(r', b));
      XorCancel(r, r', b);
    }
  }

  /** Messages that differ only within 32 consecutive bits have different check values. The bits that differ are the
      n lowest of two words that agree above them. */
  lemma BurstDetected(before: seq<bool>, b: bv32, b': bv32, n: nat, after: seq<bool>, crc: bv32)
    requires b != b' && ShiftRight(b, n) == ShiftRight(b', n)
    ensures Not(Divide(before + LowBits(b, n) + after, crc)) != Not(Divide(before + LowBits(b', n) + after, crc))
  {
    hide Divide, LowBits, Steps, ShiftRight, Xor, Not;
    var r := Divide(before, crc);
    DivideAppend(before + LowBits(b, n), after, crc);
    DivideAppend(before + LowBits(b', n), after, crc);
    DivideAppend(before, LowBits(b, n), crc);
    DivideAppend(before, LowBits(b', n), crc);
    BitsAtOnce(b, n, r);
    BitsAtOnce(b', n, r);
    NotNot(Divide(before + LowBits(b, n) + after, crc));
    NotNot(Divide(before + LowBits(b', n) + after, crc));
    if Divide(before + LowBits(b, n) + after, crc) == Divide(before + LowBits(b', n) + after, crc) {
      DivideInjective(after, Divide(LowBits(b, n), r), Divide(LowBits(b', n), r));
      XorCancel(Steps(Xor(r, b), n), Steps(Xor(r, b'), n), ShiftRight(b, n));
      StepsInjective(Xor(r, b), Xor(r, b'), n);
      XorCancel(b, b', r);
    }
  }

  // ---------------------------------------------------------------- the table

  /** What the table holds for each value of the low byte. */
  lemma TableStep(b: Octet, r: bv32)
    ensures Xor(Steps((b as bv32 ^ r) & 0xFF, 8), r >> 8) == Divide(LowBits(b as bv32, 8), r)
  {
    hide Step, Steps, LowBits, Divide, Xor, ShiftRight;
    var w := b as bv32;
    var x := Xor(r, w);
    Fits(b);
    BitsAtOnce(w, 8, r);
    ShiftEight(w);
    XorZero(Steps(x, 8));
    Parts(x);
    ShiftEight(x & !0xFF);
    ZerosShiftOut(x & !0xFF, 8);
    StepsLinear(x & 0xFF, x & !0xFF, 8);
    HighPart(w, r);
    LowPart(w, r);
  }

  lemma Fits(b: Octet)
    ensures (b as bv32) >> 8 == 0
  {
  }

  lemma XorZero(x: bv32)
    ensures Xor(x, 0) == x
  {
  }

  lemma Parts(x: bv32)
    ensures x == Xor(x & 0xFF, x & !0xFF) && (x & !0xFF) & 0xFF == 0
  {
  }

  lemma HighPart(w: bv32, r: bv32)
    requires w >> 8 == 0
    ensures (Xor(r, w) & !0xFF) >> 8 == r >> 8
  {
  }

  lemma LowPart(w: bv32, r: bv32)
    ensures (w ^ r) & 0xFF == Xor(r, w) & 0xFF
  {
  }

  lemma DivideByte(s: seq<Octet>, r: bv32)
    requires s != []
    ensures Divide(MessageBits(s), r) == Divide(MessageBits(s[1..]), Divide(LowBits(s[0] as bv32, 8), r))
  {
    DivideAppend(LowBits(s[0] as bv32, 8), MessageBits(s[1..]), r);
  }

  lemma {:induction false} DivideAppend(a: seq<bool>, b: seq<bool>, r: bv32)
    ensures Divide(a + b, r) == Divide(b, Divide(a, r))
  {
    hide Step, Xor, Bit;
    if a == [] {
      assert a + b == b;
    } else {
      assert (a + b)[1..] == a[1..] + b;
      DivideAppend(a[1..], b, Step(Xor(r, Bit(a[0]))));
    }
  }

  lemma {:induction false} BitsAppend(s: seq<Octet>, t: seq<Octet>)
    ensures MessageBits(s + t) == MessageBits(s) + MessageBits(t)
  {
    hide LowBits;
    if s == [] {
      assert s + t == t;
    } else {
      assert (s + t)[1..] == s[1..] + t;
      BitsAppend(s[1..], t);
    }
  }

  /** A check value may be computed in parts. */
  lemma CrcAppend(s: seq<Octet>, t: seq<Octet>, crc: bv32)
    ensures Crc(s + t, crc) == Crc(t, Crc(s, crc))
  {
    hide MessageBits, Divide, Not;
    BitsAppend(s, t);
    DivideAppend(MessageBits(s), MessageBits(t), Not(crc));
    NotNot(Divide(MessageBits(s), Not(crc)));
  }

  lemma NotNot(x: bv32)
    ensures Not(Not(x)) == x
  {
  }

  class Table {
    const entries: array<bv32>

    ghost predicate Ready()
      reads entries
    {
      entries.Length == 256 && forall i :: 0 <= i < 256 ==> entries[i] == Steps(i as bv32, 8)
    }

    /** xz_crc32_init */
    constructor ()
      ensures Ready() && fresh(entries)
    {
      entries := new bv32[256];
      new;
      hide Steps;
      var i := 0;
      while i < 256
        invariant 0 <= i <= 256 && entries.Length == 256
        invariant forall k :: 0 <= k < i ==> entries[k] == Steps(k as bv32, 8)
      {
        var r := Entry(i as bv32);
        entries[i] := r;
        i := i + 1;
      }
    }

    static method Entry(i: bv32) returns (r: bv32)
      ensures r == Steps(i, 8)
    {
      hide Step;
      r := i;
      var j := 0;
      while j < 8
        invariant 0 <= j <= 8 && Steps(i, 8) == Steps(r, 8 - j)
      {
        r := Shifted(r);
        j := j + 1;
      }
    }

    static method Shifted(r: bv32) returns (s: bv32)
      ensures s == Step(r)
    {
      s := (r >> 1) ^ (POLYNOMIAL & !((r & 1) - 1));
    }

    /** The table entry the program looks up. */
    method Look(x: bv32) returns (r: bv32)
      requires Ready()
      ensures r == Steps(x & 0xFF, 8)
    {
      hide Steps;
      var low := x & 0xFF;
      IndexFits(x);
      ThereAndBack(low);
      r := entries[low as int];
    }

    lemma IndexFits(x: bv32)
      ensures 0 <= (x & 0xFF) as int < 256
    {
    }

    lemma ThereAndBack(x: bv32)
      ensures (x as int) as bv32 == x
    {
    }

    /** xz_crc32: the table-driven loop computes the check value as defined. */
    method Update(buf: seq<Octet>, init: bv32) returns (crc: bv32)
      requires Ready()
      ensures crc == Crc(buf, init)
    {
      hide Steps, Divide, LowBits, MessageBits, Xor, Not;
      crc := Complement(init);
      var i := 0;
      assert buf[0..] == buf;
      while i < |buf|
        invariant 0 <= i <= |buf| && Divide(MessageBits(buf), Not(init)) == Divide(MessageBits(buf[i..]), crc)
      {
        DivideByte(buf[i..], crc);
        assert buf[i..][1..] == buf[i + 1..] && buf[i..][0] == buf[i];
        crc := UpdateByte(buf[i], crc);
        i := i + 1;
      }
      Empty(buf[i..], crc);
      crc := Complement(crc);
    }

    static method Complement(x: bv32) returns (r: bv32)
      ensures r == Not(x)
    {
      r := !x;
    }

    method UpdateByte(b: Octet, crc: bv32) returns (r: bv32)
      requires Ready()
      ensures r == Divide(LowBits(b as bv32, 8), crc)
    {
      hide Steps, Divide, LowBits, Xor;
      TableStep(b, crc);
      var entry := Look(b as bv32 ^ crc);
      r := Combine(entry, crc >> 8);
    }

    static method Combine(x: bv32, y: bv32) returns (r: bv32)
      ensures r == Xor(x, y)
    {
      r := x ^ y;
    }

    lemma Empty(s: seq<Octet>, r: bv32)
      requires s == []
      ensures Divide(MessageBits(s), r) == r
    {
    }
  }
}
