/** Machine words as numbers: what masks, complements and comparisons of 32-bit words mean for the numbers they
    stand for. */
module Words {
  import opened Bytes

  function Half(w: bv32): bv32 {
    w >> 1
  }

  predicate Odd(w: bv32) {
    w & 1 == 1
  }

  function And(w: bv32, m: bv32): bv32 {
    w & m
  }

  function AndNot(w: bv32, m: bv32): bv32 {
    w & !m
  }

  predicate AtMost(x: bv32, y: bv32) {
    x <= y
  }

  /** The number in the lowest n bits. */
  function Val(w: bv32, n: nat): nat {
    if n == 0 then 0 else 2 * Val(Half(w), n - 1) + if Odd(w) then 1 else 0
  }

  /** The k lowest bits are set, and no others. */
  predicate Ones(m: bv32, k: nat) {
    if k == 0 then m == 0 else Odd(m) && Ones(Half(m), k - 1)
  }

  // ------------------------------------------------------------------------ bits

  lemma HalfAnd(w: bv32, m: bv32)
    ensures Half(And(w, m)) == And(Half(w), Half(m))
  {
  }

  lemma HalfAndNot(w: bv32, m: bv32)
    ensures Half(AndNot(w, m)) == AndNot(Half(w), Half(m))
  {
  }

  lemma OddAnd(w: bv32, m: bv32)
    ensures Odd(And(w, m)) <==> Odd(w) && Odd(m)
  {
  }

  lemma OddAndNot(w: bv32, m: bv32)
    ensures Odd(AndNot(w, m)) <==> Odd(w) && !Odd(m)
  {
  }

  lemma AndZero(w: bv32)
    ensures And(w, 0) == 0
  {
  }

  lemma HalfZero()
    ensures Half(0) == 0 && !Odd(0)
  {
  }

  lemma HalfOrder(x: bv32, y: bv32)
    requires AtMost(x, y)
    ensures AtMost(Half(x), Half(y))
  {
  }

  lemma OddOrder(x: bv32, y: bv32)
    requires Half(x) == Half(y) && AtMost(x, y)
    ensures Odd(x) ==> Odd(y)
  {
  }

  lemma HalfAndOdd(x: bv32, y: bv32)
    requires Half(x) == Half(y) && (Odd(x) <==> Odd(y))
    ensures x == y
  {
  }

  lemma AtMostZero(x: bv32)
    requires AtMost(x, 0)
    ensures x == 0
  {
  }

  // --------------------------------------------------------------------- numbers

  lemma {:induction false} ValZero(n: nat)
    ensures Val(0, n) == 0
  {
    hide Half, Odd;
    if n == 0 {
    } else {
      HalfZero();
      ValZero(n - 1);
    }
  }

  lemma {:induction false} ValBound(w: bv32, n: nat)
    ensures Val(w, n) < Pow(2, n)
    decreases n
  {
    hide Half, Odd;
    if n == 0 {
    } else {
      ValBound(Half(w), n - 1);
    }
  }

  /** A mask of low bits is a remainder. */
  lemma {:induction false} ValMask(w: bv32, m: bv32, n: nat, k: nat)
    requires Ones(m, k) && k <= n
    ensures Val(And(w, m), n) == Val(w, n) % Pow(2, k)
    decreases n
  {
    hide Half, Odd, And;
    if k == 0 {
      AndZero(w);
      ValZero(n);
    } else {
      HalfAnd(w, m);
      OddAnd(w, m);
      ValMask(Half(w), Half(m), n - 1, k - 1);
      HalfRemainder(Val(Half(w), n - 1), if Odd(w) then 1 else 0, Pow(2, k - 1));
    }
  }

  lemma HalfRemainder(v: nat, b: nat, p: nat)
    requires b < 2 && p > 0
    ensures (2 * v + b) % (2 * p) == 2 * (v % p) + b
  {
    var (q, r) := (v / p, v % p);
    assert v == q * p + r;
    assert 2 * v + b == q * (2 * p) + (2 * r + b);
    DivisionIs(2 * v + b, 2 * p, q, 2 * r + b);
  }

  /** A mask and its complement take a number apart. */
  lemma {:induction false} ValSplit(w: bv32, m: bv32, n: nat)
    ensures Val(And(w, m), n) + Val(AndNot(w, m), n) == Val(w, n)
    decreases n
  {
    hide Half, Odd, And, AndNot;
    if n == 0 {
    } else {
      HalfAnd(w, m);
      HalfAndNot(w, m);
      OddAnd(w, m);
      OddAndNot(w, m);
      ValSplit(Half(w), Half(m), n - 1);
    }
  }

  lemma {:induction false} ValOnes(m: bv32, n: nat, k: nat)
    requires Ones(m, k) && k <= n
    ensures Val(m, n) == Pow(2, k) - 1
    decreases n
  {
    hide Half, Odd;
    if k == 0 {
      ValZero(n);
    } else {
      ValOnes(Half(m), n - 1, k - 1);
    }
  }

  /** Words of n bits are told apart by their numbers. */
  lemma {:induction false} ValInjective(x: bv32, y: bv32, m: bv32, n: nat)
    requires AtMost(x, m) && AtMost(y, m) && Ones(m, n) && Val(x, n) == Val(y, n)
    ensures x == y
    decreases n
  {
    hide Half, Odd, AtMost;
    if n == 0 {
      AtMostZero(x);
      AtMostZero(y);
    } else {
      HalfOrder(x, m);
      HalfOrder(y, m);
      ValInjective(Half(x), Half(y), Half(m), n - 1);
      HalfAndOdd(x, y);
    }
  }

  /** Words of n bits compare as their numbers do. */
  lemma {:induction false} ValOrder(x: bv32, y: bv32, m: bv32, n: nat)
    requires AtMost(x, y) && AtMost(x, m) && AtMost(y, m) && Ones(m, n)
    ensures Val(x, n) <= Val(y, n)
    decreases n
  {
    hide Half, Odd, AtMost;
    if n == 0 {
    } else {
      HalfOrder(x, y);
      HalfOrder(x, m);
      HalfOrder(y, m);
      ValOrder(Half(x), Half(y), Half(m), n - 1);
      SameHalves(x, y, m, n);
    }
  }

  lemma SameHalves(x: bv32, y: bv32, m: bv32, n: nat)
    requires n > 0 && AtMost(x, y) && AtMost(x, m) && AtMost(y, m) && Ones(m, n)
    ensures Val(Half(x), n - 1) == Val(Half(y), n - 1) && Odd(x) ==> Odd(y)
  {
    hide Half, Odd, AtMost;
    if Val(Half(x), n - 1) == Val(Half(y), n - 1) {
      HalfOrder(x, m);
      HalfOrder(y, m);
      ValInjective(Half(x), Half(y), Half(m), n - 1);
      OddOrder(x, y);
    }
  }

  // ------------------------------------------------------------- the masks that occur

  const ALL: bv32 := 0xFFFF_FFFF

  function Longer(m: bv32): bv32 {
    (m << 1) | 1
  }

  lemma LongerHalf(m: bv32)
    requires m <= 0x7FFF_FFFF
    ensures Half(Longer(m)) == m && Odd(Longer(m))
  {
  }

  lemma OneMore(m: bv32, k: nat)
    requires Ones(m, k) && m <= 0x7FFF_FFFF
    ensures Ones(Longer(m), k + 1)
  {
    hide Half, Odd, Longer;
    LongerHalf(m);
  }

  lemma FourTimes(m: bv32)
    ensures Longer(Longer(Longer(Longer(m)))) == (m << 4) | 0xF
  {
  }

  lemma LongerBound(m: bv32)
    requires m <= 0x0FFF_FFFF
    ensures Longer(m) <= 0x7FFF_FFFF && Longer(Longer(m)) <= 0x7FFF_FFFF && Longer(Longer(Longer(m))) <= 0x7FFF_FFFF
  {
  }

  lemma Smaller(m: bv32)
    requires m <= 0x0FFF_FFFF
    ensures m <= 0x7FFF_FFFF
  {
  }

  lemma FourMore(m: bv32, k: nat)
    requires Ones(m, k) && m <= 0x0FFF_FFFF
    ensures Ones((m << 4) | 0xF, k + 4)
  {
    hide Ones, Longer;
    Smaller(m);
    LongerBound(m);
    FourTimes(m);
    OneMore(m, k);
    OneMore(Longer(m), k + 1);
    OneMore(Longer(Longer(m)), k + 2);
    OneMore(Longer(Longer(Longer(m))), k + 3);
  }

  lemma NoOnes()
    ensures Ones(0, 0)
  {
  }

  /** Masks of whole hexadecimal digits. */
  lemma WholeMasks()
    ensures Ones(0xFF, 8) && Ones(0xFFF, 12) && Ones(0xF_FFFF, 20) && Ones(ALL, 32)
  {
    NoOnes();
    hide Ones;
    FourMore(0, 0);
    FourMore(0xF, 4);
    FourMore(0xFF, 8);
    FourMore(0xFFF, 12);
    FourMore(0xFFFF, 16);
    FourMore(0xF_FFFF, 20);
    FourMore(0xFF_FFFF, 24);
    FourMore(0xFFF_FFFF, 28);
  }

  lemma AllMost(x: bv32)
    ensures AtMost(x, ALL)
  {
  }

  lemma AndAll(m: bv32)
    ensures And(ALL, m) == m
  {
  }

  lemma Compare(x: bv32, y: bv32)
    requires AtMost(x, y)
    ensures Val(x, 32) <= Val(y, 32)
  {
    hide Ones, AtMost, Val;
    WholeMasks();
    AllMost(x);
    AllMost(y);
    ValOrder(x, y, ALL, 32);
  }

  lemma Powers()
    ensures Pow(2, 15) == 0x8000 && Pow(2, 16) == 0x1_0000 && Pow(2, 21) == 0x20_0000 && Pow(2, 22) == 0x40_0000
    ensures Pow(2, 32) == U32
  {
    assert Pow(2, 5) == 32 by {
      assert Pow(2, 2) == 4;
    }
    PowAdd(2, 5, 5);
    PowAdd(2, 5, 10);
    assert Pow(2, 16) == 2 * Pow(2, 15);
    PowAdd(2, 5, 16);
    assert Pow(2, 22) == 2 * Pow(2, 21);
    PowAdd(2, 16, 16);
  }

  /** The numbers at the ends of the range of k bits and a sign, from both sides. */
  lemma SignedEnds(low: bv32, wide: bv32, k: nat)
    requires Ones(low, k) && Ones(wide, k + 1) && And(wide, low) == low && k < 31
    ensures Val(low, 32) == Pow(2, k) - 1 && Val(AndNot(ALL, low), 32) == Pow(2, 32) - Pow(2, k)
    ensures Val(AndNot(wide, low), 32) == Pow(2, k)
    ensures Val(AndNot(ALL, AndNot(wide, low)), 32) == Pow(2, 32) - 1 - Pow(2, k)
  {
    hide Ones, Val, And, AndNot;
    WholeMasks();
    ValOnes(low, 32, k);
    ValOnes(wide, 32, k + 1);
    ValOnes(ALL, 32, 32);
    ValSplit(ALL, low, 32);
    ValSplit(wide, low, 32);
    ValSplit(ALL, AndNot(wide, low), 32);
    AndAll(low);
    AndAll(AndNot(wide, low));
  }
}
