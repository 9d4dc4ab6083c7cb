/** Machine words, powers and big-endian digit strings shared by the whole model. */
module Bytes {

  type Byte = x: int | 0 <= x < 0x100

  const U32: int := 0x1_0000_0000

  type Word = x: int | 0 <= x < 0x1_0000_0000

  function Min(a: int, b: int): int {
    if a < b then a else b
  }

  function Max(a: int, b: int): int {
    if a < b then b else a
  }

  /** The byte at a position, with zeros after the end. */
  function At(s: seq<Byte>, i: nat): Byte {
    if i < |s| then s[i] else 0
  }

  function Pow(b: nat, e: nat): (r: nat)
    ensures b > 0 ==> r > 0
  {
    if e == 0 then 1 else b * Pow(b, e - 1)
  }

  lemma MulMonotone(a: nat, b: int, c: int)
    requires b <= c
    ensures a * b <= a * c
  {
  }

  /** Quotient and remainder are what divides it so. */
  lemma DivisionIs(x: int, d: nat, q: int, r: int)
    requires d > 0 && x == q * d + r && 0 <= r < d
    ensures x / d == q && x % d == r
  {
    if x / d < q {
      MulMonotone(d, x / d + 1, q);
    } else if x / d > q {
      MulMonotone(d, q + 1, x / d);
    }
  }

  /** Whole multiples do not change a remainder. */
  lemma MultipleMore(r: int, m: nat, q: int)
    requires m > 0
    ensures (r + m * q) % m == r % m
  {
    assert r + m * q == (r / m + q) * m + r % m;
    DivisionIs(r + m * q, m, r / m + q, r % m);
  }

  lemma {:induction false} PowAdd(b: nat, m: nat, n: nat)
    ensures Pow(b, m + n) == Pow(b, m) * Pow(b, n)
  {
    if m == 0 {
    } else {
      PowAdd(b, m - 1, n);
      Regroup(b, Pow(b, m - 1), Pow(b, n));
    }
  }

  lemma {:induction false} PowMonotone(b: nat, m: nat, n: nat)
    requires b > 0 && m <= n
    ensures Pow(b, m) <= Pow(b, n)
    decreases n
  {
    if m == n {
    } else {
      PowMonotone(b, m, n - 1);
      assert b * Pow(b, n - 1) >= Pow(b, n - 1);
    }
  }

  /** x << n */
  function Shl(x: nat, n: nat): (r: nat)
    ensures x <= r
    decreases n
  {
    if n == 0 then x else Shl(2 * x, n - 1)
  }

  lemma {:induction false} ShlAdd(x: nat, y: nat, n: nat)
    ensures Shl(x + y, n) == Shl(x, n) + Shl(y, n)
    decreases n
  {
    if n == 0 {
    } else {
      ShlAdd(2 * x, 2 * y, n - 1);
    }
  }

  lemma {:induction false} ShlShl(x: nat, a: nat, b: nat)
    ensures Shl(Shl(x, a), b) == Shl(x, a + b)
    decreases a
  {
    if a == 0 {
    } else {
      ShlShl(2 * x, a - 1, b);
    }
  }

  lemma ShlMonotone(x: nat, y: nat, n: nat)
    requires x <= y
    ensures Shl(x, n) <= Shl(y, n)
  {
    ShlAdd(x, y - x, n);
  }

  lemma ShlLonger(x: nat, m: nat, n: nat)
    requires m <= n
    ensures Shl(x, m) <= Shl(x, n)
  {
    ShlShl(x, m, n - m);
  }

  lemma ShlTwice(x: nat, n: nat)
    ensures Shl(2 * x, n) == 2 * Shl(x, n) == Shl(x, n + 1)
  {
    ShlAdd(x, x, n);
  }

  lemma ShlFour(x: nat)
    ensures Shl(x, 4) == 16 * x
  {
  }

  lemma {:induction false} ShlPower(x: nat, n: nat)
    ensures Shl(x, n) == x * Pow(2, n)
    decreases n
  {
    if n == 0 {
    } else {
      ShlPower(2 * x, n - 1);
      Regroup(2, x, Pow(2, n - 1));
    }
  }

  lemma Regroup(a: int, b: int, c: int)
    ensures (a * b) * c == b * (a * c) == a * (b * c)
  {
  }

  /** A digit string read as one number, most significant byte first. */
  function BigEndian(s: seq<Byte>): nat {
    if s == [] then 0 else s[0] * Pow(256, |s| - 1) + BigEndian(s[1..])
  }

  lemma {:induction false} BigEndianBound(s: seq<Byte>)
    ensures BigEndian(s) < Pow(256, |s|)
  {
    if s == [] {
    } else {
      BigEndianBound(s[1..]);
      MulMonotone(Pow(256, |s| - 1), s[0], 255);
    }
  }

  /** The lowest n digits of v, most significant first. */
  function Digits(v: nat, n: nat): (s: seq<Byte>)
    ensures |s| == n
  {
    if n == 0 then [] else Digits(v / 256, n - 1) + [v % 256]
  }

  lemma {:induction false} BigEndianSnoc(s: seq<Byte>, b: Byte)
    ensures BigEndian(s + [b]) == BigEndian(s) * 256 + b
  {
    if s == [] {
      assert s + [b] == [b];
      assert BigEndian([b]) == b * Pow(256, 0) + BigEndian([]);
    } else {
      BigEndianSnoc(s[1..], b);
      assert (s + [b])[1..] == s[1..] + [b];
      assert Pow(256, |s|) == 256 * Pow(256, |s| - 1);
    }
  }

  lemma {:induction false} DigitsRead(v: nat, n: nat)
    requires v < Pow(256, n)
    ensures BigEndian(Digits(v, n)) == v
  {
    if n == 0 {
    } else {
      DigitsRead(v / 256, n - 1);
      BigEndianSnoc(Digits(v / 256, n - 1), v % 256);
    }
  }

  lemma Regrouped<T>(a: seq<T>, b: seq<T>, c: seq<T>)
    ensures a + b + c == a + (b + c)
  {
  }

  lemma Split<T>(s: seq<T>, a: nat, b: nat, c: nat)
    requires a <= b <= c <= |s|
    ensures s[a..c] == s[a..b] + s[b..c]
  {
  }

  lemma SliceOfSlice(s: seq<Byte>, a: nat, b: nat, i: nat, j: nat)
    requires a <= b <= |s| && i <= j <= b - a
    ensures s[a..b][i..j] == s[a + i..a + j]
  {
    var (l, r) := (s[a..b][i..j], s[a + i..a + j]);
    assert |l| == |r|;
    forall k | 0 <= k < |l| ensures l[k] == r[k] {
      assert l[k] == s[a..b][i + k] == s[a + (i + k)];
    }
  }

  /** Writes a run of bytes into memory, as a copy or a device's transfer does. */
  method StoreAt(memory: array<Byte>, at: nat, data: seq<Byte>)
    requires at + |data| <= memory.Length
    modifies memory
    ensures memory[..at] == old(memory[..at]) && memory[at..at + |data|] == data
    ensures memory[at + |data|..] == old(memory[at + |data|..])
  {
    var i := 0;
    while i < |data|
      invariant 0 <= i <= |data| && memory[..at] == old(memory[..at]) && memory[at..at + i] == data[..i]
      invariant memory[at + |data|..] == old(memory[at + |data|..])
    {
      ghost var before := memory[..];
      memory[at + i] := data[i];
      assert memory[..] == before[at + i := data[i]];
      i := i + 1;
    }
  }

  /** Moves the bytes between two positions to the front. */
  method MoveDown(a: array<Byte>, from: nat, to: nat)
    requires from <= to <= a.Length
    modifies a
    ensures a[..] == old(a[from..to]) + old(a[to - from..])
  {
    var i := 0;
    while i < to - from
      invariant 0 <= i <= to - from
      invariant forall k :: 0 <= k < i ==> a[k] == old(a[from + k])
      invariant forall k :: i <= k < a.Length ==> a[k] == old(a[k])
    {
      a[i] := a[from + i];
      i := i + 1;
    }
  }
}
