/** The PowerPC branch filter. An encoder turns the relative target of every branch-and-link instruction into an
    absolute one by adding the position of the instruction; the decoder takes it away again. */
module PowerPc {
  import opened Bytes

  const FIELD := 0x400_0000

  function Instruction(b0: Byte, b1: Byte, b2: Byte, b3: Byte): Word {
    ((b0 * 0x100 + b1) * 0x100 + b2) * 0x100 + b3
  }

  function Bytes4(w: Word): (s: seq<Byte>)
    ensures |s| == 4
  {
    var (w2, w1) := (w / 0x100, w / 0x100 / 0x100);
    [w1 / 0x100, w1 % 0x100, w2 % 0x100, w % 0x100]
  }

  /** (w & 0xFC000003) == 0x48000001: opcode 18, absolute bit clear, link bit set */
  predicate IsBranch(w: Word) {
    w / FIELD == 0x12 && w % 4 == 1
  }

  /** w & 0x03FFFFFC */
  function Target(w: Word): (t: Word)
    ensures t % 4 == 0 && t < FIELD
  {
    w % FIELD - w % 4
  }

  /** The instruction with its target moved by d, in 32-bit arithmetic. */
  function Moved(w: Word, d: int): Word {
    if IsBranch(w) then 0x4800_0001 + Target((Target(w) + d) % U32) else w
  }

  lemma InstructionBytes(b0: Byte, b1: Byte, b2: Byte, b3: Byte)
    ensures Bytes4(Instruction(b0, b1, b2, b3)) == [b0, b1, b2, b3]
  {
    LastByte((b0 * 0x100 + b1) * 0x100 + b2, b3);
    LastByte(b0 * 0x100 + b1, b2);
    LastByte(b0, b1);
  }

  lemma LastByte(high: int, low: Byte)
    ensures (high * 0x100 + low) / 0x100 == high && (high * 0x100 + low) % 0x100 == low
  {
  }

  lemma BytesInstruction(w: Word)
    ensures var s := Bytes4(w); Instruction(s[0], s[1], s[2], s[3]) == w
  {
  }

  lemma FieldOfSum(t: int)
    ensures t % U32 % FIELD == t % FIELD && t % U32 % 4 == t % 4
  {
    var (q, r) := (t / U32, t % U32);
    assert t == r + FIELD * (64 * q) == r + 4 * (FIELD * 16 * q);
    MultipleMore(r, FIELD, 64 * q);
    MultipleMore(r, 4, FIELD * 16 * q);
  }

  lemma BranchStays(t: Word)
    requires t % 4 == 0 && t < FIELD
    ensures IsBranch(0x4800_0001 + t) && Target(0x4800_0001 + t) == t
  {
  }

  lemma MovedAndBack(w: Word, d: int)
    requires d % 4 == 0
    ensures Moved(Moved(w, d), -d) == w
  {
    if IsBranch(w) {
      hide Target;
      MovedBack(Target(w), d);
      BranchStays(Target(w));
      BranchStays(Target((Target(w) + d) % U32));
      assert w == 0x4800_0001 + Target(w) by { BranchParts(w); }
    }
  }

  lemma BranchParts(w: Word)
    requires IsBranch(w)
    ensures w == 0x4800_0001 + Target(w)
  {
  }

  lemma MovedBack(t: Word, d: int)
    requires t % 4 == 0 && t < FIELD && d % 4 == 0
    ensures Target((Target((t + d) % U32) - d) % U32) == t
  {
    hide Target;
    SumMultiple(t, d);
    TargetOf(t + d);
    Undone(t, d);
    TargetOf((t + d) % FIELD - d);
  }

  lemma SumMultiple(t: nat, d: int)
    requires t % 4 == 0 && d % 4 == 0
    ensures (t + d) % 4 == 0
  {
  }

  lemma Undone(t: nat, d: int)
    requires t % 4 == 0 && t < FIELD
    ensures ((t + d) % FIELD - d) % 4 == 0 && ((t + d) % FIELD - d) % FIELD == t
  {
    var nq := -((t + d) / FIELD);
    assert (t + d) % FIELD - d == t + FIELD * nq == t + 4 * (0x100_0000 * nq);
    MultipleMore(t, 4, 0x100_0000 * nq);
    MultipleMore(t, FIELD, nq);
  }

  lemma TargetOf(x: int)
    requires x % 4 == 0
    ensures Target(x % U32) == x % FIELD
  {
    FieldOfSum(x);
  }

  // ---------------------------------------------------------------- whole streams

  function Displacement(at: nat, add: bool): int {
    if add then at else 0 - at
  }

  /** Four bytes that start at a position, with the position added (by the encoder) or taken away. */
  function Group(s: seq<Byte>, at: nat, add: bool): (r: seq<Byte>)
    requires |s| == 4
    ensures |r| == 4
  {
    Bytes4(Moved(Instruction(s[0], s[1], s[2], s[3]), Displacement(at, add)))
  }

  /** One pass over data that starts at a position; the bytes after the last group of four stay as they are. */
  function Pass(s: seq<Byte>, at: nat, add: bool): (r: seq<Byte>)
    ensures |r| == |s|
    decreases |s|
  {
    if |s| < 4 then s else Group(s[..4], at, add) + Pass(s[4..], at + 4, add)
  }

  /** The 26-bit target field of an instruction, without its two lowest bits. */
  ghost function Field(b0: int, b1: int, b2: int, b3: int): int {
    0x100_0000 * (b0 % 4) + 0x1_0000 * b1 + 0x100 * b2 + b3 - b3 % 4
  }

  /** What happens to four bytes, in terms of the bytes: a branch with link and without the absolute bit stays one, and
      the position is added to its target or taken away, modulo 2^26; anything else stays as it is. */
  lemma GroupMoves(s: seq<Byte>, at: nat, add: bool)
    requires |s| == 4 && at % 4 == 0
    ensures var t := Group(s, at, add);
            if 0x48 <= s[0] < 0x4C && s[3] % 4 == 1 then
              && 0x48 <= t[0] < 0x4C && t[3] % 4 == 1
              && Field(t[0], t[1], t[2], t[3])
                 == (Field(s[0], s[1], s[2], s[3]) + if add then at else 0 - at) % 0x400_0000
            else t == s
  {
    hide Moved, Bytes4, Instruction;
    var w := Instruction(s[0], s[1], s[2], s[3]);
    var d: int := Displacement(at, add);
    FieldOf(s[0], s[1], s[2], s[3]);
    InstructionBytes(s[0], s[1], s[2], s[3]);
    assert s == [s[0], s[1], s[2], s[3]];
    var t := Bytes4(Moved(w, d));
    BytesInstruction(Moved(w, d));
    FieldOf(t[0], t[1], t[2], t[3]);
    MovedTarget(w, d);
  }

  lemma FieldOf(b0: Byte, b1: Byte, b2: Byte, b3: Byte)
    ensures var w := Instruction(b0, b1, b2, b3);
            && (IsBranch(w) <==> 0x48 <= b0 < 0x4C && b3 % 4 == 1)
            && Target(w) == Field(b0, b1, b2, b3)
  {
    var w := Instruction(b0, b1, b2, b3);
    var rest := 0x1_0000 * b1 + 0x100 * b2 + b3;
    assert w == 0x100_0000 * b0 + rest;
    DivisionIs(w, FIELD, b0 / 4, 0x100_0000 * (b0 % 4) + rest);
    DivisionIs(w, 4, 0x40_0000 * b0 + 0x4000 * b1 + 0x40 * b2 + b3 / 4, b3 % 4);
  }

  lemma MovedTarget(w: Word, d: int)
    requires d % 4 == 0
    ensures if IsBranch(w) then IsBranch(Moved(w, d)) && Target(Moved(w, d)) == (Target(w) + d) % 0x400_0000 else Moved(w, d) == w
  {
    if IsBranch(w) {
      hide Target;
      var t := Target(w);
      SumMultiple(t, d);
      TargetOf(t + d);
      BranchStays(Target((t + d) % U32));
    }
  }

  lemma GroupInverse(s: seq<Byte>, at: nat, add: bool)
    requires |s| == 4 && at % 4 == 0
    ensures Group(Group(s, at, add), at, !add) == s
  {
    hide Moved, Instruction, Bytes4;
    var w := Instruction(s[0], s[1], s[2], s[3]);
    var d: int := Displacement(at, add);
    BytesInstruction(Moved(w, d));
    MovedAndBack(w, d);
    InstructionBytes(s[0], s[1], s[2], s[3]);
    assert s == [s[0], s[1], s[2], s[3]];
  }

  /** What one direction does the other undoes, for every byte string. */
  lemma {:induction false} PassInverse(s: seq<Byte>, at: nat, add: bool)
    requires at % 4 == 0
    ensures Pass(Pass(s, at, add), at, !add) == s
    decreases |s|
  {
    hide Group;
    if |s| < 4 {
    } else {
      var g := Group(s[..4], at, add);
      GroupInverse(s[..4], at, add);
      PassInverse(s[4..], at + 4, add);
      assert Pass(s, at, add)[..4] == g && Pass(s, at, add)[4..] == Pass(s[4..], at + 4, add);
      assert s == s[..4] + s[4..];
    }
  }

  /** Data may be filtered in parts, if all parts but the last are whole groups. */
  lemma {:induction false} PassSplit(s: seq<Byte>, t: seq<Byte>, at: nat, add: bool)
    requires |s| % 4 == 0
    ensures Pass(s + t, at, add) == Pass(s, at, add) + Pass(t, at + |s|, add)
    decreases |s|
  {
    hide Group;
    if s == [] {
      assert s + t == t;
    } else {
      assert (s + t)[..4] == s[..4] && (s + t)[4..] == s[4..] + t;
      PassSplit(s[4..], t, at + 4, add);
    }
  }

  /** n rounded down to whole groups: n & ~3 */
  function Whole(n: nat): (r: nat)
    ensures r <= n < r + 4
  {
    n - n % 4
  }

  /** The last bytes, fewer than four, are untouched. */
  lemma PassTail(s: seq<Byte>, at: nat, add: bool)
    ensures var n := Whole(|s|); Pass(s, at, add) == Pass(s[..n], at, add) + s[n..]
  {
    hide Group;
    var n := Whole(|s|);
    PassSplit(s[..n], s[n..], at, add);
    assert s == s[..n] + s[n..];
  }

  /** The decoder's 32-bit position is enough. */
  lemma PositionWraps(w: Word, at: nat)
    ensures Moved(w, Displacement(at, false)) == Moved(w, Displacement(at % U32, false))
  {
    var t := Target(w);
    assert t - at == t - at % U32 + U32 * (0 - at / U32);
    MultipleMore(t - at % U32, U32, 0 - at / U32);
  }
}
