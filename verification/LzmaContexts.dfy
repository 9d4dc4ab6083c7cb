/** What the probabilities of the symbol layer are for: each kind of decision has its own, so that decisions that have
    nothing to do with each other never share one. */
module LzmaContexts {
  import opened Bytes
  import opened LzmaModel

  /** A decision, by what it depends on; node is the place in a bit tree, part which third of a literal coder. */
  datatype Context =
    | IsMatch(state: nat, posState: nat)
    | IsRep(state: nat)
    | IsRep0(state: nat)
    | IsRep1(state: nat)
    | IsRep2(state: nat)
    | IsRep0Long(state: nat, posState: nat)
    | Slot(lengths: nat, node: nat)
    | Special(slot: nat, node: nat)
    | Align(node: nat)
    | Choice(rep: bool)
    | Choice2(rep: bool)
    | Low(rep: bool, posState: nat, node: nat)
    | Mid(rep: bool, posState: nat, node: nat)
    | High(rep: bool, node: nat)
    | OfLiteral(coder: nat, part: nat, node: nat)

  /** The number of bits that follow a slot's two highest ones. */
  function Footer(slot: nat): nat {
    if slot < 4 then 0 else slot / 2 - 1
  }

  predicate Proper(c: Context) {
    match c
    case IsMatch(s, p) => s < 12 && p < 16
    case IsRep(s) => s < 12
    case IsRep0(s) => s < 12
    case IsRep1(s) => s < 12
    case IsRep2(s) => s < 12
    case IsRep0Long(s, p) => s < 12 && p < 16
    case Slot(k, n) => k < 4 && 0 < n < 64
    case Special(slot, n) => 4 <= slot < 14 && 0 < n < Shl(1, Footer(slot))
    case Align(n) => 0 < n < 16
    case Choice(_) => true
    case Choice2(_) => true
    case Low(_, p, n) => p < 16 && 0 < n < 8
    case Mid(_, p, n) => p < 16 && 0 < n < 8
    case High(_, n) => 0 < n < 256
    case OfLiteral(k, part, n) => k < 16 && part < 3 && 0 < n < 256
  }

  function LengthBase(rep: bool): nat {
    if rep then REP_LEN else MATCH_LEN
  }

  /** Where the decoder keeps the probability. */
  function Index(c: Context): int {
    match c
    case IsMatch(s, p) => IS_MATCH + s * POS_STATES_MAX + p
    case IsRep(s) => IS_REP + s
    case IsRep0(s) => IS_REP0 + s
    case IsRep1(s) => IS_REP1 + s
    case IsRep2(s) => IS_REP2 + s
    case IsRep0Long(s, p) => IS_REP0_LONG + s * POS_STATES_MAX + p
    case Slot(k, n) => DIST_SLOT + k * 64 + n
    case Special(slot, n) => DIST_SPECIAL + Shl(2 + slot % 2, Footer(slot)) - slot - 1 + n
    case Align(n) => DIST_ALIGN + n
    case Choice(rep) => LengthBase(rep)
    case Choice2(rep) => LengthBase(rep) + LEN_CHOICE2
    case Low(rep, p, n) => LengthBase(rep) + LEN_LOW + p * 8 + n
    case Mid(rep, p, n) => LengthBase(rep) + LEN_MID + p * 8 + n
    case High(rep, n) => LengthBase(rep) + LEN_HIGH + n
    case OfLiteral(k, part, n) => LITERAL + k * LITERAL_CODER_SIZE + part * 0x100 + n
  }

  /** The kinds in the order in which they lie. */
  function Kind(c: Context): nat {
    match c
    case IsMatch(_, _) => 0
    case IsRep(_) => 1
    case IsRep0(_) => 2
    case IsRep1(_) => 3
    case IsRep2(_) => 4
    case IsRep0Long(_, _) => 5
    case Slot(_, _) => 6
    case Special(_, _) => 7
    case Align(_) => 8
    case Choice(_) => 9
    case Choice2(_) => 9
    case Low(_, _, _) => 9
    case Mid(_, _, _) => 9
    case High(_, _) => 9
    case OfLiteral(_, _, _) => 10
  }

  function Start(kind: nat): nat {
    if kind == 0 then IS_MATCH else if kind == 1 then IS_REP else if kind == 2 then IS_REP0 else if kind == 3 then IS_REP1
    else if kind == 4 then IS_REP2 else if kind == 5 then IS_REP0_LONG else if kind == 6 then DIST_SLOT
    else if kind == 7 then DIST_SPECIAL else if kind == 8 then DIST_ALIGN else if kind == 9 then MATCH_LEN
    else if kind == 10 then LITERAL else PROBS_TOTAL
  }

  /** The probabilities of a slot: between those of the slots before and after it. */
  lemma SpecialRange(slot: nat)
    requires 4 <= slot < 14
    ensures var (first, size) := (Shl(2 + slot % 2, Footer(slot)) - slot - 1, Shl(1, Footer(slot)));
            && first + 1 >= 0 && first + size <= 114
            && (slot < 13 ==> first + size <= Shl(2 + (slot + 1) % 2, Footer(slot + 1)) - (slot + 1))
  {
    assert slot == 4 || slot == 5 || slot == 6 || slot == 7 || slot == 8 || slot == 9 || slot == 10 || slot == 11 || slot == 12 || slot == 13;
  }

  lemma {:induction false} SpecialOrder(slot: nat, slot': nat)
    requires 4 <= slot < slot' < 14
    ensures Shl(2 + slot % 2, Footer(slot)) - slot - 1 + Shl(1, Footer(slot)) <= Shl(2 + slot' % 2, Footer(slot')) - slot'
    decreases slot' - slot
  {
    hide Shl;
    SpecialRange(slot);
    if slot + 1 < slot' {
      SpecialOrder(slot + 1, slot');
      FooterSize(slot + 1);
    }
  }

  lemma FooterSize(slot: nat)
    ensures Shl(1, Footer(slot)) > 0
  {
    ShlPower(1, Footer(slot));
  }

  lemma InOrder(c: Context)
    requires Proper(c)
    ensures Start(Kind(c)) <= Index(c) < Start(Kind(c) + 1)
  {
    hide Shl;
    if c.Special? {
      SpecialRange(c.slot);
    }
  }

  /** Different decisions have different probabilities, and there is room for all of them. */
  lemma Separate(c: Context, d: Context)
    requires Proper(c) && Proper(d)
    ensures 0 <= Index(c) < PROBS_TOTAL
    ensures Index(c) == Index(d) ==> c == d
  {
    hide Shl, Proper, Index;
    InOrder(c);
    InOrder(d);
    Ordered(Kind(c), Kind(d));
    if Index(c) == Index(d) {
      assert Kind(c) == Kind(d);
      SameKind(c, d);
    }
  }

  lemma Ordered(j: nat, k: nat)
    requires j <= 10 && k <= 10
    ensures j != k ==> Start(j + 1) <= Start(k) || Start(k + 1) <= Start(j)
    ensures Start(j + 1) <= PROBS_TOTAL && Start(k + 1) <= PROBS_TOTAL
  {
  }

  lemma SameKind(c: Context, d: Context)
    requires Proper(c) && Proper(d) && Kind(c) == Kind(d) && Index(c) == Index(d)
    ensures c == d
  {
    hide Shl;
    if c.Special? && d.Special? {
      if c.slot < d.slot {
        SpecialOrder(c.slot, d.slot);
      } else if d.slot < c.slot {
        SpecialOrder(d.slot, c.slot);
      }
    }
  }

  // ------------------------------------------------------- what the decisions depend on

  /** The n highest bits of a byte. */
  function Highest(b: Byte, n: nat): nat
    requires n <= 4
  {
    SmallPowers();
    b / Shl(1, 8 - n)
  }

  /** Literals share a coder exactly if the byte before agrees in its lc highest bits and the position in its lp lowest. */
  lemma SameCoder(props: Props, pos: nat, prev: Byte, pos': nat, prev': Byte)
    requires props.Valid()
    ensures Shl(1, props.lp) > 0
    ensures LiteralCoder(props, pos, prev) == LiteralCoder(props, pos', prev') <==>
      Highest(prev, props.lc) == Highest(prev', props.lc) && pos % Shl(1, props.lp) == pos' % Shl(1, props.lp)
  {
    hide Shl, LiteralCoder, Highest;
    SmallPowers();
    CoderIs(props, pos, prev);
    CoderIs(props, pos', prev');
    HighestFew(prev, props.lc);
    HighestFew(prev', props.lc);
    Sums(props.lc, Highest(prev, props.lc), pos % Shl(1, props.lp), Highest(prev', props.lc), pos' % Shl(1, props.lp));
  }

  lemma CoderIs(props: Props, pos: nat, prev: Byte)
    requires props.Valid()
    ensures Shl(1, props.lp) > 0
    ensures LiteralCoder(props, pos, prev) == 1846 + 768 * (Highest(prev, props.lc) + Shl(pos % Shl(1, props.lp), props.lc))
  {
    hide Shl;
    SmallPowers();
  }

  lemma HighestFew(prev: Byte, lc: nat)
    requires lc <= 4
    ensures Highest(prev, lc) < Shl(1, lc)
  {
    SmallPowers();
    assert lc == 0 || lc == 1 || lc == 2 || lc == 3 || lc == 4;
  }

  lemma ShlTimes(x: nat, n: nat)
    ensures Shl(x, n) == x * Shl(1, n)
  {
    ShlPower(x, n);
    ShlPower(1, n);
  }

  lemma Sums(n: nat, a: nat, x: nat, a': nat, x': nat)
    requires a < Shl(1, n) && a' < Shl(1, n)
    ensures a + Shl(x, n) == a' + Shl(x', n) <==> a == a' && x == x'
  {
    hide Shl;
    ShlTimes(x, n);
    ShlTimes(x', n);
    Mixed(Shl(1, n), a, x, a', x');
  }

  lemma Mixed(m: nat, a: nat, x: nat, a': nat, x': nat)
    requires a < m && a' < m
    ensures a + x * m == a' + x' * m <==> a == a' && x == x'
  {
    DivisionIs(a + x * m, m, x, a);
    DivisionIs(a' + x' * m, m, x', a');
  }

  /** Lengths share their slot tree only from five bytes on; the trees are in the order of the lengths. */
  lemma SameSlotTree(len: nat, len': nat)
    requires len >= 2 && len' >= 2
    ensures DistState(len) == Min(len, 5) - 2 && (DistState(len) == DistState(len') <==> len == len' || (len >= 5 && len' >= 5))
  {
  }

  /** A literal after a match: while its bits agree with those of the byte at the last distance, that byte's next bit
      chooses the part of the coder: the second one for 0, the third one for 1. */
  lemma MatchedParts(b: Byte, i: nat, same: bool, same': bool, bit: bool, bit': bool, node: nat, node': nat)
    requires i < 8 && 0 < node < 0x100 && 0 < node' < 0x100
    ensures MatchBit(Shl(2 * b, i)) <==> b / Shl(1, 7 - i) % 2 == 1
    ensures 0x100 <= MatchedIndex(same, bit) + node < 0x200 <==> same && !bit
    ensures 0x200 <= MatchedIndex(same, bit) + node < 0x300 <==> same && bit
    ensures MatchedIndex(same, bit) + node == MatchedIndex(same', bit') + node' <==>
      node == node' && same == same' && (same ==> bit == bit')
  {
    hide Shl;
    SmallPowers();
    ShlTimes(2 * b, i);
    assert i == 0 || i == 1 || i == 2 || i == 3 || i == 4 || i == 5 || i == 6 || i == 7;
    Shifted(b, Shl(1, i), Shl(1, 7 - i));
  }

  lemma Shifted(b: nat, m: nat, k: nat)
    requires m * k == 128 && m > 0 && k > 0
    ensures 2 * b * m / 256 == b / k
  {
    var (q, r) := (b / k, b % k);
    assert b * m == q * (m * k) + r * m;
    MulMonotone(m, r + 1, k);
    DivisionIs(2 * b * m, 256, q, 2 * (r * m));
  }
}
