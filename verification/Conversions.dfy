/** Bytes as numbers and as words of eight bits. */
module Conversions {

  /** The word of a number, counted up to. */
  lemma {:induction false} CountedTo(a: int) returns (b: bv8)
    requires 0 <= a < 0x100
    ensures b as int == a
    decreases a
  {
    if a == 0 {
      b := 0;
    } else {
      var c := CountedTo(a - 1);
      b := c + 1;
      OneMore(c);
    }
  }

  lemma OneMore(c: bv8)
    requires c as int < 0xFF
    ensures (c + 1) as int == c as int + 1
  {
  }

  lemma ByteAndBack(a: int)
    requires 0 <= a < 0x100
    ensures (a as bv8) as int == a
  {
    var b := CountedTo(a);
  }

  lemma OctetAndBack(b: bv8)
    ensures (b as int) as bv8 == b
  {
  }
}
