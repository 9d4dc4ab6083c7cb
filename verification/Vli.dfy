/** Multibyte integers of section 1.2 of the .xz format: seven bits to a byte, lowest first, the highest bit set on all
    bytes but the last. */
module Vli {
  import opened Bytes

  const VLI_BYTES_MAX := 9

  function Encode(v: nat): (s: seq<Byte>)
    ensures s != []
    decreases v
  {
    if v < 0x80 then [v] else [v % 0x80 + 0x80] + Encode(v / 0x80)
  }

  /** Where a decoder stands inside an integer: bytes taken and their value. */
  datatype State = State(n: nat, value: nat)

  datatype Outcome = More(state: State) | Done(value: nat, used: nat) | Bad(used: nat)

  function Skip(o: Outcome, n: nat): Outcome {
    match o
    case More(_) => o
    case Done(v, used) => Done(v, used + n)
    case Bad(used) => Bad(used + n)
  }

  /** One byte after another; an encoding that is too long, or longer than it need be, is bad. */
  function Feed(st: State, s: seq<Byte>): Outcome
    decreases |s|
  {
    if s == [] then More(st) else
      var value := st.value + s[0] % 0x80 * Pow(0x80, st.n);
      if s[0] < 0x80 then
        if s[0] == 0 && st.n != 0 then Bad(1) else Done(value, 1)
      else if st.n + 1 == VLI_BYTES_MAX then Bad(1)
      else Skip(Feed(State(st.n + 1, value), s[1..]), 1)
  }

  /** The bytes may come in any number of parts. */
  lemma {:induction false} FeedParts(st: State, a: seq<Byte>, b: seq<Byte>)
    ensures Feed(st, a + b) == match Feed(st, a)
                               case More(mid) => Skip(Feed(mid, b), |a|)
                               case other => other
    decreases |a|
  {
    if a == [] {
      assert a + b == b;
      assert Skip(Feed(st, b), 0) == Feed(st, b);
    } else {
      assert (a + b)[1..] == a[1..] + b;
      var value := st.value + a[0] % 0x80 * Pow(0x80, st.n);
      FeedParts(State(st.n + 1, value), a[1..], b);
    }
  }

  /** A decision is made on the bytes used. */
  lemma {:induction false} FeedUsed(st: State, s: seq<Byte>)
    ensures match Feed(st, s)
            case More(_) => true
            case Done(_, used) => used <= |s| && Feed(st, s[..used]) == Feed(st, s)
            case Bad(used) => used <= |s| && Feed(st, s[..used]) == Feed(st, s)
    decreases |s|
  {
    if s != [] && s[0] >= 0x80 && st.n + 1 != VLI_BYTES_MAX {
      var value := st.value + s[0] % 0x80 * Pow(0x80, st.n);
      FeedUsed(State(st.n + 1, value), s[1..]);
      match Feed(st, s)
      case More(_) =>
      case Done(_, used) => assert s[..used][1..] == s[1..][..used - 1];
      case Bad(used) => assert s[..used][1..] == s[1..][..used - 1];
    }
  }

  lemma Prepended(b: Byte, e: seq<Byte>, tail: seq<Byte>)
    ensures [b] + e + tail == [b] + (e + tail)
  {
  }

  /** Every value below 2^63 is read back, whatever follows it. */
  lemma {:induction false} Decodes(st: State, v: nat, tail: seq<Byte>)
    requires st.n < VLI_BYTES_MAX && v < Pow(0x80, VLI_BYTES_MAX - st.n) && (st.n > 0 ==> v > 0)
    ensures Feed(st, Encode(v) + tail) == Done(st.value + v * Pow(0x80, st.n), |Encode(v)|)
    decreases v
  {
    hide Pow, Feed;
    if v >= 0x80 {
      var (low, high) := (v % 0x80, v / 0x80);
      Prepended(low + 0x80, Encode(high), tail);
      assert Encode(v) == [low + 0x80] + Encode(high);
      var value := st.value + low * Pow(0x80, st.n);
      HighFits(v, VLI_BYTES_MAX - st.n);
      PowStep(st.n + 1);
      Decodes(State(st.n + 1, value), high, tail);
      Recombine(low, high, Pow(0x80, st.n));
      FeedHigh(st, low, Encode(high) + tail);
    } else {
      FeedLast(st, v, tail);
    }
  }

  lemma FeedLast(st: State, b: Byte, t: seq<Byte>)
    requires b < 0x80 && (st.n > 0 ==> b > 0)
    ensures Feed(st, [b] + t) == Done(st.value + b * Pow(0x80, st.n), 1)
  {
  }

  lemma FeedHigh(st: State, low: nat, t: seq<Byte>)
    requires low < 0x80 && st.n + 1 != VLI_BYTES_MAX
    ensures Feed(st, [low + 0x80] + t) == Skip(Feed(State(st.n + 1, st.value + low * Pow(0x80, st.n)), t), 1)
  {
    hide Pow;
    LowSeven(low);
    assert ([low + 0x80] + t)[1..] == t;
  }

  lemma LowSeven(low: nat)
    requires low < 0x80
    ensures (low + 0x80) % 0x80 == low
  {
  }

  lemma PowStep(k: nat)
    requires k > 0
    ensures Pow(0x80, k) == 0x80 * Pow(0x80, k - 1) && Pow(0x80, k - 1) >= 1
  {
  }

  lemma HighFits(v: nat, k: nat)
    requires k > 0 && v < Pow(0x80, k) && v >= 0x80
    ensures k > 1 && 0 < v / 0x80 < Pow(0x80, k - 1)
  {
  }

  lemma Recombine(low: nat, high: nat, p: nat)
    ensures low * p + high * (0x80 * p) == (low + 0x80 * high) * p
  {
  }

  /** What is read was written: there is no second encoding of a value. */
  lemma {:induction false} DecodedIsEncoded(st: State, s: seq<Byte>)
    requires st.n < VLI_BYTES_MAX && Feed(st, s).Done?
    ensures var Done(value, used) := Feed(st, s);
            used <= |s| &&
            exists v: nat :: Reads(st, s, used, value, v)
    decreases |s|
  {
    hide Pow;
    var b := s[0];
    var value := st.value + b % 0x80 * Pow(0x80, st.n);
    PowStep(VLI_BYTES_MAX - st.n);
    if b < 0x80 {
      assert Reads(st, s, 1, value, b);
    } else {
      var next := State(st.n + 1, value);
      DecodedIsEncoded(next, s[1..]);
      var Done(total, used) := Feed(next, s[1..]);
      var high: nat :| Reads(next, s[1..], used, total, high);
      ReadsMore(st, s, used, total, high);
    }
  }

  lemma ReadsMore(st: State, s: seq<Byte>, used: nat, total: nat, high: nat)
    requires s != [] && s[0] >= 0x80 && st.n + 1 < VLI_BYTES_MAX
    requires Reads(State(st.n + 1, st.value + s[0] % 0x80 * Pow(0x80, st.n)), s[1..], used, total, high)
    ensures Reads(st, s, used + 1, total, s[0] % 0x80 + 0x80 * high)
  {
    hide Pow;
    var b := s[0];
    PowStep(st.n + 1);
    PowStep(VLI_BYTES_MAX - st.n);
    Recombine(b % 0x80, high, Pow(0x80, st.n));
    assert s[..used + 1] == [b] + s[1..][..used];
  }

  /** The first bytes of s encode v, which is what the integer's value grows by. */
  ghost predicate Reads(st: State, s: seq<Byte>, used: nat, value: nat, v: nat) {
    && used <= |s| && s[..used] == Encode(v) && value == st.value + v * Pow(0x80, st.n)
    && st.n < VLI_BYTES_MAX && v < Pow(0x80, VLI_BYTES_MAX - st.n) && (st.n > 0 ==> v > 0)
  }

  const FRESH := State(0, 0)

  /** Decoding inverts the encoder on all values below 2^63. */
  lemma RoundTrip(v: nat, tail: seq<Byte>)
    requires v < Pow(2, 63)
    ensures Feed(FRESH, Encode(v) + tail) == Done(v, |Encode(v)|)
  {
    SixtyThree();
    Decodes(FRESH, v, tail);
  }

  lemma SixtyThree()
    ensures Pow(0x80, 9) == Pow(2, 63) && Pow(0x80, 0) == 1
  {
    assert Pow(2, 7) == 0x80;
    Sevens(9);
  }

  lemma {:induction false} Sevens(n: nat)
    ensures Pow(0x80, n) == Pow(2, 7 * n)
  {
    if n == 0 {
    } else {
      Sevens(n - 1);
      PowAdd(2, 7, 7 * (n - 1));
      assert Pow(2, 7) == 0x80;
    }
  }

  /** It accepts one encoding of each of these values and nothing else. */
  lemma OneEncoding(s: seq<Byte>)
    requires Feed(FRESH, s).Done?
    ensures var Done(v, used) := Feed(FRESH, s); v < Pow(2, 63) && used <= |s| && s[..used] == Encode(v)
  {
    SixtyThree();
    DecodedIsEncoded(FRESH, s);
    var Done(value, used) := Feed(FRESH, s);
    var v: nat :| Reads(FRESH, s, used, value, v);
  }
}
