/** The fragment list: a file is laid together from fragments, and where they overlap the one listed first counts. */
module Fragments {
  import opened Bytes

  /** A stretch of a file from an offset on, and what the device holds for it; some fragments are served by the device
      the program runs from, others are not. */
  datatype Fragment = Fragment(file: nat, offset: nat, data: seq<Byte>, here: bool)

  datatype Found = Missing | At(index: nat, offset: nat, size: nat)

  predicate Aligned(fs: seq<Fragment>) {
    forall i :: 0 <= i < |fs| ==>
      && fs[i].offset % 32 == 0 && |fs[i].data| % 32 == 0 && 0 < |fs[i].data| && fs[i].offset + |fs[i].data| <= U32 - 64
  }

  predicate Covers(f: Fragment, file: nat, p: nat) {
    f.file == file && f.offset <= p < f.offset + |f.data|
  }

  /** The first fragment, from the i-th on, that covers a position. */
  function First(fs: seq<Fragment>, file: nat, p: nat, i: nat): (k: int)
    requires i <= |fs|
    ensures k == -1 || (i <= k < |fs| && Covers(fs[k], file, p))
    ensures forall j :: i <= j < |fs| && (j < k || k == -1) ==> !Covers(fs[j], file, p)
    decreases |fs| - i
  {
    if i == |fs| then -1 else if Covers(fs[i], file, p) then i else First(fs, file, p, i + 1)
  }

  /** The file's byte at a position, if it is on this device. */
  function ByteAt(fs: seq<Fragment>, file: nat, p: nat): Byte
    requires Here(fs, file, p)
  {
    var k := First(fs, file, p, 0);
    fs[k].data[p - fs[k].offset]
  }

  predicate Here(fs: seq<Fragment>, file: nat, p: nat) {
    var k := First(fs, file, p, 0);
    k != -1 && fs[k].here
  }

  /** OSRoundUp32B of a 32-bit difference */
  function RoundUp32(x: int): nat {
    (x + 31) % U32 / 32 * 32
  }

  lemma RoundUpAhead(x: nat)
    requires x % 32 == 0 && x < U32 - 32
    ensures RoundUp32(x) == x
  {
  }

  /** The distance to a fragment that lies behind wraps around, to more than can be asked for. */
  lemma RoundUpBehind(d: nat, size: nat)
    requires 0 < d && d % 32 == 0 && d + size <= U32 - 32
    ensures RoundUp32(0 - d) >= size
  {
  }

  lemma Multiples(a: nat, b: nat)
    requires a % 32 == 0 && b % 32 == 0 && a <= b
    ensures (b - a) % 32 == 0 && (a < b ==> b - a >= 32)
  {
  }

  /** A fragment that does not cover the offset limits the size to where it begins, if that lies ahead. */
  lemma Skip(f: Fragment, file: nat, offset: nat, size: nat)
    requires f.offset % 32 == 0 && |f.data| % 32 == 0 && 0 < |f.data| && f.offset + |f.data| <= U32 - 64
    requires offset % 32 == 0 && 0 < size && offset + size <= U32 - 64 && !Covers(f, file, offset) && f.file == file
    ensures var n := Min(size, RoundUp32(f.offset - offset));
            && 0 < n && (size % 32 == 0 ==> n % 32 == 0) && forall p :: offset <= p < offset + n ==> !Covers(f, file, p)
  {
    hide RoundUp32;
    if offset < f.offset {
      Multiples(offset, f.offset);
      RoundUpAhead(f.offset - offset);
    } else {
      Multiples(f.offset, offset);
      RoundUpBehind(offset - f.offset, size);
    }
  }

  /** A fragment that covers the offset serves it as far as it reaches. */
  lemma Serve(f: Fragment, offset: nat, size: nat)
    requires f.offset % 32 == 0 && |f.data| % 32 == 0 && f.offset + |f.data| <= U32 - 64
    requires offset % 32 == 0 && 0 < size && f.offset <= offset < f.offset + |f.data|
    ensures var n := Min(size, RoundUp32(|f.data|) - (offset - f.offset));
            0 < n && (size % 32 == 0 ==> n % 32 == 0) && offset + n <= f.offset + |f.data|
  {
    hide RoundUp32;
    RoundUpAhead(|f.data|);
    Multiples(f.offset, offset);
    Multiples(offset - f.offset, |f.data|);
  }

  /** frag_get: the first fragment that covers the offset, and how much of it may be taken: all that was asked for, or
      as far as it is the first one. */
  method FragGet(fs: seq<Fragment>, file: nat, offset: nat, length: nat) returns (r: Found)
    requires Aligned(fs) && offset % 32 == 0 && length > 0 && offset + length <= U32 - 64
    ensures r.Missing? <==> First(fs, file, offset, 0) == -1
    ensures r.At? ==> First(fs, file, offset, 0) == r.index && r.offset == offset - fs[r.index].offset
    ensures r.At? ==> 0 < r.size <= length && r.offset + r.size <= |fs[r.index].data|
    ensures r.At? && length % 32 == 0 ==> r.size % 32 == 0
    ensures r.At? ==> forall p :: offset <= p < offset + r.size ==> First(fs, file, p, 0) == r.index
    ensures r.At? ==> r.size == length || First(fs, file, offset + r.size, 0) != r.index
  {
    hide RoundUp32;
    var size := length;
    var i := 0;
    while i < |fs|
      invariant 0 <= i <= |fs| && 0 < size <= length && (length % 32 == 0 ==> size % 32 == 0)
      invariant forall j, p :: 0 <= j < i && offset <= p < offset + size ==> !Covers(fs[j], file, p)
      invariant size < length ==> exists j :: 0 <= j < i && Covers(fs[j], file, offset + size)
    {
      var f := fs[i];
      if f.file == file {
        if offset < f.offset || offset >= f.offset + |f.data| {
          Skip(f, file, offset, size);
          AtStart(f, file, offset, size);
          size := Min(size, RoundUp32(f.offset - offset));
        } else {
          Serve(f, offset, size);
          r := At(i, offset - f.offset, Min(size, RoundUp32(|f.data|) - (offset - f.offset)));
          FirstThroughout(fs, file, offset, r.size, i);
          FirstNoLonger(fs, file, offset, size, length, i);
          return;
        }
      }
      i := i + 1;
    }
    r := Missing;
  }

  /** If it limits the size, it begins where the size ends. */
  lemma AtStart(f: Fragment, file: nat, offset: nat, size: nat)
    requires f.offset % 32 == 0 && |f.data| % 32 == 0 && 0 < |f.data| && f.offset + |f.data| <= U32 - 64
    requires offset % 32 == 0 && 0 < size && offset + size <= U32 - 64 && !Covers(f, file, offset) && f.file == file
    ensures RoundUp32(f.offset - offset) < size ==> Covers(f, file, offset + RoundUp32(f.offset - offset))
  {
    hide RoundUp32;
    if offset < f.offset {
      Multiples(offset, f.offset);
      RoundUpAhead(f.offset - offset);
    } else {
      Multiples(f.offset, offset);
      RoundUpBehind(offset - f.offset, size);
    }
  }

  /** Where the size ends, the fragment does, or one listed earlier begins. */
  lemma FirstNoLonger(fs: seq<Fragment>, file: nat, offset: nat, size: nat, length: nat, i: nat)
    requires Aligned(fs) && i < |fs| && fs[i].offset <= offset < fs[i].offset + |fs[i].data| && size <= length
    requires size < length ==> exists j :: 0 <= j < i && Covers(fs[j], file, offset + size)
    ensures var n := Min(size, RoundUp32(|fs[i].data|) - (offset - fs[i].offset));
            n == length || First(fs, file, offset + n, 0) != i
  {
    hide RoundUp32;
    RoundUpAhead(|fs[i].data|);
    var n := Min(size, |fs[i].data| - (offset - fs[i].offset));
    if First(fs, file, offset + n, 0) == i {
      assert Covers(fs[i], file, offset + n);
    }
  }

  lemma FirstThroughout(fs: seq<Fragment>, file: nat, offset: nat, size: nat, i: nat)
    requires i < |fs| && fs[i].file == file && fs[i].offset <= offset && offset + size <= fs[i].offset + |fs[i].data|
    requires forall j, p :: 0 <= j < i && offset <= p < offset + size ==> !Covers(fs[j], file, p)
    ensures forall p :: offset <= p < offset + size ==> First(fs, file, p, 0) == i
  {
    forall p | offset <= p < offset + size ensures First(fs, file, p, 0) == i {
      assert Covers(fs[i], file, p);
    }
  }

  /** A device read: so many cache lines, or as much as was asked for; none at all is a failure. */
  method DeviceRead(data: seq<Byte>, offset: nat, size: nat, lines: nat) returns (got: seq<Byte>)
    requires offset + size <= |data| && size % 32 == 0
    ensures |got| == Min(size, 32 * lines) && |got| % 32 == 0 && got == data[offset..offset + |got|]
  {
    got := data[offset..offset + Min(size, 32 * lines)];
  }

  /** frag_read; lines is how much the device delivers. */
  method FragRead(fs: seq<Fragment>, file: nat, offset: nat, length: nat, lines: nat) returns (got: seq<Byte>)
    requires Aligned(fs) && offset % 32 == 0 && length > 0 && length % 32 == 0 && offset + length <= U32 - 64
    ensures |got| <= length && |got| % 32 == 0 && Right(fs, file, offset, got)
    ensures got == [] <==> !Here(fs, file, offset) || lines == 0
    ensures Here(fs, file, offset) ==>
      |got| == Min(length, 32 * lines) || First(fs, file, offset + |got|, 0) != First(fs, file, offset, 0)
  {
    got := [];
    var r := FragGet(fs, file, offset, length);
    if r.At? && fs[r.index].here {
      got := DeviceRead(fs[r.index].data, r.offset, r.size, lines);
      forall i | 0 <= i < |got| ensures RightAt(fs, file, offset, got, i) {
        assert First(fs, file, offset + i, 0) == r.index;
      }
    }
  }

  /** The bytes are the file's, each from the first fragment listed that covers it. */
  ghost predicate Right(fs: seq<Fragment>, file: nat, offset: nat, s: seq<Byte>) {
    forall i :: 0 <= i < |s| ==> RightAt(fs, file, offset, s, i)
  }

  ghost predicate RightAt(fs: seq<Fragment>, file: nat, offset: nat, s: seq<Byte>, i: nat)
    requires i < |s|
  {
    Here(fs, file, offset + i) && s[i] == ByteAt(fs, file, offset + i)
  }

  lemma RightMore(fs: seq<Fragment>, file: nat, offset: nat, s: seq<Byte>, t: seq<Byte>)
    requires Right(fs, file, offset, s) && Right(fs, file, offset + |s|, t)
    ensures Right(fs, file, offset, s + t)
  {
    hide ByteAt, Here;
    forall i | 0 <= i < |s + t| ensures RightAt(fs, file, offset, s + t, i) {
      if i < |s| {
        assert RightAt(fs, file, offset, s, i);
      } else {
        assert RightAt(fs, file, offset + |s|, t, i - |s|);
        assert offset + |s| + (i - |s|) == offset + i;
      }
    }
  }

  /** frag_read_complete: however the fragments and the device cut the read into pieces, the bytes are those of the
      overlay; it ends, and short of the whole only where the device fails or no fragment of its own comes first.
      answers is how much the device delivers each time, and all that is asked for after them. */
  method FragReadComplete(fs: seq<Fragment>, file: nat, offset: nat, length: nat, answers: seq<nat>) returns (data: seq<Byte>)
    requires Aligned(fs) && offset % 32 == 0 && length % 32 == 0 && offset + length <= U32 - 64
    ensures |data| <= length && Right(fs, file, offset, data)
    ensures |data| < length && 0 !in answers ==> !Here(fs, file, offset + |data|)
  {
    data := [];
    var i := 0;
    while |data| < length
      invariant |data| <= length && |data| % 32 == 0 && Right(fs, file, offset, data)
      decreases length - |data|
    {
      var got := FragRead(fs, file, offset + |data|, length - |data|, if i < |answers| then answers[i] else length);
      if got == [] {
        return;
      }
      RightMore(fs, file, offset, data, got);
      data := data + got;
      i := i + 1;
    }
  }
}
