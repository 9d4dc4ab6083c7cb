/** The ring buffer between the decoder of a stream and its consumer. */
module Fifo {
  import opened Bytes

  /** used elements of a ring, from a position on. */
  function Ringed<T>(s: seq<T>, read: nat, used: nat): (r: seq<T>)
    requires read < |s| && used <= |s|
    ensures |r| == used
  {
    if read + used <= |s| then s[read..read + used] else s[read..] + s[..used - (|s| - read)]
  }

  lemma RingedPush<T>(s: seq<T>, read: nat, used: nat, write: nat, x: T)
    requires read < |s| && used < |s| && write == (if read + used < |s| then read + used else read + used - |s|)
    ensures Ringed(s[write := x], read, used + 1) == Ringed(s, read, used) + [x]
  {
  }

  lemma RingedPop<T>(s: seq<T>, read: nat, used: nat)
    requires read < |s| && 0 < used <= |s|
    ensures var next := if read + 1 < |s| then read + 1 else 0;
            s[read] == Ringed(s, read, used)[0] && Ringed(s, next, used - 1) == Ringed(s, read, used)[1..]
  {
  }

  lemma RingedFront<T>(s: seq<T>, read: nat, used: nat, n: nat)
    requires read < |s| && n <= used <= |s| && read + n <= |s|
    ensures s[read..read + n] == Ringed(s, read, used)[..n]
  {
  }

  lemma RingedBack<T>(s: seq<T>, read: nat, used: nat, n: nat)
    requires read < |s| && n <= used <= |s| && read + n <= |s|
    ensures Ringed(s, if read + n == |s| then 0 else read + n, used - n) == Ringed(s, read, used)[n..]
  {
  }

  class Ring<T(0)> {
    const buffer: array<T>
    var readPtr: nat
    var writePtr: nat
    var used: nat

    ghost predicate Valid()
      reads this
    {
      && readPtr < buffer.Length && used <= buffer.Length
      && writePtr == if readPtr + used < buffer.Length then readPtr + used else readPtr + used - buffer.Length
    }

    /** What is in the buffer, oldest first. */
    ghost function Contents(): (s: seq<T>)
      requires Valid()
      reads this, buffer
      ensures |s| == used
    {
      Ringed(buffer[..], readPtr, used)
    }

    constructor (size: nat)
      requires size > 0
      ensures Valid() && Contents() == [] && buffer.Length == size && fresh(buffer)
    {
      buffer := new T[size];
      readPtr, writePtr, used := 0, 0, 0;
    }

    /** fifo_reset */
    method Reset()
      requires Valid()
      modifies this
      ensures Valid() && Contents() == []
    {
      readPtr, writePtr, used := 0, 0, 0;
    }

    function Space(): nat
      requires Valid()
      reads this
    {
      buffer.Length - used
    }

    /** push_sample: an element that does not fit is dropped. */
    method Push(x: T)
      requires Valid()
      modifies this, buffer
      ensures Valid() && Contents() == if old(Space()) > 0 then old(Contents()) + [x] else old(Contents())
    {
      if Space() < 1 {
        return;
      }
      RingedPush(buffer[..], readPtr, used, writePtr, x);
      ghost var before := buffer[..];
      buffer[writePtr] := x;
      assert buffer[..] == before[writePtr := x];
      writePtr := writePtr + 1;
      if writePtr == buffer.Length {
        writePtr := 0;
      }
      used := used + 1;
    }

    /** pop_sample: nothing is taken from an empty buffer. */
    method Pop(x: T) returns (y: T)
      requires Valid()
      modifies this
      ensures Valid()
      ensures old(used) == 0 ==> y == x && Contents() == old(Contents())
      ensures old(used) > 0 ==> y == old(Contents())[0] && Contents() == old(Contents())[1..]
    {
      if used < 1 {
        return x;
      }
      RingedPop(buffer[..], readPtr, used);
      y := buffer[readPtr];
      readPtr := readPtr + 1;
      if readPtr == buffer.Length {
        readPtr := 0;
      }
      used := used - 1;
    }

    /** fifo_write: in at most two pieces; the caller has seen to the space. */
    method Write(data: seq<T>)
      requires Valid() && |data| <= Space()
      modifies this, buffer
      ensures Valid() && Contents() == old(Contents()) + data
    {
      hide Ringed;
      var from := 0;
      while from < |data|
        invariant Valid() && 0 <= from <= |data| && |data| - from <= Space() && Contents() == old(Contents()) + data[..from]
      {
        var size := Min(|data| - from, buffer.Length - writePtr);
        WritePiece(data[from..from + size]);
        Split(data, 0, from, from + size);
        from := from + size;
      }
    }

    /** memcpy up to the end of the buffer at most */
    method WritePiece(piece: seq<T>)
      requires Valid() && |piece| <= Space() && writePtr + |piece| <= buffer.Length
      modifies this, buffer
      ensures Valid() && Contents() == old(Contents()) + piece
    {
      hide Ringed;
      var i := 0;
      while i < |piece|
        invariant Valid() && 0 <= i <= |piece| && |piece| - i <= Space() && Contents() == old(Contents()) + piece[..i]
      {
        Push(piece[i]);
        assert piece[..i + 1] == piece[..i] + [piece[i]];
        i := i + 1;
      }
    }

    /** fifo_read: in at most two pieces; the caller has seen to it that there is so much. */
    method Read(length: nat) returns (data: seq<T>)
      requires Valid() && length <= used
      modifies this
      ensures Valid() && data == old(Contents())[..length] && Contents() == old(Contents())[length..]
    {
      hide Ringed;
      data := [];
      ghost var all := Contents();
      while |data| < length
        invariant Valid() && |data| <= length && used == |all| - |data| && data == all[..|data|] && Contents() == all[|data|..]
      {
        var size := Min(length - |data|, buffer.Length - readPtr);
        var piece := ReadPiece(size);
        assert all[|data|..][..size] == all[|data|..|data| + size];
        Joined(all, |data|, size);
        data := data + piece;
      }
    }

    lemma Joined(all: seq<T>, n: nat, m: nat)
      requires n + m <= |all|
      ensures all[..n] + all[n..][..m] == all[..n + m] && all[n..][m..] == all[n + m..]
    {
    }

    method ReadPiece(size: nat) returns (piece: seq<T>)
      requires Valid() && size <= used && readPtr + size <= buffer.Length && size > 0
      modifies this
      ensures Valid() && used == old(used) - size && piece == old(Contents())[..size] && Contents() == old(Contents())[size..]
    {
      RingedFront(buffer[..], readPtr, used, size);
      RingedBack(buffer[..], readPtr, used, size);
      assert buffer[readPtr..readPtr + size] == buffer[..][readPtr..readPtr + size];
      piece := buffer[readPtr..readPtr + size];
      readPtr := readPtr + size;
      if readPtr == buffer.Length {
        readPtr := 0;
      }
      used := used - size;
    }
  }
}
