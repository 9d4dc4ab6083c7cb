/** A disc read carried out in pieces: each completion takes the destination, the length and the offset further, until
    nothing is left and the transfer is reported complete. */
module DiscRead {
  import opened Bytes

  /** What the device is asked for. */
  datatype Request = Request(to: nat, size: nat, from: nat)

  class Drive {
    const memory: array<Byte>
    var buffer: nat
    var length: nat
    var offset: nat
    var read: bool

    /** The device: the file being read, what it was asked for, and whether it is still to answer the latest request. */
    const file: seq<Byte>
    var requests: seq<Request>
    var busy: bool

    /** The transfer as it was asked for, and how often it was reported complete since. */
    ghost var address: nat
    ghost var total: nat
    ghost var start: nat
    ghost var reports: nat

    constructor (memory: array<Byte>, file: seq<Byte>)
      ensures Valid() && this.memory == memory && this.file == file && !busy && reports == 1 && requests == []
    {
      this.memory, this.file := memory, file;
      buffer, length, offset, read := 0, 0, 0, false;
      requests, busy := [], false;
      address, total, start, reports := 0, 0, 0, 1;
    }

    /** What was asked for stays what is done and what is left; what is done is in the destination. */
    ghost predicate Valid()
      reads this, memory
    {
      Progress(0) && (busy ==> read && Latest() == Request(buffer, length, offset) && requests != [])
      && (reports == 1 <==> !read) && reports <= 1
    }

    /** The destination holds what is done and n bytes more. */
    ghost predicate Progress(n: nat)
      reads this, memory
    {
      && address + total <= memory.Length && start + total <= |file| && n <= length
      && offset + length == start + total && start <= offset && buffer == address + (offset - start)
      && memory[address..buffer + n] == file[start..offset + n] && (!read ==> length == 0)
    }

    /** The latest request. */
    ghost function Latest(): Request
      reads `requests
    {
      if requests == [] then Request(0, 0, 0) else requests[|requests| - 1]
    }

    /** perform_read: a new transfer after the last one was reported. */
    method Perform(address: nat, length: nat, offset: nat, accepts: bool)
      requires Valid() && !read && address + length <= memory.Length && offset + length <= |file|
      modifies this
      ensures Valid() && this.address == address && total == length && start == offset && reports == 0 && read
      ensures requests == old(requests) + [Request(address, length, offset)] && busy == accepts
    {
      buffer, this.length, this.offset, read := address, length, offset, true;
      this.address, total, start, reports := address, length, offset, 0;
      assert memory[address..address] == file[offset..offset];
      Schedule(accepts);
    }

    /** schedule_read: reports, or asks for what is left. Whether the device accepts is not its choice. */
    method Schedule(accepts: bool)
      requires Progress(0) && reports == 0
      modifies `busy, `requests, `reports
      ensures Valid() && busy == (read && accepts)
      ensures reports == if read then 0 else 1
      ensures requests == old(requests) + if read then [Request(buffer, length, offset)] else []
    {
      if !read {
        reports := reports + 1;
        busy := false;
        return;
      }
      requests := requests + [Request(buffer, length, offset)];
      busy := accepts;
    }

    /** The device delivers bytes of the file for its latest request, as many as it likes; accepts is its answer to the
        request that may follow. */
    method Deliver(data: seq<Byte>, accepts: bool)
      requires Valid() && busy && |data| <= Latest().size && data == file[Latest().from..Latest().from + |data|]
      modifies memory, this
      ensures Valid() && address == old(address) && total == old(total) && start == old(start)
      ensures offset == old(offset) + |data| && buffer == old(buffer) + |data| && length == old(length) - |data|
      ensures reports == (if length == 0 then 1 else 0) && busy == (length > 0 && accepts)
      ensures requests == old(requests) + if length > 0 then [Request(buffer, length, offset)] else []
      ensures reports == 1 ==> memory[address..address + total] == file[start..start + total]
      ensures memory[..address] == old(memory[..address]) && memory[address + total..] == old(memory[address + total..])
    {
      ghost var before := memory[..];
      StoreAt(memory, requests[|requests| - 1].to, data);
      Arrived(before, memory[..], data);
      Callback(|data|, accepts);
    }

    /** Bytes stored behind what is done continue it, inside the destination. */
    lemma Arrived(mem: seq<Byte>, mem': seq<Byte>, data: seq<Byte>)
      requires |mem| == |mem'| && address <= buffer && buffer + |data| <= address + total <= |mem| && start <= offset && offset + |data| <= |file|
      requires mem'[..buffer] == mem[..buffer] && mem'[buffer..buffer + |data|] == data && mem'[buffer + |data|..] == mem[buffer + |data|..]
      requires mem[address..buffer] == file[start..offset] && data == file[offset..offset + |data|]
      ensures mem'[address..buffer + |data|] == file[start..offset + |data|]
      ensures mem'[..address] == mem[..address] && mem'[address + total..] == mem[address + total..]
    {
      SliceOfSlice(mem, 0, buffer, address, buffer);
      SliceOfSlice(mem', 0, buffer, address, buffer);
      Split(mem', address, buffer, buffer + |data|);
      Split(file, start, offset, offset + |data|);
      assert mem'[..address] == mem'[..buffer][..address] && mem[..address] == mem[..buffer][..address];
      var (end, rest) := (buffer + |data|, address + total - (buffer + |data|));
      assert mem'[end..][rest..] == mem'[address + total..] && mem[end..][rest..] == mem[address + total..];
    }

    /** read_callback */
    method Callback(n: nat, accepts: bool)
      requires Progress(n) && read && reports == 0
      modifies this
      ensures Valid() && address == old(address) && total == old(total) && start == old(start)
      ensures offset == old(offset) + n && buffer == old(buffer) + n && length == old(length) - n
      ensures reports == (if length == 0 then 1 else 0) && busy == (length > 0 && accepts)
      ensures requests == old(requests) + if length > 0 then [Request(buffer, length, offset)] else []
    {
      buffer := buffer + n;
      length := length - n;
      offset := offset + n;
      read := length != 0;
      Schedule(accepts);
    }

    /** A device that accepts every request and answers it with a byte or more, at most sizes of them in turn: the
        transfer is reported after no more completions than it has bytes. */
    method Complete(sizes: seq<nat>) returns (completions: nat)
      requires Valid() && busy && start == offset
      modifies memory, this
      ensures Valid() && reports == 1 && memory[address..address + total] == file[start..start + total]
      ensures address == old(address) && total == old(total) && start == old(start)
      ensures 1 <= completions <= Max(total, 1)
      ensures memory[..address] == old(memory[..address]) && memory[address + total..] == old(memory[address + total..])
    {
      completions := 0;
      while busy
        invariant Valid() && address == old(address) && total == old(total) && start == old(start)
        invariant completions <= Max(total - length, 1) && (length > 0 ==> completions <= total - length)
        invariant if completions == 0 then busy else busy ==> length > 0
        invariant reports == 1 || busy
        invariant reports == 1 ==> length == 0 && memory[address..address + total] == file[start..start + total]
        invariant memory[..address] == old(memory[..address]) && memory[address + total..] == old(memory[address + total..])
        decreases length, busy
      {
        var size := Min(length, Max(1, if completions < |sizes| then sizes[completions] else length));
        Deliver(file[offset..offset + size], true);
        completions := completions + 1;
      }
    }
  }
}
