/** The FSP client: disc reads as stop-and-wait file transfers over a network that loses, repeats and reorders
    datagrams, several of them waiting in a queue. */
module FspClient {
  import opened Bytes
  import opened RequestQueue

  const SEQUENCES := 0x1_0000

  /** A request as sent, and a reply as received. */
  datatype Request = Request(path: nat, position: nat, length: nat)

  datatype Reply = Reply(sequence: nat, position: nat, data: seq<Byte>)

  /** A read in the queue, and how much of it has come. */
  datatype Entry = Entry(buffer: nat, length: nat, offset: nat, position: nat, path: nat)

  /** A read as a client asks for it; the accepted ones are numbered. */
  datatype Read = Read(buffer: nat, length: nat, position: nat, path: nat)

  /** The server answers a request with bytes of the file, perhaps fewer than asked for. */
  ghost predicate Answers(files: seq<seq<Byte>>, q: Request, r: Reply) {
    && q.path < |files| && r.position == q.position && |r.data| <= q.length
    && (r.data == [] || (q.position + |r.data| <= |files[q.path]| && r.data == files[q.path][q.position..q.position + |r.data|]))
  }

  /** A quotient rounded up. */
  function RoundedUp(x: nat, y: nat): nat
    requires y > 0
  {
    (x + y - 1) / y
  }

  lemma OneRoomLess(x: nat, y: nat)
    requires x > 0 && y > 0
    ensures RoundedUp(x - Min(x, y), y) == RoundedUp(x, y) - 1 && (x <= y <==> RoundedUp(x, y) == 1)
  {
    var (q, t) := ((x - 1) / y, (x - 1) % y);
    DivisionIs(x + y - 1, y, q + 1, t);
    if x <= y {
      DivisionIs(x - 1, y, 0, x - 1);
      DivisionIs(y - 1, y, 0, y - 1);
    } else {
      DivisionIs(x - y + y - 1, y, q, t);
      if q == 0 {
        assert false;
      }
    }
  }

  lemma RoundedUpIs(x: nat, y: nat)
    requires x > 0 && y > 0
    ensures (RoundedUp(x, y) - 1) * y < x <= RoundedUp(x, y) * y
  {
    var (q, t) := ((x - 1) / y, (x - 1) % y);
    assert x - 1 == q * y + t;
    DivisionIs(x + y - 1, y, q + 1, t);
    assert (q + 1) * y == q * y + y;
  }

  predicate Overlap(a: nat, n: nat, b: nat, m: nat) {
    a < b + m && b < a + n
  }

  // ------------------------------------------------------------------- the buffers

  /** The entry's buffer holds the file's bytes as far as its offset, but for the last late bytes. */
  ghost predicate Backed(s: Entry, late: nat, mem: seq<Byte>, files: seq<seq<Byte>>) {
    && s.path < |files| && s.length > 0 && late <= s.offset <= s.length && s.buffer + s.length <= |mem|
    && (s.offset > 0 ==> s.position + s.offset <= |files[s.path]|)
    && (s.offset > late ==> mem[s.buffer..s.buffer + (s.offset - late)] == files[s.path][s.position..s.position + (s.offset - late)])
  }

  ghost predicate AllBacked(queue: seq<Slot<Entry>>, out: int, lateAt: int, late: nat, mem: seq<Byte>, files: seq<seq<Byte>>) {
    && (forall k :: Live(queue, out, k) ==> Backed(queue[k].item, if k == lateAt then late else 0, mem, files))
    && (forall j, k :: Live(queue, out, j) && Live(queue, out, k) && j < k ==> Apart(queue[j].item, queue[k].item))
  }

  ghost predicate Apart(s: Entry, t: Entry) {
    !Overlap(s.buffer, s.length, t.buffer, t.length)
  }

  lemma PlaceBacked(queue: seq<Slot<Entry>>, out: int, mem: seq<Byte>, files: seq<seq<Byte>>, i: nat, s: Entry)
    requires AllBacked(queue, out, -1, 0, mem, files) && i < |queue| && queue[i].Free? && Backed(s, 0, mem, files)
    requires forall k :: Live(queue, out, k) ==> Apart(s, queue[k].item)
    ensures AllBacked(queue[i := Busy(s)], out, -1, 0, mem, files)
  {
  }

  /** An entry counts n bytes that have yet to be copied. */
  lemma LateBacked(queue: seq<Slot<Entry>>, mem: seq<Byte>, files: seq<seq<Byte>>, i: nat, n: nat)
    requires AllBacked(queue, -1, -1, 0, mem, files) && i < |queue| && queue[i].Busy? && queue[i].item.offset + n <= queue[i].item.length
    requires queue[i].item.path < |files| && (queue[i].item.offset + n > 0 ==> queue[i].item.position + queue[i].item.offset + n <= |files[queue[i].item.path]|)
    ensures AllBacked(queue[i := Busy(queue[i].item.(offset := queue[i].item.offset + n))], -1, i, n, mem, files)
  {
  }

  /** They are copied; the other entries' buffers are elsewhere. */
  lemma ArrivedBacked(queue: seq<Slot<Entry>>, mem: seq<Byte>, mem': seq<Byte>, files: seq<seq<Byte>>, i: nat, n: nat)
    requires AllBacked(queue, -1, i, n, mem, files) && i < |queue| && queue[i].Busy? && n <= queue[i].item.offset && |mem'| == |mem|
    requires queue[i].item.offset <= queue[i].item.length && queue[i].item.buffer + queue[i].item.length <= |mem| && queue[i].item.path < |files|
    requires n > 0 ==> queue[i].item.position + queue[i].item.offset <= |files[queue[i].item.path]|
    requires var (s, to) := (queue[i].item, queue[i].item.buffer + queue[i].item.offset);
             && mem'[..to - n] == mem[..to - n] && mem'[to..] == mem[to..]
             && (n > 0 ==> mem'[to - n..to] == files[s.path][s.position + s.offset - n..s.position + s.offset])
    ensures AllBacked(queue, -1, -1, 0, mem', files)
  {
    var (s, to) := (queue[i].item, queue[i].item.buffer + queue[i].item.offset);
    forall k | Live(queue, -1, k) ensures Backed(queue[k].item, 0, mem', files) {
      if k == i {
        ArrivedHere(s, mem, mem', files, n);
      } else {
        assert Live(queue, -1, i);
        assert Apart(queue[k].item, s) by { if k < i { assert Apart(queue[k].item, queue[i].item); } else { assert Apart(queue[i].item, queue[k].item); } }
        Elsewhere(queue[k].item, mem, mem', files, to - n, to);
      }
    }
  }

  lemma ArrivedHere(s: Entry, mem: seq<Byte>, mem': seq<Byte>, files: seq<seq<Byte>>, n: nat)
    requires Backed(s, n, mem, files) && |mem'| == |mem|
    requires var to := s.buffer + s.offset;
             && mem'[..to - n] == mem[..to - n]
             && (n > 0 ==> mem'[to - n..to] == files[s.path][s.position + s.offset - n..s.position + s.offset])
    ensures Backed(s, 0, mem', files)
  {
    var to := s.buffer + s.offset;
    assert mem'[s.buffer..to - n] == mem'[..to - n][s.buffer..] == mem[s.buffer..to - n];
    Split(mem', s.buffer, to - n, to);
    if s.offset > 0 {
      Split(files[s.path], s.position, s.position + s.offset - n, s.position + s.offset);
    }
  }

  /** Bytes outside an entry's buffer may change. */
  lemma Elsewhere(s: Entry, mem: seq<Byte>, mem': seq<Byte>, files: seq<seq<Byte>>, from: nat, to: nat)
    requires Backed(s, 0, mem, files) && |mem'| == |mem| && from <= to <= |mem|
    requires mem'[..from] == mem[..from] && mem'[to..] == mem[to..]
    requires from == to || s.buffer + s.length <= from || to <= s.buffer
    ensures Backed(s, 0, mem', files)
  {
    var end := s.buffer + s.offset;
    if s.buffer + s.length <= from {
      SliceOfSlice(mem', 0, from, s.buffer, end);
      SliceOfSlice(mem, 0, from, s.buffer, end);
      assert mem'[0..from] == mem'[..from] && mem[0..from] == mem[..from];
    } else if to <= s.buffer {
      SliceOfSlice(mem', to, |mem|, s.buffer - to, end - to);
      SliceOfSlice(mem, to, |mem|, s.buffer - to, end - to);
      assert mem'[to..|mem|] == mem'[to..] && mem[to..|mem|] == mem[to..];
    } else {
      assert mem' == mem'[..from] + mem'[to..] == mem;
    }
  }

  /** A finished entry no longer counts; then it is free. */
  lemma FinishBacked(queue: seq<Slot<Entry>>, mem: seq<Byte>, files: seq<seq<Byte>>, i: nat)
    requires AllBacked(queue, -1, -1, 0, mem, files)
    ensures AllBacked(queue, i, -1, 0, mem, files)
  {
  }

  lemma FreeBacked(queue: seq<Slot<Entry>>, mem: seq<Byte>, files: seq<seq<Byte>>, i: nat)
    requires AllBacked(queue, i, -1, 0, mem, files) && i < |queue|
    ensures AllBacked(queue[i := Free], -1, -1, 0, mem, files)
  {
  }

  function AsEntry(q: Read): Entry {
    Entry(q.buffer, q.length, 0, q.position, q.path)
  }

  /** The slots' reads are those that were asked for. */
  ghost predicate AllRepresent(queue: seq<Slot<Entry>>, ids: seq<nat>, out: int, asked: seq<Read>) {
    |ids| == |queue| && forall k :: Live(queue, out, k) ==> Represents(queue[k].item, ids[k], asked)
  }

  ghost predicate Represents(s: Entry, id: nat, asked: seq<Read>) {
    id < |asked| && asked[id] == Read(s.buffer, s.length, s.position, s.path)
  }

  lemma PlaceRepresents(queue: seq<Slot<Entry>>, ids: seq<nat>, out: int, asked: seq<Read>, i: nat, q: Read)
    requires AllRepresent(queue, ids, out, asked) && i < |queue|
    ensures AllRepresent(queue[i := Busy(AsEntry(q))], ids[i := |asked|], out, asked + [q])
  {
  }

  lemma FinishRepresents(queue: seq<Slot<Entry>>, ids: seq<nat>, asked: seq<Read>, i: nat)
    requires AllRepresent(queue, ids, -1, asked)
    ensures AllRepresent(queue, ids, i, asked)
  {
  }

  lemma FreeRepresents(queue: seq<Slot<Entry>>, ids: seq<nat>, asked: seq<Read>, i: nat)
    requires AllRepresent(queue, ids, i, asked) && i < |queue|
    ensures AllRepresent(queue[i := Free], ids, -1, asked)
  {
  }

  /** Only an offset changes. */
  lemma SameReads(queue: seq<Slot<Entry>>, ids: seq<nat>, asked: seq<Read>, i: nat, offset: nat)
    requires AllRepresent(queue, ids, -1, asked) && i < |queue| && queue[i].Busy?
    ensures AllRepresent(queue[i := Busy(queue[i].item.(offset := offset))], ids, -1, asked)
  {
  }

  ghost predicate PutIn(queue: seq<Slot<Entry>>, queue': seq<Slot<Entry>>, q: Read) {
    exists i :: 0 <= i < |queue| && queue[i].Free? && queue' == queue[i := Busy(AsEntry(q))]
  }

  /** The buffers of further reads are apart from those waiting and from each other. */
  ghost predicate PlanApart(queue: seq<Slot<Entry>>, out: int, plan: seq<Read>) {
    && (forall i, k :: 0 <= i < |plan| && Live(queue, out, k) ==> Apart(AsEntry(plan[i]), queue[k].item))
    && (forall i, j :: 0 <= i < j < |plan| ==> Apart(AsEntry(plan[i]), AsEntry(plan[j])))
  }

  lemma PlanGoesOn(queue: seq<Slot<Entry>>, queue': seq<Slot<Entry>>, out: int, plan: seq<Read>)
    requires plan != [] && PlanApart(queue, out, plan) && (queue' == queue || PutIn(queue, queue', plan[0]))
    ensures PlanApart(queue', out, plan[1..])
  {
  }

  lemma NothingLive(n: nat, mem: seq<Byte>, files: seq<seq<Byte>>)
    ensures var q: seq<Slot<Entry>> := seq(n, _ => Free);
            AllAccounted(q, seq(n, _ => 0), -1, [], 0) && AllRepresent(q, seq(n, _ => 0), -1, [])
            && AllBacked(q, -1, -1, 0, mem, files)
  {
    var q: seq<Slot<Entry>> := seq(n, _ => Free);
    assert forall k :: !Live(q, -1, k);
  }

  class Client {
    const memory: array<Byte>
    const room: nat
    const slots: nat
    var active: bool
    var sequence: nat
    var dataLength: nat
    var position: nat
    var queue: seq<Slot<Entry>>
    var queued: int

    /** The server's files. */
    const files: seq<seq<Byte>>

    ghost var sent: seq<Request>
    ghost var asked: seq<Read>

    /** The number of the read in each slot. */
    ghost var ids: seq<nat>
    /** The reads whose callback was called, in order, and what was in their buffers then. */
    ghost var done: seq<nat>
    ghost var found: seq<seq<Byte>>

    /** While its callback runs, the entry just finished no longer owns its buffer. */
    ghost var finishing: bool

    /** Bytes of a reply that are counted in an entry's offset but not yet copied to its buffer. */
    ghost var late: nat
    ghost var lateAt: int

    // ------------------------------------------------------------------- invariant

    ghost function Out(): int
      reads `queued, `finishing
    {
      if finishing then queued else -1
    }

    ghost predicate Owns(k: int)
      reads `queue, `queued, `finishing
    {
      Live(queue, Out(), k)
    }

    ghost predicate Entries()
      reads `queue, `queued, `finishing, `lateAt, `late, memory
    {
      |queue| == slots && -1 <= queued < slots && AllBacked(queue, Out(), lateAt, late, memory[..], files)
    }

    ghost predicate Accounted()
      reads `queue, `ids, `queued, `finishing, `done, `asked
    {
      AllAccounted(queue, ids, Out(), done, |asked|) && AllRepresent(queue, ids, Out(), asked)
    }

    /** Each callback found all that was asked for. */
    ghost predicate Delivered()
      reads `done, `found, `asked
    {
      |found| == |done| && forall i :: 0 <= i < |done| ==> Correct(done[i], found[i])
    }

    ghost predicate Correct(id: nat, data: seq<Byte>)
      reads `asked
    {
      && id < |asked|
      && var q := asked[id];
      q.path < |files| && q.position + q.length <= |files[q.path]| && data == files[q.path][q.position..q.position + q.length]
    }

    /** At most one request is under way, and it is the latest one sent. */
    ghost predicate InFlight()
      reads this
    {
      && |queue| == slots && 0 <= queued < slots && queue[queued].Busy? && active && !finishing
      && var s := queue[queued].item;
      && s.offset < s.length && |sent| > 0 && sequence == |sent| % SEQUENCES
      && position == s.position + s.offset && dataLength == Min(s.length - s.offset, room)
      && sent[|sent| - 1] == Request(s.path, position, dataLength)
    }

    ghost predicate Base()
      reads this, memory
    {
      |ids| == |queue| && Entries() && Accounted() && Delivered() && sequence == |sent| % SEQUENCES && room > 0
    }

    /** Nothing waits unless something is under way. */
    ghost predicate Idle()
      reads this
    {
      queued == -1 && !active && !finishing && forall k :: 0 <= k < |queue| ==> queue[k].Free?
    }

    ghost predicate Valid()
      reads this, memory
    {
      Base() && Unfinished() && (InFlight() || Idle()) && late == 0 && lateAt == -1
    }

    ghost predicate Unfinished()
      reads `queue, `queued, `finishing
    {
      forall k :: Owns(k) ==> queue[k].item.offset < queue[k].item.length
    }

    constructor (memory: array<Byte>, slots: nat, files: seq<seq<Byte>>, room: nat)
      requires room > 0
      ensures Valid() && this.memory == memory && this.slots == slots && this.files == files && asked == [] && done == []
    {
      hide AllAccounted, AllBacked, AllRepresent;
      NothingLive(slots, memory[..], files);
      this.memory, this.slots, this.files, this.room := memory, slots, files, room;
      active, sequence, dataLength, position := false, 0, 0, 0;
      queue, queued := seq(slots, _ => Free), -1;
      sent, asked, ids, done, found, finishing, late, lateAt := [], [], seq(slots, _ => 0), [], [], false, 0, -1;
    }

    // --------------------------------------------------------------------- sending

    /** fsp_get_file: a new sequence number for every datagram. */
    method GetFile(offset: nat, length: nat, path: nat)
      requires sequence == |sent| % SEQUENCES
      modifies `active, `sequence, `position, `dataLength, `sent
      ensures active && position == offset && dataLength == Min(length, room) && sequence == |sent| % SEQUENCES
      ensures sent == old(sent) + [Request(path, position, dataLength)]
    {
      active := true;
      sequence := (sequence + 1) % SEQUENCES;
      NextSequence(|sent|);
      position := offset;
      dataLength := Min(length, room);
      sent := sent + [Request(path, position, dataLength)];
    }

    lemma NextSequence(n: nat)
      ensures (n % SEQUENCES + 1) % SEQUENCES == (n + 1) % SEQUENCES
    {
    }

    /** fsp_read_queued: also what the alarm does when no reply has come for a second. */
    method ReadQueued()
      requires Base() && Unfinished() && 0 <= queued && queue[queued].Busy? && !finishing
      modifies `active, `sequence, `position, `dataLength, `sent
      ensures Base() && InFlight() && sent[..|sent| - 1] == old(sent)
    {
      hide AllAccounted, AllBacked, AllRepresent, Delivered;
      var s := queue[queued].item;
      GetFile(s.position + s.offset, s.length - s.offset, s.path);
    }

    /** An entry whose read stays in one sector. */
    ghost predicate Short(k: nat)
      requires k < |queue|
      reads `queue
    {
      queue[k].Busy? && queue[k].item.length + queue[k].item.position % 512 <= 512
    }

    /** fsp_pop_queue: with more than two slots an entry that stays in one sector goes first; otherwise the lowest. */
    method PopQueue()
      requires Base() && Unfinished() && !active && !finishing
      requires queued == -1 || queue[queued].Busy?
      modifies `active, `sequence, `position, `dataLength, `sent, `queued
      ensures Base() && (InFlight() || Idle()) && (old(queued) >= 0 ==> InFlight())
      ensures if InFlight() then sent[..|sent| - 1] == old(sent) else sent == old(sent)
      ensures InFlight() ==>
        if slots > 2 && exists k :: 0 <= k < slots && Short(k) then Short(queued) && forall k :: 0 <= k < queued ==> !Short(k)
        else forall k :: 0 <= k < queued ==> queue[k].Free?
    {
      hide AllAccounted, AllBacked, AllRepresent, Delivered;
      var i := 0;
      while slots > 2 && i < slots
        invariant 0 <= i <= slots && (slots > 2 ==> forall k :: 0 <= k < i ==> !Short(k))
      {
        if queue[i].Busy? && queue[i].item.length + queue[i].item.position % 512 <= 512 {
          SetQueued(i);
          ReadQueued();
          return;
        }
        i := i + 1;
      }
      i := 0;
      while i < slots
        invariant 0 <= i <= slots && forall k :: 0 <= k < i ==> queue[k].Free?
      {
        if queue[i].Busy? {
          SetQueued(i);
          ReadQueued();
          return;
        }
        i := i + 1;
      }
    }

    method SetQueued(i: nat)
      requires Base() && !finishing && i < |queue|
      modifies `queued
      ensures Base() && queued == i
    {
      queued := i;
    }

    // -------------------------------------------------------------------- the queue

    ghost predicate Fits(q: Read) {
      q.path < |files| && q.length > 0 && q.buffer + q.length <= memory.Length
    }

    /** The buffer of a new read may not be that of one still waiting. */
    ghost predicate Clear(q: Read)
      reads `queue, `queued, `finishing
    {
      forall k :: Owns(k) ==> Apart(AsEntry(q), queue[k].item)
    }

    /** Inside a callback: the entry it is for is finished but still in the queue. */
    ghost predicate InCallback()
      reads this, memory
    {
      Base() && Unfinished() && finishing && 0 <= queued && queue[queued].Busy? && !active && late == 0 && lateAt == -1
    }

    /** do_read_disc: takes the first free slot, and starts if nothing is under way. */
    method PushRead(q: Read) returns (ok: bool)
      requires (Valid() || InCallback()) && Fits(q) && Clear(q)
      modifies `active, `sequence, `position, `dataLength, `sent, `queue, `ids, `queued, `asked
      ensures if old(finishing) then InCallback() && queued == old(queued) else Valid() && (ok ==> InFlight())
      ensures ok <==> exists k :: 0 <= k < |old(queue)| && old(queue[k]).Free?
      ensures asked == old(asked) + if ok then [q] else []
      ensures if ok then PutIn(old(queue), queue, q) else queue == old(queue) && sent == old(sent)
      ensures old(queued) >= 0 ==> sent == old(sent)
    {
      hide AllAccounted, AllBacked, AllRepresent, Delivered, Live;
      var i := 0;
      while i < slots
        invariant 0 <= i <= slots && forall k :: 0 <= k < i ==> queue[k].Busy?
      {
        if queue[i].Free? {
          Place(i, q);
          if queued == -1 {
            SetQueued(i);
            ReadQueued();
          }
          return true;
        }
        i := i + 1;
      }
      ok := false;
    }

    method Place(i: nat, q: Read)
      requires Base() && Unfinished() && i < |queue| && queue[i].Free? && Fits(q) && Clear(q) && late == 0 && lateAt == -1 && i != Out()
      modifies `queue, `ids, `asked
      ensures Base() && Unfinished()
      ensures asked == old(asked) + [q] && queue == old(queue)[i := Busy(AsEntry(q))]
    {
      hide AllAccounted, AllBacked, AllRepresent;
      ghost var s := AsEntry(q);
      PlaceAccounted(queue, ids, Out(), done, |asked|, i, Busy(s));
      PlaceBacked(queue, Out(), memory[..], files, i, s);
      PlaceRepresents(queue, ids, Out(), asked, i, q);
      queue := queue[i := Busy(AsEntry(q))];
      ids := ids[i := |asked|];
      asked := asked + [q];
    }

    // -------------------------------------------------------------------- completion

    ghost predicate Acceptable(plan: seq<Read>)
      reads `queue, `queued
    {
      PlanApart(queue, queued, plan) && forall i :: 0 <= i < |plan| ==> Fits(plan[i])
    }

    /** The callback: it may ask for more reads, while its own entry is still in the queue. */
    method Callback(plan: seq<Read>)
      requires InCallback() && Acceptable(plan)
      modifies `active, `sequence, `position, `dataLength, `sent, `queue, `ids, `queued, `asked
      ensures InCallback() && queued == old(queued) && old(asked) <= asked
    {
      hide AllAccounted, AllBacked, AllRepresent, Delivered;
      var i := 0;
      while i < |plan|
        invariant 0 <= i <= |plan| && InCallback() && queued == old(queued) && Acceptable(plan[i..]) && old(asked) <= asked
      {
        ghost var (before, rest) := (queue, plan[i..]);
        assert rest[0] == plan[i] && rest[1..] == plan[i + 1..];
        assert Fits(rest[0]);
        var ok := PushRead(plan[i]);
        PlanGoesOn(before, queue, queued, rest);
        i := i + 1;
      }
    }

    /** fsp_done_queued: the callback, then the next read that waits. */
    method DoneQueued(plan: seq<Read>)
      requires Base() && 0 <= queued && queue[queued].Busy? && queue[queued].item.offset == queue[queued].item.length
      requires !active && !finishing && late == 0 && lateAt == -1 && Acceptable(plan)
      requires forall k :: Owns(k) && k != queued ==> queue[k].item.offset < queue[k].item.length
      modifies `active, `sequence, `position, `dataLength, `sent, `queue, `ids, `queued, `asked, `done, `found, `finishing
      ensures Valid() && done == old(done) + [old(ids[queued])] && old(asked) <= asked
    {
      hide AllAccounted, AllBacked, AllRepresent, Delivered;
      FinishNow();
      Callback(plan);
      FreeAccounted(queue, ids, done, |asked|, queued);
      FreeBacked(queue, memory[..], files, queued);
      FreeRepresents(queue, ids, asked, queued);
      queue := queue[queued := Free];
      finishing := false;
      queued := -1;
      PopQueue();
    }

    /** What the callback finds in the buffer. */
    ghost method FinishNow()
      requires Base() && 0 <= queued && queue[queued].Busy? && queue[queued].item.offset == queue[queued].item.length
      requires !active && !finishing && late == 0 && lateAt == -1
      requires forall k :: Owns(k) && k != queued ==> queue[k].item.offset < queue[k].item.length
      modifies `done, `found, `finishing
      ensures InCallback() && done == old(done) + [ids[queued]]
    {
      hide AllAccounted, AllBacked, AllRepresent;
      var s := queue[queued].item;
      FinishAccounted(queue, ids, done, |asked|, queued);
      FinishBacked(queue, memory[..], files, queued);
      FinishRepresents(queue, ids, asked, queued);
      SlotFacts(queued);
      done := done + [ids[queued]];
      found := found + [memory[s.buffer..s.buffer + s.length]];
      finishing := true;
    }

    lemma SlotFacts(k: nat)
      requires Base() && !finishing && lateAt == -1 && k < |queue| && queue[k].Busy?
      ensures Backed(queue[k].item, 0, memory[..], files) && Represents(queue[k].item, ids[k], asked)
      ensures queue[k].item.offset == queue[k].item.length ==>
        memory[queue[k].item.buffer..queue[k].item.buffer + queue[k].item.length]
        == files[queue[k].item.path][queue[k].item.position..queue[k].item.position + queue[k].item.length]
    {
    }

    // -------------------------------------------------------------------- the network

    /** The sequence numbers of requests less than 2^16 apart are different. */
    lemma OnlyLatest(i: nat, n: nat)
      requires i < n <= i + SEQUENCES && (i + 1) % SEQUENCES == n % SEQUENCES
      ensures i == n - 1
    {
    }

    /** fsp_input: a reply to any request ever sent, and any number of times. Only the one to the request under way is
        taken. The requests are fewer than 2^16 apart, so that no older one has the same sequence number. */
    method Input(r: Reply, ghost i: nat, plan: seq<Read>) returns (ghost n: nat)
      requires Valid() && i < |sent| <= i + 0x1_0000 && r.sequence == (i + 1) % 0x1_0000 && Answers(files, sent[i], r)
      requires Acceptable(plan)
      modifies `active, `sequence, `position, `dataLength, `sent, `queue, `ids, `queued, `asked, `done, `found, `finishing
      modifies `late, `lateAt, memory
      ensures Valid() && old(asked) <= asked
      ensures old(active && r.sequence == sequence && r.position == position) ==>
        && Taken(n, old(dataLength), |r.data|)
        && var (k, s) := old((queued, queue[queued].item));
        if s.offset + n == s.length then done == old(done) + [old(ids[queued])]
        else done == old(done) && asked == old(asked) && ids == old(ids) && queue == old(queue)[k := Busy(s.(offset := s.offset + n))]
      ensures old(!(active && r.sequence == sequence && r.position == position)) ==>
        done == old(done) && asked == old(asked) && queue == old(queue) && sent == old(sent)
    {
      hide AllAccounted, AllBacked, AllRepresent, Delivered;
      n := 0;
      if active && r.sequence == sequence && r.position == position {
        OnlyLatest(i, |sent|);
        n := Accept(r, plan);
      }
    }

    /** How much is taken of a reply with given bytes to a request for asked: all its whole cache lines, as far as they
        were asked for. */
    ghost predicate Taken(n: nat, asked: nat, given: nat) {
      && n <= asked && (n == asked || n % 32 == 0)
      && exists lines: nat :: 32 * lines <= given < 32 * lines + 32 && n <= 32 * lines && (n == asked || n == 32 * lines)
    }

    method Usable(r: Reply) returns (size: nat)
      ensures Taken(size, dataLength, |r.data|) && size <= |r.data| && size <= dataLength
    {
      size := Min(dataLength, |r.data| / 32 * 32);
      assert 32 * (|r.data| / 32) <= |r.data| < 32 * (|r.data| / 32) + 32;
    }

    method Accept(r: Reply, plan: seq<Read>) returns (ghost n: nat)
      requires Valid() && InFlight() && Answers(files, sent[|sent| - 1], r) && Acceptable(plan)
      modifies `active, `sequence, `position, `dataLength, `sent, `queue, `ids, `queued, `asked, `done, `found, `finishing
      modifies `late, `lateAt, memory
      ensures Valid() && old(asked) <= asked
      ensures Taken(n, old(dataLength), |r.data|)
      ensures var (k, s) := old((queued, queue[queued].item));
              if s.offset + n == s.length then done == old(done) + [old(ids[queued])]
              else done == old(done) && asked == old(asked) && ids == old(ids) && queue == old(queue)[k := Busy(s.(offset := s.offset + n))]
    {
      hide AllAccounted, AllBacked, AllRepresent, Delivered, PlanApart, Given, Answers, Taken;
      var size := Usable(r);
      n := size;
      var data := r.data[..size];
      var (k, at) := (queued, queue[queued].item.buffer + queue[queued].item.offset);
      PlanStays(queue, queue[k := Busy(queue[k].item.(offset := queue[k].item.offset + n))], k, plan);
      ReplyGiven(r, n);
      Take(data);
      if queue[queued].item.offset != queue[queued].item.length {
        PopQueue();
      }
      Arrive(k, at, data);
      if queue[queued].item.offset == queue[queued].item.length {
        DoneQueued(plan);
      }
    }

    lemma ReplyGiven(r: Reply, n: nat)
      requires Valid() && InFlight() && Answers(files, sent[|sent| - 1], r) && n <= |r.data| && n <= dataLength
      ensures queue[queued].item.path < |files| && Given(r.data[..n], queue[queued].item)
    {
    }

    lemma PlanStays(queue: seq<Slot<Entry>>, queue': seq<Slot<Entry>>, k: nat, plan: seq<Read>)
      requires PlanApart(queue, k, plan) && k < |queue| == |queue'| && queue[k].Busy? && queue'[k].Busy?
      requires queue' == queue[k := queue'[k]]
      ensures PlanApart(queue', k, plan)
    {
    }

    /** The reply's bytes count at once, although they are copied later. */
    method Take(data: seq<Byte>)
      requires Base() && Unfinished() && InFlight() && late == 0 && lateAt == -1
      requires var s := queue[queued].item; s.path < |files| && Given(data, s)
      modifies `active, `queue, `late, `lateAt
      ensures Base() && !active && !finishing && late == |data| && lateAt == queued
      ensures var s := old(queue[queued].item); queue == old(queue)[queued := Busy(s.(offset := s.offset + |data|))]
      ensures forall k :: Owns(k) && k != queued ==> queue[k].item.offset < queue[k].item.length
    {
      hide AllAccounted, AllBacked, AllRepresent, Delivered;
      var s := queue[queued].item;
      LateBacked(queue, memory[..], files, queued, |data|);
      SameAccounted(queue, ids, done, |asked|, queued, s.(offset := s.offset + |data|));
      SameReads(queue, ids, asked, queued, s.offset + |data|);
      active := false;
      queue := queue[queued := Busy(s.(offset := s.offset + |data|))];
      late, lateAt := |data|, queued;
    }

    /** Bytes of the entry's file from its offset on, no more than it still wants. */
    ghost predicate Given(data: seq<Byte>, s: Entry)
      requires s.path < |files|
    {
      && s.offset + |data| <= s.length
      && (s.offset + |data| > 0 ==> s.position + s.offset + |data| <= |files[s.path]|)
      && (data != [] ==> data == files[s.path][s.position + s.offset..s.position + s.offset + |data|])
    }

    method Arrive(k: nat, at: nat, data: seq<Byte>)
      requires Base() && !finishing && k == lateAt < |queue| && late == |data| && queue[k].Busy? && queue[k].item.path < |files|
      requires |data| <= queue[k].item.offset && at + |data| == queue[k].item.buffer + queue[k].item.offset
      requires Given(data, queue[k].item.(offset := queue[k].item.offset - |data|))
      modifies memory, `late, `lateAt
      ensures Base() && late == 0 && lateAt == -1
    {
      hide AllAccounted, AllRepresent, Delivered;
      ghost var mem := memory[..];
      LateFacts(k);
      StoreAt(memory, at, data);
      ArrivedBacked(queue, mem, memory[..], files, k, |data|);
      late, lateAt := 0, -1;
    }

    lemma LateFacts(k: nat)
      requires Base() && !finishing && k < |queue| && queue[k].Busy?
      ensures queue[k].item.offset <= queue[k].item.length && queue[k].item.buffer + queue[k].item.length <= memory.Length
    {
    }

    /** How many more replies an entry needs, if each brings all that was asked for. */
    ghost function Replies(s: Entry): nat
      requires room > 0 && s.offset <= s.length
    {
      RoundedUp(s.length - s.offset, room)
    }

    /** A reply that brings all that was asked for, in whole cache lines, is one reply less to go. */
    lemma OneFewer(s: Entry, n: nat)
      requires room > 0 && s.offset < s.length && Taken(n, Min(s.length - s.offset, room), Min(s.length - s.offset, room))
      requires s.length % 32 == s.offset % 32 == room % 32 == 0
      ensures n == Min(s.length - s.offset, room) && (s.offset + n) % 32 == 0
      ensures Replies(s.(offset := s.offset + n)) == Replies(s) - 1
      ensures s.offset + n == s.length <==> Replies(s) == 1
    {
      hide RoundedUp;
      var left := s.length - s.offset;
      assert left % 32 == 0;
      WholeLines(Min(left, room), n);
      OneRoomLess(left, room);
    }

    lemma WholeLines(asked: nat, n: nat)
      requires asked % 32 == 0 && Taken(n, asked, asked)
      ensures n == asked
    {
    }

    /** The only read there is, answered each time with all that was asked for: it is finished after its length divided
        by the room of a datagram, rounded up. */
    method Serve() returns (replies: nat)
      requires Valid() && InFlight() && forall k :: 0 <= k < |queue| && k != queued ==> queue[k].Free?
      requires var s := queue[queued].item;
               s.offset == 0 && s.length % 32 == room % 32 == 0 && s.path < |files| && s.position + s.length <= |files[s.path]|
      modifies `active, `sequence, `position, `dataLength, `sent, `queue, `ids, `queued, `asked, `done, `found, `finishing
      modifies `late, `lateAt, memory
      ensures Valid() && done == old(done) + [old(ids[queued])]
      ensures (replies - 1) * room < old(queue[queued].item.length) <= replies * room
    {
      hide AllAccounted, AllBacked, AllRepresent, Delivered, Answers, Unfinished, Base, RoundedUp, Waiting, InFlight;
      ghost var k, id;
      k, id := Starts();
      var s := queue[queued].item;
      ghost var was := done;
      var left := s.length;
      replies := 0;
      while left > 0
        invariant 0 <= left <= s.length && left % 32 == 0 && Valid()
        invariant left > 0 ==> Waiting(k, id, s.(offset := s.length - left)) && done == was
        invariant replies + RoundedUp(left, room) == RoundedUp(s.length, room)
        invariant left == 0 ==> done == was + [id]
      {
        OneRoomLess(left, room);
        var size := Answer(k, id, s.(offset := s.length - left));
        left := left - size;
        replies := replies + 1;
      }
      NoneLeft();
      RoundedUpIs(s.length, room);
    }

    lemma Starts() returns (k: int, id: nat)
      requires Valid() && InFlight() && forall k :: 0 <= k < |queue| && k != queued ==> queue[k].Free?
      ensures 0 <= k == queued < |queue| == |ids| && id == ids[k] && room > 0 && queue[k].Busy? && queue[k].item.length > 0
      ensures Waiting(k, id, queue[k].item)
    {
      hide AllAccounted, AllBacked, AllRepresent;
      Sizes();
      k, id := queued, ids[queued];
    }

    lemma NoneLeft()
      requires room > 0
      ensures RoundedUp(0, room) == 0
    {
      DivisionIs(room - 1, room, 0, room - 1);
    }

    lemma Sizes()
      requires Valid()
      ensures |ids| == |queue| == slots && room > 0
    {
      hide AllAccounted, AllBacked, AllRepresent;
    }

    /** One read under way, and no other. */
    ghost predicate Waiting(k: int, id: nat, s: Entry)
      reads this
    {
      && InFlight() && queued == k && queue[k].item == s && |ids| == |queue| && ids[k] == id
      && forall j :: 0 <= j < |queue| && j != k ==> queue[j].Free?
    }

    /** The server answers the request under way with all that was asked for. */
    method Answer(ghost k: int, ghost id: nat, ghost s: Entry) returns (size: nat)
      requires Valid() && Waiting(k, id, s)
      requires s.length % 32 == s.offset % 32 == room % 32 == 0 && s.path < |files| && s.position + s.length <= |files[s.path]|
      modifies `active, `sequence, `position, `dataLength, `sent, `queue, `ids, `queued, `asked, `done, `found, `finishing
      modifies `late, `lateAt, memory
      ensures Valid() && size == Min(s.length - s.offset, room)
      ensures s.offset + size == s.length ==> done == old(done) + [id]
      ensures s.offset + size < s.length ==> Waiting(k, id, s.(offset := s.offset + size)) && done == old(done)
    {
      hide AllAccounted, AllBacked, AllRepresent, Delivered, Base, RoundedUp;
      Sizes();
      size := dataLength;
      var path := queue[queued].item.path;
      var r := Reply(sequence, position, files[path][position..position + dataLength]);
      ghost var n := Input(r, |sent| - 1, []);
      OneFewer(s, n);
      if s.offset + size < s.length {
        Sizes();
        assert queue == old(queue)[k := Busy(s.(offset := s.offset + size))];
        assert queue[k].Busy? && InFlight();
        assert queue[queued].Busy?;
      }
    }

    /** When nothing is under way, every read that was accepted has been finished, and exactly once. */
    lemma EverythingFinished()
      requires Valid() && queued == -1
      ensures |done| == |asked| && forall id :: 0 <= id < |asked| ==> id in done
    {
      hide AllBacked, AllRepresent, Delivered;
      AllFinished(queue, ids, done, |asked|);
    }

    /** The alarm: no reply has come for a second, so the read under way is asked for once more. */
    method Alarm()
      requires Valid() && queued >= 0
      modifies `active, `sequence, `position, `dataLength, `sent
      ensures Valid() && sent == old(sent + [sent[|sent| - 1]])
    {
      hide AllAccounted, AllBacked, AllRepresent, Delivered;
      ReadQueued();
    }
  }
}
