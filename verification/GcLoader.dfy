/** The request queue of the GC Loader driver: requests wait in a few slots for the one device, the last sector of which
    only a part was wanted is kept, and a request for the kept sector is finished at once, without the device. */
module GcLoader {
  import opened Bytes
  import opened RequestQueue

  const SECTOR_SIZE := 512

  const NONE := 0xFFFF_FFFF

  /** A fragment of a file, as the device is told of it. */
  datatype Frag = Frag(offset: nat, size: nat, sector: nat, file: nat)

  /** SetFrags comes with the fragments in its buffer, and its length is their number; Audio is any command that asks for
      a word. */
  datatype Command =
    | ReadDisc | Seek | ReadSectors | ReadPart | WriteBuffer | WriteSector | SetFrags(frags: seq<Frag>) | SetDisc | Audio

  function First(answers: seq<Word>): Word {
    if answers == [] then 0 else answers[0]
  }

  function Nth(answers: seq<Word>, i: nat): Word {
    if i < |answers| then answers[i] else 0
  }

  /** The words after the first i. */
  function Later(answers: seq<Word>, i: nat): seq<Word> {
    if i <= |answers| then answers[i..] else []
  }

  lemma LaterOn(answers: seq<Word>, i: nat)
    ensures Later(answers, 0) == answers && First(Later(answers, i)) == Nth(answers, i) && Rest(Later(answers, i)) == Later(answers, i + 1)
  {
  }

  function Rest(answers: seq<Word>): seq<Word> {
    if answers == [] then [] else answers[1..]
  }

  /** The device is told of fragments one by one, up to the first it answers with zero, whose file is the disc from then
      on. */
  ghost predicate SentOut(frags: seq<Frag>, answers: seq<Word>, sent: seq<Frag>, sent': seq<Frag>, disc: nat, disc': nat) {
    exists n: nat :: n <= |frags| && sent' == sent + frags[..n] && Stops(frags, answers, n, disc, disc')
  }

  ghost predicate Stops(frags: seq<Frag>, answers: seq<Word>, n: nat, disc: nat, disc': nat)
    requires n <= |frags|
  {
    && (forall i :: 0 <= i < n - 1 ==> Nth(answers, i) != 0)
    && if n > 0 && Nth(answers, n - 1) == 0 then disc' == frags[n - 1].file else n == |frags| && disc' == disc
  }

  /** A request, with the client its callback belongs to. */
  datatype Job = Job(buffer: nat, length: nat, offset: nat, sector: nat, command: Command, client: nat)

  function ClientOf(q: Job): nat {
    q.client
  }

  /** What the device has been told to do. */
  datatype Order =
    | Nothing
    | Disc(word: nat, size: nat, to: nat)
    | Move
    | Sectors(sector: nat, size: nat, to: nat)
    | Load(sector: nat)
    | Stage(source: nat)
    | Commit(sector: nat)
    | Tell

  /** The state of a callback: which request it is for, the length it is told, its buffer, the card, and the word the
      device answered with, zero for success. */
  datatype Finish = Finish(id: nat, length: nat, data: seq<Byte>, card: seq<Byte>, status: Word)

  /** What a read is to deliver: a disc's offset counts words. */
  predicate Delivers(q: Job, data: seq<Byte>, disc: seq<Byte>, card: seq<Byte>) {
    match q.command
    case ReadDisc => 4 * q.offset + q.length <= |disc| && data == disc[4 * q.offset..4 * q.offset + q.length]
    case Seek => true
    case ReadSectors =>
      512 * q.sector + q.length <= |card| && data == card[512 * q.sector..512 * q.sector + q.length]
    case ReadPart =>
      var start := 512 * q.sector + q.offset;
      start + q.length <= |card| && data == card[start..start + q.length]
    case _ => 512 * q.sector + 512 <= |card| && data == card[512 * q.sector..512 * q.sector + 512]
  }

  /** A card with one sector replaced. */
  function Written(card: seq<Byte>, sector: nat, data: seq<Byte>): seq<Byte>
    requires 512 * sector + 512 <= |card|
  {
    card[..512 * sector] + data + card[512 * sector + 512..]
  }

  /** The sector reads back, and every other sector is as before. */
  lemma WrittenReads(card: seq<Byte>, sector: nat, data: seq<Byte>)
    requires 512 * sector + 512 <= |card| && |data| == 512
    ensures var card' := Written(card, sector, data);
            && |card'| == |card| && card'[512 * sector..512 * sector + 512] == data
            && forall s: nat :: s != sector && 512 * s + 512 <= |card| ==>
                 card'[512 * s..512 * s + 512] == card[512 * s..512 * s + 512]
  {
  }

  /** What a callback finds in the buffer. */
  function Extent(q: Job): nat {
    if q.command.Audio? then 4 else q.length
  }

  /** A callback is told the whole length, and finds the bytes or the word that was asked for; but a write or a list of
      fragments that failed is told of no length. */
  ghost predicate Right(q: Job, f: Finish, disc: seq<Byte>) {
    match q.command
    case Audio => f.length == q.length && f.data == Digits(f.status, 4)
    case SetFrags(_) => f.length == if f.status == 0 then q.length else 0
    case SetDisc => f.length == q.length
    case WriteBuffer => if f.status == 0 then f.length == q.length && Delivers(q, f.data, disc, f.card) else f.length == 0
    case _ => f.length == q.length && Delivers(q, f.data, disc, f.card)
  }

  ghost predicate AllDelivered(asked: seq<Job>, done: seq<nat>, finishes: seq<Finish>, disc: seq<Byte>) {
    |finishes| == |done| && forall i :: 0 <= i < |done| ==> DeliveredAt(asked, done[i], finishes[i], disc)
  }

  ghost predicate DeliveredAt(asked: seq<Job>, id: nat, f: Finish, disc: seq<Byte>) {
    f.id == id < |asked| && Right(asked[id], f, disc)
  }

  lemma AskedMore(asked: seq<Job>, q: Job, done: seq<nat>, finishes: seq<Finish>, disc: seq<Byte>)
    requires AllDelivered(asked, done, finishes, disc)
    ensures AllDelivered(asked + [q], done, finishes, disc)
  {
  }

  lemma FinishedMore(asked: seq<Job>, done: seq<nat>, finishes: seq<Finish>, f: Finish, disc: seq<Byte>)
    requires AllDelivered(asked, done, finishes, disc) && DeliveredAt(asked, f.id, f, disc)
    ensures AllDelivered(asked, done + [f.id], finishes + [f], disc)
  {
  }

  /** A slot holds what was asked for; a write goes on to its second command when it is the one under way. */
  ghost predicate Represents(s: Job, id: nat, asked: seq<Job>, current: bool) {
    id < |asked| && (s == asked[id] || (current && asked[id].command.WriteBuffer? && s == asked[id].(command := WriteSector)))
  }

  ghost predicate AllRepresent(queue: seq<Slot<Job>>, ids: seq<nat>, out: int, queued: int, asked: seq<Job>) {
    |ids| == |queue| && forall k :: Live(queue, out, k) ==> Represents(queue[k].item, ids[k], asked, k == queued)
  }

  lemma PlaceRepresents(queue: seq<Slot<Job>>, ids: seq<nat>, out: int, queued: int, asked: seq<Job>, i: nat, q: Job)
    requires AllRepresent(queue, ids, out, queued, asked) && i < |queue|
    ensures AllRepresent(queue[i := Busy(q)], ids[i := |asked|], out, queued, asked + [q])
  {
  }

  lemma FinishRepresents(queue: seq<Slot<Job>>, ids: seq<nat>, asked: seq<Job>, i: nat)
    requires AllRepresent(queue, ids, -1, i, asked) && i < |queue|
    ensures AllRepresent(queue, ids, i, i, asked)
  {
  }

  lemma FreeRepresents(queue: seq<Slot<Job>>, ids: seq<nat>, asked: seq<Job>, i: nat)
    requires AllRepresent(queue, ids, i, i, asked) && i < |queue|
    ensures AllRepresent(queue[i := Free], ids, -1, -1, asked)
  {
  }

  lemma SecondRepresents(queue: seq<Slot<Job>>, ids: seq<nat>, asked: seq<Job>, i: nat)
    requires AllRepresent(queue, ids, -1, i, asked) && i < |queue| && queue[i].Busy? && queue[i].item.command.WriteBuffer?
    ensures AllRepresent(queue[i := Busy(queue[i].item.(command := WriteSector))], ids, -1, i, asked)
  {
  }

  lemma ChosenRepresents(queue: seq<Slot<Job>>, ids: seq<nat>, asked: seq<Job>, i: nat)
    requires AllRepresent(queue, ids, -1, -1, asked)
    ensures AllRepresent(queue, ids, -1, i, asked)
  {
  }

  function Waiting(queue: seq<Slot<Job>>): (n: nat)
    ensures n <= |queue|
  {
    if queue == [] then 0 else Waiting(queue[1..]) + if queue[0].Busy? then 1 else 0
  }

  lemma {:induction false} FewerWaiting(queue: seq<Slot<Job>>, i: nat)
    requires i < |queue| && queue[i].Busy?
    ensures Waiting(queue[i := Free]) == Waiting(queue) - 1
  {
    var q' := queue[i := Free];
    if i == 0 {
      assert q'[1..] == queue[1..];
    } else {
      FewerWaiting(queue[1..], i - 1);
      assert q'[1..] == queue[1..][i - 1 := Free];
    }
  }

  lemma SameWaiting(queue: seq<Slot<Job>>, i: nat, s: Job)
    requires i < |queue| && queue[i].Busy?
    ensures Waiting(queue[i := Busy(s)]) == Waiting(queue)
  {
    FewerWaiting(queue, i);
    FewerWaiting(queue[i := Busy(s)], i);
    assert queue[i := Busy(s)][i := Free] == queue[i := Free];
  }

  lemma NothingLive(n: nat)
    ensures var q: seq<Slot<Job>> := seq(n, _ => Free);
            AllAccounted(q, seq(n, _ => 0), -1, [], 0) && AllRepresent(q, seq(n, _ => 0), -1, -1, [])
  {
  }

  class Loader {
    const memory: array<Byte>
    const slots: nat
    var queue: seq<Slot<Job>>
    var queued: int
    var lastSector: nat
    var buffer: seq<Byte>

    /** The device: the words it will answer commands with, and zeros after them; the fragments it was told; what it is
        doing, the card, and the sector it was handed to write. */
    var answers: seq<Word>
    var sentFrags: seq<Frag>
    var order: Order
    var card: seq<Byte>
    var staged: seq<Byte>

    const disc: seq<Byte>
    ghost const size: nat
    ghost const clients: nat

    /** The disc whose fragments the device was told last. */
    var currentDisc: nat

    ghost var asked: seq<Job>

    /** The number of the request in each slot, and the callbacks so far. */
    ghost var ids: seq<nat>
    ghost var done: seq<nat>
    ghost var finishes: seq<Finish>
    ghost var finishing: bool

    /** How many requests were refused. */
    ghost var refused: nat

    // ------------------------------------------------------------------- invariant

    ghost function Out(): int
      reads `queued, `finishing
    {
      if finishing then queued else -1
    }

    ghost predicate Accounted()
      reads `queue, `ids, `queued, `finishing, `done, `asked
    {
      AllAccounted(queue, ids, Out(), done, |asked|) && AllRepresent(queue, ids, Out(), queued, asked)
    }

    /** Each callback was told the truth. */
    ghost predicate Delivered()
      reads `done, `finishes, `asked
    {
      AllDelivered(asked, done, finishes, disc)
    }

    /** The kept sector is the card's, unless it is being loaded; and no write to it is under way. */
    ghost predicate Coherent()
      reads `lastSector, `buffer, `order, `card
    {
      && |card| == 512 * size && size <= 0xFFFF_FFFF
      && (lastSector != NONE ==> lastSector < size && (order == Load(lastSector) || Holds(lastSector, buffer)))
      && (order.Commit? ==> order.sector != lastSector)
    }

    ghost predicate Holds(sector: nat, data: seq<Byte>)
      requires sector < size && |card| == 512 * size
      reads `card
    {
      data == card[512 * sector..512 * sector + 512]
    }

    /** A request within its device and within memory. */
    ghost predicate Fits(q: Job) {
      && q.buffer + Extent(q) <= memory.Length && q.client < clients
      && match q.command
         case ReadDisc => 4 * q.offset + q.length <= |disc|
         case Seek => q.length == 0
         case ReadSectors => 512 * q.sector + q.length <= 512 * size
         case ReadPart => q.offset + q.length <= 512 && q.sector < size
         case WriteBuffer => q.length == 512 && q.sector < size
         case WriteSector => false
         case SetFrags(frags) => |frags| == q.length
         case _ => true
    }

    ghost predicate Asked()
      reads `asked
    {
      forall id :: 0 <= id < |asked| ==> Fits(asked[id])
    }

    /** No client has two requests, and with one slot more than there are clients none was ever refused. */
    ghost predicate Polite()
      reads `queue, `queued, `finishing, `refused
    {
      OneEach(queue, Out(), ClientOf, clients) && (slots > clients ==> refused == 0)
    }

    ghost predicate Base()
      reads this
    {
      && |queue| == |ids| == slots && -1 <= queued < slots && Accounted() && Delivered() && Coherent() && Asked() && Polite()
    }

    /** What the device was told for a request. */
    function OrderFor(q: Job): Order {
      match q.command
      case ReadDisc => Disc(q.offset, q.length, q.buffer)
      case Seek => Move
      case ReadSectors => Sectors(q.sector, q.length, q.buffer)
      case ReadPart => Load(q.sector)
      case WriteBuffer => Stage(q.buffer)
      case WriteSector => Commit(q.sector)
      case _ => Tell
    }

    /** One request is under way, and the device is busy with it. */
    ghost predicate InFlight()
      reads this, memory
    {
      && Current() && !finishing && order == OrderFor(queue[queued].item)
      && (order.Load? ==> lastSector == order.sector)
      && (order.Commit? ==> IsStaged())
    }

    ghost predicate Current()
      reads `queue, `queued
    {
      0 <= queued < |queue| && queue[queued].Busy?
    }

    /** What the device was handed is what the request's buffer holds. */
    ghost predicate IsStaged()
      requires Current()
      reads `queue, `queued, `staged, memory
    {
      var q := queue[queued].item;
      q.buffer + 512 <= memory.Length && staged == memory[q.buffer..q.buffer + 512]
    }

    ghost predicate Idle()
      reads this
    {
      queued == -1 && order == Nothing && !finishing && forall k :: 0 <= k < |queue| ==> queue[k].Free?
    }

    /** Nothing waits unless something is under way. */
    ghost predicate Valid()
      reads this, memory
    {
      Base() && (InFlight() || Idle())
    }

    constructor (memory: array<Byte>, slots: nat, card: seq<Byte>, disc: seq<Byte>, answers: seq<Word>, ghost size: nat, ghost clients: nat)
      requires |card| == 512 * size && size <= 0xFFFF_FFFF
      ensures Valid() && this.memory == memory && this.slots == slots && this.card == card && this.disc == disc
      ensures this.size == size && this.clients == clients && asked == [] && done == [] && this.answers == answers && sentFrags == []
    {
      hide AllAccounted, AllRepresent;
      NothingLive(slots);
      this.memory, this.slots, this.card, this.disc, this.size, this.clients := memory, slots, card, disc, size, clients;
      queue, queued, lastSector, buffer := seq(slots, _ => Free), -1, NONE, [];
      order, staged, sentFrags, this.answers := Nothing, [], [], answers;
      asked, ids, done, finishes, finishing, refused := [], seq(slots, _ => 0), [], [], false, 0;
      currentDisc := 0;
    }

    // ----------------------------------------------------------------- the device

    /** What the device has done for the request under way. */
    ghost predicate Ready(status: Word)
      requires Current()
      reads `queue, `queued, `lastSector, `staged, `card, memory
    {
      var q := queue[queued].item;
      && q.buffer + Extent(q) <= memory.Length
      && match q.command
         case ReadPart => lastSector == q.sector
         case WriteBuffer => IsStaged()
         case SetFrags(_) => true
         case SetDisc => true
         case Audio => true
         case WriteSector => status == 0 ==> Delivers(q, memory[q.buffer..q.buffer + q.length], disc, card)
         case _ => Delivers(q, memory[q.buffer..q.buffer + q.length], disc, card)
    }

    /** The request under way is within its device and within memory. */
    lemma CurrentFits()
      requires Base() && Current() && !finishing
      ensures var q := queue[queued].item; Fits(q) || (q.command.WriteSector? && Fits(q.(command := WriteBuffer)))
      ensures Represents(queue[queued].item, ids[queued], asked, true)
    {
    }

    method NextWord() returns (word: Word)
      modifies `answers
      ensures word == First(old(answers)) && answers == Rest(old(answers))
    {
      word := First(answers);
      answers := Rest(answers);
    }

    /** The device carries out its order; a write or a command is answered with a word, zero for success. */
    method Carry() returns (status: Word)
      requires Valid() && InFlight()
      modifies `order, `card, `buffer, `staged, `answers, memory
      ensures Base() && order == Nothing && Current() && !finishing && Ready(status)
      ensures old(order).Commit? ==> card == if status == 0 then Written(old(card), old(order).sector, old(staged)) else old(card)
      ensures !old(order).Commit? ==> card == old(card)
      ensures status == (if old(order.Commit? || order.Tell?) then First(old(answers)) else 0)
      ensures answers == if old(order.Commit? || order.Tell?) then Rest(old(answers)) else old(answers)
    {
      hide AllAccounted, AllRepresent, Delivered, Written;
      CurrentFits();
      status := Transfer();
    }

    method Transfer() returns (status: Word)
      requires InFlight() && Coherent()
      requires var q := queue[queued].item; Fits(q) || (q.command.WriteSector? && Fits(q.(command := WriteBuffer)))
      modifies `order, `card, `buffer, `staged, `answers, memory
      ensures order == Nothing && Coherent() && Ready(status)
      ensures old(order).Commit? ==> card == if status == 0 then Written(old(card), old(order).sector, old(staged)) else old(card)
      ensures !old(order).Commit? ==> card == old(card)
      ensures status == (if old(order.Commit? || order.Tell?) then First(old(answers)) else 0)
      ensures answers == if old(order.Commit? || order.Tell?) then Rest(old(answers)) else old(answers)
    {
      hide Written, First, Rest, Digits, LengthTold, Delivers;
      if order.Commit? || order.Tell? {
        status := Obey();
      } else {
        status := 0;
        Bring();
      }
      order := Nothing;
    }

    /** A write or a command, which is answered. */
    method Obey() returns (status: Word)
      requires InFlight() && Coherent() && (order.Commit? || order.Tell?)
      requires var q := queue[queued].item; Fits(q) || (q.command.WriteSector? && Fits(q.(command := WriteBuffer)))
      modifies `card, `answers
      ensures Coherent() && Ready(status) && status == First(old(answers)) && answers == Rest(old(answers))
      ensures card == if order.Commit? && status == 0 then Written(old(card), order.sector, staged) else old(card)
    {
      hide Written, First, Rest, Digits;
      if order.Commit? {
        status := WriteCard(order.sector);
      } else {
        status := NextWord();
      }
    }

    /** The bytes asked for. */
    method Bring()
      requires InFlight() && Coherent() && !(order.Commit? || order.Tell?) && Fits(queue[queued].item)
      modifies `buffer, `staged, memory
      ensures Coherent() && Ready(0) && (lastSector != NONE ==> lastSector < size && Holds(lastSector, buffer))
    {
      ghost var q := queue[queued].item;
      match order {
        case Move =>
          assert q.command == Seek;
        case Disc(word, size, to) =>
          Fetch(disc[4 * word..4 * word + size]);
        case Sectors(sector, size, to) =>
          Fetch(card[SECTOR_SIZE * sector..SECTOR_SIZE * sector + size]);
        case Load(sector) =>
          buffer := card[SECTOR_SIZE * sector..SECTOR_SIZE * sector + SECTOR_SIZE];
          assert q.command == ReadPart;
        case Stage(source) =>
          staged := memory[source..source + SECTOR_SIZE];
          assert q.command == WriteBuffer;
        case _ =>
      }
    }

    /** A read straight into the request's buffer. */
    method Fetch(data: seq<Byte>)
      requires Current() && queue[queued].item.buffer + |data| <= memory.Length
      requires var q := queue[queued].item;
               (q.command.ReadDisc? || q.command.ReadSectors?) && |data| == q.length && Delivers(q, data, disc, card)
      modifies memory
      ensures Ready(0)
    {
      StoreAt(memory, queue[queued].item.buffer, data);
    }

    /** The sector handed over is written, or not. */
    method WriteCard(sector: nat) returns (status: Word)
      requires Coherent() && sector < size && sector != lastSector && |staged| == 512
      modifies `card, `answers
      ensures status == First(old(answers)) && answers == Rest(old(answers))
      ensures card == if status == 0 then Written(old(card), sector, staged) else old(card)
      ensures Coherent() && (status == 0 ==> card[512 * sector..512 * sector + 512] == staged)
    {
      status := NextWord();
      if status == 0 {
        WrittenReads(card, sector, staged);
        card := Written(card, sector, staged);
      }
    }

    // ----------------------------------------------------------------- completion

    ghost predicate InCallback()
      reads this
    {
      Base() && order == Nothing && Current() && finishing
    }

    /** The request under way is the lowest one that is left. */
    ghost predicate Lowest()
      reads `queue, `queued
    {
      forall k :: 0 <= k < queued && k < |queue| ==> queue[k].Free?
    }

    /** Part of the kept sector is asked for. */
    ghost predicate Kept()
      requires Current()
      reads `queue, `queued, `lastSector
    {
      queue[queued].item.command.ReadPart? && queue[queued].item.sector == lastSector
    }

    /** gcode_read_queued: tells the device, or finishes a request for the kept sector. */
    method ReadQueued(plans: seq<seq<Job>>)
      requires Base() && order == Nothing && Current() && !finishing && Planned(plans)
      requires queue[queued].item.command.WriteSector? ==> IsStaged()
      modifies `queue, `queued, `lastSector, `order, `staged, `asked, `ids, `done, `finishes, `finishing, `refused, `currentDisc, `answers, `sentFrags, memory
      ensures Valid() && old(asked) <= asked && unchanged(`currentDisc, `answers, `sentFrags)
      ensures if old(Kept()) then old(done + [ids[queued]]) <= done && Lowest()
              else InFlight() && unchanged(`queue, `queued, `asked, `done, memory)
      decreases |plans|, Waiting(queue), 2
    {
      hide AllAccounted, AllRepresent, AllDelivered, OneEach, Outstanding;
      CurrentFits();
      var q := queue[queued].item;
      if q.command.ReadPart? {
        if q.sector == lastSector {
          DoneQueued(0, plans);
          return;
        }
        lastSector := q.sector;
      } else if q.command.WriteSector? && lastSector == q.sector {
        lastSector := NONE;
      }
      order := OrderFor(q);
    }

    /** Callbacks ask for requests within their device. */
    ghost predicate Planned(plans: seq<seq<Job>>) {
      forall i, j :: 0 <= i < |plans| && 0 <= j < |plans[i]| ==> Fits(plans[i][j])
    }

    /** gcode_done_queued: the second half of a write, or the callback and then the next request that waits. Further
        requests may be finished in the course of it; plans says what each callback in turn asks for. */
    method DoneQueued(status: Word, plans: seq<seq<Job>>)
      requires Base() && order == Nothing && Current() && !finishing && Planned(plans) && Ready(status)
      modifies `queue, `queued, `lastSector, `order, `staged, `asked, `ids, `done, `finishes, `finishing, `refused, `currentDisc, `answers, `sentFrags, memory
      ensures Valid() && old(asked) <= asked
      ensures if old(queue[queued].item.command).WriteBuffer? then
                InFlight() && order.Commit? && queued == old(queued) && unchanged(`asked, `done, memory)
              else old(done + [ids[queued]]) <= done && Lowest()
      ensures Chosen(old(queue[queued].item), status, old(answers))
      decreases |plans|, Waiting(queue), if queue[queued].item.command.WriteBuffer? then 3 else 1
    {
      hide AllAccounted, AllRepresent, AllDelivered, OneEach, Outstanding;
      var q := queue[queued].item;
      CurrentFits();
      if q.command.WriteBuffer? {
        SecondHalf();
        ReadQueued(plans);
        return;
      }
      Answer(status);
      FinishNow(LengthTold(q, status), status);
      if plans != [] {
        Callback(plans[0]);
      }
      GoOn(if plans != [] then plans[1..] else []);
    }

    /** After the callback: the next request that waits. */
    method GoOn(plans: seq<seq<Job>>)
      requires InCallback() && Planned(plans)
      modifies `queue, `queued, `lastSector, `order, `staged, `asked, `ids, `done, `finishes, `finishing, `refused, `currentDisc, `answers, `sentFrags, memory
      ensures Valid() && old(asked) <= asked && old(done) <= done && Lowest() && unchanged(`currentDisc, `answers, `sentFrags)
      decreases |plans|, Waiting(queue), 0
    {
      hide AllAccounted, AllRepresent, AllDelivered, OneEach, Outstanding;
      Release();
      if queued != -1 {
        ReadQueued(plans);
      }
    }

    /** What the callback is told of the length. */
    function LengthTold(q: Job, status: Word): nat {
      if status != 0 && (q.command.WriteSector? || q.command.SetFrags?) then 0 else q.length
    }

    /** What a request makes of the device: a command for a disc's number or fragments that succeeded chooses the disc. */
    twostate predicate Chosen(q: Job, status: Word, words: seq<Word>)
      reads this
    {
      if q.command.SetFrags? && status == 0 then
        SentOut(q.command.frags, words, old(sentFrags), sentFrags, old(currentDisc), currentDisc)
      else
        && sentFrags == old(sentFrags) && answers == words
        && currentDisc == if q.command.SetDisc? && status == 0 then q.offset else old(currentDisc)
    }

    /** What is done with the device's answer, before the callback. */
    method Answer(status: Word)
      requires Current() && Coherent() && order == Nothing && Ready(status) && !queue[queued].item.command.WriteBuffer?
      requires Fits(queue[queued].item) || queue[queued].item.command.WriteSector?
      modifies `currentDisc, `answers, `sentFrags, memory
      ensures Told(queue[queued].item, LengthTold(queue[queued].item, status), status)
      ensures Chosen(queue[queued].item, status, old(answers))
    {
      hide Digits, Coherent, Fits;
      var q := queue[queued].item;
      match q.command {
        case ReadPart =>
          CopyKept();
        case Audio =>
          StoreAt(memory, q.buffer, Digits(status, 4));
        case SetFrags(frags) =>
          if status == 0 {
            SendFrags(frags);
          }
        case SetDisc =>
          if status == 0 {
            currentDisc := q.offset;
          }
        case _ =>
      }
    }

    /** The fragments are sent one by one, until the device says that it has them. */
    method SendFrags(frags: seq<Frag>)
      modifies `currentDisc, `answers, `sentFrags
      ensures SentOut(frags, old(answers), old(sentFrags), sentFrags, old(currentDisc), currentDisc)
    {
      hide First, Rest, Nth, Later;
      ghost var (words, sent) := (answers, sentFrags);
      var i := 0;
      LaterOn(words, 0);
      while i < |frags|
        invariant 0 <= i <= |frags| && currentDisc == old(currentDisc) && sentFrags == sent + frags[..i]
        invariant answers == Later(words, i) && forall k :: 0 <= k < i ==> Nth(words, k) != 0
      {
        LaterOn(words, i);
        sentFrags := sentFrags + [frags[i]];
        assert sentFrags == sent + frags[..i + 1];
        var status := NextWord();
        if status == 0 {
          currentDisc := frags[i].file;
          assert Stops(frags, words, i + 1, old(currentDisc), currentDisc);
          return;
        }
        i := i + 1;
      }
      assert Stops(frags, words, i, old(currentDisc), currentDisc);
    }

    /** Part of the kept sector goes to the request's buffer. */
    method CopyKept()
      requires Coherent() && order == Nothing && Current() && queue[queued].item.command.ReadPart?
      requires Fits(queue[queued].item) && lastSector == queue[queued].item.sector
      modifies memory
      ensures var q := queue[queued].item; Delivers(q, memory[q.buffer..q.buffer + q.length], disc, card)
    {
      var q := queue[queued].item;
      SliceOfSlice(card, 512 * q.sector, 512 * q.sector + 512, q.offset, q.offset + q.length);
      StoreAt(memory, q.buffer, buffer[q.offset..q.offset + q.length]);
    }

    /** A write goes on with its second command. */
    method SecondHalf()
      requires Base() && order == Nothing && Current() && !finishing && queue[queued].item.command.WriteBuffer? && IsStaged()
      modifies `queue
      ensures Base() && Current() && queue[queued].item.command.WriteSector? && IsStaged() && Waiting(queue) == old(Waiting(queue))
    {
      hide AllAccounted, AllRepresent, AllDelivered, OneEach, Outstanding;
      var q := queue[queued].item.(command := WriteSector);
      SameAccounted(queue, ids, done, |asked|, queued, q);
      SecondRepresents(queue, ids, asked, queued);
      SameOneEach(queue, ClientOf, clients, queued, q);
      SameWaiting(queue, queued, q);
      queue := queue[queued := Busy(q)];
    }

    /** What the callback finds. */
    ghost method FinishNow(length: nat, status: Word)
      requires Base() && order == Nothing && Current() && !finishing && !queue[queued].item.command.WriteBuffer?
      requires Told(queue[queued].item, length, status)
      modifies `done, `finishes, `finishing
      ensures InCallback() && done == old(done) + [ids[queued]]
    {
      hide AllAccounted, AllRepresent, AllDelivered, OneEach, Outstanding;
      var q := queue[queued].item;
      CurrentFits();
      FinishAccounted(queue, ids, done, |asked|, queued);
      FinishRepresents(queue, ids, asked, queued);
      FinishOneEach(queue, ClientOf, clients, queued);
      var f := Finish(ids[queued], length, memory[q.buffer..q.buffer + Extent(q)], card, status);
      assert Right(asked[ids[queued]], f, disc);
      FinishedMore(asked, done, finishes, f, disc);
      done := done + [ids[queued]];
      finishes := finishes + [f];
      finishing := true;
    }

    /** What the callback is told and finds is right, also after the second command of a write. */
    ghost predicate Told(q: Job, length: nat, status: Word)
      reads memory, `card
    {
      && q.buffer + Extent(q) <= memory.Length
      && var f := Finish(0, length, memory[q.buffer..q.buffer + Extent(q)], card, status);
      Right(if q.command.WriteSector? then q.(command := WriteBuffer) else q, f, disc)
    }

    /** Whether a client's request waits, besides the one whose callback is running. */
    predicate Waits(client: nat)
      reads `queue, `queued
    {
      exists k :: 0 <= k < |queue| && k != queued && queue[k].Busy? && queue[k].item.client == client
    }

    lemma NoneWaits(client: nat)
      requires !Waits(client)
      ensures !Outstanding(queue, queued, ClientOf, client)
    {
    }

    /** The callback: clients that have no request may ask for one. It has to wait, for the finished request is still in
        the queue; but with one slot more than there are clients it is never refused. */
    method Callback(plan: seq<Job>)
      requires InCallback() && forall i :: 0 <= i < |plan| ==> Fits(plan[i])
      modifies `queue, `queued, `lastSector, `order, `staged, `asked, `ids, `done, `finishes, `finishing, `refused, `currentDisc, `answers, `sentFrags, memory
      ensures InCallback() && old(asked) <= asked && done == old(done) && queued == old(queued) && unchanged(`currentDisc, `answers, `sentFrags)
      decreases 0, |queue| + 2, 0
    {
      hide AllAccounted, AllRepresent, AllDelivered, OneEach, Outstanding;
      var i := 0;
      while i < |plan|
        invariant 0 <= i <= |plan| && InCallback() && old(asked) <= asked && done == old(done) && queued == old(queued)
        invariant unchanged(`currentDisc, `answers, `sentFrags)
      {
        if !Waits(plan[i].client) {
          NoneWaits(plan[i].client);
          var ok := PushQueue(plan[i], []);
          assert slots > clients ==> ok;
        }
        i := i + 1;
      }
    }

    /** The slot is free again; the lowest busy one is next. */
    method Release()
      requires InCallback()
      modifies `queue, `queued, `finishing
      ensures Base() && !finishing && Waiting(queue) == old(Waiting(queue)) - 1
      ensures queued == -1 ==> Idle()
      ensures Lowest()
      ensures queued != -1 ==> Current() && !queue[queued].item.command.WriteSector?
    {
      hide AllAccounted, AllDelivered, OneEach, Outstanding;
      FreeAccounted(queue, ids, done, |asked|, queued);
      FreeRepresents(queue, ids, asked, queued);
      FreeOneEach(queue, ClientOf, clients, queued);
      FewerWaiting(queue, queued);
      queue := queue[queued := Free];
      finishing, queued := false, -1;
      var i := 0;
      while i < |queue|
        invariant 0 <= i <= |queue| && queued == -1 && Base() && forall k :: 0 <= k < i ==> queue[k].Free?
      {
        if queue[i].Busy? {
          assert Live(queue, -1, i);
          ChosenRepresents(queue, ids, asked, i);
          queued := i;
          return;
        }
        i := i + 1;
      }
    }

    // ------------------------------------------------------------------- requests

    /** gcode_push_queue: refused only when every slot is taken, and so never when there is one slot more than clients
        and the client has no other request. It may be called from a callback. */
    method PushQueue(q: Job, plans: seq<seq<Job>>) returns (ok: bool)
      requires (Valid() || InCallback()) && Fits(q) && Planned(plans) && !Outstanding(queue, Out(), ClientOf, q.client)
      modifies `queue, `queued, `lastSector, `order, `staged, `asked, `ids, `done, `finishes, `finishing, `refused, `currentDisc, `answers, `sentFrags, memory
      ensures ok <==> exists k :: 0 <= k < |old(queue)| && old(queue)[k].Free?
      ensures slots > clients ==> ok
      ensures ok ==> old(asked) + [q] <= asked
      ensures !ok ==> asked == old(asked) && queue == old(queue) && refused == old(refused) + 1
      ensures old(Valid()) ==> Valid() && old(done) <= done
      ensures old(InCallback()) ==> InCallback() && done == old(done) && queued == old(queued)
      ensures unchanged(`currentDisc, `answers, `sentFrags)
      decreases |plans|, |queue| + 1, 0
    {
      hide AllAccounted, AllRepresent, AllDelivered, OneEach, Outstanding;
      var i := 0;
      while i < |queue|
        invariant 0 <= i <= |queue| && forall k :: 0 <= k < i ==> queue[k].Busy?
      {
        if queue[i].Free? {
          Place(i, q);
          if queued == -1 {
            ChosenRepresents(queue, ids, asked, i);
            queued := i;
            ReadQueued(plans);
          }
          return true;
        }
        i := i + 1;
      }
      if slots > clients {
        RoomForOneMore(queue, Out(), ClientOf, clients, q.client);
      }
      refused := refused + 1;
      ok := false;
    }

    method Place(i: nat, q: Job)
      requires Base() && Fits(q) && i < |queue| && queue[i].Free? && i != Out() && !Outstanding(queue, Out(), ClientOf, q.client)
      modifies `queue, `ids, `asked
      ensures Base() && asked == old(asked) + [q] && queue == old(queue)[i := Busy(q)]
    {
      hide AllAccounted, AllRepresent, AllDelivered, OneEach, Outstanding;
      PlaceAccounted(queue, ids, Out(), done, |asked|, i, Busy(q));
      AskedMore(asked, q, done, finishes, disc);
      PlaceOneEach(queue, Out(), ClientOf, clients, i, q);
      PlaceRepresents(queue, ids, Out(), queued, asked, i, q);
      queue := queue[i := Busy(q)];
      ids := ids[i := |asked|];
      asked := asked + [q];
    }

    /** The device's interrupt: the request under way is finished, unless it was the first half of a write. Nothing but
        a successful write changes the card. */
    method Interrupt(plans: seq<seq<Job>>) returns (status: Word)
      requires Valid() && InFlight() && Planned(plans)
      modifies this, memory
      ensures Valid() && old(asked) <= asked
      ensures if old(order).Stage? then InFlight() && order.Commit? && queued == old(queued) && done == old(done)
              else old(done + [ids[queued]]) <= done && Lowest()
      ensures old(order).Commit? && status == 0 ==> old(IsStaged()) && card == Written(old(card), old(order).sector, old(staged))
      ensures !(old(order).Commit? && status == 0) ==> card == old(card)
      ensures status == if old(order.Commit? || order.Tell?) then First(old(answers)) else 0
      ensures Chosen(old(queue[queued].item), status, if old(order.Commit? || order.Tell?) then Rest(old(answers)) else old(answers))
    {
      hide AllAccounted, AllRepresent, AllDelivered, OneEach, Outstanding;
      status := Carry();
      DoneQueued(status, plans);
    }

    /** When nothing is under way, every request that was accepted has been finished, and exactly once. */
    lemma EverythingFinished()
      requires Valid() && queued == -1
      ensures |done| == |asked| && forall id :: 0 <= id < |asked| ==> id in done
    {
      hide AllRepresent, AllDelivered, OneEach;
      AllFinished(queue, ids, done, |asked|);
    }

    // --------------------------------------------------------------- what clients ask for

    /** do_read_write_async: whole sectors straight into an aligned buffer, or else part of one sector. */
    method ReadWriteAsync(to: nat, length: nat, offset: nat, sector: nat, write: bool, client: nat, plans: seq<seq<Job>>)
      returns (ok: bool)
      requires Valid() && Planned(plans) && client < clients && !Outstanding(queue, Out(), ClientOf, client)
      requires if write then to + 512 <= memory.Length && offset / 512 + sector < size
               else to + length <= memory.Length && 512 * sector + offset + Max(length, 1) <= 512 * size
      modifies `queue, `queued, `lastSector, `order, `staged, `asked, `ids, `done, `finishes, `finishing, `refused, `currentDisc, `answers, `sentFrags, memory
      ensures Valid() && old(done) <= done && old(asked) <= asked
      ensures ok <==> exists k :: 0 <= k < |old(queue)| && old(queue)[k].Free?
      ensures slots > clients ==> ok
      ensures ok ==> |asked| > |old(asked)| && AsksFor(asked[|old(asked)|], to, length, offset, sector, write)
    {
      hide AsksFor;
      var q := JobFor(to, length, offset, sector, write, client);
      ok := PushQueue(q, plans);
    }

    function JobFor(to: nat, length: nat, offset: nat, sector: nat, write: bool, client: nat): (q: Job)
      ensures q.client == client && (q.command.WriteBuffer? || q.command.ReadSectors? || q.command.ReadPart?)
      ensures AsksFor(q, to, length, offset, sector, write) && q.buffer == to
      ensures write <==> q.command.WriteBuffer?
      ensures q.command.WriteBuffer? ==> q.length == 512 && q.sector == offset / 512 + sector
      ensures q.command.ReadSectors? || q.command.ReadPart? ==>
        q.length <= length && 512 * q.sector <= 512 * sector + offset
      ensures q.command.ReadSectors? ==> 512 * q.sector == 512 * sector + offset
      ensures q.command.ReadPart? ==> 512 * q.sector + q.offset == 512 * sector + offset && q.offset + q.length <= 512
    {
      var (s, o) := (offset / SECTOR_SIZE + sector, offset % SECTOR_SIZE);
      if write then Job(to, SECTOR_SIZE, o, s, WriteBuffer, client)
      else if to % 32 + o != 0 then Job(to, Min(length, SECTOR_SIZE - o), o, s, ReadPart, client)
      else Job(to, length, o, s, ReadSectors, client)
    }

    /** A read is for bytes from the offset on: all that was asked for, into an aligned buffer from the start of a sector,
        or else as far as the sector goes; a write is for a whole sector. */
    ghost predicate AsksFor(q: Job, to: nat, length: nat, offset: nat, sector: nat, write: bool) {
      && q.buffer == to
      && if write then q.command.WriteBuffer? && 512 * q.sector <= 512 * sector + offset < 512 * q.sector + 512
         else
           && (if to % 32 == 0 && offset % 512 == 0 then q.command.ReadSectors? && q.length == length
               else q.command.ReadPart? && q.length == Min(length, 512 - offset % 512))
           && forall data, card: seq<Byte> :: 512 * sector + offset + q.length <= |card| ==>
                (Delivers(q, data, disc, card) <==>
                 data == card[512 * sector + offset..512 * sector + offset + q.length])
    }
  }
}
