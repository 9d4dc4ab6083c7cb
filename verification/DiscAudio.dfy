/** Streaming of disc audio: blocks of 512 bytes are read ahead of the consumer, one read at a time, while commands
    start, chain and cut off tracks. */
module DiscAudio {
  import opened Bytes
  import opened Fifo
  import opened Adpcm

  const BLOCK_BYTES := 512
  const BLOCK_SAMPLES := 448
  const GRAIN := 0x8000

  datatype Track = Track(start: nat, length: nat)

  /** Where the decoding stands. */
  datatype Stand = Stand(position: nat, current: Track, next: Track, playing: bool, stopping: bool, state: State)

  class Streamer {
    const fifo: Ring<Sample>
    const adpcm: Decoder
    var reading: bool
    var playing: bool
    var stopping: bool
    var flushing: bool
    var position: nat
    var current: Track
    var next: Track

    /** The device: the disc's contents, which of the next reads it accepts, and all after them, when in turn it
        completes a read at once, whether a read is under way, and where it reads from. */
    const disc: seq<Byte>
    var accepts: seq<bool>
    var hurries: seq<bool>
    var busy: bool
    var wanted: nat

    constructor (size: nat, disc: seq<Byte>, accepts: seq<bool>, hurries: seq<bool>)
      requires size >= 448
      ensures Valid() && this.disc == disc && !playing && !reading && !stopping
      ensures this.accepts == accepts && this.hurries == hurries
    {
      this.accepts, this.hurries := accepts, hurries;
      fifo := new Ring(size);
      adpcm := new Decoder();
      reading, playing, stopping, flushing, position := false, false, false, false, 0;
      current, next, wanted, busy := Track(0, 0), Track(0, 0), 0, false;
      this.disc := disc;
    }

    /** Tracks are laid out in units of 32 KB. */
    ghost predicate OnDisc(t: Track) {
      0 < t.length && t.length % 0x8000 == 0 && t.start + t.length <= |disc|
    }

    /** Outside the functions here, reading is set while a read is under way; it may be set without one. */
    ghost predicate Valid()
      reads this, fifo, adpcm
    {
      Sound() && (busy || flushing ==> reading)
    }

    ghost predicate Sound()
      reads this, fifo, adpcm
    {
      && fifo.Valid() && fifo.buffer.Length >= 448
      && (if playing then InTrack(Now()) else adpcm.state == SILENCE)
      && (busy && !flushing ==> playing && wanted == position && fifo.Space() >= 448)
    }

    ghost function Now(): Stand
      reads `position, `current, `next, `playing, `stopping, adpcm
    {
      Stand(position, current, next, playing, stopping, adpcm.state)
    }

    /** The position moves in blocks inside the track, and the decoder's history is that of the track up to there. */
    ghost predicate InTrack(st: Stand) {
      && OnDisc(st.current) && OnDisc(st.next)
      && st.current.start <= st.position < st.current.start + st.current.length && (st.position - st.current.start) % 512 == 0
      && st.position + 512 <= |disc| && st.state == Played(st.current.start, st.position).1
    }

    /** What the bytes between two positions decode to, from silence. */
    ghost function Played(from: nat, to: nat): (seq<Sample>, State)
      requires from <= to <= |disc|
    {
      Blocks(disc[from..to], (to - from) / 32, SILENCE)
    }

    /** The next block's samples; at the end of a track the next one begins, or silence. */
    ghost function Onward(st: Stand): (seq<Sample>, Stand)
      requires st.position + 512 <= |disc|
    {
      var (s, state) := Blocks(disc[st.position..st.position + 512], 16, st.state);
      var position := st.position + 512;
      (s, if position != st.current.start + st.current.length then st.(position := position, state := state)
          else Stand(st.next.start, st.next, st.next, st.playing && !st.stopping, false, SILENCE))
    }

    /** n blocks on, as long as there is something playing. */
    ghost function OnwardBy(st: Stand, n: nat): (seq<Sample>, Stand)
    {
      if n == 0 then ([], st) else
        var (s, st') := OnwardBy(st, n - 1);
        if st'.position + 512 > |disc| then (s, st') else var (t, st2) := Onward(st'); (s + t, st2)
    }

    /** The device accepts every read. */
    ghost predicate Willing()
      reads `accepts
    {
      false !in accepts
    }

    /** It completes none inside the call that asks for it. */
    ghost predicate Patient()
      reads `hurries
    {
      true !in hurries
    }

    method Accepts() returns (yes: bool)
      modifies `accepts
      ensures yes == (old(accepts) == [] || old(accepts[0])) && accepts == if old(accepts) == [] then [] else old(accepts)[1..]
    {
      yes := accepts == [] || accepts[0];
      if accepts != [] {
        accepts := accepts[1..];
      }
    }

    method Hurries() returns (yes: bool)
      modifies `hurries
      ensures yes == (old(hurries) != [] && old(hurries[0])) && hurries == if old(hurries) == [] then [] else old(hurries)[1..]
    {
      yes := hurries != [] && hurries[0];
      if hurries != [] {
        hurries := hurries[1..];
      }
    }

    /** dtk_fill_buffer: at most one read, and only with room for all it will bring. The device may refuse it, or
        complete it and others before the call returns, inside of them; then the flag is set, and it stays set without a
        read under way exactly if the last of them left nothing playing, too little room, or a read that was refused. */
    method FillBuffer() returns (r: bool, ghost inside: nat, ghost refused: bool)
      requires Valid()
      modifies `reading, `flushing, `busy, `wanted, `accepts, `hurries, `position, `current, `stopping, `playing, fifo, fifo.buffer, adpcm
      ensures Valid() && (r <==> reading) && flushing == old(flushing)
      ensures old(reading) ==> reading && inside == 0 && busy == old(busy) && wanted == old(wanted)
      ensures !old(reading) ==> (reading <==> busy || inside > 0)
      ensures !old(reading) ==> (busy <==> playing && fifo.Space() >= 448 && !refused)
      ensures !old(playing) ==> inside == 0
      ensures (old(Willing()) ==> Willing() && !refused) && (old(Patient()) ==> Patient() && inside == 0)
      ensures old(!reading && playing && fifo.Space() >= 448 && Patient()) ==>
        busy == (old(accepts) == [] || old(accepts[0])) && (busy ==> wanted == position)
      ensures WentOn(old(Now()), old(fifo.Contents()), inside) && next == old(next) && fifo.Space() <= old(fifo.Space())
      decreases fifo.Space(), 3
    {
      WentNone();
      inside, refused := 0, false;
      if reading {
        return true, 0, false;
      }
      if !playing {
        return false, 0, false;
      }
      if fifo.Space() < BLOCK_SAMPLES {
        return false, 0, false;
      }
      reading, inside, refused := Submit();
      r := reading;
    }

    /** After n more blocks: where the decoding stands, and what the fifo holds. */
    ghost predicate WentOn(was: Stand, held: seq<Sample>, n: nat)
      requires fifo.Valid()
      reads `position, `current, `next, `playing, `stopping, fifo, fifo.buffer, adpcm
    {
      Now() == OnwardBy(was, n).1 && fifo.Contents() == held + OnwardBy(was, n).0
    }

    lemma WentNone()
      requires fifo.Valid()
      ensures WentOn(Now(), fifo.Contents(), 0)
    {
    }

    lemma WentBlocks(was: Stand, held: seq<Sample>, k: nat)
      requires fifo.Valid() && WentOn(was, held, k)
      ensures (held + OnwardBy(was, k).0, OnwardBy(was, k).1) == (fifo.Contents(), Now())
    {
    }

    lemma WentMore(was: Stand, held: seq<Sample>, k: nat, mid: Stand, held': seq<Sample>, n: nat)
      requires fifo.Valid() && (held', mid) == (held + OnwardBy(was, k).0, OnwardBy(was, k).1) && WentOn(mid, held', n)
      ensures WentOn(was, held, k + n)
    {
      hide Onward, Ring.Contents;
      OnwardSplit(was, k, n);
      assert held + OnwardBy(was, k).0 + OnwardBy(mid, n).0 == held + (OnwardBy(was, k).0 + OnwardBy(mid, n).0);
    }

    lemma {:induction false} OnwardSplit(st: Stand, k: nat, n: nat)
      ensures var (s, mid) := OnwardBy(st, k);
              var (t, end) := OnwardBy(mid, n);
              OnwardBy(st, k + n) == (s + t, end)
      decreases n
    {
      hide Onward;
      var (s, mid) := OnwardBy(st, k);
      if n == 0 {
        assert s + [] == s;
      } else {
        OnwardSplit(st, k, n - 1);
        var (t, st') := OnwardBy(mid, n - 1);
        if st'.position + 512 <= |disc| {
          assert s + t + Onward(st').0 == s + (t + Onward(st').0);
        }
      }
    }

    /** The device takes the read, or not; it may complete it, and those its callback asks for, at once. */
    method Submit() returns (accepted: bool, ghost inside: nat, ghost refused: bool)
      requires Sound() && !flushing && !busy && !reading && playing && fifo.Space() >= 448
      modifies `reading, `flushing, `busy, `wanted, `accepts, `hurries, `position, `current, `stopping, `playing, fifo, fifo.buffer, adpcm
      ensures Sound() && !flushing && next == old(next)
      ensures if accepted then busy || inside > 0 else !busy && inside == 0
      ensures (old(Willing()) ==> Willing() && !refused) && (old(Patient()) ==> Patient() && inside == 0)
      ensures accepted == (old(accepts) == [] || old(accepts[0]))
      ensures busy <==> playing && fifo.Space() >= 448 && !refused
      ensures WentOn(old(Now()), old(fifo.Contents()), inside) && fifo.Space() <= old(fifo.Space())
      decreases fifo.Space(), 2
    {
      hide Blocks, Played, WentOn, Ring.Contents;
      ghost var (was, held) := (Now(), fifo.Contents());
      WentNone();
      inside, refused := 0, false;
      accepted := Accepts();
      if !accepted {
        refused := true;
        return;
      }
      wanted := position;
      busy := true;
      var now := Hurries();
      while busy && now
        invariant Sound() && !flushing && next == old(next) && (busy || inside > 0)
        invariant busy <==> playing && fifo.Space() >= 448 && !refused
        invariant WentOn(old(Now()), old(fifo.Contents()), inside)
        invariant fifo.Space() <= old(fifo.Space())
        invariant (old(Willing()) ==> Willing() && !refused) && (old(Patient()) ==> Patient() && inside == 0 && !now)
        decreases fifo.Space()
      {
        inside, refused := Complete(was, held, inside);
        now := Hurries();
      }
    }

    /** The device delivers what the disc holds. */
    method Complete(ghost was: Stand, ghost held: seq<Sample>, ghost k: nat) returns (ghost inside: nat, ghost refused: bool)
      requires Sound() && busy && !flushing && WentOn(was, held, k)
      modifies `reading, `flushing, `busy, `wanted, `accepts, `hurries, `position, `current, `stopping, `playing, fifo, fifo.buffer, adpcm
      ensures Sound() && !flushing && next == old(next) && fifo.Space() < old(fifo.Space())
      ensures busy <==> playing && fifo.Space() >= 448 && !refused
      ensures WentOn(was, held, inside) && inside > k
      ensures (old(Willing()) ==> Willing() && !refused) && (old(Patient()) ==> Patient())
      decreases fifo.Space(), 1
    {
      hide Blocks, Played, OnwardBy, Ring.Contents, WentOn;
      WentBlocks(was, held, k);
      ghost var (now, held') := (Now(), fifo.Contents());
      inside, refused := ReadDone(disc[wanted..wanted + BLOCK_BYTES]);
      WentMore(was, held, k, now, held', 1 + inside);
      inside := k + 1 + inside;
    }

    /** The callback of the read: after a flush the data is thrown away; otherwise all its samples enter the fifo, and
        they are those of the track at the position. Then the next read is asked for. */
    method ReadDone(data: seq<Byte>) returns (ghost inside: nat, ghost refused: bool)
      requires Sound() && busy && wanted + 512 <= |disc| && data == disc[wanted..wanted + 512]
      modifies `reading, `flushing, `busy, `wanted, `accepts, `hurries, `position, `current, `stopping, `playing, fifo, fifo.buffer, adpcm
      ensures Valid() && !flushing && next == old(next)
      ensures (old(Willing()) ==> Willing() && !refused) && (old(Patient()) ==> Patient() && inside == 0)
      ensures reading <==> busy || inside > 0
      ensures busy <==> playing && fifo.Space() >= 448 && !refused
      ensures WentOn(old(Now()), old(fifo.Contents()), if old(flushing) then inside else 1 + inside)
      ensures if old(flushing) then fifo.Space() <= old(fifo.Space()) else fifo.Space() < old(fifo.Space())
      decreases fifo.Space(), if flushing then 4 else 0
    {
      hide Blocks, Played, WentOn, Ring.Contents;
      ghost var (was, held, n) := (Now(), fifo.Contents(), if flushing then 0 else 1);
      WentNone();
      reading, busy := false, false;
      if flushing {
        flushing := false;
      } else {
        DecodeBuffer(data);
      }
      WentBlocks(was, held, n);
      ghost var (now, held') := (Now(), fifo.Contents());
      var r;
      r, inside, refused := FillBuffer();
      WentMore(was, held, n, now, held', inside);
    }

    /** dtk_decode_buffer: the block's samples, and the next position, perhaps in the next track. */
    method DecodeBuffer(data: seq<Byte>)
      requires Valid() && !reading && playing && fifo.Space() >= 448
      requires position + 512 <= |disc| && data == disc[position..position + 512]
      modifies `position, `current, `stopping, `playing, fifo, fifo.buffer, adpcm
      ensures Valid() && fifo.Contents() == old(fifo.Contents()) + Blocks(data, 16, old(adpcm.state)).0
      ensures WentOn(old(Now()), old(fifo.Contents()), 1)
      ensures Extended(old(current.start), old(position), data, old(adpcm.state))
    {
      hide Blocks, Played, OnwardBy, Ring.Contents, Extended;
      OnwardOne(Now());
      DecodeBlock(data);
      ChainTracks();
    }

    /** What a block decodes to in a given state continues the decoding between two positions. */
    ghost predicate Extended(from: nat, to: nat, data: seq<Byte>, state: State)
      requires |data| == 512
    {
      from <= to && to + 512 <= |disc| && Played(from, to + 512).0 == Played(from, to).0 + Blocks(data, 16, state).0
    }

    method DecodeBlock(data: seq<Byte>)
      requires fifo.Valid() && fifo.Space() >= 448 && InTrack(Now()) && data == disc[position..position + 512]
      modifies `position, fifo, fifo.buffer, adpcm
      ensures fifo.Valid() && fifo.Contents() == old(fifo.Contents()) + Blocks(data, 16, old(adpcm.state)).0
      ensures position == old(position) + 512 <= |disc| && adpcm.state == Blocks(data, 16, old(adpcm.state)).1
      ensures adpcm.state == Played(current.start, position).1 && Extended(current.start, old(position), data, old(adpcm.state))
    {
      hide Blocks, Played, Ring.Contents;
      PlayedOn(current.start, position);
      adpcm.DecodeAll(fifo, data, BLOCK_SAMPLES);
      position := position + BLOCK_BYTES;
    }

    /** At the end of a track the next one begins, or silence. */
    method ChainTracks()
      requires fifo.Valid() && fifo.buffer.Length >= 448 && !reading && !flushing && !busy && playing
      requires OnDisc(current) && OnDisc(next)
      requires current.start <= position <= current.start + current.length && (position - current.start) % 512 == 0
      requires adpcm.state == Played(current.start, position).1
      modifies `position, `current, `stopping, `playing, adpcm
      ensures Valid()
      ensures Now() ==
        if old(position) != old(current.start + current.length) then old(Now())
        else Stand(next.start, next, next, !old(stopping), false, SILENCE)
    {
      hide Played, InTrack;
      Placed(position, current, next);
      Placed(next.start, next, next);
      PlayedNone(next.start);
      if position == current.start + current.length {
        position := next.start;
        current := next;
        if stopping {
          stopping := false;
          playing := false;
        }
        adpcm.Reset();
      }
    }

    lemma OnwardOne(st: Stand)
      requires st.position + 512 <= |disc|
      ensures OnwardBy(st, 1) == Onward(st)
    {
      hide Onward;
      assert OnwardBy(st, 0) == ([], st);
      assert [] + Onward(st).0 == Onward(st).0;
    }

    /** A whole block is left in a track, unless it is at its end. */
    lemma Placed(position: nat, current: Track, next: Track)
      requires OnDisc(current) && OnDisc(next)
      requires current.start <= position <= current.start + current.length && (position - current.start) % 512 == 0
      ensures forall playing: bool, stopping: bool, state: State ::
        position < current.start + current.length && state == Played(current.start, position).1
        ==> InTrack(Stand(position, current, next, playing, stopping, state))
    {
      hide Played;
      BlockLeft(position - current.start, current.length);
    }

    lemma BlockLeft(n: nat, length: nat)
      requires n <= length && length % 0x8000 == 0 && n % 512 == 0
      ensures n < length ==> n + 512 <= length
    {
    }

    lemma PlayedNone(at: nat)
      requires at <= |disc|
      ensures Played(at, at) == ([], SILENCE)
    {
    }

    /** Decoding on from a position is decoding the longer stretch. */
    lemma PlayedOn(from: nat, to: nat)
      requires from <= to && to + 512 <= |disc| && (to - from) % 512 == 0
      ensures var (s, st) := Played(from, to);
              var (t, st') := Blocks(disc[to..to + 512], 16, st);
              Played(from, to + 512) == (s + t, st')
    {
      hide Block;
      var (a, b) := (disc[from..to], disc[to..to + 512]);
      Split(disc, from, to, to + 512);
      BlocksAppend(a, b, (to - from) / 32, 16);
    }

    /** Short of the end of the track n blocks on are just more of the track's decoding from silence. */
    lemma {:induction false} WithinTrack(st: Stand, n: nat)
      requires InTrack(st) && st.position + 512 * n < st.current.start + st.current.length
      ensures var to := st.position + 512 * n;
              && OnwardBy(st, n).1 == st.(position := to, state := Played(st.current.start, to).1)
              && Played(st.current.start, st.position).0 + OnwardBy(st, n).0 == Played(st.current.start, to).0
      decreases n
    {
      hide Blocks, Played;
      var from := st.current.start;
      if n > 0 {
        var to := st.position + 512 * (n - 1);
        WithinTrack(st, n - 1);
        PlayedOn(from, to);
        var (s, t) := (OnwardBy(st, n - 1).0, Onward(OnwardBy(st, n - 1).1).0);
        assert Played(from, st.position).0 + s + t == Played(from, st.position).0 + (s + t);
      }
    }

    lemma {:induction false} BlocksAppend(a: seq<Byte>, b: seq<Byte>, k: nat, m: nat)
      requires |a| == 32 * k && 32 * m <= |b|
      ensures var (s, st) := Blocks(a, k, SILENCE);
              var (t, st') := Blocks(b, m, st);
              Blocks(a + b, k + m, SILENCE) == (s + t, st')
      decreases m
    {
      hide Block;
      if m == 0 {
        BlocksPrefix(a, b, k);
        var s := Blocks(a, k, SILENCE).0;
        assert s + [] == s;
      } else {
        BlocksAppend(a, b, k, m - 1);
        assert (a + b)[32 * (k + m - 1)..32 * (k + m)] == b[32 * (m - 1)..32 * m];
        var (s, st) := Blocks(a, k, SILENCE);
        var (t, st1) := Blocks(b, m - 1, st);
        var (u, st2) := Block(b[32 * (m - 1)..32 * m], 28, st1);
        assert s + t + u == s + (t + u);
      }
    }

    lemma {:induction false} BlocksPrefix(a: seq<Byte>, b: seq<Byte>, k: nat)
      requires 32 * k <= |a|
      ensures Blocks(a + b, k, SILENCE) == Blocks(a, k, SILENCE)
      decreases k
    {
      hide Block;
      if k == 0 {
      } else {
        BlocksPrefix(a, b, k - 1);
        assert (a + b)[32 * (k - 1)..32 * k] == a[32 * (k - 1)..32 * k];
      }
    }

    /** The start command: offset and length in whole units; a length of nothing asks to stop at the end of the track.
        What plays is left alone; with nothing playing the track begins, perhaps with some of its blocks at once. */
    method Start(offset: nat, length: nat) returns (ghost inside: nat, ghost refused: bool)
      requires Valid()
      requires length / 0x8000 * 0x8000 > 0 ==> offset / 0x8000 * 0x8000 + length / 0x8000 * 0x8000 <= |disc|
      modifies `stopping, `next, `position, `current, `playing, `reading, `flushing, `busy, `wanted, `accepts, `hurries, fifo, fifo.buffer, adpcm
      ensures Valid() && flushing == old(flushing)
      ensures var t := Track(offset / 0x8000 * 0x8000, length / 0x8000 * 0x8000);
              WentOn(Started(old(Now()), t), old(fifo.Contents()), inside)
      ensures old(playing || stopping || reading) || length < 0x8000 ==> inside == 0 && unchanged(`reading, `busy, `wanted)
      ensures (old(Willing()) ==> Willing() && !refused) && (old(Patient()) ==> Patient() && inside == 0)
      ensures !old(playing || stopping || reading) && length >= 0x8000 ==>
        && (reading <==> busy || inside > 0)
        && (busy <==> playing && fifo.Space() >= 448 && !refused)
    {
      hide Blocks, Played, OnwardBy, Ring.Contents;
      var start := offset / GRAIN * GRAIN;
      var len := length / GRAIN * GRAIN;
      inside, refused := 0, false;
      if len == 0 {
        stopping := true;
      } else if !stopping {
        next := Track(start, len);
        if !playing {
          position := start;
          current := Track(start, len);
          playing := true;
          Begins(Track(start, len));
          var r;
          r, inside, refused := FillBuffer();
          return;
        }
      }
      WentNone();
    }

    lemma Begins(t: Track)
      requires OnDisc(t)
      ensures forall stopping: bool :: InTrack(Stand(t.start, t, t, true, stopping, SILENCE))
    {
      hide Played, InTrack;
      PlayedNone(t.start);
      Placed(t.start, t, t);
    }

    ghost function Started(st: Stand, t: Track): Stand {
      if t.length == 0 then st.(stopping := true)
      else if st.stopping then st
      else if st.playing then st.(next := t)
      else Stand(t.start, t, t, true, false, st.state)
    }

    /** The cancel command: what is under way will be thrown away, and what is buffered is. */
    method Cancel()
      requires Valid()
      modifies `stopping, `playing, `flushing, fifo, adpcm
      ensures Valid() && !playing && !stopping && (flushing <==> reading) && fifo.Contents() == [] && adpcm.state == SILENCE
    {
      stopping, playing := false, false;
      flushing := reading;
      adpcm.Reset();
      fifo.Reset();
    }

    /** mix_samples takes a sample; the room a read under way relies on only grows. */
    method Take() returns (x: Sample)
      requires Valid()
      modifies fifo
      ensures Valid()
      ensures old(fifo.used) > 0 ==> x == old(fifo.Contents())[0] && fifo.Contents() == old(fifo.Contents())[1..]
      ensures old(fifo.used) == 0 ==> x == Sample(0, 0) && fifo.Contents() == []
    {
      x := fifo.Pop(Sample(0, 0));
    }
  }
}
