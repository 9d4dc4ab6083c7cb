/** The SD driver: one multi-block read stays open as long as the sectors follow each other, and the last sector of
    which only a part was wanted is kept. */
module SdCard {
  import opened Bytes

  const SECTOR_SIZE := 512

  const NONE := 0xFFFF_FFFF

  ghost predicate IsCard(sectors: seq<seq<Byte>>) {
    |sectors| < 0xFFFF_FFFF && forall i :: 0 <= i < |sectors| ==> |sectors[i]| == 512
  }

  /** The card as the protocol sees it: with a multi-block read open it takes no other command than stop. */
  class Card {
    var sectors: seq<seq<Byte>>
    var streaming: bool
    var position: nat

    /** Stop commands so far, and streams opened so far. */
    ghost var stops: nat
    ghost var opens: nat

    constructor (sectors: seq<seq<Byte>>)
      requires IsCard(sectors)
      ensures this.sectors == sectors && !streaming && stops == opens == 0
    {
      this.sectors, streaming, position, stops, opens := sectors, false, 0, 0, 0;
    }

    /** CMD18 */
    method OpenStream(lba: nat)
      requires !streaming && lba < |sectors|
      modifies `streaming, `position, `opens
      ensures streaming && position == lba && opens == old(opens) + 1
    {
      streaming, position, opens := true, lba, opens + 1;
    }

    /** CMD12 */
    method Stop()
      requires streaming
      modifies `streaming, `stops
      ensures !streaming && stops == old(stops) + 1
    {
      streaming, stops := false, stops + 1;
    }

    /** A data block of the open stream; the card goes on to the next sector. */
    method Receive() returns (block: seq<Byte>)
      requires IsCard(sectors) && streaming && position < |sectors|
      modifies `position
      ensures block == sectors[old(position)] && |block| == SECTOR_SIZE && position == old(position) + 1
    {
      block := sectors[position];
      position := position + 1;
    }

    /** CMD24 and the block, which the card accepts or refuses. */
    method Write(lba: nat, block: seq<Byte>, accepts: bool) returns (ok: bool)
      requires IsCard(sectors) && !streaming && lba < |sectors| && |block| == SECTOR_SIZE
      modifies `sectors
      ensures ok == accepts && IsCard(sectors) && sectors == if ok then old(sectors)[lba := block] else old(sectors)
    {
      ok := accepts;
      if ok {
        sectors := sectors[lba := block];
      }
    }
  }

  class Driver {
    const card: Card
    var lastSector: nat
    var nextSector: nat
    var buffer: seq<Byte>

    constructor (card: Card)
      requires IsCard(card.sectors) && !card.streaming && card.stops == card.opens
      ensures Valid() && this.card == card && nextSector == NONE
    {
      this.card, lastSector, nextSector, buffer := card, NONE, NONE, [];
    }

    /** The stream is open exactly when a next sector is remembered, and stands there; the kept sector is the card's. */
    ghost predicate Valid()
      reads this, card
    {
      && IsCard(card.sectors)
      && (card.streaming <==> nextSector != NONE) && (card.streaming ==> card.position == nextSector <= |card.sectors|)
      && (lastSector != NONE ==> lastSector < |card.sectors| && buffer == card.sectors[lastSector])
      && card.opens == card.stops + if card.streaming then 1 else 0
    }

    /** end_read: a stop command, if a stream is open and only then. */
    method EndRead()
      requires Valid()
      modifies `nextSector, card`streaming, card`stops
      ensures Valid() && !card.streaming && nextSector == NONE
      ensures card.stops == old(card.stops) + if old(card.streaming) then 1 else 0
    {
      if nextSector != NONE {
        nextSector := NONE;
        card.Stop();
      }
    }

    /** do_read_write for reading: the bytes are the card's, whatever was kept or left open by earlier calls; nothing is
        done while the bus is selected for something else. */
    method Read(len: nat, offset: nat, sector: nat, selected: bool) returns (data: seq<Byte>)
      requires Valid() && offset / 512 + sector < |card.sectors|
      modifies this, card`streaming, card`position, card`stops, card`opens
      ensures Valid() && |data| == if selected then 0 else Min(len, 512 - offset % 512)
      ensures var (block, start) := (card.sectors[offset / 512 + sector], offset % 512);
              data == block[start..start + |data|]
      ensures selected ==> unchanged(this) && unchanged(card)
      ensures var lba := offset / 512 + sector;
              && card.opens == old(card.opens) + (if selected || lba in {old(lastSector), old(nextSector)} then 0 else 1)
              && (!selected && lba != old(lastSector) ==> nextSector == lba + 1)
              && (!selected ==> lastSector == if |data| < 512 then lba else old(lastSector))
    {
      if selected {
        return [];
      }
      var lba := offset / SECTOR_SIZE + sector;
      var startByte := offset % SECTOR_SIZE;
      var numBytes := Min(len, SECTOR_SIZE - startByte);
      if lba == lastSector {
        return buffer[startByte..startByte + numBytes];
      }
      if lba != nextSector {
        EndRead();
        card.OpenStream(lba);
      }
      if numBytes < SECTOR_SIZE {
        buffer := card.Receive();
        data := buffer[startByte..startByte + numBytes];
        lastSector := lba;
      } else {
        data := card.Receive();
      }
      nextSector := lba + 1;
    }

    /** do_read_write for writing: a kept copy of the sector is given up. accepts is the card's answer. */
    method Write(buf: seq<Byte>, offset: nat, sector: nat, selected: bool, accepts: bool) returns (n: nat)
      requires Valid() && offset / 512 + sector < |card.sectors| && |buf| == SECTOR_SIZE
      modifies this, card`sectors, card`streaming, card`stops
      ensures Valid() && n == if selected || !accepts then 0 else 512
      ensures if selected then n == 0 && unchanged(this) && unchanged(card) else nextSector == NONE
      ensures !selected && old(lastSector) != offset / 512 + sector ==> lastSector == old(lastSector)
      ensures card.sectors ==
        if n == 0 then old(card.sectors) else old(card.sectors)[offset / 512 + sector := buf]
    {
      if selected {
        return 0;
      }
      var lba := offset / SECTOR_SIZE + sector;
      if lastSector == lba {
        lastSector := NONE;
      }
      EndRead();
      var ok := card.Write(lba, buf, accepts);
      n := if ok then SECTOR_SIZE else 0;
    }
  }
}
