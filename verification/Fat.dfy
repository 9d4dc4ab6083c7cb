/** Petit FatFs: reading and seeking in the one open file. */
module Fat {
  import opened Bytes
  import opened Words

  const SECTOR := 512

  datatype FatType = Fat12 | Fat16 | Fat32

  datatype Result = Ok | DiskError | NotOpened

  /** A mounted volume: where its areas are, and how clusters are numbered. */
  datatype Volume = Volume(kind: FatType, csize: nat, entries: nat, fatbase: nat, database: nat) {
    predicate Valid() {
      csize in {1, 2, 4, 8, 16, 32, 64, 128} && entries >= 2 && 0 < database && database + entries * csize <= U32
    }
  }

  // ------------------------------------------------------------------- arithmetic

  /** The program masks with c - 1 for a power of two c, and with its complement; on the numbers the words stand for
      that is the remainder by c, and what is left of it. */
  lemma MasksDivide(x: bv32, m: bv32, k: nat)
    requires Ones(m, k) && k <= 32
    ensures var c := Val(m, 32) + 1;
            c == Pow(2, k) && Val(And(x, m), 32) == Val(x, 32) % c && Val(AndNot(x, m), 32) == Val(x, 32) - Val(x, 32) % c
  {
    hide Val, And, AndNot, Ones;
    ValOnes(m, 32, k);
    ValMask(x, m, 32, k);
    ValSplit(x, m, 32);
  }

  /** Sectors of a cluster and bytes of a sector, or bytes of a cluster. */
  lemma DivideTwice(x: nat, c: nat)
    requires c > 0
    ensures x / (c * SECTOR) == x / SECTOR / c
  {
    var (s, o) := (x / SECTOR, x % SECTOR);
    var (k, t) := (s / c, s % c);
    assert s * SECTOR == k * (c * SECTOR) + t * SECTOR;
    MulMonotone(SECTOR, t + 1, c);
    DivisionIs(x, c * SECTOR, k, t * SECTOR + o);
  }

  lemma Before(s: nat, c: nat)
    requires s > 0 && c > 0
    ensures (s - 1) / c == if s % c == 0 then s / c - 1 else s / c
    ensures s % c == 0 ==> s / c > 0
  {
    var (k, t) := (s / c, s % c);
    if t > 0 {
      DivisionIs(s - 1, c, k, t - 1);
    } else {
      assert k > 0;
      assert s - 1 == (k - 1) * c + (c - 1);
      DivisionIs(s - 1, c, k - 1, c - 1);
    }
  }

  // --------------------------------------------------------------- what is on the card

  ghost predicate IsDisk(disk: seq<seq<Byte>>) {
    forall i :: 0 <= i < |disk| ==> |disk[i]| == 512
  }

  /** Byte i of the allocation table. */
  function FatByte(disk: seq<seq<Byte>>, v: Volume, i: nat): Byte {
    var n := v.fatbase + i / 512;
    if n < |disk| then At(disk[n], i % 512) else 0
  }

  /** ld_word */
  function LdWord(s: seq<Byte>): nat
    requires |s| >= 2
  {
    var lo: nat := s[0];
    var hi: nat := s[1];
    lo + 0x100 * hi
  }

  function FatWord(disk: seq<seq<Byte>>, v: Volume, i: nat): nat {
    var (lo: nat, hi: nat) := (FatByte(disk, v, i), FatByte(disk, v, i + 1));
    256 * hi + lo
  }

  /** The link stored for a cluster: 12, 16 or 28 bits, packed as each type of table packs them. */
  function Link(disk: seq<seq<Byte>>, v: Volume, c: nat): nat {
    match v.kind
    case Fat12 => var w := FatWord(disk, v, c + c / 2); if c % 2 == 1 then w / 0x10 else w % 0x1000
    case Fat16 => FatWord(disk, v, 2 * c)
    case Fat32 => (FatWord(disk, v, 4 * c) + 0x1_0000 * FatWord(disk, v, 4 * c + 2)) % 0x1000_0000
  }

  /** The card has all of the table. */
  ghost predicate TableFits(disk: seq<seq<Byte>>, v: Volume) {
    forall c :: 0 <= c < v.entries ==> v.fatbase + LastByte(v, c) / 512 < |disk|
  }

  lemma TableMisses(disk: seq<seq<Byte>>, v: Volume, c: nat, n: nat)
    requires c < v.entries && |disk| <= n <= v.fatbase + LastByte(v, c) / 512
    ensures !TableFits(disk, v)
  {
  }

  /** The last byte of the table that a cluster's link takes. */
  function LastByte(v: Volume, c: nat): nat {
    match v.kind
    case Fat12 => c + c / 2 + 1
    case Fat16 => 2 * c + 1
    case Fat32 => 4 * c + 3
  }

  /** The k-th cluster of a chain. */
  function Nth(disk: seq<seq<Byte>>, v: Volume, first: nat, k: nat): nat {
    if k == 0 then first else Link(disk, v, Nth(disk, v, first, k - 1))
  }

  /** The sector that holds a file's byte at a position. */
  function SectorOf(disk: seq<seq<Byte>>, v: Volume, first: nat, p: nat): int
    requires v.csize > 0
  {
    var s := p / 512;
    v.database + (Nth(disk, v, first, s / v.csize) - 2) * v.csize + s % v.csize
  }

  predicate InRange(v: Volume, c: nat) {
    2 <= c < v.entries
  }

  /** The chain has a cluster for every byte of the file, and the card has the sectors. */
  ghost predicate WellFormed(disk: seq<seq<Byte>>, v: Volume, first: nat, size: nat)
    requires v.csize > 0
  {
    TableFits(disk, v) && forall p :: 0 <= p < size ==> Stored(disk, v, first, p)
  }

  ghost predicate Stored(disk: seq<seq<Byte>>, v: Volume, first: nat, p: nat)
    requires v.csize > 0
  {
    InRange(v, Nth(disk, v, first, p / 512 / v.csize)) && 0 <= SectorOf(disk, v, first, p) < |disk|
  }

  function ContentByte(disk: seq<seq<Byte>>, v: Volume, first: nat, p: nat): Byte
    requires v.csize > 0
  {
    var n := SectorOf(disk, v, first, p);
    if 0 <= n < |disk| then At(disk[n], p % 512) else 0
  }

  /** The file's bytes from a position on. */
  function Content(disk: seq<seq<Byte>>, v: Volume, first: nat, p: nat, n: nat): (s: seq<Byte>)
    requires v.csize > 0
    ensures |s| == n && forall i :: 0 <= i < n ==> s[i] == ContentByte(disk, v, first, p + i)
  {
    if n == 0 then [] else Content(disk, v, first, p, n - 1) + [ContentByte(disk, v, first, p + (n - 1))]
  }

  // ----------------------------------------------------------------------- the file

  class File {
    const disk: seq<seq<Byte>>
    const volume: Volume
    var isOpen: bool
    var fptr: nat
    var fsize: nat
    var orgClust: nat
    var currClust: nat
    var dsect: nat

    /** Which of the card's next reads succeed, and after them all; and whether one has failed since the file was opened. */
    var answers: seq<bool>
    ghost var fault: bool

    constructor (disk: seq<seq<Byte>>, volume: Volume, first: nat, size: nat, answers: seq<bool>)
      requires volume.Valid() && IsDisk(disk)
      ensures Valid() && isOpen && fptr == 0 && !fault && this.disk == disk && this.volume == volume
      ensures orgClust == first && fsize == size && this.answers == answers
    {
      this.disk, this.volume, this.answers := disk, volume, answers;
      isOpen, fptr, fsize, orgClust, currClust, dsect, fault := true, 0, size, first, 0, 0, false;
    }

    ghost predicate Valid()
      reads this
    {
      volume.Valid() && IsDisk(disk) && (isOpen ==> fptr <= fsize && Placed())
    }

    /** The current cluster is the one of the last byte passed; between sectors nothing more is needed, and inside one
        the current sector is that of the next byte. */
    ghost predicate Placed()
      requires volume.csize > 0
      reads this
    {
      && (fptr > 0 ==> currClust == Nth(disk, volume, orgClust, (fptr - 1) / SECTOR / volume.csize))
      && (fptr % SECTOR != 0 ==> dsect == SectorOf(disk, volume, orgClust, fptr))
    }

    ghost predicate Sound()
      reads this
    {
      volume.csize > 0 && WellFormed(disk, volume, orgClust, fsize)
    }

    /** The card has not failed, and will not. */
    ghost predicate Reliable()
      reads `answers, `fault
    {
      !fault && false !in answers
    }

    /** disk_readp: fails where the card does. */
    method DiskRead(sector: nat, offset: nat, n: nat) returns (ok: bool, data: seq<Byte>)
      requires IsDisk(disk) && offset + n <= SECTOR
      modifies `answers, `fault
      ensures ok ==> sector < |disk| && data == disk[sector][offset..offset + n] && fault == old(fault)
      ensures !ok ==> fault || sector >= |disk|
      ensures (old(fault) ==> fault) && (old(Reliable()) ==> Reliable())
    {
      data := [];
      ok := sector < |disk|;
      if ok {
        ok := answers == [] || answers[0];
        if answers != [] {
          answers := answers[1..];
        }
        if ok {
          data := disk[sector][offset..offset + n];
        } else {
          fault := true;
        }
      }
    }

    /** get_fat: the link of a cluster, or 1 if it cannot be had. */
    method GetFat(c: nat) returns (link: nat)
      requires volume.Valid() && IsDisk(disk)
      modifies `answers, `fault
      ensures (old(fault) ==> fault) && (old(Reliable()) ==> Reliable())
      ensures !InRange(volume, c) ==> link == 1
      ensures link == Link(disk, volume, c) || link == 1
      ensures InRange(volume, c) && TableFits(disk, volume) && !fault ==> link == Link(disk, volume, c)
    {
      if !InRange(volume, c) {
        return 1;
      }
      match volume.kind {
        case Fat12 => link := GetFat12(c);
        case Fat16 => link := GetFat16(c);
        case Fat32 => link := GetFat32(c);
      }
    }

    /** Twelve bits may lie across two sectors. */
    method GetFat12(c: nat) returns (link: nat)
      requires volume.Valid() && IsDisk(disk) && volume.kind.Fat12? && InRange(volume, c)
      modifies `answers, `fault
      ensures (old(fault) ==> fault) && (old(Reliable()) ==> Reliable())
      ensures link == Link(disk, volume, c) || (link == 1 && (fault || !TableFits(disk, volume)))
    {
      var bc := c + c / 2;
      var ofs := bc % SECTOR;
      Neighbours(bc);
      var ok, data;
      if ofs != 511 {
        ok, data := DiskRead(volume.fatbase + bc / SECTOR, ofs, 2);
      } else {
        var more;
        ok, data := DiskRead(volume.fatbase + bc / SECTOR, 511, 1);
        if ok {
          ok, more := DiskRead(volume.fatbase + bc / SECTOR + 1, 0, 1);
          data := data + more;
        }
      }
      if !ok {
        if !fault {
          TableMisses(disk, volume, c, Min(|disk|, volume.fatbase + (bc + 1) / SECTOR));
        }
        return 1;
      }
      FatWordRead(bc, data);
      link := if c % 2 == 1 then LdWord(data) / 0x10 else LdWord(data) % 0x1000;
    }

    lemma Neighbours(i: nat)
      ensures i % SECTOR != 511 ==> (i + 1) / SECTOR == i / SECTOR && (i + 1) % SECTOR == i % SECTOR + 1
      ensures i % SECTOR == 511 ==> (i + 1) / SECTOR == i / SECTOR + 1 && (i + 1) % SECTOR == 0
    {
    }

    method GetFat16(c: nat) returns (link: nat)
      requires volume.Valid() && IsDisk(disk) && volume.kind.Fat16? && InRange(volume, c)
      modifies `answers, `fault
      ensures (old(fault) ==> fault) && (old(Reliable()) ==> Reliable())
      ensures link == Link(disk, volume, c) || (link == 1 && (fault || !TableFits(disk, volume)))
    {
      var ok, data := DiskRead(volume.fatbase + c / 256, c % 256 * 2, 2);
      Entry16(c);
      if ok {
        FatWordRead(2 * c, data);
      } else if !fault {
        TableMisses(disk, volume, c, volume.fatbase + c / 256);
      }
      link := if ok then LdWord(data) else 1;
    }

    lemma Entry16(c: nat)
      ensures 2 * c / SECTOR == (2 * c + 1) / SECTOR == c / 256 && 2 * c % SECTOR == c % 256 * 2
    {
    }

    /** Two bytes of the table, in one sector or in two. */
    lemma FatWordRead(i: nat, data: seq<Byte>)
      requires IsDisk(disk) && |data| >= 2 && volume.fatbase + (i + 1) / SECTOR < |disk|
      requires data[0] == disk[volume.fatbase + i / SECTOR][i % SECTOR]
      requires data[1] == disk[volume.fatbase + (i + 1) / SECTOR][(i + 1) % SECTOR]
      ensures LdWord(data) == FatWord(disk, volume, i)
    {
    }

    /** Two bytes of the table in one sector. */
    lemma WordAt(i: nat, k: nat, o: nat, data: seq<Byte>)
      requires IsDisk(disk) && |data| >= 2 && volume.fatbase + k < |disk| && i == k * SECTOR + o && o + 1 < SECTOR
      requires data[0] == disk[volume.fatbase + k][o] && data[1] == disk[volume.fatbase + k][o + 1]
      ensures LdWord(data) == FatWord(disk, volume, i)
    {
      DivisionIs(i, SECTOR, k, o);
      DivisionIs(i + 1, SECTOR, k, o + 1);
      FatWordRead(i, data);
    }

    method GetFat32(c: nat) returns (link: nat)
      requires volume.Valid() && IsDisk(disk) && volume.kind.Fat32? && InRange(volume, c)
      modifies `answers, `fault
      ensures (old(fault) ==> fault) && (old(Reliable()) ==> Reliable())
      ensures link == Link(disk, volume, c) || (link == 1 && (fault || !TableFits(disk, volume)))
    {
      hide Link, FatWord, LdWord;
      var ok, data := DiskRead(volume.fatbase + c / 128, c % 128 * 4, 4);
      Link32(c);
      Entry32(c);
      if ok {
        WordAt(4 * c, c / 128, c % 128 * 4, data[..2]);
        WordAt(4 * c + 2, c / 128, c % 128 * 4 + 2, data[2..]);
      } else if !fault {
        DivisionIs(4 * c + 3, SECTOR, c / 128, c % 128 * 4 + 3);
        TableMisses(disk, volume, c, volume.fatbase + c / 128);
      }
      link := if ok then (LdWord(data[..2]) + 0x1_0000 * LdWord(data[2..])) % 0x1000_0000 else 1;
    }

    lemma Entry32(c: nat)
      ensures 4 * c == c / 128 * SECTOR + c % 128 * 4 && c % 128 * 4 + 3 < SECTOR
    {
    }

    lemma Link32(c: nat)
      requires volume.kind.Fat32?
      ensures Link(disk, volume, c)
           == (FatWord(disk, volume, 4 * c) + 0x1_0000 * FatWord(disk, volume, 4 * c + 2)) % 0x1000_0000
    {
    }

    /** clust2sect: the first sector of a cluster, or 0 */
    function ClusterStart(c: nat): (n: nat)
      requires volume.Valid()
      ensures n == (if InRange(volume, c) then volume.database + (c - 2) * volume.csize else 0)
      ensures n > 0 <==> InRange(volume, c)
    {
      if c < 2 || c - 2 >= volume.entries - 2 then 0
      else
        assert (c - 2) * volume.csize >= 0 by { MulMonotone(c - 2, 0, volume.csize); }
        (c - 2) * volume.csize + volume.database
    }

    ghost function Sector(p: nat): int
      requires volume.csize > 0
      reads `orgClust
    {
      SectorOf(disk, volume, orgClust, p)
    }

    /** At the start of a sector: finds the cluster, through the table at the start of a cluster, and the sector. */
    method EnterSector() returns (ok: bool)
      requires Valid() && isOpen && fptr < fsize && fptr % SECTOR == 0
      modifies `currClust, `dsect, `answers, `fault
      ensures (old(fault) ==> fault) && (old(Reliable()) ==> Reliable())
      ensures ok ==> currClust == Nth(disk, volume, orgClust, fptr / SECTOR / volume.csize) && dsect == Sector(fptr)
      ensures !ok ==> fault || !Sound()
    {
      hide Link, LastByte;
      ghost var (k, sound) := (fptr / SECTOR / volume.csize, Sound());
      InFile(fptr);
      var cs := fptr / SECTOR % volume.csize;
      if cs == 0 {
        var clst;
        if fptr == 0 {
          clst := orgClust;
        } else {
          PreviousCluster();
          InFile(fptr - 1);
          clst := GetFat(currClust);
        }
        if clst <= 1 {
          return false;
        }
        currClust := clst;
      } else {
        PreviousCluster();
      }
      var sect := ClusterStart(currClust);
      if sect == 0 {
        return false;
      }
      dsect := sect + cs;
      ok := true;
    }

    lemma InFile(p: nat)
      requires volume.csize > 0 && p < fsize
      ensures Sound() ==> Stored(disk, volume, orgClust, p) && TableFits(disk, volume)
    {
    }

    /** Where the last byte passed lies, seen from the start of a sector. */
    lemma PreviousCluster()
      requires volume.Valid() && fptr % SECTOR == 0 && fptr > 0
      ensures var (s, c) := (fptr / SECTOR, volume.csize);
              && (fptr - 1) / SECTOR / c == (if s % c == 0 then s / c - 1 else s / c)
              && (s % c == 0 ==> s / c > 0)
    {
      assert (fptr - 1) / SECTOR == fptr / SECTOR - 1;
      Before(fptr / SECTOR, volume.csize);
    }

    ghost function Data(p: nat, n: nat): seq<Byte>
      requires volume.csize > 0
      reads `orgClust
    {
      Content(disk, volume, orgClust, p, n)
    }

    /** Positions in one sector. */
    lemma SameSector(p: nat, i: nat)
      requires volume.csize > 0 && p % SECTOR + i < SECTOR
      ensures (p + i) / SECTOR == p / SECTOR && (p + i) % SECTOR == p % SECTOR + i && Sector(p + i) == Sector(p)
    {
    }

    lemma SectorData(p: nat, n: nat)
      requires volume.csize > 0 && IsDisk(disk) && p % SECTOR + n <= SECTOR && 0 <= Sector(p) < |disk|
      ensures Data(p, n) == disk[Sector(p)][p % SECTOR..p % SECTOR + n]
    {
      forall i | 0 <= i < n ensures Data(p, n)[i] == disk[Sector(p)][p % SECTOR + i] {
        SameSector(p, i);
      }
    }

    lemma DataSplit(p: nat, m: nat, n: nat)
      requires volume.csize > 0
      ensures Data(p, m + n) == Data(p, m) + Data(p + m, n)
    {
    }

    /** One pass of the loop of pf_read: to the end of the sector at most. */
    method ReadPiece(btr: nat) returns (ok: bool, piece: seq<Byte>)
      requires Valid() && isOpen && 0 < btr <= fsize - fptr
      modifies `fptr, `currClust, `dsect, `answers, `fault
      ensures (old(fault) ==> fault) && (old(Reliable()) ==> Reliable())
      ensures ok ==> Valid() && 0 < |piece| <= btr && fptr == old(fptr) + |piece| && piece == Data(old(fptr), |piece|)
      ensures !ok ==> fault || !Sound()
    {
      hide Link, SectorOf, Nth, Content, WellFormed, Stored;
      ghost var from := fptr;
      piece := [];
      ok := true;
      if fptr % SECTOR == 0 {
        ok := EnterSector();
        if !ok {
          return;
        }
      } else {
        InsideSector();
      }
      InFile(fptr);
      var rcnt := Min(SECTOR - fptr % SECTOR, btr);
      SectorBounds();
      ok, piece := DiskRead(dsect, fptr % SECTOR, rcnt);
      if !ok {
        return;
      }
      SectorData(fptr, rcnt);
      AfterPiece(rcnt);
      fptr := fptr + rcnt;
    }

    lemma InsideSector()
      requires fptr % SECTOR != 0
      ensures fptr > 0 && (fptr - 1) / SECTOR == fptr / SECTOR
    {
    }

    lemma SectorBounds()
      requires volume.csize > 0 && fptr < fsize
      ensures Sound() ==> 0 <= Sector(fptr) < |disk|
    {
      InFile(fptr);
    }

    /** What Placed asks for after more bytes of the sector. */
    lemma AfterPiece(n: nat)
      requires volume.csize > 0 && 0 < n && fptr % SECTOR + n <= SECTOR && dsect == Sector(fptr)
      requires currClust == Nth(disk, volume, orgClust, fptr / SECTOR / volume.csize)
      ensures currClust == Nth(disk, volume, orgClust, (fptr + n - 1) / SECTOR / volume.csize)
      ensures (fptr + n) % SECTOR != 0 ==> dsect == Sector(fptr + n)
    {
      hide Link, Nth, SectorOf;
      SameSector(fptr, n - 1);
      assert fptr + (n - 1) == fptr + n - 1;
      NextSector(n);
    }

    lemma NextSector(n: nat)
      requires volume.csize > 0 && 0 < n && fptr % SECTOR + n <= SECTOR
      ensures (fptr + n) % SECTOR != 0 ==> Sector(fptr + n) == Sector(fptr)
    {
      hide Link, Nth, SectorOf;
      if fptr % SECTOR + n < SECTOR {
        SameSector(fptr, n);
      } else {
        SectorEnd(fptr, n);
      }
    }

    lemma SectorEnd(p: nat, n: nat)
      requires p % SECTOR + n == SECTOR
      ensures (p + n) % SECTOR == 0
    {
      DivisionIs(p + n, SECTOR, p / SECTOR + 1, 0);
    }

    /** pf_read: the file's next bytes, as many as asked for or as there are. Without a fault of the card it fails only
        on a chain that is not well formed. */
    method Read(btr: nat) returns (res: Result, data: seq<Byte>)
      requires Valid()
      modifies `isOpen, `fptr, `currClust, `dsect, `answers, `fault
      ensures Valid() && (old(fault) ==> fault) && (old(Reliable()) ==> Reliable())
      ensures res == NotOpened <==> !old(isOpen)
      ensures res == Ok ==> isOpen && |data| == Min(btr, fsize - old(fptr)) && fptr == old(fptr) + |data|
      ensures res != NotOpened ==> data == Data(old(fptr), |data|)
      ensures res == DiskError ==> !isOpen && (fault || !Sound())
      ensures old(isOpen && Reliable() && Sound()) ==> res == Ok
    {
      hide Link, SectorOf, Nth, Content, WellFormed, Placed;
      data := [];
      if !isOpen {
        return NotOpened, data;
      }
      ghost var from := fptr;
      DataNone(from);
      var left := Min(btr, fsize - fptr);
      ghost var total := left;
      while left > 0
        invariant Valid() && isOpen && 0 <= left <= fsize - fptr && |data| == total - left && fptr == from + |data|
        invariant data == Data(from, |data|) && (old(fault) ==> fault) && (old(Reliable()) ==> Reliable())
      {
        var ok, piece := ReadPiece(left);
        if !ok {
          isOpen := false;
          return DiskError, data;
        }
        DataSplit(from, |data|, |piece|);
        data := data + piece;
        left := left - |piece|;
      }
      res := Ok;
    }

    lemma DataNone(p: nat)
      requires volume.csize > 0
      ensures Data(p, 0) == []
    {
    }

    /** The start of the j-th cluster, as a position in the file. */
    lemma ClusterAt(j: nat, x: nat)
      requires volume.Valid() && 0 < x <= volume.csize * SECTOR
      ensures (j * (volume.csize * SECTOR) + x - 1) / SECTOR / volume.csize == j
      ensures j * (volume.csize * SECTOR) + x - 1 >= 0
    {
    }

    /** The cluster-following loop: on from the j-th cluster of the chain. */
    method Follow(first: nat, ofs: nat, ghost j: nat) returns (ok: bool, clst: nat, rest: nat, ghost k: nat)
      requires volume.Valid() && IsDisk(disk) && 0 < ofs && first == currClust == Nth(disk, volume, orgClust, j)
      requires fptr == j * (volume.csize * SECTOR) && fptr + ofs <= fsize
      modifies `fptr, `currClust, `answers, `fault
      ensures (old(fault) ==> fault) && (old(Reliable()) ==> Reliable())
      ensures ok ==> clst == currClust == Nth(disk, volume, orgClust, k) && 0 < rest <= volume.csize * SECTOR
      ensures ok ==> fptr == k * (volume.csize * SECTOR) && fptr + rest == old(fptr) + ofs
      ensures !ok ==> fault || !Sound()
    {
      hide Link, WellFormed;
      ok, clst, rest, k := true, first, ofs, j;
      var bcs := volume.csize * SECTOR;
      while rest > bcs
        invariant ok && clst == currClust == Nth(disk, volume, orgClust, k) && 0 < rest && bcs == volume.csize * SECTOR
        invariant fptr == k * bcs && fptr + rest == old(fptr) + ofs && (old(fault) ==> fault) && (old(Reliable()) ==> Reliable())
      {
        ClusterAt(k, 1);
        ClusterAt(k + 1, 1);
        assert (k + 1) * bcs == k * bcs + bcs;
        InFile(k * bcs);
        InFile((k + 1) * bcs);
        clst := GetFat(clst);
        if clst <= 1 || clst >= volume.entries {
          ok := false;
          return;
        }
        currClust := clst;
        fptr := fptr + bcs;
        rest := rest - bcs;
        k := k + 1;
      }
    }

    /** pf_lseek: from the current cluster when that is not too far, else from the first one. Either way the file is
        then where a read of so many bytes from the start would have left it. */
    method Seek(target: nat) returns (res: Result)
      requires Valid()
      modifies `isOpen, `fptr, `currClust, `dsect, `answers, `fault
      ensures Valid() && (old(fault) ==> fault) && (old(Reliable()) ==> Reliable())
      ensures res == NotOpened <==> !old(isOpen)
      ensures res == Ok ==> isOpen && fptr == Min(target, fsize)
      ensures res == DiskError ==> !isOpen && (fault || !Sound())
      ensures old(isOpen && Reliable() && Sound()) ==> res == Ok
    {
      hide Link, WellFormed, Nth, SectorOf;
      if !isOpen {
        return NotOpened;
      }
      var ofs := Min(target, fsize);
      var ifptr := fptr;
      fptr := 0;
      if ofs == 0 {
        return Ok;
      }
      var bcs := volume.csize * SECTOR;
      var clst;
      ghost var j := 0;
      ghost var total := ofs;
      if ifptr > 0 && (ofs - 1) / bcs >= (ifptr - 1) / bcs {
        j := (ifptr - 1) / bcs;
        DivideTwice(ifptr - 1, volume.csize);
        StartBelow(ofs, ifptr, bcs);
        fptr := (ifptr - 1) / bcs * bcs;
        ofs := ofs - fptr;
        clst := currClust;
      } else {
        clst := orgClust;
        currClust := clst;
        FirstCluster();
      }
      var ok;
      ghost var k;
      ok, clst, ofs, k := Follow(clst, ofs, j);
      if !ok {
        isOpen := false;
        return DiskError;
      }
      ok := Settle(ofs, k);
      if !ok {
        isOpen := false;
        return DiskError;
      }
      res := Ok;
    }

    /** The last bytes inside the cluster that was found. */
    method Settle(ofs: nat, ghost k: nat) returns (ok: bool)
      requires volume.Valid() && IsDisk(disk) && currClust == Nth(disk, volume, orgClust, k)
      requires 0 < ofs <= volume.csize * SECTOR && fptr == k * (volume.csize * SECTOR) && fptr + ofs <= fsize
      modifies `fptr, `dsect
      ensures fptr == old(fptr) + ofs
      ensures ok ==> Valid()
      ensures !ok ==> !Sound()
    {
      hide Link, WellFormed, Nth, SectorOf;
      ClusterAt(k, ofs);
      InFile(fptr + ofs - 1);
      fptr := fptr + ofs;
      var sect := ClusterStart(currClust);
      ok := sect != 0;
      if ok {
        dsect := sect + fptr / SECTOR % volume.csize;
        SoughtSector();
      }
    }

    lemma FirstCluster()
      ensures Nth(disk, volume, orgClust, 0) == orgClust && 0 * (volume.csize * SECTOR) == 0
    {
    }

    lemma StartBelow(ofs: nat, ifptr: nat, bcs: nat)
      requires ofs > 0 && ifptr > 0 && bcs > 0 && (ofs - 1) / bcs >= (ifptr - 1) / bcs
      ensures 0 <= (ifptr - 1) / bcs * bcs < ofs
    {
    }

    lemma SoughtSector()
      requires volume.csize > 0 && fptr > 0
      requires currClust == Nth(disk, volume, orgClust, (fptr - 1) / SECTOR / volume.csize)
      requires dsect == volume.database + (currClust - 2) * volume.csize + fptr / SECTOR % volume.csize
      ensures Placed()
    {
    }
  }
}
