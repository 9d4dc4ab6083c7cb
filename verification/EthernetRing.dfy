/** The emulated network adapter's receive buffer: a ring of pages between a write and a read pointer. */
module EthernetRing {
  import opened Bytes

  const PAGE := 256
  const HEADER := 4

  /** Pages are numbered, and lengths counted, in twelve bits. */
  const FIELD := 0x1000

  /** What the first four bytes of a frame's first page say. */
  datatype FrameHeader = FrameHeader(next: nat, length: nat)

  class Mac {
    /** The pages from BP to RHBP; headers stands for the first four bytes of each. */
    var pages: seq<seq<Byte>>
    var headers: seq<FrameHeader>
    const bp: nat
    const rhbp: nat
    var rwp: nat
    var rrp: nat
    var enabled: bool

    constructor (bp: nat, rhbp: nat)
      requires bp < rhbp < 0x1000
      ensures Valid() && rwp == rrp == bp && this.bp == bp && this.rhbp == rhbp
    {
      this.bp, this.rhbp := bp, rhbp;
      pages := seq(rhbp - bp + 1, _ => seq(PAGE, _ => 0));
      headers := seq(rhbp - bp + 1, _ => FrameHeader(0, 0));
      rwp, rrp, enabled := bp, bp, true;
    }

    function Count(): nat
      requires bp <= rhbp
    {
      rhbp - bp + 1
    }

    ghost predicate Valid()
      reads this
    {
      && bp < rhbp < 0x1000 && |headers| == Count() && Shaped(pages)
      && bp <= rwp <= rhbp && bp <= rrp <= rhbp
    }

    ghost predicate Shaped(pages: seq<seq<Byte>>) {
      bp < rhbp && |pages| == Count() && forall p :: 0 <= p < |pages| ==> |pages[p]| == 256
    }

    /** The k-th page from a pointer on, counted from BP. */
    ghost function Page(from: nat, k: nat): (p: nat)
      requires bp <= from <= rhbp && k <= Count()
      ensures p < Count() || (k == Count() && p == from - bp)
    {
      if from - bp + k < Count() then from - bp + k else from - bp + k - Count()
    }

    /** How many pages there are before the read pointer; with the pointers equal the ring counts as empty. */
    ghost function FreePages(): (n: nat)
      requires Valid()
      reads this
      ensures 0 < n <= Count()
    {
      if rrp > rwp then rrp - rwp else rrp + Count() - rwp
    }

    /** Page p holds data not read yet. */
    ghost predicate Unread(p: nat)
      requires Valid()
      reads this
    {
      exists k :: FreePages() <= k < Count() && p == Page(rwp, k)
    }

    /** Byte i of a frame behind its header, read page by page around the ring. */
    ghost function FrameByte(pages: seq<seq<Byte>>, from: nat, i: nat): Byte
      requires Shaped(pages) && bp <= from <= rhbp && (i + 4) / 256 < Count()
    {
      pages[Page(from, (i + 4) / 256)][(i + 4) % 256]
    }

    /** eth_mac_receive: a frame that fits is committed and reads back whole; one that does not leaves the write pointer
        where it was. Pages not read yet are never written. */
    method Receive(data: seq<Byte>) returns (committed: bool)
      requires Valid()
      modifies `pages, `headers, `rwp
      ensures Valid() && (committed ==> old(enabled))
      ensures forall p :: 0 <= p < |pages| && old(Unread(p)) ==> pages[p] == old(pages[p]) && headers[p] == old(headers[p])
      ensures !committed ==> rwp == old(rwp)
      ensures committed ==> (|data| + 4 - 1) / 256 < old(FreePages()) && Laid(pages, old(rwp), data, |data|, Count())
      ensures committed ==> headers[old(rwp) - bp] == FrameHeader(rwp, (4 + |data|) % 0x1000)
      ensures committed && data != [] ==> rwp == bp + Page(old(rwp), (|data| + 4 - 1) / 256 + 1)
      ensures old(enabled) && (|data| + 4 - 1) / 256 < old(FreePages()) ==> committed
    {
      if !enabled {
        return false;
      }
      hide Laid, FreePages, Unread, Page;
      var first := rwp - bp;
      var w;
      committed, w := LayFrame(data);
      if committed {
        headers := headers[first := FrameHeader(w % FIELD, (HEADER + |data|) % FIELD)];
        rwp := w;
      }
    }

    /** A provisional header, and the frame's pages. */
    method LayFrame(data: seq<Byte>) returns (fits: bool, w: nat)
      requires Valid()
      modifies `pages, `headers
      ensures Valid() && bp <= w <= rhbp
      ensures forall p :: 0 <= p < |pages| && old(Unread(p)) ==>
        p != rwp - bp && pages[p] == old(pages[p]) && headers[p] == old(headers[p])
      ensures fits ==> (|data| + 4 - 1) / 256 < FreePages() && Laid(pages, rwp, data, |data|, Count())
      ensures fits && data != [] ==> w == bp + Page(rwp, (|data| + 4 - 1) / 256 + 1)
      ensures (|data| + 4 - 1) / 256 < FreePages() ==> fits
    {
      headers := headers[rwp - bp := FrameHeader(0, (HEADER + |data|) % FIELD)];
      ghost var before := pages;
      ghost var k;
      fits, w, k := Lay(data);
      FilledPages(|data|, k);
      UnreadKept(before, k);
    }

    /** The loop: a page at a time, until the data or the free pages are used up. */
    method Lay(data: seq<Byte>) returns (fits: bool, w: nat, ghost k: nat)
      requires Valid()
      modifies `pages
      ensures Valid() && k <= FreePages() && bp <= w <= rhbp && w - bp == Page(rwp, k)
      ensures fits ==> Laid(pages, rwp, data, |data|, k) && Filled(|data|, k)
      ensures !fits ==> FreePages() * 256 < |data| + 4
      ensures forall j :: k <= j < Count() ==> pages[Page(rwp, j)] == old(pages)[Page(rwp, j)]
    {
      hide Laid;
      w, k := rwp, 0;
      var sent := 0;
      var dst := HEADER;
      LaidNone(data);
      while sent < |data|
        invariant Valid() && 0 <= sent <= |data| && bp <= w <= rhbp
        invariant k <= FreePages() && w - bp == Page(rwp, k) && Laid(pages, rwp, data, sent, k)
        invariant if sent < |data| then k < FreePages() && sent + 4 == k * 256 + dst && dst == (if k == 0 then 4 else 0)
                  else Filled(sent, k)
        invariant forall j :: k <= j < Count() ==> pages[Page(rwp, j)] == old(pages)[Page(rwp, j)]
        decreases |data| - sent
      {
        var n := Min(PAGE - dst, |data| - sent);
        StorePage(w, k, dst, data, sent, n);
        sent := sent + n;
        w := if w == rhbp then bp else w + 1;
        dst := 0;
        k := k + 1;
        if w == rrp {
          break;
        }
      }
      fits := sent == |data|;
    }

    lemma LaidNone(data: seq<Byte>)
      requires Valid()
      ensures Laid(pages, rwp, data, 0, 0)
    {
    }

    /** Pages behind the read pointer are apart from the first k. */
    lemma UnreadKept(before: seq<seq<Byte>>, k: nat)
      requires Valid() && Shaped(before) && k <= FreePages()
      requires forall j :: k <= j < Count() ==> pages[Page(rwp, j)] == before[Page(rwp, j)]
      ensures forall p :: 0 <= p < |pages| && Unread(p) ==> pages[p] == before[p] && p != rwp - bp
    {
    }

    /** The frame's last byte is in the k-th page. */
    ghost predicate Filled(n: nat, k: nat) {
      if k == 0 then n == 0 else (k - 1) * 256 < n + 4 <= k * 256
    }

    lemma FilledPages(n: nat, k: nat)
      ensures Filled(n, k) && n > 0 ==> (n + 4 - 1) / 256 + 1 == k
    {
    }

    /** The first n bytes of the data are in the first k pages. */
    ghost predicate Laid(pages: seq<seq<Byte>>, from: nat, data: seq<Byte>, n: nat, k: nat)
      requires Shaped(pages) && bp <= from <= rhbp && n <= |data| && k <= Count()
    {
      forall i :: 0 <= i < n ==> (i + 4) / 256 < k && FrameByte(pages, from, i) == data[i]
    }

    /** The next page of a frame, from the place the page before left off. */
    method StorePage(w: nat, ghost k: nat, dst: nat, data: seq<Byte>, sent: nat, n: nat)
      requires Valid() && k < Count() && w - bp == Page(rwp, k) && bp <= w && sent + n <= |data| && dst + n <= 256 && n > 0
      requires sent + 4 == k * 256 + dst && Laid(pages, rwp, data, sent, k)
      modifies `pages
      ensures Valid() && Laid(pages, rwp, data, sent + n, k + 1)
      ensures forall j :: 0 <= j < Count() && j != k ==> pages[Page(rwp, j)] == old(pages)[Page(rwp, j)]
    {
      ghost var before := pages;
      StorePiece(w - bp, dst, data[sent..sent + n]);
      forall i | 0 <= i < sent + n ensures (i + 4) / 256 < k + 1 && FrameByte(pages, rwp, i) == data[i] {
        if i < sent {
          assert FrameByte(before, rwp, i) == data[i];
        } else {
          PageOf(i + 4, k, dst + (i - sent));
        }
      }
    }

    lemma PageOf(x: nat, k: nat, o: nat)
      requires x == k * 256 + o && o < 256
      ensures x / 256 == k && x % 256 == o
    {
    }

    method StorePiece(p: nat, at: nat, piece: seq<Byte>)
      requires Valid() && p < |pages| && at + |piece| <= 256
      modifies `pages
      ensures Valid() && pages == old(pages)[p := old(pages)[p][..at] + piece + old(pages)[p][at + |piece|..]]
    {
      pages := pages[p := pages[p][..at] + piece + pages[p][at + |piece|..]];
    }
  }
}
