/** Which header of a tagged (D88) image a sector number finds. */
module FloppyNames {
  import opened DiskImage
  import opened FloppySpec

  /** Where header `k` of a track is that starts at `pos`, -1 if its headers end before:
      each is sixteen bytes, followed by as many as its bytes 14 and 15 say. */
  function HeaderAt(img: seq<Byte>, pos: nat, k: nat): (h: int)
    ensures -1 <= h && (h >= 0 ==> h + 16 <= |img|)
  {
    if k == 0 then if pos + 16 <= |img| then pos else -1
    else
      var h := HeaderAt(img, pos, k - 1);
      if h < 0 then -1
      else
        var low: int, high: int := img[h + 14], img[h + 15];
        var next := h + 16 + low + 256 * high;
        if low + high == 0 || low + 256 * high > 4096 || next + 16 > |img| then -1 else next
  }

  /** Header `k` gives the record number `rec`. */
  predicate Names(img: seq<Byte>, pos: nat, k: nat, rec: nat) {
    HeaderAt(img, pos, k) >= 0 && img[HeaderAt(img, pos, k) + 2] as int == rec
  }

  /** The last header from `i` on that gives a record number, -1 for none. */
  function LastNamed(img: seq<Byte>, pos: nat, spt: nat, rec: nat, i: nat): (k: int)
    ensures -1 <= k && (k >= 0 ==> i <= k < spt && Names(img, pos, k, rec))
    ensures forall m | i <= m < spt && m > k :: !Names(img, pos, m, rec)
    decreases spt - i
  {
    if i >= spt then -1
    else
      var k := LastNamed(img, pos, spt, rec, i + 1);
      if k >= 0 then k else if Names(img, pos, i, rec) then i else -1
  }

  lemma {:induction false} HeadersEnd(img: seq<Byte>, pos: nat, spt: nat, rec: nat, i: nat, j: nat)
    requires HeaderAt(img, pos, i) < 0 && i <= j
    ensures HeaderAt(img, pos, j) < 0
    decreases j - i
  {
    if i < j { HeadersEnd(img, pos, spt, rec, i, j - 1); }
  }

  lemma NoneAfterEnd(img: seq<Byte>, pos: nat, spt: nat, rec: nat, i: nat)
    requires HeaderAt(img, pos, i) < 0
    ensures LastNamed(img, pos, spt, rec, i) < 0
  {
    var k := LastNamed(img, pos, spt, rec, i);
    if k >= 0 { HeadersEnd(img, pos, spt, rec, i, k); }
  }

  /** A walk leaves for a record the place past the last header that names it. */
  lemma {:induction false} WalkNames(img: seq<Byte>, spt: nat, start: nat, pos: nat, i: nat, offs: seq<nat>,
            left: nat, rec: nat)
    requires i <= spt <= CACHE_SPT && |offs| == CACHE_SPT && 1 <= rec <= spt && left >= spt - i
    requires HeaderAt(img, start, i) == if pos + 16 <= |img| then pos else -1
    ensures var k := LastNamed(img, start, spt, rec, i);
      Walk(img, spt, pos, i, offs, left).0[rec - 1] == if k < 0 then offs[rec - 1] else HeaderAt(img, start, k) + 16
    decreases spt - i
  {
    hide HeaderAt;
    if i < spt {
      if pos + 16 > |img| {
        NoneAfterEnd(img, start, spt, rec, i);
      } else {
        NextHeader(img, start, pos, i);
        var named, size := RecordAt(img, pos), SizeAt(img, pos);
        var now := if 1 <= named <= spt then offs[named - 1 := pos + SECTOR_HEADER] else offs;
        if size == 0 || size > 4096 {
          NoneAfterEnd(img, start, spt, rec, i + 1);
        } else {
          WalkNames(img, spt, start, pos + SECTOR_HEADER + size, i + 1, now, left - 1, rec);
        }
      }
    }
  }

  lemma NextHeader(img: seq<Byte>, start: nat, pos: nat, i: nat)
    requires pos + 16 <= |img| && HeaderAt(img, start, i) == pos
    ensures var size := SizeAt(img, pos); var next := pos + 16 + size;
      HeaderAt(img, start, i + 1) == if size == 0 || size > 4096 || next + 16 > |img| then -1 else next
  {
  }

  /** `off` is past the last of a track's first `spt` headers to give a record number, or 0
      if none does. */
  ghost predicate Finds(img: seq<Byte>, start: nat, spt: nat, rec: nat, off: int) {
    if off == 0 then forall k | 0 <= k < spt :: !Names(img, start, k, rec)
    else exists k | 0 <= k < spt ::
           && Names(img, start, k, rec) && off == HeaderAt(img, start, k) + 16
           && forall m | k < m < spt :: !Names(img, start, m, rec)
  }

  /** Sector `lba` of a tagged image is record `lba % spt + 1` of track `lba / spt`, whose
      start is the table's entry, low byte first. A fresh lookup finds the bytes past the
      last of the track's first `spt` headers that gives that number, and nothing if none
      does or the entry is zero. */
  lemma FreshFinds(img: seq<Byte>, spt: nat, lba: nat)
    requires 0 < spt <= CACHE_SPT && 0x20 + lba / spt * 4 + 4 <= |img|
    ensures var at, rec, off := 0x20 + lba / spt * 4, lba % spt + 1, Fresh(img, spt, lba);
      var b0: int, b1: int, b2: int, b3: int := img[at], img[at + 1], img[at + 2], img[at + 3];
      var start := b0 + 0x100 * b1 + 0x1_0000 * b2 + 0x100_0000 * b3;
      if start == 0 then off == 0 else Finds(img, start, spt, rec, off)
  {
    hide Walk, HeaderAt, Finds;
    var start, rec := LongAt(img, 0x20 + lba / spt * 4), lba % spt + 1;
    if start != 0 {
      StartIsHeader(img, start);
      WalkNames(img, spt, start, start, 0, NoOffsets(), PLENTY - 1, rec);
      LastIsFound(img, start, spt, rec);
    }
  }

  lemma LastIsFound(img: seq<Byte>, start: nat, spt: nat, rec: nat)
    ensures var k := LastNamed(img, start, spt, rec, 0);
      Finds(img, start, spt, rec, if k < 0 then 0 else HeaderAt(img, start, k) + 16)
  {
    hide HeaderAt;
  }

  lemma StartIsHeader(img: seq<Byte>, pos: nat)
    ensures HeaderAt(img, pos, 0) == if pos + 16 <= |img| then pos else -1
  {
  }
}
