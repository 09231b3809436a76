/** Which tagged (D88) images keep their headers out of the way of their sectors: a
    condition on the table and the recorded sizes alone. */
module FloppyLayout {
  import opened DiskImage
  import opened FloppySpec

  /** Where the part of the image a track's walk runs over ends. */
  function WalkEnd(img: seq<Byte>, spt: nat, pos: nat, i: nat): (end: nat)
    ensures pos <= end
    decreases spt - i
  {
    if i >= spt || pos + SECTOR_HEADER > |img| then pos
    else
      var next := pos + SECTOR_HEADER + SizeAt(img, pos);
      if SizeAt(img, pos) == 0 || SizeAt(img, pos) > 4096 then next else WalkEnd(img, spt, next, i + 1)
  }

  /** Every header that names a record gives it at least the mounted width. */
  predicate Wide(img: seq<Byte>, spt: nat, bytes: nat, pos: nat, i: nat)
    decreases spt - i
  {
    if i >= spt || pos + SECTOR_HEADER > |img| then true
    else
      var rec, size := RecordAt(img, pos), SizeAt(img, pos);
      && (1 <= rec <= spt ==> bytes <= size)
      && (0 < size <= 4096 ==> Wide(img, spt, bytes, pos + SECTOR_HEADER + size, i + 1))
  }

  /** Where a track starts, 0 for one the image does not hold. */
  function Base(img: seq<Byte>, trk: nat): nat
    requires IMAGE_HEADER <= |img| && trk < TRACKS
  {
    LongAt(img, TRACK_TABLE + trk * 4)
  }

  function End(img: seq<Byte>, spt: nat, trk: nat): nat
    requires IMAGE_HEADER <= |img| && trk < TRACKS
  {
    WalkEnd(img, spt, Base(img, trk), 0)
  }

  predicate TracksApart(img: seq<Byte>, spt: nat, t: nat, u: nat)
    requires IMAGE_HEADER <= |img| && t < TRACKS && u < TRACKS
  {
    t == u || Base(img, t) == 0 || Base(img, u) == 0
    || End(img, spt, t) <= Base(img, u) || End(img, spt, u) <= Base(img, t)
  }

  /** A well formed image: the table is there, every track starts past it and records
      its sectors at least as wide as mounted, and no two tracks overlap. */
  predicate WellFormed(img: seq<Byte>, spt: nat, bytes: nat) {
    && IMAGE_HEADER <= |img|
    && (forall t: nat | t < TRACKS :: Base(img, t) != 0 ==>
         IMAGE_HEADER <= Base(img, t) && Wide(img, spt, bytes, Base(img, t), 0))
    && (forall t: nat, u: nat | t < TRACKS && u < TRACKS :: TracksApart(img, spt, t, u))
  }

  // ---- a walk's windows ---------------------------------------------------

  lemma {:induction false} AvoidsBelow(img: seq<Byte>, spt: nat, pos: nat, i: nat, lo: nat, hi: nat)
    requires hi <= pos
    ensures WalkAvoids(img, spt, pos, i, lo, hi)
    decreases spt - i
  {
    if i < spt && pos + SECTOR_HEADER <= |img| && 0 < SizeAt(img, pos) <= 4096 {
      AvoidsBelow(img, spt, pos + SECTOR_HEADER + SizeAt(img, pos), i + 1, lo, hi);
    }
  }

  lemma {:induction false} AvoidsAbove(img: seq<Byte>, spt: nat, pos: nat, i: nat, lo: nat, hi: nat)
    requires WalkEnd(img, spt, pos, i) <= lo
    ensures WalkAvoids(img, spt, pos, i, lo, hi)
    decreases spt - i
  {
    if i < spt && pos + SECTOR_HEADER <= |img| && 0 < SizeAt(img, pos) <= 4096 {
      AvoidsAbove(img, spt, pos + SECTOR_HEADER + SizeAt(img, pos), i + 1, lo, hi);
    }
  }

  /** Each record a walk maps lies in the track, clear of every header the walk reads. */
  lemma {:induction false} MappedClear(img: seq<Byte>, spt: nat, bytes: nat, pos: nat, i: nat, offs: seq<nat>,
            left: nat, k: nat)
    requires spt <= CACHE_SPT && |offs| == CACHE_SPT && k < CACHE_SPT && Wide(img, spt, bytes, pos, i)
    ensures var off := Walk(img, spt, pos, i, offs, left).0[k];
      off == offs[k] || (pos + SECTOR_HEADER <= off && off + bytes <= WalkEnd(img, spt, pos, i)
                         && WalkAvoids(img, spt, pos, i, off, off + bytes))
    decreases spt - i
  {
    if i < spt && left > 0 && pos + SECTOR_HEADER <= |img| {
      var rec, size := RecordAt(img, pos), SizeAt(img, pos);
      var now := if 1 <= rec <= spt then offs[rec - 1 := pos + SECTOR_HEADER] else offs;
      var next := pos + SECTOR_HEADER + size;
      if 0 < size <= 4096 { MappedClear(img, spt, bytes, next, i + 1, now, left - 1, k); }
      if now[k] != offs[k] { AvoidsBelow(img, spt, next, i + 1, now[k], now[k] + bytes); }
    }
  }

  /** Two records a walk maps do not share a byte. */
  lemma {:induction false} MappedApart(img: seq<Byte>, spt: nat, bytes: nat, pos: nat, i: nat, offs: seq<nat>,
            left: nat, k: nat, m: nat)
    requires spt <= CACHE_SPT && |offs| == CACHE_SPT && k < CACHE_SPT
    requires m < CACHE_SPT && k != m && Wide(img, spt, bytes, pos, i)
    ensures var r := Walk(img, spt, pos, i, offs, left).0;
      r[k] == offs[k] || r[m] == offs[m] || r[k] + bytes <= r[m] || r[m] + bytes <= r[k]
    decreases spt - i
  {
    if i < spt && left > 0 && pos + SECTOR_HEADER <= |img| {
      var rec, size := RecordAt(img, pos), SizeAt(img, pos);
      var now := if 1 <= rec <= spt then offs[rec - 1 := pos + SECTOR_HEADER] else offs;
      var next := pos + SECTOR_HEADER + size;
      if 0 < size <= 4096 {
        MappedApart(img, spt, bytes, next, i + 1, now, left - 1, k, m);
        MappedClear(img, spt, bytes, next, i + 1, now, left - 1, k);
        MappedClear(img, spt, bytes, next, i + 1, now, left - 1, m);
      }
    }
  }

  /** A record found in a track of a well formed image lies inside the track, clear of
      the headers of the track. */
  lemma RecordInTrack(img: seq<Byte>, spt: nat, bytes: nat, trk: nat, l: nat)
    requires IMAGE_HEADER <= |img| && trk < TRACKS && spt <= CACHE_SPT && l < CACHE_SPT
    requires Base(img, trk) != 0 ==> Wide(img, spt, bytes, Base(img, trk), 0)
    requires Looked(img, spt, trk, PLENTY).0[l] != 0
    ensures var off := Looked(img, spt, trk, PLENTY).0[l];
      && Base(img, trk) != 0 && Base(img, trk) + SECTOR_HEADER <= off && off + bytes <= End(img, spt, trk)
      && WalkAvoids(img, spt, Base(img, trk), 0, off, off + bytes)
  {
    hide Walk, WalkAvoids, Wide, WalkEnd, LongAt;
    if Base(img, trk) != 0 {
      MappedClear(img, spt, bytes, Base(img, trk), 0, NoOffsets(), PLENTY - 1, l);
    }
  }

  /** What well formed says of one pair of tracks. */
  lemma FormedPair(img: seq<Byte>, spt: nat, bytes: nat, t: nat, u: nat)
    requires WellFormed(img, spt, bytes) && t < TRACKS && u < TRACKS
    ensures IMAGE_HEADER <= |img| && TracksApart(img, spt, t, u)
    ensures Base(img, t) != 0 ==> IMAGE_HEADER <= Base(img, t) && Wide(img, spt, bytes, Base(img, t), 0)
  {
    hide Wide, TracksApart, Base;
  }

  lemma RecordAvoided(img: seq<Byte>, spt: nat, bytes: nat, own: nat, l: nat, trk: nat)
    requires WellFormed(img, spt, bytes) && spt <= CACHE_SPT && own < TRACKS && l < CACHE_SPT && trk < TRACKS
    requires Looked(img, spt, own, PLENTY).0[l] != 0
    ensures var off := Looked(img, spt, own, PLENTY).0[l]; LookAvoids(img, spt, trk, off, off + bytes)
  {
    hide Walk, WalkAvoids, Wide, WalkEnd, LongAt, Looked, WellFormed;
    var off := Looked(img, spt, own, PLENTY).0[l];
    FormedPair(img, spt, bytes, own, trk);
    RecordInTrack(img, spt, bytes, own, l);
    if Base(img, trk) != 0 && trk != own {
      if End(img, spt, own) <= Base(img, trk) {
        AvoidsBelow(img, spt, Base(img, trk), 0, off, off + bytes);
      } else {
        AvoidsAbove(img, spt, Base(img, trk), 0, off, off + bytes);
      }
    }
  }

  /** The track of a sector, and its record there. */
  function TrackOfLba(lba: nat, spt: nat): nat
    requires spt > 0
  {
    lba / spt
  }

  function RecordOfLba(lba: nat, spt: nat): nat
    requires spt > 0
  {
    lba % spt
  }

  lemma PlacesDiffer(lba: nat, other: nat, spt: nat)
    requires spt > 0 && lba != other
    ensures TrackOfLba(lba, spt) != TrackOfLba(other, spt) || RecordOfLba(lba, spt) != RecordOfLba(other, spt)
  {
    var q, r := lba / spt, lba % spt;
    assert lba == spt * q + r && other == spt * (other / spt) + other % spt;
  }

  lemma FreshIs(img: seq<Byte>, spt: nat, lba: nat)
    requires 0 < spt <= CACHE_SPT
    ensures RecordOfLba(lba, spt) < CACHE_SPT
    ensures Fresh(img, spt, lba) == Looked(img, spt, TrackOfLba(lba, spt), PLENTY).0[RecordOfLba(lba, spt)]
  {
    hide Looked;
  }

  /** A well formed image is well laid. */
  lemma WellFormedIsLaid(img: seq<Byte>, spt: nat, bytes: nat)
    requires WellFormed(img, spt, bytes) && 0 < spt <= CACHE_SPT
    ensures Laid(img, spt, bytes)
  {
    hide Looked, WellFormed, LookAvoids, Fresh;
    forall lba: nat, trk: nat | lba / spt < TRACKS && TrackOf(trk) < TRACKS && Fresh(img, spt, lba) != 0
      ensures LookAvoids(img, spt, trk, Fresh(img, spt, lba), Fresh(img, spt, lba) + bytes)
    {
      FreshIs(img, spt, lba);
      RecordAvoided(img, spt, bytes, TrackOfLba(lba, spt), RecordOfLba(lba, spt), trk);
    }
  }

  /** Two records of a well formed image do not share a byte. */
  lemma RecordsApart(img: seq<Byte>, spt: nat, bytes: nat, t: nat, k: nat, u: nat, m: nat)
    requires WellFormed(img, spt, bytes) && spt <= CACHE_SPT
    requires t < TRACKS && u < TRACKS && k < CACHE_SPT && m < CACHE_SPT
    requires t != u || k != m
    requires Looked(img, spt, t, PLENTY).0[k] != 0 && Looked(img, spt, u, PLENTY).0[m] != 0
    ensures var a, b := Looked(img, spt, t, PLENTY).0[k], Looked(img, spt, u, PLENTY).0[m];
      a + bytes <= b || b + bytes <= a
  {
    hide Walk, WalkAvoids, Wide, WalkEnd, LongAt, WellFormed;
    FormedPair(img, spt, bytes, t, u);
    FormedPair(img, spt, bytes, u, t);
    RecordInTrack(img, spt, bytes, t, k);
    RecordInTrack(img, spt, bytes, u, m);
    if t == u {
      MappedApart(img, spt, bytes, Base(img, t), 0, NoOffsets(), PLENTY - 1, k, m);
    }
  }

  /** Different sectors of a well formed image do not share a byte. */
  lemma TaggedSectorsApart(d: Drive, lba: nat, other: nat)
    requires d.d88 && 0 < d.spt <= CACHE_SPT && WellFormed(d.img, d.spt, d.bytes) && lba != other
    requires InTable(d, lba) && InTable(d, other) && Sector(d, lba) != None && Sector(d, other) != None
    ensures Apart(d, lba, other)
  {
    hide WellFormed, Fresh;
    FreshApart(d.img, d.spt, d.bytes, lba, other);
  }

  lemma FreshApart(img: seq<Byte>, spt: nat, bytes: nat, lba: nat, other: nat)
    requires 0 < spt <= CACHE_SPT && WellFormed(img, spt, bytes) && lba != other
    requires TrackOfLba(lba, spt) < TRACKS && TrackOfLba(other, spt) < TRACKS
    requires Fresh(img, spt, lba) != 0 && Fresh(img, spt, other) != 0
    ensures var a, b := Fresh(img, spt, lba), Fresh(img, spt, other); a + bytes <= b || b + bytes <= a
  {
    hide Looked, WellFormed, Fresh, TrackOfLba, RecordOfLba;
    PlacesDiffer(lba, other, spt);
    FreshIs(img, spt, lba);
    FreshIs(img, spt, other);
    var t, u := TrackOfLba(lba, spt), TrackOfLba(other, spt);
    RecordsApart(img, spt, bytes, t, RecordOfLba(lba, spt), u, RecordOfLba(other, spt));
  }

  function OffsetOf(d: Drive, lba: nat): nat {
    if d.d88 then Fresh(d.img, d.spt, lba) else d.base + lba * d.bytes
  }

  predicate Apart(d: Drive, a: nat, b: nat) {
    OffsetOf(d, a) + d.bytes <= OffsetOf(d, b) || OffsetOf(d, b) + d.bytes <= OffsetOf(d, a)
  }

  /** On an untagged image every two sectors are apart. */
  lemma RawSectorsApart(d: Drive, lba: nat, other: nat)
    requires !d.d88 && lba != other
    ensures Apart(d, lba, other)
  {
    if other < lba { WindowsApart(other, lba, d.bytes); } else { WindowsApart(lba, other, d.bytes); }
  }

  lemma {:induction false} WindowsApart(a: nat, b: nat, n: nat)
    requires a < b
    ensures a * n + n <= b * n
    decreases b
  {
    assert b * n == (b - 1) * n + n;
    if a < b - 1 { WindowsApart(a, b - 1, n); }
  }

  // ---- a header in a sector's way -----------------------------------------

  /** A walk reads a header at `q`. */
  predicate Visits(img: seq<Byte>, spt: nat, pos: nat, i: nat, q: nat): (v: bool)
    ensures v ==> pos <= q && q + SECTOR_HEADER <= |img|
    decreases spt - i
  {
    && i < spt && pos + SECTOR_HEADER <= |img|
    && var size := SizeAt(img, pos);
       q == pos || (0 < size <= 4096 && Visits(img, spt, pos + SECTOR_HEADER + size, i + 1, q))
  }

  /** No header a walk reads names the record, unless it is the one at `q`. */
  predicate NamedOnlyAt(img: seq<Byte>, spt: nat, pos: nat, i: nat, rec: nat, q: nat)
    decreases spt - i
  {
    i < spt && pos + SECTOR_HEADER <= |img| ==>
      var size := SizeAt(img, pos);
      && (RecordAt(img, pos) == rec ==> pos == q)
      && (0 < size <= 4096 ==> NamedOnlyAt(img, spt, pos + SECTOR_HEADER + size, i + 1, rec, q))
  }

  lemma {:induction false} NotNamed(img: seq<Byte>, spt: nat, pos: nat, i: nat, offs: seq<nat>, left: nat, rec: nat,
            q: nat)
    requires spt <= CACHE_SPT && |offs| == CACHE_SPT && 1 <= rec <= spt
    requires NamedOnlyAt(img, spt, pos, i, rec, q) && q < pos
    ensures Walk(img, spt, pos, i, offs, left).0[rec - 1] == offs[rec - 1]
    decreases spt - i
  {
    if i < spt && left > 0 && pos + SECTOR_HEADER <= |img| {
      var named, size := RecordAt(img, pos), SizeAt(img, pos);
      var now := if 1 <= named <= spt then offs[named - 1 := pos + SECTOR_HEADER] else offs;
      if 0 < size <= 4096 { NotNamed(img, spt, pos + SECTOR_HEADER + size, i + 1, now, left - 1, rec, q); }
    }
  }

  lemma {:induction false} NamedThere(img: seq<Byte>, spt: nat, pos: nat, i: nat, offs: seq<nat>, left: nat, rec: nat,
            q: nat)
    requires spt <= CACHE_SPT && |offs| == CACHE_SPT && 1 <= rec <= spt && i <= spt <= left + i
    requires Visits(img, spt, pos, i, q) && NamedOnlyAt(img, spt, pos, i, rec, q) && RecordAt(img, q) == rec
    ensures Walk(img, spt, pos, i, offs, left).0[rec - 1] == q + SECTOR_HEADER
    decreases spt - i
  {
    var named, size := RecordAt(img, pos), SizeAt(img, pos);
    var now := if 1 <= named <= spt then offs[named - 1 := pos + SECTOR_HEADER] else offs;
    if 0 < size <= 4096 {
      var next := pos + SECTOR_HEADER + size;
      if q == pos {
        NotNamed(img, spt, next, i + 1, now, left - 1, rec, q);
      } else {
        NamedThere(img, spt, next, i + 1, now, left - 1, rec, q);
      }
    }
  }

  /** The record byte of the one header that names a record cleared: the walk takes the
      same steps and does not map the record. */
  lemma {:induction false} NamedNoMore(a: seq<Byte>, b: seq<Byte>, spt: nat, pos: nat, i: nat, offs: seq<nat>,
            left: nat, rec: nat, q: nat)
    requires spt <= CACHE_SPT && |offs| == CACHE_SPT && 1 <= rec <= spt
    requires NamedOnlyAt(a, spt, pos, i, rec, q) && (Visits(a, spt, pos, i, q) || q + SECTOR_HEADER < pos)
    requires q + SECTOR_HEADER <= |a| && b == a[q + 2 := 0]
    ensures Walk(b, spt, pos, i, offs, left).0[rec - 1] == offs[rec - 1]
    decreases spt - i
  {
    if i < spt && left > 0 && pos + SECTOR_HEADER <= |a| {
      var named, size := RecordAt(b, pos), SizeAt(b, pos);
      assert size == SizeAt(a, pos);
      var now := if 1 <= named <= spt then offs[named - 1 := pos + SECTOR_HEADER] else offs;
      if 0 < size <= 4096 {
        NamedNoMore(a, b, spt, pos + SECTOR_HEADER + size, i + 1, now, left - 1, rec, q);
      }
    }
  }

  /** The other half of the condition, for the byte that names a record: when a sector
      runs over the record byte of the one header naming another sector of its track,
      data written to the one, its own but for that byte, loses the other. */
  lemma CoveredHeaderIsLost(img: seq<Byte>, spt: nat, bytes: nat, lba: nat, other: nat, q: nat)
    requires 0 < spt <= CACHE_SPT && IMAGE_HEADER <= |img|
    requires TrackOfLba(lba, spt) == TrackOfLba(other, spt) < TRACKS
    requires var base, rec := Base(img, TrackOfLba(lba, spt)), RecordOfLba(other, spt) + 1;
      && IMAGE_HEADER <= base && Visits(img, spt, base, 0, q)
      && RecordAt(img, q) == rec && NamedOnlyAt(img, spt, base, 0, rec, q)
    requires var off := Fresh(img, spt, lba); off != 0 && off <= q + 2 < off + bytes && off + bytes <= |img|
    ensures Fresh(img, spt, other) == q + SECTOR_HEADER
    ensures var off := Fresh(img, spt, lba);
      Fresh(Stored(img, off, img[off..off + bytes][q + 2 - off := 0]), spt, other) == 0
  {
    hide Walk, Visits, NamedOnlyAt, Fresh, Looked, LongAt;
    var off, trk, rec := Fresh(img, spt, lba), TrackOfLba(lba, spt), RecordOfLba(other, spt) + 1;
    var now := Stored(img, off, img[off..off + bytes][q + 2 - off := 0]);
    assert now == img[q + 2 := 0];
    FreshIs(img, spt, other);
    FreshIs(now, spt, other);
    HeaderLost(img, spt, trk, rec, q);
  }

  lemma HeaderLost(img: seq<Byte>, spt: nat, trk: nat, rec: nat, q: nat)
    requires spt <= CACHE_SPT && IMAGE_HEADER <= |img| && trk < TRACKS && IMAGE_HEADER <= Base(img, trk)
    requires Visits(img, spt, Base(img, trk), 0, q) && NamedOnlyAt(img, spt, Base(img, trk), 0, rec, q)
    requires RecordAt(img, q) == rec && 1 <= rec <= spt
    ensures Looked(img, spt, trk, PLENTY).0[rec - 1] == q + SECTOR_HEADER
    ensures Looked(img[q + 2 := 0], spt, trk, PLENTY).0[rec - 1] == 0
  {
    hide Walk, Visits, NamedOnlyAt;
    var base, now := Base(img, trk), img[q + 2 := 0];
    assert Base(now, trk) == base;
    NamedThere(img, spt, base, 0, NoOffsets(), PLENTY - 1, rec, q);
    NamedNoMore(img, now, spt, base, 0, NoOffsets(), PLENTY - 1, rec, q);
  }

  // ---- two images ---------------------------------------------------------

  /** A small image: one track of two records of 512 bytes. */
  function Small(): (img: seq<Byte>)
    ensures |img| == IMAGE_HEADER + 2 * (SECTOR_HEADER + 512)
  {
    seq(IMAGE_HEADER + 2 * (SECTOR_HEADER + 512), i =>
      if i == TRACK_TABLE then 0xB0 else if i == TRACK_TABLE + 1 then 0x02
      else if i == IMAGE_HEADER + 2 then 1 else if i == IMAGE_HEADER + 15 then 2
      else if i == IMAGE_HEADER + 530 then 2 else if i == IMAGE_HEADER + 543 then 2
      else 0)
  }

  /** It is well formed, and both its records can be read and written. */
  lemma SmallIsWellFormed()
    ensures WellFormed(Small(), 2, 512)
    ensures Fresh(Small(), 2, 0) == IMAGE_HEADER + SECTOR_HEADER
    ensures Fresh(Small(), 2, 1) == IMAGE_HEADER + 2 * SECTOR_HEADER + 512
    ensures forall lba: nat | lba < 2 :: var off := Fresh(Small(), 2, lba); off != 0 && off + 512 <= |Small()|
  {
    var img := Small();
    var first, second := IMAGE_HEADER, IMAGE_HEADER + SECTOR_HEADER + 512;
    assert Base(img, 0) == first;
    forall t: nat | 0 < t < TRACKS ensures Base(img, t) == 0 { }
    assert RecordAt(img, first) == 1 && SizeAt(img, first) == 512;
    assert RecordAt(img, second) == 2 && SizeAt(img, second) == 512;
    var none := NoOffsets();
    var one := none[0 := first + SECTOR_HEADER];
    var two := one[1 := second + SECTOR_HEADER];
    assert Walk(img, 2, second, 1, one, PLENTY - 2) == (two, PLENTY - 3);
    assert Walk(img, 2, first, 0, none, PLENTY - 1) == (two, PLENTY - 3);
    assert Wide(img, 2, 512, second, 1);
  }

  /** An image whose two records have 256 bytes each, mounted at 512. */
  function Narrow(): (img: seq<Byte>)
    ensures |img| == IMAGE_HEADER + 2 * (SECTOR_HEADER + 256) + 256
  {
    seq(IMAGE_HEADER + 2 * (SECTOR_HEADER + 256) + 256, i =>
      if i == TRACK_TABLE then 0xB0 else if i == TRACK_TABLE + 1 then 0x02
      else if i == IMAGE_HEADER + 2 then 1 else if i == IMAGE_HEADER + 15 then 1
      else if i == IMAGE_HEADER + 274 then 2 else if i == IMAGE_HEADER + 287 then 1
      else 0)
  }

  /** Its first sector runs through the second's header: a formatting fill written to
      the one loses the other. */
  lemma NarrowLosesASector(data: seq<Byte>)
    requires |data| == 512 && forall i | 0 <= i < 512 :: data[i] == 0xE5
    ensures var img := Narrow(); var off := Fresh(img, 2, 0);
      && off != 0 && off + 512 <= |img| && Fresh(img, 2, 1) != 0
      && Fresh(Stored(img, off, data), 2, 1) == 0
  {
    var img := Narrow();
    var first, second := IMAGE_HEADER, IMAGE_HEADER + SECTOR_HEADER + 256;
    var now := Stored(img, first + SECTOR_HEADER, data);
    assert LongAt(img, TRACK_TABLE) == first == LongAt(now, TRACK_TABLE);
    assert RecordAt(img, first) == 1 == RecordAt(now, first) && SizeAt(img, first) == 256 == SizeAt(now, first);
    assert RecordAt(img, second) == 2 && SizeAt(img, second) == 256;
    assert RecordAt(now, second) == 0xE5;
    var none := NoOffsets();
    var one := none[0 := first + SECTOR_HEADER];
    assert Walk(img, 2, second, 1, one, PLENTY - 2).0 == one[1 := second + SECTOR_HEADER];
    assert Walk(img, 2, first, 0, none, PLENTY - 1) == Walk(img, 2, second, 1, one, PLENTY - 2);
    assert Walk(now, 2, second, 1, one, PLENTY - 2).0 == one;
    assert Walk(now, 2, first, 0, none, PLENTY - 1) == Walk(now, 2, second, 1, one, PLENTY - 2);
  }
}
