/** Two floppy drives over their image files: a track cache of resolved offsets for
    tagged (D88) images, and one buffer holding the sector read ahead. */
module FloppySpec {
  import opened DiskImage

  const CACHE_SPT := 32
  const SECTOR_HEADER := 16
  const TRACK_TABLE := 0x20
  const TRACKS := 164
  const IMAGE_HEADER := 0x2B0  // the first byte past the track table
  const BUFFER := 1024  // bytes in the read-ahead buffer

  /** A drive: its image, how it was mounted, the sector number read ahead (-1 for
      none) and the cached track (-1 for none) with its offsets. */
  datatype Drive = Drive(img: seq<Byte>, d88: bool, spt: nat, base: nat, bytes: nat, sectors: nat,
                         tag: int, trk: int, offs: seq<nat>) {
    predicate Shape() {
      |offs| == CACHE_SPT && (bytes == 512 || bytes == 1024)
    }
  }

  // ---- where a sector is --------------------------------------------------

  /** A sector header's record number and data size. */
  function RecordAt(img: seq<Byte>, pos: nat): nat
    requires pos + SECTOR_HEADER <= |img|
  {
    img[pos + 2]
  }

  function SizeAt(img: seq<Byte>, pos: nat): nat
    requires pos + SECTOR_HEADER <= |img|
  {
    var low: int, high: int := img[pos + 14], img[pos + 15];
    low + high * 0x100
  }

  /** The header walk of a track: the offset of each record's data, 0 for none.
      `left` is how many more transfers the link lets through. */
  function Walk(img: seq<Byte>, spt: nat, pos: nat, i: nat, offs: seq<nat>, left: nat): (r: (seq<nat>, nat))
    requires spt <= CACHE_SPT && |offs| == CACHE_SPT
    ensures |r.0| == CACHE_SPT && r.1 <= left
    decreases spt - i
  {
    if i >= spt || left == 0 || pos + SECTOR_HEADER > |img| then (offs, left)
    else
      var rec, size := RecordAt(img, pos), SizeAt(img, pos);
      var now := if 1 <= rec <= spt then offs[rec - 1 := pos + SECTOR_HEADER] else offs;
      if size == 0 || size > 4096 then (now, left - 1)
      else Walk(img, spt, pos + SECTOR_HEADER + size, i + 1, now, left - 1)
  }

  function NoOffsets(): (offs: seq<nat>)
    ensures |offs| == CACHE_SPT && forall i | 0 <= i < CACHE_SPT :: offs[i] == 0
  {
    seq(CACHE_SPT, _ => 0)
  }

  /** A cold track looked up: its offsets, whether the track may be claimed, and the
      transfers left. */
  function Looked(img: seq<Byte>, spt: nat, trk: nat, left: nat): (r: (seq<nat>, bool, nat))
    requires spt <= CACHE_SPT
    ensures |r.0| == CACHE_SPT && r.2 <= left
  {
    var at := TRACK_TABLE + trk * 4;
    if left == 0 || at + 4 > |img| then (NoOffsets(), false, left)
    else if LongAt(img, at) == 0 then (NoOffsets(), true, left - 1)
    else var w := Walk(img, spt, LongAt(img, at), 0, NoOffsets(), left - 1); (w.0, true, w.1)
  }

  /** A resolved sector: its offset, the drive with its cache, the transfers left. */
  function Resolve(d: Drive, lba: nat, left: nat): (r: (nat, Drive, nat))
    requires d.Shape()
    ensures r.1 == d.(trk := r.1.trk, offs := r.1.offs) && r.1.Shape() && r.2 <= left
  {
    if d.spt == 0 || d.spt > CACHE_SPT then (0, d, left)
    else
      var trk, l := lba / d.spt, lba % d.spt;
      if d.trk == trk then (d.offs[l], d, left)
      else
        var (offs, claimed, rest) := Looked(d.img, d.spt, trk, left);
        (if claimed then offs[l] else 0, d.(trk := if claimed then trk else -1, offs := offs), rest)
  }

  /** More transfers than any walk of a track takes. */
  const PLENTY := 40

  /** The offset found by a fresh, undisturbed, uncached walk. */
  function Fresh(img: seq<Byte>, spt: nat, lba: nat): nat {
    if spt == 0 || spt > CACHE_SPT then 0
    else Looked(img, spt, lba / spt, PLENTY).0[lba % spt]
  }

  /** The sector's track has an entry in the image's table. */
  predicate InTable(d: Drive, lba: nat) {
    d.d88 ==> d.spt > 0 && lba / d.spt < TRACKS
  }

  /** The sector an image holds for a number, if it holds one. */
  function Sector(d: Drive, lba: nat): Option<seq<Byte>> {
    var off := if d.d88 then Fresh(d.img, d.spt, lba) else d.base + lba * d.bytes;
    if (d.d88 && off == 0) || off + d.bytes > |d.img| then None else Some(d.img[off..off + d.bytes])
  }

  // ---- the service --------------------------------------------------------

  datatype Floppy = Floppy(a: Drive, b: Drive, buffer: seq<Byte>) {
    predicate Shape() { a.Shape() && b.Shape() && |buffer| == BUFFER }

    function Of(drv: bool): Drive { if drv then b else a }

    function With(drv: bool, d: Drive): Floppy { if drv then this.(b := d) else this.(a := d) }
  }

  function Place(d: Drive, lba: nat, left: nat): (r: (nat, Drive, nat))
    requires d.Shape()
    ensures r.1 == d.(trk := r.1.trk, offs := r.1.offs) && r.1.Shape() && r.2 <= left
  {
    if d.d88 then Resolve(d, lba, left) else (d.base + lba * d.bytes, d, left)
  }

  /** The read-ahead after a read of `lba`: the new tag, buffer and cache. */
  function Ahead(d: Drive, buffer: seq<Byte>, lba: nat, left: nat): (r: (Drive, seq<Byte>))
    requires d.Shape() && |buffer| == BUFFER
    ensures r.0.Shape() && |r.1| == BUFFER
  {
    var next, dropped := lba + 1, d.(tag := -1);
    if next * d.bytes >= d.sectors * 512 then (dropped, buffer)
    else
      var (off, now, rest) := Place(dropped, next, left);
      if off != 0 && rest > 0 && off + d.bytes <= |d.img|
      then (now.(tag := next), d.img[off..off + d.bytes] + buffer[d.bytes..])
      else (now, buffer)
  }

  /** What the controller is sent for a read. */
  function Streamed(d: Drive, buffer: seq<Byte>, lba: nat, left: nat): (r: (Option<seq<Byte>>, nat))
    requires d.Shape() && |buffer| == BUFFER
    ensures r.1 <= left
  {
    var (off, now, rest) := Place(d, lba, left);
    StreamedFrom(d, buffer, lba, off, rest)
  }

  function StreamedFrom(d: Drive, buffer: seq<Byte>, lba: nat, off: nat, rest: nat): (r: (Option<seq<Byte>>, nat))
    requires d.Shape() && |buffer| == BUFFER
    ensures r.1 <= rest
  {
    if d.tag == lba then (Some(buffer[..d.bytes]), rest)
    else if (!d.d88 || off != 0) && rest > 0 && off + d.bytes <= |d.img| then
      (Some(d.img[off..off + d.bytes]), rest - 1)
    else (None, rest)
  }

  function Read(f: Floppy, drv: bool, lba: nat, left: nat): (r: (Floppy, Option<seq<Byte>>))
    requires f.Shape()
    ensures r.0.Shape()
  {
    var d := f.Of(drv);
    var (out, rest) := Streamed(d, f.buffer, lba, left);
    var (now, buffer) := Ahead(Place(d, lba, left).1, f.buffer, lba, rest);
    (f.With(drv, now).(buffer := buffer), out)
  }

  function Write(f: Floppy, drv: bool, lba: nat, data: seq<Byte>, left: nat): (r: Floppy)
    requires f.Shape() && |data| == f.Of(drv).bytes
    ensures r.Shape()
  {
    var d := f.Of(drv);
    var (off, now, rest) := Place(d, lba, left);
    var img := if (!d.d88 || off != 0) && rest > 0 && off + d.bytes <= |d.img| then Stored(d.img, off, data) else d.img;
    f.With(drv, now.(tag := -1, img := img))
  }

  // ---- the cache ----------------------------------------------------------

  /** How a walk ends does not depend on the link while it lasts. */
  lemma {:induction false} WalkUndisturbed(img: seq<Byte>, spt: nat, pos: nat, i: nat, offs: seq<nat>, a: nat, b: nat)
    requires i <= spt <= CACHE_SPT && |offs| == CACHE_SPT && a >= spt - i && b >= spt - i
    ensures Walk(img, spt, pos, i, offs, a).0 == Walk(img, spt, pos, i, offs, b).0
    ensures Walk(img, spt, pos, i, offs, a).1 >= a - (spt - i)
    decreases spt - i
  {
    hide RecordAt;
    if i < spt && pos + SECTOR_HEADER <= |img| {
      var rec, size := RecordAt(img, pos), SizeAt(img, pos);
      var now := if 1 <= rec <= spt then offs[rec - 1 := pos + SECTOR_HEADER] else offs;
      WalkUndisturbed(img, spt, pos + SECTOR_HEADER + size, i + 1, now, a - 1, b - 1);
    }
  }

  /** The cache, while it claims a track of the table, is what a fresh walk would find. */
  ghost predicate Cached(d: Drive) {
    && d.Shape()
    && (d.d88 && 0 <= d.trk < TRACKS ==> 0 < d.spt <= CACHE_SPT && d.offs == Looked(d.img, d.spt, d.trk, PLENTY).0)
  }

  lemma LookUndisturbed(img: seq<Byte>, spt: nat, trk: nat, left: nat)
    requires spt <= CACHE_SPT && left >= PLENTY
    ensures var a, b := Looked(img, spt, trk, left), Looked(img, spt, trk, PLENTY);
      a.0 == b.0 && a.1 == b.1 && a.2 >= left - PLENTY && (!a.1 ==> a.0 == NoOffsets())
  {
    hide Walk;
    var at := TRACK_TABLE + trk * 4;
    if at + 4 <= |img| {
      WalkUndisturbed(img, spt, LongAt(img, at), 0, NoOffsets(), left - 1, PLENTY - 1);
    }
  }

  /** Cached or not, an undisturbed lookup yields the fresh offset, and leaves the
      cache true. */
  lemma ResolveIsFresh(d: Drive, lba: nat, left: nat)
    requires Cached(d) && d.d88 && left >= PLENTY
    ensures var r := Resolve(d, lba, left);
      (InTable(d, lba) ==> r.0 == Fresh(d.img, d.spt, lba)) && Cached(r.1) && r.2 >= left - PLENTY
  {
    hide Looked;
    if 0 < d.spt <= CACHE_SPT {
      LookUndisturbed(d.img, d.spt, lba / d.spt, left);
    }
  }

  // ---- a link that fails --------------------------------------------------

  /** How many headers of a walk have to be read before every record it maps is
      mapped for good: those up to the last one that names a record of the track. */
  function Needed(img: seq<Byte>, spt: nat, pos: nat, i: nat): (n: nat)
    ensures i <= spt ==> n <= spt - i
    decreases spt - i
  {
    if i >= spt || pos + SECTOR_HEADER > |img| then 0
    else
      var rec, size := RecordAt(img, pos), SizeAt(img, pos);
      var rest := if size == 0 || size > 4096 then 0 else Needed(img, spt, pos + SECTOR_HEADER + size, i + 1);
      if rest > 0 then rest + 1 else if 1 <= rec <= spt then 1 else 0
  }

  /** A walk only ever raises an offset. */
  lemma {:induction false} WalkRaises(img: seq<Byte>, spt: nat, pos: nat, i: nat, offs: seq<nat>, left: nat, k: nat)
    requires spt <= CACHE_SPT && |offs| == CACHE_SPT && k < CACHE_SPT && offs[k] < pos + SECTOR_HEADER
    ensures var off := Walk(img, spt, pos, i, offs, left).0[k];
      offs[k] <= off && (off == offs[k] || pos + SECTOR_HEADER <= off)
    decreases spt - i
  {
    if i < spt && left > 0 && pos + SECTOR_HEADER <= |img| {
      var rec, size := RecordAt(img, pos), SizeAt(img, pos);
      var now := if 1 <= rec <= spt then offs[rec - 1 := pos + SECTOR_HEADER] else offs;
      if 0 < size <= 4096 { WalkRaises(img, spt, pos + SECTOR_HEADER + size, i + 1, now, left - 1, k); }
    }
  }

  /** A walk maps nothing at all exactly when it reads no header that names a record. */
  lemma {:induction false} WalkIdle(img: seq<Byte>, spt: nat, pos: nat, i: nat, offs: seq<nat>, left: nat)
    requires i <= spt <= CACHE_SPT && |offs| == CACHE_SPT && left >= spt - i
    requires forall k | 0 <= k < CACHE_SPT :: offs[k] < pos + SECTOR_HEADER
    ensures Walk(img, spt, pos, i, offs, left).0 == offs <==> Needed(img, spt, pos, i) == 0
    decreases spt - i
  {
    if i < spt && pos + SECTOR_HEADER <= |img| {
      var rec, size := RecordAt(img, pos), SizeAt(img, pos);
      var now := if 1 <= rec <= spt then offs[rec - 1 := pos + SECTOR_HEADER] else offs;
      if 0 < size <= 4096 {
        if 1 <= rec <= spt {
          WalkRaises(img, spt, pos + SECTOR_HEADER + size, i + 1, now, left - 1, rec - 1);
        } else {
          WalkIdle(img, spt, pos + SECTOR_HEADER + size, i + 1, now, left - 1);
        }
      } else if 1 <= rec <= spt {
        assert now[rec - 1] != offs[rec - 1];
      }
    }
  }

  /** A walk cut short finds what the whole walk finds if and only if it got through
      the headers needed. */
  lemma {:induction false} WalkCutShort(img: seq<Byte>, spt: nat, pos: nat, i: nat, offs: seq<nat>, left: nat,
            full: nat)
    requires i <= spt <= CACHE_SPT && |offs| == CACHE_SPT && full >= spt - i
    requires forall k | 0 <= k < CACHE_SPT :: offs[k] < pos + SECTOR_HEADER
    ensures Walk(img, spt, pos, i, offs, left).0 == Walk(img, spt, pos, i, offs, full).0 <==>
        left >= Needed(img, spt, pos, i)
    decreases spt - i
  {
    if left == 0 {
      WalkIdle(img, spt, pos, i, offs, full);
    } else if i < spt && pos + SECTOR_HEADER <= |img| {
      var rec, size := RecordAt(img, pos), SizeAt(img, pos);
      var now := if 1 <= rec <= spt then offs[rec - 1 := pos + SECTOR_HEADER] else offs;
      if 0 < size <= 4096 { WalkCutShort(img, spt, pos + SECTOR_HEADER + size, i + 1, now, left - 1, full - 1); }
    }
  }

  /** What a cold lookup needs of the link to be right: nothing when it cannot read the
      table, one transfer for an empty track, and otherwise the table entry and the
      headers up to the last that names a record. */
  function LookNeeds(img: seq<Byte>, spt: nat, trk: nat): nat {
    var at := TRACK_TABLE + trk * 4;
    if at + 4 > |img| then 0
    else if LongAt(img, at) == 0 then 1
    else 1 + Needed(img, spt, LongAt(img, at), 0)
  }

  /** Over a link that gives out after `left` transfers, a cold lookup claims the track
      once its table entry arrived, and what it then caches is what a fresh walk finds
      if and only if the link lasted for the headers needed. In between it claims a
      track it has not read. */
  lemma LookCutShort(img: seq<Byte>, spt: nat, trk: nat, left: nat)
    requires 0 < spt <= CACHE_SPT && TRACK_TABLE + trk * 4 + 4 <= |img|
    ensures var r := Looked(img, spt, trk, left);
      && (r.1 <==> left > 0)
      && (!r.1 ==> r.0 == NoOffsets())
      && (r.1 ==> (r.0 == Looked(img, spt, trk, PLENTY).0 <==> left >= LookNeeds(img, spt, trk)))
  {
    hide Walk, Needed;
    var base := LongAt(img, TRACK_TABLE + trk * 4);
    if left > 0 && base != 0 { WalkCutShort(img, spt, base, 0, NoOffsets(), left - 1, PLENTY - 1); }
  }

  /** A track claimed on a cut walk stays claimed: every later request on it, however
      well the link works by then, gets what the cut walk cached, and for some record
      that is not its sector. */
  lemma BrokenWalkSticks(d: Drive, lba: nat, left: nat, later: nat)
    requires d.Shape() && 0 < d.spt <= CACHE_SPT && d.trk != lba / d.spt
    requires TRACK_TABLE + lba / d.spt * 4 + 4 <= |d.img| && 0 < left < LookNeeds(d.img, d.spt, lba / d.spt)
    ensures var now := Resolve(d, lba, left).1;
      && (forall other: nat | other / d.spt == lba / d.spt ::
            Resolve(now, other, later) == (Looked(d.img, d.spt, lba / d.spt, left).0[other % d.spt], now, later))
      && now.offs != Looked(d.img, d.spt, lba / d.spt, PLENTY).0
  {
    hide Looked, LookNeeds, LongAt;
    LookCutShort(d.img, d.spt, lba / d.spt, left);
    var now := Resolve(d, lba, left).1;
    forall other: nat | other / d.spt == lba / d.spt
      ensures Resolve(now, other, later) == (Looked(d.img, d.spt, lba / d.spt, left).0[other % d.spt], now, later)
    {
    }
  }

  /** The plainest case: a link that gives out right after the table entry leaves the
      whole track not found. */
  lemma EmptyWalkSticks(d: Drive, lba: nat, other: nat, later: nat)
    requires d.Shape() && 0 < d.spt <= CACHE_SPT && d.trk != lba / d.spt && other / d.spt == lba / d.spt
    requires TRACK_TABLE + lba / d.spt * 4 + 4 <= |d.img|
    ensures Resolve(Resolve(d, lba, 1).1, other, later).0 == 0
  {
  }

  // ---- what a write leaves alone ------------------------------------------

  /** A walk reads nothing in a window. */
  ghost predicate WalkAvoids(img: seq<Byte>, spt: nat, pos: nat, i: nat, lo: nat, hi: nat)
    decreases spt - i
  {
    if i >= spt || pos + SECTOR_HEADER > |img| then true
    else
      && (hi <= pos || pos + SECTOR_HEADER <= lo)
      && (0 < SizeAt(img, pos) <= 4096 ==> WalkAvoids(img, spt, pos + SECTOR_HEADER + SizeAt(img, pos), i + 1, lo, hi))
  }

  ghost predicate LookAvoids(img: seq<Byte>, spt: nat, trk: nat, lo: nat, hi: nat) {
    var at := TRACK_TABLE + trk * 4;
    if at + 4 > |img| then true
    else (hi <= at || at + 4 <= lo) && (LongAt(img, at) != 0 ==> WalkAvoids(img, spt, LongAt(img, at), 0, lo, hi))
  }

  /** No sector of the table's tracks reaches into what finding any of them reads. */
  ghost predicate Laid(img: seq<Byte>, spt: nat, bytes: nat) {
    forall lba: nat, trk: nat {:trigger Fresh(img, spt, lba), TrackOf(trk)} ::
      spt > 0 && lba / spt < TRACKS && TrackOf(trk) < TRACKS && Fresh(img, spt, lba) != 0 ==>
        LookAvoids(img, spt, trk, Fresh(img, spt, lba), Fresh(img, spt, lba) + bytes)
  }

  function TrackOf(trk: nat): nat { trk }

  /** Images alike outside a window the walk avoids. */
  ghost predicate AlikeOutside(a: seq<Byte>, b: seq<Byte>, lo: nat, hi: nat) {
    |a| == |b| && forall j | 0 <= j < |a| && (j < lo || hi <= j) :: a[j] == b[j]
  }

  lemma {:induction false} WalkUnchanged(a: seq<Byte>, b: seq<Byte>, spt: nat, pos: nat, i: nat, offs: seq<nat>,
            left: nat, lo: nat, hi: nat)
    requires AlikeOutside(a, b, lo, hi) && WalkAvoids(a, spt, pos, i, lo, hi) && spt <= CACHE_SPT && |offs| == CACHE_SPT
    ensures Walk(a, spt, pos, i, offs, left) == Walk(b, spt, pos, i, offs, left)
    decreases spt - i
  {
    if i < spt && pos + SECTOR_HEADER <= |a| {
      var rec, size := RecordAt(a, pos), SizeAt(a, pos);
      assert rec == RecordAt(b, pos) && size == SizeAt(b, pos);
      var now := if 1 <= rec <= spt then offs[rec - 1 := pos + SECTOR_HEADER] else offs;
      if 0 < size <= 4096 && left > 0 {
        WalkUnchanged(a, b, spt, pos + SECTOR_HEADER + size, i + 1, now, left - 1, lo, hi);
      }
    }
  }

  /** Nor does what another walk avoids change. */
  lemma {:induction false} AvoidsUnchanged(a: seq<Byte>, b: seq<Byte>, spt: nat, pos: nat, i: nat, lo: nat, hi: nat,
            lo2: nat, hi2: nat)
    requires AlikeOutside(a, b, lo, hi) && WalkAvoids(a, spt, pos, i, lo, hi) && WalkAvoids(a, spt, pos, i, lo2, hi2)
    ensures WalkAvoids(b, spt, pos, i, lo2, hi2)
    decreases spt - i
  {
    if i < spt && pos + SECTOR_HEADER <= |a| {
      var size := SizeAt(a, pos);
      assert size == SizeAt(b, pos);
      if 0 < size <= 4096 {
        AvoidsUnchanged(a, b, spt, pos + SECTOR_HEADER + size, i + 1, lo, hi, lo2, hi2);
      }
    }
  }

  lemma LookUnchanged(a: seq<Byte>, b: seq<Byte>, spt: nat, trk: nat, left: nat, lo: nat, hi: nat)
    requires AlikeOutside(a, b, lo, hi) && LookAvoids(a, spt, trk, lo, hi) && spt <= CACHE_SPT
    ensures Looked(a, spt, trk, left) == Looked(b, spt, trk, left)
    ensures forall lo2: nat, hi2: nat :: LookAvoids(a, spt, trk, lo2, hi2) ==> LookAvoids(b, spt, trk, lo2, hi2)
  {
    hide Walk, WalkAvoids;
    var at := TRACK_TABLE + trk * 4;
    if at + 4 <= |a| {
      assert LongAt(a, at) == LongAt(b, at);
      if LongAt(a, at) != 0 {
        if left > 0 { WalkUnchanged(a, b, spt, LongAt(a, at), 0, NoOffsets(), left - 1, lo, hi); }
        forall lo2: nat, hi2: nat | LookAvoids(a, spt, trk, lo2, hi2) ensures LookAvoids(b, spt, trk, lo2, hi2) {
          AvoidsUnchanged(a, b, spt, LongAt(a, at), 0, lo, hi, lo2, hi2);
        }
      }
    }
  }

  /** Storing a sector of a well laid image moves no sector. */
  lemma StoringMovesNothing(img: seq<Byte>, spt: nat, bytes: nat, lba: nat, data: seq<Byte>)
    requires 0 < spt <= CACHE_SPT && Laid(img, spt, bytes) && |data| == bytes && lba / spt < TRACKS
    requires Fresh(img, spt, lba) != 0 && Fresh(img, spt, lba) + bytes <= |img|
    ensures var now := Stored(img, Fresh(img, spt, lba), data);
      && Laid(now, spt, bytes)
      && (forall other: nat | other / spt < TRACKS :: Fresh(now, spt, other) == Fresh(img, spt, other))
      && (forall trk: nat | trk < TRACKS :: Looked(now, spt, trk, PLENTY) == Looked(img, spt, trk, PLENTY))
  {
    hide LookAvoids, Looked, Stored;
    var off := Fresh(img, spt, lba);
    var now := Stored(img, off, data);
    assert AlikeOutside(img, now, off, off + bytes);
    forall trk: nat | trk < TRACKS ensures Looked(now, spt, trk, PLENTY) == Looked(img, spt, trk, PLENTY) {
      assert TrackOf(trk) < TRACKS;
      LookUnchanged(img, now, spt, trk, PLENTY, off, off + bytes);
    }
    forall other: nat | other / spt < TRACKS ensures Fresh(now, spt, other) == Fresh(img, spt, other) { }
    forall other: nat, trk: nat | other / spt < TRACKS && TrackOf(trk) < TRACKS && Fresh(now, spt, other) != 0
      ensures LookAvoids(now, spt, trk, Fresh(now, spt, other), Fresh(now, spt, other) + bytes)
    {
      LookUnchanged(img, now, spt, trk, PLENTY, off, off + bytes);
      assert LookAvoids(img, spt, trk, Fresh(img, spt, other), Fresh(img, spt, other) + bytes);
    }
  }
}
