/** Runs of the floppy service: mounts, ejects, reads and writes of two drives that
    share one read-ahead buffer. */
module FloppyRuns {
  import opened DiskImage
  import opened FloppySpec
  import opened FloppyLayout

  // ---- disks --------------------------------------------------------------

  /** A disk as the mount's probes found it. */
  datatype Disk = Disk(img: seq<Byte>, d88: bool, spt: nat, base: nat, bytes: nat, sectors: nat) {
    ghost predicate Sound() {
      && (bytes == 512 || bytes == 1024)
      && (d88 ==> 0 < spt <= CACHE_SPT && WellFormed(img, spt, bytes))
    }
  }

  /** A disk put in a drive: nothing cached, nothing read ahead. */
  function Inserted(d: Drive, k: Disk): Drive {
    Drive(k.img, k.d88, k.spt, k.base, k.bytes, k.sectors, -1, -1, d.offs)
  }

  /** A drive whose media went away: the image is remembered, what was read ahead not. */
  function Ejected(d: Drive): Drive { d.(tag := -1) }

  /** Mounted alike, whatever is cached. */
  predicate SameDisk(d: Drive, e: Drive) {
    && d.img == e.img && d.d88 == e.d88 && d.spt == e.spt
    && d.base == e.base && d.bytes == e.bytes && d.sectors == e.sectors
  }

  lemma SameSector(d: Drive, e: Drive, lba: nat)
    requires SameDisk(d, e)
    ensures Sector(d, lba) == Sector(e, lba)
    ensures forall data | |data| == d.bytes :: Rewritten(d, lba, data) == Rewritten(e, lba, data)
  {
  }

  /** What a write leaves of an image: the sector replaced if there is one. */
  function Rewritten(d: Drive, lba: nat, data: seq<Byte>): (img: seq<Byte>)
    requires |data| == d.bytes
    ensures |img| == |d.img|
  {
    if Sector(d, lba) == None then d.img else Stored(d.img, OffsetOf(d, lba), data)
  }

  // ---- one request --------------------------------------------------------

  /** The drive's cache is true and its image, if tagged, well laid. */
  ghost predicate Trusted(d: Drive) {
    Cached(d) && -1 <= d.tag && (d.d88 ==> 0 < d.spt <= CACHE_SPT && Laid(d.img, d.spt, d.bytes))
  }

  /** Enough transfers for any request. */
  const AMPLE := 2 * PLENTY + 2

  lemma InsertedIsTrusted(d: Drive, k: Disk)
    requires d.Shape() && k.Sound()
    ensures Trusted(Inserted(d, k))
  {
    hide Laid, WellFormed;
    if k.d88 { WellFormedIsLaid(k.img, k.spt, k.bytes); }
  }

  lemma PlaceIsFresh(d: Drive, lba: nat, left: nat)
    requires Trusted(d) && left >= PLENTY
    ensures var r := Place(d, lba, left);
      (InTable(d, lba) ==> r.0 == OffsetOf(d, lba)) && Trusted(r.1) && r.2 >= left - PLENTY
  {
    hide Looked, Fresh, Laid;
    if d.d88 { ResolveIsFresh(d, lba, left); }
  }

  /** A read-ahead, if it lands, lands its sector. */
  lemma AheadIsRight(d: Drive, buffer: seq<Byte>, lba: nat, left: nat)
    requires Trusted(d) && |buffer| == BUFFER && left > PLENTY
    ensures var (now, ahead) := Ahead(d, buffer, lba, left);
      && Trusted(now) && SameDisk(now, d) && (now.tag == -1 || now.tag == lba + 1)
      && (now.tag < 0 ==> ahead == buffer)
      && (now.tag >= 0 ==> ahead[now.bytes..] == buffer[now.bytes..])
      && (now.tag >= 0 && InTable(now, now.tag) ==> Sector(now, now.tag) == Some(ahead[..now.bytes]))
  {
    hide Resolve, Fresh, Laid, Looked;
    PlaceIsFresh(d.(tag := -1), lba + 1, left);
  }

  /** What a read streams: the sector, unless its drive's tag names it, and then what
      is in the buffer. */
  lemma ReadStreams(f: Floppy, drv: bool, lba: nat, left: nat)
    requires f.Shape() && Trusted(f.Of(drv)) && left >= AMPLE && InTable(f.Of(drv), lba)
    ensures var d := f.Of(drv);
      Read(f, drv, lba, left).1 == if d.tag == lba then Some(f.buffer[..d.bytes]) else Sector(d, lba)
  {
    hide Resolve, Fresh, Laid, Looked, Ahead;
    PlaceIsFresh(f.Of(drv), lba, left);
  }

  lemma ReadKeeps(f: Floppy, drv: bool, lba: nat, left: nat)
    requires f.Shape() && Trusted(f.Of(drv)) && left >= AMPLE
    ensures var now := Read(f, drv, lba, left).0; var d := now.Of(drv);
      && Trusted(d) && SameDisk(d, f.Of(drv)) && now.Of(!drv) == f.Of(!drv) && (d.tag == -1 || d.tag == lba + 1)
      && (d.tag < 0 ==> now.buffer == f.buffer)
      && (d.tag >= 0 && InTable(d, d.tag) ==> Sector(d, d.tag) == Some(now.buffer[..d.bytes]))
  {
    hide Resolve, Fresh, Laid, Looked, Ahead, Sector;
    PlaceIsFresh(f.Of(drv), lba, left);
    AheadIsRight(Place(f.Of(drv), lba, left).1, f.buffer, lba, Streamed(f.Of(drv), f.buffer, lba, left).1);
  }

  lemma WriteKeeps(f: Floppy, drv: bool, lba: nat, data: seq<Byte>, left: nat)
    requires f.Shape() && Trusted(f.Of(drv)) && |data| == f.Of(drv).bytes && left >= AMPLE && InTable(f.Of(drv), lba)
    ensures var now := Write(f, drv, lba, data, left); var d := now.Of(drv);
      && Trusted(d) && d.tag == -1 && SameDisk(d, f.Of(drv).(img := Rewritten(f.Of(drv), lba, data)))
      && now.Of(!drv) == f.Of(!drv) && now.buffer == f.buffer
  {
    hide Resolve, Fresh, Laid, Looked, Stored;
    var d := f.Of(drv);
    PlaceIsFresh(d, lba, left);
    if d.d88 && Sector(d, lba) != None {
      StoringMovesNothing(d.img, d.spt, d.bytes, lba, data);
    }
  }

  // ---- runs ---------------------------------------------------------------

  datatype Request = ReadSector(lba: nat) | WriteSector(lba: nat, data: seq<Byte>) | Insert(disk: Disk) | Eject

  datatype Event = Event(drv: bool, q: Request)

  /** The two disks alone, with no cache and nothing read ahead. */
  datatype Disks = Disks(a: Drive, b: Drive) {
    function Of(drv: bool): Drive { if drv then b else a }

    function With(drv: bool, d: Drive): Disks { if drv then this.(b := d) else this.(a := d) }
  }

  const EMPTY := Drive([], false, 0, 0, 512, 0, -1, -1, NoOffsets())

  /** Requests lie in the mounted disk's track table, writes bring a sector's worth,
      and tagged disks are well formed. */
  ghost predicate Meets(d: Drive, q: Request) {
    match q
    case ReadSector(lba) => InTable(d, lba)
    case WriteSector(lba, data) => InTable(d, lba) && |data| == d.bytes
    case Insert(disk) => disk.Sound()
    case Eject => true
  }

  /** What a request leaves of the disks. */
  function After(p: Disks, e: Event): Disks {
    var d := p.Of(e.drv);
    match e.q
    case WriteSector(lba, data) => if |data| == d.bytes then p.With(e.drv, d.(img := Rewritten(d, lba, data))) else p
    case Insert(disk) => p.With(e.drv, Inserted(d, disk))
    case _ => p
  }

  /** What a run leaves of the disks. */
  function Plain(es: seq<Event>): Disks {
    if es == [] then Disks(EMPTY, EMPTY) else After(Plain(es[..|es| - 1]), es[|es| - 1])
  }

  ghost predicate Proper(es: seq<Event>) {
    forall i | 0 <= i < |es| :: Meets(Plain(es[..i]).Of(es[i].drv), es[i].q)
  }

  /** The read-ahead last landed: whose it was and what it brought. */
  datatype Landing = Nothing | By(drv: bool, sector: seq<Byte>)

  /** The service over a run, and the read-ahead last landed in it. */
  datatype Watch = Watch(f: Floppy, last: Landing)

  ghost predicate Matches(w: Watch, p: Disks) {
    && w.f.Shape()
    && (forall drv: bool :: SameDisk(w.f.Of(drv), p.Of(drv)) && Held(w, drv))
    && Landed(w)
  }

  ghost predicate Landed(w: Watch)
    requires w.f.Shape()
  {
    w.last.By? ==> |w.last.sector| <= BUFFER && w.f.buffer[..|w.last.sector|] == w.last.sector
  }

  /** A tag is always some read-ahead's, and while its own drive's was the last to land
      the buffer holds the sector it names. */
  ghost predicate Held(w: Watch, drv: bool) {
    var d := w.f.Of(drv);
    && w.f.Shape() && Trusted(d)
    && (d.tag >= 0 ==> w.last.By?)
    && (d.tag >= 0 && InTable(d, d.tag) && w.last.drv == drv ==> Sector(d, d.tag) == Some(w.f.buffer[..d.bytes]))
  }

  function Step(w: Watch, e: Event, left: nat): Watch
    requires w.f.Shape() && (e.q.WriteSector? ==> |e.q.data| == w.f.Of(e.drv).bytes)
  {
    var f, drv := w.f, e.drv;
    match e.q
    case ReadSector(lba) =>
      var g := Read(f, drv, lba, left).0;
      Watch(g, if g.Of(drv).tag >= 0 then By(drv, g.buffer[..g.Of(drv).bytes]) else w.last)
    case WriteSector(lba, data) => w.(f := Write(f, drv, lba, data, left))
    case Insert(disk) => w.(f := f.With(drv, Inserted(f.Of(drv), disk)))
    case Eject => w.(f := f.With(drv, Ejected(f.Of(drv))))
  }

  /** The service from power-up over a run, whatever its buffer held. */
  ghost function Ran(buffer: seq<Byte>, es: seq<Event>, left: nat): (w: Watch)
    requires Proper(es) && |buffer| == BUFFER && left >= AMPLE
    ensures Matches(w, Plain(es))
  {
    hide Matches, Meets, Step, After;
    if es == [] then
      StartMatches(buffer);
      Watch(Floppy(EMPTY, EMPTY, buffer), Nothing)
    else
      var n := |es| - 1;
      assert Proper(es[..n]) by { ProperPrefix(es, n); }
      var w := Ran(buffer, es[..n], left);
      MeetsStep(w, Plain(es[..n]), es[n]);
      StepMatches(w, Plain(es[..n]), es[n], left);
      assert Plain(es) == After(Plain(es[..n]), es[n]);
      Step(w, es[n], left)
  }

  lemma ProperPrefix(es: seq<Event>, n: nat)
    requires Proper(es) && n <= |es|
    ensures Proper(es[..n])
  {
    hide Meets, Plain;
    forall i | 0 <= i < n ensures Meets(Plain(es[..n][..i]).Of(es[..n][i].drv), es[..n][i].q) {
      assert es[..n][..i] == es[..i];
    }
  }

  lemma StartMatches(buffer: seq<Byte>)
    requires |buffer| == BUFFER
    ensures Matches(Watch(Floppy(EMPTY, EMPTY, buffer), Nothing), Disks(EMPTY, EMPTY))
  {
  }

  lemma MeetsStep(w: Watch, p: Disks, e: Event)
    requires Matches(w, p) && Meets(p.Of(e.drv), e.q)
    ensures w.f.Shape() && (e.q.WriteSector? ==> |e.q.data| == w.f.Of(e.drv).bytes)
  {
    hide Held, InTable;
    assert SameDisk(w.f.Of(e.drv), p.Of(e.drv));
  }

  lemma StepMatches(w: Watch, p: Disks, e: Event, left: nat)
    requires Matches(w, p) && Meets(p.Of(e.drv), e.q) && left >= AMPLE
    ensures e.q.WriteSector? ==> |e.q.data| == w.f.Of(e.drv).bytes
    ensures Matches(Step(w, e, left), After(p, e))
  {
    hide Trusted, Read, Write, Sector, Rewritten, InTable, Laid, WellFormed, Landed;
    var drv := e.drv;
    var d := w.f.Of(drv);
    assert Held(w, drv) && Held(w, !drv) && SameDisk(d, p.Of(drv)) && SameDisk(w.f.Of(!drv), p.Of(!drv));
    var now, next := Step(w, e, left), After(p, e);
    assert now.f.Shape() && Held(now, drv) && Held(now, !drv) && SameDisk(now.f.Of(drv), next.Of(drv))
           && SameDisk(now.f.Of(!drv), next.Of(!drv)) by {
      match e.q
      case ReadSector(lba) => ReadKeeps(w.f, drv, lba, left);
      case WriteSector(lba, data) =>
        InTableSame(d, p.Of(drv), lba);
        SameSector(d, p.Of(drv), lba);
        WriteKeeps(w.f, drv, lba, data, left);
      case Insert(disk) => InsertedIsTrusted(d, disk);
      case Eject => EjectedIsTrusted(d);
    }
    forall x: bool ensures SameDisk(now.f.Of(x), next.Of(x)) && Held(now, x) { assert x == drv || x == !drv; }
    StepLanded(w, e, left);
  }

  lemma StepLanded(w: Watch, e: Event, left: nat)
    requires w.f.Shape() && Trusted(w.f.Of(e.drv)) && Landed(w) && left >= AMPLE
    requires e.q.WriteSector? ==> |e.q.data| == w.f.Of(e.drv).bytes
    requires e.q.Insert? ==> e.q.disk.Sound()
    ensures var now := Step(w, e, left); now.f.Shape() && Landed(now)
  {
    hide Trusted, Sector, InTable, Laid, WellFormed, Ahead, Resolve, Place, Streamed;
    var g := Step(w, e, left).f;
    if e.q.ReadSector? {
      ReadKeeps(w.f, e.drv, e.q.lba, left);
      assert g.Of(e.drv).Shape();
    }
  }

  lemma EjectedIsTrusted(d: Drive)
    requires Trusted(d)
    ensures Trusted(Ejected(d))
  {
    hide Laid, Looked;
  }

  lemma InTableSame(d: Drive, e: Drive, lba: nat)
    requires SameDisk(d, e)
    ensures InTable(d, lba) == InTable(e, lba)
  {
  }

  // ---- what a run guarantees ----------------------------------------------

  /** A read-ahead that lands brings the next sector of its disk. */
  lemma LandsNext(buffer: seq<Byte>, es: seq<Event>, drv: bool, lba: nat, left: nat)
    requires Proper(es) && |buffer| == BUFFER && left >= AMPLE
    ensures var w := Ran(buffer, es, left); var now := Step(w, Event(drv, ReadSector(lba)), left);
      || (now.last == w.last && now.f.buffer == w.f.buffer)
      || (now.last.By? && now.last.drv == drv && now.f.Of(drv).tag == lba + 1
          && (InTable(w.f.Of(drv), lba + 1) ==> Sector(Plain(es).Of(drv), lba + 1) == Some(now.last.sector)))
  {
    hide Trusted, Sector, InTable, Plain, Read, Ran;
    var w := Ran(buffer, es, left);
    var d, now := w.f.Of(drv), Step(w, Event(drv, ReadSector(lba)), left);
    assert Held(w, drv) && SameDisk(d, Plain(es).Of(drv));
    ReadKeeps(w.f, drv, lba, left);
    SameSector(now.f.Of(drv), Plain(es).Of(drv), lba + 1);
    InTableSame(now.f.Of(drv), d, lba + 1);
  }

  /** In every run over both drives the disks change as if there were no cache and no
      read-ahead, and a read is right if and only if it misses its drive's tag, or no
      read-ahead of the other drive has landed since that tag was set, or what landed
      happens to be the sector. */
  lemma BothDrives(buffer: seq<Byte>, es: seq<Event>, drv: bool, lba: nat, left: nat)
    requires Proper(es) && |buffer| == BUFFER && left >= AMPLE && InTable(Plain(es).Of(drv), lba)
    ensures var w, p := Ran(buffer, es, left), Plain(es); var d, want := w.f.Of(drv), Sector(p.Of(drv), lba);
      && SameDisk(w.f.a, p.a) && SameDisk(w.f.b, p.b)
      && (d.tag == lba ==> w.last.By?)
      && (Read(w.f, drv, lba, left).1 == want <==>
            d.tag != lba || w.last.drv == drv || want == Some(w.f.buffer[..d.bytes]))
      && (w.last.By? && d.bytes <= |w.last.sector| ==> w.f.buffer[..d.bytes] == w.last.sector[..d.bytes])
  {
    hide Trusted, Sector, InTable, Plain, Read;
    var w, p := Ran(buffer, es, left), Plain(es);
    var d := w.f.Of(drv);
    assert SameDisk(w.f.Of(false), p.Of(false)) && SameDisk(w.f.Of(true), p.Of(true)) && Held(w, drv);
    SameSector(d, p.Of(drv), lba);
    InTableSame(d, p.Of(drv), lba);
    ReadStreams(w.f, drv, lba, left);
    if w.last.By? && d.bytes <= |w.last.sector| {
      assert w.f.buffer[..d.bytes] == w.f.buffer[..|w.last.sector|][..d.bytes];
    }
  }

  /** Only this drive is read. */
  predicate ReadsOnly(es: seq<Event>, drv: bool) {
    forall i | 0 <= i < |es| :: es[i].q.ReadSector? ==> es[i].drv == drv
  }

  lemma {:induction false} OwnLandings(buffer: seq<Byte>, es: seq<Event>, drv: bool, left: nat)
    requires Proper(es) && |buffer| == BUFFER && left >= AMPLE && ReadsOnly(es, drv)
    ensures var w := Ran(buffer, es, left); w.last.By? ==> w.last.drv == drv
    decreases |es|
  {
    hide Read, Write, Meets, Plain, Matches;
    if es != [] {
      ProperPrefix(es, |es| - 1);
      OwnLandings(buffer, es[..|es| - 1], drv, left);
    }
  }

  /** In every run that reads one drive only, whatever it mounts, ejects and writes on
      either, the cache and the read-ahead cannot be told from the plain image. */
  lemma CachesAreInvisible(buffer: seq<Byte>, es: seq<Event>, drv: bool, lba: nat, left: nat)
    requires Proper(es) && |buffer| == BUFFER && left >= AMPLE && InTable(Plain(es).Of(drv), lba) && ReadsOnly(es, drv)
    ensures Read(Ran(buffer, es, left).f, drv, lba, left).1 == Sector(Plain(es).Of(drv), lba)
  {
    hide Sector, InTable, Plain, Read, Ran;
    OwnLandings(buffer, es, drv, left);
    BothDrives(buffer, es, drv, lba, left);
  }

  /** Once the other drive has read ahead, a drive's next sequential read streams what
      the other read ahead. */
  lemma OtherDriveSpoils(f: Floppy, other: nat, left: nat)
    requires f.Shape() && Trusted(f.a) && Trusted(f.b) && f.a.tag >= 0 && left >= AMPLE && f.b.tag != other
    requires InTable(f.a, f.a.tag) && InTable(f.b, other) && InTable(f.b, other + 1)
    requires (other + 1) * f.b.bytes < f.b.sectors * 512
    requires Sector(f.b, other + 1) != None && OffsetOf(f.b, other + 1) != 0
    requires f.a.bytes == f.b.bytes
    ensures var g := Read(f, true, other, left).0;
      && g.a == f.a && Read(g, false, f.a.tag, left).1 == Sector(f.b, other + 1)
      && (Read(g, false, f.a.tag, left).1 == Sector(f.a, f.a.tag) <==> Sector(f.b, other + 1) == Sector(f.a, f.a.tag))
  {
    hide Resolve, Fresh, Laid, Looked;
    PlaceIsFresh(f.b, other, left);
    PlaceIsFresh(Place(f.b, other, left).1.(tag := -1), other + 1, Streamed(f.b, f.buffer, other, left).1);
  }

  /** An untagged disk of two sectors filled with one byte. */
  function Filled(x: Byte): Disk {
    Disk(seq(1024, _ => x), false, 0, 0, 512, 2)
  }

  /** One more request at the end of a run. */
  lemma OneMore(buffer: seq<Byte>, es: seq<Event>, e: Event, left: nat)
    requires Proper(es) && Meets(Plain(es).Of(e.drv), e.q) && |buffer| == BUFFER && left >= AMPLE
    ensures Proper(es + [e]) && Plain(es + [e]) == After(Plain(es), e)
    ensures Matches(Ran(buffer, es, left), Plain(es))
    ensures e.q.WriteSector? ==> |e.q.data| == Ran(buffer, es, left).f.Of(e.drv).bytes
    ensures Ran(buffer, es + [e], left) == Step(Ran(buffer, es, left), e, left)
  {
    hide Meets, Matches, Step, After;
    var more := es + [e];
    assert more[..|es|] == es;
    forall i | 0 <= i < |more| ensures Meets(Plain(more[..i]).Of(more[i].drv), more[i].q) {
      if i < |es| { assert more[..i] == es[..i]; }
    }
    MeetsStep(Ran(buffer, es, left), Plain(es), e);
  }

  lemma ReadOfFilled(f: Floppy, drv: bool, x: Byte)
    requires f.Shape() && SameDisk(f.Of(drv), Inserted(EMPTY, Filled(x))) && f.Of(drv).tag < 0
    ensures var d := f.Of(drv);
      Read(f, drv, 0, AMPLE).0 == f.With(drv, d.(tag := 1)).(buffer := seq(512, _ => x) + f.buffer[512..])
  {
    assert Filled(x).img[512..1024] == seq(512, _ => x);
  }

  /** A disk of ones and a disk of twos, and one read of the second in the middle of a
      sequential read of the first. */
  const SPOILT := [Event(false, Insert(Filled(1))), Event(true, Insert(Filled(2))),
                   Event(false, ReadSector(0)), Event(true, ReadSector(0))]

  /** The first disk's next sector comes out as twos. */
  lemma WrongDiskStreams(buffer: seq<Byte>)
    requires |buffer| == BUFFER
    ensures Proper(SPOILT) && InTable(Plain(SPOILT).a, 1)
    ensures Read(Ran(buffer, SPOILT, AMPLE).f, false, 1, AMPLE).1 == Some(seq(512, _ => 2))
    ensures Sector(Plain(SPOILT).a, 1) == Some(seq(512, _ => 1))
  {
    hide Matches, Read, Sector, Plain, Ran, Filled;
    var a, b := Inserted(EMPTY, Filled(1)), Inserted(EMPTY, Filled(2));
    var e := SPOILT;
    FilledIs(1);
    FilledIs(2);
    EmptyRun(buffer);
    OneMore(buffer, [], e[0], AMPLE);
    assert [] + [e[0]] == [e[0]];
    OneMore(buffer, [e[0]], e[1], AMPLE);
    var two := [e[0], e[1]];
    assert [e[0]] + [e[1]] == two;
    assert Plain(two) == Disks(a, b) && Ran(buffer, two, AMPLE).f == Floppy(a, b, buffer);
    ReadOfFilled(Floppy(a, b, buffer), false, 1);
    OneMore(buffer, two, e[2], AMPLE);
    var three := [e[0], e[1], e[2]];
    assert two + [e[2]] == three;
    var first := seq(512, _ => 1) + buffer[512..];
    assert Plain(three) == Disks(a, b) && Ran(buffer, three, AMPLE).f == Floppy(a.(tag := 1), b, first);
    ReadOfFilled(Floppy(a.(tag := 1), b, first), true, 2);
    OneMore(buffer, three, e[3], AMPLE);
    assert three + [e[3]] == e;
    ReadTagged(Ran(buffer, e, AMPLE).f, 1);
  }

  lemma EmptyRun(buffer: seq<Byte>)
    requires |buffer| == BUFFER
    ensures Proper([]) && Plain([]) == Disks(EMPTY, EMPTY)
    ensures Ran(buffer, [], AMPLE) == Watch(Floppy(EMPTY, EMPTY, buffer), Nothing)
  {
  }

  lemma FilledIs(x: Byte)
    ensures Filled(x).Sound() && !Filled(x).d88 && Filled(x).bytes == 512
    ensures Sector(Inserted(EMPTY, Filled(x)), 1) == Some(seq(512, _ => x))
  {
    assert Filled(x).img[512..1024] == seq(512, _ => x);
  }

  lemma ReadTagged(f: Floppy, lba: nat)
    requires f.Shape() && f.a.tag == lba && !f.a.d88
    ensures Read(f, false, lba, AMPLE).1 == Some(f.buffer[..f.a.bytes])
  {
  }

  /** The well formed tagged image of two records, in drive A: mounted, the second
      record written, and both read. */
  lemma TaggedRoundTrip(buffer: seq<Byte>, data: seq<Byte>)
    requires |buffer| == BUFFER && |data| == 512
    ensures var es := [Event(false, Insert(Disk(Small(), true, 2, 0, 512, 3))), Event(false, WriteSector(1, data))];
      && Proper(es) && InTable(Plain(es).a, 1)
      && Read(Ran(buffer, es, AMPLE).f, false, 1, AMPLE).1 == Some(data)
      && Sector(Plain(es).a, 0) == Some(Small()[IMAGE_HEADER + SECTOR_HEADER..IMAGE_HEADER + SECTOR_HEADER + 512])
  {
    hide Matches, Read, Plain, Ran, Fresh, WellFormed, Laid, Rewritten, Stored;
    SmallIsWellFormed();
    var k := Disk(Small(), true, 2, 0, 512, 3);
    var d := Inserted(EMPTY, k);
    var mount, write := Event(false, Insert(k)), Event(false, WriteSector(1, data));
    EmptyRun(buffer);
    OneMore(buffer, [], mount, AMPLE);
    assert [] + [mount] == [mount];
    assert Plain([mount]).a == d;
    OneMore(buffer, [mount], write, AMPLE);
    assert [mount] + [write] == [mount, write];
    WellFormedIsLaid(k.img, 2, 512);
    WrittenIsRead(d, 1, data, 0);
    CachesAreInvisible(buffer, [mount, write], false, 1, AMPLE);
  }

  // ---- what is read back --------------------------------------------------

  /** A write is read back, and no sector apart from it changes. */
  lemma WrittenIsRead(d: Drive, lba: nat, data: seq<Byte>, other: nat)
    requires |data| == d.bytes && Sector(d, lba) != None && InTable(d, lba) && InTable(d, other)
    requires d.d88 ==> 0 < d.spt <= CACHE_SPT && Laid(d.img, d.spt, d.bytes)
    ensures var e := d.(img := Rewritten(d, lba, data));
      && Sector(e, lba) == Some(data) && OffsetOf(e, other) == OffsetOf(d, other)
      && (d.d88 ==> Laid(e.img, e.spt, e.bytes))
      && (Apart(d, lba, other) ==> Sector(e, other) == Sector(d, other))
  {
    hide Looked, Fresh, Laid, Stored;
    if d.d88 { StoringMovesNothing(d.img, d.spt, d.bytes, lba, data); }
    StoredSlices(d.img, OffsetOf(d, lba), data, OffsetOf(d, other));
  }

  lemma StoredSlices(img: seq<Byte>, off: nat, data: seq<Byte>, at: nat)
    requires off + |data| <= |img|
    ensures Stored(img, off, data)[off..off + |data|] == data
    ensures at + |data| <= |img| && (off + |data| <= at || at + |data| <= off) ==>
      Stored(img, off, data)[at..at + |data|] == img[at..at + |data|]
  {
  }

  /** Writes, in order. */
  function Written(d: Drive, ws: seq<(nat, seq<Byte>)>): (e: Drive)
    requires forall i | 0 <= i < |ws| :: |ws[i].1| == d.bytes
    ensures e == d.(img := e.img) && |e.img| == |d.img|
  {
    if ws == [] then d
    else var e := Written(d, ws[..|ws| - 1]); e.(img := Rewritten(e, ws[|ws| - 1].0, ws[|ws| - 1].1))
  }

  /** The last of the writes to a sector. */
  function LastWrite(ws: seq<(nat, seq<Byte>)>, lba: nat, first: seq<Byte>): seq<Byte> {
    if ws == [] then first
    else if ws[|ws| - 1].0 == lba then ws[|ws| - 1].1
    else LastWrite(ws[..|ws| - 1], lba, first)
  }

  /** On a sound disk, tagged or not, every sector holds the last write to it. */
  lemma {:induction false} LastWriteIsRead(k: Disk, ws: seq<(nat, seq<Byte>)>, lba: nat)
    requires k.Sound() && InTable(Inserted(EMPTY, k), lba) && Sector(Inserted(EMPTY, k), lba) != None
    requires forall i | 0 <= i < |ws| :: |ws[i].1| == k.bytes && InTable(Inserted(EMPTY, k), ws[i].0)
    ensures var d := Inserted(EMPTY, k); var e := Written(d, ws);
      && (forall other: nat | InTable(d, other) :: OffsetOf(e, other) == OffsetOf(d, other))
      && (k.d88 ==> Laid(e.img, e.spt, e.bytes))
      && Sector(e, lba) == Some(LastWrite(ws, lba, Sector(d, lba).value))
    decreases |ws|
  {
    hide Looked, Fresh, Laid, WellFormed, Rewritten;
    var d := Inserted(EMPTY, k);
    if ws == [] {
      if k.d88 { WellFormedIsLaid(k.img, k.spt, k.bytes); }
    } else {
      var n := |ws| - 1;
      var e, at, data := Written(d, ws[..n]), ws[n].0, ws[n].1;
      LastWriteIsRead(k, ws[..n], lba);
      if Sector(e, at) != None {
        forall other: nat | InTable(d, other) ensures OffsetOf(Written(d, ws), other) == OffsetOf(d, other) {
          WrittenIsRead(e, at, data, other);
        }
        WrittenIsRead(e, at, data, lba);
        if at != lba {
          if k.d88 { TaggedSectorsApart(d, at, lba); } else { RawSectorsApart(d, at, lba); }
        }
      } else {
        assert Rewritten(e, at, data) == e.img by { NothingWritten(e, at, data); }
      }
    }
  }

  lemma NothingWritten(d: Drive, lba: nat, data: seq<Byte>)
    requires |data| == d.bytes && Sector(d, lba) == None
    ensures Rewritten(d, lba, data) == d.img
  {
  }
}
