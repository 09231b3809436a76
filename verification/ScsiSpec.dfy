/** A SCSI direct-access target over an image file: what the file is taken for, and
    what its commands mean to the sectors in it. */
module ScsiSpec {
  import opened DiskImage

  const SECTOR := 512
  const BUFFER_BYTES := 8192
  const MAX_BLOCKS := 16
  const GOOD := 0
  const CHECK := 2

  // ---- what a file is taken for -------------------------------------------

  /** Where LBA 0 is, how many sectors there are (0 for no disk), and the shape
      reported. */
  datatype Geometry = Geometry(base: nat, sectors: nat, cyls: nat, heads: nat, spt: nat)

  function Long(hdr: seq<Byte>, at: nat): nat
    requires at + 4 <= |hdr|
  {
    LongAt(hdr, at)
  }

  function Short(hdr: seq<Byte>, at: nat): nat
    requires at + 2 <= |hdr|
  {
    var low: int, high: int := hdr[at], hdr[at + 1];
    low + high * 0x100
  }

  predicate Signed(hdr: seq<Byte>, sig: string)
    requires |sig| <= |hdr|
  {
    forall i | 0 <= i < |sig| :: hdr[i] == sig[i] as int % 256
  }

  /** A header's claim: data offset, sector size (0 for none), shape, and a total if
      it states one. */
  datatype Claim = Claim(hsize: nat, ssize: nat, s: nat, hd: nat, c: nat, total: nat)

  /** An HDI has no signature: its arithmetic must fit inside the file. */
  predicate PlausibleHdi(k: Claim, bytes: nat) {
    && 0x20 <= k.hsize <= 0x10_0000 && 0 < k.s <= 255 && 0 < k.hd <= 255 && 0 < k.c <= 0xFFFF
    && (k.ssize == 256 || k.ssize == 512 || k.ssize == 1024)
    && k.s * k.hd * k.c * k.ssize + k.hsize <= bytes
  }

  function ClaimOf(hdr: seq<Byte>, bytes: nat): Claim
    requires |hdr| == SECTOR
  {
    if Signed(hdr, "T98HDDIMAGE.R0") then
      Claim(Long(hdr, 0x110), Short(hdr, 0x11C), Short(hdr, 0x11A), Short(hdr, 0x118), Long(hdr, 0x114), 0)
    else if Signed(hdr, "VHD1.") then
      Claim(220, Short(hdr, 0x8E), hdr[0x90], hdr[0x91], Short(hdr, 0x92), Long(hdr, 0x94))
    else
      var k := Claim(Long(hdr, 8), Long(hdr, 0x10), Long(hdr, 0x14), Long(hdr, 0x18), Long(hdr, 0x1C), 0);
      if Long(hdr, 0) == 0 && PlausibleHdi(k, bytes) then k else Claim(0, 0, 0, 0, 0, 0)
  }

  /** The sectors a claim's shape holds. */
  function ShapeOf(k: Claim): nat {
    var track: nat := k.c * k.hd;
    track * k.s
  }

  /** A claim this board can serve. */
  predicate Servable(k: Claim, bytes: nat) {
    && k.ssize == SECTOR && k.hsize % 4 == 0 && k.hsize < bytes
    && 0 < k.s <= 255 && 0 < k.hd <= 255 && 0 < k.c <= 0xFFFF
  }

  /** The classification of a file by its first sector and its size. */
  function Classified(hdr: seq<Byte>, bytes: nat, was: Geometry): Geometry
    requires |hdr| == SECTOR
  {
    var k := ClaimOf(hdr, bytes);
    if k.ssize == 0 then
      var cyls := bytes / SECTOR / 200;
      Geometry(0, bytes / SECTOR, if cyls > 0xFFFF then 0xFFFF else cyls, 8, 25)
    else if !Servable(k, bytes) then Geometry(0, 0, was.cyls, 8, 25)
    else
      var fits, total := (bytes - k.hsize) / SECTOR, if k.total == 0 then ShapeOf(k) else k.total;
      Geometry(k.hsize, if total < fits then total else fits, k.c, k.hd, k.s)
  }

  /** The first sector of a file as a transfer brings it: past the end of a file shorter
      than that, whatever was in its way. */
  function HeaderOf(img: seq<Byte>, stray: seq<Byte>): (hdr: seq<Byte>)
    requires |stray| == SECTOR
    ensures |hdr| == SECTOR && (|img| >= SECTOR ==> hdr == img[..SECTOR])
  {
    if |img| >= SECTOR then img[..SECTOR] else img + stray[|img|..]
  }

  /** The sectors served lie inside the file. */
  predicate Inside(g: Geometry, bytes: nat) {
    g.sectors == 0 || g.base + SECTOR * g.sectors <= bytes
  }

  /** Whatever a file holds and however long it is, no sector served lies outside it;
      a header of any other sector size serves nothing; a file without a header is
      served whole from its first byte. */
  lemma ClassifiedIsInside(hdr: seq<Byte>, bytes: nat, was: Geometry)
    requires |hdr| == SECTOR
    ensures var g, k := Classified(hdr, bytes, was), ClaimOf(hdr, bytes);
      && Inside(g, bytes)
      && (k.ssize != 0 && k.ssize != SECTOR ==> g.sectors == 0)
      && (k.ssize == 0 ==> g.base == 0 && g.sectors * SECTOR <= bytes < (g.sectors + 1) * SECTOR)
      && (g.sectors > 0 && k.ssize != 0 && k.total == 0 ==> g.sectors <= g.cyls * g.heads * g.spt)
  {
    hide ClaimOf;
    var k := ClaimOf(hdr, bytes);
    assert ShapeOf(k) == k.c * k.hd * k.s;
  }

  /** Classifying the same file again changes nothing: a command's second look at a
      disk already classified cannot move its sectors. */
  lemma ClassifiedAgain(hdr: seq<Byte>, bytes: nat, was: Geometry)
    requires |hdr| == SECTOR
    ensures Classified(hdr, bytes, Classified(hdr, bytes, was)) == Classified(hdr, bytes, was)
  {
    hide ClaimOf, Servable;
  }

  // ---- commands -----------------------------------------------------------

  /** The target between commands: the file, its classification, the pending sense,
      the last status, and the data buffer shared with the guest. */
  datatype Target = Target(img: seq<Byte>, geo: Geometry, key: nat, asc: nat, status: nat, buffer: seq<Byte>) {
    predicate Valid() {
      |buffer| == BUFFER_BYTES && Inside(geo, |img|)
    }

    /** CHECK CONDITION exactly while a sense key is pending. */
    predicate Answered() {
      (status == GOOD || status == CHECK) && (status == CHECK <==> key != 0)
    }
  }

  function Failed(t: Target, key: nat, asc: nat): Target { t.(key := key, asc := asc, status := CHECK) }

  function Done(t: Target): Target { t.(key := 0, asc := 0, status := GOOD) }

  /** Bytes put from the start of the buffer. */
  function Filled(buffer: seq<Byte>, data: seq<Byte>): (r: seq<Byte>)
    requires |data| <= |buffer|
    ensures |r| == |buffer|
  {
    data + buffer[|data|..]
  }

  function Capped(blocks: nat): nat {
    if blocks > MAX_BLOCKS then MAX_BLOCKS else blocks
  }

  predicate InDisk(g: Geometry, lba: nat, blocks: nat) {
    lba < g.sectors && lba + Capped(blocks) <= g.sectors
  }

  /** The bytes of `n` sectors from `lba`. */
  function SectorsAt(t: Target, lba: nat, n: nat): seq<Byte>
    requires t.geo.base + SECTOR * (lba + n) <= |t.img|
  {
    t.img[t.geo.base + SECTOR * lba..t.geo.base + SECTOR * (lba + n)]
  }

  /** How many of `n` sectors pass before the link stops. */
  function Passed(n: nat, left: nat): nat { if left < n then left else n }

  function ReadBlocks(t: Target, lba: nat, blocks: nat, left: nat): Target
    requires |t.buffer| == BUFFER_BYTES && Inside(t.geo, |t.img|)
  {
    if t.geo.sectors == 0 then Failed(t, 2, 0x3A)
    else if blocks == 0 then Done(t)
    else if !InDisk(t.geo, lba, blocks) then Failed(t, 5, 0x21)
    else
      var n, moved := Capped(blocks), Passed(Capped(blocks), left);
      var now := t.(buffer := Filled(t.buffer, SectorsAt(t, lba, moved)));
      if moved < n then Failed(now, 2, 0x11) else Done(now)
  }

  function WriteBlocks(t: Target, lba: nat, blocks: nat, left: nat): Target
    requires |t.buffer| == BUFFER_BYTES && Inside(t.geo, |t.img|)
  {
    if t.geo.sectors == 0 then Failed(t, 2, 0x3A)
    else if blocks == 0 then Done(t)
    else if !InDisk(t.geo, lba, blocks) then Failed(t, 5, 0x21)
    else
      var n, moved := Capped(blocks), Passed(Capped(blocks), left);
      var now := t.(img := Stored(t.img, t.geo.base + SECTOR * lba, t.buffer[..SECTOR * moved]));
      if moved < n then Failed(now, 2, 0x0C) else Done(now)
  }

  // ---- answers ------------------------------------------------------------

  function Bytes(s: seq<int>): (r: seq<Byte>)
    ensures |r| == |s|
  {
    seq(|s|, i requires 0 <= i < |s| => s[i] % 256)
  }

  function Zeros(n: nat): (z: seq<int>)
    ensures |z| == n
  {
    seq(n, _ => 0)
  }

  function Letters(text: string): (r: seq<int>)
    ensures |r| == |text|
  {
    seq(|text|, i requires 0 <= i < |text| => text[i] as int)
  }

  function InquiryData(): (d: seq<Byte>)
    ensures |d| == 36
  {
    Bytes([0, 0, 1, 1, 31, 0, 0, 0] + Letters("NEC     ") + Letters("PC-98 HDD       ") + Letters("1.00"))
  }

  /** The last sector's number and the sector size, high byte first. */
  function CapacityData(sectors: nat): (d: seq<Byte>)
    requires sectors > 0
    ensures |d| == 8
  {
    var last := sectors - 1;
    Bytes([last / 0x100_0000, last / 0x1_0000, last / 0x100, last, 0, 0, 2, 0])
  }

  function SenseData(key: nat, asc: nat): (d: seq<Byte>)
    ensures |d| == 18
  {
    Bytes([0x70, 0, key, 0, 0, 0, 0, 10, 0, 0, 0, 0, asc] + Zeros(5))
  }

  /** Cut to the allocation length, which 0 or too much leaves alone. */
  function Allotted(d: seq<Byte>, alloc: nat): (r: seq<Byte>)
    ensures |r| <= |d|
  {
    if alloc == 0 || alloc > |d| then d else d[..alloc]
  }

  function Descriptor(sectors: nat): (d: seq<int>)
    ensures |d| == 8
  {
    var blocks := if sectors > 0xFF_FFFF then 0xFF_FFFF else sectors;
    [0, blocks / 0x1_0000, blocks / 0x100, blocks, 0, 0, 2, 0]
  }

  function FormatPage(spt: nat): (d: seq<int>)
    ensures |d| == 24
  {
    [0x03, 0x16] + Zeros(8) + [spt / 0x100, spt, 2, 0, 0, 1] + Zeros(4) + [0x40] + Zeros(3)
  }

  function GeometryPage(g: Geometry): (d: seq<int>)
    ensures |d| == 24
  {
    [0x04, 0x16, g.cyls / 0x1_0000, g.cyls / 0x100, g.cyls, g.heads] + Zeros(18)
  }

  /** The whole MODE SENSE answer, before truncation. */
  function ModeData(g: Geometry, page: nat, bare: bool): (d: seq<Byte>)
    ensures 4 <= |d| <= 60
  {
    var body := (if bare then [] else Descriptor(g.sectors))
              + (if page == 3 || page == 0x3F then FormatPage(g.spt) else [])
              + (if page == 4 || page == 0x3F then GeometryPage(g) else []);
    Bytes([3 + |body|, 0, 0, if bare then 0 else 8] + body)
  }

  function Answer(t: Target, d: seq<Byte>): Target
    requires |d| <= |t.buffer|
  {
    Done(t.(buffer := Filled(t.buffer, d)))
  }

  // ---- the command loop ---------------------------------------------------

  /** The address and length in a six-byte and in a ten-byte command. */
  function Lba6(cdb: seq<Byte>): nat
    requires |cdb| == 12
  {
    var b1: int, b2: int, b3: int := cdb[1], cdb[2], cdb[3];
    b1 % 0x20 * 0x1_0000 + b2 * 0x100 + b3
  }

  function Blocks6(cdb: seq<Byte>): nat
    requires |cdb| == 12
  {
    if cdb[4] == 0 then 256 else cdb[4]
  }

  function Lba10(cdb: seq<Byte>): nat
    requires |cdb| == 12
  {
    var b2: int, b3: int, b4: int, b5: int := cdb[2], cdb[3], cdb[4], cdb[5];
    b2 * 0x100_0000 + b3 * 0x1_0000 + b4 * 0x100 + b5
  }

  function Blocks10(cdb: seq<Byte>): nat
    requires |cdb| == 12
  {
    var b7: int, b8: int := cdb[7], cdb[8];
    b7 * 0x100 + b8
  }

  datatype Command =
    | Ready
    | Ignored
    | Sense(alloc: nat)
    | Inquiry(alloc: nat)
    | Mode(page: nat, bare: bool, alloc: nat)
    | Capacity
    | ReadCmd(lba: nat, blocks: nat)
    | WriteCmd(lba: nat, blocks: nat)
    | Unknown

  function Decode(cdb: seq<Byte>): Command
    requires |cdb| == 12
  {
    match cdb[0]
    case 0x00 => Ready
    case 0x01 | 0x0B | 0x2B | 0x1B | 0x15 | 0x04 => Ignored
    case 0x03 => Sense(cdb[4])
    case 0x12 => Inquiry(cdb[4])
    case 0x1A => Mode(cdb[2] % 0x40, cdb[1] / 8 % 2 == 1, cdb[4])
    case 0x25 => Capacity
    case 0x08 => ReadCmd(Lba6(cdb), Blocks6(cdb))
    case 0x0A => WriteCmd(Lba6(cdb), Blocks6(cdb))
    case 0x28 => ReadCmd(Lba10(cdb), Blocks10(cdb))
    case 0x2A => WriteCmd(Lba10(cdb), Blocks10(cdb))
    case _ => Unknown
  }

  predicate KnownPage(page: nat) { page == 0 || page == 3 || page == 4 || page == 0x3F }

  function Executed(t: Target, cmd: Command, left: nat): Target
    requires |t.buffer| == BUFFER_BYTES && Inside(t.geo, |t.img|)
  {
    match cmd
    case Ready => if t.geo.sectors == 0 then Failed(t, 2, 0x3A) else Done(t)
    case Ignored => Done(t)
    case Sense(alloc) => Answer(t, Allotted(SenseData(t.key, t.asc), alloc))
    case Inquiry(alloc) => Answer(t, Allotted(InquiryData(), alloc))
    case Mode(page, bare, alloc) =>
      if !KnownPage(page) then Failed(t, 5, 0x24)
      else var d := ModeData(t.geo, page, bare); Answer(t, if alloc < |d| then d[..alloc] else d)
    case Capacity => if t.geo.sectors == 0 then Failed(t, 2, 0x3A) else Answer(t, CapacityData(t.geo.sectors))
    case ReadCmd(lba, blocks) => ReadBlocks(t, lba, blocks, left)
    case WriteCmd(lba, blocks) => WriteBlocks(t, lba, blocks, left)
    case Unknown => Failed(t, 5, 0x20)
  }

  /** Every command leaves a status that says whether a sense key is pending, keeps
      everything outside the disk's sectors, and keeps the whole file unless it is a
      write that succeeds or that the link cuts short. */
  lemma ExecutedIsValid(t: Target, cmd: Command, left: nat)
    requires t.Valid()
    ensures var u := Executed(t, cmd, left);
      && u.Valid() && u.Answered() && u.geo == t.geo && |u.img| == |t.img|
      && (forall j | 0 <= j < |t.img| && (j < t.geo.base || t.geo.base + SECTOR * t.geo.sectors <= j) ::
           u.img[j] == t.img[j])
      && (!cmd.WriteCmd? || (u.status == CHECK && left >= MAX_BLOCKS) ==> u.img == t.img)
  {
    hide ModeData, SenseData, InquiryData, CapacityData;
  }

  // ---- runs -----------------------------------------------------------------

  /** The guest fills the buffer, or issues a command. */
  datatype Event = Fill(data: seq<Byte>) | Issue(cmd: Command)

  predicate Proper(ev: Event) { ev.Fill? ==> |ev.data| == BUFFER_BYTES }

  function After(t: Target, ev: Event): Target
    requires |t.buffer| == BUFFER_BYTES && Inside(t.geo, |t.img|) && Proper(ev)
  {
    match ev
    case Fill(data) => t.(buffer := data)
    case Issue(cmd) => Executed(t, cmd, MAX_BLOCKS)
  }

  ghost function Played(t: Target, evs: seq<Event>): (r: Target)
    requires t.Valid() && forall i | 0 <= i < |evs| :: Proper(evs[i])
    ensures r.Valid() && r.geo == t.geo && |r.img| == |t.img|
  {
    if evs == [] then t
    else
      var n := |evs| - 1;
      var u := Played(t, evs[..n]);
      assert Proper(evs[n]);
      if evs[n].Issue? then ExecutedIsValid(u, evs[n].cmd, MAX_BLOCKS); After(u, evs[n]) else After(u, evs[n])
  }

  function SectorOf(t: Target, lba: nat): seq<Byte>
    requires lba < t.geo.sectors && Inside(t.geo, |t.img|)
  {
    SectorsAt(t, lba, 1)
  }

  /** Whether a command of the guest writes a sector. */
  predicate Covers(g: Geometry, ev: Event, lba: nat) {
    && ev.Issue? && ev.cmd.WriteCmd? && InDisk(g, ev.cmd.lba, ev.cmd.blocks)
    && ev.cmd.lba <= lba < ev.cmd.lba + Capped(ev.cmd.blocks)
  }

  /** What was last written to a sector in a run, or what it held at the start. */
  ghost function LastWritten(t: Target, evs: seq<Event>, lba: nat): seq<Byte>
    requires t.Valid() && lba < t.geo.sectors && forall i | 0 <= i < |evs| :: Proper(evs[i])
  {
    if evs == [] then SectorOf(t, lba)
    else
      var n := |evs| - 1;
      if Covers(t.geo, evs[n], lba)
      then Played(t, evs[..n]).buffer[SECTOR * (lba - evs[n].cmd.lba)..SECTOR * (lba - evs[n].cmd.lba) + SECTOR]
      else LastWritten(t, evs[..n], lba)
  }

  /** One event writes the sectors it covers and no other. */
  lemma EventWrites(t: Target, ev: Event, lba: nat)
    requires t.Valid() && Proper(ev) && lba < t.geo.sectors
    ensures var u := After(t, ev);
      && u.geo == t.geo && |u.img| == |t.img|
      && SectorOf(u, lba)
      == if Covers(t.geo, ev, lba) then t.buffer[SECTOR * (lba - ev.cmd.lba)..SECTOR * (lba - ev.cmd.lba) + SECTOR]
         else SectorOf(t, lba)
  {
    hide Executed, Stored, SectorOf;
    if ev.Issue? {
      ExecutedIsValid(t, ev.cmd, MAX_BLOCKS);
      if ev.cmd.WriteCmd? {
        WriteStores(t, ev.cmd.lba, ev.cmd.blocks);
        if InDisk(t.geo, ev.cmd.lba, ev.cmd.blocks) {
          SectorsStored(t, After(t, ev), ev.cmd.lba, Capped(ev.cmd.blocks), lba);
        } else {
          SameSectors(t, After(t, ev), lba);
        }
      } else {
        SameSectors(t, After(t, ev), lba);
      }
    } else {
      SameSectors(t, After(t, ev), lba);
    }
  }

  lemma SameSectors(t: Target, u: Target, lba: nat)
    requires lba < t.geo.sectors && t.Valid() && u.geo == t.geo && u.img == t.img
    ensures SectorOf(u, lba) == SectorOf(t, lba)
  {
  }

  lemma WriteStores(t: Target, lba: nat, blocks: nat)
    requires t.Valid()
    ensures var u := Executed(t, WriteCmd(lba, blocks), MAX_BLOCKS);
      if InDisk(t.geo, lba, blocks) then
        && t.geo.base + SECTOR * (lba + Capped(blocks)) <= |t.img|
        && u.img == Stored(t.img, t.geo.base + SECTOR * lba, t.buffer[..SECTOR * Capped(blocks)])
      else u.img == t.img
  {
    hide Stored;
    if lba < t.geo.sectors { StoredNothing(t.img, t.geo.base + SECTOR * lba); }
  }

  lemma StoredNothing(img: seq<Byte>, at: nat)
    requires at <= |img|
    ensures forall d: seq<Byte> :: d == [] ==> Stored(img, at, d) == img
  {
  }

  /** What storing sectors does to each of them. */
  lemma SectorsStored(t: Target, u: Target, at: nat, n: nat, lba: nat)
    requires t.Valid() && u.geo == t.geo && lba < t.geo.sectors && at + n <= t.geo.sectors && n <= MAX_BLOCKS
    requires t.geo.base + SECTOR * (at + n) <= |t.img|
    requires u.img == Stored(t.img, t.geo.base + SECTOR * at, t.buffer[..SECTOR * n])
    ensures SectorOf(u, lba)
         == if at <= lba < at + n then t.buffer[SECTOR * (lba - at)..SECTOR * (lba - at) + SECTOR] else SectorOf(t, lba)
  {
  }

  /** After any run of commands every sector holds what was last written to it. */
  lemma {:induction false} SectorsHoldLastWrite(t: Target, evs: seq<Event>, lba: nat)
    requires t.Valid() && lba < t.geo.sectors && forall i | 0 <= i < |evs| :: Proper(evs[i])
    ensures SectorOf(Played(t, evs), lba) == LastWritten(t, evs, lba)
    decreases |evs|
  {
    hide Executed, SectorOf, Covers;
    if evs != [] {
      var n := |evs| - 1;
      SectorsHoldLastWrite(t, evs[..n], lba);
      assert Proper(evs[n]);
      EventWrites(Played(t, evs[..n]), evs[n], lba);
    }
  }

  /** And a read in range, of up to sixteen sectors, hands over exactly that. */
  lemma ReadsReturnLastWrite(t: Target, evs: seq<Event>, lba: nat, blocks: nat, i: nat)
    requires t.Valid() && forall i | 0 <= i < |evs| :: Proper(evs[i])
    requires InDisk(t.geo, lba, blocks) && i < Capped(blocks)
    ensures var u := Executed(Played(t, evs), ReadCmd(lba, blocks), MAX_BLOCKS);
      && u.status == GOOD && u.img == Played(t, evs).img
      && u.buffer[SECTOR * i..SECTOR * i + SECTOR] == LastWritten(t, evs, lba + i)
  {
    hide Played, LastWritten, SectorOf, Executed, SectorsAt;
    SectorsHoldLastWrite(t, evs, lba + i);
    var s := Played(t, evs);
    ReadFills(s, lba, blocks);
    SectorWithin(s, lba, Capped(blocks), i);
    var d := SectorsAt(s, lba, Capped(blocks));
    assert (d + s.buffer[|d|..])[SECTOR * i..SECTOR * i + SECTOR] == d[SECTOR * i..SECTOR * i + SECTOR];
  }

  lemma ReadFills(t: Target, lba: nat, blocks: nat)
    requires t.Valid() && InDisk(t.geo, lba, blocks) && blocks > 0
    ensures t.geo.base + SECTOR * (lba + Capped(blocks)) <= |t.img|
    ensures var d := SectorsAt(t, lba, Capped(blocks));
      && |d| == SECTOR * Capped(blocks)
      && Executed(t, ReadCmd(lba, blocks), MAX_BLOCKS) == Done(t.(buffer := d + t.buffer[|d|..]))
  {
  }

  lemma SectorWithin(t: Target, lba: nat, n: nat, i: nat)
    requires i < n && lba + n <= t.geo.sectors && Inside(t.geo, |t.img|)
    ensures SectorsAt(t, lba, n)[SECTOR * i..SECTOR * i + SECTOR] == SectorOf(t, lba + i)
  {
    var a := t.geo.base + SECTOR * lba;
    assert t.img[a..a + SECTOR * n][SECTOR * i..SECTOR * i + SECTOR] == t.img[a + SECTOR * i..a + SECTOR * i + SECTOR];
  }

  /** What a READ CAPACITY answer states: the number of the last sector, and the size
      of each. */
  lemma CapacityStates(sectors: nat)
    requires 0 < sectors <= 0x1_0000_0000
    ensures var d := CapacityData(sectors);
      && d[0] as int * 0x100_0000 + d[1] as int * 0x1_0000 + d[2] as int * 0x100 + d[3] == sectors - 1
      && d[4] as int * 0x100_0000 + d[5] as int * 0x1_0000 + d[6] as int * 0x100 + d[7] == SECTOR
  {
    var last := sectors - 1;
    var s := [last / 0x100_0000, last / 0x1_0000, last / 0x100, last, 0, 0, 2, 0];
    assert CapacityData(sectors) == Bytes(s);
    hide Bytes, CapacityData;
    assert [] + s + [] == s;
    PartStated([], s, [], 0);
    PartStated([], s, [], 1);
    PartStated([], s, [], 2);
    PartStated([], s, [], 3);
    PartStated([], s, [], 4);
    PartStated([], s, [], 5);
    PartStated([], s, [], 6);
    PartStated([], s, [], 7);
    FourBytes(last);
  }

  lemma FourBytes(v: nat)
    requires v < 0x1_0000_0000
    ensures v / 0x100_0000 % 256 * 0x100_0000 + v / 0x1_0000 % 256 * 0x1_0000 + v / 0x100 % 256 * 0x100 + v % 256 == v
  {
    var a, b, c := v / 0x100, v / 0x1_0000, v / 0x100_0000;
    assert b == a / 256 && c == b / 256;
    assert v == 256 * a + v % 256 && a == 256 * b + a % 256 && b == 256 * c + b % 256;
  }

  /** A part of an answer is stated where it was put. */
  lemma PartStated(pre: seq<int>, part: seq<int>, post: seq<int>, i: nat)
    requires i < |part|
    ensures Bytes(pre + part + post)[|pre| + i] == part[i] % 256
  {
  }

  predicate Plain(text: string) { forall i | 0 <= i < |text| :: text[i] as int < 256 }

  lemma TextStated(pre: seq<int>, text: string, post: seq<int>)
    requires Plain(text)
    ensures forall i | 0 <= i < |text| :: Bytes(pre + Letters(text) + post)[|pre| + i] as int == text[i] as int
  {
    forall i | 0 <= i < |text| ensures Bytes(pre + Letters(text) + post)[|pre| + i] as int == text[i] as int {
      PartStated(pre, Letters(text), post, i);
    }
  }

  /** What an INQUIRY answer states: a direct-access device, how much follows, and who
      made it. */
  lemma InquiryStates()
    ensures var d := InquiryData();
      && d[0] == 0 && d[4] as int + 5 == |d|
      && (forall i | 0 <= i < 8 :: d[8 + i] as int == "NEC     "[i] as int)
      && (forall i | 0 <= i < 16 :: d[16 + i] as int == "PC-98 HDD       "[i] as int)
      && (forall i | 0 <= i < 4 :: d[32 + i] as int == "1.00"[i] as int)
  {
    var head, a, b, c := [0, 0, 1, 1, 31, 0, 0, 0], "NEC     ", "PC-98 HDD       ", "1.00";
    var l, m, n := Letters(a), Letters(b), Letters(c);
    assert Plain(a) && Plain(b) && Plain(c);
    hide Letters, Bytes, Plain;
    var whole := head + l + m + n;
    PartStated([], head, l + m + n, 0);
    PartStated([], head, l + m + n, 4);
    assert [] + head + (l + m + n) == whole && head + l + (m + n) == whole;
    TextStated(head, a, m + n);
    assert (head + l) + m + n == whole;
    TextStated(head + l, b, n);
    assert (head + l + m) + n + [] == whole;
    TextStated(head + l + m, c, []);
  }

  /** What the REQUEST SENSE answer states: the key, how much follows, and the
      additional code. */
  lemma SenseStates(key: nat, asc: nat)
    requires key < 256 && asc < 256
    ensures var d := SenseData(key, asc);
      d[0] == 0x70 && d[2] as int == key && d[7] as int + 8 == |d| && d[12] as int == asc
  {
    var head, rest := [0x70, 0, key, 0, 0, 0, 0, 10, 0, 0, 0, 0, asc], Zeros(5);
    hide Bytes;
    assert [] + head + rest == head + rest;
    PartStated([], head, rest, 0);
    PartStated([], head, rest, 2);
    PartStated([], head, rest, 7);
    PartStated([], head, rest, 12);
  }

  /** How many bytes of an 18 byte answer an allocation length asks for. */
  function SenseLength(alloc: nat): nat { if alloc == 0 || alloc > 18 then 18 else alloc }

  /** Whatever a command ended with, a REQUEST SENSE after it tells: the key and the
      additional code stand in the buffer as far as the allocation length reaches, the
      rest of the buffer and the disk stay, and what was told is no longer pending. */
  lemma SenseTold(t: Target, cmd: Command, left: nat, alloc: nat, later: nat)
    requires t.Valid()
    ensures var u := Executed(t, cmd, left);
      var v, n := Executed(u, Sense(alloc), later), SenseLength(alloc);
      && (v.buffer[0] == 0x70 && (n > 7 ==> v.buffer[7] as int + 8 == 18))
      && (n > 2 ==> v.buffer[2] as int == u.key) && (n > 12 ==> v.buffer[12] as int == u.asc)
      && v.buffer[n..] == u.buffer[n..] && v.img == u.img && v.geo == u.geo
      && v.status == GOOD && v.key == 0 == v.asc
      && (u.status == CHECK <==> u.key != 0)
  {
    hide ModeData, SenseData, InquiryData, CapacityData, Bytes;
    ExecutedIsValid(t, cmd, left);
    var u := Executed(t, cmd, left);
    SenseStates(u.key, u.asc);
  }

  function HasFormat(page: nat): bool { page == 3 || page == 0x3F }

  function HasGeometry(page: nat): bool { page == 4 || page == 0x3F }

  /** What any MODE SENSE answer states, page by page: its own length, the sectors in
      the block descriptor unless that is left off, and of the shape what the
      classification found. */
  lemma ModeStatesGeometry(g: Geometry, page: nat, bare: bool)
    requires g.cyls <= 0xFFFF && g.heads <= 255 && g.spt <= 255 && KnownPage(page)
    ensures var d, at := ModeData(g, page, bare), if bare then 4 else 12;
      var next := if HasFormat(page) then at + 24 else at;
      && |d| == d[0] as int + 1 == (if HasGeometry(page) then next + 24 else next) && d[3] as int == at - 4
      && (!bare ==> StatesSectors(d, g.sectors)) && (HasFormat(page) ==> StatesTrack(d, at, g.spt))
      && (HasGeometry(page) ==> StatesShape(d, next, g))
  {
    hide ModeData, Bytes, Descriptor, FormatPage, GeometryPage, StatesSectors, StatesTrack, StatesShape;
    var b, f, p := if bare then [] else Descriptor(g.sectors), if HasFormat(page) then FormatPage(g.spt) else [],
                   if HasGeometry(page) then GeometryPage(g) else [];
    var head := [3 + |b + f + p|, 0, 0, if bare then 0 else 8];
    PartsOfMode(g, page, bare, head, b, f, p);
    LengthStated(head, b + f + p);
  }

  lemma LengthStated(head: seq<int>, body: seq<int>)
    requires |head| == 4
    ensures Bytes(head + body)[0] == head[0] % 256 && Bytes(head + body)[3] == head[3] % 256
  {
  }

  lemma PartsOfMode(g: Geometry, page: nat, bare: bool, head: seq<int>, b: seq<int>, f: seq<int>, p: seq<int>)
    requires g.cyls <= 0xFFFF && g.heads <= 255 && g.spt <= 255 && KnownPage(page)
    requires b == if bare then [] else Descriptor(g.sectors)
    requires f == if HasFormat(page) then FormatPage(g.spt) else []
    requires p == if HasGeometry(page) then GeometryPage(g) else []
    requires head == [3 + |b + f + p|, 0, 0, if bare then 0 else 8]
    ensures var d := ModeData(g, page, bare);
      && d == Bytes(head + (b + f + p))
      && (!bare ==> StatesSectors(d, g.sectors)) && (HasFormat(page) ==> StatesTrack(d, 4 + |b|, g.spt))
      && (HasGeometry(page) ==> StatesShape(d, 4 + |b| + |f|, g))
  {
    assert ModeData(g, page, bare) == Bytes(head + (b + f + p));
    hide ModeData, Bytes, Descriptor, FormatPage, GeometryPage, StatesSectors, StatesTrack, StatesShape;
    if !bare { SectorsInside(head, b, f, p, g.sectors); }
    if HasFormat(page) { TrackInside(head, b, f, p, g.spt); }
    if HasGeometry(page) { ShapeInside(head, b, f, p, g); }
  }

  lemma SectorsInside(head: seq<int>, b: seq<int>, f: seq<int>, p: seq<int>, sectors: nat)
    requires |head| == 4 && b == Descriptor(sectors)
    ensures StatesSectors(Bytes(head + (b + f + p)), sectors)
  {
    hide Bytes, Descriptor, StatesSectors;
    Grouped(head, b, f, p);
    SectorsStated(head, sectors, f + p);
  }

  lemma TrackInside(head: seq<int>, b: seq<int>, f: seq<int>, p: seq<int>, spt: nat)
    requires |head| == 4 && spt <= 255 && f == FormatPage(spt)
    ensures StatesTrack(Bytes(head + (b + f + p)), 4 + |b|, spt)
  {
    hide Bytes, FormatPage, StatesTrack;
    Grouped(head, b, f, p);
    TrackStated(head + b, spt, p);
  }

  lemma ShapeInside(head: seq<int>, b: seq<int>, f: seq<int>, p: seq<int>, g: Geometry)
    requires |head| == 4 && g.cyls <= 0xFFFF && g.heads <= 255 && p == GeometryPage(g)
    ensures StatesShape(Bytes(head + (b + f + p)), 4 + |b| + |f|, g)
  {
    hide Bytes, GeometryPage, StatesShape;
    Grouped(head, b, f, p);
    ShapeStated(head + b + f, g, []);
  }

  lemma Grouped(a: seq<int>, b: seq<int>, c: seq<int>, d: seq<int>)
    ensures a + (b + c + d) == a + b + (c + d) == (a + b) + c + d == (a + b + c) + d + [] == [] + a + (b + c + d)
  {
  }

  /** The block descriptor of an answer: how many sectors, as far as three bytes go, of
      512 bytes. */
  predicate StatesSectors(d: seq<Byte>, sectors: nat) {
    && |d| >= 12
    && d[5] as int * 0x1_0000 + d[6] as int * 0x100 + d[7] == (if sectors > 0xFF_FFFF then 0xFF_FFFF else sectors)
    && d[9] as int * 0x1_0000 + d[10] as int * 0x100 + d[11] == SECTOR
  }

  /** A format page at `at`, and a geometry page. */
  predicate StatesTrack(d: seq<Byte>, at: nat, spt: nat) {
    |d| >= at + 24 && d[at] == 3 && d[at + 10] as int * 0x100 + d[at + 11] == spt
  }

  predicate StatesShape(d: seq<Byte>, at: nat, g: Geometry) {
    && |d| >= at + 24 && d[at] == 4 && d[at + 5] as int == g.heads
    && d[at + 2] as int * 0x1_0000 + d[at + 3] as int * 0x100 + d[at + 4] == g.cyls
  }

  lemma SectorsStated(head: seq<int>, sectors: nat, post: seq<int>)
    requires |head| == 4
    ensures StatesSectors(Bytes(head + Descriptor(sectors) + post), sectors)
  {
    var blocks, b := if sectors > 0xFF_FFFF then 0xFF_FFFF else sectors, Descriptor(sectors);
    assert b == [0, blocks / 0x1_0000, blocks / 0x100, blocks, 0, 0, 2, 0];
    hide Bytes, Descriptor;
    FourBytes(blocks);
    PartStated(head, b, post, 1);
    PartStated(head, b, post, 2);
    PartStated(head, b, post, 3);
    PartStated(head, b, post, 5);
    PartStated(head, b, post, 6);
    PartStated(head, b, post, 7);
  }

  lemma TrackStated(pre: seq<int>, spt: nat, post: seq<int>)
    requires spt <= 255
    ensures StatesTrack(Bytes(pre + FormatPage(spt) + post), |pre|, spt)
  {
    var f := FormatPage(spt);
    FormatStates(spt);
    hide Bytes, FormatPage;
    PartStated(pre, f, post, 0);
    PartStated(pre, f, post, 10);
    PartStated(pre, f, post, 11);
  }

  lemma ShapeStated(pre: seq<int>, g: Geometry, post: seq<int>)
    requires g.cyls <= 0xFFFF && g.heads <= 255
    ensures StatesShape(Bytes(pre + GeometryPage(g) + post), |pre|, g)
  {
    var p := GeometryPage(g);
    GeometryStates(g);
    hide Bytes, GeometryPage;
    PartStated(pre, p, post, 0);
    PartStated(pre, p, post, 2);
    PartStated(pre, p, post, 3);
    PartStated(pre, p, post, 4);
    PartStated(pre, p, post, 5);
  }

  lemma FormatStates(spt: nat)
    requires spt <= 255
    ensures var f := FormatPage(spt); f[0] == 3 && f[10] % 256 * 0x100 + f[11] % 256 == spt
  {
  }

  lemma GeometryStates(g: Geometry)
    requires g.cyls <= 0xFFFF && g.heads <= 255
    ensures var p := GeometryPage(g);
      p[0] == 4 && p[5] % 256 == g.heads && p[2] % 256 * 0x1_0000 + p[3] % 256 * 0x100 + p[4] % 256 == g.cyls
  {
    FourBytes(g.cyls);
  }
}
