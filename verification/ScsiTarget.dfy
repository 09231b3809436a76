/** The SCSI target: one command at a time, against the image file and the data
    buffer it shares with the guest. */
module ScsiTarget {
  import opened DiskImage
  import opened ScsiSpec

  class Controller {
    const buffer: array<Byte>
    var ptr: nat           // where the next byte of the buffer goes
    var img: seq<Byte>     // the image file
    var geo: Geometry
    var key: nat           // pending sense
    var asc: nat
    var status: nat
    var bytes: nat         // the mounted file's size
    var reprobe: bool      // the mount's classification is provisional
    var left: nat          // sectors the link still lets through
    var said: nat          // bytes of a MODE SENSE answer so far, and its cut
    var alloc: nat

    ghost predicate Shape()
      reads this
    {
      buffer.Length == BUFFER_BYTES && Inside(geo, |img|) && bytes <= |img|
    }

    ghost function View(): Target
      reads this, buffer
    {
      Target(img, geo, key, asc, status, buffer[..])
    }

    constructor (data: array<Byte>)
      requires data.Length == BUFFER_BYTES
      ensures buffer == data && Shape() && View().Valid() && !reprobe
    {
      buffer, ptr, img, geo := data, 0, [], Geometry(0, 0, 0, 0, 0);
      key, asc, status, bytes, reprobe, left, said, alloc := 0, 0, GOOD, 0, false, 0, 0, 0;
    }

    method Put(v: Byte)
      requires ptr < buffer.Length
      modifies this`ptr, buffer
      ensures ptr == old(ptr) + 1 && buffer[..] == old(buffer[..])[old(ptr) := v]
    {
      buffer[ptr] := v;
      ptr := ptr + 1;
    }

    method Fail(k: nat, code: nat)
      modifies this`key, this`asc, this`status
      ensures View() == Failed(old(View()), k, code)
    {
      key, asc, status := k, code, CHECK;
    }

    method Succeed()
      modifies this`key, this`asc, this`status
      ensures View() == Done(old(View()))
    {
      key, asc, status := 0, 0, GOOD;
    }

    /** An answer from the start of the buffer. */
    method PutAll(d: seq<Byte>)
      requires |d| <= buffer.Length
      modifies this`ptr, buffer
      ensures buffer[..] == Filled(old(buffer[..]), d) && ptr == |d|
    {
      hide Filled;
      ghost var was := buffer[..];
      ptr := 0;
      FilledNone(was);
      for i := 0 to |d|
        invariant ptr == i && buffer[..] == Filled(was, d[..i])
      {
        FilledNext(was, d, i);
        Put(d[i]);
      }
      assert d[..|d|] == d;
    }

    /** One sector of the image into the buffer. */
    method PushSector(lba: nat) returns (ok: bool)
      requires Shape() && geo.base + SECTOR * (lba + 1) <= |img| && ptr + SECTOR <= BUFFER_BYTES
      modifies this`ptr, this`left, buffer
      ensures ok <==> old(left) > 0
      ensures left == if ok then old(left) - 1 else old(left)
      ensures if ok then
                ptr == old(ptr) + SECTOR
                && buffer[..] == Stored(old(buffer[..]), old(ptr),
                     img[geo.base + SECTOR * lba..geo.base + SECTOR * (lba + 1)])
              else ptr == old(ptr) && buffer[..] == old(buffer[..])
    {
      hide Stored;
      if left == 0 {
        return false;
      }
      left := left - 1;
      ghost var was, at := buffer[..], ptr;
      var sector := img[geo.base + SECTOR * lba..geo.base + SECTOR * (lba + 1)];
      NoneStored(was, at);
      for i := 0 to SECTOR
        modifies this`ptr, buffer
        invariant ptr == at + i && buffer[..] == Stored(was, at, sector[..i])
      {
        StoredNext(was, at, sector, i);
        Put(sector[i]);
      }
      assert sector[..SECTOR] == sector;
      return true;
    }

    method DoRead(lba: nat, blocks: nat)
      requires Shape()
      modifies this`ptr, this`left, this`key, this`asc, this`status, buffer
      ensures Shape() && View() == Executed(old(View()), ReadCmd(lba, blocks), old(left))
    {
      hide Stored;
      if geo.sectors == 0 {
        Fail(2, 0x3A);
        return;
      }
      if blocks == 0 {
        Succeed();
        return;
      }
      var n := if blocks > MAX_BLOCKS then MAX_BLOCKS else blocks;
      if lba >= geo.sectors || lba + n > geo.sectors {
        Fail(5, 0x21);
        return;
      }
      var ok := PushSectors(lba, n);
      if !ok {
        Fail(2, 0x11);
        return;
      }
      Succeed();
    }

    method PushSectors(lba: nat, n: nat) returns (ok: bool)
      requires Shape() && n <= MAX_BLOCKS && geo.base + SECTOR * (lba + n) <= |img|
      modifies this`ptr, this`left, buffer
      ensures var moved := Passed(n, old(left));
        && ok == (moved == n)
        && buffer[..] == Filled(old(buffer[..]), SectorsAt(old(View()), lba, moved))
    {
      hide Stored, Filled;
      ghost var t := View();
      ptr := 0;
      NoneRead(t, lba);
      for i := 0 to n
        invariant ptr == SECTOR * i && left == old(left) - i
        invariant buffer[..] == Filled(t.buffer, SectorsAt(t, lba, i))
      {
        NextRead(t, lba, i);
        ok := PushSector(lba + i);
        if !ok {
          return;
        }
      }
      return true;
    }

    /** One sector of the buffer into the image. */
    method DrainSector(lba: nat, at: nat) returns (ok: bool)
      requires Shape() && geo.base + SECTOR * (lba + 1) <= |img| && at + SECTOR <= BUFFER_BYTES
      modifies this`img, this`left
      ensures ok <==> old(left) > 0
      ensures left == if ok then old(left) - 1 else old(left)
      ensures img == if ok then Stored(old(img), geo.base + SECTOR * lba, buffer[..][at..at + SECTOR]) else old(img)
    {
      var sector: seq<Byte> := [];
      for i := 0 to SECTOR
        modifies {}
        invariant sector == buffer[at..at + i]
      {
        sector := sector + [buffer[at + i]];
      }
      if left == 0 {
        return false;
      }
      left := left - 1;
      img := Stored(img, geo.base + SECTOR * lba, sector);
      return true;
    }

    method DoWrite(lba: nat, blocks: nat)
      requires Shape()
      modifies this`img, this`left, this`key, this`asc, this`status
      ensures Shape() && View() == Executed(old(View()), WriteCmd(lba, blocks), old(left))
    {
      hide Stored;
      if geo.sectors == 0 {
        Fail(2, 0x3A);
        return;
      }
      if blocks == 0 {
        Succeed();
        return;
      }
      var n := if blocks > MAX_BLOCKS then MAX_BLOCKS else blocks;
      if lba >= geo.sectors || lba + n > geo.sectors {
        Fail(5, 0x21);
        return;
      }
      var ok := DrainSectors(lba, n);
      if !ok {
        Fail(2, 0x0C);
        return;
      }
      Succeed();
    }

    method DrainSectors(lba: nat, n: nat) returns (ok: bool)
      requires Shape() && n <= MAX_BLOCKS && geo.base + SECTOR * (lba + n) <= |img|
      modifies this`img, this`left
      ensures var moved := Passed(n, old(left));
        && ok == (moved == n)
        && img == Stored(old(img), geo.base + SECTOR * lba, buffer[..][..SECTOR * moved])
    {
      hide Stored;
      ghost var was, data := img, buffer[..];
      NoneStored(was, geo.base + SECTOR * lba);
      for i := 0 to n
        invariant left == old(left) - i && |img| == |was| && buffer[..] == data
        invariant img == Stored(was, geo.base + SECTOR * lba, data[..SECTOR * i])
      {
        NextWrite(was, geo.base, lba, data, i);
        ok := DrainSector(lba + i, SECTOR * i);
        if !ok {
          return;
        }
      }
      return true;
    }

    method DoRequestSense(n: nat)
      requires Shape()
      modifies this`ptr, this`key, this`asc, this`status, buffer
      ensures Shape() && View() == Executed(old(View()), Sense(n), left)
    {
      var d := SenseData(key, asc);
      PutAll(if n == 0 || n > 18 then d else d[..n]);
      key, asc, status := 0, 0, GOOD;
    }

    method DoInquiry(n: nat)
      requires Shape()
      modifies this`ptr, this`key, this`asc, this`status, buffer
      ensures Shape() && View() == Executed(old(View()), Inquiry(n), left)
    {
      hide InquiryData;
      var d := InquiryData();
      PutAll(if n == 0 || n > 36 then d else d[..n]);
      Succeed();
    }

    method DoReadCapacity()
      requires Shape()
      modifies this`ptr, this`key, this`asc, this`status, buffer
      ensures Shape() && View() == Executed(old(View()), Capacity, left)
    {
      hide CapacityData;
      if geo.sectors == 0 {
        Fail(2, 0x3A);
        return;
      }
      PutAll(CapacityData(geo.sectors));
      Succeed();
    }

    /** A byte of a MODE SENSE answer, dropped past the allocation length. */
    method MsPut(v: int)
      requires buffer.Length == BUFFER_BYTES && alloc <= 255 && ptr == (if said < alloc then said else alloc)
      modifies this`ptr, this`said, buffer
      ensures said == old(said) + 1 && ptr == if said < alloc then said else alloc
      ensures buffer[..] == if old(said) < alloc then old(buffer[..])[old(said) := v % 256] else old(buffer[..])
    {
      if said < alloc {
        Put(v % 256);
      }
      said := said + 1;
    }

    /** A stretch of one: `was` is the buffer before the answer, `head` the answer so
        far. */
    method MsPutAll(vs: seq<int>, ghost was: seq<Byte>, ghost head: seq<int>)
      requires buffer.Length == BUFFER_BYTES && alloc <= 255 && Saying(was, buffer[..], head, said, alloc, ptr)
      modifies this`ptr, this`said, buffer
      ensures Saying(was, buffer[..], head + vs, said, alloc, ptr)
    {
      hide Saying;
      assert head + vs[..0] == head;
      for i := 0 to |vs|
        invariant Saying(was, buffer[..], head + vs[..i], said, alloc, ptr)
      {
        SayingNext(was, buffer[..], head + vs[..i], said, alloc, ptr, vs[i]);
        assert head + vs[..i] + [vs[i]] == head + vs[..i + 1];
        MsPut(vs[i]);
      }
      assert vs[..|vs|] == vs;
    }

    method MsZero(count: nat, ghost was: seq<Byte>, ghost head: seq<int>)
      requires buffer.Length == BUFFER_BYTES && alloc <= 255 && Saying(was, buffer[..], head, said, alloc, ptr)
      modifies this`ptr, this`said, buffer
      ensures Saying(was, buffer[..], head + Zeros(count), said, alloc, ptr)
    {
      hide Saying;
      assert head + Zeros(0) == head;
      for i := 0 to count
        invariant Saying(was, buffer[..], head + Zeros(i), said, alloc, ptr)
      {
        SayingNext(was, buffer[..], head + Zeros(i), said, alloc, ptr, 0);
        assert head + Zeros(i) + [0] == head + Zeros(i + 1);
        MsPut(0);
      }
    }

    method DoModeSense(page: nat, bare: bool, n: nat)
      requires Shape() && n <= 255
      modifies this`ptr, this`said, this`alloc, this`key, this`asc, this`status, buffer
      ensures Shape() && View() == Executed(old(View()), Mode(page, bare, n), left)
    {
      hide ModeData, Executed;
      ModeCommand(View(), page, bare, n, left);
      if page != 3 && page != 0x3F && page != 4 && page != 0 {
        Fail(5, 0x24);
        return;
      }
      PutModeData(page, bare, n);
      Succeed();
    }

    /** The header, the block descriptor unless left off, then the pages asked for. */
    method PutModeData(page: nat, bare: bool, n: nat)
      requires Shape() && n <= 255 && KnownPage(page)
      modifies this`ptr, this`said, this`alloc, buffer
      ensures var d := ModeData(geo, page, bare); buffer[..] == Filled(old(buffer[..]), if n < |d| then d[..n] else d)
    {
      hide Saying, Zeros, Bytes, ModeData, FormatPage, GeometryPage, Filled;
      var p3, p4 := page == 3 || page == 0x3F, page == 4 || page == 0x3F;
      var bdl := if bare then 0 else 8;
      var blocks := if geo.sectors > 0xFF_FFFF then 0xFF_FFFF else geo.sectors;
      said, alloc, ptr := 0, n, 0;
      ghost var was := buffer[..];
      SayingNothing(was, alloc);
      ghost var head := [3 + bdl + (if p3 then 24 else 0) + (if p4 then 24 else 0), 0, 0, bdl];
      assert [] + head == head;
      MsPutAll([3 + bdl + (if p3 then 24 else 0) + (if p4 then 24 else 0), 0, 0, bdl], was, []);
      if bdl != 0 {
        MsPutAll([0, blocks / 0x1_0000, blocks / 0x100, blocks, 0, 0, 2, 0], was, head);
        head := head + Descriptor(geo.sectors);
      }
      if p3 {
        PutFormatPage(was, head);
        head := head + FormatPage(geo.spt);
      }
      if p4 {
        PutGeometryPage(was, head);
        head := head + GeometryPage(geo);
      }
      ModeDataIs(geo, page, bare, head);
      SaidAll(was, buffer[..], head, said, alloc, ptr);
    }

    method PutGeometryPage(ghost was: seq<Byte>, ghost head: seq<int>)
      requires buffer.Length == BUFFER_BYTES && alloc <= 255 && Saying(was, buffer[..], head, said, alloc, ptr)
      modifies this`ptr, this`said, buffer
      ensures Saying(was, buffer[..], head + GeometryPage(geo), said, alloc, ptr)
    {
      hide Saying, Zeros;
      var shape := [0x04, 0x16, geo.cyls / 0x1_0000, geo.cyls / 0x100, geo.cyls, geo.heads];
      MsPutAll(shape, was, head);
      MsZero(18, was, head + shape);
      assert head + shape + Zeros(18) == head + GeometryPage(geo);
    }

    method PutFormatPage(ghost was: seq<Byte>, ghost head: seq<int>)
      requires buffer.Length == BUFFER_BYTES && alloc <= 255 && Saying(was, buffer[..], head, said, alloc, ptr)
      modifies this`ptr, this`said, buffer
      ensures Saying(was, buffer[..], head + FormatPage(geo.spt), said, alloc, ptr)
    {
      hide Saying, Zeros;
      MsPutAll([0x03, 0x16], was, head);
      MsZero(8, was, head + [0x03, 0x16]);
      ghost var middle := head + [0x03, 0x16] + Zeros(8);
      MsPutAll([geo.spt / 0x100, geo.spt, 2, 0, 0, 1], was, middle);
      MsZero(4, was, middle + [geo.spt / 0x100, geo.spt, 2, 0, 0, 1]);
      ghost var last := middle + [geo.spt / 0x100, geo.spt, 2, 0, 0, 1] + Zeros(4);
      MsPutAll([0x40], was, last);
      MsZero(3, was, last + [0x40]);
      assert last + [0x40] + Zeros(3) == head + FormatPage(geo.spt);
    }

    /** What the file is taken for, from its own first sector. A failed read leaves the
        classification standing. */
    method Probe(landed: bool, stray: seq<Byte>) returns (ok: bool)
      requires Shape() && |stray| == SECTOR
      modifies this`geo
      ensures Shape() && ok == landed
      ensures geo == if ok then Classified(HeaderOf(img, stray), bytes, old(geo)) else old(geo)
    {
      hide Signed, LongAt, Short;
      if !landed {
        return false;
      }
      var hdr := HeaderOf(img, stray);
      ClassifiedIsInside(hdr, bytes, geo);
      var k := Claim(0, 0, 0, 0, 0, 0);
      if Signed(hdr, "T98HDDIMAGE.R0") {
        k := Claim(Long(hdr, 0x110), Short(hdr, 0x11C), Short(hdr, 0x11A), Short(hdr, 0x118), Long(hdr, 0x114), 0);
      } else if Signed(hdr, "VHD1.") {
        k := Claim(220, Short(hdr, 0x8E), hdr[0x90], hdr[0x91], Short(hdr, 0x92), Long(hdr, 0x94));
      } else if Long(hdr, 0) == 0 {
        k := Claim(Long(hdr, 8), Long(hdr, 0x10), Long(hdr, 0x14), Long(hdr, 0x18), Long(hdr, 0x1C), 0);
        if !PlausibleHdi(k, bytes) {
          k := Claim(0, 0, 0, 0, 0, 0);
        }
      }
      if k.ssize != 0 {
        if !Servable(k, bytes) {
          geo := Geometry(0, 0, geo.cyls, 8, 25);
          return true;
        }
        var fits := (bytes - k.hsize) / SECTOR;
        var total := if k.total == 0 then ShapeOf(k) else k.total;
        geo := Geometry(k.hsize, if total < fits then total else fits, k.c, k.hd, k.s);
        return true;
      }
      var sectors := bytes / SECTOR;
      var cyls := sectors / 200;
      geo := Geometry(0, sectors, if cyls > 0xFFFF then 0xFFFF else cyls, 8, 25);
      return true;
    }

    /** A file mounted: its classification is provisional, and none if its header
        could not be read. */
    method Mount(file: seq<Byte>, landed: bool, stray: seq<Byte>) returns (ok: bool)
      requires buffer.Length == BUFFER_BYTES && |stray| == SECTOR
      modifies this`img, this`bytes, this`reprobe, this`geo, this`key, this`asc
      ensures Shape() && reprobe && img == file && bytes == |file| && ok == landed
      ensures ok ==> key == 0 && asc == 0
      ensures if ok then geo == Classified(HeaderOf(file, stray), |file|, old(geo).(sectors := 0))
              else geo == old(geo).(sectors := 0)
    {
      hide Classified;
      img, bytes, reprobe := file, |file|, true;
      geo := geo.(sectors := 0);
      ok := Probe(landed, stray);
      if ok {
        key, asc := 0, 0;
      }
    }

    /** One command, after a second look at a disk whose mount was provisional. */
    method Execute(cdb: seq<Byte>, landed: bool, stray: seq<Byte>)
      requires Shape() && |cdb| == 12 && |stray| == SECTOR
      modifies this, buffer
      ensures Shape()
      ensures var settled := Settled(old(geo), old(reprobe), old(bytes), landed, HeaderOf(old(img), stray));
        View() == Executed(old(View()).(geo := settled), Decode(cdb), old(left))
      ensures reprobe == (old(reprobe) && (old(bytes) == 0 || !landed))
    {
      hide Classified, Executed, Decode;
      if reprobe && bytes != 0 {
        var ok := Probe(landed, stray);
        if ok {
          reprobe := false;
        }
      }
      Dispatch(cdb);
    }

    method Dispatch(cdb: seq<Byte>)
      requires Shape() && |cdb| == 12
      modifies this`img, this`ptr, this`left, this`said, this`alloc, this`key, this`asc, this`status, buffer
      ensures Shape() && View() == Executed(old(View()), Decode(cdb), old(left))
    {
      hide Executed, Lba6, Lba10, Blocks6, Blocks10;
      SimpleCommands(View(), left);
      match cdb[0]
      case 0x00 => if geo.sectors != 0 { Succeed(); } else { Fail(2, 0x3A); }
      case 0x01 | 0x0B | 0x2B | 0x1B | 0x15 | 0x04 => Succeed();
      case 0x03 => DoRequestSense(cdb[4]);
      case 0x12 => DoInquiry(cdb[4]);
      case 0x1A => DoModeSense(cdb[2] % 0x40, cdb[1] / 8 % 2 == 1, cdb[4]);
      case 0x25 => DoReadCapacity();
      case 0x08 => DoRead(Lba6(cdb), Blocks6(cdb));
      case 0x0A => DoWrite(Lba6(cdb), Blocks6(cdb));
      case 0x28 => DoRead(Lba10(cdb), Blocks10(cdb));
      case 0x2A => DoWrite(Lba10(cdb), Blocks10(cdb));
      case _ => Fail(5, 0x20);
    }
  }

  lemma SimpleCommands(t: Target, left: nat)
    requires |t.buffer| == BUFFER_BYTES && Inside(t.geo, |t.img|)
    ensures Executed(t, Ready, left) == if t.geo.sectors == 0 then Failed(t, 2, 0x3A) else Done(t)
    ensures Executed(t, Ignored, left) == Done(t) && Executed(t, Unknown, left) == Failed(t, 5, 0x20)
  {
    hide ModeData, SenseData, InquiryData, CapacityData, ReadBlocks, WriteBlocks;
  }

  lemma ModeCommand(t: Target, page: nat, bare: bool, n: nat, left: nat)
    requires |t.buffer| == BUFFER_BYTES && Inside(t.geo, |t.img|)
    ensures Executed(t, Mode(page, bare, n), left)
         == if !KnownPage(page) then Failed(t, 5, 0x24)
            else var d := ModeData(t.geo, page, bare); Answer(t, if n < |d| then d[..n] else d)
  {
    hide ModeData, SenseData, InquiryData, CapacityData, ReadBlocks, WriteBlocks;
  }

  /** The classification a command works with. */
  function Settled(geo: Geometry, reprobe: bool, bytes: nat, landed: bool, hdr: seq<Byte>): Geometry
    requires |hdr| == SECTOR
  {
    if reprobe && bytes != 0 && landed then Classified(hdr, bytes, geo) else geo
  }

  /** Once a mount has classified its file the second look, at the same first sector,
      moves nothing. */
  lemma SecondLookAgrees(img: seq<Byte>, stray: seq<Byte>, was: Geometry, landed: bool)
    requires |stray| == SECTOR
    ensures var hdr := HeaderOf(img, stray); var geo := Classified(hdr, |img|, was);
      Settled(geo, true, |img|, landed, hdr) == geo
  {
    hide Classified;
    ClassifiedAgain(HeaderOf(img, stray), |img|, was);
  }

  /** A truncated answer in the making. */
  ghost predicate Saying(was: seq<Byte>, now: seq<Byte>, head: seq<int>, said: nat, alloc: nat, ptr: nat) {
    && |was| == BUFFER_BYTES && alloc <= 255 && said == |head|
    && ptr == (if said < alloc then said else alloc)
    && now == Filled(was, Bytes(head)[..ptr])
  }

  lemma SayingNothing(was: seq<Byte>, alloc: nat)
    requires |was| == BUFFER_BYTES && alloc <= 255
    ensures Saying(was, was, [], 0, alloc, 0)
  {
  }

  lemma SayingNext(was: seq<Byte>, now: seq<Byte>, head: seq<int>, said: nat, alloc: nat, ptr: nat, v: int)
    requires Saying(was, now, head, said, alloc, ptr)
    ensures |now| == BUFFER_BYTES && ptr == if said < alloc then said else alloc
    ensures Saying(was, if said < alloc then now[said := v % 256] else now, head + [v], said + 1, alloc,
                   if said + 1 < alloc then said + 1 else alloc)
  {
    assert Bytes(head + [v])[..|head|] == Bytes(head);
    if said < alloc {
      assert Bytes(head + [v])[..ptr + 1] == Bytes(head)[..ptr] + [v % 256];
    } else {
      assert Bytes(head + [v])[..ptr] == Bytes(head)[..ptr];
    }
  }

  lemma SaidAll(was: seq<Byte>, now: seq<Byte>, head: seq<int>, said: nat, alloc: nat, ptr: nat)
    requires Saying(was, now, head, said, alloc, ptr) && |head| <= 60
    ensures var d := Bytes(head); now == Filled(was, if alloc < |d| then d[..alloc] else d)
  {
    assert Bytes(head)[..|head|] == Bytes(head);
  }

  lemma ModeDataIs(g: Geometry, page: nat, bare: bool, head: seq<int>)
    requires KnownPage(page)
    requires var bdl, p3, p4 := if bare then 0 else 8, page == 3 || page == 0x3F, page == 4 || page == 0x3F;
      head == [3 + bdl + (if p3 then 24 else 0) + (if p4 then 24 else 0), 0, 0, bdl]
            + (if bdl != 0 then Descriptor(g.sectors) else [])
            + (if p3 then FormatPage(g.spt) else []) + (if p4 then GeometryPage(g) else [])
    ensures Bytes(head) == ModeData(g, page, bare) && |head| <= 60
  {
    hide Descriptor, FormatPage, GeometryPage, Bytes;
    var body := (if bare then [] else Descriptor(g.sectors))
              + (if page == 3 || page == 0x3F then FormatPage(g.spt) else [])
              + (if page == 4 || page == 0x3F then GeometryPage(g) else []);
    assert head == [3 + |body|, 0, 0, if bare then 0 else 8] + body;
  }

  lemma NoneStored(img: seq<Byte>, at: nat)
    requires at <= |img|
    ensures Stored(img, at, []) == img
  {
  }

  lemma FilledNone(was: seq<Byte>)
    ensures forall d: seq<Byte> | |d| == 0 :: Filled(was, d) == was
  {
  }

  lemma FilledNext(was: seq<Byte>, d: seq<Byte>, i: nat)
    requires i < |d| <= |was|
    ensures Filled(was, d[..i])[i := d[i]] == Filled(was, d[..i + 1])
  {
  }

  lemma StoredNext(was: seq<Byte>, at: nat, d: seq<Byte>, i: nat)
    requires at + |d| <= |was| && i < |d|
    ensures Stored(was, at, d[..i])[at + i := d[i]] == Stored(was, at, d[..i + 1])
  {
  }

  lemma NoneRead(t: Target, lba: nat)
    requires |t.buffer| == BUFFER_BYTES && t.geo.base + SECTOR * lba <= |t.img|
    ensures Filled(t.buffer, SectorsAt(t, lba, 0)) == t.buffer
  {
  }

  lemma NextRead(t: Target, lba: nat, i: nat)
    requires |t.buffer| == BUFFER_BYTES && SECTOR * (i + 1) <= BUFFER_BYTES
    requires t.geo.base + SECTOR * (lba + i + 1) <= |t.img|
    ensures |SectorsAt(t, lba, i)| == SECTOR * i
    ensures Stored(Filled(t.buffer, SectorsAt(t, lba, i)), SECTOR * i,
                   t.img[t.geo.base + SECTOR * (lba + i)..t.geo.base + SECTOR * (lba + i + 1)])
         == Filled(t.buffer, SectorsAt(t, lba, i + 1))
  {
  }

  lemma NextWrite(img: seq<Byte>, base: nat, lba: nat, data: seq<Byte>, i: nat)
    requires base + SECTOR * (lba + i + 1) <= |img| && SECTOR * (i + 1) <= |data|
    ensures Stored(Stored(img, base + SECTOR * lba, data[..SECTOR * i]), base + SECTOR * (lba + i),
        data[SECTOR * i..SECTOR * i + SECTOR])
         == Stored(img, base + SECTOR * lba, data[..SECTOR * (i + 1)])
  {
  }
}
