/** The target's commands as bytes: what each operation code does, and the addresses and
    lengths high byte first. */
module ScsiBytes {
  import opened DiskImage
  import opened ScsiSpec

  /** What the guest does: fill the buffer, or issue twelve command bytes. Bytes a command
      does not read may hold anything. */
  datatype Request =
    | Load(data: seq<Byte>)
    | ReadShort(lba: nat, count: nat, top: nat, rest: seq<Byte>)
    | WriteShort(lba: nat, count: nat, top: nat, rest: seq<Byte>)
    | ReadLong(lba: nat, count: nat, flags: Byte, group: Byte, rest: seq<Byte>)
    | WriteLong(lba: nat, count: nat, flags: Byte, group: Byte, rest: seq<Byte>)
    | Other(cdb: seq<Byte>)
  {
    /** A short form addresses 21 bits and 1 to 256 sectors, a long one 32 bits and up to
        65535. */
    predicate Proper() {
      match this
      case Load(data) => |data| == BUFFER_BYTES
      case ReadShort(lba, count, top, rest) => lba < 0x20_0000 && 1 <= count <= 256 && top < 8 && |rest| == 7
      case WriteShort(lba, count, top, rest) => lba < 0x20_0000 && 1 <= count <= 256 && top < 8 && |rest| == 7
      case ReadLong(lba, count, _, _, rest) => lba < 0x1_0000_0000 && count < 0x1_0000 && |rest| == 3
      case WriteLong(lba, count, _, _, rest) => lba < 0x1_0000_0000 && count < 0x1_0000 && |rest| == 3
      case Other(cdb) => |cdb| == 12 && cdb[0] !in {0x08, 0x0A, 0x28, 0x2A}
    }
  }

  function Short(op: Byte, lba: nat, count: nat, top: nat, rest: seq<Byte>): (cdb: seq<Byte>)
    requires lba < 0x20_0000 && 1 <= count <= 256 && top < 8 && |rest| == 7
    ensures |cdb| == 12
  {
    [op, 0x20 * top + lba / 0x1_0000, lba / 0x100 % 0x100, lba % 0x100, count % 0x100] + rest
  }

  function Long(op: Byte, lba: nat, count: nat, flags: Byte, group: Byte, rest: seq<Byte>): (cdb: seq<Byte>)
    requires lba < 0x1_0000_0000 && count < 0x1_0000 && |rest| == 3
    ensures |cdb| == 12
  {
    [op, flags, lba / 0x100_0000, lba / 0x1_0000 % 0x100, lba / 0x100 % 0x100, lba % 0x100, group,
     count / 0x100, count % 0x100] + rest
  }

  /** The command bytes of a request. */
  function CdbOf(r: Request): (cdb: seq<Byte>)
    requires r.Proper() && !r.Load?
    ensures |cdb| == 12
  {
    match r
    case ReadShort(lba, count, top, rest) => Short(0x08, lba, count, top, rest)
    case WriteShort(lba, count, top, rest) => Short(0x0A, lba, count, top, rest)
    case ReadLong(lba, count, flags, group, rest) => Long(0x28, lba, count, flags, group, rest)
    case WriteLong(lba, count, flags, group, rest) => Long(0x2A, lba, count, flags, group, rest)
    case Other(cdb) => cdb
  }

  lemma ShortDecodes(op: Byte, lba: nat, count: nat, top: nat, rest: seq<Byte>)
    requires lba < 0x20_0000 && 1 <= count <= 256 && top < 8 && |rest| == 7
    ensures var cdb := Short(op, lba, count, top, rest); Lba6(cdb) == lba && Blocks6(cdb) == count
  {
    var a := lba / 0x100;
    assert a / 0x100 == lba / 0x1_0000 && lba == 0x100 * a + lba % 0x100 && a == 0x100 * (a / 0x100) + a % 0x100;
    assert (0x20 * top + lba / 0x1_0000) % 0x20 == lba / 0x1_0000;
  }

  lemma LongDecodes(op: Byte, lba: nat, count: nat, flags: Byte, group: Byte, rest: seq<Byte>)
    requires lba < 0x1_0000_0000 && count < 0x1_0000 && |rest| == 3
    ensures var cdb := Long(op, lba, count, flags, group, rest); Lba10(cdb) == lba && Blocks10(cdb) == count
  {
    var a := lba / 0x100;
    var b := a / 0x100;
    assert lba == 0x100 * a + lba % 0x100 && a == 0x100 * b + a % 0x100 && b == 0x100 * (b / 0x100) + b % 0x100;
    assert b == lba / 0x1_0000 && b / 0x100 == lba / 0x100_0000;
  }

  /** The command a request is. */
  function Meant(r: Request): Command
    requires r.Proper() && !r.Load?
  {
    match r
    case ReadShort(lba, count, _, _) => ReadCmd(lba, count)
    case WriteShort(lba, count, _, _) => WriteCmd(lba, count)
    case ReadLong(lba, count, _, _, _) => ReadCmd(lba, count)
    case WriteLong(lba, count, _, _, _) => WriteCmd(lba, count)
    case Other(cdb) => Decode(cdb)
  }

  lemma RequestDecodes(r: Request)
    requires r.Proper() && !r.Load?
    ensures Decode(CdbOf(r)) == Meant(r) && (r.Other? ==> !Meant(r).ReadCmd? && !Meant(r).WriteCmd?)
  {
    hide Lba6, Lba10, Blocks6, Blocks10;
    match r
    case ReadShort(lba, count, top, rest) => ShortDecodes(0x08, lba, count, top, rest);
    case WriteShort(lba, count, top, rest) => ShortDecodes(0x0A, lba, count, top, rest);
    case ReadLong(lba, count, flags, group, rest) => LongDecodes(0x28, lba, count, flags, group, rest);
    case WriteLong(lba, count, flags, group, rest) => LongDecodes(0x2A, lba, count, flags, group, rest);
    case Other(_) =>
  }

  /** A command that is neither of the two writes changes no byte of the file. */
  lemma OnlyWritesChange(t: Target, cdb: seq<Byte>, left: nat)
    requires t.Valid() && |cdb| == 12 && cdb[0] != 0x0A && cdb[0] != 0x2A
    ensures Executed(t, Decode(cdb), left).img == t.img
  {
    hide Executed, Lba6, Lba10, Blocks6, Blocks10;
    ExecutedIsValid(t, Decode(cdb), left);
  }

  /** What the operation codes that move no sectors do. */
  lemma OtherCodes(t: Target, cdb: seq<Byte>, left: nat)
    requires t.Valid() && |cdb| == 12
    ensures var u, op := Executed(t, Decode(cdb), left), cdb[0];
      && (op in {0x01, 0x0B, 0x2B, 0x1B, 0x15, 0x04} ==> u == t.(key := 0, asc := 0, status := 0))
      && (op == 0x00 ==> u == if t.geo.sectors == 0 then t.(key := 2, asc := 0x3A, status := 2)
                              else t.(key := 0, asc := 0, status := 0))
      && (op !in {0x00, 0x01, 0x03, 0x04, 0x08, 0x0A, 0x0B, 0x12, 0x15, 0x1A, 0x1B, 0x25, 0x28, 0x2A, 0x2B} ==>
           u == t.(key := 5, asc := 0x20, status := 2))
  {
    hide ReadBlocks, WriteBlocks, ModeData, SenseData, InquiryData, CapacityData, Lba6, Lba10, Blocks6, Blocks10;
  }

  /** And what those that answer leave in the buffer: what was pending, who this is, how
      large the disk is. */
  lemma AnswerCodes(t: Target, cdb: seq<Byte>, left: nat)
    requires t.Valid() && |cdb| == 12 && t.key < 256 && t.asc < 256 && t.geo.sectors <= 0x1_0000_0000
    ensures var u, op := Executed(t, Decode(cdb), left), cdb[0];
      && (op == 0x03 ==>
           var n := SenseLength(cdb[4]);
           && u.status == 0 && u.key == 0 == u.asc && u.buffer[0] == 0x70
           && (n > 2 ==> u.buffer[2] as int == t.key) && (n > 12 ==> u.buffer[12] as int == t.asc))
      && (op == 0x12 && (cdb[4] == 0 || cdb[4] >= 36) ==>
           && u.status == 0 && u.key == 0 && u.buffer[0] == 0
           && forall i | 0 <= i < 8 :: u.buffer[8 + i] as int == "NEC     "[i] as int)
      && (op == 0x25 && t.geo.sectors > 0 ==>
           && u.status == 0 && u.key == 0
           && u.buffer[0] as int * 0x100_0000 + u.buffer[1] as int * 0x1_0000 + u.buffer[2] as int * 0x100
              + u.buffer[3] == t.geo.sectors - 1
           && u.buffer[4..8] == [0, 0, 2, 0])
      && (op == 0x25 && t.geo.sectors == 0 ==> u == t.(key := 2, asc := 0x3A, status := 2))
  {
    hide ReadBlocks, WriteBlocks, ModeData, SenseData, InquiryData, CapacityData, Lba6, Lba10, Blocks6, Blocks10, Bytes;
    SenseStates(t.key, t.asc);
    InquiryStates();
    if t.geo.sectors > 0 {
      CapacityStates(t.geo.sectors);
      BlockSize(t.geo.sectors);
    }
  }

  /** MODE SENSE: the page is the low six bits of byte 2, and bit 3 of byte 1 leaves out
      the block descriptor. What it answers, uncut, is decoded from the buffer. */
  lemma ModeCode(t: Target, cdb: seq<Byte>, left: nat)
    requires t.Valid() && |cdb| == 12 && cdb[0] == 0x1A
    requires t.geo.cyls <= 0xFFFF && t.geo.heads <= 255 && t.geo.spt <= 255
    ensures var u, page, bare := Executed(t, Decode(cdb), left), cdb[2] as int % 64, cdb[1] as int / 8 % 2 == 1;
      if page !in {0, 3, 4, 63} then u == t.(key := 5, asc := 0x24, status := 2)
      else
        var at := if bare then 4 else 12;
        var next := if page == 3 || page == 63 then at + 24 else at;
        && u.status == 0 && u.key == 0 && u.img == t.img
        && (cdb[4] >= 60 ==>
             && u.buffer[0] as int + 1 == (if page == 4 || page == 63 then next + 24 else next)
             && u.buffer[3] as int == at - 4
             && (!bare ==> StatesSectors(u.buffer, t.geo.sectors))
             && (page == 3 || page == 63 ==> StatesTrack(u.buffer, at, t.geo.spt))
             && (page == 4 || page == 63 ==> StatesShape(u.buffer, next, t.geo)))
  {
    hide ReadBlocks, WriteBlocks, ModeData, SenseData, InquiryData, CapacityData, Lba6, Lba10, Blocks6, Blocks10;
    var page: nat, bare := cdb[2] as int % 64, cdb[1] as int / 8 % 2 == 1;
    if KnownPage(page) { ModeStatesGeometry(t.geo, page, bare); }
  }

  lemma BlockSize(sectors: nat)
    requires sectors > 0
    ensures CapacityData(sectors)[4..8] == [0, 0, 2, 0]
  {
    var d := CapacityData(sectors);
    assert d[4] == 0 && d[5] == 0 && d[6] == 2 && d[7] == 0;
  }

  // ---- runs of requests ---------------------------------------------------

  function EventOf(r: Request): Event
    requires r.Proper()
  {
    if r.Load? then Fill(r.data) else Issue(Decode(CdbOf(r)))
  }

  /** The events of a run. */
  function EventsOf(rs: seq<Request>): (evs: seq<Event>)
    requires forall i | 0 <= i < |rs| :: rs[i].Proper()
    ensures |evs| == |rs| && forall i | 0 <= i < |evs| :: ScsiSpec.Proper(evs[i])
  {
    if rs == [] then [] else EventsOf(rs[..|rs| - 1]) + [EventOf(rs[|rs| - 1])]
  }

  /** Whether a request writes a sector: it is one of the two writes, all it asks for (no
      more than sixteen sectors) lies on the disk, and the sector is one of those. */
  predicate Writes(sectors: nat, r: Request, lba: nat) {
    && (r.WriteShort? || r.WriteLong?)
    && var n := if r.count > 16 then 16 else r.count;
       r.lba < sectors && r.lba + n <= sectors && r.lba <= lba < r.lba + n
  }

  /** The target after a run of requests. */
  ghost function Ran(t: Target, rs: seq<Request>): (r: Target)
    requires t.Valid() && forall i | 0 <= i < |rs| :: rs[i].Proper()
    ensures r.Valid() && r.geo == t.geo && |r.img| == |t.img|
  {
    Played(t, EventsOf(rs))
  }

  /** What a sector should hold: the part of the buffer the last request that wrote it put
      there, or what it held at first. */
  ghost function LastStored(t: Target, rs: seq<Request>, lba: nat): seq<Byte>
    requires t.Valid() && lba < t.geo.sectors && forall i | 0 <= i < |rs| :: rs[i].Proper()
  {
    if rs == [] then SectorOf(t, lba)
    else
      var n := |rs| - 1;
      if Writes(t.geo.sectors, rs[n], lba)
      then Ran(t, rs[..n]).buffer[512 * (lba - rs[n].lba)..512 * (lba - rs[n].lba) + 512]
      else LastStored(t, rs[..n], lba)
  }

  lemma WritesCovers(g: Geometry, r: Request, lba: nat)
    requires r.Proper()
    ensures Covers(g, EventOf(r), lba) <==> Writes(g.sectors, r, lba)
    ensures Writes(g.sectors, r, lba) ==> EventOf(r).cmd.lba == r.lba
  {
    hide Decode, CdbOf;
    if !r.Load? { RequestDecodes(r); }
  }

  lemma {:induction false} StoredIsLast(t: Target, rs: seq<Request>, lba: nat)
    requires t.Valid() && lba < t.geo.sectors && forall i | 0 <= i < |rs| :: rs[i].Proper()
    ensures LastStored(t, rs, lba) == LastWritten(t, EventsOf(rs), lba)
    decreases |rs|
  {
    hide Played, EventOf, Covers, Writes, SectorOf;
    if rs != [] {
      var n := |rs| - 1;
      StoredIsLast(t, rs[..n], lba);
      WritesCovers(t.geo, rs[n], lba);
      assert EventsOf(rs)[..n] == EventsOf(rs[..n]) && EventsOf(rs)[n] == EventOf(rs[n]);
    }
  }

  /** The target after twelve command bytes. */
  function Issued(t: Target, cdb: seq<Byte>): (u: Target)
    requires t.Valid() && |cdb| == 12
    ensures u.Valid()
  {
    ExecutedIsValid(t, Decode(cdb), MAX_BLOCKS);
    Executed(t, Decode(cdb), MAX_BLOCKS)
  }

  /** After any run of command bytes and buffer loads, the bytes of a read of either form
      hand over what the bytes of the last write to each sector put there, and change
      nothing. */
  lemma BytesReadBack(t: Target, rs: seq<Request>, r: Request, i: nat)
    requires t.Valid() && (forall j | 0 <= j < |rs| :: rs[j].Proper()) && r.Proper() && (r.ReadShort? || r.ReadLong?)
    requires var n := if r.count > 16 then 16 else r.count; i < n && r.lba + n <= t.geo.sectors
    ensures var s := Ran(t, rs); var u := Issued(s, CdbOf(r));
      && u.status == 0 && u.key == 0 && u.img == s.img
      && u.buffer[512 * i..512 * i + 512] == LastStored(t, rs, r.lba + i)
  {
    hide Played, LastStored, LastWritten, EventsOf, Decode, CdbOf, Executed;
    RequestDecodes(r);
    StoredIsLast(t, rs, r.lba + i);
    ReadsReturnLastWrite(t, EventsOf(rs), r.lba, r.count, i);
    ExecutedIsValid(Ran(t, rs), Decode(CdbOf(r)), MAX_BLOCKS);
  }

  /** And a write of either form puts the buffer's sectors where it says, in order, and
      nothing anywhere else. */
  lemma BytesStored(t: Target, rs: seq<Request>, lba: nat)
    requires t.Valid() && lba < t.geo.sectors && forall j | 0 <= j < |rs| :: rs[j].Proper()
    ensures SectorOf(Ran(t, rs), lba) == LastStored(t, rs, lba)
  {
    hide Played, LastStored, LastWritten, EventsOf;
    StoredIsLast(t, rs, lba);
    SectorsHoldLastWrite(t, EventsOf(rs), lba);
  }
}
