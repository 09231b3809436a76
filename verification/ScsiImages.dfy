/** The image headers a disk may come with, as bytes. */
module ScsiImages {
  import opened DiskImage
  import opened ScsiSpec

  /** A number of two and of four bytes, low first. */
  function Le2(n: nat): (b: seq<Byte>)
    requires n < 0x1_0000
    ensures |b| == 2
  {
    [n % 0x100, n / 0x100]
  }

  function Le4(n: nat): (b: seq<Byte>)
    requires n < 0x1_0000_0000
    ensures |b| == 4
  {
    [n % 0x100, n / 0x100 % 0x100, n / 0x1_0000 % 0x100, n / 0x100_0000]
  }

  lemma ShortIs(hdr: seq<Byte>, at: nat, n: nat)
    requires at + 2 <= |hdr| && n < 0x1_0000 && hdr[at..at + 2] == Le2(n)
    ensures Short(hdr, at) == n
  {
    assert hdr[at] == hdr[at..at + 2][0] && hdr[at + 1] == hdr[at..at + 2][1];
  }

  lemma LongIs(hdr: seq<Byte>, at: nat, n: nat)
    requires at + 4 <= |hdr| && n < 0x1_0000_0000 && hdr[at..at + 4] == Le4(n)
    ensures Long(hdr, at) == n
  {
    var b := hdr[at..at + 4];
    assert hdr[at] == b[0] && hdr[at + 1] == b[1] && hdr[at + 2] == b[2] && hdr[at + 3] == b[3];
    assert n / 0x1_0000 == n / 0x100 / 0x100 && n / 0x100_0000 == n / 0x100 / 0x100 / 0x100;
  }

  /** A disk of the stated shape from `base` on, as much of it as the file holds; none at
      all if the board cannot serve that shape. */
  predicate Served(g: Geometry, bytes: nat, base: nat, size: nat, total: nat, cyls: nat, heads: nat, spt: nat) {
    if size == 512 && base % 4 == 0 && base < bytes
       && 1 <= spt <= 255 && 1 <= heads <= 255 && 1 <= cyls <= 65535
    then
      var room := (bytes - base) / 512;
      g == Geometry(base, if total < room then total else room, cyls, heads, spt)
    else g.sectors == 0
  }

  /** A file without a header: eight heads of twenty-five sectors. */
  predicate Flat(g: Geometry, bytes: nat) {
    && g.base == 0 && g.sectors == bytes / 512 && g.heads == 8 && g.spt == 25
    && g.cyls == if bytes / 512 / 200 > 65535 then 65535 else bytes / 512 / 200
  }

  /** The sectors of a shape. */
  function Sectors(cyls: nat, heads: nat, spt: nat): nat {
    var tracks: nat := cyls * heads;
    tracks * spt
  }

  predicate Starts(hdr: seq<Byte>, sig: string) {
    |sig| <= |hdr| && forall i | 0 <= i < |sig| :: hdr[i] as int == sig[i] as int
  }

  lemma NhdServed(hdr: seq<Byte>, bytes: nat, was: Geometry, base: nat, cyls: nat, heads: nat, spt: nat, size: nat)
    requires |hdr| == 512 && Starts(hdr, "T98HDDIMAGE.R0")
    requires base < 0x1_0000_0000 && hdr[0x110..0x114] == Le4(base)
    requires cyls < 0x1_0000_0000 && hdr[0x114..0x118] == Le4(cyls)
    requires heads < 0x1_0000 && hdr[0x118..0x11A] == Le2(heads)
    requires spt < 0x1_0000 && hdr[0x11A..0x11C] == Le2(spt)
    requires size < 0x1_0000 && hdr[0x11C..0x11E] == Le2(size)
    ensures var g := Classified(hdr, bytes, was);
      if size == 0 then Flat(g, bytes) else Served(g, bytes, base, size, Sectors(cyls, heads, spt), cyls, heads, spt)
  {
    hide Short, Long, Le2, Le4, Signed;
    assert Signed(hdr, "T98HDDIMAGE.R0") by { SignedIs(hdr, "T98HDDIMAGE.R0"); }
    LongIs(hdr, 0x110, base);
    LongIs(hdr, 0x114, cyls);
    ShortIs(hdr, 0x118, heads);
    ShortIs(hdr, 0x11A, spt);
    ShortIs(hdr, 0x11C, size);
    TakenFor(hdr, bytes, was);
  }

  /** What a claim makes of a file. */
  lemma TakenFor(hdr: seq<Byte>, bytes: nat, was: Geometry)
    requires |hdr| == 512
    ensures var g, k := Classified(hdr, bytes, was), ClaimOf(hdr, bytes);
      if k.ssize == 0 then Flat(g, bytes)
      else Served(g, bytes, k.hsize, k.ssize, if k.total == 0 then Sectors(k.c, k.hd, k.s) else k.total, k.c, k.hd, k.s)
  {
    hide ClaimOf, Sectors, ShapeOf;
    var k := ClaimOf(hdr, bytes);
    assert ShapeOf(k) == Sectors(k.c, k.hd, k.s) by { ShapeIs(k); }
  }

  lemma ShapeIs(k: Claim)
    ensures ShapeOf(k) == Sectors(k.c, k.hd, k.s)
  {
  }

  lemma SignedIs(hdr: seq<Byte>, sig: string)
    requires Starts(hdr, sig) && forall i | 0 <= i < |sig| :: sig[i] as int < 256
    ensures Signed(hdr, sig)
  {
  }

  lemma NotSigned(hdr: seq<Byte>, sig: string)
    requires 0 < |sig| <= |hdr| && sig[0] as int < 256 && hdr[0] as int != sig[0] as int
    ensures !Signed(hdr, sig)
  {
  }

  lemma VhdServed(hdr: seq<Byte>, bytes: nat, was: Geometry, size: nat, cyls: nat, total: nat)
    requires |hdr| == 512 && Starts(hdr, "VHD1.")
    requires size < 0x1_0000 && hdr[0x8E..0x90] == Le2(size)
    requires cyls < 0x1_0000 && hdr[0x92..0x94] == Le2(cyls)
    requires total < 0x1_0000_0000 && hdr[0x94..0x98] == Le4(total)
    ensures var g: Geometry, spt: nat, heads: nat := Classified(hdr, bytes, was), hdr[0x90], hdr[0x91];
      if size == 0 then Flat(g, bytes)
      else Served(g, bytes, 220, size, if total == 0 then Sectors(cyls, heads, spt) else total, cyls, heads, spt)
  {
    hide Short, Long, Le2, Le4, Signed;
    assert Signed(hdr, "VHD1.") by { SignedIs(hdr, "VHD1."); }
    assert hdr[0] as int == "VHD1."[0] as int;
    NotSigned(hdr, "T98HDDIMAGE.R0");
    ShortIs(hdr, 0x8E, size);
    ShortIs(hdr, 0x92, cyls);
    LongIs(hdr, 0x94, total);
    TakenFor(hdr, bytes, was);
  }

  lemma ZeroLong(hdr: seq<Byte>)
    requires |hdr| >= 4
    ensures Long(hdr, 0) == 0 <==> hdr[..4] == [0, 0, 0, 0]
  {
    var b := hdr[..4];
    assert hdr[0] == b[0] && hdr[1] == b[1] && hdr[2] == b[2] && hdr[3] == b[3];
    if Long(hdr, 0) == 0 { assert b == [0, 0, 0, 0]; }
  }

  /** No signature: a header that starts with a zero and whose arithmetic fits the file is
      believed, and one that does not is no header. */
  lemma HdiServed(hdr: seq<Byte>, bytes: nat, was: Geometry, base: nat, size: nat, spt: nat, heads: nat, cyls: nat)
    requires |hdr| == 512 && hdr[..4] == [0, 0, 0, 0]
    requires base < 0x1_0000_0000 && hdr[8..12] == Le4(base)
    requires size < 0x1_0000_0000 && hdr[16..20] == Le4(size)
    requires spt < 0x1_0000_0000 && hdr[20..24] == Le4(spt)
    requires heads < 0x1_0000_0000 && hdr[24..28] == Le4(heads)
    requires cyls < 0x1_0000_0000 && hdr[28..32] == Le4(cyls)
    ensures var g := Classified(hdr, bytes, was);
      if && 0x20 <= base <= 0x10_0000 && 0 < spt <= 255 && 0 < heads <= 255 && 0 < cyls <= 65535
         && size in {256, 512, 1024} && spt * heads * cyls * size + base <= bytes
      then Served(g, bytes, base, size, Sectors(cyls, heads, spt), cyls, heads, spt)
      else Flat(g, bytes)
  {
    hide Short, Long, Le4, Signed;
    assert hdr[0] == hdr[..4][0];
    NotSigned(hdr, "T98HDDIMAGE.R0");
    NotSigned(hdr, "VHD1.");
    ZeroLong(hdr);
    LongIs(hdr, 8, base);
    LongIs(hdr, 16, size);
    LongIs(hdr, 20, spt);
    LongIs(hdr, 24, heads);
    LongIs(hdr, 28, cyls);
    TakenFor(hdr, bytes, was);
  }

  /** A file that starts like none of them is served whole. */
  lemma FlatServed(hdr: seq<Byte>, bytes: nat, was: Geometry)
    requires |hdr| == 512 && hdr[..4] != [0, 0, 0, 0] && hdr[0] as int != 'T' as int && hdr[0] as int != 'V' as int
    ensures Flat(Classified(hdr, bytes, was), bytes)
  {
    hide Signed;
    NotSigned(hdr, "T98HDDIMAGE.R0");
    NotSigned(hdr, "VHD1.");
    ZeroLong(hdr);
    TakenFor(hdr, bytes, was);
  }
}
