/** The floppy service over the bridge RAM: the settings window in the middle of it
    is never touched. */
module FloppyService {
  import opened DiskImage
  import opened FloppyRuns
  import opened FloppySpec
  import Division

  const RAM_BYTES := 3072
  const WINDOW_START := 512   // the settings window
  const WINDOW_END := 1024
  const WIDE_START := 1024    // where a 1024-byte sector is staged
  const AHEAD_START := 2048   // where the sector read ahead is

  class Service {
    const ram: array<Byte>
    var a: Drive
    var b: Drive
    var left: nat             // transfers the link still lets through

    ghost predicate Shape()
      reads this
    {
      ram.Length == RAM_BYTES && a.Shape() && b.Shape()
    }

    ghost function View(): Floppy
      requires ram.Length == RAM_BYTES
      reads this, ram
    {
      Floppy(a, b, ram[AHEAD_START..])
    }

    ghost function Window(): seq<Byte>
      requires ram.Length == RAM_BYTES
      reads this, ram
    {
      ram[WINDOW_START..WINDOW_END]
    }

    constructor (bridge: array<Byte>)
      requires bridge.Length == RAM_BYTES
      ensures Shape() && ram == bridge && a.tag == b.tag == -1 && a.trk == b.trk == -1
    {
      ram, left := bridge, 0;
      a := Drive([], false, 0, 0, 512, 0, -1, -1, NoOffsets());
      b := Drive([], false, 0, 0, 512, 0, -1, -1, NoOffsets());
    }

    function At(drv: bool): Drive
      reads this
    {
      if drv then b else a
    }

    method Put(drv: bool, d: Drive)
      modifies this`a, this`b
      ensures At(drv) == d && At(!drv) == old(At(!drv))
    {
      if drv { b := d; } else { a := d; }
    }

    /** `n` bytes of a drive's file into the RAM, all or nothing. */
    method Fetch(drv: bool, off: nat, n: nat, at: nat) returns (ok: bool)
      requires ram.Length == RAM_BYTES && at + n <= RAM_BYTES
      modifies this`left, ram
      ensures ok <==> old(left) > 0 && off + n <= |At(drv).img|
      ensures left == if ok then old(left) - 1 else old(left)
      ensures ok ==> ram[..] == old(ram[..])[..at] + At(drv).img[off..off + n] + old(ram[..])[at + n..]
      ensures !ok ==> ram[..] == old(ram[..])
    {
      var img := At(drv).img;
      if left == 0 || off + n > |img| {
        return false;
      }
      left := left - 1;
      ghost var was := ram[..];
      for i := 0 to n
        invariant left == old(left) - 1
        invariant forall j | 0 <= j < RAM_BYTES :: ram[j] == if at <= j < at + i then img[off + j - at] else was[j]
      {
        ram[at + i] := img[off + i];
      }
      return true;
    }

    /** A sector number divided by the sectors of a track, by subtraction. */
    static method TrackAndRecord(lba: nat, spt: nat) returns (trk: nat, l: nat)
      requires spt > 0
      ensures trk == lba / spt && l == lba % spt
    {
      trk, l := 0, lba;
      while l >= spt
        invariant lba == trk * spt + l
      {
        l := l - spt;
        trk := trk + 1;
      }
      Division.QuotientIs(lba, spt, trk, l);
    }

    /** Where a sector's data is in a tagged image, 0 if nowhere. */
    method D88Offset(drv: bool, lba: nat) returns (off: nat)
      requires Shape()
      modifies this, ram
      ensures Shape() && ram[WINDOW_START..] == old(ram[WINDOW_START..]) && At(!drv) == old(At(!drv))
      ensures (off, At(drv), left) == Resolve(old(At(drv)), lba, old(left))
    {
      hide Walk;
      var d := At(drv);
      var spt := d.spt;
      if spt == 0 || spt > CACHE_SPT {
        return 0;
      }
      var trk, l := TrackAndRecord(lba, spt);
      if d.trk != trk {
        var claimed := WalkTrack(drv, trk);
        if !claimed {
          return 0;
        }
      }
      off := At(drv).offs[l];
    }

    /** A cold track: one table read, then one header read per sector. */
    method WalkTrack(drv: bool, trk: nat) returns (claimed: bool)
      requires Shape() && At(drv).spt <= CACHE_SPT
      modifies this, ram
      ensures Shape() && ram[WINDOW_START..] == old(ram[WINDOW_START..]) && At(!drv) == old(At(!drv))
      ensures var looked, d := Looked(old(At(drv)).img, old(At(drv)).spt, trk, old(left)), old(At(drv));
        claimed == looked.1 && left == looked.2 && At(drv) == d.(trk := if claimed then trk else -1, offs := looked.0)
    {
      hide Walk, LongAt;
      var d := At(drv);
      Put(drv, d.(trk := -1, offs := NoOffsets()));
      var ok := Fetch(drv, TRACK_TABLE + trk * 4, 4, 0);
      if !ok {
        return false;
      }
      ghost var at := TRACK_TABLE + trk * 4;
      assert LongAt(ram[..], 0) == LongAt(d.img, at) by { SameLong(ram[..], 0, d.img, at); }
      var pos := LongAt(ram[..], 0);
      if pos == 0 {
        Put(drv, d.(trk := trk, offs := NoOffsets()));
        return true;
      }
      var offs := WalkHeaders(drv, pos);
      Put(drv, d.(trk := trk, offs := offs));
      return true;
    }

    method WalkHeaders(drv: bool, start: nat) returns (offs: seq<nat>)
      requires Shape() && At(drv).spt <= CACHE_SPT
      modifies this`left, ram
      ensures ram[WINDOW_START..] == old(ram[WINDOW_START..])
      ensures (offs, left) == Walk(At(drv).img, At(drv).spt, start, 0, NoOffsets(), old(left))
    {
      hide RecordAt, SizeAt;
      var img, spt, pos: nat := At(drv).img, At(drv).spt, start;
      offs := NoOffsets();
      var i := 0;
      while i < spt
        invariant i <= spt && |offs| == CACHE_SPT && ram[WINDOW_START..] == old(ram[WINDOW_START..])
        invariant Walk(img, spt, pos, i, offs, left) == Walk(img, spt, start, 0, NoOffsets(), old(left))
      {
        var ok := Fetch(drv, pos, SECTOR_HEADER, 0);
        if !ok {
          return;
        }
        SameHeader(ram[..], img, pos);
        var rec, size := RecordAt(ram[..], 0), SizeAt(ram[..], 0);
        if 1 <= rec <= spt {
          offs := offs[rec - 1 := pos + SECTOR_HEADER];
        }
        if size == 0 || size > 4096 {
          return;
        }
        pos := pos + SECTOR_HEADER + size;
        i := i + 1;
      }
    }

    /** Where a mounted sector is staged: a wide one past the settings window. */
    function Stage(drv: bool): nat
      reads this
    {
      if At(drv).bytes > 512 then WIDE_START else 0
    }

    /** Stream a staged sector to the controller. */
    method PushSector(drv: bool, at: nat) returns (sent: seq<Byte>)
      requires Shape() && at + At(drv).bytes <= RAM_BYTES
      ensures sent == ram[at..at + At(drv).bytes]
    {
      sent := [];
      for i := 0 to At(drv).bytes
        invariant sent == ram[at..at + i]
      {
        sent := sent + [ram[at + i]];
      }
    }

    /** Drain the sector the controller queued for a write. */
    method PullFifo(drv: bool, data: seq<Byte>)
      requires Shape() && |data| == At(drv).bytes
      modifies ram
      ensures ram[Stage(drv)..Stage(drv) + |data|] == data
      ensures Window() == old(Window()) && ram[AHEAD_START..] == old(ram[AHEAD_START..])
    {
      var at := Stage(drv);
      for i := 0 to |data|
        invariant ram[at..at + i] == data[..i]
        invariant Window() == old(Window()) && ram[AHEAD_START..] == old(ram[AHEAD_START..])
      {
        ram[at + i] := data[i];
      }
    }

    method Locate(drv: bool, lba: nat) returns (off: nat)
      requires Shape()
      modifies this, ram
      ensures Shape() && At(!drv) == old(At(!drv))
      ensures Window() == old(Window()) && ram[AHEAD_START..] == old(ram[AHEAD_START..])
      ensures (off, At(drv), left) == Place(old(At(drv)), lba, old(left))
    {
      hide Resolve;
      if At(drv).d88 {
        ghost var was := ram[..];
        off := D88Offset(drv, lba);
        assert ram[..][WINDOW_START..] == was[WINDOW_START..];
        Regions(was, ram[..]);
      } else {
        off := At(drv).base + lba * At(drv).bytes;
      }
    }

    /** Answer a read request: the sector streamed, from the read-ahead if it is the
        one, and the next read ahead. */
    method ServeRead(drv: bool, lba: nat) returns (out: Option<seq<Byte>>)
      requires Shape()
      modifies this, ram
      ensures Shape() && Window() == old(Window())
      ensures (View(), out) == Read(old(View()), drv, lba, old(left))
    {
      hide Place, Ahead;
      ghost var f, d, had := View(), At(drv), left;
      var off := Locate(drv, lba);
      out := Stream(drv, lba, off);
      assert (out, left) == Streamed(d, f.buffer, lba, had);
      ReadAhead(drv, lba);
    }

    method Stream(drv: bool, lba: nat, off: nat) returns (out: Option<seq<Byte>>)
      requires Shape()
      modifies this`left, ram
      ensures Window() == old(Window()) && ram[AHEAD_START..] == old(ram[AHEAD_START..])
      ensures (out, left) == StreamedFrom(At(drv), old(ram[AHEAD_START..]), lba, off, old(left))
    {
      out := None;
      var d := At(drv);
      if d.tag == lba {
        var sent := PushSector(drv, AHEAD_START);
        assert sent == ram[AHEAD_START..][..d.bytes];
        out := Some(sent);
      } else if !d.d88 || off != 0 {
        ghost var was := ram[..];
        var ok := Fetch(drv, off, d.bytes, Stage(drv));
        Fetched(was, ram[..], Stage(drv), if ok then d.img[off..off + d.bytes] else []);
        if ok {
          var sent := PushSector(drv, Stage(drv));
          assert sent == ram[..][Stage(drv)..Stage(drv) + d.bytes];
          out := Some(sent);
        }
      }
    }

    method ReadAhead(drv: bool, lba: nat)
      requires Shape()
      modifies this, ram
      ensures Shape() && Window() == old(Window()) && At(!drv) == old(At(!drv))
      ensures (At(drv), ram[AHEAD_START..]) == Ahead(old(At(drv)), old(ram[AHEAD_START..]), lba, old(left))
    {
      hide Place;
      Put(drv, At(drv).(tag := -1));
      var next := lba + 1;
      if next * At(drv).bytes < At(drv).sectors * 512 {
        var off := Locate(drv, next);
        if off != 0 {
          ghost var was := ram[..];
          var ok := Fetch(drv, off, At(drv).bytes, AHEAD_START);
          Fetched(was, ram[..], AHEAD_START, if ok then At(drv).img[off..off + At(drv).bytes] else []);
          if ok {
            Put(drv, At(drv).(tag := next));
          }
        }
      }
    }

    /** A disk mounted, as the probes found it. */
    method Mount(drv: bool, disk: Disk)
      requires Shape() && (disk.bytes == 512 || disk.bytes == 1024)
      modifies this`a, this`b
      ensures Shape() && View() == old(View()).With(drv, Inserted(old(At(drv)), disk))
    {
      Put(drv, Inserted(At(drv), disk));
    }

    /** A disk ejected: the image is remembered, what was read ahead is not. */
    method Eject(drv: bool)
      requires Shape()
      modifies this`a, this`b
      ensures Shape() && View() == old(View()).With(drv, Ejected(old(At(drv))))
    {
      Put(drv, At(drv).(tag := -1));
    }

    /** Answer a write request: the sector drained and, if there is a place for it,
        persisted; nothing read ahead survives on that drive. */
    method ServeWrite(drv: bool, lba: nat, data: seq<Byte>)
      requires Shape() && |data| == At(drv).bytes
      modifies this, ram
      ensures Shape() && Window() == old(Window())
      ensures View() == Write(old(View()), drv, lba, data, old(left))
    {
      hide Place, Stored;
      ghost var f := View();
      var off := Locate(drv, lba);
      assert View().buffer == f.buffer;
      PullFifo(drv, data);
      if !At(drv).d88 || off != 0 {
        Persist(drv, off);
      }
      Put(drv, At(drv).(tag := -1));
    }

    /** The staged sector into a drive's file, all or nothing. */
    method Persist(drv: bool, off: nat)
      requires Shape()
      modifies this`a, this`b, this`left
      ensures Shape() && At(!drv) == old(At(!drv))
      ensures var d := old(At(drv));
        if old(left) > 0 && off + d.bytes <= |d.img|
        then At(drv) == d.(img := Stored(d.img, off, ram[Stage(drv)..Stage(drv) + d.bytes]))
        else At(drv) == d
    {
      var d := At(drv);
      if left == 0 || off + d.bytes > |d.img| {
        return;
      }
      left := left - 1;
      Put(drv, d.(img := Stored(d.img, off, ram[Stage(drv)..Stage(drv) + d.bytes])));
    }
  }

  lemma Regions(was: seq<Byte>, now: seq<Byte>)
    requires |was| == |now| == RAM_BYTES && now[WINDOW_START..] == was[WINDOW_START..]
    ensures now[WINDOW_START..WINDOW_END] == was[WINDOW_START..WINDOW_END] && now[AHEAD_START..] == was[AHEAD_START..]
  {
    assert forall w: seq<Byte> | |w| == RAM_BYTES ::
      && w[WINDOW_START..WINDOW_END] == w[WINDOW_START..][..512]
      && w[AHEAD_START..] == w[WINDOW_START..][AHEAD_START - WINDOW_START..];
  }

  /** What arrives in one region leaves the others. */
  lemma Fetched(was: seq<Byte>, now: seq<Byte>, at: nat, x: seq<Byte>)
    requires |was| == RAM_BYTES && at + |x| <= RAM_BYTES && now == was[..at] + x + was[at + |x|..]
    ensures |now| == RAM_BYTES && now[at..at + |x|] == x
    ensures at + |x| <= WINDOW_START || WINDOW_END <= at ==>
        now[WINDOW_START..WINDOW_END] == was[WINDOW_START..WINDOW_END]
    ensures at + |x| <= AHEAD_START ==> now[AHEAD_START..] == was[AHEAD_START..]
    ensures at == AHEAD_START ==> now[AHEAD_START..] == x + was[AHEAD_START..][|x|..]
  {
  }

  lemma SameLong(a: seq<Byte>, i: nat, b: seq<Byte>, j: nat)
    requires i + 4 <= |a| && j + 4 <= |b| && a[i..i + 4] == b[j..j + 4]
    ensures LongAt(a, i) == LongAt(b, j)
  {
    var s := a[i..i + 4];
    assert a[i] == s[0] && a[i + 1] == s[1] && a[i + 2] == s[2] && a[i + 3] == s[3];
  }

  lemma SameHeader(a: seq<Byte>, img: seq<Byte>, pos: nat)
    requires SECTOR_HEADER <= |a| && pos + SECTOR_HEADER <= |img| && a[..SECTOR_HEADER] == img[pos..pos + SECTOR_HEADER]
    ensures RecordAt(a, 0) == RecordAt(img, pos) && SizeAt(a, 0) == SizeAt(img, pos)
  {
    assert forall k | 0 <= k < 16 :: a[k] == a[..SECTOR_HEADER][k] && img[pos + k] == img[pos..pos + SECTOR_HEADER][k];
  }
}
