/** The sample store's two loaders, drum voices below and drive noises above, taking
    turns over one auto-incrementing address register. */
module SoundSpec {
  import opened DiskImage

  const VOICES := 6
  const VOICE_END := 16384
  const STORE_END := 32768
  const NOISES := 5

  /** A loaded sample: where it is, how much of it landed, and all its encoder gave. */
  datatype Sample = Sample(at: nat, len: nat, given: seq<nat>)

  /** A loader: which sample it is at, where the next byte goes, whether a stream is
      open and since where, and what its encoder has given to it. `loaded` holds the
      samples resolved. */
  datatype Loader = Loader(index: nat, base: nat, cursor: nat, open: bool, given: seq<nat>, loaded: map<nat, Sample>)

  /** The store and the two loaders. */
  datatype Sound = Sound(ram: seq<nat>, voices: Loader, noises: Loader)

  /** Bytes written through the register, up to a wall. */
  function Landed(at: nat, bytes: seq<nat>, wall: nat): (n: nat)
    requires at <= wall
    ensures n <= |bytes| && at + n <= wall
  {
    if at + |bytes| <= wall then |bytes| else wall - at
  }

  function Emitted(ram: seq<nat>, at: nat, bytes: seq<nat>, wall: nat): (r: seq<nat>)
    requires at <= wall <= |ram|
    ensures |r| == |ram|
  {
    Stored(ram, at, bytes[..Landed(at, bytes, wall)])
  }

  /** One call of a loader while it has a stream: what the pushes of this call gave,
      whether a transfer failed, whether the source ran out, and what the flushes that
      follow then gave. */
  datatype Call = Call(usable: bool, pushed: seq<nat>, failed: bool, ended: bool, flushed: seq<nat>)

  /** The stream ends on failure or at the end of the source; for the voices also
      once nothing more can land, while the noises read on and drop what they get. */
  predicate Ends(l: Loader, c: Call, part: Part) {
    c.failed || c.ended || (part.drums && l.cursor >= part.wall)
  }

  /** What a call's pushes give: nothing is read any more past the voices' wall. */
  function Pushes(l: Loader, c: Call, part: Part): seq<nat> {
    if part.drums && l.cursor >= part.wall then [] else c.pushed
  }

  /** A loader's part of the store, how many samples it has, and which it is. */
  datatype Part = Part(floor: nat, wall: nat, count: nat, drums: bool)

  const DRUMS := Part(0, VOICE_END, VOICES, true)
  const DRIVE := Part(VOICE_END, STORE_END, NOISES, false)

  /** An encoder flushed to its end has given whole 256-byte blocks. */
  predicate Whole(l: Loader, c: Call, part: Part) {
    l.index < part.count && (l.open || c.usable) && Ends(l, c, part) ==>
      |(if l.open then l.given else []) + Pushes(l, c, part) + c.flushed| % 256 == 0
  }

  function Rounded(n: nat): nat { (n + 255) / 256 * 256 }

  /** A stream begun, if none is open, and this call's pushes. */
  function Fed(l: Loader, ram: seq<nat>, c: Call, part: Part): (r: (Loader, seq<nat>))
    requires l.cursor <= part.wall <= |ram|
    ensures |r.1| == |ram| && r.0.cursor <= part.wall && r.0.index == l.index
  {
    var pushed := Pushes(l, c, part);
    (l.(base := if l.open then l.base else l.cursor,
        cursor := l.cursor + Landed(l.cursor, pushed, part.wall), open := true,
        given := (if l.open then l.given else []) + pushed),
     Emitted(ram, l.cursor, pushed, part.wall))
  }

  /** The stream's end: what the flushes give, and the sample recorded if it loaded. A
      drum voice that failed gives its place back; a drive noise never does, and the
      next starts on a fresh block. */
  function Closed(l: Loader, ram: seq<nat>, c: Call, part: Part): (r: (Loader, seq<nat>))
    requires l.cursor <= part.wall <= |ram| && l.base <= l.cursor
    ensures |r.1| == |ram|
  {
    var end := l.cursor + Landed(l.cursor, c.flushed, part.wall);
    var good := !c.failed && end > l.base;
    var next := if part.drums then (if good then end else l.base) else Rounded(end);
    (Loader(l.index + 1, next, next, false, [],
            if good then l.loaded[l.index := Sample(l.base, end - l.base, l.given + c.flushed)] else l.loaded),
     Emitted(ram, l.cursor, c.flushed, part.wall))
  }

  /** One call of a loader. */
  function Called(l: Loader, ram: seq<nat>, c: Call, part: Part): (r: (Loader, seq<nat>))
    requires l.base <= l.cursor <= part.wall <= |ram|
    ensures |r.1| == |ram|
  {
    if l.index >= part.count then (l, ram)
    else if !l.open && !c.usable then (l.(index := l.index + 1), ram)
    else
      var (fed, mid) := Fed(l, ram, c, part);
      if Ends(l, c, part) then Closed(fed, mid, c, part) else (fed, mid)
  }

  // ---- what every call keeps ------------------------------------------------

  /** A loader's samples lie in its part of the store, each where no other is, on
      block boundaries, holding just what its encoder gave, as far as it landed. */
  ghost predicate Kept(l: Loader, ram: seq<nat>, floor: nat, wall: nat) {
    && |ram| == STORE_END && floor <= l.base <= l.cursor <= wall <= STORE_END && l.base % 256 == 0
    && (!l.open ==> l.cursor == l.base)
    && (l.open ==> Holds(ram, l.base, l.cursor - l.base, l.given, wall))
    && (forall i | i in l.loaded :: i < l.index && InPart(l.loaded[i], ram, floor, l.base, wall))
    && (forall i, j | i in l.loaded && j in l.loaded && i != j :: Apart(l.loaded[i], l.loaded[j]))
  }

  /** The bytes given have landed, all of them or up to the wall. */
  predicate Holds(ram: seq<nat>, at: nat, len: nat, given: seq<nat>, wall: nat) {
    && len <= |given| && at + len <= wall <= |ram| && ram[at..at + len] == given[..len]
    && (len == |given| || at + len == wall)
  }

  predicate InPart(s: Sample, ram: seq<nat>, floor: nat, end: nat, wall: nat) {
    && floor <= s.at && s.at % 256 == 0 && 0 < s.len && s.len % 256 == 0 && s.at + s.len <= end
    && Holds(ram, s.at, s.len, s.given, wall)
  }

  predicate Apart(s: Sample, t: Sample) {
    s.at + s.len <= t.at || t.at + t.len <= s.at
  }

  /** Emitting keeps what was there, and lands what was given. */
  lemma EmitKeeps(ram: seq<nat>, base: nat, cursor: nat, given: seq<nat>, bytes: seq<nat>, wall: nat)
    requires base <= cursor <= wall <= |ram| && Holds(ram, base, cursor - base, given, wall)
    ensures var now, at := Emitted(ram, cursor, bytes, wall), cursor + Landed(cursor, bytes, wall);
      && Holds(now, base, at - base, given + bytes, wall)
      && now[..base] == ram[..base] && now[wall..] == ram[wall..]
  {
    var n := Landed(cursor, bytes, wall);
    var now := Emitted(ram, cursor, bytes, wall);
    if cursor - base == |given| {
      assert now[base..cursor + n] == ram[base..cursor] + bytes[..n];
      assert (given + bytes)[..|given| + n] == given + bytes[..n];
    } else {
      assert n == 0 && now == ram;
      assert (given + bytes)[..cursor - base] == given[..cursor - base];
    }
  }

  lemma SampleStays(s: Sample, ram: seq<nat>, now: seq<nat>, floor: nat, end: nat, wall: nat, later: nat)
    requires InPart(s, ram, floor, end, wall) && |now| == |ram|
    requires end <= |ram| && now[..end] == ram[..end] && end <= later
    ensures InPart(s, now, floor, later, wall)
  {
    assert now[s.at..s.at + s.len] == now[..end][s.at..s.at + s.len];
    assert ram[s.at..s.at + s.len] == ram[..end][s.at..s.at + s.len];
  }

  lemma FedKeeps(l: Loader, ram: seq<nat>, c: Call, part: Part)
    requires Kept(l, ram, part.floor, part.wall)
    ensures var (fed, mid) := Fed(l, ram, c, part);
      && Kept(fed, mid, part.floor, part.wall)
      && mid[part.wall..] == ram[part.wall..] && mid[..part.floor] == ram[..part.floor]
  {
    hide Holds, Emitted, InPart, Landed, Pushes;
    var given, base := if l.open then l.given else [], if l.open then l.base else l.cursor;
    HoldsNothing(ram, base, part.wall);
    EmitKeeps(ram, base, l.cursor, given, Pushes(l, c, part), part.wall);
    SamplesStay(l, ram, Fed(l, ram, c, part).1, part, base, base);
  }

  lemma ClosedKeeps(l: Loader, ram: seq<nat>, c: Call, part: Part)
    requires Kept(l, ram, part.floor, part.wall) && l.open && part.wall % 256 == 0 && |l.given + c.flushed| % 256 == 0
    ensures var (m, now) := Closed(l, ram, c, part);
      && Kept(m, now, part.floor, part.wall)
      && now[part.wall..] == ram[part.wall..] && now[..part.floor] == ram[..part.floor]
  {
    hide Holds, Emitted, InPart, Landed;
    EmitKeeps(ram, l.base, l.cursor, l.given, c.flushed, part.wall);
    var (m, now) := Closed(l, ram, c, part);
    var end := l.cursor + Landed(l.cursor, c.flushed, part.wall);
    EndAligned(now, l.base, end, l.given + c.flushed, part.floor, part.wall);
    SamplesStay(l, ram, now, part, l.base, m.base);
  }

  /** The samples already loaded lie below what is being written. */
  lemma SamplesStay(l: Loader, ram: seq<nat>, now: seq<nat>, part: Part, base: nat, later: nat)
    requires Kept(l, ram, part.floor, part.wall) && l.base <= base <= later && |now| == |ram| && base <= |ram|
    requires now[..base] == ram[..base]
    ensures part.floor <= base ==> now[..part.floor] == ram[..part.floor]
    ensures forall i | i in l.loaded ::
      InPart(l.loaded[i], now, part.floor, later, part.wall) && l.loaded[i].at + l.loaded[i].len <= base
  {
    hide Holds;
    if part.floor <= base {
      assert now[..part.floor] == now[..base][..part.floor] && ram[..part.floor] == ram[..base][..part.floor];
    }
    forall i | i in l.loaded
      ensures InPart(l.loaded[i], now, part.floor, later, part.wall) && l.loaded[i].at + l.loaded[i].len <= base
    {
      assert InPart(l.loaded[i], ram, part.floor, base, part.wall);
      SampleStays(l.loaded[i], ram, now, part.floor, base, part.wall, later);
    }
  }

  /** A call keeps its own samples, and touches nothing outside its part. */
  lemma CalledKeeps(l: Loader, ram: seq<nat>, c: Call, part: Part)
    requires Kept(l, ram, part.floor, part.wall) && part.wall % 256 == 0 && Whole(l, c, part)
    ensures var (m, now) := Called(l, ram, c, part);
      && Kept(m, now, part.floor, part.wall)
      && now[part.wall..] == ram[part.wall..] && now[..part.floor] == ram[..part.floor]
  {
    hide Holds, Emitted, InPart, Landed, Pushes, Apart;
    if l.index < part.count && (l.open || c.usable) {
      FedKeeps(l, ram, c, part);
      var (fed, mid) := Fed(l, ram, c, part);
      if Ends(l, c, part) { ClosedKeeps(fed, mid, c, part); }
    }
  }

  /** Nor does the other loader's. */
  lemma OtherStays(l: Loader, ram: seq<nat>, now: seq<nat>, part: Part)
    requires Kept(l, ram, part.floor, part.wall) && |now| == |ram|
    requires now[part.floor..part.wall] == ram[part.floor..part.wall]
    ensures Kept(l, now, part.floor, part.wall)
  {
    hide InPart, Apart, Holds;
    if l.open { HeldStays(ram, now, l.base, l.cursor - l.base, l.given, part); }
    forall i | i in l.loaded ensures InPart(l.loaded[i], now, part.floor, l.base, part.wall) {
      var s := l.loaded[i];
      assert InPart(s, ram, part.floor, l.base, part.wall);
      PartHolds(s, ram, part.floor, l.base, part.wall);
      HeldStays(ram, now, s.at, s.len, s.given, part);
      PartHolds(s, now, part.floor, l.base, part.wall);
    }
  }

  lemma PartHolds(s: Sample, ram: seq<nat>, floor: nat, end: nat, wall: nat)
    ensures InPart(s, ram, floor, end, wall) <==>
      && floor <= s.at && s.at % 256 == 0 && 0 < s.len && s.len % 256 == 0 && s.at + s.len <= end
      && Holds(ram, s.at, s.len, s.given, wall)
  {
    hide Holds;
  }

  lemma HeldStays(ram: seq<nat>, now: seq<nat>, at: nat, len: nat, given: seq<nat>, part: Part)
    requires Holds(ram, at, len, given, part.wall) && part.floor <= at && |now| == |ram|
    requires now[part.floor..part.wall] == ram[part.floor..part.wall]
    ensures Holds(now, at, len, given, part.wall)
  {
    forall j | part.floor <= j < part.wall ensures now[j] == ram[j] {
      assert now[part.floor..part.wall][j - part.floor] == ram[part.floor..part.wall][j - part.floor];
    }
  }

  // ---- what a stream leaves -------------------------------------------------

  /** A stream that ends, because its source did, a transfer failed or, for a drum, it
      met the wall, is recorded exactly when nothing failed and a byte of it landed: with
      all that it gave, from the block it began on, as far as the wall let it. The next
      starts on the block after it; a failed drum voice leaves its own place for it. */
  lemma StreamRecorded(l: Loader, ram: seq<nat>, c: Call, part: Part)
    requires Kept(l, ram, part.floor, part.wall) && part.wall % 256 == 0 && Whole(l, c, part)
    requires l.index < part.count && (l.open || c.usable)
    requires c.failed || c.ended || (part.drums && l.cursor == part.wall)
    ensures var read := if part.drums && l.cursor == part.wall then [] else c.pushed;
      var all := (if l.open then l.given else []) + read + c.flushed;
      var len := if l.base + |all| <= part.wall then |all| else part.wall - l.base;
      var (m, now) := Called(l, ram, c, part);
      && m.index == l.index + 1 && !m.open && m.cursor == m.base
      && (m.loaded == if !c.failed && len > 0 then l.loaded[l.index := Sample(l.base, len, all)] else l.loaded)
      && m.base == (if part.drums && c.failed then l.base else l.base + len)
      && now[l.base..l.base + len] == all[..len]
  {
    hide Kept, Closed, Fed, Ends, Pushes;
    KeptOpen(l, ram, part);
    FedKeeps(l, ram, c, part);
    PushesIs(l, c, part);
    FedOpen(l, ram, c, part);
    EndsIs(l, c, part);
    var (fed, mid) := Fed(l, ram, c, part);
    KeptOpen(fed, mid, part);
    ClosedRecords(fed, mid, c, part);
  }

  lemma FedOpen(l: Loader, ram: seq<nat>, c: Call, part: Part)
    requires Kept(l, ram, part.floor, part.wall)
    ensures l.cursor <= part.wall <= |ram|
    ensures var fed := Fed(l, ram, c, part).0;
      && fed.open && fed.index == l.index && fed.base == l.base && fed.loaded == l.loaded
      && fed.given == (if l.open then l.given else []) + Pushes(l, c, part)
  {
    hide Emitted, Landed, Pushes;
  }

  lemma EndsIs(l: Loader, c: Call, part: Part)
    requires l.cursor <= part.wall
    ensures Ends(l, c, part) <==> c.failed || c.ended || (part.drums && l.cursor == part.wall)
  {
  }

  lemma ClosedRecords(l: Loader, ram: seq<nat>, c: Call, part: Part)
    requires Kept(l, ram, part.floor, part.wall) && part.wall % 256 == 0
    requires l.open && l.base <= l.cursor <= part.wall <= |ram| && |l.given + c.flushed| % 256 == 0
    ensures var all := l.given + c.flushed;
      var len := if l.base + |all| <= part.wall then |all| else part.wall - l.base;
      var (m, now) := Closed(l, ram, c, part);
      && m.index == l.index + 1 && !m.open && m.cursor == m.base
      && (m.loaded == if !c.failed && len > 0 then l.loaded[l.index := Sample(l.base, len, all)] else l.loaded)
      && m.base == (if part.drums && c.failed then l.base else l.base + len)
      && now[l.base..l.base + len] == all[..len]
  {
    hide Kept, Emitted, Landed, Holds, Rounded;
    KeptOpen(l, ram, part);
    EmitKeeps(ram, l.base, l.cursor, l.given, c.flushed, part.wall);
    var end := l.cursor + Landed(l.cursor, c.flushed, part.wall);
    HeldLength(Closed(l, ram, c, part).1, l.base, end - l.base, l.given + c.flushed, part.wall);
    AlignedLength(l.base, |l.given + c.flushed|, part.wall);
  }

  lemma KeptOpen(l: Loader, ram: seq<nat>, part: Part)
    requires Kept(l, ram, part.floor, part.wall)
    ensures |ram| == STORE_END && l.base <= l.cursor <= part.wall <= |ram| && l.base % 256 == 0
    ensures !l.open ==> l.cursor == l.base
    ensures l.open ==> Holds(ram, l.base, l.cursor - l.base, l.given, part.wall)
  {
  }

  lemma HeldLength(ram: seq<nat>, at: nat, len: nat, given: seq<nat>, wall: nat)
    requires Holds(ram, at, len, given, wall)
    ensures len == (if at + |given| <= wall then |given| else wall - at) && ram[at..at + len] == given[..len]
  {
  }

  lemma PushesIs(l: Loader, c: Call, part: Part)
    requires l.cursor <= part.wall
    ensures Pushes(l, c, part) == if part.drums && l.cursor == part.wall then [] else c.pushed
  {
  }

  lemma AlignedLength(base: nat, n: nat, wall: nat)
    requires base % 256 == 0 && n % 256 == 0 && wall % 256 == 0 && base <= wall
    ensures var end := base + if base + n <= wall then n else wall - base; Rounded(end) == end
  {
  }

  // ---- taking turns -----------------------------------------------------------

  datatype Turn = Turn(drums: bool, call: Call)

  function Taken(s: Sound, t: Turn): Sound
    requires Sane(s)
  {
    if t.drums then var (l, ram) := Called(s.voices, s.ram, t.call, DRUMS); s.(voices := l, ram := ram)
    else var (l, ram) := Called(s.noises, s.ram, t.call, DRIVE); s.(noises := l, ram := ram)
  }

  predicate Sane(s: Sound) {
    && |s.ram| == STORE_END
    && s.voices.base <= s.voices.cursor <= VOICE_END && s.noises.base <= s.noises.cursor <= STORE_END
  }

  predicate Proper(s: Sound, t: Turn) {
    if t.drums then Whole(s.voices, t.call, DRUMS) else Whole(s.noises, t.call, DRIVE)
  }

  ghost predicate BothKept(s: Sound) {
    Sane(s) && Kept(s.voices, s.ram, 0, VOICE_END) && Kept(s.noises, s.ram, VOICE_END, STORE_END)
  }

  /** Whichever loader is called, both keep their samples. */
  lemma TurnKeeps(s: Sound, t: Turn)
    requires BothKept(s) && Proper(s, t)
    ensures BothKept(Taken(s, t)) && Sane(Taken(s, t))
  {
    hide Called, Kept, Whole;
    var u := Taken(s, t);
    if t.drums {
      CalledKeeps(s.voices, s.ram, t.call, DRUMS);
      assert u.ram[VOICE_END..] == s.ram[VOICE_END..];
      assert u.ram[VOICE_END..STORE_END] == u.ram[VOICE_END..] && s.ram[VOICE_END..STORE_END] == s.ram[VOICE_END..];
      OtherStays(s.noises, s.ram, u.ram, DRIVE);
    } else {
      CalledKeeps(s.noises, s.ram, t.call, DRIVE);
      assert u.ram[0..VOICE_END] == u.ram[..VOICE_END] && s.ram[0..VOICE_END] == s.ram[..VOICE_END];
      OtherStays(s.voices, s.ram, u.ram, DRUMS);
    }
    KeptBounds(u.voices, u.ram, 0, VOICE_END);
    KeptBounds(u.noises, u.ram, VOICE_END, STORE_END);
  }

  lemma KeptBounds(l: Loader, ram: seq<nat>, floor: nat, wall: nat)
    ensures Kept(l, ram, floor, wall) ==> |ram| == STORE_END && floor <= l.base <= l.cursor <= wall
  {
  }

  /** The store before anything is loaded. */
  function Fresh(ram: seq<nat>): Sound {
    Sound(ram, Loader(0, 0, 0, false, [], map[]), Loader(0, VOICE_END, VOICE_END, false, [], map[]))
  }

  ghost predicate ProperRun(s: Sound, ts: seq<Turn>)
    requires BothKept(s)
    decreases |ts|
  {
    ts != [] ==> Proper(s, ts[0]) && (TurnKeeps(s, ts[0]); ProperRun(Taken(s, ts[0]), ts[1..]))
  }

  ghost function After(s: Sound, ts: seq<Turn>): (u: Sound)
    requires BothKept(s) && ProperRun(s, ts)
    ensures BothKept(u)
    decreases |ts|
  {
    if ts == [] then s else TurnKeeps(s, ts[0]); After(Taken(s, ts[0]), ts[1..])
  }

  /** The samples of both loaders, by kind and number. */
  function SampleOf(s: Sound, drums: bool, i: nat): Sample
    requires i in (if drums then s.voices else s.noises).loaded
  {
    (if drums then s.voices else s.noises).loaded[i]
  }

  predicate HasSample(s: Sound, drums: bool, i: nat) {
    i in (if drums then s.voices else s.noises).loaded
  }

  /** In every interleaving of the two loaders each loaded sample starts on a block,
      fills whole blocks of its own half of the store, holds exactly a prefix of what
      its encoder gave, all of it unless the half is full, and overlaps no other. */
  lemma SamplesAreApart(ram: seq<nat>, ts: seq<Turn>, d: bool, i: nat, e: bool, j: nat)
    requires |ram| == STORE_END && BothKept(Fresh(ram)) && ProperRun(Fresh(ram), ts)
    requires HasSample(After(Fresh(ram), ts), d, i) && HasSample(After(Fresh(ram), ts), e, j)
    ensures var u, s := After(Fresh(ram), ts), SampleOf(After(Fresh(ram), ts), d, i);
      && s.at % 256 == 0 && s.len % 256 == 0 && 0 < s.len <= |s.given| && s.at + s.len <= STORE_END
      && (if d then s.at + s.len <= VOICE_END else VOICE_END <= s.at)
      && u.ram[s.at..s.at + s.len] == s.given[..s.len]
      && (s.len == |s.given| || s.at + s.len == if d then VOICE_END else STORE_END)
      && (d != e || i != j ==> Apart(s, SampleOf(u, e, j)))
  {
    var u := After(Fresh(ram), ts);
    var s, t := SampleOf(u, d, i), SampleOf(u, e, j);
    var p, q := if d then DRUMS else DRIVE, if e then DRUMS else DRIVE;
    assert InPart(s, u.ram, p.floor, (if d then u.voices else u.noises).base, p.wall);
    assert InPart(t, u.ram, q.floor, (if e then u.voices else u.noises).base, q.wall);
  }

  lemma FreshIsKept(ram: seq<nat>)
    requires |ram| == STORE_END
    ensures BothKept(Fresh(ram))
  {
  }

  lemma HoldsNothing(ram: seq<nat>, at: nat, wall: nat)
    requires at <= wall <= |ram|
    ensures Holds(ram, at, 0, [], wall)
  {
  }

  /** A stream of whole blocks ends on a block boundary, cut short or not. */
  lemma EndAligned(ram: seq<nat>, base: nat, end: nat, given: seq<nat>, floor: nat, wall: nat)
    requires floor <= base <= end && base % 256 == 0 && wall % 256 == 0 && |given| % 256 == 0
    requires Holds(ram, base, end - base, given, wall)
    ensures (end - base) % 256 == 0 && Rounded(end) == end
    ensures end > base ==> InPart(Sample(base, end - base, given), ram, floor, end, wall)
  {
  }
}
