/** What the machine makes of the on-screen keyboard: its key events framed with
    typematic repeats, turned into a PC-98 keyboard's bytes, and every byte flipping a
    place of the BIOS's key matrix. */
module KeyboardWire {
  import opened KeyboardSpec

  const UNMAPPED := 0xFF
  const SHIFT_CLASS := 0x70  // places from here on do not repeat
  const SHARED := 0x1C       // the place of RETURN and the keypad's ENTER

  /** The matrix place of a scan code of the layout. */
  function Place(code: nat): nat {
    match code
    case 0x01 => 0x6A case 0x03 => 0x66 case 0x04 => 0x64 case 0x05 => 0x62 case 0x06 => 0x63 case 0x08 => 0x60
    case 0x09 => 0x6B case 0x0A => 0x69 case 0x0B => 0x67 case 0x0C => 0x65 case 0x0D => 0x0F case 0x0E => 0x0D
    case 0x0F => 0x72 case 0x10 => 0x73 case 0x12 => 0x70 case 0x13 => 0x35 case 0x14 => 0x74 case 0x15 => 0x10
    case 0x16 => 0x01 case 0x17 => 0x51 case 0x18 => 0x3F case 0x19 => 0x36 case 0x1A => 0x29 case 0x1B => 0x1E
    case 0x1C => 0x1D case 0x1D => 0x11 case 0x1E => 0x02 case 0x1F => 0x37 case 0x20 => 0x38 case 0x21 => 0x2B
    case 0x22 => 0x2A case 0x23 => 0x1F case 0x24 => 0x12 case 0x25 => 0x04 case 0x26 => 0x03 case 0x27 => 0x3E
    case 0x28 => 0x39 case 0x29 => 0x34 case 0x2A => 0x2C case 0x2B => 0x20 case 0x2C => 0x14 case 0x2D => 0x13
    case 0x2E => 0x05 case 0x2F => 0x33 case 0x30 => 0x41 case 0x31 => 0x2E case 0x32 => 0x2D case 0x33 => 0x22
    case 0x34 => 0x21 case 0x35 => 0x15 case 0x36 => 0x06 case 0x3A => 0x2F case 0x3B => 0x23 case 0x3C => 0x16
    case 0x3D => 0x07 case 0x3E => 0x08 case 0x41 => 0x30 case 0x42 => 0x24 case 0x43 => 0x17 case 0x44 => 0x18
    case 0x45 => 0x0A case 0x46 => 0x09 case 0x49 => 0x31 case 0x4A => 0x32 case 0x4B => 0x25 case 0x4C => 0x26
    case 0x4D => 0x19 case 0x4E => 0x0B case 0x52 => 0x27 case 0x54 => 0x1A case 0x55 => 0x0C case 0x58 => 0x71
    case 0x59 => 0x7D case 0x5A => 0x1C case 0x5B => 0x1B case 0x5D => 0x28 case 0x66 => 0x0E case 0x69 => 0x4A
    case 0x6B => 0x46 case 0x6C => 0x42 case 0x70 => 0x4E case 0x71 => 0x50 case 0x72 => 0x4B case 0x73 => 0x47
    case 0x74 => 0x48 case 0x75 => 0x43 case 0x76 => 0x00 case 0x79 => 0x49 case 0x7A => 0x4C case 0x7B => 0x40
    case 0x7C => 0x45 case 0x7D => 0x44 case 0x83 => 0x68
    case _ => UNMAPPED
  }

  /** The scan code of a place. */
  function CodeAt(place: nat): nat {
    match place
    case 0x00 => 0x76 case 0x01 => 0x16 case 0x02 => 0x1E case 0x03 => 0x26 case 0x04 => 0x25 case 0x05 => 0x2E
    case 0x06 => 0x36 case 0x07 => 0x3D case 0x08 => 0x3E case 0x09 => 0x46 case 0x0A => 0x45 case 0x0B => 0x4E
    case 0x0C => 0x55 case 0x0D => 0x0E case 0x0E => 0x66 case 0x0F => 0x0D case 0x10 => 0x15 case 0x11 => 0x1D
    case 0x12 => 0x24 case 0x13 => 0x2D case 0x14 => 0x2C case 0x15 => 0x35 case 0x16 => 0x3C case 0x17 => 0x43
    case 0x18 => 0x44 case 0x19 => 0x4D case 0x1A => 0x54 case 0x1B => 0x5B case 0x1C => 0x5A case 0x1D => 0x1C
    case 0x1E => 0x1B case 0x1F => 0x23 case 0x20 => 0x2B case 0x21 => 0x34 case 0x22 => 0x33 case 0x23 => 0x3B
    case 0x24 => 0x42 case 0x25 => 0x4B case 0x26 => 0x4C case 0x27 => 0x52 case 0x28 => 0x5D case 0x29 => 0x1A
    case 0x2A => 0x22 case 0x2B => 0x21 case 0x2C => 0x2A case 0x2D => 0x32 case 0x2E => 0x31 case 0x2F => 0x3A
    case 0x30 => 0x41 case 0x31 => 0x49 case 0x32 => 0x4A case 0x33 => 0x2F case 0x34 => 0x29 case 0x35 => 0x13
    case 0x36 => 0x19 case 0x37 => 0x1F case 0x38 => 0x20 case 0x39 => 0x28 case 0x3E => 0x27 case 0x3F => 0x18
    case 0x40 => 0x7B case 0x41 => 0x30 case 0x42 => 0x6C case 0x43 => 0x75 case 0x44 => 0x7D case 0x45 => 0x7C
    case 0x46 => 0x6B case 0x47 => 0x73 case 0x48 => 0x74 case 0x49 => 0x79 case 0x4A => 0x69 case 0x4B => 0x72
    case 0x4C => 0x7A case 0x4E => 0x70 case 0x50 => 0x71 case 0x51 => 0x17 case 0x60 => 0x08 case 0x62 => 0x05
    case 0x63 => 0x06 case 0x64 => 0x04 case 0x65 => 0x0C case 0x66 => 0x03 case 0x67 => 0x0B case 0x68 => 0x83
    case 0x69 => 0x0A case 0x6A => 0x01 case 0x6B => 0x09 case 0x70 => 0x12 case 0x71 => 0x58 case 0x72 => 0x0F
    case 0x73 => 0x10 case 0x74 => 0x14 case 0x7D => 0x59
    case _ => 0
  }

  /** Places are the scan codes' own. */
  lemma PlaceIsOwn(code: nat)
    requires Place(code) != UNMAPPED
    ensures Place(code) < 0x80 && CodeAt(Place(code)) == code
  {
  }

  lemma LayoutHasPlaces(code: nat)
    requires KeyOf(code) < KEYS
    ensures Place(code) != UNMAPPED
  {
  }

  lemma PlacesAreOwn(key: nat)
    requires key < KEYS
    ensures Place(Code(key)) < 0x80 && CodeAt(Place(Code(key))) == Code(key)
  {
    hide Code, KeyOf, Place, CodeAt;
    CodesAreOwn(key);
    LayoutHasPlaces(Code(key));
    PlaceIsOwn(Code(key));
  }

  lemma SharedPlace()
    ensures Code(RETURN) == Code(ENTER) == 0x5A && KeyOf(0x5A) == RETURN
    ensures Place(0x5A) == SHARED && CodeAt(SHARED) == 0x5A
  {
  }

  // ---- the line -----------------------------------------------------------

  /** A byte on the keyboard's wire. */
  datatype Byte = Byte(make: bool, place: nat)

  /** The key that repeats (-1 for none), the places the guest was told are down, and
      the bytes it was sent. */
  datatype Line = Line(rep: int, held: set<nat>, wire: seq<Byte>)

  /** The output stage: a repeat becomes a break and a make, or nothing for a shift
      key; a break of a place not held is dropped. */
  function Told(l: Line, make: bool, place: nat): Line {
    if make && place in l.held then
      if place < SHIFT_CLASS then l.(wire := l.wire + [Byte(false, place), Byte(true, place)]) else l
    else if make then l.(held := l.held + {place}, wire := l.wire + [Byte(true, place)])
    else if place in l.held then l.(held := l.held - {place}, wire := l.wire + [Byte(false, place)])
    else l
  }

  /** Locks, shifts, control and the two sequences are not repeated. */
  predicate Repeats(code: nat) {
    code !in {0x58, 0x77, 0x7E, 0x12, 0x59, 0x14, 0x11, 0xE1, 0xE2}
  }

  /** A make arms the repeat or calls it off; only its own break ends it. */
  function Armed(l: Line, make: bool, code: nat): Line {
    if make then l.(rep := if Repeats(code) then code else -1)
    else if l.rep == code then l.(rep := -1)
    else l
  }

  /** An event of the on-screen keyboard on the line, or the repeat timer running out. */
  datatype Signal = Key(ev: Event) | Typematic

  function Carried(l: Line, s: Signal): Line {
    match s
    case Key(ev) =>
      var code := Code(ev.key);
      var armed := Armed(l, ev.make, code);
      if Place(code) == UNMAPPED then armed else Told(armed, ev.make, Place(code))
    case Typematic => if l.rep < 0 || Place(l.rep) == UNMAPPED then l else Told(l, true, Place(l.rep))
  }

  function Line0(): Line { Line(-1, {}, []) }

  function CarriedAll(signals: seq<Signal>): Line {
    if signals == [] then Line0() else Carried(CarriedAll(signals[..|signals| - 1]), signals[|signals| - 1])
  }

  /** The BIOS flips a byte's place on every make and every break. */
  function Matrix(wire: seq<Byte>): set<nat> {
    if wire == [] then {}
    else
      var n, p := |wire| - 1, wire[|wire| - 1].place;
      if p in Matrix(wire[..n]) then Matrix(wire[..n]) - {p} else Matrix(wire[..n]) + {p}
  }

  /** Makes and breaks of every place alternate on the wire. */
  predicate InBalance(wire: seq<Byte>) {
    wire != [] ==>
      var n, b := |wire| - 1, wire[|wire| - 1];
      InBalance(wire[..n]) && (b.make <==> b.place !in Matrix(wire[..n]))
  }

  lemma Flips(wire: seq<Byte>, b: Byte)
    ensures Matrix(wire + [b]) == if b.place in Matrix(wire) then Matrix(wire) - {b.place} else Matrix(wire) + {b.place}
    ensures InBalance(wire + [b]) <==> InBalance(wire) && (b.make <==> b.place !in Matrix(wire))
  {
    assert (wire + [b])[..|wire|] == wire;
  }

  /** The key events among the signals. */
  function KeysOf(signals: seq<Signal>): seq<Event> {
    if signals == [] then []
    else
      var sent, last := KeysOf(signals[..|signals| - 1]), signals[|signals| - 1];
      if last.Key? then sent + [last.ev] else sent
  }

  /** Whether the last event at a place was a make. */
  predicate LastMade(sent: seq<Event>, place: nat) {
    sent != [] &&
      var ev := sent[|sent| - 1];
      if Place(Code(ev.key)) == place then ev.make else LastMade(sent[..|sent| - 1], place)
  }

  predicate OfLayout(signals: seq<Signal>) {
    forall i | 0 <= i < |signals| :: signals[i].Key? ==> signals[i].ev.key < KEYS
  }

  lemma ToldKeeps(l: Line, make: bool, place: nat)
    requires InBalance(l.wire) && Matrix(l.wire) == l.held
    ensures var t := Told(l, make, place);
      && InBalance(t.wire) && Matrix(t.wire) == t.held && t.rep == l.rep
      && t.held == if make then l.held + {place} else l.held - {place}
  {
    hide Matrix, InBalance;
    Flips(l.wire, Byte(make, place));
    Flips(l.wire, Byte(false, place));
    Flips(l.wire + [Byte(false, place)], Byte(true, place));
    assert l.wire + [Byte(false, place)] + [Byte(true, place)] == l.wire + [Byte(false, place), Byte(true, place)];
  }

  lemma NothingOnTheWire()
    ensures InBalance([]) && Matrix([]) == {}
  {
  }

  /** Whatever the events and whenever the repeats: the wire never goes out of balance,
      so the flips of the matrix leave down exactly the places told, and those are the
      places whose last event was a make. */
  lemma {:induction false} LineInBalance(signals: seq<Signal>)
    requires OfLayout(signals)
    ensures var l := CarriedAll(signals);
      && InBalance(l.wire) && Matrix(l.wire) == l.held
      && (forall place: nat :: place in l.held <==> LastMade(KeysOf(signals), place))
      && (l.rep >= 0 ==> Place(l.rep) in l.held && CodeAt(Place(l.rep)) == l.rep && Place(l.rep) < 0x80)
    decreases |signals|
  {
    hide Matrix, InBalance, Told, Code, Place, CodeAt, Repeats;
    NothingOnTheWire();
    if signals != [] {
      var n := |signals| - 1;
      LineInBalance(signals[..n]);
      var was, sent, l := CarriedAll(signals[..n]), KeysOf(signals[..n]), CarriedAll(signals);
      match signals[n]
      case Key(ev) =>
        PlacesAreOwn(ev.key);
        var code := Code(ev.key);
        var armed := Armed(was, ev.make, code);
        assert l == Told(armed, ev.make, Place(code));
        ToldKeeps(armed, ev.make, Place(code));
        assert KeysOf(signals) == sent + [ev] && (sent + [ev])[..|sent|] == sent;
        forall place: nat ensures place in l.held <==> LastMade(KeysOf(signals), place) { }
      case Typematic =>
        if was.rep >= 0 { ToldKeeps(was, true, Place(was.rep)); }
    }
  }

  // ---- the keyboard and the machine ---------------------------------------

  /** The key sharing a key's code: itself but for RETURN and ENTER. */
  function Twin(key: nat): nat { if key == RETURN then ENTER else if key == ENTER then RETURN else key }

  /** The last event of RETURN or ENTER was the release of one while the other stayed
      down. */
  predicate OneLetGo(sent: seq<Event>) {
    sent != [] &&
      var n, ev := |sent| - 1, sent[|sent| - 1];
      if Twin(ev.key) != ev.key then !ev.make && Twin(ev.key) in Down(sent[..n]) else OneLetGo(sent[..n])
  }

  /** Which key a place is the place of. */
  lemma PlaceIs(key: nat, k: nat)
    requires key < KEYS && k < KEYS
    ensures Place(Code(key)) == Place(Code(k)) <==> key == k || key == Twin(k)
  {
    hide Code, KeyOf, Place, CodeAt;
    CodesAreOwn(key);
    CodesAreOwn(k);
    PlacesAreOwn(key);
    PlacesAreOwn(k);
    SharedPlace();
  }

  /** A key of its own place is down exactly when its last event was a make. */
  lemma {:induction false} LastMadeIsDown(sent: seq<Event>, key: nat)
    requires Balanced(sent) && key < KEYS && Twin(key) == key
    ensures LastMade(sent, Place(Code(key))) <==> key in Down(sent)
    decreases |sent|
  {
    hide Code, Place;
    if sent != [] {
      LastMadeIsDown(sent[..|sent| - 1], key);
      PlaceIs(sent[|sent| - 1].key, key);
    }
  }

  /** The shared place was last made exactly when one of the two is down, unless one
      was let go under the other. */
  lemma {:induction false} SharedLastMade(sent: seq<Event>)
    requires Balanced(sent)
    ensures LastMade(sent, SHARED) <==> (RETURN in Down(sent) || ENTER in Down(sent)) && !OneLetGo(sent)
    ensures OneLetGo(sent) ==> (RETURN in Down(sent)) != (ENTER in Down(sent))
    decreases |sent|
  {
    hide Code, Place;
    SharedPlace();
    if sent != [] {
      SharedLastMade(sent[..|sent| - 1]);
      PlaceIs(sent[|sent| - 1].key, RETURN);
    }
  }

  /** The machine reads pressed exactly the keys down, a shared place when either is. */
  predicate Agrees(wire: seq<Byte>, sent: seq<Event>) {
    forall k | 0 <= k < KEYS :: Place(Code(k)) in Matrix(wire) <==> k in Down(sent) || Twin(k) in Down(sent)
  }

  /** The machine agrees with the keyboard, over any events and any repeats, if and only
      if RETURN and ENTER were not last parted by letting go of one of them. */
  lemma MatrixAgrees(signals: seq<Signal>)
    requires OfLayout(signals) && Balanced(KeysOf(signals))
    ensures Agrees(CarriedAll(signals).wire, KeysOf(signals)) <==> !OneLetGo(KeysOf(signals))
  {
    hide Code, Place, KeyOf, Matrix, Down, Balanced, LastMade, OneLetGo, CarriedAll, InBalance;
    var sent, wire := KeysOf(signals), CarriedAll(signals).wire;
    LineInBalance(signals);
    SharedPlace();
    SharedLastMade(sent);
    forall k | 0 <= k < KEYS && Twin(k) == k
      ensures Place(Code(k)) in Matrix(wire) <==> k in Down(sent) || Twin(k) in Down(sent)
    {
      LastMadeIsDown(sent, k);
    }
    assert Place(Code(RETURN)) in Matrix(wire) <==> LastMade(sent, SHARED);
  }

  /** One signal more: whether the machine agrees afterwards. A repeat changes nothing,
      an event of a key of its own place neither loses agreement nor restores it, and an
      event of RETURN or ENTER leaves the machine wrong exactly when it lets that one go
      while the other is down, right otherwise. */
  lemma LosesAgreement(signals: seq<Signal>, s: Signal)
    requires OfLayout(signals + [s]) && Balanced(KeysOf(signals + [s]))
    ensures Agrees(CarriedAll(signals + [s]).wire, KeysOf(signals + [s])) <==>
      if s.Key? && Twin(s.ev.key) != s.ev.key then s.ev.make || Twin(s.ev.key) !in Down(KeysOf(signals))
      else Agrees(CarriedAll(signals).wire, KeysOf(signals))
  {
    hide Agrees, Down, CarriedAll;
    var all, sent := signals + [s], KeysOf(signals);
    assert all[..|signals|] == signals;
    assert OfLayout(signals) by {
      forall i | 0 <= i < |signals| && signals[i].Key? ensures signals[i].ev.key < KEYS { assert all[i] == signals[i]; }
    }
    if s.Key? { assert KeysOf(all) == sent + [s.ev] && (sent + [s.ev])[..|sent|] == sent; }
    MatrixAgrees(signals);
    MatrixAgrees(all);
  }

  /** Every run of the on-screen keyboard, whatever repeats go with it: a key of its own
      reads pressed exactly while latched or held. */
  lemma RunsReachTheMachine(inputs: seq<Input>, signals: seq<Signal>, key: nat)
    requires forall j | 0 <= j < |inputs| :: inputs[j].nav < KEYS
    requires Kept(POWER_UP) && KeysOf(signals) == Ran(POWER_UP, inputs).sent && OfLayout(signals)
    requires key < KEYS && Twin(key) == key
    ensures var r := Ran(POWER_UP, inputs);
      Place(Code(key)) in Matrix(CarriedAll(signals).wire) <==> r.latched[key] || r.held == key
  {
    hide Code, Place, KeyOf, Matrix, Down, Balanced, LastMade, CarriedAll, InBalance, Kept, Ran;
    RunsAreBalanced(inputs);
    LineInBalance(signals);
    LastMadeIsDown(KeysOf(signals), key);
  }

  // ---- a run that parts them ----------------------------------------------

  const NONE := Pad(false, false, false, false, false, false, false, false)

  /** The cursor on a key with nothing pressed, and X pressed on it. */
  function Over(key: nat): Input { Input(false, NONE, key, false, Stay, NONE) }

  function Cross(key: nat): Input { Over(key).(pad := NONE.(x := true)) }

  /** The keyboard opened, RETURN latched, ENTER latched, RETURN unlatched. */
  function Parting(): seq<Input> {
    [Over(0).(pad := NONE.(l1 := true)), Over(0), Cross(RETURN), Over(RETURN), Cross(ENTER), Over(ENTER), Cross(RETURN)]
  }

  const OPEN := POWER_UP.(mode := Typing)

  /** X on a key that does not toggle, with nothing held before. */
  lemma CrossLatches(s: Keyboard, key: nat)
    requires |s.latched| == KEYS && s.mode == Typing && s.target < 0 && s.held < 0 && s.was == NONE && !s.wasOpen
    requires key < KEYS && !Toggles(key)
    ensures var on := !s.latched[key];
      Ticked(s, Cross(key))
          == s.(was := NONE.(x := true), cur := key, latched := s.latched[key := on], sent := s.sent + [Event(on, key)])
  {
    hide Code;
  }

  /** Nothing pressed moves the cursor and no more. */
  lemma OverMoves(s: Keyboard, key: nat)
    requires |s.latched| == KEYS && s.mode == Typing && s.target < 0 && s.held < 0 && !s.wasOpen && key < KEYS
    ensures Ticked(s, Over(key)) == s.(was := NONE, cur := key)
  {
    hide Code;
  }

  lemma RanNext(s: Keyboard, i: Input, rest: seq<Input>)
    requires Kept(s) && i.nav < KEYS && forall j | 0 <= j < |rest| :: rest[j].nav < KEYS
    ensures Kept(Ticked(s, i)) && Ran(s, [i] + rest) == Ran(Ticked(s, i), rest)
  {
    hide Kept, Ticked;
    TickKeeps(s, i);
    assert ([i] + rest)[1..] == rest;
  }

  lemma OpenRuns()
    requires Kept(POWER_UP)
    ensures Ticked(POWER_UP, Over(0).(pad := NONE.(l1 := true))) == OPEN.(was := NONE.(l1 := true))
    ensures Ticked(OPEN.(was := NONE.(l1 := true)), Over(0)) == OPEN
  {
    hide Code;
    OverMoves(OPEN.(was := NONE.(l1 := true)), 0);
  }

  /** What the run leaves. */
  function Parted(): Keyboard {
    OPEN.(was := NONE.(x := true), cur := RETURN, latched := seq(KEYS, _ => false)[ENTER := true],
          sent := [Event(true, RETURN), Event(true, ENTER), Event(false, RETURN)])
  }

  /** X on a key and everything let go. */
  function Crossed(s: Keyboard, key: nat): Keyboard
    requires |s.latched| == KEYS && key < KEYS
  {
    s.(cur := key, latched := s.latched[key := !s.latched[key]], sent := s.sent + [Event(!s.latched[key], key)])
  }

  lemma CrossRuns(s: Keyboard, key: nat, rest: seq<Input>)
    requires Kept(s) && s.mode == Typing && s.target < 0 && s.held < 0 && s.was == NONE && !s.wasOpen
    requires key < KEYS && !Toggles(key) && forall j | 0 <= j < |rest| :: rest[j].nav < KEYS
    ensures Kept(Crossed(s, key)) && Ran(s, [Cross(key), Over(key)] + rest) == Ran(Crossed(s, key), rest)
  {
    hide Ran, Ticked, Code;
    var inputs := [Cross(key), Over(key)] + rest;
    assert [Cross(key)] + ([Over(key)] + rest) == inputs;
    CrossLatches(s, key);
    RanNext(s, Cross(key), [Over(key)] + rest);
    OverMoves(Ticked(s, Cross(key)), key);
    RanNext(Ticked(s, Cross(key)), Over(key), rest);
  }

  lemma PartingRuns()
    requires Kept(POWER_UP)
    ensures forall j | 0 <= j < |Parting()| :: Parting()[j].nav < KEYS
    ensures Ran(POWER_UP, Parting()) == Parted()
  {
    hide Kept, Ran, Ticked, Code;
    SharedPlace();
    var p := Parting();
    var first, last := POWER_UP.(mode := Typing, was := NONE.(l1 := true)), [Cross(RETURN)];
    OpenRuns();
    assert p == [p[0]] + ([Over(0)] + ([Cross(RETURN), Over(RETURN)] + ([Cross(ENTER), Over(ENTER)] + last)));
    RanNext(POWER_UP, p[0], p[1..]);
    RanNext(first, Over(0), p[2..]);
    assert [p[0]] + p[1..] == p && [Over(0)] + p[2..] == p[1..];
    CrossRuns(OPEN, RETURN, p[4..]);
    assert [Cross(RETURN), Over(RETURN)] + p[4..] == p[2..];
    var s := Crossed(OPEN, RETURN);
    CrossRuns(s, ENTER, last);
    assert [Cross(ENTER), Over(ENTER)] + last == p[4..];
    LastCross(Crossed(s, ENTER));
    assert seq(KEYS, _ => false)[RETURN := true][ENTER := true][RETURN := false]
        == seq(KEYS, _ => false)[ENTER := true];
  }

  lemma LastCross(s: Keyboard)
    requires Kept(s) && s.mode == Typing && s.target < 0
    requires s.held < 0 && s.was == NONE && !s.wasOpen && !Toggles(RETURN)
    ensures Ran(s, [Cross(RETURN)]) == Crossed(s, RETURN).(was := NONE.(x := true))
  {
    hide Ran, Ticked, Code;
    CrossLatches(s, RETURN);
    RanNext(s, Cross(RETURN), []);
    assert [Cross(RETURN)] + [] == [Cross(RETURN)];
    NothingMore(Ticked(s, Cross(RETURN)));
  }

  lemma NothingMore(s: Keyboard)
    requires Kept(s)
    ensures Ran(s, []) == s
  {
  }

  /** After it ENTER is still latched, and whatever repeats went with it the machine
      reads its place released. */
  lemma PartingLosesEnter(signals: seq<Signal>)
    requires Kept(POWER_UP) && OfLayout(signals)
    requires (forall j | 0 <= j < |Parting()| :: Parting()[j].nav < KEYS)
    requires KeysOf(signals) == Ran(POWER_UP, Parting()).sent
    ensures Ran(POWER_UP, Parting()).latched[ENTER] && Place(Code(ENTER)) !in Matrix(CarriedAll(signals).wire)
  {
    hide Kept, Ran, Code, Place, KeyOf, Matrix, CarriedAll, InBalance, Balanced, LastMade;
    PartingRuns();
    var sent := KeysOf(signals);
    RunsAreBalanced(Parting());
    var two := [Event(true, RETURN), Event(true, ENTER)];
    assert sent == two + [Event(false, RETURN)];
    Sends(two, Event(false, RETURN));
    Sends([Event(true, RETURN)], Event(true, ENTER));
    assert [Event(true, RETURN)] + [Event(true, ENTER)] == two;
    assert sent[..2] == two;
    SharedPlace();
    SharedLastMade(sent);
    LineInBalance(signals);
  }
}
