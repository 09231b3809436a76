/** The on-screen keyboard's make and break protocol. */
module KeyboardSpec {

  const KEYS := 94
  const RETURN := 37  // the main RETURN and the keypad's ENTER share a code
  const ENTER := 41

  /** The scan code of a key of the layout. */
  function Code(key: nat): nat {
    if key < 48 then
      match key
      case 0 => 0x05 case 1 => 0x06 case 2 => 0x76 case 3 => 0x16 case 4 => 0x1E case 5 => 0x26 case 6 => 0x25
      case 7 => 0x2E case 8 => 0x36 case 9 => 0x3D case 10 => 0x3E case 11 => 0x46 case 12 => 0x45
      case 13 => 0x4E case 14 => 0x55 case 15 => 0x0E case 16 => 0x66 case 17 => 0x08 case 18 => 0x7C
      case 19 => 0x30 case 20 => 0x79 case 21 => 0x7B case 22 => 0x04 case 23 => 0x0C case 24 => 0x0D
      case 25 => 0x15 case 26 => 0x1D case 27 => 0x24 case 28 => 0x2D case 29 => 0x2C case 30 => 0x35
      case 31 => 0x3C case 32 => 0x43 case 33 => 0x44 case 34 => 0x4D case 35 => 0x54 case 36 => 0x5B
      case 37 => 0x5A case 38 => 0x6C case 39 => 0x75 case 40 => 0x7D case 41 => 0x5A case 42 => 0x03
      case 43 => 0x0B case 44 => 0x14 case 45 => 0x58 case 46 => 0x1C
      case _ => 0x1B
    else
      match key
      case 48 => 0x23 case 49 => 0x2B case 50 => 0x34 case 51 => 0x33 case 52 => 0x3B case 53 => 0x42
      case 54 => 0x4B case 55 => 0x4C case 56 => 0x52 case 57 => 0x5D case 58 => 0x6B case 59 => 0x73
      case 60 => 0x74 case 61 => 0x83 case 62 => 0x0A case 63 => 0x12 case 64 => 0x1A case 65 => 0x22
      case 66 => 0x21 case 67 => 0x2A case 68 => 0x32 case 69 => 0x31 case 70 => 0x3A case 71 => 0x41
      case 72 => 0x49 case 73 => 0x4A case 74 => 0x2F case 75 => 0x59 case 76 => 0x69 case 77 => 0x72
      case 78 => 0x7A case 79 => 0x01 case 80 => 0x09 case 81 => 0x0F case 82 => 0x10 case 83 => 0x17
      case 84 => 0x29 case 85 => 0x13 case 86 => 0x18 case 87 => 0x19 case 88 => 0x1F case 89 => 0x27
      case 90 => 0x20 case 91 => 0x28 case 92 => 0x70
      case _ => 0x71
  }

  /** The key of a scan code: RETURN for the shared one. */
  function KeyOf(code: nat): nat {
    match code
    case 0x05 => 0 case 0x06 => 1 case 0x76 => 2 case 0x16 => 3 case 0x1E => 4 case 0x26 => 5
    case 0x25 => 6 case 0x2E => 7 case 0x36 => 8 case 0x3D => 9 case 0x3E => 10 case 0x46 => 11
    case 0x45 => 12 case 0x4E => 13 case 0x55 => 14 case 0x0E => 15 case 0x66 => 16 case 0x08 => 17
    case 0x7C => 18 case 0x30 => 19 case 0x79 => 20 case 0x7B => 21 case 0x04 => 22 case 0x0C => 23
    case 0x0D => 24 case 0x15 => 25 case 0x1D => 26 case 0x24 => 27 case 0x2D => 28 case 0x2C => 29
    case 0x35 => 30 case 0x3C => 31 case 0x43 => 32 case 0x44 => 33 case 0x4D => 34 case 0x54 => 35
    case 0x5B => 36 case 0x5A => 37 case 0x6C => 38 case 0x75 => 39 case 0x7D => 40 case 0x03 => 42
    case 0x0B => 43 case 0x14 => 44 case 0x58 => 45 case 0x1C => 46 case 0x1B => 47 case 0x23 => 48
    case 0x2B => 49 case 0x34 => 50 case 0x33 => 51 case 0x3B => 52 case 0x42 => 53 case 0x4B => 54
    case 0x4C => 55 case 0x52 => 56 case 0x5D => 57 case 0x6B => 58 case 0x73 => 59 case 0x74 => 60
    case 0x83 => 61 case 0x0A => 62 case 0x12 => 63 case 0x1A => 64 case 0x22 => 65 case 0x21 => 66
    case 0x2A => 67 case 0x32 => 68 case 0x31 => 69 case 0x3A => 70 case 0x41 => 71 case 0x49 => 72
    case 0x4A => 73 case 0x2F => 74 case 0x59 => 75 case 0x69 => 76 case 0x72 => 77 case 0x7A => 78
    case 0x01 => 79 case 0x09 => 80 case 0x0F => 81 case 0x10 => 82 case 0x17 => 83 case 0x29 => 84
    case 0x13 => 85 case 0x18 => 86 case 0x19 => 87 case 0x1F => 88 case 0x27 => 89 case 0x20 => 90
    case 0x28 => 91 case 0x70 => 92 case 0x71 => 93
    case _ => KEYS
  }

  /** The BIOS flips these on the make; no break unflips them. */
  predicate Toggles(key: nat) { Code(key) == 0x0F || Code(key) == 0x58 }

  /** Codes are the keys' own, but for the two that share one. */
  lemma CodesAreOwn(key: nat)
    requires key < KEYS
    ensures KeyOf(Code(key)) == if key == ENTER then RETURN else key
  {
  }

  // ---- the key events -------------------------------------------------------

  datatype Event = Event(make: bool, key: nat)

  /** The keys a run of events leaves down. */
  function Down(sent: seq<Event>): set<nat> {
    if sent == [] then {}
    else
      var n := |sent| - 1;
      if sent[n].make then Down(sent[..n]) + {sent[n].key} else Down(sent[..n]) - {sent[n].key}
  }

  /** Every key's makes and breaks alternate, a make first. */
  predicate Balanced(sent: seq<Event>) {
    sent != [] ==>
      var n := |sent| - 1;
      Balanced(sent[..n]) && sent[n].key < KEYS && (sent[n].make <==> sent[n].key !in Down(sent[..n]))
  }

  lemma Sends(sent: seq<Event>, ev: Event)
    ensures Down(sent + [ev]) == if ev.make then Down(sent) + {ev.key} else Down(sent) - {ev.key}
    ensures Balanced(sent + [ev]) <==> Balanced(sent) && ev.key < KEYS && (ev.make <==> ev.key !in Down(sent))
  {
    assert (sent + [ev])[..|sent|] == sent;
  }

  // ---- the interface --------------------------------------------------------

  datatype Mode = Closed | Typing | Menu

  /** The buttons that matter here, held or newly pressed or released. */
  datatype Pad = Pad(a: bool, b: bool, x: bool, y: bool, l1: bool, r1: bool, select: bool, start: bool)

  function Pressed(now: Pad, was: Pad): Pad {
    Pad(now.a && !was.a, now.b && !was.b, now.x && !was.x, now.y && !was.y, now.l1 && !was.l1, now.r1 && !was.r1,
        now.select && !was.select, now.start && !was.start)
  }

  function Without(p: Pad, q: Pad): Pad { Pressed(p, q) }

  /** Whether any bindable button is in both. */
  predicate Meets(p: Pad, q: Pad) {
    (p.a && q.a) || (p.b && q.b) || (p.x && q.x) || (p.y && q.y) || (p.r1 && q.r1)
    || (p.select && q.select) || (p.start && q.start)
  }

  /** What the menu makes of a tick. */
  datatype Outcome = Stay | Dismiss | Pick(btn: nat)

  /** What a tick sees: the opener's level, the settled buttons, where the cursor is
      after navigating, a docked key press, the menu's answer, and which buttons are
      bound to open the menu. */
  datatype Input = Input(open: bool, pad: Pad, nav: nat, docked: bool, menu: Outcome, opens: Pad)

  /** The interface between ticks: `held` is the key A holds, -1 for none; `target`
      the button being rebound, -1 for none; `sent` every key event so far. */
  datatype Keyboard = Keyboard(mode: Mode, wasOpen: bool, was: Pad, cur: nat, held: int, target: int,
                               latched: seq<bool>, sent: seq<Event>)

  function Sent(s: Keyboard, make: bool, key: nat): Keyboard { s.(sent := s.sent + [Event(make, key)]) }

  function ClearedFrom(s: Keyboard, i: nat): (r: Keyboard)
    requires |s.latched| == KEYS && i <= KEYS
    ensures r == s.(latched := r.latched, sent := r.sent) && |r.latched| == KEYS
    decreases KEYS - i
  {
    if i == KEYS then s
    else ClearedFrom(if s.latched[i] then Sent(s, false, i).(latched := s.latched[i := false]) else s, i + 1)
  }

  /** Everything let go: the held key first, then the latched. */
  function Released(s: Keyboard): (r: Keyboard)
    requires |s.latched| == KEYS
    ensures r == s.(held := -1, latched := r.latched, sent := r.sent) && |r.latched| == KEYS
  {
    ClearedFrom(if s.held >= 0 then Sent(s, false, s.held).(held := -1) else s.(held := -1), 0)
  }

  function MenuEntered(s: Keyboard): (r: Keyboard)
    requires |s.latched| == KEYS
    ensures |r.latched| == KEYS
  {
    Released(s.(target := -1)).(mode := Menu)
  }

  function PickerClosed(s: Keyboard): Keyboard { s.(target := -1, mode := Menu) }

  /** X on the key under the cursor. */
  function Latching(s: Keyboard): (r: Keyboard)
    requires |s.latched| == KEYS && s.cur < KEYS
    ensures |r.latched| == KEYS
  {
    if Toggles(s.cur) then Sent(Sent(s, true, s.cur), false, s.cur)
    else Sent(s, !s.latched[s.cur], s.cur).(latched := s.latched[s.cur := !s.latched[s.cur]])
  }

  /** A tick's presses while the keyboard is up and no key is held. */
  function Typed(s: Keyboard, p: Pad, i: Input): Keyboard
    requires |s.latched| == KEYS && i.nav < KEYS
  {
    if s.target >= 0 then
      if i.docked || p.a || p.b then PickerClosed(s) else s.(cur := i.nav)
    else if p.b then Released(s).(mode := Closed)
    else
      var moved := s.(cur := i.nav);
      var latched := if p.x then Latching(moved) else moved;
      var cleared := if p.y then ClearedFrom(latched, 0) else latched;
      if p.a && !cleared.latched[cleared.cur] then Sent(cleared, true, cleared.cur).(held := cleared.cur) else cleared
  }

  /** The interact opener: a rising edge toggles the menu. */
  function Opened(s: Keyboard, open: bool): (r: Keyboard)
    requires |s.latched| == KEYS
    ensures |r.latched| == KEYS
  {
    var t := if !open || s.wasOpen then s else if s.mode == Menu then s.(mode := Closed) else MenuEntered(s);
    t.(wasOpen := open)
  }

  /** L1: the keyboard from nothing, nothing from anything. */
  function Toggled(s: Keyboard, p: Pad): (r: Keyboard)
    requires |s.latched| == KEYS
    ensures |r.latched| == KEYS
  {
    if !p.l1 then s
    else if s.mode == Closed then s.(mode := Typing)
    else Released(s.(target := -1)).(mode := Closed)
  }

  /** A button bound to the menu, in an overlay: closes the menu, leaves the keyboard
      for it. B never does. */
  function Swapped(s: Keyboard, p: Pad, opens: Pad): (r: (Keyboard, Pad))
    requires |s.latched| == KEYS
    ensures |r.0.latched| == KEYS
  {
    var mask := opens.(b := false, l1 := false);
    if Meets(p, mask) && s.mode == Menu then (s.(mode := Closed), Without(p, mask))
    else if Meets(p, mask) && s.mode == Typing then (MenuEntered(s), Without(p, mask))
    else (s, p)
  }

  function Acted(s: Keyboard, p: Pad, released: Pad, i: Input): Keyboard
    requires |s.latched| == KEYS && i.nav < KEYS
  {
    match s.mode
    case Menu =>
      (match i.menu
       case Stay => s
       case Dismiss => s.(mode := Closed)
       case Pick(btn) => s.(mode := Typing, target := btn))
    case Typing =>
      if s.held >= 0 then (if released.a then Sent(s, false, s.held).(held := -1) else s)
      else Typed(s, p, i)
    case Closed => if Meets(p, i.opens) then MenuEntered(s) else s
  }

  /** One tick of the interface. */
  function Ticked(s: Keyboard, i: Input): Keyboard
    requires |s.latched| == KEYS && i.nav < KEYS
  {
    var entered := Opened(s, i.open);
    var p, released := Pressed(i.pad, entered.was), Pressed(entered.was, i.pad);
    var (swapped, q) := Swapped(Toggled(entered.(was := i.pad), p), p, i.opens);
    Acted(swapped, q, released, i)
  }

  // ---- what every tick keeps ------------------------------------------------

  function LatchedKeys(latched: seq<bool>): (keys: set<nat>)
    requires |latched| == KEYS
  {
    set k: nat | k < KEYS && latched[k]
  }

  /** Nothing is down. */
  predicate Quiet(s: Keyboard) {
    s.held < 0 && forall k | 0 <= k < |s.latched| :: !s.latched[k]
  }

  /** The keys down are the latched ones and the one held. */
  ghost predicate Consistent(s: Keyboard) {
    && |s.latched| == KEYS && s.cur < KEYS && -1 <= s.held < KEYS && -1 <= s.target
    && Balanced(s.sent)
    && Down(s.sent) == LatchedKeys(s.latched) + (if s.held >= 0 then {s.held} else {})
    && (s.held >= 0 ==> !s.latched[s.held])
    && (forall k | 0 <= k < KEYS :: s.latched[k] ==> !Toggles(k))
  }

  ghost predicate Kept(s: Keyboard) {
    && Consistent(s)
    && (s.mode != Typing || s.target >= 0 ==> Quiet(s))
    && (s.target >= 0 ==> s.mode == Typing)
  }

  lemma Unlatched(s: Keyboard, i: nat)
    requires Consistent(s) && i < KEYS && s.latched[i]
    ensures Consistent(Sent(s, false, i).(latched := s.latched[i := false]))
  {
    hide Code;
    Sends(s.sent, Event(false, i));
    assert LatchedKeys(s.latched[i := false]) == LatchedKeys(s.latched) - {i};
  }

  lemma {:induction false} ClearKeeps(s: Keyboard, i: nat)
    requires Consistent(s) && i <= KEYS && forall k | 0 <= k < i :: !s.latched[k]
    ensures Consistent(ClearedFrom(s, i)) && forall k | 0 <= k < KEYS :: !ClearedFrom(s, i).latched[k]
    decreases KEYS - i
  {
    hide Balanced, Down, LatchedKeys, Toggles;
    if i < KEYS {
      if s.latched[i] {
        Unlatched(s, i);
        ClearKeeps(Sent(s, false, i).(latched := s.latched[i := false]), i + 1);
      } else {
        ClearKeeps(s, i + 1);
      }
    }
  }

  lemma ReleaseKeeps(s: Keyboard)
    requires Consistent(s)
    ensures Consistent(Released(s)) && Quiet(Released(s))
  {
    hide ClearedFrom, Toggles;
    if s.held >= 0 {
      LetGo(s);
      ClearKeeps(Sent(s, false, s.held).(held := -1), 0);
    } else {
      assert s.(held := -1) == s;
      ClearKeeps(s, 0);
    }
  }

  lemma LetGo(s: Keyboard)
    requires Consistent(s) && s.held >= 0
    ensures Consistent(Sent(s, false, s.held).(held := -1))
  {
    hide Toggles;
    Sends(s.sent, Event(false, s.held));
  }

  lemma LatchKeeps(s: Keyboard)
    requires Consistent(s) && s.held < 0
    ensures Consistent(Latching(s)) && Latching(s).held < 0
  {
    hide Code, Balanced, Down;
    if Toggles(s.cur) {
      Sends(s.sent, Event(true, s.cur));
      Sends(s.sent + [Event(true, s.cur)], Event(false, s.cur));
      assert s.cur !in Down(s.sent);
    } else if s.latched[s.cur] {
      Unlatched(s, s.cur);
    } else {
      Sends(s.sent, Event(true, s.cur));
      assert LatchedKeys(s.latched[s.cur := true]) == LatchedKeys(s.latched) + {s.cur};
    }
  }

  lemma PressKeeps(s: Keyboard)
    requires Consistent(s) && s.held < 0 && !s.latched[s.cur]
    ensures Consistent(Sent(s, true, s.cur).(held := s.cur))
  {
    hide Toggles;
    Sends(s.sent, Event(true, s.cur));
  }

  lemma TypeKeeps(s: Keyboard, p: Pad, i: Input)
    requires Kept(s) && s.mode == Typing && s.held < 0 && i.nav < KEYS
    ensures Kept(Typed(s, p, i))
  {
    hide Latching, Toggles, Balanced, Down, LatchedKeys, ClearedFrom, Released;
    if s.target >= 0 {
    } else if p.b {
      ReleaseKeeps(s);
    } else {
      var moved := s.(cur := i.nav);
      if p.x { LatchKeeps(moved); }
      var latched := if p.x then Latching(moved) else moved;
      assert latched.mode == Typing && latched.target == s.target && latched.cur == i.nav by { LatchOnly(moved); }
      if p.y { ClearKeeps(latched, 0); }
      var cleared := if p.y then ClearedFrom(latched, 0) else latched;
      if p.a && !cleared.latched[cleared.cur] { PressKeeps(cleared); }
    }
  }

  lemma LatchOnly(s: Keyboard)
    requires |s.latched| == KEYS && s.cur < KEYS
    ensures Latching(s) == s.(latched := Latching(s).latched, sent := Latching(s).sent)
  {
    hide Toggles;
  }

  lemma MenuKeeps(s: Keyboard)
    requires Kept(s)
    ensures Kept(MenuEntered(s)) && MenuEntered(s).mode == Menu && MenuEntered(s).was == s.was
  {
    hide Released, Balanced, Down, LatchedKeys, Toggles;
    ReleaseKeeps(s.(target := -1));
  }

  /** Every tick, whatever it sees: each key's makes and breaks alternate, the keys
      down are the latched ones and the one held, a toggle key is never latched, and
      nothing is down with the keyboard closed or a key being picked. */
  lemma TickKeeps(s: Keyboard, i: Input)
    requires Kept(s) && i.nav < KEYS
    ensures Kept(Ticked(s, i))
  {
    hide Released, MenuEntered, Typed, Balanced, Down, LatchedKeys, Toggles, Pressed, Meets;
    OpenKeeps(s, i.open);
    var entered := Opened(s, i.open);
    var p, released := Pressed(i.pad, entered.was), Pressed(entered.was, i.pad);
    ToggleKeeps(entered.(was := i.pad), p);
    var toggled := Toggled(entered.(was := i.pad), p);
    SwapKeeps(toggled, p, i.opens);
    var (swapped, q) := Swapped(toggled, p, i.opens);
    ActKeeps(swapped, q, released, i);
  }

  lemma OpenKeeps(s: Keyboard, open: bool)
    requires Kept(s)
    ensures Kept(Opened(s, open))
  {
    hide MenuEntered, Balanced, Down, LatchedKeys, Toggles;
    MenuKeeps(s);
  }

  lemma ToggleKeeps(s: Keyboard, p: Pad)
    requires Kept(s)
    ensures Kept(Toggled(s, p))
  {
    hide Released, Balanced, Down, LatchedKeys, Toggles;
    ReleaseKeeps(s.(target := -1));
  }

  lemma SwapKeeps(s: Keyboard, p: Pad, opens: Pad)
    requires Kept(s)
    ensures Kept(Swapped(s, p, opens).0)
  {
    hide MenuEntered, Meets, Balanced, Down, LatchedKeys, Toggles;
    MenuKeeps(s);
  }

  lemma ActKeeps(s: Keyboard, p: Pad, released: Pad, i: Input)
    requires Kept(s) && i.nav < KEYS
    ensures Kept(Acted(s, p, released, i))
  {
    hide MenuEntered, Typed, Meets, Balanced, Down, LatchedKeys, Toggles;
    match s.mode
    case Menu =>
    case Typing =>
      if s.held >= 0 {
        LetGo(s);
        assert s.target < 0;
      } else {
        TypeKeeps(s, p, i);
      }
    case Closed => MenuKeeps(s);
  }

  const POWER_UP := Keyboard(Closed, false, Pad(false, false, false, false, false, false, false, false), 0, -1, -1,
                             seq(KEYS, _ => false), [])

  /** A run of ticks. */
  ghost function Ran(s: Keyboard, inputs: seq<Input>): (r: Keyboard)
    requires Kept(s) && forall j | 0 <= j < |inputs| :: inputs[j].nav < KEYS
    ensures Kept(r)
    decreases |inputs|
  {
    if inputs == [] then s else TickKeeps(s, inputs[0]); Ran(Ticked(s, inputs[0]), inputs[1..])
  }

  /** In every run from power-up each key's makes and breaks alternate; the keys left
      down are those latched and the one held, which is not latched; no toggle key is
      latched; and with the keyboard closed or a key being picked nothing is down. */
  lemma RunsAreBalanced(inputs: seq<Input>)
    requires forall j | 0 <= j < |inputs| :: inputs[j].nav < KEYS
    ensures Kept(POWER_UP)
    ensures var r := Ran(POWER_UP, inputs);
      && Balanced(r.sent)
      && (forall k | 0 <= k < KEYS :: k in Down(r.sent) <==> r.latched[k] || r.held == k)
      && (forall k | 0 <= k < KEYS :: r.latched[k] ==> Code(k) != 0x0F && Code(k) != 0x58)
      && (r.mode != Typing || r.target >= 0 ==> Down(r.sent) == {})
  {
    hide Code, Ticked;
    assert LatchedKeys(POWER_UP.latched) == {};
    var r := Ran(POWER_UP, inputs);
    if Quiet(r) { assert LatchedKeys(r.latched) == {}; }
  }
}
