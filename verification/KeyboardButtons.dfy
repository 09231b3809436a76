/** What each button of the on-screen keyboard sends. */
module KeyboardButtons {
  import opened KeyboardSpec

  /** The tick belongs to the keyboard: it is up, no key is being picked, and neither
      the opener, nor L1, nor a button bound to the menu asks for something else. */
  predicate Typing(s: Keyboard, i: Input) {
    && |s.latched| == KEYS && s.cur < KEYS && s.held < KEYS && i.nav < KEYS
    && s.mode == Mode.Typing && s.target < 0 && Calm(s, i)
  }

  predicate Calm(s: Keyboard, i: Input) {
    && !(i.open && !s.wasOpen) && !(i.pad.l1 && !s.was.l1)
    && !(i.opens.a && i.pad.a && !s.was.a) && !(i.opens.x && i.pad.x && !s.was.x)
    && !(i.opens.y && i.pad.y && !s.was.y) && !(i.opens.r1 && i.pad.r1 && !s.was.r1)
    && !(i.opens.select && i.pad.select && !s.was.select) && !(i.opens.start && i.pad.start && !s.was.start)
  }

  /** A button bound to the menu is newly pressed. */
  predicate MenuPressed(s: Keyboard, i: Input) {
    || (i.opens.a && i.pad.a && !s.was.a) || (i.opens.b && i.pad.b && !s.was.b)
    || (i.opens.x && i.pad.x && !s.was.x) || (i.opens.y && i.pad.y && !s.was.y)
    || (i.opens.r1 && i.pad.r1 && !s.was.r1) || (i.opens.select && i.pad.select && !s.was.select)
    || (i.opens.start && i.pad.start && !s.was.start)
  }

  /** Which presses the openers see; B is left out where it is the way back. */
  lemma Seen(s: Keyboard, i: Input)
    ensures Meets(Pressed(i.pad, s.was), i.opens) <==> MenuPressed(s, i)
    ensures !(i.open && !s.wasOpen) && !(i.pad.l1 && !s.was.l1) ==>
      (Meets(Pressed(i.pad, s.was), i.opens.(b := false, l1 := false)) <==> !Calm(s, i))
    ensures Meets(Pressed(i.pad, s.was), i.opens.(b := false, l1 := false)) ==> MenuPressed(s, i)
  {
  }

  predicate NoneLatched(latched: seq<bool>) { |latched| == KEYS && forall k | 0 <= k < KEYS :: !latched[k] }

  /** Breaks of exactly the latched keys from key `i` on, the first of them first. */
  predicate UnlatchesFrom(evs: seq<Event>, latched: seq<bool>, i: nat)
    requires |latched| == KEYS
  {
    && (forall e | e in evs :: !e.make && i <= e.key < KEYS && latched[e.key])
    && (forall j, k | 0 <= j < k < |evs| :: evs[j].key < evs[k].key)
    && (forall k: nat | i <= k < KEYS && latched[k] :: Event(false, k) in evs)
  }

  lemma {:induction false} ClearSends(s: Keyboard, i: nat) returns (evs: seq<Event>)
    requires |s.latched| == KEYS && i <= KEYS
    ensures ClearedFrom(s, i).sent == s.sent + evs && UnlatchesFrom(evs, s.latched, i)
    ensures forall k | 0 <= k < KEYS :: ClearedFrom(s, i).latched[k] == (k < i && s.latched[k])
    decreases KEYS - i
  {
    hide UnlatchesFrom;
    if i == KEYS {
      evs := [];
      NoneLeft(s.latched);
    } else if s.latched[i] {
      var next := Sent(s, false, i).(latched := s.latched[i := false]);
      var rest := ClearSends(next, i + 1);
      evs := [Event(false, i)] + rest;
      assert next.sent + rest == s.sent + evs;
      BreakAhead(rest, s.latched, i);
    } else {
      evs := ClearSends(s, i + 1);
      NotLatched(evs, s.latched, i);
    }
  }

  lemma NoneLeft(latched: seq<bool>)
    requires |latched| == KEYS
    ensures UnlatchesFrom([], latched, KEYS)
  {
  }

  lemma BreakAhead(rest: seq<Event>, latched: seq<bool>, i: nat)
    requires |latched| == KEYS && i < KEYS && latched[i] && UnlatchesFrom(rest, latched[i := false], i + 1)
    ensures UnlatchesFrom([Event(false, i)] + rest, latched, i)
  {
    var evs := [Event(false, i)] + rest;
    forall k: nat | i <= k < KEYS && latched[k] ensures Event(false, k) in evs {
      if k > i { assert latched[i := false][k]; }
    }
    forall j, k | 0 <= j < k < |evs| ensures evs[j].key < evs[k].key {
      assert rest[k - 1] in rest;
    }
  }

  lemma NotLatched(evs: seq<Event>, latched: seq<bool>, i: nat)
    requires |latched| == KEYS && i < KEYS && !latched[i] && UnlatchesFrom(evs, latched, i + 1)
    ensures UnlatchesFrom(evs, latched, i)
  {
  }

  /** What letting everything go sends: the held key's break, then the latched keys'. */
  lemma ReleaseSends(s: Keyboard) returns (evs: seq<Event>)
    requires |s.latched| == KEYS
    ensures Released(s).sent == s.sent + (if s.held >= 0 then [Event(false, s.held)] else []) + evs
    ensures UnlatchesFrom(evs, s.latched, 0) && Released(s).held < 0 && NoneLatched(Released(s).latched)
  {
    hide ClearedFrom;
    var t := if s.held >= 0 then Sent(s, false, s.held).(held := -1) else s.(held := -1);
    evs := ClearSends(t, 0);
  }

  /** A tick that no opener takes is the active mode's. */
  lemma CalmTick(s: Keyboard, i: Input)
    requires |s.latched| == KEYS && i.nav < KEYS && Calm(s, i)
    ensures Ticked(s, i)
         == Acted(s.(wasOpen := i.open, was := i.pad), Pressed(i.pad, s.was), Pressed(s.was, i.pad), i)
  {
    hide Acted, Released, MenuEntered, Meets;
    Seen(s, i);
  }

  /** One that a button bound to the menu takes in the menu is nobody's. */
  lemma BoundTick(s: Keyboard, i: Input)
    requires |s.latched| == KEYS && i.nav < KEYS && s.mode == Menu && !Calm(s, i)
    requires !(i.pad.l1 && !s.was.l1) && !(i.open && !s.wasOpen) && !(i.pad.b && !s.was.b)
    ensures Ticked(s, i) == s.(wasOpen := i.open, was := i.pad, mode := Closed)
  {
    hide Released, MenuEntered, Typed, Meets;
    Seen(s, i);
    Unseen(Pressed(i.pad, s.was), i.opens);
  }

  lemma Unseen(p: Pad, opens: Pad)
    requires !p.b
    ensures var mask := opens.(b := false, l1 := false); Meets(p, mask) ==> !Meets(Without(p, mask), opens)
  {
  }

  /** X, Y and A, in that order: X makes the key under the cursor or, if it is latched,
      breaks it, and a toggle key it makes and breaks; Y breaks every latched key; A
      makes the key under the cursor and holds it, unless it is latched. */
  lemma TypingSends(s: Keyboard, i: Input) returns (taps: seq<Event>, breaks: seq<Event>, makes: seq<Event>)
    requires Typing(s, i) && s.held < 0 && !(i.pad.b && !s.was.b)
    ensures Ticked(s, i).sent == s.sent + taps + breaks + makes
    ensures Ticked(s, i).mode == Mode.Typing && Ticked(s, i).cur == i.nav && |Ticked(s, i).latched| == KEYS
    ensures var key, x := i.nav, i.pad.x && !s.was.x;
      var toggle := Code(key) == 0x0F || Code(key) == 0x58;
      var latched := if x && !toggle then s.latched[key := !s.latched[key]] else s.latched;
      var y, a := i.pad.y && !s.was.y, i.pad.a && !s.was.a && (!latched[key] || (i.pad.y && !s.was.y));
      && taps == (if !x then [] else if toggle then [Event(true, key), Event(false, key)]
                  else [Event(!s.latched[key], key)])
      && (if y then UnlatchesFrom(breaks, latched, 0) && NoneLatched(Ticked(s, i).latched)
          else breaks == [] && Ticked(s, i).latched == latched)
      && makes == (if a then [Event(true, key)] else [])
      && Ticked(s, i).held == if a then key else s.held
  {
    hide Ticked, Typed, Acted, Calm, UnlatchesFrom, NoneLatched, Code, Pressed;
    CalmTick(s, i);
    var t, p := s.(wasOpen := i.open, was := i.pad), Pressed(i.pad, s.was);
    PressedIs(i.pad, s.was);
    TypingActs(t, p, Pressed(s.was, i.pad), i);
    taps, breaks, makes := TypedSends(t, p, i);
  }

  lemma PressedIs(now: Pad, was: Pad)
    ensures var p := Pressed(now, was);
      && p.a == (now.a && !was.a) && p.b == (now.b && !was.b) && p.x == (now.x && !was.x) && p.y == (now.y && !was.y)
  {
  }

  lemma TypingActs(s: Keyboard, p: Pad, released: Pad, i: Input)
    requires |s.latched| == KEYS && i.nav < KEYS && s.mode == Mode.Typing && s.held < 0
    ensures Acted(s, p, released, i) == Typed(s, p, i)
  {
  }

  lemma TypedSends(s: Keyboard, p: Pad, i: Input) returns (taps: seq<Event>, breaks: seq<Event>, makes: seq<Event>)
    requires |s.latched| == KEYS && i.nav < KEYS && s.mode == Mode.Typing && s.target < 0 && s.held < 0 && !p.b
    ensures var r, key := Typed(s, p, i), i.nav;
      var toggle := Code(key) == 0x0F || Code(key) == 0x58;
      var latched := if p.x && !toggle then s.latched[key := !s.latched[key]] else s.latched;
      && r.sent == s.sent + taps + breaks + makes
      && r.mode == Mode.Typing && r.cur == key && |r.latched| == KEYS
      && taps == (if !p.x then [] else if toggle then [Event(true, key), Event(false, key)]
                  else [Event(!s.latched[key], key)])
      && (if p.y then UnlatchesFrom(breaks, latched, 0) && NoneLatched(r.latched)
          else breaks == [] && r.latched == latched)
      && makes == (if p.a && (!latched[key] || p.y) then [Event(true, key)] else [])
      && r.held == if p.a && (!latched[key] || p.y) then key else s.held
  {
    hide ClearedFrom, Latching, UnlatchesFrom, NoneLatched, Toggles, Code, Released;
    var moved := s.(cur := i.nav);
    taps := XSends(moved);
    if !p.x { taps := []; }
    var tapped := if p.x then Latching(moved) else moved;
    breaks := YSends(tapped);
    if !p.y { breaks := []; }
    var cleared := if p.y then ClearedFrom(tapped, 0) else tapped;
    makes := if p.a && !cleared.latched[i.nav] then [Event(true, i.nav)] else [];
    NoneIs(cleared.latched, i.nav);
  }

  lemma NoneIs(latched: seq<bool>, key: nat)
    requires |latched| == KEYS && key < KEYS
    ensures NoneLatched(latched) ==> !latched[key]
  {
  }

  lemma XSends(s: Keyboard) returns (taps: seq<Event>)
    requires |s.latched| == KEYS && s.cur < KEYS
    ensures var toggle := Code(s.cur) == 0x0F || Code(s.cur) == 0x58;
      && taps == (if toggle then [Event(true, s.cur), Event(false, s.cur)]
                  else [Event(!s.latched[s.cur], s.cur)])
      && Latching(s).sent == s.sent + taps && Latching(s).held == s.held && Latching(s).cur == s.cur
      && Latching(s).mode == s.mode
      && Latching(s).latched == if toggle then s.latched else s.latched[s.cur := !s.latched[s.cur]]
  {
    hide Code;
    taps := if Toggles(s.cur) then [Event(true, s.cur), Event(false, s.cur)]
            else [Event(!s.latched[s.cur], s.cur)];
  }

  lemma YSends(s: Keyboard) returns (breaks: seq<Event>)
    requires |s.latched| == KEYS
    ensures ClearedFrom(s, 0).sent == s.sent + breaks
    ensures UnlatchesFrom(breaks, s.latched, 0) && NoneLatched(ClearedFrom(s, 0).latched)
  {
    hide ClearedFrom;
    breaks := ClearSends(s, 0);
  }

  /** While A holds a key nothing else is sent, whatever is pressed, until A is let go,
      which breaks it. */
  lemma HoldingSends(s: Keyboard, i: Input)
    requires Typing(s, i) && s.held >= 0
    ensures var r := Ticked(s, i);
      && r.mode == Mode.Typing && r.latched == s.latched && r.cur == s.cur
      && if s.was.a && !i.pad.a then r.sent == s.sent + [Event(false, s.held)] && r.held < 0
         else r.sent == s.sent && r.held == s.held
  {
  }

  /** B, L1, the opener and a button bound to the menu each let everything go, and each
      leaves the keyboard for where it leads: B and L1 for nothing, the others for the
      menu. */
  lemma LeavingSends(s: Keyboard, i: Input) returns (evs: seq<Event>)
    requires |s.latched| == KEYS && s.mode == Mode.Typing && s.target < 0 && i.nav < KEYS
    requires i.menu == Stay
    requires !Calm(s, i) || (s.held < 0 && i.pad.b && !s.was.b)
    requires i.pad.l1 && !s.was.l1 ==> !(i.open && !s.wasOpen) && !MenuPressed(s, i)
    requires i.open && !s.wasOpen ==> !MenuPressed(s, i)
    ensures var r := Ticked(s, i);
      && r.mode == (if Calm(s, i) || (i.pad.l1 && !s.was.l1) then Closed else Menu)
      && r.sent == s.sent + (if s.held >= 0 then [Event(false, s.held)] else []) + evs
      && UnlatchesFrom(evs, s.latched, 0) && r.held < 0 && NoneLatched(r.latched)
  {
    hide Released, Code, UnlatchesFrom, NoneLatched;
    if i.open && !s.wasOpen {
      evs := ReleaseSends(s.(target := -1));
    } else if Calm(s, i) {
      evs := ReleaseSends(s.(wasOpen := i.open, was := i.pad));
    } else {
      evs := ReleaseSends(s.(wasOpen := i.open, was := i.pad, target := -1));
    }
  }

  /** Away from typing nothing is sent, unless L1 brings the keyboard up: with nothing
      shown a button bound to the menu opens it, and nothing else shows anything. */
  lemma ClosedSends(s: Keyboard, i: Input)
    requires Kept(s) && s.mode == Closed && i.nav < KEYS
    requires !(i.pad.l1 && !s.was.l1) && !(i.open && !s.wasOpen)
    ensures Ticked(s, i).sent == s.sent
    ensures Ticked(s, i).mode == if MenuPressed(s, i) then Menu else Closed
  {
    hide Code, Released, Balanced, Down, LatchedKeys, Toggles, Typed;
    QuietReleases(s, s.(wasOpen := i.open, was := i.pad, target := -1));
  }

  /** In the menu its own answer closes it or sets off a pick, and a button bound to the
      menu, though never B, closes it. */
  lemma MenuSends(s: Keyboard, i: Input)
    requires Kept(s) && s.mode == Menu && i.nav < KEYS
    requires !(i.pad.l1 && !s.was.l1) && !(i.open && !s.wasOpen) && !(i.pad.b && !s.was.b)
    ensures var r := Ticked(s, i);
      && r.sent == s.sent
      && if !Calm(s, i) then r.mode == Closed
         else match i.menu
              case Stay => r.mode == Menu
              case Dismiss => r.mode == Closed
              case Pick(btn) => r.mode == Mode.Typing && r.target == btn
  {
    hide Ticked, Kept, MenuEntered, Typed, Calm;
    KeptKeys(s);
    if Calm(s, i) { CalmTick(s, i); } else { BoundTick(s, i); }
  }

  lemma KeptKeys(s: Keyboard)
    requires Kept(s)
    ensures |s.latched| == KEYS && (s.target >= 0 ==> s.mode == Mode.Typing)
    ensures s.mode != Mode.Typing || s.target >= 0 ==> s.held < 0
  {
  }

  /** A docked key, A or B ends a pick in the menu. */
  lemma PickSends(s: Keyboard, i: Input)
    requires Kept(s) && s.target >= 0 && i.nav < KEYS && Calm(s, i)
    ensures var r := Ticked(s, i);
      && r.sent == s.sent
      && if i.docked || (i.pad.a && !s.was.a) || (i.pad.b && !s.was.b) then r.mode == Menu && r.target < 0
         else r.mode == Mode.Typing && r.target == s.target && r.cur == i.nav
  {
    hide Ticked, Kept, MenuEntered, Calm, Released, Latching, ClearedFrom;
    KeptKeys(s);
    CalmTick(s, i);
  }

  /** L1 brings the keyboard up from nothing, and takes anything else down. */
  lemma L1Moves(s: Keyboard, i: Input)
    requires Kept(s) && i.nav < KEYS && i.pad.l1 && !s.was.l1 && i.open == s.wasOpen
    requires !MenuPressed(s, i) && !(i.pad.b && !s.was.b)
    ensures Ticked(s, i).mode == if s.mode == Closed then Mode.Typing else Closed
  {
    hide Kept, Released, Typed, Meets, MenuPressed, Calm;
    KeptKeys(s);
    Seen(s, i);
    var t := s.(wasOpen := i.open, was := i.pad, mode := Mode.Typing);
    if s.mode == Closed { TypingStays(t, Pressed(i.pad, s.was), i); }
  }

  lemma TypingStays(s: Keyboard, p: Pad, i: Input)
    requires |s.latched| == KEYS && i.nav < KEYS && s.mode == Mode.Typing && s.target < 0 && !p.b
    ensures Typed(s, p, i).mode == Mode.Typing
  {
    hide Released, Toggles, ClearedFrom;
  }

  lemma QuietReleases(s: Keyboard, t: Keyboard)
    requires |s.latched| == KEYS && Quiet(s) && t.held == s.held && t.latched == s.latched
    ensures Released(t).sent == t.sent
  {
    NothingClears(t.(held := -1), 0);
  }

  lemma {:induction false} NothingClears(s: Keyboard, i: nat)
    requires |s.latched| == KEYS && i <= KEYS && forall k | 0 <= k < KEYS :: !s.latched[k]
    ensures ClearedFrom(s, i) == s
    decreases KEYS - i
  {
    if i < KEYS { NothingClears(s, i + 1); }
  }
}
