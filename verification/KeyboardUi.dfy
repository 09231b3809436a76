/** The on-screen keyboard's interface, one tick at a time. */
module KeyboardUi {
  import opened KeyboardSpec

  class Ui {
    var mode: Mode
    var wasOpen: bool
    var was: Pad
    var cur: nat
    var held: int
    var target: int
    var latched: seq<bool>
    var sent: seq<Event>

    ghost function View(): Keyboard
      reads this
    {
      Keyboard(mode, wasOpen, was, cur, held, target, latched, sent)
    }

    constructor ()
      ensures View() == POWER_UP
    {
      mode, wasOpen, was := Closed, false, Pad(false, false, false, false, false, false, false, false);
      cur, held, target, latched, sent := 0, -1, -1, seq(KEYS, _ => false), [];
    }

    method Emit(make: bool, key: nat)
      modifies this`sent
      ensures View() == Sent(old(View()), make, key)
    {
      sent := sent + [Event(make, key)];
    }

    /** Break every latched key. */
    method ClearLatches()
      requires |latched| == KEYS
      modifies this`latched, this`sent
      ensures View() == ClearedFrom(old(View()), 0)
    {
      for i := 0 to KEYS
        invariant |latched| == KEYS && ClearedFrom(View(), i) == ClearedFrom(old(View()), 0)
      {
        if latched[i] {
          Emit(false, i);
          latched := latched[i := false];
        }
      }
    }

    /** Break every key that is down, starting with the one A holds. */
    method ReleaseAll()
      requires |latched| == KEYS
      modifies this`held, this`latched, this`sent
      ensures View() == Released(old(View()))
    {
      hide ClearedFrom;
      if held >= 0 {
        Emit(false, held);
      }
      held := -1;
      ClearLatches();
    }

    method EnterSettings()
      requires |latched| == KEYS
      modifies this`held, this`latched, this`sent, this`target, this`mode
      ensures View() == MenuEntered(old(View()))
    {
      hide Released;
      target := -1;
      ReleaseAll();
      mode := Menu;
    }

    method PickerClose()
      modifies this`target, this`mode
      ensures View() == PickerClosed(old(View()))
    {
      target := -1;
      mode := Menu;
    }

    /** X: press the key down, or let it up again; a toggle key is pressed once. */
    method Latch()
      requires |latched| == KEYS && cur < KEYS
      modifies this`latched, this`sent
      ensures View() == Latching(old(View()))
    {
      hide Code;
      if Code(cur) == 0x0F || Code(cur) == 0x58 {
        Emit(true, cur);
        Emit(false, cur);
      } else {
        var on := !latched[cur];
        latched := latched[cur := on];
        Emit(on, cur);
      }
    }

    /** The keyboard's own input; true when the user closed it. */
    method TypeInput(p: Pad, i: Input) returns (close: bool)
      requires |latched| == KEYS && i.nav < KEYS
      modifies this`held, this`latched, this`sent, this`target, this`mode, this`cur
      ensures View().(mode := if close then Closed else mode) == Typed(old(View()), p, i)
    {
      hide Latching, ClearedFrom, Released;
      close := false;
      if target >= 0 {
        if i.docked {
          PickerClose();
          return;
        }
        if p.a || p.b {
          PickerClose();
          return;
        }
        cur := i.nav;
        return;
      }
      if p.b {
        ReleaseAll();
        return true;
      }
      cur := i.nav;
      LatchOnly(View());
      if p.x {
        Latch();
      }
      if p.y {
        ClearLatches();
      }
      if p.a && !latched[cur] {
        Emit(true, cur);
        held := cur;
      }
    }

    /** The interact opener, edge-detected. */
    method OpenEdge(open: bool)
      requires |latched| == KEYS
      modifies this
      ensures View() == Opened(old(View()), open)
    {
      hide MenuEntered;
      if open && !wasOpen {
        if mode == Menu {
          mode := Closed;
        } else {
          EnterSettings();
        }
      }
      wasOpen := open;
    }

    /** L1 opens the keyboard, and closes everything. */
    method ToggleEdge(p: Pad)
      requires |latched| == KEYS
      modifies this
      ensures View() == Toggled(old(View()), p)
    {
      hide Released;
      if p.l1 {
        if mode == Closed {
          mode := Typing;
        } else {
          target := -1;
          ReleaseAll();
          mode := Closed;
        }
      }
    }

    /** A button bound to the menu, in an overlay; its press is then used up. */
    method SwapEdge(p: Pad, opens: Pad) returns (rest: Pad)
      requires |latched| == KEYS
      modifies this
      ensures (View(), rest) == Swapped(old(View()), p, opens)
    {
      hide MenuEntered, Meets, Without;
      rest := p;
      var mask := opens.(b := false, l1 := false);
      if Meets(p, mask) {
        if mode == Menu {
          mode := Closed;
          rest := Without(p, mask);
        } else if mode == Typing {
          EnterSettings();
          rest := Without(p, mask);
        }
      }
    }

    /** What is left belongs to the active mode. */
    method Act(p: Pad, released: Pad, i: Input)
      requires |latched| == KEYS && i.nav < KEYS
      modifies this
      ensures View() == Acted(old(View()), p, released, i)
    {
      hide MenuEntered, Typed, Meets;
      if mode == Menu {
        match i.menu
        case Stay =>
        case Dismiss => mode := Closed;
        case Pick(btn) => mode, target := Typing, btn;
      } else if mode == Typing {
        if held >= 0 {
          if released.a {
            Emit(false, held);
            held := -1;
          }
        } else {
          var close := TypeInput(p, i);
          if close {
            mode := Closed;
          }
        }
      } else if Meets(p, i.opens) {
        EnterSettings();
      }
    }

    method Tick(i: Input)
      requires |latched| == KEYS && i.nav < KEYS
      modifies this
      ensures View() == Ticked(old(View()), i)
    {
      hide Opened, Toggled, Swapped, Acted, Pressed;
      OpenEdge(i.open);
      var pressed, released := Pressed(i.pad, was), Pressed(was, i.pad);
      was := i.pad;
      ToggleEdge(pressed);
      pressed := SwapEdge(pressed, i.opens);
      Act(pressed, released, i);
    }
  }
}
