/** What an edit is, and that it is not lost: a change of disk and back, or a save and a
    power cycle, bring it back. */
module SettingsEdits {
  import opened SettingsBlock
  import opened SettingsTable
  import opened SettingsRun

  /** Something the user does that changes the profile, or may: a row stepped (drive sound
      only where the build has it), a button bound, the defaults restored. */
  predicate Edit(ev: Event) {
    Possible(ev) && match ev
    case Stepped(i, _, sound) => i != 12 || sound
    case Bound(_, _, _) => true
    case Restored => true
    case _ => false
  }

  /** What each leaves live: one value moved on by one, round its options, or back by one;
      one button with its new key; everything at its default. Each owes a save. */
  lemma EditsChange(s: Saved, ev: Event)
    requires s.Valid() && Edit(ev)
    ensures var now, was := Do(s, ev).live, s.live;
      && Do(s, ev).dirty && Do(s, ev).win == s.win && Do(s, ev).hash == s.hash
      && (ev.Stepped? ==>
            && now.codes == was.codes && now.ext == was.ext
            && (forall i | 0 <= i < SET_COUNT && i != ev.i :: now.values[i] == was.values[i])
            && if ev.right then now.values[ev.i] == (was.values[ev.i] + 1) % Options(ev.i)
               else was.values[ev.i] == (now.values[ev.i] + 1) % Options(ev.i))
      && (ev.Bound? ==>
            && now.values == was.values && now.codes[ev.b] == ev.code && now.ext[ev.b] == ev.ext
            && forall b | 0 <= b < BIND_COUNT && b != ev.b :: now.codes[b] == was.codes[b] && now.ext[b] == was.ext[b])
      && (ev.Restored? ==>
            && (forall i | 0 <= i < SET_COUNT :: now.values[i] == Default(i))
            && forall b | 0 <= b < BIND_COUNT :: now.codes[b] == DefaultCode(b) && !now.ext[b])
  {
    hide Options, Default, DefaultCode, Distinct;
    if ev.Stepped? { TurnsRound(s.live.values[ev.i], ev.i); TurnsRound(Do(s, ev).live.values[ev.i], ev.i); }
  }

  /** An edit made in any context survives a change of disk and back. */
  lemma EditComesBack(s: Saved, ev: Event, other: Word)
    requires s.Valid() && Edit(ev) && other != s.hash
    ensures Run(s, [ev, Changed(other), Changed(s.hash)]).0.live == Do(s, ev).live
  {
    hide Do, Mounted, Kept, Options, Default, Run;
    ThreeEvents(s, ev, Changed(other), Changed(s.hash));
    EditsChange(s, ev);
    EditIsValid(s, ev);
    var e := Do(s, ev);
    AwayAndBack(e, other);
    DoesMount(e, other);
    DoesMount(Mounted(e, other), s.hash);
  }

  lemma NoEvents(s: Saved)
    requires s.Valid()
    ensures Run(s, []).0 == s
  {
  }

  lemma ThreeEvents(s: Saved, a: Event, b: Event, c: Event)
    requires s.Valid() && Possible(a) && Possible(b) && Possible(c)
    ensures Run(s, [a]).0 == Do(s, a) && Run(s, [a, b]).0 == Do(Run(s, [a]).0, b)
    ensures Run(s, [a, b, c]).0 == Do(Run(s, [a, b]).0, c)
  {
    hide Do, SavedBy, Kept, Run;
    NoEvents(s);
    RunExtends(s, [], a);
    assert [] + [a] == [a] && [a] + [b] == [a, b] && [a, b] + [c] == [a, b, c];
    RunExtends(s, [a], b);
    RunExtends(s, [a, b], c);
  }

  lemma EditIsValid(s: Saved, ev: Event)
    requires s.Valid() && Edit(ev)
    ensures Do(s, ev).Valid()
  {
    hide Do, Kept;
    EmptyBook(s);
    EventKeeps(s, map[], ev);
    KeptIsValid(Do(s, ev), map[] + SavedBy(s, ev));
  }

  lemma DoesMount(s: Saved, hash: Word)
    requires s.Valid()
    ensures Do(s, Changed(hash)) == Mounted(s, hash)
  {
  }

  lemma AwayAndBack(e: Saved, other: Word)
    requires e.Valid() && e.dirty && other != e.hash
    ensures var m := Mounted(e, other); m.Valid() && Mounted(m, e.hash).live == e.live
  {
    hide Mounted, Flushed, Kept;
    var book := map[e.hash := e.live];
    assert Kept(e, map[]) by { EmptyBook(e); }
    assert map[] + SavedBy(e, Changed(other)) == book;
    MountKeeps(e, map[], other);
    MountRestores(e, map[], other);
    var m := Mounted(e, other);
    assert SavedBy(m, Changed(e.hash)) == map[] && book + map[] == book;
    MountRestores(m, book, e.hash);
    MountLeaves(e, other);
    MountLeaves(m, e.hash);
    NothingPending(m);
    if e.hash != 0 { SavedIsHeld(e); }
  }

  lemma EmptyBook(s: Saved)
    requires s.Valid()
    ensures Kept(s, map[])
  {
    hide Distinct, Current;
  }

  /** A change of disk leaves the window as its save did. */
  lemma MountLeaves(s: Saved, hash: Word)
    requires s.Valid() && hash != s.hash
    ensures Mounted(s, hash).win == Flushed(s).win && Mounted(s, hash).haveTable == Flushed(s).haveTable
  {
    hide Flushed, FindFrom, Adopted, Global;
  }

  lemma NothingPending(s: Saved)
    requires s.Valid() && !s.dirty
    ensures Flushed(s) == s
  {
    hide Distinct;
  }

  lemma SavedIsHeld(s: Saved)
    requires s.Valid() && s.dirty && s.hash != 0
    ensures var f := Flushed(s); f.haveTable && exists e | 0 <= e < ENTRY_COUNT :: Holds(f.win, e, s.hash)
  {
    hide Flushed, Block, Distinct;
    FlushedKeeps(s);
    SaveReplacesOneEntry(s);
  }

  /** One that was saved survives a power cycle: with no disk at once, with one when it is
      mounted again. */
  lemma EditOutlivesPower(s: Saved, ev: Event)
    requires s.Valid() && Edit(ev)
    ensures Run(s, [ev, Served, Booted]).0.hash == 0
    ensures s.hash == 0 ==> Run(s, [ev, Served, Booted]).0.live == Do(s, ev).live
    ensures s.hash != 0 ==> Run(s, [ev, Served, Booted] + [Changed(s.hash)]).0.live == Do(s, ev).live
  {
    hide Do, Options, Default, Kept, Mounted, Run;
    ThreeEvents(s, ev, Served, Booted);
    RunExtends(s, [ev, Served, Booted], Changed(s.hash));
    EditsChange(s, ev);
    EditIsValid(s, ev);
    var e := Do(s, ev);
    SavedThenPower(e);
    DoesServe(e);
    DoesBoot(Flushed(e));
    if s.hash != 0 { DoesMount(PoweredUp(Flushed(e).win), s.hash); }
  }

  lemma KeptIsValid(s: Saved, book: map<Word, Live>)
    requires Kept(s, book)
    ensures s.Valid()
  {
  }

  lemma DoesServe(s: Saved)
    requires s.Valid()
    ensures Do(s, Served) == Flushed(s)
  {
  }

  lemma DoesBoot(s: Saved)
    requires s.Valid()
    ensures Do(s, Booted) == PoweredUp(s.win)
  {
  }

  lemma SavedThenPower(e: Saved)
    requires e.Valid() && e.dirty
    ensures var f := Flushed(e); var b := PoweredUp(f.win);
      f.Valid() && b.Valid() && b.hash == 0 && (if e.hash == 0 then b.live else Mounted(b, e.hash).live) == e.live
  {
    hide Mounted, Flushed, Kept, PoweredUp;
    var book := map[e.hash := e.live];
    EmptyBook(e);
    FlushKeeps(e, map[]);
    assert map[] + SavedBy(e, Served) == book;
    var f := Flushed(e);
    KeptIsValid(f, book);
    BootKeeps(f, book);
    var b := PoweredUp(f.win);
    KeptIsValid(b, book);
    AtPower(f.win);
    if e.hash == 0 {
      BlobBoots(f, book);
    } else {
      assert SavedBy(b, Changed(e.hash)) == map[] && book + map[] == book;
      MountRestores(b, book, e.hash);
      MountLeaves(b, e.hash);
      NothingPending(b);
      SavedIsHeld(e);
      TableBoots(f);
    }
  }

  lemma AtPower(win: seq<Word>)
    requires |win| == WINDOW
    ensures var b := PoweredUp(win); b.win == win && b.hash == 0 && !b.dirty && b.live == Global(win, Defaults())
  {
  }

  lemma TableBoots(f: Saved)
    requires f.Valid()
    ensures PoweredUp(f.win).haveTable == f.haveTable
  {
    hide Distinct;
  }

  lemma BlobBoots(f: Saved, book: map<Word, Live>)
    requires Kept(f, book) && 0 in book
    ensures Global(f.win, Defaults()) == book[0]
  {
    hide Distinct, Block, Blob;
    BlobRoundTrip(f.win, book[0], Defaults());
  }
}
