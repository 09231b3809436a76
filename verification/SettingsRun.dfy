/** The save window's life as a state machine: edits, saves and disk changes. */
module SettingsRun {
  import opened SettingsBlock
  import opened SettingsTable

  const SETTINGS_MAGIC: Word := 0x50435853
  const SETTINGS_VERSION := 10

  /** Everything the store remembers. The context is the mounted disk's hash, 0
      with none; `slot` is its entry, -1 until known; `evict` the next victim. */
  datatype Saved = Saved(win: seq<Word>, live: Live, dirty: bool, haveTable: bool, hash: Word, slot: int, evict: nat) {
    ghost predicate Valid() {
      && |win| == WINDOW && live.Valid() && -1 <= slot < ENTRY_COUNT && evict < ENTRY_COUNT
      && (haveTable <==> win[TABLE_WORD] == TABLE_MAGIC) && (haveTable ==> Distinct(win)) && Current(win)
      && (slot >= 0 ==> haveTable && hash != 0 && Holds(win, slot, hash))
    }
  }

  /** The blob, if it is one, is of this version: a boot leaves the window alone. */
  ghost predicate Current(win: seq<Word>)
    requires |win| == WINDOW
  {
    var version := ByteOf(win[SETTINGS_WORD + 1], 0);
    win[SETTINGS_WORD] == SETTINGS_MAGIC ==> version < 4 || version >= SETTINGS_VERSION
  }

  /** `words` laid over the window from `at` on. */
  function Patched(win: seq<Word>, at: nat, words: seq<Word>): (r: seq<Word>)
    requires at + |words| <= |win|
    ensures |r| == |win|
    ensures forall j | 0 <= j < |win| :: r[j] == if at <= j < at + |words| then words[j - at] else win[j]
  {
    win[..at] + words + win[at + |words|..]
  }

  function Blob(live: Live): (words: seq<Word>)
    requires live.Valid()
    ensures |words| == 2 + BLOCK_WORDS
  {
    [SETTINGS_MAGIC, SETTINGS_VERSION + SET_COUNT * 256] + Block(live)
  }

  function Profile(hash: Word, live: Live): (words: seq<Word>)
    requires live.Valid()
    ensures |words| == ENTRY_WORDS
  {
    [hash, Tag(hash)] + Block(live)
  }

  /** An empty table in place of whatever the region held. */
  function Claimed(win: seq<Word>): (r: seq<Word>)
    requires |win| == WINDOW
    ensures |r| == WINDOW
  {
    Patched(win, TABLE_WORD, [TABLE_MAGIC] + Zeros(ENTRY_COUNT * ENTRY_WORDS))
  }

  /** The first entry from `e` on that is the profile of `hash`, -1 for none. */
  function FindFrom(win: seq<Word>, hash: Word, e: nat): (found: int)
    requires |win| == WINDOW && e <= ENTRY_COUNT
    ensures -1 <= found < ENTRY_COUNT && (found >= 0 ==> found >= e && Holds(win, found, hash))
    ensures found >= 0 ==> forall f | e <= f < found :: !Holds(win, f, hash)
    ensures found < 0 <==> forall f | e <= f < ENTRY_COUNT :: !Holds(win, f, hash)
    decreases ENTRY_COUNT - e
  {
    if e == ENTRY_COUNT then -1 else if Holds(win, e, hash) then e else FindFrom(win, hash, e + 1)
  }

  function FreeFrom(win: seq<Word>, e: nat): (found: int)
    requires |win| == WINDOW && e <= ENTRY_COUNT
    ensures -1 <= found < ENTRY_COUNT && (found >= 0 ==> found >= e && !Taken(win, found))
    ensures found >= 0 ==> forall f | e <= f < found :: Taken(win, f)
    ensures found < 0 <==> forall f | e <= f < ENTRY_COUNT :: Taken(win, f)
    decreases ENTRY_COUNT - e
  {
    if e == ENTRY_COUNT then -1 else if !Taken(win, e) then e else FreeFrom(win, e + 1)
  }

  function NextVictim(evict: nat): nat {
    if evict + 1 >= ENTRY_COUNT then 0 else evict + 1
  }

  /** The entry a save of `s` goes to. */
  function SlotFor(s: Saved, win: seq<Word>): (e: nat)
    requires |win| == WINDOW && s.slot < ENTRY_COUNT && s.evict < ENTRY_COUNT
    ensures e < ENTRY_COUNT
  {
    if s.slot >= 0 then s.slot
    else if FindFrom(win, s.hash, 0) >= 0 then FindFrom(win, s.hash, 0)
    else if FreeFrom(win, 0) >= 0 then FreeFrom(win, 0)
    else s.evict
  }

  /** Whether that save evicts. */
  predicate Evicts(s: Saved, win: seq<Word>)
    requires |win| == WINDOW && s.slot < ENTRY_COUNT
  {
    s.slot < 0 && FindFrom(win, s.hash, 0) < 0 && FreeFrom(win, 0) < 0
  }

  /** A save, if one is due. */
  function Flushed(s: Saved): Saved
    requires |s.win| == WINDOW && s.live.Valid() && s.slot < ENTRY_COUNT && s.evict < ENTRY_COUNT
  {
    if !s.dirty then s
    else
      var win := if s.haveTable then s.win else Claimed(s.win);
      var now := s.(dirty := false, haveTable := true);
      if s.hash == 0 then now.(win := Patched(win, SETTINGS_WORD, Blob(s.live)))
      else
        var e := SlotFor(s, win);
        now.(win := Patched(win, EntryAt(e), Profile(s.hash, s.live)), slot := e,
             evict := if Evicts(s, win) then NextVictim(s.evict) else s.evict)
  }

  predicate HasBlob(win: seq<Word>)
    requires |win| == WINDOW
  {
    win[SETTINGS_WORD] == SETTINGS_MAGIC && 6 <= ByteOf(win[SETTINGS_WORD + 1], 0) <= SETTINGS_VERSION
  }

  /** What goes live without a profile: the global blob, else the defaults. */
  function Global(win: seq<Word>, live: Live): (r: Live)
    requires |win| == WINDOW && live.Valid()
    ensures r.Valid()
  {
    if HasBlob(win) then Adopted(live, win[BLOB_BLOCK..], ByteOf(win[SETTINGS_WORD + 1], 1)) else Defaults()
  }

  /** A change of disk: the outgoing context is saved, the incoming goes live. */
  function Mounted(s: Saved, hash: Word): Saved
    requires |s.win| == WINDOW && s.live.Valid() && s.slot < ENTRY_COUNT && s.evict < ENTRY_COUNT
  {
    if hash == s.hash then s
    else
      var f := Flushed(s);
      var e := if hash != 0 && f.haveTable then FindFrom(f.win, hash, 0) else -1;
      f.(hash := hash, slot := e,
         live := if e >= 0 then Adopted(f.live, EntryBlock(f.win, e), SET_COUNT) else Global(f.win, f.live))
  }

  // ---- what a save touches ------------------------------------------------

  /** A profile written over entry `e` is found there, and no other entry moved. */
  lemma PatchedEntry(win: seq<Word>, e: nat, hash: Word, live: Live)
    requires |win| == WINDOW && e < ENTRY_COUNT && live.Valid()
    ensures var now := Patched(win, EntryAt(e), Profile(hash, live));
      && Holds(now, e, hash) && EntryBlock(now, e) == Block(live)
      && (forall f | 0 <= f < ENTRY_COUNT && f != e :: Entry(now, f) == Entry(win, f))
      && now[..TABLE_WORD + 1] == win[..TABLE_WORD + 1]
  {
    hide Block;
    var now := Patched(win, EntryAt(e), Profile(hash, live));
    forall f | 0 <= f < ENTRY_COUNT && f != e ensures Entry(now, f) == Entry(win, f) {
      assert EntryAt(f) + ENTRY_WORDS <= EntryAt(e) || EntryAt(f) >= EntryAt(e) + ENTRY_WORDS;
    }
    assert Profile(hash, live)[2..] == Block(live);
  }

  /** Equal entries hold the same. */
  lemma SameEntry(a: seq<Word>, b: seq<Word>, e: nat)
    requires |a| == WINDOW && |b| == WINDOW && e < ENTRY_COUNT && Entry(a, e) == Entry(b, e)
    ensures a[EntryAt(e)] == b[EntryAt(e)] && (Taken(a, e) <==> Taken(b, e))
    ensures forall h :: Holds(a, e, h) <==> Holds(b, e, h)
    ensures EntryBlock(a, e) == EntryBlock(b, e)
  {
    assert Entry(a, e)[0] == a[EntryAt(e)] && Entry(a, e)[1] == a[EntryAt(e) + 1];
    assert Entry(b, e)[0] == b[EntryAt(e)] && Entry(b, e)[1] == b[EntryAt(e) + 1];
    assert EntryBlock(a, e) == Entry(a, e)[2..] && EntryBlock(b, e) == Entry(b, e)[2..];
  }

  lemma ClaimedIsEmpty(win: seq<Word>)
    requires |win| == WINDOW
    ensures |Claimed(win)| == WINDOW && Claimed(win)[TABLE_WORD] == TABLE_MAGIC
    ensures forall e | 0 <= e < ENTRY_COUNT :: !Taken(Claimed(win), e)
    ensures Claimed(win)[..TABLE_WORD] == win[..TABLE_WORD]
  {
    assert forall e | 0 <= e < ENTRY_COUNT ::
        TABLE_WORD < EntryAt(e) < EntryAt(e) + 1 <= TABLE_WORD + ENTRY_COUNT * ENTRY_WORDS;
  }

  /** The table a save works on: the window's own, or a freshly claimed one. */
  function Ready(s: Saved): (win: seq<Word>)
    requires |s.win| == WINDOW
    ensures |win| == WINDOW
  {
    if s.haveTable then s.win else Claimed(s.win)
  }

  /** A save with a disk mounted replaces one entry: the disk's own if it has one,
      else the first free one, and only of a full table the victim, after which the
      next entry round is the next victim. Every other word keeps its value. */
  lemma SaveReplacesOneEntry(s: Saved)
    requires s.Valid() && s.dirty && s.hash != 0
    ensures var now, was, e := Flushed(s), Ready(s), Flushed(s).slot;
      && 0 <= e < ENTRY_COUNT && Holds(now.win, e, s.hash) && EntryBlock(now.win, e) == Block(s.live)
      && (forall f | 0 <= f < ENTRY_COUNT && f != e :: Entry(now.win, f) == Entry(was, f))
      && (forall j | 0 <= j < EntryAt(e) || EntryAt(e) + ENTRY_WORDS <= j < WINDOW :: now.win[j] == was[j])
      && ((exists f | 0 <= f < ENTRY_COUNT :: Holds(was, f, s.hash)) ==> Holds(was, e, s.hash))
      && (Taken(was, e) && was[EntryAt(e)] != s.hash ==>
            && (forall f | 0 <= f < ENTRY_COUNT :: Taken(was, f))
            && e == s.evict && now.evict == (s.evict + 1) % ENTRY_COUNT)
      && (!Taken(was, e) ==> now.evict == s.evict && forall f | 0 <= f < e :: Taken(was, f))
      && (Holds(was, e, s.hash) ==> now.evict == s.evict)
  {
    hide Block, Claimed, Distinct, SlotFor, Evicts, NextVictim, EntryBlock, Entry;
    var was := Ready(s);
    SlotChosen(s, was);
    PatchedEntry(was, SlotFor(s, was), s.hash, s.live);
  }

  /** Where a save puts what: the blob at word 128, eleven entries of ten words from word
      139 on, a hash and its complement before each block, the mark of the table before
      them all. */
  lemma SavedWords(s: Saved)
    requires s.Valid() && s.dirty
    ensures var now := Flushed(s); var at := 139 + 10 * now.slot;
      && now.win[138] == 0x504B5444
      && (s.hash == 0 ==>
            now.win[128] == 0x50435853 && now.win[129] == 0x150A && now.win[130..138] == Block(s.live))
      && (s.hash != 0 ==>
            && 0 <= now.slot < 11 && now.win[at] == s.hash && now.win[at] as int + now.win[at + 1] == 0xFFFF_FFFF
            && now.win[at + 2..at + 10] == Block(s.live))
  {
    hide Block, SlotFor, Evicts, NextVictim, Patched, Profile, Blob, Claimed, Distinct;
    ReadyIsTable(s);
    if s.hash == 0 { BlobWords(Ready(s), s.live); } else { EntryWords(Ready(s), SlotFor(s, Ready(s)), s.hash, s.live); }
  }

  lemma ReadyIsTable(s: Saved)
    requires s.Valid()
    ensures Ready(s)[138] == 0x504B5444
  {
    hide Distinct;
  }

  lemma BlobWords(win: seq<Word>, live: Live)
    requires |win| == WINDOW && live.Valid()
    ensures var now := Patched(win, SETTINGS_WORD, Blob(live));
      now[128] == 0x50435853 && now[129] == 0x150A && now[130..138] == Block(live) && now[138] == win[138]
  {
    hide Block;
    assert Blob(live)[2..] == Block(live);
    assert Patched(win, SETTINGS_WORD, Blob(live))[130..138] == Blob(live)[2..];
  }

  lemma EntryWords(win: seq<Word>, e: nat, hash: Word, live: Live)
    requires |win| == WINDOW && live.Valid() && e < 11
    ensures var now, at := Patched(win, EntryAt(e), Profile(hash, live)), 139 + 10 * e;
      && now[at] == hash && now[at] as int + now[at + 1] == 0xFFFF_FFFF
      && now[at + 2..at + 10] == Block(live) && now[138] == win[138]
  {
    hide Block;
    var at := 139 + 10 * e;
    assert Profile(hash, live)[2..] == Block(live);
    assert Patched(win, EntryAt(e), Profile(hash, live))[at + 2..at + 10] == Profile(hash, live)[2..];
  }

  /** Which entry that is, and what it does to the victim. */
  lemma SlotChosen(s: Saved, was: seq<Word>)
    requires s.Valid() && s.hash != 0 && |was| == WINDOW && (s.slot >= 0 ==> was == s.win)
    ensures var e := SlotFor(s, was);
      && ((exists f | 0 <= f < ENTRY_COUNT :: Holds(was, f, s.hash)) ==> Holds(was, e, s.hash))
      && (Taken(was, e) && was[EntryAt(e)] != s.hash ==>
            (forall f | 0 <= f < ENTRY_COUNT :: Taken(was, f)) && e == s.evict && Evicts(s, was))
      && (!Taken(was, e) ==> !Evicts(s, was) && forall f | 0 <= f < e :: Taken(was, f))
      && (Holds(was, e, s.hash) ==> !Evicts(s, was))
    ensures NextVictim(s.evict) == (s.evict + 1) % ENTRY_COUNT
  {
    hide Distinct, Current;
  }

  /** Without one, the global blob and nothing else. */
  lemma SaveReplacesBlob(s: Saved)
    requires s.Valid() && s.dirty && s.hash == 0
    ensures var now, was := Flushed(s), Ready(s);
      && BlobOf(now.win) == Blob(s.live) && now.evict == s.evict && now.slot == s.slot
      && (forall j | 0 <= j < SETTINGS_WORD || TABLE_WORD <= j < WINDOW :: now.win[j] == was[j])
      && (forall f | 0 <= f < ENTRY_COUNT :: Entry(now.win, f) == Entry(was, f))
  {
    hide Block, Claimed, Distinct, Adopted;
  }

  function BlobOf(win: seq<Word>): seq<Word>
    requires |win| == WINDOW
  {
    win[SETTINGS_WORD..TABLE_WORD]
  }

  /** A saved blob comes back whole, whatever was live. */
  lemma BlobRoundTrip(win: seq<Word>, live: Live, before: Live)
    requires |win| == WINDOW && live.Valid() && before.Valid() && BlobOf(win) == Blob(live)
    ensures Global(win, before) == live
  {
    hide Block, Adopted;
    HeaderBytes();
    assert BlobOf(win)[0] == win[SETTINGS_WORD] && BlobOf(win)[1] == win[SETTINGS_WORD + 1];
    assert win[BLOB_BLOCK..][..BLOCK_WORDS] == Blob(live)[2..] == Block(live);
    BlockRoundTrip(live, before);
    AdoptedPrefix(before, Block(live), win[BLOB_BLOCK..], SET_COUNT);
  }

  lemma HeaderBytes()
    ensures ByteOf(SETTINGS_VERSION + SET_COUNT * 256, 0) == SETTINGS_VERSION
    ensures ByteOf(SETTINGS_VERSION + SET_COUNT * 256, 1) == SET_COUNT
  {
  }

  /** A block is read no further than it goes. */
  lemma AdoptedPrefix(before: Live, block: seq<Word>, more: seq<Word>, count: nat)
    requires before.Valid() && |block| == WordsFor(count) + 2 <= |more| && more[..|block|] == block
    ensures Adopted(before, more, count) == Adopted(before, block, count)
  {
    hide ByteOf, Flag;
    forall j | 0 <= j < 4 * |block| ensures StoredByte(more, j) == StoredByte(block, j) {
      assert more[j / 4] == more[..|block|][j / 4];
    }
    assert forall b | 0 <= b < 8 :: AdoptedCode(more, count, b) == AdoptedCode(block, count, b);
    assert Adopted(before, more, count).values == Adopted(before, block, count).values;
    assert Adopted(before, more, count).codes == Adopted(before, block, count).codes;
    assert Adopted(before, more, count).ext == Adopted(before, block, count).ext;
  }

  // ---- runs -----------------------------------------------------------------

  /** What happens to a store: a row stepped right or left (drive sound only where
      the build has it), a button bound, the defaults restored, the main loop's
      save, a disk mounted or, with hash 0, unbound, the power cycled. */
  datatype Event =
    | Stepped(i: nat, right: bool, sound: bool)
    | Bound(b: nat, code: nat, ext: bool)
    | Restored
    | Served
    | Changed(hash: Word)
    | Booted

  predicate Possible(ev: Event) {
    match ev
    case Stepped(i, _, _) => i < SET_COUNT
    case Bound(b, code, _) => b < BIND_COUNT && code < 256
    case _ => true
  }

  function Turned(v: nat, i: nat, right: bool): (r: nat)
    requires v < Options(i)
    ensures r < Options(i)
  {
    if right then (if v + 1 >= Options(i) then 0 else v + 1)
    else if v > 0 then v - 1 else Options(i) - 1
  }

  /** A row goes round: right by one, and left undoes right. */
  lemma TurnsRound(v: nat, i: nat)
    requires v < Options(i)
    ensures Turned(v, i, true) == (v + 1) % Options(i)
    ensures Turned(Turned(v, i, true), i, false) == v == Turned(Turned(v, i, false), i, true)
  {
    hide Options;
  }

  function Do(s: Saved, ev: Event): Saved
    requires |s.win| == WINDOW && s.live.Valid() && s.slot < ENTRY_COUNT && s.evict < ENTRY_COUNT && Possible(ev)
  {
    match ev
    case Stepped(i, right, sound) =>
      if i == 12 && !sound then s
      else s.(live := s.live.(values := s.live.values[i := Turned(s.live.values[i], i, right)]), dirty := true)
    case Bound(b, code, ext) =>
      s.(live := s.live.(codes := s.live.codes[b := code], ext := s.live.ext[b := ext]), dirty := true)
    case Restored => s.(live := Defaults(), dirty := true)
    case Served => Flushed(s)
    case Changed(hash) => Mounted(s, hash)
    case Booted => PoweredUp(s.win)
  }

  /** A store at power-up over a window of this version: edits not saved are gone, the
      blob or the defaults are live and no disk is known. */
  function PoweredUp(win: seq<Word>): Saved
    requires |win| == WINDOW
  {
    Saved(win, Global(win, Defaults()), false, win[TABLE_WORD] == TABLE_MAGIC, 0, -1, 0)
  }

  /** What an event saves, and for which context. */
  function SavedBy(s: Saved, ev: Event): map<Word, Live> {
    if s.dirty && (ev.Served? || (ev.Changed? && ev.hash != s.hash)) then map[s.hash := s.live] else map[]
  }

  /** The store agrees with the last save of every context that was saved. */
  ghost predicate Kept(s: Saved, book: map<Word, Live>) {
    && s.Valid()
    && (forall h | h in book :: book[h].Valid())
    && (!s.haveTable ==> book == map[])
    && (forall e | 0 <= e < ENTRY_COUNT && Taken(s.win, e) && s.win[EntryAt(e)] in book ::
          EntryBlock(s.win, e) == Block(book[s.win[EntryAt(e)]]))
    && (0 in book ==> BlobOf(s.win) == Blob(book[0]))
  }

  lemma ReadyKept(s: Saved, book: map<Word, Live>)
    requires Kept(s, book)
    ensures Kept(s.(win := Ready(s), haveTable := true), book)
  {
    hide Claimed;
    ClaimedIsEmpty(s.win);
  }

  /** A profile saved over entry `e`: every entry still agrees with the last save
      of its disk, and no disk has two. */
  lemma EntrySaved(s: Saved, book: map<Word, Live>)
    requires Kept(s, book) && s.dirty && s.hash != 0
    ensures Kept(Flushed(s), book[s.hash := s.live])
  {
    hide Block, Claimed, Flushed, Entry, EntryBlock;
    var t, now := s.(win := Ready(s), haveTable := true), Flushed(s);
    ReadyKept(s, book);
    SaveReplacesOneEntry(s);
    FlushedKeeps(s);
    assert TakenPair(s.hash, Tag(s.hash));
    forall f | 0 <= f < ENTRY_COUNT && f != now.slot
      ensures now.win[EntryAt(f)] == t.win[EntryAt(f)] && (Taken(now.win, f) <==> Taken(t.win, f))
      ensures EntryBlock(now.win, f) == EntryBlock(t.win, f)
      ensures Taken(now.win, f) ==> now.win[EntryAt(f)] != s.hash
    {
      SameEntry(now.win, t.win, f);
      if Holds(t.win, f, s.hash) {
        assert false;
      }
    }
  }

  lemma FlushedKeeps(s: Saved)
    requires s.Valid() && s.dirty && s.hash != 0
    ensures var now := Flushed(s);
      && |now.win| == WINDOW && now.live == s.live && now.hash == s.hash && now.haveTable && now.evict < ENTRY_COUNT
      && 0 <= now.slot < ENTRY_COUNT && BlobOf(now.win) == BlobOf(s.win)
  {
    hide Block, Distinct, Patched, Profile, Claimed, BlobOf, FindFrom, FreeFrom;
    var was := Ready(s);
    PatchedEntry(was, SlotFor(s, was), s.hash, s.live);
    ReadyBlob(s);
    BlobStays(Flushed(s).win, was);
  }

  lemma ReadyBlob(s: Saved)
    requires |s.win| == WINDOW
    ensures BlobOf(Ready(s)) == BlobOf(s.win)
  {
    hide Zeros;
    assert BlobOf(Ready(s)) == BlobOf(s.win);
  }

  lemma BlobStays(now: seq<Word>, was: seq<Word>)
    requires |now| == |was| == WINDOW && now[..TABLE_WORD + 1] == was[..TABLE_WORD + 1]
    ensures BlobOf(now) == BlobOf(was)
  {
    assert forall i | 0 <= i < TABLE_WORD :: now[i] == now[..TABLE_WORD + 1][i] == was[i];
  }

  lemma BlobSaved(s: Saved, book: map<Word, Live>)
    requires Kept(s, book) && s.dirty && s.hash == 0
    ensures Kept(Flushed(s), book[0 := s.live])
  {
    hide Block, Claimed, Blob, Entry, EntryBlock, BlobOf, Patched, Current;
    var t, now := s.(win := Ready(s), haveTable := true), Flushed(s);
    ReadyKept(s, book);
    SaveReplacesBlob(s);
    BlobIsCurrent(now.win, s.live);
    forall f | 0 <= f < ENTRY_COUNT
      ensures now.win[EntryAt(f)] == t.win[EntryAt(f)] && (Taken(now.win, f) <==> Taken(t.win, f))
      ensures EntryBlock(now.win, f) == EntryBlock(t.win, f)
    {
      SameEntry(now.win, t.win, f);
    }
  }

  lemma BlobIsCurrent(win: seq<Word>, live: Live)
    requires |win| == WINDOW && live.Valid() && BlobOf(win) == Blob(live)
    ensures Current(win)
  {
    hide Block;
    HeaderBytes();
    assert BlobOf(win)[1] == win[SETTINGS_WORD + 1];
  }

  /** Saving keeps the book. */
  lemma FlushKeeps(s: Saved, book: map<Word, Live>)
    requires Kept(s, book)
    ensures Kept(Flushed(s), book + SavedBy(s, Served))
  {
    hide Kept;
    if !s.dirty {
      assert book + map[] == book;
    } else {
      assert book + map[s.hash := s.live] == book[s.hash := s.live];
      if s.hash == 0 { BlobSaved(s, book); } else { EntrySaved(s, book); }
    }
  }

  lemma MountKeeps(s: Saved, book: map<Word, Live>, hash: Word)
    requires Kept(s, book)
    ensures Kept(Mounted(s, hash), book + SavedBy(s, Changed(hash)))
  {
    hide Flushed, Adopted, Global, BlobOf, Blob, EntryBlock, Block, Distinct;
    if hash == s.hash {
      assert book + map[] == book;
    } else {
      FlushKeeps(s, book);
    }
  }

  /** A power cycle keeps every save. */
  lemma BootKeeps(s: Saved, book: map<Word, Live>)
    requires Kept(s, book)
    ensures Kept(PoweredUp(s.win), book) && book + SavedBy(s, Booted) == book
  {
    hide Adopted, BlobOf, Blob, EntryBlock, Block, Distinct, Current;
  }

  /** Every event keeps the book. */
  lemma EventKeeps(s: Saved, book: map<Word, Live>, ev: Event)
    requires Kept(s, book) && Possible(ev)
    ensures Kept(Do(s, ev), book + SavedBy(s, ev))
  {
    hide Flushed, Mounted, BlobOf, Blob, EntryBlock, Block, Distinct;
    match ev
    case Served => FlushKeeps(s, book);
    case Changed(hash) => MountKeeps(s, book, hash);
    case Booted => BootKeeps(s, book);
    case _ => assert book + map[] == book;
  }

  /** A run, and what it last saved for each context. */
  ghost function Run(s: Saved, evs: seq<Event>): (r: (Saved, map<Word, Live>))
    requires s.Valid() && forall i | 0 <= i < |evs| :: Possible(evs[i])
    ensures r.0.Valid() && Kept(r.0, r.1)
  {
    if evs == [] then (s, map[])
    else
      var n := |evs| - 1;
      var (t, book) := Run(s, evs[..n]);
      EventKeeps(t, book, evs[n]);
      (Do(t, evs[n]), book + SavedBy(t, evs[n]))
  }

  lemma RunExtends(s: Saved, evs: seq<Event>, ev: Event)
    requires s.Valid() && (forall i | 0 <= i < |evs| :: Possible(evs[i])) && Possible(ev)
    ensures Run(s, evs + [ev]).0 == Do(Run(s, evs).0, ev)
    ensures Run(s, evs + [ev]).1 == Run(s, evs).1 + SavedBy(Run(s, evs).0, ev)
  {
    hide Kept, Do, SavedBy;
    assert (evs + [ev])[..|evs|] == evs;
  }

  /** A change of disk from `was` to `now`, `book` being what was last saved for
      each context: what was pending is the outgoing context's last save; a disk
      that has an entry, and was ever saved, has exactly its last save live; one
      without, and the empty drive, have the last save made with no disk. */
  ghost predicate Restores(was: Saved, now: Saved, book: map<Word, Live>, hash: Word)
    requires now.Valid()
  {
    && now.hash == hash && !now.dirty
    && (was.dirty ==> was.hash in book && book[was.hash] == was.live)
    && (now.slot >= 0 <==> hash != 0 && now.haveTable && exists e | 0 <= e < ENTRY_COUNT :: Holds(now.win, e, hash))
    && (now.slot >= 0 && hash in book ==> now.live == book[hash])
    && (now.slot < 0 && 0 in book ==> now.live == book[0])
  }

  lemma FlushedStays(s: Saved)
    requires s.Valid()
    ensures var f := Flushed(s); !f.dirty && f.live == s.live
  {
    hide Patched, Block, Blob, Claimed, SlotFor, Distinct;
  }

  lemma MountRestores(was: Saved, book: map<Word, Live>, hash: Word)
    requires Kept(was, book) && hash != was.hash
    ensures var now := Mounted(was, hash);
      now.Valid() && Restores(was, now, book + SavedBy(was, Changed(hash)), hash)
  {
    hide Adopted, Global, Block, Blob, BlobOf, EntryBlock, Distinct, Flushed, FindFrom, Current;
    var f, now, after := Flushed(was), Mounted(was, hash), book + SavedBy(was, Changed(hash));
    MountKeeps(was, book, hash);
    FlushedStays(was);
    if now.slot >= 0 && hash in after {
      assert Taken(now.win, now.slot);
      BlockRoundTrip(after[hash], f.live);
    }
    if now.slot < 0 && 0 in after {
      BlobRoundTrip(now.win, after[0], f.live);
    }
  }

  /** After any run whatever, the next change of disk restores. */
  lemma RemountRestores(s: Saved, evs: seq<Event>, hash: Word)
    requires s.Valid() && forall i | 0 <= i < |evs| :: Possible(evs[i])
    requires Run(s, evs).0.hash != hash
    ensures var (now, book) := Run(s, evs + [Changed(hash)]); Restores(Run(s, evs).0, now, book, hash)
  {
    hide Run, Kept, Mounted, Restores, SavedBy;
    RunExtends(s, evs, Changed(hash));
    MountRestores(Run(s, evs).0, Run(s, evs).1, hash);
  }
}
