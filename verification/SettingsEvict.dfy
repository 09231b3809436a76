/** Which profiles a full table gives up: the victims go round, so a profile that was just
    saved is the last to go. */
module SettingsEvict {
  import opened SettingsBlock
  import opened SettingsTable
  import opened SettingsRun

  /** An entry that held one disk's profile no longer does. */
  predicate Lost(was: seq<Word>, now: seq<Word>, e: nat)
    requires |was| == WINDOW && |now| == WINDOW && e < ENTRY_COUNT
  {
    Taken(was, e) && !Holds(now, e, was[EntryAt(e)])
  }

  ghost predicate Evicting(was: seq<Word>, now: seq<Word>)
    requires |was| == WINDOW && |now| == WINDOW
  {
    exists e | 0 <= e < ENTRY_COUNT :: Lost(was, now, e)
  }

  /** A save of a store with a table loses at most one profile: that of the victim, which
      then moves on by one. */
  lemma SaveEvicts(s: Saved, e: nat)
    requires s.Valid() && s.haveTable && e < ENTRY_COUNT
    ensures var now := Flushed(s);
      && |now.win| == WINDOW && now.haveTable && now.evict < ENTRY_COUNT
      && (Lost(s.win, now.win, e) ==> e == s.evict)
      && now.evict == if Evicting(s.win, now.win) then (s.evict + 1) % ENTRY_COUNT else s.evict
  {
    hide Block, Patched, Distinct, Entry, EntryBlock, FindFrom, FreeFrom, Flushed;
    var now := Flushed(s);
    if s.dirty && s.hash != 0 {
      FlushedKeeps(s);
      SaveReplacesOneEntry(s);
      ReadyIs(s);
      forall f: nat | f < ENTRY_COUNT && f != now.slot
        ensures !Lost(s.win, now.win, f)
      {
        SameEntry(now.win, s.win, f);
      }
      assert Taken(s.win, now.slot) && s.win[EntryAt(now.slot)] != s.hash <==> Lost(s.win, now.win, now.slot);
    } else if s.dirty {
      SaveReplacesBlob(s);
      ReadyIs(s);
      BlobSaveKeeps(s);
      forall f: nat | f < ENTRY_COUNT ensures !Lost(s.win, now.win, f) { SameEntry(now.win, s.win, f); }
    } else {
      NothingDue(s);
    }
  }

  /** A disk the full table has no entry for takes the victim's. */
  lemma FullTableEvicts(s: Saved)
    requires s.Valid() && s.haveTable && s.dirty && s.hash != 0
    requires forall e | 0 <= e < ENTRY_COUNT :: Taken(s.win, e) && s.win[EntryAt(e)] != s.hash
    ensures var now := Flushed(s);
      |now.win| == WINDOW && Lost(s.win, now.win, s.evict) && Holds(now.win, s.evict, s.hash)
  {
    hide Block, Patched, Distinct, Entry, EntryBlock, FindFrom, FreeFrom, Flushed;
    FlushedKeeps(s);
    SaveReplacesOneEntry(s);
    ReadyIs(s);
  }

  lemma ReadyIs(s: Saved)
    requires s.Valid() && s.haveTable
    ensures Ready(s) == s.win
  {
  }

  lemma NothingDue(s: Saved)
    requires s.Valid() && !s.dirty
    ensures Flushed(s) == s && !Evicting(s.win, s.win) && forall e | 0 <= e < ENTRY_COUNT :: !Lost(s.win, s.win, e)
  {
    hide Distinct;
  }

  lemma BlobSaveKeeps(s: Saved)
    requires s.Valid() && s.dirty && s.hash == 0
    ensures var now := Flushed(s); |now.win| == WINDOW && now.haveTable && now.evict == s.evict
  {
    hide Block, Patched, Distinct, Claimed;
  }

  /** What any event but a power cycle does to the profiles. */
  lemma EventEvicts(s: Saved, ev: Event, e: nat)
    requires s.Valid() && s.haveTable && Possible(ev) && ev != Booted && e < ENTRY_COUNT
    ensures var now := Do(s, ev);
      && |now.win| == WINDOW && now.haveTable && now.evict < ENTRY_COUNT
      && (Lost(s.win, now.win, e) ==> e == s.evict)
      && now.evict == if Evicting(s.win, now.win) then (s.evict + 1) % ENTRY_COUNT else s.evict
  {
    hide Block, Distinct, Flushed, Adopted, Global, EntryBlock, FindFrom;
    SaveEvicts(s, e);
    NothingDue(s.(dirty := false));
  }

  // ---- runs ---------------------------------------------------------------

  predicate Uninterrupted(evs: seq<Event>) {
    forall i | 0 <= i < |evs| :: Possible(evs[i]) && evs[i] != Booted
  }

  /** How many profiles a run loses to others. */
  ghost function Evictions(s: Saved, evs: seq<Event>): nat
    requires s.Valid() && Uninterrupted(evs)
  {
    if evs == [] then 0
    else
      var n := |evs| - 1;
      var t := Run(s, evs[..n]).0;
      Evictions(s, evs[..n]) + if Evicting(t.win, Do(t, evs[n]).win) then 1 else 0
  }

  /** The victim of a run's next eviction: one entry further round for each so far. */
  lemma {:induction false} VictimsGoRound(s: Saved, evs: seq<Event>)
    requires s.Valid() && s.haveTable && Uninterrupted(evs)
    ensures var r := Run(s, evs).0; r.haveTable && r.evict == (s.evict + Evictions(s, evs)) % ENTRY_COUNT
    decreases |evs|
  {
    hide Do, SavedBy, Evicting, SettingsRun.Kept;
    if evs != [] {
      var n := |evs| - 1;
      VictimsGoRound(s, evs[..n]);
      EventEvicts(Run(s, evs[..n]).0, evs[n], 0);
      Round(s.evict + Evictions(s, evs[..n]));
    }
  }

  lemma Round(n: nat)
    ensures (n % ENTRY_COUNT + 1) % ENTRY_COUNT == (n + 1) % ENTRY_COUNT
  {
  }

  /** Eleven evictions in a row have eleven victims: two different ones that lose the same
      entry are at least eleven evictions apart. */
  lemma VictimsDiffer(s: Saved, evs: seq<Event>, i: nat, j: nat, e: nat)
    requires s.Valid() && s.haveTable && Uninterrupted(evs) && i < j < |evs| && e < ENTRY_COUNT
    requires Lost(Run(s, evs[..i]).0.win, Run(s, evs[..i + 1]).0.win, e)
    requires Lost(Run(s, evs[..j]).0.win, Run(s, evs[..j + 1]).0.win, e)
    ensures Evictions(s, evs[..j]) >= Evictions(s, evs[..i]) + ENTRY_COUNT
  {
    hide Run, Evictions, Lost;
    LostAt(s, evs, i, e);
    LostAt(s, evs, j, e);
    EvictionsGrow(s, evs, i + 1, j);
    SameRound(s.evict + Evictions(s, evs[..i]), s.evict + Evictions(s, evs[..j]));
  }

  lemma SameRound(a: nat, b: nat)
    requires a < b && a % ENTRY_COUNT == b % ENTRY_COUNT
    ensures b >= a + ENTRY_COUNT
  {
  }

  lemma LostAt(s: Saved, evs: seq<Event>, i: nat, e: nat)
    requires s.Valid() && s.haveTable && Uninterrupted(evs) && i < |evs| && e < ENTRY_COUNT
    requires Lost(Run(s, evs[..i]).0.win, Run(s, evs[..i + 1]).0.win, e)
    ensures e == (s.evict + Evictions(s, evs[..i])) % ENTRY_COUNT
    ensures Evictions(s, evs[..i + 1]) == Evictions(s, evs[..i]) + 1
  {
    hide Do, SavedBy, Lost, SettingsRun.Kept;
    assert evs[..i + 1][..i] == evs[..i] && evs[..i + 1][i] == evs[i];
    VictimsGoRound(s, evs[..i]);
    EventEvicts(Run(s, evs[..i]).0, evs[i], e);
  }

  lemma {:induction false} EvictionsGrow(s: Saved, evs: seq<Event>, i: nat, j: nat)
    requires s.Valid() && Uninterrupted(evs) && i <= j <= |evs|
    ensures Evictions(s, evs[..i]) <= Evictions(s, evs[..j])
    decreases j
  {
    hide Run, Do, Evicting;
    if i < j {
      EvictionsGrow(s, evs, i, j - 1);
      assert evs[..j][..j - 1] == evs[..j - 1];
    }
  }

  /** A profile saved over entry `v` is still there, with its disk's last save, until ten
      more evictions have taken place and one more comes, whatever edits, saves and changes
      of disk lie between. */
  lemma {:induction false} EvictorLasts(s: Saved, evs: seq<Event>, v: nat)
    requires s.Valid() && s.haveTable && Uninterrupted(evs) && 0 < |evs| && v < ENTRY_COUNT
    requires Lost(s.win, Run(s, evs[..1]).0.win, v) && Evictions(s, evs) <= ENTRY_COUNT
    ensures var (r, book) := Run(s, evs);
      && s.hash != 0 && Holds(r.win, v, s.hash) && s.hash in book && EntryBlock(r.win, v) == Block(book[s.hash])
    decreases |evs|
  {
    hide Do, SavedBy, Evicting, EntryBlock, Block, Lost, Holds, SettingsRun.Kept;
    var n := |evs| - 1;
    if n == 0 {
      FirstEviction(s, evs, v);
    } else {
      var before := evs[..n];
      assert before[..1] == evs[..1];
      EvictorLasts(s, before, v);
      var (t, book) := Run(s, before);
      VictimsGoRound(s, before);
      EventEvicts(t, evs[n], v);
      if Lost(t.win, Do(t, evs[n]).win, v) {
        assert evs[..0] == [] && evs[..n + 1] == evs;
        VictimsDiffer(s, evs, 0, n, v);
        LostAt(s, evs, n, v);
      }
      StaysHeld(t, evs[n], v, s.hash);
      Booked(book, t, evs[n], s.hash);
    }
    LastSaved(s, evs, v);
  }

  lemma StaysHeld(s: Saved, ev: Event, v: nat, hash: Word)
    requires s.Valid() && s.haveTable && Possible(ev) && ev != Booted && v < ENTRY_COUNT && Holds(s.win, v, hash)
    requires hash != 0 && |Do(s, ev).win| == WINDOW && !Lost(s.win, Do(s, ev).win, v)
    ensures Holds(Do(s, ev).win, v, hash)
  {
    hide Do, Distinct, Current;
  }

  lemma Booked(book: map<Word, Live>, s: Saved, ev: Event, hash: Word)
    requires hash in book
    ensures hash in book + SavedBy(s, ev)
  {
  }

  lemma LastSaved(s: Saved, evs: seq<Event>, v: nat)
    requires s.Valid() && Uninterrupted(evs) && v < ENTRY_COUNT
    requires var (r, book) := Run(s, evs); s.hash != 0 && Holds(r.win, v, s.hash) && s.hash in book
    ensures var (r, book) := Run(s, evs); EntryBlock(r.win, v) == Block(book[s.hash])
  {
    hide Run, SettingsRun.Kept, EntryBlock, Block;
    var (r, book) := Run(s, evs);
    HeldAgrees(r, book, v, s.hash);
  }

  lemma HeldAgrees(s: Saved, book: map<Word, Live>, v: nat, hash: Word)
    requires SettingsRun.Kept(s, book) && v < ENTRY_COUNT && Holds(s.win, v, hash) && hash in book && hash != 0
    ensures EntryBlock(s.win, v) == Block(book[hash])
  {
    hide EntryBlock, Block, Distinct, BlobOf, Blob, Current;
    assert Taken(s.win, v) && s.win[EntryAt(v)] == hash;
  }

  lemma FirstEviction(s: Saved, evs: seq<Event>, v: nat)
    requires s.Valid() && s.haveTable && Uninterrupted(evs) && |evs| == 1 && v < ENTRY_COUNT
    requires Lost(s.win, Run(s, evs).0.win, v)
    ensures s.hash != 0 && Holds(Run(s, evs).0.win, v, s.hash) && s.hash in Run(s, evs).1
  {
    hide Block, Distinct, Flushed, Adopted, Global, EntryBlock, FindFrom, Entry;
    assert evs[..0] == [];
    EvictionSaves(s, v);
  }

  lemma EvictionSaves(s: Saved, v: nat)
    requires s.Valid() && s.haveTable && v < ENTRY_COUNT && |Flushed(s).win| == WINDOW && Lost(s.win, Flushed(s).win, v)
    ensures s.dirty && s.hash != 0 && Holds(Flushed(s).win, v, s.hash)
  {
    hide Block, Distinct, Flushed, EntryBlock, FindFrom, Entry;
    var now := Flushed(s);
    ReadyIs(s);
    if !s.dirty {
      NothingDue(s);
    } else if s.hash == 0 {
      SaveReplacesBlob(s);
      SameEntry(now.win, s.win, v);
    } else {
      SaveReplacesOneEntry(s);
      if v != now.slot { SameEntry(now.win, s.win, v); }
    }
  }

  /** So mounting that disk again brings its last save back. */
  lemma EvictorComesBack(s: Saved, evs: seq<Event>, v: nat)
    requires s.Valid() && s.haveTable && Uninterrupted(evs) && 0 < |evs| && v < ENTRY_COUNT
    requires Lost(s.win, Run(s, evs[..1]).0.win, v) && Evictions(s, evs + [Changed(s.hash)]) <= ENTRY_COUNT
    requires Run(s, evs).0.hash != s.hash
    ensures var (r, book) := Run(s, evs + [Changed(s.hash)]); s.hash in book && r.live == book[s.hash]
  {
    hide Run, Evictions, Lost, SettingsRun.Kept, EntryBlock, Block, Restores, Holds;
    var all := evs + [Changed(s.hash)];
    assert all[..1] == evs[..1];
    EvictorLasts(s, all, v);
    RemountRestores(s, evs, s.hash);
    VictimsGoRound(s, all);
    var (r, book) := Run(s, all);
    HeldComesBack(Run(s, evs).0, r, book, s.hash, v);
  }

  lemma HeldComesBack(was: Saved, now: Saved, book: map<Word, Live>, hash: Word, v: nat)
    requires now.Valid() && now.haveTable && hash != 0 && hash in book && Restores(was, now, book, hash)
    requires v < ENTRY_COUNT && Holds(now.win, v, hash)
    ensures now.live == book[hash]
  {
    hide Distinct, Current, Holds;
  }
}
