/** The per-disk table in the save window: its entries, and where each profile of
    the previous layout belongs in this one. */
module SettingsTable {
  import opened SettingsBlock

  const WINDOW := 256
  const SETTINGS_WORD := 128
  const BLOB_BLOCK := 130
  const TABLE_WORD := 138
  const TABLE_MAGIC: Word := 0x504B5444
  const ENTRY_WORDS := 10
  const ENTRY_COUNT := 11

  const V9_TABLE_WORD := 137
  const V9_ENTRY_WORDS := 9
  const V9_ENTRY_COUNT := 13

  /** The validity tag of a hash: its complement. */
  function Tag(h: Word): Word { 0xFFFF_FFFF - h }

  function EntryAt(e: nat): nat { TABLE_WORD + 1 + e * ENTRY_WORDS }

  function OldEntryAt(e: nat): nat { V9_TABLE_WORD + 1 + e * V9_ENTRY_WORDS }

  /** A hash pair that stands for a profile. */
  predicate TakenPair(h: Word, nh: Word) { h != 0 && nh == Tag(h) }

  predicate Taken(win: seq<Word>, e: nat)
    requires |win| == WINDOW && e < ENTRY_COUNT
  {
    TakenPair(win[EntryAt(e)], win[EntryAt(e) + 1])
  }

  /** Entry `e` is the profile of `hash`. */
  predicate Holds(win: seq<Word>, e: nat, hash: Word)
    requires |win| == WINDOW && e < ENTRY_COUNT
  {
    win[EntryAt(e)] == hash && win[EntryAt(e) + 1] == Tag(hash)
  }

  function Entry(win: seq<Word>, e: nat): (entry: seq<Word>)
    requires |win| == WINDOW && e < ENTRY_COUNT
    ensures |entry| == ENTRY_WORDS
  {
    win[EntryAt(e)..EntryAt(e) + ENTRY_WORDS]
  }

  function EntryBlock(win: seq<Word>, e: nat): (block: seq<Word>)
    requires |win| == WINDOW && e < ENTRY_COUNT
    ensures |block| == BLOCK_WORDS
  {
    win[EntryAt(e) + 2..EntryAt(e) + ENTRY_WORDS]
  }

  /** No two profiles are of the same disk. */
  predicate Distinct(win: seq<Word>)
    requires |win| == WINDOW
  {
    forall e, f | 0 <= e < f < ENTRY_COUNT && Taken(win, e) && Taken(win, f) :: win[EntryAt(e)] != win[EntryAt(f)]
  }

  // ---- the previous layout ------------------------------------------------

  function OldEntry(win: seq<Word>, e: nat): (entry: seq<Word>)
    requires |win| == WINDOW && e < V9_ENTRY_COUNT
    ensures |entry| == V9_ENTRY_WORDS
  {
    win[OldEntryAt(e)..OldEntryAt(e) + V9_ENTRY_WORDS]
  }

  predicate OldTaken(win: seq<Word>, e: nat)
    requires |win| == WINDOW && e < V9_ENTRY_COUNT
  {
    TakenPair(win[OldEntryAt(e)], win[OldEntryAt(e) + 1])
  }

  predicate OldDistinct(win: seq<Word>)
    requires |win| == WINDOW
  {
    forall e, f | 0 <= e < f < V9_ENTRY_COUNT && OldTaken(win, e) && OldTaken(win, f) ::
      win[OldEntryAt(e)] != win[OldEntryAt(f)]
  }

  /** An old entry in the new layout: the value appended since is its default. */
  function Carried(b: seq<Word>): (entry: seq<Word>)
    requires |b| == V9_ENTRY_WORDS
    ensures |entry| == ENTRY_WORDS
  {
    b[..7] + [Lane(Default(20), 0)] + b[7..]
  }

  function Zeros(n: nat): (z: seq<Word>)
    ensures |z| == n && forall i | 0 <= i < n :: z[i] == 0
  {
    seq(n, _ => 0)
  }

  /** The profiles with no slot of their own, in the order they are stashed. */
  function Tails(win: seq<Word>): (tails: seq<nat>)
    requires |win| == WINDOW
    ensures |tails| <= 2 && forall t | 0 <= t < |tails| :: 11 <= tails[t] <= 12 && OldTaken(win, tails[t])
    ensures forall e | 11 <= e <= 12 && OldTaken(win, e) :: e in tails
  {
    (if OldTaken(win, 12) then [12] else []) + (if OldTaken(win, 11) then [11] else [])
  }

  /** How many of the first `n` slots no profile of their own claims. */
  function FreeBefore(win: seq<Word>, n: nat): (free: nat)
    requires |win| == WINDOW && n <= ENTRY_COUNT
    ensures free <= n
  {
    if n == 0 then 0 else FreeBefore(win, n - 1) + if OldTaken(win, n - 1) then 0 else 1
  }

  /** The old entry slot `e` receives, -1 for none: its own if there is one, else
      the next tail. */
  function Source(win: seq<Word>, e: nat): (from: int)
    requires |win| == WINDOW && e < ENTRY_COUNT
    ensures -1 <= from < V9_ENTRY_COUNT
  {
    if OldTaken(win, e) then e
    else var t := FreeBefore(win, e); if t < |Tails(win)| then Tails(win)[t] else -1
  }

  function NewEntry(win: seq<Word>, e: nat): (entry: seq<Word>)
    requires |win| == WINDOW && e < ENTRY_COUNT
    ensures |entry| == ENTRY_WORDS
  {
    if Source(win, e) < 0 then Zeros(ENTRY_WORDS) else Carried(OldEntry(win, Source(win, e)))
  }

  /** `now` holds the table of `was`, moved to the new layout. */
  ghost predicate Migrated(was: seq<Word>, now: seq<Word>)
    requires |was| == WINDOW && |now| == WINDOW
  {
    && now[TABLE_WORD] == TABLE_MAGIC
    && forall e | 0 <= e < ENTRY_COUNT :: Entry(now, e) == NewEntry(was, e)
  }

  lemma {:induction false} FreeCounts(win: seq<Word>, e: nat, f: nat)
    requires |win| == WINDOW && e < f <= ENTRY_COUNT
    ensures FreeBefore(win, f) >= FreeBefore(win, e) + if OldTaken(win, e) then 0 else 1
    decreases f
  {
    if e + 1 < f { FreeCounts(win, e, f - 1); }
  }

  /** Nothing is invented and nothing is copied twice. */
  lemma SourcesAreProfiles(win: seq<Word>, e: nat, f: nat)
    requires |win| == WINDOW && e < f < ENTRY_COUNT && Source(win, f) >= 0
    ensures OldTaken(win, Source(win, f)) && Source(win, e) != Source(win, f)
  {
    FreeCounts(win, e, f);
  }

  /** The slot a tail lands in, or no slot is left. */
  lemma {:induction false} TailLands(win: seq<Word>, t: nat, n: nat)
    requires |win| == WINDOW && t < |Tails(win)| && n <= ENTRY_COUNT
    ensures FreeBefore(win, n) > t ==> exists e | 0 <= e < n :: Source(win, e) == Tails(win)[t]
  {
    if FreeBefore(win, n) > t {
      if FreeBefore(win, n - 1) > t {
        TailLands(win, t, n - 1);
      } else {
        assert Source(win, n - 1) == Tails(win)[t];
      }
    }
  }

  /** Nothing is lost while there is room. */
  lemma LostOnlyWhenFull(win: seq<Word>, from: nat)
    requires |win| == WINDOW && from < V9_ENTRY_COUNT && OldTaken(win, from)
    ensures from < ENTRY_COUNT ==> Source(win, from) == from
    ensures (exists e | 0 <= e < ENTRY_COUNT :: Source(win, e) == from)
            || (forall e | 0 <= e < ENTRY_COUNT :: Source(win, e) >= 0)
  {
    if from < ENTRY_COUNT {
    } else {
      var t :| 0 <= t < |Tails(win)| && Tails(win)[t] == from;
      TailLands(win, t, ENTRY_COUNT);
      if FreeBefore(win, ENTRY_COUNT) <= t {
        forall e | 0 <= e < ENTRY_COUNT ensures Source(win, e) >= 0 { FreeCounts(win, e, ENTRY_COUNT); }
      }
    }
  }

  function OldCount(win: seq<Word>, n: nat): nat
    requires |win| == WINDOW && n <= V9_ENTRY_COUNT
  {
    if n == 0 then 0 else OldCount(win, n - 1) + if OldTaken(win, n - 1) then 1 else 0
  }

  function TakenCount(win: seq<Word>, n: nat): nat
    requires |win| == WINDOW && n <= ENTRY_COUNT
  {
    if n == 0 then 0 else TakenCount(win, n - 1) + if Taken(win, n - 1) then 1 else 0
  }

  lemma NewEntryTaken(was: seq<Word>, now: seq<Word>, e: nat)
    requires |was| == WINDOW && |now| == WINDOW && Migrated(was, now) && e < ENTRY_COUNT
    ensures Taken(now, e) <==> Source(was, e) >= 0
    ensures Taken(now, e) ==> now[EntryAt(e)] == was[OldEntryAt(Source(was, e))]
  {
    assert Entry(now, e) == NewEntry(was, e);
    assert now[EntryAt(e)] == Entry(now, e)[0] && now[EntryAt(e) + 1] == Entry(now, e)[1];
    if Source(was, e) >= 0 {
      var s := Source(was, e);
      assert OldTaken(was, s);
      assert OldEntry(was, s)[0] == was[OldEntryAt(s)] && OldEntry(was, s)[1] == was[OldEntryAt(s) + 1];
    }
  }

  lemma SourceOrNone(win: seq<Word>, e: nat)
    requires |win| == WINDOW && e < ENTRY_COUNT
    ensures Source(win, e) >= 0 <==> OldTaken(win, e) || FreeBefore(win, e) < |Tails(win)|
  {
    hide OldTaken, FreeBefore;
  }

  lemma {:induction false} CountsGrow(was: seq<Word>, now: seq<Word>, n: nat)
    requires |was| == WINDOW && |now| == WINDOW && Migrated(was, now) && n <= ENTRY_COUNT
    ensures var placed := if FreeBefore(was, n) < |Tails(was)| then FreeBefore(was, n) else |Tails(was)|;
      TakenCount(now, n) == OldCount(was, n) + placed && FreeBefore(was, n) + OldCount(was, n) == n
  {
    hide Migrated, Source, Tails, OldTaken, Taken;
    if n > 0 {
      CountsGrow(was, now, n - 1);
      NewEntryTaken(was, now, n - 1);
      SourceOrNone(was, n - 1);
    }
  }

  /** As many profiles are kept as there are slots. */
  lemma CountKept(was: seq<Word>, now: seq<Word>)
    requires |was| == WINDOW && |now| == WINDOW && Migrated(was, now)
    ensures var olds := OldCount(was, V9_ENTRY_COUNT);
      TakenCount(now, ENTRY_COUNT) == if olds < ENTRY_COUNT then olds else ENTRY_COUNT
  {
    CountsGrow(was, now, ENTRY_COUNT);
    assert OldCount(was, 13) == OldCount(was, 11) + |Tails(was)|;
  }

  /** Profiles of different disks stay profiles of different disks. */
  lemma MigrationKeepsDistinct(was: seq<Word>, now: seq<Word>)
    requires |was| == WINDOW && |now| == WINDOW && Migrated(was, now) && OldDistinct(was)
    ensures Distinct(now)
  {
    hide Source, Migrated;
    forall e, f | 0 <= e < f < ENTRY_COUNT && Taken(now, e) && Taken(now, f)
      ensures now[EntryAt(e)] != now[EntryAt(f)]
    {
      NewEntryTaken(was, now, e);
      NewEntryTaken(was, now, f);
      SourcesAreProfiles(was, e, f);
      assert OldTaken(was, Source(was, e)) by { SourceTaken(was, e); }
    }
  }

  lemma SourceTaken(win: seq<Word>, e: nat)
    requires |win| == WINDOW && e < ENTRY_COUNT && Source(win, e) >= 0
    ensures OldTaken(win, Source(win, e))
  {
  }

  /** A carried profile means what it did, with the appended setting's default. */
  lemma CarriedMeans(b: seq<Word>, before: Live)
    requires |b| == V9_ENTRY_WORDS && before.Valid()
    ensures var r := Adopted(before, Carried(b)[2..], SET_COUNT);
      r == Adopted(before, b[2..], 20).(values := r.values) && r.values[20] == Default(20)
      && r.values[..20] == Adopted(before, b[2..], 20).values[..20]
  {
    hide ByteOf, Options, Flag;
    var new_, old_ := Carried(b)[2..], b[2..];
    assert new_[5] == Lane(Default(20), 0);
    forall j | 0 <= j < 20 ensures StoredByte(new_, j) == StoredByte(old_, j) { }
    forall k | 0 <= k < 8 ensures AdoptedCode(new_, SET_COUNT, k) == AdoptedCode(old_, 20, k) { }
    assert StoredByte(new_, 20) == 0 by { assert ByteOf(0, 0) == 0 by { Zero(); } }
  }

  lemma Zero()
    ensures ByteOf(0, 0) == 0
  {
  }

  // ---- the layouts before values kept their index -------------------------

  const GONE := 0xFF

  /** Where a version-4 index went in version 5. */
  function V4ToV5(i: nat): nat {
    match i
    case 0 => 0 case 4 => 1 case 7 => 2 case 8 => 3 case 9 => 4 case 12 => 5 case 13 => 6
    case 14 => 7 case 15 => 8 case 20 => 9 case 21 => 10 case _ => GONE
  }

  /** Where a version-5 index went in version 6, whose indices still stand. */
  function V5ToV6(i: nat): nat {
    match i
    case 0 => 0 case 1 => 1 case 2 => 2 case 3 => 3 case 4 => 4 case 5 => 5 case 7 => 7
    case 9 => 8 case 10 => 9 case _ => GONE
  }

  function LegacyIndex(version: nat, i: nat): (t: nat)
    ensures t < 10 || t == GONE
  {
    var t := if version == 4 then V4ToV5(i) else i;
    if t == GONE then GONE else V5ToV6(t)
  }

  /** The stored byte a setting comes from, -1 if it was not yet there. */
  function LegacyFrom(version: nat, t: nat): int {
    if version == 4 then
      match t
      case 0 => 0 case 1 => 4 case 2 => 7 case 3 => 8 case 4 => 9 case 5 => 12 case 7 => 14 case 8 => 20 case 9 => 21
      case _ => -1
    else
      match t
      case 0 => 0 case 1 => 1 case 2 => 2 case 3 => 3 case 4 => 4 case 5 => 5 case 7 => 7 case 8 => 9 case 9 => 10
      case _ => -1
  }

  function LegacyCount(version: nat): nat { if version == 4 then 22 else 11 }

  /** Every surviving setting comes from exactly one byte. */
  lemma LegacyIsInverse(version: nat, i: nat, t: nat)
    requires 4 <= version <= 5 && i < LegacyCount(version) && t != GONE
    ensures LegacyIndex(version, i) == t <==> LegacyFrom(version, t) == i
  {
  }

  /** What a version-4 or version-5 block stands for. */
  function LegacyAdopted(live: Live, block: seq<Word>, version: nat, count: nat): (r: Live)
    requires live.Valid() && |block| >= WordsFor(count) + 2
    ensures r.Valid()
  {
    Live(seq(SET_COUNT, t requires 0 <= t < SET_COUNT => LegacyValue(live.values[t], block, version, count, t)),
         Adopted(live, block, count).codes, Adopted(live, block, count).ext)
  }

  function LegacyValue(value: nat, block: seq<Word>, version: nat, count: nat, t: nat): nat
    requires |block| >= WordsFor(count)
  {
    var i := LegacyFrom(version, t);
    if 0 <= i < count && StoredByte(block, i) < Options(t) then StoredByte(block, i) else value
  }
}
