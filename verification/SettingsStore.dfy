/** The settings store over the bridge window: an array behind one cursor that
    steps past every word read or written. */
module SettingsStore {
  import opened SettingsBlock
  import opened SettingsTable
  import opened SettingsRun

  /** The word being packed before byte `j` joins it. */
  function Partial(live: Live, j: nat): Word
    requires live.Valid() && j <= 4 * BLOCK_WORDS
  {
    var k := j / 4 * 4;
    if j % 4 == 0 then 0
    else if j % 4 == 1 then Pack(BlockByte(live, k), 0, 0, 0)
    else if j % 4 == 2 then Pack(BlockByte(live, k), BlockByte(live, k + 1), 0, 0)
    else Pack(BlockByte(live, k), BlockByte(live, k + 1), BlockByte(live, k + 2), 0)
  }

  /** A byte joins its word; the last completes it. */
  lemma PartialStep(live: Live, j: nat)
    requires live.Valid() && j < 4 * BLOCK_WORDS
    ensures var w := Partial(live, j) + Lane(BlockByte(live, j), j % 4);
      w == if j % 4 == 3 then BlockWord(live, j / 4) else Partial(live, j + 1)
  {
    hide BlockByte, Pack, Lane;
    var k := j / 4 * 4;
    PackGrows(BlockByte(live, k), BlockByte(live, k + 1), BlockByte(live, k + 2), BlockByte(live, k + 3));
    assert j == k + j % 4;
    match j % 4
    case 0 => assert (j + 1) / 4 * 4 == k && (j + 1) % 4 == 1;
    case 1 => assert (j + 1) / 4 * 4 == k && (j + 1) % 4 == 2;
    case 2 => assert (j + 1) / 4 * 4 == k && (j + 1) % 4 == 3;
    case _ => assert k == 4 * (j / 4);
  }

  lemma PackGrows(b0: nat, b1: nat, b2: nat, b3: nat)
    requires b0 < 256 && b1 < 256 && b2 < 256 && b3 < 256
    ensures Lane(b0, 0) == Pack(b0, 0, 0, 0)
    ensures Pack(b0, 0, 0, 0) + Lane(b1, 1) == Pack(b0, b1, 0, 0)
    ensures Pack(b0, b1, 0, 0) + Lane(b2, 2) == Pack(b0, b1, b2, 0)
    ensures Pack(b0, b1, b2, 0) + Lane(b3, 3) == Pack(b0, b1, b2, b3)
  {
  }

  /** The last value completes its word too: the padding is zero. */
  lemma PaddingIsZero(live: Live)
    requires live.Valid()
    ensures Partial(live, SET_COUNT) == Block(live)[VALUE_WORDS - 1]
    ensures Partial(live, 0) == 0 && Partial(live, 4 * VALUE_WORDS) == 0
  {
  }

  /** Byte `j` of the block: what it is, and what its word is with it. */
  lemma ByteJoins(live: Live, j: nat)
    requires live.Valid() && (j < SET_COUNT || 4 * VALUE_WORDS <= j < 4 * BLOCK_WORDS)
    ensures j < SET_COUNT ==> BlockByte(live, j) == live.values[j] < 256
    ensures 4 * VALUE_WORDS <= j < 4 * VALUE_WORDS + BIND_COUNT ==>
        BlockByte(live, j) == live.codes[j - 4 * VALUE_WORDS]
    ensures j == 4 * BLOCK_WORDS - 1 ==> BlockByte(live, j) == Flags(live.ext, BIND_COUNT)
    ensures Partial(live, j) + Lane(BlockByte(live, j), j % 4)
         == if j % 4 == 3 then Block(live)[j / 4] else Partial(live, j + 1)
    ensures j % 4 == 3 ==> Partial(live, j + 1) == 0
    ensures Partial(live, 0) == 0 && Partial(live, 4 * VALUE_WORDS) == 0
  {
    hide Flags, Partial, Lane, Pack;
    PartialStep(live, j);
    PartialZero(live, j + 1);
    PartialZero(live, 0);
    PartialZero(live, 4 * VALUE_WORDS);
  }

  lemma PartialZero(live: Live, j: nat)
    requires live.Valid() && j <= 4 * BLOCK_WORDS
    ensures j % 4 == 0 ==> Partial(live, j) == 0
  {
    hide BlockByte, Pack;
  }

  lemma FlagJoins(ext: seq<bool>, n: nat)
    requires n < |ext| == BIND_COUNT
    ensures Flags(ext, 0) == 0
    ensures Flags(ext, n + 1) == Flags(ext, n) + (if ext[n] then Power(n) else 0) < 256
  {
    FlagsBelow(ext, n + 1);
  }

  lemma PatchedNone(win: seq<Word>, at: nat, words: seq<Word>)
    requires at + |words| <= |win|
    ensures Patched(win, at, words[..0]) == win
  {
  }

  /** The next word of a run of writes. */
  lemma PatchedNext(win: seq<Word>, at: nat, words: seq<Word>, n: nat)
    requires at + |words| <= |win| && n < |words|
    ensures Patched(win, at, words[..n])[at + n := words[n]] == Patched(win, at, words[..n + 1])
  {
  }

  /** Two words, then a block. */
  lemma PatchedTwo(win: seq<Word>, at: nat, a: Word, b: Word, block: seq<Word>)
    requires at + 2 + |block| <= |win|
    ensures Patched(win[at := a][at + 1 := b], at + 2, block) == Patched(win, at, [a, b] + block)
  {
  }

  lemma FindStep(win: seq<Word>, hash: Word, e: nat)
    requires |win| == WINDOW && e < ENTRY_COUNT
    ensures FindFrom(win, hash, e)
         == if win[EntryAt(e)] == hash && win[EntryAt(e) + 1] == Tag(hash) then e else FindFrom(win, hash, e + 1)
    ensures FindFrom(win, hash, ENTRY_COUNT) == -1
  {
  }

  lemma FreeStep(win: seq<Word>, e: nat)
    requires |win| == WINDOW && e < ENTRY_COUNT
    ensures FreeFrom(win, e)
         == if win[EntryAt(e)] == 0 || win[EntryAt(e) + 1] != Tag(win[EntryAt(e)]) then e else FreeFrom(win, e + 1)
    ensures FreeFrom(win, ENTRY_COUNT) == -1
  {
  }

  /** The first `n` bytes of an old block have landed. */
  ghost predicate LegacyLanded(was: Live, live: Live, block: seq<Word>, version: nat, n: nat)
    requires |block| >= WordsFor(n) && was.Valid()
  {
    && live.Valid() && live.codes == was.codes && live.ext == was.ext
    && (forall t | 0 <= t < SET_COUNT :: live.values[t] == LegacyValue(was.values[t], block, version, n, t))
  }

  lemma LegacyNone(was: Live, block: seq<Word>, version: nat)
    requires was.Valid()
    ensures LegacyLanded(was, was, block, version, 0)
  {
  }

  lemma StoredAt(block: seq<Word>, count: nat, i: nat)
    requires i < count && |block| >= WordsFor(count)
    ensures i / 4 < WordsFor(count) && StoredByte(block, i) == ByteOf(block[i / 4], i % 4)
  {
  }

  lemma CodeAt(block: seq<Word>, count: nat, b: nat)
    requires b < 8 && |block| >= WordsFor(count) + 2
    ensures AdoptedCode(block, count, b) == StoredByte(block[WordsFor(count)..], b)
  {
    hide ByteOf;
    assert (4 * WordsFor(count) + b) / 4 == WordsFor(count) + b / 4;
  }

  /** The first `n` stored bytes have landed on the values. */
  ghost predicate Landed(was: Live, live: Live, block: seq<Word>, count: nat, n: nat)
    requires |block| >= WordsFor(count) && |was.values| == SET_COUNT
  {
    && |live.values| == SET_COUNT && live.codes == was.codes && live.ext == was.ext
    && (forall i | 0 <= i < SET_COUNT :: live.values[i] ==
          if i < n then AdoptedValue(was.values[i], block, count, i) else was.values[i])
  }

  class Store {
    const ram: array<Word>
    var cursor: nat
    var live: Live
    var dirty: bool
    var haveTable: bool
    var diskHash: Word
    var diskSlot: int
    var evict: nat

    /** At power-up: the compiled defaults, over whatever the window holds. */
    constructor (window: array<Word>)
      requires window.Length == WINDOW
      ensures ram == window && Shape()
      ensures View() == AtPower(window[..])
    {
      ram, cursor := window, 0;
      live, dirty, haveTable, diskHash, diskSlot, evict := Defaults(), false, false, 0, -1, 0;
    }

    ghost predicate Shape()
      reads this
    {
      ram.Length == WINDOW && live.Valid() && -1 <= diskSlot < ENTRY_COUNT && evict < ENTRY_COUNT
    }

    ghost function View(): Saved
      reads this, ram
    {
      Saved(ram[..], live, dirty, haveTable, diskHash, diskSlot, evict)
    }

    method Read() returns (w: Word)
      requires cursor < ram.Length
      modifies this`cursor
      ensures w == ram[old(cursor)] && cursor == old(cursor) + 1
    {
      w := ram[cursor];
      cursor := cursor + 1;
    }

    method Write(w: Word)
      requires cursor < ram.Length
      modifies this`cursor, ram
      ensures ram[..] == old(ram[..])[old(cursor) := w] && cursor == old(cursor) + 1
    {
      ram[cursor] := w;
      cursor := cursor + 1;
    }

    /** The values, four to a word, as the start of a block. */
    method WriteValues(addr: nat)
      requires Shape() && addr + BLOCK_WORDS <= WINDOW
      modifies this`cursor, ram
      ensures cursor == addr + VALUE_WORDS
      ensures ram[..] == Patched(old(ram[..]), addr, Block(live)[..VALUE_WORDS])
    {
      hide Partial, BlockByte, BlockWord, Lane, Options, Patched, Block;
      ghost var was, block := ram[..], Block(live);
      cursor := addr;
      PatchedNone(was, addr, block);
      PaddingIsZero(live);
      var word := 0;
      for i := 0 to SET_COUNT
        invariant cursor == addr + if i == SET_COUNT then VALUE_WORDS else i / 4
        invariant word == if i == SET_COUNT then 0 else Partial(live, i)
        invariant ram[..] == Patched(was, addr, block[..cursor - addr])
      {
        ByteJoins(live, i);
        word := word + Lane(live.values[i], i % 4);
        if i % 4 == 3 || i == SET_COUNT - 1 {
          PatchedNext(was, addr, block, i / 4);
          Write(word);
          word := 0;
        }
      }
    }

    /** The bitmap of the extended flags. */
    method GatherFlags() returns (ext: nat)
      requires Shape()
      ensures ext == Flags(live.ext, BIND_COUNT) < 256
    {
      hide Flags;
      ext := 0;
      FlagJoins(live.ext, 0);
      for i := 0 to BIND_COUNT
        invariant ext == Flags(live.ext, i) < 256
      {
        FlagJoins(live.ext, i);
        ext := ext + if live.ext[i] then Power(i) else 0;
      }
    }

    /** The live profile, packed: the values, then the codes and the flags. */
    method BlockWrite(addr: nat)
      requires Shape() && addr + BLOCK_WORDS <= WINDOW
      modifies this`cursor, ram
      ensures ram[..] == Patched(old(ram[..]), addr, Block(live))
    {
      hide Partial, BlockByte, BlockWord, Lane, Options, Flags, Patched, Block;
      ghost var was, block := ram[..], Block(live);
      WriteValues(addr);
      PaddingIsZero(live);
      var word := 0;
      var ext := GatherFlags();
      for i := 0 to BIND_COUNT + 1
        invariant cursor == addr + VALUE_WORDS + i / 4
        invariant word == Partial(live, 4 * VALUE_WORDS + i)
        invariant ram[..] == Patched(was, addr, block[..cursor - addr])
      {
        ByteJoins(live, 4 * VALUE_WORDS + i);
        var b := if i < BIND_COUNT then live.codes[i] else ext;
        word := word + Lane(b, i % 4);
        if i % 4 == 3 || i == BIND_COUNT {
          PatchedNext(was, addr, block, VALUE_WORDS + i / 4);
          Write(word);
          word := 0;
        }
      }
      assert block[..BLOCK_WORDS] == block;
    }

    /** The values of the block at the cursor. */
    method ReadValues(count: nat)
      requires Shape() && cursor + WordsFor(count) <= WINDOW
      modifies this`cursor, this`live
      ensures Landed(old(live), live, ram[old(cursor)..], count, count)
      ensures cursor == old(cursor) + WordsFor(count)
    {
      hide ByteOf, Options, StoredByte;
      ghost var was, addr, block := live, cursor, ram[cursor..];
      var word: Word := 0;
      for i := 0 to count
        invariant cursor == addr + WordsFor(i) && (i % 4 != 0 ==> word == block[i / 4])
        invariant Landed(was, live, block, count, i)
      {
        if i % 4 == 0 {
          word := Read();
        }
        var v := ByteOf(word, i % 4);
        assert v == StoredByte(block, i) by { StoredAt(block, count, i); }
        if i < SET_COUNT && v < Options(i) {
          live := live.(values := live.values[i := v]);
        }
      }
    }

    /** The codes and flags that follow them. */
    method ReadBinds() returns (codes: seq<nat>, ext: nat)
      requires ram.Length == WINDOW && cursor + 2 <= WINDOW
      modifies this`cursor
      ensures |codes| == BIND_COUNT
      ensures forall b | 0 <= b < BIND_COUNT :: codes[b] == StoredByte(ram[old(cursor)..], b)
      ensures ext == StoredByte(ram[old(cursor)..], BIND_COUNT)
    {
      hide ByteOf;
      ghost var addr, block := cursor, ram[cursor..];
      var word: Word := 0;
      codes, ext := [], 0;
      for i := 0 to BIND_COUNT + 1
        invariant cursor == addr + WordsFor(i) && (i % 4 != 0 ==> word == block[i / 4])
        invariant |codes| == if i < BIND_COUNT then i else BIND_COUNT
        invariant forall b | 0 <= b < |codes| :: codes[b] == StoredByte(block, b)
        invariant i == BIND_COUNT + 1 ==> ext == StoredByte(block, BIND_COUNT)
      {
        if i % 4 == 0 {
          word := Read();
        }
        var b := ByteOf(word, i % 4);
        if i < BIND_COUNT {
          codes := codes + [b];
        } else {
          ext := b;
        }
      }
    }

    /** The values of a version-4 or version-5 block at the cursor. */
    method ReadLegacyValues(version: nat, count: nat)
      requires Shape() && cursor + WordsFor(count) <= WINDOW && 4 <= version <= 5 && count <= LegacyCount(version)
      modifies this`cursor, this`live
      ensures LegacyLanded(old(live), live, ram[old(cursor)..], version, count)
      ensures cursor == old(cursor) + WordsFor(count)
    {
      hide ByteOf, Options, StoredByte, LegacyFrom, LegacyIndex;
      ghost var was, addr, block := live, cursor, ram[cursor..];
      var word: Word := 0;
      LegacyNone(was, block, version);
      for i := 0 to count
        invariant cursor == addr + WordsFor(i) && (i % 4 != 0 ==> word == block[i / 4])
        invariant LegacyLanded(was, live, block, version, i)
      {
        if i % 4 == 0 {
          word := Read();
        }
        var v := ByteOf(word, i % 4);
        assert v == StoredByte(block, i) by { StoredAt(block, count, i); }
        var t := LegacyIndex(version, i);
        forall x | 0 <= x < SET_COUNT ensures t == x <==> LegacyFrom(version, x) == i {
          LegacyIsInverse(version, i, x);
        }
        if t != GONE && v < Options(t) {
          live := live.(values := live.values[t := v]);
        }
      }
    }

    /** Adopt a version-4 or version-5 block. */
    method LegacyApply(addr: nat, version: nat, count: nat)
      requires Shape() && addr + WordsFor(count) + 2 <= WINDOW && 4 <= version <= 5 && count <= LegacyCount(version)
      modifies this`cursor, this`live
      ensures live == LegacyAdopted(old(live), ram[addr..], version, count)
    {
      hide Flag, StoredByte, WordsFor, Options, LegacyFrom;
      cursor := addr;
      ghost var was, block := live, ram[addr..];
      ReadLegacyValues(version, count);
      assert live.values == LegacyAdopted(was, block, version, count).values;
      AdoptBinds(addr, count);
      assert ram[addr..] == block;
      assert live.codes == Adopted(was, block, count).codes && live.ext == Adopted(was, block, count).ext;
    }

    /** The bindings at the cursor, past a block's values. */
    method AdoptBinds(ghost addr: nat, ghost count: nat)
      requires Shape() && cursor == addr + WordsFor(count) && cursor + 2 <= WINDOW
      modifies this`cursor, this`live
      ensures live.values == old(live).values
      ensures live.codes == Adopted(old(live), ram[addr..], count).codes
      ensures live.ext == Adopted(old(live), ram[addr..], count).ext
    {
      hide Flag, StoredByte, WordsFor, Options, AdoptedCode;
      ghost var was, block := live, ram[addr..];
      var codes, ext := ReadBinds();
      forall b | 0 <= b < 8 ensures StoredByte(ram[addr + WordsFor(count)..], b) == AdoptedCode(block, count, b) {
        CodeAt(block, count, b);
      }
      for b := 0 to BIND_COUNT
        modifies this`live
        invariant live.values == was.values && |live.codes| == |live.ext| == BIND_COUNT
        invariant forall c | 0 <= c < b :: live.codes[c] == codes[c] && live.ext[c] == Flag(ext, c)
      {
        KeyBindSet(b, codes[b], Flag(ext, b));
      }
      assert live.codes == Adopted(was, block, count).codes && live.ext == Adopted(was, block, count).ext;
    }

    /** One button's binding. */
    method KeyBindSet(b: nat, code: nat, ext: bool)
      requires |live.codes| == |live.ext| == BIND_COUNT && b < BIND_COUNT
      modifies this`live
      ensures live == old(live).(codes := old(live).codes[b := code], ext := old(live).ext[b := ext])
    {
      live := live.(codes := live.codes[b := code], ext := live.ext[b := ext]);
    }

    /** Adopt the block at `addr`, written with `count` values. */
    method BlockApply(addr: nat, count: nat)
      requires Shape() && addr + WordsFor(count) + 2 <= WINDOW
      modifies this`cursor, this`live
      ensures live == Adopted(old(live), ram[addr..], count)
    {
      hide Flag, StoredByte, WordsFor, Options, AdoptedCode;
      ghost var was, block := live, ram[addr..];
      cursor := addr;
      ReadValues(count);
      assert live.values == Adopted(was, block, count).values;
      AdoptBinds(addr, count);
      assert ram[addr..] == block;
    }

    /** The global blob, whole. */
    method GlobalWrite()
      requires Shape()
      modifies this`cursor, ram
      ensures ram[..] == Patched(old(ram[..]), SETTINGS_WORD, Blob(live))
    {
      hide Block, Patched;
      ghost var was := ram[..];
      cursor := SETTINGS_WORD;
      Write(SETTINGS_MAGIC);
      Write(SETTINGS_VERSION + SET_COUNT * 256);
      BlockWrite(SETTINGS_WORD + 2);
      PatchedTwo(was, SETTINGS_WORD, SETTINGS_MAGIC, SETTINGS_VERSION + SET_COUNT * 256, Block(live));
    }

    method ApplyDefaults()
      requires Shape()
      modifies this`live
      ensures live == Defaults()
    {
      for i := 0 to SET_COUNT
        invariant live.Valid() && forall j | 0 <= j < i :: live.values[j] == Default(j)
      {
        live := live.(values := live.values[i := Default(i)]);
      }
      ghost var values := live.values;
      for b := 0 to BIND_COUNT
        invariant live.Valid() && live.values == values
        invariant forall c | 0 <= c < b :: live.codes[c] == DefaultCode(c) && !live.ext[c]
      {
        live := live.(codes := live.codes[b := DefaultCode(b)], ext := live.ext[b := false]);
      }
      assert live.values == Defaults().values && live.codes == Defaults().codes && live.ext == Defaults().ext;
    }

    /** The context of no profiled disk. */
    method ApplyGlobal()
      requires Shape()
      modifies this`cursor, this`live
      ensures live == Global(ram[..], old(live))
    {
      hide Adopted, Defaults, ByteOf;
      cursor := SETTINGS_WORD;
      var magic := Read();
      var head := Read();
      var version := ByteOf(head, 0);
      if magic == SETTINGS_MAGIC && version >= 6 && version <= SETTINGS_VERSION {
        BlockApply(SETTINGS_WORD + 2, ByteOf(head, 1));
      } else {
        ApplyDefaults();
      }
      assert ram[BLOB_BLOCK..] == ram[..][BLOB_BLOCK..];
    }

    /** The entry of a disk, -1 for none. */
    method TableFind(hash: Word) returns (found: int)
      requires Shape()
      modifies this`cursor
      ensures found == if haveTable then FindFrom(ram[..], hash, 0) else -1
    {
      hide FindFrom, Holds;
      if !haveTable {
        return -1;
      }
      ghost var win := ram[..];
      for e := 0 to ENTRY_COUNT
        invariant FindFrom(win, hash, e) == FindFrom(win, hash, 0)
      {
        FindStep(win, hash, e);
        cursor := TABLE_WORD + 1 + e * ENTRY_WORDS;
        var h := Read();
        var nh := Read();
        if h == hash && nh == Tag(hash) {
          return e;
        }
      }
      return -1;
    }

    /** An entry for a disk that has none: the lowest-numbered one not taken, and of a
        full table the next in turn to be evicted. */
    method TableAlloc() returns (e: nat)
      requires Shape()
      modifies this`cursor, this`evict
      ensures var free := FreeFrom(ram[..], 0);
        if free >= 0 then e == free && evict == old(evict)
        else e == old(evict) && evict == NextVictim(old(evict))
    {
      hide FreeFrom, Taken;
      var freeE := -1;
      ghost var win := ram[..];
      for i := 0 to ENTRY_COUNT
        modifies this`cursor
        invariant FreeFrom(win, 0) == if freeE >= 0 then freeE else FreeFrom(win, i)
      {
        FreeStep(win, i);
        cursor := TABLE_WORD + 1 + i * ENTRY_WORDS;
        var h := Read();
        var nh := Read();
        if freeE < 0 && (h == 0 || nh != Tag(h)) {
          freeE := i;
        }
      }
      if freeE >= 0 {
        return freeE;
      }
      e := evict;
      evict := NextVictim(evict);
    }

    /** Turn the region behind the blob into an empty table. */
    method Claim()
      requires Shape()
      modifies this`cursor, this`haveTable, ram
      ensures haveTable && ram[..] == Claimed(old(ram[..]))
    {
      hide Zeros;
      ghost var was, words := ram[..], [TABLE_MAGIC] + Zeros(ENTRY_COUNT * ENTRY_WORDS);
      haveTable := true;
      cursor := TABLE_WORD;
      Write(TABLE_MAGIC);
      for w := 0 to ENTRY_COUNT * ENTRY_WORDS
        modifies this`cursor, ram
        invariant cursor == TABLE_WORD + 1 + w && ram[..] == Patched(was, TABLE_WORD, words[..w + 1])
      {
        PatchedNext(was, TABLE_WORD, words, w + 1);
        Write(0);
      }
      assert words[..|words|] == words;
    }

    /** Save what is due, to the context it belongs to. */
    method Service()
      requires Shape() && (haveTable || diskSlot < 0)
      modifies this, ram
      ensures Shape() && View() == Flushed(old(View()))
    {
      hide Blob, Block, Claimed, Patched, FindFrom, FreeFrom;
      if !dirty {
        return;
      }
      dirty := false;
      if !haveTable {
        Claim();
      }
      if diskHash == 0 {
        GlobalWrite();
        return;
      }
      var e := diskSlot;
      if e < 0 || e >= ENTRY_COUNT {
        e := TableFind(diskHash);
        if e < 0 {
          e := TableAlloc();
        }
        diskSlot := e;
      }
      ProfileWrite(e);
    }

    method ProfileWrite(e: nat)
      requires Shape() && e < ENTRY_COUNT
      modifies this`cursor, ram
      ensures ram[..] == Patched(old(ram[..]), EntryAt(e), Profile(diskHash, live))
    {
      hide Block, Patched;
      ghost var was := ram[..];
      cursor := EntryAt(e);
      Write(diskHash);
      Write(Tag(diskHash));
      BlockWrite(EntryAt(e) + 2);
      PatchedTwo(was, EntryAt(e), diskHash, Tag(diskHash), Block(live));
    }

    method ApplyProfile(e: nat)
      requires Shape() && e < ENTRY_COUNT
      modifies this`cursor, this`live
      ensures live == Adopted(old(live), EntryBlock(ram[..], e), SET_COUNT)
    {
      hide Adopted;
      ghost var was, win := live, ram[..];
      BlockApply(EntryAt(e) + 2, SET_COUNT);
      assert win[EntryAt(e) + 2..] == ram[EntryAt(e) + 2..];
      assert win[EntryAt(e) + 2..][..BLOCK_WORDS] == EntryBlock(win, e);
      AdoptedPrefix(was, EntryBlock(win, e), win[EntryAt(e) + 2..], SET_COUNT);
    }

    /** Follow the disk in drive A: its hash, 0 for none. */
    method DiskMounted(hash: Word)
      requires Shape() && (haveTable || diskSlot < 0)
      modifies this, ram
      ensures Shape() && View() == Mounted(old(View()), hash)
    {
      hide Flushed, Adopted, Global, FindFrom, EntryBlock, Holds;
      if hash == diskHash {
        return;
      }
      Service();
      diskHash := hash;
      if hash == 0 {
        diskSlot := -1;
        ApplyGlobal();
      } else {
        diskSlot := TableFind(hash);
        if diskSlot >= 0 {
          ApplyProfile(diskSlot);
        } else {
          ApplyGlobal();
        }
      }
    }

    /** Left or Right on an option row. */
    method StepOption(i: nat, right: bool, sound: bool)
      requires Shape() && i < SET_COUNT
      modifies this`live, this`dirty
      ensures Shape() && View() == Do(old(View()), Stepped(i, right, sound))
    {
      var v := live.values[i];
      if i == 12 && !sound {
        return;
      } else if right {
        live := live.(values := live.values[i := if v + 1 >= Options(i) then 0 else v + 1]);
      } else {
        live := live.(values := live.values[i := if v > 0 then v - 1 else Options(i) - 1]);
      }
      dirty := true;
    }

    /** A binding chosen in the menu or in the key picker. */
    method Rebind(b: nat, code: nat, ext: bool)
      requires Shape() && b < BIND_COUNT && code < 256
      modifies this`live, this`dirty
      ensures Shape() && View() == Do(old(View()), Bound(b, code, ext))
    {
      KeyBindSet(b, code, ext);
      dirty := true;
    }

    method ResetDefaults()
      requires Shape()
      modifies this`live, this`dirty
      ensures Shape() && View() == Do(old(View()), Restored)
    {
      ApplyDefaults();
      dirty := true;
    }

    /** An old entry rewritten at slot `e` of this layout. */
    method EntryWrite(e: nat, b: seq<Word>)
      requires Shape() && e < ENTRY_COUNT && |b| == V9_ENTRY_WORDS
      modifies this`cursor, ram
      ensures ram[..] == Patched(old(ram[..]), EntryAt(e), Carried(b))
    {
      hide Patched, Default;
      ghost var was, entry := ram[..], Carried(b);
      cursor := TABLE_WORD + 1 + e * ENTRY_WORDS;
      PatchedNone(was, EntryAt(e), entry);
      for w := 0 to 7
        invariant cursor == EntryAt(e) + w && ram[..] == Patched(was, EntryAt(e), entry[..w])
      {
        PatchedNext(was, EntryAt(e), entry, w);
        Write(b[w]);
      }
      var word := 0;
      for i := 20 to SET_COUNT
        modifies {}
        invariant word == if i == 20 then 0 else Lane(Default(20), 0)
      {
        word := word + Lane(Default(i), i % 4);
      }
      PatchedNext(was, EntryAt(e), entry, 7);
      PatchedNext(was, EntryAt(e), entry, 8);
      PatchedNext(was, EntryAt(e), entry, 9);
      Write(word);
      Write(b[7]);
      Write(b[8]);
      assert entry[..ENTRY_WORDS] == entry;
    }

    /** One old entry, read whole. */
    method OldRead(e: nat) returns (b: seq<Word>)
      requires Shape() && e < V9_ENTRY_COUNT
      modifies this`cursor
      ensures b == OldEntry(ram[..], e)
    {
      cursor := V9_TABLE_WORD + 1 + e * V9_ENTRY_WORDS;
      b := [];
      for w := 0 to V9_ENTRY_WORDS
        invariant cursor == OldEntryAt(e) + w && b == ram[OldEntryAt(e)..OldEntryAt(e) + w]
      {
        var x := Read();
        b := b + [x];
      }
    }

    /** Leave entry `e` empty, whatever moved through it before. */
    method EntryClear(e: nat)
      requires Shape() && e < ENTRY_COUNT
      modifies this`cursor, ram
      ensures ram[..] == Patched(old(ram[..]), EntryAt(e), Zeros(ENTRY_WORDS))
    {
      hide Patched;
      ghost var was, zeros := ram[..], Zeros(ENTRY_WORDS);
      cursor := TABLE_WORD + 1 + e * ENTRY_WORDS;
      PatchedNone(was, EntryAt(e), zeros);
      for w := 0 to ENTRY_WORDS
        invariant cursor == EntryAt(e) + w && ram[..] == Patched(was, EntryAt(e), zeros[..w])
      {
        PatchedNext(was, EntryAt(e), zeros, w);
        Write(0);
      }
      assert zeros[..ENTRY_WORDS] == zeros;
    }

    /** Move the table of the previous layout, in place and overlapping, to this
        one: the profiles past the last slot first stashed, the shared slots then
        copied from the top down, the stash last. */
    method TableMigrate()
      requires Shape()
      modifies this`cursor, ram
      ensures old(ram[V9_TABLE_WORD]) != TABLE_MAGIC ==> ram[..] == old(ram[..])
      ensures old(ram[V9_TABLE_WORD]) == TABLE_MAGIC ==> Migrated(old(ram[..]), ram[..])
      ensures ram[..V9_TABLE_WORD] == old(ram[..V9_TABLE_WORD])
    {
      hide Patched, OldTaken, OldEntry, Entry, Carried, Zeros, NewEntry, Unread, Shared;
      cursor := V9_TABLE_WORD;
      var magic := Read();
      if magic != TABLE_MAGIC {
        return;
      }
      ghost var was := ram[..];
      cursor := V9_TABLE_WORD;
      Write(0);
      var stash: seq<seq<Word>> := [];
      ghost var start := ram[..];
      UnreadStart(was, start);
      for e := V9_ENTRY_COUNT downto ENTRY_COUNT
        modifies this`cursor
        invariant StashedFrom(was, e, stash)
      {
        var b := OldRead(e);
        assert ram[..] == start;
        UnreadEntry(was, start, e, V9_ENTRY_COUNT);
        if b[0] != 0 && b[1] == Tag(b[0]) {
          stash := stash + [b];
        }
      }
      assert ram[..] == start;
      var filled := seq(ENTRY_COUNT, _ => false);
      for e := ENTRY_COUNT downto 0
        invariant Unread(was, ram[..], e) && Shared(was, ram[..], e)
        invariant |filled| == ENTRY_COUNT && forall i | e <= i < ENTRY_COUNT :: filled[i] == OldTaken(was, i)
        invariant ram[..V9_TABLE_WORD] == was[..V9_TABLE_WORD]
      {
        ghost var before := ram[..];
        var b := OldRead(e);
        ghost var win := ram[..];
        assert win == before;
        UnreadEntry(was, win, e, e + 1);
        if b[0] != 0 && b[1] == Tag(b[0]) {
          EntryWrite(e, b);
          filled := filled[e := true];
        } else {
          EntryClear(e);
          filled := filled[e := false];
        }
        SlotMoved(was, win, e);
      }
      FillSlots(was, stash, filled);
      cursor := TABLE_WORD;
      ghost var win := ram[..];
      Write(TABLE_MAGIC);
      MagicWritten(was, win);
    }

    /** The stash fills whatever slots stayed free. */
    method FillSlots(ghost was: seq<Word>, stash: seq<seq<Word>>, filled: seq<bool>)
      requires Shape() && |was| == WINDOW && |filled| == ENTRY_COUNT && Shared(was, ram[..], 0)
      requires forall i | 0 <= i < ENTRY_COUNT :: filled[i] == OldTaken(was, i)
      requires StashedFrom(was, ENTRY_COUNT, stash)
      modifies this`cursor, ram
      ensures forall i | 0 <= i < ENTRY_COUNT :: Entry(ram[..], i) == NewEntry(was, i)
      ensures ram[..V9_TABLE_WORD] == old(ram[..V9_TABLE_WORD])
    {
      hide Patched, OldTaken, OldEntry, Entry, Carried, Zeros, NewEntry, Shared, Tails;
      var e, t := 0, 0;
      TailsMatch(was, stash);
      FilledStart(was, ram[..]);
      while t < |stash|
        invariant t <= |stash| && e <= ENTRY_COUNT && Filled(was, ram[..], e)
        invariant FreeBefore(was, e) == t
        invariant ram[..V9_TABLE_WORD] == old(ram[..V9_TABLE_WORD])
      {
        while e < ENTRY_COUNT && filled[e]
          modifies {}
          invariant e <= ENTRY_COUNT && Filled(was, ram[..], e) && FreeBefore(was, e) == t
        {
          OwnSlot(was, ram[..], e);
          e := e + 1;
        }
        if e >= ENTRY_COUNT {
          break;
        }
        ghost var win := ram[..];
        EntryWrite(e, stash[t]);
        TailSlot(was, win, e);
        e, t := e + 1, t + 1;
      }
      FilledEnd(was, ram[..], e);
    }

    /** At boot, over the compiled defaults: adopt the saved blob, carry the table
        of the previous version across, and bring the blob up to date. */
    method Load()
      requires Shape() && diskSlot == -1
      modifies this`cursor, this`live, this`haveTable, ram
      ensures Shape() && haveTable == (ram[TABLE_WORD] == TABLE_MAGIC)
      ensures live == LoadedLive(old(ram[..]), old(live))
      ensures LoadedWindow(old(ram[..]), ram[..], live)
    {
      hide Adopted, Blob, Block, Entry, NewEntry, ByteOf;
      cursor := SETTINGS_WORD;
      var magic := Read();
      var head := Read();
      var version := ByteOf(head, 0);
      ghost var was := ram[..];
      if magic == SETTINGS_MAGIC && version >= 4 && version <= SETTINGS_VERSION {
        var count := ByteOf(head, 1);
        if version >= 6 {
          BlockApply(SETTINGS_WORD + 2, count);
        } else {
          var values := if count > LegacyCount(version) then LegacyCount(version) else count;
          LegacyApply(SETTINGS_WORD + 2, version, values);
        }
        assert ram[BLOB_BLOCK..] == was[BLOB_BLOCK..];
        if version < SETTINGS_VERSION {
          if version == SETTINGS_VERSION - 1 {
            TableMigrate();
          }
          ghost var win := ram[..];
          GlobalWrite();
          BlobWritten(was, win, live);
        }
      }
      cursor := TABLE_WORD;
      var table := Read();
      haveTable := table == TABLE_MAGIC;
    }

    /** Loading at power-up: the window is of this version from then on, and of one that
        already was it makes what a power cycle of a run makes of it. */
    method LoadAtPower()
      requires Shape() && View() == AtPower(ram[..])
      modifies this`cursor, this`live, this`haveTable, ram
      ensures Shape() && Current(ram[..])
      ensures Current(old(ram[..])) ==> View() == PoweredUp(old(ram[..]))
    {
      hide LoadedWindow, LoadedLive, Current, Global;
      ghost var was := ram[..];
      Load();
      LoadIsBoot(was, ram[..], live);
    }
  }

  /** A version-4 or version-5 blob. */
  predicate HasLegacy(win: seq<Word>)
    requires |win| == WINDOW
  {
    win[SETTINGS_WORD] == SETTINGS_MAGIC && 4 <= ByteOf(win[SETTINGS_WORD + 1], 0) <= 5
  }

  /** What a boot makes live over the compiled defaults. */
  function LoadedLive(win: seq<Word>, live: Live): Live
    requires |win| == WINDOW && live.Valid()
  {
    var version, count := ByteOf(win[SETTINGS_WORD + 1], 0), ByteOf(win[SETTINGS_WORD + 1], 1);
    if HasBlob(win) then Adopted(live, win[BLOB_BLOCK..], count)
    else if HasLegacy(win) then
      var most := LegacyCount(version);
      LegacyAdopted(live, win[BLOB_BLOCK..], version, if count > most then most else count)
    else live
  }

  /** And what it leaves in the window: an older blob brought up to date, the table
      of the previous version moved, every other table word as it was. */
  ghost predicate LoadedWindow(was: seq<Word>, now: seq<Word>, live: Live)
    requires |was| == WINDOW && |now| == WINDOW && live.Valid()
  {
    var version := ByteOf(was[SETTINGS_WORD + 1], 0);
    var older := (HasBlob(was) || HasLegacy(was)) && version < SETTINGS_VERSION;
    if older then
      && BlobOf(now) == Blob(live) && now[..SETTINGS_WORD] == was[..SETTINGS_WORD]
      && if version == 9 && was[V9_TABLE_WORD] == TABLE_MAGIC then Migrated(was, now)
         else now[TABLE_WORD..] == was[TABLE_WORD..]
    else now == was
  }

  /** The store before anything is loaded. */
  function AtPower(win: seq<Word>): Saved { Saved(win, Defaults(), false, false, 0, -1, 0) }

  /** Loading leaves a window of this version, and of one that already was makes what a
      power cycle makes of it. */
  lemma LoadIsBoot(was: seq<Word>, now: seq<Word>, live: Live)
    requires |was| == WINDOW && |now| == WINDOW && live.Valid() && LoadedWindow(was, now, live)
    ensures Current(now)
    ensures Current(was) ==> now == was
    ensures Current(was) && live == LoadedLive(was, Defaults()) ==> live == Global(was, Defaults())
  {
    hide Blob, BlobOf, Adopted, ByteOf, Migrated;
    if BlobOf(now) == Blob(live) { BlobIsCurrent(now, live); }
  }

  /** The old entries below `n` are as they were. */
  ghost predicate Unread(was: seq<Word>, win: seq<Word>, n: nat) {
    && |was| == WINDOW && |win| == WINDOW && n <= V9_ENTRY_COUNT
    && forall j | V9_TABLE_WORD < j < OldEntryAt(n) :: win[j] == was[j]
  }

  /** The slots from `e` on hold their own profile, or nothing. */
  ghost predicate Shared(was: seq<Word>, win: seq<Word>, e: nat) {
    && |was| == WINDOW && |win| == WINDOW && e <= ENTRY_COUNT
    && forall i | e <= i < ENTRY_COUNT ::
         Entry(win, i) == if OldTaken(was, i) then Carried(OldEntry(was, i)) else Zeros(ENTRY_WORDS)
  }

  /** The stash, once the old entries from `e` on were read. */
  ghost predicate StashedFrom(was: seq<Word>, e: nat, stash: seq<seq<Word>>)
    requires |was| == WINDOW
  {
    && (e == 13 ==> stash == [])
    && (e == 12 ==> stash == if OldTaken(was, 12) then [OldEntry(was, 12)] else [])
    && (e == 11 ==> stash == (if OldTaken(was, 12) then [OldEntry(was, 12)] else [])
                           + (if OldTaken(was, 11) then [OldEntry(was, 11)] else []))
  }

  /** The slots below `e` are final, the rest still only their own. */
  ghost predicate Filled(was: seq<Word>, win: seq<Word>, e: nat) {
    && Shared(was, win, if e <= ENTRY_COUNT then e else 0)
    && e <= ENTRY_COUNT && forall i | 0 <= i < e :: Entry(win, i) == NewEntry(was, i)
  }

  lemma UnreadStart(was: seq<Word>, win: seq<Word>)
    requires |was| == WINDOW && win == was[V9_TABLE_WORD := 0]
    ensures Unread(was, win, V9_ENTRY_COUNT) && Unread(was, win, ENTRY_COUNT) && Shared(was, win, ENTRY_COUNT)
  {
  }

  lemma UnreadEntry(was: seq<Word>, win: seq<Word>, e: nat, n: nat)
    requires Unread(was, win, n) && e < n
    ensures OldEntry(win, e) == OldEntry(was, e)
    ensures OldTaken(was, e) <==> TakenPair(OldEntry(was, e)[0], OldEntry(was, e)[1])
  {
  }

  /** Slot `e` rewritten: the entries still to read lie below it. */
  lemma SlotMoved(was: seq<Word>, win: seq<Word>, e: nat)
    requires Unread(was, win, e + 1) && e < ENTRY_COUNT && Shared(was, win, e + 1)
    ensures var entry := if OldTaken(was, e) then Carried(OldEntry(was, e)) else Zeros(ENTRY_WORDS);
      var now := Patched(win, EntryAt(e), entry);
      Unread(was, now, e) && Shared(was, now, e) && now[..V9_TABLE_WORD] == win[..V9_TABLE_WORD]
  {
    hide OldTaken, OldEntry, Carried, Zeros;
    var entry := if OldTaken(was, e) then Carried(OldEntry(was, e)) else Zeros(ENTRY_WORDS);
    PatchedSlot(win, e, entry);
    assert Patched(win, EntryAt(e), entry)[..V9_TABLE_WORD] == win[..V9_TABLE_WORD];
  }

  lemma PatchedSlot(win: seq<Word>, e: nat, entry: seq<Word>)
    requires |win| == WINDOW && e < ENTRY_COUNT && |entry| == ENTRY_WORDS
    ensures var now := Patched(win, EntryAt(e), entry);
      && Entry(now, e) == entry && (forall f | 0 <= f < ENTRY_COUNT && f != e :: Entry(now, f) == Entry(win, f))
      && now[..TABLE_WORD + 1] == win[..TABLE_WORD + 1]
  {
    var now := Patched(win, EntryAt(e), entry);
    forall f | 0 <= f < ENTRY_COUNT && f != e ensures Entry(now, f) == Entry(win, f) {
      assert EntryAt(f) + ENTRY_WORDS <= EntryAt(e) || EntryAt(f) >= EntryAt(e) + ENTRY_WORDS;
    }
  }

  lemma TailsMatch(was: seq<Word>, stash: seq<seq<Word>>)
    requires |was| == WINDOW && StashedFrom(was, ENTRY_COUNT, stash)
    ensures |stash| == |Tails(was)| && forall t | 0 <= t < |stash| :: stash[t] == OldEntry(was, Tails(was)[t])
  {
    hide OldTaken, OldEntry;
  }

  lemma FilledStart(was: seq<Word>, win: seq<Word>)
    requires Shared(was, win, 0)
    ensures Filled(was, win, 0) && FreeBefore(was, 0) == 0
  {
  }

  lemma OwnSlot(was: seq<Word>, win: seq<Word>, e: nat)
    requires e < ENTRY_COUNT && Filled(was, win, e) && OldTaken(was, e)
    ensures Filled(was, win, e + 1) && FreeBefore(was, e + 1) == FreeBefore(was, e)
  {
    hide OldTaken, OldEntry, Carried, Zeros, Entry;
  }

  lemma TailSlot(was: seq<Word>, win: seq<Word>, e: nat)
    requires e < ENTRY_COUNT && Filled(was, win, e) && !OldTaken(was, e) && FreeBefore(was, e) < |Tails(was)|
    ensures var now := Patched(win, EntryAt(e), Carried(OldEntry(was, Tails(was)[FreeBefore(was, e)])));
      Filled(was, now, e + 1) && FreeBefore(was, e + 1) == FreeBefore(was, e) + 1
      && now[..V9_TABLE_WORD] == win[..V9_TABLE_WORD]
  {
    hide OldTaken, OldEntry, Carried, Zeros, Entry, Tails;
    PatchedSlot(win, e, Carried(OldEntry(was, Tails(was)[FreeBefore(was, e)])));
  }

  lemma FilledEnd(was: seq<Word>, win: seq<Word>, e: nat)
    requires Filled(was, win, e) && (e == ENTRY_COUNT || FreeBefore(was, e) == |Tails(was)|)
    ensures forall i | 0 <= i < ENTRY_COUNT :: Entry(win, i) == NewEntry(was, i)
  {
    hide OldTaken, OldEntry, Carried, Zeros, Entry, Tails;
    forall i | e <= i < ENTRY_COUNT ensures Entry(win, i) == NewEntry(was, i) {
      if e < i { FreeCounts(was, e, i); }
    }
  }

  lemma MagicWritten(was: seq<Word>, win: seq<Word>)
    requires |was| == WINDOW && |win| == WINDOW
    requires forall i | 0 <= i < ENTRY_COUNT :: Entry(win, i) == NewEntry(was, i)
    ensures var now := win[TABLE_WORD := TABLE_MAGIC];
      Migrated(was, now) && now[..V9_TABLE_WORD] == win[..V9_TABLE_WORD]
  {
    hide NewEntry;
    forall i | 0 <= i < ENTRY_COUNT ensures Entry(win[TABLE_WORD := TABLE_MAGIC], i) == NewEntry(was, i) {
      assert Entry(win[TABLE_WORD := TABLE_MAGIC], i) == Entry(win, i);
    }
  }

  /** Bringing the blob up to date leaves the table alone. */
  lemma BlobWritten(was: seq<Word>, win: seq<Word>, live: Live)
    requires |was| == WINDOW && |win| == WINDOW && live.Valid()
    ensures var now := Patched(win, SETTINGS_WORD, Blob(live));
      && BlobOf(now) == Blob(live)
      && now[TABLE_WORD..] == win[TABLE_WORD..] && now[..SETTINGS_WORD] == win[..SETTINGS_WORD]
      && (Migrated(was, win) ==> Migrated(was, now))
  {
    hide Blob, NewEntry;
    var now := Patched(win, SETTINGS_WORD, Blob(live));
    assert now[TABLE_WORD] == win[TABLE_WORD];
    forall i | 0 <= i < ENTRY_COUNT ensures Entry(now, i) == Entry(win, i) { }
  }
}
