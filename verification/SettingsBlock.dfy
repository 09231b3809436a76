/** The block a profile is stored as: the setting values and the key bindings,
    four bytes to a word. */
module SettingsBlock {

  const SET_COUNT := 21
  const BIND_COUNT := 7
  const VALUE_WORDS := 6
  const BLOCK_WORDS := 8

  type Word = w: int | 0 <= w < 0x1_0000_0000

  /** How many options a setting has. */
  function Options(i: nat): (n: nat)
    ensures 0 < n <= 8
  {
    match i
    case 5 => 8
    case 16 => 7
    case 8 => 6
    case 17 => 5
    case 2 | 9 | 12 => 3
    case 6 | 7 | 10 | 13 | 14 | 15 | 18 | 19 | 20 => 2
    case _ => 4
  }

  function Default(i: nat): (v: nat)
    ensures v < Options(i)
  {
    match i
    case 0 | 11 => 3
    case 8 => 2
    case 6 | 10 | 12 | 19 => 1
    case _ => 0
  }

  function DefaultCode(b: nat): (code: nat)
    ensures code < 256
  {
    match b
    case 0 => 0x5A
    case 1 => 0x11
    case 2 => 0x29
    case 3 => 0x14
    case 5 => 0xF1
    case _ => 0
  }

  /** What a profile holds: a value per setting, a key code and an extended-key
      flag per button. */
  datatype Live = Live(values: seq<nat>, codes: seq<nat>, ext: seq<bool>) {
    predicate Valid() {
      && |values| == SET_COUNT && (forall i | 0 <= i < SET_COUNT :: values[i] < Options(i))
      && |codes| == BIND_COUNT && (forall b | 0 <= b < BIND_COUNT :: codes[b] < 256)
      && |ext| == BIND_COUNT
    }
  }

  function Defaults(): (d: Live)
    ensures d.Valid()
  {
    Live(seq(SET_COUNT, i requires i >= 0 => Default(i)),
         seq(BIND_COUNT, b requires b >= 0 => DefaultCode(b)),
         seq(BIND_COUNT, _ => false))
  }

  // ---- bytes and words ----------------------------------------------------

  /** A byte shifted to its place in a word. */
  function Lane(b: nat, k: nat): (w: Word)
    requires b < 256 && k < 4
  {
    match k
    case 0 => b
    case 1 => b * 0x100
    case 2 => b * 0x1_0000
    case _ => b * 0x100_0000
  }

  function ByteOf(w: Word, k: nat): (b: nat)
    requires k < 4
    ensures b < 256
  {
    match k
    case 0 => w % 0x100
    case 1 => w / 0x100 % 0x100
    case 2 => w / 0x1_0000 % 0x100
    case _ => w / 0x100_0000
  }

  function Pack(b0: nat, b1: nat, b2: nat, b3: nat): (w: Word)
    requires b0 < 256 && b1 < 256 && b2 < 256 && b3 < 256
  {
    Lane(b0, 0) + Lane(b1, 1) + Lane(b2, 2) + Lane(b3, 3)
  }

  lemma ByteOfPack(b0: nat, b1: nat, b2: nat, b3: nat, k: nat)
    requires b0 < 256 && b1 < 256 && b2 < 256 && b3 < 256 && k < 4
    ensures ByteOf(Pack(b0, b1, b2, b3), k) == match k case 0 => b0 case 1 => b1 case 2 => b2 case _ => b3
  {
    var w := Pack(b0, b1, b2, b3);
    assert w / 0x100 == b1 + b2 * 0x100 + b3 * 0x1_0000;
    assert w / 0x1_0000 == b2 + b3 * 0x100;
  }

  /** The extended-key flags as a byte, bit `b` for button `b`. */
  function Flags(ext: seq<bool>, n: nat): (f: nat)
    requires n <= |ext|
  {
    if n == 0 then 0 else Flags(ext, n - 1) + if ext[n - 1] then Power(n - 1) else 0
  }

  function Power(b: nat): nat {
    match b
    case 0 => 1 case 1 => 2 case 2 => 4 case 3 => 8 case 4 => 16 case 5 => 32 case _ => 64
  }

  /** Bit `b` of a byte. */
  predicate Flag(f: nat, b: nat) {
    f / Power(b) % 2 == 1
  }

  /** Flags from bit `b` up, shifted down. */
  function FlagsFrom(ext: seq<bool>, b: nat): nat
    requires b <= |ext|
    decreases |ext| - b
  {
    if b == |ext| then 0 else (if ext[b] then 1 else 0) + 2 * FlagsFrom(ext, b + 1)
  }

  lemma {:induction false} FlagsSplit(ext: seq<bool>, b: nat)
    requires b <= |ext| == BIND_COUNT
    ensures b < 7 ==> Flags(ext, 7) == Flags(ext, b) + Power(b) * FlagsFrom(ext, b) && Flags(ext, b) < Power(b)
    ensures b == 7 ==> Flags(ext, 7) < 128
    decreases 7 - b
  {
    FlagsBelow(ext, b);
    if b < 7 {
      FlagsSplit(ext, b + 1);
      if b < 6 {
        Carry(Power(b), if ext[b] then 1 else 0, FlagsFrom(ext, b + 1));
      }
    }
  }

  lemma Carry(p: nat, bit: nat, rest: nat)
    ensures p * (bit + 2 * rest) == p * bit + (2 * p) * rest
  {
  }

  lemma {:induction false} FlagsBelow(ext: seq<bool>, n: nat)
    requires n <= |ext| && n <= 7
    ensures Flags(ext, n) < if n == 7 then 128 else Power(n)
  {
    if n > 0 { FlagsBelow(ext, n - 1); }
  }

  lemma FlagOfFlags(ext: seq<bool>, b: nat)
    requires |ext| == BIND_COUNT && b < BIND_COUNT
    ensures Flags(ext, BIND_COUNT) < 256
    ensures Flag(Flags(ext, BIND_COUNT), b) == ext[b]
  {
    hide Flags;
    FlagsSplit(ext, 7);
    FlagsSplit(ext, b);
    assert Flags(ext, 7) / Power(b) == FlagsFrom(ext, b) by { hide FlagsFrom; }
  }

  // ---- the block ----------------------------------------------------------

  /** Byte `j` of a profile's block: the values, padding to a word, the codes and
      the flags. */
  function BlockByte(live: Live, j: nat): (b: nat)
    requires live.Valid() && j < 4 * BLOCK_WORDS
    ensures b < 256
  {
    if j < SET_COUNT then live.values[j]
    else if j < 4 * VALUE_WORDS then 0
    else if j < 4 * VALUE_WORDS + BIND_COUNT then live.codes[j - 4 * VALUE_WORDS]
    else FlagOfFlags(live.ext, 0); Flags(live.ext, BIND_COUNT)
  }

  function BlockWord(live: Live, k: nat): Word
    requires live.Valid() && k < BLOCK_WORDS
  {
    Pack(BlockByte(live, 4 * k), BlockByte(live, 4 * k + 1), BlockByte(live, 4 * k + 2), BlockByte(live, 4 * k + 3))
  }

  function Block(live: Live): (block: seq<Word>)
    requires live.Valid()
    ensures |block| == BLOCK_WORDS
    ensures forall k | 0 <= k < BLOCK_WORDS :: block[k] == BlockWord(live, k)
  {
    seq(BLOCK_WORDS, k requires 0 <= k < BLOCK_WORDS => BlockWord(live, k))
  }

  /** How many words `count` bytes fill. */
  function WordsFor(count: nat): nat { (count + 3) / 4 }

  function StoredByte(block: seq<Word>, j: nat): (b: nat)
    requires j / 4 < |block|
    ensures b < 256
  {
    ByteOf(block[j / 4], j % 4)
  }

  /** A value the block does not carry, or carries out of range, stays. */
  function AdoptedValue(value: nat, block: seq<Word>, count: nat, i: nat): nat
    requires |block| >= WordsFor(count)
  {
    if i < count && StoredByte(block, i) < Options(i) then StoredByte(block, i) else value
  }

  function AdoptedCode(block: seq<Word>, count: nat, b: nat): nat
    requires |block| >= WordsFor(count) + 2 && b < 8
  {
    StoredByte(block, 4 * WordsFor(count) + b)
  }

  /** The profile a stored block stands for, over the one live before it. */
  function Adopted(live: Live, block: seq<Word>, count: nat): (r: Live)
    requires live.Valid() && |block| >= WordsFor(count) + 2
    ensures r.Valid()
  {
    Live(seq(SET_COUNT, i requires 0 <= i < SET_COUNT => AdoptedValue(live.values[i], block, count, i)),
         seq(BIND_COUNT, b requires 0 <= b < BIND_COUNT => AdoptedCode(block, count, b)),
         seq(BIND_COUNT, b requires 0 <= b < BIND_COUNT => Flag(AdoptedCode(block, count, BIND_COUNT), b)))
  }

  lemma StoredBlockByte(live: Live, j: nat)
    requires live.Valid() && j < 4 * BLOCK_WORDS
    ensures StoredByte(Block(live), j) == BlockByte(live, j)
  {
    hide BlockByte, Pack, ByteOf;
    var k := j / 4;
    ByteOfPack(BlockByte(live, 4 * k), BlockByte(live, 4 * k + 1), BlockByte(live, 4 * k + 2),
        BlockByte(live, 4 * k + 3), j % 4);
  }

  /** A stored profile comes back whole, whatever was live. */
  lemma BlockRoundTrip(live: Live, before: Live)
    requires live.Valid() && before.Valid()
    ensures Adopted(before, Block(live), SET_COUNT) == live
  {
    hide StoredByte, Flag, Block, Options, Flags;
    var r := Adopted(before, Block(live), SET_COUNT);
    forall i | 0 <= i < SET_COUNT ensures r.values[i] == live.values[i] {
      StoredBlockByte(live, i);
    }
    forall b | 0 <= b < BIND_COUNT ensures r.codes[b] == live.codes[b] && r.ext[b] == live.ext[b] {
      StoredBlockByte(live, 4 * VALUE_WORDS + b);
      StoredBlockByte(live, 4 * VALUE_WORDS + BIND_COUNT);
      assert AdoptedCode(Block(live), SET_COUNT, BIND_COUNT) == Flags(live.ext, BIND_COUNT);
      FlagOfFlags(live.ext, b);
    }
    assert r.values == live.values && r.codes == live.codes && r.ext == live.ext;
  }

  /** Where everything is in a stored block: four values to a word, the first in its low
      byte, then the key codes, then a bit for each extended one. */
  lemma BlockLayout(live: Live)
    requires live.Valid()
    ensures forall k | 0 <= k < 5 ::
      Block(live)[k] as int == live.values[4 * k] + 0x100 * live.values[4 * k + 1] + 0x1_0000 * live.values[4 * k + 2]
                               + 0x100_0000 * live.values[4 * k + 3]
    ensures Block(live)[5] as int == live.values[20]
    ensures var c, x := live.codes, live.ext;
      && Block(live)[6] as int == c[0] + 0x100 * c[1] + 0x1_0000 * c[2] + 0x100_0000 * c[3]
      && Block(live)[7] as int == c[4] + 0x100 * c[5] + 0x1_0000 * c[6]
           + 0x100_0000 * (One(x[0]) + 2 * One(x[1]) + 4 * One(x[2]) + 8 * One(x[3]) + 16 * One(x[4]) + 32 * One(x[5])
                           + 64 * One(x[6]))
  {
    hide Flags, Options;
    FlagOfFlags(live.ext, 0);
    FlagsAre(live.ext);
  }

  function One(flag: bool): nat { if flag then 1 else 0 }

  lemma FlagsAre(x: seq<bool>)
    requires |x| == BIND_COUNT
    ensures Flags(x, 7)
         == One(x[0]) + 2 * One(x[1]) + 4 * One(x[2]) + 8 * One(x[3]) + 16 * One(x[4]) + 32 * One(x[5]) + 64 * One(x[6])
  {
    assert Flags(x, 1) == One(x[0]);
    assert Flags(x, 2) == Flags(x, 1) + 2 * One(x[1]);
    assert Flags(x, 4) == Flags(x, 2) + 4 * One(x[2]) + 8 * One(x[3]) by {
      assert Flags(x, 3) == Flags(x, 2) + 4 * One(x[2]);
    }
    assert Flags(x, 5) == Flags(x, 4) + 16 * One(x[4]);
    assert Flags(x, 6) == Flags(x, 5) + 32 * One(x[5]);
  }
}
