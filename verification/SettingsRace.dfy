/** A save and the timer interrupt, one memory access at a time: the interrupt may
    edit the live profile between any two steps of the save. */
module SettingsRace {
  import opened SettingsBlock
  import opened SettingsRun
  import opened SettingsStore

  /** Where the main loop stands: between calls, past the test of the dirty flag,
      about to read byte `j` of the profile, about to write word `k` of the block, or
      about to read the extended-key flag of button `b`. */
  datatype Pc = Idle | Due | Reading(j: nat) | Putting(k: nat) | Flagging(b: nat)

  datatype Race = Race(live: Live, dirty: bool, pc: Pc, word: nat, ext: nat, block: seq<nat>) {
    ghost predicate Valid() {
      && live.Valid() && |block| == BLOCK_WORDS
      && match pc
         case Reading(j) => j < SET_COUNT || 4 * VALUE_WORDS <= j < 4 * BLOCK_WORDS
         case Putting(k) => k < BLOCK_WORDS
         case Flagging(b) => b < BIND_COUNT
         case _ => true
    }
  }

  /** The byte read from the machine's state: the flags were gathered before. */
  function ByteRead(s: Race, j: nat): nat
    requires s.live.Valid() && (j < SET_COUNT || 4 * VALUE_WORDS <= j < 4 * BLOCK_WORDS)
  {
    if j < SET_COUNT then s.live.values[j]
    else if j < 4 * VALUE_WORDS + BIND_COUNT then s.live.codes[j - 4 * VALUE_WORDS]
    else s.ext
  }

  function Scale(k: nat): nat {
    match k case 0 => 1 case 1 => 0x100 case 2 => 0x1_0000 case _ => 0x100_0000
  }

  /** One step of the main loop. */
  function Main(s: Race): Race
    requires s.Valid()
  {
    match s.pc
    case Idle => if s.dirty then s.(pc := Due) else s
    case Due => s.(dirty := false, pc := Reading(0), word := 0)
    case Reading(j) =>
      var now := s.(word := s.word + ByteRead(s, j) * Scale(j % 4));
      if j % 4 == 3 || j == SET_COUNT - 1 then now.(pc := Putting(j / 4)) else now.(pc := Reading(j + 1))
    case Putting(k) =>
      var now := s.(block := s.block[k := s.word], word := 0);
      if k == VALUE_WORDS - 1 then now.(pc := Flagging(0), ext := 0)
      else if k == BLOCK_WORDS - 1 then now.(pc := Idle)
      else now.(pc := Reading(4 * (k + 1)))
    case Flagging(b) =>
      s.(ext := s.ext + if s.live.ext[b] then Power(b) else 0,
         pc := if b + 1 < BIND_COUNT then Flagging(b + 1) else Reading(4 * VALUE_WORDS))
  }

  /** An edit from the interrupt: the change and the dirty flag in one go. */
  function Edited(s: Race, ev: Event): Race
    requires s.Valid() && Possible(ev) && (ev.Stepped? || ev.Bound? || ev.Restored?)
  {
    match ev
    case Stepped(i, right, sound) =>
      if i == 12 && !sound then s
      else s.(live := s.live.(values := s.live.values[i := Turned(s.live.values[i], i, right)]), dirty := true)
    case Bound(b, code, ext) =>
      s.(live := s.live.(codes := s.live.codes[b := code], ext := s.live.ext[b := ext]), dirty := true)
    case Restored => s.(live := Defaults(), dirty := true)
  }

  datatype Turn = MainTurn | Interrupt(ev: Event)

  predicate Fair(turn: Turn) {
    turn.Interrupt? ==> Possible(turn.ev) && (turn.ev.Stepped? || turn.ev.Bound? || turn.ev.Restored?)
  }

  function Take(s: Race, turn: Turn): Race
    requires s.Valid() && Fair(turn)
  {
    match turn
    case MainTurn => Main(s)
    case Interrupt(ev) => Edited(s, ev)
  }

  /** The words below `k` are the live profile's. */
  ghost predicate StoredBelow(s: Race, k: nat)
    requires s.Valid() && k <= BLOCK_WORDS
  {
    forall i | 0 <= i < k :: s.block[i] == BlockWord(s.live, i)
  }

  /** While nothing is owed, all that the save has gathered is still true of the
      live profile. */
  ghost predicate Synced(s: Race) {
    && s.Valid() && (s.pc.Due? ==> s.dirty)
    && (!s.dirty ==>
         match s.pc
         case Idle => StoredBelow(s, BLOCK_WORDS)
         case Due => true
         case Reading(j) => StoredBelow(s, j / 4) && s.word == Partial(s.live, j)
                            && (j >= 4 * VALUE_WORDS ==> s.ext == Flags(s.live.ext, BIND_COUNT))
         case Putting(k) => StoredBelow(s, k) && s.word == BlockWord(s.live, k)
                            && (k >= VALUE_WORDS ==> s.ext == Flags(s.live.ext, BIND_COUNT))
         case Flagging(b) => StoredBelow(s, VALUE_WORDS) && s.word == 0 && s.ext == Flags(s.live.ext, b))
  }

  lemma ReadSynced(s: Race)
    requires Synced(s) && s.pc.Reading?
    ensures Synced(Main(s))
  {
    hide Partial, BlockWord, Flags, Lane, BlockByte;
    var j := s.pc.j;
    ByteJoins(s.live, j);
    PaddingIsZero(s.live);
    assert Lane(BlockByte(s.live, j), j % 4) == BlockByte(s.live, j) * Scale(j % 4)
        by { LaneScales(BlockByte(s.live, j), j % 4); }
  }

  lemma LaneScales(b: nat, k: nat)
    requires b < 256 && k < 4
    ensures Lane(b, k) == b * Scale(k)
  {
  }

  lemma MainSynced(s: Race)
    requires Synced(s)
    ensures Synced(Main(s))
  {
    hide Partial, BlockWord, Lane, BlockByte;
    match s.pc
    case Reading(j) => ReadSynced(s);
    case Flagging(b) =>
      FlagJoins(s.live.ext, b);
      PartialZero(s.live, 4 * VALUE_WORDS);
    case Putting(k) => PartialZero(s.live, 4 * (if k < 7 then k + 1 else 0));
    case _ => PartialZero(s.live, 0);
  }

  lemma TurnSynced(s: Race, turn: Turn)
    requires Synced(s) && Fair(turn)
    ensures Synced(Take(s, turn))
  {
    if turn.MainTurn? { MainSynced(s); }
  }

  function Play(s: Race, turns: seq<Turn>): (r: Race)
    requires s.Valid() && forall i | 0 <= i < |turns| :: Fair(turns[i])
    ensures r.Valid()
    decreases |turns|
  {
    if turns == [] then s else Play(Take(s, turns[0]), turns[1..])
  }

  /** No edit is lost: however the interrupt falls, whenever nothing is owed and no
      save is under way the stored block is the live profile's. */
  lemma {:induction false} NoEditLost(s: Race, turns: seq<Turn>)
    requires Synced(s) && forall i | 0 <= i < |turns| :: Fair(turns[i])
    ensures var r := Play(s, turns); Synced(r) && (r.pc.Idle? && !r.dirty ==> r.block == Block(r.live))
    decreases |turns|
  {
    hide Take, BlockWord;
    if turns == [] {
    } else {
      TurnSynced(s, turns[0]);
      NoEditLost(Take(s, turns[0]), turns[1..]);
    }
  }

  /** How many undisturbed steps the main loop is from having nothing to do. */
  function Remaining(s: Race): nat
    requires s.Valid()
  {
    var whole := 28 + 8 + 7 + 2;
    match s.pc
    case Idle => if s.dirty then whole + 1 else 0
    case Due => whole
    case Reading(j) =>
      Owing(s) + (if j < SET_COUNT then (20 - j) + (5 - j / 4) + 1 + 7 + 8 + 2 + 1 else (31 - j) + (7 - j / 4) + 2)
    case Putting(k) =>
      Owing(s) + (if k >= VALUE_WORDS then (31 - 4 * k - 3) + (7 - k) + 1
                  else (if k < 5 then 20 - 4 * k - 3 else 0) + (5 - k) + 7 + 8 + 2 + 1)
    case Flagging(b) => Owing(s) + (7 - b) + 8 + 2
  }

  function Owing(s: Race): nat {
    if s.dirty then 28 + 8 + 7 + 2 + 1 else 0
  }

  lemma MainAdvances(s: Race)
    requires Synced(s) && Remaining(s) > 0
    ensures Remaining(Main(s)) < Remaining(s) && Main(s).live == s.live
  {
  }

  function Alone(s: Race, n: nat): (r: Race)
    requires s.Valid()
    ensures r.Valid()
    decreases n
  {
    if n == 0 then s else Alone(Main(s), n - 1)
  }

  lemma {:induction false} Completes(s: Race, n: nat)
    requires Synced(s) && n >= Remaining(s)
    ensures var r := Alone(s, n); r.pc.Idle? && !r.dirty && r.live == s.live && r.block == Block(s.live)
    decreases n
  {
    hide BlockWord;
    if n > 0 {
      MainSynced(s);
      if Remaining(s) > 0 { MainAdvances(s); }
      Completes(Main(s), n - 1);
    }
  }

  /** Left alone for a hundred steps, the main loop has stored the live profile,
      wherever the last edit caught it. */
  lemma SaveCompletes(s: Race)
    requires Synced(s)
    ensures var r := Alone(s, 100); r.pc.Idle? && !r.dirty && r.live == s.live && r.block == Block(s.live)
  {
    hide BlockWord, Alone, Synced;
    Completes(s, 100);
  }
}
