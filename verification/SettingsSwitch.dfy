/** A change of disk and the timer interrupt, one memory access at a time: what was
    pending is saved, the context changes, the incoming profile is read in, and the
    interrupt may edit the live profile between any two steps. */
module SettingsSwitch {
  import opened SettingsBlock
  import opened SettingsRun
  import opened SettingsRace

  /** Where the change of disk stands: asked for, its save under way, the save returned
      and the context about to change, about to take setting `j` of the incoming profile,
      or about to set the code of button `b`, to load the flags and to store them. */
  datatype Stage =
    | Asked
    | Saving
    | Leaving
    | Taking(j: nat)
    | Coding(b: nat)
    | Loading(b: nat)
    | Storing(b: nat, flags: seq<bool>)
    | Settled

  /** The save's state, the profile the incoming context stands for, and of the moment
      the context changed: the block left behind, the live profile it should be, and
      whether no edit was owed. */
  datatype Switch = Switch(race: Race, stage: Stage, next: Live, left: seq<nat>, owed: Live, clean: bool) {
    ghost predicate Valid() {
      && race.Valid() && next.Valid() && owed.Valid()
      && (stage.Saving? || race.pc.Idle?)
      && match stage
         case Taking(j) => j < SET_COUNT
         case Coding(b) => b < BIND_COUNT
         case Loading(b) => b < BIND_COUNT
         case Storing(b, flags) => b < BIND_COUNT && |flags| == BIND_COUNT
         case _ => true
    }
  }

  /** One step of the main loop. */
  function Step(s: Switch): Switch
    requires s.Valid()
  {
    var live := s.race.live;
    match s.stage
    case Asked => if s.race.dirty then s.(stage := Saving, race := Main(s.race)) else s.(stage := Leaving)
    case Saving => if s.race.pc.Idle? then s.(stage := Leaving) else s.(race := Main(s.race))
    case Leaving =>
      s.(stage := Taking(0), left := s.race.block, owed := live, clean := !s.race.dirty,
         race := s.race.(block := Block(s.next)))
    case Taking(j) =>
      s.(stage := if j + 1 < SET_COUNT then Taking(j + 1) else Coding(0),
         race := s.race.(live := live.(values := live.values[j := s.next.values[j]])))
    case Coding(b) =>
      s.(stage := Loading(b), race := s.race.(live := live.(codes := live.codes[b := s.next.codes[b]])))
    case Loading(b) => s.(stage := Storing(b, live.ext))
    case Storing(b, flags) =>
      s.(stage := if b + 1 < BIND_COUNT then Coding(b + 1) else Settled,
         race := s.race.(live := live.(ext := flags[b := s.next.ext[b]])))
    case Settled => s
  }

  function Act(s: Switch, turn: Turn): Switch
    requires s.Valid() && Fair(turn)
  {
    match turn
    case MainTurn => Step(s)
    case Interrupt(ev) => s.(race := Edited(s.race, ev))
  }

  /** Whether setting `i` was taken over, and whether the code and the flag of button
      `c` were: a flag set while the flags are held for their store is not safe yet. */
  predicate ValueTaken(stage: Stage, i: nat) {
    match stage
    case Taking(j) => i < j
    case _ => stage.Coding? || stage.Loading? || stage.Storing? || stage.Settled?
  }

  predicate CodeTaken(stage: Stage, c: nat) {
    match stage
    case Coding(b) => c < b
    case Loading(b) => c <= b
    case Storing(b, _) => c <= b
    case _ => stage.Settled?
  }

  predicate FlagTaken(stage: Stage, c: nat) {
    match stage
    case Coding(b) => c < b
    case Loading(b) => c < b
    case _ => stage.Settled?
  }

  predicate ReadingIn(stage: Stage) { !stage.Asked? && !stage.Saving? && !stage.Leaving? }

  /** What has been taken over is the incoming profile's. */
  ghost predicate Taken(s: Switch)
    requires s.Valid()
  {
    && (forall i | 0 <= i < SET_COUNT && ValueTaken(s.stage, i) :: s.race.live.values[i] == s.next.values[i])
    && (forall c | 0 <= c < BIND_COUNT && CodeTaken(s.stage, c) :: s.race.live.codes[c] == s.next.codes[c])
    && (forall c | 0 <= c < BIND_COUNT && FlagTaken(s.stage, c) :: s.race.live.ext[c] == s.next.ext[c])
    && (s.stage.Storing? ==> forall c | 0 <= c < s.stage.b :: s.stage.flags[c] == s.next.ext[c])
  }

  /** What every step keeps: before the context changes, the save's own invariant;
      after, a clean change left the block of the profile that was live, and while
      nothing is owed the taken part of the incoming profile is live. */
  ghost predicate Kept(s: Switch) {
    && s.Valid()
    && if ReadingIn(s.stage) then
         && (s.clean ==> s.left == Block(s.owed))
         && s.race.block == Block(s.next) && (!s.race.dirty ==> Taken(s))
       else Synced(s.race)
  }

  lemma TakingValue(s: Switch)
    requires s.Valid() && s.stage.Taking?
    ensures var t := Step(s);
      && t.Valid() && ReadingIn(t.stage) && t.race == s.race.(live := t.race.live)
      && t == s.(stage := t.stage, race := t.race) && (Taken(s) ==> Taken(t))
  {
  }

  lemma TakingCode(s: Switch)
    requires s.Valid() && (s.stage.Coding? || s.stage.Loading?)
    ensures var t := Step(s);
      && t.Valid() && ReadingIn(t.stage) && t.race == s.race.(live := t.race.live)
      && t == s.(stage := t.stage, race := t.race) && (Taken(s) ==> Taken(t))
  {
  }

  lemma TakingFlag(s: Switch)
    requires s.Valid() && s.stage.Storing?
    ensures var t := Step(s);
      && t.Valid() && ReadingIn(t.stage) && t.race == s.race.(live := t.race.live)
      && t == s.(stage := t.stage, race := t.race) && (Taken(s) ==> Taken(t))
  {
  }

  lemma TakingOver(s: Switch)
    requires s.Valid() && ReadingIn(s.stage)
    ensures var t := Step(s);
      && t.Valid() && ReadingIn(t.stage) && t.race == s.race.(live := t.race.live)
      && t == s.(stage := t.stage, race := t.race) && (Taken(s) ==> Taken(t))
  {
    hide Taken, Switch.Valid, Block;
    match s.stage
    case Taking(_) => TakingValue(s);
    case Storing(_, _) => TakingFlag(s);
    case Settled =>
    case _ => TakingCode(s);
  }

  lemma StepKeeps(s: Switch)
    requires Kept(s)
    ensures Kept(Step(s))
  {
    hide BlockWord, Taken, Main;
    if ReadingIn(s.stage) {
      hide Block;
      TakingOver(s);
    } else {
      MainSynced(s.race);
      if s.stage.Leaving? { NothingTaken(Step(s)); }
    }
  }

  lemma NothingTaken(s: Switch)
    requires s.Valid() && s.stage == Taking(0)
    ensures Taken(s)
  {
  }

  lemma ActKeeps(s: Switch, turn: Turn)
    requires Kept(s) && Fair(turn)
    ensures Kept(Act(s, turn))
  {
    hide Step, Block, Synced, Edited;
    match turn
    case MainTurn => StepKeeps(s);
    case Interrupt(ev) => EditKeeps(s.race, ev);
  }

  lemma EditKeeps(s: Race, ev: Event)
    requires s.Valid() && Fair(Interrupt(ev))
    ensures var t := Edited(s, ev);
      && t.Valid() && t == s.(live := t.live, dirty := t.dirty) && (t.dirty || t == s)
      && (Synced(s) ==> Synced(t))
  {
    hide Block, BlockWord;
    if Synced(s) { TurnSynced(s, Interrupt(ev)); }
  }

  function Go(s: Switch, turns: seq<Turn>): (r: Switch)
    requires Kept(s) && forall i | 0 <= i < |turns| :: Fair(turns[i])
    ensures Kept(r)
    decreases |turns|
  {
    hide Kept, Act;
    if turns == [] then s else ActKeeps(s, turns[0]); Go(Act(s, turns[0]), turns[1..])
  }

  /** However the interrupt falls between the steps of a change of disk: the context
      left has the profile that was live, unless an edit was owed when it changed, and
      at the end the incoming profile is live whole, unless one is owed then. */
  lemma SwitchKeeps(s: Switch, turns: seq<Turn>)
    requires s.Valid() && s.stage.Asked? && Synced(s.race) && forall i | 0 <= i < |turns| :: Fair(turns[i])
    ensures Kept(s)
    ensures var r := Go(s, turns);
      && (ReadingIn(r.stage) && r.clean ==> r.left == Block(r.owed))
      && (r.stage.Settled? && !r.race.dirty ==> r.race.live == r.next && Synced(r.race))
  {
    hide BlockWord, Go;
    var r := Go(s, turns);
    if r.stage.Settled? && !r.race.dirty { AllTaken(r); }
  }

  lemma AllTaken(s: Switch)
    requires s.Valid() && s.stage.Settled? && Taken(s)
    ensures s.race.live == s.next
  {
    hide Block;
    assert s.race.live.values == s.next.values && s.race.live.codes == s.next.codes && s.race.live.ext == s.next.ext;
  }

  // ---- left alone ---------------------------------------------------------

  function Left(s: Switch): nat
    requires s.Valid()
  {
    match s.stage
    case Asked => 200 + Remaining(s.race)
    case Saving => 101 + Remaining(s.race)
    case Leaving => 100
    case Taking(j) => 22 + SET_COUNT - j
    case Coding(b) => 3 * (BIND_COUNT - b)
    case Loading(b) => 3 * (BIND_COUNT - b) - 1
    case Storing(b, _) => 3 * (BIND_COUNT - b) - 2
    case Settled => 0
  }

  lemma StepNears(s: Switch)
    requires Kept(s) && !s.stage.Settled?
    ensures Step(s).Valid() && Left(Step(s)) < Left(s)
  {
    hide Block, BlockWord, Synced, Taken;
    StepKeeps(s);
    if !ReadingIn(s.stage) && !s.race.pc.Idle? { MainAdvances(s.race); }
  }

  /** The change of disk finished without another edit. */
  function Rest(s: Switch): (r: Switch)
    requires Kept(s)
    ensures Kept(r) && r.stage.Settled?
    decreases Left(s)
  {
    if s.stage.Settled? then s else StepKeeps(s); StepNears(s); Rest(Step(s))
  }

  /** What is live once the rest of the incoming profile was taken over. */
  function Rested(s: Switch): (live: Live)
    requires s.Valid()
    ensures |live.values| == SET_COUNT && |live.codes| == BIND_COUNT && |live.ext| == BIND_COUNT
  {
    var now, next := s.race.live, s.next;
    Live(seq(SET_COUNT, i requires 0 <= i < SET_COUNT =>
           if ValueTaken(s.stage, i) then now.values[i] else next.values[i]),
         seq(BIND_COUNT, c requires 0 <= c < BIND_COUNT =>
           if CodeTaken(s.stage, c) then now.codes[c] else next.codes[c]),
         seq(BIND_COUNT, c requires 0 <= c < BIND_COUNT =>
           if FlagTaken(s.stage, c) then now.ext[c]
           else if s.stage.Storing? && c < s.stage.b then s.stage.flags[c] else next.ext[c]))
  }

  lemma ValuesStay(s: Switch)
    requires s.Valid() && ReadingIn(s.stage) && Step(s).Valid()
    ensures Rested(Step(s)).values == Rested(s).values && (s.stage.Settled? ==> Rested(s).values == s.race.live.values)
  {
    var a, b := Rested(s).values, Rested(Step(s)).values;
    assert a == b;
    if s.stage.Settled? { assert a == s.race.live.values; }
  }

  lemma CodesStay(s: Switch)
    requires s.Valid() && ReadingIn(s.stage) && Step(s).Valid()
    ensures Rested(Step(s)).codes == Rested(s).codes && (s.stage.Settled? ==> Rested(s).codes == s.race.live.codes)
  {
    var a, b := Rested(s).codes, Rested(Step(s)).codes;
    assert a == b;
    if s.stage.Settled? { assert a == s.race.live.codes; }
  }

  lemma FlagsStay(s: Switch)
    requires s.Valid() && ReadingIn(s.stage) && Step(s).Valid()
    ensures Rested(Step(s)).ext == Rested(s).ext && (s.stage.Settled? ==> Rested(s).ext == s.race.live.ext)
  {
    var a, b := Rested(s).ext, Rested(Step(s)).ext;
    assert a == b;
    if s.stage.Settled? { assert a == s.race.live.ext; }
  }

  lemma RestedStays(s: Switch)
    requires s.Valid() && ReadingIn(s.stage)
    ensures Step(s).Valid() && Rested(Step(s)) == Rested(s) && (s.stage.Settled? ==> Rested(s) == s.race.live)
  {
    hide Rested, Step, Switch.Valid, Taken;
    TakingOver(s);
    ValuesStay(s);
    CodesStay(s);
    FlagsStay(s);
  }

  lemma {:induction false} RestIs(s: Switch)
    requires Kept(s) && ReadingIn(s.stage)
    ensures Rest(s) == s.(stage := Settled, race := s.race.(live := Rested(s)))
    decreases Left(s)
  {
    hide Block, Synced, Taken, Rested, Step;
    RestedStays(s);
    TakingOver(s);
    if !s.stage.Settled? {
      StepKeeps(s);
      StepNears(s);
      RestIs(Step(s));
    }
  }

  /** An undisturbed change of disk saves what was live for the disk that goes, and
      leaves live what the one that comes stands for, nothing owed. */
  lemma UndisturbedSwitch(s: Switch)
    requires s.Valid() && s.stage.Asked? && Synced(s.race)
    ensures Kept(s)
    ensures var r := Rest(s);
      && r.clean && r.owed == s.race.live && r.left == Block(r.owed) && r.race.live == s.next && !r.race.dirty
  {
    hide Synced, Block, Rest, Kept;
    assert Kept(s) by { AskedIsKept(s); }
    SavedThenTaken(s, s.race.live);
  }

  lemma AskedIsKept(s: Switch)
    requires s.Valid() && s.stage.Asked? && Synced(s.race)
    ensures Kept(s)
  {
  }

  /** A save that nothing has disturbed ends with nothing owed. */
  lemma {:induction false} SavedThenTaken(s: Switch, live: Live)
    requires Kept(s) && !ReadingIn(s.stage) && s.race.live == live
    requires s.stage.Saving? ==> !s.race.dirty || s.race.pc.Due?
    requires s.stage.Leaving? ==> !s.race.dirty
    ensures var r := Rest(s);
      && r.clean && r.owed == live && r.left == Block(live) && r.race.live == s.next && !r.race.dirty
    decreases Left(s)
  {
    hide Block, BlockWord, Synced, Taken;
    StepKeeps(s);
    StepNears(s);
    if s.stage.Leaving? {
      RestIs(Step(s));
      NothingRested(Step(s));
    } else {
      SavedThenTaken(Step(s), live);
    }
  }

  lemma NothingRested(s: Switch)
    requires s.Valid() && s.stage == Taking(0)
    ensures Rested(s) == s.next
  {
    var r := Rested(s);
    assert r.values == s.next.values && r.codes == s.next.codes && r.ext == s.next.ext;
  }

  /** An edit that falls between a save that left nothing owed and the change of
      context is in neither profile: the context left does not have it unless it changed
      nothing, and the incoming profile overwrites it. */
  lemma GapEdit(s: Switch, ev: Event)
    requires Kept(s) && s.stage.Leaving? && !s.race.dirty && Fair(Interrupt(ev))
    ensures Kept(Act(s, Interrupt(ev)))
    ensures var r := Rest(Act(s, Interrupt(ev)));
      && r.owed == Edited(s.race, ev).live && r.left == Block(s.race.live) && r.race.live == s.next
      && (r.left == Block(r.owed) <==> r.owed == s.race.live)
  {
    hide BlockWord, Taken, Block, Edited;
    var t := Act(s, Interrupt(ev));
    ActKeeps(s, Interrupt(ev));
    EditKeeps(s.race, ev);
    StepKeeps(t);
    StepNears(t);
    RestIs(Step(t));
    NothingRested(Step(t));
    BlockIsOwn(t.race.live, s.race.live);
  }

  lemma BlockIsOwn(a: Live, b: Live)
    requires a.Valid() && b.Valid()
    ensures Block(a) == Block(b) <==> a == b
  {
    hide Block, Adopted;
    BlockRoundTrip(a, a);
    BlockRoundTrip(b, a);
  }

  lemma LateRested(s: Switch, ev: Event)
    requires s.Valid() && ReadingIn(s.stage) && Taken(s) && Possible(ev) && (ev.Stepped? || ev.Bound?)
    ensures Act(s, Interrupt(ev)).Valid()
    ensures var r, next := Rested(Act(s, Interrupt(ev))), s.next;
      && r.values == (if ev.Stepped? && ValueTaken(s.stage, ev.i) then Edited(s.race.(live := next), ev).live.values
                      else next.values)
      && r.codes == (if ev.Bound? && CodeTaken(s.stage, ev.b) then next.codes[ev.b := ev.code] else next.codes)
      && r.ext == (if ev.Bound? && FlagTaken(s.stage, ev.b) then next.ext[ev.b := ev.ext] else next.ext)
  {
    hide Block;
    var r, next := Rested(Act(s, Interrupt(ev))), s.next;
    if ev.Stepped? {
      var edited := Edited(s.race.(live := next), ev).live;
      assert r.values == if ValueTaken(s.stage, ev.i) then edited.values else next.values;
    } else {
      assert r.values == next.values;
    }
  }

  /** An edit while the incoming profile is read in, with nothing before it: what is live
      in the end. A setting's step survives if the setting was taken over already, a
      binding if its flag was; one whose code alone was keeps the code and loses the
      flag; the others leave the incoming profile as it is. */
  lemma LateEdit(s: Switch, ev: Event)
    requires Kept(s) && ReadingIn(s.stage) && Taken(s) && Possible(ev) && (ev.Stepped? || ev.Bound?)
    ensures Kept(Act(s, Interrupt(ev)))
    ensures var live, edited := Rest(Act(s, Interrupt(ev))).race.live, Edited(s.race.(live := s.next), ev).live;
      match ev
      case Stepped(i, _, _) => live == if ValueTaken(s.stage, i) then edited else s.next
      case Bound(c, code, _) =>
        live == if FlagTaken(s.stage, c) then edited
                else if CodeTaken(s.stage, c) then s.next.(codes := s.next.codes[c := code]) else s.next
  {
    hide Block, Synced;
    ActKeeps(s, Interrupt(ev));
    var t := Act(s, Interrupt(ev));
    RestIs(t);
    LateRested(s, ev);
  }
}
