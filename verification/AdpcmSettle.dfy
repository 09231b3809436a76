/** How fast the quantiser reaches a target that stands still. */
module AdpcmSettle {
  import opened AdpcmTable
  import opened AdpcmSpec

  /** How far the accumulator is from a target. */
  function Off(dec: Decoder, target: int): nat {
    if dec.x < target then target - dec.x else dec.x - target
  }

  /** The magnitude of a row's largest increment, and how far that and half a gap reach. */
  function Top(step: nat): (mag: nat)
    ensures mag < 8
  {
    if step >= 48 then 5 else if step >= 46 then 6 else 7
  }

  function Reach(step: nat): int { Inc(step, Top(step)) + Inc(step, 0) + 1 }

  function Next(dec: Decoder, target: int): (r: Decoder)
    requires dec.step < STEPS
    ensures r.step < STEPS
  {
    Decode(dec, Pick(dec, target))
  }

  // ---- the rows -----------------------------------------------------------

  lemma SizesTo24(step: nat)
    requires step < 24
    ensures Size(step) <= Size(step + 1) <= 2 * Size(step)
  {
  }

  lemma SizesTo47(step: nat)
    requires 24 <= step < 48
    ensures Size(step) <= Size(step + 1) <= 2 * Size(step)
  {
  }

  /** The lowest increment grows with the row, and by no more than the next gap. */
  lemma {:induction false} LowestGrows(a: nat, b: nat)
    requires a <= b < STEPS
    ensures Size(a) <= Size(b) && Inc(a, 0) <= Inc(b, 0)
    decreases b
  {
    hide Inc, Size;
    IncIs(a, 0);
    IncIs(b, 0);
    if a < b {
      LowestGrows(a, b - 1);
      if b <= 24 { SizesTo24(b - 1); } else { SizesTo47(b - 1); }
    }
  }

  /** Up to the largest increment of a row, neighbours are close. */
  lemma GapIsSmall(step: nat, mag: nat)
    requires step < STEPS && mag < Top(step)
    ensures 0 < Inc(step, mag + 1) - Inc(step, mag) <= 2 * Inc(step, 0) + 2
  {
    hide Inc, Size;
    IncIs(step, mag);
    IncIs(step, mag + 1);
    IncIs(step, 0);
  }

  /** No other increment of a row reaches its largest. */
  lemma {:induction false} TopIsLargest(step: nat, mag: nat)
    requires step < STEPS && mag < 8 && mag != Top(step)
    ensures Inc(step, mag) < Inc(step, Top(step))
    decreases Top(step) - mag
  {
    hide Inc, Size;
    if mag < Top(step) {
      GapIsSmall(step, mag);
      if mag + 1 < Top(step) { TopIsLargest(step, mag + 1); }
    } else {
      IncIs(step, mag);
      LastRowsReach(step);
    }
  }

  lemma LastRowsReach(step: nat)
    requires 46 <= step < STEPS
    ensures Inc(step, Top(step)) >= 2083 && Reach(48) == 2329
  {
  }

  // ---- one nibble ---------------------------------------------------------

  /** The miss of the nibble that moves towards the target by magnitude `mag`. */
  lemma TowardsMisses(dec: Decoder, target: int, mag: nat)
    requires dec.step < STEPS && mag < 8
    ensures var e, inc := Off(dec, target), Inc(dec.step, mag);
      Off(Next(dec, target), target) <= if e < inc then inc - e else e - inc
  {
    hide Inc, Pick, NextStep;
    var nib := if dec.x <= target then mag else 8 + mag;
    PickIsBest(dec, target, nib);
    DecodeMoves(dec, Pick(dec, target));
  }

  /** And what the nibble picked moves by. */
  lemma PickMoves(dec: Decoder, target: int)
    requires dec.step < STEPS
    ensures var mag, r := Magnitude(Pick(dec, target)), Next(dec, target);
      && mag < 8 && r.step == NextStep(dec.step, mag)
      && Off(r, target) >= Off(dec, target) - Inc(dec.step, mag)
      && Off(r, target) >= Inc(dec.step, mag) - Off(dec, target)
  {
    hide Inc, Pick, NextStep;
    DecodeMoves(dec, Pick(dec, target));
    IncPositive(dec.step, Magnitude(Pick(dec, target)));
  }

  lemma IncPositive(step: nat, mag: nat)
    requires step < STEPS && mag < 8
    ensures Inc(step, mag) > 0
  {
    hide Inc, Size;
    IncIs(step, mag);
  }

  lemma {:induction false} NearMag(step: nat, e: nat, mag: nat) returns (best: nat)
    requires step < STEPS && mag <= Top(step) && Inc(step, mag) <= e <= Reach(step)
    ensures best < 8 && -Inc(step, 0) - 1 <= e - Inc(step, best) <= Inc(step, 0) + 1
    decreases Top(step) - mag
  {
    hide Inc;
    best := mag;
    if mag < Top(step) {
      GapIsSmall(step, mag);
      if Inc(step, mag + 1) <= e {
        best := NearMag(step, e, mag + 1);
      } else if e - Inc(step, mag) > Inc(step, mag + 1) - e {
        best := mag + 1;
      }
    }
  }

  /** Within a row's reach one nibble comes as close as the lowest increment. */
  lemma NearPick(dec: Decoder, target: int)
    requires dec.step < STEPS && Off(dec, target) <= Reach(dec.step)
    ensures Off(Next(dec, target), target) <= Inc(dec.step, 0) + 1
  {
    hide Inc, Reach, Off, Next;
    var e := Off(dec, target);
    var best := 0;
    if Inc(dec.step, 0) <= e { best := NearMag(dec.step, e, 0); }
    TowardsMisses(dec, target, best);
  }

  /** Beyond it the largest increment is taken. */
  lemma FarPick(dec: Decoder, target: int)
    requires dec.step < STEPS && Off(dec, target) > Reach(dec.step)
    ensures Magnitude(Pick(dec, target)) == Top(dec.step)
    ensures Off(Next(dec, target), target) == Off(dec, target) - Inc(dec.step, Top(dec.step))
  {
    hide Inc, Off, Next, Pick, Top, NextStep;
    var mag := Magnitude(Pick(dec, target));
    TowardsMisses(dec, target, Top(dec.step));
    PickMoves(dec, target);
    IncPositive(dec.step, 0);
    if mag != Top(dec.step) { TopIsLargest(dec.step, mag); }
  }

  /** Close to the target only a low magnitude is taken. */
  lemma ClosePick(dec: Decoder, target: int)
    requires dec.step < STEPS && 4 * Off(dec, target) <= Size(dec.step) + 4
    ensures Magnitude(Pick(dec, target)) < 4
  {
    hide Inc, Size, Off, Next, Pick, NextStep;
    var mag := Magnitude(Pick(dec, target));
    TowardsMisses(dec, target, 0);
    PickMoves(dec, target);
    IncIs(dec.step, 0);
    IncIs(dec.step, mag);
    if mag >= 4 { HighIsLarge(dec.step, mag); }
  }

  lemma HighIsLarge(step: nat, mag: nat)
    requires step < STEPS && 4 <= mag < 8
    ensures 8 * Inc(step, mag) > 9 * Size(step) - 8
  {
    hide Inc, Size;
    IncIs(step, mag);
    if step >= 46 { LastSizes(step); }
  }

  lemma LastSizes(step: nat)
    requires 46 <= step < STEPS
    ensures Size(step) <= 1552
  {
  }

  // ---- how long it takes --------------------------------------------------

  /** Near enough for the steps to fall: within the lowest increment of the row above. */
  predicate Tracking(dec: Decoder, target: int) {
    Off(dec, target) <= Inc(if dec.step < 48 then dec.step + 1 else 48, 0) + 1
  }

  predicate Settled(dec: Decoder, target: int) { dec.step == 0 && Off(dec, target) <= 2 }

  /** How many nibbles settle the accumulator at most. */
  function Patience(dec: Decoder, target: int): (n: nat)
    ensures dec.step < STEPS ==> n <= 57
  {
    if Settled(dec, target) then 0
    else if Tracking(dec, target) then dec.step + 1
    else if Off(dec, target) <= Reach(dec.step) then 50
    else if dec.step >= 46 then 51
    else 51 + (54 - dec.step) / 9
  }

  lemma TrackingIsClose(dec: Decoder, target: int)
    requires dec.step < STEPS && Tracking(dec, target)
    ensures 4 * Off(dec, target) <= Size(dec.step) + 4 && Off(dec, target) <= Reach(dec.step)
  {
    hide Inc, Size, Off;
    var above := if dec.step < 48 then dec.step + 1 else 48;
    IncIs(above, 0);
    IncIs(dec.step, 0);
    if dec.step < 24 { SizesTo24(dec.step); } else if dec.step < 48 { SizesTo47(dec.step); }
    TopCovers(dec.step);
  }

  lemma TopCovers(step: nat)
    requires step < STEPS
    ensures 8 * Inc(step, Top(step)) > 11 * Size(step) - 8
  {
    hide Inc, Size;
    IncIs(step, Top(step));
  }

  lemma TrackingNears(dec: Decoder, target: int)
    requires dec.step < STEPS && Tracking(dec, target)
    ensures var r := Next(dec, target);
      if dec.step == 0 then Settled(r, target) else r.step == dec.step - 1 && Tracking(r, target)
  {
    hide Inc, Off, Next, Pick;
    TrackingIsClose(dec, target);
    ClosePick(dec, target);
    PickMoves(dec, target);
    NearPick(dec, target);
    TowardsMisses(dec, target, 0);
    FirstRow();
  }

  lemma FirstRow()
    ensures Inc(0, 0) == 2 && Inc(1, 0) == 2
  {
  }

  /** Every nibble brings the end nearer, and at the end it stays. */
  lemma PickNears(dec: Decoder, target: int)
    requires InRange(dec) && -2048 <= target <= 2047
    ensures var n := Patience(dec, target); Patience(Next(dec, target), target) <= if n == 0 then 0 else n - 1
  {
    hide Inc, Next, Pick, Reach, Top;
    var r := Next(dec, target);
    if Settled(dec, target) || Tracking(dec, target) {
      FirstRow();
      TrackingNears(dec, target);
    } else if Off(dec, target) <= Reach(dec.step) {
      NearPick(dec, target);
      PickMoves(dec, target);
      LowestGrows(dec.step, if r.step < 48 then r.step + 1 else 48);
    } else {
      FarPick(dec, target);
      PickMoves(dec, target);
      if dec.step >= 46 { LastRowsReach(dec.step); }
      TopSteps(dec.step);
    }
  }

  lemma TopSteps(step: nat)
    requires step < STEPS
    ensures NextStep(step, Top(step)) == if step < 40 then step + 9 else 48
  {
  }

  function Still(target: int, n: nat): (t: seq<int>)
    ensures |t| == n && forall i | 0 <= i < n :: t[i] == target
  {
    seq(n, _ => target)
  }

  lemma {:induction false} StillSettles(dec: Decoder, target: int, n: nat)
    requires InRange(dec) && -2048 <= target <= 2047 && n >= Patience(dec, target)
    ensures InRange(After(dec, Still(target, n))) && Settled(After(dec, Still(target, n)), target)
    decreases n
  {
    hide Settled, Patience, Decode, Pick;
    if n > 0 {
      PickNears(dec, target);
      PickStaysInRange(dec, target);
      assert Still(target, n)[1..] == Still(target, n - 1);
      StillSettles(Next(dec, target), target, n - 1);
    } else {
      NothingLeft(dec, target);
    }
  }

  lemma NothingLeft(dec: Decoder, target: int)
    requires Patience(dec, target) == 0
    ensures Settled(dec, target)
  {
  }

  /** From any state a coder can be in, 57 nibbles of a target that stands still bring
      the accumulator within two of it, the step index back to 0, and there they stay. */
  lemma Settles(dec: Decoder, target: int, n: nat)
    requires InRange(dec) && -2048 <= target <= 2047 && n >= 57
    ensures var r := After(dec, Still(target, n)); r.step == 0 && target - 2 <= r.x <= target + 2
  {
    hide Patience;
    StillSettles(dec, target, n);
  }
}
