/** The search for the best nibble. */
module AdpcmQuantiser {
  import opened AdpcmTable
  import opened AdpcmSpec

  /** Of the first `n` nibbles tried, `best` was the first to miss by least. */
  ghost predicate Leads(dec: Decoder, target: int, n: nat, best: nat, bestX: int, bestErr: int) {
    && 0 < n <= 16 && best < 16
    && best == Tried(FirstLeast(Misses(dec, target)[..n]))
    && bestX == Moved(dec, best)
    && bestErr == Miss(dec, best, target)
  }

  lemma FirstTried(dec: Decoder, target: int)
    ensures Leads(dec, target, 1, 0, Moved(dec, 0), Miss(dec, 0, target))
  {
    hide Moved, Miss;
    assert Misses(dec, target)[..1] == [Miss(dec, Tried(0), target)];
  }

  lemma NextTried(dec: Decoder, target: int, n: nat, best: nat, bestX: int, bestErr: int)
    requires n < 16 && Leads(dec, target, n, best, bestX, bestErr)
    ensures var nib := Tried(n);
      if Miss(dec, nib, target) < bestErr
      then Leads(dec, target, n + 1, nib, Moved(dec, nib), Miss(dec, nib, target))
      else Leads(dec, target, n + 1, best, bestX, bestErr)
  {
    hide Moved, Miss, Tried;
    var m := Misses(dec, target);
    assert m[..n + 1][..n] == m[..n];
    assert m[n] == Miss(dec, Tried(n), target);
    assert m[FirstLeast(m[..n])] == m[..n][FirstLeast(m[..n])];
  }

  lemma MissBounded(dec: Decoder, target: int, nib: nat)
    requires InRange(dec) && -2048 <= target <= 2047 && nib < 16
    ensures dec.step < STEPS && Miss(dec, nib, target) < 0x7FFF_FFFF
  {
    GridHasNoHole(dec.step, Magnitude(nib));
    hide Inc;
  }

  /** The `tried`-th trial of the nested loops. */
  lemma TrialIs(dec: Decoder, target: int, mag: nat, sign: nat)
    requires dec.step < STEPS && mag < 8 && sign < 2
    ensures Tried(2 * mag + sign) == sign * 8 + mag
    ensures Moved(dec, sign * 8 + mag) == if sign == 1 then dec.x - Inc(dec.step, mag) else dec.x + Inc(dec.step, mag)
    ensures var e := Moved(dec, sign * 8 + mag) - target;
      Miss(dec, sign * 8 + mag, target) == if e > 0 then e else -e
  {
    TriedAt(mag, sign);
    hide Inc, InRange, Tried;
    assert Magnitude(sign * 8 + mag) == mag by { if sign == 0 { } else { } }
  }

  lemma TriedAt(mag: nat, sign: nat)
    requires mag < 8 && sign < 2
    ensures Tried(2 * mag + sign) == sign * 8 + mag
  {
  }

  /** The search over the sixteen nibbles: magnitudes in order, plus before minus. */
  method BestNibble(x: int, step: nat, target: int) returns (best: nat, bestX: int)
    requires InRange(Decoder(x, step)) && -2048 <= target <= 2047
    ensures best == Pick(Decoder(x, step), target)
    ensures bestX == Moved(Decoder(x, step), best)
  {
    hide Inc, Moved, Miss, Tried, Pick, Misses, FirstLeast, Leads, InRange;
    ghost var dec, tried := Decoder(x, step), 0;
    var bestErr := 0x7FFF_FFFF;
    best, bestX := 0, 0;
    FirstTried(dec, target);
    var mag := 0;
    while mag < 8
      invariant mag <= 8 && tried == 2 * mag
      invariant if tried == 0 then bestErr == 0x7FFF_FFFF else Leads(dec, target, tried, best, bestX, bestErr)
    {
      var inc := Inc(step, mag);
      var sign := 0;
      while sign < 2
        invariant sign <= 2 && tried == 2 * mag + sign
        invariant if tried == 0 then bestErr == 0x7FFF_FFFF else Leads(dec, target, tried, best, bestX, bestErr)
      {
        var cand := if sign == 1 then x - inc else x + inc;
        var err := if cand > target then cand - target else target - cand;
        MissBounded(dec, target, sign * 8 + mag);
        TrialIs(dec, target, mag, sign);
        if tried > 0 { NextTried(dec, target, tried, best, bestX, bestErr); }
        if err < bestErr {
          bestErr, bestX, best := err, cand, sign * 8 + mag;
        }
        sign, tried := sign + 1, tried + 1;
      }
      mag := mag + 1;
    }
    LeadsAll(dec, target, best, bestX, bestErr);
  }

  lemma LeadsAll(dec: Decoder, target: int, best: nat, bestX: int, bestErr: int)
    requires Leads(dec, target, 16, best, bestX, bestErr)
    ensures best == Pick(dec, target) && bestX == Moved(dec, best)
  {
    hide Moved, Miss, FirstLeast, Tried;
    assert Misses(dec, target)[..16] == Misses(dec, target);
  }
}
