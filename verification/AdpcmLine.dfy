/** What the resampler yields, in numbers: every output lies on the line through the two
    samples around its place, rounded down. */
module AdpcmLine {
  import opened AdpcmSpec

  /** An interpolation is the point of the line, rounded down. */
  lemma LerpOnLine(a: int, b: int, frac: nat)
    requires frac < ONE
    ensures ONE * Lerp(a, b, frac) <= (ONE - frac) * a + frac * b < ONE * Lerp(a, b, frac) + ONE
  {
    var p := (b - a) * frac;
    assert p == ONE * (p / ONE) + p % ONE;
    assert (ONE - frac) * a + frac * b == ONE * a + p;
  }

  /** Which outputs there are and where each lies: the `k`-th at position pos + k * ratio,
      as long as that is short of the last sample. */
  lemma {:induction false} LerpsAt(pcm: seq<int>, ratio: nat, pos: nat, k: nat)
    requires ratio > 0
    ensures k < |Lerps(pcm, ratio, pos)| <==> (pos + k * ratio) / ONE < |pcm| - 1
    ensures k < |Lerps(pcm, ratio, pos)| ==>
      var at := pos + k * ratio; Lerps(pcm, ratio, pos)[k] == Lerp(pcm[at / ONE], pcm[at / ONE + 1], at % ONE)
    decreases k
  {
    hide Lerp, Lerps;
    LerpsUnfold(pcm, ratio, pos);
    if k == 0 {
    } else if pos / ONE < |pcm| - 1 {
      LerpsAt(pcm, ratio, pos + ratio, k - 1);
      assert pos + ratio + (k - 1) * ratio == pos + k * ratio;
    } else {
      Further(pos, pos + k * ratio);
    }
  }

  lemma Further(a: nat, b: nat)
    requires a <= b
    ensures a / ONE <= b / ONE
  {
  }

  /** The `k`-th output of a resampled source before its last sample: on the line through
      the samples on both sides of position k * ratio, rounded down. */
  lemma ResampledOnLine(pcm: seq<int>, ratio: nat, k: nat)
    requires ratio > 0 && k * ratio / ONE < |pcm| - 1
    ensures k < |Resampled(pcm, ratio)|
    ensures var j, f, out := k * ratio / ONE, k * ratio % ONE, Resampled(pcm, ratio)[k];
      ONE * out <= (ONE - f) * pcm[j] + f * pcm[j + 1] < ONE * out + ONE
  {
    hide Lerp, Lerps, Flats, LerpEnd;
    LerpsAt(pcm, ratio, 0, k);
    var j, f := k * ratio / ONE, k * ratio % ONE;
    LerpOnLine(pcm[j], pcm[j + 1], f);
  }

  /** Past that the newest sample is held. */
  lemma {:induction false} FlatsAre(idx: nat, last: int, ratio: nat, pos: nat, k: nat)
    requires ratio > 0 && k < |Flats(idx, last, ratio, pos)|
    ensures Flats(idx, last, ratio, pos)[k] == last
    decreases k
  {
    if k > 0 { FlatsAre(idx, last, ratio, pos + ratio, k - 1); }
  }

  lemma ResampledHolds(pcm: seq<int>, ratio: nat, k: nat)
    requires ratio > 0 && pcm != [] && k < |Resampled(pcm, ratio)| && k * ratio / ONE >= |pcm| - 1
    ensures Resampled(pcm, ratio)[k] == pcm[|pcm| - 1]
  {
    hide Lerp, Lerps, Flats, LerpEnd;
    LerpsAt(pcm, ratio, 0, k);
    FlatsAre(Newest(pcm), NewestSample(pcm), ratio, LerpEnd(|pcm|, ratio, 0), k - |Lerps(pcm, ratio, 0)|);
  }

  /** A ramp comes out as the same ramp at the new rate, rounded down. */
  lemma RampResamples(pcm: seq<int>, a: int, b: int, ratio: nat, k: nat)
    requires ratio > 0 && k * ratio / ONE < |pcm| - 1 && forall i | 0 <= i < |pcm| :: pcm[i] == a + b * i
    ensures k < |Resampled(pcm, ratio)| && Resampled(pcm, ratio)[k] == a + b * (k * ratio) / ONE
  {
    hide Resampled;
    ResampledOnLine(pcm, ratio, k);
    var at := k * ratio;
    RampPoint(a, b, at, Resampled(pcm, ratio)[k]);
  }

  lemma RampPoint(a: int, b: int, at: nat, out: int)
    requires var j, f := at / ONE, at % ONE;
      ONE * out <= (ONE - f) * (a + b * j) + f * (a + b * (j + 1)) < ONE * out + ONE
    ensures out == a + b * at / ONE
  {
    var j, f := at / ONE, at % ONE;
    assert at == ONE * j + f;
    assert (ONE - f) * (a + b * j) + f * (a + b * (j + 1)) == ONE * (a + b * j) + f * b;
    assert b * at == ONE * (b * j) + b * f;
    Floors(b * at, out - a);
  }

  lemma Floors(v: int, q: int)
    requires ONE * q <= v < ONE * q + ONE
    ensures v / ONE == q
  {
  }

  /** A sixteen-bit sample in the twelve-bit domain: divided by sixteen, rounded down. */
  lemma TwelveBits(s: int)
    requires -0x8000 <= s < 0x8000
    ensures 16 * Clamp12(s) <= s < 16 * Clamp12(s) + 16
  {
  }
}
