/** ADPCM-A coding as the batch packer does it: resample, quantise, pack. */
module AdpcmSpec {
  import opened AdpcmTable
  import Division

  const ONE := 0x1_0000  // one source sample, in 16.16

  // ---- the quantiser ------------------------------------------------------

  /** How a magnitude moves the step index. */
  function Adapt(mag: nat): int
    requires mag < 8
  {
    if mag < 4 then -1 else if mag == 4 then 2 else if mag == 5 then 5 else if mag == 6 then 7 else 9
  }

  function NextStep(step: nat, mag: nat): (s: nat)
    requires step < STEPS && mag < 8
    ensures s < STEPS
  {
    var s := step + Adapt(mag);
    if s < 0 then 0 else if s > 48 then 48 else s
  }

  /** The decoder's accumulator and step index. */
  datatype Decoder = Decoder(x: int, step: nat)

  /** Sign in bit 3, magnitude below. */
  function Magnitude(nib: nat): nat { nib % 8 }

  predicate Negative(nib: nat) { nib >= 8 }

  function Moved(dec: Decoder, nib: nat): int
    requires nib < 16
  {
    if Negative(nib) then dec.x - Inc(dec.step, Magnitude(nib)) else dec.x + Inc(dec.step, Magnitude(nib))
  }

  /** What the chip does with a nibble. */
  function Decode(dec: Decoder, nib: nat): (r: Decoder)
    requires nib < 16 && dec.step < STEPS
    ensures r.step < STEPS
  {
    Decoder(Moved(dec, nib), NextStep(dec.step, Magnitude(nib)))
  }

  function Miss(dec: Decoder, nib: nat, target: int): nat
    requires nib < 16
  {
    var e := Moved(dec, nib) - target;
    if e < 0 then -e else e
  }

  /** The `k`-th nibble tried: both signs of each magnitude in turn. */
  function Tried(k: nat): (nib: nat)
    requires k < 16
    ensures nib < 16
  {
    (k % 2) * 8 + k / 2
  }

  /** The position of the first least entry. */
  function FirstLeast(costs: seq<nat>): (k: nat)
    requires costs != []
    ensures k < |costs|
    ensures forall i | 0 <= i < |costs| :: costs[k] <= costs[i]
    ensures forall i | 0 <= i < k :: costs[k] < costs[i]
  {
    var n := |costs| - 1;
    if n == 0 then 0
    else
      var k := FirstLeast(costs[..n]);
      if costs[n] < costs[k] then n else k
  }

  function Misses(dec: Decoder, target: int): (m: seq<nat>)
    ensures |m| == 16
  {
    seq(16, k requires 0 <= k < 16 => Miss(dec, Tried(k), target))
  }

  /** The greedy choice: the first nibble tried that misses by least. */
  function Pick(dec: Decoder, target: int): (nib: nat)
    ensures nib < 16
  {
    Tried(FirstLeast(Misses(dec, target)))
  }

  function Encode(dec: Decoder, targets: seq<int>): (nibs: seq<nat>)
    requires dec.step < STEPS
    ensures |nibs| == |targets|
    ensures forall i | 0 <= i < |nibs| :: nibs[i] < 16
    decreases |targets|
  {
    if targets == [] then []
    else
      var nib := Pick(dec, targets[0]);
      [nib] + Encode(Decode(dec, nib), targets[1..])
  }

  /** Where the decoder stands after a run of targets. */
  function After(dec: Decoder, targets: seq<int>): (r: Decoder)
    requires dec.step < STEPS
    ensures r.step < STEPS
    decreases |targets|
  {
    if targets == [] then dec else After(Decode(dec, Pick(dec, targets[0])), targets[1..])
  }

  lemma {:induction false} EncodeAppends(dec: Decoder, a: seq<int>, t: int)
    requires dec.step < STEPS
    ensures Encode(dec, a + [t]) == Encode(dec, a) + [Pick(After(dec, a), t)]
    ensures After(dec, a + [t]) == Decode(After(dec, a), Pick(After(dec, a), t))
    decreases |a|
  {
    hide Decode, Pick;
    if a == [] {
      assert a + [t] == [t];
    } else {
      assert (a + [t])[1..] == a[1..] + [t];
      EncodeAppends(Decode(dec, Pick(dec, a[0])), a[1..], t);
    }
  }

  /** The accumulator range no input can leave. */
  predicate InRange(dec: Decoder) {
    -2242 <= dec.x <= 2241 && dec.step < STEPS
  }

  /** The accumulator the encoder tracks stays within 194 of the range of its targets: from
      inside that, no choice of the quantiser leads out. */
  lemma PickStaysNear(dec: Decoder, target: int, low: int, high: int)
    requires dec.step < STEPS && low - 194 <= dec.x <= high + 194 && low <= target <= high
    ensures low - 194 <= Decode(dec, Pick(dec, target)).x <= high + 194
  {
    hide IncRow, FirstLeast, Tried, Decode, NextStep, Pick, Misses;
    var nib := Pick(dec, target);
    var mag := Magnitude(nib);
    GridHasNoHole(dec.step, mag);
    // The neighbouring nibble one grid step closer to the middle.
    var other := if mag == 0 then (if Negative(nib) then 0 else 8)
                 else if Negative(nib) then 8 + Below(dec.step, mag) else Below(dec.step, mag);
    PickIsBest(dec, target, other);
    DecodeMoves(dec, nib);
  }

  lemma PickStaysInRange(dec: Decoder, target: int)
    requires InRange(dec) && -2048 <= target <= 2047
    ensures InRange(Decode(dec, Pick(dec, target)))
  {
    hide Decode, Pick;
    PickStaysNear(dec, target, -2048, 2047);
  }

  lemma PickIsBest(dec: Decoder, target: int, nib: nat)
    requires nib < 16
    ensures Miss(dec, Pick(dec, target), target) <= Miss(dec, nib, target)
  {
    hide Miss, FirstLeast;
    var k := 2 * (nib % 8) + nib / 8;
    assert Tried(k) == nib;
    var m := Misses(dec, target);
    assert m[FirstLeast(m)] <= m[k];
  }

  /** Of the nibbles that miss by least the one of the smallest magnitude is picked, and of
      its two signs plus. */
  lemma PickTies(dec: Decoder, target: int, nib: nat)
    requires nib < 16 && Miss(dec, nib, target) == Miss(dec, Pick(dec, target), target)
    ensures var best := Pick(dec, target);
      best % 8 < nib % 8 || (best % 8 == nib % 8 && best / 8 <= nib / 8)
  {
    hide Miss, FirstLeast, Tried;
    var k, m := 2 * (nib % 8) + nib / 8, Misses(dec, target);
    var first := FirstLeast(m);
    TriedAt(nib);
    assert m[k] == m[first];
    TriedInOrder(first, k);
  }

  lemma TriedAt(nib: nat)
    requires nib < 16
    ensures var k := 2 * (nib % 8) + nib / 8; k < 16 && Tried(k) == nib
  {
  }

  lemma TriedInOrder(j: nat, k: nat)
    requires j <= k < 16
    ensures var a, b := Tried(j), Tried(k); a % 8 < b % 8 || (a % 8 == b % 8 && a / 8 <= b / 8)
  {
  }

  /** The first nibble is picked if none misses by less. */
  lemma PickFirst(dec: Decoder, target: int)
    requires forall nib: nat | nib < 16 :: Miss(dec, 0, target) <= Miss(dec, nib, target)
    ensures Pick(dec, target) == 0
  {
    hide Miss, Pick;
    PickIsBest(dec, target, 0);
    PickTies(dec, target, 0);
  }

  lemma DecodeMoves(dec: Decoder, nib: nat)
    requires nib < 16 && dec.step < STEPS
    ensures Decode(dec, nib) == Decoder(Moved(dec, nib), NextStep(dec.step, nib % 8))
  {
    hide Moved, NextStep;
  }

  /** Decoding a run of nibbles. */
  function Replay(dec: Decoder, nibs: seq<nat>): (r: seq<Decoder>)
    requires dec.step < STEPS && forall i | 0 <= i < |nibs| :: nibs[i] < 16
    ensures |r| == |nibs|
    decreases |nibs|
  {
    if nibs == [] then [] else [Decode(dec, nibs[0])] + Replay(Decode(dec, nibs[0]), nibs[1..])
  }

  /** Decoding what was encoded visits exactly the states the encoder tracked,
      each in range. */
  lemma {:induction false} ReplayTracksEncoder(dec: Decoder, targets: seq<int>, i: nat)
    requires InRange(dec) && i < |targets|
    requires forall j | 0 <= j < |targets| :: -2048 <= targets[j] <= 2047
    ensures Replay(dec, Encode(dec, targets))[i] == After(dec, targets[..i + 1])
    ensures InRange(After(dec, targets[..i + 1]))
    decreases |targets|
  {
    hide Decode, Pick;
    var next := Decode(dec, Pick(dec, targets[0]));
    PickStaysInRange(dec, targets[0]);
    assert targets[..i + 1][0] == targets[0] && targets[..i + 1][1..] == targets[1..][..i];
    if i > 0 {
      ReplayTracksEncoder(next, targets[1..], i - 1);
    }
  }

  // ---- the resampler ------------------------------------------------------

  /** Linear interpolation in integers, rounding down. */
  function Lerp(a: int, b: int, frac: nat): int {
    a + (b - a) * frac / ONE
  }

  /** The outputs that lie between two source samples, from position `pos` on. */
  function Lerps(pcm: seq<int>, ratio: nat, pos: nat): (out: seq<int>)
    requires ratio > 0
    decreases |pcm| * ONE - pos
  {
    var j := pos / ONE;
    if j < |pcm| - 1 then
      [Lerp(pcm[j], pcm[j + 1], pos % ONE)] + Lerps(pcm, ratio, pos + ratio)
    else []
  }

  /** The position after them. */
  function LerpEnd(n: nat, ratio: nat, pos: nat): (end: nat)
    requires ratio > 0
    ensures end >= pos && end / ONE >= n - 1
    ensures pos / ONE < n - 1 ==> end < (n - 1) * ONE + ratio
    decreases n * ONE - pos
  {
    if pos / ONE < n - 1 then LerpEnd(n, ratio, pos + ratio) else pos
  }

  /** The outputs past the last sample but one, held flat, up to index `idx`. */
  function Flats(idx: nat, last: int, ratio: nat, pos: nat): (out: seq<int>)
    requires ratio > 0
    decreases (idx + 1) * ONE - pos
  {
    if pos / ONE <= idx then [last] + Flats(idx, last, ratio, pos + ratio) else []
  }

  function FlatEnd(idx: nat, ratio: nat, pos: nat): (end: nat)
    requires ratio > 0
    ensures end >= pos && end / ONE > idx
    ensures pos / ONE <= idx ==> end < (idx + 1) * ONE + ratio
    decreases (idx + 1) * ONE - pos
  {
    if pos / ONE <= idx then FlatEnd(idx, ratio, pos + ratio) else pos
  }

  /** Index of the newest sample once `n` have been seen, and its value. */
  function Newest(pcm: seq<int>): nat { if |pcm| == 0 then 0 else |pcm| - 1 }

  function NewestSample(pcm: seq<int>): int { if |pcm| == 0 then 0 else pcm[|pcm| - 1] }

  /** The whole resampled stream. */
  function Resampled(pcm: seq<int>, ratio: nat): seq<int>
    requires ratio > 0
  {
    Lerps(pcm, ratio, 0) + Flats(Newest(pcm), NewestSample(pcm), ratio, LerpEnd(|pcm|, ratio, 0))
  }

  /** Where the position stands after the whole stream: at the first multiple of the
      ratio past the last sample, an empty source counting as one sample. */
  function StreamEnd(n: nat, ratio: nat): nat
    requires ratio > 0
  {
    ((if n == 0 then 1 else n) * ONE + ratio - 1) / ratio * ratio
  }

  /** It is where the steps of the stream lead. */
  lemma StreamEndIs(n: nat, ratio: nat)
    requires ratio > 0
    ensures StreamEnd(n, ratio) == FlatEnd(if n == 0 then 0 else n - 1, ratio, LerpEnd(n, ratio, 0))
  {
    var m := if n == 0 then 1 else n;
    LerpEndSteps(n, ratio, 0);
    FlatEndSteps(m - 1, ratio, LerpEnd(n, ratio, 0));
    FirstPast(m * ONE, ratio, FlatEnd(m - 1, ratio, LerpEnd(n, ratio, 0)));
  }

  /** It lies past the last sample, by less than a step. */
  lemma StreamEndBounds(n: nat, ratio: nat)
    requires ratio > 0
    ensures var m := if n == 0 then 1 else n; m * ONE <= StreamEnd(n, ratio) < m * ONE + ratio
  {
    hide StreamEnd;
    StreamEndIs(n, ratio);
    var m := if n == 0 then 1 else n;
    assert LerpEnd(n, ratio, 0) < m * ONE + ratio;
    FlatEndLasts(m - 1, ratio, LerpEnd(n, ratio, 0));
  }

  lemma FlatEndLasts(idx: nat, ratio: nat, pos: nat)
    requires ratio > 0 && pos < (idx + 1) * ONE + ratio
    ensures (idx + 1) * ONE <= FlatEnd(idx, ratio, pos) < (idx + 1) * ONE + ratio
  {
  }

  lemma {:induction false} LerpEndSteps(n: nat, ratio: nat, pos: nat)
    requires ratio > 0 && pos % ratio == 0
    ensures LerpEnd(n, ratio, pos) % ratio == 0
    ensures pos < n * ONE || pos == 0 ==> LerpEnd(n, ratio, pos) == 0 || LerpEnd(n, ratio, pos) < n * ONE + ratio
    decreases n * ONE - pos
  {
    if pos / ONE < n - 1 { StepMultiple(pos, ratio); LerpEndSteps(n, ratio, pos + ratio); }
  }

  lemma {:induction false} FlatEndSteps(idx: nat, ratio: nat, pos: nat)
    requires ratio > 0 && pos % ratio == 0 && pos < (idx + 1) * ONE + ratio
    ensures FlatEnd(idx, ratio, pos) % ratio == 0
    ensures (idx + 1) * ONE <= FlatEnd(idx, ratio, pos) < (idx + 1) * ONE + ratio
    decreases (idx + 1) * ONE - pos
  {
    if pos / ONE <= idx { StepMultiple(pos, ratio); FlatEndSteps(idx, ratio, pos + ratio); }
  }

  lemma StepMultiple(pos: nat, ratio: nat)
    requires ratio > 0 && pos % ratio == 0
    ensures (pos + ratio) % ratio == 0
  {
    Division.QuotientIs(pos + ratio, ratio, pos / ratio + 1, 0);
  }

  /** The first multiple at or past a bound. */
  lemma FirstPast(bound: nat, ratio: nat, end: nat)
    requires ratio > 0 && end % ratio == 0 && bound <= end < bound + ratio
    ensures (bound + ratio - 1) / ratio * ratio == end
  {
    Division.QuotientIs(bound + ratio - 1, ratio, end / ratio, bound + ratio - 1 - end);
  }

  lemma {:induction false} LerpEndExtends(n: nat, ratio: nat, pos: nat)
    requires ratio > 0
    ensures LerpEnd(n + 1, ratio, pos) == LerpEnd(n + 1, ratio, LerpEnd(n, ratio, pos))
    decreases n * ONE - pos
  {
    if pos / ONE < n - 1 { LerpEndExtends(n, ratio, pos + ratio); }
  }

  lemma LerpsUnfold(pcm: seq<int>, ratio: nat, pos: nat)
    requires ratio > 0
    ensures pos / ONE < |pcm| - 1 ==>
      Lerps(pcm, ratio, pos) == [Lerp(pcm[pos / ONE], pcm[pos / ONE + 1], pos % ONE)] + Lerps(pcm, ratio, pos + ratio)
    ensures pos / ONE >= |pcm| - 1 ==> Lerps(pcm, ratio, pos) == []
  {
    hide Lerp;
  }

  /** One more sample only adds the outputs its interval makes available. */
  lemma {:induction false} LerpsExtend(pcm: seq<int>, s: int, ratio: nat, pos: nat)
    requires ratio > 0
    ensures Lerps(pcm + [s], ratio, pos) == Lerps(pcm, ratio, pos) + Lerps(pcm + [s], ratio, LerpEnd(|pcm|, ratio, pos))
    decreases |pcm| * ONE - pos
  {
    hide Lerp, Lerps;
    var more, j := pcm + [s], pos / ONE;
    LerpsUnfold(pcm, ratio, pos);
    if j < |pcm| - 1 {
      LerpsExtend(pcm, s, ratio, pos + ratio);
      LerpsUnfold(more, ratio, pos);
      assert more[j] == pcm[j] && more[j + 1] == pcm[j + 1];
    }
  }

  // ---- packing ------------------------------------------------------------

  /** A 16-bit sample in the 12-bit domain. */
  function Clamp12(s: int): (t: int)
    ensures -2048 <= t <= 2047
  {
    var v := s / 16;
    if v > 2047 then 2047 else if v < -2048 then -2048 else v
  }

  function To12(pcm: seq<int>): (t: seq<int>)
    ensures |t| == |pcm|
    ensures forall i | 0 <= i < |t| :: t[i] == Clamp12(pcm[i])
    ensures forall i | 0 <= i < |t| :: -2048 <= t[i] <= 2047
  {
    seq(|pcm|, i requires 0 <= i < |pcm| => Clamp12(pcm[i]))
  }

  function Zeros(n: nat): (z: seq<int>)
    ensures |z| == n
    ensures forall i | 0 <= i < n :: z[i] == 0
  {
    seq(n, _ => 0)
  }

  /** The silent samples that fill the last 256-byte block. */
  function PadSamples(n: nat): nat {
    var n0 := (n + 1) / 2;
    (-n0) % 256 * 2 + (2 - n % 2) % 2
  }

  lemma PadAligns(n: nat)
    ensures (n + PadSamples(n)) % 512 == 0 && PadSamples(n) < 512
  {
    var n0 := (n + 1) / 2;
    PadHalves(n);
    WholeBlocks(-n0);
  }

  lemma PadHalves(n: nat)
    ensures n + PadSamples(n) == 2 * ((n + 1) / 2 + (-((n + 1) / 2)) % 256)
  {
  }

  lemma WholeBlocks(m: int)
    ensures 2 * (m % 256 - m) % 512 == 0
  {
    assert m % 256 - m == 256 * (0 - m / 256);
    assert 2 * (m % 256 - m) == 512 * (0 - m / 256);
  }

  /** Two nibbles to a byte, high nibble first. */
  function PackNibbles(nibs: seq<nat>): (bytes: seq<nat>)
    ensures |bytes| == |nibs| / 2
    ensures forall i | 0 <= i < |bytes| :: bytes[i] == nibs[2 * i] * 16 + nibs[2 * i + 1]
  {
    seq(|nibs| / 2, i requires 0 <= i < |nibs| / 2 => nibs[2 * i] * 16 + nibs[2 * i + 1])
  }

  const START := Decoder(0, 0)

  /** The bytes of a voice: its targets, silence to the end of the last block. */
  function PackVoice(targets: seq<int>): seq<nat> {
    PackNibbles(Encode(START, targets + Zeros(PadSamples(|targets|))))
  }
}
