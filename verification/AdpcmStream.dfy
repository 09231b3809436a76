/** Following the resampler a sample at a time: what has been encoded so far, and
    what is still to come. */
module AdpcmStream {
  import opened AdpcmTable
  import opened AdpcmSpec
  import opened Division

  const RATE_DIV := 432
  const RATE_NUM := 8000000

  // The ratio at the lowest and the highest source rate the loaders accept.
  const MIN_RATIO := 14155
  const MAX_RATIO := 679477

  /** Source rate over output rate, in 16.16. */
  function Ratio(rate: nat): (ratio: nat)
    ensures 4000 <= rate <= 192000 ==> MIN_RATIO <= ratio <= MAX_RATIO
  {
    rate * ONE * RATE_DIV / RATE_NUM
  }

  /** The exact ratio of a source rate, in the split the firmware uses. */
  lemma RatioExact(rate: nat, q: nat, rem: nat, part: nat)
    requires 4000 <= rate <= 192000
    requires q == rate * RATE_DIV / 62500 && rem == rate * RATE_DIV % 62500
    requires part == rem * 512 / 62500
    ensures q * 512 + part == Ratio(rate)
  {
    var t := rate * RATE_DIV;
    assert t == q * 62500 + rem;
    assert t * 512 == (q * 512) * 62500 + rem * 512;
    assert t * 512 / 62500 == q * 512 + part;
    assert rate * ONE * RATE_DIV == t * 512 * 128;
    assert RATE_NUM == 62500 * 128;
  }

  /** Flooring a negative product by its magnitude. */
  lemma FloorOfNegative(ad: nat, frac: nat)
    ensures (0 - ad) * frac / ONE == -(ad * frac / ONE) - (if ad * frac % ONE != 0 then 1 else 0)
  {
    var p := ad * frac;
    assert (0 - ad) * frac == -p;
  }

  // ---- the bytes of what has been encoded ----------------------------------

  lemma PackAppends(nibs: seq<nat>, nib: nat)
    ensures |nibs| % 2 == 0 ==> PackNibbles(nibs + [nib]) == PackNibbles(nibs)
    ensures |nibs| % 2 == 1 ==> PackNibbles(nibs + [nib]) == PackNibbles(nibs) + [nibs[|nibs| - 1] * 16 + nib]
  {
    var n := |nibs|;
    if n % 2 == 1 {
      assert 2 * (n / 2) == n - 1;
    }
  }

  /** The decoder model mirrors the chip on everything encoded, and the bytes
      handed over are that encoding, but for a pending high nibble. */
  predicate Coded(dec: Decoder, half: int, bytes: nat, sent: seq<nat>, done: seq<int>) {
    && InRange(dec) && After(START, done) == dec
    && sent == PackNibbles(Encode(START, done))
    && bytes == |sent| % WORD
    && (half == -1 <==> |done| % 2 == 0)
    && (half != -1 ==> 0 <= half < 16 && half == Encode(START, done)[|done| - 1])
  }

  lemma NibbleCodes(dec: Decoder, half: int, bytes: nat, sent: seq<nat>, done: seq<int>, target: int)
    requires Coded(dec, half, bytes, sent, done) && -2048 <= target <= 2047
    ensures var best := Pick(dec, target);
      && InRange(dec) && -1 <= half < 16
      && if half == -1 then Coded(Decode(dec, best), best, bytes, sent, done + [target])
         else Coded(Decode(dec, best), -1, (bytes + 1) % WORD, sent + [half * 16 + best], done + [target])
  {
    hide InRange, After, Encode, PackNibbles, Pick, Decode;
    RangeKept(dec, target);
    EncodeAppends(START, done, target);
    PackAppends(Encode(START, done), Pick(dec, target));
  }

  lemma RangeKept(dec: Decoder, target: int)
    requires InRange(dec) && -2048 <= target <= 2047
    ensures dec.step < STEPS && InRange(Decode(dec, Pick(dec, target)))
  {
    PickStaysInRange(dec, target);
  }

  /** The block boundary, read off the byte counter and the pending nibble. */
  lemma Aligned(dec: Decoder, half: int, bytes: nat, sent: seq<nat>, done: seq<int>)
    requires Coded(dec, half, bytes, sent, done)
    ensures half < 0 && bytes % 256 == 0 <==> |done| % 512 == 0
  {
    hide Coded;
    CodedLength(dec, half, bytes, sent, done);
    LowByte(|sent|);
    WholeBlock(|done|);
  }

  /** Two targets to a byte. */
  lemma CodedLength(dec: Decoder, half: int, bytes: nat, sent: seq<nat>, done: seq<int>)
    requires Coded(dec, half, bytes, sent, done)
    ensures |sent| == |done| / 2 && bytes == |sent| % WORD && -1 <= half && (half < 0 <==> |done| % 2 == 0)
  {
    hide InRange, After, Encode, PackNibbles;
  }

  lemma LowByte(n: nat)
    ensures n % WORD % 256 == n % 256
  {
  }

  lemma WholeBlock(n: nat)
    ensures n % 2 == 0 && n / 2 % 256 == 0 <==> n % 512 == 0
  {
    var h := n / 2;
    assert n == 2 * h + n % 2 && h == 256 * (h / 256) + h % 256;
    QuotientIs(n, 512, h / 256, 2 * (h % 256) + n % 2);
  }

  // ---- interpolating --------------------------------------------------------

  /** Part of the interpolated stream has been encoded, and the rest is what the
      resampler yields from `pos` on. */
  ghost predicate Serving(pcm: seq<int>, ratio: nat, pos: nat, done: seq<int>) {
    && ratio > 0
    && done + To12(Lerps(pcm, ratio, pos)) == To12(Lerps(pcm, ratio, 0))
    && LerpEnd(|pcm|, ratio, pos) == LerpEnd(|pcm|, ratio, 0)
  }

  lemma To12Joins(a: seq<int>, b: seq<int>)
    ensures To12(a + b) == To12(a) + To12(b)
  {
    hide Clamp12;
  }

  lemma ServeStart(pcm: seq<int>, s: int, ratio: nat)
    requires ratio > 0
    ensures Serving(pcm + [s], ratio, LerpEnd(|pcm|, ratio, 0), To12(Lerps(pcm, ratio, 0)))
  {
    hide To12, Lerps, LerpEnd;
    LerpsExtend(pcm, s, ratio, 0);
    LerpEndExtends(|pcm|, ratio, 0);
    To12Joins(Lerps(pcm, ratio, 0), Lerps(pcm + [s], ratio, LerpEnd(|pcm|, ratio, 0)));
  }

  lemma ServeNext(pcm: seq<int>, ratio: nat, pos: nat, done: seq<int>)
    requires Serving(pcm, ratio, pos, done) && pos / ONE < |pcm| - 1
    ensures Serving(pcm, ratio, pos + ratio,
                    done + [Clamp12(Lerp(pcm[pos / ONE], pcm[pos / ONE + 1], pos % ONE))])
    ensures pos + ratio <= LerpEnd(|pcm|, ratio, 0)
  {
    hide To12, Lerps, Lerp;
    var v := Lerp(pcm[pos / ONE], pcm[pos / ONE + 1], pos % ONE);
    LerpsUnfold(pcm, ratio, pos);
    To12Joins([v], Lerps(pcm, ratio, pos + ratio));
    assert To12([v]) == [Clamp12(v)] by { assert |To12([v])| == 1; }
  }

  lemma ServeDone(pcm: seq<int>, ratio: nat, pos: nat, done: seq<int>)
    requires Serving(pcm, ratio, pos, done) && pos / ONE >= |pcm| - 1
    ensures done == To12(Lerps(pcm, ratio, 0)) && pos == LerpEnd(|pcm|, ratio, 0)
  {
    hide Lerp;
    LerpsUnfold(pcm, ratio, pos);
    assert done + [] == done;
  }

  /** What a run of pushes leaves, up to 65536 samples: the interpolated stream,
      and its position in a 32-bit register. */
  ghost predicate Pushed(pcm: seq<int>, ratio: nat, pos: nat, done: seq<int>)
    requires ratio > 0
  {
    |pcm| <= ONE ==> pos == LerpEnd(|pcm|, ratio, 0) % WORD && done == To12(Lerps(pcm, ratio, 0))
  }

  /** While the newest interval is served: `exact` is the position unwrapped. */
  ghost predicate InWindow(pcm: seq<int>, ratio: nat, pos: nat, exact: nat, done: seq<int>) {
    && MIN_RATIO <= ratio <= MAX_RATIO && pos < WORD && |pcm| >= 2
    && (|pcm| <= ONE ==>
         && pos == exact % WORD && Serving(pcm, ratio, exact, done)
         && (|pcm| - 2) * ONE <= exact < (|pcm| - 1) * ONE + MAX_RATIO)
  }

  lemma WindowOpens(pcm: seq<int>, s: int, ratio: nat, pos: nat, done: seq<int>)
    requires MIN_RATIO <= ratio <= MAX_RATIO && pos < WORD && pcm != []
    requires Pushed(pcm, ratio, pos, done)
    ensures InWindow(pcm + [s], ratio, pos, LerpEnd(|pcm|, ratio, 0), done)
  {
    hide To12, Lerps, Serving;
    ServeStart(pcm, s, ratio);
  }

  lemma FirstPush(s: int, ratio: nat, pos: nat, done: seq<int>)
    requires ratio > 0 && Pushed([], ratio, pos, done)
    ensures Pushed([s], ratio, pos, done)
  {
  }

  lemma NextIndex(n: nat)
    ensures (n % WORD + 1) % WORD == (n + 1) % WORD
  {
  }

  /** A position that stays in its interval has not wrapped. */
  lemma WindowRuns(idx: int, ratio: nat, pos: nat)
    requires MIN_RATIO <= ratio <= MAX_RATIO && pos < WORD && pos / ONE == idx - 1
    ensures pos < idx * ONE
    ensures var next := (pos + ratio) % WORD;
      next / ONE == idx - 1 ==> next == pos + ratio < idx * ONE
  {
  }

  lemma WindowStep(pcm: seq<int>, ratio: nat, pos: nat, exact: nat, done: seq<int>)
    requires InWindow(pcm, ratio, pos, exact, done) && (|pcm| <= ONE ==> pos / ONE == |pcm| - 2)
    ensures var v := Lerp(pcm[|pcm| - 2], pcm[|pcm| - 1], pos % ONE);
      InWindow(pcm, ratio, (pos + ratio) % WORD, exact + ratio, done + [Clamp12(v)])
  {
    hide Serving, Lerp, Clamp12;
    if |pcm| <= ONE {
      assert exact == pos;
      ServeNext(pcm, ratio, exact, done);
    }
  }

  lemma WindowCloses(pcm: seq<int>, ratio: nat, pos: nat, exact: nat, done: seq<int>)
    requires InWindow(pcm, ratio, pos, exact, done) && (|pcm| <= ONE ==> pos / ONE != |pcm| - 2)
    ensures Pushed(pcm, ratio, pos, done)
  {
    hide Serving, Lerps, LerpEnd, To12;
    if |pcm| <= ONE {
      assert exact / ONE >= |pcm| - 1;
      ServeDone(pcm, ratio, exact, done);
    }
  }

  // ---- draining -------------------------------------------------------------

  /** The targets the batch packer encodes for a source. */
  function Targets(pcm: seq<int>, ratio: nat): seq<int>
    requires ratio > 0
  {
    To12(Resampled(pcm, ratio))
  }

  /** The targets the flat tail still owes. */
  function Owed(pcm: seq<int>, ratio: nat, pos: nat): seq<int>
    requires ratio > 0
  {
    To12(Flats(Newest(pcm), NewestSample(pcm), ratio, pos))
  }

  /** The voice so far: all of its targets but those still owed, then silence. */
  ghost predicate Draining(pcm: seq<int>, ratio: nat, pos: nat, done: seq<int>)
    requires ratio > 0
  {
    var T, owed := Targets(pcm, ratio), Owed(pcm, ratio, pos);
    var z := |done| + |owed| - |T|;
    && FlatEnd(Newest(pcm), ratio, pos) == StreamEnd(|pcm|, ratio)
    && 0 <= z <= PadSamples(|T|) && done + owed == T + Zeros(z)
    && (z > 0 ==> owed == [])
  }

  /** The position wrapped, and the flat tail runs on past its end. */
  ghost predicate Overrun(pcm: seq<int>, ratio: nat, pos: nat, done: seq<int>)
    requires ratio > 0
  {
    var excess := |done| - |Targets(pcm, ratio)|;
    && StreamEnd(|pcm|, ratio) >= WORD
    && excess >= 0 && (excess + 1) * MAX_RATIO >= pos
  }

  ghost predicate Drains(pcm: seq<int>, ratio: nat, pos: nat, done: seq<int>) {
    && MIN_RATIO <= ratio <= MAX_RATIO && pos < WORD
    && (|pcm| < ONE ==> Draining(pcm, ratio, pos, done) || Overrun(pcm, ratio, pos, done))
  }

  lemma DrainStart(pcm: seq<int>, ratio: nat, pos: nat, done: seq<int>)
    requires MIN_RATIO <= ratio <= MAX_RATIO && pos < WORD && Pushed(pcm, ratio, pos, done)
    ensures Drains(pcm, ratio, pos, done)
  {
    hide To12, Lerps, Targets, Owed, PadSamples, FlatEnd, StreamEnd;
    if |pcm| < ONE {
      var end := LerpEnd(|pcm|, ratio, 0);
      assert end < WORD + ratio;
      StartExact(pcm, ratio);
      if end < WORD {
        assert done + Owed(pcm, ratio, pos) + Zeros(0) == done + Owed(pcm, ratio, pos);
      } else {
        OwedUnfold(pcm, ratio, end);
        assert done + [] == done;
      }
    }
  }

  /** What the end of the interpolated part leaves to the flat tail. */
  lemma StartExact(pcm: seq<int>, ratio: nat)
    requires ratio > 0
    ensures var end := LerpEnd(|pcm|, ratio, 0);
      && Targets(pcm, ratio) == To12(Lerps(pcm, ratio, 0)) + Owed(pcm, ratio, end)
      && FlatEnd(Newest(pcm), ratio, end) == StreamEnd(|pcm|, ratio)
  {
    hide To12, Lerps, Flats, FlatEnd, LerpEnd, StreamEnd;
    var end := LerpEnd(|pcm|, ratio, 0);
    StreamEndIs(|pcm|, ratio);
    To12Joins(Lerps(pcm, ratio, 0), Flats(Newest(pcm), NewestSample(pcm), ratio, end));
  }

  lemma FlatsUnfold(idx: nat, last: int, ratio: nat, pos: nat)
    requires ratio > 0
    ensures pos / ONE > idx ==> Flats(idx, last, ratio, pos) == [] && FlatEnd(idx, ratio, pos) == pos
    ensures pos / ONE <= idx ==>
      && Flats(idx, last, ratio, pos) == [last] + Flats(idx, last, ratio, pos + ratio)
      && FlatEnd(idx, ratio, pos) == FlatEnd(idx, ratio, pos + ratio)
  {
  }

  lemma OwedUnfold(pcm: seq<int>, ratio: nat, pos: nat)
    requires ratio > 0
    ensures pos / ONE > Newest(pcm) ==> Owed(pcm, ratio, pos) == []
    ensures pos / ONE <= Newest(pcm) ==>
      Owed(pcm, ratio, pos) == [Clamp12(NewestSample(pcm))] + Owed(pcm, ratio, pos + ratio)
  {
    hide Flats, Clamp12;
    FlatsUnfold(Newest(pcm), NewestSample(pcm), ratio, pos);
    To12Joins([NewestSample(pcm)], Flats(Newest(pcm), NewestSample(pcm), ratio, pos + ratio));
    assert To12([NewestSample(pcm)]) == [Clamp12(NewestSample(pcm))];
  }

  lemma DrainFlat(pcm: seq<int>, ratio: nat, pos: nat, done: seq<int>)
    requires Drains(pcm, ratio, pos, done) && (|pcm| < ONE ==> pos / ONE <= Newest(pcm))
    ensures Drains(pcm, ratio, (pos + ratio) % WORD, done + [Clamp12(NewestSample(pcm))])
  {
    hide Draining, Overrun, Newest, Clamp12;
    if |pcm| < ONE {
      if Draining(pcm, ratio, pos, done) {
        FlatOwed(pcm, ratio, pos, done);
        if pos + ratio >= WORD {
          FlatWraps(pcm, ratio, pos + ratio, done + [Clamp12(NewestSample(pcm))]);
        }
      } else {
        FlatOverruns(pcm, ratio, pos, done, Clamp12(NewestSample(pcm)));
      }
    }
  }

  lemma FlatOwed(pcm: seq<int>, ratio: nat, pos: nat, done: seq<int>)
    requires ratio > 0 && Draining(pcm, ratio, pos, done) && pos / ONE <= Newest(pcm)
    ensures Draining(pcm, ratio, pos + ratio, done + [Clamp12(NewestSample(pcm))])
  {
    hide Owed, Targets, Clamp12, PadSamples, Flats, FlatEnd, Zeros, Newest, NewestSample;
    var next := done + [Clamp12(NewestSample(pcm))];
    OwedUnfold(pcm, ratio, pos);
    assert done + Owed(pcm, ratio, pos) == next + Owed(pcm, ratio, pos + ratio);
    FlatsUnfold(Newest(pcm), NewestSample(pcm), ratio, pos);
  }

  lemma FlatWraps(pcm: seq<int>, ratio: nat, pos: nat, done: seq<int>)
    requires ratio <= MAX_RATIO && WORD <= pos < WORD + ratio && |pcm| < ONE
    requires ratio > 0 && Draining(pcm, ratio, pos, done)
    ensures Overrun(pcm, ratio, pos % WORD, done)
  {
    hide Targets, Owed, PadSamples, Flats, FlatEnd, Zeros, StreamEnd;
    OwedUnfold(pcm, ratio, pos);
    FlatsUnfold(Newest(pcm), NewestSample(pcm), ratio, pos);
  }

  lemma FlatOverruns(pcm: seq<int>, ratio: nat, pos: nat, done: seq<int>, t: int)
    requires 0 < ratio <= MAX_RATIO && Overrun(pcm, ratio, pos, done)
    ensures Overrun(pcm, ratio, (pos + ratio) % WORD, done + [t])
  {
    hide Targets, StreamEnd;
    assert (pos + ratio) % WORD <= pos + ratio;
  }

  /** The voice is complete: its tail has run out on a block boundary. */
  predicate Complete(pcm: seq<int>, pos: nat, done: seq<int>) {
    pos / ONE > Newest(pcm) && |done| % 512 == 0
  }

  lemma DrainSilence(pcm: seq<int>, ratio: nat, pos: nat, done: seq<int>)
    requires Drains(pcm, ratio, pos, done)
    requires |pcm| < ONE ==> pos / ONE > Newest(pcm) && |done| % 512 != 0
    ensures Drains(pcm, ratio, pos, done + [0])
  {
    hide Owed, Targets, PadSamples;
    if |pcm| < ONE && Draining(pcm, ratio, pos, done) {
      OwedUnfold(pcm, ratio, pos);
      var T := Targets(pcm, ratio);
      PadAligns(|T|);
      var z := |done| - |T|;
      assert done == T + Zeros(z) by { assert done + [] == done; }
      assert Zeros(z + 1) == Zeros(z) + [0];
      assert (done + [0]) + [] == T + Zeros(z + 1);
    }
  }

  /** Completed, the targets are the voice's own with its padding if and only if
      the stream fits the position register; otherwise they are a block or more
      too many. */
  lemma DrainDone(pcm: seq<int>, ratio: nat, pos: nat, done: seq<int>)
    requires Drains(pcm, ratio, pos, done) && Complete(pcm, pos, done) && |pcm| < ONE
    ensures var T := Targets(pcm, ratio);
      if StreamEnd(|pcm|, ratio) < WORD then done == T + Zeros(PadSamples(|T|))
      else |done| >= |T| + PadSamples(|T|) + 512
  {
    hide Owed, Targets, PadSamples, StreamEnd, Flats, FlatEnd;
    OwedUnfold(pcm, ratio, pos);
    var T := Targets(pcm, ratio);
    PadAligns(|T|);
    FlatsUnfold(Newest(pcm), 0, ratio, pos);
    if Draining(pcm, ratio, pos, done) {
      assert done + [] == done;
    } else {
      StreamEndBounds(|pcm|, ratio);
    }
  }

  /** The length of a voice in bytes. */
  function VoiceBytes(pcm: seq<int>, ratio: nat): (n: nat)
    requires ratio > 0
    ensures n == |PackVoice(Targets(pcm, ratio))|
  {
    var n := |Targets(pcm, ratio)|;
    (n + PadSamples(n)) / 2
  }

  /** A stream that fits never encodes more than its voice. */
  lemma DrainBounded(pcm: seq<int>, ratio: nat, pos: nat, done: seq<int>)
    requires Drains(pcm, ratio, pos, done) && StreamEnd(|pcm|, ratio) < WORD
    ensures |done| <= |Targets(pcm, ratio)| + PadSamples(|Targets(pcm, ratio)|)
  {
    hide Targets, Owed, PadSamples, StreamEnd, FlatEnd;
    StreamEndBounds(|pcm|, ratio);
  }
}
