/** The batch packer, and the two ways of encoding a voice side by side. */
module AdpcmBatch {
  import opened AdpcmEncoder
  import opened AdpcmQuantiser
  import opened AdpcmSpec
  import opened AdpcmStream
  import opened AdpcmTable
  import opened Division

  /** What the packer resamples to: short or already matching input as it is. */
  function BatchResampled(pcm: seq<int>, ratio: nat): seq<int>
    requires ratio > 0
  {
    if |pcm| < 2 || ratio == ONE then pcm else Resampled(pcm, ratio)
  }

  method ResampleLinear(pcm: seq<int>, ratio: nat) returns (out: seq<int>)
    requires ratio > 0
    ensures out == BatchResampled(pcm, ratio)
  {
    hide Lerp, Lerps, Flats;
    if |pcm| < 2 || ratio == ONE {
      return pcm;
    }
    out := [];
    var pos, n := 0, |pcm|;
    while pos / ONE < n - 1
      invariant out + Lerps(pcm, ratio, pos) == Lerps(pcm, ratio, 0)
      invariant LerpEnd(n, ratio, pos) == LerpEnd(n, ratio, 0)
      decreases n * ONE - pos
    {
      LerpsUnfold(pcm, ratio, pos);
      var j, frac := pos / ONE, pos % ONE;
      out := out + [Lerp(pcm[j], pcm[j + 1], frac)];
      pos := pos + ratio;
    }
    LerpsUnfold(pcm, ratio, pos);
    ghost var end, inner := pos, out;
    assert inner == Lerps(pcm, ratio, 0) by { assert out + [] == out; }
    while pos / ONE <= n - 1
      invariant out + Flats(n - 1, pcm[n - 1], ratio, pos) == inner + Flats(n - 1, pcm[n - 1], ratio, end)
      decreases n * ONE - pos
    {
      FlatsUnfold(n - 1, pcm[n - 1], ratio, pos);
      out := out + [pcm[n - 1]];
      pos := pos + ratio;
    }
    FlatsUnfold(n - 1, pcm[n - 1], ratio, pos);
    assert out + [] == out;
  }

  lemma {:induction false} UnitLerps(pcm: seq<int>, j: nat)
    requires j < |pcm|
    ensures Lerps(pcm, ONE, j * ONE) == pcm[j..|pcm| - 1] && LerpEnd(|pcm|, ONE, j * ONE) == (|pcm| - 1) * ONE
    decreases |pcm| - j
  {
    hide Lerps;
    LerpsUnfold(pcm, ONE, j * ONE);
    if j < |pcm| - 1 {
      UnitLerps(pcm, j + 1);
    }
  }

  /** At the chip's own rate resampling changes nothing, so skipping it is right. */
  lemma UnitRatio(pcm: seq<int>)
    requires pcm != []
    ensures Resampled(pcm, ONE) == pcm
  {
    hide Lerps;
    UnitLerps(pcm, 0);
    var n := |pcm|;
    FlatsUnfold(n - 1, pcm[n - 1], ONE, (n - 1) * ONE);
    FlatsUnfold(n - 1, pcm[n - 1], ONE, n * ONE);
  }

  /** The two resamplers differ only on the shortest inputs: nothing at all, and a
      single sample below the chip's rate, which the packer does not repeat. */
  lemma ResamplersAgree(pcm: seq<int>, ratio: nat)
    requires ratio > 0
    ensures Resampled(pcm, ratio) == BatchResampled(pcm, ratio)
            <==> |pcm| >= 2 || (|pcm| == 1 && ratio >= ONE)
  {
    if |pcm| < 2 {
      var last := NewestSample(pcm);
      assert Lerps(pcm, ratio, 0) == [];
      FlatsUnfold(0, last, ratio, 0);
      FlatsUnfold(0, last, ratio, ratio);
      assert [] + Flats(0, last, ratio, 0) == Flats(0, last, ratio, 0);
    } else if ratio == ONE {
      UnitRatio(pcm);
    }
  }

  method AdpcmEncode(pcm12: seq<int>, tailSamples: nat) returns (nibbles: seq<nat>)
    ensures nibbles == Encode(START, pcm12 + Zeros(tailSamples))
  {
    hide Inc, Moved, Miss, Tried, Pick, Misses, FirstLeast, Leads;
    var targets := pcm12 + Zeros(tailSamples);
    var x, step: nat := 0, 0;
    nibbles := [];
    for i := 0 to |targets|
      invariant step < STEPS && After(START, targets[..i]) == Decoder(x, step)
      invariant nibbles == Encode(START, targets[..i])
    {
      var nib, cand := FirstBest(x, step, targets[i]);
      EncodeAppends(START, targets[..i], targets[i]);
      assert targets[..i] + [targets[i]] == targets[..i + 1];
      x, step := cand, NextStep(step, nib % 8);
      nibbles := nibbles + [nib];
    }
    assert targets[..|targets|] == targets;
  }

  /** The packer's own search, which no target can be too far away for. */
  method FirstBest(x: int, step: nat, target: int) returns (best: nat, bestX: int)
    requires step < STEPS
    ensures best == Pick(Decoder(x, step), target)
    ensures bestX == Moved(Decoder(x, step), best)
  {
    hide Inc, Moved, Miss, Tried, Pick, Misses, FirstLeast, Leads;
    ghost var dec, tried := Decoder(x, step), 0;
    var bestErr: int, none := 0, true;
    best, bestX := 0, 0;
    FirstTried(dec, target);
    for mag := 0 to 8
      invariant tried == 2 * mag && none == (tried == 0)
      invariant !none ==> Leads(dec, target, tried, best, bestX, bestErr)
    {
      var inc := Inc(step, mag);
      for sign := 0 to 2
        invariant tried == 2 * mag + sign && none == (tried == 0)
        invariant !none ==> Leads(dec, target, tried, best, bestX, bestErr)
      {
        var cand := if sign == 0 then x + inc else x - inc;
        var err := if cand > target then cand - target else target - cand;
        TrialIs(dec, target, mag, sign);
        if !none { NextTried(dec, target, tried, best, bestX, bestErr); }
        if none || err < bestErr {
          bestErr, best, bestX, none := err, sign * 8 + mag, cand, false;
        }
        tried := tried + 1;
      }
    }
    LeadsAll(dec, target, best, bestX, bestErr);
  }

  lemma PackPair(nib: seq<nat>, i: nat)
    requires i % 2 == 0 && i + 1 < |nib|
    ensures PackNibbles(nib[..i + 2]) == PackNibbles(nib[..i]) + [nib[i] * 16 + nib[i + 1]]
  {
    assert i == 2 * (i / 2);
  }

  lemma PackNothing()
    ensures PackNibbles([]) == []
  {
  }

  /** Two nibbles to a byte, in a loop. */
  method PackPairs(nib: seq<nat>) returns (bytes: seq<nat>)
    requires |nib| % 2 == 0
    ensures bytes == PackNibbles(nib)
  {
    hide PackNibbles;
    PackNothing();
    bytes := [];
    var i := 0;
    assert nib[..i] == [];
    while i < |nib|
      invariant i % 2 == 0 && i <= |nib|
      invariant bytes == PackNibbles(nib[..i])
    {
      PackPair(nib, i);
      bytes := bytes + [nib[i] * 16 + nib[i + 1]];
      i := i + 2;
    }
    assert nib[..i] == nib;
  }

  method PackBatch(pcm12: seq<int>) returns (bytes: seq<nat>)
    ensures bytes == PackVoice(pcm12)
  {
    hide Encode, PackNibbles, Zeros;
    var n0 := (|pcm12| + 1) / 2;
    var padSamples := (-n0) % 256 * 2 + (2 - |pcm12| % 2) % 2;
    assert padSamples == PadSamples(|pcm12|);
    PaddedIsEven(|pcm12|);
    var nib := AdpcmEncode(pcm12, padSamples);
    bytes := PackPairs(nib);
  }

  lemma PaddedIsEven(n: nat)
    ensures (n + PadSamples(n)) % 2 == 0
  {
    hide PadSamples;
    PadHalves(n);
  }

  /** The whole of a source through the streaming encoder: pushes, then flushes until
      one yields nothing, at most `patience` of them. A stream that fits the 32-bit
      position ends, as the batch packer's bytes for the same targets; one that does
      not either goes on, always so from 65536 samples, or ends as other bytes. */
  method EncodeVoice(pcm: seq<int>, srcRate: nat, patience: nat) returns (bytes: seq<nat>, ended: bool)
    requires 4000 <= srcRate <= 192000
    requires forall i | 0 <= i < |pcm| :: Int16(pcm[i])
    ensures var ratio := Ratio(srcRate);
      && (StreamEnd(|pcm|, ratio) < WORD && patience > VoiceBytes(pcm, ratio) ==> ended)
      && (ended && |pcm| <= WORD ==>
           |pcm| < ONE && (bytes == PackVoice(Targets(pcm, ratio)) <==> StreamEnd(|pcm|, ratio) < WORD))
      && (ended && |pcm| >= 2 && StreamEnd(|pcm|, ratio) < WORD ==>
           bytes == PackVoice(To12(BatchResampled(pcm, ratio))))
  {
    hide Targets, PadSamples, PackVoice, To12, BatchResampled, StreamEnd, Ratio, Coded, Pushed, Drains, VoiceBytes;
    var e := new Encoder(srcRate);
    bytes := [];
    for i := 0 to |pcm|
      invariant fresh(e) && fresh(e.out) && e.Streaming() && e.ratio == Ratio(srcRate)
      invariant e.fed == pcm[..i] && bytes == e.sent
    {
      assert pcm[..i + 1] == pcm[..i] + [pcm[i]];
      e.Push(pcm[i]);
      bytes := bytes + e.out[..e.outN];
    }
    e.StreamingDrains();
    assert e.fed == pcm;
    FitsBound(|pcm|, e.ratio);
    ended := false;
    var n := 0;
    while !ended && n < patience
      invariant e.Flushing() && e.ratio == Ratio(srcRate) && e.fed == pcm && bytes == e.sent && n <= patience
      invariant !ended ==> n <= |bytes|
      invariant ended ==> e.Finished() && (|pcm| <= WORD ==> |pcm| < ONE)
    {
      e.Flush();
      bytes := bytes + e.out[..e.outN];
      ended, n := e.outN == 0, n + 1;
    }
    if StreamEnd(|pcm|, e.ratio) < WORD { e.DrainBound(); }
    if ended && |pcm| <= WORD { e.FinishedMatchesBatch(); }
    if |pcm| >= 2 { BatchTargets(pcm, e.ratio); }
  }

  lemma BatchTargets(pcm: seq<int>, ratio: nat)
    requires ratio > 0 && |pcm| >= 2
    ensures Targets(pcm, ratio) == To12(BatchResampled(pcm, ratio))
  {
    hide To12, Resampled;
    ResamplersAgree(pcm, ratio);
  }

  /** The bound in closed form: a source of `n` samples fits when n * 2^16 + ratio
      does, and never from 65536 samples on. */
  lemma FitsBound(n: nat, ratio: nat)
    requires ratio > 0
    ensures n > 0 && n * ONE + ratio <= WORD ==> StreamEnd(n, ratio) < WORD
    ensures StreamEnd(n, ratio) < WORD ==> n < ONE
  {
    hide StreamEnd;
    StreamEndBounds(n, ratio);
  }

  /** A source just below that length that does not fit: 65535 samples at 192 kHz. */
  lemma LongestOverflows()
    ensures Ratio(192000) == 679477 && StreamEnd(0xFFFF, 679477) >= WORD
  {
  }
}
