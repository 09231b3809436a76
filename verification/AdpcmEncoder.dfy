/** The encoder as a stream: a sample goes in, whatever bytes it completes come out,
    and the flushes bring the rest. */
module AdpcmEncoder {
  import opened AdpcmQuantiser
  import opened AdpcmSpec
  import opened AdpcmStream
  import opened Division

  const OUT_MAX := 8

  predicate Int16(s: int) {
    -0x8000 <= s < 0x8000
  }

  /** A buffer holds the last `n` of the bytes sent. */
  ghost predicate Held(buffer: seq<nat>, n: nat, sent: seq<nat>) {
    n <= |buffer| && n <= |sent| && buffer[..n] == sent[|sent| - n..]
  }

  lemma HeldNone(buffer: seq<nat>, sent: seq<nat>)
    ensures Held(buffer, 0, sent)
  {
  }

  lemma HeldNext(buffer: seq<nat>, n: nat, sent: seq<nat>, b: nat)
    requires Held(buffer, n, sent) && n < |buffer|
    ensures Held(buffer[n := b], n + 1, sent + [b])
  {
  }

  lemma HeldSince(buffer: seq<nat>, n: nat, was: seq<nat>, sent: seq<nat>)
    requires Held(buffer, n, sent) && was <= sent && |sent| - n == |was|
    ensures sent == was + buffer[..n]
  {
  }

  class Encoder {
    var ratio: nat    // source rate over output rate, 16.16
    var pos: nat      // where the next output lies in the source, 16.16 in a 32-bit word
    var idx: nat      // source index of `cur`
    var prev: int
    var cur: int
    var primed: bool
    var x: int        // the decoder model
    var step: nat
    var bytes: nat    // bytes emitted so far
    var half: int     // pending high nibble, -1 for none
    const out: array<nat>
    var outN: nat

    ghost var fed: seq<int>    // samples pushed
    ghost var done: seq<int>   // targets encoded
    ghost var sent: seq<nat>   // bytes handed to `out` since the start

    /** The window holds the last two samples, and `idx` counts them. */
    ghost predicate Windowed()
      reads this`idx, this`cur, this`prev, this`fed
    {
      && idx == Newest(fed) % WORD && cur == NewestSample(fed)
      && (|fed| >= 2 ==> prev == fed[|fed| - 2])
      && Int16(prev) && Int16(cur)
    }

    /** Between pushes. */
    ghost predicate Streaming()
      reads this, out
    {
      && Coding() && Windowed()
      && primed == (fed != []) && Pushed(fed, ratio, pos, done)
    }

    /** Between flushes. */
    ghost predicate Flushing()
      reads this, out
    {
      Coding() && Windowed() && Drains(fed, ratio, pos, done)
    }

    function Dec(): Decoder
      reads this
    {
      Decoder(x, step)
    }

    /** The decoder model mirrors the chip on everything encoded, the bytes handed
        over are that encoding, and `out` holds the last of them. */
    ghost predicate Coding()
      reads this, out
    {
      && out.Length == OUT_MAX && outN <= OUT_MAX
      && MIN_RATIO <= ratio <= MAX_RATIO && pos < WORD
      && Coded(Dec(), half, bytes, sent, done)
      && Held(out[..], outN, sent)
    }

    /** Start a stream; rate 0 stands for 8000. The ratio is exact to the last bit. */
    constructor (srcRate: nat)
      requires srcRate == 0 || 4000 <= srcRate <= 192000
      ensures Streaming() && fed == [] && sent == [] && fresh(out)
      ensures ratio == Ratio(if srcRate == 0 then 8000 else srcRate)
    {
      var rate := if srcRate == 0 then 8000 else srcRate;
      var q, rem := Udiv32(rate * RATE_DIV, 62500);
      var part, _ := Udiv32(rem * 512, 62500);
      QuotientIs(rate * RATE_DIV, 62500, q, rem);
      RatioExact(rate, q, rem, rem * 512 / 62500);
      ratio := q * 512 + part;
      out := new nat[OUT_MAX](_ => 0);
      pos, idx, prev, cur, primed := 0, 0, 0, 0, false;
      x, step, bytes, half, outN := 0, 0, 0, -1, 0;
      fed, done, sent := [], [], [];
    }

    /** One target: the byte would drop when `out` is full. */
    method EmitNibble(target: int)
      requires Coding() && -2048 <= target <= 2047
      requires half == -1 || outN < OUT_MAX
      modifies this`x, this`step, this`half, this`bytes, this`outN, this`done, this`sent, out
      ensures Coding() && done == old(done) + [target]
      ensures 2 * outN + Pending() == 2 * old(outN) + old(Pending()) + 1
      ensures old(sent) <= sent && |sent| - outN == |old(sent)| - old(outN)
    {
      hide Coded, Held, Pick, Moved, NextStep, Decode;
      NibbleCodes(Dec(), half, bytes, sent, done, target);
      var best, bestX := BestNibble(x, step, target);
      DecodeMoves(Dec(), best);
      ghost var next := Decode(Dec(), best);
      x, step := bestX, NextStep(step, best % 8);
      assert Dec() == next;
      done := done + [target];
      if half < 0 {
        half := best;
      } else {
        var b := half * 16 + best;
        if outN < OUT_MAX {
          HeldNext(out[..], outN, sent, b);
          out[outN] := b;
          outN, bytes := outN + 1, (bytes + 1) % WORD;
          sent := sent + [b];
        }
        half := -1;
      }
    }

    /** A nibble waits for its partner. */
    function Pending(): nat
      reads this
    {
      if half == -1 then 0 else 1
    }

    /** One output: the newest sample held flat, or the interpolation between the
        last two, dropped to the 12-bit domain. */
    method EmitSample(flat: bool)
      requires Coding()
      requires half == -1 || outN < OUT_MAX
      requires -0x8000 <= prev < 0x8000 && -0x8000 <= cur < 0x8000
      modifies this`x, this`step, this`half, this`bytes, this`outN, this`done, this`sent, this`pos, out
      ensures Coding() && pos == (old(pos) + ratio) % WORD
      ensures done == old(done) + [Clamp12(if flat then cur else Lerp(prev, cur, old(pos) % ONE))]
      ensures 2 * outN + Pending() == 2 * old(outN) + old(Pending()) + 1
      ensures old(sent) <= sent && |sent| - outN == |old(sent)| - old(outN)
    {
      hide Coded, Held;
      var v;
      if flat {
        v := cur / 16;
      } else {
        var d := cur - prev;
        var ad := if d < 0 then -d else d;
        var p := ad * (pos % ONE);
        var m := p / ONE;
        if d < 0 {
          m := -m;
          if p % ONE != 0 {
            m := m - 1;
          }
        }
        FloorOfNegative(ad, pos % ONE);
        v := (prev + m) / 16;
      }
      if v > 2047 {
        v := 2047;
      } else if v < -2048 {
        v := -2048;
      }
      EmitNibble(v);
      pos := (pos + ratio) % WORD;
    }

    /** The outputs of the newest interval: at most five, so no byte is dropped. */
    method Serve(ghost pcm: seq<int>, ghost start: nat)
      requires Coding() && outN == 0 && Int16(prev) && Int16(cur)
      requires |pcm| >= 2 && InWindow(pcm, ratio, pos, start, done) && idx == (|pcm| - 1) % WORD
      requires prev == pcm[|pcm| - 2] && cur == pcm[|pcm| - 1]
      modifies this`x, this`step, this`half, this`bytes, this`outN, this`done, this`sent, this`pos, out
      ensures Coding() && Pushed(pcm, ratio, pos, done)
      ensures sent == old(sent) + out[..outN]
    {
      hide Coded, Held, Pushed, InWindow, Clamp12, Lerp;
      ghost var exact: nat, k := start, 0;
      assert |pcm| <= ONE ==> idx == |pcm| - 1;
      while pos / ONE == idx - 1
        invariant Coding() && InWindow(pcm, ratio, pos, exact, done)
        invariant old(sent) <= sent && |sent| - outN == |old(sent)|
        invariant 2 * outN + Pending() <= 1 + k
        invariant pos / ONE == idx - 1 ==> (idx - 1) * ONE + k * MIN_RATIO <= pos
        decreases if pos / ONE == idx - 1 then idx * ONE - pos else 0
      {
        WindowRuns(idx, ratio, pos);
        WindowStep(pcm, ratio, pos, exact, done);
        EmitSample(false);
        k, exact := k + 1, exact + ratio;
      }
      WindowCloses(pcm, ratio, pos, exact, done);
      HeldSince(out[..], outN, old(sent), sent);
    }

    /** One source sample: every output its interval allows is encoded, and all of
        its bytes are handed over. */
    method Push(s: int)
      requires Streaming() && Int16(s)
      modifies this, out
      ensures Streaming() && fed == old(fed) + [s] && ratio == old(ratio)
      ensures sent == old(sent) + out[..outN]
    {
      hide Coded, Held, Pushed, InWindow, LerpEnd, NewestSample;
      NewestNext(fed, s);
      HeldNone(out[..], sent);
      outN := 0;
      prev := cur;
      cur := s;
      if primed {
        idx := (idx + 1) % WORD;
        NextIndex(|fed| - 1);
        WindowOpens(fed, s, ratio, pos, done);
        Serve(fed + [s], LerpEnd(|fed|, ratio, 0));
      } else {
        assert fed + [s] == [s];
        FirstPush(s, ratio, pos, done);
        primed := true;
      }
      fed := fed + [s];
    }

    lemma NewestNext(pcm: seq<int>, s: int)
      ensures Newest(pcm + [s]) == |pcm| && NewestSample(pcm + [s]) == s
      ensures pcm != [] ==> |pcm + [s]| >= 2 && (pcm + [s])[|pcm| - 1] == NewestSample(pcm)
    {
    }

    /** Nothing left to flush. */
    ghost predicate Finished()
      reads this
    {
      pos / ONE > idx && |done| % 512 == 0
    }

    /** The newest sample held flat while `out` has room. */
    method HoldFlat()
      requires Flushing() && outN == 0
      modifies this`x, this`step, this`half, this`bytes, this`outN, this`done, this`sent, this`pos, out
      ensures Flushing() && sent == old(sent) + out[..outN]
      ensures outN < OUT_MAX ==> pos / ONE > idx
      ensures old(Finished()) ==> Finished() && outN == 0
    {
      hide Coded, Held, Drains, Clamp12;
      while outN < OUT_MAX && pos / ONE <= idx
        invariant Flushing() && old(sent) <= sent && |sent| - outN == |old(sent)|
        invariant old(Finished()) ==> Finished() && outN == 0
        decreases 2 * OUT_MAX - (2 * outN + Pending())
      {
        DrainFlat(fed, ratio, pos, done);
        EmitSample(true);
      }
      HeldSince(out[..], outN, old(sent), sent);
    }

    lemma PastNewest()
      requires Windowed() && |fed| < ONE && pos / ONE > idx
      ensures pos / ONE > Newest(fed)
    {
    }

    /** The tail: the newest sample held flat, then silence to the end of the last
        256-byte block, as far as `out` has room. */
    method Flush()
      requires Flushing()
      modifies this`x, this`step, this`half, this`bytes, this`outN, this`done, this`sent, this`pos, out
      ensures Flushing() && sent == old(sent) + out[..outN]
      ensures outN < OUT_MAX ==> Finished()
      ensures old(Finished()) ==> outN == 0
      ensures idx >= 0xFFFF ==> outN == OUT_MAX
    {
      hide Coded, Held, Drains, Clamp12, Windowed;
      HeldNone(out[..], sent);
      outN := 0;
      HoldFlat();
      ghost var past := pos / ONE > idx;
      if past && |fed| < ONE { PastNewest(); }
      while outN < OUT_MAX
        modifies this`x, this`step, this`half, this`bytes, this`outN, this`done, this`sent, out
        invariant Flushing() && (outN < OUT_MAX ==> past)
        invariant old(sent) <= sent && |sent| - outN == |old(sent)|
        invariant old(Finished()) ==> Finished() && outN == 0
        decreases 2 * OUT_MAX - (2 * outN + Pending())
      {
        Aligned(Dec(), half, bytes, sent, done);
        if half < 0 && bytes % 256 == 0 {
          break;
        }
        DrainSilence(fed, ratio, pos, done);
        EmitNibble(0);
      }
      HeldSince(out[..], outN, old(sent), sent);
    }

    /** Flushing may follow any run of pushes. */
    lemma StreamingDrains()
      requires Streaming()
      ensures Flushing()
    {
      hide Coded;
      DrainStart(fed, ratio, pos, done);
    }

    lemma StreamingRatio()
      requires Streaming()
      ensures ratio > 0
    {
    }

    /** A finished voice is whole blocks. */
    lemma FinishedIsWhole()
      requires Flushing() && Finished()
      ensures |sent| % 256 == 0
    {
      hide Coded, Drains;
      CodedLength(Dec(), half, bytes, sent, done);
    }

    lemma RatioPositive()
      requires Flushing()
      ensures ratio > 0
    {
    }

    lemma DrainBound()
      requires Flushing() && StreamEnd(|fed|, ratio) < WORD
      ensures |sent| <= VoiceBytes(fed, ratio)
    {
      hide Targets, PadSamples, Coded, Drains, StreamEnd, PackVoice;
      CodedLength(Dec(), half, bytes, sent, done);
      DrainBounded(fed, ratio, pos, done);
    }

    /** When a voice of up to 2^32 samples is finished, its bytes are the batch
        packer's if and only if the stream fits the 32-bit position. */
    lemma FinishedMatchesBatch()
      requires Flushing() && Finished() && |fed| <= WORD
      ensures sent == PackVoice(Targets(fed, ratio)) <==> StreamEnd(|fed|, ratio) < WORD
    {
      hide PadSamples, Targets, Encode, Drains, InRange, After;
      assert |fed| < ONE;
      DrainDone(fed, ratio, pos, done);
      PadAligns(|Targets(fed, ratio)|);
    }
  }
}
