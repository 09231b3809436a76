/** The two loaders over the store: whole calls, in any order. */
module SoundLoaders {
  import AdpcmBatch
  import opened AdpcmEncoder
  import opened AdpcmSpec
  import opened AdpcmStream
  import opened Division
  import opened SoundSpec

  /** What lands of two runs of bytes is what lands of both together. */
  lemma EmitJoins(ram: seq<nat>, at: nat, a: seq<nat>, b: seq<nat>, wall: nat)
    requires at <= wall <= |ram|
    ensures var mid := at + Landed(at, a, wall);
      && Emitted(Emitted(ram, at, a, wall), mid, b, wall) == Emitted(ram, at, a + b, wall)
      && mid + Landed(mid, b, wall) == at + Landed(at, a + b, wall)
  {
    var n, m := Landed(at, a, wall), Landed(at, a + b, wall);
    if n < |a| {
      assert (a + b)[..m] == a[..n];
    } else {
      assert (a + b)[..m] == a + b[..m - n];
    }
  }

  /** `bytes` have been written from `at`, as far as the wall: `now` is where the next
      one goes. */
  ghost predicate Trail(was: seq<nat>, ram: seq<nat>, at: nat, now: nat, bytes: seq<nat>, wall: nat) {
    && at <= wall <= |was| && now == at + Landed(at, bytes, wall)
    && ram == Emitted(was, at, bytes, wall)
  }

  lemma TrailStarts(ram: seq<nat>, at: nat, wall: nat)
    requires at <= wall <= |ram|
    ensures Trail(ram, ram, at, at, [], wall)
  {
  }

  lemma TrailJoins(was: seq<nat>, mid: seq<nat>, ram: seq<nat>, at: nat, x: nat, now: nat, a: seq<nat>, b: seq<nat>,
            wall: nat)
    requires Trail(was, mid, at, x, a, wall) && Trail(mid, ram, x, now, b, wall)
    ensures Trail(was, ram, at, now, a + b, wall)
  {
    EmitJoins(was, at, a, b, wall);
  }

  lemma TrailOne(ram: seq<nat>, at: nat, b: nat, wall: nat)
    requires at <= wall <= |ram|
    ensures if at < wall then Trail(ram, ram[at := b], at, at + 1, [b], wall) else Trail(ram, ram, at, at, [b], wall)
  {
  }

  /** `now` continues `was` by `more`. */
  predicate Grew(was: seq<nat>, now: seq<nat>, more: seq<nat>) { now == was + more }

  lemma GrewNone(was: seq<nat>)
    ensures Grew(was, was, [])
  {
  }

  lemma GrewJoins(was: seq<nat>, mid: seq<nat>, now: seq<nat>, a: seq<nat>, b: seq<nat>)
    requires Grew(was, mid, a) && Grew(mid, now, b)
    ensures Grew(was, now, a + b)
  {
  }

  /** The samples a stream was fed, and its ratio. */
  datatype Source = Source(samples: seq<int>, ratio: nat) {
    function Plus(more: seq<int>): Source { this.(samples := samples + more) }
  }

  /** The stream fits the encoder's position. */
  predicate Fits(fed: seq<int>, ratio: nat) { ratio > 0 && StreamEnd(|fed|, ratio) < WORD }

  /** The bytes are the packer's for the samples, if and only if their stream fits. */
  ghost predicate IsVoice(given: seq<nat>, fed: seq<int>, ratio: nat) {
    ratio > 0 && (|fed| <= WORD ==> |fed| < ONE && (given == PackVoice(Targets(fed, ratio)) <==> Fits(fed, ratio)))
  }

  ghost predicate Made(loaded: map<nat, Sample>, src: map<nat, Source>) {
    forall i | i in loaded :: i in src && IsVoice(loaded[i].given, src[i].samples, src[i].ratio)
  }

  /** What a call reads of its chunk: nothing once the voices' half is full. */
  function TakenIn(l: Loader, part: Part, samples: seq<int>): seq<int> {
    if part.drums && l.cursor >= part.wall then [] else samples
  }

  lemma HeldVoice(s: Sample, ram: seq<nat>, floor: nat, end: nat, wall: nat, src: Source)
    requires InPart(s, ram, floor, end, wall) && IsVoice(s.given, src.samples, src.ratio)
    ensures s.at + s.len <= |ram| && src.ratio > 0
    ensures Fits(src.samples, src.ratio) ==>
      var voice := PackVoice(Targets(src.samples, src.ratio));
      s.len <= |voice| && ram[s.at..s.at + s.len] == voice[..s.len]
  {
    hide PackVoice, Targets, StreamEnd;
    if src.ratio > 0 { AdpcmBatch.FitsBound(|src.samples|, src.ratio); }
  }

  const NOISE_RATE := 24000 // the rate of the samples in the drive pack

  class Bank {
    const ram: array<nat>
    var addr: nat            // the store's auto-incrementing address
    var voices: Loader
    var noises: Loader
    var voiceEnc: Encoder?
    var noiseEnc: Encoder?

    ghost var voiceSrc: map<nat, Source>  // the samples each loaded voice or noise was made of
    ghost var noiseSrc: map<nat, Source>

    ghost function View(): Sound
      reads this, ram
    {
      Sound(ram[..], voices, noises)
    }

    /** An open stream's encoder has given just what the loader has taken. */
    ghost predicate Streams(l: Loader, e: Encoder?)
      reads e, if e == null then {} else {e.out}
    {
      l.open ==> e != null && e.Streaming() && e.sent == l.given
    }

    /** What the stream was fed so far: nothing at the start of one. */
    ghost function FedTo(l: Loader, e: Encoder?, rate: nat): Source
      requires 4000 <= rate <= 192000 && (l.open ==> e != null)
      reads e
    {
      if l.open then Source(e.fed, e.ratio) else Source([], Ratio(rate))
    }

    ghost predicate Valid()
      reads this, ram, voiceEnc, noiseEnc
      reads if voiceEnc == null then {} else {voiceEnc.out}, if noiseEnc == null then {} else {noiseEnc.out}
    {
      && ram.Length == STORE_END && Sane(View()) && BothKept(View())
      && Streams(voices, voiceEnc) && Streams(noises, noiseEnc)
      && Made(voices.loaded, voiceSrc) && Made(noises.loaded, noiseSrc)
      && Distinct()
    }

    /** The two streams share nothing with each other or with the store. */
    ghost predicate Distinct()
      reads this
    {
      && (voiceEnc != null ==>
           voiceEnc.out != ram && (noiseEnc != null ==> voiceEnc != noiseEnc && voiceEnc.out != noiseEnc.out))
      && (noiseEnc != null ==> noiseEnc.out != ram)
    }

    constructor (store: array<nat>)
      requires store.Length == STORE_END
      ensures ram == store && Valid() && View() == Fresh(store[..])
    {
      ram, addr := store, 0;
      voices, noises := Loader(0, 0, 0, false, [], map[]), Loader(0, VOICE_END, VOICE_END, false, [], map[]);
      voiceEnc, noiseEnc := null, null;
      voiceSrc, noiseSrc := map[], map[];
      new;
      FreshIsKept(store[..]);
    }

    /** What the store holds of a loaded sample is what landed of the packer's bytes for
        the samples its calls were given, if their stream fits. */
    lemma StoreHoldsVoices(drums: bool, i: nat)
      requires Valid() && HasSample(View(), drums, i)
      ensures var s := SampleOf(View(), drums, i); var src := if drums then voiceSrc else noiseSrc;
        && i in src && s.at + s.len <= ram.Length && src[i].ratio > 0
        && (Fits(src[i].samples, src[i].ratio) ==>
              var voice := PackVoice(Targets(src[i].samples, src[i].ratio));
              s.len <= |voice| && ram[s.at..s.at + s.len] == voice[..s.len])
    {
      hide PackVoice, Targets, Fits, IsVoice, BothKept, InPart, Streams;
      var s, src := SampleOf(View(), drums, i), if drums then voiceSrc else noiseSrc;
      var part := if drums then DRUMS else DRIVE;
      BothMeans(View());
      assert InPart(s, ram[..], part.floor, (if drums then voices else noises).base, part.wall);
      HeldVoice(s, ram[..], part.floor, (if drums then voices else noises).base, part.wall, src[i]);
    }

    /** The bytes of one push or flush, as far as the wall. */
    method EmitBytes(e: Encoder, at: nat, wall: nat) returns (now: nat)
      requires at <= wall <= ram.Length && addr == at && e.out.Length == OUT_MAX && e.outN <= OUT_MAX && e.out != ram
      modifies this`addr, ram
      ensures addr == now <= wall && Trail(old(ram[..]), ram[..], at, now, e.out[..e.outN], wall)
    {
      hide Trail;
      ghost var was, bytes := ram[..], e.out[..e.outN];
      now := at;
      TrailStarts(was, at, wall);
      for i := 0 to e.outN
        invariant bytes == e.out[..e.outN] && addr == now <= wall && Trail(was, ram[..], at, now, bytes[..i], wall)
      {
        ghost var mid, from := ram[..], now;
        TrailOne(mid, now, bytes[i], wall);
        if now < wall {
          ram[addr] := e.out[i];
          addr := addr + 1;
          now := now + 1;
        }
        assert ram[..] == if from < wall then mid[from := bytes[i]] else mid;
        TrailJoins(was, mid, ram[..], at, from, now, bytes[..i], [bytes[i]], wall);
        assert bytes[..i] + [bytes[i]] == bytes[..i + 1];
      }
      assert bytes[..e.outN] == bytes;
    }

    /** One sample pushed, its bytes landed. */
    method PushOne(e: Encoder, s: int, at: nat, wall: nat) returns (now: nat, bytes: seq<nat>)
      requires at <= wall <= ram.Length && addr == at && e.Streaming() && e.out != ram && Int16(s)
      modifies this`addr, ram, e, e.out
      ensures e.Streaming() && Grew(old(e.sent), e.sent, bytes) && e.fed == old(e.fed) + [s] && e.ratio == old(e.ratio)
      ensures addr == now <= wall && Trail(old(ram[..]), ram[..], at, now, bytes, wall)
    {
      hide Trail, Coded, Pushed;
      ghost var before := ram[..];
      e.Push(s);
      assert ram[..] == before;
      bytes := e.out[..e.outN];
      now := at;
      if e.outN != 0 {
        now := EmitBytes(e, at, wall);
      } else {
        TrailStarts(before, at, wall);
        assert bytes == [];
      }
    }

    /** The samples of one chunk. */
    method PushAll(e: Encoder, samples: seq<int>, at: nat, wall: nat) returns (now: nat, pushed: seq<nat>)
      requires at <= wall <= ram.Length && addr == at && e.Streaming() && e.out != ram
      requires forall i | 0 <= i < |samples| :: Int16(samples[i])
      modifies this`addr, ram, e, e.out
      ensures e.Streaming() && Grew(old(e.sent), e.sent, pushed)
      ensures e.fed == old(e.fed) + samples && e.ratio == old(e.ratio)
      ensures addr == now <= wall && Trail(old(ram[..]), ram[..], at, now, pushed, wall)
    {
      hide Trail, Grew, Encoder.Streaming;
      ghost var was, sent, fed, ratio := ram[..], e.sent, e.fed, e.ratio;
      now, pushed := at, [];
      TrailStarts(was, at, wall);
      GrewNone(sent);
      for i := 0 to |samples|
        invariant e.Streaming() && Grew(sent, e.sent, pushed) && e.fed == fed + samples[..i] && e.ratio == ratio
        invariant addr == now <= wall && Trail(was, ram[..], at, now, pushed, wall)
      {
        ghost var mid, from, given := ram[..], now, e.sent;
        var bytes, head := [], pushed;
        now, bytes := PushOne(e, samples[i], now, wall);
        assert samples[..i + 1] == samples[..i] + [samples[i]];
        TrailJoins(was, mid, ram[..], at, from, now, head, bytes, wall);
        GrewJoins(sent, given, e.sent, head, bytes);
        pushed := head + bytes;
      }
      assert samples[..|samples|] == samples;
    }

    /** One flush, its bytes landed. */
    method FlushOnce(e: Encoder, at: nat, wall: nat) returns (now: nat, more: bool, bytes: seq<nat>)
      requires at <= wall <= ram.Length && addr == at && e.Flushing() && e.out != ram
      modifies this`addr, ram, e, e.out
      ensures e.Flushing() && Grew(old(e.sent), e.sent, bytes) && e.fed == old(e.fed) && e.ratio == old(e.ratio)
      ensures addr == now <= wall && Trail(old(ram[..]), ram[..], at, now, bytes, wall)
      ensures if more then old(|e.sent|) < |e.sent| else e.Finished()
      ensures ONE <= |e.fed| <= WORD ==> more
    {
      hide Trail, Coded, Drains, Encoder.Finished;
      ghost var before := ram[..];
      e.Flush();
      assert ram[..] == before;
      bytes := e.out[..e.outN];
      now := EmitBytes(e, at, wall);
      more := e.outN != 0;
    }

    /** Flushes until one gives nothing, at most `patience` of them. A stream that fits
        the encoder's position comes to its end, one of 65536 samples never does. */
    method FlushAll(e: Encoder, at: nat, wall: nat, patience: nat) returns (now: nat, flushed: seq<nat>, quiet: bool)
      requires at <= wall <= ram.Length && addr == at && e.Flushing() && e.out != ram
      modifies this`addr, ram, e, e.out
      ensures e.Flushing() && Grew(old(e.sent), e.sent, flushed) && e.fed == old(e.fed) && e.ratio == old(e.ratio)
      ensures addr == now <= wall && Trail(old(ram[..]), ram[..], at, now, flushed, wall)
      ensures quiet ==> e.Finished() && !(ONE <= |e.fed| <= WORD)
      ensures Fits(e.fed, e.ratio) && patience > VoiceBytes(e.fed, e.ratio) ==> quiet
    {
      hide Trail, Grew, StreamEnd, VoiceBytes, Encoder.Finished, Encoder.Flushing;
      ghost var was, sent, fed, ratio := ram[..], e.sent, e.fed, e.ratio;
      now, flushed, quiet := at, [], false;
      TrailStarts(was, at, wall);
      GrewNone(sent);
      var n := 0;
      while !quiet && n < patience
        invariant e.Flushing() && Grew(sent, e.sent, flushed) && e.fed == fed && e.ratio == ratio
        invariant addr == now <= wall && Trail(was, ram[..], at, now, flushed, wall)
        invariant n <= patience && (if quiet then e.Finished() && !(ONE <= |fed| <= WORD) else n <= |e.sent|)
      {
        ghost var mid, from, given := ram[..], now, e.sent;
        var bytes, head, more := [], flushed, true;
        now, more, bytes := FlushOnce(e, now, wall);
        TrailJoins(was, mid, ram[..], at, from, now, head, bytes, wall);
        GrewJoins(sent, given, e.sent, head, bytes);
        flushed := head + bytes;
        quiet, n := !more, n + 1;
      }
      e.RatioPositive();
      if Fits(fed, ratio) { e.DrainBound(); }
    }

    /** One call of a loader over its stream: the address set anew, the chunk pushed,
        and at the end of the stream the tail flushed and the sample recorded. Unless
        the flushes run out of patience, the sample's bytes are the packer's for the
        samples fed, if and only if their stream fits the encoder's position. */
    method Process(l: Loader, e: Encoder, part: Part, samples: seq<int>, failed: bool, ended: bool, patience: nat)
        returns (m: Loader, hung: bool, ghost c: Call)
      requires l.base <= l.cursor <= part.wall <= ram.Length && l.index < part.count && e.out != ram
      requires e.Streaming() && e.sent == Given(l)
      requires (forall i | 0 <= i < |samples| :: Int16(samples[i])) && (failed ==> samples == [])
      modifies this`addr, ram, e, e.out
      ensures e.fed == old(e.fed) + TakenIn(l, part, samples) && e.ratio == old(e.ratio) > 0
      ensures !hung ==> c.usable && Whole(l, c, part) && (m, ram[..]) == Called(l, old(ram[..]), c, part)
      ensures !hung && m.open ==> e.Streaming() && e.sent == m.given
      ensures !hung && !m.open ==>
          e.sent == Given(l) + Pushes(l, c, part) + c.flushed && IsVoice(e.sent, e.fed, e.ratio)
      ensures hung ==> !(Fits(e.fed, e.ratio) && patience > VoiceBytes(e.fed, e.ratio))
    {
      hide Encoder.Streaming, Encoder.Flushing, Encoder.Finished, StreamEnd, Landed, Emitted, Closed;
      ghost var was := ram[..];
      addr := l.cursor;
      var at := l.cursor;
      var pushed := [];
      TrailStarts(was, at, part.wall);
      if !(part.drums && l.cursor >= part.wall) {
        at, pushed := PushAll(e, samples, at, part.wall);
      }
      c := Call(true, pushed, failed, ended, []);
      hung := false;
      m := l.(base := if l.open then l.base else l.cursor, cursor := at, open := true, given := Given(l) + pushed);
      assert (m, ram[..]) == Fed(l, was, c, part);
      e.StreamingRatio();
      if failed || ended || (part.drums && l.cursor >= part.wall) {
        e.StreamingDrains();
        var flushed;
        m, hung, flushed := Finish(m, e, part, failed, patience);
        c := c.(flushed := flushed);
      }
    }

    /** The end of a stream. */
    method Finish(l: Loader, e: Encoder, part: Part, failed: bool, patience: nat)
        returns (m: Loader, hung: bool, flushed: seq<nat>)
      requires l.base <= l.cursor <= part.wall <= ram.Length && addr == l.cursor && e.out != ram
      requires e.Flushing() && e.sent == l.given
      modifies this`addr, ram, e, e.out
      ensures e.sent == l.given + flushed && e.fed == old(e.fed) && e.ratio == old(e.ratio) > 0
      ensures !hung ==> |l.given + flushed| % 256 == 0 && !m.open && IsVoice(e.sent, e.fed, e.ratio)
      ensures !hung ==> forall c: Call | c.failed == failed && c.flushed == flushed ::
          (m, ram[..]) == Closed(l, old(ram[..]), c, part)
      ensures hung ==> !(Fits(e.fed, e.ratio) && patience > VoiceBytes(e.fed, e.ratio))
    {
      hide Encoder.Flushing, Encoder.Finished, StreamEnd, Landed, Emitted, PackVoice, Targets;
      var end, quiet;
      e.RatioPositive();
      end, flushed, quiet := FlushAll(e, l.cursor, part.wall, patience);
      hung, m := !quiet, l;
      if hung {
        return;
      }
      e.FinishedIsWhole();
      if |e.fed| <= WORD { e.FinishedMatchesBatch(); }
      var good := !failed && end > l.base;
      var next := if part.drums then (if good then end else l.base) else Rounded(end);
      var loaded := if good then l.loaded[l.index := Sample(l.base, end - l.base, l.given + flushed)] else l.loaded;
      m := Loader(l.index + 1, next, next, false, [], loaded);
    }

    /** A call of the drum loader with nothing to load. */
    method PassVoice(ghost c: Call)
      requires Valid() && (voices.index >= VOICES || (!voices.open && !c.usable)) && c.pushed == [] == c.flushed
      modifies this`voices
      ensures Valid() && Proper(old(View()), Turn(true, c)) && View() == Taken(old(View()), Turn(true, c))
      ensures voices.open == old(voices.open)
    {
      hide BothKept, Kept, Called, Encoder.Streaming, Whole, Made;
      Passed(voices, ram[..], c, DRUMS);
      NoneToEnd(voices, c, DRUMS);
      TurnKeeps(View(), Turn(true, c));
      if voices.index < VOICES {
        voices := voices.(index := voices.index + 1);
      }
    }

    /** The stream of the voice to load: a new one unless one is open. */
    method OpenVoice(rate: nat)
      requires Valid() && 4000 <= rate <= 192000
      modifies this`voiceEnc
      ensures voiceEnc != null && voiceEnc.Streaming() && voiceEnc.sent == Given(voices) && Distinct()
      ensures Source(voiceEnc.fed, voiceEnc.ratio) == old(FedTo(voices, voiceEnc, rate))
      ensures if voices.open then voiceEnc == old(voiceEnc) else fresh(voiceEnc) && fresh(voiceEnc.out)
    {
      hide BothKept, Encoder.Streaming, Made;
      if !voices.open {
        voiceEnc := new Encoder(rate);
      }
    }

    /** One call of the drum loader: a voice with no usable file is passed over. Only a
        stream that does not fit the encoder's position can hang in its flushes. */
    method WavStep(usable: bool, rate: nat, samples: seq<int>, failed: bool, ended: bool, patience: nat)
        returns (hung: bool, ghost c: Call)
      requires Valid() && 4000 <= rate <= 192000
      requires (forall i | 0 <= i < |samples| :: Int16(samples[i])) && (failed ==> samples == [])
      modifies this`addr, this`voices, this`voiceEnc, this`voiceSrc, ram, voiceEnc
      modifies if voiceEnc == null then {} else {voiceEnc.out}
      ensures !hung ==> Valid() && Proper(old(View()), Turn(true, c)) && View() == Taken(old(View()), Turn(true, c))
      ensures var l, s := old(voices), old(FedTo(voices, voiceEnc, rate)).Plus(TakenIn(old(voices), DRUMS, samples));
        && (hung ==> !(Fits(s.samples, s.ratio) && patience > VoiceBytes(s.samples, s.ratio)) && voices == l)
        && (!hung && voices.open && l.index < VOICES ==> FedTo(voices, voiceEnc, rate) == s)
        && (!hung && !voices.open && l.index < VOICES && (l.open || usable) ==> voiceSrc == old(voiceSrc)[l.index := s])
    {
      hide BothKept, Kept, Called, Pushes, TakenIn, Encoder.Streaming, Fits, Whole, IsVoice, Made, VoiceBytes;
      c, hung := Call(usable, [], failed, ended, []), false;
      if voices.index >= VOICES || (!voices.open && !usable) {
        PassVoice(c);
        return;
      }
      OpenVoice(rate);
      var m;
      ghost var was, l := View(), voices;
      m, hung, c := Process(voices, voiceEnc, DRUMS, samples, failed, ended, patience);
      if hung {
        return;
      }
      TurnKeeps(was, Turn(true, c));
      ghost var made := Source(voiceEnc.fed, voiceEnc.ratio);
      CalledMakes(l, was.ram, c, DRUMS, voiceSrc, made, voiceEnc.sent) by { BothMeans(was); }
      voices := m;
      voiceSrc := if m.open then voiceSrc else voiceSrc[l.index := made];
    }

    /** Past the last noise a call changes nothing. */
    lemma AllNoises(c: Call)
      requires Valid() && noises.index >= NOISES && c.pushed == [] == c.flushed
      ensures Proper(View(), Turn(false, c)) && View() == Taken(View(), Turn(false, c))
    {
      hide BothKept, Called, Whole;
      Passed(noises, ram[..], c, DRIVE);
      NoneToEnd(noises, c, DRIVE);
    }

    /** The stream of the noise to load. */
    method OpenNoise()
      requires Valid()
      modifies this`noiseEnc
      ensures noiseEnc != null && noiseEnc.Streaming() && noiseEnc.sent == Given(noises) && Distinct()
      ensures Source(noiseEnc.fed, noiseEnc.ratio) == old(FedTo(noises, noiseEnc, NOISE_RATE))
      ensures if noises.open then noiseEnc == old(noiseEnc) else fresh(noiseEnc) && fresh(noiseEnc.out)
    {
      hide BothKept, Encoder.Streaming, Made;
      if !noises.open {
        noiseEnc := new Encoder(NOISE_RATE);
      }
    }

    /** One call of the drive loader, once its pack's header was read. */
    method DriveStep(samples: seq<int>, failed: bool, ended: bool, patience: nat) returns (hung: bool, ghost c: Call)
      requires Valid()
      requires (forall i | 0 <= i < |samples| :: Int16(samples[i])) && (failed ==> samples == [])
      modifies this`addr, this`noises, this`noiseEnc, this`noiseSrc, ram, noiseEnc
      modifies if noiseEnc == null then {} else {noiseEnc.out}
      ensures !hung ==> Valid() && Proper(old(View()), Turn(false, c)) && View() == Taken(old(View()), Turn(false, c))
      ensures var l, s := old(noises), old(FedTo(noises, noiseEnc, NOISE_RATE)).Plus(samples);
        && (hung ==> !(Fits(s.samples, s.ratio) && patience > VoiceBytes(s.samples, s.ratio)) && noises == l)
        && (!hung && noises.open && l.index < NOISES ==> FedTo(noises, noiseEnc, NOISE_RATE) == s)
        && (!hung && !noises.open && l.index < NOISES ==> noiseSrc == old(noiseSrc)[l.index := s])
    {
      hide BothKept, Kept, Called, Pushes, Encoder.Streaming, Fits, Whole, IsVoice, Made, VoiceBytes;
      c, hung := Call(true, [], failed, ended, []), false;
      if noises.index >= NOISES {
        AllNoises(c);
        return;
      }
      OpenNoise();
      var m;
      ghost var was, l := View(), noises;
      m, hung, c := Process(noises, noiseEnc, DRIVE, samples, failed, ended, patience);
      if hung {
        return;
      }
      TurnKeeps(was, Turn(false, c));
      ghost var made := Source(noiseEnc.fed, noiseEnc.ratio);
      CalledMakes(l, was.ram, c, DRIVE, noiseSrc, made, noiseEnc.sent) by { BothMeans(was); }
      noises := m;
      noiseSrc := if m.open then noiseSrc else noiseSrc[l.index := made];
    }
  }

  /** What an open stream was given. */
  function Given(l: Loader): seq<nat> { if l.open then l.given else [] }

  /** A call adds at most its own stream's sample, with all the stream gave. */
  lemma CalledMakes(l: Loader, ram: seq<nat>, c: Call, part: Part, src: map<nat, Source>, s: Source, sent: seq<nat>)
    requires Kept(l, ram, part.floor, part.wall) && l.index < part.count && (l.open || c.usable) && Made(l.loaded, src)
    requires var m := Called(l, ram, c, part).0;
      !m.open ==> sent == Given(l) + Pushes(l, c, part) + c.flushed && IsVoice(sent, s.samples, s.ratio)
    ensures var m := Called(l, ram, c, part).0; Made(m.loaded, if m.open then src else src[l.index := s])
  {
    hide IsVoice;
  }

  lemma BothMeans(s: Sound)
    requires BothKept(s)
    ensures Kept(s.voices, s.ram, DRUMS.floor, DRUMS.wall) && Kept(s.noises, s.ram, DRIVE.floor, DRIVE.wall)
  {
  }

  lemma NoneToEnd(l: Loader, c: Call, part: Part)
    requires l.index >= part.count || (!l.open && !c.usable)
    ensures Whole(l, c, part)
  {
  }

  /** A call with nothing to load. */
  lemma Passed(l: Loader, ram: seq<nat>, c: Call, part: Part)
    requires l.base <= l.cursor <= part.wall <= |ram|
    requires l.index >= part.count || (!l.open && !c.usable)
    requires c.pushed == [] && c.flushed == []
    ensures Called(l, ram, c, part) == (if l.index >= part.count then l else l.(index := l.index + 1), ram)
  {
  }
}
