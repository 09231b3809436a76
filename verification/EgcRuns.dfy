/** Whole runs of the shift pipeline. */
module EgcRuns {
  import opened Bits
  import opened EgcShift
  import opened EgcPipeline
  import Funnel

  /** One byte for each plane, and one word for each plane. */
  type Quad = s: seq<bv8> | |s| == 4 witness [0, 0, 0, 0]

  datatype Access = Access(lo: Quad, hi: Quad)

  /** The bits a run of word accesses feeds to plane `p`. */
  ghost function Input(down: bool, ws: seq<Access>, p: nat): (bits: seq<bool>)
    requires p < 4
    ensures |bits| == 16 * |ws|
  {
    if ws == [] then [] else WordView(down, ws[0].lo[p], ws[0].hi[p]) + Input(down, ws[1..], p)
  }

  lemma ViewIsTransfer(pipe: Pipeline, p: nat)
    requires pipe.WordRun() && p < 4
    ensures pipe.View(p).Valid() && pipe.View(p).cfg == pipe.egc.Cfg()
    ensures pipe.Fresh() ==> pipe.View(p).Armed()
  {
  }

  /** The remaining output of a run, one access further on. */
  lemma OutputNext(down: bool, st: Funnel.State, ws: seq<Access>, n: nat, p: nat)
    requires st.Valid() && p < 4 && n < |ws|
    ensures var next := Funnel.Step(st, WordView(down, ws[n].lo[p], ws[n].hi[p]));
      && next.Valid() && |next.src| == |next.mask|
      && Funnel.Output(st, Input(down, ws[n..], p), |ws| - n)
         == Funnel.Enabled(next.src, next.mask) + Funnel.Output(next, Input(down, ws[n + 1..], p), |ws| - n - 1)
  {
    hide WordView, Funnel.Step, Funnel.Enabled;
    var w, rest := WordView(down, ws[n].lo[p], ws[n].hi[p]), Input(down, ws[n + 1..], p);
    assert ws[n..][1..] == ws[n + 1..] && ws[n..][0] == ws[n];
    assert Input(down, ws[n..], p) == w + rest;
    assert (w + rest)[..16] == w && (w + rest)[16..] == rest;
    Funnel.StepValid(st, w);
  }

  // ---- the two registers --------------------------------------------------

  /** A value of the shift register: the source bit, the destination bit, the direction,
      and two groups of bits that nothing reads. */
  function SftValue(s: nat, d: nat, down: bool, low: nat, high: nat): (sft: nat)
    requires s < 16 && d < 16 && low < 16 && high < 8
    ensures sft < 0x1_0000
  {
    s + 16 * d + 0x100 * low + (if down then 0x1000 else 0) + 0x2000 * high
  }

  /** A value of the length register: the run length less one, and four unread bits. */
  function LengValue(n: nat, high: nat): (leng: nat)
    requires n < 0x1000 && high < 16
    ensures leng < 0x1_0000
  {
    n + 0x1000 * high
  }

  lemma RegistersDecode(s: nat, d: nat, down: bool, low: nat, high: nat, n: nat, top: nat)
    requires s < 16 && d < 16 && low < 16 && high < 8 && n < 0x1000 && top < 16
    ensures Downward(SftValue(s, d, down, low, high)) <==> down
    ensures ConfigOf(SftValue(s, d, down, low, high), LengValue(n, top)) == Funnel.Config(s, d, n + 1)
  {
    var sft := SftValue(s, d, down, low, high);
    assert sft / 16 == d + 16 * low + (if down then 0x100 else 0) + 0x200 * high;
    assert sft / 0x1000 == (if down then 1 else 0) + 2 * high;
  }

  /** Whatever was in progress, writing the two registers arms a run of n + 1 bits from
      source bit `s` to destination bit `d` in direction `down`, both pointers at its end
      of the buffer. */
  method Program(pipe: Pipeline, ghost s: nat, ghost d: nat, ghost down: bool, ghost n: nat, sft: nat, leng: nat,
                 ghost low: nat, ghost high: nat, ghost top: nat)
    requires pipe.Valid() && s < 16 && d < 16 && low < 16 && high < 8 && n < 0x1000 && top < 16
    requires sft == SftValue(s, d, down, low, high) && leng == LengValue(n, top)
    modifies pipe, pipe.srcmask
    ensures pipe.Valid() && pipe.egc.Armed() && pipe.WordRun() && pipe.Fresh()
    ensures pipe.egc.Cfg() == Funnel.Config(s, d, n + 1) && (pipe.egc.Down() <==> down)
    ensures pipe.egc.srcbit == s && pipe.egc.dstbit == d && pipe.egc.remain == n + 1
    ensures pipe.egc.func % 2 == if down then 1 else 0
    ensures pipe.egc.inptr == pipe.egc.outptr == if down then 16 + 515 else 16
    ensures pipe.srcmask[0] == 0xff && pipe.srcmask[1] == 0xff
  {
    hide Regs.Valid, Tracks, Loaded, ConfigOf, Downward, Variant, SftValue, LengValue;
    RegistersDecode(s, d, down, low, high, n, top);
    pipe.WriteSft(sft);
    pipe.WriteLeng(leng);
  }

  /** Every run of word accesses from an armed pipeline, over however many
      transfers and in either direction, hands on to each plane `p` the plain
      bit copy of the bits pushed to it: the latch bits the mask enables, access
      after access. */
  method RunWords(pipe: Pipeline, ws: seq<Access>, ghost p: nat) returns (ghost out: seq<bool>)
    requires pipe.Valid() && pipe.WordRun() && pipe.Fresh() && p < 4
    modifies pipe, pipe.buf, pipe.src, pipe.srcmask
    ensures pipe.Valid() && pipe.WordRun()
    ensures out == Funnel.BitCopy(old(pipe.egc.Cfg()), Input(old(pipe.egc.Down()), ws, p), |ws|)
  {
    hide Regs.Valid, Tracks, Loaded, WordView, Stream, ConfigOf, Downward, Funnel.Step, Funnel.Enabled;
    hide Funnel.Output, Funnel.State.Valid, Funnel.State.Armed, Input, Funnel.BitCopy, Pipeline.View;
    ghost var down, start := pipe.egc.Down(), pipe.View(p);
    ViewIsTransfer(pipe, p);
    ghost var whole := Funnel.Output(start, Input(down, ws, p), |ws|);
    Funnel.RunCopiesBits(start, Input(down, ws, p), |ws|);
    out := [];
    assert ws[0..] == ws;
    var n := 0;
    while n < |ws|
      invariant n <= |ws|
      invariant pipe.Valid() && pipe.WordRun() && pipe.egc.Down() == down && pipe.View(p).Valid()
      invariant whole == out + Funnel.Output(pipe.View(p), Input(down, ws[n..], p), |ws| - n)
    {
      OutputNext(down, pipe.View(p), ws, n, p);
      pipe.PushWord(ws[n].lo, ws[n].hi);
      out := out + Funnel.Enabled(pipe.View(p).src, pipe.View(p).mask);
      n := n + 1;
    }
    assert Funnel.Output(pipe.View(p), Input(down, ws[n..], p), 0) == []
        by { OutputDone(pipe.View(p), Input(down, ws[n..], p)); }
  }

  /** The same of the registers as they are written: after any values of the two, a run
      of word accesses hands each plane `p` the plain copy of `n + 1` bits from source bit
      `s` on of what it was pushed, scanned in direction `down`, and then afresh. */
  method WordAccesses(pipe: Pipeline, ws: seq<Access>, sft: nat, leng: nat, ghost s: nat, ghost d: nat,
                      ghost down: bool, ghost n: nat, ghost low: nat, ghost high: nat, ghost top: nat, ghost p: nat)
      returns (ghost out: seq<bool>)
    requires pipe.Valid() && s < 16 && d < 16 && low < 16 && high < 8 && n < 0x1000 && top < 16 && p < 4
    requires sft == SftValue(s, d, down, low, high) && leng == LengValue(n, top)
    modifies pipe, pipe.buf, pipe.src, pipe.srcmask
    ensures pipe.Valid() && pipe.WordRun()
    ensures out == Funnel.BitCopy(Funnel.Config(s, d, n + 1), Input(down, ws, p), |ws|)
  {
    hide Regs.Valid, Tracks, Loaded, SftValue, LengValue, Input, Funnel.BitCopy, Regs.Armed;
    Program(pipe, s, d, down, n, sft, leng, low, high, top);
    out := RunWords(pipe, ws, p);
  }

  lemma OutputDone(st: Funnel.State, bits: seq<bool>)
    requires st.Valid() && |bits| == 0
    ensures Funnel.Output(st, bits, 0) == []
  {
  }

  // ---- the two directions are mirror images -------------------------------

  /** A byte with its bits in the opposite order. */
  function Reverse(b: bv8): bv8 {
    ((b & 0x01) << 7) | ((b & 0x02) << 5) | ((b & 0x04) << 3) | ((b & 0x08) << 1)
    | ((b & 0x10) >> 1) | ((b & 0x20) >> 3) | ((b & 0x40) >> 5) | ((b & 0x80) >> 7)
  }

  lemma ReverseBits(b: bv8, q: nat)
    requires q < 8
    ensures BitAt(Reverse(b), q) == BitAt(b, 7 - q)
  {
    match q { case 0 => case 1 => case 2 => case 3 => case 4 => case 5 => case 6 => case _ => }
  }

  lemma ViewAt(lo: bv8, hi: bv8, q: nat)
    requires q < 8
    ensures WordView(false, lo, hi)[q] == BitAt(lo, q) && WordView(false, lo, hi)[8 + q] == BitAt(hi, q)
    ensures WordView(true, lo, hi)[7 - q] == BitAt(hi, q) && WordView(true, lo, hi)[15 - q] == BitAt(lo, q)
  {
    hide BitAt;
  }

  /** Two words look alike in opposite directions exactly when one is the other
      with its bytes swapped and their bits reversed. */
  lemma MirrorWord(lo: bv8, hi: bv8, lo': bv8, hi': bv8)
    ensures WordView(true, lo', hi') == WordView(false, lo, hi) <==> lo' == Reverse(hi) && hi' == Reverse(lo)
  {
    hide BitAt, Reverse, WordView;
    var up, dn := WordView(false, lo, hi), WordView(true, lo', hi');
    if dn == up {
      forall q | 0 <= q < 8
        ensures BitAt(lo', q) == BitAt(Reverse(hi), q)
      {
        ViewAt(lo', hi', q); ViewAt(lo, hi, 7 - q); ReverseBits(hi, q);
      }
      forall q | 0 <= q < 8
        ensures BitAt(hi', q) == BitAt(Reverse(lo), q)
      {
        ViewAt(lo', hi', q); ViewAt(lo, hi, 7 - q); ReverseBits(lo, q);
      }
      SameBits(lo', Reverse(hi));
      SameBits(hi', Reverse(lo));
    }
    if lo' == Reverse(hi) && hi' == Reverse(lo) {
      forall x | 0 <= x < 16
        ensures dn[x] == up[x]
      {
        var q := if x < 8 then x else x - 8;
        ViewAt(lo, hi, q); ViewAt(lo', hi', 7 - q); ReverseBits(hi, 7 - q); ReverseBits(lo, 7 - q);
      }
    }
  }

  /** The downward pipeline holds the mirror image of what the upward one does:
      the same budget and run length, and for every plane the bit-reversed,
      byte-swapped latch and mask. */
  ghost predicate Mirrored(up: Pipeline, dn: Pipeline)
    requires up.Shape() && dn.Shape()
    reads up, up.buf, up.src, up.srcmask, dn, dn.buf, dn.src, dn.srcmask
  {
    && dn.egc.remain == up.egc.remain && dn.egc.stack == up.egc.stack
    && dn.srcmask[0] == Reverse(up.srcmask[1]) && dn.srcmask[1] == Reverse(up.srcmask[0])
    && forall p | 0 <= p < 4 ::
      dn.src[2 * p] == Reverse(up.src[2 * p + 1]) && dn.src[2 * p + 1] == Reverse(up.src[2 * p])
  }

  /** Both pipelines are in the same place of the same transfer. */
  ghost predicate InStep(up: Pipeline, dn: Pipeline)
    reads up, up.buf, up.src, up.srcmask, dn, dn.buf, dn.src, dn.srcmask
  {
    && up.Valid() && up.WordRun() && !up.egc.Down()
    && dn.Valid() && dn.WordRun() && dn.egc.Down()
    && forall p | 0 <= p < 4 :: up.View(p) == dn.View(p)
  }

  lemma InStepMirrors(up: Pipeline, dn: Pipeline)
    requires InStep(up, dn)
    ensures up.Shape() && dn.Shape() && Mirrored(up, dn)
  {
    hide Loaded, WordView, Reverse, Stream;
    forall p | 0 <= p < 4
      ensures dn.src[2 * p] == Reverse(up.src[2 * p + 1]) && dn.src[2 * p + 1] == Reverse(up.src[2 * p])
    {
      assert up.View(p).src == dn.View(p).src;
      MirrorWord(up.src[2 * p], up.src[2 * p + 1], dn.src[2 * p], dn.src[2 * p + 1]);
    }
    assert up.View(0).mask == dn.View(0).mask && up.View(0).cfg == dn.View(0).cfg;
    MirrorWord(up.srcmask[0], up.srcmask[1], dn.srcmask[0], dn.srcmask[1]);
  }

  function Flip(q: Quad): Quad {
    [Reverse(q[0]), Reverse(q[1]), Reverse(q[2]), Reverse(q[3])]
  }

  lemma FlipMirrors(lo: Quad, hi: Quad, p: nat)
    requires p < 4
    ensures WordView(true, Flip(hi)[p], Flip(lo)[p]) == WordView(false, lo[p], hi[p])
  {
    hide WordView, Reverse;
    MirrorWord(lo[p], hi[p], Flip(hi)[p], Flip(lo)[p]);
  }

  /** Pushing a word upward and its mirror image downward keeps the pipelines
      mirror images, whether or not the push delivers a word or ends a run. */
  method MirrorPush(up: Pipeline, dn: Pipeline, lo: Quad, hi: Quad)
    requires InStep(up, dn)
    requires {up, up.buf, up.src, up.srcmask} !! {dn, dn.buf, dn.src, dn.srcmask}
    modifies up, up.buf, up.src, up.srcmask, dn, dn.buf, dn.src, dn.srcmask
    ensures InStep(up, dn) && Mirrored(up, dn)
  {
    hide Regs.Valid, Tracks, Loaded, WordView, Reverse, Flip, Funnel.Step, Stream, Downward, ConfigOf, Mirrored;
    up.PushWord(lo, hi);
    dn.PushWord(Flip(hi), Flip(lo));
    forall p | 0 <= p < 4
      ensures up.View(p) == dn.View(p)
    {
      FlipMirrors(lo, hi, p);
    }
    InStepMirrors(up, dn);
  }

  /** So they stay mirror images over whole runs, re-arms included. */
  method MirrorRun(up: Pipeline, dn: Pipeline, ws: seq<Access>)
    requires InStep(up, dn)
    requires {up, up.buf, up.src, up.srcmask} !! {dn, dn.buf, dn.src, dn.srcmask}
    modifies up, up.buf, up.src, up.srcmask, dn, dn.buf, dn.src, dn.srcmask
    ensures InStep(up, dn) && Mirrored(up, dn)
  {
    hide InStep, Mirrored;
    InStepMirrors(up, dn);
    for n := 0 to |ws|
      invariant InStep(up, dn) && up.Shape() && dn.Shape() && Mirrored(up, dn)
    {
      MirrorPush(up, dn, ws[n].lo, ws[n].hi);
    }
  }
}
