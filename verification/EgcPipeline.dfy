/** The pipeline object: register writes that arm it, byte and word pushes. */
module EgcPipeline {
  import opened Bits
  import opened EgcShift
  import Funnel

  /** The shift part of the emulator's `egc` structure. The two pointers are
      indices into the padded buffer. */
  datatype Regs = Regs(
    sft: nat, leng: nat, func: nat, remain: nat, stack: nat, inptr: int, outptr: int,
    srcbit: nat, dstbit: nat, sft8bitl: nat, sft8bitr: nat)
  {
    function Cfg(): (cfg: Funnel.Config)
      ensures cfg.Valid()
    {
      ConfigOf(sft, leng)
    }

    predicate Down() {
      Downward(sft)
    }

    /** How far each pointer has moved from its base, in scan order. */
    function InOff(): int {
      if Down() then DOWN_BASE - inptr else inptr - UP_BASE
    }

    function OutOff(): int {
      if Down() then DOWN_BASE - outptr else outptr - UP_BASE
    }

    function Consumed(): int {
      Cfg().len - remain
    }

    function Kind(): int {
      func - func % 2
    }

    predicate Selected() {
      && sft < 0x10000 && leng < 0x10000
      && func < 6
      && (func % 2 == 1 <==> Down())
      && Variant(Cfg(), Kind(), sft8bitl, sft8bitr)
    }

    /** What every run of pushes and register writes keeps: the bit budget
        balances the bytes taken in, and both pointers stay near their base. */
    predicate Valid() {
      && Selected()
      && 1 <= remain <= Cfg().len
      && stack <= 32
      && srcbit <= Cfg().s && dstbit <= Cfg().d
      && 8 * InOff() == stack + Consumed() + (Cfg().s - srcbit)
      && 0 <= 8 * OutOff() <= Consumed() + 15
      && (srcbit > 0 ==> stack == 0 && Consumed() == 0 && OutOff() == 0)
      && (dstbit > 0 ==> Consumed() == 0)
    }

    /** The state a register write or the end of a run leaves. */
    predicate Armed() {
      && Selected()
      && remain == Cfg().len && stack == 0
      && srcbit == Cfg().s && dstbit == Cfg().d
      && InOff() == 0 && OutOff() == 0
    }
  }

  /** `n` bytes further along the scan. */
  function Ahead(e: Regs, ptr: int, n: int): int {
    if e.Down() then ptr - n else ptr + n
  }

  /** The bits one lane takes from the run. */
  function Take(e: Regs): nat {
    if e.dstbit >= 8 then 0 else if e.dstbit + e.remain >= 8 then 8 - e.dstbit else e.remain
  }

  /** A lane can be taken: part of the run is left and the pointer is in range. */
  predicate LaneReady(e: Regs) {
    e.Selected() && 1 <= e.remain <= e.Cfg().len && 0 <= 8 * e.OutOff() <= e.Consumed() + 15
  }

  /** What one lane leaves in plane `p` of the latch. */
  predicate LanePlane(e: Regs, buf: seq<bv8>, before: seq<bv8>, after: seq<bv8>, ext: nat, p: nat) {
    && LaneReady(e) && |buf| == 2 * PAD + BUF_BYTES && |before| == 8 && |after| == 8 && ext < 2 && p < 4
    && after[2 * p + (1 - ext)] == before[2 * p + (1 - ext)]
    && after[2 * p + ext] == if e.dstbit >= 8 then before[2 * p + ext] else LaneByte(e, buf, p)
  }

  /** What the two lanes of a word leave in plane `p` of the latch. */
  predicate WordPlane(e: Regs, buf: seq<bv8>, before: seq<bv8>, after: seq<bv8>, a: nat, p: nat) {
    var f := AfterLane(e);
    && LaneReady(e) && |buf| == 2 * PAD + BUF_BYTES && |before| == 8 && |after| == 8 && a < 2 && p < 4
    && after[2 * p + a] == (if e.dstbit >= 8 then before[2 * p + a] else LaneByte(e, buf, p))
    && if f.remain == 0 then after[2 * p + (1 - a)] == before[2 * p + (1 - a)]
       else LaneReady(f) && after[2 * p + (1 - a)]
              == if f.dstbit >= 8 then before[2 * p + (1 - a)] else LaneByte(f, buf, p)
  }

  lemma LanesMakePlane(e: Regs, buf: seq<bv8>, s0: seq<bv8>, s1: seq<bv8>, s2: seq<bv8>, a: nat, p: nat)
    requires LanePlane(e, buf, s0, s1, a, p)
    requires if AfterLane(e).remain > 0 then LanePlane(AfterLane(e), buf, s1, s2, 1 - a, p) else s2 == s1
    ensures WordPlane(e, buf, s0, s2, a, p)
  {
    hide LaneReady, LaneByte, AfterLane;
  }

  lemma LaneBounds(e: Regs)
    requires LaneReady(e)
    ensures 1 <= e.outptr && e.outptr + 13 < 2 * PAD + BUF_BYTES
    ensures e.func % 2 == 1 <==> e.Down()
    ensures e.Kind() != 0 ==> 0 < e.sft8bitl < 8 && e.sft8bitr == 8 - e.sft8bitl
  {
  }

  /** The registers after one lane: a lane in front of the destination bit only
      brings it closer, any other takes its bits and, unless it holds the head
      of a run moving to a later bit, one source byte. */
  function AfterLane(e: Regs): Regs {
    if e.dstbit >= 8 then e.(dstbit := e.dstbit - 8)
    else e.(dstbit := 0, remain := e.remain - Take(e),
            outptr := Ahead(e, e.outptr, if e.Kind() == 2 && e.dstbit > 0 then 0 else 1))
  }

  predicate LaneMask(e: Regs, m: bv8) {
    if e.dstbit >= 8 then m == 0 else Enables(e.Down(), m, e.dstbit, e.dstbit + Take(e))
  }

  /** The latch byte of plane `p` after one lane. */
  function LaneByte(e: Regs, buf: seq<bv8>, p: nat): bv8
    requires LaneReady(e) && |buf| == 2 * PAD + BUF_BYTES && p < 4
  {
    Pick(e.Down(), e.Kind(), e.dstbit > 0, buf[e.outptr + 4 * p], buf[Ahead(e, e.outptr, 1) + 4 * p],
         e.sft8bitl, e.sft8bitr)
  }

  function LaneBytes(e: Regs, buf: seq<bv8>): (v: seq<bv8>)
    requires LaneReady(e) && |buf| == 2 * PAD + BUF_BYTES
    ensures |v| == 4 && forall p | 0 <= p < 4 :: v[p] == LaneByte(e, buf, p)
  {
    hide LaneByte, LaneReady;
    [LaneByte(e, buf, 0), LaneByte(e, buf, 1), LaneByte(e, buf, 2), LaneByte(e, buf, 3)]
  }

  lemma LaneKeeps(e: Regs)
    requires LaneReady(e)
    ensures var f := AfterLane(e);
            && f.sft == e.sft && f.leng == e.leng && f.func == e.func && f.stack == e.stack
            && f.srcbit == e.srcbit && f.inptr == e.inptr && f.OutOff() >= e.OutOff()
            && (e.dstbit >= 8 ==> f.OutOff() == e.OutOff() && f.remain == e.remain)
  {
    hide Variant, ConfigOf, Downward;
  }

  /** A lane can be taken, and only the first may start inside a byte. */
  predicate Draining(e: Regs) {
    LaneReady(e) && (e.dstbit > 0 ==> e.Consumed() == 0)
  }

  lemma LaneDrains(e: Regs)
    requires Draining(e)
    ensures var f := AfterLane(e);
            && f.remain <= e.remain
            && f.dstbit == (if e.dstbit >= 8 then e.dstbit - 8 else 0)
            && (f.remain > 0 ==>
                 Draining(f) && f.Consumed() == e.Consumed() + (if e.dstbit >= 8 then 0 else 8 - e.dstbit))
  {
    hide Variant, ConfigOf, Downward;
  }

  /** A byte delivered moves its bits from the budget to the run. */
  lemma ByteKeepsBudget(e: Regs)
    requires e.Valid() && e.dstbit <= 8 && 8 - e.dstbit <= e.stack
    ensures var e0 := e.(stack := e.stack - (8 - e.dstbit));
            && LaneReady(e0) && AfterLane(e0).sft == e.sft < 0x10000 && AfterLane(e0).leng == e.leng < 0x10000
            && (AfterLane(e0).remain > 0 ==> AfterLane(e0).Valid())
  {
    hide Variant, ConfigOf, Downward, AfterLane;
    var e0 := e.(stack := e.stack - (8 - e.dstbit));
    LaneDrains(e0);
    LaneKeeps(e0);
  }

  /** So does a word. */
  lemma WordKeepsBudget(e: Regs)
    requires e.Valid() && 16 - e.dstbit <= e.stack
    ensures var e1 := AfterLane(e.(stack := e.stack - (16 - e.dstbit)));
            && LaneReady(e.(stack := e.stack - (16 - e.dstbit)))
            && (e1.remain > 0 ==> LaneReady(e1) && (AfterLane(e1).remain > 0 ==> AfterLane(e1).Valid()))
            && e1.sft == e.sft < 0x10000 && e1.leng == e.leng < 0x10000
            && (e1.remain > 0 ==> AfterLane(e1).sft == e.sft && AfterLane(e1).leng == e.leng)
            && (e.func % 2 == 1 <==> e.Down())
  {
    hide Variant, ConfigOf, Downward, AfterLane;
    var e0 := e.(stack := e.stack - (16 - e.dstbit));
    LaneDrains(e0);
    LaneKeeps(e0);
    if AfterLane(e0).remain > 0 {
      LaneDrains(AfterLane(e0));
      LaneKeeps(AfterLane(e0));
    }
  }

  lemma ArmedIsValid(e: Regs)
    requires e.Armed()
    ensures e.Valid() && Tracks(e, 0, 0)
  {
    hide Variant, Downward;
  }

  // ---- a transfer made of words -------------------------------------------

  /** The registers after `k` words have been pushed and `j` delivered. */
  predicate Tracks(e: Regs, k: nat, j: nat) {
    var cfg := e.Cfg();
    && e.Selected()
    && j < cfg.Words() && cfg.Needed(j) <= k <= cfg.Needed(j + 1)
    && e.remain == cfg.len - Before(cfg, 2 * j)
    && e.dstbit == Max(0, cfg.d - 16 * j)
    && e.srcbit == (if k == 0 then cfg.s else 0)
    && e.stack == (if k == 0 then 0 else 16 * k - cfg.s - Before(cfg, 2 * j))
    && e.InOff() == 2 * k
    && e.OutOff() == (if k == 0 then 0 else Source(cfg, 2 * j))
  }

  /** The registers when destination byte `n` is about to be taken. */
  predicate AtLane(e: Regs, n: nat) {
    var cfg := e.Cfg();
    && e.Selected()
    && 8 * n < cfg.d + cfg.len
    && e.remain == cfg.len - Before(cfg, n)
    && e.dstbit == Max(0, cfg.d - 8 * n)
    && e.OutOff() == Source(cfg, n)
  }

  /** The bytes each plane still has to deliver are intact in its part of the
      buffer, whatever the other planes have since stored around them. */
  predicate Loaded(e: Regs, buf: seq<bv8>, bytes: seq<seq<bv8>>)
    requires |buf| == 2 * PAD + BUF_BYTES && |bytes| == 4
  {
    forall p, i | 0 <= p < 4 && 0 <= e.OutOff() <= i < |bytes[p]| ::
      0 <= At(e.Down(), i) + 4 * p < |buf| && buf[At(e.Down(), i) + 4 * p] == bytes[p][i]
  }

  /** The budget test in front of a word delivery asks exactly whether all the
      source bits of the next word have been pushed. */
  lemma WordReady(e: Regs, k: nat, j: nat)
    requires Tracks(e, k, j) && k > 0
    ensures e.stack < 16 - e.dstbit <==> k < e.Cfg().Needed(j + 1)
    ensures k <= e.Cfg().Needed(j + 1) && e.OutOff() >= 0
    ensures k == e.Cfg().Needed(j + 1) ==> AtLane(e.(stack := e.stack - (16 - e.dstbit)), 2 * j)
    ensures k == e.Cfg().Needed(j + 1) ==> 16 * (j + 1) + e.Cfg().s - e.Cfg().d <= 16 * k
  {
    hide Variant, SrcOffset, DstOffset, Downward;
  }

  lemma LaterKind(e: Regs)
    requires e.Selected()
    ensures e.Kind() == 2 <==> e.Cfg().s % 8 < e.Cfg().d % 8
  {
    hide SrcOffset, DstOffset, Downward;
  }

  lemma LaneAdvances(e: Regs, n: nat)
    requires AtLane(e, n)
    ensures Draining(e)
    ensures AfterLane(e).remain == Max(0, e.Cfg().len - Before(e.Cfg(), n + 1))
    ensures AfterLane(e).remain > 0 ==> AtLane(AfterLane(e), n + 1)
  {
    hide Source, ConfigOf, Downward, Variant;
    SourceInRange(e.Cfg(), n);
    SourceAdvances(e.Cfg(), n);
    LaterKind(e);
  }

  lemma SourceInRange(cfg: Funnel.Config, n: nat)
    requires cfg.Valid()
    ensures 0 <= 8 * Source(cfg, n) <= Before(cfg, n) + 15
  {
  }

  /** One lane as the transfer wants it: source bits where the run reaches, the
      old latch where it does not, and the run's own bits enabled. */
  predicate LaneShows(down: bool, cfg: Funnel.Config, bits: seq<bool>, n: nat, m: bv8, b: bv8, prev: bv8) {
    forall q | 0 <= q < 8 ::
      && (Bit(down, m, q) <==> cfg.d <= 8 * n + q < cfg.d + cfg.len)
      && (Bit(down, b, q) <==>
           if Funnel.Touched(cfg, n) then Funnel.SourceBit(cfg, bits, 8 * n + q) else Bit(down, prev, q))
  }

  lemma LaneIsWindow(e: Regs, n: nat, buf: seq<bv8>, bytes: seq<seq<bv8>>, p: nat, m: bv8, b: bv8, prev: bv8)
    requires AtLane(e, n) && LaneReady(e) && p < 4
    requires |buf| == 2 * PAD + BUF_BYTES && |bytes| == 4 && Loaded(e, buf, bytes)
    requires 8 * n + 8 + e.Cfg().s - e.Cfg().d <= 8 * |bytes[p]|
    requires LaneMask(e, m)
    requires b == if e.dstbit >= 8 then prev else LaneByte(e, buf, p)
    ensures LaneShows(e.Down(), e.Cfg(), Stream(e.Down(), bytes[p]), n, m, b, prev)
  {
    hide Bit, Pick, Stream, Variant, Downward, SrcOffset, DstOffset, Funnel.SourceBit;
    var cfg, down := e.Cfg(), e.Down();
    if e.dstbit >= 8 {
      forall q | 0 <= q < 8 ensures !Bit(down, 0, q) { NoBits(down, q); }
    } else {
      hide Source, Loaded, LaneByte, At, Ahead;
      forall q | 0 <= q < 8
        ensures Bit(down, b, q) == Funnel.SourceBit(cfg, Stream(down, bytes[p]), 8 * n + q)
      {
        LaneBit(e, n, buf, bytes, p, q);
      }
    }
  }

  lemma LaneBit(e: Regs, n: nat, buf: seq<bv8>, bytes: seq<seq<bv8>>, p: nat, q: nat)
    requires AtLane(e, n) && LaneReady(e) && p < 4 && q < 8 && e.dstbit < 8
    requires |buf| == 2 * PAD + BUF_BYTES && |bytes| == 4 && Loaded(e, buf, bytes)
    requires 8 * n + 8 + e.Cfg().s - e.Cfg().d <= 8 * |bytes[p]|
    ensures Bit(e.Down(), LaneByte(e, buf, p), q) == Funnel.SourceBit(e.Cfg(), Stream(e.Down(), bytes[p]), 8 * n + q)
  {
    hide Bit, Pick, Stream, Variant, Downward, SrcOffset, DstOffset, Funnel.SourceBit;
    var cfg, down := e.Cfg(), e.Down();
    var i := Source(cfg, n);
    SourceInReach(cfg, n, |bytes[p]|);
    assert buf[e.outptr + 4 * p] == bytes[p][i] by { assert e.outptr == At(down, i); }
    var next := buf[Ahead(e, e.outptr, 1) + 4 * p];
    assert i + 1 < |bytes[p]| ==> next == bytes[p][i + 1] by { assert Ahead(e, e.outptr, 1) == At(down, i + 1); }
    PickWindow(down, bytes[p], cfg, e.Kind(), e.sft8bitl, e.sft8bitr, n, next, q);
  }

  lemma NoBits(down: bool, q: nat)
    requires q < 8
    ensures !Bit(down, 0, q)
  {
  }

  lemma SourceInReach(cfg: Funnel.Config, n: nat, len: nat)
    requires cfg.Valid() && cfg.d < 8 * n + 8 && 8 * n + 8 + cfg.s - cfg.d <= 8 * len
    ensures Source(cfg, n) < len
  {
  }

  /** A latch or mask word in scan order. */
  function WordView(down: bool, lo: bv8, hi: bv8): (v: seq<bool>)
    ensures |v| == 16
  {
    seq(16, x requires 0 <= x < 16 => Bit(down, if (x < 8) != down then lo else hi, x % 8))
  }

  /** Two lanes that show their windows make the word the transfer wants. */
  lemma LanesMakeWord(down: bool, cfg: Funnel.Config, bits: seq<bool>, j: nat, m: seq<bv8>, b: seq<bv8>, prev: seq<bv8>)
    requires |m| == 2 && |b| == 2 && |prev| == 2
    requires var a := if down then 1 else 0;
      && LaneShows(down, cfg, bits, 2 * j, m[a], b[a], prev[a])
      && LaneShows(down, cfg, bits, 2 * j + 1, m[1 - a], b[1 - a], prev[1 - a])
    ensures WordView(down, m[0], m[1]) == Funnel.MaskLine(cfg, j)
    ensures WordView(down, b[0], b[1]) == Funnel.SrcLine(cfg, bits, j, WordView(down, prev[0], prev[1]))
  {
    hide Bit, Funnel.SourceBit, Funnel.Touched;
  }

  /** The latch and mask after a word delivery are those of the transfer. */
  lemma WordIsWindow(e: Regs, k: nat, j: nat, buf: seq<bv8>, bytes: seq<seq<bv8>>, p: nat, a: nat, m: seq<bv8>,
            before: seq<bv8>, after: seq<bv8>)
    requires AtLane(e, 2 * j) && 16 * (j + 1) + e.Cfg().s - e.Cfg().d <= 16 * k
    requires |buf| == 2 * PAD + BUF_BYTES && |bytes| == 4 && Loaded(e, buf, bytes)
    requires p < 4 && |bytes[p]| == 2 * k && |m| == 2
    requires a == (if e.Down() then 1 else 0)
    requires WordPlane(e, buf, before, after, a, p)
    requires LaneMask(e, m[a])
    requires if AfterLane(e).remain > 0 then LaneMask(AfterLane(e), m[1 - a]) else m[1 - a] == 0
    ensures WordView(e.Down(), m[0], m[1]) == Funnel.MaskLine(e.Cfg(), j)
    ensures WordView(e.Down(), after[2 * p], after[2 * p + 1])
         == Funnel.SrcLine(e.Cfg(), Stream(e.Down(), bytes[p]), j, WordView(e.Down(), before[2 * p], before[2 * p + 1]))
  {
    hide LaneMask, LaneByte, Stream, WordView, Regs.Selected, LaneShows, Bit, LaneReady, AtLane, AfterLane, Loaded;
    hide Draining, ConfigOf;
    var f, bits := AfterLane(e), Stream(e.Down(), bytes[p]);
    var prev, b := before[2 * p..2 * p + 2], after[2 * p..2 * p + 2];
    LaneAdvances(e, 2 * j);
    LaneIsWindow(e, 2 * j, buf, bytes, p, m[a], b[a], prev[a]);
    LaneLoadedStays(e, 2 * j, buf, bytes);
    if f.remain > 0 {
      LaneIsWindow(f, 2 * j + 1, buf, bytes, p, m[1 - a], b[1 - a], prev[1 - a]);
    } else {
      PastTheRun(e.Down(), e.Cfg(), bits, 2 * j + 1, prev[1 - a]);
    }
    LanesMakeWord(e.Down(), e.Cfg(), bits, j, m, b, prev);
  }

  lemma LoadedStays(e: Regs, f: Regs, buf: seq<bv8>, bytes: seq<seq<bv8>>)
    requires |buf| == 2 * PAD + BUF_BYTES && |bytes| == 4 && Loaded(e, buf, bytes)
    requires f.sft == e.sft && f.OutOff() >= e.OutOff() >= 0
    ensures Loaded(f, buf, bytes)
  {
  }

  lemma LaneLoadedStays(e: Regs, n: nat, buf: seq<bv8>, bytes: seq<seq<bv8>>)
    requires AtLane(e, n) && LaneReady(e)
    requires |buf| == 2 * PAD + BUF_BYTES && |bytes| == 4 && Loaded(e, buf, bytes)
    ensures Loaded(AfterLane(e), buf, bytes) && AfterLane(e).sft == e.sft && AfterLane(e).leng == e.leng
  {
    hide Loaded, Source, Variant, ConfigOf;
    LaneKeeps(e);
    LoadedStays(e, AfterLane(e), buf, bytes);
  }

  lemma PastTheRun(down: bool, cfg: Funnel.Config, bits: seq<bool>, n: nat, prev: bv8)
    requires cfg.d + cfg.len <= 8 * n
    ensures LaneShows(down, cfg, bits, n, 0, prev, prev)
  {
    hide Bit;
    forall q | 0 <= q < 8 ensures !Bit(down, 0, q) { NoBits(down, q); }
  }

  lemma WordTakes(e: Regs, k: nat, j: nat)
    requires Tracks(e, k, j) && k == e.Cfg().Needed(j + 1)
    ensures var cfg := e.Cfg();
      && k > 0 && e.srcbit == 0 && e.InOff() == 2 * k
      && e.stack - (16 - e.dstbit) == 16 * k - cfg.s - Before(cfg, 2 * (j + 1))
      && Before(cfg, 2 * j + 1) <= Before(cfg, 2 * (j + 1))
      && (cfg.len <= Before(cfg, 2 * (j + 1)) <==> cfg.Words() <= j + 1)
      && k < cfg.Needed(j + 2)
  {
    hide Regs.Selected, ConfigOf, Downward;
  }

  /** The registers after a word delivery are those of the transfer, and the run
      ends exactly when its last word is out. */
  lemma WordTracks(e: Regs, k: nat, j: nat)
    requires Tracks(e, k, j) && k == e.Cfg().Needed(j + 1)
    ensures var f := AfterLane(e.(stack := e.stack - (16 - e.dstbit)));
            var g := if f.remain > 0 then AfterLane(f) else f;
            && f.OutOff() >= e.OutOff() && g.OutOff() >= e.OutOff()
            && (g.remain == 0 <==> e.Cfg().Words() <= j + 1)
            && (g.remain > 0 ==> Tracks(g, k, j + 1) && k < g.Cfg().Needed(j + 2))
  {
    hide AfterLane, ConfigOf, Downward, Tracks, Before, Source, AtLane, LaneReady;
    hide Funnel.Config.Words, Funnel.Config.Needed;
    WordTakes(e, k, j);
    WordReady(e, k, j);
    var e1 := e.(stack := e.stack - (16 - e.dstbit));
    var f := AfterLane(e1);
    LaneAdvances(e1, 2 * j);
    LaneKeeps(e1);
    if f.remain > 0 {
      LaneAdvances(f, 2 * j + 1);
      LaneKeeps(f);
      if AfterLane(f).remain > 0 { TracksAt(AfterLane(f), k, j + 1); }
    }
  }

  lemma TracksAt(e: Regs, k: nat, j: nat)
    requires AtLane(e, 2 * j) && k > 0 && e.Cfg().Needed(j) == k
    requires e.srcbit == 0 && e.stack == 16 * k - e.Cfg().s - Before(e.Cfg(), 2 * j) && e.InOff() == 2 * k
    ensures Tracks(e, k, j)
  {
    hide Regs.Selected, ConfigOf, Downward, Before, Source;
  }

  lemma NoWord(down: bool)
    ensures WordView(down, 0, 0) == Funnel.NoLine()
  {
    forall x | 0 <= x < 16 ensures !WordView(down, 0, 0)[x] { NoBits(down, x % 8); }
  }

  // ---- pushing ------------------------------------------------------------

  /** The registers once a word has been taken into the budget; a full budget
      turns the push away and the next one overwrites its bytes. */
  function Pushed(e: Regs): Regs
    requires e.srcbit < 16
  {
    if e.stack > 16 then e
    else e.(inptr := Ahead(e, e.inptr, 2),
            outptr := Ahead(e, e.outptr, if e.srcbit >= 8 then 1 else 0),
            stack := e.stack + (16 - e.srcbit), srcbit := 0)
  }

  lemma PushKeepsBudget(e: Regs)
    requires e.Valid()
    ensures e.srcbit < 16 && Pushed(e).Valid() && Pushed(e).sft == e.sft && Pushed(e).leng == e.leng
    ensures e.func % 2 == 1 <==> e.Down()
  {
    hide Variant, ConfigOf, Downward;
    assert e.Cfg().Valid();
  }

  /** The same for a byte. The output pointer does not skip a source byte. */
  function PushedByte(e: Regs): Regs {
    if e.stack > 16 then e
    else
      e.(inptr := Ahead(e, e.inptr, 1),
         stack := if e.srcbit >= 8 then e.stack else e.stack + (8 - e.srcbit),
         srcbit := if e.srcbit >= 8 then e.srcbit - 8 else 0)
  }

  lemma PushKeepsByteBudget(e: Regs)
    requires e.Valid()
    ensures PushedByte(e).Valid() && PushedByte(e).sft == e.sft && PushedByte(e).leng == e.leng
  {
    hide Variant, ConfigOf, Downward;
  }

  /** Too few bits are in the budget for a byte, or the destination bit lies beyond
      one: the emulator's unsigned compare then never lets a byte out. */
  predicate ByteHeld(e: Regs) {
    e.dstbit > 8 || e.stack < 8 - e.dstbit
  }

  /** What a push to the byte lane `ext` delivers: nothing, or one lane of every
      plane, after which the run goes on or the pipeline arms itself again. */
  ghost predicate ByteOut(e: Regs, f: Regs, buf: seq<bv8>, before: seq<bv8>, after: seq<bv8>, ext: nat, m: bv8) {
    if ByteHeld(e) then f == e && m == 0 && after == before
    else
      var e0 := e.(stack := e.stack - (8 - e.dstbit));
      && LaneReady(e0) && LaneMask(e0, m)
      && (forall p | 0 <= p < 4 :: LanePlane(e0, buf, before, after, ext, p))
      && if AfterLane(e0).remain > 0 then f == AfterLane(e0) else f.Armed()
  }

  /** Every store and load of every run stays inside the buffer and its padding. */
  lemma StoreBounds(e: Regs)
    requires e.Valid()
    ensures 1 <= e.inptr && e.inptr + 13 < 2 * PAD + BUF_BYTES
    ensures 1 <= e.outptr && e.outptr + 13 < 2 * PAD + BUF_BYTES
    ensures e.func % 2 == 1 <==> e.Down()
  {
    hide Variant;
  }

  /** In a run of words they stay inside the buffer proper. */
  lemma WordRunBounds(e: Regs, k: nat, j: nat)
    requires Tracks(e, k, j) && k < e.Cfg().Needed(j + 1)
    ensures e.stack <= 15
    ensures 0 <= e.OutOff() && 2 * k - 2 <= e.OutOff() <= 2 * k == e.InOff()
    ensures e.srcbit < 16 && Pushed(e).sft == e.sft && Pushed(e).OutOff() >= e.OutOff()
    ensures if e.Down() then PAD <= e.inptr - 1 && e.inptr + 12 < PAD + BUF_BYTES
            else PAD <= e.inptr && e.inptr + 13 < PAD + BUF_BYTES
  {
    hide Variant, SrcOffset, DstOffset, Downward;
  }

  lemma PushTracks(e: Regs, k: nat, j: nat)
    requires Tracks(e, k, j) && k < e.Cfg().Needed(j + 1)
    ensures e.srcbit < 16 && Tracks(Pushed(e), k + 1, j)
  {
    hide Variant, SrcOffset, DstOffset, Downward;
  }

  lemma StreamAppends(down: bool, bytes: seq<bv8>, lo: bv8, hi: bv8)
    ensures Stream(down, bytes + (if down then [hi, lo] else [lo, hi])) == Stream(down, bytes) + WordView(down, lo, hi)
  {
    hide Bit;
  }

  /** Planes overlap four bytes apart in one buffer, yet storing the next word of
      every plane leaves the bytes the planes still need where they were. */
  lemma StoreKeepsLoaded(e: Regs, k: nat, j: nat, before: seq<bv8>, after: seq<bv8>, bytes: seq<seq<bv8>>,
            more: seq<seq<bv8>>)
    requires Tracks(e, k, j) && k < e.Cfg().Needed(j + 1)
    requires |before| == |after| == 2 * PAD + BUF_BYTES && |bytes| == |more| == 4
    requires Loaded(e, before, bytes)
    requires forall p | 0 <= p < 4 :: |bytes[p]| == 2 * k && |more[p]| == 2 * k + 2 && bytes[p] <= more[p]
    requires var first := if e.Down() then e.inptr - 1 else e.inptr;
      && 0 <= first && first + 13 < |after|
      && (forall p | 0 <= p < 4 ::
           && after[first + 4 * p] == more[p][if e.Down() then 2 * k + 1 else 2 * k]
           && after[first + 1 + 4 * p] == more[p][if e.Down() then 2 * k else 2 * k + 1])
      && (forall a | 0 <= a < |after| && Kept(a - first) :: after[a] == before[a])
    ensures e.srcbit < 16 && Loaded(Pushed(e), after, more)
  {
    hide Tracks, Downward, Pushed, Kept, Regs.Selected, ConfigOf, Funnel.Config.Needed;
    WordRunBounds(e, k, j);
    var down, f := e.Down(), Pushed(e);
    var first := if down then e.inptr - 1 else e.inptr;
    assert At(down, 2 * k) == (if down then first + 1 else first);
    forall p, i | 0 <= p < 4 && 0 <= f.OutOff() <= i < |more[p]|
      ensures 0 <= At(down, i) + 4 * p < |after| && after[At(down, i) + 4 * p] == more[p][i]
    {
      if i < 2 * k {
        assert bytes[p][i] == more[p][i];
        KeptBehind(down, first, k, i, p);
      }
    }
  }

  lemma KeptBehind(down: bool, first: int, k: nat, i: int, p: nat)
    requires At(down, 2 * k) == (if down then first + 1 else first) && 2 * k - 2 <= i < 2 * k && p < 4
    ensures Kept(At(down, i) + 4 * p - first)
  {
  }

  /** The cells a word store leaves alone, counted from its first byte. */
  predicate Kept(x: int) {
    x < 0 || x >= 14 || x == 2 || x == 3 || x == 6 || x == 7 || x == 10 || x == 11
  }

  /** And those a byte store does. */
  predicate KeptByte(x: int) {
    x != 0 && x != 4 && x != 8 && x != 12
  }

  /** The bytes of the four planes moved to a later bit, for the head of a run. */
  function Heads(down: bool, cur: seq<bv8>, r: nat): (v: seq<bv8>)
    requires |cur| == 4
    ensures |v| == 4 && forall p | 0 <= p < 4 :: v[p] == Later(down, cur[p], r)
  {
    [Later(down, cur[0], r), Later(down, cur[1], r), Later(down, cur[2], r), Later(down, cur[3], r)]
  }

  /** And joined with the bytes after them. */
  function Joins(down: bool, cur: seq<bv8>, next: seq<bv8>, l: nat, r: nat): (v: seq<bv8>)
    requires |cur| == 4 && |next| == 4
    ensures |v| == 4 && forall p | 0 <= p < 4 :: v[p] == Joined(down, cur[p], next[p], l, r)
  {
    hide Joined;
    [Joined(down, cur[0], next[0], l, r), Joined(down, cur[1], next[1], l, r),
     Joined(down, cur[2], next[2], l, r), Joined(down, cur[3], next[3], l, r)]
  }

  class Pipeline {
    var egc: Regs
    const buf: array<bv8>      // padding, buffer, padding
    const src: array<bv8>      // the funnel latch: byte `ext` of plane p at 2 * p + ext
    const srcmask: array<bv8>  // its two mask bytes

    // The bytes pushed to each plane since the pipeline was armed, in scan
    // order, and the words pushed and delivered: meaningful in word-only runs.
    ghost var bytes: seq<seq<bv8>>
    ghost var count: nat
    ghost var delivered: nat

    ghost predicate Shape()
      reads this
    {
      buf.Length == 2 * PAD + BUF_BYTES && src.Length == 8 && srcmask.Length == 2
    }

    ghost predicate Valid()
      reads this
    {
      Shape() && egc.Valid()
    }

    ghost predicate Fresh()
      reads this
    {
      count == 0 && delivered == 0 && bytes == [[], [], [], []]
    }

    lemma ShapeIs()
      ensures Shape() <==> buf.Length == 2 * PAD + BUF_BYTES && src.Length == 8 && srcmask.Length == 2
    {
    }

    method EgcShift()
      requires egc.sft < 0x10000 && egc.leng < 0x10000
      modifies this
      ensures egc.sft == old(egc.sft) && egc.leng == old(egc.leng)
      ensures egc.Armed() && Fresh()
      ensures Shape() ==> Valid() && WordRun()
    {
      hide SrcOffset, DstOffset, Downward;
      var func := if Downward(egc.sft) then 1 else 0;
      var base := if func == 0 then UP_BASE else DOWN_BASE;
      var srcbit, dstbit := SrcOffset(egc.sft), DstOffset(egc.sft);
      var l, r := egc.sft8bitl, egc.sft8bitr;
      var src8, dst8 := srcbit % 8, dstbit % 8;
      if src8 < dst8 {
        func := func + 2;
        r := dst8 - src8;
        l := 8 - r;
      } else if src8 > dst8 {
        func := func + 4;
        l := src8 - dst8;
        r := 8 - l;
      }
      egc := egc.(remain := egc.leng % 4096 + 1, func := func, inptr := base, outptr := base,
                  srcbit := srcbit, dstbit := dstbit, sft8bitl := l, sft8bitr := r, stack := 0);
      count, delivered, bytes := 0, 0, [[], [], [], []];
      ArmedIsValid(egc);
      hide Regs.Selected, Regs.Armed, Variant, ConfigOf;
    }

    constructor ()
      ensures Valid() && egc.Armed() && WordRun() && Fresh() && fresh(buf) && fresh(src) && fresh(srcmask)
      ensures egc.sft == 0 && egc.leng == 0x000f
      ensures srcmask[0] == 0xff && srcmask[1] == 0xff
    {
      buf := new bv8[2 * PAD + BUF_BYTES](_ => 0);
      src := new bv8[8](_ => 0);
      srcmask := new bv8[2](_ => 0xff);
      egc := Regs(0, 0x000f, 0, 0, 0, 0, 0, 0, 0, 0, 0);
      new;
      assert srcmask[0] == 0xff && srcmask[1] == 0xff;
      hide Regs.Selected, Regs.Armed, Regs.Valid, Tracks, Loaded, WordRun, Fresh, Shape, Valid;
      assert Shape() && egc.sft < 0x10000 && egc.leng < 0x10000 by { ShapeIs(); }
      EgcShift();
    }

    /** Any write to the shift or length register arms the pipeline afresh. */
    method WriteSft(value: nat)
      requires Valid() && value < 0x10000
      modifies this, srcmask
      ensures egc.sft == value && egc.leng == old(egc.leng) && egc.Armed() && Valid() && WordRun() && Fresh()
      ensures srcmask[0] == 0xff && srcmask[1] == 0xff
    {
      egc := egc.(sft := value);
      EgcShift();
      srcmask[0], srcmask[1] := 0xff, 0xff;
    }

    method WriteLeng(value: nat)
      requires Valid() && value < 0x10000
      modifies this, srcmask
      ensures egc.leng == value && egc.sft == old(egc.sft) && egc.Armed() && Valid() && WordRun() && Fresh()
      ensures srcmask[0] == 0xff && srcmask[1] == 0xff
    {
      egc := egc.(leng := value);
      EgcShift();
      srcmask[0], srcmask[1] := 0xff, 0xff;
    }

    // ---- one lane -----------------------------------------------------------

    /** Everything one lane changes, whichever variant runs. */
    twostate predicate Lane(ext: nat)
      requires ext < 2 && Shape() && LaneReady(old(egc))
      reads this, src, srcmask, buf
    {
      && egc == AfterLane(old(egc))
      && LaneMask(old(egc), srcmask[ext])
      && srcmask[1 - ext] == old(srcmask[1 - ext])
      && (forall p | 0 <= p < 4 :: LanePlane(old(egc), old(buf[..]), old(src[..]), src[..], ext, p))
    }

    /** A lane in front of the destination bit. */
    method PassLane(ext: nat)
      requires ext < 2 && Shape() && LaneReady(egc) && egc.dstbit >= 8
      modifies this`egc, srcmask
      ensures Lane(ext) && src[..] == old(src[..])
    {
      hide LaneReady, LaneByte;
      egc := egc.(dstbit := egc.dstbit - 8);
      srcmask[ext] := 0;
    }

    /** The mask arithmetic every `up` variant shares. */
    method EnableUp(ext: nat)
      requires ext < 2 && Shape() && LaneReady(egc) && srcmask[ext] == 0xff && !egc.Down() && egc.dstbit < 8
      modifies this`egc, srcmask
      ensures egc == old(egc).(dstbit := 0, remain := old(egc).remain - Take(old(egc)))
      ensures LaneMask(old(egc), srcmask[ext])
      ensures srcmask[1 - ext] == old(srcmask[1 - ext])
      ensures buf[..] == old(buf[..]) && src[..] == old(src[..])
    {
      hide Enables, BytemaskU0, BytemaskD0;
      if egc.dstbit > 0 {
        if egc.dstbit + egc.remain >= 8 {
          MaskEnables(false, egc.dstbit, 8);
          srcmask[ext] := BytemaskU0(8)[egc.dstbit];
          egc := egc.(remain := egc.remain - (8 - egc.dstbit), dstbit := 0);
        } else {
          MaskEnables(false, egc.dstbit, egc.remain);
          srcmask[ext] := BytemaskU0(egc.remain)[egc.dstbit];
          egc := egc.(remain := 0, dstbit := 0);
        }
      } else if egc.remain >= 8 {
        RowEnables(false, 8);
        egc := egc.(remain := egc.remain - 8);
      } else {
        RowEnables(false, egc.remain);
        srcmask[ext] := BYTEMASK_U1[egc.remain - 1];
        egc := egc.(remain := 0);
      }
    }

    method EnableDown(ext: nat)
      requires ext < 2 && Shape() && LaneReady(egc) && srcmask[ext] == 0xff && egc.Down() && egc.dstbit < 8
      modifies this`egc, srcmask
      ensures egc == old(egc).(dstbit := 0, remain := old(egc).remain - Take(old(egc)))
      ensures LaneMask(old(egc), srcmask[ext])
      ensures srcmask[1 - ext] == old(srcmask[1 - ext])
      ensures buf[..] == old(buf[..]) && src[..] == old(src[..])
    {
      hide Enables, BytemaskU0, BytemaskD0;
      if egc.dstbit > 0 {
        if egc.dstbit + egc.remain >= 8 {
          MaskEnables(true, egc.dstbit, 8);
          srcmask[ext] := BytemaskD0(8)[egc.dstbit];
          egc := egc.(remain := egc.remain - (8 - egc.dstbit), dstbit := 0);
        } else {
          MaskEnables(true, egc.dstbit, egc.remain);
          srcmask[ext] := BytemaskD0(egc.remain)[egc.dstbit];
          egc := egc.(remain := 0, dstbit := 0);
        }
      } else if egc.remain >= 8 {
        RowEnables(true, 8);
        egc := egc.(remain := egc.remain - 8);
      } else {
        RowEnables(true, egc.remain);
        srcmask[ext] := BYTEMASK_D1[egc.remain - 1];
        egc := egc.(remain := 0);
      }
    }

    /** The byte at `at` and its neighbours four, eight and twelve bytes on: one byte of
        each plane. */
    function Planes(at: int): (v: seq<bv8>)
      requires Shape() && 0 <= at && at + 12 < 2 * PAD + BUF_BYTES
      reads this, buf
      ensures |v| == 4 && forall p | 0 <= p < 4 :: v[p] == buf[at + 4 * p]
    {
      [buf[at], buf[at + 4], buf[at + 8], buf[at + 12]]
    }

    /** What the variants read is what a lane takes. */
    lemma PlanesAre(e: Regs)
      requires Shape() && LaneReady(e) && e.Kind() == 0
      ensures 1 <= e.outptr && e.outptr + 13 < 2 * PAD + BUF_BYTES
      ensures Planes(e.outptr) == LaneBytes(e, buf[..])
    {
      hide LaneReady, LaneBytes, Planes;
      LaneBounds(e);
      var cur, all := Planes(e.outptr), LaneBytes(e, buf[..]);
      forall p | 0 <= p < 4 ensures cur[p] == all[p] { }
    }

    lemma HeadsAre(e: Regs)
      requires Shape() && LaneReady(e) && e.Kind() == 2 && e.dstbit > 0
      ensures 1 <= e.outptr && e.outptr + 13 < 2 * PAD + BUF_BYTES
      ensures Heads(e.Down(), Planes(e.outptr), e.sft8bitr) == LaneBytes(e, buf[..])
    {
      hide LaneReady, Later, Joined, LaneBytes, Planes, Heads;
      LaneBounds(e);
      var cur, all := Heads(e.Down(), Planes(e.outptr), e.sft8bitr), LaneBytes(e, buf[..]);
      forall p | 0 <= p < 4 ensures cur[p] == all[p] { }
    }

    lemma JoinsAre(e: Regs)
      requires Shape() && LaneReady(e) && (e.Kind() == 4 || (e.Kind() == 2 && e.dstbit == 0))
      ensures 1 <= e.outptr && e.outptr + 13 < 2 * PAD + BUF_BYTES
      ensures Joins(e.Down(), Planes(e.outptr), Planes(Ahead(e, e.outptr, 1)), e.sft8bitl, e.sft8bitr)
           == LaneBytes(e, buf[..])
    {
      hide LaneReady, Later, Joined, LaneBytes, Planes, Joins;
      LaneBounds(e);
      var first, second := Planes(e.outptr), Planes(Ahead(e, e.outptr, 1));
      var cur, all := Joins(e.Down(), first, second, e.sft8bitl, e.sft8bitr), LaneBytes(e, buf[..]);
      forall p | 0 <= p < 4 ensures cur[p] == all[p] {
        assert first[p] == buf[..][e.outptr + 4 * p] && second[p] == buf[..][Ahead(e, e.outptr, 1) + 4 * p];
      }
    }

    method Latch(ext: nat, v: seq<bv8>, ghost e: Regs)
      requires ext < 2 && Shape() && LaneReady(e) && e.dstbit < 8
      requires v == LaneBytes(e, buf[..])
      modifies src
      ensures buf[..] == old(buf[..])
      ensures forall p | 0 <= p < 4 :: LanePlane(e, buf[..], old(src[..]), src[..], ext, p)
    {
      hide LaneByte, LaneReady;
      src[ext], src[2 + ext], src[4 + ext], src[6 + ext] := v[0], v[1], v[2], v[3];
      forall p | 0 <= p < 4 ensures LanePlane(e, buf[..], old(src[..]), src[..], ext, p) {
        assert src[2 * p + ext] == v[p];
      }
    }

    /** Upward, offsets agree within a byte. */
    method UpnSub(ext: nat)
      requires ext < 2 && Shape() && LaneReady(egc) && srcmask[ext] == 0xff
      requires egc.func == 0
      modifies this`egc, src, srcmask
      ensures Lane(ext)
    {
      hide Enables, Regs.Selected, Regs.Down, Regs.Cfg, Joined, Later;
      hide LanePlane, LaneMask, LaneReady, LaneBytes, Planes, Heads, Joins;
      LaneBounds(egc);
      if egc.dstbit >= 8 {
        PassLane(ext);
        return;
      }
      var v: seq<bv8>;
      EnableUp(ext);
      v := Planes(egc.outptr);
      PlanesAre(old(egc));
      egc := egc.(outptr := egc.outptr + 1);
      assert buf[..] == old(buf[..]) && src[..] == old(src[..]);
      Latch(ext, v, old(egc));
    }

    /** Downward, offsets agree within a byte. */
    method DnnSub(ext: nat)
      requires ext < 2 && Shape() && LaneReady(egc) && srcmask[ext] == 0xff
      requires egc.func == 1
      modifies this`egc, src, srcmask
      ensures Lane(ext)
    {
      hide Enables, Regs.Selected, Regs.Down, Regs.Cfg, Joined, Later;
      hide LanePlane, LaneMask, LaneReady, LaneBytes, Planes, Heads, Joins;
      LaneBounds(egc);
      if egc.dstbit >= 8 {
        PassLane(ext);
        return;
      }
      var v: seq<bv8>;
      EnableDown(ext);
      v := Planes(egc.outptr);
      PlanesAre(old(egc));
      egc := egc.(outptr := egc.outptr - 1);
      assert buf[..] == old(buf[..]) && src[..] == old(src[..]);
      Latch(ext, v, old(egc));
    }

    /** Upward, to a later bit of the byte. */
    method UprSub(ext: nat)
      requires ext < 2 && Shape() && LaneReady(egc) && srcmask[ext] == 0xff
      requires egc.func == 2
      modifies this`egc, src, srcmask
      ensures Lane(ext)
    {
      hide Enables, Regs.Selected, Regs.Down, Regs.Cfg, Joined, Later;
      hide LanePlane, LaneMask, LaneReady, LaneBytes, Planes, Heads, Joins;
      LaneBounds(egc);
      if egc.dstbit >= 8 {
        PassLane(ext);
        return;
      }
      var v: seq<bv8>;
      var head := egc.dstbit > 0;
      EnableUp(ext);
      if head {
        var r := egc.sft8bitr;
        v := Heads(false, Planes(egc.outptr), r);
        HeadsAre(old(egc));
      } else {
        var l, r := egc.sft8bitl, egc.sft8bitr;
        v := Joins(false, Planes(egc.outptr), Planes(egc.outptr + 1), l, r);
        JoinsAre(old(egc));
        egc := egc.(outptr := egc.outptr + 1);
      }
      assert buf[..] == old(buf[..]) && src[..] == old(src[..]);
      Latch(ext, v, old(egc));
    }

    /** Downward, to a later bit of the byte. */
    method DnrSub(ext: nat)
      requires ext < 2 && Shape() && LaneReady(egc) && srcmask[ext] == 0xff
      requires egc.func == 3
      modifies this`egc, src, srcmask
      ensures Lane(ext)
    {
      hide Enables, Regs.Selected, Regs.Down, Regs.Cfg, Joined, Later;
      hide LanePlane, LaneMask, LaneReady, LaneBytes, Planes, Heads, Joins;
      LaneBounds(egc);
      if egc.dstbit >= 8 {
        PassLane(ext);
        return;
      }
      var v: seq<bv8>;
      var head := egc.dstbit > 0;
      EnableDown(ext);
      if head {
        var r := egc.sft8bitr;
        v := Heads(true, Planes(egc.outptr), r);
        HeadsAre(old(egc));
      } else {
        egc := egc.(outptr := egc.outptr - 1);
        var l, r := egc.sft8bitl, egc.sft8bitr;
        v := Joins(true, Planes(egc.outptr + 1), Planes(egc.outptr), l, r);
        JoinsAre(old(egc));
      }
      assert buf[..] == old(buf[..]) && src[..] == old(src[..]);
      Latch(ext, v, old(egc));
    }

    /** Upward, to an earlier bit of the byte. */
    method UplSub(ext: nat)
      requires ext < 2 && Shape() && LaneReady(egc) && srcmask[ext] == 0xff
      requires egc.func == 4
      modifies this`egc, src, srcmask
      ensures Lane(ext)
    {
      hide Enables, Regs.Selected, Regs.Down, Regs.Cfg, Joined, Later;
      hide LanePlane, LaneMask, LaneReady, LaneBytes, Planes, Heads, Joins;
      LaneBounds(egc);
      if egc.dstbit >= 8 {
        PassLane(ext);
        return;
      }
      var v: seq<bv8>;
      EnableUp(ext);
      var l, r := egc.sft8bitl, egc.sft8bitr;
      v := Joins(false, Planes(egc.outptr), Planes(egc.outptr + 1), l, r);
      JoinsAre(old(egc));
      egc := egc.(outptr := egc.outptr + 1);
      assert buf[..] == old(buf[..]) && src[..] == old(src[..]);
      Latch(ext, v, old(egc));
    }

    /** Downward, to an earlier bit of the byte. */
    method DnlSub(ext: nat)
      requires ext < 2 && Shape() && LaneReady(egc) && srcmask[ext] == 0xff
      requires egc.func == 5
      modifies this`egc, src, srcmask
      ensures Lane(ext)
    {
      hide Enables, Regs.Selected, Regs.Down, Regs.Cfg, Joined, Later;
      hide LanePlane, LaneMask, LaneReady, LaneBytes, Planes, Heads, Joins;
      LaneBounds(egc);
      if egc.dstbit >= 8 {
        PassLane(ext);
        return;
      }
      var v: seq<bv8>;
      EnableDown(ext);
      egc := egc.(outptr := egc.outptr - 1);
      var l, r := egc.sft8bitl, egc.sft8bitr;
      v := Joins(true, Planes(egc.outptr + 1), Planes(egc.outptr), l, r);
      JoinsAre(old(egc));
      assert buf[..] == old(buf[..]) && src[..] == old(src[..]);
      Latch(ext, v, old(egc));
    }

    // ---- one access ---------------------------------------------------------

    /** The variant the last arm selected. */
    method ShiftSub(ext: nat)
      requires ext < 2 && Shape() && LaneReady(egc) && srcmask[ext] == 0xff
      modifies this`egc, src, srcmask
      ensures Lane(ext)
    {
      match egc.func
      case 0 => UpnSub(ext);
      case 1 => DnnSub(ext);
      case 2 => UprSub(ext);
      case 3 => DnrSub(ext);
      case 4 => UplSub(ext);
      case _ => DnlSub(ext);
    }

    /** Deliver a byte if enough bits are in the budget. The emulator's
        unsigned compare makes a destination bit beyond eight never pass. */
    method ShiftByte(ext: nat)
      requires ext < 2 && Valid() && srcmask[ext] == 0xff
      modifies this, src, srcmask
      ensures Valid() && egc.sft == old(egc.sft) && egc.leng == old(egc.leng)
      ensures srcmask[1 - ext] == old(srcmask[1 - ext])
      ensures ByteOut(old(egc), egc, old(buf[..]), old(src[..]), src[..], ext, srcmask[ext])
    {
      hide Variant, ConfigOf, Downward, AfterLane, LaneMask, LanePlane, LaneReady, Regs.Valid, Regs.Armed;
      hide Regs.Selected;
      if egc.dstbit > 8 || egc.stack < 8 - egc.dstbit {
        srcmask[ext] := 0;
        return;
      }
      ByteKeepsBudget(egc);
      egc := egc.(stack := egc.stack - (8 - egc.dstbit));
      ghost var e, b, s0 := egc, buf[..], src[..];
      ShiftSub(ext);
      ghost var s1 := src[..];
      assert egc == AfterLane(e) && LaneMask(e, srcmask[ext]);
      assert forall p | 0 <= p < 4 :: LanePlane(e, b, s0, s1, ext, p);
      if egc.remain == 0 {
        EgcShift();
      }
      assert src[..] == s1;
    }

    /** Words pushed to all planes and not yet delivered in full. */
    ghost predicate Tracking()
      reads this, buf
    {
      && Shape() && |bytes| == 4
      && (forall p | 0 <= p < 4 :: |bytes[p]| == 2 * count)
      && Tracks(egc, count, delivered)
      && Loaded(egc, buf[..], bytes)
    }

    /** The run since the last arm was made of whole words. */
    ghost predicate WordRun()
      reads this, buf
    {
      Tracking() && count < egc.Cfg().Needed(delivered + 1)
    }

    /** Plane `p` as a transfer in progress. */
    ghost function View(p: nat): (st: Funnel.State)
      requires p < 4 && Shape() && |bytes| == 4
      reads this, src, srcmask
      ensures |bytes[p]| == 2 * count && Tracks(egc, count, delivered) && count < egc.Cfg().Needed(delivered + 1) ==>
          st.Valid()
    {
      hide Stream, WordView, Regs.Selected, ConfigOf, Downward;
      Funnel.State(egc.Cfg(), count, Stream(egc.Down(), bytes[p]), delivered,
                   WordView(egc.Down(), src[2 * p], src[2 * p + 1]),
                   WordView(egc.Down(), srcmask[0], srcmask[1]))
    }

    /** Plane `p` once the word just pushed has been settled. */
    ghost function Settled(p: nat): Funnel.State
      requires p < 4 && Shape() && |bytes| == 4
      reads this, src
    {
      Funnel.Settle(egc.Cfg(), count, Stream(egc.Down(), bytes[p]), delivered,
                    WordView(egc.Down(), src[2 * p], src[2 * p + 1]))
    }

    /** Take the two lanes of a word: the low byte first going up, the high byte
        first going down, and the second only if the run is not over. */
    method TakeWord(a: nat)
      requires a == (if egc.func % 2 == 0 then 0 else 1)
      requires Shape() && LaneReady(egc) && (AfterLane(egc).remain > 0 ==> LaneReady(AfterLane(egc)))
      requires srcmask[0] == 0xff && srcmask[1] == 0xff
      modifies this`egc, src, srcmask
      ensures egc == if AfterLane(old(egc)).remain > 0 then AfterLane(AfterLane(old(egc))) else AfterLane(old(egc))
      ensures LaneMask(old(egc), srcmask[a])
      ensures if AfterLane(old(egc)).remain > 0 then LaneMask(AfterLane(old(egc)), srcmask[1 - a])
          else srcmask[1 - a] == 0
      ensures forall p | 0 <= p < 4 :: WordPlane(old(egc), buf[..], old(src[..]), src[..], a, p)
    {
      hide LaneReady, LaneMask, LaneByte, AfterLane, LanePlane, WordPlane;
      ghost var e, s0 := egc, src[..];
      ShiftSub(a);
      ghost var s1 := src[..];
      if egc.remain > 0 {
        ShiftSub(1 - a);
      } else {
        srcmask[1 - a] := 0;
      }
      assert forall p | 0 <= p < 4 :: LanePlane(e, buf[..], s0, s1, a, p);
      ghost var f, b := AfterLane(e), 1 - a;
      assert f.remain > 0 ==> forall p | 0 <= p < 4 :: LanePlane(f, buf[..], s1, src[..], b, p);
      forall p | 0 <= p < 4 ensures WordPlane(e, buf[..], s0, src[..], a, p) {
        LanesMakePlane(e, buf[..], s0, s1, src[..], a, p);
      }
    }

    /** The latch and mask of every plane after the `j`-th word is delivered. */
    twostate predicate Lines(j: nat)
      requires Shape() && |bytes| == 4
      reads this, src, srcmask
    {
      var cfg, down := old(egc).Cfg(), old(egc).Down();
      && WordView(down, srcmask[0], srcmask[1]) == Funnel.MaskLine(cfg, j)
      && forall p | 0 <= p < 4 ::
           WordView(down, src[2 * p], src[2 * p + 1])
           == Funnel.SrcLine(cfg, Stream(down, bytes[p]), j, WordView(down, old(src[2 * p]), old(src[2 * p + 1])))
    }

    /** A word that is in the budget taken out of it, lane by lane. */
    method DeliverWord()
      requires Valid() && srcmask[0] == 0xff && srcmask[1] == 0xff && egc.stack >= 16 - egc.dstbit
      modifies this`egc, src, srcmask
      ensures var e := old(egc);
        var f := AfterLane(e.(stack := e.stack - (16 - e.dstbit)));
        egc == (if f.remain > 0 then AfterLane(f) else f) && egc.sft == e.sft && egc.leng == e.leng
      ensures egc.sft < 0x10000 && egc.leng < 0x10000 && (egc.remain > 0 ==> egc.Valid())
      ensures buf[..] == old(buf[..])
      ensures old(Tracking() && count > 0) ==> Lines(delivered)
    {
      hide LaneMask, AfterLane, LaneReady, WordPlane, Regs.Valid, Regs.Selected, Tracks, Loaded, Stream, WordView;
      hide AtLane, ConfigOf, Downward, Funnel.MaskLine, Funnel.SrcLine, Funnel.NoLine, Funnel.Config.Words;
      ghost var tracked := Tracking() && count > 0;
      ghost var e0, k, j := egc, count, delivered;
      WordKeepsBudget(egc);
      egc := egc.(stack := egc.stack - (16 - egc.dstbit));
      ghost var e1, b0, s0 := egc, buf[..], src[..];
      var a := if egc.func % 2 == 0 then 0 else 1;
      TakeWord(a);
      assert buf[..] == b0;
      if tracked {
        WordReady(e0, k, j);
        LoadedStays(e0, e1, b0, bytes);
        WordIsWindow(e1, k, j, b0, bytes, 0, a, srcmask[..], s0, src[..]);
        forall p | 0 <= p < 4
          ensures WordView(e1.Down(), src[2 * p], src[2 * p + 1])
               == Funnel.SrcLine(e1.Cfg(), Stream(e1.Down(), bytes[p]), j,
                   WordView(e1.Down(), old(src[2 * p]), old(src[2 * p + 1])))
        {
          assert WordPlane(e1, b0, s0, src[..], a, p);
          WordIsWindow(e1, k, j, b0, bytes, p, a, srcmask[..], s0, src[..]);
        }
      }
    }

    /** Deliver a word if enough bits are in the budget. */
    method ShiftWord()
      requires Valid() && srcmask[0] == 0xff && srcmask[1] == 0xff
      modifies this, src, srcmask
      ensures Valid() && egc.sft == old(egc.sft) && egc.leng == old(egc.leng)
      ensures old(Tracking() && count > 0) ==>
        WordRun() && forall p | 0 <= p < 4 :: View(p) == old(Settled(p))
    {
      hide AfterLane, Regs.Valid, Regs.Selected, Tracks, Loaded, Stream, WordView, ConfigOf, Downward;
      hide Funnel.MaskLine, Funnel.SrcLine, Funnel.NoLine, Funnel.Config.Words;
      ghost var tracked := Tracking() && count > 0;
      ghost var e0, k, j, b0 := egc, count, delivered, buf[..];
      if tracked { WordReady(e0, k, j); }
      if egc.stack < 16 - egc.dstbit {
        srcmask[0], srcmask[1] := 0, 0;
        NoWord(egc.Down());
        return;
      }
      if tracked { WordTracks(e0, k, j); }
      DeliverWord();
      if egc.remain == 0 {
        EgcShift();
      } else {
        if tracked { LoadedStays(e0, egc, b0, bytes); }
        delivered := delivered + 1;
      }
    }

    // ---- pushes -------------------------------------------------------------

    method StorePair(at: int, x: bv8, y: bv8)
      requires Shape() && 0 <= at && at + 1 < 2 * PAD + BUF_BYTES
      modifies buf
      ensures buf[at] == x && buf[at + 1] == y
      ensures forall a | 0 <= a < buf.Length && a != at && a != at + 1 :: buf[a] == old(buf[a])
    {
      buf[at], buf[at + 1] := x, y;
    }

    /** Lay a word of every plane into the buffer, planes four bytes apart. */
    method StoreWord(first: int, lo: seq<bv8>, hi: seq<bv8>)
      requires Shape() && |lo| == 4 && |hi| == 4 && 0 <= first && first + 13 < 2 * PAD + BUF_BYTES
      modifies buf
      ensures forall p | 0 <= p < 4 :: buf[first + 4 * p] == lo[p] && buf[first + 1 + 4 * p] == hi[p]
      ensures forall a | 0 <= a < buf.Length && Kept(a - first) :: buf[a] == old(buf[a])
    {
      StorePair(first, lo[0], hi[0]);
      StorePair(first + 4, lo[1], hi[1]);
      StorePair(first + 8, lo[2], hi[2]);
      StorePair(first + 12, lo[3], hi[3]);
    }

    /** Take the word just stored into the budget, if there is room. */
    method TakeIn()
      requires egc.srcbit < 16 && (egc.func % 2 == 1 <==> egc.Down())
      modifies this`egc
      ensures egc == Pushed(old(egc))
    {
      hide Downward;
      if egc.stack <= 16 {
        var step := if egc.func % 2 == 0 then 1 else -1;
        var out := if egc.srcbit >= 8 then egc.outptr + step else egc.outptr;
        egc := egc.(inptr := egc.inptr + 2 * step, outptr := out);
        egc := egc.(stack := egc.stack + (16 - egc.srcbit), srcbit := 0);
      }
    }

    /** Store a word of every plane and take it into the budget. */
    method LoadWord(lo: seq<bv8>, hi: seq<bv8>)
      requires Valid() && |lo| == 4 && |hi| == 4
      modifies this, buf, srcmask
      ensures Valid() && egc.sft == old(egc.sft) && egc.leng == old(egc.leng)
      ensures srcmask[0] == 0xff && srcmask[1] == 0xff && delivered == old(delivered)
      ensures old(WordRun()) ==>
        && Tracking() && count == old(count) + 1
        && forall p | 0 <= p < 4 ::
          Stream(egc.Down(), bytes[p]) == old(Stream(egc.Down(), bytes[p])) + WordView(egc.Down(), lo[p], hi[p])
    {
      hide Regs.Valid, Regs.Selected, Tracks, Loaded, Stream, WordView, ConfigOf, Downward, Kept, Pushed, Ahead;
      ghost var e0, b0, tracked := egc, buf[..], WordRun();
      StoreBounds(egc);
      PushKeepsBudget(egc);
      var first := if egc.func % 2 == 0 then egc.inptr else egc.inptr - 1;
      StoreWord(first, lo, hi);
      if tracked {
        ghost var now := bytes;
        ghost var more := seq(4,
            p requires 0 <= p < 4 => now[p] + (if e0.Down() then [hi[p], lo[p]] else [lo[p], hi[p]]));
        PushTracks(e0, count, delivered);
        WordRunBounds(e0, count, delivered);
        StoreKeepsLoaded(e0, count, delivered, b0, buf[..], bytes, more);
        forall p | 0 <= p < 4
          ensures Stream(e0.Down(), more[p]) == Stream(e0.Down(), bytes[p]) + WordView(e0.Down(), lo[p], hi[p])
        {
          StreamAppends(e0.Down(), bytes[p], lo[p], hi[p]);
        }
        bytes, count := more, count + 1;
      }
      TakeIn();
      srcmask[0], srcmask[1] := 0xff, 0xff;
    }

    /** Push one word to every plane. */
    method PushWord(lo: seq<bv8>, hi: seq<bv8>)
      requires Valid() && |lo| == 4 && |hi| == 4
      modifies this, buf, src, srcmask
      ensures Valid() && egc.sft == old(egc.sft) && egc.leng == old(egc.leng)
      ensures old(WordRun()) ==>
        WordRun() && forall p | 0 <= p < 4 ::
          View(p) == Funnel.Step(old(View(p)), WordView(egc.Down(), lo[p], hi[p]))
    {
      hide Regs.Valid, Regs.Selected, Tracks, Loaded, Stream, WordView, ConfigOf, Downward, Funnel.NoLine;
      hide Funnel.MaskLine, Funnel.SrcLine;
      LoadWord(lo, hi);
      ShiftWord();
    }

    /** Push one byte to every plane. */
    method PushByte(ext: nat, v: seq<bv8>)
      requires Valid() && ext < 2 && |v| == 4
      modifies this, buf, src, srcmask
      ensures Valid() && egc.sft == old(egc.sft) && egc.leng == old(egc.leng)
      ensures forall p | 0 <= p < 4 :: buf[old(egc.inptr) + 4 * p] == v[p]
      ensures forall a | 0 <= a < buf.Length && KeptByte(a - old(egc.inptr)) :: buf[a] == old(buf[a])
      ensures srcmask[1 - ext] == old(srcmask[1 - ext])
      ensures ByteOut(PushedByte(old(egc)), egc, buf[..], old(src[..]), src[..], ext, srcmask[ext])
    {
      hide ByteOut, KeptByte, PushedByte, Regs.Valid;
      StoreBounds(egc);
      PushKeepsByteBudget(egc);
      StoreByte(egc.inptr, v);
      TakeByte();
      srcmask[ext] := 0xff;
      ghost var b := buf[..];
      assert src[..] == old(src[..]);
      ShiftByte(ext);
      assert buf[..] == b;
    }

    method StoreByte(at: int, v: seq<bv8>)
      requires Shape() && |v| == 4 && 0 <= at && at + 12 < 2 * PAD + BUF_BYTES
      modifies buf
      ensures forall p | 0 <= p < 4 :: buf[at + 4 * p] == v[p]
      ensures forall a | 0 <= a < buf.Length && KeptByte(a - at) :: buf[a] == old(buf[a])
    {
      buf[at], buf[at + 4], buf[at + 8], buf[at + 12] := v[0], v[1], v[2], v[3];
    }

    /** Take the byte just stored into the budget, if there is room. */
    method TakeByte()
      requires egc.func % 2 == 1 <==> egc.Down()
      modifies this`egc
      ensures egc == PushedByte(old(egc))
    {
      hide Downward;
      if egc.stack <= 16 {
        if egc.srcbit >= 8 {
          egc := egc.(srcbit := egc.srcbit - 8);
        } else {
          egc := egc.(stack := egc.stack + (8 - egc.srcbit), srcbit := 0);
        }
        egc := egc.(inptr := if egc.func % 2 == 0 then egc.inptr + 1 else egc.inptr - 1);
      }
    }
  }
}
