/** Whole runs of byte accesses: when they copy, what they copy instead, and when they
    hand on nothing. */
module EgcBytes {
  import opened Bits
  import opened EgcShift
  import opened EgcPipeline
  import opened EgcRuns
  import Funnel

  // ---- the copy by bytes --------------------------------------------------

  /** Lanes taken once `k` bytes of a transfer were pushed, the first `skip` of them
      bringing no bits. A destination bit of eight costs one empty lane, taken with the
      first byte whatever it brings. */
  function Lanes(cfg: Funnel.Config, skip: nat, k: nat): nat {
    if k == 0 then 0
    else if cfg.d == 8 then if skip == 1 && cfg.s > 0 && k > 1 then k - 1 else k
    else if k <= skip then 0
    else if cfg.s > cfg.d then k - skip - 1
    else k - skip
  }

  /** Bits in the budget after `k` bytes, those of the lanes taken included. */
  function Budget(cfg: Funnel.Config, skip: nat, k: nat): int {
    if k <= skip then 0 else 8 * (k - skip) - cfg.s
  }

  /** Bits of the run in the first `n` lanes. */
  function Done(cfg: Funnel.Config, n: nat): int {
    Min(cfg.len, Max(0, 8 * n - cfg.d))
  }

  function Carried(cfg: Funnel.Config, skip: nat, k: nat): int { Done(cfg, Lanes(cfg, skip, k)) }

  /** Lanes of a whole transfer, and bytes pushed for it. */
  function Total(cfg: Funnel.Config): nat { (cfg.d + cfg.len + 7) / 8 }

  function Full(cfg: Funnel.Config, skip: nat): nat {
    if cfg.d == 8 then Total(cfg) + (if skip == 1 && cfg.s > 0 then 1 else 0)
    else Total(cfg) + skip + (if cfg.s > cfg.d then 1 else 0)
  }

  predicate Small(cfg: Funnel.Config, skip: nat) { cfg.s < 8 && cfg.d <= 8 && 1 <= cfg.len <= 4096 && skip <= 1 }

  lemma CarriedFits(cfg: Funnel.Config, skip: nat, k: nat)
    requires Small(cfg, skip) && k <= Full(cfg, skip)
    ensures 0 <= Carried(cfg, skip, k) && (Carried(cfg, skip, k) > 0 ==> cfg.s + Carried(cfg, skip, k) <= 8 * k)
    ensures k > 0 ==> Carried(cfg, skip, k - 1) <= Carried(cfg, skip, k)
    ensures k == Full(cfg, skip) ==> Carried(cfg, skip, k) == cfg.len
    ensures k == 0 ==> Carried(cfg, skip, k) == 0
  {
  }

  /** The plain bit copy over `n` bytes: `len` bits from bit `cfg.s`, then afresh. */
  function ByteCopy(cfg: Funnel.Config, skip: nat, bits: seq<bool>, n: nat): seq<bool>
    requires Small(cfg, skip) && |bits| == 8 * n
    decreases n
  {
    HeadFits(cfg, skip);
    if n < Full(cfg, skip) then
      CarriedFits(cfg, skip, n);
      Funnel.From(bits, cfg.s)[..Carried(cfg, skip, n)]
    else
      bits[cfg.s..cfg.s + cfg.len] + ByteCopy(cfg, skip, bits[8 * Full(cfg, skip)..], n - Full(cfg, skip))
  }

  /** The bits of the transfer in progress. */
  function Current(cfg: Funnel.Config, skip: nat, bits: seq<bool>, n: nat): (cur: seq<bool>)
    requires Small(cfg, skip) && |bits| == 8 * n
    ensures |cur| % 8 == 0 && |cur| / 8 < Full(cfg, skip)
    decreases n
  {
    HeadFits(cfg, skip);
    if n < Full(cfg, skip) then bits
    else Current(cfg, skip, bits[8 * Full(cfg, skip)..], n - Full(cfg, skip))
  }

  lemma HeadFits(cfg: Funnel.Config, skip: nat)
    requires Small(cfg, skip)
    ensures 0 < Full(cfg, skip) && cfg.s + cfg.len <= 8 * Full(cfg, skip)
  {
  }

  /** One byte more hands on the next stretch of the transfer in progress. */
  lemma {:induction false} CopyExtends(cfg: Funnel.Config, skip: nat, bits: seq<bool>, n: nat, w: seq<bool>)
    requires Small(cfg, skip) && |bits| == 8 * n && |w| == 8
    ensures var cur := Current(cfg, skip, bits, n);
      && Stretches(cfg, skip, cur, w)
      && ByteCopy(cfg, skip, bits + w, n + 1) == ByteCopy(cfg, skip, bits, n) + Stretch(cfg, skip, cur, w)
      && Current(cfg, skip, bits + w, n + 1) == if |cur| / 8 + 1 == Full(cfg, skip) then [] else cur + w
    decreases n
  {
    hide Carried, Full, Stretch, Small, Stretches, Current, ByteCopy;
    HeadFits(cfg, skip);
    var full := Full(cfg, skip);
    if n < full {
      CurrentStays(cfg, skip, bits, n);
      StretchFits(cfg, skip, bits, n, w);
      if n + 1 < full {
        StretchInside(cfg, skip, bits, n, w);
        CurrentStays(cfg, skip, bits + w, n + 1);
      } else {
        StretchEnds(cfg, skip, bits, n, w);
      }
    } else {
      var rest := bits[8 * full..];
      CopyExtends(cfg, skip, rest, n - full, w);
      assert (bits + w)[8 * full..] == rest + w;
      CopyWhole(cfg, skip, bits, n, rest);
      CopyWhole(cfg, skip, bits + w, n + 1, rest + w);
      assert (bits + w)[cfg.s..cfg.s + cfg.len] == bits[cfg.s..cfg.s + cfg.len];
    }
  }

  lemma CurrentStays(cfg: Funnel.Config, skip: nat, bits: seq<bool>, n: nat)
    requires Small(cfg, skip) && |bits| == 8 * n && n < Full(cfg, skip)
    ensures Current(cfg, skip, bits, n) == bits
  {
  }

  /** Past a whole transfer the copy starts afresh. */
  lemma CopyWhole(cfg: Funnel.Config, skip: nat, bits: seq<bool>, n: nat, rest: seq<bool>)
    requires Small(cfg, skip) && |bits| == 8 * n && n >= Full(cfg, skip) && rest == bits[8 * Full(cfg, skip)..]
    ensures cfg.s + cfg.len <= |bits|
    ensures ByteCopy(cfg, skip, bits, n)
         == bits[cfg.s..cfg.s + cfg.len] + ByteCopy(cfg, skip, rest, n - Full(cfg, skip))
    ensures Current(cfg, skip, bits, n) == Current(cfg, skip, rest, n - Full(cfg, skip))
  {
    hide Full, Small, Carried, Funnel.From;
    HeadFits(cfg, skip);
  }

  predicate Stretches(cfg: Funnel.Config, skip: nat, cur: seq<bool>, w: seq<bool>) {
    var k := |cur| / 8;
    0 <= Carried(cfg, skip, k) <= Carried(cfg, skip, k + 1) <= |Funnel.From(cur + w, cfg.s)|
  }

  /** What one byte more of a transfer hands on. */
  function Stretch(cfg: Funnel.Config, skip: nat, cur: seq<bool>, w: seq<bool>): seq<bool>
    requires Stretches(cfg, skip, cur, w)
  {
    var k := |cur| / 8;
    Funnel.From(cur + w, cfg.s)[Carried(cfg, skip, k)..Carried(cfg, skip, k + 1)]
  }

  lemma StretchFits(cfg: Funnel.Config, skip: nat, bits: seq<bool>, n: nat, w: seq<bool>)
    requires Small(cfg, skip) && |bits| == 8 * n && |w| == 8 && n < Full(cfg, skip)
    ensures Stretches(cfg, skip, bits, w)
  {
    hide Carried, Full;
    CarriedFits(cfg, skip, n);
    CarriedFits(cfg, skip, n + 1);
  }

  lemma StretchInside(cfg: Funnel.Config, skip: nat, bits: seq<bool>, n: nat, w: seq<bool>)
    requires Small(cfg, skip) && |bits| == 8 * n && |w| == 8 && n + 1 < Full(cfg, skip) && Stretches(cfg, skip, bits, w)
    ensures ByteCopy(cfg, skip, bits + w, n + 1) == ByteCopy(cfg, skip, bits, n) + Stretch(cfg, skip, bits, w)
  {
    hide Carried, Full, ByteCopy, Funnel.From;
    CopiesPart(cfg, skip, bits, n);
    CopiesPart(cfg, skip, bits + w, n + 1);
    Joined(bits, w, cfg.s, Carried(cfg, skip, n), Carried(cfg, skip, n + 1));
  }

  /** A transfer in progress has copied what it carried. */
  lemma CopiesPart(cfg: Funnel.Config, skip: nat, bits: seq<bool>, n: nat)
    requires Small(cfg, skip) && |bits| == 8 * n && n < Full(cfg, skip)
    ensures 0 <= Carried(cfg, skip, n) <= |Funnel.From(bits, cfg.s)|
    ensures ByteCopy(cfg, skip, bits, n) == Funnel.From(bits, cfg.s)[..Carried(cfg, skip, n)]
  {
    hide Carried, Full;
    CarriedFits(cfg, skip, n);
  }

  lemma StretchEnds(cfg: Funnel.Config, skip: nat, bits: seq<bool>, n: nat, w: seq<bool>)
    requires Small(cfg, skip) && |bits| == 8 * n && |w| == 8 && n + 1 == Full(cfg, skip)
    requires Stretches(cfg, skip, bits, w)
    ensures ByteCopy(cfg, skip, bits + w, n + 1) == ByteCopy(cfg, skip, bits, n) + Stretch(cfg, skip, bits, w)
    ensures Current(cfg, skip, bits + w, n + 1) == []
  {
    hide Carried, Full, ByteCopy, Current;
    HeadFits(cfg, skip);
    CopiesPart(cfg, skip, bits, n);
    CarriedFits(cfg, skip, n + 1);
    NothingCopied(cfg, skip);
    assert (bits + w)[8 * (n + 1)..] == [];
    CopyWhole(cfg, skip, bits + w, n + 1, []);
    Joined(bits, w, cfg.s, Carried(cfg, skip, n), Carried(cfg, skip, n + 1));
    assert (bits + w)[cfg.s..cfg.s + cfg.len] == Funnel.From(bits + w, cfg.s)[..cfg.len];
  }

  lemma Joined(bits: seq<bool>, w: seq<bool>, s: nat, a: nat, b: nat)
    requires a <= b <= |Funnel.From(bits + w, s)| && a <= |Funnel.From(bits, s)|
    ensures Funnel.From(bits + w, s)[..b] == Funnel.From(bits, s)[..a] + Funnel.From(bits + w, s)[a..b]
  {
  }

  lemma NothingCopied(cfg: Funnel.Config, skip: nat)
    requires Small(cfg, skip)
    ensures ByteCopy(cfg, skip, [], 0) == [] && Current(cfg, skip, [], 0) == []
  {
    hide Full;
    HeadFits(cfg, skip);
    CarriedFits(cfg, skip, 0);
  }

  // ---- one byte -----------------------------------------------------------

  /** A source bit beyond the first byte costs one access that brings no bits, while
      the output pointer stays where it is. */
  function Skip(e: Regs): nat { if e.Cfg().s >= 8 then 1 else 0 }

  /** The run with the source bit inside the first byte. */
  function LowCfg(e: Regs): Funnel.Config {
    e.Cfg().(s := if e.Cfg().s >= 8 then e.Cfg().s - 8 else e.Cfg().s)
  }

  /** The registers when lane `n` is about to be taken. */
  predicate AtByte(e: Regs, n: nat) {
    var cfg := LowCfg(e);
    && e.Selected() && 8 * n < cfg.d + cfg.len
    && e.remain == cfg.len - Before(cfg, n)
    && e.dstbit == Max(0, cfg.d - 8 * n)
    && e.OutOff() == Source(cfg, n)
  }

  /** The registers once `k` bytes of a transfer were pushed. */
  predicate ByteTracks(e: Regs, k: nat) {
    var cfg, skip := LowCfg(e), Skip(e);
    && Small(cfg, skip) && k < Full(cfg, skip) && AtByte(e, Lanes(cfg, skip, k))
    && e.InOff() == k
    && e.srcbit == (if k == 0 then e.Cfg().s else if k <= skip then cfg.s else 0)
    && e.stack == Budget(cfg, skip, k) - Before(cfg, Lanes(cfg, skip, k))
  }

  lemma ArmedTracksBytes(e: Regs)
    requires e.Armed() && e.Cfg().d <= 8
    ensures ByteTracks(e, 0) && Small(LowCfg(e), Skip(e)) && e.Selected()
  {
    hide Variant, ConfigOf, Downward;
    assert e.Cfg().Valid();
    HeadFits(LowCfg(e), Skip(e));
  }

  /** When the budget reaches the next lane. */
  lemma BudgetReaches(cfg: Funnel.Config, skip: nat, k: nat)
    requires Small(cfg, skip) && k < Full(cfg, skip)
    ensures var n := Lanes(cfg, skip, k);
      && Lanes(cfg, skip, k + 1) == (if Budget(cfg, skip, k + 1) >= Before(cfg, n + 1) then n + 1 else n)
      && Before(cfg, n + 1) == Before(cfg, n) + 8 - Max(0, cfg.d - 8 * n)
      && 0 <= Budget(cfg, skip, k) - Before(cfg, n) <= 8 && Max(0, cfg.d - 8 * n) <= 8
      && (Lanes(cfg, skip, k + 1) == n + 1 ==> 8 * n + 8 + cfg.s - cfg.d <= 8 * (k + 1))
  {
  }

  /** What the budget test asks, and how far the run is: a push whose budget does not
      reach goes on waiting, any other is about to take its lane. */
  lemma PushTracksByte(e: Regs, k: nat)
    requires ByteTracks(e, k)
    ensures var q := PushedByte(e);
      && q.sft == e.sft && q.leng == e.leng && q.OutOff() == e.OutOff() && q.InOff() == k + 1
      && Offered(q, k) && (ByteHeld(q) ==> k + 1 < Full(LowCfg(e), Skip(e)) && ByteTracks(q, k + 1))
  {
    hide Variant, ConfigOf, Downward, Full, Source, Lanes, Before, Budget, Skip, LowCfg, PushedByte;
    var cfg, skip := LowCfg(e), Skip(e);
    PushBudget(e, k);
    BudgetReaches(cfg, skip, k);
    LanesBelowFull(cfg, skip, k);
  }

  /** The registers after a push, before the budget test. */
  predicate Brought(q: Regs, k: nat) {
    var cfg, skip := LowCfg(q), Skip(q);
    && AtByte(q, Lanes(cfg, skip, k)) && q.InOff() == k + 1
    && q.srcbit == (if k + 1 <= skip then cfg.s else 0)
    && q.stack == Budget(cfg, skip, k + 1) - Before(cfg, Lanes(cfg, skip, k))
  }

  lemma PushBudget(e: Regs, k: nat)
    requires ByteTracks(e, k)
    ensures var q := PushedByte(e);
      && LowCfg(q) == LowCfg(e) && Skip(q) == Skip(e) && q.sft == e.sft && q.leng == e.leng
      && q.OutOff() == e.OutOff() && Brought(q, k)
  {
    hide Variant, ConfigOf, Downward, Full, Source, Lanes, Before;
    BudgetReaches(LowCfg(e), Skip(e), k);
  }

  /** A push that is about to take a lane. */
  predicate Delivers(q: Regs, k: nat) {
    var cfg, skip := LowCfg(q), Skip(q);
    && q.dstbit <= 8 && q.stack >= 8 - q.dstbit && Brought(q, k)
    && Lanes(cfg, skip, k + 1) == Lanes(cfg, skip, k) + 1
    && q.stack - (8 - q.dstbit) == Budget(cfg, skip, k + 1) - Before(cfg, Lanes(cfg, skip, k + 1))
    && 8 * Lanes(cfg, skip, k) + 8 + cfg.s - cfg.d <= 8 * (k + 1)
  }

  /** What a push made of the budget. */
  predicate Offered(q: Regs, k: nat) {
    var cfg, skip := LowCfg(q), Skip(q);
    && Small(cfg, skip) && k < Full(cfg, skip) && q.OutOff() >= 0
    && (ByteHeld(q) <==> Lanes(cfg, skip, k + 1) == Lanes(cfg, skip, k))
    && (!ByteHeld(q) ==> Delivers(q, k))
  }

  lemma LanesBelowFull(cfg: Funnel.Config, skip: nat, k: nat)
    requires Small(cfg, skip) && k < Full(cfg, skip)
    ensures Lanes(cfg, skip, k + 1) == Lanes(cfg, skip, k) ==> k + 1 < Full(cfg, skip)
    ensures 8 * Lanes(cfg, skip, k) < cfg.d + cfg.len
    ensures 8 * Lanes(cfg, skip, k + 1) < cfg.d + cfg.len <==> k + 1 < Full(cfg, skip)
  {
  }

  /** The registers as the lane is taken. */
  function Paid(q: Regs): Regs
    requires q.dstbit <= 8 && q.stack >= 8 - q.dstbit
  {
    q.(stack := q.stack - (8 - q.dstbit))
  }

  /** Past the lane the run goes on, or its last byte is out. */
  lemma LaneTracksByte(q: Regs, k: nat)
    requires Delivers(q, k) && Small(LowCfg(q), Skip(q)) && k < Full(LowCfg(q), Skip(q))
    ensures var f := AfterLane(Paid(q));
      && (f.remain == 0 <==> k + 1 == Full(LowCfg(q), Skip(q)))
      && (f.remain > 0 ==> ByteTracks(f, k + 1))
      && f.sft == q.sft && f.OutOff() >= q.OutOff() >= 0
  {
    hide ConfigOf, Downward, Full, Lanes, Variant, Source, Budget;
    var cfg, skip := LowCfg(q), Skip(q);
    LanesBelowFull(cfg, skip, k);
    KindIs(q);
    SmallSource(cfg, Lanes(cfg, skip, k));
  }

  lemma KindIs(q: Regs)
    requires q.Selected() && Small(LowCfg(q), Skip(q))
    ensures q.Kind() == 2 <==> LowCfg(q).s < LowCfg(q).d < 8
  {
    hide ConfigOf, Downward;
    assert q.Cfg().Valid();
    SmallOffset(q.Cfg().s);
    SmallOffset(q.Cfg().d);
  }

  lemma SmallSource(cfg: Funnel.Config, n: nat)
    requires Small(cfg, 0)
    ensures 0 <= Source(cfg, n)
    ensures Source(cfg, n + 1) == Source(cfg, n) + (if cfg.s < cfg.d && 8 * n < cfg.d then 0 else 1)
  {
    SmallOffset(cfg.s);
    SmallOffset(cfg.d);
    SourceAdvances(cfg, n);
  }

  lemma SmallOffset(s: nat)
    requires s < 16
    ensures s % 8 == if s >= 8 then s - 8 else s
    ensures s >= 8 ==> (s - 8) % 8 == s % 8
  {
  }

  lemma OffsetsLow(sft: nat)
    requires SrcOffset(sft) >= 8
    ensures SrcOffset(sft - 8) == SrcOffset(sft) - 8
    ensures DstOffset(sft - 8) == DstOffset(sft) && Downward(sft - 8) == Downward(sft)
  {
    var q, r := sft / 16, sft % 16;
    assert sft - 8 == 16 * q + (r - 8);
    assert (sft - 8) / 16 == q && (sft - 8) % 16 == r - 8;
    assert sft / 4096 == q / 256 && (sft - 8) / 4096 == q / 256 by {
      assert q == 256 * (q / 256) + q % 256;
    }
  }

  /** The registers with the source bit inside the first byte show the same lane. */
  function Low(e: Regs): Regs {
    if e.Cfg().s >= 8 then e.(sft := e.sft - 8) else e
  }

  lemma LowIsLane(e: Regs, n: nat, buf: seq<bv8>, p: nat, m: bv8)
    requires AtByte(e, n) && LaneReady(e) && |buf| == 2 * PAD + BUF_BYTES && p < 4
    ensures var low := Low(e);
      && AtLane(low, n) && LaneReady(low) && low.Cfg() == LowCfg(e)
      && low.Down() == e.Down() && low.OutOff() == e.OutOff()
      && LaneByte(low, buf, p) == LaneByte(e, buf, p) && LaneMask(low, m) == LaneMask(e, m)
  {
    hide Pick, Enables, SrcOffset, DstOffset, Downward, Source, Before;
    SmallOffset(e.Cfg().s);
    if e.Cfg().s >= 8 { OffsetsLow(e.sft); }
  }

  /** A byte in scan order. */
  function ByteView(down: bool, b: bv8): (v: seq<bool>)
    ensures |v| == 8
  {
    seq(8, x requires 0 <= x < 8 => Bit(down, b, x))
  }

  lemma WindowStretch(down: bool, cfg: Funnel.Config, bits: seq<bool>, n: nat, m: bv8, b: bv8, prev: bv8)
    requires Small(cfg, 0) && 8 * n < cfg.d + cfg.len && 8 * n + 8 + cfg.s - cfg.d <= |bits|
    requires LaneShows(down, cfg, bits, n, m, b, prev)
    ensures 0 <= Done(cfg, n) <= Done(cfg, n + 1) <= |Funnel.From(bits, cfg.s)|
    ensures 0 <= Max(0, cfg.d - 8 * n) <= Min(8, cfg.d + cfg.len - 8 * n) <= 8
    ensures ByteView(down, b)[Max(0, cfg.d - 8 * n)..Min(8, cfg.d + cfg.len - 8 * n)]
        == Funnel.From(bits, cfg.s)[Done(cfg, n)..Done(cfg, n + 1)]
  {
    hide Bit, Funnel.SourceBit, Funnel.Touched, Funnel.From;
    var lo, hi := Max(0, cfg.d - 8 * n), Min(8, cfg.d + cfg.len - 8 * n);
    FromLasts(cfg, bits, n);
    var line, want := ByteView(down, b), Funnel.From(bits, cfg.s)[Done(cfg, n)..Done(cfg, n + 1)];
    forall j | 0 <= j < hi - lo ensures line[lo..hi][j] == want[j] {
      BitInPlace(cfg, bits, n, lo + j);
    }
    assert line[lo..hi] == want;
  }

  lemma FromLasts(cfg: Funnel.Config, bits: seq<bool>, n: nat)
    requires Small(cfg, 0) && 8 * n < cfg.d + cfg.len && 8 * n + 8 + cfg.s - cfg.d <= |bits|
    ensures 0 <= Done(cfg, n) <= Done(cfg, n + 1) <= |Funnel.From(bits, cfg.s)|
  {
  }

  /** A lane that shows its window hands on its stretch of the run. */
  lemma WindowEmits(down: bool, cfg: Funnel.Config, bits: seq<bool>, n: nat, m: bv8, b: bv8, prev: bv8)
    requires Small(cfg, 0) && 8 * n < cfg.d + cfg.len && 8 * n + 8 + cfg.s - cfg.d <= |bits|
    requires LaneShows(down, cfg, bits, n, m, b, prev)
    ensures 0 <= Done(cfg, n) <= Done(cfg, n + 1) <= |Funnel.From(bits, cfg.s)|
    ensures Funnel.Enabled(ByteView(down, b), ByteView(down, m))
        == Funnel.From(bits, cfg.s)[Done(cfg, n)..Done(cfg, n + 1)]
  {
    hide Bit, Funnel.SourceBit, Funnel.Touched, Funnel.From, Funnel.Enabled, Done;
    WindowStretch(down, cfg, bits, n, m, b, prev);
    var lo, hi := Max(0, cfg.d - 8 * n), Min(8, cfg.d + cfg.len - 8 * n);
    Funnel.EnabledInterval(ByteView(down, b), ByteView(down, m), lo, hi);
  }

  lemma BitInPlace(cfg: Funnel.Config, bits: seq<bool>, n: nat, x: nat)
    requires Small(cfg, 0) && 8 * n < cfg.d + cfg.len && 8 * n + 8 + cfg.s - cfg.d <= |bits|
    requires Max(0, cfg.d - 8 * n) <= x < Min(8, cfg.d + cfg.len - 8 * n)
    ensures Funnel.Touched(cfg, n)
    ensures var at := Done(cfg, n) + x - Max(0, cfg.d - 8 * n);
      0 <= at < |Funnel.From(bits, cfg.s)| && Funnel.SourceBit(cfg, bits, 8 * n + x) == Funnel.From(bits, cfg.s)[at]
  {
  }

  lemma NothingEnabled(down: bool, b: bv8)
    ensures Funnel.Enabled(ByteView(down, b), ByteView(down, 0)) == []
  {
    forall q | 0 <= q < 8 ensures !ByteView(down, 0)[q] { NoBits(down, q); }
    Funnel.EnabledInterval(ByteView(down, b), ByteView(down, 0), 0, 0);
  }

  // ---- whole runs ---------------------------------------------------------

  /** The bytes of the transfer in progress, plane by plane, and the buffer that still
      holds those each plane needs. */
  ghost predicate Held(e: Regs, buf: seq<bv8>, bytes: seq<seq<bv8>>, k: nat) {
    && |buf| == 2 * PAD + BUF_BYTES && |bytes| == 4 && (forall p | 0 <= p < 4 :: |bytes[p]| == k)
    && Loaded(e, buf, bytes)
  }

  /** How far the output pointer may lag behind. */
  lemma LagsLittle(e: Regs, k: nat)
    requires ByteTracks(e, k)
    ensures e.InOff() == k && 0 <= e.OutOff() <= k && k - e.OutOff() <= 3 && k < 600
    ensures e.inptr == At(e.Down(), k)
  {
    hide Variant, ConfigOf, Downward;
    assert e.Cfg().Valid();
    SmallSource(LowCfg(e), Lanes(LowCfg(e), Skip(e), k));
  }

  /** Storing the next byte of every plane leaves the bytes the planes still need. */
  lemma ByteStoreKeeps(e: Regs, k: nat, before: seq<bv8>, after: seq<bv8>, bytes: seq<seq<bv8>>, v: seq<bv8>,
                       more: seq<seq<bv8>>)
    requires ByteTracks(e, k) && Held(e, before, bytes, k) && |v| == 4 && |after| == |before|
    requires |more| == 4 && forall p | 0 <= p < 4 :: more[p] == bytes[p] + [v[p]]
    requires forall p | 0 <= p < 4 :: 0 <= e.inptr + 4 * p < |after| && after[e.inptr + 4 * p] == v[p]
    requires forall a | 0 <= a < |after| && KeptByte(a - e.inptr) :: after[a] == before[a]
    ensures Held(PushedByte(e), after, more, k + 1)
  {
    hide ByteTracks, Downward, At, KeptByte, Offered;
    LagsLittle(e, k);
    PushTracksByte(e, k);
    var q, down, out := PushedByte(e), e.Down(), e.OutOff();
    assert q.Down() == down && q.OutOff() == out && 0 <= out;
    hide Regs.OutOff, Regs.InOff, PushedByte, Regs.Down, Held, PlaneLoaded;
    forall p | 0 <= p < 4
      ensures |more[p]| == k + 1 && PlaneLoaded(down, out, after, more[p], p)
    {
      PlaneHeld(e, before, bytes, k, p);
      PlaneStoreKeeps(down, out, k, e.inptr, before, after, bytes[p], v[p], p);
    }
    PlaneHeld(e, before, bytes, k, 0);
    PlanesHeld(q, after, more, k + 1);
  }

  lemma PlaneHeld(e: Regs, buf: seq<bv8>, bytes: seq<seq<bv8>>, k: nat, p: nat)
    requires Held(e, buf, bytes, k) && p < 4 && e.OutOff() >= 0
    ensures |buf| == 2 * PAD + BUF_BYTES && |bytes| == 4 && |bytes[p]| == k
    ensures PlaneLoaded(e.Down(), e.OutOff(), buf, bytes[p], p)
  {
  }

  lemma PlanesHeld(e: Regs, buf: seq<bv8>, bytes: seq<seq<bv8>>, k: nat)
    requires |buf| == 2 * PAD + BUF_BYTES && |bytes| == 4 && e.OutOff() >= 0
    requires forall p | 0 <= p < 4 :: |bytes[p]| == k && PlaneLoaded(e.Down(), e.OutOff(), buf, bytes[p], p)
    ensures Held(e, buf, bytes, k)
  {
    hide Regs.OutOff, Regs.Down;
    forall p, i | 0 <= p < 4 && 0 <= e.OutOff() <= i < |bytes[p]|
      ensures 0 <= At(e.Down(), i) + 4 * p < |buf| && buf[At(e.Down(), i) + 4 * p] == bytes[p][i]
    {
      assert PlaneLoaded(e.Down(), e.OutOff(), buf, bytes[p], p);
    }
  }

  /** One plane's bytes from `out` on are in the buffer. */
  predicate PlaneLoaded(down: bool, out: nat, buf: seq<bv8>, b: seq<bv8>, p: nat) {
    forall i | out <= i < |b| :: 0 <= At(down, i) + 4 * p < |buf| && buf[At(down, i) + 4 * p] == b[i]
  }

  lemma PlaneStoreKeeps(down: bool, out: nat, k: nat, at: int, before: seq<bv8>, after: seq<bv8>, b: seq<bv8>, x: bv8,
            p: nat)
    requires |b| == k && k - 3 <= out && p < 4 && at == At(down, k)
    requires |after| == |before| && PlaneLoaded(down, out, before, b, p)
    requires 0 <= at + 4 * p < |after| && after[at + 4 * p] == x
    requires forall a | 0 <= a < |after| && KeptByte(a - at) :: after[a] == before[a]
    ensures PlaneLoaded(down, out, after, b + [x], p)
  {
    hide KeptByte;
    forall i | out <= i < k + 1
      ensures 0 <= At(down, i) + 4 * p < |after| && after[At(down, i) + 4 * p] == (b + [x])[i]
    {
      if i < k { BytesApart(down, k, i, p); }
    }
  }

  lemma BytesApart(down: bool, k: nat, i: nat, p: nat)
    requires k - 3 <= i < k && p < 4
    ensures KeptByte(At(down, i) + 4 * p - At(down, k))
  {
  }

  /** What plane `p` is handed by a push: the enabled bits of the lane it went to. */
  ghost function Handed(e: Regs, src: seq<bv8>, p: nat, ext: nat, m: bv8): seq<bool>
    requires |src| == 8 && p < 4 && ext < 2
  {
    Funnel.Enabled(ByteView(e.Down(), src[2 * p + ext]), ByteView(e.Down(), m))
  }

  lemma PushHands(q: Regs, k: nat, f: Regs, buf: seq<bv8>, before: seq<bv8>, after: seq<bv8>, ext: nat, m: bv8,
                  bytes: seq<seq<bv8>>, p: nat, cur: seq<bool>, w: seq<bool>)
    requires p < 4 && ext < 2 && |before| == |after| == 8
    requires Held(q, buf, bytes, k + 1) && ByteOut(q, f, buf, before, after, ext, m)
    requires Offered(q, k) && |cur| == 8 * k && cur + w == Stream(q.Down(), bytes[p])
    requires Stretches(LowCfg(q), Skip(q), cur, w)
    ensures Handed(q, after, p, ext, m) == Stretch(LowCfg(q), Skip(q), cur, w)
  {
    hide Stream, Regs.Selected, LaneReady, LaneMask, LanePlane, LaneByte, ByteView, AfterLane, Loaded, LaneShows;
    hide Full, Lanes, ConfigOf, Downward;
    hide LowCfg, Done, Delivers, Held;
    var c := LowCfg(q);
    if ByteHeld(q) {
      NothingEnabled(q.Down(), after[2 * p + ext]);
    } else {
      var n := LaneOf(q, k);
      LaneHands(q, k, n, f, buf, before, after, ext, m, bytes, p);
      WindowEmits(q.Down(), c, cur + w, n, m, after[2 * p + ext], before[2 * p + ext]);
    }
  }

  /** The lane a push takes. */
  function LaneOf(q: Regs, k: nat): (n: nat)
    requires Delivers(q, k)
    ensures n == Lanes(LowCfg(q), Skip(q), k) && n + 1 == Lanes(LowCfg(q), Skip(q), k + 1)
  {
    Lanes(LowCfg(q), Skip(q), k)
  }

  lemma LaneHands(q: Regs, k: nat, n: nat, f: Regs, buf: seq<bv8>, before: seq<bv8>, after: seq<bv8>, ext: nat, m: bv8,
                  bytes: seq<seq<bv8>>, p: nat)
    requires p < 4 && ext < 2 && |before| == |after| == 8
    requires Held(q, buf, bytes, k + 1) && ByteOut(q, f, buf, before, after, ext, m)
    requires Small(LowCfg(q), Skip(q)) && !ByteHeld(q) && Delivers(q, k) && q.OutOff() >= 0
    requires n == Lanes(LowCfg(q), Skip(q), k)
    ensures LaneShows(q.Down(), LowCfg(q), Stream(q.Down(), bytes[p]), n, m, after[2 * p + ext], before[2 * p + ext])
    ensures 8 * n < LowCfg(q).d + LowCfg(q).len && 8 * n + 8 + LowCfg(q).s - LowCfg(q).d <= 8 * |bytes[p]|
  {
    hide Stream, LaneByte, LaneMask, LaneShows, Lanes, Variant, Source, Before, ConfigOf, Downward;
    var e0 := Paid(q);
    assert AtByte(e0, n) && LaneReady(e0);
    LowIsLane(e0, n, buf, p, m);
    assert Loaded(Low(e0), buf, bytes);
    assert LanePlane(e0, buf, before, after, ext, p);
    LaneIsWindow(Low(e0), n, buf, bytes, p, m, after[2 * p + ext], before[2 * p + ext]);
  }

  /** After a push the registers and the buffer track one byte more, or the transfer
      is over and the pipeline armed. */
  lemma PushSettles(q: Regs, k: nat, f: Regs, buf: seq<bv8>, before: seq<bv8>, after: seq<bv8>, ext: nat, m: bv8,
            bytes: seq<seq<bv8>>)
    requires ext < 2 && |before| == |after| == 8
    requires Held(q, buf, bytes, k + 1) && ByteOut(q, f, buf, before, after, ext, m)
    requires Offered(q, k) && (ByteHeld(q) ==> k + 1 < Full(LowCfg(q), Skip(q)) && ByteTracks(q, k + 1))
    ensures if k + 1 == Full(LowCfg(q), Skip(q)) then f.Armed()
            else ByteTracks(f, k + 1) && Held(f, buf, bytes, k + 1)
  {
    hide LaneReady, LaneMask, LanePlane, AfterLane, Loaded, Full, Lanes, ConfigOf, Downward, LowCfg, Delivers;
    hide Regs.Armed, ByteTracks;
    if !ByteHeld(q) {
      LaneTracksByte(q, k);
      if f.remain > 0 && f == AfterLane(Paid(q)) { LoadedStays(q, f, buf, bytes); }
    }
  }

  /** One byte for each plane, and the byte of the word it goes to. */
  datatype ByteAccess = ByteAccess(ext: nat, v: Quad)

  /** What plane `p` is fed. */
  ghost function Fed(vs: seq<ByteAccess>, p: nat): (bytes: seq<bv8>)
    requires p < 4
    ensures |bytes| == |vs|
  {
    seq(|vs|, i requires 0 <= i < |vs| => vs[i].v[p])
  }

  lemma FedMore(down: bool, bytes: seq<bv8>, b: bv8)
    ensures Stream(down, bytes + [b]) == Stream(down, bytes) + ByteView(down, b)
  {
    hide Bit;
  }

  /** One byte access of a run: what it brought the registers to, and what came out. */
  method OneByte(pipe: Pipeline, ext: nat, v: Quad, ghost k: nat, ghost bytes: seq<seq<bv8>>)
      returns (ghost more: seq<seq<bv8>>)
    requires pipe.Valid() && ext < 2 && ByteTracks(pipe.egc, k) && Held(pipe.egc, pipe.buf[..], bytes, k)
    modifies pipe, pipe.buf, pipe.src, pipe.srcmask
    ensures pipe.Valid() && pipe.egc.sft == old(pipe.egc.sft) && pipe.egc.leng == old(pipe.egc.leng)
    ensures |more| == 4 && forall p | 0 <= p < 4 :: more[p] == bytes[p] + [v[p]]
    ensures Held(PushedByte(old(pipe.egc)), pipe.buf[..], more, k + 1)
    ensures ByteOut(PushedByte(old(pipe.egc)), pipe.egc, pipe.buf[..], old(pipe.src[..]), pipe.src[..], ext,
        pipe.srcmask[ext])
  {
    hide ByteTracks, ByteOut, PushedByte, Regs.Valid, KeptByte, Loaded;
    ghost var e, b0 := pipe.egc, pipe.buf[..];
    more := seq(4, p requires 0 <= p < 4 && |bytes| == 4 => bytes[p] + [v[p]]);
    StoreBounds(e);
    pipe.PushByte(ext, v);
    ByteStoreKeeps(e, k, b0, pipe.buf[..], bytes, v, more);
  }

  /** What a run of byte accesses hands on: beyond a destination bit of eight nothing,
      otherwise the plain bit copy from the source bit on if that is below eight and,
      the output pointer not skipping a byte, from eight bits before it if not. */
  function ByteOutput(cfg: Funnel.Config, bits: seq<bool>, n: nat): seq<bool>
    requires cfg.Valid() && |bits| == 8 * n
  {
    if cfg.d > 8 then [] else ByteCopy(cfg.(s := cfg.s % 8), if cfg.s >= 8 then 1 else 0, bits, n)
  }

  /** Every run of byte accesses from an armed pipeline, over however many transfers,
      with any two offsets, in either direction and whichever bytes the accesses go to,
      hands each plane exactly that. */
  method RunBytes(pipe: Pipeline, vs: seq<ByteAccess>, ghost p: nat) returns (ghost out: seq<bool>)
    requires pipe.Valid() && pipe.egc.Armed() && p < 4
    requires forall i | 0 <= i < |vs| :: vs[i].ext < 2
    modifies pipe, pipe.buf, pipe.src, pipe.srcmask
    ensures pipe.Valid()
    ensures out == ByteOutput(old(pipe.egc).Cfg(), Stream(old(pipe.egc).Down(), Fed(vs, p)), |vs|)
  {
    hide Regs.Valid, Regs.Selected, ConfigOf, Downward, ByteCopy, Stream;
    ghost var e := pipe.egc;
    if pipe.egc.dstbit > 8 {
      out := SilentBytes(pipe, vs, p);
    } else {
      CfgIsLow(e);
      out := CopiedBytes(pipe, vs, p);
    }
  }

  /** And of the registers as they are written: after any values of the two. */
  method ByteAccesses(pipe: Pipeline, vs: seq<ByteAccess>, sft: nat, leng: nat, ghost s: nat, ghost d: nat,
                      ghost down: bool, ghost n: nat, ghost low: nat, ghost high: nat, ghost top: nat, ghost p: nat)
      returns (ghost out: seq<bool>)
    requires pipe.Valid() && s < 16 && d < 16 && low < 16 && high < 8 && n < 0x1000 && top < 16 && p < 4
    requires sft == SftValue(s, d, down, low, high) && leng == LengValue(n, top)
    requires forall i | 0 <= i < |vs| :: vs[i].ext < 2
    modifies pipe, pipe.buf, pipe.src, pipe.srcmask
    ensures pipe.Valid()
    ensures out == ByteOutput(Funnel.Config(s, d, n + 1), Stream(down, Fed(vs, p)), |vs|)
  {
    hide Regs.Valid, Regs.Armed, SftValue, LengValue, ByteOutput, Stream;
    Program(pipe, s, d, down, n, sft, leng, low, high, top);
    out := RunBytes(pipe, vs, p);
  }

  /** The same with a destination bit of at most eight. */
  method CopiedBytes(pipe: Pipeline, vs: seq<ByteAccess>, ghost p: nat) returns (ghost out: seq<bool>)
    requires pipe.Valid() && pipe.egc.Armed() && pipe.egc.Cfg().d <= 8 && p < 4
    requires forall i | 0 <= i < |vs| :: vs[i].ext < 2
    modifies pipe, pipe.buf, pipe.src, pipe.srcmask
    ensures pipe.Valid() && Small(LowCfg(old(pipe.egc)), Skip(old(pipe.egc)))
    ensures out == ByteCopy(LowCfg(old(pipe.egc)), Skip(old(pipe.egc)), Stream(old(pipe.egc).Down(), Fed(vs, p)), |vs|)
  {
    hide ByteTracks, Held, Offered, ByteOut, PushedByte, Stretches, Stretch, Stream, Full, Regs.Valid, Regs.Armed;
    hide Current, ByteCopy, ByteView;
    hide Funnel.Enabled, ConfigOf, Downward, Small, Regs.Selected;
    ghost var e0 := pipe.egc;
    ghost var cfg, skip, down := LowCfg(e0), Skip(e0), e0.Down();
    ArmedTracksBytes(e0);
    ghost var bytes: seq<seq<bv8>> := [[], [], [], []];
    ghost var k, fed := 0, [];
    out := [];
    NothingYet(e0, pipe.buf[..], bytes);
    NothingCopied(cfg, skip);
    assert Fed(vs, p)[..0] == [];
    for n := 0 to |vs|
      invariant pipe.Valid() && pipe.egc.Down() == down && LowCfg(pipe.egc) == cfg && Skip(pipe.egc) == skip
      invariant fed == Fed(vs, p)[..n] && |Stream(down, fed)| == 8 * n
      invariant ByteTracks(pipe.egc, k) && Held(pipe.egc, pipe.buf[..], bytes, k)
      invariant |bytes| == 4 && Stream(down, bytes[p]) == Current(cfg, skip, Stream(down, fed), n)
      invariant |Stream(down, bytes[p])| == 8 * k
      invariant out == ByteCopy(cfg, skip, Stream(down, fed), n)
    {
      ghost var e, s0, b := pipe.egc, pipe.src[..], vs[n].v[p];
      ghost var cur, w, q := Stream(down, bytes[p]), ByteView(down, b), PushedByte(e);
      PushTracksByte(e, k);
      CopyExtends(cfg, skip, Stream(down, fed), n, w);
      FedMore(down, fed, b);
      FedMore(down, bytes[p], b);
      assert fed + [b] == Fed(vs, p)[..n + 1];
      ghost var more := OneByte(pipe, vs[n].ext, vs[n].v, k, bytes);
      PushHands(q, k, pipe.egc, pipe.buf[..], s0, pipe.src[..], vs[n].ext, pipe.srcmask[vs[n].ext], more, p, cur, w);
      PushSettles(q, k, pipe.egc, pipe.buf[..], s0, pipe.src[..], vs[n].ext, pipe.srcmask[vs[n].ext], more);
      out := out + Handed(q, pipe.src[..], p, vs[n].ext, pipe.srcmask[vs[n].ext]);
      fed := fed + [b];
      if k + 1 == Full(cfg, skip) {
        k, bytes := 0, [[], [], [], []];
        ArmedTracksBytes(pipe.egc);
        NothingYet(pipe.egc, pipe.buf[..], bytes);
      } else {
        k, bytes := k + 1, more;
      }
    }
    assert Fed(vs, p)[..|vs|] == Fed(vs, p);
  }

  lemma CfgIsLow(e: Regs)
    requires e.Selected()
    ensures LowCfg(e) == e.Cfg().(s := e.Cfg().s % 8)
  {
    hide ConfigOf;
    assert e.Cfg().Valid();
    SmallOffset(e.Cfg().s);
  }

  lemma NothingYet(e: Regs, buf: seq<bv8>, bytes: seq<seq<bv8>>)
    requires |buf| == 2 * PAD + BUF_BYTES && bytes == [[], [], [], []]
    ensures Held(e, buf, bytes, 0)
    ensures forall down, p | 0 <= p < 4 :: Stream(down, bytes[p]) == []
  {
  }

  /** The bytes pushed for a whole transfer. */
  function Pushes(cfg: Funnel.Config): nat
    requires cfg.Valid() && cfg.d <= 8
  {
    Full(cfg.(s := cfg.s % 8), if cfg.s >= 8 then 1 else 0)
  }

  /** Whether bytes copy, over all offsets: what a whole transfer hands on is the run if
      and only if the destination bit is at most eight and the source bit below eight, or
      the data repeats after eight bits. With a destination bit beyond eight no number
      of bytes hands on anything. */
  lemma WholeTransfer(cfg: Funnel.Config, bits: seq<bool>, n: nat)
    requires cfg.Valid() && |bits| == 8 * n && (if cfg.d <= 8 then n == Pushes(cfg) else cfg.s + cfg.len <= 8 * n)
    ensures cfg.s + cfg.len <= |bits|
    ensures ByteOutput(cfg, bits, n) == bits[cfg.s..cfg.s + cfg.len] <==>
      cfg.d <= 8 && (cfg.s < 8 || forall x | cfg.s <= x < cfg.s + cfg.len :: bits[x - 8] == bits[x])
  {
    if cfg.d <= 8 { WholeCopies(cfg, bits, n); }
  }

  lemma WholeCopies(cfg: Funnel.Config, bits: seq<bool>, n: nat)
    requires cfg.Valid() && cfg.d <= 8 && |bits| == 8 * n && n == Pushes(cfg)
    ensures cfg.s + cfg.len <= |bits|
    ensures ByteOutput(cfg, bits, n) == bits[cfg.s..cfg.s + cfg.len] <==>
      cfg.s < 8 || forall x | cfg.s <= x < cfg.s + cfg.len :: bits[x - 8] == bits[x]
  {
    var low, skip := cfg.(s := cfg.s % 8), if cfg.s >= 8 then 1 else 0;
    SmallOffset(cfg.s);
    WholeFits(cfg);
    hide Full, ByteCopy;
    NothingCopied(low, skip);
    assert bits[8 * n..] == [];
    CopyWhole(low, skip, bits, n, []);
    var got, want := bits[low.s..low.s + low.len], bits[cfg.s..cfg.s + cfg.len];
    assert ByteOutput(cfg, bits, n) == got;
    if cfg.s >= 8 {
      assert forall j | 0 <= j < cfg.len :: got[j] == bits[cfg.s + j - 8] && want[j] == bits[cfg.s + j];
      if got == want {
        forall x | cfg.s <= x < cfg.s + cfg.len ensures bits[x - 8] == bits[x] {
          assert got[x - cfg.s] == want[x - cfg.s];
        }
      }
    }
  }

  lemma WholeFits(cfg: Funnel.Config)
    requires cfg.Valid() && cfg.d <= 8
    ensures cfg.s + cfg.len <= 8 * Pushes(cfg)
  {
    SmallOffset(cfg.s);
  }

  /** A destination bit beyond eight silences every run of byte accesses: no bit is
      ever enabled, the latch never changes and the bit never comes nearer. */
  method SilentBytes(pipe: Pipeline, vs: seq<ByteAccess>, ghost p: nat) returns (ghost out: seq<bool>)
    requires pipe.Valid() && pipe.egc.dstbit > 8 && p < 4
    requires forall i | 0 <= i < |vs| :: vs[i].ext < 2
    modifies pipe, pipe.buf, pipe.src, pipe.srcmask
    ensures pipe.Valid() && pipe.egc.dstbit == old(pipe.egc.dstbit) && pipe.egc.remain == old(pipe.egc.remain)
    ensures out == [] && pipe.src[..] == old(pipe.src[..])
  {
    hide Regs.Valid, ByteView, LaneReady, LaneMask, LanePlane, Funnel.Enabled;
    out := [];
    for n := 0 to |vs|
      invariant pipe.Valid() && pipe.egc.dstbit == old(pipe.egc.dstbit) && pipe.egc.remain == old(pipe.egc.remain)
      invariant out == [] && pipe.src[..] == old(pipe.src[..])
    {
      ghost var e, s0 := pipe.egc, pipe.src[..];
      pipe.PushByte(vs[n].ext, vs[n].v);
      NothingEnabled(e.Down(), pipe.src[2 * p + vs[n].ext]);
      out := out + Handed(e, pipe.src[..], p, vs[n].ext, pipe.srcmask[vs[n].ext]);
    }
  }
}
