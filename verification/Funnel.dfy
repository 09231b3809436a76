/** What the EGC shift pipeline is for: copying a run of `len` bits that starts
    `s` bits into the pushed words to a place `d` bits into the delivered ones.
    Everything here is one plane in scan order, so one description serves all
    four planes and both directions. */
module Funnel {

  /** The source and destination bit offsets and the run length of a transfer. */
  datatype Config = Config(s: nat, d: nat, len: nat) {
    predicate Valid() {
      s < 16 && d < 16 && 1 <= len <= 4096
    }

    /** Words that must be pushed before `n` words can be delivered. */
    function Needed(n: nat): nat {
      if n > 0 && s > d then n + 1 else n
    }

    /** Words delivered by a whole transfer, and words pushed for it. */
    function Words(): nat {
      (d + len + 15) / 16
    }

    function Full(): nat {
      Needed(Words())
    }

    /** Bits of the run delivered with the first `n` words. */
    function Done(n: nat): nat {
      if 16 * n <= d then 0 else if 16 * n - d <= len then 16 * n - d else len
    }

    /** Bits of the run delivered once `k` words have been pushed. */
    function Carried(k: nat): nat {
      Done(if s > d && k > 0 then k - 1 else k)
    }
  }

  /** A transfer in progress: the number of words pushed so far and their bits,
      the words delivered so far, and the word last delivered with its mask. */
  datatype State = State(cfg: Config, count: nat, pushed: seq<bool>, delivered: nat, src: seq<bool>, mask: seq<bool>) {

    predicate Valid() {
      && cfg.Valid()
      && |pushed| == 16 * count
      && |src| == 16 && |mask| == 16
      && delivered < cfg.Words()
      && cfg.Needed(delivered) <= count < cfg.Needed(delivered + 1)
    }

    /** No transfer in progress: the state a register write leaves behind. */
    predicate Armed() {
      count == 0 && delivered == 0 && pushed == []
    }
  }

  /** The source bit for destination bit `y`. Bits in front of the first source
      byte in use read as clear; the mask never enables them. */
  function SourceBit(cfg: Config, plane: seq<bool>, y: nat): bool {
    var t := y + cfg.s - cfg.d;
    8 * (cfg.s / 8) <= t < |plane| && plane[t]
  }

  /** Destination bytes touched by the transfer. */
  predicate Touched(cfg: Config, byte: nat) {
    8 * byte + 8 > cfg.d && 8 * byte < cfg.d + cfg.len
  }

  function MaskLine(cfg: Config, j: nat): (m: seq<bool>)
    ensures |m| == 16
  {
    seq(16, x requires 0 <= x < 16 => cfg.d <= 16 * j + x < cfg.d + cfg.len)
  }

  function NoLine(): (m: seq<bool>)
    ensures |m| == 16
  {
    seq(16, _ => false)
  }

  function SrcLine(cfg: Config, plane: seq<bool>, j: nat, before: seq<bool>): (r: seq<bool>)
    requires |before| == 16
    ensures |r| == 16
  {
    seq(16, x requires 0 <= x < 16 =>
      if Touched(cfg, 2 * j + x / 8) then SourceBit(cfg, plane, 16 * j + x) else before[x])
  }

  /** Deliver the next word if its source bits are all there, and fall back to
      the armed state once the whole run is out. */
  function Settle(cfg: Config, k: nat, all: seq<bool>, j: nat, src: seq<bool>): State
    requires |src| == 16
  {
    if k < cfg.Needed(j + 1) then
      State(cfg, k, all, j, src, NoLine())
    else if j + 1 < cfg.Words() then
      State(cfg, k, all, j + 1, SrcLine(cfg, all, j, src), MaskLine(cfg, j))
    else
      State(cfg, 0, [], 0, SrcLine(cfg, all, j, src), MaskLine(cfg, j))
  }

  /** One push. */
  function Step(st: State, w: seq<bool>): State
    requires st.Valid() && |w| == 16
  {
    Settle(st.cfg, st.count + 1, st.pushed + w, st.delivered, st.src)
  }

  lemma StepValid(st: State, w: seq<bool>)
    requires st.Valid() && |w| == 16
    ensures Step(st, w).Valid() && Step(st, w).cfg == st.cfg
  {
  }

  /** Pushing the `n` words of `bits` one after another. */
  ghost function Run(st: State, bits: seq<bool>, n: nat): State
    requires st.Valid() && |bits| == 16 * n
    decreases n
  {
    if n == 0 then st
    else
      StepValid(st, bits[..16]);
      Run(Step(st, bits[..16]), bits[16..], n - 1)
  }

  /** The bits of a line its mask enables, in order. */
  function Enabled(line: seq<bool>, mask: seq<bool>): seq<bool>
    requires |line| == |mask|
  {
    if line == [] then []
    else (if mask[0] then [line[0]] else []) + Enabled(line[1..], mask[1..])
  }

  /** What the pushes of a run hand on, in order. */
  ghost function Output(st: State, bits: seq<bool>, n: nat): seq<bool>
    requires st.Valid() && |bits| == 16 * n
    decreases n
  {
    if n == 0 then []
    else
      StepValid(st, bits[..16]);
      var next := Step(st, bits[..16]);
      Enabled(next.src, next.mask) + Output(next, bits[16..], n - 1)
  }

  /** What is left of `bits` past its first `s`. */
  function From(bits: seq<bool>, s: nat): seq<bool> {
    if s <= |bits| then bits[s..] else []
  }

  lemma CarriedFits(cfg: Config, k: nat)
    requires cfg.Valid() && k <= cfg.Full()
    ensures cfg.Carried(k) > 0 ==> cfg.s + cfg.Carried(k) <= 16 * k
    ensures cfg.Carried(0) == 0 && cfg.Full() > 0
    ensures k > 0 ==> cfg.Carried(k - 1) <= cfg.Carried(k)
    ensures k == cfg.Full() ==> cfg.Carried(k) == cfg.len
  {
  }

  /** The plain bit copy over `n` words: skip `s` bits, carry `len`, and start
      afresh at the word after the last one the run needed. */
  function BitCopy(cfg: Config, bits: seq<bool>, n: nat): seq<bool>
    requires cfg.Valid() && |bits| == 16 * n
    decreases n
  {
    CarriedFits(cfg, if n < cfg.Full() then n else cfg.Full());
    if n < cfg.Full() then
      From(bits, cfg.s)[..cfg.Carried(n)]
    else
      bits[cfg.s..cfg.s + cfg.len] + BitCopy(cfg, bits[16 * cfg.Full()..], n - cfg.Full())
  }

  // ---- one push -----------------------------------------------------------

  /** Where each bit lands: an enabled bit `x` of the `j`-th word delivered is
      the bit of the run that belongs at destination bit `16 * j + x`, and
      exactly the destination bits of the run are enabled. */
  lemma StepPlacement(st: State, w: seq<bool>, x: nat)
    requires st.Valid() && |w| == 16 && x < 16
    requires st.cfg.Needed(st.delivered + 1) == st.count + 1
    ensures var t := 16 * st.delivered + x - st.cfg.d;
            var n, all := Step(st, w), st.pushed + w;
            && (n.mask[x] <==> 0 <= t < st.cfg.len)
            && (n.mask[x] ==> (t + st.cfg.s < |all| && n.src[x] == all[t + st.cfg.s]))
  {
  }

  /** Filtering by an interval mask is slicing. */
  lemma {:induction false} EnabledInterval(line: seq<bool>, mask: seq<bool>, lo: nat, hi: nat)
    requires |line| == |mask|
    requires lo <= hi <= |line|
    requires forall x | 0 <= x < |mask| :: mask[x] <==> lo <= x < hi
    ensures Enabled(line, mask) == line[lo..hi]
  {
    if line != [] {
      var rest, m := line[1..], mask[1..];
      if lo == 0 && hi > 0 {
        EnabledInterval(rest, m, 0, hi - 1);
        assert line[0..hi] == [line[0]] + rest[0..hi - 1];
      } else if lo == 0 {
        EnabledInterval(rest, m, 0, 0);
      } else {
        EnabledInterval(rest, m, lo - 1, hi - 1);
        assert line[lo..hi] == rest[lo - 1..hi - 1];
      }
    }
  }

  /** First and one past the last bit of the `j`-th delivered word that belong
      to the run. */
  function First(cfg: Config, j: nat): nat {
    if cfg.d > 16 * j then cfg.d - 16 * j else 0
  }

  function Last(cfg: Config, j: nat): int {
    if cfg.d + cfg.len < 16 * j + 16 then cfg.d + cfg.len - 16 * j else 16
  }

  lemma DoneAdvances(cfg: Config, j: nat)
    requires cfg.Valid() && j < cfg.Words()
    ensures First(cfg, j) < Last(cfg, j) <= 16
    ensures cfg.Done(j + 1) == cfg.Done(j) + (Last(cfg, j) - First(cfg, j))
    ensures cfg.Done(j) + cfg.d == 16 * j + First(cfg, j)
  {
  }

  lemma LineBit(cfg: Config, plane: seq<bool>, j: nat, before: seq<bool>, x: nat)
    requires cfg.Valid() && j < cfg.Words() && First(cfg, j) <= x < Last(cfg, j) && x < 16
    requires 16 * (j + 1) + cfg.s <= |plane| + cfg.d && |before| == 16
    ensures cfg.Done(j) + cfg.s + x - First(cfg, j) < |plane|
    ensures SrcLine(cfg, plane, j, before)[x] == plane[cfg.Done(j) + cfg.s + x - First(cfg, j)]
  {
    assert Touched(cfg, 2 * j + x / 8);
  }

  lemma LineStretch(cfg: Config, plane: seq<bool>, j: nat, before: seq<bool>)
    requires cfg.Valid() && j < cfg.Words()
    requires 16 * (j + 1) + cfg.s <= |plane| + cfg.d && |before| == 16
    ensures First(cfg, j) < Last(cfg, j) <= 16 && cfg.Done(j) < cfg.Done(j + 1) && cfg.s + cfg.Done(j + 1) <= |plane|
    ensures SrcLine(cfg, plane, j, before)[First(cfg, j)..Last(cfg, j)]
         == From(plane, cfg.s)[cfg.Done(j)..cfg.Done(j + 1)]
  {
    hide SrcLine, Config.Words;
    DoneAdvances(cfg, j);
    var lo, hi, want := First(cfg, j), Last(cfg, j), From(plane, cfg.s)[cfg.Done(j)..cfg.Done(j + 1)];
    var line := SrcLine(cfg, plane, j, before);
    forall x | lo <= x < hi ensures line[x] == want[x - lo] {
      LineBit(cfg, plane, j, before, x);
    }
    assert line[lo..hi] == want;
  }

  /** The word delivered `j`-th carries the next stretch of the run. */
  lemma LineEmits(cfg: Config, plane: seq<bool>, j: nat, before: seq<bool>)
    requires cfg.Valid() && j < cfg.Words()
    requires 16 * (j + 1) + cfg.s <= |plane| + cfg.d && |before| == 16
    ensures cfg.Done(j) < cfg.Done(j + 1)
    ensures cfg.s + cfg.Done(j + 1) <= |plane|
    ensures Enabled(SrcLine(cfg, plane, j, before), MaskLine(cfg, j))
         == From(plane, cfg.s)[cfg.Done(j)..cfg.Done(j + 1)]
  {
    hide SrcLine, Enabled, Config.Words, Config.Done;
    LineStretch(cfg, plane, j, before);
    EnabledInterval(SrcLine(cfg, plane, j, before), MaskLine(cfg, j), First(cfg, j), Last(cfg, j));
  }

  lemma CarriedIsDone(st: State)
    requires st.Valid() && st.count + 1 == st.cfg.Needed(st.delivered + 1)
    ensures st.cfg.Carried(st.count) == st.cfg.Done(st.delivered)
    ensures st.cfg.Carried(st.count + 1) == st.cfg.Done(st.delivered + 1)
    ensures 16 * (st.delivered + 1) + st.cfg.s <= 16 * (st.count + 1) + st.cfg.d
  {
  }

  /** Each push emits exactly the bits between the two ends of what has been
      carried before it and after it. */
  lemma StepEmits(st: State, w: seq<bool>)
    requires st.Valid() && |w| == 16
    ensures st.cfg.Carried(st.count) <= st.cfg.Carried(st.count + 1) <= |From(st.pushed + w, st.cfg.s)|
    ensures |Step(st, w).src| == |Step(st, w).mask|
    ensures Enabled(Step(st, w).src, Step(st, w).mask)
         == From(st.pushed + w, st.cfg.s)[st.cfg.Carried(st.count)..st.cfg.Carried(st.count + 1)]
  {
    if st.count + 1 < st.cfg.Needed(st.delivered + 1) {
      EnabledInterval(st.src, NoLine(), 0, 0);
      assert st.cfg.Carried(st.count + 1) == 0;
    } else {
      CarriedIsDone(st);
      LineEmits(st.cfg, st.pushed + w, st.delivered, st.src);
    }
  }

  // ---- one transfer -------------------------------------------------------

  /** A push either extends the transfer or, on its last word, ends it. */
  lemma StepCounts(st: State, w: seq<bool>)
    requires st.Valid() && |w| == 16
    ensures st.count < st.cfg.Full()
    ensures if st.count + 1 < st.cfg.Full()
            then Step(st, w).pushed == st.pushed + w && Step(st, w).count == st.count + 1
            else Step(st, w).Armed()
  {
  }

  lemma Joins(part: seq<bool>, tail: seq<bool>, s: nat, a: nat, b: nat, c: nat)
    requires a <= b <= c && b <= |From(part, s)| && c <= |From(part + tail, s)|
    ensures From(part, s)[a..b] + From(part + tail, s)[b..c] == From(part + tail, s)[a..c]
  {
  }

  /** Within one transfer the pipeline just accumulates, and it is armed again
      exactly when the last word arrives. */
  lemma {:induction false} TransferState(st: State, bits: seq<bool>, n: nat)
    requires st.Valid() && |bits| == 16 * n && st.count + n <= st.cfg.Full()
    ensures Run(st, bits, n).Valid() && Run(st, bits, n).cfg == st.cfg
    ensures st.count + n < st.cfg.Full() ==> Run(st, bits, n).pushed == st.pushed + bits
    ensures st.count + n == st.cfg.Full() ==> Run(st, bits, n).Armed()
    decreases n
  {
    StepCounts(st, NoLine());
    if n == 0 {
      assert st.pushed + bits == st.pushed;
    } else {
      var w, tail := bits[..16], bits[16..];
      StepValid(st, w);
      StepCounts(st, w);
      if st.count + 1 < st.cfg.Full() {
        TransferState(Step(st, w), tail, n - 1);
        assert st.pushed + bits == st.pushed + w + tail;
      }
    }
  }

  lemma CarriedSoFar(st: State)
    requires st.Valid()
    ensures st.cfg.Carried(st.count) <= |From(st.pushed, st.cfg.s)|
  {
  }

  /** Within one transfer the output is the input from bit `s` on. */
  lemma {:induction false} TransferDelivers(st: State, bits: seq<bool>, n: nat)
    requires st.Valid() && |bits| == 16 * n && st.count + n <= st.cfg.Full()
    ensures st.cfg.Carried(st.count) <= st.cfg.Carried(st.count + n) <= |From(st.pushed + bits, st.cfg.s)|
    ensures Output(st, bits, n)
         == From(st.pushed + bits, st.cfg.s)[st.cfg.Carried(st.count)..st.cfg.Carried(st.count + n)]
    decreases n
  {
    hide Step, Enabled, From, Config.Carried, Config.Full;
    CarriedSoFar(st);
    if n == 0 {
      assert st.pushed + bits == st.pushed;
    } else {
      var w, tail := bits[..16], bits[16..];
      var next, part := Step(st, w), st.pushed + w;
      assert st.pushed + bits == part + tail;
      StepValid(st, w);
      StepEmits(st, w);
      StepCounts(st, w);
      if st.count + 1 < st.cfg.Full() {
        TransferDelivers(next, tail, n - 1);
        Joins(part, tail, st.cfg.s, st.cfg.Carried(st.count), st.cfg.Carried(st.count + 1),
              st.cfg.Carried(st.count + n));
      } else {
        assert part + tail == part;
      }
    }
  }

  // ---- whole runs ---------------------------------------------------------

  lemma {:induction false} OutputSplits(st: State, bits: seq<bool>, n: nat, a: nat)
    requires st.Valid() && |bits| == 16 * n && a <= n
    ensures Run(st, bits[..16 * a], a).Valid()
    ensures Output(st, bits, n)
         == Output(st, bits[..16 * a], a) + Output(Run(st, bits[..16 * a], a), bits[16 * a..], n - a)
    decreases n
  {
    hide Step, Enabled, From;
    if a == 0 {
      assert bits[0..] == bits;
    } else {
      var w, tail, next := bits[..16], bits[16..], Step(st, bits[..16]);
      StepValid(st, w);
      OutputSplits(next, tail, n - 1, a - 1);
      assert bits[..16 * a][..16] == w && bits[..16 * a][16..] == tail[..16 * (a - 1)];
      assert bits[16 * a..] == tail[16 * (a - 1)..];
    }
  }

  lemma CopyUnfolds(cfg: Config, bits: seq<bool>, n: nat)
    requires cfg.Valid() && |bits| == 16 * n
    ensures cfg.Carried(0) == 0 && cfg.Full() > 0 && cfg.Carried(cfg.Full()) == cfg.len
    ensures n < cfg.Full() ==>
      cfg.Carried(n) <= |From(bits, cfg.s)| && BitCopy(cfg, bits, n) == From(bits, cfg.s)[..cfg.Carried(n)]
    ensures n >= cfg.Full() ==>
      && cfg.s + cfg.len <= 16 * cfg.Full() <= |bits|
      && BitCopy(cfg, bits, n)
         == From(bits[..16 * cfg.Full()], cfg.s)[..cfg.len] + BitCopy(cfg, bits[16 * cfg.Full()..], n - cfg.Full())
  {
    hide Config.Carried, Config.Full;
    CarriedFits(cfg, 0);
    CarriedFits(cfg, cfg.Full());
    if n < cfg.Full() {
      CarriedFits(cfg, n);
    } else {
      assert From(bits[..16 * cfg.Full()], cfg.s)[..cfg.len] == bits[cfg.s..cfg.s + cfg.len];
    }
  }

  /** The transfer law. From an armed pipeline, whatever words are pushed and
      however often it re-arms on the way, the enabled bits it hands on are the
      plain bit copy of the bits pushed. */
  lemma {:induction false} RunCopiesBits(st: State, bits: seq<bool>, n: nat)
    requires st.Valid() && st.Armed() && |bits| == 16 * n
    ensures Output(st, bits, n) == BitCopy(st.cfg, bits, n)
    decreases n
  {
    hide Step, Enabled, Output, Run, BitCopy, From, Config.Full, Config.Carried, Config.Words, Config.Needed;
    var full := st.cfg.Full();
    CopyUnfolds(st.cfg, bits, n);
    if n < full {
      TransferDelivers(st, bits, n);
      assert st.pushed + bits == bits;
    } else {
      var head, tail := bits[..16 * full], bits[16 * full..];
      OutputSplits(st, bits, n, full);
      TransferState(st, head, full);
      TransferDelivers(st, head, full);
      assert st.pushed + head == head;
      RunCopiesBits(Run(st, head, full), tail, n - full);
    }
  }
}
