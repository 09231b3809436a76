/** The EGC shift pipeline as the emulator runs it: four planes overlapping in
    one byte buffer, two moving pointers, a bit budget and a run length. */
module EgcShift {
  import opened Bits
  import Funnel

  // The buffer proper is 4096/8 + 16 bytes with sixteen bytes of padding in
  // front and behind; indices below count from the start of the front padding.
  const PAD := 16
  const BUF_BYTES := 4096 / 8 + 4 * 4
  const UP_BASE := PAD
  const DOWN_BASE := PAD + 4096 / 8 + 3

  /** Byte `i` of a transfer, in scan order. */
  function At(down: bool, i: int): int {
    if down then DOWN_BASE - i else UP_BASE + i
  }

  /** The bits of `bytes` in scan order. */
  function Stream(down: bool, bytes: seq<bv8>): (s: seq<bool>)
    ensures |s| == 8 * |bytes|
  {
    seq(8 * |bytes|, t requires 0 <= t < 8 * |bytes| => Bit(down, bytes[t / 8], t % 8))
  }

  // The mask tables, a row for each length: `u` for the pipeline that runs up
  // (to the right), `d` for the one that runs down. Table 0 is indexed by the
  // start bit, table 1 by the length alone.
  function BytemaskU0(len: nat): (row: seq<bv8>)
    ensures |row| == 8
  {
    match len
    case 1 => [0x80, 0x40, 0x20, 0x10, 0x08, 0x04, 0x02, 0x01]
    case 2 => [0xc0, 0x60, 0x30, 0x18, 0x0c, 0x06, 0x03, 0x01]
    case 3 => [0xe0, 0x70, 0x38, 0x1c, 0x0e, 0x07, 0x03, 0x01]
    case 4 => [0xf0, 0x78, 0x3c, 0x1e, 0x0f, 0x07, 0x03, 0x01]
    case 5 => [0xf8, 0x7c, 0x3e, 0x1f, 0x0f, 0x07, 0x03, 0x01]
    case 6 => [0xfc, 0x7e, 0x3f, 0x1f, 0x0f, 0x07, 0x03, 0x01]
    case 7 => [0xfe, 0x7f, 0x3f, 0x1f, 0x0f, 0x07, 0x03, 0x01]
    case _ => [0xff, 0x7f, 0x3f, 0x1f, 0x0f, 0x07, 0x03, 0x01]
  }

  function BytemaskD0(len: nat): (row: seq<bv8>)
    ensures |row| == 8
  {
    match len
    case 1 => [0x01, 0x02, 0x04, 0x08, 0x10, 0x20, 0x40, 0x80]
    case 2 => [0x03, 0x06, 0x0c, 0x18, 0x30, 0x60, 0xc0, 0x80]
    case 3 => [0x07, 0x0e, 0x1c, 0x38, 0x70, 0xe0, 0xc0, 0x80]
    case 4 => [0x0f, 0x1e, 0x3c, 0x78, 0xf0, 0xe0, 0xc0, 0x80]
    case 5 => [0x1f, 0x3e, 0x7c, 0xf8, 0xf0, 0xe0, 0xc0, 0x80]
    case 6 => [0x3f, 0x7e, 0xfc, 0xf8, 0xf0, 0xe0, 0xc0, 0x80]
    case 7 => [0x7f, 0xfe, 0xfc, 0xf8, 0xf0, 0xe0, 0xc0, 0x80]
    case _ => [0xff, 0xfe, 0xfc, 0xf8, 0xf0, 0xe0, 0xc0, 0x80]
  }

  const BYTEMASK_U1: seq<bv8> := [0x80, 0xc0, 0xe0, 0xf0, 0xf8, 0xfc, 0xfe, 0xff]
  const BYTEMASK_D1: seq<bv8> := [0x01, 0x03, 0x07, 0x0f, 0x1f, 0x3f, 0x7f, 0xff]

  function Min(a: int, b: int): int {
    if a < b then a else b
  }

  function Max(a: int, b: int): int {
    if a < b then b else a
  }

  /** `m` enables exactly the bits from `lo` up to `hi`, in scan order. */
  predicate Enables(down: bool, m: bv8, lo: int, hi: int) {
    forall q | 0 <= q < 8 :: Bit(down, m, q) <==> lo <= q < hi
  }

  function MaskRow(down: bool, len: nat): bv8
    requires 1 <= len <= 8
  {
    if down then BYTEMASK_D1[len - 1] else BYTEMASK_U1[len - 1]
  }

  function MaskAt(down: bool, start: nat, len: nat): bv8
    requires start < 8 && 1 <= len <= 8
  {
    if down then BytemaskD0(len)[start] else BytemaskU0(len)[start]
  }

  lemma RowEnables(down: bool, len: nat)
    requires 1 <= len <= 8
    ensures Enables(down, MaskRow(down, len), 0, len)
  {
    match len { case 1 => case 2 => case 3 => case 4 => case 5 => case 6 => case 7 => case 8 => }
  }

  lemma UpMaskIsShiftedRow(start: nat, len: nat)
    requires start < 8 && 1 <= len <= 8
    ensures MaskAt(false, start, len) == Later(false, MaskRow(false, len), start)
  {
    match len {
      case 1 => match start { case 0 => case 1 => case 2 => case 3 => case 4 => case 5 => case 6 => case 7 => }
      case 2 => match start { case 0 => case 1 => case 2 => case 3 => case 4 => case 5 => case 6 => case 7 => }
      case 3 => match start { case 0 => case 1 => case 2 => case 3 => case 4 => case 5 => case 6 => case 7 => }
      case 4 => match start { case 0 => case 1 => case 2 => case 3 => case 4 => case 5 => case 6 => case 7 => }
      case 5 => match start { case 0 => case 1 => case 2 => case 3 => case 4 => case 5 => case 6 => case 7 => }
      case 6 => match start { case 0 => case 1 => case 2 => case 3 => case 4 => case 5 => case 6 => case 7 => }
      case 7 => match start { case 0 => case 1 => case 2 => case 3 => case 4 => case 5 => case 6 => case 7 => }
      case 8 => match start { case 0 => case 1 => case 2 => case 3 => case 4 => case 5 => case 6 => case 7 => }
    }
  }

  lemma DownMaskIsShiftedRow(start: nat, len: nat)
    requires start < 8 && 1 <= len <= 8
    ensures MaskAt(true, start, len) == Later(true, MaskRow(true, len), start)
  {
    match len {
      case 1 => match start { case 0 => case 1 => case 2 => case 3 => case 4 => case 5 => case 6 => case 7 => }
      case 2 => match start { case 0 => case 1 => case 2 => case 3 => case 4 => case 5 => case 6 => case 7 => }
      case 3 => match start { case 0 => case 1 => case 2 => case 3 => case 4 => case 5 => case 6 => case 7 => }
      case 4 => match start { case 0 => case 1 => case 2 => case 3 => case 4 => case 5 => case 6 => case 7 => }
      case 5 => match start { case 0 => case 1 => case 2 => case 3 => case 4 => case 5 => case 6 => case 7 => }
      case 6 => match start { case 0 => case 1 => case 2 => case 3 => case 4 => case 5 => case 6 => case 7 => }
      case 7 => match start { case 0 => case 1 => case 2 => case 3 => case 4 => case 5 => case 6 => case 7 => }
      case 8 => match start { case 0 => case 1 => case 2 => case 3 => case 4 => case 5 => case 6 => case 7 => }
    }
  }

  /** The mask tables are what their comments say: `len` bits from `start` on,
      cut off at the end of the byte. */
  lemma MaskEnables(down: bool, start: nat, len: nat)
    requires start < 8 && 1 <= len <= 8
    ensures Enables(down, MaskAt(down, start, len), start, Min(8, start + len))
  {
    RowEnables(down, len);
    if down { DownMaskIsShiftedRow(start, len); } else { UpMaskIsShiftedRow(start, len); }
    hide MaskAt, MaskRow, Later;
    if start > 0 {
      forall q | 0 <= q < 8 ensures Bit(down, MaskAt(down, start, len), q) <==> start <= q < start + len {
        LaterBit(down, MaskRow(down, len), start, q);
      }
    }
  }

  // ---- offsets ------------------------------------------------------------

  function SrcOffset(sft: nat): nat { sft % 16 }

  function DstOffset(sft: nat): nat { (sft / 16) % 16 }

  predicate Downward(sft: nat) { (sft / 4096) % 2 == 1 }

  function ConfigOf(sft: nat, leng: nat): (cfg: Funnel.Config)
    ensures cfg.Valid()
  {
    Funnel.Config(SrcOffset(sft), DstOffset(sft), leng % 4096 + 1)
  }

  /** The variant and the two shift amounts the bit offsets within a byte call
      for: 0 when they agree, 2 when the destination lies later, 4 earlier. */
  predicate Variant(cfg: Funnel.Config, kind: int, l: nat, r: nat) {
    var s8, d8 := cfg.s % 8, cfg.d % 8;
    if s8 < d8 then kind == 2 && r == d8 - s8 && l == 8 - r
    else if s8 > d8 then kind == 4 && l == s8 - d8 && r == 8 - l
    else kind == 0
  }

  /** The tail of one byte and the head of the next. */
  function Joined(down: bool, cur: bv8, next: bv8, l: nat, r: nat): bv8 {
    Earlier(down, cur, l) | Later(down, next, r)
  }

  /** What a lane takes from the current and the next buffer byte. */
  function Pick(down: bool, kind: int, first: bool, cur: bv8, next: bv8, l: nat, r: nat): bv8 {
    if kind == 0 then cur
    else if kind == 2 && first then Later(down, cur, r)
    else Joined(down, cur, next, l, r)
  }

  /** Bits of the run that lie before destination byte `n`, and the buffer byte
      the source bits for destination byte `n` start in. */
  function Before(cfg: Funnel.Config, n: nat): nat {
    Max(0, 8 * n - cfg.d)
  }

  function Source(cfg: Funnel.Config, n: nat): nat {
    (cfg.s + Before(cfg, n)) / 8
  }

  lemma StreamAt(down: bool, bytes: seq<bv8>, i: nat, x: nat)
    requires i < |bytes| && x < 8
    ensures Stream(down, bytes)[8 * i + x] == Bit(down, bytes[i], x)
  {
    hide Bit;
    assert (8 * i + x) / 8 == i && (8 * i + x) % 8 == x;
  }

  /** Where the source bit for destination bit `8 * n + q` lies. */
  lemma WindowStart(cfg: Funnel.Config, kind: int, l: nat, r: nat, n: nat)
    requires cfg.Valid() && Variant(cfg, kind, l, r) && cfg.d < 8 * n + 8
    ensures kind != 0 ==> 0 < l < 8 && r == 8 - l
    ensures cfg.s / 8 <= Source(cfg, n)
    ensures kind == 0 ==> 8 * n + cfg.s - cfg.d == 8 * Source(cfg, n)
    ensures kind == 2 && 8 * n < cfg.d ==>
      Source(cfg, n) == cfg.s / 8 && 8 * n + cfg.s - cfg.d == 8 * Source(cfg, n) - r
    ensures kind != 0 && !(kind == 2 && 8 * n < cfg.d) ==> 8 * n + cfg.s - cfg.d == 8 * Source(cfg, n) + l
  {
    var a, b := cfg.s / 8, cfg.d / 8;
    var s8, d8 := cfg.s - 8 * a, cfg.d - 8 * b;
    assert cfg.s % 8 == s8 && cfg.d % 8 == d8;
    if n > b {
      var m := if s8 < d8 then n - b - 1 + a else n - b + a;
      assert cfg.s + 8 * n - cfg.d == 8 * m + (if s8 < d8 then 8 + s8 - d8 else s8 - d8);
      assert Source(cfg, n) == m;
    } else {
      assert n == b;
      assert Source(cfg, n) == a;
    }
  }

  /** From one destination byte to the next the source moves on by a byte, except
      past the head of a run that moves to a later bit. */
  lemma SourceAdvances(cfg: Funnel.Config, n: nat)
    requires cfg.Valid()
    ensures cfg.d >= 8 * n + 8 ==> Source(cfg, n + 1) == Source(cfg, n) == cfg.s / 8
    ensures cfg.d < 8 * n + 8 ==>
      Source(cfg, n + 1) == Source(cfg, n) + (if cfg.s % 8 < cfg.d % 8 && 8 * n < cfg.d then 0 else 1)
  {
    if 8 * n < cfg.d < 8 * n + 8 {
      assert cfg.d % 8 == cfg.d - 8 * n;
      assert Source(cfg, n) == cfg.s / 8;
      assert Source(cfg, n + 1) == (cfg.s + 8 - cfg.d % 8) / 8;
    } else if cfg.d <= 8 * n {
      assert Before(cfg, n + 1) == Before(cfg, n) + 8;
    }
  }

  /** A lane's byte holds exactly the source bits that belong there. */
  lemma PickWindow(down: bool, bytes: seq<bv8>, cfg: Funnel.Config, kind: int, l: nat, r: nat, n: nat, next: bv8,
            q: nat)
    requires cfg.Valid() && Variant(cfg, kind, l, r)
    requires cfg.d < 8 * n + 8 && q < 8
    requires Source(cfg, n) < |bytes|
    requires Source(cfg, n) + 1 < |bytes| ==> next == bytes[Source(cfg, n) + 1]
    requires 8 * n + q + cfg.s - cfg.d < 8 * |bytes|
    ensures Bit(down, Pick(down, kind, 8 * n < cfg.d, bytes[Source(cfg, n)], next, l, r), q)
         == Funnel.SourceBit(cfg, Stream(down, bytes), 8 * n + q)
  {
    hide Bit, Later, Earlier, Stream, Source, Variant;
    var i := Source(cfg, n);
    WindowStart(cfg, kind, l, r, n);
    if kind == 0 {
      StreamAt(down, bytes, i, q);
    } else if kind == 2 && 8 * n < cfg.d {
      LaterBit(down, bytes[i], r, q);
      if q >= r { StreamAt(down, bytes, i, q - r); }
    } else {
      JoinBit(down, bytes[i], next, l, q);
      if q + l < 8 { StreamAt(down, bytes, i, q + l); } else { StreamAt(down, bytes, i + 1, q + l - 8); }
    }
  }
}
