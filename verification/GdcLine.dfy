/** The drawing processor's lines: one walk, in eight reflections. */
module GdcLine {
  import opened Bits
  import opened Division

  /** A line: where it starts, its octant, its length along the major axis and the
      error parameter, the plane, how dots are laid and the dot pattern. */
  datatype Line = Line(octant: nat, x: nat, y: nat, dc: nat, d1: nat, base: nat, op: nat, pattern: bv16) {
    predicate Valid() {
      && octant < 8 && x < 640 && y <= 409 && 0 < dc < 0x4000 && d1 < 0x1_0000
      && base + PLANE <= VRAM && op < 4
    }
  }

  const PLANE := 0x8000
  const VRAM := 0x10_0000

  // ---- the walk -------------------------------------------------------------

  /** How far the walk is from the major axis after `i` steps. */
  function Minor(l: Line, i: nat): nat
    requires l.dc > 0
  {
    (l.d1 * i / l.dc + 1) / 2
  }

  lemma StepBound(l: Line, i: nat)
    requires l.dc > 0 && l.d1 <= 2 * l.dc
    ensures Minor(l, i) <= Minor(l, i + 1) <= Minor(l, i) + 1
  {
    var a, b := l.d1 * i / l.dc, l.d1 * (i + 1) / l.dc;
    assert l.d1 * (i + 1) == l.d1 * i + l.d1;
    QuotientSteps(l.d1 * i, l.d1, l.dc);
  }

  lemma QuotientSteps(n: nat, d: nat, m: nat)
    requires m > 0 && d <= 2 * m
    ensures n / m <= (n + d) / m <= n / m + 2
  {
    assert n == m * (n / m) + n % m;
    Carries(n / m, n % m, d, m);
    assert n + d == n / m * m + n % m + d;
  }

  lemma Carries(q: nat, r: nat, d: nat, m: nat)
    requires r < m && d <= 2 * m
    ensures q <= (q * m + r + d) / m <= q + 2
  {
    var n := q * m + r + d;
    if r + d < m {
      QuotientIs(n, m, q, r + d);
    } else if r + d < 2 * m {
      assert (q + 1) * m == q * m + m;
      QuotientIs(n, m, q + 1, r + d - m);
    } else {
      assert (q + 2) * m == q * m + 2 * m;
      QuotientIs(n, m, q + 2, r + d - 2 * m);
    }
  }

  /** The walk ends half the error parameter off its axis. */
  lemma WalkEnds(l: Line)
    requires l.dc > 0
    ensures Minor(l, 0) == 0 && Minor(l, l.dc) == (l.d1 + 1) / 2
  {
    assert l.d1 * l.dc / l.dc == l.d1 by { Cancels(l.d1, l.dc); }
  }

  lemma Cancels(a: nat, b: nat)
    requires b > 0
    ensures a * b / b == a
  {
    QuotientIs(a * b, b, a, 0);
  }

  lemma {:induction false} MinorAtMost(l: Line, n: nat)
    requires l.dc > 0 && forall i | 0 <= i < n :: Minor(l, i + 1) <= Minor(l, i) + 1
    ensures Minor(l, n) <= n
    decreases n
  {
    if n > 0 { MinorAtMost(l, n - 1); } else { WalkEnds(l); }
  }

  /** The walk never leaves more than one dot off its axis a step, which makes it a
      connected line, if and only if the error parameter is at most twice the length. */
  lemma ConnectedIff(l: Line)
    requires l.dc > 0
    ensures (forall i | 0 <= i < l.dc :: Minor(l, i) <= Minor(l, i + 1) <= Minor(l, i) + 1) <==> l.d1 <= 2 * l.dc
  {
    if l.d1 <= 2 * l.dc {
      forall i | 0 <= i < l.dc ensures Minor(l, i) <= Minor(l, i + 1) <= Minor(l, i) + 1 { StepBound(l, i); }
    } else if forall i | 0 <= i < l.dc :: Minor(l, i) <= Minor(l, i + 1) <= Minor(l, i) + 1 {
      MinorAtMost(l, l.dc);
      WalkEnds(l);
      assert false;
    }
  }

  // ---- the octants ----------------------------------------------------------

  /** Whether the major axis runs across, and which way each axis runs. */
  predicate Across(octant: nat) { octant == 1 || octant == 2 || octant == 5 || octant == 6 }

  function SignX(octant: nat): int { if octant < 4 then 1 else -1 }

  function SignY(octant: nat): int { if octant == 0 || octant == 1 || octant == 6 || octant == 7 then 1 else -1 }

  /** The `i`-th point: the walk reflected into the octant. */
  function PointX(l: Line, i: nat): int
    requires l.dc > 0
  {
    l.x + SignX(l.octant) * if Across(l.octant) then i else Minor(l, i)
  }

  function PointY(l: Line, i: nat): int
    requires l.dc > 0
  {
    l.y + SignY(l.octant) * if Across(l.octant) then Minor(l, i) else i
  }

  /** How many steps along the major axis a place is. */
  function IndexOf(l: Line, x: int, y: int): int {
    if Across(l.octant) then (x - l.x) * SignX(l.octant) else (y - l.y) * SignY(l.octant)
  }

  // ---- the plane ------------------------------------------------------------

  /** The places that are drawn: a plane's 32 KB, eighty bytes a line. */
  predicate Shown(x: int, y: int) {
    0 <= y <= 409 && 0 <= x < (if y == 409 then 384 else 640)
  }

  function Cell(x: nat, y: nat): nat { y * 80 + x / 8 }

  /** Every place drawn is a bit of the plane, and no two places are the same bit. */
  lemma PlacesAreBits(x: nat, y: nat, u: nat, v: nat)
    requires Shown(x, y) && Shown(u, v)
    ensures Cell(x, y) < PLANE
    ensures Cell(x, y) == Cell(u, v) && x % 8 == u % 8 ==> x == u && y == v
  {
  }

  /** And every bit of the plane is a place drawn. */
  lemma BitsArePlaces(cell: nat, bit: nat)
    requires cell < PLANE && bit < 8
    ensures var x, y := cell % 80 * 8 + bit, cell / 80; Shown(x, y) && Cell(x, y) == cell && x % 8 == bit
  {
  }

  predicate Lit(vram: seq<bv8>, base: nat, x: nat, y: nat)
    requires |vram| == VRAM && base + PLANE <= VRAM && Shown(x, y)
  {
    PlacesAreBits(x, y, x, y);
    BitAt(vram[base + Cell(x, y)], x % 8)
  }

  // ---- dots -----------------------------------------------------------------

  function Rotated(p: bv16): bv16 { (p >> 1) | ((p & 1) << 15) }

  predicate Dot(p: bv16) { p & 1 == 1 }

  /** The pattern after `n` dots; the `n`-th dot is its lowest bit. */
  function Turned(p: bv16, n: nat): bv16 {
    if n == 0 then p else Rotated(Turned(p, n - 1))
  }

  /** The pattern comes round every sixteen dots. */
  lemma PatternRepeats(p: bv16, n: nat)
    ensures Turned(p, n + 16) == Turned(p, n)
  {
    var a := Turned(p, n);
    var q1, q2 := Rotated(a), Rotated(Rotated(a));
    var q3, q4 := Rotated(q2), Rotated(Rotated(q2));
    assert Turned(p, n + 4) == q4
        by { assert Turned(p, n + 1) == q1; assert Turned(p, n + 2) == q2; assert Turned(p, n + 3) == q3; }
    TurnsFour(p, n + 4);
    TurnsFour(p, n + 8);
    TurnsFour(p, n + 12);
    FullTurn(a);
  }

  function Four(p: bv16): bv16 { Rotated(Rotated(Rotated(Rotated(p)))) }

  lemma TurnsFour(p: bv16, n: nat)
    ensures Turned(p, n + 4) == Four(Turned(p, n))
  {
    assert Turned(p, n + 1) == Rotated(Turned(p, n));
    assert Turned(p, n + 2) == Rotated(Turned(p, n + 1));
    assert Turned(p, n + 3) == Rotated(Turned(p, n + 2));
  }

  lemma FourIsNibble(p: bv16)
    ensures Four(p) == (p >> 4) | (p << 12)
  {
  }

  lemma FullTurn(p: bv16)
    ensures Four(Four(Four(Four(p)))) == p
  {
    hide Four;
    FourIsNibble(p);
    FourIsNibble(Four(p));
    FourIsNibble(Four(Four(p)));
    FourIsNibble(Four(Four(Four(p))));
  }

  /** What a dot makes of a place: replaced, complemented, cleared or set. */
  predicate Inked(op: nat, dot: bool, was: bool) {
    match op
    case 0 => dot
    case 1 => was != dot
    case 2 => was && !dot
    case _ => was || dot
  }

  /** A place after the first `k` points of a line. */
  predicate Stroked(l: Line, was: bool, x: nat, y: nat, k: nat)
    requires l.dc > 0
  {
    var j := IndexOf(l, x, y);
    if 0 <= j < k && PointX(l, j) == x && PointY(l, j) == y then Inked(l.op, Dot(Turned(l.pattern, j)), was) else was
  }

  /** `now` is `was` with the first `k` points of a line drawn, and nothing else. */
  ghost predicate Drew(was: seq<bv8>, now: seq<bv8>, l: Line, k: nat) {
    && |was| == VRAM && |now| == VRAM && l.Valid()
    && (forall x: nat, y: nat | Shown(x, y) :: Lit(now, l.base, x, y) == Stroked(l, Lit(was, l.base, x, y), x, y, k))
    && (forall a | 0 <= a < VRAM && !(l.base <= a < l.base + PLANE) :: now[a] == was[a])
  }

  /** One place changed and nothing else; `v` is what it becomes. */
  ghost predicate Dotted(was: seq<bv8>, now: seq<bv8>, base: nat, x: int, y: int, v: bool) {
    && |was| == VRAM && |now| == VRAM && base + PLANE <= VRAM
    && (forall u: nat, w: nat | Shown(u, w) ::
         Lit(now, base, u, w) == if u == x && w == y then v else Lit(was, base, u, w))
    && (forall a | 0 <= a < VRAM && !(base <= a < base + PLANE) :: now[a] == was[a])
  }

  /** The line's next point drawn, on the plane or off it. */
  lemma StrokeNext(was: seq<bv8>, mid: seq<bv8>, now: seq<bv8>, l: Line, k: nat)
    requires Drew(was, mid, l, k)
    requires var x, y := PointX(l, k), PointY(l, k);
      if Shown(x, y) then Dotted(mid, now, l.base, x, y, Inked(l.op, Dot(Turned(l.pattern, k)), Lit(mid, l.base, x, y)))
      else now == mid
    ensures Drew(was, now, l, k + 1)
  {
    hide Lit, Minor, Inked, Dot, Turned, Stroked, PointX, PointY;
    forall x: nat, y: nat | Shown(x, y)
      ensures Lit(now, l.base, x, y) == Stroked(l, Lit(was, l.base, x, y), x, y, k + 1)
    {
      StrokedNext(l, Lit(was, l.base, x, y), x, y, k);
      assert Lit(mid, l.base, x, y) == Stroked(l, Lit(was, l.base, x, y), x, y, k);
    }
  }

  lemma StrokedNext(l: Line, was: bool, x: nat, y: nat, k: nat)
    requires l.dc > 0
    ensures var before := Stroked(l, was, x, y, k);
      Stroked(l, was, x, y, k + 1)
          == if x == PointX(l, k) && y == PointY(l, k) then Inked(l.op, Dot(Turned(l.pattern, k)), before) else before
  {
    hide Minor, Inked, Dot, Turned, IndexOf, PointX, PointY;
    IndexOfPoint(l, k);
  }

  lemma IndexOfPoint(l: Line, k: nat)
    requires l.dc > 0
    ensures IndexOf(l, PointX(l, k), PointY(l, k)) == k
  {
    hide Minor;
  }

  /** Coordinates are masked to sixteen bits; nothing off the plane comes back. */
  lemma MaskedOff(l: Line, k: nat)
    requires l.Valid() && k <= l.dc
    ensures var x, y := PointX(l, k), PointY(l, k);
      (Shown(x, y) ==> x % 0x1_0000 == x && y % 0x1_0000 == y) && (Shown(x % 0x1_0000, y % 0x1_0000) ==> Shown(x, y))
  {
    hide Minor;
    MinorBounded(l, k);
  }

  lemma MinorBounded(l: Line, k: nat)
    requires l.Valid() && k <= l.dc
    ensures Minor(l, k) <= 0x8000 && l.d1 * k < 0x1_0000_0000
  {
    Scales(k, l.dc, l.d1);
    Scales(l.d1, 0xFFFF, l.dc);
    assert l.d1 * k == k * l.d1 && l.d1 * l.dc == l.dc * l.d1;
    Cancels(l.d1, l.dc);
    Monotone(l.d1 * k, l.d1 * l.dc, l.dc);
  }

  lemma Monotone(a: nat, b: nat, m: nat)
    requires m > 0 && a <= b
    ensures a / m <= b / m
  {
    Scales(b / m + 1, a / m, m);
  }
}
