/** Which way the drawing processor's lines run, and what their dots leave. */
module GdcWay {
  import opened Bits
  import opened GdcLine

  /** The dot `off` from the major axis nearest the straight line, which rises `d1`
      over twice `dc`, `i` along it; halfway up counts as up. */
  predicate Nearest(l: Line, i: nat, off: int) {
    0 - l.dc < 2 * l.dc * off - l.d1 * i <= l.dc
  }

  lemma MinorIsNearest(l: Line, i: nat)
    requires l.dc > 0
    ensures Nearest(l, i, Minor(l, i))
  {
    var n := l.d1 * i;
    var q, m := n / l.dc, Minor(l, i);
    assert n == q * l.dc + n % l.dc;
    assert q == 2 * m || q == 2 * m - 1;
    if q == 2 * m { assert q * l.dc == 2 * l.dc * m; } else { assert q * l.dc == 2 * l.dc * m - l.dc; }
  }

  lemma OneNearest(l: Line, i: nat, a: int, b: int)
    requires l.dc > 0 && Nearest(l, i, a) && Nearest(l, i, b)
    ensures a == b
  {
    if a < b { Further(l.dc, a, b); } else if b < a { Further(l.dc, b, a); }
  }

  lemma Further(c: nat, a: int, b: int)
    requires a < b
    ensures 2 * c * a + 2 * c <= 2 * c * b
  {
    Grows(2 * c, b - a);
    assert 2 * c * b == 2 * c * a + 2 * c * (b - a);
  }

  lemma Grows(c: nat, n: nat)
    requires n > 0
    ensures c <= c * n
  {
  }

  /** The eight directions, in dots along and down the display: the `i`-th point is `i`
      dots along its own axis and the nearest dot off it, on the octant's own side. */
  lemma PointsRun(l: Line, i: nat, x: int, y: int)
    requires l.Valid()
    ensures x == PointX(l, i) && y == PointY(l, i) <==>
      match l.octant
      case 0 => y == l.y + i && Nearest(l, i, x - l.x)
      case 1 => x == l.x + i && Nearest(l, i, y - l.y)
      case 2 => x == l.x + i && Nearest(l, i, l.y - y)
      case 3 => y == l.y - i && Nearest(l, i, x - l.x)
      case 4 => y == l.y - i && Nearest(l, i, l.x - x)
      case 5 => x == l.x - i && Nearest(l, i, l.y - y)
      case 6 => x == l.x - i && Nearest(l, i, y - l.y)
      case _ => y == l.y + i && Nearest(l, i, l.x - x)
  {
    hide Minor, Nearest;
    MinorIsNearest(l, i);
    forall a | Nearest(l, i, a) ensures a == Minor(l, i) { OneNearest(l, i, a, Minor(l, i)); }
  }

  /** Every line starts at its start point; where each octant's ends. */
  lemma LinesEnd(l: Line)
    requires l.Valid()
    ensures PointX(l, 0) == l.x && PointY(l, 0) == l.y
    ensures var x, y, m := PointX(l, l.dc), PointY(l, l.dc), (l.d1 + 1) / 2;
      match l.octant
      case 0 => x == l.x + m && y == l.y + l.dc
      case 1 => x == l.x + l.dc && y == l.y + m
      case 2 => x == l.x + l.dc && y == l.y - m
      case 3 => x == l.x + m && y == l.y - l.dc
      case 4 => x == l.x - m && y == l.y - l.dc
      case 5 => x == l.x - l.dc && y == l.y - m
      case 6 => x == l.x - l.dc && y == l.y + m
      case _ => x == l.x - m && y == l.y + l.dc
  {
    hide Minor;
    WalkEnds(l);
  }

  // ---- the dots -------------------------------------------------------------

  /** Dot `n` of a pattern, as its bit of that worth. */
  predicate DotOf(p: bv16, n: nat) {
    match n
    case 0 => p & 0x0001 != 0 case 1 => p & 0x0002 != 0 case 2 => p & 0x0004 != 0 case 3 => p & 0x0008 != 0
    case 4 => p & 0x0010 != 0 case 5 => p & 0x0020 != 0 case 6 => p & 0x0040 != 0 case 7 => p & 0x0080 != 0
    case 8 => p & 0x0100 != 0 case 9 => p & 0x0200 != 0 case 10 => p & 0x0400 != 0 case 11 => p & 0x0800 != 0
    case 12 => p & 0x1000 != 0 case 13 => p & 0x2000 != 0 case 14 => p & 0x4000 != 0
    case _ => p & 0x8000 != 0
  }

  /** The dots of a pattern are its bits from the lowest up, round and round. */
  lemma DotIsBit(p: bv16, n: nat)
    ensures Dot(Turned(p, n)) <==> DotOf(p, n % 16)
  {
    hide Dot, Rotated, DotOf;
    TurnedDot(p, n, 0);
    LowDot(Turned(p, n));
  }

  lemma LowDot(p: bv16)
    ensures Dot(p) <==> DotOf(p, 0)
  {
    assert p & 1 == 0 || p & 1 == 1;
  }

  lemma {:induction false} TurnedDot(p: bv16, n: nat, j: nat)
    requires j < 16
    ensures DotOf(Turned(p, n), j) <==> DotOf(p, (j + n) % 16)
  {
    hide Rotated, DotOf;
    if n > 0 {
      RotatedDot(Turned(p, n - 1), j);
      TurnedDot(p, n - 1, (j + 1) % 16);
    }
  }

  lemma RotatedDot(p: bv16, j: nat)
    requires j < 16
    ensures DotOf(Rotated(p), j) <==> DotOf(p, (j + 1) % 16)
  {
    match j {
      case 0 => case 1 => case 2 => case 3 => case 4 => case 5 => case 6 => case 7 =>
      case 8 => case 9 => case 10 => case 11 => case 12 => case 13 => case 14 => case _ =>
    }
  }

  /** A place of the line after the whole of it is drawn. */
  lemma LineInked(was: seq<bv8>, now: seq<bv8>, l: Line, i: nat)
    requires Drew(was, now, l, l.dc + 1) && i <= l.dc && Shown(PointX(l, i), PointY(l, i))
    ensures var x, y, dot := PointX(l, i), PointY(l, i), Dot(Turned(l.pattern, i));
      var before, after := Lit(was, l.base, x, y), Lit(now, l.base, x, y);
      match l.op
      case 0 => after <==> dot
      case 1 => after <==> if dot then !before else before
      case 2 => if dot then !after else after <==> before
      case _ => if dot then after else after <==> before
  {
    hide Lit, Minor, Dot, Turned, PointX, PointY, IndexOf;
    IndexOfPoint(l, i);
  }

  /** A line complemented twice leaves no trace, wherever it crosses what. */
  lemma ComplementUndoes(was: seq<bv8>, mid: seq<bv8>, now: seq<bv8>, l: Line)
    requires l.op == 1 && Drew(was, mid, l, l.dc + 1) && Drew(mid, now, l, l.dc + 1)
    ensures now == was
  {
    hide BitAt, Lit, Stroked, Shown;
    forall a | 0 <= a < VRAM && l.base <= a < l.base + PLANE ensures now[a] == was[a] {
      var cell := a - l.base;
      forall q | 0 <= q < 8 ensures BitAt(now[a], q) == BitAt(was[a], q) {
        BitsArePlaces(cell, q);
        var x, y := cell % 80 * 8 + q, cell / 80;
        PlaceRestored(was, mid, now, l, x, y);
        PlaceBit(was, l.base, cell, q);
        PlaceBit(now, l.base, cell, q);
      }
      SameBits(now[a], was[a]);
    }
  }

  lemma PlaceRestored(was: seq<bv8>, mid: seq<bv8>, now: seq<bv8>, l: Line, x: nat, y: nat)
    requires l.op == 1 && Drew(was, mid, l, l.dc + 1) && Drew(mid, now, l, l.dc + 1) && Shown(x, y)
    ensures Lit(now, l.base, x, y) == Lit(was, l.base, x, y)
  {
    hide Lit, Stroked;
    assert Lit(mid, l.base, x, y) == Stroked(l, Lit(was, l.base, x, y), x, y, l.dc + 1);
    Complemented(l, Lit(was, l.base, x, y), x, y);
  }

  lemma Complemented(l: Line, was: bool, x: nat, y: nat)
    requires l.Valid() && l.op == 1
    ensures Stroked(l, Stroked(l, was, x, y, l.dc + 1), x, y, l.dc + 1) == was
  {
    hide Minor, Dot, Turned, PointX, PointY, IndexOf;
  }

  lemma PlaceBit(vram: seq<bv8>, base: nat, cell: nat, q: nat)
    requires |vram| == VRAM && base + PLANE <= VRAM && cell < PLANE && q < 8
    ensures Shown(cell % 80 * 8 + q, cell / 80)
    ensures Lit(vram, base, cell % 80 * 8 + q, cell / 80) == BitAt(vram[base + cell], q)
  {
    hide BitAt;
    BitsArePlaces(cell, q);
  }
}
