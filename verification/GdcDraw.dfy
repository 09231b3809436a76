/** The drawing processor's dots and lines in the guest's display memory. */
module GdcDraw {
  import opened Bits
  import opened Division
  import opened GdcLine

  /** Bit `q` of a byte on its own: `0x80 >> q`. */
  function BitMask(q: nat): bv8 {
    match q
    case 0 => 0x80 case 1 => 0x40 case 2 => 0x20 case 3 => 0x10
    case 4 => 0x08 case 5 => 0x04 case 6 => 0x02 case _ => 0x01
  }

  /** A dot of a byte laid by one of the four operations. */
  function InkedByte(op: nat, dot: bool, v: bv8, mask: bv8): bv8 {
    match op
    case 0 => if dot then v | mask else v & !mask
    case 1 => if dot then v ^ mask else v
    case 2 => if dot then v & !mask else v
    case _ => if dot then v | mask else v
  }

  lemma InkedBit(op: nat, dot: bool, v: bv8, q: nat, r: nat)
    requires q < 8 && r < 8
    ensures BitAt(InkedByte(op, dot, v, BitMask(q)), r) == if r == q then Inked(op, dot, BitAt(v, r)) else BitAt(v, r)
  {
    hide BitAt, BitMask;
    match op
    case 0 => if dot { OrMask(v, q, r); } else { ClearMask(v, q, r); }
    case 1 => if dot { FlipMask(v, q, r); }
    case 2 => if dot { ClearMask(v, q, r); }
    case _ => if dot { OrMask(v, q, r); }
  }

  lemma OrMask(v: bv8, q: nat, r: nat)
    requires q < 8 && r < 8
    ensures BitAt(v | BitMask(q), r) == (r == q || BitAt(v, r))
  {
    OrBit(v, BitMask(q), r);
    MaskBit(q, r);
  }

  lemma MaskBit(q: nat, r: nat)
    requires q < 8 && r < 8
    ensures BitAt(BitMask(q), r) == (q == r)
  {
  }

  lemma ClearMask(v: bv8, q: nat, r: nat)
    requires q < 8 && r < 8
    ensures BitAt(v & !BitMask(q), r) == (r != q && BitAt(v, r))
  {
    hide BitAt, BitMask;
    AndNotBit(v, BitMask(q), r);
    MaskBit(q, r);
  }

  lemma FlipMask(v: bv8, q: nat, r: nat)
    requires q < 8 && r < 8
    ensures BitAt(v ^ BitMask(q), r) == ((r == q) != BitAt(v, r))
  {
    match q { case 0 => case 1 => case 2 => case 3 => case 4 => case 5 => case 6 => case _ => }
  }

  /** A byte rewritten is one place changed. */
  lemma ByteIsDot(was: seq<bv8>, base: nat, x: nat, y: nat, op: nat, dot: bool)
    requires |was| == VRAM && base + PLANE <= VRAM && Shown(x, y)
    ensures base + Cell(x, y) < VRAM
    ensures var at := base + Cell(x, y);
      Dotted(was, was[at := InkedByte(op, dot, was[at], BitMask(x % 8))], base, x, y,
          Inked(op, dot, Lit(was, base, x, y)))
  {
    hide BitAt, Inked, InkedByte, BitMask;
    PlacesAreBits(x, y, x, y);
    var at := base + Cell(x, y);
    var now := was[at := InkedByte(op, dot, was[at], BitMask(x % 8))];
    forall u: nat, w: nat | Shown(u, w)
      ensures Lit(now, base, u, w)
           == if u == x && w == y then Inked(op, dot, Lit(was, base, x, y)) else Lit(was, base, u, w)
    {
      PlacesAreBits(u, w, x, y);
      InkedBit(op, dot, was[at], x % 8, u % 8);
    }
  }

  /** The windows of the four planes. */
  function PlaneBase(plane: nat): (base: nat)
    ensures base + PLANE <= VRAM
  {
    match plane
    case 0 => 0xE0000 case 1 => 0xA8000 case 2 => 0xB0000 case _ => 0xB8000
  }

  class Drawer {
    const vram: array<bv8>
    var pattern: bv16
    var x: nat
    var y: nat
    var base: nat
    var op: nat

    constructor (memory: array<bv8>)
      requires memory.Length == VRAM
      ensures vram == memory && Ready()
    {
      vram, pattern, x, y, base, op := memory, 0, 0, 0, 0, 0;
    }

    ghost predicate Ready()
      reads this
    {
      vram.Length == VRAM && x < 640 && y <= 409 && base + PLANE <= VRAM && op < 4
    }

    /** The start of a drawing: forty words a line, the dot address in the word. */
    method Prepare(csrw: nat, pat: bv16, ope: nat)
      requires vram.Length == VRAM && csrw < WORD
      modifies this
      ensures Ready() && pattern == pat && op == ope % 4
      ensures base == [0xE0000, 0xA8000, 0xB0000, 0xB8000][csrw / 0x4000 % 4]
      ensures y * 640 + x == csrw % 0x4000 * 16 + csrw / 0x10_0000 % 16
    {
      pattern := pat;
      base := PlaneBase(csrw / 0x4000 % 4);
      op := ope % 4;
      var q, rem := Udiv32(csrw % 0x4000, 40);
      y := q;
      x := rem * 16 + csrw / 0x10_0000 % 16;
    }

    /** The next dot of the pattern at a place, if it is on the plane. */
    method PsetAt(px: int, py: int)
      requires Ready()
      modifies this`pattern, vram
      ensures pattern == Rotated(old(pattern))
      ensures var u, w := px % 0x1_0000, py % 0x1_0000;
        if Shown(u, w)
        then Dotted(old(vram[..]), vram[..], base, u, w, Inked(op, Dot(old(pattern)), Lit(old(vram[..]), base, u, w)))
        else vram[..] == old(vram[..])
    {
      hide Dotted, Lit, Inked, InkedByte, BitMask;
      var dot := pattern & 1 == 1;
      pattern := (pattern >> 1) | ((pattern & 1) << 15);
      var u, w := px % 0x1_0000, py % 0x1_0000;
      if w > 409 || (if w == 409 then u >= 384 else u >= 640) {
        return;
      }
      ghost var was := vram[..];
      ByteIsDot(was, base, u, w, op, dot);
      var addr := base + w * 80 + u / 8;
      vram[addr] := InkedByte(op, dot, vram[addr], BitMask(u % 8));
      assert vram[..] == was[addr := InkedByte(op, dot, was[addr], BitMask(u % 8))];
    }

    /** The next point of a line. */
    method Point(ghost was: seq<bv8>, ghost l: Line, ghost i: nat, px: int, py: int)
      requires Ready() && base == l.base && op == l.op && Drew(was, vram[..], l, i) && i <= l.dc
      requires pattern == Turned(l.pattern, i) && px == PointX(l, i) && py == PointY(l, i)
      modifies this`pattern, vram
      ensures Drew(was, vram[..], l, i + 1) && pattern == Turned(l.pattern, i + 1)
    {
      hide Dotted, Lit, Inked, PointX, PointY, Rotated, Stroked;
      ghost var mid := vram[..];
      MaskedOff(l, i);
      PsetAt(px, py);
      StrokeNext(was, mid, vram[..], l, i);
    }

    /** How far off its axis a line is after `i` steps. */
    method Offset(ghost l: Line, d1: nat, dc: nat, i: nat) returns (m: nat)
      requires l.Valid() && l.d1 == d1 && l.dc == dc && i <= dc
      ensures m == Minor(l, i)
    {
      MinorBounded(l, i);
      var q, r := Udiv32(d1 * i, dc);
      QuotientIs(d1 * i, dc, q, r);
      m := (q + 1) / 2;
    }

    /** A line from the start point: one dot with no length, otherwise its dc + 1
        points in order, each dot the pattern's next. */
    method Vectl(ope: nat, d1: nat, dc: nat)
      requires Ready() && d1 < 0x1_0000 && dc < 0x4000
      modifies this`pattern, vram
      ensures dc > 0 ==> var l := Line(ope % 8, x, y, dc, d1, base, op, old(pattern));
        Drew(old(vram[..]), vram[..], l, dc + 1) && pattern == Turned(old(pattern), dc + 1)
      ensures dc == 0 ==>
        && pattern == Rotated(old(pattern))
        && if Shown(x, y)
           then Dotted(old(vram[..]), vram[..], base, x, y,
               Inked(op, Dot(old(pattern)), Lit(old(vram[..]), base, x, y)))
           else vram[..] == old(vram[..])
    {
      hide Drew, Dotted, Lit, Inked, Minor, Rotated, Turned;
      if dc == 0 {
        PsetAt(x, y);
        return;
      }
      ghost var was, l := vram[..], Line(ope % 8, x, y, dc, d1, base, op, pattern);
      NothingDrawn(was, l);
      var cx: int, cy: int, i := x, y, 0;
      match ope % 8
      case 0 =>
        while i <= dc
          invariant i <= dc + 1 && cy == y + i
          invariant Drew(was, vram[..], l, i) && pattern == Turned(l.pattern, i)
        {
          var m := Offset(l, d1, dc, i);
          Point(was, l, i, cx + m, cy);
          cy, i := cy + 1, i + 1;
        }
      case 1 =>
        while i <= dc
          invariant i <= dc + 1 && cx == x + i
          invariant Drew(was, vram[..], l, i) && pattern == Turned(l.pattern, i)
        {
          var m := Offset(l, d1, dc, i);
          Point(was, l, i, cx, cy + m);
          cx, i := cx + 1, i + 1;
        }
      case 2 =>
        while i <= dc
          invariant i <= dc + 1 && cx == x + i
          invariant Drew(was, vram[..], l, i) && pattern == Turned(l.pattern, i)
        {
          var m := Offset(l, d1, dc, i);
          Point(was, l, i, cx, cy - m);
          cx, i := cx + 1, i + 1;
        }
      case 3 =>
        while i <= dc
          invariant i <= dc + 1 && cy == y - i
          invariant Drew(was, vram[..], l, i) && pattern == Turned(l.pattern, i)
        {
          var m := Offset(l, d1, dc, i);
          Point(was, l, i, cx + m, cy);
          cy, i := cy - 1, i + 1;
        }
      case 4 =>
        while i <= dc
          invariant i <= dc + 1 && cy == y - i
          invariant Drew(was, vram[..], l, i) && pattern == Turned(l.pattern, i)
        {
          var m := Offset(l, d1, dc, i);
          Point(was, l, i, cx - m, cy);
          cy, i := cy - 1, i + 1;
        }
      case 5 =>
        while i <= dc
          invariant i <= dc + 1 && cx == x - i
          invariant Drew(was, vram[..], l, i) && pattern == Turned(l.pattern, i)
        {
          var m := Offset(l, d1, dc, i);
          Point(was, l, i, cx, cy - m);
          cx, i := cx - 1, i + 1;
        }
      case 6 =>
        while i <= dc
          invariant i <= dc + 1 && cx == x - i
          invariant Drew(was, vram[..], l, i) && pattern == Turned(l.pattern, i)
        {
          var m := Offset(l, d1, dc, i);
          Point(was, l, i, cx, cy + m);
          cx, i := cx - 1, i + 1;
        }
      case _ =>
        while i <= dc
          invariant i <= dc + 1 && cy == y + i
          invariant Drew(was, vram[..], l, i) && pattern == Turned(l.pattern, i)
        {
          var m := Offset(l, d1, dc, i);
          Point(was, l, i, cx - m, cy);
          cy, i := cy + 1, i + 1;
        }
    }
  }

  lemma NothingDrawn(vram: seq<bv8>, l: Line)
    requires |vram| == VRAM && l.Valid()
    ensures Drew(vram, vram, l, 0) && Turned(l.pattern, 0) == l.pattern
  {
  }
}
