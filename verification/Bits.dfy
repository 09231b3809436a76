/** Bytes as eight bits, seen in either scan direction. */
module Bits {

  /** Bit `q` of `b`, counted from the most significant end. */
  function BitAt(b: bv8, q: nat): bool {
    match q
    case 0 => b & 0x80 != 0
    case 1 => b & 0x40 != 0
    case 2 => b & 0x20 != 0
    case 3 => b & 0x10 != 0
    case 4 => b & 0x08 != 0
    case 5 => b & 0x04 != 0
    case 6 => b & 0x02 != 0
    case _ => b & 0x01 != 0
  }

  /** Bit `q` in the order a scan meets them: most significant first going up
      the display, least significant first going down. */
  function Bit(down: bool, b: bv8, q: nat): bool
    requires q < 8
  {
    BitAt(b, if down then 7 - q else q)
  }

  /** `b << n` and `b >> n`, one literal shift for each amount a byte can move. */
  function Shl(b: bv8, n: nat): bv8 {
    match n
    case 0 => b case 1 => b << 1 case 2 => b << 2 case 3 => b << 3
    case 4 => b << 4 case 5 => b << 5 case 6 => b << 6 case 7 => b << 7
    case _ => 0
  }

  function Shr(b: bv8, n: nat): bv8 {
    match n
    case 0 => b case 1 => b >> 1 case 2 => b >> 2 case 3 => b >> 3
    case 4 => b >> 4 case 5 => b >> 5 case 6 => b >> 6 case 7 => b >> 7
    case _ => 0
  }

  /** Shift towards the later end of the scan, zero filled. */
  function Later(down: bool, b: bv8, n: nat): bv8 {
    if down then Shl(b, n) else Shr(b, n)
  }

  /** Shift towards the earlier end of the scan, zero filled. */
  function Earlier(down: bool, b: bv8, n: nat): bv8 {
    if down then Shr(b, n) else Shl(b, n)
  }

  lemma ShlBit(b: bv8, n: nat, q: nat)
    requires 0 < n < 8 && q < 8
    ensures BitAt(Shl(b, n), q) == (q + n < 8 && BitAt(b, q + n))
  {
  }

  lemma ShrBit(b: bv8, n: nat, q: nat)
    requires 0 < n < 8 && q < 8
    ensures BitAt(Shr(b, n), q) == (q >= n && BitAt(b, q - n))
  {
  }

  lemma OrBit(a: bv8, b: bv8, q: nat)
    requires q < 8
    ensures BitAt(a | b, q) == (BitAt(a, q) || BitAt(b, q))
  {
    match q { case 0 => case 1 => case 2 => case 3 => case 4 => case 5 => case 6 => case _ => }
  }

  lemma NotBit(a: bv8, q: nat)
    requires q < 8
    ensures BitAt(!a, q) == !BitAt(a, q)
    ensures BitAt(0xff, q) && !BitAt(0x00, q)
  {
    match q { case 0 => case 1 => case 2 => case 3 => case 4 => case 5 => case 6 => case _ => }
  }

  lemma AndBit(a: bv8, b: bv8, q: nat)
    requires q < 8
    ensures BitAt(a & b, q) == (BitAt(a, q) && BitAt(b, q))
  {
    match q { case 0 => case 1 => case 2 => case 3 => case 4 => case 5 => case 6 => case _ => }
  }

  lemma AndNotBit(a: bv8, b: bv8, q: nat)
    requires q < 8
    ensures BitAt(a & !b, q) == (BitAt(a, q) && !BitAt(b, q))
  {
    match q { case 0 => case 1 => case 2 => case 3 => case 4 => case 5 => case 6 => case _ => }
  }

  /** Moving a byte `n` places later leaves `n` clear bits in front of it. */
  lemma LaterBit(down: bool, b: bv8, n: nat, q: nat)
    requires 0 < n < 8 && q < 8
    ensures Bit(down, Later(down, b, n), q) == (q >= n && Bit(down, b, q - n))
  {
    if down { ShlBit(b, n, 7 - q); } else { ShrBit(b, n, q); }
  }

  /** Joining the tail of one byte to the head of the next is the eight-bit
      window that starts `n` bits into the pair. */
  lemma JoinBit(down: bool, cur: bv8, next: bv8, n: nat, q: nat)
    requires 0 < n < 8 && q < 8
    ensures Bit(down, Earlier(down, cur, n) | Later(down, next, 8 - n), q)
         == if q + n < 8 then Bit(down, cur, q + n) else Bit(down, next, q + n - 8)
  {
    var at := if down then 7 - q else q;
    hide BitAt, Shl, Shr;
    OrBit(Earlier(down, cur, n), Later(down, next, 8 - n), at);
    LaterBit(down, next, 8 - n, q);
    if down { ShrBit(cur, n, at); } else { ShlBit(cur, n, at); }
  }

  /** A byte is determined by its bits. */
  lemma SameBits(a: bv8, b: bv8)
    requires forall q | 0 <= q < 8 :: BitAt(a, q) == BitAt(b, q)
    ensures a == b
  {
    assert BitAt(a, 0) == BitAt(b, 0) && BitAt(a, 1) == BitAt(b, 1);
    assert BitAt(a, 2) == BitAt(b, 2) && BitAt(a, 3) == BitAt(b, 3);
    assert BitAt(a, 4) == BitAt(b, 4) && BitAt(a, 5) == BitAt(b, 5);
    assert BitAt(a, 6) == BitAt(b, 6) && BitAt(a, 7) == BitAt(b, 7);
  }
}
