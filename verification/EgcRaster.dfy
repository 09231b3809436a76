/** The EGC raster operation and the VRAM writes it feeds. */
module EgcRaster {
  import opened Bits

  // ---- raster operations, one byte of one plane ---------------------------

  /** A product term, where the opcode admits it. */
  function Term(on: bool, a: bv8, b: bv8, c: bv8): bv8 {
    if on then a & b & c else 0
  }

  function Sum(a: bv8, b: bv8, c: bv8, d: bv8): bv8 {
    a | b | c | d
  }

  /** The general operation: each opcode bit admits one of the eight minterms of
      pattern, source and destination. */
  function OpeXX(ope: bv8, pat: bv8, src: bv8, dst: bv8): bv8 {
    Sum(Term(ope & 0x80 != 0, pat, src, dst), Term(ope & 0x40 != 0, !pat, src, dst),
        Term(ope & 0x20 != 0, pat, src, !dst), Term(ope & 0x10 != 0, !pat, src, !dst))
    | Sum(Term(ope & 0x08 != 0, pat, !src, dst), Term(ope & 0x04 != 0, !pat, !src, dst),
          Term(ope & 0x02 != 0, pat, !src, !dst), Term(ope & 0x01 != 0, !pat, !src, !dst))
  }

  /** The short form that ignores the destination. */
  function OpeND(ope: bv8, pat: bv8, src: bv8): bv8 {
    Sum(Term(ope & 0x80 != 0, pat, src, 0xff), Term(ope & 0x40 != 0, !pat, src, 0xff),
        Term(ope & 0x08 != 0, pat, !src, 0xff), Term(ope & 0x04 != 0, !pat, !src, 0xff))
  }

  /** The short form that ignores the pattern. */
  function OpeNP(ope: bv8, src: bv8, dst: bv8): bv8 {
    Sum(Term(ope & 0x80 != 0, 0xff, src, dst), Term(ope & 0x20 != 0, 0xff, src, !dst),
        Term(ope & 0x08 != 0, 0xff, !src, dst), Term(ope & 0x02 != 0, 0xff, !src, !dst))
  }

  predicate UsesND(ope: bv8) {
    ope in {0x05, 0x0a, 0x50, 0x55, 0x5a, 0x5f, 0xa0, 0xa5, 0xaa, 0xaf, 0xf5, 0xfa}
  }

  predicate UsesNP(ope: bv8) {
    ope in {0x03, 0x0c, 0x30, 0x33, 0x3c, 0x3f, 0xc3, 0xcc, 0xcf, 0xf3}
  }

  predicate UsesConst(ope: bv8) {
    ope == 0x00 || ope == 0x0f || ope == 0xc0 || ope == 0xf0 || ope == 0xfc || ope == 0xff
  }

  /** The table of 256 entries: which routine runs for an opcode, and its result. */
  function OpeFn(ope: bv8, pat: bv8, src: bv8, dst: bv8): bv8 {
    if ope == 0x00 then 0x00
    else if ope == 0x0f then !src
    else if ope == 0xc0 then src & dst
    else if ope == 0xf0 then src
    else if ope == 0xfc then src | (!src & dst)
    else if ope == 0xff then 0xff
    else if UsesND(ope) then OpeND(ope, pat, src)
    else if UsesNP(ope) then OpeNP(ope, src, dst)
    else OpeXX(ope, pat, src, dst)
  }

  lemma TermBit(on: bool, a: bv8, b: bv8, c: bv8, q: nat)
    requires q < 8
    ensures BitAt(Term(on, a, b, c), q) == (on && BitAt(a, q) && BitAt(b, q) && BitAt(c, q))
  {
    match q { case 0 => case 1 => case 2 => case 3 => case 4 => case 5 => case 6 => case _ => }
  }

  lemma SumBit(a: bv8, b: bv8, c: bv8, d: bv8, q: nat)
    requires q < 8
    ensures BitAt(Sum(a, b, c, d), q) == (BitAt(a, q) || BitAt(b, q) || BitAt(c, q) || BitAt(d, q))
  {
    hide BitAt;
    OrBit(a, b, q); OrBit(a | b, c, q); OrBit(a | b | c, d, q);
  }

  /** The opcode bit that decides a pixel with these inputs. */
  function Minterm(src: bool, dst: bool, pat: bool): nat {
    7 - ((if src then 4 else 0) + (if dst then 2 else 0) + (if pat then 1 else 0))
  }

  /** The truth table an opcode spells out. */
  function Table(ope: bv8, src: bool, dst: bool, pat: bool): bool {
    BitAt(ope, Minterm(src, dst, pat))
  }

  lemma GeneralBit(ope: bv8, pat: bv8, src: bv8, dst: bv8, q: nat)
    requires q < 8
    ensures BitAt(OpeXX(ope, pat, src, dst), q) == Table(ope, BitAt(src, q), BitAt(dst, q), BitAt(pat, q))
  {
    hide BitAt, Term, Sum;
    var a0, a1 := Term(ope & 0x80 != 0, pat, src, dst), Term(ope & 0x40 != 0, !pat, src, dst);
    var a2, a3 := Term(ope & 0x20 != 0, pat, src, !dst), Term(ope & 0x10 != 0, !pat, src, !dst);
    var b0, b1 := Term(ope & 0x08 != 0, pat, !src, dst), Term(ope & 0x04 != 0, !pat, !src, dst);
    var b2, b3 := Term(ope & 0x02 != 0, pat, !src, !dst), Term(ope & 0x01 != 0, !pat, !src, !dst);
    TermBit(ope & 0x80 != 0, pat, src, dst, q); TermBit(ope & 0x40 != 0, !pat, src, dst, q);
    TermBit(ope & 0x20 != 0, pat, src, !dst, q); TermBit(ope & 0x10 != 0, !pat, src, !dst, q);
    TermBit(ope & 0x08 != 0, pat, !src, dst, q); TermBit(ope & 0x04 != 0, !pat, !src, dst, q);
    TermBit(ope & 0x02 != 0, pat, !src, !dst, q); TermBit(ope & 0x01 != 0, !pat, !src, !dst, q);
    NotBit(pat, q); NotBit(src, q); NotBit(dst, q);
    SumBit(a0, a1, a2, a3, q); SumBit(b0, b1, b2, b3, q);
    OrBit(Sum(a0, a1, a2, a3), Sum(b0, b1, b2, b3), q);
    OpcodeBits(ope);
  }

  lemma OpcodeBits(ope: bv8)
    ensures (BitAt(ope, 0) <==> ope & 0x80 != 0) && (BitAt(ope, 1) <==> ope & 0x40 != 0)
    ensures (BitAt(ope, 2) <==> ope & 0x20 != 0) && (BitAt(ope, 3) <==> ope & 0x10 != 0)
    ensures (BitAt(ope, 4) <==> ope & 0x08 != 0) && (BitAt(ope, 5) <==> ope & 0x04 != 0)
    ensures (BitAt(ope, 6) <==> ope & 0x02 != 0) && (BitAt(ope, 7) <==> ope & 0x01 != 0)
  {
  }

  lemma NDPairs(ope: bv8)
    requires UsesND(ope)
    ensures (ope & 0x80 != 0 <==> ope & 0x20 != 0) && (ope & 0x40 != 0 <==> ope & 0x10 != 0)
    ensures (ope & 0x08 != 0 <==> ope & 0x02 != 0) && (ope & 0x04 != 0 <==> ope & 0x01 != 0)
  {
  }

  lemma NPPairs(ope: bv8)
    requires UsesNP(ope)
    ensures (ope & 0x80 != 0 <==> ope & 0x40 != 0) && (ope & 0x20 != 0 <==> ope & 0x10 != 0)
    ensures (ope & 0x08 != 0 <==> ope & 0x04 != 0) && (ope & 0x02 != 0 <==> ope & 0x01 != 0)
  {
  }

  lemma NDBit(ope: bv8, pat: bv8, src: bv8, dst: bv8, q: nat)
    requires q < 8 && UsesND(ope)
    ensures BitAt(OpeND(ope, pat, src), q) == Table(ope, BitAt(src, q), BitAt(dst, q), BitAt(pat, q))
  {
    hide BitAt, Term, Sum, UsesND;
    NDPairs(ope);
    TermBit(ope & 0x80 != 0, pat, src, 0xff, q); TermBit(ope & 0x40 != 0, !pat, src, 0xff, q);
    TermBit(ope & 0x08 != 0, pat, !src, 0xff, q); TermBit(ope & 0x04 != 0, !pat, !src, 0xff, q);
    NotBit(pat, q); NotBit(src, q);
    SumBit(Term(ope & 0x80 != 0, pat, src, 0xff), Term(ope & 0x40 != 0, !pat, src, 0xff),
           Term(ope & 0x08 != 0, pat, !src, 0xff), Term(ope & 0x04 != 0, !pat, !src, 0xff), q);
    OpcodeBits(ope);
  }

  lemma NPBit(ope: bv8, pat: bv8, src: bv8, dst: bv8, q: nat)
    requires q < 8 && UsesNP(ope)
    ensures BitAt(OpeNP(ope, src, dst), q) == Table(ope, BitAt(src, q), BitAt(dst, q), BitAt(pat, q))
  {
    hide BitAt, Term, Sum, UsesNP;
    NPPairs(ope);
    TermBit(ope & 0x80 != 0, 0xff, src, dst, q); TermBit(ope & 0x20 != 0, 0xff, src, !dst, q);
    TermBit(ope & 0x08 != 0, 0xff, !src, dst, q); TermBit(ope & 0x02 != 0, 0xff, !src, !dst, q);
    NotBit(src, q); NotBit(dst, q);
    SumBit(Term(ope & 0x80 != 0, 0xff, src, dst), Term(ope & 0x20 != 0, 0xff, src, !dst),
           Term(ope & 0x08 != 0, 0xff, !src, dst), Term(ope & 0x02 != 0, 0xff, !src, !dst), q);
    OpcodeBits(ope);
  }

  lemma ConstTable(ope: bv8, s: bool, d: bool, p: bool)
    requires UsesConst(ope)
    ensures Table(ope, s, d, p)
         == if ope == 0x00 then false else if ope == 0x0f then !s else if ope == 0xc0 then s && d
            else if ope == 0xf0 then s else if ope == 0xfc then s || d else true
  {
    OpcodeBits(ope);
    hide BitAt;
  }

  lemma EitherBit(src: bv8, dst: bv8, q: nat)
    requires q < 8
    ensures BitAt(src | (!src & dst), q) == (BitAt(src, q) || BitAt(dst, q))
  {
    match q { case 0 => case 1 => case 2 => case 3 => case 4 => case 5 => case 6 => case _ => }
  }

  lemma ConstBit(ope: bv8, pat: bv8, src: bv8, dst: bv8, q: nat)
    requires q < 8
    requires UsesConst(ope)
    ensures BitAt(OpeFn(ope, pat, src, dst), q) == Table(ope, BitAt(src, q), BitAt(dst, q), BitAt(pat, q))
  {
    hide OpeFn, BitAt, Table;
    PickedConst(ope, pat, src, dst);
    ConstTable(ope, BitAt(src, q), BitAt(dst, q), BitAt(pat, q));
    if ope == 0xc0 {
      AndBit(src, dst, q);
    } else if ope == 0xfc {
      EitherBit(src, dst, q);
    } else {
      NotBit(src, q);
    }
  }

  lemma PickedConst(ope: bv8, pat: bv8, src: bv8, dst: bv8)
    ensures ope == 0x00 ==> OpeFn(ope, pat, src, dst) == 0x00
    ensures ope == 0x0f ==> OpeFn(ope, pat, src, dst) == !src
    ensures ope == 0xc0 ==> OpeFn(ope, pat, src, dst) == src & dst
    ensures ope == 0xf0 ==> OpeFn(ope, pat, src, dst) == src
    ensures ope == 0xfc ==> OpeFn(ope, pat, src, dst) == src | (!src & dst)
    ensures ope == 0xff ==> OpeFn(ope, pat, src, dst) == 0xff
  {
    hide UsesND, UsesNP, OpeND, OpeNP, OpeXX;
  }

  lemma Picked(ope: bv8, pat: bv8, src: bv8, dst: bv8)
    ensures UsesND(ope) ==> OpeFn(ope, pat, src, dst) == OpeND(ope, pat, src)
    ensures UsesNP(ope) ==> OpeFn(ope, pat, src, dst) == OpeNP(ope, src, dst)
    ensures !UsesND(ope) && !UsesNP(ope) && !UsesConst(ope) ==> OpeFn(ope, pat, src, dst) == OpeXX(ope, pat, src, dst)
  {
    hide OpeND, OpeNP, OpeXX;
  }

  /** An opcode is the truth table of its operation, whichever of the table's
      routines runs: each result bit is looked up in the opcode by the source,
      destination and pattern bits. */
  lemma OpcodeIsTruthTable(ope: bv8, pat: bv8, src: bv8, dst: bv8, q: nat)
    requires q < 8
    ensures BitAt(OpeFn(ope, pat, src, dst), q) == Table(ope, BitAt(src, q), BitAt(dst, q), BitAt(pat, q))
  {
    hide *;
    Picked(ope, pat, src, dst);
    if UsesND(ope) {
      NDBit(ope, pat, src, dst, q);
    } else if UsesNP(ope) {
      NPBit(ope, pat, src, dst, q);
    } else if UsesConst(ope) {
      ConstBit(ope, pat, src, dst, q);
    } else {
      GeneralBit(ope, pat, src, dst, q);
    }
  }

  /** Every specialised routine computes what the general one would. */
  lemma SpecialisedAgree(ope: bv8, pat: bv8, src: bv8, dst: bv8)
    ensures OpeFn(ope, pat, src, dst) == OpeXX(ope, pat, src, dst)
  {
    hide OpeFn, OpeXX, BitAt, Table;
    forall q | 0 <= q < 8
      ensures BitAt(OpeFn(ope, pat, src, dst), q) == BitAt(OpeXX(ope, pat, src, dst), q)
    {
      OpcodeIsTruthTable(ope, pat, src, dst, q);
      GeneralBit(ope, pat, src, dst, q);
    }
    SameBits(OpeFn(ope, pat, src, dst), OpeXX(ope, pat, src, dst));
  }

  /** Opcodes by what they compute of a source, a destination and a pattern bit. */
  lemma NamedTables(s: bool, d: bool, p: bool)
    ensures !Table(0x00, s, d, p) && Table(0xff, s, d, p)
    ensures Table(0xf0, s, d, p) == s && Table(0x0f, s, d, p) == !s
    ensures Table(0xcc, s, d, p) == d && Table(0x33, s, d, p) == !d
    ensures Table(0xaa, s, d, p) == p && Table(0x55, s, d, p) == !p
    ensures Table(0xc0, s, d, p) == (s && d) && Table(0xfc, s, d, p) == (s || d)
    ensures Table(0x3c, s, d, p) == (s != d) && Table(0x5a, s, d, p) == (s != p) && Table(0x66, s, d, p) == (d != p)
    ensures Table(0xca, s, d, p) == if s then d else p
  {
  }
}
