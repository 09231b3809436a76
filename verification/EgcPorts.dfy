/** The EGC's registers as the guest writes them: what each bit decides, and what plain
    writes to the planes then do. */
module EgcPorts {
  import opened Bits
  import opened EgcPipeline
  import opened EgcRuns
  import opened EgcVram
  import Funnel

  function Low(w: bv16): bv8 { (w & 0xff) as bv8 }

  function High(w: bv16): bv8 { (w >> 8) as bv8 }

  /** Bit `n` of a register, 0 the least significant. */
  predicate RegBit(w: bv16, n: nat)
    requires n < 16
  {
    if n < 8 then BitAt(Low(w), 7 - n) else BitAt(High(w), 15 - n)
  }

  lemma HighBits(w: bv16)
    ensures RegBit(w, 8) <==> w & 0x0100 != 0
    ensures RegBit(w, 9) <==> w & 0x0200 != 0
    ensures RegBit(w, 10) <==> w & 0x0400 != 0
    ensures RegBit(w, 11) <==> w & 0x0800 != 0
    ensures RegBit(w, 12) <==> w & 0x1000 != 0
    ensures RegBit(w, 13) <==> w & 0x2000 != 0
    ensures RegBit(w, 14) <==> w & 0x4000 != 0
  {
  }

  lemma LowBits(w: bv16)
    ensures RegBit(w, 0) <==> w & 1 != 0
    ensures RegBit(w, 1) <==> w & 2 != 0
    ensures RegBit(w, 2) <==> w & 4 != 0
    ensures RegBit(w, 3) <==> w & 8 != 0
  {
  }

  /** Plane `p`, of blue, red, green and the fourth, is open exactly when bit `p` of the
      access register is clear. */
  lemma AccessBits(e: Egc, p: nat)
    requires p < 4
    ensures e.PlaneOpen(p) <==> !RegBit(e.access, p)
  {
    LowBits(e.access);
  }

  /** Where plane `p` keeps a byte, in numbers. */
  lemma PlanesLie(e: Egc, p: nat, addr: nat)
    requires p < 4
    ensures e.Cell(p, addr) == [0xa8000, 0xb0000, 0xb8000, 0xe0000][p] + addr % 0x8000 + if e.page then 0x100000 else 0
  {
  }

  /** What bits 8 to 13 of the operation register choose. */
  lemma OperationBits(e: Egc)
    ensures e.Raster() <==> !RegBit(e.ope, 12) && RegBit(e.ope, 11)
    ensures e.Fill() <==> RegBit(e.ope, 12) && !RegBit(e.ope, 11)
    ensures e.ReadPushes() <==> !RegBit(e.ope, 10)
    ensures e.WordPushes() <==> RegBit(e.ope, 12) || !RegBit(e.ope, 11) || RegBit(e.ope, 10)
    ensures e.ope & 0x0300 == 0x0100 <==> !RegBit(e.ope, 9) && RegBit(e.ope, 8)
    ensures e.ope & 0x0300 == 0x0200 <==> RegBit(e.ope, 9) && !RegBit(e.ope, 8)
    ensures e.ope & 0x2000 != 0 <==> RegBit(e.ope, 13)
  {
    HighBits(e.ope);
    hide RegBit;
  }

  /** What bits 8, 9, 13 and 14 of the colour register choose: the plane a read answers
      with, and the colour, if any, in place of the pattern register. */
  lemma ColourBits(e: Egc, p: nat, ext: nat)
    requires p < 4 && ext < 2 && e.patreg.Length == 8 && |e.fgc| == 4 && |e.bgc| == 4
    ensures e.ReadPlane() == (if RegBit(e.fgbg, 9) then 2 else 0) + if RegBit(e.fgbg, 8) then 1 else 0
    ensures e.Coloured() <==> RegBit(e.fgbg, 13) || RegBit(e.fgbg, 14)
    ensures e.FillColour() <==> RegBit(e.fgbg, 13) != RegBit(e.fgbg, 14)
    ensures e.PatternHeld(p, ext)
         == match (RegBit(e.fgbg, 14), RegBit(e.fgbg, 13))
            case (false, false) => e.patreg[2 * p + ext]
            case (false, true) => e.bgc[p]
            case (true, false) => e.fgc[p]
            case (true, true) => if p < 2 then e.fgc[p] else e.bgc[p]
  {
    HighBits(e.fgbg);
    PlaneBits(e.fgbg);
    hide RegBit;
  }

  /** When a byte written goes through the funnel, and which bits of it may then change:
      the mask register's, and in the masked modes those the funnel enabled. */
  lemma ByteBits(e: Egc, word: bool, ext: nat)
    requires ext < 2 && e.pipe.Shape() && |e.mask| == 2
    ensures var masked := if RegBit(e.ope, 12) then !RegBit(e.ope, 11) && RegBit(e.fgbg, 13) == RegBit(e.fgbg, 14)
                          else RegBit(e.ope, 11);
      && (e.BytePushes() <==> masked && RegBit(e.ope, 10))
      && e.Mask2(word, ext) == if word || masked then e.mask[ext] & e.pipe.srcmask[ext] else e.mask[ext]
  {
    hide RegBit, Egc.Raster, Egc.Fill, Egc.FillColour;
    OperationBits(e);
    FillBits(e);
  }

  lemma FillBits(e: Egc)
    ensures e.FillColour() <==> RegBit(e.fgbg, 13) != RegBit(e.fgbg, 14)
  {
    HighBits(e.fgbg);
    hide RegBit;
  }

  lemma PlaneBits(w: bv16)
    ensures (w >> 8) & 3 == (if w & 0x0200 != 0 then 2 else 0) | (if w & 0x0100 != 0 then 1 else 0)
  {
  }

  /** What a write offers, by those bits: the raster result, a colour, the funnel's latch
      or the pattern register, or the byte written. */
  lemma OfferedBits(e: Egc, word: bool, p: nat, ext: nat, value: bv8, was: bv8)
    requires e.Valid() && p < 4 && ext < 2
    ensures !RegBit(e.ope, 12) && !RegBit(e.ope, 11) ==> e.Data(word, p, ext, value, was) == value
    ensures RegBit(e.ope, 12) && RegBit(e.ope, 11) ==> e.Data(word, p, ext, value, was) == value
    ensures RegBit(e.ope, 12) && !RegBit(e.ope, 11) ==>
      e.Data(word, p, ext, value, was)
      == match (RegBit(e.fgbg, 14), RegBit(e.fgbg, 13))
         case (false, true) => e.bgc[p]
         case (true, false) => e.fgc[p]
         case _ => if word then e.patreg[2 * p + ext] else e.pipe.src[2 * p + ext]
  {
    HighBits(e.ope);
    HighBits(e.fgbg);
    hide RegBit, Regs.Valid;
  }

  /** Under a full mask a plane's byte becomes what is offered exactly when its access bit
      is clear, and stays otherwise. */
  lemma FullMaskWrites(e: Egc, word: bool, p: nat, ext: nat, value: bv8, was: bv8)
    requires e.Valid() && p < 4 && ext < 2 && e.Mask2(word, ext) == 0xff
    ensures e.Written(word, p, ext, value, was)
         == if RegBit(e.access, p) then was else e.Data(word, p, ext, value, was)
  {
    hide RegBit, Regs.Valid, Egc.Data, Egc.PlaneOpen;
    AccessBits(e, p);
    MergeAll(was, e.Data(word, p, ext, value, was));
  }

  lemma MergeAll(was: bv8, data: bv8)
    ensures Merge(was, data, 0xff) == data
  {
  }

  // ---- writes to the ports ------------------------------------------------

  /** A colour number spread over the planes: all of a plane's bits are bit `p` of it. */
  function Spread(value: bv16): (c: seq<bv8>)
    ensures |c| == 4 && forall p | 0 <= p < 4 :: c[p] == if RegBit(value, p) then 0xff else 0
  {
    LowBits(value);
    match value & 15
    case 0 => [0x00, 0x00, 0x00, 0x00] case 1 => [0xff, 0x00, 0x00, 0x00]
    case 2 => [0x00, 0xff, 0x00, 0x00] case 3 => [0xff, 0xff, 0x00, 0x00]
    case 4 => [0x00, 0x00, 0xff, 0x00] case 5 => [0xff, 0x00, 0xff, 0x00]
    case 6 => [0x00, 0xff, 0xff, 0x00] case 7 => [0xff, 0xff, 0xff, 0x00]
    case 8 => [0x00, 0x00, 0x00, 0xff] case 9 => [0xff, 0x00, 0x00, 0xff]
    case 10 => [0x00, 0xff, 0x00, 0xff] case 11 => [0xff, 0xff, 0x00, 0xff]
    case 12 => [0x00, 0x00, 0xff, 0xff] case 13 => [0xff, 0x00, 0xff, 0xff]
    case 14 => [0x00, 0xff, 0xff, 0xff] case _ => [0xff, 0xff, 0xff, 0xff]
  }

  /** A word written to one of the eight ports. The mask register takes a value only
      while no colour stands in for the pattern. */
  method OutWord(e: Egc, port: nat, value: bv16)
    requires e.Valid()
    modifies e, e.pipe, e.pipe.srcmask
    ensures e.Valid() && e.page == old(e.page)
    ensures e.access == (if port % 16 == 0 then value else old(e.access))
    ensures e.fgbg == (if port % 16 == 2 then value else old(e.fgbg))
    ensures e.ope == (if port % 16 == 4 then value else old(e.ope))
    ensures e.fgc == (if port % 16 == 6 then Spread(value) else old(e.fgc))
    ensures e.bgc == (if port % 16 == 10 then Spread(value) else old(e.bgc))
    ensures e.mask == if port % 16 == 8 && !RegBit(e.fgbg, 13) && !RegBit(e.fgbg, 14) then [Low(value), High(value)]
                      else old(e.mask)
    ensures port % 16 == 12 ==> e.pipe.egc.sft == value as nat && e.pipe.egc.leng == old(e.pipe.egc.leng)
    ensures port % 16 == 14 ==> e.pipe.egc.leng == value as nat && e.pipe.egc.sft == old(e.pipe.egc.sft)
    ensures port % 16 == 12 || port % 16 == 14 ==>
      e.pipe.egc.Armed() && e.pipe.srcmask[0] == 0xff && e.pipe.srcmask[1] == 0xff
    ensures port % 16 != 12 && port % 16 != 14 ==>
      e.pipe.egc == old(e.pipe.egc) && e.pipe.srcmask[..] == old(e.pipe.srcmask[..])
  {
    hide Regs.Valid, Regs.Armed, RegBit, Low, High, Pipeline.WordRun;
    HighBits(e.fgbg);
    match port % 16
    case 0 => e.access := value;
    case 2 => e.fgbg := value;
    case 4 => e.ope := value;
    case 6 => e.fgc := Spread(value);
    case 8 => if !e.Coloured() { e.mask := [Low(value), High(value)]; }
    case 10 => e.bgc := Spread(value);
    case 12 => e.pipe.WriteSft(value as nat);
    case 14 => e.pipe.WriteLeng(value as nat);
    case _ =>
  }

  // ---- writes right after reset -------------------------------------------

  /** The pipeline a reset leaves lets a whole word through. */
  lemma OpenAfterReset(pipe: Pipeline, st: Funnel.State, w: seq<bool>)
    requires pipe.Shape() && |pipe.bytes| == 4 && pipe.egc.sft == 0
    requires st.Valid() && st.Armed() && st.cfg == Funnel.Config(0, 0, 16) && |w| == 16
    requires pipe.View(0) == Funnel.Step(st, w)
    ensures pipe.srcmask[0] == 0xff && pipe.srcmask[1] == 0xff
  {
    hide BitAt;
    var m := pipe.View(0).mask;
    assert forall x | 0 <= x < 16 :: m[x];
    forall q | 0 <= q < 8 ensures BitAt(pipe.srcmask[0], q) && BitAt(pipe.srcmask[1], q) {
      assert m[q] == BitAt(pipe.srcmask[0], q) && m[q + 8] == BitAt(pipe.srcmask[1], q);
    }
    AllBits(pipe.srcmask[0]);
    AllBits(pipe.srcmask[1]);
  }

  lemma AllBits(b: bv8)
    requires forall q | 0 <= q < 8 :: BitAt(b, q)
    ensures b == 0xff
  {
    forall q | 0 <= q < 8 ensures BitAt(b, q) == BitAt(0xff, q) { NotBit(b, q); }
    SameBits(b, 0xff);
  }

  /** A word written right after reset under any access register: the planes whose bit is
      clear hold it, the others nothing. */
  method WordAfterReset(access: bv16, addr: nat, lo: bv8, hi: bv8) returns (e: Egc)
    requires addr % 2 == 0
    ensures fresh(e) && e.Valid()
    ensures forall p | 0 <= p < 4 ::
      var at := [0xa8000, 0xb0000, 0xb8000, 0xe0000][p] + addr % 0x8000;
      && e.mem[at] == (if RegBit(access, p) then 0 else lo) && e.mem[at + 1] == (if RegBit(access, p) then 0 else hi)
  {
    hide Regs.Valid, RegBit, Egc.Written, Egc.Cell, Tracks, Loaded, WordView, Pipeline.View, Funnel.Step, Regs.Armed;
    hide Egc.WordPushes, Egc.PatternHeld, Egc.PatternKept;
    e := new Egc();
    e.access := access;
    ghost var st := ResetView(e.pipe);
    ghost var w := WordView(e.pipe.egc.Down(), lo, hi);
    PlainMode(e);
    e.WriteWord(addr, lo, hi);
    OpenAfterReset(e.pipe, st, w);
    forall p | 0 <= p < 4
      ensures var at := [0xa8000, 0xb0000, 0xb8000, 0xe0000][p] + addr % 0x8000;
        e.mem[at] == (if RegBit(access, p) then 0 else lo) && e.mem[at + 1] == (if RegBit(access, p) then 0 else hi)
    {
      PlainWord(e, p, addr, lo, hi);
    }
  }

  /** And a byte. */
  method ByteAfterReset(access: bv16, addr: nat, value: bv8) returns (e: Egc)
    ensures fresh(e) && e.Valid()
    ensures forall p | 0 <= p < 4 ::
      e.mem[[0xa8000, 0xb0000, 0xb8000, 0xe0000][p] + addr % 0x8000] == if RegBit(access, p) then 0 else value
  {
    hide Regs.Valid, RegBit, Egc.Written, Egc.Cell, Pipeline.WordRun, Regs.Armed;
    hide Egc.BytePushes, Egc.PatternHeld, Egc.PatternKept;
    e := new Egc();
    e.access := access;
    e.WriteByte(addr, value);
    PlainMode(e);
    forall p | 0 <= p < 4
      ensures e.mem[[0xa8000, 0xb0000, 0xb8000, 0xe0000][p] + addr % 0x8000] == if RegBit(access, p) then 0 else value
    {
      PlanesLie(e, p, addr);
      PlainByte(e, false, p, addr % 2, value, 0);
    }
  }

  lemma PlainMode(e: Egc)
    requires e.Valid() && e.ope == 0
    ensures e.WordPushes() && !e.BytePushes()
    ensures forall ext | 0 <= ext < 2 :: e.Mask2(false, ext) == e.mask[ext]
  {
    hide Regs.Valid;
  }

  lemma PlainByte(e: Egc, word: bool, p: nat, ext: nat, value: bv8, was: bv8)
    requires e.Valid() && p < 4 && ext < 2 && e.ope == 0 && e.Mask2(word, ext) == 0xff
    ensures e.Written(word, p, ext, value, was) == if RegBit(e.access, p) then was else value
  {
    hide Regs.Valid, RegBit, Egc.Written, Egc.Mask2;
    FullMaskWrites(e, word, p, ext, value, was);
  }

  lemma PlainWord(e: Egc, p: nat, addr: nat, lo: bv8, hi: bv8)
    requires e.Valid() && p < 4 && e.ope == 0 && !e.page && addr % 2 == 0
    requires e.mask == [0xff, 0xff] && e.pipe.srcmask[0] == 0xff && e.pipe.srcmask[1] == 0xff
    requires e.ByteAt(p, addr, 0) == e.Written(true, p, 0, lo, 0)
    requires e.ByteAt(p, addr, 1) == e.Written(true, p, 1, hi, 0)
    ensures var at := [0xa8000, 0xb0000, 0xb8000, 0xe0000][p] + addr % 0x8000;
      e.mem[at] == (if RegBit(e.access, p) then 0 else lo) && e.mem[at + 1] == if RegBit(e.access, p) then 0 else hi
  {
    hide Regs.Valid, RegBit, Egc.Written, Egc.Cell, PlaneBase;
    PlanesLie(e, p, addr);
    PlanesLie(e, p, addr + 1);
    PlainByte(e, true, p, 0, lo, 0);
    PlainByte(e, true, p, 1, hi, 0);
  }

  lemma ResetView(pipe: Pipeline) returns (st: Funnel.State)
    requires pipe.WordRun() && pipe.Fresh() && pipe.egc.sft == 0 && pipe.egc.leng == 15
    ensures st == pipe.View(0) && st.Valid() && st.Armed() && st.cfg == Funnel.Config(0, 0, 16)
  {
    hide Tracks, Loaded;
    st := pipe.View(0);
    ViewIsTransfer(pipe, 0);
  }
}
