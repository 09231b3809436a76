/** EGC accesses to the four graphics planes. */
module EgcVram {
  import opened Bits
  import opened EgcShift
  import opened EgcPipeline
  import opened EgcRaster
  import opened EgcRuns
  import Funnel

  const MEM_BYTES := 0x200000
  const VRAM_STEP := 0x100000

  function PlaneBase(p: nat): nat
    requires p < 4
  {
    match p
    case 0 => 0x0a8000
    case 1 => 0x0b0000
    case 2 => 0x0b8000
    case _ => 0x0e0000
  }

  /** Replace the bits a mask selects. */
  function Merge(was: bv8, data: bv8, m: bv8): bv8 {
    (was & !m) | (data & m)
  }

  lemma MergeBit(was: bv8, data: bv8, m: bv8, q: nat)
    requires q < 8
    ensures BitAt(Merge(was, data, m), q) == if BitAt(m, q) then BitAt(data, q) else BitAt(was, q)
  {
    hide BitAt;
    AndNotBit(was, m, q); AndBit(data, m, q); OrBit(was & !m, data & m, q);
  }

  /** One byte stored for each of the four planes. */
  predicate Fourfold(buf: seq<bv8>, at: int, value: bv8) {
    0 <= at && at + 12 < |buf| && buf[at] == buf[at + 4] == buf[at + 8] == buf[at + 12] == value
  }

  class Egc {
    const pipe: Pipeline
    const mem: array<bv8>
    const patreg: array<bv8>   // byte `ext` of plane p at 2 * p + ext
    var access: bv16
    var fgbg: bv16
    var ope: bv16
    var mask: seq<bv8>         // the mask register, low byte first
    var fgc: seq<bv8>          // the colour each plane is filled with, both bytes alike
    var bgc: seq<bv8>
    var page: bool             // the access page

    ghost predicate Valid()
      reads this, pipe
    {
      && pipe.Valid() && mem.Length == MEM_BYTES && patreg.Length == 8
      && |mask| == 2 && |fgc| == 4 && |bgc| == 4
      && patreg != pipe.src
    }

    /** Reset: nothing masked, every plane open, a sixteen-bit run armed, memory clear. */
    constructor ()
      ensures Valid() && fresh(pipe) && fresh(mem) && fresh(patreg)
      ensures fresh(pipe.buf) && fresh(pipe.src) && fresh(pipe.srcmask)
      ensures pipe.egc.Armed() && pipe.WordRun() && pipe.Fresh()
      ensures access == 0xfff0 && fgbg == 0x00ff && ope == 0 && mask == [0xff, 0xff] && !page
      ensures fgc == bgc == [0, 0, 0, 0] && pipe.egc.sft == 0 && pipe.egc.leng == 0x000f
      ensures pipe.srcmask[0] == pipe.srcmask[1] == 0xff
      ensures (forall a | 0 <= a < MEM_BYTES :: mem[a] == 0) && (forall i | 0 <= i < 8 :: patreg[i] == 0)
    {
      hide Regs.Valid, Regs.Armed, Pipeline.WordRun;
      pipe := new Pipeline();
      mem := new bv8[MEM_BYTES](_ => 0);
      patreg := new bv8[8](_ => 0);
      access, fgbg, ope := 0xfff0, 0x00ff, 0x0000;
      mask, fgc, bgc, page := [0xff, 0xff], [0, 0, 0, 0], [0, 0, 0, 0], false;
    }

    /** Where plane `p` keeps the byte at `addr`. */
    function Cell(p: nat, addr: nat): (at: nat)
      requires p < 4
      reads this
      ensures at + 1 < MEM_BYTES
    {
      PlaneBase(p) + addr % 0x8000 + (if page then VRAM_STEP else 0)
    }

    // ---- what an access does with the pipeline and the mask ----------------

    predicate Raster() reads this { ope & 0x1800 == 0x0800 }

    predicate Fill() reads this { ope & 0x1800 == 0x1000 }

    predicate FillColour() reads this { fgbg & 0x6000 == 0x2000 || fgbg & 0x6000 == 0x4000 }

    predicate WordPushes() reads this { !Raster() || ope & 0x400 != 0 }

    predicate BytePushes() reads this { (Raster() || (Fill() && !FillColour())) && ope & 0x400 != 0 }

    predicate ByteMasked() reads this { Raster() || (Fill() && !FillColour()) }

    predicate Coloured() reads this { fgbg & 0x6000 != 0 }

    /** The pattern of a raster operation is the source itself. */
    predicate PatternIsSource() reads this { !Coloured() && ope & 0x0300 == 0x0100 }

    /** Any other pattern: a colour, or what the pattern register holds. */
    function PatternHeld(p: nat, ext: nat): bv8
      requires p < 4 && ext < 2 && patreg.Length == 8 && |fgc| == 4 && |bgc| == 4
      reads this, patreg
    {
      if fgbg & 0x6000 == 0x2000 then bgc[p]
      else if fgbg & 0x6000 == 0x4000 then fgc[p]
      else if fgbg & 0x6000 == 0x6000 then if p < 2 then fgc[p] else bgc[p]
      else patreg[2 * p + ext]
    }

    /** The same, seen before the write: in the pattern-from-destination mode it will be
        the destination's own byte. */
    function PatternKept(p: nat, ext: nat, dst: bv8): bv8
      requires p < 4 && ext < 2 && patreg.Length == 8 && |fgc| == 4 && |bgc| == 4
      reads this, patreg
    {
      if !Coloured() && ope & 0x0300 == 0x0200 then dst else PatternHeld(p, ext)
    }

    /** The pattern byte a raster operation combines. */
    function Pattern(p: nat, ext: nat): bv8
      requires p < 4 && ext < 2 && pipe.Shape() && patreg.Length == 8 && |fgc| == 4 && |bgc| == 4
      reads this, pipe, pipe.src, patreg
    {
      if PatternIsSource() then pipe.src[2 * p + ext] else PatternHeld(p, ext)
    }

    /** The low byte of the operation register. */
    function Opcode(): bv8
      reads this
    {
      (ope & 0xff) as bv8
    }

    /** The byte a write offers plane `p`. */
    function Data(word: bool, p: nat, ext: nat, value: bv8, dst: bv8): bv8
      requires p < 4 && ext < 2 && pipe.Shape() && patreg.Length == 8 && |fgc| == 4 && |bgc| == 4
      reads this, pipe, pipe.src, patreg
    {
      if Raster() then OpeFn(Opcode(), Pattern(p, ext), pipe.src[2 * p + ext], dst)
      else if Fill() then
        if fgbg & 0x6000 == 0x2000 then bgc[p]
        else if fgbg & 0x6000 == 0x4000 then fgc[p]
        else if word then patreg[2 * p + ext]
        else pipe.src[2 * p + ext]
      else value
    }

    /** The bits of a byte a write may change: the mask register, and in the
        masked modes the bits the pipeline enabled. */
    function Mask2(word: bool, ext: nat): bv8
      requires ext < 2 && pipe.Shape() && |mask| == 2
      reads this, pipe, pipe.srcmask
    {
      if word || ByteMasked() then mask[ext] & pipe.srcmask[ext] else mask[ext]
    }

    predicate PlaneOpen(p: nat)
      requires p < 4
      reads this
    {
      access & (match p case 0 => 1 case 1 => 2 case 2 => 4 case _ => 8) == 0
    }

    /** The new byte of plane `p`. */
    function Written(word: bool, p: nat, ext: nat, value: bv8, was: bv8): bv8
      requires p < 4 && ext < 2 && pipe.Shape() && patreg.Length == 8 && |fgc| == 4 && |bgc| == 4 && |mask| == 2
      reads this, pipe, pipe.src, pipe.srcmask, patreg
    {
      if PlaneOpen(p) then Merge(was, Data(word, p, ext, value, was), Mask2(word, ext)) else was
    }

    /** One byte of one plane: nothing is stored through an empty mask. */
    method Store(word: bool, p: nat, addr: nat, ext: nat, value: bv8)
      requires Valid() && p < 4 && ext < 2
      modifies mem
      ensures mem[Cell(p, addr)] == Written(word, p, ext, value, old(mem[Cell(p, addr)]))
      ensures forall a | 0 <= a < mem.Length && a != Cell(p, addr) :: mem[a] == old(mem[a])
    {
      hide OpeFn, Merge, Pattern;
      var at, m := Cell(p, addr), Mask2(word, ext);
      if m != 0 {
        if PlaneOpen(p) {
          mem[at] := Merge(mem[at], Data(word, p, ext, value, mem[at]), m);
        }
      } else {
        MergeNothing(mem[at], Data(word, p, ext, value, mem[at]));
      }
    }

    /** Byte `ext` of plane `p`'s word at `addr`. */
    ghost function ByteAt(p: nat, addr: nat, ext: nat): bv8
      requires mem.Length == MEM_BYTES && p < 4 && ext < 2
      reads this, mem
    {
      mem[if ext == 0 then Cell(p, addr) else Cell(p, addr + 1)]
    }

    /** The addressed byte in all four planes. */
    ghost function Cells(addr: nat): set<nat>
      reads this
    {
      set p | 0 <= p < 4 :: Cell(p, addr)
    }

    lemma CellsApart(addr: nat, p: nat, r: nat)
      requires p < 4 && r < 4
      ensures Cell(p, addr) == Cell(r, addr) ==> p == r
    {
    }

    /** A byte of every open plane. */
    method StorePlanes(word: bool, addr: nat, ext: nat, value: bv8)
      requires Valid() && ext < 2
      modifies mem
      ensures forall p | 0 <= p < 4 :: mem[Cell(p, addr)] == Written(word, p, ext, value, old(mem[Cell(p, addr)]))
      ensures forall a | 0 <= a < mem.Length && a !in Cells(addr) :: mem[a] == old(mem[a])
    {
      assert pipe.Shape();
      hide Pipeline.Valid, Written, Cell;
      for p := 0 to 4
        invariant forall r | 0 <= r < p :: mem[Cell(r, addr)] == Written(word, r, ext, value, old(mem[Cell(r, addr)]))
        invariant forall a | 0 <= a < mem.Length && (forall r | 0 <= r < p :: a != Cell(r, addr)) ::
            mem[a] == old(mem[a])
      {
        forall r | 0 <= r < 4 && r != p ensures Cell(r, addr) != Cell(p, addr) { CellsApart(addr, p, r); }
        Store(word, p, addr, ext, value);
      }
    }

    /** In the pattern-from-destination mode a write first copies the addressed
        byte of every plane into the pattern register. */
    method TakePattern(addr: nat, ext: nat)
      requires Valid() && ext < 2
      modifies patreg
      ensures forall p | 0 <= p < 4 ::
        patreg[2 * p + ext] == if ope & 0x0300 == 0x0200 then mem[Cell(p, addr)] else old(patreg[2 * p + ext])
      ensures forall p | 0 <= p < 4 :: patreg[2 * p + (1 - ext)] == old(patreg[2 * p + (1 - ext)])
    {
      hide Cell, Pipeline.Valid;
      if ope & 0x0300 == 0x0200 {
        patreg[ext], patreg[2 + ext], patreg[4 + ext], patreg[6 + ext] :=
          mem[Cell(0, addr)], mem[Cell(1, addr)], mem[Cell(2, addr)], mem[Cell(3, addr)];
      }
    }

    /** What it means for the patterns of the operations. */
    method TakeHeld(addr: nat, ext: nat)
      requires Valid() && ext < 2
      modifies patreg
      ensures forall p | 0 <= p < 4 :: PatternHeld(p, ext) == old(PatternKept(p, ext, mem[Cell(p, addr)]))
      ensures forall p, r | 0 <= p < 4 && 0 <= r < 2 && r != ext :: PatternHeld(p, r) == old(PatternHeld(p, r))
    {
      hide Cell, Pipeline.Valid;
      TakePattern(addr, ext);
    }

    /** Both bytes of a word. */
    method TakePatterns(addr: nat)
      requires Valid()
      modifies patreg
      ensures forall p | 0 <= p < 4 :: PatternHeld(p, 0) == old(PatternKept(p, 0, ByteAt(p, addr, 0)))
      ensures forall p | 0 <= p < 4 :: PatternHeld(p, 1) == old(PatternKept(p, 1, ByteAt(p, addr, 1)))
    {
      hide Cell, Pipeline.Valid, PatternHeld;
      TakeHeld(addr, 0);
      TakeHeld(addr + 1, 1);
    }

    /** A byte write: every open plane takes the masked bits of its data at the
        addressed cell, and no other byte of memory changes. */
    method WriteByte(addr: nat, value: bv8)
      requires Valid()
      modifies pipe, pipe.buf, pipe.src, pipe.srcmask, mem, patreg
      ensures Valid()
      ensures forall p | 0 <= p < 4 ::
        mem[Cell(p, addr)] == Written(false, p, addr % 2, value, old(mem[Cell(p, addr)]))
      ensures forall a | 0 <= a < mem.Length && a !in Cells(addr) :: mem[a] == old(mem[a])
      ensures BytePushes() ==> Fourfold(pipe.buf[..], old(pipe.egc.inptr), value)
      ensures BytePushes() ==>
        ByteOut(PushedByte(old(pipe.egc)), pipe.egc, pipe.buf[..], old(pipe.src[..]), pipe.src[..], addr % 2,
            pipe.srcmask[addr % 2])
      ensures !BytePushes() ==>
          pipe.egc == old(pipe.egc) && pipe.src[..] == old(pipe.src[..]) && pipe.srcmask[..] == old(pipe.srcmask[..])
      ensures forall p | 0 <= p < 4 :: PatternHeld(p, addr % 2) == old(PatternKept(p, addr % 2, mem[Cell(p, addr)]))
      ensures forall p, r | 0 <= p < 4 && 0 <= r < 2 && r != addr % 2 :: PatternHeld(p, r) == old(PatternHeld(p, r))
    {
      hide Regs.Valid, Written, Cell, Cells, ByteOut, PushedByte, Fourfold, PatternHeld, PatternKept, BytePushes;
      TakeHeld(addr, addr % 2);
      if BytePushes() {
        PushSame(addr % 2, value);
      }
      label Pushed:
      StorePlanes(false, addr, addr % 2, value);
      assert pipe.buf[..] == old@Pushed(pipe.buf[..]) && pipe.src[..] == old@Pushed(pipe.src[..]);
    }

    /** A processor byte into every plane of the pipeline. */
    method PushSame(ext: nat, value: bv8)
      requires Valid() && ext < 2
      modifies pipe, pipe.buf, pipe.src, pipe.srcmask
      ensures Valid()
      ensures Fourfold(pipe.buf[..], old(pipe.egc.inptr), value)
      ensures ByteOut(PushedByte(old(pipe.egc)), pipe.egc, pipe.buf[..], old(pipe.src[..]), pipe.src[..], ext,
          pipe.srcmask[ext])
    {
      hide Regs.Valid, ByteOut, KeptByte, PushedByte;
      var quad := [value, value, value, value];
      ghost var at := pipe.egc.inptr;
      StoreBounds(pipe.egc);
      pipe.PushByte(ext, quad);
      assert pipe.buf[at + 4 * 0] == quad[0] && pipe.buf[at + 4 * 1] == quad[1] && pipe.buf[at + 4 * 2] == quad[2]
             && pipe.buf[at + 4 * 3] == quad[3];
    }

    /** Both bytes of a word in every open plane. */
    method StoreBoth(addr: nat, lo: bv8, hi: bv8)
      requires Valid() && addr % 2 == 0
      modifies mem
      ensures forall p | 0 <= p < 4 :: ByteAt(p, addr, 0) == Written(true, p, 0, lo, old(ByteAt(p, addr, 0)))
      ensures forall p | 0 <= p < 4 :: ByteAt(p, addr, 1) == Written(true, p, 1, hi, old(ByteAt(p, addr, 1)))
      ensures forall a | 0 <= a < mem.Length && a !in Cells(addr) && a !in Cells(addr + 1) :: mem[a] == old(mem[a])
    {
      assert pipe.Shape();
      hide Pipeline.Valid, Written, Cell, Cells;
      StorePlanes(true, addr, 0, lo);
      label Low:
      StorePlanes(true, addr + 1, 1, hi);
      forall p | 0 <= p < 4
        ensures ByteAt(p, addr, 0) == Written(true, p, 0, lo, old(ByteAt(p, addr, 0)))
        ensures ByteAt(p, addr, 1) == Written(true, p, 1, hi, old(ByteAt(p, addr, 1)))
      {
        LanesApart(addr, p);
        assert old@Low(mem[Cell(p, addr + 1)]) == old(mem[Cell(p, addr + 1)]);
        assert mem[Cell(p, addr)] == old@Low(mem[Cell(p, addr)]);
      }
    }

    /** A word write, at an even address: every open plane takes the masked bits
        of its data in both bytes and nothing else in memory changes, while the
        pipeline takes the word as one push. */
    method WriteWord(addr: nat, lo: bv8, hi: bv8)
      requires Valid() && addr % 2 == 0
      modifies pipe, pipe.buf, pipe.src, pipe.srcmask, mem, patreg
      ensures Valid() && pipe.egc.sft == old(pipe.egc.sft) && pipe.egc.leng == old(pipe.egc.leng)
      ensures WordPushes() && old(pipe.WordRun()) ==>
        pipe.WordRun() && forall p | 0 <= p < 4 ::
          pipe.View(p) == Funnel.Step(old(pipe.View(p)), WordView(pipe.egc.Down(), lo, hi))
      ensures !WordPushes() ==>
        && pipe.egc == old(pipe.egc) && pipe.src[..] == old(pipe.src[..]) && pipe.srcmask[..] == old(pipe.srcmask[..])
        && (old(pipe.WordRun()) ==> pipe.WordRun() && forall p | 0 <= p < 4 :: pipe.View(p) == old(pipe.View(p)))
      ensures forall p | 0 <= p < 4 :: ByteAt(p, addr, 0) == Written(true, p, 0, lo, old(ByteAt(p, addr, 0)))
      ensures forall p | 0 <= p < 4 :: ByteAt(p, addr, 1) == Written(true, p, 1, hi, old(ByteAt(p, addr, 1)))
      ensures forall a | 0 <= a < mem.Length && a !in Cells(addr) && a !in Cells(addr + 1) :: mem[a] == old(mem[a])
      ensures forall p | 0 <= p < 4 :: PatternHeld(p, 0) == old(PatternKept(p, 0, ByteAt(p, addr, 0)))
      ensures forall p | 0 <= p < 4 :: PatternHeld(p, 1) == old(PatternKept(p, 1, ByteAt(p, addr, 1)))
    {
      hide Regs.Valid, Written, Cell, Cells, ByteAt, PatternHeld, PatternKept;
      hide Funnel.Step, Pipeline.View, Pipeline.WordRun, WordView, WordPushes;
      TakePatterns(addr);
      if WordPushes() {
        pipe.PushWord([lo, lo, lo, lo], [hi, hi, hi, hi]);
      }
      StoreBoth(addr, lo, hi);
    }

    // ---- reads ---------------------------------------------------------------

    predicate ReadPushes() reads this { ope & 0x400 == 0 }

    /** The plane a read of the guest answers with, where it asks for one. */
    function ReadPlane(): (p: nat)
      reads this
      ensures p < 4
    {
      match (fgbg >> 8) & 3
      case 0 => 0
      case 1 => 1
      case 2 => 2
      case _ => 3
    }

    /** In the pattern-from-source mode a read copies the addressed byte of every
        plane into the pattern register. */
    method KeepPattern(addr: nat, ext: nat)
      requires Valid() && ext < 2
      modifies patreg
      ensures forall p | 0 <= p < 4 ::
        patreg[2 * p + ext] == if ope & 0x0300 == 0x0100 then mem[Cell(p, addr)] else old(patreg[2 * p + ext])
      ensures forall p | 0 <= p < 4 :: patreg[2 * p + (1 - ext)] == old(patreg[2 * p + (1 - ext)])
      ensures ope & 0x0300 != 0x0100 ==> patreg[..] == old(patreg[..])
    {
      hide Cell, Pipeline.Valid;
      if ope & 0x0300 == 0x0100 {
        patreg[ext], patreg[2 + ext], patreg[4 + ext], patreg[6 + ext] :=
          mem[Cell(0, addr)], mem[Cell(1, addr)], mem[Cell(2, addr)], mem[Cell(3, addr)];
      }
    }

    /** Both bytes of a word. */
    method KeepPatterns(addr: nat)
      requires Valid()
      modifies patreg
      ensures forall p | 0 <= p < 4 && ope & 0x0300 == 0x0100 ::
        patreg[2 * p] == ByteAt(p, addr, 0) && patreg[2 * p + 1] == ByteAt(p, addr, 1)
      ensures !PatternIsSource() ==> forall p | 0 <= p < 4 :: PatternHeld(p, 0) == old(PatternHeld(p, 0))
      ensures !PatternIsSource() ==> forall p | 0 <= p < 4 :: PatternHeld(p, 1) == old(PatternHeld(p, 1))
    {
      hide Cell, Pipeline.Valid;
      KeepPattern(addr, 0);
      KeepPattern(addr + 1, 1);
    }

    /** The word of every plane into the pipeline as one push. */
    method FeedWord(addr: nat)
      requires Valid()
      modifies pipe, pipe.buf, pipe.src, pipe.srcmask
      ensures Valid() && pipe.egc.sft == old(pipe.egc.sft) && pipe.egc.leng == old(pipe.egc.leng)
      ensures old(pipe.WordRun()) ==>
        pipe.WordRun() && forall p | 0 <= p < 4 ::
          pipe.View(p) == Funnel.Step(old(pipe.View(p)),
              WordView(pipe.egc.Down(), ByteAt(p, addr, 0), ByteAt(p, addr, 1)))
      ensures patreg[..] == old(patreg[..])
    {
      hide Regs.Valid, Cell, Funnel.Step, Pipeline.View, Pipeline.WordRun, WordView;
      var lo := [mem[Cell(0, addr)], mem[Cell(1, addr)], mem[Cell(2, addr)], mem[Cell(3, addr)]];
      var hi := [mem[Cell(0, addr + 1)], mem[Cell(1, addr + 1)], mem[Cell(2, addr + 1)], mem[Cell(3, addr + 1)]];
      assert forall p | 0 <= p < 4 :: lo[p] == ByteAt(p, addr, 0) && hi[p] == ByteAt(p, addr, 1);
      pipe.PushWord(lo, hi);
    }

    /** A word read, at an even address: unless the processor is the source, every
        plane's own word goes into the pipeline as one push. Memory is only read. */
    method ReadWord(addr: nat) returns (lo: bv8, hi: bv8)
      requires Valid() && addr % 2 == 0 && addr + VRAM_STEP + 1 < MEM_BYTES
      modifies pipe, pipe.buf, pipe.src, pipe.srcmask, patreg
      ensures Valid() && pipe.egc.sft == old(pipe.egc.sft) && pipe.egc.leng == old(pipe.egc.leng)
      ensures ReadPushes() && old(pipe.WordRun()) ==>
        pipe.WordRun() && forall p | 0 <= p < 4 ::
          pipe.View(p) == Funnel.Step(old(pipe.View(p)),
              WordView(pipe.egc.Down(), ByteAt(p, addr, 0), ByteAt(p, addr, 1)))
      ensures forall p | 0 <= p < 4 && ope & 0x0300 == 0x0100 ::
        patreg[2 * p] == ByteAt(p, addr, 0) && patreg[2 * p + 1] == ByteAt(p, addr, 1)
      ensures !PatternIsSource() ==> forall p | 0 <= p < 4 :: PatternHeld(p, 0) == old(PatternHeld(p, 0))
      ensures !PatternIsSource() ==> forall p | 0 <= p < 4 :: PatternHeld(p, 1) == old(PatternHeld(p, 1))
      ensures var p := ReadPlane();
        (lo, hi) == if ope & 0x2000 != 0 then
                      var at := addr + (if page then VRAM_STEP else 0); (mem[at], mem[at + 1])
                    else if ReadPushes() then (pipe.src[2 * p], pipe.src[2 * p + 1])
                    else (ByteAt(p, addr, 0), ByteAt(p, addr, 1))
    {
      hide Regs.Valid, Cell, Funnel.Step, Pipeline.View, Pipeline.WordRun, WordView, ReadPlane, PatternHeld;
      hide ReadPushes, PatternIsSource;
      if ReadPushes() {
        FeedWord(addr);
      }
      KeepPatterns(addr);
      var p := ReadPlane();
      if ope & 0x2000 == 0 {
        if ReadPushes() {
          return pipe.src[2 * p], pipe.src[2 * p + 1];
        }
        return mem[Cell(p, addr)], mem[Cell(p, addr + 1)];
      }
      var at := addr + (if page then VRAM_STEP else 0);
      return mem[at], mem[at + 1];
    }

    /** A byte read: the same, one byte of every plane. */
    method ReadByte(addr: nat) returns (v: bv8)
      requires Valid() && addr + VRAM_STEP < MEM_BYTES
      modifies pipe, pipe.buf, pipe.src, pipe.srcmask, patreg
      ensures Valid() && pipe.egc.sft == old(pipe.egc.sft) && pipe.egc.leng == old(pipe.egc.leng)
      ensures ReadPushes() ==>
        forall p | 0 <= p < 4 :: pipe.buf[old(pipe.egc.inptr) + 4 * p] == mem[Cell(p, addr)]
      ensures ReadPushes() ==>
        ByteOut(PushedByte(old(pipe.egc)), pipe.egc, pipe.buf[..], old(pipe.src[..]), pipe.src[..], addr % 2,
            pipe.srcmask[addr % 2])
      ensures !ReadPushes() ==>
          pipe.egc == old(pipe.egc) && pipe.src[..] == old(pipe.src[..]) && pipe.srcmask[..] == old(pipe.srcmask[..])
      ensures forall p | 0 <= p < 4 && ope & 0x0300 == 0x0100 :: patreg[2 * p + addr % 2] == mem[Cell(p, addr)]
      ensures v == if ope & 0x2000 != 0 then mem[addr + (if page then VRAM_STEP else 0)]
                   else if ReadPushes() then pipe.src[2 * ReadPlane() + addr % 2]
                   else mem[Cell(ReadPlane(), addr)]
    {
      hide Regs.Valid, Cell, ReadPlane, ByteOut, KeptByte, PushedByte;
      if ReadPushes() {
        var quad := [mem[Cell(0, addr)], mem[Cell(1, addr)], mem[Cell(2, addr)], mem[Cell(3, addr)]];
        assert forall p | 0 <= p < 4 :: quad[p] == mem[Cell(p, addr)];
        pipe.PushByte(addr % 2, quad);
      }
      KeepPattern(addr, addr % 2);
      var p := ReadPlane();
      if ope & 0x2000 == 0 {
        if ReadPushes() {
          return pipe.src[2 * p + addr % 2];
        }
        return mem[Cell(p, addr)];
      }
      return mem[addr + (if page then VRAM_STEP else 0)];
    }

    lemma LanesApart(addr: nat, p: nat)
      requires p < 4 && addr % 2 == 0
      ensures Cell(p, addr) !in Cells(addr + 1) && Cell(p, addr + 1) !in Cells(addr)
    {
    }
  }

  lemma MergeNothing(was: bv8, data: bv8)
    ensures Merge(was, data, 0) == was
  {
  }

  // ---- the blit, bit by bit -----------------------------------------------

  /** A raster write changes exactly the pixels that lie in an open plane under
      both masks, and looks each of them up in the opcode. */
  lemma RasterBit(e: Egc, p: nat, ext: nat, value: bv8, was: bv8, q: nat)
    requires e.Valid() && e.Raster() && p < 4 && ext < 2 && q < 8
    ensures BitAt(e.Written(true, p, ext, value, was), q)
         == if e.PlaneOpen(p) && BitAt(e.mask[ext], q) && BitAt(e.pipe.srcmask[ext], q)
            then Table(e.Opcode(), BitAt(e.pipe.src[2 * p + ext], q), BitAt(was, q), BitAt(e.Pattern(p, ext), q))
            else BitAt(was, q)
  {
    hide BitAt, Merge, OpeFn, Table, Egc.Pattern, Regs.Valid;
    MergeBit(was, e.Data(true, p, ext, value, was), e.Mask2(true, ext), q);
    AndBit(e.mask[ext], e.pipe.srcmask[ext], q);
    OpcodeIsTruthTable(e.Opcode(), e.Pattern(p, ext), e.pipe.src[2 * p + ext], was, q);
  }

  /** Byte and bit, from the most significant end, of bit `x` of a word in scan
      order. */
  function Lane(down: bool, x: nat): nat
    requires x < 16
  {
    if (x < 8) != down then 0 else 1
  }

  function Place(down: bool, x: nat): nat
    requires x < 16
  {
    if down then 7 - x % 8 else x % 8
  }

  ghost function Pixel(e: Egc, p: nat, addr: nat, x: nat): bool
    requires e.Valid() && p < 4 && x < 16
    reads e, e.pipe, e.mem
  {
    var down := e.pipe.egc.Down();
    BitAt(e.ByteAt(p, addr, Lane(down, x)), Place(down, x))
  }

  /** What one push of a transfer does to the pixel `x` places into the word being
      written: it changes exactly when a word is delivered, the pixel belongs to
      the destination of the run, its plane is open and the mask register admits
      it; it then takes what the opcode says for the bit of the run that belongs
      there, its own old value and the pattern. */
  ghost predicate PixelRule(st: Funnel.State, w: seq<bool>, x: nat, admitted: bool, ope: bv8, pat: bool, was: bool,
            now: bool) {
    var t, all := 16 * st.delivered + x - st.cfg.d, st.pushed + w;
    var hit := st.cfg.Needed(st.delivered + 1) == st.count + 1 && 0 <= t < st.cfg.len;
    && (hit ==> st.cfg.s + t < |all|)
    && now == if hit && admitted then Table(ope, all[st.cfg.s + t], was, pat) else was
  }

  lemma StepPixel(st: Funnel.State, w: seq<bool>, x: nat, admitted: bool, ope: bv8, pat: bool, was: bool)
    requires st.Valid() && |w| == 16 && x < 16
    ensures var n := Funnel.Step(st, w);
      && |n.mask| == 16 && |n.src| == 16
      && PixelRule(st, w, x, admitted, ope, pat, was,
                   if admitted && n.mask[x] then Table(ope, n.src[x], was, pat) else was)
  {
    hide Table;
    if st.cfg.Needed(st.delivered + 1) == st.count + 1 {
      Funnel.StepPlacement(st, w, x);
    }
  }

  lemma ViewBit(pipe: Pipeline, p: nat, x: nat)
    requires pipe.Shape() && |pipe.bytes| == 4 && p < 4 && x < 16
    ensures var ext, q := Lane(pipe.egc.Down(), x), Place(pipe.egc.Down(), x);
      var n := pipe.View(p);
      && |n.mask| == |n.src| == 16
      && n.mask[x] == BitAt(pipe.srcmask[ext], q) && n.src[x] == BitAt(pipe.src[2 * p + ext], q)
  {
    hide BitAt;
  }

  /** A word write in a word run, seen from one pixel of the word: what the transfer
      `st` makes of the word `w`, whether this write pushes it or a read just did. */
  method PlotWord(e: Egc, addr: nat, lo: bv8, hi: bv8, ghost st: Funnel.State, ghost w: seq<bool>,
                  ghost p: nat, ghost x: nat)
    requires e.Valid() && e.Raster() && e.pipe.WordRun() && addr % 2 == 0 && p < 4 && x < 16 && st.Valid() && |w| == 16
    requires if e.WordPushes() then e.pipe.View(p) == st && w == WordView(e.pipe.egc.Down(), lo, hi)
             else e.pipe.View(p) == Funnel.Step(st, w)
    modifies e.pipe, e.pipe.buf, e.pipe.src, e.pipe.srcmask, e.mem, e.patreg
    ensures e.Valid() && e.pipe.WordRun() && e.pipe.egc.sft == old(e.pipe.egc.sft)
    ensures var ext, q := Lane(e.pipe.egc.Down(), x), Place(e.pipe.egc.Down(), x);
      && PixelRule(st, w, x, e.PlaneOpen(p) && BitAt(e.mask[ext], q), e.Opcode(), BitAt(e.Pattern(p, ext), q),
                   old(Pixel(e, p, addr, x)), Pixel(e, p, addr, x))
      && e.PatternHeld(p, ext) == old(e.PatternKept(p, ext, e.ByteAt(p, addr, ext)))
  {
    hide Regs.Valid, Egc.Written, Egc.ByteAt, Egc.Pattern, BitAt, Table, Funnel.Step, Funnel.SourceBit, Tracks, Loaded;
    hide PixelRule, Downward, Egc.PlaneOpen, Egc.PatternHeld, Egc.PatternKept;
    hide WordView, Pipeline.View, Egc.Raster, Egc.WordPushes;
    ghost var down := e.pipe.egc.Down();
    ghost var ext, q := Lane(down, x), Place(down, x);
    ghost var was := e.ByteAt(p, addr, ext);
    e.WriteWord(addr, lo, hi);
    ghost var n := e.pipe.View(p);
    assert n == Funnel.Step(st, w);
    ViewBit(e.pipe, p, x);
    assert ext == 0 ==> e.ByteAt(p, addr, 0) == e.Written(true, p, 0, lo, was);
    assert ext == 1 ==> e.ByteAt(p, addr, 1) == e.Written(true, p, 1, hi, was);
    PixelFollows(e, st, w, p, x, ext, q, if ext == 0 then lo else hi, was);
  }

  /** A byte written in the middle of a transfer follows it in each of its pixels. */
  lemma PixelFollows(e: Egc, st: Funnel.State, w: seq<bool>, p: nat, x: nat, ext: nat, q: nat, value: bv8, was: bv8)
    requires e.Valid() && e.Raster() && p < 4 && x < 16 && ext < 2 && q < 8 && st.Valid() && |w| == 16
    requires |Funnel.Step(st, w).mask| == |Funnel.Step(st, w).src| == 16
    requires var n := Funnel.Step(st, w);
      n.mask[x] == BitAt(e.pipe.srcmask[ext], q) && n.src[x] == BitAt(e.pipe.src[2 * p + ext], q)
    ensures PixelRule(st, w, x, e.PlaneOpen(p) && BitAt(e.mask[ext], q), e.Opcode(), BitAt(e.Pattern(p, ext), q),
                      BitAt(was, q), BitAt(e.Written(true, p, ext, value, was), q))
  {
    hide Regs.Valid, Egc.Written, Egc.Pattern, BitAt, Table, Funnel.Step, PixelRule, Egc.PlaneOpen;
    RasterBit(e, p, ext, value, was, q);
    StepPixel(st, w, x, e.PlaneOpen(p) && BitAt(e.mask[ext], q), e.Opcode(), BitAt(e.Pattern(p, ext), q),
              BitAt(was, q));
  }

  /** The block transfer with a processor source: in a run of word writes every
      pixel of the word written, in every plane, follows the transfer. */
  method BlitWord(e: Egc, addr: nat, lo: bv8, hi: bv8, ghost p: nat, ghost x: nat)
    requires e.Valid() && e.Raster() && e.WordPushes() && e.pipe.WordRun()
    requires addr % 2 == 0 && p < 4 && x < 16
    modifies e.pipe, e.pipe.buf, e.pipe.src, e.pipe.srcmask, e.mem, e.patreg
    ensures e.Valid() && e.pipe.WordRun() && e.pipe.egc.sft == old(e.pipe.egc.sft)
    ensures var down := e.pipe.egc.Down();
      var ext, q := Lane(down, x), Place(down, x);
      && PixelRule(old(e.pipe.View(p)), WordView(down, lo, hi), x, e.PlaneOpen(p) && BitAt(e.mask[ext], q), e.Opcode(),
                   BitAt(e.Pattern(p, ext), q), old(Pixel(e, p, addr, x)), Pixel(e, p, addr, x))
      && e.PatternHeld(p, ext) == old(e.PatternKept(p, ext, e.ByteAt(p, addr, ext)))
  {
    hide Regs.Valid, Egc.Pattern, Egc.ByteAt, PixelRule, Pixel, Downward, Tracks, Loaded, WordView, Pipeline.View;
    ghost var w := WordView(e.pipe.egc.Down(), lo, hi);
    ViewIsTransfer(e.pipe, p);
    PlotWord(e, addr, lo, hi, e.pipe.View(p), w, p, x);
  }

  /** The block transfer from memory to memory, a word of it: the read feeds every
      plane its own word, the write then treats each pixel of the word written as
      the transfer says. */
  method CopyWord(e: Egc, from: nat, to: nat, ghost p: nat, ghost x: nat)
    requires e.Valid() && e.Raster() && e.ReadPushes() && e.pipe.WordRun() && from + VRAM_STEP + 1 < MEM_BYTES
    requires from % 2 == 0 && to % 2 == 0 && p < 4 && x < 16
    modifies e.pipe, e.pipe.buf, e.pipe.src, e.pipe.srcmask, e.mem, e.patreg
    ensures e.Valid() && e.pipe.WordRun() && e.pipe.egc.sft == old(e.pipe.egc.sft)
    ensures var down := e.pipe.egc.Down();
      var ext, q := Lane(down, x), Place(down, x);
      && PixelRule(old(e.pipe.View(p)), WordView(down, old(e.ByteAt(p, from, 0)), old(e.ByteAt(p, from, 1))), x,
                   e.PlaneOpen(p) && BitAt(e.mask[ext], q), e.Opcode(),
                   BitAt(e.Pattern(p, ext), q), old(Pixel(e, p, to, x)), Pixel(e, p, to, x))
      && (!e.PatternIsSource() ==> e.PatternHeld(p, ext) == old(e.PatternKept(p, ext, e.ByteAt(p, to, ext))))
  {
    hide Regs.Valid, Egc.Pattern, Egc.ByteAt, PixelRule, Downward, Tracks, Loaded, WordView, Pipeline.View, Funnel.Step;
    hide Egc.PatternHeld;
    ghost var st, down := e.pipe.View(p), e.pipe.egc.Down();
    ghost var w := WordView(down, e.ByteAt(p, from, 0), e.ByteAt(p, from, 1));
    ViewIsTransfer(e.pipe, p);
    var lo, hi := e.ReadWord(from);
    PlotWord(e, to, lo, hi, st, w, p, x);
  }
}
