# Verified models of the PC-98 core's firmware and graphics reference

This project models, in Dafny, the parts of the repository that keep state in ways
that are easy to get wrong, and proves what they are for. Each component has a
specification in plain terms (a bit copy, a block device, a set of profiles) and an
imperative model of the code that is proved to meet it; the properties are then
proved of the specification, over whole runs.

| files | component |
|---|---|
| `Funnel`, `EgcShift`, `EgcPipeline`, `EgcRuns`, `EgcBytes` | the EGC shift pipeline: a plain bit copy, the mask tables and variants, the registers and buffer, whole runs of words and of bytes, and the mirror image of the two directions |
| `EgcRaster`, `EgcVram`, `EgcPorts`, `Bits` | the raster operations as truth tables, reads and writes of the four planes, block transfers pixel by pixel, and what each register bit decides |
| `AdpcmTable`, `AdpcmSpec`, `AdpcmQuantiser`, `AdpcmStream`, `AdpcmEncoder`, `AdpcmBatch`, `Division` | the ADPCM-A encoder, streaming and batch |
| `AdpcmLine`, `AdpcmSettle`, `AdpcmChip` | what comes out of it: the resampled line, how fast the quantiser settles, and what the chip plays |
| `SoundSpec`, `SoundLoaders` | the drum and drive-noise loaders over one sample store |
| `SettingsBlock`, `SettingsTable`, `SettingsRun`, `SettingsEdits`, `SettingsStore`, `SettingsEvict`, `SettingsRace`, `SettingsSwitch` | the save window: profiles, the per-disk table and its migration, runs of edits and disk changes, what becomes of an edit, which profiles a full table gives up, the timer interrupt in a save and in a change of disk |
| `FloppySpec`, `FloppyNames`, `FloppyLayout`, `FloppyRuns`, `FloppyService`, `DiskImage` | the floppy service: offset cache and read-ahead, which header a sector finds, which images are safe to write, runs over both drives |
| `ScsiSpec`, `ScsiImages`, `ScsiBytes`, `ScsiTarget` | the SCSI target: image headers and commands, as bytes and as what they mean |
| `GdcLine`, `GdcDraw`, `GdcWay` | the drawing processor's lines: the walk, the drawing, and where in the plane each octant runs |
| `KeyboardSpec`, `KeyboardUi`, `KeyboardButtons`, `KeyboardWire` | the on-screen keyboard's make and break protocol, what each button sends, and what the machine's key matrix makes of it |

`dafny verify dfyconfig.toml` checks everything.

## How the code is modelled

- A word or byte of the hardware is a number in its range or a bit vector. A 32-bit
  register that the code can carry past its top wraps in the model too: the
  resampler's position, the sample counter and the byte counter of the encoder. The
  other sums of the code stay far below 2^32 and are plain numbers.
- An `|` of bytes in disjoint lanes, and of flags in disjoint bits, is a sum.
- The shift registers of the emulator's `egc` structure are one record-valued field,
  and `padding_b`, `buf` and `padding_a` one array, so that an index is a distance
  from the start of the front padding. `egc_src` and `srcmask` are the arrays `src`
  and `srcmask`.
- The bridge RAM is an array behind a cursor that steps past every word. A file is a
  sequence of bytes; a transfer copies all of it or nothing, and a number says how
  many transfers the link still lets through, so that a failure can fall anywhere.
- What a user does, what the clock says and what a menu answers are parameters: which
  buttons are settled, where the cursor is after navigating, whether a key was pressed
  on the dock.
- A loop of flushes that may not end takes a number of flushes to wait, and says
  whether it ended within it.
- Floppy requests lie within the 164 entries of a D88 track table, as every address
  below the mounted capacity does.
- The value a history is needed for (samples pushed, bytes handed over, what a loader
  was given) is kept in ghost or extra fields that the code does not read.

## What was found

- A voice of 65536 source samples or more never finishes: `adpcm_enc_flush` compares
  a 16-bit sample position with the sample count, so every flush fills its buffer and
  the documented loop of `adpcma_enc.h:8-13`, and with it `rhythm_load`, does not end
  (`AdpcmEncoder.Encoder.Flush`). Just below that length the position may wrap inside
  the flat tail; the exact condition is `ceil(n * 2^16 / ratio) * ratio < 2^32`
  (`AdpcmEncoder.Encoder.FinishedMatchesBatch`), and 65535 samples at 192 kHz miss it
  (`AdpcmBatch.LongestOverflows`).
- The encoder tracks the chip's accumulator without its wrap at twelve bits
  (`jt10_adpcm.v:33-35`), where `rhythm_pack.py:110-111` has it bit for bit. The two part for targets beyond -1854 to 1853: a held target
  of 2047 wraps the chip again and again (`AdpcmChip.PlaysVoice`,
  `AdpcmChip.LoudWraps`). The silence that pads the last block brings the chip to rest
  if there are 57 samples of it, and there may be none (`AdpcmChip.PaddingSettles`,
  `AdpcmChip.FullBlockDoesNotSettle`).
- The batch packer does not repeat a single sample below the chip's rate and makes
  nothing of no samples, where the streaming encoder pads out a block
  (`AdpcmBatch.ResamplersAgree`). The comments of `rhythm_enc_test.py:11-14` and
  `:74-76` call the packer's resampler floating point; it is the same fixed point.
- The read-ahead tag is per drive but the buffer is one: `FloppyRuns.BothDrives` says
  exactly which reads of an interleaved run are right, and
  `FloppyRuns.WrongDiskStreams` is one that is not. A header read that fails leaves a
  D88 track claimed on what was read before it; `FloppySpec.LookCutShort` says exactly
  when that is wrong. A D88 whose sectors are narrower than the mounted width loses
  the next sector to a write (`FloppyLayout.NarrowLosesASector`).
- RETURN and the keypad's ENTER share a place of the key matrix. With both latched,
  unlatching one releases the place while the other still shows as latched
  (`KeyboardWire.PartingLosesEnter`, `KeyboardWire.MatrixAgrees`).
- In byte accesses of the EGC a destination bit beyond eight never lets a byte out
  (`EgcBytes.SilentBytes`), and a source bit of eight or more does not skip a byte, so
  that the run is copied from eight bits too early (`EgcBytes.ByteAccesses`); a
  destination bit of exactly eight costs one lane that enables nothing and spoils no
  bit. `EgcBytes.WholeTransfer` is the exact condition over all offsets.
- An edit made by the timer interrupt while the main loop changes disks can be lost.
  `settings_disk_mounted` saves first, but an edit between that save and the change of
  context is in neither profile (`SettingsSwitch.GapEdit`), and one made while the
  incoming profile is read in is overwritten unless its setting was taken over already.
  The flags of the bindings are read, changed and written back, so a binding edited in
  between keeps its code and loses its flag (`SettingsSwitch.LateEdit`).
- The comment at `settings_ui.c:869-871` still counts thirteen nine-word entries; the
  code has eleven of ten words. The comment at `fdd_service.c:158` gives the
  bridge RAM one kilobyte; the code stages wide sectors in the second and reads ahead
  into the third.

## Model

| member | source | states |
|---|---|---|
| Funnel.RunCopiesBits | sim/golden/np21w/memegc.c:55-148 | The transfer law: from any re-arm, whatever words are pushed and however often the pipeline re-arms on the way, the enabled bits handed on are exactly the plain copy of the pushed bits: bits srcbit .. srcbit+leng of each transfer, in order, leng+1 of them per transfer |
| Funnel.StepEmits | sim/golden/np21w/memegc.c:395-413 | One push hands on exactly the bits of the run that its words make deliverable |
| Funnel.TransferDelivers | sim/golden/np21w/memegc.c:395-413 | Within one transfer the enabled bits are a prefix of the run, whatever number of words has been pushed |
| Funnel.TransferState | sim/golden/np21w/memegc.c:55-111 | A whole transfer of words ends in the armed state again, with the same configuration |
| Funnel.EnabledInterval | sim/golden/np21w/memegc.c:29-53 | The bits a mask enables are one interval of the word, so what is handed on keeps its order |
| Funnel.OutputSplits | sim/golden/np21w/memegc.c:395-413 | The output of a run splits at any push into the output before it and after it |
| Funnel.StepPlacement | sim/golden/np21w/memegc.c:114-148 | A bit the mask enables in a delivered word is the source bit that belongs at that destination bit |
| EgcShift.UpMaskIsShiftedRow | sim/golden/np21w/memegc.c:29-53 | The start-bit mask table of the upward pipeline is its length table shifted by the start bit |
| EgcShift.DownMaskIsShiftedRow | sim/golden/np21w/memegc.c:29-53 | The same for the downward tables, mirrored |
| EgcShift.MaskEnables | sim/golden/np21w/memegc.c:29-53 | Every entry of the mask tables enables exactly the bits from its start bit for its length, clipped at the byte |
| EgcShift.PickWindow | sim/golden/np21w/memegc.c:192-238 | A lane of any of the six variants is the eight-bit window of the byte stream that starts the shift amount into the source byte |
| EgcPipeline.ArmedIsValid | sim/golden/np21w/memegc.c:55-111 | Arming establishes the budget invariant for every value of the shift and length registers |
| EgcPipeline.LaneIsWindow | sim/golden/np21w/memegc.c:295-333 | What one lane leaves in the latch: the bits of the run where it reaches, the old latch where it does not, the mask exactly the run |
| EgcPipeline.LaneBit | sim/golden/np21w/memegc.c:192-238 | Bit by bit, a delivered lane is the run's own source bits, although the planes overlap in one buffer |
| EgcPipeline.ByteKeepsBudget | sim/golden/np21w/memegc.c:382-393 | A byte delivered keeps 8*\|inptr - base\| = stack + consumed + (first srcbit - srcbit), consumed + remain = leng + 1, remain >= 1 and stack <= 32 |
| EgcPipeline.WordKeepsBudget | sim/golden/np21w/memegc.c:395-413 | So does a word delivered |
| EgcPipeline.PushKeepsBudget | sim/golden/np21w/memegc.c:625-651 | So does a word pushed, in any state mixed accesses and register writes can reach |
| EgcPipeline.PushKeepsByteBudget | sim/golden/np21w/memegc.c:600-623 | So does a byte pushed, for every srcbit and dstbit |
| EgcPipeline.StoreBounds | sim/golden/np21w_inc/iocore.h:43-57 | In every state of every run each store of a push and each load of a delivery stays inside the buffer and its two paddings |
| EgcPipeline.WordRunBounds | sim/golden/np21w/memegc.c:625-651 | In a run of words the budget is at most 15 before a push, the output pointer is at most two bytes behind the input pointer, and stores stay in the buffer proper |
| EgcPipeline.WordReady | sim/golden/np21w/memegc.c:395-413 | The budget test in front of a word delivery asks exactly whether all source bits of the next word have been pushed |
| EgcPipeline.WordTracks | sim/golden/np21w/memegc.c:395-413 | After a delivery the registers are those of the transfer one word further on, and the run ends exactly with its last word |
| EgcPipeline.PushTracks | sim/golden/np21w/memegc.c:625-637 | After a push the registers are those of the transfer with one word more |
| EgcPipeline.StoreKeepsLoaded | sim/golden/np21w/memegc.c:625-651 | Planes overlap four bytes apart in one buffer, yet storing the next word of all planes overwrites no byte any plane has still to read |
| EgcPipeline.WordIsWindow | sim/golden/np21w/memegc.c:395-413 | Latch and mask after a word delivery are the transfer's word and mask, in every plane |
| EgcPipeline.Pipeline.EgcShift | sim/golden/np21w/memegc.c:55-111 | Arming from the two registers: direction, variant, shift amounts, pointers, run length, budget |
| EgcPipeline.Pipeline.constructor | sim/golden/np21w/egc.c:118-129 | Reset arms the pipeline for a sixteen-bit run with every bit enabled |
| EgcPipeline.Pipeline.WriteSft | sim/golden/np21w/egc.c:90-101 | Any write of the shift register re-arms and enables every bit |
| EgcPipeline.Pipeline.WriteLeng | sim/golden/np21w/egc.c:103-114 | Any write of the length register re-arms and enables every bit |
| EgcPipeline.Pipeline.UpnSub | sim/golden/np21w/memegc.c:114-148 | A byte of every plane, unshifted and upward: what one lane changes and nothing else |
| EgcPipeline.Pipeline.DnnSub | sim/golden/np21w/memegc.c:150-184 | The same downward |
| EgcPipeline.Pipeline.UprSub | sim/golden/np21w/memegc.c:192-238 | Shifted to later bits, upward, the head of the run without a source byte of its own |
| EgcPipeline.Pipeline.DnrSub | sim/golden/np21w/memegc.c:246-287 | The same downward |
| EgcPipeline.Pipeline.UplSub | sim/golden/np21w/memegc.c:295-333 | Shifted to earlier bits, upward, each byte joined with its successor |
| EgcPipeline.Pipeline.DnlSub | sim/golden/np21w/memegc.c:341-379 | The same downward |
| EgcPipeline.Pipeline.ShiftByte | sim/golden/np21w/memegc.c:382-393 | A byte is held back by a short budget or a destination bit beyond eight; otherwise one lane of every plane goes out and the run continues or re-arms |
| EgcPipeline.Pipeline.ShiftWord | sim/golden/np21w/memegc.c:395-413 | A word delivery refines the delivery of the transfer |
| EgcPipeline.Pipeline.LoadWord | sim/golden/np21w/memegc.c:625-651 | A word of every plane enters the budget and the stream of its plane |
| EgcPipeline.Pipeline.PushWord | sim/golden/np21w/memegc.c:625-651 | A word push refines one step of the transfer, in every plane at once |
| EgcPipeline.Pipeline.PushByte | sim/golden/np21w/memegc.c:600-623 | A byte push stores one byte of every plane, counts it in, and delivers at most the addressed lane, leaving the other lane's mask alone |
| EgcBytes.WholeTransfer | sim/golden/np21w/memegc.c:600-623 | So a transfer of bytes copies the run from its source bit if and only if dstbit is at most eight, and srcbit is below eight or the data repeats after eight bits |
| EgcBytes.SilentBytes | sim/golden/np21w/memegc.c:382-393 | A destination bit beyond eight enables no bit in any run of byte pushes, leaves the latch alone and never comes nearer |
| EgcBytes.CopyExtends | sim/golden/np21w/memegc.c:382-393 | One byte more hands on exactly the next stretch of the transfer |
| EgcBytes.PushTracksByte | sim/golden/np21w/memegc.c:600-623 | After a byte pushed the registers are those of the transfer one byte further on, and the budget test passes exactly when the next lane is whole |
| EgcBytes.LaneTracksByte | sim/golden/np21w/memegc.c:382-393 | After a lane delivered too, and the run ends exactly with its last byte |
| EgcBytes.RunBytes | sim/golden/np21w/memegc.c:600-623 | The whole refinement for bytes, over every pair of offsets: what the enabled latch bits of any run of byte pushes from a re-arm are, up or down and to whichever byte each access goes |
| EgcBytes.ByteAccesses | sim/golden/np21w/memegc.c:600-623 | The same by the register values written: source bit in bits 0-3 of the shift register, destination bit in bits 4-7, direction in bit 12, run length less one in the low twelve bits of the length register, the other bits anything; nothing comes out with a destination bit beyond eight, otherwise the copy, begun eight bits early if the source bit is eight or more |
| EgcBytes.ByteStoreKeeps | sim/golden/np21w/memegc.c:600-623 | Storing a byte of all planes overwrites no byte any plane has still to read |
| EgcRuns.RegistersDecode | sim/golden/np21w/memegc.c:55-111 | The two registers read back: every source bit, destination bit, direction and length, whatever the bits nothing reads |
| EgcRuns.Program | sim/golden/np21w/memegc.c:55-111 | Writing the two registers, whatever was in progress, arms the run they state: direction, offsets, length, both pointers at its own end of the buffer |
| EgcRuns.RunWords | sim/golden/np21w/memegc.c:625-651 | The whole refinement: the enabled latch bits of any run of word pushes from a re-arm are the plain bit copy of the pushed bits, in every plane |
| EgcRuns.WordAccesses | sim/golden/np21w/memegc.c:625-651 | The same by the register values written, with source bit, destination bit, direction, length and the unread bits as parameters |
| EgcRuns.MirrorWord | sim/golden/np21w/memegc.c:150-184 | Two words look alike in opposite scan directions exactly when one is the other with bytes swapped and bits reversed |
| EgcRuns.MirrorPush | sim/golden/np21w/memegc.c:639-651 | Pushing a word upward and its mirror image downward keeps latch, mask, remain and stack mirror images |
| EgcRuns.MirrorRun | sim/golden/np21w/memegc.c:428-580 | They stay mirror images over every run, re-arms included |
| EgcRaster.OpcodeIsTruthTable | sim/golden/np21w/memegc.c:723-945 | Whichever of the opefn entries the table selects, each result bit is the opcode's own bit at the minterm of source, destination and pattern |
| EgcRaster.NamedTables | sim/golden/np21w/memegc.c:723-945 | Opcodes by name: 0xf0 is the source, 0xcc the destination, 0xaa the pattern, their inverses, conjunction, disjunction and exclusive sums, and the choice of destination or pattern by source |
| EgcRaster.SpecialisedAgree | sim/golden/np21w/memegc.c:947-1016 | Every specialised entry agrees with the general eight-minterm form for its opcode |
| EgcRaster.NDBit | sim/golden/np21w/memegc.c:788-841 | The no-destination form computes the truth table of every opcode it is entered for |
| EgcRaster.NPBit | sim/golden/np21w/memegc.c:843-871 | The no-pattern form does for those it is entered for |
| EgcVram.Egc.constructor | sim/golden/np21w/egc.c:118-129 | Reset values of every register, all planes open, a sixteen-bit run armed with every bit enabled, memory clear |
| EgcVram.Egc.Store | sim/golden/np21w/memegc.c:1159-1180 | One byte of one plane: the masked bits of its data if the plane is open, nothing else |
| EgcVram.Egc.StorePlanes | sim/golden/np21w/memegc.c:1159-1180 | All four planes at one address, and no other byte of memory |
| EgcVram.Egc.TakePattern | sim/golden/np21w/memegc.c:1154-1159 | In the pattern-from-destination mode a write first copies the old bytes into the pattern register |
| EgcVram.Egc.KeepPattern | sim/golden/np21w/memegc.c:1120-1125 | In the pattern-from-source mode a read copies the bytes it saw |
| EgcVram.Egc.WriteByte | sim/golden/np21w/memegc.c:1141-1182 | A byte write changes only the enabled bits of the open planes at the addressed cell, updates the pattern register only in the pattern-from-destination mode, and is one byte push exactly in the modes that push |
| EgcVram.Egc.WriteWord | sim/golden/np21w/memegc.c:1336-1376 | A word write changes only the enabled bits of the open planes in its two bytes, is one push exactly in the modes that push, and combines the colour, the destination or the register as its pattern |
| EgcVram.Egc.ReadByte | sim/golden/np21w/memegc.c:1098-1138 | A byte read pushes every plane's byte where the processor is not the source, with all that push delivers, and answers with latch, plane or raw memory |
| EgcVram.Egc.ReadWord | sim/golden/np21w/memegc.c:1269-1333 | A word read is one push of every plane's own word, and answers likewise |
| EgcVram.RasterBit | sim/golden/np21w/memegc.c:1056-1093 | In raster mode a bit changes exactly in an open plane under both masks, and becomes the opcode's truth-table value |
| EgcVram.StepPixel | sim/golden/np21w/memegc.c:395-413 | What one step of the transfer means for a pixel of the word written |
| EgcVram.BlitWord | sim/golden/np21w/memegc.c:1336-1376 | Processor-source block transfer: each pixel of a written word changes exactly if it belongs to the run, and becomes the raster operation of the run's own bit with the pattern known before the write |
| EgcVram.CopyWord | sim/golden/np21w/memegc.c:1269-1376 | Memory-source block transfer, read then write: the same, the run being the words read from that plane |
| EgcPorts.AccessBits | sim/golden/np21w/memegc.c:1336-1376 | Plane p of blue, red, green, extra is open exactly when bit p of the access register is clear |
| EgcPorts.PlanesLie | sim/golden/np21w/memegc.c:1098-1125 | Where each plane keeps a byte, in numbers |
| EgcPorts.OperationBits | sim/golden/np21w/memegc.c:1098-1182 | What bits 8 to 13 of the operation register choose |
| EgcPorts.ColourBits | sim/golden/np21w/memegc.c:1098-1182 | What bits 8, 9, 13 and 14 of the colour register choose: the plane read, and which colour stands in for the pattern, for each plane |
| EgcPorts.ByteBits | sim/golden/np21w/memegc.c:1141-1182 | When a byte written goes through the funnel, and which bits of it may then change |
| EgcPorts.OfferedBits | sim/golden/np21w/memegc.c:1022-1093 | What a write offers by those bits: the byte written, a colour, the latch or the pattern register |
| EgcPorts.FullMaskWrites | sim/golden/np21w/memegc.c:1336-1376 | Under a full mask a byte becomes what is offered exactly when its access bit is clear |
| EgcPorts.Spread | sim/golden/np21w/egc.c:9-19 | A colour number spread over the planes, bit p over plane p |
| EgcPorts.OutWord | sim/golden/np21w/egc.c:140-191 | A word written to any port of the register block: which register takes it, that the mask takes none while a colour is chosen, and that shift and length re-arm |
| EgcPorts.WordAfterReset | sim/golden/np21w/memegc.c:1336-1376 | After reset and any access register, a word written lands whole in exactly the planes whose bit is clear |
| EgcPorts.ByteAfterReset | sim/golden/np21w/memegc.c:1141-1182 | So does a byte |
| Division.Udiv32 | firmware/adpcma_enc.c:15-35 | The restoring divider is exact for every 32-bit dividend and nonzero divisor, and a zero divisor gives zeros |
| Division.Round | firmware/gdc_service.c:96-116 | No bit of the doubled remainder is ever lost in 32 bits |
| AdpcmTable.GridHasNoHole | firmware/adpcma_lut.h:7-57 | No step's grid of increments leaves a hole wider than the range bound needs: each magnitude has a neighbour closer to the middle within reach |
| AdpcmTable.IncIs | firmware/adpcma_lut.h:7-57 | Every increment in closed form: (2 * magnitude + 1) eighths of 16 * 1.1^step rounded down, but for three entries clipped at 2047 |
| AdpcmSpec.PickIsBest | firmware/adpcma_enc.c:61-96 | The nibble chosen misses the target by no more than any of the sixteen |
| AdpcmSpec.PickTies | firmware/adpcma_enc.c:61-80 | Among those that miss by least it is the one of the smallest magnitude, and of its two signs plus |
| AdpcmSpec.FirstLeast | firmware/adpcma_enc.c:61-80 | It is the first in trial order to miss by so little |
| AdpcmSpec.PickStaysInRange | firmware/adpcma_enc.c:61-96 | The accumulator the chip leaves unclamped stays in -2242..2241 for every target, and the step index in 0..48 |
| AdpcmSpec.PickStaysNear | firmware/adpcma_enc.c:61-96 | More generally, targets within any bounds keep the accumulator within 194 beyond them |
| AdpcmSpec.ReplayTracksEncoder | scripts/rhythm_enc_test.py:33-44 | Decoding the nibbles visits exactly the states the encoder tracked, each in range |
| AdpcmSpec.EncodeAppends | scripts/rhythm_pack.py:109-132 | Encoding is causal: one target more appends one nibble and changes none before it |
| AdpcmSpec.LerpsExtend | scripts/rhythm_pack.py:99-103 | One source sample more only adds the outputs its interval makes available |
| AdpcmSpec.PadAligns | scripts/rhythm_pack.py:138-141 | The padding fills the last 256-byte block, by less than a block |
| AdpcmLine.LerpOnLine | firmware/adpcma_enc.c:107-121 | An interpolation is the point of the line between its two samples, rounded down |
| AdpcmLine.LerpsAt | scripts/rhythm_pack.py:99-103 | The k-th output of a resampling lies at position k * ratio |
| AdpcmLine.ResampledOnLine | scripts/rhythm_pack.py:99-103 | So each output of the stream is less than one below the exact line through the two samples around it |
| AdpcmLine.ResampledHolds | firmware/adpcma_enc.c:101-131 | Past the last sample it is held |
| AdpcmLine.RampResamples | scripts/rhythm_pack.py:99-103 | A ramp is resampled to its own floor |
| AdpcmLine.TwelveBits | firmware/adpcma_enc.c:107-121 | A sample enters the twelve-bit domain divided by sixteen, rounded down |
| AdpcmSettle.PickNears | firmware/adpcma_enc.c:61-96 | Each nibble of a still target brings the accumulator nearer by a measure that starts at 57 or less |
| AdpcmSettle.Settles | firmware/adpcma_enc.c:61-96 | From any state 57 nibbles of a target that stands still bring the accumulator within two of it and the step back to 0, for good |
| AdpcmChip.ClockFollows | fpga/core/sound/jt12/hdl/adpcm/jt10_adpcm.v:38-56 | One nibble moves the chip as it moves the encoder's model, but for the wrap at twelve bits |
| AdpcmChip.PlaysVoice | fpga/core/sound/jt12/hdl/adpcm/jt10_adpcm_drvA.v:63-68 | The chip playing a packed voice, high nibble first, holds at every nibble what the encoder tracked, in twelve bits, and the same value if and only if that fits them |
| AdpcmChip.QuietVoice | firmware/adpcma_enc.c:61-96 | A voice whose targets stay within -1854 to 1853 is played exactly as it was tracked |
| AdpcmChip.LoudWraps | firmware/adpcma_enc.c:61-96 | The loudest target, held, wraps the chip: among any three states from the 57th on one is beyond twelve bits |
| AdpcmChip.PaddingSettles | scripts/rhythm_pack.py:138-141 | The silence that fills the last block brings the accumulator to rest if there are 57 samples of it |
| AdpcmChip.FullBlockDoesNotSettle | scripts/rhythm_pack.py:138-141 | A voice that fills its last block may end far from rest |
| AdpcmQuantiser.BestNibble | firmware/adpcma_enc.c:61-80 | The nested search finds the first least miss and the accumulator that goes with it |
| AdpcmStream.RatioExact | firmware/adpcma_enc.c:41-47 | The ratio computed in 32-bit steps is floor(rate * 2^16 * 432 / 8000000) exactly |
| AdpcmStream.FloorOfNegative | firmware/adpcma_enc.c:107-121 | Scaling a magnitude and correcting by one is flooring the signed product |
| AdpcmStream.NibbleCodes | firmware/adpcma_enc.c:81-96 | A nibble appended keeps the bytes handed over equal to the encoding so far, but for a pending high nibble |
| AdpcmStream.WindowStep | firmware/adpcma_enc.c:141-151 | Serving one output keeps what is encoded plus what is to come equal to the resampled stream |
| AdpcmStream.WindowCloses | firmware/adpcma_enc.c:141-151 | When the window is served, all and only the outputs it allows have been encoded |
| AdpcmStream.DrainFlat | firmware/adpcma_enc.c:162-163 | A held-flat output keeps the voice on its way, or marks that the 32-bit position wrapped |
| AdpcmStream.DrainDone | firmware/adpcma_enc.c:154-169 | At the end the targets are the voice's own with its padding if the stream fits, and a block or more too many if it does not |
| AdpcmEncoder.Encoder.constructor | firmware/adpcma_enc.c:37-59 | A stream begins with the exact ratio and nothing encoded; rate 0 stands for 8000 |
| AdpcmEncoder.Encoder.EmitNibble | firmware/adpcma_enc.c:61-96 | One target is encoded, and its byte handed over when it completes one |
| AdpcmEncoder.Encoder.EmitSample | firmware/adpcma_enc.c:101-131 | One output of the resampler, interpolated or held, encoded and the position advanced modulo 2^32 |
| AdpcmEncoder.Encoder.Serve | firmware/adpcma_enc.c:141-149 | One interval is served whole: at most five outputs, so no byte is dropped at any accepted rate |
| AdpcmEncoder.Encoder.Push | firmware/adpcma_enc.c:133-152 | A sample pushed serves exactly its interval, and every byte encoded is handed over |
| AdpcmEncoder.Encoder.Flush | firmware/adpcma_enc.c:154-169 | A flush hands over what fits; it falls short only when the voice is finished, gives nothing once it is, and always fills its buffer after 65536 samples |
| AdpcmEncoder.Encoder.FinishedMatchesBatch | firmware/adpcma_enc.c:154-169 | A finished voice is the batch packer's bytes if and only if the first multiple of the ratio past its last sample, ceil(n * 2^16 / ratio) * ratio, is below 2^32 |
| AdpcmEncoder.Encoder.FinishedIsWhole | firmware/adpcma_enc.c:160-169 | A finished voice is a whole number of 256-byte blocks |
| AdpcmBatch.ResampleLinear | scripts/rhythm_pack.py:85-106 | The batch resampler, its two shortcuts included |
| AdpcmBatch.UnitRatio | scripts/rhythm_pack.py:93-94 | Skipping the resampling at the chip's own rate changes nothing |
| AdpcmBatch.ResamplersAgree | scripts/rhythm_pack.py:90-94 | The streaming and the batch resampler agree exactly on two or more samples, and on one sample at or above the chip's rate |
| AdpcmBatch.AdpcmEncode | scripts/rhythm_pack.py:109-132 | The batch encoder is the greedy encoding of its samples and the tail |
| AdpcmBatch.PackBatch | scripts/rhythm_pack.py:135-147 | The batch packer's bytes: high nibble first, padded to a block |
| AdpcmBatch.EncodeVoice | firmware/adpcma_enc.h:8-13 | Pushing every sample and flushing until nothing comes ends and gives the batch packer's bytes if the stream fits; one that does not never ends or ends as other bytes, and from 65536 samples it never ends |
| AdpcmBatch.FitsBound | firmware/adpcma_enc.c:154-169 | n * 2^16 + ratio <= 2^32 is enough to fit, and 65536 samples never do |
| AdpcmSpec.StreamEndIs | firmware/adpcma_enc.c:101-131 | The position a stream ends at, in closed form: the first multiple of the ratio at or past the end of its last sample |
| AdpcmBatch.LongestOverflows | firmware/adpcma_enc.c:154-169 | 65535 samples at 192 kHz do not fit |
| SettingsBlock.BlockRoundTrip | firmware/settings_ui.c:906-975 | A profile written and adopted comes back whole, whatever was live before |
| SettingsBlock.FlagOfFlags | firmware/settings_ui.c:917-920 | The extended-key bitmap holds every button's flag |
| SettingsBlock.BlockLayout | firmware/settings_ui.c:906-930 | Where everything is in a stored block, as numbers: four values to a word low byte first, the key codes, a bit for each extended one |
| SettingsBlock.Adopted | firmware/settings_ui.c:940-975 | Adopting any block of any stored count leaves a valid profile |
| SettingsTable.LostOnlyWhenFull | firmware/settings_ui.c:1071-1128 | A profile of the previous table keeps its own index, and is lost only if every slot of the new one is taken |
| SettingsTable.SourcesAreProfiles | firmware/settings_ui.c:1071-1128 | Every migrated entry is a valid old profile, and none arrives twice |
| SettingsTable.CountKept | firmware/settings_ui.c:1071-1128 | The number of profiles after the move is min(11, before) |
| SettingsTable.CarriedMeans | firmware/settings_ui.c:1049-1062 | A carried profile means the same settings and bindings, with the appended setting at its default |
| SettingsTable.MigrationKeepsDistinct | firmware/settings_ui.c:1071-1128 | No disk has two profiles afterwards if none had before |
| SettingsTable.LegacyIsInverse | firmware/settings_ui.c:882-901 | Each setting that survived the version 4 and 5 layouts comes from exactly one stored byte |
| SettingsRun.SaveReplacesOneEntry | firmware/settings_ui.c:1250-1266 | A save with a disk mounted changes only that disk's entry, takes a free one before any other, and overwrites another disk's only in a full table, the round-robin victim |
| SettingsRun.SavedWords | firmware/settings_ui.c:980-986 | Where a save puts what, word by word: the blob's mark, version and count, the table's mark, an entry's hash and complement before its block |
| SettingsRun.SaveReplacesBlob | firmware/settings_ui.c:1250-1253 | A save without a disk changes only the global blob |
| SettingsRun.BlobRoundTrip | firmware/settings_ui.c:980-1003 | A saved global blob is adopted whole |
| SettingsRun.ClaimedIsEmpty | firmware/settings_ui.c:1239-1249 | The first table-aware save leaves an empty table and the blob as it was |
| SettingsRun.EntrySaved | firmware/settings_ui.c:1254-1266 | Saving keeps every entry equal to the last save of its disk, and keeps entries of distinct disks |
| SettingsRun.EventKeeps | firmware/settings_ui.c:1233-1293 | So does every event: edits, rebinds, reset to defaults, saves, disk changes, power cycles |
| SettingsRun.Run | firmware/settings_ui.c:1233-1293 | In every run no two entries share a hash and every entry agrees with the last save of its disk |
| SettingsRun.MountRestores | firmware/settings_ui.c:1273-1293 | A change of disk saves what was pending for the outgoing context and makes the incoming one's last save live |
| SettingsRun.RemountRestores | firmware/settings_ui.c:1273-1293 | After any run whatever, power cycles included, mounting a disk that still has an entry brings back exactly the settings and bindings of its last save, and a context without one the last global save |
| SettingsRun.BootKeeps | firmware/settings_ui.c:1130-1221 | A power cycle loses what was not saved and nothing else |
| SettingsRun.TurnsRound | firmware/settings_ui.c:702-726 | A row steps round its options by one, and left undoes right |
| SettingsEdits.EditsChange | firmware/settings_ui.c:661-726 | What each edit changes, in numbers, and that it owes a save |
| SettingsEdits.EditComesBack | firmware/settings_ui.c:1273-1293 | An edit made in any context survives a change of disk and back |
| SettingsEdits.EditOutlivesPower | firmware/settings_ui.c:1233-1266 | One that was saved survives a power cycle: with no disk at once, with one when it is mounted again |
| SettingsEvict.SaveEvicts | firmware/settings_ui.c:1031-1042 | A save of a store with a table loses at most one profile, the victim's, and exactly then moves the victim on by one, modulo eleven |
| SettingsEvict.FullTableEvicts | firmware/settings_ui.c:1031-1042 | A disk a full table has no entry for takes the victim's |
| SettingsEvict.VictimsGoRound | firmware/settings_ui.c:1031-1042 | After any run without a power cycle the victim has moved on by the number of evictions |
| SettingsEvict.VictimsDiffer | firmware/settings_ui.c:1031-1042 | Two evictions of the same entry are at least eleven apart: eleven in a row have eleven victims |
| SettingsEvict.EvictorLasts | firmware/settings_ui.c:1031-1042 | A profile saved by eviction is still there, with its disk's last save, after up to ten more evictions, whatever edits, saves and disk changes lie between |
| SettingsEvict.EvictorComesBack | firmware/settings_ui.c:1273-1293 | So mounting that disk again brings it back |
| SettingsStore.Store.constructor | firmware/settings_ui.c:329-337 | Power-up state over whatever the window holds |
| SettingsStore.Store.BlockWrite | firmware/settings_ui.c:906-930 | The eight words at the cursor become the live profile's block, every other word stays |
| SettingsStore.Store.BlockApply | firmware/settings_ui.c:940-975 | The live profile becomes what the block stands for, for any stored count |
| SettingsStore.Store.GlobalWrite | firmware/settings_ui.c:980-986 | Header and block of the global blob, nothing else |
| SettingsStore.Store.ApplyGlobal | firmware/settings_ui.c:992-1003 | The global blob if one is readable, else the defaults |
| SettingsStore.Store.ApplyDefaults | firmware/settings_ui.c:661-668 | Every setting and binding at its compiled default |
| SettingsStore.Store.TableFind | firmware/settings_ui.c:1008-1022 | The first entry whose hash pair matches, if the table is there |
| SettingsStore.Store.TableAlloc | firmware/settings_ui.c:1026-1043 | The first free or corrupt entry, else the round-robin victim |
| SettingsStore.Store.Claim | firmware/settings_ui.c:1239-1249 | The region is claimed and every entry cleared |
| SettingsStore.Store.Service | firmware/settings_ui.c:1233-1266 | The main loop's save takes the store to the specified state |
| SettingsStore.Store.DiskMounted | firmware/settings_ui.c:1273-1293 | So does following a disk change |
| SettingsStore.Store.StepOption | firmware/settings_ui.c:702-726 | A row steps with wrap-around and marks the save; drive sound only where the build has it |
| SettingsStore.Store.Rebind | firmware/settings_ui.c:1228-1231 | A rebind rides the settings save |
| SettingsStore.Store.ResetDefaults | firmware/settings_ui.c:672-677 | Reset to defaults marks the save |
| SettingsStore.Store.EntryWrite | firmware/settings_ui.c:1049-1062 | An old entry rewritten in the new layout, in place |
| SettingsStore.Store.TableMigrate | firmware/settings_ui.c:1071-1128 | The in-place overlapping move realises the migration for every window, and touches nothing below the table |
| SettingsStore.Store.FillSlots | firmware/settings_ui.c:1115-1125 | The stashed profiles fill the free slots in order |
| SettingsStore.SlotMoved | firmware/settings_ui.c:1096-1114 | Rewriting a slot from the top down overwrites no old entry still to be read |
| SettingsStore.Store.Load | firmware/settings_ui.c:1130-1221 | A boot adopts any version of the blob, migrates the table of the previous one, brings the blob up to date and leaves every other table word alone |
| SettingsStore.Store.LoadAtPower | firmware/settings_ui.c:1130-1221 | A boot leaves a window of this version, and of one that already was it makes the state a power cycle leaves |
| SettingsStore.Store.LegacyApply | firmware/settings_ui.c:1147-1196 | A version 4 or 5 blob lands on the indices its settings have now |
| SettingsRace.MainSynced | firmware/settings_ui.c:906-930 | While nothing is owed, everything a save in progress has gathered is still true of the live profile, step by step |
| SettingsRace.NoEditLost | firmware/settings_ui.c:1228-1266 | However the interrupt falls between the steps of a save, whenever nothing is owed and no save is under way the stored block is the live profile's |
| SettingsRace.SaveCompletes | firmware/settings_ui.c:1233-1266 | Left alone, the main loop has stored the live profile within a hundred steps |
| SettingsSwitch.SwitchKeeps | firmware/settings_ui.c:1268-1294 | However the interrupt falls between the steps of a change of disk: the context left has the profile that was live unless an edit was owed at that moment, and at the end the incoming profile is live whole unless one is owed then |
| SettingsSwitch.UndisturbedSwitch | firmware/settings_ui.c:1273-1294 | An undisturbed change of disk, whatever was pending, saves the live profile for the disk that goes and leaves live what the one that comes stands for |
| SettingsSwitch.GapEdit | firmware/settings_ui.c:1278-1279 | An edit that falls between the save and the change of context is in neither profile: the block left behind is the live profile if and only if the edit changed nothing, and the incoming profile overwrites it |
| SettingsSwitch.LateEdit | firmware/settings_ui.c:936-976 | An edit while the incoming profile is read in: a setting survives if and only if it was taken over already, a binding if its flag was; in between a binding keeps its code and loses its flag |
| FloppySpec.ResolveIsFresh | firmware/fdd_service.c:248-301 | A cached offset always equals a fresh uncached header walk, for every sector of the track table |
| FloppyNames.FreshFinds | firmware/fdd_service.c:248-301 | Sector lba is record lba % spt + 1 of track lba / spt of the table: a lookup finds the bytes past the last of the track's first spt headers to give that number, and nothing if none does |
| FloppyNames.WalkNames | firmware/fdd_service.c:277-297 | A walk leaves for a record the place past the last header that names it |
| FloppySpec.LookCutShort | firmware/fdd_service.c:256-299 | Over a link that gives out after any number of transfers, a cold lookup that claims its track caches what a fresh walk finds if and only if the link lasted to the last header that names a record |
| FloppySpec.BrokenWalkSticks | firmware/fdd_service.c:256-299 | A track claimed on a shorter walk stays claimed, with a wrong offset for some record, until another track is looked up |
| FloppySpec.EmptyWalkSticks | firmware/fdd_service.c:256-299 | A link that drops right after the table entry leaves the whole track not found |
| FloppyLayout.WellFormedIsLaid | firmware/fdd_service.c:128-137 | If every track starts past the table, records its sectors at least as wide as mounted and overlaps no other, no sector reaches into what any lookup reads |
| FloppyLayout.SmallIsWellFormed | firmware/fdd_service.c:128-137 | Such an image, with two sectors that can be read and written |
| FloppyLayout.CoveredHeaderIsLost | firmware/fdd_service.c:248-301 | Where a sector runs over the record byte of the one header naming another sector of its track, data written to the one, its own but for that byte, makes the other unfindable |
| FloppyLayout.NarrowLosesASector | firmware/fdd_service.c:590-611 | An image with narrower sectors: a write to the first loses the second |
| FloppyLayout.TaggedSectorsApart | firmware/fdd_service.c:248-301 | Different sectors of a well formed D88 image share no byte |
| FloppyLayout.RawSectorsApart | firmware/fdd_service.c:564-569 | Nor do different sectors of any other image |
| FloppySpec.StoringMovesNothing | firmware/fdd_service.c:590-611 | Storing a sector of such an image moves no sector, on any track |
| FloppyRuns.LastWriteIsRead | firmware/fdd_service.c:590-611 | After any writes every sector of a sound disk, tagged or not, holds the last write to it |
| FloppyRuns.WrittenIsRead | firmware/fdd_service.c:590-611 | A write is read back, and no sector apart from it changes |
| FloppyRuns.InsertedIsTrusted | firmware/fdd_service.c:416-465 | A mount starts with nothing cached and nothing ahead, whatever was in the drive |
| FloppyRuns.ReadStreams | firmware/fdd_service.c:555-576 | A read streams its sector, or what is in the buffer if its drive's tag names it |
| FloppyRuns.WriteKeeps | firmware/fdd_service.c:590-611 | A write replaces the addressed sector if there is one, drops the read-ahead and keeps the cache true |
| FloppyRuns.LandsNext | firmware/fdd_service.c:576-589 | A read-ahead that lands brings the next sector of its own disk |
| FloppyRuns.BothDrives | firmware/fdd_service.c:533-612 | In every run of mounts, ejects, reads and writes over both drives the images change as if nothing were cached, and a read is right if and only if it misses its tag, or no read-ahead of the other drive landed since the tag was set, or the bytes agree |
| FloppyRuns.CachesAreInvisible | firmware/fdd_service.c:533-612 | In every run that reads one drive only the service cannot be told from the plain images |
| FloppyRuns.TaggedRoundTrip | firmware/fdd_service.c:533-612 | Mounting the D88 image above, writing one sector and reading it back, through the cache |
| FloppyRuns.OtherDriveSpoils | firmware/fdd_service.c:59-67 | Once the other drive has read ahead, this drive's next sequential read streams the other drive's sector |
| FloppyRuns.WrongDiskStreams | firmware/fdd_service.c:59-67 | A run of two mounts and two reads after which the first disk's next sector comes out as the second disk's |
| FloppyService.Service.D88Offset | firmware/fdd_service.c:248-301 | The cached lookup, with its cold walk |
| FloppyService.Service.WalkHeaders | firmware/fdd_service.c:277-297 | The header walk over the RAM, its scratch below the settings window |
| FloppyService.Service.TrackAndRecord | firmware/fdd_service.c:254-258 | Division by subtraction is division |
| FloppyService.Service.ServeRead | firmware/fdd_service.c:547-589 | A read request, hit or miss, and the read-ahead after it; the settings window in the same RAM is untouched |
| FloppyService.Service.ReadAhead | firmware/fdd_service.c:576-589 | The next sector staged and tagged if it could be fetched |
| FloppyService.Service.ServeWrite | firmware/fdd_service.c:590-611 | A write request; the settings window is untouched |
| FloppyService.Service.PushSector | firmware/fdd_service.c:308-318 | The staged bytes in order |
| FloppyService.Service.PullFifo | firmware/fdd_service.c:324-336 | The queued bytes in order, staged past the settings window when wide |
| ScsiSpec.ClassifiedIsInside | firmware/scsi_service.c:513-574 | For every file content and size the sectors served lie inside the file; any other sector size serves nothing; a file without a header is served whole |
| ScsiSpec.ClassifiedAgain | firmware/scsi_service.c:347-363 | Classifying the same file again moves nothing |
| ScsiImages.NhdServed | firmware/scsi_service.c:526-531 | An NHD header, byte by byte: the disk starts, is shaped and is as long as it states, as far as the file goes, and is none if the board cannot serve it |
| ScsiImages.VhdServed | firmware/scsi_service.c:532-538 | A Virtual98 header, likewise |
| ScsiImages.HdiServed | firmware/scsi_service.c:539-554 | An Anex86 header, likewise, believed if and only if its arithmetic fits the file |
| ScsiImages.FlatServed | firmware/scsi_service.c:568-573 | Any other file is served whole |
| ScsiSpec.ExecutedIsValid | firmware/scsi_service.c:347-430 | After every command the status is CHECK CONDITION exactly if a sense key is pending, bytes outside the disk never change, and only a write changes any |
| ScsiSpec.EventWrites | firmware/scsi_service.c:187-205 | A command writes exactly the sectors min(blocks, 16) says, from the buffer in order, and no other |
| ScsiSpec.SectorsHoldLastWrite | firmware/scsi_service.c:165-205 | After any run of commands every sector holds what was last written to it |
| ScsiSpec.ReadsReturnLastWrite | firmware/scsi_service.c:165-185 | A read in range hands over exactly that, and changes nothing |
| ScsiBytes.RequestDecodes | firmware/scsi_service.c:397-424 | The six- and ten-byte forms of READ and WRITE, addresses and lengths high byte first, a short length of 256 as 0, whatever the unread bits: each decodes to itself |
| ScsiBytes.OnlyWritesChange | firmware/scsi_service.c:347-430 | Twelve command bytes whose first is neither 0x0A nor 0x2A change no byte of the file |
| ScsiBytes.BytesReadBack | firmware/scsi_service.c:347-430 | After any run of command bytes and buffer loads, the bytes of a READ of either form hand over what the bytes of the last WRITE to each sector put there, and change nothing |
| ScsiBytes.BytesStored | firmware/scsi_service.c:347-430 | And every sector holds it |
| ScsiBytes.OtherCodes | firmware/scsi_service.c:366-430 | What the operation codes that move no data do, and the refusal of every unlisted one |
| ScsiBytes.AnswerCodes | firmware/scsi_service.c:374-395 | What REQUEST SENSE, INQUIRY and READ CAPACITY leave in the buffer, by operation code |
| ScsiBytes.ModeCode | firmware/scsi_service.c:288-343 | MODE SENSE by its bytes: which page, with or without the descriptor, and what its answer decodes to |
| ScsiSpec.ModeStatesGeometry | firmware/scsi_service.c:288-343 | Every MODE SENSE answer, page by page: its own length, the sectors of the block descriptor, and the shape the classification found |
| ScsiSpec.CapacityStates | firmware/scsi_service.c:232-246 | READ CAPACITY states the number of the last sector and the sector size |
| ScsiSpec.InquiryStates | firmware/scsi_service.c:207-230 | INQUIRY states a direct-access device, its own length, vendor, product and revision |
| ScsiSpec.SenseStates | firmware/scsi_service.c:248-258 | The REQUEST SENSE answer states the key, its own length and the additional code |
| ScsiSpec.SenseTold | firmware/scsi_service.c:248-265 | Whatever a command ended with, the REQUEST SENSE after it tells its key and code as far as the allocation length reaches, keeps the rest of the buffer and the disk, and leaves nothing pending |
| ScsiTarget.SecondLookAgrees | firmware/scsi_service.c:347-363 | The second look at a file its mount has classified changes nothing |
| ScsiTarget.Controller.Probe | firmware/scsi_service.c:513-574 | The classification of the mounted file by its own first sector, as the branches compute it; a failed header read leaves the old one standing |
| ScsiTarget.Controller.Mount | firmware/scsi_service.c:579-595 | A mount is provisional, and no disk if its header could not be read |
| ScsiTarget.Controller.DoRead | firmware/scsi_service.c:165-185 | A read, short only if the link fails |
| ScsiTarget.Controller.DoWrite | firmware/scsi_service.c:187-205 | A write, sector by sector |
| ScsiTarget.Controller.DoRequestSense | firmware/scsi_service.c:248-265 | The pending sense is told once and cleared |
| ScsiTarget.Controller.DoInquiry | firmware/scsi_service.c:207-230 | The identification, cut to the allocation length |
| ScsiTarget.Controller.DoReadCapacity | firmware/scsi_service.c:232-246 | The last sector's number and the sector size |
| ScsiTarget.Controller.DoModeSense | firmware/scsi_service.c:288-343 | The answer streamed and cut at the allocation length, or a refusal of unknown pages |
| ScsiTarget.Controller.Execute | firmware/scsi_service.c:347-430 | Every command of the set, after a second look at a provisional mount |
| GdcLine.ConnectedIff | firmware/gdc_service.c:244-295 | A line steps one along its major axis and at most one off it at every point if and only if d1 <= 2 * dc |
| GdcLine.WalkEnds | firmware/gdc_service.c:244-295 | It starts on its axis and ends (d1 + 1) >> 1 off it |
| GdcWay.PointsRun | firmware/gdc_service.c:253-292 | In each octant, in dots across and down: a place is the i-th point of a line if and only if it is i dots along that octant's own axis, in its own direction, and the nearest dot off it, on its own side, to the exact line of slope d1 / (2 * dc) |
| GdcWay.LinesEnd | firmware/gdc_service.c:253-292 | Where each octant's line starts and ends |
| GdcWay.DotIsBit | firmware/gdc_service.c:188-191 | The dots of a pattern are its bits from the lowest up, round and round |
| GdcWay.LineInked | firmware/gdc_service.c:203-239 | What a drawn line leaves of each of its places under each of the four operations |
| GdcWay.ComplementUndoes | firmware/gdc_service.c:203-239 | A line complemented twice leaves no trace |
| GdcLine.PlacesAreBits | firmware/gdc_service.c:188-200 | Every accepted place is inside the 32 KB plane and no two places share a bit |
| GdcLine.BitsArePlaces | firmware/gdc_service.c:188-200 | Every bit of the plane is an accepted place |
| GdcLine.MaskedOff | firmware/gdc_service.c:188-196 | Nothing of a line that leaves the plane comes back through the 16-bit masks |
| GdcLine.PatternRepeats | firmware/gdc_service.c:188-191 | The dot pattern comes round every sixteen dots |
| GdcLine.StrokeNext | firmware/gdc_service.c:251-294 | Drawing the next point changes just its place and keeps the points before it |
| GdcDraw.ByteIsDot | firmware/gdc_service.c:219-239 | The byte rewritten is one place changed by its operation and dot |
| GdcDraw.Drawer.Prepare | firmware/gdc_service.c:169-186 | The start point comes from the cursor address, forty words a line |
| GdcDraw.Drawer.PsetAt | firmware/gdc_service.c:188-240 | One dot: the pattern turns whether or not the place is on the plane |
| GdcDraw.Drawer.Vectl | firmware/gdc_service.c:244-295 | In every octant: dc + 1 points of one reflected walk, the i-th inked with the i-th dot, every other bit of the plane and every other byte unchanged |
| KeyboardSpec.TickKeeps | firmware/vkb_ui.c:415-544 | Every tick, whatever it sees, keeps makes and breaks alternating per key and the keys down equal to the latched keys and the held one |
| KeyboardSpec.RunsAreBalanced | firmware/vkb_ui.c:415-544 | From power-up, in every run: that, no toggle key latched, and nothing down with the keyboard closed or a key being picked |
| KeyboardSpec.ReleaseKeeps | firmware/vkb_ui.c:262-269 | Releasing everything breaks exactly what was down |
| KeyboardSpec.TypeKeeps | firmware/vkb_ui.c:351-413 | The keyboard's own input keeps the protocol |
| KeyboardSpec.CodesAreOwn | firmware/vkb_layout.c:88-195 | Every other key of the layout has a code of its own |
| KeyboardButtons.TypingSends | firmware/vkb_ui.c:370-413 | What a tick of typing sends: X makes or breaks the key under the cursor, or taps a toggle key; then Y breaks exactly the latched keys, in order; then A makes the key under the cursor unless it is latched, and holds it |
| KeyboardButtons.HoldingSends | firmware/vkb_ui.c:513-523 | While A holds a key nothing is sent, whatever else is pressed, until letting A go breaks it |
| KeyboardButtons.LeavingSends | firmware/vkb_ui.c:370-373 | B, L1, the opener and a button bound to the menu break the held key, then exactly the latched ones in order, and leave for nothing or for the menu |
| KeyboardButtons.ClosedSends | firmware/vkb_ui.c:415-544 | With nothing shown nothing is sent, and a button bound to the menu opens it |
| KeyboardButtons.MenuSends | firmware/vkb_ui.c:415-544 | In the menu nothing is sent; its answer or a bound button, never B, closes it |
| KeyboardButtons.PickSends | firmware/vkb_ui.c:351-369 | Picking a key sends nothing; a docked key, A or B ends it in the menu |
| KeyboardButtons.L1Moves | firmware/vkb_ui.c:459-479 | L1 brings the keyboard up from nothing and takes anything else down |
| KeyboardWire.PlacesAreOwn | fpga/core/pc98_kbd_ps2.hex:1-256 | Every scan code of the layout has a matrix place of its own |
| KeyboardWire.LineInBalance | fpga/core/pc98_kbd_ps2.sv:208-288 | Whatever events come and whenever the typematic repeats, makes and breaks alternate on the wire for every place, so the BIOS's flips leave pressed exactly the places whose last event was a make |
| KeyboardWire.RunsReachTheMachine | fpga/core/pc98_kbd_ps2.sv:208-288 | In every run of the on-screen keyboard a key of its own place reads pressed exactly while it is latched or held |
| KeyboardWire.MatrixAgrees | fpga/core/pc98_kbd_ps2.sv:208-288 | The machine reads pressed exactly the keys down if and only if RETURN and the keypad's ENTER, which share a place, were not last parted by letting go of one under the other |
| KeyboardWire.LosesAgreement | fpga/core/pc98_kbd_ps2.sv:208-288 | One signal more and the matrix agrees exactly as before, unless it is an event of RETURN or ENTER: then it agrees if and only if the event does not let go of one of the two while the other is down |
| KeyboardWire.PartingLosesEnter | firmware/vkb_ui.c:383-402 | From power-up: latch RETURN, latch ENTER, unlatch RETURN, and ENTER is latched but reads released |
| KeyboardUi.Ui.ClearLatches | firmware/vkb_ui.c:248-258 | Every latched key is broken, in order |
| KeyboardUi.Ui.ReleaseAll | firmware/vkb_ui.c:262-269 | The held key breaks before the latched ones |
| KeyboardUi.Ui.Latch | firmware/vkb_ui.c:382-402 | X latches or unlatches, and taps a toggle key |
| KeyboardUi.Ui.TypeInput | firmware/vkb_ui.c:351-413 | Picking, closing, latching, clearing, holding, in that order |
| KeyboardUi.Ui.Tick | firmware/vkb_ui.c:415-544 | One tick: opener, L1, the menu button, then the active mode |
| SoundSpec.CalledKeeps | firmware/rhythm.c:233-328 | A call of either loader keeps its loaded samples and touches nothing outside its half |
| SoundSpec.StreamRecorded | firmware/rhythm.c:305-325 | A stream that ends is recorded if and only if nothing failed and a byte of it landed: with all it gave, from its own block, as far as the wall let it; the next starts after it, or, after a failed drum voice, in its place |
| SoundSpec.TurnKeeps | firmware/drive_sound.c:75-164 | Whichever loader is called next, both keep theirs |
| SoundSpec.SamplesAreApart | firmware/drive_sound.c:75-164 | In every interleaving each loaded sample starts on a block, fills whole blocks of its own half, holds exactly a prefix of its encoder's bytes and overlaps no other |
| SoundSpec.EmitKeeps | firmware/rhythm.c:223-231 | Bytes land in order up to the wall, after what landed before |
| SoundSpec.EndAligned | firmware/rhythm.c:305-325 | A stream of whole blocks ends on a block boundary, cut short or not |
| SoundLoaders.Bank.StoreHoldsVoices | firmware/rhythm.c:233-328 | The store holds of every loaded voice and noise what landed of the batch packer's bytes for the samples its calls were given, if their stream fits |
| SoundLoaders.Bank.EmitBytes | firmware/rhythm.c:223-231 | The encoder's bytes through the auto-incrementing register |
| SoundLoaders.Bank.PushAll | firmware/rhythm.c:283-303 | A chunk of samples through the real encoder, each push's bytes landed |
| SoundLoaders.Bank.FlushAll | firmware/rhythm.c:305-308 | Flushes until one gives nothing: a stream that fits the position comes to its end, one of 65536 samples never does |
| SoundLoaders.Bank.Process | firmware/rhythm.c:266-325 | A call over an open stream, from wherever the other loader left the register; at its end the sample's bytes are the batch packer's for the samples fed if and only if their stream fits |
| SoundLoaders.Bank.WavStep | firmware/rhythm.c:233-328 | The drum loader's call: what it feeds, what it records and what it leaves of the store; only a stream that does not fit the encoder's position can hang it |
| SoundLoaders.Bank.DriveStep | firmware/drive_sound.c:99-164 | The drive loader's call, likewise |

## Left out

- EgcBytes.ByteAccesses: for runs of bytes alone; runs that mix bytes and words have the budget and the bounds but no copy theorem
- EgcVram.Egc.WriteByte: gives each byte by the latch and mask after the push, without a pixel rule over a run
- AdpcmEncoder.Encoder.FinishedMatchesBatch: for up to 2^32 samples, the range of the sample counter
- AdpcmBatch.EncodeVoice: says nothing of the bytes beyond 2^32 samples, for the same reason
- SoundLoaders.Bank.WavStep: what one file's calls feed is what they pass; that their chunks are the file's samples in order is left to the caller
- SettingsRun.RemountRestores: starts from a window whose table, if there is one, has no disk twice; a damaged save may have
- SettingsRace.NoEditLost: in one context; `SettingsSwitch.SwitchKeeps`, `SettingsSwitch.GapEdit` and `SettingsSwitch.LateEdit` are about a change of it
- SettingsSwitch.LateEdit: the incoming profile is taken as what its block decodes to, which `SettingsBlock.BlockRoundTrip` gives; the flag byte's own read and write are separate steps, an edit of the interrupt is one
- FloppyRuns.BothDrives: with transfers that succeed and well formed D88 images; `FloppySpec.LookCutShort` and `FloppyLayout.NarrowLosesASector` are about the others
- FloppyLayout.WellFormedIsLaid: sufficient, not necessary; `FloppyLayout.CoveredHeaderIsLost` is the other half for the byte that names a record, a size byte overwritten may move later headers and is not followed
- ScsiSpec.SectorsHoldLastWrite: with transfers that succeed, after the first command has settled the classification
- ScsiTarget.Controller.Probe: the double read and the poison pattern of the header are one read that succeeds or fails
- GdcDraw.Drawer.PsetAt: without a charger armed; the hardware then merges the write
- KeyboardWire.RunsReachTheMachine: the on-screen keyboard alone on the line; the pad's buttons and a docked keyboard share it
- KeyboardUi.Ui.Tick: without the settle filter, the raster and the drawing, which only decide what is seen
- The address lines of odd word accesses, the GRCG, dirty bits and clock waits of the emulator
- EgcPorts.OutWord: with the EGC switched on, which gates all its ports; the byte-wide ports, which replace half of a register, are not modelled
- RIFF parsing, downmixing and the ready-made `rhythm.bin` path; the borrowing of channels while drive noises play
- The menus themselves: which row is where, labels, colours, the virtual keyboard's key picker beyond its modes
- The D88 and FDI probes: a mount takes what they found as parameters
- Rectangles, circles and text of the drawing processor, and word writes
- Register handshakes, spin limits and the second interrupt path that re-inserts a disk from the menu
