# Verified models of the keyboard firmware and its tools

This project models, in Dafny, the parts of the repository that carry real protocol or
algorithmic weight, and proves what they are for. `dafny verify dfyconfig.toml` checks all of it.

* **ELF to UF2 converter** (`Elf2Uf2`). The page table is an object whose loops split segments into
  page fragments, pad touched flash sectors and emit numbered blocks. All address and file-offset
  arithmetic wraps at 32 bits, as in the tool. The reference is `ImageSource`: loading the segments
  straight into memory, later segments over earlier ones. The result of the overlap report is
  discarded by the tool, so an overlap is noted and the conversion goes on; `Convert` returns the
  note beside the code. Flash or RAM is decided from the entry point, and a RAM binary must be
  entered at its lowest page in main RAM. A flash image is aligned to sectors exactly when the
  topmost sector of the address space, the only one the padding loop skips, needs no padding. That
  is always so when no segment wraps past the top; `WrappedSegmentMisaligns` is a segment table with
  one that does, and every conversion of it succeeds with a misaligned image.
* **RC-5 receiver** (`Rc5Sampler`, `IrKeys`, `IrReports`, `IrSession`). The tick sampler, the frame decoder,
  the press/release loop, and the three together from pin levels to keyboard reports. A frame is any bit string with any tick spacing inside the tolerance windows;
  the tick that wakes the sampler already counts, so the first bit's windows are one tick earlier.
* **PIO assembler** (`PioExpr`, `PioResolver`, `PioCodec`, `PioOpcodes`, `PioProgram`, `PioAssembler`). Resolution of
  operand expressions with run-time cycle detection, symbol scoping, instruction encoding and the
  disassembler (section 3.4 of the RP2040 datasheet). What C++ leaves undefined (division by zero,
  signed overflow) is its own outcome, `Trap`; syntax errors are `Failed`.
* **Key matrix and mailbox** (`KeyMatrix`, `Mailbox`). Per-key debounce, the spill buffer, and the
  one-slot handshake between the two cores as interleaved single memory accesses.
* **Key modes and HID report** (`KeyModes`, `KeyCodes`, `HidReport`, `HeldKeys`, `HeldModifiers`,
  `StrandedKeys`). The
  modal key machine over the six-slot report table and modifier byte (Appendix B.1 of the USB HID
  1.11 specification). A key is called by the code the machine sends for it, which changes with mode
  and modifiers. So the report can disagree with the keys that are down, even once all are
  released: a key may be released under another name than it was pressed under, and VIM mode
  swallows the release of a shift or control key. `TableIsHeldIff` and `ModifierIsHeldIff` say
  exactly when the report is right, for every history; `StrandedKeys` has three where it is not.
* **Console** (`Console`). LF to CRLF expansion and the chunked line reader that undoes it.
* **Streaming** (`Streamer`, `SampleClock`). The round-robin sender, and the sample clock that carries
  its remainder.
* **Serial link** (`Link`). The (16,11) single-error-correcting, double-error-detecting code over the
  byte link.
* `Words` and `Bits` hold 32-bit arithmetic and bit strings.

Code that changes state is a class whose methods are proved against functions on values; the lemmas
about runs are about those functions. `Bits.ValueLow` and `Bits.LowValue` make the two readings of
bit strings inverse to each other.

## Model

| member | source | states |
|---|---|---|
| Elf2Uf2.CheckAddressRange | sdk/tools/elf2uf2/main.cpp:128-143 | the first range that holds the interval, in 32-bit arithmetic, decides; contents in a no-contents range, or no range, is an error |
| Elf2Uf2.Collides | sdk/tools/elf2uf2/main.cpp:185-190 | the per-fragment test fires if and only if a byte of the new fragment is already covered in the page |
| Elf2Uf2.PageTable.AddChunk | sdk/tools/elf2uf2/main.cpp:179-192 | one fragment is added to one page; the hit is exact in terms of addresses looked up before |
| Elf2Uf2.PageTable.AddSegment | sdk/tools/elf2uf2/main.cpp:175-196 | afterwards every address of the segment reads from its own file position, all others as before; exactly the touched pages were created; the overlap note is exact |
| Elf2Uf2.CheckEntry | sdk/tools/elf2uf2/main.cpp:163-204 | accepted iff contents and uninitialized tail fit; the table then represents the entries so far plus this one; overlap noted iff it meets an earlier loaded segment |
| Elf2Uf2.CheckEntries | sdk/tools/elf2uf2/main.cpp:161-207 | succeeds iff every entry is accepted; the table represents the whole list; the overlap note is exact over all pairs |
| Elf2Uf2.RepresentsLoad | sdk/tools/elf2uf2/main.cpp:175-196 | laying a segment over a table that represents a list gives one that represents the longer list, and the noted overlap is a meeting of address intervals |
| Elf2Uf2.ImageSourceIsSomeLoad | sdk/tools/elf2uf2/main.cpp:161-197 | the reference image has a byte at an address exactly when some loaded segment covers it |
| Elf2Uf2.RealizePage | sdk/tools/elf2uf2/main.cpp:209-221 | fails iff a fragment leaves the file; else each byte is that of the last fragment covering it, or 0 |
| Elf2Uf2.RealizeBlock | sdk/tools/elf2uf2/main.cpp:371-373 | the 476-byte data field is zeroed first; its first 256 bytes are the page |
| Elf2Uf2.PageTable.PadSector | sdk/tools/elf2uf2/main.cpp:347-353 | a sector's missing pages below the last page are added empty, nothing else changes; the topmost sector is skipped because its end wraps to 0 |
| Elf2Uf2.PageTable.Pad | sdk/tools/elf2uf2/main.cpp:339-354 | all touched sectors are padded up to the last page, and the last page stays the last |
| Elf2Uf2.PageTable.Emit | sdk/tools/elf2uf2/main.cpp:356-377 | one block for each page in increasing address order, with the fixed header fields, numbered by position, with the total count; fails iff some fragment is unreadable |
| Elf2Uf2.DetermineBinaryType | sdk/tools/elf2uf2/main.cpp:248-269 | the first segment that holds the entry point at an initialized RAM or flash address decides the style; without one the file is refused |
| Elf2Uf2.BinaryTypeIff | sdk/tools/elf2uf2/main.cpp:248-269 | RAM (or flash) exactly when the first segment that puts the entry point into RAM or flash does so at a RAM (or flash) load address, entry point minus virtual plus physical address |
| Elf2Uf2.RamBinaryConverts | sdk/tools/elf2uf2/main.cpp:255-260 | a table with one segment in main RAM, entered at its start, converts from any file that holds it |
| Elf2Uf2.CopiedToRamIsFlash | sdk/tools/elf2uf2/main.cpp:253-264 | code linked to run elsewhere but stored in flash makes a flash binary |
| Elf2Uf2.FlashAccepts | sdk/tools/elf2uf2/main.cpp:76-80 | in addresses: which entries load, and which are accepted, for a flash binary |
| Elf2Uf2.RamAccepts | sdk/tools/elf2uf2/main.cpp:82-86 | in addresses: which entries load, and which are accepted, for a RAM binary; the boot ROM is ignored |
| Elf2Uf2.PageTable.EntersLowestPage | sdk/tools/elf2uf2/main.cpp:300-315 | the scan over the pages accepts exactly the entry point one above the lowest page in main RAM |
| Elf2Uf2.WritePages | sdk/tools/elf2uf2/main.cpp:333-378 | padding and emission turn a table that represents the segments into their image, or fail iff a segment is not in the file |
| Elf2Uf2.Convert | sdk/tools/elf2uf2/main.cpp:271-379 | refused iff entry point or ranges do not fit or nothing is loaded; read error iff a segment is not in the file; else the blocks are the image of the segments, with no stray block, aligned to flash sectors iff the topmost sector is filled; overlaps are noted exactly |
| Elf2Uf2.FlashedIsImage | sdk/tools/elf2uf2/main.cpp:161-221 | writing the blocks to memory gives, at every address, the byte that loading the segments gives, 0 elsewhere in an emitted page, and nothing outside |
| Elf2Uf2.LoadedByteInOneBlock | sdk/tools/elf2uf2/main.cpp:356-377 | every loaded byte lies in exactly one block |
| Elf2Uf2.PaddingAligns | sdk/tools/elf2uf2/main.cpp:334-354 | block number and page position in its sector agree modulo 16 for all blocks iff the topmost sector has no gap |
| Elf2Uf2.NoWrapFillsTop | sdk/tools/elf2uf2/main.cpp:128-143 | for every segment table in which no loaded segment wraps, the topmost sector is filled, so the image is aligned |
| Elf2Uf2.WrappedSegmentMisaligns | sdk/tools/elf2uf2/main.cpp:128-143 | a concrete segment table, entered in its flash segment, that converts successfully from any file of 768 bytes or more, and never to an aligned image |
| Rc5Sampler.IrSampler.Sample | code/src/main.c:48-85 | one timer interrupt is one step of the sampler function |
| Rc5Sampler.HoldTimeout | code/src/main.c:62-66 | a level held past the timeout ends the frame and keeps value and bit count |
| Rc5Sampler.BitDecodes | code/src/main.c:68-82 | one Manchester bit with its edges in the windows is shifted in, and only it |
| Rc5Sampler.BitWindowExact | code/src/main.c:62-73 | inside a frame a bit is taken if and only if its middle edge comes 12 to 33 ticks after the previous one |
| Rc5Sampler.BodyDecodes | code/src/main.c:48-85 | bit strings of any length, under any timing in the windows, are collected bit by bit |
| Rc5Sampler.FrameDecodes | code/src/main.c:48-85 | from idle, a whole frame decodes to its bits modulo 2^32 and their number, with one wake-up, and leaves the sampler idle |
| IrKeys.DecodeInvertsLayout | code/src/main.c:94-109 | decoding the bits of the RC-5 frame layout gives control, address and command back, the inverted seventh command bit included |
| IrKeys.TransmissionDecodes | code/src/main.c:48-109 | from pin levels to message, for any valid timing |
| IrKeys.PollsTrack | code/src/main.c:170-192 | polls mixed into the ticks of one frame take the finished frame at most once and do not disturb the sampling |
| IrKeys.FrameSeenOnce | code/src/main.c:170-192 | however polls fall, a frame followed by a poll has been seen exactly once |
| IrKeys.SessionDecodes | code/src/main.c:48-192 | a series of messages is seen message by message, in order, in any interleaving of ticks and polls |
| IrReports.IrLoop.Poll | code/src/main.c:169-228 | one pass of the loop, with its two clock readings, is one step of the report function; a pending change is always sent in the same pass |
| IrReports.PassIsPassOf | code/src/main.c:170-183 | a pass depends only on whether the sampler is busy, idle, or holds a 13-bit frame |
| IrReports.HeldIff | code/src/main.c:170-192 | for every history of polls in time order: the decoded state is the last frame's message unless released since, all along, iff no held frame's age comes to look recent in the 32-bit clock |
| IrReports.WrappedAgeKeepsKey | code/src/main.c:178-183 | a concrete history on the failing side: polled again exactly 2^32 us after its frame, a key is not released |
| IrReports.ShortGapsFit | code/src/main.c:178-183 | idle polls less than 2^32 - 100000 us apart always meet that condition |
| IrReports.HeldIsReported | code/src/main.c:169-228 | in every such history the decoded state is what is held, and the last report is its key |
| IrReports.ReportsOnChange | code/src/main.c:185-228 | a poll adds reports exactly when it changes what the history says is held: release and press for a real key, one release for none |
| IrReports.LogIsHeldLog | code/src/main.c:169-228 | the whole log is the reports of those changes, in order |
| IrReports.ReleaseBeforePress | code/src/main.c:221-226 | for every history of polls: right before each reported key there is a release |
| IrReports.ButtonIsReported | code/src/main.c:195-226 | from start, one frame of a button of the remote control sends a release and then that button's HID key code |
| IrReports.OtherButtons | code/src/main.c:196-219 | only those buttons, at that address, have a key |
| IrReports.RepeatIsSilent | code/src/main.c:173-190 | a repeat of the held frame sends nothing |
| IrReports.SilenceReleases | code/src/main.c:178-183 | an idle poll more than 100000 us after the last frame drives the key to 0 |
| IrSession.LiveIsBoth | code/src/main.c:48-228 | sampler and loop running together are the sampler as polled and the loop over what its polls meet |
| IrSession.SessionArrivals | code/src/main.c:48-192 | each message sent arrives once, in order, under any timing and any interleaving with polls |
| IrSession.SessionReports | code/src/main.c:48-228 | from pin levels and poll times to the log: the reports are those of the messages sent, at each change and at each release after 100 ms of silence, and no others; two for each change to a key with the release first, one for each change to none |
| PioExpr.ReverseLow | sdk/tools/pioasm/pio_assembler.cpp:85-93 | the bit loop, for any number of bits, computes the value of the reversed low bits |
| PioExpr.Reverse32 | sdk/tools/pioasm/pio_assembler.cpp:83-94 | the operator is bit reversal of the 32-bit two's complement word |
| PioExpr.ReverseTwice | sdk/tools/pioasm/pio_assembler.cpp:83-94 | reversal is its own inverse |
| PioExpr.TruncDivRemainder | sdk/tools/pioasm/pio_assembler.cpp:110-111 | division truncates toward zero: the remainder is smaller than the divisor and has the dividend's sign |
| PioExpr.AddLaws | sdk/tools/pioasm/pio_assembler.cpp:104-105 | addition is counting on, and traps exactly where the sum leaves 32 bits |
| PioExpr.SubtractLaws | sdk/tools/pioasm/pio_assembler.cpp:106-107 | subtraction undoes addition and is undone by it |
| PioExpr.MultiplyLaws | sdk/tools/pioasm/pio_assembler.cpp:108-109 | multiplication is repeated addition |
| PioExpr.DivideLaws | sdk/tools/pioasm/pio_assembler.cpp:110-111 | the quotient truncates toward zero; undefined exactly for divisor 0 and for the least value by -1 |
| PioExpr.NegateLaws | sdk/tools/pioasm/pio_assembler.cpp:81-82 | a value and its negation add up to 0; only the least value has none |
| PioExpr.BitwiseLaws | sdk/tools/pioasm/pio_assembler.cpp:112-117 | and, or, xor act on each of the 32 bits |
| PioExpr.ReverseLaws | sdk/tools/pioasm/pio_assembler.cpp:83-94 | bit i of the reversed value is bit 31 - i |
| PioExpr.ApplyComputes | sdk/tools/pioasm/pio_assembler.cpp:100-121 | every operator has the outcome of arithmetic, or traps where C++ leaves it undefined |
| PioExpr.SignedOfWord | sdk/tools/pioasm/pio_assembler.cpp:112-117 | reading back the two's complement bits of a value gives the value |
| PioExpr.WordOfSigned | sdk/tools/pioasm/pio_assembler.cpp:112-117 | every 32-bit pattern is the pattern of its value |
| PioResolver.Resolve | sdk/tools/pioasm/pio_assembler.cpp:74-196 | terminates on every symbol table; the outcome is a function of definitions and marks; every mark is restored on success and on error |
| PioResolver.ResolutionExact | sdk/tools/pioasm/pio_assembler.cpp:174-196 | success implies groundedness, a syntax error its absence, and on grounded expressions the outcome is that of substitution without marks |
| PioResolver.SucceedsIffGrounded | sdk/tools/pioasm/pio_assembler.cpp:174-196 | where no operation is undefined, resolution succeeds iff all reachable names are defined and none reaches itself |
| PioResolver.ResolvedComputes | sdk/tools/pioasm/pio_assembler.cpp:100-121 | a binary expression resolves to what arithmetic makes of its operands' values, or to the first operand's failure |
| PioResolver.ResolvedUnary | sdk/tools/pioasm/pio_assembler.cpp:78-98 | negation and bit reversal of a resolved operand |
| PioResolver.ErrorIsReal | sdk/tools/pioasm/pio_assembler.cpp:177-194 | the error comes with a chain of definitions that ends in an undefined name, or revisits one |
| PioResolver.FailurePath | sdk/tools/pioasm/pio_assembler.cpp:174-196 | the same with some symbols already started |
| PioResolver.ResolvedPaths | sdk/tools/pioasm/pio_assembler.cpp:174-186 | a resolved expression has no chain that repeats a name, leaves the table or meets a started symbol |
| PioResolver.ResolvedIsEval | sdk/tools/pioasm/pio_assembler.cpp:78-121 | the marked resolution agrees with bounded substitution wherever it succeeds or traps, whatever is already started |
| PioCodec.RawEncodeDecodes | sdk/tools/pioasm/pio_assembler.cpp:246-308 | each instruction's raw fields are in range and decode to the operation it denotes, or the operand check rejects it |
| PioCodec.WaitDecodes | sdk/tools/pioasm/pio_assembler.cpp:282-301 | wait: polarity, source and relative flag survive the packing |
| PioCodec.IrqDecodes | sdk/tools/pioasm/pio_assembler.cpp:303-308 | irq: mode, number and relative flag survive |
| PioCodec.FifoDecodes | sdk/tools/pioasm/pio_types.h:342-357 | push and pull: both flags survive, and the two are told apart |
| PioCodec.MovDecodes | sdk/tools/pioasm/pio_types.h:367-369 | mov: places and operation survive, with plain x,x and y,y read as nop |
| PioCodec.PlainOperandDecodes | sdk/tools/pioasm/pio_assembler.cpp:246-280 | jmp, in, out, set and nop: operands survive, a count of 32 stored as 0 |
| PioCodec.PackFields | sdk/tools/pioasm/pio_assembler.cpp:231 | or-ing the shifted fields is their sum, so no field disturbs another |
| PioCodec.OrShifted | sdk/tools/pioasm/pio_assembler.cpp:226-231 | a shifted number and one that fits below it have no common bit |
| PioCodec.SharedField | sdk/tools/pioasm/pio_assembler.cpp:214-231 | delay, side-set value and presence flag can be read back from the shared five bits |
| PioCodec.DisassembleInvertsEncode | sdk/tools/pioasm/pio_disassembler.cpp:16-169 | every accepted instruction is shown again as what it denotes, with its side value and delay |
| PioCodec.EncodesIffShowable | sdk/tools/pioasm/pio_assembler.cpp:198-308 | the encoder accepts an instruction iff its operands have values and some word is shown as that instruction; only jumps are held to the program's length, and a side-set of width 0 to the value 0 |
| PioOpcodes.JumpWord | sdk/tools/pioasm/pio_types.h:32-42 | the jump words as numbers, for every condition |
| PioOpcodes.ShiftWords | sdk/tools/pioasm/pio_types.h:44-56 | the in and out words as numbers, for every place and count |
| PioOpcodes.SetWord | sdk/tools/pioasm/pio_assembler.cpp:274-280 | the set words as numbers |
| PioOpcodes.PushWord | sdk/tools/pioasm/pio_types.h:342-345 | the push words as numbers |
| PioOpcodes.PullWord | sdk/tools/pioasm/pio_types.h:354-357 | the pull words as numbers |
| PioOpcodes.MovWord | sdk/tools/pioasm/pio_types.h:64-81 | the mov words as numbers, for every destination, operation and source |
| PioOpcodes.NopWord | sdk/tools/pioasm/pio_types.h:384-386 | nop is 0xA042 |
| PioOpcodes.IrqWord | sdk/tools/pioasm/pio_assembler.cpp:303-308 | the irq words as numbers |
| PioOpcodes.WaitGpioWord | sdk/tools/pioasm/pio_assembler.cpp:282-301 | the wait gpio words as numbers |
| PioOpcodes.WaitPinWord | sdk/tools/pioasm/pio_assembler.cpp:282-301 | the wait pin words as numbers |
| PioOpcodes.WaitIrqWord | sdk/tools/pioasm/pio_assembler.cpp:282-301 | the wait irq words as numbers |
| PioOpcodes.FullWord | sdk/tools/pioasm/pio_assembler.cpp:198-232 | where side-set flag, side-set value and delay are in an accepted word |
| PioOpcodes.ReservedIff | sdk/tools/pioasm/pio_disassembler.cpp:28-159 | exactly which words are shown as reserved |
| PioOpcodes.WordDirective | sdk/tools/pioasm/pio_assembler.cpp:238-244 | .word gives its value iff that has 16 bits |
| PioProgram.ActKeepsScoped | sdk/tools/pioasm/pio_assembler.h:41-89 | each directive, accepted or not, keeps the scoping and bounds invariant |
| PioProgram.BuildIsScoped | sdk/tools/pioasm/pio_assembler.cpp:38-72 | after any sequence of directives: globals disjoint from every program's names, each symbol listed once, labels within the program, at most 32 instructions, program names distinct |
| PioProgram.RunGrows | sdk/tools/pioasm/pio_types.h:271-284 | later directives never remove or change instructions or symbols |
| PioProgram.LabelIsPosition | sdk/tools/pioasm/pio_types.h:271-274 | however the build goes on, a label's value is the number of instructions before it |
| PioProgram.WrapIsLast | sdk/tools/pioasm/pio_assembler.cpp:123-133 | however the build goes on, the wrap point is the last instruction before .wrap |
| PioProgram.WrapTargetIsNext | sdk/tools/pioasm/pio_assembler.cpp:135-142 | the wrap target is the first instruction after .wrap_target |
| PioProgram.InstructionStays | sdk/tools/pioasm/pio_assembler.cpp:51 | an instruction stays where it was written |
| PioProgram.SidesetStays | sdk/tools/pioasm/pio_types.h:265-269 | a .side_set that instructions follow is the program's, with its option |
| PioProgram.AcceptedIff | sdk/tools/pioasm/pio_assembler.h:41-75 | for each directive, exactly when and where it is accepted |
| PioProgram.GlobalIsVisible | sdk/tools/pioasm/pio_assembler.h:77-89 | however the build goes on, a global .define means its definition in every program |
| PioProgram.LocalIsVisible | sdk/tools/pioasm/pio_assembler.h:77-89 | a .define in a program means its definition there |
| PioProgram.OthersAreHidden | sdk/tools/pioasm/pio_assembler.h:77-89 | names that are neither global nor the program's own are undefined |
| PioProgram.FinalizedIff | sdk/tools/pioasm/pio_assembler.cpp:152-167 | the side-set width is accepted iff its values, with the flag if optional, fit into five bits |
| PioProgram.FinalizeIsFinalized | sdk/tools/pioasm/pio_assembler.cpp:152-172 | accepted side-set settings give the limits that make side-set value and delay share five bits |
| PioProgram.AssembleWords | sdk/tools/pioasm/pio_assembler.cpp:198-244 | an accepted program gives one word for each instruction, that instruction's encoding |
| PioProgram.AssembledProgramRoundTrips | sdk/tools/pioasm/pio_assembler.cpp:152-308 | any buildable, accepted program disassembles to what was written, instruction by instruction |
| PioProgram.JumpToLabel | sdk/tools/pioasm/pio_assembler.cpp:246-256 | a jump to a label encodes the label's position, and is out of range exactly for a label after the last instruction |
| PioAssembler.Program.AddSymbol | sdk/tools/pioasm/pio_assembler.cpp:56-72 | rejected iff the name is visible; else added to map and list; unchanged on error |
| PioAssembler.Program.AddLabel | sdk/tools/pioasm/pio_types.h:271-274 | defines the current instruction count under the label's name, under the same rule |
| PioAssembler.Program.AddInstruction | sdk/tools/pioasm/pio_assembler.cpp:38-52 | rejected at 32 instructions, or without side where side is not optional; else appended |
| PioAssembler.Program.SetSideset | sdk/tools/pioasm/pio_types.h:265-269 | sets side-set width and option, only before the first instruction |
| PioAssembler.Program.SetWrap | sdk/tools/pioasm/pio_assembler.cpp:123-133 | once only and after an instruction; points at the last instruction |
| PioAssembler.Program.SetWrapTarget | sdk/tools/pioasm/pio_assembler.cpp:135-142 | once only; points at the next instruction |
| PioAssembler.Program.Finish | sdk/tools/pioasm/pio_assembler.cpp:152-172 | computes the limits, or fails, exactly as Finalize; leaves all marks clear |
| PioAssembler.Assembler.AddProgram | sdk/tools/pioasm/pio_assembler.h:41-49 | starts a program iff no program has the name |
| PioAssembler.Assembler.Directive | sdk/tools/pioasm/pio_assembler.h:58-75 | acts on the last program; without one, only .define is allowed and goes to the globals |
| PioAssembler.Assembler.Apply | sdk/tools/pioasm/parser.yy:144-170 | each directive acts as its step function and leaves other programs alone |
| Mailbox.MatrixMailbox.QueuePut | code/src/monitor_matrix.c:34-39 | appends, or drops when 30 are held |
| Mailbox.MatrixMailbox.QueueHandle | code/src/monitor_matrix.c:41-49 | moves the most recently spilled event into a free slot |
| Mailbox.MatrixMailbox.EventQueue | code/src/monitor_matrix.c:51-69 | fills a free slot, spills otherwise |
| Mailbox.MatrixMailbox.GetEvent | code/src/monitor_matrix.c:25-32 | returns the slot's event and frees the slot |
| Mailbox.DoKeepsSlotSafe | code/src/monitor_matrix.c:25-69 | each micro-step of either core keeps the slot exclusive and the partial copies right |
| Mailbox.DoConserves | code/src/monitor_matrix.c:25-69 | each micro-step conserves the multiset of events |
| Mailbox.RunIsSafe | code/src/monitor_matrix.c:25-69 | in every interleaving no half-written event is copied, and generated events equal delivered, in flight, spilled and dropped |
| Mailbox.DeliveredWasGenerated | code/src/monitor_matrix.c:25-32 | the copy returned is the published event, and delivered events were all generated |
| Mailbox.DropsOnlyWhenFull | code/src/monitor_matrix.c:34-39 | an event is dropped exactly by a spill into 30 held events |
| Mailbox.DrainIsAll | code/src/monitor_matrix.c:25-49 | reading and refilling delivers the slot and then every spilled event, the newest first |
| Mailbox.OfferedIsDelivered | code/src/monitor_matrix.c:51-69 | an event offered is delivered next after what is in the slot, or dropped at 30 spilled events |
| Mailbox.OfferIsUninterrupted | code/src/monitor_matrix.c:51-69 | the micro-steps of event_queue without interruption are the method's effect |
| Mailbox.RefillIsUninterrupted | code/src/monitor_matrix.c:41-49 | the micro-steps of queue_handle without interruption are the method's effect |
| KeyMatrix.ObserveKeeps | code/src/monitor_matrix.c:98-107 | one reading keeps events alternating, more than 10000 us apart, and the state equal to downs minus ups |
| KeyMatrix.RunIsDebounced | code/src/monitor_matrix.c:98-107 | the same over every run with a monotone clock |
| KeyMatrix.ChangeIsTaken | code/src/monitor_matrix.c:100-107 | a reading is taken up unless an event of the key was at most 10000 us before |
| KeyMatrix.Scanner.ScanKey | code/src/monitor_matrix.c:97-108 | one key's cell takes its debounced reading, its event goes to the mailbox, all other cells stay |
| KeyMatrix.Scanner.ScanRow | code/src/monitor_matrix.c:90-113 | one row takes its readings; the mailbox gets the changes in column order |
| KeyMatrix.Scanner.ScanMatrix | code/src/monitor_matrix.c:89-116 | one pass of the loop: all rows from the top, then one refill of the slot |
| KeyMatrix.KeysAreIndependent | code/src/monitor_matrix.c:89-116 | over every run of scans, the state of a key and its events among all those queued are what observing that key alone gives |
| KeyMatrix.MatrixIsDebounced | code/src/monitor_matrix.c:89-116 | with a monotone clock the events of every key of the matrix alternate from DOWN, lie more than 10000 us apart, and account for its state |
| HidReport.HidTable.ReplaceFirst | code/src/send_over_hid.c:44-59 | only the first slot with the value is overwritten |
| HidReport.HidTable.Update | code/src/send_over_hid.c:14-69 | modifier byte or table changes as the step function says, never both |
| HidReport.HidTable.SendOverHid | code/src/send_over_hid.c:10-73 | one report of the new state for an up or down, none otherwise |
| HidReport.SendKeys | code/src/send_over_hid.c:34-69 | one call changes the multiset of nonzero slots as a multiset capped at six |
| HidReport.TableIsCapped | code/src/send_over_hid.c:34-69 | in any history the table refines the capped multiset |
| HidReport.CleanTableIsHeld | code/src/send_over_hid.c:34-69 | when ups match downs and at most six are held, each key is in as many slots as it is held |
| HidReport.SendBit | code/src/send_over_hid.c:14-33 | one call sets or clears only the addressed modifier bit |
| HidReport.ModifierIsLastEvent | code/src/send_over_hid.c:14-33 | modifier bit b is set iff the last up or down of key 0xE0 + b was a down |
| KeyModes.KeyHandler.ProcessInput | code/src/process_input.c:128-165 | one input changes modifiers, mode, latch and sent calls as the mode machine says |
| KeyModes.KeyHandler.UpdateModifiers | code/src/process_input.c:129-143 | shift and control are tracked from either key of each pair |
| KeyModes.KeyHandler.VimProcessInput | code/src/process_input.c:40-126 | the whole VIM switch |
| KeyModes.KeyHandler.VimRename | code/src/process_input.c:44-74 | the navigation cases |
| KeyModes.KeyHandler.VimCommand | code/src/process_input.c:76-124 | delete, latch, leave, and the default that swallows plain modifiers |
| KeyModes.KeyHandler.VimLatch | code/src/process_input.c:94-104 | a V press toggles the held left shift |
| KeyModes.KeyHandler.ReleaseLatch | code/src/process_input.c:107-110 | a latched shift is let go, once |
| KeyModes.KeyHandler.FunctionProcessInput | code/src/process_input.c:26-38 | the search through the paired maps sends F1 to F12 for the number row |
| KeyModes.ReachableIsCoherent | code/src/process_input.c:40-165 | in every reachable state a latched shift means VIM mode and the HID left-shift bit, and only keys below 0xf0 were sent |
| KeyModes.LeavingVimReleasesShift | code/src/process_input.c:106-112 | every input that leaves VIM lets go of the shift it latched |
| KeyModes.TableHoldsPlainKeys | code/src/send_over_hid.c:14-69 | no key of 0xf0 or above, and no modifier, is ever in the report table |
| KeyModes.NormalForwards | code/src/process_input.c:147-153 | without mode keys exactly the events below 0xf0 are forwarded, in order |
| KeyModes.StaysNormalIff | code/src/process_input.c:147-153 | a run is in NORMAL mode throughout iff it presses no mode key |
| KeyModes.ModifiersAreLastEvents | code/src/process_input.c:129-143 | after every history, shift (control) is set iff the last up or down of keys 0xE1 and 0xE5 (0xE0 and 0xE4) was a down |
| KeyModes.ModeAfter | code/src/process_input.c:106-112 | after every history, the mode that each input leads to |
| KeyCodes.VimNavigates | code/src/process_input.c:44-74 | the key codes sent for 0 h j k l in VIM mode, as numbers |
| KeyCodes.VimNavigatesShifted | code/src/process_input.c:48-58 | the key codes sent for 4 h l with shift |
| KeyCodes.VimCommands | code/src/process_input.c:76-112 | the calls made for x, d, v and i, with the latch |
| KeyCodes.VimSwallows | code/src/process_input.c:114-124 | shift, control and special keys send nothing in VIM mode |
| KeyCodes.VimPassesOn | code/src/process_input.c:114-124 | all other keys, and all keys with control, are sent as they are |
| KeyCodes.FunctionRow | code/src/process_input.c:26-38 | the number row as F1 to F12, as numbers; all other keys unchanged |
| HeldKeys.InputTable | code/src/process_input.c:26-165 | in every mode an input acts on the report table under the key's present name and in no other way |
| HeldKeys.TableIsHeldIff | code/src/process_input.c:128-165 | for every history: the table is the multiset of the press-time names of the keys that are down, on every prefix, iff every named press finds a free slot and every release has the name of its press, or had none and takes none that is held |
| HeldKeys.CalmIsExact | code/src/process_input.c:128-165 | if keys go down only when up and with a free slot, and up only when down, and mode and VIM modifiers change only while no named key is down, no key is ever stranded |
| HeldModifiers.ModifierIsHeldIff | code/src/process_input.c:94-124 | for every history and modifier: the bit is set iff the key is down from a press that was sent on, or latched, on every prefix, iff such a key is not released in VIM mode and the latch does not let it go |
| HeldModifiers.OtherModifierIsHeld | code/src/process_input.c:114-124 | the bits of Alt and GUI keys are right in every history |
| HeldModifiers.EnteredUpIsExact | code/src/process_input.c:114-124 | a shift or control key that is up whenever VIM mode is entered has the right bit |
| HeldModifiers.ReleasedReportIsEmpty | code/src/process_input.c:128-165 | in such careful histories, once every key is released the report is empty but for a latched shift |
| StrandedKeys.ModeChangeStrandsKey | code/src/process_input.c:60-62 | H pressed in NORMAL and released in VIM mode: every key is up and H is still reported |
| StrandedKeys.ShiftReleaseStrandsKey | code/src/process_input.c:48-50 | shift released before 4 in VIM mode, with no mode change: every key is up and END is still reported |
| StrandedKeys.ModeChangeStrandsShift | code/src/process_input.c:114-124 | left shift pressed in NORMAL and released in VIM mode: every key is up and its bit is still set |
| Console.ReplaceLfWithCrlf | code/src/tinyusb/usb.c:87-109 | the allocation is filled exactly with the expanded text and its NUL |
| Console.CountLf | code/src/tinyusb/usb.c:90-95 | counts the line feeds of the text |
| Console.ExpandedLength | code/src/tinyusb/usb.c:97 | text plus line feeds is the expanded length, so the buffer is neither short nor long |
| Console.CrBeforeLf | code/src/tinyusb/usb.c:100-105 | in expanded text each line feed comes right after a carriage return |
| Console.OnlyCrAdded | code/src/tinyusb/usb.c:100-105 | but for carriage returns the expanded text is the text |
| Console.LineReader.EndLine | code/src/tinyusb/usb.c:54-62 | a completed line is delivered up to its first NUL; exactly "reset" resets |
| Console.LineReader.HandleCdcInput | code/src/tinyusb/usb.c:45-68 | a chunk is read character by character, with the index never above 100 |
| Console.ChunksDoNotMatter | code/src/tinyusb/usb.c:45-68 | any split into chunks gives the state the whole text gives |
| Console.ReaderDeliversLines | code/src/tinyusb/usb.c:45-68 | the reader completes exactly the lines of the text, each without CR and cut to 100 |
| Console.ReaderIgnoresExpansion | code/src/tinyusb/usb.c:52-109 | from any state, expanded text and original text leave the reader in the same state |
| Console.PrintedLinesArrive | code/src/tinyusb/usb.c:45-109 | expanded text, in any chunks, completes the lines of the original |
| Console.PlainLineDelivered | code/src/tinyusb/usb.c:63-66 | a NUL-free line arrives as its first 100 characters that are not CR |
| Streamer.Server.Stream | sdk/lib/btstack/example/gatt_streamer_server.c:352-386 | the search ends; the first active slot from the index on is served and the index moves past it, or nothing changes |
| Streamer.Server.NextConnectionIndex | sdk/lib/btstack/example/gatt_streamer_server.c:137-142 | the index steps round the table |
| Streamer.Server.ConnectionForHandle | sdk/lib/btstack/example/gatt_streamer_server.c:129-135 | the first slot with the handle, or none if there is none |
| Streamer.ServeIsFirst | sdk/lib/btstack/example/gatt_streamer_server.c:352-366 | the served slot is the nearest active one going round; none iff none is active |
| Streamer.BoundedWait | sdk/lib/btstack/example/gatt_streamer_server.c:352-386 | a connection that stays active is served within N calls, whatever the others do |
| Streamer.ServedAtRank | sdk/lib/btstack/example/gatt_streamer_server.c:352-386 | with a fixed active set a member is served at exactly the call of its rank |
| Streamer.EachServedOnce | sdk/lib/btstack/example/gatt_streamer_server.c:352-386 | any k calls serve each of k active connections exactly once |
| Streamer.LettersGoRound | sdk/lib/btstack/example/gatt_streamer_server.c:370-372 | the test letter goes round the 26 letters, and nothing else of the connection changes |
| SampleClock.MediaTracker.AudioTimeoutHandler | sdk/lib/btstack/example/a2dp_source_demo.c:440-470 | one tick advances clock, samples and storage, in wrapping 32-bit arithmetic, and decides on sending |
| SampleClock.MediaTracker.FillSbcAudioBuffer | sdk/lib/btstack/example/a2dp_source_demo.c:416-438 | the loop encodes the largest number of frames that samples and space allow |
| SampleClock.MediaTracker.SendMediaPacket | sdk/lib/btstack/example/a2dp_source_demo.c:351-361 | empties the storage and counts its frames in eight bits |
| SampleClock.ClockBalances | sdk/lib/btstack/example/a2dp_source_demo.c:446-459 | 1000 times the new samples plus the new remainder is exactly the old remainder plus period times rate |
| SampleClock.TimerBalances | sdk/lib/btstack/example/a2dp_source_demo.c:440-470 | a tick keeps time, samples and frames in balance |
| SampleClock.SendBalances | sdk/lib/btstack/example/a2dp_source_demo.c:351-361 | a send keeps the balance and leaves no frame unsent |
| SampleClock.RunBalances | sdk/lib/btstack/example/a2dp_source_demo.c:351-470 | over any run: 1000 samples-generated plus remainder equals rate times milliseconds counted; generated equals ready plus encoded; encoded equals sent plus stored |
| SampleClock.KeepsTimeIff | sdk/lib/btstack/example/a2dp_source_demo.c:444-458 | against true event times: the milliseconds counted are 10 and the time since the first tick, all along, iff only a gap of 10 ms follows a tick at which the clock reads 0 |
| SampleClock.RunKeepsTime | sdk/lib/btstack/example/a2dp_source_demo.c:444-459 | with no clock reading of 0: 1000 samples-generated plus remainder equals rate times 10 plus the time elapsed between first and last tick |
| SampleClock.FramesToFillIsMost | sdk/lib/btstack/example/a2dp_source_demo.c:420-421 | a number of frames is at most the one encoded iff there are samples and space for it |
| SampleClock.RunKeepsUp | sdk/lib/btstack/example/a2dp_source_demo.c:461-469 | in every run sending is due exactly when no further frame fits the packet |
| Link.EncodedIsCodeword | code/src/hamming.h:11-32 | every encoded word passes all five checks |
| Link.EncodedCarriesData | code/src/hamming.c:25-29 | the data can be extracted from the encoded word |
| Link.EncodedLayout | code/src/hamming.h:20-32 | where the data bits are in the word |
| Link.UnitWord | code/src/hamming.h:11-32 | the code words of the single data bits |
| Link.CodewordCorrected | code/src/hamming.c:33-52 | a codeword with none or any one bit flipped decodes to its data |
| Link.CodewordRejected | code/src/hamming.c:42-46 | a codeword with any two bits flipped decodes to 0 |
| Link.WordArrives | code/src/hamming.c:33-52 | encode, disturb, decode: the datum, or 0 after two flips |
| Link.Uart.TrrsSend | code/src/trrs.c:16-19 | low byte first, then the high byte |
| Link.Uart.TrrsRead | code/src/trrs.c:25-33 | takes two bytes for a word, low byte first; 0 when the second does not come |
| Link.StreamArrives | code/src/trrs.c:16-33 | a whole stream arrives in order, double errors as 0 |
| Link.CorrectedStream | code/src/hamming.c:33-52 | with at most one flip in each word the received sequence is the one sent |

## Left out

- Elf2Uf2.Convert: files larger than 2^32 bytes are not covered; for a file of exactly 2^32 bytes with a segment whose file range wraps, the contract only says success or read error.
- Elf2Uf2.FlashAccepts: for entries whose end does not wrap; Elf2Uf2.Convert covers the others as well, in wrapping arithmetic.
- Elf2Uf2.PageTable.Emit: write errors are not modelled.
- ELF header checks, reading the program headers, `is_address_valid` and `is_address_mapped`: input parsing or unused code.
- Rc5Sampler.FrameDecodes: the race between the timer interrupt and the main loop's several reads is not modelled; one poll is one atomic step.
- IrKeys.SessionDecodes: a poll falls between two frames; if none does, the earlier frame is overwritten in the source as well. The same holds for IrSession.SessionReports.
- IrReports.HeldIsReported: histories in which a held frame's age wraps the 32-bit clock; by HeldIff the source misses the release there.
- The rotary encoder and mute pin of the main loop, and all GPIO, sleeps and USB calls: hardware; a report is an entry of a log.
- PioResolver.ErrorIsReal: errors carry the name and the kind, not locations and message texts.
- PioCodec.DisassembleInvertsEncode: the disassembly is a structured value, not padded text; a non-optional side-set of width 0 is shown without side, as the disassembler does.
- PioProgram.AssembledProgramRoundTrips: `.word` is raw data and outside the round trip, and `side` is used only under `.side_set`, because the side-set width is otherwise never set in the source.
- PioAssembler.Program.Finish: a side-set width of 32 or more shifts by more than the word in C++; it is rejected here, as the later width check does.
- PioAssembler.Assembler.Directive: an error leaves the build as it was and the run goes on; the parser's own error recovery and abort are not modelled, nor are `.origin`, pindirs, code blocks and language options.
- The grammar, lexer and output formats of pioasm: text handling; instructions start as the types the grammar builds.
- Mailbox.RunIsSafe: single memory accesses are taken in a sequentially consistent order, as the atomic flag promises; the scan order of events is not kept, since the spill buffer is last-in first-out.
- KeyMatrix.Scanner.ScanMatrix: one pass of the endless loop, without the pin accesses; levels and times are parameters.
- HidReport.HidTable.SendOverHid: diagnostics are not modelled, which also leaves out the precedence slip in the already-released test, whose only effect is a message.
- KeyModes.KeyHandler.ProcessInput: diagnostics of the default case are not modelled.
- Console.LineReader.EndLine: a reset is counted and the model goes on; a later line overwrites an earlier one that nobody read, so the model logs every completed line beside the last one.
- Console.ReplaceLfWithCrlf: failing allocation and freeing of the old buffer.
- Streamer.Server.Stream: notification payload and throughput tracking; connecting and disconnecting enter only as changed activity between calls.
- SampleClock.RunBalances: no 32-bit overflow within the run, and fewer than 256 frames fit the payload, since the packet counts them in eight bits; the encoder's frame size is constant; audio contents and stored bytes are not modelled. The same holds for SampleClock.RunKeepsTime.
- Link.Uart.TrrsRead: the 1 ms wait is whether a second byte is there; printed diagnostics are left out.
- The remaining BTstack examples, key tables, USB descriptors and scripts: thin callbacks and configuration.
