# Debug probe: verified models

Dafny models of the parts of the debug-access-port probe where a mistake is silent: the trace
drain and its output ring, chained block reads through the FPGA, program flash and boot-header
programming, frame assembly and CRC6, trigger slots and single steps, the JTAG TAP driver, the
CMSIS-DAP packet queues, byte access to memory, and GDB's `load`.

`dafny verify dfyconfig.toml` checks everything.  Loops and updates in place are methods and
classes; what they compute is stated through functions and predicates on values, and the laws are
lemmas about those.  Hardware and other tasks move between any two accesses: the trace writer and
the fabric run any number of steps wherever the code could be overtaken, callbacks and the queue
handler interleave at every shared access, a bus access or a device command may fail anywhere.
Such failures are counted as faults, and what an operation does without one is part of its
contract.  A flash command may also fail without the flasher seeing it; those are counted apart.

| Files | What they model |
|---|---|
| `Crc6`, `Polynomials`, `Bits`, `Frame` | CRC6 both ways round, and as remainders of polynomials; narrow and wide frames; block-read payloads |
| `TraceRam`, `TraceLedger`, `TraceDrain` | the trace writer and its memory; the drain's books; a pass, a poll, many polls |
| `TraceRing`, `TraceRingSteps` | the byte ring as procedures, and byte by byte with both sides interleaved |
| `ChainFabric`, `ChainRead` | the fabric's side of a chain; the one-line and two-line host loops |
| the `Flash` modules, `Crc32` | addresses and the bank swap; the device; erase runs; programming; the differential apply |
| `UcbDevice`, `Ucb`, `UcbRefusal` | the DMU's command cycles; the boot-header writer; what an unread refusal does to it |
| `TriggerTable`, `Stepping` | the trigger table against the registers; single steps |
| `TapStates`, `TapDriver` | the TAP controller of IEEE 1149.1-2001, section 6.1, and the driver |
| `UsbQueue`, `UsbResponse`, `UsbRuns` | request queue, response queue, and both under every interleaving |
| `ByteMemory` | byte reads and writes over a word bus |
| `GdbLoad`, `GdbErase`, `GdbApply`, `GdbRequests`, `GdbSession` | collecting a load; its erase-only sectors; handing it to the flasher; what a sequence of requests asks for; a whole load |
| `Common`, `Arith` | shared definitions; division facts |

## What the proofs rest on

- Trace: at least three paragraphs in the ring, and less than a lap of the writer between two
  pointer reads inside a pass.  Between passes the writer runs as far as it likes.
- Chains: the fabric is idle when a chain starts; at most 16 bytes arrive between the two LEVEL
  bytes, and fewer than 64 between STATUS and LEVEL.  Reply flags left by an earlier operation are
  allowed for.  Pops have reached the LEVEL counter by the time it is next read.
- Flash: equal checksums are equal bytes; erased flash cannot be checksummed (it traps the stub).
  Regions start on pages and share no page in either alias; `GdbApply.RunsAreGood` proves that of
  every image a `load` produces.  A refused erase erases nothing; a command that fails otherwise
  may leave its range in any state.  Either may go unseen.
- Boot headers: a command is carried out whole or not at all.
- Steps: register writes succeed; no address is in two slots at the start.
- Packet queues: from the first CONFIGURED event, 1 to 65535 packet buffers; for responses, room for
  each answer when it is given.

## Where the code does not do what it says

- `sector_differs` (tricore_flash.c:609-635) takes the erased value for 0x00; programming pads with
  0xFF.  So a region that ends off a page boundary makes its last sector differ from itself: it is
  rewritten every time.  Input: an image of one byte (`FlashSame.OneByteNeverMatches`).  Exact
  condition: `FlashSame.SkippedNextTime`.  Nothing wrong is ever skipped, and neither caller in the
  repository passes such a region: flash_web.c:313-318 rounds to pages, and a `load` is made of
  whole sectors.
- An image that names one sector through both aliases loses a part that was skipped through one
  and erased through the other; the final verify catches it.  Input: two bytes
  (`FlashSame.TwoNamesLoseAByte`).  Exact condition: `FlashSame.ShownIffConsistent`.  No caller in
  the repository does this.
- In the torn branch of the drain (dap_trace.c:376-383) the count of lost paragraphs falls short of
  the true skip by how far the writer moved during the pass, and a pass also misses the whole laps
  the writer made before it.  Input: a ring of four paragraphs, one waiting, the writer filling
  three more while it is read (`TraceDrain.TornPassCountsOneOfFour`).  `TraceLedger.PassSlips` gives
  what escapes a pass exactly; nothing else escapes.
- A watchpoint whose address is the program counter comes back from a step as a code trigger.
  Input: `Stepping.WatchComesBackAsCode`; exact condition: `Stepping.TruthfulUnlessWatchLifted`.  A
  step that times out loses the breakpoint at the program counter (`Stepping.UsersSurvive`).
- A step arms no trigger at a successor whose address a watchpoint has, and does not call the stop
  imprecise.  Input: `Stepping.WatchHidesSuccessor`.  Exact condition: `Stepping.ArmedSets`.
- `tricore_flash_wait_idle` (tricore_flash.c:180-196) takes a command for done when the error
  register cannot be read.
  - A `load` never looks at the sectors it only erases.  Input: one such sector, its erase refused
    and the error unread; the load succeeds and the sector holds what it held
    (`GdbSession.EraseNeverMade`).  Exact condition: of a load that succeeds such a sector was erased
    if and only if its command was carried out, and what the command left is what it holds
    (`GdbSession.Load`); a list of sectors taken for erased all was if and only if no error went
    unseen (`FlashErase.Eraser.EraseSectors`).  What a load or an image writes is safe: the final
    verify reads it back.
  - The boot-header writer is crash safe for every run in which that never hides a refusal.  Input:
    the first page refused and the error unread (`UcbRefusal.FirstPageRefused`).  Any page will do
    that the flash does not hold already (`UcbRefusal.RefusedPageLosesSafety`).
- `read_write` asked to shift no bits and leave (jtag.c:309-316) moves the driver's state and clocks
  nothing; that, and nothing else, puts driver and controller out of step, wherever the operation
  then goes on to (`TapDriver.ClocksLead`, `TapDriver.Session`).
- An operation that leaves a shift state with devices still to follow moves one bit more than it was
  given (`TapDriver.BitsMoved`).  In this driver none ever follow (jtag.c:33-37).
- An erase request for a sector some request of the same `load` writes to, earlier or later, does
  not leave it blank (tricore_bmp.c:453-461).  Input: `GdbSession.EraseAfterWrite`.  Exact condition,
  in `GdbSession.Load`: of the sectors asked for, just those no request writes to end up blank.
- A second request sent before the first answer was had can make the host get the wrong answer.
  Input: `UsbRuns.ImpoliteHostLosesAnswer`.  Exact condition: `UsbRuns.OrderIffRoom`.  The CMSIS-DAP
  rule that a host keeps no more requests out than there are buffers is enough to prevent it
  (`UsbRuns.PoliteIsEnough`).

## Model

| member | source | states |
|---|---|---|
| Crc6.ComputeCrc | components/dap_probe/dap_frame.c:13-25 | the generator's loop computes the recursive Galois register |
| Crc6.CheckResidue | components/dap_probe/dap_frame.c:27-45 | the checker's loop accepts exactly the strings whose Fibonacci register ends in zero |
| Crc6.Coupled | components/dap_probe/dap_frame.c:13-45 | on every bit string the two registers are tied by galois = fibonacci xor (fibonacci shifted by one) |
| Crc6.ExactlyOneTrailer | components/dap_probe/dap_frame.c:13-45 | for every payload exactly one six-bit trailer is accepted, the generator's value sent LSB first |
| Crc6.AcceptedIffMultiple | components/dap_probe/dap_frame.c:27-45 | the accepted strings are exactly those of six bits or more that are a multiple of 1 + x^5 + x^6 over the field of two elements once their sixth bit is turned |
| Crc6.UndetectedIffZeroSyndrome | components/dap_probe/dap_frame.c:27-45 | an error pattern goes unnoticed exactly when its own register, from zero, ends in zero |
| Crc6.DetectsSingleFlip | components/dap_probe/dap_frame.c:27-45 | any one flipped bit of an accepted string is rejected |
| Crc6.DetectsBursts | components/dap_probe/dap_frame.c:27-45 | any non-zero error within six consecutive bits is rejected |
| Crc6.DoubleFlips | components/dap_probe/dap_frame.c:27-45 | two flipped bits go unnoticed exactly when their distance is a multiple of 63 |
| Crc6.LeadingZerosSeen | components/dap_probe/dap_frame.c:8-45 | zeros put in front of an accepted string go unnoticed exactly in multiples of 63 |
| Frame.DapFrame.Put | components/dap_probe/dap_frame.c:47-56 | appends the value's bits LSB first, or nothing when they do not fit |
| Frame.DapFrame.Build | components/dap_probe/dap_frame.c:58-101 | succeeds exactly within the field widths, and then holds the whole narrow frame; otherwise unchanged |
| Frame.DapFrame.Word | components/dap_probe/dap_frame.c:103-111 | the frame's first 64 bits as a number, first bit lowest |
| Frame.RawFrame | components/dap_probe/dap_phy_fpga.c:925-963 | succeeds exactly up to 44 data bits narrow and 40 wide; word and length are the frame's |
| Frame.SendBothWays | components/dap_probe/dap_phy_fpga.c:925-963 | where both succeed the raw frame is the built one, word and length; when each succeeds |
| Frame.FrameDecodes | components/dap_probe/dap_frame.c:58-101 | a decoder gets command, length field and data back from either frame form |
| Frame.WordDecodes | components/dap_probe/dap_phy_fpga.c:947-962 | the same from the 63-bit register word |
| Frame.BlockReadDecodes | components/dap_probe/dap_probe.c:448-468 | a block-read command always fits, and the device gets word address and count back, 0 standing for 256 |
| TraceRam.Tram.ReadPointer | components/dap_probe/dap_trace.c:289-290 | a read of FIFONOW gives the writer's paragraph, and samples less than a lap apart are told apart |
| TraceRam.PointerNamesParagraph | components/dap_probe/dap_trace.c:289-290 | bits 12:5 of the write position are enough to name the paragraph it is in |
| TraceRam.Tram.ReadParagraph | components/dap_probe/dap_trace.c:332-337 | what was copied is the paragraph if that was complete before and not a lap old after, whatever the writer did between words |
| TraceRam.Tram.ReadChain | components/dap_probe/dap_trace.c:328-354 | a chain delivers groups of paragraphs, each followed by a pointer sampled after it, in ring order |
| TraceRam.StillInTheRing | components/dap_probe/dap_trace.c:366-376 | a paragraph is intact until the writer is a whole lap past it |
| TraceLedger.PublishKeeps | components/dap_probe/dap_trace.c:117-141 | publishing keeps the books true: a whole paragraph, each gap being the record's lost field plus what escaped, the statistic being all lost fields plus pending |
| TraceLedger.WriteOffKeeps | components/dap_probe/dap_trace.c:296-317 | writing paragraphs off keeps the books true; what is skipped and not counted is entered as escaped |
| TraceLedger.InOrder | components/dap_probe/dap_trace.c:276-401 | the paragraphs published have strictly increasing numbers in the trace: none twice, none out of order |
| TraceLedger.Conservation | components/dap_probe/dap_trace.c:276-401 | every paragraph the reader has gone by is in a record, in the statistic, or escaped the count |
| TraceLedger.PassSlips | components/dap_probe/dap_trace.c:289-391 | what escapes in a pass is the whole laps made since the reader's position plus, in the torn branch, the writer's movement during the pass; else nothing |
| TraceLedger.PassCounted | components/dap_probe/dap_trace.c:289-391 | of b paragraphs the pointer is ahead, laps taken off, a pass that is not cut short publishes all and counts none lost if three are to spare in the ring, loses the oldest if two are, all if one is, and, lapped by the writer, counts all it has not published |
| TraceLedger.HistorySlips | components/dap_probe/dap_trace.c:276-421 | over any number of passes what escaped is the sum of that |
| TraceLedger.ReadIsRange | components/dap_probe/dap_trace.c:385-387 | what a pass publishes is consecutive paragraphs, a skip being told in the first record only |
| TraceDrain.NotTorn | components/dap_probe/dap_trace.c:366-376 | a paragraph complete before the chain and less than a lap old at the pointer read after it was read whole |
| TraceDrain.Waiting | components/dap_probe/dap_trace.c:289-293 | the modular distance is the true one less whole laps, and lands on the same slot |
| TraceDrain.Drain.CatchUp | components/dap_probe/dap_trace.c:289-317 | with b paragraphs between reader and pointer, laps taken off, a pass will read b, or b - 1 if that leaves two to spare in the ring, or none if it leaves one; it counts the rest as lost before it reads |
| TraceDrain.Drain.JudgeGroup | components/dap_probe/dap_trace.c:366-391 | publishes whole paragraphs in order up to the group's end, or up to exactly the first one the writer has come a whole lap past; then the rest of the pass is written off |
| TraceDrain.Drain.JudgeChain | components/dap_probe/dap_trace.c:359-391 | the same over a chain, the writer's movement being accumulated truly from modular samples |
| TraceDrain.Drain.DrainTo | components/dap_probe/dap_trace.c:276-401 | a pass publishes every paragraph the pointer shows complete but those it must give up, in the numbers of TraceLedger.PassCounted; fewer only if a read failed or the writer came a lap past the next one; the records grow and the statistic counts exactly so |
| TraceDrain.Drain.Poll | components/dap_probe/dap_trace.c:403-421 | fails exactly on a failed read; else it has dealt with everything complete when it began, publishing and counting as DrainTo does |
| TraceDrain.Drain.Run | components/dap_probe/dap_trace.c:276-421 | over any number of polls and any writer: every record is one whole paragraph with its offset, in order, none twice; each lost field is the true gap less what escaped; records, lost and escaped paragraphs add up; each poll whose reads succeed makes its pass, which publishes and counts by the distance it found |
| TraceDrain.TornPassCountsOneOfFour | components/dap_probe/dap_trace.c:376-383 | a pass in which four paragraphs go by and one is counted |
| TraceRing.Ring.Put | components/dap_probe/dap_trace.c:99-106 | bytes land from the index on, round the end of the buffer, and nowhere else |
| TraceRing.Ring.Publish | components/dap_probe/dap_trace.c:117-141 | a record goes in whole exactly when it fits, and otherwise changes nothing |
| TraceRing.Ring.Read | components/dap_probe/dap_trace.c:446-469 | hands out the oldest bytes, as many as asked for or there are, and keeps the rest |
| TraceRingSteps.Linearizable | components/dap_probe/dap_trace.c:86-141 | under every interleaving what was handed out is a prefix of the accepted records, the rest is in the buffer unharmed, and accepted plus dropped is the sequence number |
| TraceRingSteps.RingIsQueue | components/dap_probe/dap_trace.c:86-141 | under every interleaving the ring is a queue of bytes: a record is dropped exactly if it finds no room when it is begun; one taken in is a record when its head is stored; a read begun with u bytes unread hands out the next min(max, u) |
| TraceRingSteps.HeadOnRecordBoundary | components/dap_probe/dap_trace.c:127-133 | the head is only ever where a whole number of records ends |
| TraceRingSteps.PublishAlone | components/dap_probe/dap_trace.c:117-141 | undisturbed, the sender's steps leave what Ring.Publish leaves |
| TraceRingSteps.ReadAlone | components/dap_probe/dap_trace.c:446-469 | undisturbed, the reader's steps leave what Ring.Read leaves |
| ChainFabric.MovedInv | fpga/dap_master/rtl/dap_top.v:550-763 | every move of the fabric keeps: bytes pushed, then bytes still to come, are the replies in order, short of them only after a timeout |
| ChainFabric.QueuedInv | components/dap_probe/dap_phy_fpga.c:1145-1151 | writing a start while none is held keeps it |
| ChainFabric.TornLevel | components/dap_probe/dap_phy_fpga.c:1254-1269 | the corrected LEVEL never exceeds what the FIFO held when its low byte was sampled, and is zero only if that was |
| ChainRead.Fabric.Queue | components/dap_probe/dap_phy_fpga.c:1145-1151 | may be called only with no start held, though the fabric moves between the poll and the write: no start is written over one |
| ChainRead.Fabric.Drain | components/dap_probe/dap_phy_fpga.c:1291-1296 | may ask for no more than the FIFO holds; the bytes are its oldest, whatever the fabric pushes meanwhile |
| ChainRead.IdleMeansMore | components/dap_probe/dap_phy_fpga.c:1289-1318 | without a timeout an idle fabric and an empty FIFO never come together before the end, however stale `idle` is |
| ChainRead.IdleLeavesMore | components/dap_probe/dap_phy_fpga.c:1201-1203 | for the two-line read one such pair can come, two in a row cannot |
| ChainRead.ReadChainSingle | components/dap_probe/dap_phy_fpga.c:1244-1334 | the one-line loop ends, the fabric moving before every access and before every start; success is the replies concatenated; TimedOut before the deadline means a parcel did and the fabric still says so, the "chain ended" error that one did and it no longer does; a bus error is reported exactly when a transfer failed; the deadline passes only if nearly all looks found the fabric at work |
| ChainRead.ReadChainDual | components/dap_probe/dap_phy_fpga.c:1161-1226 | the same for the two-line loop, whose level is older than its flags |
| ChainRead.ReadChain | components/dap_probe/dap_phy_fpga.c:1228-1335 | in time and without a bus error, success exactly when no parcel timed out, and else the error the fabric's flag stands for; no blocks or bad counts are refused; a truncated chain is never reported complete; the deadline passes only after enough looks that found the fabric at work |
| Crc32.ComputeUpdate | components/dap_probe/tricore_flash.c:336-345 | the bitwise loop is the fold over bytes |
| Crc32.PaddedChecksum | components/dap_probe/tricore_flash.c:626-627 | a checksum over data and then padding is the checksum of both as one string |
| Crc32.ChecksumIs | components/dap_probe/tricore_flash.c:336-345 | the checksum is the one word that, turned over behind the bytes, the first 32 bits of all turned over too, makes them a multiple of the generator polynomial of IEEE 802.3 |
| FlashMap.Involution | components/dap_probe/tricore_flash.c:134-150 | the swap translation twice is the physical address |
| FlashMap.SectorWhole | components/dap_probe/tricore_flash.c:119-150 | a sector is permitted, and translated, as a whole |
| FlashMap.PermittedAddresses | components/dap_probe/tricore_flash.c:119-150 | exactly which addresses may be erased and programmed, on either device, with and without the bank swap |
| FlashMap.BanksExchanged | components/dap_probe/tricore_flash.c:134-150 | with the swap each bank's bytes are where the other's are, in order, by either alias |
| FlashMap.NeighboursStay | components/dap_probe/tricore_flash.c:119-150 | two permitted consecutive sectors stay consecutive: no run crosses the bank groups |
| FlashMap.RangeTranslates | components/dap_probe/tricore_flash.c:464-506 | in a range of permitted sectors translating the start translates every byte |
| FlashMap.CrossingNeedsTheCheck | components/dap_probe/tricore_flash.c:703-708 | without the sector check a run would cross |
| FlashErase.Eraser.RunFrom | components/dap_probe/tricore_flash.c:287-294 | a merged run is consecutive to the device, at most 32 sectors, in one 1 MB physical sector, and until a run is refused the longest such |
| FlashErase.Eraser.EraseSectors | components/dap_probe/tricore_flash.c:282-313 | ends whatever is refused, and fails only on an error seen other than a refused run; erased are listed sectors, none twice, by allowed commands, in order unless an error went unseen; on success all of them exactly if none did, and then they are blank and nothing else has changed; until a run is refused no command could have covered the next one's sector too |
| FlashProgram.Program | components/dap_probe/tricore_flash.c:464-506 | succeeds exactly if the start is aligned, each bufferful starts in program flash and no error was seen; nothing changes but the places bufferfuls go to, each translated by its start; on success every byte of the padded range is at its place, if the places were blank and no two the same, unless an error went unseen |
| FlashProgram.PieceProgrammed | components/dap_probe/tricore_flash.c:464-506 | in a range of program flash those places are one piece, from where its start translates to |
| FlashCollect.Collect | components/dap_probe/tricore_flash.c:684-701 | exactly the sectors the regions touch, each once; refused exactly when there are more than 768 |
| FlashCollect.SectorDiffers | components/dap_probe/tricore_flash.c:609-635 | says no difference only if every region's bytes in the sector match, and a difference only if one does not or a checksum failed |
| FlashKept.ProgramKept | components/dap_probe/tricore_flash.c:638-664 | changes at most the region's padded bytes that lie in kept sectors; on success it has written exactly those, if they were blank, unless an error went unseen |
| FlashApply.NoCollision | components/dap_probe/tricore_flash.c:676-709 | regions that share no page never meet at the command interface, swapped or not |
| FlashWrite.Apply | components/dap_probe/tricore_flash.c:676-773 | refused exactly for too many sectors or one that is not program flash; on success the image reads back, whatever went unseen; unless an error did, rewritten sectors then hold it and are blank beside it, everything else is as it was, and the erase commands cover the chosen sectors once each; without an error it succeeds exactly if no sector is chosen by one name and skipped by another, and chooses only sectors that differ; always, at most the chosen sectors change, none is erased twice by one name, and skipped sectors matched |
| FlashSame.ImageShown | components/dap_probe/tricore_flash.c:711-753 | skipping or not, the image reads back as after writing everything, unless a sector is skipped by one name and erased by another: comparison and programming alone guarantee it |
| FlashSame.ShownIffConsistent | components/dap_probe/tricore_flash.c:711-753 | that exception is exact: the image reads back if and only if no sector is skipped by one name and rewritten by the other |
| FlashSame.TwoNamesLoseAByte | components/dap_probe/tricore_flash.c:711-753 | an image of two bytes that does not read back |
| FlashSame.SkippedNextTime | components/dap_probe/tricore_flash.c:609-635 | a sector just written is skipped by a second write exactly when no region ends in it off a page boundary |
| FlashSame.OneByteNeverMatches | components/dap_probe/tricore_flash.c:609-635 | an image of one byte whose sector never matches it |
| UcbDevice.Target.Do | components/dap_probe/tricore_ucb.c:494-502 | a cycle is taken, refused with the latch set, or lost if the probe says so; the flash after it is recorded |
| UcbDevice.Target.WaitIdle | components/dap_probe/tricore_flash.c:166-199 | success means no refusal, unless the error register could not be read |
| Ucb.EraseBlock | components/dap_probe/tricore_ucb.c:557-589 | at every cycle the flash is its old self or has this one block erased; success means it reads back erased; without a fault it succeeds |
| Ucb.ProgramPage | components/dap_probe/tricore_ucb.c:591-610 | at every cycle the flash is its old self or has this one page written; success means it has; without a fault it succeeds |
| Ucb.StatePageCompletes | components/dap_probe/tricore_ucb.c:627-637 | writing the confirmation word's page makes the block the image's exactly when every other page already is |
| Ucb.SafeIffEveryPageArrived | components/dap_probe/tricore_ucb.c:627-637 | once that page is in, a changed block is safe exactly when no other page was missed |
| UcbRefusal.RefusedPageLosesSafety | components/dap_probe/tricore_ucb.c:614-653 | a run of the command cycles in which one page's program is refused unread and the rest taken: the header ends safe exactly if it ends as it was before everything |
| UcbRefusal.FirstPageRefused | components/dap_probe/tricore_ucb.c:614-653 | such a run over a header that was in force, ending unsafe, for every image that may be written |
| Ucb.WriteBlock | components/dap_probe/tricore_ucb.c:614-653 | touches one header, keeps every state of the run safe unless a refusal went unread, and succeeds only with the image's bytes there, and always without a fault |
| Ucb.PlanBlock | components/dap_probe/tricore_ucb.c:406-461 | refuses exactly what fails the formal check, confirms, is in another state than unread or unlocked, or cannot be read; of the rest skips exactly what is already there |
| Ucb.HeaderSlots | components/dap_probe/tricore_ucb.c:51-59 | which slots of an image are boot mode headers, and their addresses |
| Ucb.WritableIff | components/dap_probe/tricore_ucb.c:231-326 | a header passes and confirms nothing exactly if its identifier, start-up mode, start address and unlocking word are right, its third word is the CRC-32 of the first two, each from its top byte down, and its fourth the complement |
| Ucb.CompletedIsWritable | components/dap_probe/tricore_ucb.c:265-326 | every header with proper fields passes once its two sums are put in |
| Ucb.GoodHeader | components/dap_probe/tricore_ucb.c:265-326 | a header that begins 0E 00 59 B3 00 00 00 80 and passes |
| Ucb.ProgramHeaders | components/dap_probe/tricore_ucb.c:657-712 | unless a refusal goes unread: cut off after any cycle every header is its old self, unconfirmed, or the image's, and never newly confirmed; nothing else is ever touched; success means all of them are there; without a fault, success exactly when every header carried may be written; a header that may not is left alone, and one that may is written whatever became of the others |
| TriggerTable.AddedKeeps | components/dap_probe/tricore_regs.c:247-266 | adding a breakpoint keeps table and registers in agreement and addresses distinct |
| TriggerTable.AddedHas | components/dap_probe/tricore_regs.c:247-266 | an address asked for has a slot afterwards exactly if it had one or there was a free one; no other slot in use changes |
| TriggerTable.AddedStops | components/dap_probe/tricore_regs.c:247-266 | code triggers go on being exactly those of the breakpoints and steps, at their addresses |
| TriggerTable.WatchAddedKeeps | components/dap_probe/tricore_regs.c:268-298 | adding a watchpoint, single or as an even-odd range pair, keeps table and registers in agreement and touches no breakpoint; addresses stay distinct exactly unless a range's upper bound already has a slot |
| TriggerTable.WatchArms | components/dap_probe/tricore_regs.c:130-170 | a new watchpoint is set exactly if there is room, an even-odd pair for more than a byte; then its register fires on the accesses asked for and, with the next one, on the bytes asked for |
| TriggerTable.RemovedKeeps | components/dap_probe/tricore_regs.c:300-318 | removing keeps them in agreement exactly if the address is not a range's upper half |
| TriggerTable.KindClearedKeeps | components/dap_probe/tricore_regs.c:320-331 | so does clearing all breakpoints of a kind |
| Stepping.Core.BpAdd | components/dap_probe/tricore_regs.c:247-266 | the whole new table and registers, and the slot returned |
| Stepping.Core.BpAddWatch | components/dap_probe/tricore_regs.c:268-298 | the whole new table and registers, and the slot returned |
| Stepping.Core.BpRemove | components/dap_probe/tricore_regs.c:300-318 | the whole new table and registers, and whether there was anything to remove |
| Stepping.Core.BpClearKind | components/dap_probe/tricore_regs.c:320-331 | the whole new table and registers |
| Stepping.Core.Step | components/dap_probe/tricore_regs.c:458-534 | the state a step leaves, as the composition of lifting, arming, disarming and putting back; what is armed when the core is let go (Stepping.ArmedSets); the stop is called imprecise exactly if a successor has no slot |
| Stepping.ArmedSets | components/dap_probe/tricore_regs.c:483-503 | when the core is let go each successor has a slot or all are in use; the core stops at it exactly if it has one that is not a watchpoint's; it does not stop where it is unless that is a successor; every other breakpoint and watchpoint is set as before |
| Stepping.WatchHidesSuccessor | components/dap_probe/tricore_regs.c:494-503 | a watchpoint on the next instruction's address: no trigger there, slots to spare, and not called imprecise |
| Stepping.UsersSurvive | components/dap_probe/tricore_regs.c:458-534 | after a step that succeeds the user breakpoints are the same, and none of the step's own is left; after a timeout the one at the program counter is gone |
| Stepping.TruthfulUnlessWatchLifted | components/dap_probe/tricore_regs.c:485-525 | table and registers agree after the step exactly when no watchpoint has the program counter's address |
| Stepping.WatchComesBackAsCode | components/dap_probe/tricore_regs.c:485-525 | a write watchpoint at the program counter whose register holds a code trigger after the step |
| Stepping.TruthfulAfterTimeout | components/dap_probe/tricore_regs.c:507-518 | after a timeout they agree exactly when no watched range ends at the program counter |
| TapStates.HopIsMove | components/lcd/jtag.c:403-580 | every hop of set_state is a move of the standard's controller |
| TapStates.HopIsNearer | components/lcd/jtag.c:403-590 | every hop brings the target exactly one nearer, for all pairs of states |
| TapStates.ResetFromAnywhere | components/lcd/jtag.c:300-307 | six clocks with TMS high reset the controller from any state |
| TapDriver.Driver.SetTMS | components/lcd/jtag.c:265-273 | clocked bits followed by buffered ones are always the bits asked for, across flushes |
| TapDriver.Driver.FlushTMS | components/lcd/jtag.c:283-298 | everything asked for has been clocked |
| TapDriver.Driver.GoTestLogicReset | components/lcd/jtag.c:300-307 | driver and controller are in step whatever came before |
| TapDriver.Driver.SetState | components/lcd/jtag.c:403-590 | clocks exactly the path from where the driver takes the controller to be, and ends in the target, flushed |
| TapStates.PathLeads | components/lcd/jtag.c:403-590 | that path leads there, for all pairs of states |
| TapStates.PathIsShortest | components/lcd/jtag.c:403-590 | no other string of TMS levels from one state to another is shorter |
| TapDriver.Driver.ReadWrite | components/lcd/jtag.c:309-316 | stays in step exactly unless asked to leave without shifting a bit |
| TapDriver.MoveThrough | components/lcd/jtag.c:328-401 | clocks the way to the shift state, the bits, and the way to the end state; keeps step exactly unless it leaves without shifting a bit |
| TapDriver.ClocksLead | components/lcd/jtag.c:309-401 | for every state and operation, what it clocks takes the controller where the driver says exactly if it does not leave without shifting a bit |
| TapDriver.BitsMoved | components/lcd/jtag.c:309-401 | an operation that keeps step moves as many bits through the register as it is given, and one more if it leaves with devices still to follow |
| TapStates.NeverCatchesUp | components/lcd/jtag.c:309-316 | a controller left behind in a shift state is never where the driver ends up, whatever that is |
| TapDriver.Session | components/lcd/jtag.c:265-590 | after a reset, each operation of any session ends with the controller, from any starting state, where the driver says, up to the first that leaves without shifting a bit; that one ends elsewhere |
| UsbQueue.OutDoneKeeps | components/CherryDAP/dap_main.c:253-272 | the OUT callback, abort or not, keeps the request queue's invariant at every handler position |
| UsbQueue.HandledKeeps | components/CherryDAP/dap_main.c:370-410 | every access of the handler keeps it: order, slots held, one read armed, idle only for cause |
| UsbRuns.ArmedSlotFree | components/CherryDAP/dap_main.c:266-271 | a read is never armed on a request still to be executed |
| UsbRuns.RequestsAlwaysServed | components/CherryDAP/dap_main.c:253-410 | over every run from the first CONFIGURED event, whatever the host does: requests are executed in the order they came; a read is armed exactly if the queue is not idle and none is about to be, and never on a request still to be executed; idle means full or about to re-arm |
| UsbRuns.ServedWithin | components/CherryDAP/dap_main.c:370-410 | a waiting request is executed within sixteen handler accesses, whatever happens between them |
| UsbResponse.InDoneKeeps | components/CherryDAP/dap_main.c:274-288 | the IN callback keeps the response queue's invariant at every handler position |
| UsbResponse.ExecuteKeeps | components/CherryDAP/dap_main.c:392-394 | with room, an answer overwrites none the host has not had |
| UsbResponse.AnsweredKeeps | components/CherryDAP/dap_main.c:411-428 | every access of the handler to the response queue keeps it |
| UsbRuns.ResponsesInOrder | components/CherryDAP/dap_main.c:253-430 | over every run in which each answer has room, past any wrap of the counts: the answers had are the first ones given, in order, one for every request executed; a response waits unsent only if the handler is about to see it |
| UsbRuns.SentWithin | components/CherryDAP/dap_main.c:411-428 | an answer given is on its way within fourteen handler accesses, as long as answers have room |
| UsbRuns.PoliteIsEnough | components/CherryDAP/dap_main.c:253-430 | each answer has room in every run with a host that keeps no more requests out than there are buffers |
| UsbRuns.OrderIffRoom | components/CherryDAP/dap_main.c:274-288 | at the first answer without room a write is in flight; if that write ends next, the host has the answers in order exactly if there was room or the two answers are equal |
| UsbRuns.ImpoliteHostLosesAnswer | components/CherryDAP/dap_main.c:370-430 | a run with an impolite host in which the second answer arrives in place of the first |
| ByteMemory.Bus.ReadMem | components/dap_probe/tricore_regs.c:540-563 | the byte view of the range, at any alignment and length, round the end of the address space; fails exactly if an access did |
| ByteMemory.Bus.WriteMem | components/dap_probe/tricore_regs.c:565-597 | exactly the range's bytes change; exactly if an access failed, possibly only a prefix of them, the failed word's included or not |
| ByteMemory.ReadAfterWrite | components/dap_probe/tricore_regs.c:540-597 | what was written is what is read |
| GdbLoad.Loader.LoadSector | components/dap_probe/tricore_bmp.c:353-368 | one entry per physical sector, up to 768 |
| GdbLoad.Loader.Erase | components/dap_probe/tricore_bmp.c:453-461 | adds the range's sectors, and takes nothing from one already written; fails, dropping the load, exactly for want of memory or past 768 sectors |
| GdbLoad.Loader.Write | components/dap_probe/tricore_bmp.c:463-483 | lays the bytes over what the sectors held or the erased value, later bytes winning; fails, dropping the load, exactly for want of memory or past 768 sectors |
| GdbApply.TakeRun | components/dap_probe/tricore_bmp.c:394-413 | a region is a maximal run of consecutive written sectors, byte for byte |
| GdbApply.Plan | components/dap_probe/tricore_bmp.c:388-418 | the erase-only sectors in order, and the written ones as ascending regions no two of which touch |
| GdbErase.EraseEach | components/dap_probe/tricore_bmp.c:388-393 | goes through exactly if every sector is program flash and no error is seen; then each sector is as its one command left it, the erases are those carried out, in order, and all were carried out exactly if no error went unseen |
| GdbApply.Carried | components/dap_probe/tricore_bmp.c:394-418 | every written sector is in some region, at its place, with its bytes |
| GdbApply.RunsAreGood | components/dap_probe/tricore_bmp.c:378-428 | the regions of any load are an image apply's guarantees hold for |
| GdbApply.RewrittenIsWritten | components/dap_probe/tricore_bmp.c:388-422 | a sector the flasher may rewrite is one of the load's written ones, never an erase-only one |
| GdbApply.NotRefused | components/dap_probe/tricore_bmp.c:419-422 | the flasher's limit of 768 sectors never stops a load |
| GdbApply.FinishLoad | components/dap_probe/tricore_bmp.c:378-428 | nothing outside the load's sectors changes and none is erased twice; on success each written sector reads back at its own address, and an erase-only one is as its command left it, erased exactly if that was carried out; a load that writes nothing succeeds exactly with memory, all its sectors program flash, and no error seen; any other fails only for those reasons or an error that went unseen |
| GdbRequests.RequestsLaw | components/dap_probe/tricore_bmp.c:353-483 | after any sequence of requests the collection has exactly the sectors asked for, data in exactly those written to, and in them at each address the last byte written there or the erased value |
| GdbRequests.WrittenLaw | components/dap_probe/tricore_bmp.c:463-483 | one write request, byte by byte: the last byte for an address wins, other bytes of its sectors are kept or erased, other sectors are untouched |
| GdbRequests.LimitNeverReached | components/dap_probe/tricore_bmp.c:353-368 | a load of program flash alone never has more sectors than there is room for |
| GdbSession.Load | components/dap_probe/tricore_bmp.c:353-483 | any sequence of requests and the load's end: on success each address written to holds its last byte, and a sector only asked to be erased is as its command left it, erased exactly if that was carried out; so, unless an error went unseen, every address holds what the requests want of it, and just the sectors asked for and never written to are blank; always, addresses not asked for keep what they held, no sector is erased twice and none that was not asked for; what can make it fail, and exactly what if nothing is written |
| GdbSession.EraseAfterWrite | components/dap_probe/tricore_bmp.c:453-461 | a load of one byte written, its sector then asked to be erased: if it succeeds, the flash holds the byte |
| GdbSession.EraseNeverMade | components/dap_probe/tricore_flash.c:166-199 | a load of one sector to erase, the erase refused and the error unread: it succeeds if there is memory, nothing was erased, and the sector holds what it held |

## Left out

- TraceDrain.Drain.Run: stops short of the final record of `dap_trace_finish`, which may hold a paragraph the writer has not filled.
- TraceRingSteps.Linearizable: a restart of the trace under a read in progress is not modelled.
- FlashWrite.Apply: the session lock, clock changes, progress counters and the GDB session around it.
- FlashProgram.Program: the RAM loader is one program command per buffer that may fail leaving its range in any state.
- FlashCollect.SectorDiffers: checksums are compared as the bytes they are over; the collision is left out, the composition is in Crc32.
- Ucb.ProgramHeaders: the report text; blocks that are not boot mode headers are always skipped, so only their skipping is modelled.
- Stepping.Core.Step: decoding the successors of an instruction; they are parameters, whatever they decode to.
- TapDriver.Session: `toggleClk`, and the cable functions behind the TMS buffer, which are not part of this model.
- GdbApply.FinishLoad: memory is asked for before the erase-only sectors are erased, not between them; this matters only to a load that runs out of it.
- UsbRuns.ResponsesInOrder: the in-place QueueCommands rewrite, USB resets after the first configuration, and packet lengths.
- ChainRead.ReadChain: the abort after a deadline, and turning reply bytes into words.
- `dap_probe_blockread_many`'s split into batches, which only strings chains together.
- Wrap-around of 32-bit flash addresses: regions and requests end inside the address space.
- The C11 memory model: one shared access at a time, in program order.
