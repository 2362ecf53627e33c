# PATA driver: DMA sector transfers, modelled in Dafny

This project models the core of the PATA (parallel ATA) disk driver in
`Ata/src/ata_operations.c`. It covers four pieces of that file.

- **The PRD table builder.** A caller's buffer is described by the memory
  manager as translation pairs: contiguous physical runs, each an address
  and a length. The driver validates each pair, clips it to the bytes still
  wanted and splits it where it crosses the DMA boundary. The result is a
  Physical Region Descriptor table whose final entry alone carries the
  end-of-table flag. This is the PRD table of the Programming Interface for
  Bus Master IDE Controller (SFF-8038i).
- **The register router.** A logical register offset is routed to the
  command block, the control block or the bus-master block. The high-order
  ("HOB") registers of the 48-bit Address feature set of ATA/ATAPI-6 are
  reached by bracketing the access with two Device Control writes. The
  LBA and sector count are programmed on top of the router.
- **The transfer record.** Each device has a record shared by the
  submitting thread and the interrupt handler. It holds a
  `Free`/`InProgress`/`Finished` state advanced by compare-and-swap, a
  synchronization event, and the PRD table in flight.
- **The entry points.** `AtaInitialize` (address resolution, the IDENTIFY
  probe, the interrupt line), `AtaReadWriteSectors` (parameter checks,
  programming, the polled path, the DMA path) and `_AtaDmaInterrupt`.

Port I/O, allocations and event operations are recorded in a trace of
events. The bytes the hardware answers with and the results of the
collaborators (`IoAllocateMdl`, `IoAllocateContinuousMemoryEx`,
`IoGetPhysicalAddress`, `ExEventInit`, `IoRegisterInterrupt`) are inputs.
A failed `ASSERT` or `NOT_REACHED` stops the model with a named fault.
A busy-wait that never ends is the outcome `Blocked`.

Where the driver looks defective, the model takes a `Revision` argument.
`AsWritten` follows the code and `Corrected` follows the evident intent.
Both are proved about (see "## Findings").

Two kinds of header values appear. The bit masks and opcodes are fixed
constants with their ATA/ATAPI-6 and SFF-8038i values: the status,
Device Control and Device bits, the Bus Master command and status bits,
the five command opcodes, and the default IRQ line 14. The build's layout
and DMA limits are not part of this model, so they are parameters: the
logical register offsets, `ATA_DMA_PHYSICAL_BOUNDARY`, `ATA_DMA_ALIGNMENT`,
`ATA_DMA_MAX_PHYSICAL_ADDRESS`, `ATA_DMA_MAX_PHYSICAL_LEN` and
`SECTOR_SIZE`. The relations the code relies on are stated as
`RegisterLayout.Valid` and `DmaConfig.Valid`. The concrete values in
`AtaScenarios` are illustrative.

Files, one module each:

- `ata_types.dfy`: integer widths, status codes, faults and the event trace.
- `ata_registers.dfy`: the router and the HOB bracket. Also a reference model of the drive's task file, where each 48-bit register is a two-deep FIFO.
- `ata_prdt.dfy`: pair validation and the PRD table builder.
- `ata_transfer.dfy`: the transfer record and its compare-and-swap.
- `ata_dma.dfy`: `_AtaPrepareDmaTransfer` and `_AtaWriteDmaRegisters`.
- `ata_operations.dfy`: `AtaInitialize`, `AtaReadWriteSectors` and `_AtaDmaInterrupt`.
- `ata_scenarios.dfy`: concrete layouts and requests.

## Model

| member | source | states |
|---|---|---|
| AtaRegisters.WriteRegister | Ata/src/ata_operations.c:157-203 | A HOB offset gives exactly three writes. Device Control gets HOB\|NoInterrupt, then the byte goes to the routed port, then Device Control gets NoInterrupt. Any other offset gives one write of the byte to its routed port. |
| AtaRegisters.ReadRegister | Ata/src/ata_operations.c:207-259 | A read of a HOB offset is bracketed by the same two Device Control writes. Any other offset is a single read of its routed port. |
| AtaRegisters.HobSharesLowPort | Ata/src/ata_operations.c:176-180 | Each high-order register reaches the same port as its low-order counterpart. |
| AtaRegisters.DistinctFifoPorts | Ata/src/ata_operations.c:171-175 | The sector count and the three LBA registers reach four different ports. |
| AtaRegisters.ReadPortMatchesWritePort | Ata/src/ata_operations.c:218-244 | Outside the control block, reading and writing an offset use the same port. In the corrected model this holds for every offset. |
| AtaRegisters.ControlReadMissesWritePort | Ata/src/ata_operations.c:233-239 | As written, a control-block read goes to the port 2 above the one a write of the same offset uses, so it never reaches that register. |
| AtaRegisters.SelectDevice | Ata/src/ata_operations.c:106-114 | Selection is one write to the Device register: the LBA bit, plus the device bit exactly for the slave. |
| AtaRegisters.WithoutWriteRegisters | Ata/src/ata_operations.c:157-203 | With the HOB-bracket writes set aside, a series of register writes reaches the routed ports in the order requested, with the bytes requested. |
| AtaRegisters.ParameterPortOrder | Ata/src/ata_operations.c:130-152 | For any bytes, the eight parameter writes reach the low-order ports in program order: sector count, LBA high, mid, low, twice over. |
| AtaRegisters.IOParameterOrder | Ata/src/ata_operations.c:118-153 | The bracket aside, the order is: count high byte, LBA 47:40, 39:32, 31:24, then count low byte, LBA 23:16, 15:8, 7:0. |
| AtaRegisters.RunWriteRegisters | Ata/src/ata_operations.c:157-203 | Run against the drive's task file, routed writes make exactly the FIFO pushes requested. The bracket leaves the drive's HOB bit clear afterwards. |
| AtaRegisters.ReadsReadRegister | Ata/src/ata_operations.c:207-259 | Reading a low-order register returns the FIFO's newest byte. Reading a high-order register, through the bracket, returns the byte pushed before it. |
| AtaRegisters.ProgrammedFifos | Ata/src/ata_operations.c:118-153 | After parameter programming, each FIFO holds its low-order byte as newest and its high-order byte behind it. The drive's HOB bit is clear. |
| AtaRegisters.IOParametersReadBack | Ata/src/ata_operations.c:118-153 | Round trip: reading any of the eight parameter registers back through the read routine returns the byte written to it. |
| AtaRegisters.IOParametersDecode | Ata/src/ata_operations.c:128-152 | The six LBA bytes the drive holds spell the requested LBA modulo 2^48. Its two count bytes spell the sector count. |
| AtaRegisters.LeBytesRoundTrip | Ata/src/ata_operations.c:128 | The first n bytes of the little-endian byte view of a number spell that number modulo 256^n. |
| AtaRegisters.WordBytes | Ata/src/ata_operations.c:131-143 | `WORD_HIGH` and `WORD_LOW` of a word recombine to the word. |
| AtaRegisters.WriteBuffer | Ata/src/ata_operations.c:290-311 | The polled write of n words is n steps in buffer order. Step i waits for not-busy, waits for DRQ, then writes buffer word i to the data port. |
| AtaRegisters.WriteBufferWords | Ata/src/ata_operations.c:290-311 | The polled write puts exactly the first n buffer words on the data port, in buffer order. |
| AtaRegisters.WriteBufferMovesWords | Ata/src/ata_operations.c:290-311 | The polled write only waits and writes words: no byte access and no allocation. |
| AtaRegisters.ReadBuffer | Ata/src/ata_operations.c:263-286 | The polled read of n words is n steps. Each waits for not-busy, waits for DRQ, then reads the data port once. |
| AtaRegisters.ReadBufferMovesWords | Ata/src/ata_operations.c:263-286 | The polled read only waits and reads words. |
| AtaRegisters.WriteRegistersBytes | Ata/src/ata_operations.c:157-203 | Register programming writes only bytes. |
| AtaPrdt.ValidateTranslationPair | Ata/src/ata_operations.c:477-504 | Success exactly when all four checks pass. Each error status is returned exactly when its check is the first to fail, in the order: address too high, address misaligned, span too large, length misaligned. |
| AtaPrdt.ClippedLength | Ata/src/ata_operations.c:392 | A pair never contributes more than the bytes remaining. Corrected, it contributes exactly min(length, remaining). |
| AtaPrdt.PairEntries | Ata/src/ata_operations.c:392-417 | One pair's entries carry exactly its clipped byte count. There are at most two, none flagged. As written there is always at least one; corrected, none is empty. |
| AtaPrdt.PairEntriesCases | Ata/src/ata_operations.c:395-412 | A run inside one boundary block gives one entry with the pair's address and clipped length. A crossing run gives two entries that split the clipped range exactly at the boundary. |
| AtaPrdt.PairEntriesInBlock | Ata/src/ata_operations.c:395-406 | When no pair may exceed one block, no entry crosses a boundary. |
| AtaPrdt.BuildEntries | Ata/src/ata_operations.c:378-418 | Building succeeds exactly when every pair is valid. A failure reports the first invalid pair and its status. On success, entries plus bytes remaining conserve the byte count, and there are at most 2N entries (the allocation size). None is flagged. Corrected, none is empty and the remainder is what the pairs leave uncovered. Entries stay within one block when pairs are at most a block long. With 32-bit addresses, the entries describe, byte by byte and in order, each pair's run clipped to the bytes still wanted. |
| AtaPrdt.PairEntriesBytes | Ata/src/ata_operations.c:392-417 | One pair's entries, read in order, cover exactly the bytes of its clipped run, from its start address upward. |
| AtaPrdt.CorrectedTakesPrefix | Ata/src/ata_operations.c:378-418 | Corrected, when the pairs cover `remaining` bytes, the bytes the pairs contribute are exactly the first `remaining` bytes of the buffer, in buffer order. |
| AtaPrdt.MarkLast | Ata/src/ata_operations.c:423 | Marking keeps every entry's address and count, and the byte total. On an unflagged table it leaves exactly the final entry flagged. |
| AtaPrdt.BuildAgrees | Ata/src/ata_operations.c:392 | When no pair can exceed a `WORD`, every pair is nonempty and the pairs cover no more than the bytes remaining, both revisions build the same table. |
| AtaPrdt.InBlockCount | Ata/src/ata_operations.c:395-406 | An entry inside one boundary block counts at most one block of bytes. |
| AtaPrdt.BuiltCountsFitBlock | Ata/src/ata_operations.c:391-410 | When no pair may exceed one block, every count of a built table is at most one block; corrected, every count is also positive. |
| AtaPrdt.ExhaustedPairYieldsEmptyEntry | Ata/src/ata_operations.c:410-412 | As written, a valid pair reached with nothing remaining yields one entry of zero bytes. |
| AtaTransfer.InitialTransfer | Ata/src/ata_operations.c:671-677 | The record bring-up produces from a zeroed device extension: `Free`, the event unsignalled, no table. |
| AtaTransfer.CompareExchange | Ata/src/ata_operations.c:901 | The compare-and-swap returns the old state. It leaves either that state or the exchange value. |
| AtaTransfer.CompareExchangeReports | Ata/src/ata_operations.c:901 | The state changes exactly when the comparand is returned, and then it holds the exchange value. |
| AtaTransfer.Apply | Ata/src/ata_operations.c:821-832 | A completion goes on exactly from `InProgress`, and a wait blocks exactly when the event is unsignalled. Reclaiming needs `Finished` and a table, and drops the table. Only the commit and the reclaim touch the table. |
| AtaTransfer.CorrectedCycleReturnsToFree | Ata/src/ata_operations.c:821-832 | Corrected, a request from an idle record completes and leaves the record idle with no table. |
| AtaTransfer.CorrectedCyclesRepeat | Ata/src/ata_operations.c:821-832 | Corrected, any number of requests in a row all complete. |
| AtaTransfer.AsWrittenNeverInProgress | Ata/src/ata_operations.c:789-835 | As written, no step of the submitter or handler ever stores `InProgress`. |
| AtaTransfer.AsWrittenCompletionHalts | Ata/src/ata_operations.c:901 | As written, from any record not `InProgress`, every run that reaches the handler's completion stops or blocks. |
| AtaTransfer.AsWrittenFirstRequestHalts | Ata/src/ata_operations.c:901 | As written, the first request after bring-up stops on the compare-and-swap assertion. |
| AtaTransfer.SecondCompletionHalts | Ata/src/ata_operations.c:901 | In both revisions, a second completion without a new start stops on the assertion. |
| AtaDma.WriteDmaRegisters | Ata/src/ata_operations.c:508-526 | First Bus Status is read, then the table address is written as a `DWORD`. Last, the direction bits are written: to Bus Command when corrected, to Bus Status as written. |
| AtaDma.DirectionMissesBusCommand | Ata/src/ata_operations.c:525 | As written, the direction byte never reaches Bus Command. It lands on the port Bus Status is read from. |
| AtaDma.TransferBytes | Ata/src/ata_operations.c:344-348 | The byte count fits a `DWORD` and is positive for a positive sector count. |
| AtaDma.PrepareDmaTransfer | Ata/src/ata_operations.c:316-472 | The MDL is freed on every path that returns. Any failure frees the table, leaves the record alone and touches no port. Success requires valid pairs and a 32-bit non-null table address. It writes that address to the PRDT register and hands over a terminated table covering exactly the bytes asked for. With 32-bit addresses, the entries describe the pairs' clipped runs in input order. |
| AtaDma.Handover | Ata/src/ata_operations.c:434-450 | A null table address stops on the assertion. One above 32 bits fails with the table freed. Otherwise the table is kept and assigned to `Prdt`, and the address is written to the PRDT register. |
| AtaDma.Freed | Ata/src/ata_operations.c:452-469 | The cleanup after a failure releases both the table and the MDL. |
| AtaDma.CorrectedPreparation | Ata/src/ata_operations.c:378-420 | Corrected, preparation succeeds exactly when every pair is valid and the pairs cover the transfer. Any invalid pair makes it fail. The table then keeps each entry inside one boundary block. |
| AtaDma.CorrectedTableIsBufferPrefix | Ata/src/ata_operations.c:378-450 | Corrected, with 32-bit addresses, a successful preparation hands over a table whose entries describe exactly the first `SectorCount * SECTOR_SIZE` bytes of the buffer, in order. |
| AtaDma.AsWrittenFullWordPairStops | Ata/src/ata_operations.c:392 | As written, one 64 KiB pair covering a 128-sector transfer stops on the remaining-bytes assertion, which the corrected model passes. |
| AtaOperations.ResolveAddresses | Ata/src/ata_operations.c:568-592 | An address beyond a port number stops bring-up, as does exactly one of base and control being absent. Both absent gives the fixed legacy ports of the channel. Both present gives the BAR addresses, with control 2 further on. |
| AtaOperations.PollStop | Ata/src/ata_operations.c:633-648 | The IDENTIFY wait stops at the first status byte that shows an error or ready data, and at no earlier one. |
| AtaOperations.IdentifyTrace | Ata/src/ata_operations.c:597-621 | The probe makes 25 accesses. It writes the suppression byte to Device Control, selects the drive, writes the byte again, then reads Alternate Status ten times. Next it writes IDENTIFY to the Command register and reads Alternate Status ten more times. Last it reads Status once. |
| AtaOperations.LegacyLine | Ata/src/ata_operations.c:686 | The legacy IRQ is 14 for the primary channel and 15 for the secondary. |
| AtaOperations.Probe | Ata/src/ata_operations.c:621-703 | A zero status means no device. It blocks exactly when the wait never ends. An error status fails. A device without 48-bit support fails with `DeviceNotSupported`. Success needs 48-bit support and leaves the registers, an idle record, the total sector count and a stopped engine. |
| AtaOperations.AtaInitialize | Ata/src/ata_operations.c:530-706 | A missing PCI description fails with parameter 1 and a missing device with parameter 4, both before any access. Otherwise bring-up is address resolution followed by the probe. |
| AtaOperations.InitializedDevice | Ata/src/ata_operations.c:583-703 | A device that comes up has its registers all from the BARs (control 2 further on) or all the channel's fixed ports, interrupts suppressed, the record `Free` and unsignalled with its table pointer untouched (so `InitialTransfer` from a zeroed extension), the channel's IRQ line exactly when legacy, and a last write of 0 to Bus Command. |
| AtaOperations.DmaInterrupt | Ata/src/ata_operations.c:860-913 | `TRUE` exactly when the DMA-IRQ bit is set. Without the bit, the record is untouched. A drive fault or error status stops the handler. A clean completion moves `InProgress` to `Finished`, signals and acknowledges. |
| AtaOperations.Deliver | Ata/src/ata_operations.c:860-913 | The interrupts taken while the submitter waits never block, allocate nothing and keep the table. A record that is not `InProgress` comes out of them unchanged. |
| AtaOperations.Rejection | Ata/src/ata_operations.c:726-744 | A request is refused exactly when the device is null, the count is 0, the buffer is null or the output pointer is null. The status is parameter 1, 3, 4 or 5, with the first failing check deciding. |
| AtaOperations.CommandFor | Ata/src/ata_operations.c:805-812 | The command is a DMA command exactly for an asynchronous request, and a write command exactly for a write. |
| AtaOperations.SuppressionFor | Ata/src/ata_operations.c:771 | `NoInterrupt` is 0 exactly for an asynchronous request, and has nIEN set otherwise. |
| AtaOperations.AtaReadWriteSectors | Ata/src/ata_operations.c:710-858 | A refused request touches nothing. Success reports `SectorCount` and failure reports no count. `NoInterrupt` is set for the request and the other registers are kept. A polled request always succeeds, leaves the record alone and allocates nothing. An asynchronous success leaves no table and balances the MDL and table allocations. As written, no asynchronous request on an idle device ever reports success, whatever interrupts arrive. Every accepted request's trace starts with the setup: wait, select, wait, the suppression byte, the parameters. A polled request then writes its command and makes one step per buffer word, writing buffer word i or reading the data port, and nothing after. An asynchronous success writes the table address to the PRDT register, then the DMA command, then the Bus Command start byte at once after it. A failed preparation touches no port after the setup. |
| AtaOperations.PolledRequest | Ata/src/ata_operations.c:814-849 | After the setup, the polled path writes the PIO command, then makes one wait-and-move step per buffer word, and allocates nothing. |
| AtaOperations.DmaRequest | Ata/src/ata_operations.c:789-832 | The DMA path keeps the device's registers. A failed preparation reports no count and touches no port after the setup. Success reports `SectorCount`, frees the table and balances both allocations. On success the PRDT register gets the table address, then the DMA command is written with the engine start right after it. As written, it never succeeds from an idle record. |
| AtaOperations.AfterPreparation | Ata/src/ata_operations.c:794-832 | After the preparation, a failure status is returned as it is, with no further port access. Success goes on to the launch, and its trace shows the PRDT write before the command and the start. |
| AtaOperations.Launch | Ata/src/ata_operations.c:814-832 | The record is marked started before the command goes out. On success, the DMA command and the Bus Command start are the two events right after the setup and the preparation, and the table is freed. As written, a `Free` record never gets through. |
| AtaOperations.AwaitCompletion | Ata/src/ata_operations.c:821-832 | Getting past the wait requires a table in the record, and the table is dropped afterwards. As written, a record that starts `Free` never gets past the submitter's checks. |
| AtaOperations.CorrectedCompletion | Ata/src/ata_operations.c:821-832 | Corrected, one clean interrupt takes an `InProgress` record through `Finished` back to idle. |
| AtaOperations.AsWrittenCompletion | Ata/src/ata_operations.c:901 | As written, the first clean interrupt finds the record `Free` and stops on the compare-and-swap assertion. |
| AtaOperations.CorrectedAsyncRequestCompletes | Ata/src/ata_operations.c:710-858 | Corrected, an asynchronous request on an idle device completes on one clean interrupt when valid pairs cover the buffer. It reports `SectorCount` and leaves the record idle with no table. |
| AtaOperations.CorrectedLaunchCompletes | Ata/src/ata_operations.c:789-832 | Corrected, after the setup, a DMA request on an idle device with valid covering pairs completes on one clean interrupt and leaves the record idle. |
| AtaOperations.AsWrittenLaunchHalts | Ata/src/ata_operations.c:789-835 | As written, after the setup, once preparation succeeds on an idle record, the first clean interrupt stops the handler on the compare-and-swap assertion. |
| AtaOperations.AsWrittenAsyncRequestHalts | Ata/src/ata_operations.c:789-835 | As written, whenever preparation succeeds, the first clean interrupt of an asynchronous request on an idle device stops the handler on the compare-and-swap assertion. |
| AtaScenarios.StraddlingPairSplits | Ata/src/ata_operations.c:395-406 | A 2 KiB run starting 1 KiB before a 64 KiB line becomes two 1 KiB entries, the second starting on the line. |
| AtaScenarios.ZeroCountRejected | Ata/src/ata_operations.c:731-734 | A zero sector count is refused with parameter 3, with no access. |
| AtaScenarios.LegacyPrimaryComesUp | Ata/src/ata_operations.c:583-686 | A legacy primary master that answers IDENTIFY comes up on IRQ 14 at ports 0x1F0/0x3F6, with the record `Free`. |
| AtaScenarios.OneRunTable | Ata/src/ata_operations.c:378-423 | A single 512-byte run becomes one 512-byte entry with nothing left over, in both revisions. |
| AtaScenarios.TwoRunTable | Ata/src/ata_operations.c:378-418 | Runs of 512 and 1536 bytes for four sectors become two entries in input order, 512 then 1536 bytes, in both revisions. |
| AtaScenarios.TwoRunPreparation | Ata/src/ata_operations.c:378-450 | Preparing those four sectors succeeds with the two entries in input order, and only the second carries the end-of-table flag. |
| AtaScenarios.OneSectorAsyncWrite | Ata/src/ata_operations.c:710-858 | Corrected, a one-sector asynchronous write completes with count 1 and an idle record. |
| AtaScenarios.OneSectorAsyncWriteAsWritten | Ata/src/ata_operations.c:901 | As written, the same write stops on the compare-and-swap assertion. |
| AtaScenarios.ForeignInterruptIgnored | Ata/src/ata_operations.c:881-887 | An interrupt without the DMA-IRQ bit returns `FALSE` and leaves the record as it was. |

## Left out

- Busy-wait loops (`_AtaWaitIdle`, `_AtaWaitDataRequest`, `_AtaWaitDeviceReady`, lines 76-101) appear as `Await` events. Their polling is hardware timing. The IDENTIFY wait (lines 633-648) is modelled over a given sequence of status bytes, and blocks when none ends it.
- Concurrency is not modelled. `_InterlockedCompareExchange`, `ExEventSignal` and `ExEventWaitForSignal` are sequential transitions. Interrupts are taken one at a time, between the submitter's steps.
- Values read from ports are inputs (the status bytes, the IDENTIFY data, the bus status). The data words of a polled read are not modelled; only the accesses are.
- Only two IDENTIFY fields are kept: 48-bit support and the total sector count. Logging and `DumpAtaIdentifyCommand` are left out.
- The collaborators are inputs: `IoAllocateMdl`, `IoMdlGetNumberOfPairs`/`IoMdlGetTranslationPair`, `IoAllocateContinuousMemoryEx`, `IoGetPhysicalAddress`, `ExEventInit` and `IoRegisterInterrupt`. The reading of the PCI BARs is reduced to six I/O-space addresses.
- The allocator's page-alignment assertion on the table (line 376) is a property of the allocator, not of this file.
- The error-register read on an error interrupt (line 894) only feeds a log message before `NOT_REACHED`.
- The `(WORD)` casts of the two split counts (lines 397-404) are not modelled separately. The first count is below the clipped length, which as written is already a `WORD`.
- The layout and DMA limits are parameters; the bit masks, opcodes and IRQ 14 are fixed constants. The values in `AtaScenarios` are illustrative.
- `IsInSameBoundary`, `AddressOffset` and `IsAddressAligned` are macros of a header that is not part of this model. The model uses Euclidean block arithmetic and treats an empty run as inside one block. `AtaPrdt.ExhaustedPairYieldsEmptyEntry` depends on that second choice. A macro that compares the blocks of `a` and `a + n - 1` would put an empty run at a block-aligned address across the line and give two entries instead of one.
- AtaOperations.InitializedDevice: bring-up never clears `Prdt`; the record is `InitialTransfer()` only when the device extension arrives zeroed, which the model takes as given rather than promises.
- AtaPrdt.PrdEntry: byte counts are naturals, not the 16-bit field of the PRD. A count equal to a 64 KiB block stands for the field value 0 (SFF-8038i), and larger counts arise only when `ATA_DMA_MAX_PHYSICAL_LEN` exceeds the boundary, outside `AtaPrdt.BuiltCountsFitBlock`.
- AtaPrdt.BuildAgrees: it needs nonempty pairs and no more pair bytes than remain. Otherwise the as-written empty entry of lines 410-412 makes the revisions differ, for example pairs of 512 bytes at 0x10_0000 and 0x20_0000 with 512 bytes remaining.
- AtaOperations.AtaReadWriteSectors: for a polled read, the contract states which accesses are made, not which data arrives in the buffer.
- Interrupts are taken only after the launch writes, because the model is sequential. So it cannot tell whether `InProgress` is stored before or after the command write. The corrected `Launch` stores it before the command write, so that the handler's compare-and-swap at line 901 finds `InProgress` whenever the completion interrupt arrives.

## Findings

| source | as written | input that shows it | evidently intended | confidence | as-written member | corrected member |
|---|---|---|---|---|---|---|
| Ata/src/ata_operations.c:238 | The control-block read adds 2 more than the write path (line 184). | Alternate Status on a legacy primary channel: written via 0x3F6, read from 0x3F8. | Reads and writes of a control register use the same port. | medium; not executed | AtaRegisters.ControlReadMissesWritePort | AtaRegisters.ReadPortMatchesWritePort |
| Ata/src/ata_operations.c:525 | The direction bits are written to Bus Status. | Any DMA read: `ATA_BUS_CMD_READ_BIT` goes to Bus Status, not Bus Command. | The direction goes to Bus Command. | high; not executed | AtaDma.DirectionMissesBusCommand | AtaDma.WriteDmaRegisters |
| Ata/src/ata_operations.c:789-835 | Nothing stores `InProgress` before the engine starts, and nothing returns the state to `Free`. | Any asynchronous request after bring-up: the handler's compare-and-swap at line 901 sees `Free`. | The state is `InProgress` while the engine runs and `Free` after the table is reclaimed. | high; not executed | AtaOperations.AsWrittenAsyncRequestHalts | AtaOperations.CorrectedAsyncRequestCompletes |
| Ata/src/ata_operations.c:392 | The clipped length is cast to `WORD`. | One 64 KiB pair for a 128-sector transfer: the entry gets 0 bytes and the assertion at line 420 fails. | The full min(length, remaining) is counted. | medium; not executed | AtaDma.AsWrittenFullWordPairStops | AtaDma.CorrectedPreparation |
| Ata/src/ata_operations.c:410-412 | A valid pair reached when nothing remains still yields an entry with byte count 0. SFF-8038i reads a count of 0 as 64 KiB, so the controller would see a 64 KiB region. | Two 512-byte pairs for one sector: the second becomes a zero-byte entry and is marked last. | Pairs beyond the transfer yield no entry. | medium; not executed | AtaPrdt.ExhaustedPairYieldsEmptyEntry | AtaPrdt.BuildEntries |
