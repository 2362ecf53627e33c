/**
 `_AtaPrepareDmaTransfer` and `_AtaWriteDmaRegisters`: the buffer is
 described by the memory manager, the PRD table is built into freshly
 allocated contiguous memory, its physical address is programmed into the
 bus-master block, and the table is handed to the transfer record. The
 memory-manager and allocator calls are inputs (`DmaEnv`); their effect on
 the world is recorded as `Acquire`/`Release` events in the trace.
 */
module AtaDma {
  import opened AtaTypes
  import opened AtaRegisters
  import opened AtaPrdt
  import opened AtaTransfer

  /** What `IoAllocateMdl` gives back: a failure status, or the buffer's translation pairs. */
  datatype MdlOutcome = MdlFailed(status: Status) | MdlAllocated(pairs: seq<TranslationPair>)

  /**
   The answers of the collaborators for one transfer: the MDL, whether
   `IoAllocateContinuousMemoryEx` found memory, and the table's physical
   address from `IoGetPhysicalAddress` (0 for NULL).
   */
  datatype DmaEnv = DmaEnv(mdl: MdlOutcome, tableAllocated: bool, tablePhysical: Qword)
  {
    predicate Valid() {
      mdl.MdlFailed? ==> mdl.status != Success
    }
  }

  /** The outcome of `_AtaPrepareDmaTransfer`: a status and the updated record, or a failed assertion. */
  datatype Prepared =
    | Prepared(status: Status, transfer: CurrentTransfer, trace: Trace)
    | PrepareHalted(fault: Fault, trace: Trace)

  /** The port of the PRDT Address register (written as a `DWORD`). */
  function PrdtPort(L: RegisterLayout, regs: DeviceRegisters): Word
    requires L.Valid()
  {
    Port(regs.busMasterBase + L.prdtAddress - L.busCommand)
  }

  /** The write of the table's physical address to the PRDT Address register. */
  function PrdtWrite(L: RegisterLayout, regs: DeviceRegisters, physical: Dword): Event
    requires L.Valid()
  {
    Out32(PrdtPort(L, regs), physical as bv32)
  }

  /** `!WriteOperation * ATA_BUS_CMD_READ_BIT`: the bus master writes memory on a device read. */
  function DirectionBits(write: bool): bv8 {
    if write then 0 else BUS_CMD_READ
  }

  /**
   The register the direction bits go to: Bus Status as written, Bus
   Command corrected (where the bus-master read/write control lives).
   */
  function DirectionRegister(rev: Revision, L: RegisterLayout): nat {
    if rev == AsWritten then L.busStatus else L.busCommand
  }

  /**
   `_AtaWriteDmaRegisters`: read Bus Status, write the table address to the
   PRDT Address register, then write the direction bits.
   */
  function WriteDmaRegisters(rev: Revision, L: RegisterLayout, regs: DeviceRegisters, prdt: Dword, write: bool): (t: Trace)
    requires L.Valid()
    ensures |t| == 3
    ensures t[0] == In8(WritePort(L, regs, L.busStatus))
    ensures t[1] == PrdtWrite(L, regs, prdt)
    ensures t[2].Out8? && t[2].value == DirectionBits(write)
    ensures rev == Corrected ==> t[2].port == WritePort(L, regs, L.busCommand)
    ensures rev == AsWritten ==> t[2].port == WritePort(L, regs, L.busStatus)
  {
    ReadPortMatchesWritePort(rev, L, regs, L.busStatus);
    ReadRegister(rev, L, regs, L.busStatus)
    + [PrdtWrite(L, regs, prdt)]
    + WriteRegister(L, regs, DirectionRegister(rev, L), DirectionBits(write))
  }

  /**
   As written, the direction bits never reach Bus Command: the byte goes to
   a different port, and that port is the one the status is read from.
   */
  lemma DirectionMissesBusCommand(L: RegisterLayout, regs: DeviceRegisters, prdt: Dword, write: bool)
    requires L.Valid()
    ensures var t := WriteDmaRegisters(AsWritten, L, regs, prdt, write);
      t[2].port != WritePort(L, regs, L.busCommand) && t[2].port == t[0].port
  {
    PortInjective(regs.busMasterBase - L.busCommand, L.busStatus, L.busCommand);
  }

  /** The bytes asked for, `SectorCount * SECTOR_SIZE`. */
  function TransferBytes(cfg: DmaConfig, sectorCount: Word): (n: nat)
    requires cfg.Valid()
    ensures n <= MAX_DWORD
    ensures sectorCount > 0 ==> n > 0
  {
    MulBounds(sectorCount, cfg.sectorSize);
    sectorCount * cfg.sectorSize
  }

  lemma MulBounds(a: nat, b: nat)
    requires a <= MAX_WORD && b * MAX_WORD <= MAX_DWORD
    ensures a * b <= MAX_DWORD
    ensures a > 0 && b > 0 ==> a * b > 0
  {
    assert a * b <= MAX_WORD * b;
  }

  /** The table a successful preparation hands over: non-empty, the final entry alone flagged. */
  predicate Terminated(table: seq<PrdEntry>) {
    && |table| > 0
    && forall i :: 0 <= i < |table| ==> (table[i].lastEntry <==> i == |table| - 1)
  }

  /**
   The contract every preparation outcome keeps; `total` is the byte count
   asked for. On success the table describes, in order, the clipped run of
   every pair, and its physical address went to the PRDT Address register.
   */
  predicate Settled(
    rev: Revision, cfg: DmaConfig, L: RegisterLayout, regs: DeviceRegisters,
    t: CurrentTransfer, env: DmaEnv, total: nat, r: Prepared)
    requires cfg.Valid() && L.Valid()
  {
    && (r.Prepared? ==> Balanced(r.trace, MdlBuffer))
    && (r.Prepared? && r.status != Success ==>
      && r.transfer == t
      && Balanced(r.trace, PrdTableMemory)
      && NoPortAccess(r.trace))
    && (r.Prepared? && r.status == Success ==>
      && env.mdl.MdlAllocated?
      && AllValid(cfg, env.mdl.pairs)
      && 0 < env.tablePhysical <= MAX_DWORD
      && PrdtWrite(L, regs, env.tablePhysical) in r.trace
      && r.transfer.state == t.state && r.transfer.signaled == t.signaled
      && r.transfer.prdt.Some?
      && Terminated(r.transfer.prdt.value)
      && SumBytes(r.transfer.prdt.value) == total
      && (cfg.Within32Bits() ==> EntryBytes(r.transfer.prdt.value) == PairBytes(rev, env.mdl.pairs, total))
      && Count(r.trace, Acquire(PrdTableMemory)) == 1
      && Count(r.trace, Release(PrdTableMemory)) == 0)
  }

  /**
   `_AtaPrepareDmaTransfer`. The MDL is freed on every path that returns;
   the table is freed on every failure and kept (handed to the record) on
   success; `Prdt` is assigned only on success, with a terminated table
   that describes exactly the bytes asked for.
   */
  function PrepareDmaTransfer(
    rev: Revision, cfg: DmaConfig, L: RegisterLayout, regs: DeviceRegisters,
    t: CurrentTransfer, env: DmaEnv, sectorCount: Word, write: bool): (r: Prepared)
    requires cfg.Valid() && L.Valid() && env.Valid()
    requires sectorCount > 0
    ensures Settled(rev, cfg, L, regs, t, env, TransferBytes(cfg, sectorCount), r)
  {
    var total := TransferBytes(cfg, sectorCount);
    match env.mdl
    case MdlFailed(s) =>
      Prepared(s, t, [])
    case MdlAllocated(pairs) =>
      if |pairs| == 0 then
        PrepareHalted(NoTranslationPairs, [Acquire(MdlBuffer)])
      else if !env.tableAllocated then
        Prepared(HeapInsufficientResources, t, [Acquire(MdlBuffer), Release(MdlBuffer)])
      else
        FillTable(rev, cfg, L, regs, t, env, total, write)
  }

  /** The part of `_AtaPrepareDmaTransfer` after the table memory was allocated. */
  function FillTable(
    rev: Revision, cfg: DmaConfig, L: RegisterLayout, regs: DeviceRegisters,
    t: CurrentTransfer, env: DmaEnv, total: nat, write: bool): (r: Prepared)
    requires cfg.Valid() && L.Valid() && env.mdl.MdlAllocated? && env.tableAllocated
    requires total > 0
    ensures Settled(rev, cfg, L, regs, t, env, total, r)
  {
    var held := [Acquire(MdlBuffer), Acquire(PrdTableMemory)];
    match BuildEntries(rev, cfg, env.mdl.pairs, total)
    case Rejected(s, _) =>
      Prepared(s, t, Freed())
    case Built(es, rem) =>
      if rem != 0 then
        PrepareHalted(BytesStillRemaining, held)
      else
        SameShapeBytes(es, MarkLast(es));
        Handover(rev, L, regs, t, MarkLast(es), env.tablePhysical, write)
  }

  /** Both buffers acquired, then released table first. */
  function Freed(): (t: Trace)
    ensures Balanced(t, MdlBuffer) && Balanced(t, PrdTableMemory) && NoPortAccess(t)
  {
    [Acquire(MdlBuffer), Acquire(PrdTableMemory), Release(PrdTableMemory), Release(MdlBuffer)]
  }

  /** The physical-address checks, the register programming and the handover of the table. */
  function Handover(
    rev: Revision, L: RegisterLayout, regs: DeviceRegisters,
    t: CurrentTransfer, table: seq<PrdEntry>, physical: Qword, write: bool): (r: Prepared)
    requires L.Valid()
    ensures r.Prepared? ==> Balanced(r.trace, MdlBuffer)
    ensures r.Prepared? && r.status != Success ==>
      && r.status == DmaPhysicalAddressTooHigh
      && r.transfer == t && Balanced(r.trace, PrdTableMemory) && NoPortAccess(r.trace)
    ensures r.Prepared? && r.status == Success ==>
      && 0 < physical <= MAX_DWORD
      && r.transfer == t.(prdt := Some(table))
      && PrdtWrite(L, regs, physical) in r.trace
      && Count(r.trace, Acquire(PrdTableMemory)) == 1
      && Count(r.trace, Release(PrdTableMemory)) == 0
    ensures r.PrepareHalted? <==> physical == 0
  {
    var held := [Acquire(MdlBuffer), Acquire(PrdTableMemory)];
    if physical == 0 then
      PrepareHalted(NullTableAddress, held)
    else if physical > MAX_DWORD then
      Prepared(DmaPhysicalAddressTooHigh, t, Freed())
    else
      var regsTrace := WriteDmaRegisters(rev, L, regs, physical, write);
      SuccessCounts(held, regsTrace);
      assert (held + regsTrace + [Release(MdlBuffer)])[3] == regsTrace[1];
      Prepared(Success, t.(prdt := Some(table)), held + regsTrace + [Release(MdlBuffer)])
  }

  lemma SuccessCounts(held: Trace, regsTrace: Trace)
    requires held == [Acquire(MdlBuffer), Acquire(PrdTableMemory)]
    requires forall i :: 0 <= i < |regsTrace| ==> IsPortAccess(regsTrace[i])
    ensures var trace := held + regsTrace + [Release(MdlBuffer)];
      && Count(trace, Acquire(MdlBuffer)) == 1 && Count(trace, Release(MdlBuffer)) == 1
      && Count(trace, Acquire(PrdTableMemory)) == 1 && Count(trace, Release(PrdTableMemory)) == 0
  {
    CountAppend(held, regsTrace, Acquire(MdlBuffer));
    CountAppend(held, regsTrace, Release(MdlBuffer));
    CountAppend(held, regsTrace, Acquire(PrdTableMemory));
    CountAppend(held, regsTrace, Release(PrdTableMemory));
    CountAppend(held + regsTrace, [Release(MdlBuffer)], Acquire(MdlBuffer));
    CountAppend(held + regsTrace, [Release(MdlBuffer)], Release(MdlBuffer));
    CountAppend(held + regsTrace, [Release(MdlBuffer)], Acquire(PrdTableMemory));
    CountAppend(held + regsTrace, [Release(MdlBuffer)], Release(PrdTableMemory));
  }

  /**
   With the buffer described, the table allocated and addressable in 32
   bits, the corrected preparation succeeds exactly when every pair is
   valid and the pairs cover the transfer; the table it hands over then
   keeps every entry inside one boundary block.
   */
  lemma CorrectedPreparation(
    cfg: DmaConfig, L: RegisterLayout, regs: DeviceRegisters,
    t: CurrentTransfer, env: DmaEnv, sectorCount: Word, write: bool)
    requires cfg.Valid() && L.Valid() && sectorCount > 0
    requires env.mdl.MdlAllocated? && |env.mdl.pairs| > 0 && env.tableAllocated
    requires 0 < env.tablePhysical <= MAX_DWORD
    ensures var r := PrepareDmaTransfer(Corrected, cfg, L, regs, t, env, sectorCount, write);
      && (r.Prepared? && r.status == Success <==>
            AllValid(cfg, env.mdl.pairs) && SumLengths(env.mdl.pairs) >= TransferBytes(cfg, sectorCount))
      && (r.Prepared? && r.status == Success && cfg.Within32Bits() && cfg.maxPhysicalLen <= cfg.boundary ==>
            AllInBlock(cfg, r.transfer.prdt.value))
      && (!AllValid(cfg, env.mdl.pairs) ==> r.Prepared? && r.status != Success)
  {
    var total := TransferBytes(cfg, sectorCount);
    var b := BuildEntries(Corrected, cfg, env.mdl.pairs, total);
    if b.Built? && b.remaining == 0 {
      assert |b.entries| > 0;
      if cfg.Within32Bits() && cfg.maxPhysicalLen <= cfg.boundary {
        MarkLastInBlock(cfg, b.entries);
      }
    }
  }

  /**
   Corrected, the table a successful preparation hands over describes
   exactly the first `SectorCount * SECTOR_SIZE` bytes of the buffer, in
   the order the memory manager lists them.
   */
  lemma CorrectedTableIsBufferPrefix(
    cfg: DmaConfig, L: RegisterLayout, regs: DeviceRegisters,
    t: CurrentTransfer, env: DmaEnv, sectorCount: Word, write: bool)
    requires cfg.Valid() && cfg.Within32Bits() && L.Valid() && env.Valid() && sectorCount > 0
    ensures var r := PrepareDmaTransfer(Corrected, cfg, L, regs, t, env, sectorCount, write);
      r.Prepared? && r.status == Success ==>
        EntryBytes(r.transfer.prdt.value) == BufferBytes(env.mdl.pairs)[..TransferBytes(cfg, sectorCount)]
  {
    var r := PrepareDmaTransfer(Corrected, cfg, L, regs, t, env, sectorCount, write);
    if r.Prepared? && r.status == Success {
      assert |env.mdl.pairs| > 0 && env.tableAllocated;
      CorrectedPreparation(cfg, L, regs, t, env, sectorCount, write);
      CorrectedTakesPrefix(env.mdl.pairs, TransferBytes(cfg, sectorCount));
    }
  }

  /**
   As written, a buffer whose pairs cover the transfer can still stop on
   `ASSERT(0 == bytesRemaining)`: the `(WORD)` cast turns a 64 KiB pair
   into a zero-byte entry, so no byte is counted off.
   */
  lemma AsWrittenFullWordPairStops(L: RegisterLayout, regs: DeviceRegisters, t: CurrentTransfer, write: bool)
    requires L.Valid()
    ensures var cfg := DmaConfig(0x1_0000, 2, MAX_DWORD, 0x1_0000, 512);
      var env := DmaEnv(MdlAllocated([TranslationPair(0x10_0000, 0x1_0000)]), true, 0x2000);
      && cfg.Valid() && env.Valid()
      && PrepareDmaTransfer(AsWritten, cfg, L, regs, t, env, 128, write) == PrepareHalted(BytesStillRemaining, [Acquire(MdlBuffer), Acquire(PrdTableMemory)])
      && PrepareDmaTransfer(Corrected, cfg, L, regs, t, env, 128, write).Prepared?
      && PrepareDmaTransfer(Corrected, cfg, L, regs, t, env, 128, write).status == Success
  {
    var cfg := DmaConfig(0x1_0000, 2, MAX_DWORD, 0x1_0000, 512);
    var pairs := [TranslationPair(0x10_0000, 0x1_0000)];
    var p := pairs[0];
    assert AddressOffset(0x10_0000, 2) == 0 && AddressOffset(0x1_0000, 2) == 0 by {
      BlockUnique(0x10_0000, 2, 0x8_0000, 0);
      BlockUnique(0x1_0000, 2, 0x8000, 0);
    }
    assert PairValid(cfg, p);
    assert ClippedLength(AsWritten, p, 0x1_0000) == 0;
    BuildEntriesCons(AsWritten, cfg, pairs, 0x1_0000);
    assert pairs[1..] == [];
    assert BuildEntries(AsWritten, cfg, pairs, 0x1_0000).remaining == 0x1_0000;
    assert SumLengths(pairs) == 0x1_0000;
    CorrectedPreparation(cfg, L, regs, t, DmaEnv(MdlAllocated(pairs), true, 0x2000), 128, write);
  }
}
