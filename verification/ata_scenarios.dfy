/**
 Concrete instances of the model: a register layout and DMA constants with
 the usual values (the eight command-block registers at offsets 0 to 7;
 the high-order halves of the four two-deep sector-count and LBA registers
 6 above them, reached through the HOB bit; the control block, then the
 bus-master block; 64 KiB boundary, 2-byte alignment, 512-byte sectors),
 and the behaviour of the driver on a handful of requests.
 */
module AtaScenarios {
  import opened AtaTypes
  import opened AtaRegisters
  import opened AtaPrdt
  import opened AtaTransfer
  import opened AtaDma
  import opened AtaOperations

  function ExampleLayout(): RegisterLayout {
    RegisterLayout(
      0, 1, 2, 3, 4, 5,     // data, error, sector count, LBA low/mid/high
      6, 7, 7,              // device, command, status (command and status share a port)
      8, 9, 10, 11,         // the high-order registers
      12, 12, 13,           // alternate status and device control share a port; device address
      14, 16, 18)           // bus command, bus status, PRDT address
  }

  function ExampleDma(): DmaConfig {
    DmaConfig(0x1_0000, 2, 0xFFFF_0000, 0x1_0000, 512)
  }

  /** The primary and secondary legacy channels: 0x1F0/0x3F6 and 0x170/0x376. */
  function ExamplePlatform(): Platform {
    Platform(ExampleLayout(), ExampleDma(), [0x1F0, 0x170], [0x3F6, 0x376])
  }

  lemma ExamplePlatformValid()
    ensures ExamplePlatform().Valid()
    ensures ExampleDma().Within32Bits() && ExampleDma().maxPhysicalLen <= ExampleDma().boundary
  {
  }

  /** The primary master as bring-up leaves it on a legacy controller. */
  function PrimaryMaster(): AtaDevice {
    AtaDevice(DeviceRegisters(0x1F0, 0x3F6, 0xC000, DCTRL_NIEN), false, 0x100_0000, InitialTransfer(), true)
  }

  /** A run that straddles the 128 KiB line is split into two entries of 1 KiB each. */
  lemma StraddlingPairSplits()
    ensures PairEntries(Corrected, ExampleDma(), TranslationPair(0x1_FC00, 0x800), 0x800)
         == [PrdEntry(0x1_FC00, 0x400, false), PrdEntry(0x2_0000, 0x400, false)]
  {
    var cfg := ExampleDma();
    var p := TranslationPair(0x1_FC00, 0x800);
    BlockUnique(0x1_FC00, cfg.boundary, 1, 0xFC00);
    BlockUnique(0x2_03FF, cfg.boundary, 2, 0x3FF);
    BlockUnique(0x1_FC00, 2, 0xFE00, 0);
    BlockUnique(0x800, 2, 0x400, 0);
    assert PairValid(cfg, p);
    assert !IsInSameBoundary(p.address, 0x800, cfg.boundary);
    PairEntriesCases(Corrected, cfg, p, 0x800);
  }

  /** A zero sector count is refused before any register is touched. */
  lemma ZeroCountRejected(rev: Revision, env: DmaEnv, words: seq<bv16>, irqs: seq<IrqObservation>)
    requires env.Valid()
    ensures var req := Request(true, 0, 0, true, true, true, false);
      AtaReadWriteSectors(rev, ExamplePlatform(), PrimaryMaster(), req, env, words, irqs)
        == Continue(RwOutcome(InvalidParameter3, PrimaryMaster(), None, []))
  {
  }

  /**
   Bring-up of the primary master of a legacy controller (all BARs zero):
   the device answers IDENTIFY with data ready and supports 48-bit
   addresses, so it comes up on IRQ 14 with the fixed primary ports.
   */
  lemma LegacyPrimaryComesUp(rev: Revision, ext: AtaDevice)
    ensures var r := AtaInitialize(rev, ExamplePlatform(), Some(PciHeader([0, 0, 0, 0, 0, 0])), false, false,
        true, ext, ProbeAnswers(0x50, [0x58], true, 0x100_0000), Services(Success, Success));
      && r.Continue? && r.value.status == Success
      && r.value.line == Some(LegacyIrq(14))
      && r.value.device.regs.baseRegister == 0x1F0 && r.value.device.regs.controlBase == 0x3F6
      && r.value.device.transfer.state == Free
  {
    var p := ExamplePlatform();
    var pci := PciHeader([0, 0, 0, 0, 0, 0]);
    var a := ReadBars(pci, false);
    assert a == BarAddresses(0, 0, 0);
    var res := ResolveAddresses(p, a, false);
    assert res.Continue? && res.value.legacy;
    var drive := ProbeAnswers(0x50, [0x58], true, 0x100_0000);
    assert EndsPoll(0x58) && !FlagOn(0x58, SREG_ERR);
    assert PollStop(drive.poll) == Some(0);
  }

  /** A one-sector asynchronous write from a single 512-byte run. */
  function OneSectorWrite(): Request {
    Request(true, 0x1234, 1, true, true, true, true)
  }

  function OneRunEnv(): DmaEnv {
    DmaEnv(MdlAllocated([TranslationPair(0x10_0000, 512)]), true, 0x8000)
  }

  function CleanIrq(): IrqObservation {
    IrqObservation(BUS_DMA_IRQ, SREG_DRDY)
  }

  /** The single run passes validation and covers exactly one sector. */
  lemma OneRunValid()
    ensures AllValid(ExampleDma(), OneRunEnv().mdl.pairs)
    ensures SumLengths(OneRunEnv().mdl.pairs) == 512 == TransferBytes(ExampleDma(), 1)
  {
    var pairs := OneRunEnv().mdl.pairs;
    BlockUnique(0x10_0000, 2, 0x8_0000, 0);
    BlockUnique(512, 2, 256, 0);
    assert PairValid(ExampleDma(), pairs[0]);
    assert pairs[1..] == [];
  }

  /** Either revision turns the run into one 512-byte entry and nothing is left over. */
  lemma OneRunTable(rev: Revision)
    ensures BuildEntries(rev, ExampleDma(), OneRunEnv().mdl.pairs, 512) == Built([PrdEntry(0x10_0000, 512, false)], 0)
  {
    var pairs := OneRunEnv().mdl.pairs;
    OneRunPair(rev);
    BuildEntriesCons(rev, ExampleDma(), pairs, 512);
    assert pairs[1..] == [];
    assert BuildEntries(rev, ExampleDma(), [], 0) == Built([], 0);
  }

  /** The run, with exactly its 512 bytes wanted, is one entry. */
  lemma OneRunPair(rev: Revision)
    ensures PairValid(ExampleDma(), TranslationPair(0x10_0000, 512))
    ensures ClippedLength(rev, TranslationPair(0x10_0000, 512), 512) == 512
    ensures PairEntries(rev, ExampleDma(), TranslationPair(0x10_0000, 512), 512) == [PrdEntry(0x10_0000, 512, false)]
  {
    var cfg := ExampleDma();
    var p := TranslationPair(0x10_0000, 512);
    BlockUnique(0x10_0000, 2, 0x8_0000, 0);
    BlockUnique(512, 2, 256, 0);
    BlockUnique(0x10_0000, cfg.boundary, 0x10, 0);
    BlockUnique(0x10_01FF, cfg.boundary, 0x10, 0x1FF);
    PairEntriesCases(rev, cfg, p, 512);
  }

  /** Two runs of 512 and 1536 bytes, each inside one 64 KiB block: four sectors. */
  function TwoRunEnv(): DmaEnv {
    DmaEnv(MdlAllocated([TranslationPair(0x10_0000, 512), TranslationPair(0x20_0000, 1536)]), true, 0x8000)
  }

  /** The second run, once 1536 bytes are still wanted, is one entry of its 1536 bytes. */
  lemma SecondRunPair(rev: Revision)
    ensures PairValid(ExampleDma(), TranslationPair(0x20_0000, 1536))
    ensures ClippedLength(rev, TranslationPair(0x20_0000, 1536), 1536) == 1536
    ensures PairEntries(rev, ExampleDma(), TranslationPair(0x20_0000, 1536), 1536) == [PrdEntry(0x20_0000, 1536, false)]
  {
    var cfg := ExampleDma();
    var p := TranslationPair(0x20_0000, 1536);
    BlockUnique(0x20_0000, 2, 0x10_0000, 0);
    BlockUnique(1536, 2, 768, 0);
    BlockUnique(0x20_0000, cfg.boundary, 0x20, 0);
    BlockUnique(0x20_05FF, cfg.boundary, 0x20, 0x5FF);
    PairEntriesCases(rev, cfg, p, 1536);
  }

  lemma SecondRunEntry(rev: Revision)
    ensures BuildEntries(rev, ExampleDma(), [TranslationPair(0x20_0000, 1536)], 1536)
         == Built([PrdEntry(0x20_0000, 1536, false)], 0)
  {
    var pairs := [TranslationPair(0x20_0000, 1536)];
    SecondRunPair(rev);
    BuildEntriesCons(rev, ExampleDma(), pairs, 1536);
    assert pairs[1..] == [];
    assert BuildEntries(rev, ExampleDma(), [], 0) == Built([], 0);
  }

  /** The first run, with 2048 bytes wanted, is one entry of its 512 bytes. */
  lemma FirstRunEntry(rev: Revision)
    ensures PairValid(ExampleDma(), TranslationPair(0x10_0000, 512))
    ensures ClippedLength(rev, TranslationPair(0x10_0000, 512), 2048) == 512
    ensures PairEntries(rev, ExampleDma(), TranslationPair(0x10_0000, 512), 2048) == [PrdEntry(0x10_0000, 512, false)]
  {
    var cfg := ExampleDma();
    var p := TranslationPair(0x10_0000, 512);
    BlockUnique(0x10_0000, 2, 0x8_0000, 0);
    BlockUnique(512, 2, 256, 0);
    BlockUnique(0x10_0000, cfg.boundary, 0x10, 0);
    BlockUnique(0x10_01FF, cfg.boundary, 0x10, 0x1FF);
    PairEntriesCases(rev, cfg, p, 2048);
  }

  /** Both runs, in input order, for the 2048 bytes of four sectors. */
  lemma TwoRunTable(rev: Revision)
    ensures BuildEntries(rev, ExampleDma(), TwoRunEnv().mdl.pairs, 2048)
         == Built([PrdEntry(0x10_0000, 512, false), PrdEntry(0x20_0000, 1536, false)], 0)
  {
    var pairs := TwoRunEnv().mdl.pairs;
    FirstRunEntry(rev);
    BuildEntriesCons(rev, ExampleDma(), pairs, 2048);
    assert pairs[1..] == [TranslationPair(0x20_0000, 1536)];
    SecondRunEntry(rev);
  }

  /**
   Two runs of 512 and 1536 bytes give two entries in input order with
   those counts, the end-of-table flag on the second only.
   */
  lemma TwoRunPreparation(rev: Revision)
    ensures var regs := PrimaryMaster().regs.(noInterrupt := SuppressionFor(true));
      var r := PrepareDmaTransfer(rev, ExampleDma(), ExampleLayout(), regs, PrimaryMaster().transfer, TwoRunEnv(), 4, false);
      && r.Prepared? && r.status == Success
      && r.transfer.prdt == Some([PrdEntry(0x10_0000, 512, false), PrdEntry(0x20_0000, 1536, true)])
  {
    TwoRunTable(rev);
    var es := [PrdEntry(0x10_0000, 512, false), PrdEntry(0x20_0000, 1536, false)];
    assert MarkLast(es) == [PrdEntry(0x10_0000, 512, false), PrdEntry(0x20_0000, 1536, true)];
  }

  /** The one-sector asynchronous write completes when the handler sees the DMA-IRQ bit with a clean status. */
  lemma OneSectorAsyncWrite(words: seq<bv16>)
    ensures var r := AtaReadWriteSectors(Corrected, ExamplePlatform(), PrimaryMaster(), OneSectorWrite(),
        OneRunEnv(), words, [CleanIrq()]);
      && r.Continue? && r.value.status == Success
      && r.value.sectorsDone == Some(1)
      && r.value.device.transfer == CurrentTransfer(Free, false, None)
  {
    ExamplePlatformValid();
    OneRunValid();
    assert CleanCompletion(CleanIrq());
    CorrectedAsyncRequestCompletes(ExamplePlatform(), PrimaryMaster(), OneSectorWrite(), OneRunEnv(), words, CleanIrq());
  }

  /** As written, the table for the same request is built and handed over without complaint. */
  lemma OneSectorAsWrittenPrepared()
    ensures var regs := PrimaryMaster().regs.(noInterrupt := SuppressionFor(true));
      var prep := PrepareDmaTransfer(AsWritten, ExampleDma(), ExampleLayout(), regs,
        PrimaryMaster().transfer, OneRunEnv(), 1, true);
      prep.Prepared? && prep.status == Success
  {
    OneRunValid();
    OneRunTable(AsWritten);
  }

  /** ... yet the handler then stops on the compare-and-swap, because the record never left `Free`. */
  lemma OneSectorAsyncWriteAsWritten(words: seq<bv16>, later: seq<IrqObservation>)
    ensures AtaReadWriteSectors(AsWritten, ExamplePlatform(), PrimaryMaster(), OneSectorWrite(),
        OneRunEnv(), words, [CleanIrq()] + later) == Halted(CompareExchangeFailed)
  {
    ExamplePlatformValid();
    OneSectorAsWrittenPrepared();
    OneSectorFacts();
    AsWrittenAsyncRequestHalts(ExamplePlatform(), PrimaryMaster(), OneSectorWrite(), OneRunEnv(), words, CleanIrq(), later);
  }

  lemma OneSectorFacts()
    ensures CleanCompletion(CleanIrq())
    ensures Rejection(OneSectorWrite()).None? && OneSectorWrite().asynchronous
    ensures OneRunEnv().Valid() && PrimaryMaster().transfer.state == Free
  {
  }

  /** An interrupt without the DMA-IRQ bit is another device's: `FALSE`, the record as it was. */
  lemma ForeignInterruptIgnored(rev: Revision)
    ensures var r := DmaInterrupt(rev, ExampleLayout(), PrimaryMaster(), IrqObservation(0, SREG_DRDY));
      r.Continue? && !r.value.handled && r.value.transfer == PrimaryMaster().transfer
  {
  }
}
