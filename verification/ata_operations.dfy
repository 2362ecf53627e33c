/**
 The driver's entry points: `AtaInitialize` (address resolution, the
 IDENTIFY probe, the transfer record and the interrupt line),
 `AtaReadWriteSectors` (parameter checks, register programming, the
 polled path and the DMA path) and `_AtaDmaInterrupt`. Values the hardware
 answers with and the collaborators' results are inputs; what the driver
 does to the outside world is the returned trace.
 */
module AtaOperations {
  import opened AtaTypes
  import opened AtaRegisters
  import opened AtaPrdt
  import opened AtaTransfer
  import opened AtaDma

  /** `ATA_DEFAULT_IRQ_NO`: the legacy IRQ line of the primary channel. */
  const DEFAULT_IRQ: nat := 14

  /** `BooleanToInteger(SecondaryChannel)`. */
  function ChannelIndex(secondary: bool): nat {
    if secondary then 1 else 0
  }

  /** The device extension (`ATA_DEVICE`). */
  datatype AtaDevice = AtaDevice(
    regs: DeviceRegisters, slave: bool, totalSectors: Qword,
    transfer: CurrentTransfer, initialized: bool)

  /**
   What is fixed for one build of the driver: the register offsets, the DMA
   constants and the two legacy (base, control) address pairs, one per channel.
   */
  datatype Platform = Platform(
    layout: RegisterLayout, dma: DmaConfig, fixedBase: seq<Dword>, fixedControl: seq<Dword>)
  {
    predicate Valid() {
      layout.Valid() && dma.Valid() && |fixedBase| == 2 && |fixedControl| == 2
    }
  }

  // ---------------------------------------------------------------------------
  // Bring-up

  /** The I/O-space address fields of the six BARs of the controller's PCI header. */
  datatype PciHeader = PciHeader(bars: seq<Dword>)
  {
    predicate Valid() {
      |bars| == 6
    }
  }

  /** The three addresses derived from the BARs, each computed in a `DWORD`. */
  datatype BarAddresses = BarAddresses(base: Dword, control: Dword, bus: Dword)

  /**
   Base and control come from BARs `2c` and `2c + 1` of channel `c`, the
   bus-master block from BAR 4, 8 ports further on for the secondary channel.
   */
  function ReadBars(pci: PciHeader, secondary: bool): BarAddresses
    requires pci.Valid()
  {
    var c := ChannelIndex(secondary);
    BarAddresses(
      ToDword(pci.bars[2 * c] as int * 4),
      ToDword(pci.bars[2 * c + 1] as int * 4),
      ToDword(pci.bars[4] as int * 4 + 8 * c))
  }

  /** The device's I/O bases and whether they are the fixed legacy ones. */
  datatype Resolution = Resolution(regs: DeviceRegisters, legacy: bool)

  predicate AddressesInRange(a: BarAddresses) {
    a.base <= MAX_WORD && a.control <= MAX_WORD && a.bus <= MAX_WORD
  }

  /**
   The address checks and choices of `AtaInitialize`: every address must fit
   a port number, and base and control are either both absent (legacy,
   both fixed) or both present (both from the BARs, control 2 further on).
   */
  function ResolveAddresses(p: Platform, a: BarAddresses, secondary: bool): (r: Checked<Resolution>)
    requires p.Valid()
    ensures !r.Blocked?
    ensures r.Halted? <==> !AddressesInRange(a) || (a.base == 0) != (a.control == 0)
    ensures r.Halted? ==> (r.fault == PortOutOfRange <==> !AddressesInRange(a))
    ensures r.Halted? ==> (r.fault == PortOutOfRange || r.fault == MixedAddressing)
    ensures r.Continue? ==>
      && (r.value.legacy <==> a.base == 0 && a.control == 0)
      && r.value.regs.busMasterBase == a.bus
      && r.value.regs.noInterrupt == DCTRL_NIEN
    ensures r.Continue? && r.value.legacy ==>
      && r.value.regs.baseRegister == ToWord(p.fixedBase[ChannelIndex(secondary)])
      && r.value.regs.controlBase == ToWord(p.fixedControl[ChannelIndex(secondary)])
    ensures r.Continue? && !r.value.legacy ==>
      && r.value.regs.baseRegister == a.base
      && r.value.regs.controlBase == ToWord(a.control + 2)
  {
    if !AddressesInRange(a) then Halted(PortOutOfRange)
    else
      var legacy := a.base == 0 && a.control == 0;
      if !legacy && (a.base == 0 || a.control == 0) then Halted(MixedAddressing)
      else
        var c := ChannelIndex(secondary);
        var base := ToWord(if a.base != 0 then a.base else p.fixedBase[c]);
        var control := ToWord(if a.control != 0 then a.control + 2 else p.fixedControl[c]);
        Continue(Resolution(DeviceRegisters(base, control, ToWord(a.bus), DCTRL_NIEN), legacy))
  }

  /** The drive's answers during bring-up: status bytes, then the IDENTIFY data that matters. */
  datatype ProbeAnswers = ProbeAnswers(
    statusAfterIdentify: bv8,   // the first Status read after the command
    poll: seq<bv8>,             // the Status bytes the wait loop then reads, in order
    supportsLba48: bool,        // `identify.Features.SupportLba48`
    address48Bit: Qword)        // `identify.Address48Bit`

  /** The results of `ExEventInit` and `IoRegisterInterrupt`. */
  datatype Services = Services(eventInit: Status, registerInterrupt: Status)

  /** How the interrupt line was registered. */
  datatype InterruptLine = LegacyIrq(irq: nat) | PciRouted

  datatype InitOutcome = InitOutcome(status: Status, device: AtaDevice, line: Option<InterruptLine>, trace: Trace)

  /** A Status byte that ends the IDENTIFY wait loop: an error, or not busy with data requested. */
  predicate EndsPoll(s: bv8) {
    FlagOn(s, SREG_ERR) || (!FlagOn(s, SREG_BUSY) && FlagOn(s, SREG_DRQ))
  }

  /** Where the wait loop stops: the first byte that ends it, if there is one. */
  function PollStop(statuses: seq<bv8>): (r: Option<nat>)
    ensures r.Some? ==> r.value < |statuses| && EndsPoll(statuses[r.value])
    ensures r.Some? ==> forall j :: 0 <= j < r.value ==> !EndsPoll(statuses[j])
    ensures r.None? ==> forall j :: 0 <= j < |statuses| ==> !EndsPoll(statuses[j])
  {
    if |statuses| == 0 then None
    else if EndsPoll(statuses[0]) then Some(0)
    else
      match PollStop(statuses[1..])
      case None =>
        assert forall j :: 1 <= j < |statuses| ==> statuses[j] == statuses[1..][j - 1];
        None
      case Some(k) =>
        assert forall j :: 1 <= j < |statuses| ==> statuses[j] == statuses[1..][j - 1];
        Some(k + 1)
  }

  /** `t` repeated `n` times. */
  function Repeat(t: Trace, n: nat): (r: Trace)
    ensures |r| == n * |t|
  {
    if n == 0 then [] else t + Repeat(t, n - 1)
  }

  /** A one-event trace repeated `n` times is `n` copies of that event. */
  lemma {:induction false} RepeatOne(e: Event, n: nat)
    ensures forall i :: 0 <= i < n ==> Repeat([e], n)[i] == e
  {
    if n > 0 {
      RepeatOne(e, n - 1);
      assert forall i :: 1 <= i < n ==> Repeat([e], n)[i] == Repeat([e], n - 1)[i - 1];
    }
  }

  /**
   Bring-up up to the first Status read: interrupts off, select, interrupts
   off, ten settling reads of Alternate Status, IDENTIFY, ten more, Status.
   */
  function IdentifyTrace(rev: Revision, L: RegisterLayout, regs: DeviceRegisters, slave: bool): (t: Trace)
    requires L.Valid()
    ensures |t| == 25
    ensures t[0] == Out8(ControlPort(L, regs), regs.noInterrupt)
    ensures t[1] == SelectDevice(L, regs, slave)[0] && t[2] == t[0]
    ensures forall i :: 3 <= i < 13 || 14 <= i < 24 ==> t[i] == In8(ReadPort(rev, L, regs, L.alternateStatus))
    ensures t[13] == Out8(WritePort(L, regs, L.command), CMD_IDENTIFY)
    ensures t[24] == In8(ReadPort(rev, L, regs, L.status))
  {
    var settleRead := In8(ReadPort(rev, L, regs, L.alternateStatus));
    var settle := Repeat(ReadRegister(rev, L, regs, L.alternateStatus), 10);
    assert settle == Repeat([settleRead], 10);
    RepeatOne(settleRead, 10);
    var head := WriteRegister(L, regs, L.deviceControl, regs.noInterrupt)
      + SelectDevice(L, regs, slave)
      + WriteRegister(L, regs, L.deviceControl, regs.noInterrupt);
    var t := head + settle + WriteRegister(L, regs, L.command, CMD_IDENTIFY) + settle
      + ReadRegister(rev, L, regs, L.status);
    assert forall i :: 3 <= i < 13 ==> t[i] == settle[i - 3];
    assert forall i :: 14 <= i < 24 ==> t[i] == settle[i - 14];
    t
  }

  /** The legacy IRQ number of a channel, `ATA_DEFAULT_IRQ_NO + channel`. */
  function LegacyLine(secondary: bool): (line: InterruptLine)
    ensures line.LegacyIrq? && line.irq == (if secondary then 15 else 14)
  {
    LegacyIrq(DEFAULT_IRQ + ChannelIndex(secondary))
  }

  /**
   `AtaInitialize` after the addresses are chosen: the probe, the
   IDENTIFY data, the transfer record, the interrupt line and the final
   stop of the DMA engine.
   */
  function Probe(
    rev: Revision, p: Platform, legacy: bool, secondary: bool,
    dev: AtaDevice, drive: ProbeAnswers, svc: Services): (r: Checked<InitOutcome>)
    requires p.Valid()
    ensures r.Blocked? <==> drive.statusAfterIdentify != 0 && PollStop(drive.poll).None?
    ensures !r.Halted?
    ensures r.Continue? ==>
      |r.value.trace| > 0 && r.value.trace[0] == Out8(ControlPort(p.layout, dev.regs), dev.regs.noInterrupt)
    ensures r.Continue? ==> r.value.device.regs == dev.regs && r.value.device.slave == dev.slave
    ensures drive.statusAfterIdentify == 0 ==>
      r == Continue(InitOutcome(DeviceDoesNotExist, dev, None, IdentifyTrace(rev, p.layout, dev.regs, dev.slave)))
    ensures r.Continue? && drive.statusAfterIdentify != 0 && FlagOn(drive.poll[PollStop(drive.poll).value], SREG_ERR) ==>
      r.value.status == DeviceNotSupported
    ensures r.Continue? && r.value.status == Success ==>
      && drive.statusAfterIdentify != 0
      && !FlagOn(drive.poll[PollStop(drive.poll).value], SREG_ERR)
      && drive.supportsLba48
      && r.value.device.initialized
      && r.value.device.totalSectors == drive.address48Bit
      && r.value.device.transfer == dev.transfer.(state := Free, signaled := false)
      && r.value.line == Some(if legacy then LegacyLine(secondary) else PciRouted)
      && r.value.trace[|r.value.trace| - 1] == Out8(WritePort(p.layout, dev.regs, p.layout.busCommand), 0)
    ensures r.Continue? && r.value.status != Success ==>
      r.value.device.initialized == dev.initialized && r.value.line.None?
    ensures r.Continue? && !drive.supportsLba48 ==> r.value.status != Success
    ensures drive.statusAfterIdentify != 0 && PollStop(drive.poll).Some? ==>
      !FlagOn(drive.poll[PollStop(drive.poll).value], SREG_ERR) && !drive.supportsLba48 ==>
        r.Continue? && r.value.status == DeviceNotSupported && r.value.line.None?
  {
    var L := p.layout;
    var regs := dev.regs;
    var identify := IdentifyTrace(rev, L, regs, dev.slave);
    if drive.statusAfterIdentify == 0 then
      Continue(InitOutcome(DeviceDoesNotExist, dev, None, identify))
    else
      match PollStop(drive.poll)
      case None => Blocked
      case Some(k) =>
        var polled := identify + Repeat(ReadRegister(rev, L, regs, L.status), k + 1);
        if FlagOn(drive.poll[k], SREG_ERR) then
          Continue(InitOutcome(DeviceNotSupported, dev, None, polled))
        else
          var read := polled
            + WriteRegister(L, regs, L.deviceControl, regs.noInterrupt)
            + ReadBuffer(L, regs, p.dma.sectorSize / 2);
          if !drive.supportsLba48 then
            Continue(InitOutcome(DeviceNotSupported, dev, None, read))
          else
            var sized := dev.(totalSectors := drive.address48Bit, transfer := dev.transfer.(state := Free));
            if svc.eventInit != Success then
              OutcomeWith(svc.eventInit, sized, read)
            else
              var ready := sized.(transfer := sized.transfer.(signaled := false));
              if svc.registerInterrupt != Success then
                OutcomeWith(svc.registerInterrupt, ready, read)
              else
                var line := if legacy then LegacyLine(secondary) else PciRouted;
                var stopped := read + WriteRegister(L, regs, L.busCommand, 0);
                Continue(InitOutcome(Success, ready.(initialized := true), Some(line), stopped))
  }

  /** A collaborator's failure status, returned as it is. */
  function OutcomeWith(s: Status, dev: AtaDevice, t: Trace): (r: Checked<InitOutcome>)
    requires s != Success
    ensures r.Continue? && r.value.status == s && r.value.line.None?
  {
    Continue(InitOutcome(s, dev, None, t))
  }

  /**
   `AtaInitialize(PciDevice, SecondaryChannel, Slave, Device)`; `pci` is
   `None` for a NULL description and `deviceGiven` is false for a NULL
   device object.
   */
  function AtaInitialize(
    rev: Revision, p: Platform, pci: Option<PciHeader>, secondary: bool, slave: bool,
    deviceGiven: bool, ext: AtaDevice, drive: ProbeAnswers, svc: Services): (r: Checked<InitOutcome>)
    requires p.Valid()
    requires pci.Some? ==> pci.value.Valid()
    ensures pci.None? ==> r == Continue(InitOutcome(InvalidParameter1, ext, None, []))
    ensures pci.Some? && !deviceGiven ==> r == Continue(InitOutcome(InvalidParameter4, ext, None, []))
    ensures pci.Some? && deviceGiven ==>
      var res := ResolveAddresses(p, ReadBars(pci.value, secondary), secondary);
      && (res.Halted? ==> r == Halted(res.fault))
      && (res.Continue? ==>
            r == Probe(rev, p, res.value.legacy, secondary,
                       ext.(regs := res.value.regs, slave := slave), drive, svc))
  {
    if pci.None? then Continue(InitOutcome(InvalidParameter1, ext, None, []))
    else if !deviceGiven then Continue(InitOutcome(InvalidParameter4, ext, None, []))
    else
      match ResolveAddresses(p, ReadBars(pci.value, secondary), secondary)
      case Halted(f) => Halted(f)
      case Blocked => Blocked
      case Continue(res) => Probe(rev, p, res.legacy, secondary, ext.(regs := res.regs, slave := slave), drive, svc)
  }

  /**
   A device that comes up has its registers either all legacy or all from
   the BARs, interrupts suppressed, a `Free` and unsignalled transfer record
   whose table pointer bring-up leaves as it found it, the IRQ line of its
   channel when legacy, and a stopped DMA engine.
   */
  lemma InitializedDevice(
    rev: Revision, p: Platform, pci: PciHeader, secondary: bool, slave: bool,
    ext: AtaDevice, drive: ProbeAnswers, svc: Services)
    requires p.Valid() && pci.Valid()
    requires AtaInitialize(rev, p, Some(pci), secondary, slave, true, ext, drive, svc).Continue?
    requires AtaInitialize(rev, p, Some(pci), secondary, slave, true, ext, drive, svc).value.status == Success
    ensures var o := AtaInitialize(rev, p, Some(pci), secondary, slave, true, ext, drive, svc).value;
      var a := ReadBars(pci, secondary);
      && o.device.initialized && o.device.slave == slave
      && o.device.regs.noInterrupt == DCTRL_NIEN
      && o.device.transfer.state == Free && !o.device.transfer.signaled
      && o.device.totalSectors == drive.address48Bit
      && (o.line == Some(LegacyLine(secondary)) <==> a.base == 0 && a.control == 0)
      && (a.base != 0 ==> o.device.regs.baseRegister == a.base && o.device.regs.controlBase == ToWord(a.control + 2))
      && (a.base == 0 ==>
            && o.device.regs.baseRegister == ToWord(p.fixedBase[ChannelIndex(secondary)])
            && o.device.regs.controlBase == ToWord(p.fixedControl[ChannelIndex(secondary)]))
      && o.trace[0] == Out8(ControlPort(p.layout, o.device.regs), DCTRL_NIEN)
      && o.trace[|o.trace| - 1] == Out8(WritePort(p.layout, o.device.regs, p.layout.busCommand), 0)
      && o.device.transfer.prdt == ext.transfer.prdt
      && (ext.transfer.prdt.None? ==> o.device.transfer == InitialTransfer())
  {
  }

  // ---------------------------------------------------------------------------
  // The interrupt handler

  /** What the hardware shows the handler: Bus Status, then Status. */
  datatype IrqObservation = IrqObservation(busStatus: bv8, deviceStatus: bv8)

  /** `TRUE` when the interrupt was the device's, the record after it, and the trace. */
  datatype IrqOutcome = IrqOutcome(handled: bool, transfer: CurrentTransfer, trace: Trace)

  /** A completion: the DMA-IRQ bit set and neither a drive fault nor an error reported. */
  predicate CleanCompletion(obs: IrqObservation) {
    FlagOn(obs.busStatus, BUS_DMA_IRQ) && !FlagOn(obs.deviceStatus, SREG_DF) && !FlagOn(obs.deviceStatus, SREG_ERR)
  }

  /**
   `_AtaDmaInterrupt`. Without the DMA-IRQ bit the interrupt belongs to
   another device: `FALSE`, the record untouched, nothing written but the
   selection. A drive fault or an error status stops the handler. A clean
   completion stops the engine, moves `InProgress` to `Finished` by the
   compare-and-swap, signals, acknowledges the IRQ bit and returns `TRUE`.
   */
  function DmaInterrupt(rev: Revision, L: RegisterLayout, dev: AtaDevice, obs: IrqObservation): (r: Checked<IrqOutcome>)
    requires L.Valid()
    ensures !r.Blocked?
    ensures r.Continue? ==> Quiet(r.value.trace)
    ensures r.Continue? ==> (r.value.handled <==> FlagOn(obs.busStatus, BUS_DMA_IRQ))
    ensures !FlagOn(obs.busStatus, BUS_DMA_IRQ) ==>
      && r.Continue?
      && r.value.transfer == dev.transfer
      && SignalEvent !in r.value.trace
      && |r.value.trace| > 0
      && r.value.trace[0] == SelectDevice(L, dev.regs, dev.slave)[0]
      && forall i :: 1 <= i < |r.value.trace| ==> r.value.trace[i].In8?
    ensures FlagOn(obs.busStatus, BUS_DMA_IRQ) && FlagOn(obs.deviceStatus, SREG_DF) ==> r == Halted(DriveFault)
    ensures FlagOn(obs.busStatus, BUS_DMA_IRQ) && !FlagOn(obs.deviceStatus, SREG_DF) && FlagOn(obs.deviceStatus, SREG_ERR) ==>
      r == Halted(DmaCommandFailed)
    ensures CleanCompletion(obs) ==>
      (r.Continue? <==> dev.transfer.state == InProgress) && (r.Halted? ==> r.fault == CompareExchangeFailed)
    ensures r.Continue? && r.value.handled ==>
      && dev.transfer.state == InProgress
      && r.value.transfer == dev.transfer.(state := Finished, signaled := true)
      && var n := |r.value.trace|;
         && n >= 3
         && r.value.trace[n - 3] == Out8(WritePort(L, dev.regs, L.busCommand), 0)
         && r.value.trace[n - 2] == SignalEvent
         && r.value.trace[n - 1] == Out8(WritePort(L, dev.regs, L.busStatus), BUS_DMA_IRQ)
  {
    var regs := dev.regs;
    var select := SelectDevice(L, regs, dev.slave);
    var bus := select + ReadRegister(rev, L, regs, L.busStatus);
    if !FlagOn(obs.busStatus, BUS_DMA_IRQ) then
      Continue(IrqOutcome(false, dev.transfer, bus))
    else if FlagOn(obs.deviceStatus, SREG_DF) then
      Halted(DriveFault)
    else if FlagOn(obs.deviceStatus, SREG_ERR) then
      Halted(DmaCommandFailed)
    else
      match Apply(rev, dev.transfer, Complete)
      case Halted(f) => Halted(f)
      case Blocked => Blocked
      case Continue(t) =>
        var stop := WriteRegister(L, regs, L.busCommand, 0);
        var ack := WriteRegister(L, regs, L.busStatus, BUS_DMA_IRQ);
        var trace := bus + ReadRegister(rev, L, regs, L.status) + stop + [SignalEvent] + ack;
        Continue(IrqOutcome(true, t, trace))
  }

  /** The record and trace after the interrupts taken while the submitter waits. */
  datatype Delivered = Delivered(transfer: CurrentTransfer, trace: Trace)

  /** The handler run once per observation, in order, on the device's record. */
  function Deliver(rev: Revision, L: RegisterLayout, dev: AtaDevice, irqs: seq<IrqObservation>): (r: Checked<Delivered>)
    requires L.Valid()
    ensures !r.Blocked?
    ensures r.Continue? ==> Quiet(r.value.trace) && r.value.transfer.prdt == dev.transfer.prdt
    ensures r.Continue? && dev.transfer.state != InProgress ==> r.value.transfer == dev.transfer
    decreases |irqs|
  {
    if |irqs| == 0 then Continue(Delivered(dev.transfer, []))
    else
      match DmaInterrupt(rev, L, dev, irqs[0])
      case Halted(f) => Halted(f)
      case Blocked => Blocked
      case Continue(o) =>
        match Deliver(rev, L, dev.(transfer := o.transfer), irqs[1..])
        case Halted(f) => Halted(f)
        case Blocked => Blocked
        case Continue(d) =>
          QuietAppend(o.trace, d.trace);
          Continue(Delivered(d.transfer, o.trace + d.trace))
  }

  // ---------------------------------------------------------------------------
  // Reading and writing sectors

  /**
   The arguments of `AtaReadWriteSectors`; the `...Given` fields are false
   for NULL pointers.
   */
  datatype Request = Request(
    deviceGiven: bool, sectorIndex: Qword, sectorCount: Word,
    bufferGiven: bool, countOutGiven: bool, asynchronous: bool, write: bool)

  /** The status, the device afterwards, `*SectorsReadWriten` when it is set, and the trace. */
  datatype RwOutcome = RwOutcome(status: Status, device: AtaDevice, sectorsDone: Option<Word>, trace: Trace)

  /** The parameter check, in the order the source makes it. */
  function Rejection(req: Request): (s: Option<Status>)
    ensures s.None? <==> req.deviceGiven && req.sectorCount != 0 && req.bufferGiven && req.countOutGiven
    ensures !req.deviceGiven ==> s == Some(InvalidParameter1)
    ensures req.deviceGiven && req.sectorCount == 0 ==> s == Some(InvalidParameter3)
    ensures req.deviceGiven && req.sectorCount != 0 && !req.bufferGiven ==> s == Some(InvalidParameter4)
    ensures req.deviceGiven && req.sectorCount != 0 && req.bufferGiven && !req.countOutGiven ==> s == Some(InvalidParameter5)
  {
    if !req.deviceGiven then Some(InvalidParameter1)
    else if req.sectorCount == 0 then Some(InvalidParameter3)
    else if !req.bufferGiven then Some(InvalidParameter4)
    else if !req.countOutGiven then Some(InvalidParameter5)
    else None
  }

  /** The command byte for a request. */
  function CommandFor(asynchronous: bool, write: bool): (cmd: bv8)
    ensures cmd in {CMD_READ_SECTORS_EXT, CMD_READ_DMA_EXT, CMD_WRITE_SECTORS_EXT, CMD_WRITE_DMA_EXT}
    ensures (cmd == CMD_READ_DMA_EXT || cmd == CMD_WRITE_DMA_EXT) <==> asynchronous
    ensures (cmd == CMD_WRITE_SECTORS_EXT || cmd == CMD_WRITE_DMA_EXT) <==> write
  {
    if write then (if asynchronous then CMD_WRITE_DMA_EXT else CMD_WRITE_SECTORS_EXT)
    else (if asynchronous then CMD_READ_DMA_EXT else CMD_READ_SECTORS_EXT)
  }

  /** The write of the command byte to the Command register. */
  function CommandWrite(L: RegisterLayout, regs: DeviceRegisters, asynchronous: bool, write: bool): Event
    requires L.Valid()
  {
    Out8(WritePort(L, regs, L.command), CommandFor(asynchronous, write))
  }

  /** The write that starts the engine: the direction bits and START, to Bus Command. */
  function StartWrite(L: RegisterLayout, regs: DeviceRegisters, write: bool): Event
    requires L.Valid()
  {
    Out8(WritePort(L, regs, L.busCommand), DirectionBits(write) | BUS_CMD_START)
  }

  /** `NoInterrupt`: interrupts are wanted only for an asynchronous transfer. */
  function SuppressionFor(asynchronous: bool): (ni: bv8)
    ensures ni == 0 <==> asynchronous
    ensures !asynchronous ==> FlagOn(ni, DCTRL_NIEN)
  {
    if asynchronous then 0 else DCTRL_NIEN
  }

  /** Words per sector, `SECTOR_SIZE / sizeof(WORD)`. */
  function WordsPerSector(p: Platform): nat
    requires p.Valid()
  {
    p.dma.sectorSize / 2
  }

  /**
   Steps 1 to 4: wait idle, select, wait idle and ready, write the
   suppression byte, write the address and count.
   */
  function SetupTrace(L: RegisterLayout, regs: DeviceRegisters, slave: bool, lba: Qword, count: Word): (t: Trace)
    requires L.Valid()
    ensures Quiet(t)
  {
    WriteRegistersBytes(L, regs, IOParameterWrites(L, lba, count));
    var params := WriteIOParameters(L, regs, lba, count);
    var head := [Await(NotBusy)] + SelectDevice(L, regs, slave) + [Await(NotBusy), Await(DeviceReady)]
      + WriteRegister(L, regs, L.deviceControl, regs.noInterrupt);
    assert Quiet(params);
    QuietAppend(head, params);
    head + params
  }

  /** The data-port accesses of the polled data phase, one per word. */
  function PolledMoves(p: Platform, regs: DeviceRegisters, req: Request, words: seq<bv16>): seq<Event>
    requires p.Valid()
    requires req.write ==> req.sectorCount * WordsPerSector(p) <= |words|
  {
    var n := req.sectorCount * WordsPerSector(p);
    if req.write then WordWrites(words[..n], DataPort(p.layout, regs)) else WordReads(n, DataPort(p.layout, regs))
  }

  /**
   From position `from` on, `t` is the polled data phase: the command byte,
   then one wait-and-move step per buffer word, and nothing after.
   */
  predicate Polled(p: Platform, regs: DeviceRegisters, req: Request, words: seq<bv16>, t: Trace, from: nat)
    requires p.Valid()
    requires req.write ==> req.sectorCount * WordsPerSector(p) <= |words|
  {
    && |t| == from + 1 + 3 * (req.sectorCount * WordsPerSector(p))
    && t[from] == CommandWrite(p.layout, regs, false, req.write)
    && Steps(t, from + 1, PolledMoves(p, regs, req, words))
  }

  /**
   From position `from` on: the PRDT register receives the table address,
   then the DMA command is written and the engine started right after it.
   */
  predicate Issued(L: RegisterLayout, regs: DeviceRegisters, write: bool, table: nat, t: Trace, from: nat)
    requires L.Valid()
  {
    && table <= MAX_DWORD
    && exists k :: from <= k <= |t| && PrdtWrite(L, regs, table) in t[from..k] && IssuedAt(L, regs, write, t, k)
  }

  /** At position `k`, the DMA command is written and the engine started right after it. */
  predicate IssuedAt(L: RegisterLayout, regs: DeviceRegisters, write: bool, t: Trace, k: nat)
    requires L.Valid()
  {
    && k + 2 <= |t|
    && t[k] == CommandWrite(L, regs, true, write)
    && t[k + 1] == StartWrite(L, regs, write)
  }

  /** The polled data phase: the buffer, word by word, to or from the data port. */
  function PolledTrace(p: Platform, regs: DeviceRegisters, req: Request, words: seq<bv16>): (t: Trace)
    requires p.Valid()
    requires req.write ==> req.sectorCount * WordsPerSector(p) <= |words|
    ensures Quiet(t)
    ensures |t| == 3 * (req.sectorCount * WordsPerSector(p))
    ensures Steps(t, 0, PolledMoves(p, regs, req, words))
  {
    var n := req.sectorCount * WordsPerSector(p);
    if req.write then
      WriteBufferMovesWords(p.layout, regs, words, n);
      WriteBuffer(p.layout, regs, words, n)
    else
      ReadBufferMovesWords(p.layout, regs, n);
      ReadBuffer(p.layout, regs, n)
  }

  /**
   `AtaReadWriteSectors`. A rejected request touches nothing. Otherwise the
   suppression byte is `0` exactly for an asynchronous request; a polled
   request moves the buffer and leaves the record alone; an asynchronous
   one prepares the table, issues the DMA command, starts the engine, waits
   for the handler (`irqs` are the interrupts taken meanwhile) and frees
   the table. Success reports `SectorCount` sectors done.
   */
  function AtaReadWriteSectors(
    rev: Revision, p: Platform, dev: AtaDevice, req: Request,
    env: DmaEnv, words: seq<bv16>, irqs: seq<IrqObservation>): (r: Checked<RwOutcome>)
    requires p.Valid() && env.Valid()
    requires req.write && !req.asynchronous ==> req.sectorCount * WordsPerSector(p) <= |words|
    ensures Rejection(req).Some? ==> r == Continue(RwOutcome(Rejection(req).value, dev, None, []))
    ensures r.Continue? && r.value.status == Success ==>
      Rejection(req).None? && r.value.sectorsDone == Some(req.sectorCount)
    ensures r.Continue? && r.value.status != Success ==> r.value.sectorsDone.None?
    ensures Rejection(req).None? && r.Continue? ==>
      && r.value.device.regs == dev.regs.(noInterrupt := SuppressionFor(req.asynchronous))
      && r.value.device.slave == dev.slave
    ensures Rejection(req).None? && !req.asynchronous ==>
      && r.Continue? && r.value.status == Success
      && r.value.device.transfer == dev.transfer
      && Quiet(r.value.trace)
    ensures Rejection(req).None? && req.asynchronous && r.Continue? && r.value.status == Success ==>
      && r.value.device.transfer.prdt.None?
      && Balanced(r.value.trace, PrdTableMemory)
      && Balanced(r.value.trace, MdlBuffer)
    ensures rev == AsWritten && req.asynchronous && dev.transfer.state == Free ==>
      !(r.Continue? && r.value.status == Success)
    ensures Rejection(req).None? && r.Continue? ==>
      var regs := dev.regs.(noInterrupt := SuppressionFor(req.asynchronous));
      var setup := SetupTrace(p.layout, regs, dev.slave, req.sectorIndex, req.sectorCount);
      && |setup| <= |r.value.trace| && r.value.trace[..|setup|] == setup
      && (!req.asynchronous ==> Polled(p, regs, req, words, r.value.trace, |setup|))
      && (req.asynchronous && r.value.status != Success ==> NoPortAccess(r.value.trace[|setup|..]))
      && (req.asynchronous && r.value.status == Success ==>
        Issued(p.layout, regs, req.write, env.tablePhysical, r.value.trace, |setup|))
  {
    match Rejection(req)
    case Some(s) => Continue(RwOutcome(s, dev, None, []))
    case None =>
      var L := p.layout;
      var regs := dev.regs.(noInterrupt := SuppressionFor(req.asynchronous));
      var setup := SetupTrace(L, regs, dev.slave, req.sectorIndex, req.sectorCount);
      var armed := dev.(regs := regs);
      if !req.asynchronous then
        Continue(RwOutcome(Success, armed, Some(req.sectorCount), PolledRequest(p, regs, req, words, setup)))
      else
        DmaRequest(rev, p, armed, req, env, irqs, setup)
  }

  /** The synchronous part of `AtaReadWriteSectors`, after the parameters: the command, then the buffer. */
  function PolledRequest(p: Platform, regs: DeviceRegisters, req: Request, words: seq<bv16>, setup: Trace): (t: Trace)
    requires p.Valid() && Quiet(setup)
    requires req.write ==> req.sectorCount * WordsPerSector(p) <= |words|
    ensures Quiet(t)
    ensures |setup| <= |t| && t[..|setup|] == setup
    ensures Polled(p, regs, req, words, t, |setup|)
  {
    var command := WriteRegister(p.layout, regs, p.layout.command, CommandFor(false, req.write));
    var data := PolledTrace(p, regs, req, words);
    QuietAppend(setup, command);
    QuietAppend(setup + command, data);
    StepsShift(setup + command, data, 0, PolledMoves(p, regs, req, words));
    assert (setup + command + data)[..|setup|] == setup;
    setup + command + data
  }

  /**
   The asynchronous part of `AtaReadWriteSectors`, after the parameters are
   written. A failed preparation returns its status; otherwise the command,
   the start of the engine, the interrupts, the wait and the submitter's
   checks before it frees the table.
   */
  function DmaRequest(
    rev: Revision, p: Platform, dev: AtaDevice, req: Request,
    env: DmaEnv, irqs: seq<IrqObservation>, setup: Trace): (r: Checked<RwOutcome>)
    requires p.Valid() && env.Valid() && req.sectorCount > 0
    requires Quiet(setup)
    ensures r.Continue? ==> r.value.device.regs == dev.regs && r.value.device.slave == dev.slave
    ensures r.Continue? && r.value.status != Success ==> r.value.sectorsDone.None?
    ensures r.Continue? && r.value.status == Success ==>
      && r.value.sectorsDone == Some(req.sectorCount)
      && r.value.device.transfer.prdt.None?
      && Balanced(r.value.trace, PrdTableMemory)
      && Balanced(r.value.trace, MdlBuffer)
    ensures rev == AsWritten && dev.transfer.state == Free ==> !(r.Continue? && r.value.status == Success)
    ensures r.Continue? ==> |setup| <= |r.value.trace| && r.value.trace[..|setup|] == setup
    ensures r.Continue? && r.value.status != Success ==> NoPortAccess(r.value.trace[|setup|..])
    ensures r.Continue? && r.value.status == Success ==>
      Issued(p.layout, dev.regs, req.write, env.tablePhysical, r.value.trace, |setup|)
  {
    match PrepareDmaTransfer(rev, p.dma, p.layout, dev.regs, dev.transfer, env, req.sectorCount, req.write)
    case PrepareHalted(f, _) => Halted(f)
    case Prepared(s, t, prepared) =>
      AfterPreparation(rev, p.layout, dev, req, env.tablePhysical, s, t, prepared, irqs, setup)
  }

  /** What follows `_AtaPrepareDmaTransfer` once it returned status `s`, record `t` and trace `prepared`. */
  function AfterPreparation(
    rev: Revision, L: RegisterLayout, dev: AtaDevice, req: Request, table: nat,
    s: Status, t: CurrentTransfer, prepared: Trace, irqs: seq<IrqObservation>, setup: Trace): (r: Checked<RwOutcome>)
    requires L.Valid() && Quiet(setup)
    requires s != Success ==> t == dev.transfer && NoPortAccess(prepared)
    requires s == Success ==>
      && 0 < table <= MAX_DWORD && PrdtWrite(L, dev.regs, table) in prepared
      && t.state == dev.transfer.state
      && Balanced(prepared, MdlBuffer)
      && Count(prepared, Acquire(PrdTableMemory)) == 1 && Count(prepared, Release(PrdTableMemory)) == 0
    ensures r.Continue? ==> r.value.device.regs == dev.regs && r.value.device.slave == dev.slave
    ensures r.Continue? && r.value.status != Success ==> r.value.status == s && r.value.sectorsDone.None?
    ensures r.Continue? && r.value.status == Success ==>
      && r.value.sectorsDone == Some(req.sectorCount)
      && r.value.device.transfer.prdt.None?
      && Balanced(r.value.trace, PrdTableMemory)
      && Balanced(r.value.trace, MdlBuffer)
    ensures rev == AsWritten && dev.transfer.state == Free ==> !(r.Continue? && r.value.status == Success)
    ensures r.Continue? ==> |setup| <= |r.value.trace| && r.value.trace[..|setup|] == setup
    ensures r.Continue? && r.value.status != Success ==> NoPortAccess(r.value.trace[|setup|..])
    ensures r.Continue? && r.value.status == Success ==>
      Issued(L, dev.regs, req.write, table, r.value.trace, |setup|)
  {
    if s != Success then
      assert (setup + prepared)[|setup|..] == prepared;
      Continue(RwOutcome(s, dev.(transfer := t), None, setup + prepared))
    else
      var r := Launch(rev, L, dev, req, t, irqs, setup, prepared);
      if r.Continue? then
        assert IssuedAt(L, dev.regs, req.write, r.value.trace, |setup| + |prepared|);
        r
      else r
  }

  /**
   The record is marked started, then the command goes out and the engine
   is started; then the completion and the freeing of the table. Success
   shows the command write and the Bus Command start right after the setup
   and the preparation.
   */
  function Launch(
    rev: Revision, L: RegisterLayout, dev: AtaDevice, req: Request, t: CurrentTransfer,
    irqs: seq<IrqObservation>, setup: Trace, prepared: Trace): (r: Checked<RwOutcome>)
    requires L.Valid() && Quiet(setup)
    requires Balanced(prepared, MdlBuffer)
    requires Count(prepared, Acquire(PrdTableMemory)) == 1 && Count(prepared, Release(PrdTableMemory)) == 0
    ensures r.Continue? ==>
      && r.value.status == Success
      && r.value.device.regs == dev.regs && r.value.device.slave == dev.slave
      && r.value.sectorsDone == Some(req.sectorCount)
      && r.value.device.transfer.prdt.None?
      && Balanced(r.value.trace, PrdTableMemory)
      && Balanced(r.value.trace, MdlBuffer)
    ensures r.Continue? ==>
      var k := |setup| + |prepared|;
      && k <= |r.value.trace|
      && r.value.trace[..|setup|] == setup
      && r.value.trace[|setup|..k] == prepared
      && IssuedAt(L, dev.regs, req.write, r.value.trace, k)
    ensures rev == AsWritten && t.state == Free ==> !r.Continue?
  {
    match Apply(rev, t, Start)
    case Halted(f) => Halted(f)
    case Blocked => Blocked
    case Continue(started) =>
      var command := WriteRegister(L, dev.regs, L.command, CommandFor(true, req.write));
      var start := WriteRegister(L, dev.regs, L.busCommand, DirectionBits(req.write) | BUS_CMD_START);
      match AwaitCompletion(rev, L, dev, started, irqs)
      case Halted(f) => Halted(f)
      case Blocked => Blocked
      case Continue(d) =>
        assert command + start == [CommandWrite(L, dev.regs, true, req.write), StartWrite(L, dev.regs, req.write)];
        var trace := LaunchTrace(setup, prepared, command + start, d.trace);
        Continue(RwOutcome(Success, dev.(transfer := d.transfer), Some(req.sectorCount), trace))
  }

  /** The trace of a launched request: the issue writes, the completion, and the table freed last. */
  function LaunchTrace(setup: Trace, prepared: Trace, issue: Trace, waited: Trace): (t: Trace)
    requires Quiet(setup) && Quiet(waited)
    requires |issue| == 2 && issue[0].Out8? && issue[1].Out8?
    requires Balanced(prepared, MdlBuffer)
    requires Count(prepared, Acquire(PrdTableMemory)) == 1 && Count(prepared, Release(PrdTableMemory)) == 0
    ensures Balanced(t, PrdTableMemory) && Balanced(t, MdlBuffer)
    ensures |setup| + |prepared| + 2 <= |t|
    ensures t[..|setup|] == setup && t[|setup|..|setup| + |prepared|] == prepared
    ensures t[|setup| + |prepared|] == issue[0] && t[|setup| + |prepared| + 1] == issue[1]
  {
    assert Quiet(issue);
    QuietAppend(issue, waited);
    DmaCounts(setup, prepared, issue + waited);
    var rest := issue + waited + [Release(PrdTableMemory)];
    Pieces(setup, prepared, rest);
    assert setup + prepared + rest == setup + prepared + (issue + waited) + [Release(PrdTableMemory)];
    setup + prepared + rest
  }

  /**
   From the start of the engine to the freeing of the table: the interrupts
   are taken, the submitter waits for the event and checks the state and the
   table before it lets the table go.
   */
  function AwaitCompletion(
    rev: Revision, L: RegisterLayout, dev: AtaDevice, t: CurrentTransfer,
    irqs: seq<IrqObservation>): (r: Checked<Delivered>)
    requires L.Valid()
    ensures r.Continue? ==> Quiet(r.value.trace) && r.value.transfer.prdt.None?
    ensures r.Continue? ==> t.prdt.Some?
    ensures rev == AsWritten && t.state == Free ==> !r.Continue?
  {
    match Deliver(rev, L, dev.(transfer := t), irqs)
    case Halted(f) => Halted(f)
    case Blocked => Blocked
    case Continue(d) =>
      match Apply(rev, d.transfer, WaitReady)
      case Halted(f) => Halted(f)
      case Blocked => Blocked
      case Continue(woken) =>
        match Apply(rev, woken, Reclaim)
        case Halted(f) => Halted(f)
        case Blocked => Blocked
        case Continue(done) =>
          QuietAppend(d.trace, [WaitEvent]);
          Continue(Delivered(done, d.trace + [WaitEvent]))
  }

  lemma DmaCounts(setup: Trace, prepared: Trace, after: Trace)
    requires Quiet(setup) && Quiet(after)
    requires Balanced(prepared, MdlBuffer)
    requires Count(prepared, Acquire(PrdTableMemory)) == 1 && Count(prepared, Release(PrdTableMemory)) == 0
    ensures Balanced(setup + prepared + after + [Release(PrdTableMemory)], PrdTableMemory)
    ensures Balanced(setup + prepared + after + [Release(PrdTableMemory)], MdlBuffer)
  {
    QuietAround(setup, prepared, after, PrdTableMemory);
    QuietAround(setup, prepared, after, MdlBuffer);
    var t := setup + prepared + after;
    CountAppend(t, [Release(PrdTableMemory)], Acquire(PrdTableMemory));
    CountAppend(t, [Release(PrdTableMemory)], Release(PrdTableMemory));
    CountAppend(t, [Release(PrdTableMemory)], Acquire(MdlBuffer));
    CountAppend(t, [Release(PrdTableMemory)], Release(MdlBuffer));
  }

  /** Corrected, one clean interrupt takes a started record through to idle. */
  lemma CorrectedCompletion(L: RegisterLayout, dev: AtaDevice, t: CurrentTransfer, obs: IrqObservation)
    requires L.Valid() && t.state == InProgress && !t.signaled && t.prdt.Some? && CleanCompletion(obs)
    ensures var r := AwaitCompletion(Corrected, L, dev, t, [obs]);
      r.Continue? && r.value.transfer == CurrentTransfer(Free, false, None)
  {
    var irq := DmaInterrupt(Corrected, L, dev.(transfer := t), obs);
    assert irq.Continue? && irq.value.transfer == t.(state := Finished, signaled := true);
    var handled := dev.(transfer := t).(transfer := irq.value.transfer);
    assert Deliver(Corrected, L, handled, []) == Continue(Delivered(irq.value.transfer, []));
    assert [obs][1..] == [];
    var d := Deliver(Corrected, L, dev.(transfer := t), [obs]);
    assert d.Continue? && d.value.transfer == t.(state := Finished, signaled := true);
  }

  /** As written, the first clean interrupt finds the record still `Free`. */
  lemma AsWrittenCompletion(
    L: RegisterLayout, dev: AtaDevice, t: CurrentTransfer, obs: IrqObservation, later: seq<IrqObservation>)
    requires L.Valid() && t.state == Free && CleanCompletion(obs)
    ensures AwaitCompletion(AsWritten, L, dev, t, [obs] + later) == Halted(CompareExchangeFailed)
  {
    assert DmaInterrupt(AsWritten, L, dev.(transfer := t), obs) == Halted(CompareExchangeFailed);
    assert ([obs] + later)[0] == obs;
  }

  /**
   Corrected, an asynchronous request on an idle device, whose buffer is
   described by valid pairs covering it, completes on one clean interrupt:
   success, `SectorCount` reported, and the record idle again with no table.
   */
  lemma CorrectedAsyncRequestCompletes(
    p: Platform, dev: AtaDevice, req: Request, env: DmaEnv, words: seq<bv16>, obs: IrqObservation)
    requires p.Valid() && env.Valid()
    requires Rejection(req).None? && req.asynchronous
    requires dev.transfer.state == Free && !dev.transfer.signaled
    requires env.mdl.MdlAllocated? && |env.mdl.pairs| > 0 && env.tableAllocated
    requires 0 < env.tablePhysical <= MAX_DWORD
    requires AllValid(p.dma, env.mdl.pairs)
    requires SumLengths(env.mdl.pairs) >= TransferBytes(p.dma, req.sectorCount)
    requires CleanCompletion(obs)
    ensures var r := AtaReadWriteSectors(Corrected, p, dev, req, env, words, [obs]);
      && r.Continue? && r.value.status == Success
      && r.value.sectorsDone == Some(req.sectorCount)
      && r.value.device.transfer == CurrentTransfer(Free, false, None)
  {
    var L := p.layout;
    var regs := dev.regs.(noInterrupt := SuppressionFor(true));
    var armed := dev.(regs := regs);
    var setup := SetupTrace(L, regs, dev.slave, req.sectorIndex, req.sectorCount);
    assert AtaReadWriteSectors(Corrected, p, dev, req, env, words, [obs])
        == DmaRequest(Corrected, p, armed, req, env, [obs], setup);
    CorrectedLaunchCompletes(p, armed, req, env, obs, setup);
  }

  /** The same, from the point where the parameters are written. */
  lemma CorrectedLaunchCompletes(
    p: Platform, dev: AtaDevice, req: Request, env: DmaEnv, obs: IrqObservation, setup: Trace)
    requires p.Valid() && env.Valid() && req.sectorCount > 0 && Quiet(setup)
    requires dev.transfer.state == Free && !dev.transfer.signaled
    requires env.mdl.MdlAllocated? && |env.mdl.pairs| > 0 && env.tableAllocated
    requires 0 < env.tablePhysical <= MAX_DWORD
    requires AllValid(p.dma, env.mdl.pairs)
    requires SumLengths(env.mdl.pairs) >= TransferBytes(p.dma, req.sectorCount)
    requires CleanCompletion(obs)
    ensures var r := DmaRequest(Corrected, p, dev, req, env, [obs], setup);
      && r.Continue? && r.value.status == Success
      && r.value.sectorsDone == Some(req.sectorCount)
      && r.value.device.transfer == CurrentTransfer(Free, false, None)
  {
    var L := p.layout;
    CorrectedPreparation(p.dma, L, dev.regs, dev.transfer, env, req.sectorCount, req.write);
    var prep := PrepareDmaTransfer(Corrected, p.dma, L, dev.regs, dev.transfer, env, req.sectorCount, req.write);
    assert DmaRequest(Corrected, p, dev, req, env, [obs], setup)
        == Launch(Corrected, L, dev, req, prep.transfer, [obs], setup, prep.trace);
    var started := prep.transfer.(state := InProgress);
    assert Apply(Corrected, prep.transfer, Start) == Continue(started);
    CorrectedCompletion(L, dev, started, obs);
  }

  /**
   As written, once the table of an asynchronous request on an idle device
   is handed over, the first completion interrupt stops the handler on its
   compare-and-swap assertion: the record never left `Free`.
   */
  lemma AsWrittenAsyncRequestHalts(
    p: Platform, dev: AtaDevice, req: Request, env: DmaEnv, words: seq<bv16>,
    obs: IrqObservation, later: seq<IrqObservation>)
    requires p.Valid() && env.Valid()
    requires Rejection(req).None? && req.asynchronous
    requires dev.transfer.state == Free
    requires CleanCompletion(obs)
    ensures var prep := PrepareDmaTransfer(AsWritten, p.dma, p.layout,
        dev.regs.(noInterrupt := SuppressionFor(true)), dev.transfer, env, req.sectorCount, req.write);
      prep.Prepared? && prep.status == Success ==>
        AtaReadWriteSectors(AsWritten, p, dev, req, env, words, [obs] + later) == Halted(CompareExchangeFailed)
  {
    var L := p.layout;
    var regs := dev.regs.(noInterrupt := SuppressionFor(true));
    var armed := dev.(regs := regs);
    var setup := SetupTrace(L, regs, dev.slave, req.sectorIndex, req.sectorCount);
    assert AtaReadWriteSectors(AsWritten, p, dev, req, env, words, [obs] + later)
        == DmaRequest(AsWritten, p, armed, req, env, [obs] + later, setup);
    AsWrittenLaunchHalts(p, armed, req, env, obs, later, setup);
  }

  /** The same, from the point where the parameters are written. */
  lemma AsWrittenLaunchHalts(
    p: Platform, dev: AtaDevice, req: Request, env: DmaEnv,
    obs: IrqObservation, later: seq<IrqObservation>, setup: Trace)
    requires p.Valid() && env.Valid() && req.sectorCount > 0 && Quiet(setup)
    requires dev.transfer.state == Free
    requires CleanCompletion(obs)
    ensures var prep := PrepareDmaTransfer(AsWritten, p.dma, p.layout, dev.regs, dev.transfer, env, req.sectorCount, req.write);
      prep.Prepared? && prep.status == Success ==>
        DmaRequest(AsWritten, p, dev, req, env, [obs] + later, setup) == Halted(CompareExchangeFailed)
  {
    var prep := PrepareDmaTransfer(AsWritten, p.dma, p.layout, dev.regs, dev.transfer, env, req.sectorCount, req.write);
    if prep.Prepared? && prep.status == Success {
      var irqs := [obs] + later;
      assert DmaRequest(AsWritten, p, dev, req, env, irqs, setup)
          == Launch(AsWritten, p.layout, dev, req, prep.transfer, irqs, setup, prep.trace);
      assert Apply(AsWritten, prep.transfer, Start) == Continue(prep.transfer);
      AsWrittenCompletion(p.layout, dev, prep.transfer, obs, later);
    }
  }
}
