/**
 The register access layer: a logical register offset is routed to one of the
 three I/O spaces of a channel (command block, control block, bus-master
 block), and the high-order ("HOB") registers of the 48-bit Address feature
 set of ATA/ATAPI-6 are reached by bracketing the access with two Device
 Control writes.

 A small model of the drive's task file (each 48-bit register is a two-deep
 FIFO, read through the HOB bit) serves as the independent reference against
 which the routing and the parameter-programming order are checked.
 */
module AtaRegisters {
  import opened AtaTypes

  // Device Control bits (ATA/ATAPI-6).
  const DCTRL_NIEN: bv8 := 0x02
  const DCTRL_HOB: bv8 := 0x80

  // Device register bits.
  const DEV_LBA: bv8 := 0x40
  const DEV_DEV: bv8 := 0x10

  // Status register bits.
  const SREG_ERR: bv8 := 0x01
  const SREG_DRQ: bv8 := 0x08
  const SREG_DF: bv8 := 0x20
  const SREG_DRDY: bv8 := 0x40
  const SREG_BUSY: bv8 := 0x80

  // Bus Master IDE command and status bits (SFF-8038i).
  const BUS_CMD_START: bv8 := 0x01
  const BUS_CMD_READ: bv8 := 0x08
  const BUS_DMA_IRQ: bv8 := 0x04

  // Command opcodes.
  const CMD_IDENTIFY: bv8 := 0xEC
  const CMD_READ_SECTORS_EXT: bv8 := 0x24
  const CMD_READ_DMA_EXT: bv8 := 0x25
  const CMD_WRITE_SECTORS_EXT: bv8 := 0x34
  const CMD_WRITE_DMA_EXT: bv8 := 0x35

  predicate FlagOn(v: bv8, flag: bv8) {
    v & flag != 0
  }

  /**
   The driver's logical register offsets. Their numeric values live in a
   header outside this model, so they are parameters; `Valid` states the
   ordering and spacing the routing code relies on.
   */
  datatype RegisterLayout = RegisterLayout(
    data: nat, error: nat, sectorCount: nat, lbaLow: nat, lbaMid: nat, lbaHigh: nat,
    device: nat, command: nat, status: nat,
    sectorCountHigh: nat, lbaLowHigh: nat, lbaMidHigh: nat, lbaHighHigh: nat,
    alternateStatus: nat, deviceControl: nat, deviceAddress: nat,
    busCommand: nat, busStatus: nat, prdtAddress: nat)
  {
    /** Distance between a high-order register and its low-order counterpart. */
    function FifoDelta(): int {
      sectorCountHigh - sectorCount
    }

    predicate Valid() {
      // the ordinary command-block registers lie below the HOB range
      && data < sectorCountHigh && error < sectorCountHigh && sectorCount < sectorCountHigh
      && lbaLow < sectorCountHigh && lbaMid < sectorCountHigh && lbaHigh < sectorCountHigh
      && device < sectorCountHigh && command < sectorCountHigh && status < sectorCountHigh
      // the four FIFO registers are distinct
      && sectorCount != lbaLow && sectorCount != lbaMid && sectorCount != lbaHigh
      && lbaLow != lbaMid && lbaLow != lbaHigh && lbaMid != lbaHigh
      // each high-order register sits FifoDelta above its low-order counterpart, inside the HOB range
      && lbaLowHigh - lbaLow == FifoDelta() && lbaMidHigh - lbaMid == FifoDelta()
      && lbaHighHigh - lbaHigh == FifoDelta()
      && sectorCountHigh <= lbaLowHigh <= lbaHighHigh && sectorCountHigh <= lbaMidHigh <= lbaHighHigh
      // then the control block, then the bus-master block; every offset is a BYTE
      && lbaHighHigh < alternateStatus <= deviceControl <= deviceAddress
      && deviceAddress < busCommand < busStatus < prdtAddress < 256
    }

    /** Offsets whose access needs the HOB bracket. */
    predicate IsHob(off: nat) {
      sectorCountHigh <= off <= lbaHighHigh
    }

    /** Offsets routed to the control block. */
    predicate IsControl(off: nat) {
      alternateStatus <= off <= deviceAddress
    }
  }

  /** Per-device I/O bases and the interrupt-suppression byte (`ATA_DEVICE_REGISTERS`). */
  datatype DeviceRegisters = DeviceRegisters(
    baseRegister: Word, controlBase: Word, busMasterBase: Word, noInterrupt: bv8)

  /** A port number as passed to `__outbyte`/`__inbyte` (a 16-bit value). */
  function Port(x: int): Word {
    ToWord(x)
  }

  /**
   The port `_AtaWriteRegister` writes for `off` (besides the HOB bracket).
   The last branch is meaningful below `PrdtAddress` only: the router stops
   (`NOT_REACHED`) above it, which `WriteRegister` rules out by its precondition.
   */
  function WritePort(L: RegisterLayout, regs: DeviceRegisters, off: nat): Word
    requires L.Valid()
  {
    if off < L.sectorCountHigh then Port(regs.baseRegister + off)
    else if off < L.alternateStatus then Port(regs.baseRegister + off - L.FifoDelta())
    else if off <= L.deviceAddress then Port(regs.controlBase + off - L.alternateStatus)
    else Port(regs.busMasterBase + off - L.busCommand)
  }

  /**
   The port `_AtaReadRegister` reads for `off`. As written, a control-block
   read is placed 2 above the port the write path uses for the same offset.
   */
  function ReadPort(rev: Revision, L: RegisterLayout, regs: DeviceRegisters, off: nat): Word
    requires L.Valid()
  {
    if off < L.sectorCountHigh then Port(regs.baseRegister + off)
    else if off < L.alternateStatus then Port(regs.baseRegister + off - L.FifoDelta())
    else if off <= L.deviceAddress then
      (if rev == AsWritten then Port(regs.controlBase + off - (L.alternateStatus - 2))
       else Port(regs.controlBase + off - L.alternateStatus))
    else Port(regs.busMasterBase + off - L.busCommand)
  }

  /** The Device Control port. */
  function ControlPort(L: RegisterLayout, regs: DeviceRegisters): Word
    requires L.Valid()
  {
    WritePort(L, regs, L.deviceControl)
  }

  /**
   `_AtaWriteRegister`: one byte written to the routed port; a HOB offset is
   preceded by a Device Control write of HOB|NoInterrupt and followed by one
   of NoInterrupt, both made through the same routine.
   */
  function WriteRegister(L: RegisterLayout, regs: DeviceRegisters, off: nat, data: bv8): (t: Trace)
    requires L.Valid() && off < L.prdtAddress
    ensures L.IsHob(off) ==>
      t == [Out8(ControlPort(L, regs), DCTRL_HOB | regs.noInterrupt),
            Out8(WritePort(L, regs, off), data),
            Out8(ControlPort(L, regs), regs.noInterrupt)]
    ensures !L.IsHob(off) ==> t == [Out8(WritePort(L, regs, off), data)]
    decreases if L.IsHob(off) then 1 else 0
  {
    if L.IsHob(off) then
      WriteRegister(L, regs, L.deviceControl, DCTRL_HOB | regs.noInterrupt)
      + [Out8(WritePort(L, regs, off), data)]
      + WriteRegister(L, regs, L.deviceControl, regs.noInterrupt)
    else
      [Out8(WritePort(L, regs, off), data)]
  }

  /**
   `_AtaReadRegister`: one byte read from the routed port, with the same HOB
   bracket as the write path. The value read comes from the hardware; the
   trace records where it was read.
   */
  function ReadRegister(rev: Revision, L: RegisterLayout, regs: DeviceRegisters, off: nat): (t: Trace)
    requires L.Valid() && off < L.prdtAddress
    ensures L.IsHob(off) ==>
      t == [Out8(ControlPort(L, regs), DCTRL_HOB | regs.noInterrupt),
            In8(ReadPort(rev, L, regs, off)),
            Out8(ControlPort(L, regs), regs.noInterrupt)]
    ensures !L.IsHob(off) ==> t == [In8(ReadPort(rev, L, regs, off))]
  {
    if L.IsHob(off) then
      WriteRegister(L, regs, L.deviceControl, DCTRL_HOB | regs.noInterrupt)
      + [In8(ReadPort(rev, L, regs, off))]
      + WriteRegister(L, regs, L.deviceControl, regs.noInterrupt)
    else
      [In8(ReadPort(rev, L, regs, off))]
  }

  /**
   Every high-order register is routed to the same port as its low-order
   counterpart, which is what makes the pair a two-deep FIFO.
   */
  lemma HobSharesLowPort(L: RegisterLayout, regs: DeviceRegisters)
    requires L.Valid()
    ensures WritePort(L, regs, L.sectorCountHigh) == WritePort(L, regs, L.sectorCount)
    ensures WritePort(L, regs, L.lbaLowHigh) == WritePort(L, regs, L.lbaLow)
    ensures WritePort(L, regs, L.lbaMidHigh) == WritePort(L, regs, L.lbaMid)
    ensures WritePort(L, regs, L.lbaHighHigh) == WritePort(L, regs, L.lbaHigh)
  {
  }

  /** Outside the control block the read and write paths agree on the port. */
  lemma ReadPortMatchesWritePort(rev: Revision, L: RegisterLayout, regs: DeviceRegisters, off: nat)
    requires L.Valid() && off < L.prdtAddress
    requires rev == Corrected || !L.IsControl(off)
    ensures ReadPort(rev, L, regs, off) == WritePort(L, regs, off)
  {
  }

  /**
   As written, every control-block read (Alternate Status in particular)
   goes to a port 2 above the one the write path uses for the same offset.
   */
  lemma ControlReadMissesWritePort(L: RegisterLayout, regs: DeviceRegisters, off: nat)
    requires L.Valid() && L.IsControl(off)
    ensures ReadPort(AsWritten, L, regs, off) == Port(WritePort(L, regs, off) + 2)
    ensures ReadPort(AsWritten, L, regs, off) != WritePort(L, regs, off)
  {
  }

  /** `_AtaSelectDevice`: the Device register gets LBA mode plus the device-select bit for the slave. */
  function SelectDevice(L: RegisterLayout, regs: DeviceRegisters, slave: bool): (t: Trace)
    requires L.Valid()
    ensures t == [Out8(WritePort(L, regs, L.device), if slave then DEV_LBA | DEV_DEV else DEV_LBA)]
  {
    WriteRegister(L, regs, L.device, DEV_LBA | (if slave then DEV_DEV else 0))
  }

  function Pow256(n: nat): (r: nat)
    ensures r > 0
  {
    if n == 0 then 1 else 256 * Pow256(n - 1)
  }

  function Pow2(n: nat): (r: nat)
    ensures r > 0
  {
    if n == 0 then 1 else 2 * Pow2(n - 1)
  }

  lemma {:induction false} Pow2Mono(a: nat, b: nat)
    requires a <= b
    ensures Pow2(a) <= Pow2(b)
    decreases b
  {
    if a < b {
      Pow2Mono(a, b - 1);
    }
  }

  /** The low `n` bits of `x`, shifted in from the most significant end down. */
  function LowBits(x: nat, n: nat): bv8
    requires n <= 8
  {
    if n == 0 then 0 else (LowBits(x / 2, n - 1) << 1) | (if x % 2 == 1 then 1 else 0)
  }

  /** The low byte of `x`, the `(BYTE)` cast of the source. */
  function ByteOf(x: nat): bv8 {
    LowBits(x, 8)
  }

  lemma BelowHalf(b: bv8)
    requires b as nat < 128
    ensures b < 128
  {
  }

  lemma ShiftOne(b: bv8)
    requires b < 128
    ensures ((b << 1) | 1) as nat == 2 * (b as nat) + 1
  {
  }

  lemma ShiftZero(b: bv8)
    requires b < 128
    ensures ((b << 1) | 0) as nat == 2 * (b as nat)
  {
  }

  lemma LowBitsStep(x: nat, n: nat)
    requires 0 < n <= 8 && LowBits(x / 2, n - 1) as nat < 128
    ensures LowBits(x, n) as nat == 2 * (LowBits(x / 2, n - 1) as nat) + x % 2
  {
    var b := LowBits(x / 2, n - 1);
    BelowHalf(b);
    if x % 2 == 1 {
      ShiftOne(b);
    } else {
      ShiftZero(b);
    }
  }

  lemma {:induction false} LowBitsValue(x: nat, n: nat)
    requires n <= 8
    ensures LowBits(x, n) as nat == x % Pow2(n)
  {
    if n > 0 {
      var p := Pow2(n - 1);
      LowBitsValue(x / 2, n - 1);
      Pow2Mono(n - 1, 7);
      LowBitsStep(x, n);
      ModSplit(x, 2, p);
      assert Pow2(n) == 2 * p;
    }
  }

  lemma ByteOfNat(x: nat)
    ensures ByteOf(x) as nat == x % 256
  {
    LowBitsValue(x, 8);
    assert Pow2(8) == 256;
  }

  /** Byte `k` of `x` in little-endian order, as read through a `PBYTE` view of a `QWORD`. */
  function LeByte(x: nat, k: nat): bv8
  {
    if k == 0 then ByteOf(x) else LeByte(x / 256, k - 1)
  }

  /** The number whose little-endian bytes are `bs`. */
  function FromLe(bs: seq<bv8>): nat
  {
    if |bs| == 0 then 0 else bs[0] as nat + 256 * FromLe(bs[1..])
  }

  /** Splitting a remainder modulo `a * m` into the digit below `a` and the rest. */
  lemma ModSplit(x: nat, a: nat, m: nat)
    requires a > 0 && m > 0
    ensures x % (a * m) == x % a + a * ((x / a) % m)
  {
    var q := x / a;
    var r := x % a;
    var q2 := q / m;
    var r2 := q % m;
    assert x == a * (m * q2 + r2) + r;
    assert x == (a * m) * q2 + (a * r2 + r);
    assert a * r2 + r < a * m by {
      assert a * r2 <= a * (m - 1);
    }
    DivModUnique(x, a * m, q2, a * r2 + r);
  }

  /** The first `n` little-endian bytes of `x` spell `x` modulo 256^n. */
  lemma {:induction false} LeBytesRoundTrip(x: nat, n: nat)
    ensures FromLe(seq(n, k requires 0 <= k < n => LeByte(x, k))) == x % Pow256(n)
  {
    var bs := seq(n, k requires 0 <= k < n => LeByte(x, k));
    if n > 0 {
      var tail := seq(n - 1, k requires 0 <= k < n - 1 => LeByte(x / 256, k));
      assert bs[1..] == tail;
      LeBytesRoundTrip(x / 256, n - 1);
      ByteOfNat(x);
      ModSplit(x, 256, Pow256(n - 1));
    }
  }

  /** `WORD_HIGH` and `WORD_LOW`. */
  function WordHigh(w: Word): bv8 {
    ByteOf(w / 256)
  }

  function WordLow(w: Word): bv8 {
    ByteOf(w)
  }

  /** One register write requested by the driver: a logical offset and a byte. */
  datatype RegWrite = RegWrite(offset: nat, value: bv8)

  predicate Writable(L: RegisterLayout, ws: seq<RegWrite>) {
    forall i :: 0 <= i < |ws| ==> ws[i].offset < L.prdtAddress
  }

  /** A series of `_AtaWriteRegister` calls, in order. */
  function WriteRegisters(L: RegisterLayout, regs: DeviceRegisters, ws: seq<RegWrite>): Trace
    requires L.Valid() && Writable(L, ws)
  {
    if |ws| == 0 then []
    else WriteRegister(L, regs, ws[0].offset, ws[0].value) + WriteRegisters(L, regs, ws[1..])
  }

  /**
   The eight calls of `_AtaWriteIOParameters`: the high-order byte of the
   sector count and LBA bytes 5..3 first, then the low-order byte of the
   count and LBA bytes 2..0.
   */
  function IOParameterWrites(L: RegisterLayout, lba: Qword, count: Word): (ws: seq<RegWrite>)
    requires L.Valid()
    ensures |ws| == 8 && Writable(L, ws)
  {
    [RegWrite(L.sectorCountHigh, WordHigh(count)),
     RegWrite(L.lbaHighHigh, LeByte(lba, 5)),
     RegWrite(L.lbaMidHigh, LeByte(lba, 4)),
     RegWrite(L.lbaLowHigh, LeByte(lba, 3)),
     RegWrite(L.sectorCount, WordLow(count)),
     RegWrite(L.lbaHigh, LeByte(lba, 2)),
     RegWrite(L.lbaMid, LeByte(lba, 1)),
     RegWrite(L.lbaLow, LeByte(lba, 0))]
  }

  function WriteIOParameters(L: RegisterLayout, regs: DeviceRegisters, lba: Qword, count: Word): Trace
    requires L.Valid()
  {
    WriteRegisters(L, regs, IOParameterWrites(L, lba, count))
  }

  /** The events of `t` that are not writes to `port`. */
  function Without(t: Trace, port: Word): (r: Trace)
    ensures |r| <= |t|
  {
    if |t| == 0 then []
    else if t[0].Out8? && t[0].port == port then Without(t[1..], port)
    else [t[0]] + Without(t[1..], port)
  }

  lemma {:induction false} WithoutAppend(a: Trace, b: Trace, port: Word)
    ensures Without(a + b, port) == Without(a, port) + Without(b, port)
  {
    if |a| == 0 {
      assert a + b == b;
    } else {
      assert (a + b)[1..] == a[1..] + b;
      WithoutAppend(a[1..], b, port);
    }
  }

  /** None of the writes is routed to the Device Control port. */
  predicate AvoidsControlPort(L: RegisterLayout, regs: DeviceRegisters, ws: seq<RegWrite>)
    requires L.Valid()
  {
    forall i :: 0 <= i < |ws| ==> WritePort(L, regs, ws[i].offset) != ControlPort(L, regs)
  }

  /** The data-port writes a series of register writes should produce, bracket aside. */
  function DataWrites(L: RegisterLayout, regs: DeviceRegisters, ws: seq<RegWrite>): (t: Trace)
    requires L.Valid()
    ensures |t| == |ws|
  {
    seq(|ws|, i requires 0 <= i < |ws| => Out8(WritePort(L, regs, ws[i].offset), ws[i].value))
  }

  /** With the HOB-bracket writes set aside, register writes reach their ports in the order requested. */
  lemma {:induction false} WithoutWriteRegisters(L: RegisterLayout, regs: DeviceRegisters, ws: seq<RegWrite>)
    requires L.Valid() && Writable(L, ws) && AvoidsControlPort(L, regs, ws)
    ensures Without(WriteRegisters(L, regs, ws), ControlPort(L, regs)) == DataWrites(L, regs, ws)
  {
    if |ws| > 0 {
      var c := ControlPort(L, regs);
      var head: Trace := WriteRegister(L, regs, ws[0].offset, ws[0].value);
      WritesTail(L, regs, ws);
      WithoutAppend(head, WriteRegisters(L, regs, ws[1..]), c);
      WithoutWriteRegisters(L, regs, ws[1..]);
      WithoutOneRegister(L, regs, ws[0].offset, ws[0].value);
    }
  }

  /** Dropping the first write keeps the side conditions and the first expected byte heads the rest. */
  lemma WritesTail(L: RegisterLayout, regs: DeviceRegisters, ws: seq<RegWrite>)
    requires L.Valid() && |ws| > 0 && Writable(L, ws) && AvoidsControlPort(L, regs, ws)
    ensures Writable(L, ws[1..]) && AvoidsControlPort(L, regs, ws[1..])
    ensures WritePort(L, regs, ws[0].offset) != ControlPort(L, regs)
    ensures DataWrites(L, regs, ws) == [Out8(WritePort(L, regs, ws[0].offset), ws[0].value)] + DataWrites(L, regs, ws[1..])
  {
    forall i | 0 <= i < |ws[1..]| ensures ws[1..][i] == ws[i + 1] { }
  }

  /** One register write, bracket aside, is the single byte sent to its port. */
  lemma WithoutOneRegister(L: RegisterLayout, regs: DeviceRegisters, off: nat, data: bv8)
    requires L.Valid() && off < L.prdtAddress
    requires WritePort(L, regs, off) != ControlPort(L, regs)
    ensures Without(WriteRegister(L, regs, off, data), ControlPort(L, regs)) == [Out8(WritePort(L, regs, off), data)]
  {
    var c := ControlPort(L, regs);
    var head: Trace := WriteRegister(L, regs, off, data);
    if L.IsHob(off) {
      assert Without(head, c) == Without(head[1..], c);
      assert Without(head[1..], c) == [head[1]] + Without(head[1..][1..], c);
      assert head[1..][1..][1..] == [];
    } else {
      assert head[1..] == [];
    }
  }

  /** The registers `_AtaWriteIOParameters` writes, in the order it writes them. */
  predicate ParameterOffsets(L: RegisterLayout, ws: seq<RegWrite>) {
    && |ws| == 8
    && ws[0].offset == L.sectorCountHigh && ws[1].offset == L.lbaHighHigh
    && ws[2].offset == L.lbaMidHigh && ws[3].offset == L.lbaLowHigh
    && ws[4].offset == L.sectorCount && ws[5].offset == L.lbaHigh
    && ws[6].offset == L.lbaMid && ws[7].offset == L.lbaLow
  }

  /** Whatever the bytes, the task-file writes reach the low-order ports in the order issued. */
  lemma ParameterPortOrder(L: RegisterLayout, regs: DeviceRegisters, ws: seq<RegWrite>)
    requires L.Valid() && DistinctPorts(L, regs) && Writable(L, ws) && ParameterOffsets(L, ws)
    ensures Without(WriteRegisters(L, regs, ws), ControlPort(L, regs)) ==
      [Out8(WritePort(L, regs, L.sectorCount), ws[0].value), Out8(WritePort(L, regs, L.lbaHigh), ws[1].value),
       Out8(WritePort(L, regs, L.lbaMid), ws[2].value), Out8(WritePort(L, regs, L.lbaLow), ws[3].value),
       Out8(WritePort(L, regs, L.sectorCount), ws[4].value), Out8(WritePort(L, regs, L.lbaHigh), ws[5].value),
       Out8(WritePort(L, regs, L.lbaMid), ws[6].value), Out8(WritePort(L, regs, L.lbaLow), ws[7].value)]
  {
    ParametersAvoidControlPort(L, regs, ws);
    WithoutWriteRegisters(L, regs, ws);
    HobSharesLowPort(L, regs);
    var t := DataWrites(L, regs, ws);
    forall i | 0 <= i < 8 ensures t[i] == Out8(WritePort(L, regs, ws[i].offset), ws[i].value) { }
  }

  lemma ParametersAvoidControlPort(L: RegisterLayout, regs: DeviceRegisters, ws: seq<RegWrite>)
    requires L.Valid() && DistinctPorts(L, regs) && ParameterOffsets(L, ws)
    ensures AvoidsControlPort(L, regs, ws)
  {
    HobSharesLowPort(L, regs);
    forall i | 0 <= i < |ws| ensures WritePort(L, regs, ws[i].offset) != ControlPort(L, regs) {
      if i < 4 {
        assert ws[i].offset in {L.sectorCountHigh, L.lbaHighHigh, L.lbaMidHigh, L.lbaLowHigh};
      } else {
        assert ws[i].offset in {L.sectorCount, L.lbaHigh, L.lbaMid, L.lbaLow};
      }
    }
  }

  /**
   With the Device Control writes of the HOB brackets set aside, the task-file
   writes go out in the order high-order count, LBA 47:40, 39:32, 31:24, then
   low-order count, LBA 23:16, 15:8, 7:0.
   */
  lemma IOParameterOrder(L: RegisterLayout, regs: DeviceRegisters, lba: Qword, count: Word)
    requires L.Valid() && DistinctPorts(L, regs)
    ensures Without(WriteIOParameters(L, regs, lba, count), ControlPort(L, regs)) ==
      [Out8(WritePort(L, regs, L.sectorCount), WordHigh(count)),
       Out8(WritePort(L, regs, L.lbaHigh), LeByte(lba, 5)),
       Out8(WritePort(L, regs, L.lbaMid), LeByte(lba, 4)),
       Out8(WritePort(L, regs, L.lbaLow), LeByte(lba, 3)),
       Out8(WritePort(L, regs, L.sectorCount), WordLow(count)),
       Out8(WritePort(L, regs, L.lbaHigh), LeByte(lba, 2)),
       Out8(WritePort(L, regs, L.lbaMid), LeByte(lba, 1)),
       Out8(WritePort(L, regs, L.lbaLow), LeByte(lba, 0))]
  {
    ParameterPortOrder(L, regs, IOParameterWrites(L, lba, count));
  }

  // ---------------------------------------------------------------------------
  // A reference model of the drive side of the task file.
  // ---------------------------------------------------------------------------

  /** A 48-bit-capable task-file register: the byte last written and the one before it. */
  datatype Fifo = Fifo(current: bv8, previous: bv8)

  /** The drive: task-file FIFOs by port, and the HOB bit last written to Device Control. */
  datatype Drive = Drive(taskFile: map<Word, Fifo>, hob: bool)

  function Load(d: Drive, p: Word): Fifo {
    if p in d.taskFile then d.taskFile[p] else Fifo(0, 0)
  }

  /** A task-file register write: the byte enters the FIFO, the old one moves behind it, HOB clears. */
  function Push(d: Drive, p: Word, v: bv8): Drive {
    Drive(d.taskFile[p := Fifo(v, Load(d, p).current)], false)
  }

  /**
   A Device Control write sets the HOB bit from bit 7; any other register
   write is a push (ATA/ATAPI-6).
   */
  function Step(d: Drive, ctrl: Word, e: Event): Drive {
    if e.Out8? then
      if e.port == ctrl then d.(hob := FlagOn(e.value, DCTRL_HOB)) else Push(d, e.port, e.value)
    else d
  }

  function Run(d: Drive, ctrl: Word, t: Trace): Drive
    decreases |t|
  {
    if |t| == 0 then d else Run(Step(d, ctrl, t[0]), ctrl, t[1..])
  }

  /** The bytes the drive returns for the reads of `t`, in order (HOB selects the older byte). */
  function Reads(d: Drive, ctrl: Word, t: Trace): seq<bv8>
    decreases |t|
  {
    if |t| == 0 then []
    else
      var here := if t[0].In8? then [if d.hob then Load(d, t[0].port).previous else Load(d, t[0].port).current] else [];
      here + Reads(Step(d, ctrl, t[0]), ctrl, t[1..])
  }

  lemma {:induction false} RunAppend(d: Drive, ctrl: Word, a: Trace, b: Trace)
    ensures Run(d, ctrl, a + b) == Run(Run(d, ctrl, a), ctrl, b)
    decreases |a|
  {
    if |a| == 0 {
      assert a + b == b;
    } else {
      assert (a + b)[1..] == a[1..] + b;
      RunAppend(Step(d, ctrl, a[0]), ctrl, a[1..], b);
    }
  }

  /** The driver only ever stores these two values as its interrupt-suppression byte. */
  predicate SuppressionByte(ni: bv8) {
    ni == 0 || ni == DCTRL_NIEN
  }

  /** The pushes a series of register writes should make, in order. */
  function PushAll(L: RegisterLayout, regs: DeviceRegisters, d: Drive, ws: seq<RegWrite>): Drive
    requires L.Valid()
    decreases |ws|
  {
    if |ws| == 0 then d
    else PushAll(L, regs, Push(d, WritePort(L, regs, ws[0].offset), ws[0].value), ws[1..])
  }

  /** Driving register writes through the router makes exactly the pushes requested. */
  lemma {:induction false} RunWriteRegisters(L: RegisterLayout, regs: DeviceRegisters, d: Drive, ws: seq<RegWrite>)
    requires L.Valid() && Writable(L, ws) && AvoidsControlPort(L, regs, ws)
    requires SuppressionByte(regs.noInterrupt)
    ensures Run(d, ControlPort(L, regs), WriteRegisters(L, regs, ws)) == PushAll(L, regs, d, ws)
    decreases |ws|
  {
    if |ws| > 0 {
      var c := ControlPort(L, regs);
      var head: Trace := WriteRegister(L, regs, ws[0].offset, ws[0].value);
      var p := WritePort(L, regs, ws[0].offset);
      assert p != c by { assert 0 < |ws|; }
      assert Writable(L, ws[1..]) && AvoidsControlPort(L, regs, ws[1..]) by {
        forall i | 0 <= i < |ws[1..]| ensures ws[1..][i] == ws[i + 1] { }
      }
      RunAppend(d, c, head, WriteRegisters(L, regs, ws[1..]));
      assert Run(d, c, head) == Push(d, p, ws[0].value) by {
        if L.IsHob(ws[0].offset) {
          var d1 := Step(d, c, head[0]);
          assert d1.taskFile == d.taskFile;
          var d2 := Step(d1, c, head[1]);
          assert d2 == Push(d, p, ws[0].value);
          assert regs.noInterrupt & DCTRL_HOB == 0;
          assert Step(d2, c, head[2]) == d2;
          assert head[1..][1..][1..] == [];
          assert Run(d, c, head) == Run(d1, c, head[1..]);
          assert Run(d1, c, head[1..]) == Run(d2, c, head[1..][1..]);
          assert Run(d2, c, head[1..][1..]) == Run(d2, c, head[1..][1..][1..]);
        } else {
          assert head[1..] == [];
        }
      }
      RunWriteRegisters(L, regs, Push(d, p, ws[0].value), ws[1..]);
    }
  }

  /** Reading a register through `_AtaReadRegister` from a drive whose HOB bit is clear. */
  lemma ReadsReadRegister(rev: Revision, L: RegisterLayout, regs: DeviceRegisters, d: Drive, off: nat)
    requires L.Valid() && off < L.prdtAddress && !L.IsControl(off)
    requires !d.hob
    requires WritePort(L, regs, off) != ControlPort(L, regs)
    ensures Reads(d, ControlPort(L, regs), ReadRegister(rev, L, regs, off)) ==
      [if L.IsHob(off) then Load(d, WritePort(L, regs, off)).previous else Load(d, WritePort(L, regs, off)).current]
  {
    var c := ControlPort(L, regs);
    var t := ReadRegister(rev, L, regs, off);
    var p := WritePort(L, regs, off);
    ReadPortMatchesWritePort(rev, L, regs, off);
    if L.IsHob(off) {
      HobBitSet(regs.noInterrupt);
      var d1 := d.(hob := true);
      assert Step(d, c, t[0]) == d1;
      assert Reads(d, c, t) == Reads(d1, c, t[1..]);
      var rest := t[1..];
      assert rest == [In8(p), Out8(c, regs.noInterrupt)];
      assert Step(d1, c, rest[0]) == d1;
      assert Reads(d1, c, rest) == [Load(d1, p).previous] + Reads(d1, c, rest[1..]);
      assert Reads(d1, c, rest[1..]) == [] + Reads(Step(d1, c, rest[1]), c, rest[1..][1..]);
      assert rest[1..][1..] == [];
    } else {
      assert t[1..] == [];
    }
  }

  lemma HobBitSet(v: bv8)
    ensures FlagOn(DCTRL_HOB | v, DCTRL_HOB)
  {
  }

  /** The low-order ports of the four FIFO registers are all distinct from the Device Control port. */
  predicate DistinctPorts(L: RegisterLayout, regs: DeviceRegisters)
    requires L.Valid()
  {
    var c := ControlPort(L, regs);
    && WritePort(L, regs, L.sectorCount) != c && WritePort(L, regs, L.lbaLow) != c
    && WritePort(L, regs, L.lbaMid) != c && WritePort(L, regs, L.lbaHigh) != c
  }

  /** Two offsets below 2^16 apart from one base never wrap onto the same port. */
  lemma PortInjective(x: int, a: int, b: int)
    requires 0 <= a < 0x1_0000 && 0 <= b < 0x1_0000 && a != b
    ensures Port(x + a) != Port(x + b)
  {
  }

  lemma DistinctFifoPorts(L: RegisterLayout, regs: DeviceRegisters)
    requires L.Valid()
    ensures WritePort(L, regs, L.sectorCount) != WritePort(L, regs, L.lbaLow)
    ensures WritePort(L, regs, L.sectorCount) != WritePort(L, regs, L.lbaMid)
    ensures WritePort(L, regs, L.sectorCount) != WritePort(L, regs, L.lbaHigh)
    ensures WritePort(L, regs, L.lbaLow) != WritePort(L, regs, L.lbaMid)
    ensures WritePort(L, regs, L.lbaLow) != WritePort(L, regs, L.lbaHigh)
    ensures WritePort(L, regs, L.lbaMid) != WritePort(L, regs, L.lbaHigh)
  {
    BasePortsDistinct(L, regs, L.sectorCount, L.lbaLow);
    BasePortsDistinct(L, regs, L.sectorCount, L.lbaMid);
    BasePortsDistinct(L, regs, L.sectorCount, L.lbaHigh);
    BasePortsDistinct(L, regs, L.lbaLow, L.lbaMid);
    BasePortsDistinct(L, regs, L.lbaLow, L.lbaHigh);
    BasePortsDistinct(L, regs, L.lbaMid, L.lbaHigh);
  }

  lemma BasePortsDistinct(L: RegisterLayout, regs: DeviceRegisters, a: nat, b: nat)
    requires L.Valid() && a < L.sectorCountHigh && b < L.sectorCountHigh && a != b
    ensures WritePort(L, regs, a) != WritePort(L, regs, b)
  {
    PortInjective(regs.baseRegister, a, b);
  }

  /** The drive state after `_AtaWriteIOParameters`. */
  function Programmed(L: RegisterLayout, regs: DeviceRegisters, d: Drive, lba: Qword, count: Word): Drive
    requires L.Valid()
  {
    Run(d, ControlPort(L, regs), WriteIOParameters(L, regs, lba, count))
  }

  /** A push changes only the FIFO of its own port. */
  lemma LoadPush(d: Drive, p: Word, v: bv8, q: Word)
    ensures Load(Push(d, p, v), q) == if p == q then Fifo(v, Load(d, p).current) else Load(d, q)
  {
  }

  /** The pushes `_AtaWriteIOParameters` makes, one per register write, in program order. */
  lemma PushAllIOParameters(L: RegisterLayout, regs: DeviceRegisters, d: Drive, lba: Qword, count: Word)
    requires L.Valid()
    ensures
      var sc, ll, lm, lh := WritePort(L, regs, L.sectorCount), WritePort(L, regs, L.lbaLow),
                            WritePort(L, regs, L.lbaMid), WritePort(L, regs, L.lbaHigh);
      PushAll(L, regs, d, IOParameterWrites(L, lba, count)) ==
        Push(Push(Push(Push(Push(Push(Push(Push(d,
          sc, WordHigh(count)), lh, LeByte(lba, 5)), lm, LeByte(lba, 4)), ll, LeByte(lba, 3)),
          sc, WordLow(count)), lh, LeByte(lba, 2)), lm, LeByte(lba, 1)), ll, LeByte(lba, 0))
  {
    var ws := IOParameterWrites(L, lba, count);
    var w0, w1 := RegWrite(L.sectorCountHigh, WordHigh(count)), RegWrite(L.lbaHighHigh, LeByte(lba, 5));
    var w2, w3 := RegWrite(L.lbaMidHigh, LeByte(lba, 4)), RegWrite(L.lbaLowHigh, LeByte(lba, 3));
    var w4, w5 := RegWrite(L.sectorCount, WordLow(count)), RegWrite(L.lbaHigh, LeByte(lba, 2));
    var w6, w7 := RegWrite(L.lbaMid, LeByte(lba, 1)), RegWrite(L.lbaLow, LeByte(lba, 0));
    HobSharesLowPort(L, regs);
    assert ws == [w0, w1, w2, w3, w4, w5, w6, w7];
    assert ws == [w0] + ([w1] + ([w2] + ([w3] + ([w4] + ([w5] + ([w6] + [w7]))))));
    PushAllCons(L, regs, d, w0, [w1] + ([w2] + ([w3] + ([w4] + ([w5] + ([w6] + [w7]))))));
    var d1 := Push(d, WritePort(L, regs, w0.offset), w0.value);
    PushAllCons(L, regs, d1, w1, [w2] + ([w3] + ([w4] + ([w5] + ([w6] + [w7])))));
    var d2 := Push(d1, WritePort(L, regs, w1.offset), w1.value);
    PushAllCons(L, regs, d2, w2, [w3] + ([w4] + ([w5] + ([w6] + [w7]))));
    var d3 := Push(d2, WritePort(L, regs, w2.offset), w2.value);
    PushAllCons(L, regs, d3, w3, [w4] + ([w5] + ([w6] + [w7])));
    var d4 := Push(d3, WritePort(L, regs, w3.offset), w3.value);
    PushAllCons(L, regs, d4, w4, [w5] + ([w6] + [w7]));
    var d5 := Push(d4, WritePort(L, regs, w4.offset), w4.value);
    PushAllCons(L, regs, d5, w5, [w6] + [w7]);
    var d6 := Push(d5, WritePort(L, regs, w5.offset), w5.value);
    PushAllCons(L, regs, d6, w6, [w7]);
    var d7 := Push(d6, WritePort(L, regs, w6.offset), w6.value);
    PushAllCons(L, regs, d7, w7, []);
  }

  lemma PushAllCons(L: RegisterLayout, regs: DeviceRegisters, d: Drive, w: RegWrite, ws: seq<RegWrite>)
    requires L.Valid()
    ensures PushAll(L, regs, d, [w] + ws) == PushAll(L, regs, Push(d, WritePort(L, regs, w.offset), w.value), ws)
  {
    assert ([w] + ws)[1..] == ws;
  }

  /**
   After `_AtaWriteIOParameters`, each FIFO holds its low-order byte as the
   current value and its high-order byte as the previous one: the order of
   the writes is the one the two-deep FIFO needs.
   */
  lemma ProgrammedFifos(L: RegisterLayout, regs: DeviceRegisters, d: Drive, lba: Qword, count: Word)
    requires L.Valid() && SuppressionByte(regs.noInterrupt) && DistinctPorts(L, regs)
    ensures Load(Programmed(L, regs, d, lba, count), WritePort(L, regs, L.sectorCount)) == Fifo(WordLow(count), WordHigh(count))
    ensures Load(Programmed(L, regs, d, lba, count), WritePort(L, regs, L.lbaLow)) == Fifo(LeByte(lba, 0), LeByte(lba, 3))
    ensures Load(Programmed(L, regs, d, lba, count), WritePort(L, regs, L.lbaMid)) == Fifo(LeByte(lba, 1), LeByte(lba, 4))
    ensures Load(Programmed(L, regs, d, lba, count), WritePort(L, regs, L.lbaHigh)) == Fifo(LeByte(lba, 2), LeByte(lba, 5))
    ensures !Programmed(L, regs, d, lba, count).hob
  {
    var sc, ll, lm, lh := WritePort(L, regs, L.sectorCount), WritePort(L, regs, L.lbaLow),
                          WritePort(L, regs, L.lbaMid), WritePort(L, regs, L.lbaHigh);
    HobSharesLowPort(L, regs);
    DistinctFifoPorts(L, regs);
    var ws := IOParameterWrites(L, lba, count);
    assert AvoidsControlPort(L, regs, ws);
    RunWriteRegisters(L, regs, d, ws);
    PushAllIOParameters(L, regs, d, lba, count);
    var d1 := Push(d, sc, WordHigh(count));
    var d2 := Push(d1, lh, LeByte(lba, 5));
    var d3 := Push(d2, lm, LeByte(lba, 4));
    var d4 := Push(d3, ll, LeByte(lba, 3));
    var d5 := Push(d4, sc, WordLow(count));
    var d6 := Push(d5, lh, LeByte(lba, 2));
    var d7 := Push(d6, lm, LeByte(lba, 1));
    var d8 := Push(d7, ll, LeByte(lba, 0));
    assert Programmed(L, regs, d, lba, count) == d8;
    assert Load(d4, sc) == Fifo(WordHigh(count), Load(d, sc).current);
    assert Load(d8, sc) == Fifo(WordLow(count), WordHigh(count));
    assert Load(d7, ll) == Fifo(LeByte(lba, 3), Load(d, ll).current);
    assert Load(d6, lm) == Fifo(LeByte(lba, 4), Load(d, lm).current);
    assert Load(d8, lm) == Fifo(LeByte(lba, 1), LeByte(lba, 4));
    assert Load(d5, lh) == Fifo(LeByte(lba, 5), Load(d, lh).current);
    assert Load(d8, lh) == Fifo(LeByte(lba, 2), LeByte(lba, 5));
  }

  /**
   Round trip: after `_AtaWriteIOParameters`, reading any of the eight
   parameter registers back through `_AtaReadRegister` returns the byte
   written to it.
   */
  lemma IOParametersReadBack(rev: Revision, L: RegisterLayout, regs: DeviceRegisters, d: Drive, lba: Qword, count: Word)
    requires L.Valid() && SuppressionByte(regs.noInterrupt) && DistinctPorts(L, regs)
    ensures var p := Programmed(L, regs, d, lba, count);
      var c := ControlPort(L, regs);
      && Reads(p, c, ReadRegister(rev, L, regs, L.sectorCountHigh)) == [WordHigh(count)]
      && Reads(p, c, ReadRegister(rev, L, regs, L.sectorCount)) == [WordLow(count)]
      && Reads(p, c, ReadRegister(rev, L, regs, L.lbaHighHigh)) == [LeByte(lba, 5)]
      && Reads(p, c, ReadRegister(rev, L, regs, L.lbaMidHigh)) == [LeByte(lba, 4)]
      && Reads(p, c, ReadRegister(rev, L, regs, L.lbaLowHigh)) == [LeByte(lba, 3)]
      && Reads(p, c, ReadRegister(rev, L, regs, L.lbaHigh)) == [LeByte(lba, 2)]
      && Reads(p, c, ReadRegister(rev, L, regs, L.lbaMid)) == [LeByte(lba, 1)]
      && Reads(p, c, ReadRegister(rev, L, regs, L.lbaLow)) == [LeByte(lba, 0)]
  {
    var p := Programmed(L, regs, d, lba, count);
    ProgrammedFifos(L, regs, d, lba, count);
    HobSharesLowPort(L, regs);
    ReadsReadRegister(rev, L, regs, p, L.sectorCountHigh);
    ReadsReadRegister(rev, L, regs, p, L.sectorCount);
    ReadsReadRegister(rev, L, regs, p, L.lbaHighHigh);
    ReadsReadRegister(rev, L, regs, p, L.lbaMidHigh);
    ReadsReadRegister(rev, L, regs, p, L.lbaLowHigh);
    ReadsReadRegister(rev, L, regs, p, L.lbaHigh);
    ReadsReadRegister(rev, L, regs, p, L.lbaMid);
    ReadsReadRegister(rev, L, regs, p, L.lbaLow);
  }

  /**
   After `_AtaWriteIOParameters` the drive's six LBA bytes spell the low 48
   bits of the requested LBA and its two count bytes the sector count.
   */
  lemma IOParametersDecode(L: RegisterLayout, regs: DeviceRegisters, d: Drive, lba: Qword, count: Word)
    requires L.Valid() && SuppressionByte(regs.noInterrupt) && DistinctPorts(L, regs)
    ensures var p := Programmed(L, regs, d, lba, count);
      && FromLe([Load(p, WritePort(L, regs, L.lbaLow)).current, Load(p, WritePort(L, regs, L.lbaMid)).current,
                 Load(p, WritePort(L, regs, L.lbaHigh)).current, Load(p, WritePort(L, regs, L.lbaLow)).previous,
                 Load(p, WritePort(L, regs, L.lbaMid)).previous, Load(p, WritePort(L, regs, L.lbaHigh)).previous])
         == lba % Pow256(6)
      && 256 * Load(p, WritePort(L, regs, L.sectorCount)).previous as nat
         + Load(p, WritePort(L, regs, L.sectorCount)).current as nat == count
  {
    ProgrammedFifos(L, regs, d, lba, count);
    LeBytesSix(lba);
    WordBytes(count);
  }

  lemma LeBytesSix(x: nat)
    ensures FromLe([LeByte(x, 0), LeByte(x, 1), LeByte(x, 2), LeByte(x, 3), LeByte(x, 4), LeByte(x, 5)]) == x % Pow256(6)
  {
    LeBytesRoundTrip(x, 6);
    assert seq(6, k requires 0 <= k < 6 => LeByte(x, k))
        == [LeByte(x, 0), LeByte(x, 1), LeByte(x, 2), LeByte(x, 3), LeByte(x, 4), LeByte(x, 5)];
  }

  lemma Recombine(w: Word, hi: nat, lo: nat)
    requires hi == (w / 256) % 256 && lo == w % 256
    ensures 256 * hi + lo == w
  {
    assert w / 256 < 256;
  }

  lemma WordBytes(w: Word)
    ensures 256 * WordHigh(w) as nat + WordLow(w) as nat == w
  {
    ByteOfNat(w / 256);
    ByteOfNat(w);
    Recombine(w, WordHigh(w) as nat, WordLow(w) as nat);
  }

  /** The Data port of the command block. */
  function DataPort(L: RegisterLayout, regs: DeviceRegisters): Word {
    Port(regs.baseRegister + L.data)
  }

  /** What the polled paths do per word: wait until not busy, wait for DRQ, then move the word. */
  function WordStep(move: Event): Trace {
    [Await(NotBusy), Await(DataRequest), move]
  }

  /** From position `from` on, `t` holds one `WordStep` per move, in order. */
  predicate Steps(t: Trace, from: nat, moves: seq<Event>) {
    && from + 3 * |moves| <= |t|
    && forall i :: 0 <= i < |moves| ==> t[from + 3 * i .. from + 3 * i + 3] == WordStep(moves[i])
  }

  /** `n` reads of `port`. */
  function WordReads(n: nat, port: Word): (ms: seq<Event>)
    ensures |ms| == n && forall i :: 0 <= i < n ==> ms[i] == In16(port)
  {
    seq(n, _ => In16(port))
  }

  /** Writes of `words` to `port`, one per word, in order. */
  function WordWrites(words: seq<bv16>, port: Word): (ms: seq<Event>)
    ensures |ms| == |words| && forall i :: 0 <= i < |words| ==> ms[i] == Out16(port, words[i])
  {
    seq(|words|, i requires 0 <= i < |words| => Out16(port, words[i]))
  }

  /** `_AtaWriteBuffer`: per word, wait idle, wait DRQ, write the word to the data port. */
  function WriteBuffer(L: RegisterLayout, regs: DeviceRegisters, words: seq<bv16>, n: nat): (t: Trace)
    requires L.Valid() && n <= |words|
    ensures |t| == 3 * n
    ensures Steps(t, 0, WordWrites(words[..n], DataPort(L, regs)))
  {
    if n == 0 then []
    else
      var prev := WriteBuffer(L, regs, words, n - 1);
      var move := Out16(DataPort(L, regs), words[n - 1]);
      assert words[..n] == words[..n - 1] + [words[n - 1]];
      assert WordWrites(words[..n], DataPort(L, regs)) == WordWrites(words[..n - 1], DataPort(L, regs)) + [move];
      StepsSnoc(prev, WordWrites(words[..n - 1], DataPort(L, regs)), move);
      prev + WordStep(move)
  }

  /** `_AtaReadBuffer`: per word, wait idle, wait DRQ, read a word from the data port. */
  function ReadBuffer(L: RegisterLayout, regs: DeviceRegisters, n: nat): (t: Trace)
    requires L.Valid()
    ensures |t| == 3 * n
    ensures Steps(t, 0, WordReads(n, DataPort(L, regs)))
  {
    if n == 0 then []
    else
      var prev := ReadBuffer(L, regs, n - 1);
      var move := In16(DataPort(L, regs));
      assert WordReads(n, DataPort(L, regs)) == WordReads(n - 1, DataPort(L, regs)) + [move];
      StepsSnoc(prev, WordReads(n - 1, DataPort(L, regs)), move);
      prev + WordStep(move)
  }

  /** One more step after the steps at the start of `t`. */
  lemma StepsSnoc(t: Trace, moves: seq<Event>, m: Event)
    requires Steps(t, 0, moves) && |t| == 3 * |moves|
    ensures Steps(t + WordStep(m), 0, moves + [m])
  {
    var u := t + WordStep(m);
    forall i | 0 <= i < |moves| + 1
      ensures u[3 * i .. 3 * i + 3] == WordStep((moves + [m])[i])
    {
      if i < |moves| {
        assert u[3 * i .. 3 * i + 3] == t[3 * i .. 3 * i + 3];
      } else {
        assert u[3 * i .. 3 * i + 3] == WordStep(m);
      }
    }
  }

  /** Steps found at `from` in `b` are found `|a|` further on in `a + b`. */
  lemma StepsShift(a: Trace, b: Trace, from: nat, moves: seq<Event>)
    requires Steps(b, from, moves)
    ensures Steps(a + b, |a| + from, moves)
  {
    forall i | 0 <= i < |moves|
      ensures (a + b)[|a| + from + 3 * i .. |a| + from + 3 * i + 3] == WordStep(moves[i])
    {
      assert (a + b)[|a| + from + 3 * i .. |a| + from + 3 * i + 3] == b[from + 3 * i .. from + 3 * i + 3];
    }
  }

  /** The words a trace writes to `port`, in order. */
  function WordsOut(t: Trace, port: Word): seq<bv16>
  {
    if |t| == 0 then []
    else
      var last := t[|t| - 1];
      WordsOut(t[..|t| - 1], port) + (if last.Out16? && last.port == port then [last.word] else [])
  }

  /** The polled write puts exactly the first `n` buffer words on the data port, in order. */
  lemma {:induction false} WriteBufferWords(L: RegisterLayout, regs: DeviceRegisters, words: seq<bv16>, n: nat)
    requires L.Valid() && n <= |words|
    ensures WordsOut(WriteBuffer(L, regs, words, n), DataPort(L, regs)) == words[..n]
  {
    var p := DataPort(L, regs);
    if n > 0 {
      var prev := WriteBuffer(L, regs, words, n - 1);
      WriteBufferWords(L, regs, words, n - 1);
      assert WriteBuffer(L, regs, words, n) == prev + WordStep(Out16(p, words[n - 1]));
      WordsOutStep(prev, words[n - 1], p);
      assert words[..n] == words[..n - 1] + [words[n - 1]];
    }
  }

  /** One write step adds its word to what a trace writes to the port. */
  lemma WordsOutStep(t: Trace, w: bv16, port: Word)
    ensures WordsOut(t + WordStep(Out16(port, w)), port) == WordsOut(t, port) + [w]
  {
    var a, b := Await(NotBusy), Await(DataRequest);
    assert t + WordStep(Out16(port, w)) == (t + [a]) + [b] + [Out16(port, w)];
    WordsOutSnoc(t, a, port);
    WordsOutSnoc(t + [a], b, port);
    WordsOutSnoc(t + [a] + [b], Out16(port, w), port);
  }

  /** One more event adds its word when it writes one to `port`, and nothing otherwise. */
  lemma WordsOutSnoc(t: Trace, e: Event, port: Word)
    ensures WordsOut(t + [e], port) == WordsOut(t, port) + (if e.Out16? && e.port == port then [e.word] else [])
  {
    assert (t + [e])[..|t + [e]| - 1] == t;
  }

  /** Register programming only writes bytes. */
  lemma {:induction false} WriteRegistersBytes(L: RegisterLayout, regs: DeviceRegisters, ws: seq<RegWrite>)
    requires L.Valid() && Writable(L, ws)
    ensures forall i :: 0 <= i < |WriteRegisters(L, regs, ws)| ==> WriteRegisters(L, regs, ws)[i].Out8?
  {
    if |ws| > 0 {
      var head: Trace := WriteRegister(L, regs, ws[0].offset, ws[0].value);
      var rest: Trace := WriteRegisters(L, regs, ws[1..]);
      WriteRegistersBytes(L, regs, ws[1..]);
      assert WriteRegisters(L, regs, ws) == head + rest;
      forall i | 0 <= i < |head + rest|
        ensures (head + rest)[i].Out8?
      {
        if i >= |head| {
          assert (head + rest)[i] == rest[i - |head|];
        }
      }
    }
  }

  /** The polled write only waits and writes words. */
  lemma {:induction false} WriteBufferMovesWords(L: RegisterLayout, regs: DeviceRegisters, words: seq<bv16>, n: nat)
    requires L.Valid() && n <= |words|
    ensures forall i :: 0 <= i < |WriteBuffer(L, regs, words, n)| ==>
      WriteBuffer(L, regs, words, n)[i].Await? || WriteBuffer(L, regs, words, n)[i].Out16?
  {
    if n > 0 {
      WriteBufferMovesWords(L, regs, words, n - 1);
      var w: Trace := WriteBuffer(L, regs, words, n - 1);
      var wt: Trace := [Await(NotBusy), Await(DataRequest), Out16(DataPort(L, regs), words[n - 1])];
      assert WriteBuffer(L, regs, words, n) == w + wt;
      forall i | 0 <= i < |w + wt|
        ensures (w + wt)[i].Await? || (w + wt)[i].Out16?
      {
        if i < |w| { assert (w + wt)[i] == w[i]; } else { assert (w + wt)[i] == wt[i - |w|]; }
      }
    }
  }

  /** The polled read only waits and reads words. */
  lemma {:induction false} ReadBufferMovesWords(L: RegisterLayout, regs: DeviceRegisters, n: nat)
    requires L.Valid()
    ensures forall i :: 0 <= i < |ReadBuffer(L, regs, n)| ==>
      ReadBuffer(L, regs, n)[i].Await? || ReadBuffer(L, regs, n)[i].In16?
  {
    if n > 0 {
      ReadBufferMovesWords(L, regs, n - 1);
      var r: Trace := ReadBuffer(L, regs, n - 1);
      var rt: Trace := [Await(NotBusy), Await(DataRequest), In16(DataPort(L, regs))];
      assert ReadBuffer(L, regs, n) == r + rt;
      forall i | 0 <= i < |r + rt|
        ensures (r + rt)[i].Await? || (r + rt)[i].In16?
      {
        if i < |r| { assert (r + rt)[i] == r[i]; } else { assert (r + rt)[i] == rt[i - |r|]; }
      }
    }
  }
}
