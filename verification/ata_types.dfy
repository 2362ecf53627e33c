/**
 Shared vocabulary of the PATA driver model: the C integer widths, the status
 codes the driver returns, the assertion failures it can hit, and the event
 trace that stands for every port access, allocation and event operation.
 */
module AtaTypes {

  const MAX_WORD: nat := 0xFFFF
  const MAX_DWORD: nat := 0xFFFF_FFFF

  /** C `WORD`, `DWORD` and `QWORD`. */
  type Word = x: nat | x <= MAX_WORD
  type Dword = x: nat | x <= MAX_DWORD
  type Qword = x: nat | x < 0x1_0000_0000_0000_0000

  /** A cast to `WORD`: keeps the low 16 bits (two's complement wrap for negatives). */
  function ToWord(x: int): (r: Word)
    ensures 0 <= x <= MAX_WORD ==> r == x
  {
    x % 0x1_0000
  }

  /** A cast to `DWORD`: keeps the low 32 bits. */
  function ToDword(x: int): (r: Dword)
    ensures 0 <= x <= MAX_DWORD ==> r == x
  {
    x % 0x1_0000_0000
  }

  function Min(a: nat, b: nat): (r: nat)
    ensures r <= a && r <= b
    ensures r == a || r == b
  {
    if a < b then a else b
  }

  lemma MulMono(d: int, k: int)
    requires d > 0 && k >= 1
    ensures d * k >= d
  {
  }

  /** Euclidean division has one quotient and one remainder. */
  lemma DivModUnique(x: int, d: int, q: int, r: int)
    requires d > 0 && 0 <= r < d && x == d * q + r
    ensures x / d == q && x % d == r
  {
    var q0, r0 := x / d, x % d;
    assert d * (q0 - q) == r - r0;
    if q0 > q {
      MulMono(d, q0 - q);
    } else if q0 < q {
      MulMono(d, q - q0);
    }
  }

  datatype Option<+T> = None | Some(value: T)

  /** The driver's `STATUS` values that this core produces or passes through. */
  datatype Status =
    | Success
    | InvalidParameter1
    | InvalidParameter3
    | InvalidParameter4
    | InvalidParameter5
    | DmaPhysicalAddressTooHigh
    | DataAlignmentError
    | DmaPhysicalSpanTooLarge
    | HeapInsufficientResources
    | DeviceDoesNotExist
    | DeviceNotSupported
    | OtherFailure(code: nat)   // a failure status returned by a collaborator

  /** An `ASSERT` or `NOT_REACHED` of the driver that fires; execution stops there. */
  datatype Fault =
    | NoTranslationPairs      // ASSERT(0 != noOfMdlTranslationEntries)
    | BytesStillRemaining     // ASSERT(0 == bytesRemaining)
    | NullTableAddress        // ASSERT(NULL != prdtPa)
    | TransferNotFinished     // ASSERT(Finished == State) in the submitter
    | PrdtMissing             // ASSERT(NULL != CurrentTransfer.Prdt)
    | DriveFault              // ASSERT(!DF) in the interrupt handler
    | DmaCommandFailed        // NOT_REACHED after an ERR status in the interrupt handler
    | CompareExchangeFailed   // ASSERT on the compare-and-swap in the interrupt handler
    | PortOutOfRange          // ASSERT(address <= MAX_WORD) at bring-up
    | MixedAddressing         // ASSERT(legacy || both PCI addresses present)

  /** A step of the driver: it goes on with a value, stops on a failed assertion, or waits forever. */
  datatype Checked<+T> = Continue(value: T) | Halted(fault: Fault) | Blocked

  /**
   Selects, at the places where the driver looks defective, between the code
   as written and the evidently intended behaviour.
   */
  datatype Revision = AsWritten | Corrected

  /** Conditions that the driver's busy-wait loops wait for. */
  datatype Condition = NotBusy | DataRequest | DeviceReady

  /** Memory the DMA path allocates and frees. */
  datatype Resource = MdlBuffer | PrdTableMemory

  /** One observable step: a port access, an allocation or an event operation. */
  datatype Event =
    | Out8(port: Word, value: bv8)
    | In8(port: Word)
    | Out16(port: Word, word: bv16)
    | In16(port: Word)
    | Out32(port: Word, dword: bv32)
    | Await(condition: Condition)
    | Acquire(resource: Resource)
    | Release(resource: Resource)
    | SignalEvent
    | WaitEvent

  type Trace = seq<Event>

  /** Number of times `e` occurs in `t`. */
  function Count(t: Trace, e: Event): (n: nat)
    ensures n <= |t|
    ensures e !in t ==> n == 0
  {
    if |t| == 0 then 0 else (if t[0] == e then 1 else 0) + Count(t[1..], e)
  }

  lemma {:induction false} CountAppend(a: Trace, b: Trace, e: Event)
    ensures Count(a + b, e) == Count(a, e) + Count(b, e)
  {
    if |a| == 0 {
      assert a + b == b;
    } else {
      assert (a + b)[1..] == a[1..] + b;
      CountAppend(a[1..], b, e);
    }
  }

  /** The parts of a three-part trace are found where they were put. */
  lemma Pieces(a: Trace, b: Trace, c: Trace)
    ensures (a + b + c)[..|a|] == a && (a + b + c)[|a|..|a| + |b|] == b
    ensures forall i :: 0 <= i < |c| ==> (a + b + c)[|a| + |b| + i] == c[i]
  {
  }

  /** Every acquisition of `r` in `t` is matched by a release: nothing leaks. */
  predicate Balanced(t: Trace, r: Resource) {
    Count(t, Acquire(r)) == Count(t, Release(r))
  }

  /** True when `t` touches no I/O port. */
  predicate NoPortAccess(t: Trace) {
    forall i :: 0 <= i < |t| ==> !IsPortAccess(t[i])
  }

  predicate IsPortAccess(e: Event) {
    e.Out8? || e.In8? || e.Out16? || e.In16? || e.Out32?
  }

  predicate IsPortWrite(e: Event) {
    e.Out8? || e.Out16? || e.Out32?
  }

  /** `t` acquires and releases nothing. */
  predicate Quiet(t: Trace) {
    forall i :: 0 <= i < |t| ==> !t[i].Acquire? && !t[i].Release?
  }

  lemma QuietCounts(t: Trace, r: Resource)
    requires Quiet(t)
    ensures Count(t, Acquire(r)) == 0 && Count(t, Release(r)) == 0
  {
    assert Acquire(r) !in t && Release(r) !in t;
  }

  lemma QuietAppend(a: Trace, b: Trace)
    requires Quiet(a) && Quiet(b)
    ensures Quiet(a + b)
  {
    forall i | 0 <= i < |a + b|
      ensures !(a + b)[i].Acquire? && !(a + b)[i].Release?
    {
      if i < |a| { assert (a + b)[i] == a[i]; } else { assert (a + b)[i] == b[i - |a|]; }
    }
  }

  /** Quiet events around `t` do not change how often `t` acquires or releases `r`. */
  lemma QuietAround(a: Trace, t: Trace, b: Trace, r: Resource)
    requires Quiet(a) && Quiet(b)
    ensures Count(a + t + b, Acquire(r)) == Count(t, Acquire(r))
    ensures Count(a + t + b, Release(r)) == Count(t, Release(r))
  {
    QuietCounts(a, r);
    QuietCounts(b, r);
    CountAppend(a, t, Acquire(r));
    CountAppend(a, t, Release(r));
    CountAppend(a + t, b, Acquire(r));
    CountAppend(a + t, b, Release(r));
  }
}
