/**
 The per-device transfer record shared by the submitting thread and the
 interrupt handler (`ATA_CURRENT_TRANSFER`): a three-valued state advanced by
 compare-and-swap, the `TransferReady` synchronization event, and the PRD
 table of the transfer in flight. Interrupts are taken one at a time, between
 the submitter's steps; the atomics become plain transitions.
 */
module AtaTransfer {
  import opened AtaTypes
  import opened AtaPrdt

  datatype TransferState = Free | InProgress | Finished

  /** `state`, whether `TransferReady` is signalled, and `Prdt` (`None` for NULL). */
  datatype CurrentTransfer = CurrentTransfer(state: TransferState, signaled: bool, prdt: Option<seq<PrdEntry>>)

  /**
   The record as bring-up leaves it: state `Free` (the interlocked exchange),
   a synchronization event created unsignalled, and no table.
   */
  function InitialTransfer(): (t: CurrentTransfer)
    ensures t.state == Free && !t.signaled && t.prdt.None?
  {
    CurrentTransfer(Free, false, None)
  }

  /** The value `_InterlockedCompareExchange` returns, and the state it leaves. */
  datatype Exchanged = Exchanged(previous: TransferState, state: TransferState)

  /** `_InterlockedCompareExchange(&State, exchange, comparand)`. */
  function CompareExchange(current: TransferState, exchange: TransferState, comparand: TransferState): (r: Exchanged)
    ensures r.previous == current
    ensures r.state == current || r.state == exchange
  {
    if current == comparand then Exchanged(current, exchange) else Exchanged(current, current)
  }

  /**
   The state changes exactly when the caller sees the comparand returned,
   and then it holds `exchange`.
   */
  lemma CompareExchangeReports(current: TransferState, exchange: TransferState, comparand: TransferState)
    requires exchange != comparand
    ensures var r := CompareExchange(current, exchange, comparand);
      && (r.state != current <==> r.previous == comparand)
      && (r.previous == comparand ==> r.state == exchange)
  {
  }

  /** The submitter's moves on the record and the handler's completion. */
  datatype Action =
    | Commit(table: seq<PrdEntry>)   // `_AtaPrepareDmaTransfer` succeeded: `Prdt = prdTable`
    | Start                          // the DMA engine is started
    | Complete                       // the interrupt handler's compare-and-swap and signal
    | WaitReady                      // `ExEventWaitForSignal(&TransferReady)`
    | Reclaim                        // the submitter's checks, the table freed, `Prdt = NULL`

  /**
   One action. As written, `Start` stores nothing (nothing stores
   `InProgress`) and `Reclaim` leaves the state at `Finished`; corrected,
   `Start` stores `InProgress` and `Reclaim` returns the state to `Free`.
   */
  function Apply(rev: Revision, t: CurrentTransfer, a: Action): (r: Checked<CurrentTransfer>)
    ensures a.Complete? ==> (r.Continue? <==> t.state == InProgress)
    ensures a.Reclaim? && r.Continue? ==> t.state == Finished && t.prdt.Some? && r.value.prdt.None?
    ensures a.WaitReady? ==> (r.Blocked? <==> !t.signaled)
    ensures r.Continue? && a.WaitReady? ==> !r.value.signaled
    ensures r.Continue? && !a.Commit? && !a.Reclaim? ==> r.value.prdt == t.prdt
  {
    match a
    case Commit(table) =>
      Continue(t.(prdt := Some(table)))
    case Start =>
      if rev == Corrected then Continue(t.(state := InProgress)) else Continue(t)
    case Complete =>
      var x := CompareExchange(t.state, Finished, InProgress);
      if x.previous != InProgress then Halted(CompareExchangeFailed)
      else Continue(t.(state := x.state, signaled := true))
    case WaitReady =>
      if t.signaled then Continue(t.(signaled := false)) else Blocked
    case Reclaim =>
      if t.state != Finished then Halted(TransferNotFinished)
      else if t.prdt.None? then Halted(PrdtMissing)
      else Continue(t.(state := if rev == Corrected then Free else t.state, prdt := None))
  }

  /** Actions one after another, stopping at the first that does not go on. */
  function Run(rev: Revision, t: CurrentTransfer, actions: seq<Action>): Checked<CurrentTransfer>
    decreases |actions|
  {
    if |actions| == 0 then Continue(t)
    else
      match Apply(rev, t, actions[0])
      case Continue(next) => Run(rev, next, actions[1..])
      case Halted(f) => Halted(f)
      case Blocked => Blocked
  }

  /** The record's journey through one asynchronous request, in the submitter's order. */
  function RequestCycle(table: seq<PrdEntry>): seq<Action> {
    [Commit(table), Start, Complete, WaitReady, Reclaim]
  }

  /** Corrected, a request from an idle record completes and leaves the record idle again. */
  lemma CorrectedCycleReturnsToFree(t: CurrentTransfer, table: seq<PrdEntry>)
    requires t.state == Free && !t.signaled
    ensures Run(Corrected, t, RequestCycle(table)) == Continue(CurrentTransfer(Free, false, None))
  {
    var t1 := t.(prdt := Some(table));
    var t2 := t1.(state := InProgress);
    var t3 := t2.(state := Finished, signaled := true);
    var t4 := t3.(signaled := false);
    RunCons(Corrected, t, RequestCycle(table), t1);
    RunCons(Corrected, t1, [Start, Complete, WaitReady, Reclaim], t2);
    RunCons(Corrected, t2, [Complete, WaitReady, Reclaim], t3);
    RunCons(Corrected, t3, [WaitReady, Reclaim], t4);
    RunCons(Corrected, t4, [Reclaim], CurrentTransfer(Free, false, None));
  }

  /** Corrected, the record can go through any number of requests in a row. */
  lemma {:induction false} CorrectedCyclesRepeat(t: CurrentTransfer, tables: seq<seq<PrdEntry>>)
    requires t.state == Free && !t.signaled
    ensures Run(Corrected, t, Cycles(tables))
         == Continue(if |tables| == 0 then t else CurrentTransfer(Free, false, None))
    decreases |tables|
  {
    if |tables| > 0 {
      CorrectedCycleReturnsToFree(t, tables[0]);
      RunAppend(Corrected, t, RequestCycle(tables[0]), Cycles(tables[1..]));
      CorrectedCyclesRepeat(CurrentTransfer(Free, false, None), tables[1..]);
    }
  }

  /** One request cycle per table. */
  function Cycles(tables: seq<seq<PrdEntry>>): seq<Action>
    decreases |tables|
  {
    if |tables| == 0 then [] else RequestCycle(tables[0]) + Cycles(tables[1..])
  }

  lemma {:induction false} RunAppend(rev: Revision, t: CurrentTransfer, a: seq<Action>, b: seq<Action>)
    ensures Run(rev, t, a + b) ==
      match Run(rev, t, a)
      case Continue(next) => Run(rev, next, b)
      case Halted(f) => Halted(f)
      case Blocked => Blocked
    decreases |a|
  {
    if |a| == 0 {
      assert a + b == b;
    } else {
      assert (a + b)[1..] == a[1..] + b;
      assert (a + b)[0] == a[0];
      match Apply(rev, t, a[0])
      case Continue(next) => RunAppend(rev, next, a[1..], b);
      case Halted(_) =>
      case Blocked =>
    }
  }

  /**
   As written, nothing ever stores `InProgress`: every action that goes on
   leaves a record that was not `InProgress` still not `InProgress`.
   */
  lemma AsWrittenNeverInProgress(t: CurrentTransfer, a: Action)
    requires t.state != InProgress
    ensures Apply(AsWritten, t, a).Continue? ==> Apply(AsWritten, t, a).value.state != InProgress
  {
  }

  /**
   As written, from a record that is not `InProgress` (bring-up leaves it
   `Free`), any run that reaches the interrupt handler's completion stops
   there on the compare-and-swap assertion.
   */
  lemma {:induction false} AsWrittenCompletionHalts(t: CurrentTransfer, actions: seq<Action>)
    requires t.state != InProgress
    requires Complete in actions
    ensures Run(AsWritten, t, actions).Halted? || Run(AsWritten, t, actions).Blocked?
    ensures Run(AsWritten, t, actions).Halted? ==>
      Run(AsWritten, t, actions).fault in {CompareExchangeFailed, TransferNotFinished, PrdtMissing}
    decreases |actions|
  {
    var r := Apply(AsWritten, t, actions[0]);
    if actions[0] != Complete && r.Continue? {
      AsWrittenNeverInProgress(t, actions[0]);
      assert Complete in actions[1..] by {
        var i :| 0 <= i < |actions| && actions[i] == Complete;
        assert actions[1..][i - 1] == Complete;
      }
      AsWrittenCompletionHalts(r.value, actions[1..]);
    }
  }

  /** As written, the first request after bring-up dies in the interrupt handler. */
  lemma AsWrittenFirstRequestHalts(table: seq<PrdEntry>)
    ensures Run(AsWritten, InitialTransfer(), RequestCycle(table)) == Halted(CompareExchangeFailed)
  {
    var t1 := InitialTransfer().(prdt := Some(table));
    RunCons(AsWritten, InitialTransfer(), RequestCycle(table), t1);
    RunCons(AsWritten, t1, [Start, Complete, WaitReady, Reclaim], t1);
    assert [Complete, WaitReady, Reclaim][0] == Complete;
  }

  /** A run whose first action goes on continues from the record that action leaves. */
  lemma RunCons(rev: Revision, t: CurrentTransfer, actions: seq<Action>, next: CurrentTransfer)
    requires |actions| > 0 && Apply(rev, t, actions[0]) == Continue(next)
    ensures Run(rev, t, actions) == Run(rev, next, actions[1..])
  {
  }

  /** A completion cannot be taken twice without a new `Start` in between, in either revision. */
  lemma SecondCompletionHalts(rev: Revision, t: CurrentTransfer)
    ensures Run(rev, t, [Complete, Complete]).Halted?
  {
    assert [Complete, Complete][1..] == [Complete];
    assert [Complete][1..] == [];
  }
}
