/**
 The life of an operation in the io_uring proactor
 (core/include/join/proactor_uring_impl.hpp, core/include/join/proactor.hpp): submission,
 cancellation, completion, the swap-remove vector of operations in flight with its
 back-pointers, and the event loop that may stop only when that vector is empty.

 `UringSpec` is the specification over operation numbers and a set of operations in flight;
 `UringModel` holds the mutable operations and the vector.  Completion handlers may submit and
 cancel any operation, including the one being completed.  The kernel posts one completion per
 operation in flight, and `stop` arrives as a command.
 */
module UringSpec {
  import opened OperationLog
  import opened Wrappers

  const ECANCELED: int := 125

  /** A call on the proactor thread; `sqe` says whether the submission ring had an entry left. */
  datatype Call =
    | Submit(op: Option<nat>, sqe: bool)
    | Cancel(op: Option<nat>, sqe: bool)

  /** A cancellation of `op` was accepted when the log had `at` entries. */
  datatype Ask = Ask(at: nat, op: nat)

  /** `asked` is every cancellation accepted so far, those of a stop included (a history variable, as
      is the log). */
  datatype Model = Model(fds: seq<int>, status: seq<Status>, inFlight: set<nat>, log: seq<Entry>, asked: set<Ask>)

  predicate WellFormed(m: Model) { |m.status| == |m.fds| && forall i :: i in m.inFlight ==> i < |m.status| }

  predicate Known(m: Model, op: Option<nat>) { op.Some? && op.value < |m.status| && op.value < |m.fds| }

  predicate Accepts(m: Model, c: Call) {
    Known(m, c.op) && m.fds[c.op.value] >= 0 && c.sqe &&
    match c
    case Submit(op, _) => m.status[op.value].Idle?
    case Cancel(op, _) => m.status[op.value].Submitted? && op.value in m.inFlight
  }

  function Perform(m: Model, c: Call): Model {
    if !Accepts(m, c) then m
    else match c
      case Submit(op, _) =>
        m.(status := m.status[op.value := Submitted], inFlight := m.inFlight + {op.value}, log := m.log + [Accepted(op.value)])
      case Cancel(op, _) => m.(status := m.status[op.value := Cancelling], asked := m.asked + {Ask(|m.log|, op.value)})
  }

  function PerformAll(m: Model, calls: seq<Call>): Model
    decreases |calls|
  {
    if calls == [] then m else Perform(PerformAll(m, calls[..|calls| - 1]), calls[|calls| - 1])
  }

  /** Ask the kernel to cancel every operation in flight for which a ring entry can be had. */
  function CancelAll(m: Model, sqe: set<nat>): Model { CancelThese(m, Cancellable(m, sqe)) }

  function Cancellable(m: Model, sqe: set<nat>): set<nat> {
    set i | i in m.inFlight && i in sqe && i < |m.status| && m.status[i].Submitted?
  }

  function CancelThese(m: Model, ops: set<nat>): Model {
    m.(status := seq(|m.status|, i requires 0 <= i < |m.status| => if i in ops then Cancelling else m.status[i]),
       asked := m.asked + set i | i in ops :: Ask(|m.log|, i))
  }

  lemma NoneCancelled(m: Model)
    ensures CancelThese(m, {}) == m
  {
    assert CancelThese(m, {}).status == m.status;
  }

  lemma OneMoreCancelled(m: Model, ops: set<nat>, op: nat, sqe: set<nat>)
    requires WellFormed(m) && op in m.inFlight && m.fds[op] >= 0 && op !in ops
    ensures Perform(CancelThese(m, ops), Cancel(Some(op), op in sqe))
            == CancelThese(m, if op in Cancellable(m, sqe) then ops + {op} else ops)
  {
    var here := CancelThese(m, ops);
    if op in Cancellable(m, sqe) {
      var next := CancelThese(m, ops + {op});
      assert next.status == here.status[op := Cancelling];
      assert next.asked == here.asked + {Ask(|m.log|, op)};
    }
  }

  /** A negative result counts as a cancellation if the kernel says so or one was asked for. */
  predicate Cancelled(s: Status, result: int) { result < 0 && (result == -ECANCELED || s.Cancelling?) }

  /** An operation ends: out of flight, its handler runs and makes `calls`, and only then is it
      idle again. */
  function Complete(m: Model, op: nat, result: int, calls: seq<Call>): Model
    requires op < |m.status|
  {
    var during := PerformAll(
      m.(inFlight := m.inFlight - {op}, log := m.log + [Finished(op, Cancelled(m.status[op], result), result)]), calls);
    if op < |during.status| then during.(status := during.status[op := Idle]) else during
  }

  /** A completion-queue entry; cancellation requests complete with no operation attached. */
  function Dispatch(m: Model, op: Option<nat>, result: int, calls: seq<Call>): Model {
    if !Known(m, op) || m.status[op.value].Idle? then m else Complete(m, op.value, result, calls)
  }

  datatype Command = Run(call: Call) | Stop(sqe: set<nat>) | Flush

  function Execute(m: Model, c: Command): Model {
    match c
    case Run(call) => Perform(m, call)
    case Stop(sqe) => CancelAll(m, sqe)
    case Flush => m
  }

  /** What the event loop meets next: a command taken from the queue, or a completion together
      with what its handler goes on to do. */
  datatype Turn = Take(c: Command) | Completion(op: Option<nat>, result: int, calls: seq<Call>)

  function Take1(m: Model, t: Turn): Model {
    match t
    case Take(c) => Execute(m, c)
    case Completion(op, result, calls) => Dispatch(m, op, result, calls)
  }

  // ----- the invariant

  /** `busy` is the operation whose handler is running: ended, but not idle yet. */
  ghost predicate Inv(m: Model, busy: Option<nat>) {
    && WellFormed(m)
    && LogOk(m.log)
    && (forall i :: 0 <= i < |m.status| ==> (i in m.inFlight <==> !m.status[i].Idle? && busy != Some(i)))
    && (forall i :: Open(m.log, i) <==> i in m.inFlight)
    && (busy.Some? ==> busy.value < |m.status| && !m.status[busy.value].Idle?)
  }

  lemma {:induction false} PerformKeepsInv(m: Model, busy: Option<nat>, c: Call)
    requires Inv(m, busy)
    ensures Inv(Perform(m, c), busy) && |Perform(m, c).status| == |m.status|
  {
    if Accepts(m, c) && c.Submit? { LogGrows(m.log, Accepted(c.op.value)); }
  }

  lemma {:induction false} PerformAllKeepsInv(m: Model, busy: Option<nat>, calls: seq<Call>)
    requires Inv(m, busy)
    ensures Inv(PerformAll(m, calls), busy) && |PerformAll(m, calls).status| == |m.status|
    decreases |calls|
  {
    if calls != [] {
      PerformAllKeepsInv(m, busy, calls[..|calls| - 1]);
      PerformKeepsInv(PerformAll(m, calls[..|calls| - 1]), busy, calls[|calls| - 1]);
    }
  }

  /** While its handler runs, an operation can be neither submitted nor cancelled. */
  lemma {:induction false} BusyIsUntouchable(m: Model, calls: seq<Call>, op: nat)
    requires op < |m.status| && !m.status[op].Idle? && op !in m.inFlight
    ensures op < |PerformAll(m, calls).status| && PerformAll(m, calls).status[op] == m.status[op]
    ensures op !in PerformAll(m, calls).inFlight
    decreases |calls|
  {
    if calls != [] { BusyIsUntouchable(m, calls[..|calls| - 1], op); }
  }

  lemma {:induction false} CancelAllKeepsInv(m: Model, sqe: set<nat>)
    requires Inv(m, None)
    ensures Inv(CancelAll(m, sqe), None)
  {}

  lemma {:induction false} CompleteKeepsInv(m: Model, op: nat, result: int, calls: seq<Call>)
    requires Inv(m, None) && op in m.inFlight
    ensures Inv(Complete(m, op, result, calls), None) && |Complete(m, op, result, calls).status| == |m.status|
  {
    var e := Finished(op, Cancelled(m.status[op], result), result);
    LogGrows(m.log, e);
    PerformAllKeepsInv(m.(inFlight := m.inFlight - {op}, log := m.log + [e]), Some(op), calls);
  }

  /** The kernel completes only operations in flight. */
  predicate Possible(m: Model, t: Turn) {
    t.Completion? && t.op.Some? ==> t.op.value in m.inFlight
  }

  lemma {:induction false} TurnKeepsInv(m: Model, t: Turn)
    requires Inv(m, None) && Possible(m, t)
    ensures Inv(Take1(m, t), None) && |Take1(m, t).status| == |m.status|
  {
    match t
    case Take(Run(call)) => PerformKeepsInv(m, None, call);
    case Take(Stop(sqe)) => CancelAllKeepsInv(m, sqe);
    case Take(Flush) =>
    case Completion(op, result, calls) =>
      if op.Some? { CompleteKeepsInv(m, op.value, result, calls); }
  }

  // ----- whole runs

  predicate Feasible(m: Model, turns: seq<Turn>)
    decreases |turns|
  {
    turns == [] || (Feasible(m, turns[..|turns| - 1]) && Possible(After(m, turns[..|turns| - 1]), turns[|turns| - 1]))
  }

  function After(m: Model, turns: seq<Turn>): Model
    decreases |turns|
  {
    if turns == [] then m else Take1(After(m, turns[..|turns| - 1]), turns[|turns| - 1])
  }

  /** The turns of all batches, in order. */
  function Joined(batches: seq<seq<Turn>>): seq<Turn>
    decreases |batches|
  {
    if batches == [] then [] else Joined(batches[..|batches| - 1]) + batches[|batches| - 1]
  }

  predicate Stops(turns: seq<Turn>) { exists i :: 0 <= i < |turns| && turns[i].Take? && turns[i].c.Stop? }

  /** Whether a loop that began in `m` goes on after these turns: until it was stopped and nothing is
      in flight. */
  predicate GoesOn(m: Model, running: bool, turns: seq<Turn>) {
    (running && !Stops(turns)) || After(m, turns).inFlight != {}
  }

  lemma OneMoreTurn(m: Model, turns: seq<Turn>, t: Turn)
    ensures After(m, turns + [t]) == Take1(After(m, turns), t)
    ensures Stops(turns + [t]) <==> Stops(turns) || (t.Take? && t.c.Stop?)
  {
    var more := turns + [t];
    assert more[..|turns|] == turns;
    assert more[|turns|] == t;
    if i :| 0 <= i < |turns| && turns[i].Take? && turns[i].c.Stop? { assert more[i] == turns[i]; }
  }

  lemma {:induction false} RunKeepsInv(m: Model, turns: seq<Turn>)
    requires Inv(m, None) && Feasible(m, turns)
    ensures Inv(After(m, turns), None)
    decreases |turns|
  {
    if turns != [] {
      RunKeepsInv(m, turns[..|turns| - 1]);
      TurnKeepsInv(After(m, turns[..|turns| - 1]), turns[|turns| - 1]);
    }
  }

  function Fresh(fds: seq<int>): Model { Model(fds, seq(|fds|, _ => Idle), {}, [], {}) }

  /** Main result over every run: acceptances and endings alternate for each operation, only
      negative results are reported as cancellations, and once nothing is in flight every accepted
      operation has been ended exactly once before it was accepted again. */
  lemma {:induction false} EveryOperationEndsOnce(fds: seq<int>, turns: seq<Turn>)
    requires Feasible(Fresh(fds), turns)
    ensures
      var m := After(Fresh(fds), turns);
      && LogOk(m.log)
      && (forall i :: Open(m.log, i) <==> i in m.inFlight)
      && (forall i :: 0 <= i < |m.status| ==> (i in m.inFlight <==> !m.status[i].Idle?))
      && (m.inFlight == {} ==>
            forall i :: 0 <= i < |m.log| && m.log[i].Accepted? ==> exists j :: i < j < |m.log| && EndsAt(m.log, i, j))
  {
    RunKeepsInv(Fresh(fds), turns);
    var m := After(Fresh(fds), turns);
    if m.inFlight == {} {
      forall i | 0 <= i < |m.log| && m.log[i].Accepted? ensures exists j :: i < j < |m.log| && EndsAt(m.log, i, j) {
        AcceptedThenEnded(m.log, i);
      }
    }
  }

  // ----- what is reported as a cancellation

  /** A cancellation of `op` was accepted after entry `i` and before entry `j`. */
  ghost predicate AskedBetween(asked: set<Ask>, op: nat, i: nat, j: nat) {
    exists a :: a in asked && a.op == op && i < a.at <= j
  }

  /** An operation in flight is marked exactly when its cancellation was accepted since it was. */
  ghost predicate MarkOk(m: Model, op: nat) {
    forall i: nat :: op in m.inFlight && op < |m.status| && LastAccepted(m.log, op, i) ==>
      (m.status[op].Cancelling? <==> AskedBetween(m.asked, op, i, |m.log|))
  }

  /** An ending is reported as a cancellation exactly when its result is an error and either that is
      the kernel's own word for it, or a cancellation was accepted while the operation was in flight. */
  ghost predicate ReportOk(m: Model, i: nat, j: nat) {
    EndsAt(m.log, i, j) ==>
      (m.log[j].cancelled <==>
         m.log[j].result < 0 && (m.log[j].result == -ECANCELED || AskedBetween(m.asked, m.log[j].op, i, j)))
  }

  ghost predicate ReportsOk(m: Model) {
    && (forall a :: a in m.asked ==> a.at <= |m.log|)
    && (forall op :: MarkOk(m, op))
    && (forall i, j :: ReportOk(m, i, j))
  }

  lemma LastAcceptedOnward(log: seq<Entry>, e: Entry, op: nat, i: nat)
    requires LastAccepted(log + [e], op, i)
    ensures if e.op == op then e.Accepted? && i == |log| else LastAccepted(log, op, i)
  {
    assert (log + [e])[|log|] == e;
    assert forall k :: 0 <= k < |log| ==> (log + [e])[k] == log[k];
  }

  lemma EndsBefore(log: seq<Entry>, e: Entry, i: nat, j: nat)
    requires EndsAt(log + [e], i, j)
    ensures if j < |log| then EndsAt(log, i, j) else j == |log| && e.Finished? && LastAccepted(log, e.op, i)
  {
    assert forall k :: 0 <= k < |log| ==> (log + [e])[k] == log[k];
    assert (log + [e])[|log|] == e;
  }

  lemma {:induction false} SubmitKeepsReports(m: Model, busy: Option<nat>, c: Call)
    requires Inv(m, busy) && ReportsOk(m) && c.Submit? && Accepts(m, c)
    ensures ReportsOk(Perform(m, c))
  {
    hide LogOk, Open;
    var n, e := Perform(m, c), Accepted(c.op.value);
    forall op: nat ensures MarkOk(n, op) {
      forall i: nat | op in n.inFlight && LastAccepted(n.log, op, i)
        ensures n.status[op].Cancelling? <==> AskedBetween(n.asked, op, i, |n.log|)
      {
        LastAcceptedOnward(m.log, e, op, i);
        if op != e.op { assert MarkOk(m, op); }
      }
    }
    forall i, j ensures ReportOk(n, i, j) {
      if EndsAt(n.log, i, j) {
        EndsBefore(m.log, e, i, j);
        assert ReportOk(m, i, j);
      }
    }
  }

  /** Cancellations accepted now concern no earlier ending, and mark what they concern. */
  lemma {:induction false} AskKeepsReports(m: Model, n: Model, ops: set<nat>)
    requires ReportsOk(m) && n.log == m.log && n.inFlight == m.inFlight && |n.status| == |m.status|
    requires n.asked == m.asked + set o | o in ops :: Ask(|m.log|, o)
    requires forall o :: 0 <= o < |m.status| && o in m.inFlight ==>
               (n.status[o].Cancelling? <==> m.status[o].Cancelling? || o in ops)
    ensures ReportsOk(n)
  {
    forall op ensures MarkOk(n, op) {
      assert MarkOk(m, op);
      if op in ops { assert Ask(|m.log|, op) in n.asked; }
    }
    forall i: nat, j: nat ensures ReportOk(n, i, j) { assert ReportOk(m, i, j); }
  }

  lemma {:induction false} FinishKeepsReports(m: Model, op: nat, result: int)
    requires Inv(m, None) && ReportsOk(m) && op in m.inFlight
    ensures ReportsOk(m.(inFlight := m.inFlight - {op}, log := m.log + [Finished(op, Cancelled(m.status[op], result), result)]))
  {
    hide LogOk, Open;
    var e := Finished(op, Cancelled(m.status[op], result), result);
    var n := m.(inFlight := m.inFlight - {op}, log := m.log + [e]);
    forall o: nat ensures MarkOk(n, o) {
      forall i: nat | o in n.inFlight && o < |n.status| && LastAccepted(n.log, o, i)
        ensures n.status[o].Cancelling? <==> AskedBetween(n.asked, o, i, |n.log|)
      {
        LastAcceptedOnward(m.log, e, o, i);
        assert MarkOk(m, o);
      }
    }
    forall i: nat, j: nat ensures ReportOk(n, i, j) {
      if EndsAt(n.log, i, j) {
        EndsBefore(m.log, e, i, j);
        assert ReportOk(m, i, j) && MarkOk(m, op);
      }
    }
  }

  lemma {:induction false} PerformKeepsReports(m: Model, busy: Option<nat>, c: Call)
    requires Inv(m, busy) && ReportsOk(m)
    ensures ReportsOk(Perform(m, c))
  {
    hide ReportsOk;
    if Accepts(m, c) {
      if c.Submit? {
        SubmitKeepsReports(m, busy, c);
      } else {
        assert (set o | o in {c.op.value} :: Ask(|m.log|, o)) == {Ask(|m.log|, c.op.value)};
        AskKeepsReports(m, Perform(m, c), {c.op.value});
      }
    }
  }

  lemma {:induction false} PerformAllKeepsReports(m: Model, busy: Option<nat>, calls: seq<Call>)
    requires Inv(m, busy) && ReportsOk(m)
    ensures ReportsOk(PerformAll(m, calls))
    decreases |calls|
  {
    if calls != [] {
      var front := calls[..|calls| - 1];
      PerformAllKeepsInv(m, busy, front);
      PerformAllKeepsReports(m, busy, front);
      PerformKeepsReports(PerformAll(m, front), busy, calls[|calls| - 1]);
    }
  }

  lemma {:induction false} CompleteKeepsReports(m: Model, op: nat, result: int, calls: seq<Call>)
    requires Inv(m, None) && ReportsOk(m) && op in m.inFlight
    ensures ReportsOk(Complete(m, op, result, calls))
  {
    var e := Finished(op, Cancelled(m.status[op], result), result);
    var n := m.(inFlight := m.inFlight - {op}, log := m.log + [e]);
    LogGrows(m.log, e);
    FinishKeepsReports(m, op, result);
    PerformAllKeepsReports(n, Some(op), calls);
    PerformAllKeepsInv(n, Some(op), calls);
    BusyIsUntouchable(n, calls, op);
    IdleKeepsReports(PerformAll(n, calls), op);
  }

  lemma {:induction false} IdleKeepsReports(m: Model, op: nat)
    requires ReportsOk(m) && op < |m.status| && op !in m.inFlight
    ensures ReportsOk(m.(status := m.status[op := Idle]))
  {
    var n := m.(status := m.status[op := Idle]);
    forall o ensures MarkOk(n, o) { assert MarkOk(m, o); }
    forall i: nat, j: nat ensures ReportOk(n, i, j) { assert ReportOk(m, i, j); }
  }

  lemma {:induction false} TurnKeepsReports(m: Model, t: Turn)
    requires Inv(m, None) && ReportsOk(m) && Possible(m, t)
    ensures ReportsOk(Take1(m, t))
  {
    hide ReportsOk;
    match t
    case Take(Run(call)) => PerformKeepsReports(m, None, call);
    case Take(Stop(sqe)) =>
      AskKeepsReports(m, CancelAll(m, sqe), Cancellable(m, sqe));
    case Take(Flush) =>
    case Completion(op, result, calls) =>
      if op.Some? { CompleteKeepsReports(m, op.value, result, calls); }
  }

  lemma {:induction false} RunKeepsReports(m: Model, turns: seq<Turn>)
    requires Inv(m, None) && ReportsOk(m) && Feasible(m, turns)
    ensures ReportsOk(After(m, turns))
    decreases |turns|
  {
    if turns != [] {
      RunKeepsInv(m, turns[..|turns| - 1]);
      RunKeepsReports(m, turns[..|turns| - 1]);
      TurnKeepsReports(After(m, turns[..|turns| - 1]), turns[|turns| - 1]);
    }
  }

  /** A completion ends the operation it names with the result it brings, before its handler makes a
      call; one that names none changes nothing. */
  lemma {:induction false} CompletionEndsFirst(m: Model, op: Option<nat>, result: int, calls: seq<Call>)
    requires Inv(m, None) && (op.Some? ==> op.value in m.inFlight)
    ensures
      var n := Take1(m, Completion(op, result, calls));
      if op.None? then n == m
      else m.log < n.log && n.log[|m.log|].Finished? && n.log[|m.log|].op == op.value && n.log[|m.log|].result == result
  {
    if op.Some? {
      var e := Finished(op.value, Cancelled(m.status[op.value], result), result);
      CallsGrowLog(m.(inFlight := m.inFlight - {op.value}, log := m.log + [e]), calls);
      assert (m.log + [e])[|m.log|] == e;
    }
  }

  lemma {:induction false} CallsGrowLog(m: Model, calls: seq<Call>)
    ensures m.log <= PerformAll(m, calls).log
    decreases |calls|
  {
    if calls != [] { CallsGrowLog(m, calls[..|calls| - 1]); }
  }

  /** In flight, and not yet asked to end. */
  ghost predicate Undisturbed(m: Model, op: nat) {
    Open(m.log, op) && !exists i: nat :: LastAccepted(m.log, op, i) && AskedBetween(m.asked, op, i, |m.log|)
  }

  lemma {:induction false} UndisturbedIsSubmitted(m: Model, op: nat)
    requires Inv(m, None) && ReportsOk(m) && op < |m.status|
    ensures Undisturbed(m, op) <==> op in m.inFlight && m.status[op].Submitted?
  {
    if op in m.inFlight {
      var i := OpenIsAccepted(m.log, op);
      assert MarkOk(m, op);
      forall k: nat | LastAccepted(m.log, op, k) ensures k == i {}
    }
  }

  /** Main result on cancellation, over every run: what is reported, and what is accepted, by the
      record alone.  A submission is accepted exactly when the operation is not in flight; a
      cancellation exactly when it is, and was not cancelled since; a stop asks for every operation
      in flight for which the ring has room.  What is not accepted changes nothing. */
  lemma {:induction false} CancellationsAreReported(fds: seq<int>, turns: seq<Turn>)
    requires Feasible(Fresh(fds), turns)
    ensures forall i, j :: ReportOk(After(Fresh(fds), turns), i, j)
    ensures
      var m := After(Fresh(fds), turns);
      && |m.status| == |fds| && m.fds == fds
      && (forall op: nat, sqe :: SubmitTaken(m, op, sqe) && CancelTaken(m, op, sqe))
      && (forall sqe :: StopTaken(m, sqe))
  {
    var m := After(Fresh(fds), turns);
    RunKeepsInv(Fresh(fds), turns);
    RunKeepsReports(Fresh(fds), turns);
    SameOperations(fds, turns);
    forall op: nat, sqe ensures SubmitTaken(m, op, sqe) && CancelTaken(m, op, sqe) {
      if op < |fds| { UndisturbedIsSubmitted(m, op); }
    }
    forall sqe ensures StopTaken(m, sqe) {
      forall op: nat | op < |fds| ensures Undisturbed(m, op) <==> op in m.inFlight && m.status[op].Submitted? {
        UndisturbedIsSubmitted(m, op);
      }
      StopAsks(m, sqe);
    }
  }

  ghost predicate SubmitTaken(m: Model, op: nat, sqe: bool) {
    var n := Perform(m, Submit(Some(op), sqe));
    if op < |m.fds| && m.fds[op] >= 0 && sqe && !Open(m.log, op) then n.log == m.log + [Accepted(op)] && n.asked == m.asked
    else n == m
  }

  ghost predicate CancelTaken(m: Model, op: nat, sqe: bool) {
    var n := Perform(m, Cancel(Some(op), sqe));
    if op < |m.fds| && m.fds[op] >= 0 && sqe && Undisturbed(m, op) then
      n.log == m.log && n.asked == m.asked + {Ask(|m.log|, op)}
    else n == m
  }

  ghost predicate StopTaken(m: Model, sqe: set<nat>) {
    var n := CancelAll(m, sqe);
    n.log == m.log && forall a ::
      a in n.asked <==> a in m.asked || (a.at == |m.log| && a.op < |m.fds| && a.op in sqe && Undisturbed(m, a.op))
  }

  lemma StopAsks(m: Model, sqe: set<nat>)
    requires WellFormed(m)
    requires forall op :: 0 <= op < |m.fds| ==> (Undisturbed(m, op) <==> op in m.inFlight && m.status[op].Submitted?)
    ensures StopTaken(m, sqe)
  {
    hide Undisturbed;
    var n := CancelAll(m, sqe);
    forall a ensures a in n.asked <==> a in m.asked || (a.at == |m.log| && a.op < |m.fds| && a.op in sqe && Undisturbed(m, a.op)) {
      assert a == Ask(a.at, a.op);
    }
  }

  lemma {:induction false} SameOperations(fds: seq<int>, turns: seq<Turn>)
    ensures After(Fresh(fds), turns).fds == fds && |After(Fresh(fds), turns).status| == |fds|
    decreases |turns|
  {
    if turns != [] {
      var front, t := turns[..|turns| - 1], turns[|turns| - 1];
      SameOperations(fds, front);
      if t.Completion? && Known(After(Fresh(fds), front), t.op) {
        var m := After(Fresh(fds), front);
        var e := Finished(t.op.value, Cancelled(m.status[t.op.value], t.result), t.result);
        CallsKeepOperations(m.(inFlight := m.inFlight - {t.op.value}, log := m.log + [e]), t.calls);
      }
    }
  }

  lemma {:induction false} CallsKeepOperations(m: Model, calls: seq<Call>)
    ensures PerformAll(m, calls).fds == m.fds && |PerformAll(m, calls).status| == |m.status|
    decreases |calls|
  {
    if calls != [] { CallsKeepOperations(m, calls[..|calls| - 1]); }
  }
}

module UringModel {
  import opened OperationLog
  import opened UringSpec
  import opened Wrappers

  class IoOperation {
    const id: nat      // stands for the address of the operation
    const fd: int
    var state: Status
    var index: nat     // position in the vector of operations in flight

    constructor (id: nat, fd: int)
      ensures this.id == id && this.fd == fd && state == Idle
    {
      this.id, this.fd := id, fd;
      state, index := Idle, 0;
    }
  }

  class Proactor {
    const world: seq<IoOperation>   // every operation there is
    var pendingOps: seq<IoOperation>
    var running: bool
    ghost var log: seq<Entry>
    ghost var asked: set<Ask>

    /** Each entry of the vector knows its own position, so no operation is there twice. */
    ghost predicate Valid()
      reads this, world
    {
      && (forall i :: 0 <= i < |world| ==> world[i].id == i)
      && (forall i :: 0 <= i < |pendingOps| ==> InWorld(pendingOps[i]))
      && (forall i :: 0 <= i < |pendingOps| ==> pendingOps[i].index == i && !pendingOps[i].state.Idle? && pendingOps[i].fd >= 0)
    }

    ghost predicate InWorld(op: IoOperation) { op.id < |world| && world[op.id] == op }

    ghost predicate Pending(i: nat)
      reads this
    {
      exists k :: 0 <= k < |pendingOps| && pendingOps[k].id == i
    }

    ghost function Abs(): Model
      requires Valid()
      reads this, world
    {
      Model(
        seq(|world|, i requires 0 <= i < |world| => world[i].fd),
        seq(|world|, i requires 0 <= i < |world| reads world => world[i].state),
        (set i | 0 <= i < |world| && Pending(i)),
        log, asked)
    }

    ghost function Name(op: IoOperation?): Option<nat> { if op == null then None else Some(op.id) }

    constructor (world: seq<IoOperation>)
      requires forall i :: 0 <= i < |world| ==> world[i].id == i && world[i].state == Idle
      ensures Valid() && this.world == world && running
      ensures Abs() == Fresh(Abs().fds)
    {
      this.world := world;
      pendingOps, running, log, asked := [], true, [], {};
    }

    method SubmitOperation(op: IoOperation?, sqe: bool) returns (err: int)
      requires Valid() && (op != null ==> InWorld(op))
      modifies this, world
      ensures Valid() && running == old(running)
      ensures Abs() == Perform(old(Abs()), Submit(Name(op), sqe))
      ensures err == if Accepts(old(Abs()), Submit(Name(op), sqe)) then 0 else -1
    {
      if op == null { return -1; }
      if op.fd < 0 { return -1; }
      if op.state != Idle { return -1; }
      if !sqe { return -1; }
      ghost var before := Abs();
      op.state := Submitted;
      op.index := |pendingOps|;
      pendingOps := pendingOps + [op];
      log := log + [Accepted(op.id)];
      forall i | 0 <= i < |world| ensures Pending(i) <==> i in before.inFlight || i == op.id {
        if i == op.id { assert pendingOps[|pendingOps| - 1].id == i; }
        if i in before.inFlight { var k :| 0 <= k < |pendingOps| - 1 && old(pendingOps)[k].id == i; assert pendingOps[k].id == i; }
      }
      assert Abs().inFlight == before.inFlight + {op.id};
      assert Abs().status == before.status[op.id := Submitted];
      return 0;
    }

    method CancelOperation(op: IoOperation?, sqe: bool) returns (err: int)
      requires Valid() && (op != null ==> InWorld(op))
      modifies this`asked, world
      ensures Valid() && running == old(running)
      ensures Abs() == Perform(old(Abs()), Cancel(Name(op), sqe))
      ensures err == if Accepts(old(Abs()), Cancel(Name(op), sqe)) then 0 else -1
      ensures forall o :: o in world && o != op ==> o.state == old(o.state)
    {
      if op == null { return -1; }
      if op.fd < 0 { return -1; }
      if op.state != Submitted { return -1; }
      if op.index >= |pendingOps| || pendingOps[op.index] != op { return -1; }
      if !sqe { return -1; }
      ghost var before := Abs();
      assert Pending(op.id);
      op.state := Cancelling;
      asked := asked + {Ask(|log|, op.id)};
      assert Abs().inFlight == before.inFlight;
      assert Abs().status == before.status[op.id := Cancelling];
      return 0;
    }

    method CancelAllOperations(sqe: set<nat>)
      requires Valid()
      modifies this`asked, world
      ensures Valid() && running == old(running)
      ensures Abs() == CancelAll(old(Abs()), sqe)
    {
      ghost var before, ops := Abs(), {};
      var i := 0;
      assert CancelThese(before, {}) == before by { NoneCancelled(before); }
      while i < |pendingOps|
        invariant 0 <= i <= |pendingOps|
        invariant Valid() && Abs() == CancelThese(before, ops)
        invariant forall op :: op in ops <==> op in Cancellable(before, sqe) && exists k :: 0 <= k < i && pendingOps[k].id == op
      {
        hide CancelThese;
        var op := pendingOps[i].id;
        assert Pending(op);
        OneMoreCancelled(before, ops, op, sqe);
        var _ := CancelOperation(pendingOps[i], op in sqe);
        if op in Cancellable(before, sqe) { ops := ops + {op}; }
        i := i + 1;
      }
      assert ops == Cancellable(before, sqe) by {
        forall op | op in Cancellable(before, sqe) ensures op in ops { assert Pending(op); }
      }
    }

    function Find(op: Option<nat>): IoOperation?
    {
      if op.Some? && op.value < |world| then world[op.value] else null
    }

    /** The calls a completion handler makes, in order. */
    method RunHandler(calls: seq<Call>)
      requires Valid()
      modifies this, world
      ensures Valid() && running == old(running)
      ensures Abs() == PerformAll(old(Abs()), calls)
    {
      var i := 0;
      while i < |calls|
        invariant 0 <= i <= |calls|
        invariant Valid() && running == old(running)
        invariant Abs() == PerformAll(old(Abs()), calls[..i])
      {
        assert calls[..i + 1][..i] == calls[..i];
        match calls[i] {
          case Submit(op, sqe) => var _ := SubmitOperation(Find(op), sqe);
          case Cancel(op, sqe) => var _ := CancelOperation(Find(op), sqe);
        }
        i := i + 1;
      }
      assert calls[..i] == calls;
    }

    /** Move the last entry of the vector into the place of `op`. */
    method SwapRemove(op: IoOperation)
      requires Valid() && InWorld(op)
      modifies this, world
      ensures Valid() && running == old(running) && log == old(log)
      ensures Abs() == old(Abs()).(inFlight := old(Abs()).inFlight - {op.id})
    {
      ghost var before := Abs();
      if op.index < |pendingOps| && pendingOps[op.index] == op {
        ghost var at, was := op.index, pendingOps;
        var last := pendingOps[|pendingOps| - 1];
        pendingOps := pendingOps[op.index := last];
        last.index := op.index;
        pendingOps := pendingOps[..|pendingOps| - 1];
        forall i | 0 <= i < |world| ensures Pending(i) <==> i in before.inFlight && i != op.id {
          if i in before.inFlight && i != op.id {
            var k :| 0 <= k < |was| && was[k].id == i;
            assert pendingOps[if k == |was| - 1 then at else k].id == i;
          }
          if k :| 0 <= k < |pendingOps| && pendingOps[k].id == i {
            assert was[if k == at then |was| - 1 else k].id == i;
          }
        }
      } else {
        assert !Pending(op.id);
      }
      assert Abs().inFlight == before.inFlight - {op.id};
      assert Abs().status == before.status;
    }

    /** End an operation: its handler is told, and it becomes idle when the handler returns. */
    method EndOperation(op: IoOperation, result: int, cancelled: bool, calls: seq<Call>)
      requires Valid() && InWorld(op) && !op.state.Idle?
      requires cancelled == Cancelled(op.state, result)
      modifies this, world
      ensures Valid() && running == old(running)
      ensures Abs() == Complete(old(Abs()), op.id, result, calls)
    {
      ghost var before := Abs();
      assert before.status[op.id] == op.state;
      SwapRemove(op);
      ghost var removed := Abs();
      log := log + [Finished(op.id, cancelled, result)];
      assert Abs().inFlight == removed.inFlight && Abs().status == removed.status;
      assert Abs() == before.(inFlight := before.inFlight - {op.id},
                              log := before.log + [Finished(op.id, Cancelled(before.status[op.id], result), result)]);
      BusyIsUntouchable(Abs(), calls, op.id);
      RunHandler(calls);
      ghost var during := Abs();
      assert !Pending(op.id);
      op.state := Idle;
      assert Abs().inFlight == during.inFlight;
      assert Abs().status == during.status[op.id := Idle];
    }

    method DispatchCqe(op: IoOperation?, result: int, calls: seq<Call>)
      requires Valid() && (op != null ==> InWorld(op))
      modifies this, world
      ensures Valid() && running == old(running)
      ensures Abs() == Dispatch(old(Abs()), Name(op), result, calls)
    {
      if op == null { return; }
      if op.state == Idle { return; }
      var cancelled := result < 0 && (result == -ECANCELED || op.state == Cancelling);
      EndOperation(op, result, cancelled, calls);
    }

    method ProcessCommand(c: Command)
      requires Valid()
      modifies this, world
      ensures Valid() && running == (old(running) && !c.Stop?)
      ensures Abs() == Execute(old(Abs()), c)
    {
      match c
      case Run(Submit(op, sqe)) => var _ := SubmitOperation(Find(op), sqe);
      case Run(Cancel(op, sqe)) => var _ := CancelOperation(Find(op), sqe);
      case Stop(sqe) =>
        running := false;
        CancelAllOperations(sqe);
      case Flush =>
    }

    method TakeTurn(t: Turn)
      requires Valid()
      modifies this, world
      ensures Valid() && running == (old(running) && !(t.Take? && t.c.Stop?))
      ensures Abs() == Take1(old(Abs()), t)
    {
      match t
      case Take(c) => ProcessCommand(c);
      case Completion(op, result, calls) => DispatchCqe(Find(op), result, calls);
    }

    /** The turns of one batch are taken whatever becomes of the loop condition meanwhile. */
    method Drain(batch: seq<Turn>, ghost m: Model, ghost ran: bool, ghost turns: seq<Turn>)
      requires Valid() && Abs() == After(m, turns) && running == (ran && !Stops(turns))
      modifies this, world
      ensures Valid() && Abs() == After(m, turns + batch) && running == (ran && !Stops(turns + batch))
    {
      assert turns + batch[..0] == turns;
      var i := 0;
      while i < |batch|
        invariant 0 <= i <= |batch|
        invariant Valid()
        invariant Abs() == After(m, turns + batch[..i]) && running == (ran && !Stops(turns + batch[..i]))
      {
        OneMoreTurn(m, turns + batch[..i], batch[i]);
        assert turns + batch[..i + 1] == turns + batch[..i] + [batch[i]];
        TakeTurn(batch[i]);
        i := i + 1;
      }
      assert batch[..i] == batch;
    }

    /** The event loop over any supply of batches: what is ready when the loop looks is drained, and
        only then does it look whether to go on.  It leaves off exactly when it has been stopped
        and nothing is in flight. */
    method EventLoop(batches: seq<seq<Turn>>) returns (taken: nat)
      requires Valid()
      modifies this, world
      ensures Valid() && taken <= |batches|
      ensures Abs() == After(old(Abs()), Joined(batches[..taken]))
      ensures running == (old(running) && !Stops(Joined(batches[..taken])))
      ensures forall k :: 0 <= k < taken ==> GoesOn(old(Abs()), old(running), Joined(batches[..k]))
      ensures taken < |batches| ==> !GoesOn(old(Abs()), old(running), Joined(batches[..taken]))
    {
      ghost var m, ran := Abs(), running;
      taken := 0;
      while (running || |pendingOps| > 0) && taken < |batches|
        invariant taken <= |batches|
        invariant Valid()
        invariant Abs() == After(m, Joined(batches[..taken])) && running == (ran && !Stops(Joined(batches[..taken])))
        invariant forall k :: 0 <= k < taken ==> GoesOn(m, ran, Joined(batches[..k]))
      {
        EmptyExactly();
        assert batches[..taken + 1][..taken] == batches[..taken];
        Drain(batches[taken], m, ran, Joined(batches[..taken]));
        taken := taken + 1;
      }
      EmptyExactly();
    }

    lemma EmptyExactly()
      requires Valid()
      ensures |pendingOps| == 0 <==> Abs().inFlight == {}
    {
      if |pendingOps| > 0 { assert pendingOps[0].id in Abs().inFlight; }
    }
  }
}
