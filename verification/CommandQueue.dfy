/**
 The command queue between callers and the event loop: `writeCommand`, `readCommands`,
 `processCommand` and the synchronous part of `addHandler`/`delHandler` in core/src/reactor.cpp.
 The epoll proactor runs the same protocol (core/include/join/proactor_epoll_impl.hpp).

 Callers push a command and write to an eventfd only if no earlier notification is pending, so
 wake-ups are coalesced.  Each access to the queue, the flag and the eventfd is one atomic step.
 A push reserves the next place in the ring and then publishes what it put there; until it has,
 the consumer sees an empty ring, whatever stands behind that place (core/include/join/queue.hpp).
 Pushes find room and eventfd writes succeed.  `Reactor::run` is not called again once it returned.
 */
module CommandQueue {

  type Tid = nat

  /** What sits in the queue: `sync` commands carry pointers to the caller's own cell. */
  datatype Command = Command(serial: nat, caller: Tid, sync: bool)

  /** A synchronous caller's `done` flag and error code (0: none), on its stack. */
  datatype Cell = Cell(done: bool, errc: int)

  datatype Call =
    | Idle
    | Pushing(serial: nat, sync: bool)      // has its place in the ring, not published yet
    | Announcing(serial: nat, sync: bool)   // pushed, about to exchange the flag
    | Writing(serial: nat, sync: bool)      // the flag was clear, about to write the eventfd
    | Spinning(serial: nat)                 // waiting for `done`

  datatype Loop =
    | Parked               // in epoll_wait
    | Woken                // about to read the eventfd
    | HasRead(ok: bool)    // about to clear the flag
    | Draining
    | Running(c: Command)
    | Signalling(c: Command)
    | Dispatching          // calling back the handlers of the batch
    | Exited

  /** `log` is every command pushed and `outcomes` the error of every command processed, both in
      order (history variables). */
  datatype State = State(
    queue: seq<Command>, notified: bool, eventfd: nat, running: bool, loop: Loop,
    calls: seq<Call>, cells: seq<Cell>, log: seq<Command>, outcomes: seq<int>)

  datatype Action =
    | Reserve(t: Tid, sync: bool)
    | Publish(t: Tid)
    | Exchange(t: Tid)
    | WriteEvent(t: Tid)
    | Return(t: Tid)
    | Wake
    | SpuriousWake
    | Harvest
    | ReadEvent
    | Clear
    | TryPop
    | Process(err: int, stop: bool)
    | Signal
    | Callback(stop: bool)
    | EndRound

  predicate Enabled(s: State, a: Action) {
    match a
    case Reserve(t, _) => t < |s.calls| && s.calls[t].Idle? && t < |s.cells|
    case Publish(t) => t < |s.calls| && s.calls[t].Pushing?
    case Exchange(t) => t < |s.calls| && s.calls[t].Announcing?
    case WriteEvent(t) => t < |s.calls| && s.calls[t].Writing?
    case Return(t) => t < |s.calls| && s.calls[t].Spinning? && t < |s.cells| && s.cells[t].done
    case Wake => s.loop.Parked? && s.eventfd > 0
    case SpuriousWake => s.loop.Parked?
    case Harvest => s.loop.Parked?
    case ReadEvent => s.loop.Woken?
    case Clear => s.loop.HasRead?
    case TryPop => s.loop.Draining?
    case Process(_, _) => s.loop.Running? && s.loop.c.caller < |s.cells|
    case Signal => s.loop.Signalling? && s.loop.c.caller < |s.cells|
    case Callback(_) => s.loop.Dispatching?
    case EndRound => s.loop.Dispatching?
  }

  /** After the notification a synchronous caller waits, an asynchronous one returns. */
  function AfterNotify(c: Call): Call
    requires c.Announcing? || c.Writing?
  {
    if c.sync then Spinning(c.serial) else Idle
  }

  predicate Unpublished(s: State, c: Command) {
    c.caller < |s.calls| && s.calls[c.caller] == Pushing(c.serial, c.sync)
  }

  /** What `tryPop` sees: an unpublished place hides everything behind it. */
  predicate Visible(s: State) {
    s.queue != [] && !Unpublished(s, s.queue[0])
  }

  function Apply(s: State, a: Action): State
    requires Enabled(s, a)
  {
    match a
    case Reserve(t, sync) =>
      var c := Command(|s.log|, t, sync);
      s.(queue := s.queue + [c], log := s.log + [c], cells := s.cells[t := Cell(false, 0)],
         calls := s.calls[t := Pushing(c.serial, sync)])
    case Publish(t) => s.(calls := s.calls[t := Announcing(s.calls[t].serial, s.calls[t].sync)])
    case Exchange(t) =>
      var next := if s.notified then AfterNotify(s.calls[t]) else Writing(s.calls[t].serial, s.calls[t].sync);
      s.(notified := true, calls := s.calls[t := next])
    case WriteEvent(t) => s.(eventfd := s.eventfd + 1, calls := s.calls[t := AfterNotify(s.calls[t])])
    case Return(t) => s.(calls := s.calls[t := Idle])
    case Wake => s.(loop := Woken)
    case SpuriousWake => s.(loop := Woken)
    case Harvest => s.(loop := Dispatching)
    case ReadEvent => s.(loop := HasRead(s.eventfd > 0), eventfd := 0)
    case Clear => s.(notified := false, loop := if s.loop.ok then Draining else Dispatching)
    case TryPop =>
      if Visible(s) then s.(loop := Running(s.queue[0]), queue := s.queue[1..])
      else s.(loop := Dispatching)
    case Process(err, stop) =>
      var c := s.loop.c;
      s.(loop := Signalling(c), running := s.running && !stop, outcomes := s.outcomes + [err],
         cells := if c.sync && err != 0 then s.cells[c.caller := s.cells[c.caller].(errc := err)] else s.cells)
    case Signal =>
      var c := s.loop.c;
      s.(loop := Draining,
         cells := if c.sync then s.cells[c.caller := s.cells[c.caller].(done := true)] else s.cells)
    case Callback(stop) => s.(running := s.running && !stop)
    case EndRound => s.(loop := if s.running then Parked else Exited)
  }

  function Initial(n: nat): State {
    State([], false, 0, true, Parked, seq(n, _ => Idle), seq(n, _ => Cell(false, 0)), [], [])
  }

  // ----- nothing is stranded

  predicate Pusher(s: State) { exists t :: 0 <= t < |s.calls| && s.calls[t].Pushing? }
  predicate Announcer(s: State) { exists t :: 0 <= t < |s.calls| && s.calls[t].Announcing? }
  predicate Writer(s: State) { exists t :: 0 <= t < |s.calls| && s.calls[t].Writing? }
  predicate Busy(l: Loop) { l == HasRead(true) || l.Draining? || l.Running? || l.Signalling? }

  /** A set flag or a queued command means somebody is still going to see to the queue. */
  predicate Attended(s: State) {
    && (s.notified ==> s.eventfd > 0 || Writer(s) || s.loop == HasRead(true) || s.loop.Exited?)
    && (s.queue != [] ==>
          s.eventfd > 0 || Writer(s) || Announcer(s) || Pusher(s) || Busy(s.loop) || s.loop.Exited?)
  }

  lemma {:induction false} StepKeepsAttended(s: State, a: Action)
    requires Attended(s) && Enabled(s, a)
    ensures Attended(Apply(s, a))
  {
    var s' := Apply(s, a);
    if Writer(s) && a != WriteEvent(WriterOf(s)) {
      assert s'.calls[WriterOf(s)].Writing?;
    }
    if Announcer(s) && a != Exchange(AnnouncerOf(s)) {
      assert s'.calls[AnnouncerOf(s)].Announcing?;
    }
    if Pusher(s) && a != Publish(PusherOf(s)) {
      assert s'.calls[PusherOf(s)].Pushing?;
    }
    match a
    case Reserve(t, _) => assert s'.calls[t].Pushing?;
    case Publish(t) => assert s'.calls[t].Announcing?;
    case Exchange(t) => if !s.notified { assert s'.calls[t].Writing?; }
    case _ =>
  }

  ghost function WriterOf(s: State): (t: Tid)
    requires Writer(s)
    ensures t < |s.calls| && s.calls[t].Writing?
  {
    var t :| 0 <= t < |s.calls| && s.calls[t].Writing?; t
  }

  ghost function AnnouncerOf(s: State): (t: Tid)
    requires Announcer(s)
    ensures t < |s.calls| && s.calls[t].Announcing?
  {
    var t :| 0 <= t < |s.calls| && s.calls[t].Announcing?; t
  }

  ghost function PusherOf(s: State): (t: Tid)
    requires Pusher(s)
    ensures t < |s.calls| && s.calls[t].Pushing?
  {
    var t :| 0 <= t < |s.calls| && s.calls[t].Pushing?; t
  }

  // ----- every command is processed once, in order, and its caller learns its own outcome

  /** Commands taken from the queue so far. */
  function Taken(s: State): nat { |s.outcomes| + if s.loop.Running? then 1 else 0 }

  predicate InOrder(s: State) {
    && Taken(s) <= |s.log| && s.queue == s.log[Taken(s)..]
    && (forall k :: 0 <= k < |s.log| ==> s.log[k].serial == k && s.log[k].caller < |s.calls|)
    && (s.loop.Running? ==> s.loop.c == s.log[|s.outcomes|])
    && (s.loop.Signalling? ==> |s.outcomes| > 0 && s.loop.c == s.log[|s.outcomes| - 1])
  }

  /** Commands whose caller has been told. */
  function Told(s: State): int { |s.outcomes| - if s.loop.Signalling? then 1 else 0 }

  predicate Waits(c: Call, serial: nat) {
    c == Pushing(serial, true) || c == Announcing(serial, true) || c == Writing(serial, true) || c == Spinning(serial)
  }

  /** The caller's cell says exactly what has become of its command. */
  predicate CellOk(s: State, t: Tid, serial: nat) {
    && t < |s.cells| && serial < |s.log| && s.log[serial] == Command(serial, t, true)
    && s.cells[t].done == (serial < Told(s))
    && s.cells[t].errc == if serial < |s.outcomes| then s.outcomes[serial] else 0
  }

  predicate CallOk(s: State, t: Tid)
    requires t < |s.calls|
  {
    match s.calls[t]
    case Idle => true
    case Pushing(serial, sync) => sync ==> CellOk(s, t, serial)
    case Announcing(serial, sync) => sync ==> CellOk(s, t, serial)
    case Writing(serial, sync) => sync ==> CellOk(s, t, serial)
    case Spinning(serial) => CellOk(s, t, serial)
  }

  /** The cell a pending synchronous command points to is that of a call still in progress. */
  predicate PointsToLiveCall(s: State, k: nat)
    requires k < |s.log|
  {
    s.log[k].sync && k >= Told(s) ==> s.log[k].caller < |s.calls| && Waits(s.calls[s.log[k].caller], k)
  }

  /** The loop waits for events only while it runs, and exits only when it does not. */
  predicate LoopOk(s: State) {
    && (s.loop.Exited? ==> !s.running)
    && (s.loop.Parked? || s.loop.Woken? || s.loop.HasRead? ==> s.running)
  }

  predicate Inv(s: State) {
    && |s.calls| == |s.cells|
    && Attended(s)
    && InOrder(s)
    && (forall t :: 0 <= t < |s.calls| ==> CallOk(s, t))
    && (forall k :: 0 <= k < |s.log| ==> PointsToLiveCall(s, k))
    && LoopOk(s)
  }

  predicate ByCaller(a: Action) { a.Reserve? || a.Publish? || a.Exchange? || a.WriteEvent? || a.Return? }

  lemma AppendedSuffix(log: seq<Command>, k: nat, c: Command)
    requires k <= |log|
    ensures (log + [c])[k..] == log[k..] + [c]
  {}

  lemma {:induction false} CallerKeepsOrder(s: State, a: Action)
    requires InOrder(s) && Enabled(s, a) && ByCaller(a)
    ensures InOrder(Apply(s, a))
  {
    var s' := Apply(s, a);
    assert s'.loop == s.loop && s'.outcomes == s.outcomes && |s'.calls| == |s.calls|;
    if a.Reserve? { AppendedSuffix(s.log, Taken(s), Command(|s.log|, a.t, a.sync)); }
  }

  lemma {:induction false} LoopKeepsOrder(s: State, a: Action)
    requires InOrder(s) && Enabled(s, a) && !ByCaller(a)
    ensures InOrder(Apply(s, a))
  {
    var s' := Apply(s, a);
    assert s'.log == s.log && s'.calls == s.calls;
    assert s'.queue == s'.log[Taken(s')..];
  }

  lemma {:induction false} StepKeepsOrder(s: State, a: Action)
    requires InOrder(s) && Enabled(s, a)
    ensures InOrder(Apply(s, a))
  {
    hide InOrder;
    if ByCaller(a) { CallerKeepsOrder(s, a); } else { LoopKeepsOrder(s, a); }
  }

  lemma {:induction false} CallerKeepsOthers(s: State, a: Action, t: Tid)
    requires Inv(s) && Enabled(s, a) && ByCaller(a) && t < |s.calls| && t != a.t
    ensures CallOk(Apply(s, a), t)
  {
    hide Attended, PointsToLiveCall;
    assert CallOk(s, t);
  }

  lemma {:induction false} CallerKeepsOwn(s: State, a: Action)
    requires Inv(s) && Enabled(s, a) && ByCaller(a)
    ensures a.t < |s.calls| && CallOk(Apply(s, a), a.t)
  {
    hide Attended, PointsToLiveCall;
    assert CallOk(s, a.t);
  }

  lemma {:induction false} CallerKeepsCalls(s: State, a: Action)
    requires Inv(s) && Enabled(s, a) && ByCaller(a)
    ensures forall t :: 0 <= t < |Apply(s, a).calls| ==> CallOk(Apply(s, a), t)
  {
    hide Attended, InOrder, PointsToLiveCall, CallOk;
    CallerKeepsOwn(s, a);
    forall t: Tid | t < |s.calls| && t != a.t ensures CallOk(Apply(s, a), t) { CallerKeepsOthers(s, a, t); }
  }

  /** Moves of the loop that touch no cell. */
  lemma {:induction false} MovesKeepCalls(s: State, a: Action)
    requires Inv(s) && Enabled(s, a) && !ByCaller(a) && !a.Process? && !a.Signal?
    ensures forall t :: 0 <= t < |Apply(s, a).calls| ==> CallOk(Apply(s, a), t)
  {
    hide Attended, PointsToLiveCall;
    var s' := Apply(s, a);
    assert s'.calls == s.calls && s'.cells == s.cells && s'.log == s.log && s'.outcomes == s.outcomes && Told(s') == Told(s);
    forall t | 0 <= t < |s'.calls| ensures CallOk(s', t) { assert CallOk(s, t); }
  }

  lemma {:induction false} ProcessKeepsCalls(s: State, err: int, stop: bool)
    requires Inv(s) && Enabled(s, Process(err, stop))
    ensures forall t :: 0 <= t < |Apply(s, Process(err, stop)).calls| ==> CallOk(Apply(s, Process(err, stop)), t)
  {
    var s' := Apply(s, Process(err, stop));
    assert PointsToLiveCall(s, |s.outcomes|);
    forall t | 0 <= t < |s'.calls| ensures CallOk(s', t) { assert CallOk(s, t); }
  }

  lemma {:induction false} SignalKeepsCalls(s: State)
    requires Inv(s) && Enabled(s, Signal)
    ensures forall t :: 0 <= t < |Apply(s, Signal).calls| ==> CallOk(Apply(s, Signal), t)
  {
    var s' := Apply(s, Signal);
    assert PointsToLiveCall(s, |s.outcomes| - 1);
    forall t | 0 <= t < |s'.calls| ensures CallOk(s', t) { assert CallOk(s, t); }
  }

  lemma {:induction false} CallerKeepsPointer(s: State, a: Action, k: nat)
    requires Inv(s) && Enabled(s, a) && ByCaller(a) && k < |s.log|
    ensures k < |Apply(s, a).log| && PointsToLiveCall(Apply(s, a), k)
  {
    hide Attended;
    assert PointsToLiveCall(s, k);
    if a.Return? { assert CallOk(s, a.t); }
  }

  lemma {:induction false} LoopKeepsPointer(s: State, a: Action, k: nat)
    requires Inv(s) && Enabled(s, a) && !ByCaller(a) && k < |s.log|
    ensures k < |Apply(s, a).log| && PointsToLiveCall(Apply(s, a), k)
  {
    hide Attended, InOrder, CallOk;
    assert PointsToLiveCall(s, k);
    assert Told(s) <= Told(Apply(s, a)) && Apply(s, a).calls == s.calls;
  }

  lemma {:induction false} StepKeepsPointers(s: State, a: Action)
    requires Inv(s) && Enabled(s, a)
    ensures forall k :: 0 <= k < |Apply(s, a).log| ==> PointsToLiveCall(Apply(s, a), k)
  {
    hide Attended, InOrder, CallOk;
    var s' := Apply(s, a);
    forall k: nat | k < |s'.log| ensures PointsToLiveCall(s', k) {
      if k < |s.log| {
        if ByCaller(a) { CallerKeepsPointer(s, a, k); } else { LoopKeepsPointer(s, a, k); }
      }
    }
  }

  lemma {:induction false} StepKeepsInv(s: State, a: Action)
    requires Inv(s) && Enabled(s, a)
    ensures Inv(Apply(s, a))
  {
    hide Attended, InOrder, CallOk, PointsToLiveCall;
    StepKeepsAttended(s, a);
    StepKeepsOrder(s, a);
    if ByCaller(a) {
      CallerKeepsCalls(s, a);
    } else {
      match a
      case Process(err, stop) => ProcessKeepsCalls(s, err, stop);
      case Signal => SignalKeepsCalls(s);
      case _ => MovesKeepCalls(s, a);
    }
    StepKeepsPointers(s, a);
  }

  // ----- whole runs

  predicate Schedulable(s: State, acts: seq<Action>)
    decreases |acts|
  {
    acts == [] || (Enabled(s, acts[0]) && Schedulable(Apply(s, acts[0]), acts[1..]))
  }

  function Final(s: State, acts: seq<Action>): State
    requires Schedulable(s, acts)
    decreases |acts|
  {
    if acts == [] then s else Final(Apply(s, acts[0]), acts[1..])
  }

  lemma {:induction false} RunKeepsInv(s: State, acts: seq<Action>)
    requires Inv(s) && Schedulable(s, acts)
    ensures Inv(Final(s, acts))
    decreases |acts|
  {
    if acts != [] {
      StepKeepsInv(s, acts[0]);
      RunKeepsInv(Apply(s, acts[0]), acts[1..]);
    }
  }

  lemma {:induction false} InitialHolds(n: nat)
    ensures Inv(Initial(n))
  {
    var s := Initial(n);
    assert s.log == [] && s.queue == [] && Taken(s) == 0;
    assert Attended(s) && InOrder(s);
    forall t | 0 <= t < |s.calls| ensures CallOk(s, t) {}
  }

  /** If the call of thread `t` can return, its command has been processed and its cell holds that
      command's error. */
  predicate ReturnsOwnOutcome(s: State, t: Tid) {
    Enabled(s, Return(t)) ==>
      s.calls[t].serial < |s.outcomes| && s.cells[t].errc == s.outcomes[s.calls[t].serial]
  }

  predicate ParkedIsEmpty(s: State) {
    s.loop.Parked? && s.eventfd == 0 && !Announcer(s) && !Writer(s) && !Pusher(s) ==> s.queue == []
  }

  /** Main safety result, for every run: commands are processed once each in the order they were
      pushed; the loop writes only into cells of calls in progress; a synchronous caller returns
      only after its own command was processed, and with that command's error; and when all
      callers are past their notification and the loop is parked on a zero eventfd, the queue
      is empty. */
  lemma {:induction false} NoCommandStranded(n: nat, acts: seq<Action>)
    requires Schedulable(Initial(n), acts)
    ensures InOrder(Final(Initial(n), acts))
    ensures forall k :: 0 <= k < |Final(Initial(n), acts).log| ==> PointsToLiveCall(Final(Initial(n), acts), k)
    ensures forall t :: ReturnsOwnOutcome(Final(Initial(n), acts), t)
    ensures ParkedIsEmpty(Final(Initial(n), acts))
  {
    InitialHolds(n);
    RunKeepsInv(Initial(n), acts);
    var s := Final(Initial(n), acts);
    forall t: Tid ensures ReturnsOwnOutcome(s, t) {
      if Enabled(s, Return(t)) { assert CallOk(s, t); }
    }
  }

  /** A call that has not published its command yet: the command is its own, and not taken. */
  predicate PushOk(s: State, t: Tid) {
    t < |s.calls| && s.calls[t].Pushing? ==>
      Taken(s) <= s.calls[t].serial < |s.log| && s.log[s.calls[t].serial] == Command(s.calls[t].serial, t, s.calls[t].sync)
  }

  lemma {:induction false} StepKeepsPush(s: State, a: Action, t: Tid)
    requires InOrder(s) && PushOk(s, t) && Enabled(s, a)
    ensures PushOk(Apply(s, a), t)
  {}

  lemma {:induction false} RunKeepsPush(s: State, acts: seq<Action>, t: Tid)
    requires Inv(s) && PushOk(s, t) && Schedulable(s, acts)
    ensures PushOk(Final(s, acts), t)
    decreases |acts|
  {
    hide PushOk;
    if acts != [] {
      StepKeepsInv(s, acts[0]);
      StepKeepsPush(s, acts[0], t);
      RunKeepsPush(Apply(s, acts[0]), acts[1..], t);
    }
  }

  /** Over every run: a command is not taken before its caller has published it. */
  lemma {:induction false} TakenIsPublished(n: nat, acts: seq<Action>, k: nat)
    requires Schedulable(Initial(n), acts) && k < Taken(Final(Initial(n), acts))
    ensures k < |Final(Initial(n), acts).log| && !Unpublished(Final(Initial(n), acts), Final(Initial(n), acts).log[k])
  {
    InitialHolds(n);
    RunKeepsInv(Initial(n), acts);
    var s := Final(Initial(n), acts);
    RunKeepsPush(Initial(n), acts, s.log[k].caller);
  }

  // ----- liveness: once nothing new happens, what can be done is done

  /** Steps other than a new call, an event from elsewhere and a wake-up for no reason. */
  predicate Internal(a: Action) { !a.Reserve? && !a.Harvest? && !a.Callback? && !a.SpuriousWake? }

  function CallWork(c: Call): nat {
    match c
    case Idle => 0
    case Spinning(_) => 1
    case Writing(_, _) => 8
    case Announcing(_, _) => 9
    case Pushing(_, _) => 10
  }

  function LoopWork(l: Loop): nat {
    match l
    case Parked => 0
    case Exited => 0
    case Dispatching => 1
    case Draining => 3
    case HasRead(_) => 4
    case Woken => 5
    case Signalling(_) => 4
    case Running(_) => 5
  }

  function SumWork(calls: seq<Call>): nat {
    if calls == [] then 0 else CallWork(calls[0]) + SumWork(calls[1..])
  }

  lemma {:induction false} SumWorkUpdate(calls: seq<Call>, t: Tid, c: Call)
    requires t < |calls|
    ensures SumWork(calls[t := c]) == SumWork(calls) - CallWork(calls[t]) + CallWork(c)
  {
    if t > 0 {
      assert calls[t := c][1..] == calls[1..][t - 1 := c];
      SumWorkUpdate(calls[1..], t - 1, c);
    }
  }

  /** Decreases at every internal step: a pending wake-up costs a round of the loop. */
  function Work(s: State): nat {
    SumWork(s.calls) + 10 * |s.queue| + LoopWork(s.loop) + if s.eventfd > 0 && !s.loop.Woken? then 6 else 0
  }

  lemma {:induction false} InternalStepWorks(s: State, a: Action)
    requires Enabled(s, a) && Internal(a)
    ensures Work(Apply(s, a)) < Work(s)
  {
    if a.Publish? || a.Exchange? || a.WriteEvent? || a.Return? {
      SumWorkUpdate(s.calls, a.t, Apply(s, a).calls[a.t]);
    }
  }

  predicate Served(s: State) {
    s.queue == [] && |s.outcomes| == |s.log| && forall t :: 0 <= t < |s.calls| ==> s.calls[t].Idle?
  }

  ghost predicate Stuck(s: State) { forall a :: Internal(a) ==> !Enabled(s, a) }

  /** Call `k` waits and will wait for ever. */
  predicate Hangs(s: State, k: nat) {
    k < |s.log| && s.log[k].caller < |s.calls| && s.calls[s.log[k].caller] == Spinning(k)
  }

  lemma {:induction false} LoopIsStill(s: State)
    requires Inv(s) && Stuck(s)
    ensures s.loop.Exited? || (s.loop.Parked? && s.eventfd == 0)
  {
    assert !Enabled(s, Wake) && !Enabled(s, ReadEvent) && !Enabled(s, Clear) && !Enabled(s, TryPop);
    assert !Enabled(s, Process(0, false)) && !Enabled(s, Signal) && !Enabled(s, EndRound);
  }

  /** Where nothing more can happen, the calls still waiting are exactly the synchronous ones whose
      command was not processed; everything is served exactly when the queue is empty; and it is
      empty unless the loop has exited. */
  lemma {:induction false} StuckExactly(s: State)
    requires Inv(s) && Stuck(s)
    ensures forall k :: 0 <= k < |s.log| && s.log[k].sync ==> (Hangs(s, k) <==> k >= |s.outcomes|)
    ensures forall t :: 0 <= t < |s.calls| ==> s.calls[t].Idle? || s.calls[t].Spinning?
    ensures Served(s) <==> s.queue == []
    ensures !s.loop.Exited? ==> s.queue == []
  {
    LoopIsStill(s);
    forall t | 0 <= t < |s.calls| ensures s.calls[t].Idle? || s.calls[t].Spinning? {
      assert !Enabled(s, Publish(t)) && !Enabled(s, Exchange(t)) && !Enabled(s, WriteEvent(t));
    }
    forall t | 0 <= t < |s.calls| && s.calls[t].Spinning? ensures s.calls[t].serial >= |s.outcomes| {
      assert CallOk(s, t);
      assert !Enabled(s, Return(t));
    }
    forall k | 0 <= k < |s.log| && s.log[k].sync ensures Hangs(s, k) <==> k >= |s.outcomes| {
      assert PointsToLiveCall(s, k);
    }
    forall t | 0 <= t < |s.calls| && s.calls[t].Spinning? ensures s.queue != [] { assert CallOk(s, t); }
  }

  /** Main liveness result: whatever the schedule, once calls and events stop arriving only boundedly
      many steps can happen.  When no more can, everything is served exactly when the queue is
      empty, and that it is unless the loop has exited. */
  lemma {:induction false} EveryCallerReturns(n: nat, before: seq<Action>, acts: seq<Action>)
    requires Schedulable(Initial(n), before)
    requires Schedulable(Final(Initial(n), before), acts) && forall i :: 0 <= i < |acts| ==> Internal(acts[i])
    ensures |acts| <= Work(Final(Initial(n), before))
    ensures
      var s := Final(Final(Initial(n), before), acts);
      Stuck(s) ==> (Served(s) <==> s.queue == []) && (!s.loop.Exited? ==> Served(s))
  {
    var s := Final(Initial(n), before);
    InitialHolds(n);
    RunKeepsInv(Initial(n), before);
    RunKeepsInv(s, acts);
    BoundedWork(s, acts);
    var end := Final(s, acts);
    if Stuck(end) { StuckExactly(end); }
  }

  lemma {:induction false} BoundedWork(s: State, acts: seq<Action>)
    requires Schedulable(s, acts) && forall i :: 0 <= i < |acts| ==> Internal(acts[i])
    ensures |acts| <= Work(s)
    decreases |acts|
  {
    if acts != [] {
      InternalStepWorks(s, acts[0]);
      BoundedWork(Apply(s, acts[0]), acts[1..]);
    }
  }

  // ----- what a stopped loop leaves behind

  /** Without a look at the queue nothing is processed. */
  lemma {:induction false} NothingTakenUnseen(s: State, acts: seq<Action>)
    requires Schedulable(s, acts) && !s.loop.Running? && forall i :: 0 <= i < |acts| ==> !acts[i].TryPop?
    ensures Final(s, acts).outcomes == s.outcomes && s.log <= Final(s, acts).log
    ensures s.loop.Exited? ==> Final(s, acts).loop.Exited?
    decreases |acts|
  {
    if acts != [] {
      var s' := Apply(s, acts[0]);
      assert s'.outcomes == s.outcomes && s.log <= s'.log;
      NothingTakenUnseen(s', acts[1..]);
    }
  }

  lemma {:induction false} ExitedNeverLooks(s: State, acts: seq<Action>)
    requires Schedulable(s, acts) && s.loop.Exited?
    ensures forall i :: 0 <= i < |acts| ==> !acts[i].TryPop?
    decreases |acts|
  {
    if acts != [] {
      ExitedNeverLooks(Apply(s, acts[0]), acts[1..]);
      assert forall i :: 0 < i < |acts| ==> acts[i] == acts[1..][i - 1];
    }
  }

  /** Once the loop has exited nothing more is processed, and the queue holds whatever it had not
      taken and everything pushed since.  A synchronous call then hangs exactly when its command
      was not processed before the loop exited; one that begins afterwards always does. */
  lemma {:induction false} HangsExactly(n: nat, before: seq<Action>, acts: seq<Action>)
    requires Schedulable(Initial(n), before) && Final(Initial(n), before).loop.Exited?
    requires Schedulable(Final(Initial(n), before), acts)
    ensures
      var s, end := Final(Initial(n), before), Final(Final(Initial(n), before), acts);
      && end.loop.Exited? && end.outcomes == s.outcomes && s.log <= end.log
      && |s.outcomes| <= |end.log| && end.queue == end.log[|s.outcomes|..]
      && (Stuck(end) ==>
            forall k :: 0 <= k < |end.log| && end.log[k].sync ==> (Hangs(end, k) <==> k >= |s.outcomes|))
  {
    var s := Final(Initial(n), before);
    InitialHolds(n);
    RunKeepsInv(Initial(n), before);
    RunKeepsInv(s, acts);
    ExitedNeverLooks(s, acts);
    NothingTakenUnseen(s, acts);
    if Stuck(Final(s, acts)) { StuckExactly(Final(s, acts)); }
  }

  /** Command `k` was pushed and not processed. */
  predicate LeftBehind(s: State, k: nat) { |s.outcomes| <= k < |s.log| }

  /** The loop is about to look at the queue and sees it empty. */
  predicate LooksInVain(s: State) { Enabled(s, TryPop) && !Visible(s) }

  /** And that is decided at the loop's last look at the queue: what it leaves behind is exactly what
      was not pushed by then, and what stood at or behind a place reserved and not yet published. */
  lemma {:induction false} LastLookExactly(n: nat, before: seq<Action>, acts: seq<Action>)
    requires Schedulable(Initial(n), before)
    requires LooksInVain(Final(Initial(n), before))
    requires Schedulable(Apply(Final(Initial(n), before), TryPop), acts)
    requires forall i :: 0 <= i < |acts| ==> !acts[i].TryPop?
    ensures
      var s := Final(Initial(n), before);
      var end := Final(Apply(s, TryPop), acts);
      && |s.outcomes| <= |s.log| <= |end.log|
      && forall k :: 0 <= k < |end.log| ==>
           (LeftBehind(end, k) <==>
              k >= |s.log| || (|s.outcomes| <= k && Unpublished(s, s.log[|s.outcomes|])))
  {
    var s := Final(Initial(n), before);
    InitialHolds(n);
    RunKeepsInv(Initial(n), before);
    NothingTakenUnseen(Apply(s, TryPop), acts);
    assert |s.queue| == |s.log| - |s.outcomes|;
  }

  // ----- a call that was announced before the loop exited, and hangs

  lemma {:induction false} Appended(s0: State, acts: seq<Action>, s: State, a: Action, s': State) returns (more: seq<Action>)
    requires Schedulable(s0, acts) && Final(s0, acts) == s
    requires Enabled(s, a) && Apply(s, a) == s'
    ensures more == acts + [a] && Schedulable(s0, more) && Final(s0, more) == s'
    decreases |acts|
  {
    more := acts + [a];
    if acts != [] {
      var rest := Appended(Apply(s0, acts[0]), acts[1..], s, a, s');
      assert more[1..] == rest;
    }
  }

  lemma {:induction false} StopIsTaken() returns (acts: seq<Action>)
    ensures Schedulable(Initial(1), acts)
    ensures Final(Initial(1), acts)
            == State([Command(0, 0, false)], false, 0, true, Draining, [Idle], [Cell(false, 0)], [Command(0, 0, false)], [])
  {
    hide Schedulable, Final;
    var s0, stop := Initial(1), Command(0, 0, false);
    var s := State([], false, 0, true, Parked, [Idle], [Cell(false, 0)], [], []);
    assert s0 == s;
    NoActions(s0);
    var s1 := s.(queue := [stop], log := [stop], calls := [Pushing(0, false)]);
    acts := Appended(s0, [], s, Reserve(0, false), s1);
    var s2 := s1.(calls := [Announcing(0, false)]);
    acts := Appended(s0, acts, s1, Publish(0), s2);
    var s3 := s2.(notified := true, calls := [Writing(0, false)]);
    acts := Appended(s0, acts, s2, Exchange(0), s3);
    var s4 := s3.(eventfd := 1, calls := [Idle]);
    acts := Appended(s0, acts, s3, WriteEvent(0), s4);
    acts := Appended(s0, acts, s4, Wake, s4.(loop := Woken));
    var s6 := s4.(loop := HasRead(true), eventfd := 0);
    acts := Appended(s0, acts, s4.(loop := Woken), ReadEvent, s6);
    acts := Appended(s0, acts, s6, Clear, s6.(loop := Draining, notified := false));
  }

  lemma NoActions(s: State)
    ensures Schedulable(s, []) && Final(s, []) == s
  {}

  /** The loop processes Stop and looks at the queue a last time. */
  lemma {:induction false} LastLook() returns (acts: seq<Action>)
    ensures Schedulable(Initial(1), acts)
    ensures Final(Initial(1), acts)
            == State([], false, 0, false, Dispatching, [Idle], [Cell(false, 0)], [Command(0, 0, false)], [0])
  {
    hide Schedulable, Final;
    var s0, stop := Initial(1), Command(0, 0, false);
    acts := StopIsTaken();
    var s := State([stop], false, 0, true, Draining, [Idle], [Cell(false, 0)], [stop], []);
    var s1 := s.(queue := [], loop := Running(stop));
    acts := Appended(s0, acts, s, TryPop, s1);
    var s2 := s1.(loop := Signalling(stop), running := false, outcomes := [0]);
    acts := Appended(s0, acts, s1, Process(0, true), s2);
    var s3 := s2.(loop := Draining);
    acts := Appended(s0, acts, s2, Signal, s3);
    acts := Appended(s0, acts, s3, TryPop, s3.(loop := Dispatching));
  }

  /** After that look a synchronous call pushes its command and announces it. */
  lemma {:induction false} CallIsAnnounced() returns (before: seq<Action>, call: seq<Action>)
    ensures call == [Reserve(0, true), Publish(0), Exchange(0), WriteEvent(0)]
    ensures Schedulable(Initial(1), before + call)
    ensures Final(Initial(1), before + call)
            == State([Command(1, 0, true)], true, 1, false, Dispatching, [Spinning(1)], [Cell(false, 0)],
                     [Command(0, 0, false), Command(1, 0, true)], [0])
  {
    hide Schedulable, Final;
    var s0, stop, late := Initial(1), Command(0, 0, false), Command(1, 0, true);
    before := LastLook();
    var s := State([], false, 0, false, Dispatching, [Idle], [Cell(false, 0)], [stop], [0]);
    var s1 := s.(queue := [late], log := [stop, late], calls := [Pushing(1, true)]);
    var acts := Appended(s0, before, s, Reserve(0, true), s1);
    var s2 := s1.(calls := [Announcing(1, true)]);
    acts := Appended(s0, acts, s1, Publish(0), s2);
    var s3 := s2.(notified := true, calls := [Writing(1, true)]);
    acts := Appended(s0, acts, s2, Exchange(0), s3);
    acts := Appended(s0, acts, s3, WriteEvent(0), s3.(eventfd := 1, calls := [Spinning(1)]));
    call := [Reserve(0, true), Publish(0), Exchange(0), WriteEvent(0)];
    assert acts == before + call;
  }

  /** A synchronous call that has pushed its command and written the eventfd before the loop exits,
      but after that look, waits for ever. */
  lemma {:induction false} AnnouncedCallHangs() returns (before: seq<Action>, call: seq<Action>)
    ensures call == [Reserve(0, true), Publish(0), Exchange(0), WriteEvent(0)]
    ensures Schedulable(Initial(1), before + call + [EndRound])
    ensures
      var s := Final(Initial(1), before + call + [EndRound]);
      s.loop.Exited? && s.log == [Command(0, 0, false), Command(1, 0, true)] && Hangs(s, 1) && Stuck(s)
  {
    hide Schedulable, Final;
    before, call := CallIsAnnounced();
    var s := State([Command(1, 0, true)], true, 1, false, Dispatching, [Spinning(1)], [Cell(false, 0)],
                   [Command(0, 0, false), Command(1, 0, true)], [0]);
    var _ := Appended(Initial(1), before + call, s, EndRound, s.(loop := Exited));
  }
}
