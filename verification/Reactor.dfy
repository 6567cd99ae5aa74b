/**
 Handler bookkeeping of the reactor (core/src/reactor.cpp): registration, deferred deletion,
 dispatch of a batch of events and the purge at its end, with handlers that register and
 unregister from inside their callbacks.

 `PlainReactor` is the specification: one map from descriptor to handler, changed at once.
 `Reactor` holds the code's two containers; every method is proved to do to the plain map what
 its specification does.
 */
module PlainReactor {
  import opened Wrappers

  type Fd = int
  type Handler = nat

  /** Error of an EPOLL_CTL_DEL the kernel refuses. */
  datatype Refusal = NoEntry | BadDescriptor | OtherError

  /** A call to the reactor from its own thread, with the kernel's answer where it has a choice:
      whether it accepts an addition or modification, and why it would refuse a removal.  `Close`
      is the program closing a descriptor, which makes the kernel forget it. */
  datatype Op =
    | Add(fd: Fd, handler: Option<Handler>, wantRead: bool, wantWrite: bool, accepted: bool)
    | Del(fd: Fd, refusal: Refusal)
    | Close(fd: Fd)

  datatype Interest = Interest(read: bool, write: bool)

  datatype Kind = OnError | OnClose | OnReadable | OnWriteable

  /** An event harvested by epoll_wait. */
  datatype Event = Event(fd: Fd, err: bool, rdhup: bool, hup: bool, readable: bool, writeable: bool)

  /** An addition is recorded with the call that asked for it. */
  datatype Entry =
    | Added(fd: Fd, handler: Handler, call: Op)
    | Removed(fd: Fd, ok: bool)
    | Called(fd: Fd, handler: Handler, kind: Kind)

  /** The handlers in force, the kernel's interest list, and what has happened so far. */
  datatype Plain = Plain(active: map<Fd, Handler>, interest: map<Fd, Interest>, log: seq<Entry>)

  predicate Registers(op: Op) {
    op.Add? && op.handler.Some? && op.fd >= 0 && (op.wantRead || op.wantWrite) && op.accepted
  }

  /** Whether a removal succeeds, and whether it makes the reactor forget the handler: also when
      the kernel no longer knows the descriptor. */
  predicate DelSucceeds(p: Plain, op: Op) { op.Del? && op.fd >= 0 && op.fd in p.interest }

  predicate Unregisters(p: Plain, op: Op) {
    op.Del? && op.fd >= 0 && (op.fd in p.interest || op.refusal != OtherError)
  }

  function PlainOp(p: Plain, op: Op): Plain {
    match op
    case Add(fd, handler, r, w, _) =>
      if Registers(op) then
        Plain(p.active[fd := handler.value], p.interest[fd := Interest(r, w)], p.log + [Added(fd, handler.value, op)])
      else p
    case Del(fd, _) =>
      if Unregisters(p, op) then
        Plain(p.active - {fd}, p.interest - {fd}, p.log + [Removed(fd, DelSucceeds(p, op))])
      else p
    case Close(fd) => p.(interest := p.interest - {fd})
  }

  /** 0 or -1, as the call returns. */
  function OpResult(p: Plain, op: Op): int {
    if (op.Add? && !Registers(op)) || (op.Del? && !DelSucceeds(p, op)) then -1 else 0
  }

  function PlainOps(p: Plain, ops: seq<Op>): Plain
    decreases |ops|
  {
    if ops == [] then p else PlainOp(PlainOps(p, ops[..|ops| - 1]), ops[|ops| - 1])
  }

  /** Which callback an event asks for: an error hides a hang-up, which hides readiness. */
  function KindOf(e: Event): Option<Kind> {
    if e.err then Some(OnError)
    else if e.rdhup || e.hup then Some(OnClose)
    else if e.readable then Some(OnReadable)
    else if e.writeable then Some(OnWriteable)
    else None
  }

  /** Deliver an event to the handler in force, whose callback then makes the calls `ops`. */
  function PlainDispatch(p: Plain, e: Event, ops: seq<Op>): Plain {
    if e.fd in p.active && KindOf(e).Some? then
      PlainOps(p.(log := p.log + [Called(e.fd, p.active[e.fd], KindOf(e).value)]), ops)
    else p
  }

  /** What a callback is for, by the bits of its event. */
  predicate Asks(e: Event, kind: Kind) {
    var hangUp := e.rdhup || e.hup;
    match kind
    case OnError => e.err
    case OnClose => hangUp && !e.err
    case OnReadable => e.readable && !e.err && !hangUp
    case OnWriteable => e.writeable && !e.readable && !e.err && !hangUp
  }

  /** From `p` to `n` the first thing recorded is this callback of the handler in force. */
  predicate CallsFirst(p: Plain, n: Plain, fd: Fd, kind: Kind) {
    fd in p.active && p.log + [Called(fd, p.active[fd], kind)] <= n.log
  }

  /** First pass over the batch: the wake-up event makes the reactor run queued commands. */
  function PlainCommands(p: Plain, wakeup: Fd, events: seq<Event>, ops: seq<seq<Op>>): Plain
    requires |ops| == |events|
    decreases |events|
  {
    if events == [] then p
    else
      var n := |events| - 1;
      var before := PlainCommands(p, wakeup, events[..n], ops[..n]);
      if events[n].fd == wakeup then PlainOps(before, ops[n]) else before
  }

  /** Second pass: every other event is dispatched. */
  function PlainCallbacks(p: Plain, wakeup: Fd, events: seq<Event>, ops: seq<seq<Op>>): Plain
    requires |ops| == |events|
    decreases |events|
  {
    if events == [] then p
    else
      var n := |events| - 1;
      var before := PlainCallbacks(p, wakeup, events[..n], ops[..n]);
      if events[n].fd != wakeup then PlainDispatch(before, events[n], ops[n]) else before
  }

  function PlainRound(p: Plain, wakeup: Fd, events: seq<Event>, ops: seq<seq<Op>>): Plain
    requires |ops| == |events|
  {
    PlainCallbacks(PlainCommands(p, wakeup, events, ops), wakeup, events, ops)
  }

  // ----- what the log promises

  /** The handlers in force according to the log alone. */
  function Replay(log: seq<Entry>): map<Fd, Handler> {
    if log == [] then map[]
    else
      var before := Replay(log[..|log| - 1]);
      match log[|log| - 1]
      case Added(fd, h, _) => before[fd := h]
      case Removed(fd, _) => before - {fd}
      case Called(_, _, _) => before
  }

  predicate Mentions(e: Entry, fd: Fd) { (e.Added? || e.Removed?) && e.fd == fd }

  predicate Registered(e: Entry, fd: Fd, h: Handler) { e.Added? && e.fd == fd && e.handler == h }

  /** Entry `j` registers `h` for `fd` and nothing up to `i` changes that. */
  predicate InForce(log: seq<Entry>, j: nat, i: nat, fd: Fd, h: Handler) {
    j < i <= |log| && Registered(log[j], fd, h) && forall k :: j < k < i ==> !Mentions(log[k], fd)
  }

  /** Every callback goes to the handler registered last, with no removal in between. */
  predicate CallsAreCurrent(log: seq<Entry>) {
    forall i :: 0 <= i < |log| && log[i].Called? ==>
      exists j :: 0 <= j < i && InForce(log, j, i, log[i].fd, log[i].handler)
  }

  /** What the kernel watches `fd` for is what the registration in force asked for. */
  predicate WatchedAsAsked(p: Plain, fd: Fd)
    requires fd in p.interest
  {
    fd in p.active && exists j :: 0 <= j < |p.log| && InForce(p.log, j, |p.log|, fd, p.active[fd]) && AsksFor(p.log[j], p.interest[fd])
  }

  predicate AsksFor(e: Entry, i: Interest) {
    e.Added? && e.call.Add? && e.call.wantRead == i.read && e.call.wantWrite == i.write
  }

  predicate PlainInv(p: Plain) {
    && p.active == Replay(p.log)
    && CallsAreCurrent(p.log)
    && forall fd :: fd in p.interest ==> WatchedAsAsked(p, fd)
  }

  lemma {:induction false} ReplayIsInForce(log: seq<Entry>, fd: Fd)
    requires fd in Replay(log)
    ensures exists j :: 0 <= j < |log| && InForce(log, j, |log|, fd, Replay(log)[fd])
    decreases |log|
  {
    var n := |log| - 1;
    if Mentions(log[n], fd) {
      assert InForce(log, n, |log|, fd, Replay(log)[fd]);
    } else {
      ReplayIsInForce(log[..n], fd);
      var j :| 0 <= j < n && InForce(log[..n], j, n, fd, Replay(log)[fd]);
      assert InForce(log, j, |log|, fd, Replay(log)[fd]) by {
        forall k | j < k < |log| ensures !Mentions(log[k], fd) { assert k < n ==> log[k] == log[..n][k]; }
      }
    }
  }

  lemma {:induction false} AppendKeepsCalls(log: seq<Entry>, e: Entry)
    requires CallsAreCurrent(log)
    requires e.Called? ==> e.fd in Replay(log) && Replay(log)[e.fd] == e.handler
    ensures CallsAreCurrent(log + [e])
    ensures Replay(log + [e]) ==
      (match e case Added(fd, h, _) => Replay(log)[fd := h] case Removed(fd, _) => Replay(log) - {fd} case Called(_, _, _) => Replay(log))
  {
    var longer := log + [e];
    assert longer[..|log|] == log;
    forall i | 0 <= i < |longer| && longer[i].Called?
      ensures exists j :: 0 <= j < i && InForce(longer, j, i, longer[i].fd, longer[i].handler)
    {
      if i < |log| {
        var j :| 0 <= j < i && InForce(log, j, i, log[i].fd, log[i].handler);
        assert InForce(longer, j, i, longer[i].fd, longer[i].handler);
      } else {
        ReplayIsInForce(log, e.fd);
        var j :| 0 <= j < |log| && InForce(log, j, |log|, e.fd, e.handler);
        assert InForce(longer, j, i, e.fd, e.handler);
      }
    }
  }

  lemma StaysInForce(log: seq<Entry>, e: Entry, j: nat, fd: Fd, h: Handler)
    requires InForce(log, j, |log|, fd, h) && !Mentions(e, fd)
    ensures InForce(log + [e], j, |log| + 1, fd, h) && (log + [e])[j] == log[j]
  {}

  /** One more entry leaves what is watched as it was asked for. */
  lemma {:induction false} AppendKeepsWatch(p: Plain, e: Entry, n: Plain)
    requires PlainInv(p) && n.log == p.log + [e] && n.active == Replay(n.log)
    requires forall fd :: fd in n.interest && Mentions(e, fd) ==> e.Added? && AsksFor(e, n.interest[fd])
    requires forall fd :: fd in n.interest && !Mentions(e, fd) ==> fd in p.interest && n.interest[fd] == p.interest[fd]
    requires e.Called? ==> e.fd in p.active && p.active[e.fd] == e.handler
    ensures PlainInv(n)
  {
    AppendKeepsCalls(p.log, e);
    forall fd | fd in n.interest ensures WatchedAsAsked(n, fd) {
      if Mentions(e, fd) {
        assert InForce(n.log, |p.log|, |n.log|, fd, n.active[fd]);
      } else {
        assert WatchedAsAsked(p, fd);
        var j :| 0 <= j < |p.log| && InForce(p.log, j, |p.log|, fd, p.active[fd]) && AsksFor(p.log[j], p.interest[fd]);
        StaysInForce(p.log, e, j, fd, p.active[fd]);
      }
    }
  }

  lemma {:induction false} OpKeepsInv(p: Plain, op: Op)
    requires PlainInv(p)
    ensures PlainInv(PlainOp(p, op))
  {
    var n := PlainOp(p, op);
    if Registers(op) {
      AppendKeepsCalls(p.log, Added(op.fd, op.handler.value, op));
      AppendKeepsWatch(p, Added(op.fd, op.handler.value, op), n);
    } else if Unregisters(p, op) {
      AppendKeepsCalls(p.log, Removed(op.fd, DelSucceeds(p, op)));
      AppendKeepsWatch(p, Removed(op.fd, DelSucceeds(p, op)), n);
    } else {
      forall fd | fd in n.interest ensures WatchedAsAsked(n, fd) { assert WatchedAsAsked(p, fd); }
    }
  }

  lemma {:induction false} OpsKeepInv(p: Plain, ops: seq<Op>)
    requires PlainInv(p)
    ensures PlainInv(PlainOps(p, ops))
    decreases |ops|
  {
    if ops != [] {
      OpsKeepInv(p, ops[..|ops| - 1]);
      OpKeepsInv(PlainOps(p, ops[..|ops| - 1]), ops[|ops| - 1]);
    }
  }

  lemma {:induction false} DispatchKeepsInv(p: Plain, e: Event, ops: seq<Op>)
    requires PlainInv(p)
    ensures PlainInv(PlainDispatch(p, e, ops))
  {
    if e.fd in p.active && KindOf(e).Some? {
      var call := Called(e.fd, p.active[e.fd], KindOf(e).value);
      AppendKeepsCalls(p.log, call);
      AppendKeepsWatch(p, call, p.(log := p.log + [call]));
      OpsKeepInv(p.(log := p.log + [call]), ops);
    }
  }

  lemma {:induction false} CommandsKeepInv(p: Plain, wakeup: Fd, events: seq<Event>, ops: seq<seq<Op>>)
    requires PlainInv(p) && |ops| == |events|
    ensures PlainInv(PlainCommands(p, wakeup, events, ops))
    decreases |events|
  {
    if events != [] {
      var n := |events| - 1;
      CommandsKeepInv(p, wakeup, events[..n], ops[..n]);
      OpsKeepInv(PlainCommands(p, wakeup, events[..n], ops[..n]), ops[n]);
    }
  }

  lemma {:induction false} CallbacksKeepInv(p: Plain, wakeup: Fd, events: seq<Event>, ops: seq<seq<Op>>)
    requires PlainInv(p) && |ops| == |events|
    ensures PlainInv(PlainCallbacks(p, wakeup, events, ops))
    decreases |events|
  {
    if events != [] {
      var n := |events| - 1;
      CallbacksKeepInv(p, wakeup, events[..n], ops[..n]);
      DispatchKeepsInv(PlainCallbacks(p, wakeup, events[..n], ops[..n]), events[n], ops[n]);
    }
  }

  // ----- what a call does, and what it answers

  /** A registration is recorded, and answered with 0, exactly when there is a handler, a valid
      descriptor and a direction, and the kernel accepts; a removal exactly when the kernel watched the
      descriptor.  A removal also makes the reactor forget a handler whose descriptor the kernel does not
      know, or knows to be no descriptor.  Everything else changes nothing. */
  lemma CallsExactly(p: Plain, op: Op)
    ensures op.Add? ==>
      if op.handler != None && op.fd >= 0 && (op.wantRead || op.wantWrite) && op.accepted then
        OpResult(p, op) == 0 && PlainOp(p, op).log == p.log + [Added(op.fd, op.handler.value, op)]
      else OpResult(p, op) == -1 && PlainOp(p, op) == p
    ensures op.Del? ==>
      if op.fd >= 0 && op.fd in p.interest then
        OpResult(p, op) == 0 && PlainOp(p, op).log == p.log + [Removed(op.fd, true)]
      else if op.fd >= 0 && op.refusal in {NoEntry, BadDescriptor} then
        OpResult(p, op) == -1 && PlainOp(p, op).log == p.log + [Removed(op.fd, false)]
      else OpResult(p, op) == -1 && PlainOp(p, op) == p
    ensures op.Close? ==> PlainOp(p, op).log == p.log && PlainOp(p, op).active == p.active && op.fd !in PlainOp(p, op).interest
  {}

  // ----- which callback an event gets

  lemma {:induction false} OpsCallNothing(p: Plain, ops: seq<Op>)
    ensures p.log <= PlainOps(p, ops).log
    ensures forall i :: |p.log| <= i < |PlainOps(p, ops).log| ==> !PlainOps(p, ops).log[i].Called?
    decreases |ops|
  {
    if ops != [] { OpsCallNothing(p, ops[..|ops| - 1]); }
  }

  /** A descriptor with a handler gets the callback its event asks for, and no other; one without gets
      none. */
  lemma {:induction false} DispatchExactly(p: Plain, e: Event, ops: seq<Op>)
    ensures forall kind :: CallsFirst(p, PlainDispatch(p, e, ops), e.fd, kind) <==> e.fd in p.active && Asks(e, kind)
    ensures p.log <= PlainDispatch(p, e, ops).log
    ensures forall i :: |p.log| < i < |PlainDispatch(p, e, ops).log| ==> !PlainDispatch(p, e, ops).log[i].Called?
    ensures e.fd !in p.active ==> PlainDispatch(p, e, ops) == p
  {
    var n := PlainDispatch(p, e, ops);
    if e.fd in p.active && KindOf(e).Some? {
      var call := Called(e.fd, p.active[e.fd], KindOf(e).value);
      OpsCallNothing(p.(log := p.log + [call]), ops);
      assert n.log[|p.log|] == call;
      forall kind ensures CallsFirst(p, n, e.fd, kind) <==> Asks(e, kind) {
        var wanted := p.log + [Called(e.fd, p.active[e.fd], kind)];
        assert wanted[|p.log|] == Called(e.fd, p.active[e.fd], kind);
        assert wanted <= n.log ==> n.log[|p.log|] == wanted[|p.log|];
      }
    }
  }

  /** Some event of the batch, other than the wake-up, asks for this callback. */
  predicate AskedFor(events: seq<Event>, wakeup: Fd, call: Entry) {
    call.Called? ==>
      exists m :: 0 <= m < |events| && events[m].fd == call.fd != wakeup && Asks(events[m], call.kind)
  }

  lemma {:induction false} CommandsCallNothing(p: Plain, wakeup: Fd, events: seq<Event>, ops: seq<seq<Op>>)
    requires |ops| == |events|
    ensures p.log <= PlainCommands(p, wakeup, events, ops).log
    ensures forall i :: |p.log| <= i < |PlainCommands(p, wakeup, events, ops).log| ==>
              !PlainCommands(p, wakeup, events, ops).log[i].Called?
    decreases |events|
  {
    if events != [] {
      var n := |events| - 1;
      CommandsCallNothing(p, wakeup, events[..n], ops[..n]);
      OpsCallNothing(PlainCommands(p, wakeup, events[..n], ops[..n]), ops[n]);
    }
  }

  lemma {:induction false} CallbacksAreAskedFor(p: Plain, wakeup: Fd, events: seq<Event>, ops: seq<seq<Op>>)
    requires |ops| == |events|
    ensures p.log <= PlainCallbacks(p, wakeup, events, ops).log
    ensures forall i :: |p.log| <= i < |PlainCallbacks(p, wakeup, events, ops).log| ==>
              AskedFor(events, wakeup, PlainCallbacks(p, wakeup, events, ops).log[i])
    decreases |events|
  {
    if events != [] {
      var n := |events| - 1;
      var before, end := PlainCallbacks(p, wakeup, events[..n], ops[..n]), PlainCallbacks(p, wakeup, events, ops);
      CallbacksAreAskedFor(p, wakeup, events[..n], ops[..n]);
      DispatchIsAskedFor(before, wakeup, events[n], ops[n]);
      forall i | |p.log| <= i < |end.log| ensures AskedFor(events, wakeup, end.log[i]) {
        if i < |before.log| {
          assert end.log[i] == before.log[i];
          StillAskedFor(events[..n], events[n], wakeup, before.log[i]);
        } else if end.log[i].Called? {
          assert events[n].fd == end.log[i].fd != wakeup && Asks(events[n], end.log[i].kind);
        }
      }
    }
  }

  lemma {:induction false} DispatchIsAskedFor(p: Plain, wakeup: Fd, e: Event, ops: seq<Op>)
    ensures var n := if e.fd != wakeup then PlainDispatch(p, e, ops) else p;
      p.log <= n.log && forall i :: |p.log| <= i < |n.log| && n.log[i].Called? ==>
        n.log[i].fd == e.fd != wakeup && Asks(e, n.log[i].kind)
  {
    DispatchExactly(p, e, ops);
    var n := PlainDispatch(p, e, ops);
    if |n.log| > |p.log| && n.log[|p.log|].Called? && e.fd in p.active && KindOf(e).Some? {
      var call := Called(e.fd, p.active[e.fd], KindOf(e).value);
      OpsCallNothing(p.(log := p.log + [call]), ops);
      assert n.log[|p.log|] == call;
    }
  }

  lemma StillAskedFor(events: seq<Event>, e: Event, wakeup: Fd, call: Entry)
    requires AskedFor(events, wakeup, call)
    ensures AskedFor(events + [e], wakeup, call)
  {
    if call.Called? {
      var m :| 0 <= m < |events| && events[m].fd == call.fd != wakeup && Asks(events[m], call.kind);
      assert (events + [e])[m] == events[m];
    }
  }

  /** The kernel reports readiness only for a direction it watches when it reports. */
  predicate Harvested(p: Plain, wakeup: Fd, events: seq<Event>) {
    forall m :: 0 <= m < |events| && events[m].fd != wakeup ==>
      && (events[m].readable ==> events[m].fd in p.interest && p.interest[events[m].fd].read)
      && (events[m].writeable ==> events[m].fd in p.interest && p.interest[events[m].fd].write)
  }

  /** The callback at `i` goes to a handler that was registered for its direction, or registered since
      entry `n`. */
  predicate Wanted(log: seq<Entry>, n: nat, i: nat)
    requires i < |log|
  {
    log[i].Called? && (log[i].kind.OnReadable? || log[i].kind.OnWriteable?) ==>
      exists j :: 0 <= j < i && InForce(log, j, i, log[i].fd, log[i].handler)
        && (j >= n || (log[j].call.Add? && if log[i].kind.OnReadable? then log[j].call.wantRead else log[j].call.wantWrite))
  }

  /** Nothing in between: the registration in force at `i` was in force at `n` already. */
  lemma InForceBefore(log: seq<Entry>, longer: seq<Entry>, j: nat, k: nat, i: nat, fd: Fd, h: Handler, h': Handler)
    requires log <= longer && |log| <= i && j < |log|
    requires InForce(longer, j, i, fd, h) && InForce(log, k, |log|, fd, h')
    ensures j == k
  {
    assert longer[j] == log[j] && longer[k] == log[k];
    assert Mentions(log[j], fd) && Mentions(log[k], fd);
  }

  /** Main result for a batch, on top of any run before it: readiness reaches only a handler that asked
      for it, unless the handler was registered after the batch was harvested. */
  lemma {:induction false} ReadinessIsWanted(p: Plain, wakeup: Fd, events: seq<Event>, ops: seq<seq<Op>>)
    requires PlainInv(p) && |ops| == |events| && Harvested(p, wakeup, events)
    ensures p.log <= PlainRound(p, wakeup, events, ops).log
    ensures forall i :: |p.log| <= i < |PlainRound(p, wakeup, events, ops).log| ==>
              Wanted(PlainRound(p, wakeup, events, ops).log, |p.log|, i)
  {
    var mid, end := PlainCommands(p, wakeup, events, ops), PlainRound(p, wakeup, events, ops);
    CommandsKeepInv(p, wakeup, events, ops);
    CallbacksKeepInv(mid, wakeup, events, ops);
    CommandsCallNothing(p, wakeup, events, ops);
    CallbacksAreAskedFor(mid, wakeup, events, ops);
    forall i | |p.log| <= i < |end.log| ensures Wanted(end.log, |p.log|, i) {
      if end.log[i].Called? && (end.log[i].kind.OnReadable? || end.log[i].kind.OnWriteable?) {
        var j :| 0 <= j < i && InForce(end.log, j, i, end.log[i].fd, end.log[i].handler);
        if j < |p.log| { OldIsWanted(p, wakeup, events, end.log, i, j); }
      }
    }
  }

  lemma {:induction false} OldIsWanted(p: Plain, wakeup: Fd, events: seq<Event>, log: seq<Entry>, i: nat, j: nat)
    requires PlainInv(p) && Harvested(p, wakeup, events) && p.log <= log && |p.log| <= i < |log|
    requires log[i].Called? && (log[i].kind.OnReadable? || log[i].kind.OnWriteable?) && AskedFor(events, wakeup, log[i])
    requires j < |p.log| && InForce(log, j, i, log[i].fd, log[i].handler)
    ensures log[j].call.Add? && if log[i].kind.OnReadable? then log[j].call.wantRead else log[j].call.wantWrite
  {
    var fd := log[i].fd;
    var m :| 0 <= m < |events| && events[m].fd == fd != wakeup && Asks(events[m], log[i].kind);
    assert WatchedAsAsked(p, fd);
    var k :| 0 <= k < |p.log| && InForce(p.log, k, |p.log|, fd, p.active[fd]) && AsksFor(p.log[k], p.interest[fd]);
    InForceBefore(p.log, log, j, k, i, fd, log[i].handler, p.active[fd]);
  }

  // ----- runs of the event loop

  /** One turn of the loop: what was harvested, and what commands and callbacks went on to do. */
  datatype Batch = Batch(events: seq<Event>, ops: seq<seq<Op>>)

  function PlainRun(p: Plain, wakeup: Fd, batches: seq<Batch>): Plain
    requires forall i :: 0 <= i < |batches| ==> |batches[i].ops| == |batches[i].events|
    decreases |batches|
  {
    if batches == [] then p
    else PlainRun(PlainRound(p, wakeup, batches[0].events, batches[0].ops), wakeup, batches[1..])
  }

  lemma {:induction false} RunKeepsInv(p: Plain, wakeup: Fd, batches: seq<Batch>)
    requires forall i :: 0 <= i < |batches| ==> |batches[i].ops| == |batches[i].events|
    requires PlainInv(p)
    ensures PlainInv(PlainRun(p, wakeup, batches))
    decreases |batches|
  {
    if batches != [] {
      CommandsKeepInv(p, wakeup, batches[0].events, batches[0].ops);
      CallbacksKeepInv(PlainCommands(p, wakeup, batches[0].events, batches[0].ops), wakeup, batches[0].events, batches[0].ops);
      RunKeepsInv(PlainRound(p, wakeup, batches[0].events, batches[0].ops), wakeup, batches[1..]);
    }
  }

  /** Main result over every run: a callback goes to the handler registered last for that
      descriptor, and once a removal has been recorded no callback for the descriptor starts
      before it is registered again.  The kernel only ever watches descriptors with a handler, and
      for what the last registration asked. */
  lemma {:induction false} NoCallbackAfterRemoval(wakeup: Fd, batches: seq<Batch>)
    requires forall i :: 0 <= i < |batches| ==> |batches[i].ops| == |batches[i].events|
    ensures
      var p := PlainRun(Plain(map[], map[], []), wakeup, batches);
      && p.active == Replay(p.log) && CallsAreCurrent(p.log) && (forall fd :: fd in p.interest ==> WatchedAsAsked(p, fd))
      && forall d, i :: 0 <= d < i < |p.log| && p.log[d].Removed? && p.log[i].Called? && p.log[d].fd == p.log[i].fd ==>
           exists j :: d < j < i && Registered(p.log[j], p.log[i].fd, p.log[i].handler)
  {
    var p0 := Plain(map[], map[], []);
    assert PlainInv(p0);
    RunKeepsInv(p0, wakeup, batches);
    var log := PlainRun(p0, wakeup, batches).log;
    forall d, i | 0 <= d < i < |log| && log[d].Removed? && log[i].Called? && log[d].fd == log[i].fd
      ensures exists j :: d < j < i && Registered(log[j], log[i].fd, log[i].handler)
    {
      var j :| 0 <= j < i && InForce(log, j, i, log[i].fd, log[i].handler);
      assert j < d ==> Mentions(log[d], log[i].fd);
    }
  }

  /** So over every run: each batch that follows it. */
  lemma {:induction false} ReadinessIsWantedAlways(wakeup: Fd, before: seq<Batch>, b: Batch)
    requires forall i :: 0 <= i < |before| ==> |before[i].ops| == |before[i].events|
    requires |b.ops| == |b.events|
    requires Harvested(PlainRun(Plain(map[], map[], []), wakeup, before), wakeup, b.events)
    ensures
      var p := PlainRun(Plain(map[], map[], []), wakeup, before);
      var log := PlainRound(p, wakeup, b.events, b.ops).log;
      p.log <= log && forall i :: |p.log| <= i < |log| ==> Wanted(log, |p.log|, i)
  {
    var p0 := Plain(map[], map[], []);
    assert PlainInv(p0);
    RunKeepsInv(p0, wakeup, before);
    ReadinessIsWanted(PlainRun(p0, wakeup, before), wakeup, b.events, b.ops);
  }

  /** The exception is real: descriptor 5 is readable when the batch is harvested, a command of the same
      batch registers another handler for writing alone, and that handler is called as readable. */
  lemma {:induction false} StaleReadiness() returns (batch: Batch, p: Plain)
    ensures p == PlainOps(Plain(map[], map[], []), [Add(5, Some(1), true, false, true)])
    ensures |batch.ops| == |batch.events| && Harvested(p, 0, batch.events)
    ensures
      var log := PlainRound(p, 0, batch.events, batch.ops).log;
      log == p.log + [Added(5, 2, Add(5, Some(2), false, true, true)), Called(5, 2, OnReadable)]
  {
    var first, second := Add(5, Some(1), true, false, true), Add(5, Some(2), false, true, true);
    var p0 := Plain(map[], map[], []);
    assert [first][..0] == [] && PlainOps(p0, []) == p0;
    p := PlainOps(p0, [first]);
    assert p == Plain(map[5 := 1], map[5 := Interest(true, false)], [Added(5, 1, first)]);
    var wake, ready := Event(0, false, false, false, true, false), Event(5, false, false, false, true, false);
    batch := Batch([wake, ready], [[second], []]);
    assert batch.events[..1] == [wake] && batch.ops[..1] == [[second]] && [wake][..0] == [] && [[second]][..0] == [];
    assert [second][..0] == [] && PlainOps(p, []) == p;
    var mid := PlainOps(p, [second]);
    assert mid == PlainOp(p, second);
    assert PlainCommands(p, 0, [], []) == p;
    assert PlainCommands(p, 0, [wake], [[second]]) == mid;
    assert PlainCommands(p, 0, batch.events, batch.ops) == mid;
    assert PlainCallbacks(mid, 0, [], []) == mid;
    assert PlainCallbacks(mid, 0, [wake], [[second]]) == mid;
    var end := mid.(log := mid.log + [Called(5, 2, OnReadable)]);
    assert PlainOps(end, []) == end;
    assert PlainDispatch(mid, ready, []) == end;
    assert PlainCallbacks(mid, 0, batch.events, batch.ops) == end;
  }
}

module ReactorModel {
  import opened PlainReactor

  lemma EmptyOrMember(s: set<Fd>)
    ensures s == {} || exists fd :: fd in s
  {
    if forall fd :: fd !in s { assert s == {}; }
  }

  class Reactor {
    const wakeup: Fd
    var handlers: map<Fd, Handler>
    var deleted: set<Fd>
    var interest: map<Fd, Interest>    // the kernel's
    ghost var log: seq<Entry>

    /** What the reactor amounts to: deleted descriptors have no handler. */
    ghost function Abs(): Plain
      reads this
    {
      Plain(handlers - deleted, interest, log)
    }

    constructor (wakeup: Fd)
      ensures this.wakeup == wakeup && Abs() == Plain(map[], map[], []) && deleted == {}
    {
      this.wakeup := wakeup;
      handlers, deleted, interest, log := map[], {}, map[], [];
    }

    method RegisterHandler(op: Op) returns (err: int)
      requires op.Add?
      modifies this
      ensures Abs() == PlainOp(old(Abs()), op) && err == OpResult(old(Abs()), op)
      ensures old(handlers.Keys) <= handlers.Keys
    {
      if op.handler.None? { return -1; }
      if op.fd < 0 { return -1; }
      if !op.wantRead && !op.wantWrite { return -1; }
      // EPOLL_CTL_ADD, or EPOLL_CTL_MOD when the descriptor is already there
      if !op.accepted { return -1; }
      interest := interest[op.fd := Interest(op.wantRead, op.wantWrite)];
      ghost var before := handlers - deleted;
      deleted := deleted - {op.fd};
      handlers := handlers[op.fd := op.handler.value];
      log := log + [Added(op.fd, op.handler.value, op)];
      assert handlers - deleted == before[op.fd := op.handler.value];
      return 0;
    }

    method UnregisterHandler(op: Op) returns (err: int)
      requires op.Del?
      modifies this
      ensures Abs() == PlainOp(old(Abs()), op) && err == OpResult(old(Abs()), op)
      ensures old(handlers.Keys) <= handlers.Keys
    {
      if op.fd < 0 { return -1; }
      ghost var before := handlers - deleted;
      if op.fd !in interest {
        if op.refusal != OtherError {
          deleted := deleted + {op.fd};
          log := log + [Removed(op.fd, false)];
          assert handlers - deleted == before - {op.fd};
          assert interest - {op.fd} == interest;
        }
        return -1;
      }
      interest := interest - {op.fd};
      deleted := deleted + {op.fd};
      log := log + [Removed(op.fd, true)];
      assert handlers - deleted == before - {op.fd};
      return 0;
    }

    /** Calls made one after the other, by commands or by a callback.  No entry leaves
        `handlers`, so a callback's own entry outlives it. */
    method Perform(ops: seq<Op>)
      modifies this
      ensures Abs() == PlainOps(old(Abs()), ops)
      ensures old(handlers.Keys) <= handlers.Keys
    {
      var i := 0;
      while i < |ops|
        invariant 0 <= i <= |ops|
        invariant Abs() == PlainOps(old(Abs()), ops[..i])
        invariant old(handlers.Keys) <= handlers.Keys
      {
        assert ops[..i + 1][..i] == ops[..i];
        match ops[i] {
          case Add(_, _, _, _, _) => var _ := RegisterHandler(ops[i]);
          case Del(_, _) => var _ := UnregisterHandler(ops[i]);
          case Close(fd) => interest := interest - {fd};
        }
        i := i + 1;
      }
      assert ops[..i] == ops;
    }

    method DispatchEvent(e: Event, ops: seq<Op>)
      modifies this
      ensures Abs() == PlainDispatch(old(Abs()), e, ops)
      ensures forall kind :: CallsFirst(old(Abs()), Abs(), e.fd, kind) <==> e.fd in old(Abs()).active && Asks(e, kind)
      ensures old(handlers.Keys) <= handlers.Keys
    {
      DispatchExactly(Abs(), e, ops);
      if e.fd !in handlers { return; }
      if e.fd !in deleted {
        if e.err {
          log := log + [Called(e.fd, handlers[e.fd], OnError)];
        } else if e.rdhup || e.hup {
          log := log + [Called(e.fd, handlers[e.fd], OnClose)];
        } else if e.readable {
          log := log + [Called(e.fd, handlers[e.fd], OnReadable)];
        } else if e.writeable {
          log := log + [Called(e.fd, handlers[e.fd], OnWriteable)];
        } else {
          return;
        }
        Perform(ops);
      }
    }

    /** Erase what was deleted during the batch. */
    method Purge()
      modifies this
      ensures Abs() == old(Abs()) && deleted == {} && handlers == old(handlers - deleted)
    {
      var rest := deleted;
      while rest != {}
        invariant rest <= deleted == old(deleted)
        invariant handlers == old(handlers) - (deleted - rest)
        invariant interest == old(interest) && log == old(log)
        decreases rest
      {
        EmptyOrMember(rest);
        var fd :| fd in rest;
        handlers := handlers - {fd};
        rest := rest - {fd};
      }
      deleted := {};
    }

    /** One turn of the event loop over a harvested batch. */
    method Round(events: seq<Event>, ops: seq<seq<Op>>)
      requires |ops| == |events|
      modifies this
      ensures Abs() == PlainRound(old(Abs()), wakeup, events, ops)
      ensures deleted == {} && handlers == Abs().active
    {
      var i := 0;
      while i < |events|
        invariant 0 <= i <= |events|
        invariant Abs() == PlainCommands(old(Abs()), wakeup, events[..i], ops[..i])
      {
        assert events[..i + 1][..i] == events[..i] && ops[..i + 1][..i] == ops[..i];
        if events[i].fd == wakeup { Perform(ops[i]); }
        i := i + 1;
      }
      assert events[..i] == events && ops[..i] == ops;
      ghost var mid := Abs();
      i := 0;
      while i < |events|
        invariant 0 <= i <= |events|
        invariant Abs() == PlainCallbacks(mid, wakeup, events[..i], ops[..i])
      {
        assert events[..i + 1][..i] == events[..i] && ops[..i + 1][..i] == ops[..i];
        if events[i].fd != wakeup { DispatchEvent(events[i], ops[i]); }
        i := i + 1;
      }
      assert events[..i] == events && ops[..i] == ops;
      Purge();
    }
  }
}
