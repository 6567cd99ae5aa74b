/**
 The reactor as its callers see it: threads that add and remove handlers through the queue of
 `CommandQueue`, and a loop that carries the commands out on the handlers of `PlainReactor` and
 calls back the handlers of the events it harvests (core/src/reactor.cpp).

 Every step of the queue's protocol stays a step here.  What a command does, and every callback with
 the calls it makes, is one step of the loop; a descriptor may be closed at any time.
 */
module ReactorProtocol {
  import Q = CommandQueue
  import opened PlainReactor

  /** What a queued command asks for. */
  datatype Request = Do(op: Op) | Halt

  /** `requests[k]` is what command `k` asks for, and `marks[k]` how many entries the reactor's log
      had once that command was processed (history variables). */
  datatype State = State(queue: Q.State, requests: seq<Request>, plain: Plain, marks: seq<nat>)

  datatype Action =
    | Submit(t: Q.Tid, sync: bool, request: Request)
    | Move(a: Q.Action)                                // a step that concerns the queue alone
    | Execute
    | Dispatch(e: Event, ops: seq<Op>, stop: bool)
    | Forget(fd: Fd)                                   // somebody closes a descriptor

  predicate Enabled(s: State, a: Action) {
    match a
    case Submit(t, sync, request) =>
      && Q.Enabled(s.queue, Q.Reserve(t, sync))
      && if request.Halt? then !sync else !request.op.Close?
    case Move(a) => Q.Enabled(s.queue, a) && !a.Reserve? && !a.Process? && !a.Callback?
    case Execute => Q.Enabled(s.queue, Q.Process(0, false)) && s.queue.loop.c.serial < |s.requests|
    case Dispatch(_, _, stop) => Q.Enabled(s.queue, Q.Callback(stop))
    case Forget(_) => true
  }

  function Apply(s: State, a: Action): State
    requires Enabled(s, a)
  {
    match a
    case Submit(t, sync, request) =>
      s.(queue := Q.Apply(s.queue, Q.Reserve(t, sync)), requests := s.requests + [request])
    case Move(a) => s.(queue := Q.Apply(s.queue, a))
    case Execute =>
      (match s.requests[s.queue.loop.c.serial]
       case Do(op) =>
         var plain := PlainOp(s.plain, op);
         s.(queue := Q.Apply(s.queue, Q.Process(OpResult(s.plain, op), false)), plain := plain, marks := s.marks + [|plain.log|])
       case Halt =>
         s.(queue := Q.Apply(s.queue, Q.Process(0, true)), marks := s.marks + [|s.plain.log|]))
    case Dispatch(e, ops, stop) =>
      s.(queue := Q.Apply(s.queue, Q.Callback(stop)), plain := PlainDispatch(s.plain, e, ops))
    case Forget(fd) => s.(plain := PlainOp(s.plain, Close(fd)))
  }

  function Initial(n: nat): State { State(Q.Initial(n), [], Plain(map[], map[], []), []) }

  predicate Schedulable(s: State, acts: seq<Action>)
    decreases |acts|
  {
    acts != [] ==> Enabled(s, acts[0]) && Schedulable(Apply(s, acts[0]), acts[1..])
  }

  function Final(s: State, acts: seq<Action>): State
    requires Schedulable(s, acts)
    decreases |acts|
  {
    if acts == [] then s else Final(Apply(s, acts[0]), acts[1..])
  }

  // ----- what every step keeps

  /** The entry a successful call leaves in the log. */
  predicate Records(e: Entry, op: Op) {
    match op
    case Add(fd, handler, _, _, _) => handler.Some? && e == Added(fd, handler.value, op)
    case Del(fd, _) => e == Removed(fd, true)
    case Close(_) => false
  }

  /** A command that came out with error 0 had its effect when it was processed. */
  predicate HadItsEffect(s: State, k: nat)
    requires k < |s.requests| && k < |s.marks| && k < |s.queue.outcomes|
  {
    && s.marks[k] <= |s.plain.log|
    && (s.requests[k].Do? && s.queue.outcomes[k] == 0 ==>
          s.marks[k] > 0 && Records(s.plain.log[s.marks[k] - 1], s.requests[k].op))
  }

  predicate AddsAndDels(requests: seq<Request>) {
    forall k :: 0 <= k < |requests| && requests[k].Do? ==> !requests[k].op.Close?
  }

  predicate Inv(s: State) {
    && Q.Inv(s.queue)
    && PlainInv(s.plain)
    && |s.requests| == |s.queue.log| && |s.marks| == |s.queue.outcomes| <= |s.requests|
    && AddsAndDels(s.requests)
    && (forall k :: 0 <= k < |s.marks| ==> HadItsEffect(s, k))
  }

  /** A command taken from the queue has its request. */
  lemma TakenIsRequested(s: State)
    requires Inv(s) && s.queue.loop.Running?
    ensures s.queue.loop.c.serial == |s.marks| < |s.requests|
  {}

  lemma {:induction false} OpsGrowLog(p: Plain, ops: seq<Op>)
    ensures p.log <= PlainOps(p, ops).log
    decreases |ops|
  {
    if ops != [] { OpsGrowLog(p, ops[..|ops| - 1]); }
  }

  lemma {:induction false} StepGrowsLog(s: State, a: Action)
    requires Enabled(s, a)
    ensures s.plain.log <= Apply(s, a).plain.log
  {
    if a.Dispatch? && a.e.fd in s.plain.active && KindOf(a.e).Some? {
      OpsGrowLog(s.plain.(log := s.plain.log + [Called(a.e.fd, s.plain.active[a.e.fd], KindOf(a.e).value)]), a.ops);
    }
  }

  lemma {:induction false} StepKeepsQueue(s: State, a: Action)
    requires Inv(s) && Enabled(s, a)
    ensures Q.Inv(Apply(s, a).queue)
  {
    hide Q.Inv;
    match a
    case Submit(t, sync, _) => Q.StepKeepsInv(s.queue, Q.Reserve(t, sync));
    case Move(a) => Q.StepKeepsInv(s.queue, a);
    case Execute =>
      var request := s.requests[s.queue.loop.c.serial];
      if request.Halt? {
        Q.StepKeepsInv(s.queue, Q.Process(0, true));
      } else {
        Q.StepKeepsInv(s.queue, Q.Process(OpResult(s.plain, request.op), false));
      }
    case Dispatch(_, _, stop) => Q.StepKeepsInv(s.queue, Q.Callback(stop));
    case Forget(_) =>
  }

  lemma {:induction false} StepKeepsPlain(s: State, a: Action)
    requires Inv(s) && Enabled(s, a)
    ensures PlainInv(Apply(s, a).plain)
  {
    hide Q.Inv;
    match a
    case Execute => if s.requests[s.queue.loop.c.serial].Do? { OpKeepsInv(s.plain, s.requests[s.queue.loop.c.serial].op); }
    case Dispatch(e, ops, _) => DispatchKeepsInv(s.plain, e, ops);
    case Forget(fd) => OpKeepsInv(s.plain, Close(fd));
    case _ =>
  }

  /** What the log says about a command stays what it was. */
  lemma {:induction false} EffectStays(s: State, a: Action, k: nat)
    requires Enabled(s, a) && |s.marks| == |s.queue.outcomes| <= |s.requests| && k < |s.marks| && HadItsEffect(s, k)
    ensures k < |Apply(s, a).marks| && k < |Apply(s, a).requests| && k < |Apply(s, a).queue.outcomes|
    ensures HadItsEffect(Apply(s, a), k)
  {
    hide PlainOp, PlainDispatch, Records;
    StepGrowsLog(s, a);
  }

  lemma {:induction false} ExecuteHasEffect(s: State)
    requires Inv(s) && Enabled(s, Execute)
    ensures |s.marks| < |s.requests|
    ensures |Apply(s, Execute).marks| == |Apply(s, Execute).queue.outcomes| == |s.marks| + 1
    ensures Apply(s, Execute).requests == s.requests && HadItsEffect(Apply(s, Execute), |s.marks|)
  {
    TakenIsRequested(s);
    hide Q.Inv, PlainInv;
  }

  lemma AddedOrDeleted(requests: seq<Request>, request: Request)
    requires AddsAndDels(requests) && (request.Do? ==> !request.op.Close?)
    ensures AddsAndDels(requests + [request])
  {}

  lemma {:induction false} StepKeepsCounts(s: State, a: Action)
    requires Inv(s) && Enabled(s, a)
    ensures
      var s' := Apply(s, a);
      && |s'.requests| == |s'.queue.log| && |s'.marks| == |s'.queue.outcomes| <= |s'.requests|
      && (a.Execute? || s'.marks == s.marks)
  {
    if a.Execute? { TakenIsRequested(s); }
    hide Q.Inv, PlainInv, HadItsEffect, PlainOp, PlainDispatch, AddsAndDels;
  }

  lemma {:induction false} StepKeepsRequests(s: State, a: Action)
    requires Inv(s) && Enabled(s, a)
    ensures AddsAndDels(Apply(s, a).requests)
  {
    hide Q.Inv, PlainInv, HadItsEffect, PlainOp, PlainDispatch, AddsAndDels, Q.Apply;
    if a.Submit? { AddedOrDeleted(s.requests, a.request); }
  }

  lemma {:induction false} StepKeepsInv(s: State, a: Action)
    requires Inv(s) && Enabled(s, a)
    ensures Inv(Apply(s, a))
  {
    hide Q.Inv, PlainInv, HadItsEffect, Apply;
    StepKeepsQueue(s, a);
    StepKeepsPlain(s, a);
    StepKeepsCounts(s, a);
    StepKeepsRequests(s, a);
    var s' := Apply(s, a);
    if a.Execute? { ExecuteHasEffect(s); }
    forall k: nat | k < |s'.marks| ensures HadItsEffect(s', k) {
      if k < |s.marks| { EffectStays(s, a, k); }
    }
  }

  lemma {:induction false} RunKeepsInv(s: State, acts: seq<Action>)
    requires Inv(s) && Schedulable(s, acts)
    ensures Inv(Final(s, acts)) && s.plain.log <= Final(s, acts).plain.log
    decreases |acts|
  {
    hide Inv;
    if acts != [] {
      StepKeepsInv(s, acts[0]);
      StepGrowsLog(s, acts[0]);
      RunKeepsInv(Apply(s, acts[0]), acts[1..]);
    }
  }

  lemma {:induction false} InitialHolds(n: nat)
    ensures Inv(Initial(n))
  {
    Q.InitialHolds(n);
  }

  /** A command is carried out as the reactor's own thread would: its error is 0 exactly when the entry
      that records it is the one thing it adds to the log. */
  lemma ExecuteExactly(s: State)
    requires Inv(s) && Enabled(s, Execute)
    ensures
      var k, s' := |s.marks|, Apply(s, Execute);
      && k < |s.requests| && |s'.queue.outcomes| == k + 1 && s'.marks == s.marks + [|s'.plain.log|]
      && (s.requests[k].Do? ==>
            (s'.queue.outcomes[k] == 0
             <==> |s'.plain.log| == |s.plain.log| + 1 && Records(s'.plain.log[|s.plain.log|], s.requests[k].op)))
      && (s.requests[k].Halt? ==> s'.plain == s.plain && !s'.queue.running)
  {
    TakenIsRequested(s);
    hide Q.Inv, PlainInv, HadItsEffect;
    if s.requests[|s.marks|].Do? { CallsExactly(s.plain, s.requests[|s.marks|].op); }
  }

  /** A request to stop was carried out, or a callback stopped the loop. */
  predicate Stopped(s: State, acts: seq<Action>) {
    || (exists k :: 0 <= k < |s.marks| && k < |s.requests| && s.requests[k].Halt?)
    || exists i :: 0 <= i < |acts| && acts[i].Dispatch? && acts[i].stop
  }

  lemma {:induction false} StopStep(s: State, acts: seq<Action>, a: Action)
    requires Inv(s) && Enabled(s, a) && (s.queue.running <==> !Stopped(s, acts))
    ensures Apply(s, a).queue.running <==> !Stopped(Apply(s, a), acts + [a])
  {
    if a.Execute? { TakenIsRequested(s); }
    hide Q.Inv, PlainInv, HadItsEffect, PlainOp, PlainDispatch, AddsAndDels;
    var s', more := Apply(s, a), acts + [a];
    assert more[|acts|] == a;
    assert s.requests <= s'.requests && |s.marks| <= |s'.marks| <= |s.marks| + 1 by { StepGrowsRequests(s, a); }
    assert |s.marks| <= |s.requests|;
    if Stopped(s, acts) { StaysStopped(s, s', acts, a); }
    if !Stopped(s, acts) && Stopped(s', more) { assert a.Execute? || (a.Dispatch? && a.stop); }
  }

  lemma StepGrowsRequests(s: State, a: Action)
    requires Enabled(s, a)
    ensures s.requests <= Apply(s, a).requests && |s.marks| <= |Apply(s, a).marks| <= |s.marks| + 1
    ensures !a.Execute? ==> Apply(s, a).marks == s.marks
  {}

  lemma StaysStopped(s: State, s': State, acts: seq<Action>, a: Action)
    requires Stopped(s, acts) && s.requests <= s'.requests && |s.marks| <= |s'.marks|
    ensures Stopped(s', acts + [a])
  {
    if k :| 0 <= k < |s.marks| && k < |s.requests| && s.requests[k].Halt? {
      assert s'.requests[k].Halt?;
    } else {
      var i :| 0 <= i < |acts| && acts[i].Dispatch? && acts[i].stop;
      assert (acts + [a])[i] == acts[i];
    }
  }

  lemma {:induction false} RunStops(s: State, done: seq<Action>, acts: seq<Action>)
    requires Inv(s) && Schedulable(s, acts) && (s.queue.running <==> !Stopped(s, done))
    ensures Final(s, acts).queue.running <==> !Stopped(Final(s, acts), done + acts)
    decreases |acts|
  {
    hide Inv, Stopped;
    if acts == [] {
      assert done + acts == done;
    } else {
      StopStep(s, done, acts[0]);
      StepKeepsInv(s, acts[0]);
      RunStops(Apply(s, acts[0]), done + [acts[0]], acts[1..]);
      assert done + [acts[0]] + acts[1..] == done + acts;
    }
  }

  /** Over every run: the loop runs exactly until a request to stop was carried out or a callback
      stopped it; it exits only then. */
  lemma {:induction false} RunsUntilStopped(n: nat, acts: seq<Action>)
    requires Schedulable(Initial(n), acts)
    ensures Final(Initial(n), acts).queue.running <==> !Stopped(Final(Initial(n), acts), acts)
    ensures Final(Initial(n), acts).queue.loop.Exited? ==> Stopped(Final(Initial(n), acts), acts)
  {
    InitialHolds(n);
    RunStops(Initial(n), [], acts);
    RunKeepsInv(Initial(n), acts);
    assert [] + acts == acts;
  }

  // ----- what a caller may rely on

  /** Thread `t` is about to return from a synchronous call for `op`, with error 0. */
  predicate ReturnsDone(s: State, t: Q.Tid, op: Op) {
    && Q.Enabled(s.queue, Q.Return(t)) && s.queue.cells[t].errc == 0
    && s.queue.calls[t].serial < |s.requests| && s.requests[s.queue.calls[t].serial] == Do(op)
  }

  /** Where the log stood when the command of that call was processed. */
  function Mark(s: State, t: Q.Tid): nat {
    if t < |s.queue.calls| && s.queue.calls[t].Spinning? && s.queue.calls[t].serial < |s.marks|
    then s.marks[s.queue.calls[t].serial] else 0
  }

  lemma {:induction false} DoneIsRecorded(s: State, t: Q.Tid, op: Op)
    requires Inv(s) && ReturnsDone(s, t, op)
    ensures 0 < Mark(s, t) <= |s.plain.log| && Records(s.plain.log[Mark(s, t) - 1], op)
  {
    assert Q.CallOk(s.queue, t);
    assert HadItsEffect(s, s.queue.calls[t].serial);
  }

  /** Main result, for any number of threads and every interleaving: once `delHandler` has returned 0
      to a synchronous caller, a callback for that descriptor starts only after the descriptor was
      registered again since that removal, and goes to the handler registered then. */
  lemma {:induction false} NoCallbackAfterReturn(n: nat, before: seq<Action>, t: Q.Tid, op: Op, after: seq<Action>)
    requires Schedulable(Initial(n), before) && op.Del?
    requires ReturnsDone(Final(Initial(n), before), t, op)
    requires Schedulable(Apply(Final(Initial(n), before), Move(Q.Return(t))), after)
    ensures
      var s := Final(Initial(n), before);
      var end := Final(Apply(s, Move(Q.Return(t))), after);
      && 0 < Mark(s, t) <= |s.plain.log| <= |end.plain.log|
      && end.plain.log[Mark(s, t) - 1] == Removed(op.fd, true)
      && forall i :: |s.plain.log| <= i < |end.plain.log| && end.plain.log[i].Called? && end.plain.log[i].fd == op.fd ==>
           exists j :: Mark(s, t) <= j < i && Registered(end.plain.log[j], op.fd, end.plain.log[i].handler)
  {
    var s := Final(Initial(n), before);
    InitialHolds(n);
    RunKeepsInv(Initial(n), before);
    DoneIsRecorded(s, t, op);
    StepKeepsInv(s, Move(Q.Return(t)));
    RunKeepsInv(Apply(s, Move(Q.Return(t))), after);
    var log := Final(Apply(s, Move(Q.Return(t))), after).plain.log;
    CalledAfterRemoval(log, Mark(s, t) - 1, op.fd);
  }

  lemma {:induction false} CalledAfterRemoval(log: seq<Entry>, d: nat, fd: Fd)
    requires CallsAreCurrent(log) && d < |log| && log[d] == Removed(fd, true)
    ensures forall i :: d < i < |log| && log[i].Called? && log[i].fd == fd ==>
              exists j :: d < j < i && Registered(log[j], fd, log[i].handler)
  {
    forall i | d < i < |log| && log[i].Called? && log[i].fd == fd
      ensures exists j :: d < j < i && Registered(log[j], fd, log[i].handler)
    {
      var j :| 0 <= j < i && InForce(log, j, i, fd, log[i].handler);
      assert j < d ==> Mentions(log[d], fd);
    }
  }

  /** And for every kind of call: one that returns 0 to a synchronous caller has had its effect. */
  lemma {:induction false} ReturnedMeansDone(n: nat, acts: seq<Action>, t: Q.Tid, op: Op)
    requires Schedulable(Initial(n), acts) && ReturnsDone(Final(Initial(n), acts), t, op)
    ensures
      var s := Final(Initial(n), acts);
      0 < Mark(s, t) <= |s.plain.log| && Records(s.plain.log[Mark(s, t) - 1], op)
  {
    InitialHolds(n);
    RunKeepsInv(Initial(n), acts);
    DoneIsRecorded(Final(Initial(n), acts), t, op);
  }
}
