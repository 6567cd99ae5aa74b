/**
 The life of an operation in the epoll proactor
 (core/include/join/proactor_epoll_impl.hpp): one read slot and one write slot per descriptor,
 handlers called synchronously from cancellation, and so nested to any depth.

 `EpollSpec` is the specification over slots; `EpollModel` holds the mutable operations and the
 two vectors.  The reactor is represented by its interest list (see `ReactorModel`), and calls
 to it succeed.  Readiness is reported only for an occupied slot.
 */
module EpollSpec {
  import opened OperationLog
  import opened Wrappers

  const ECANCELED: int := 125
  const ECONNRESET: int := 104

  datatype Opcode = Accept | Connect | Read | Write | ReadFixed | WriteFixed | RecvMsg | SendMsg | Recv | Send

  predicate IsWriteOp(c: Opcode) { c.Connect? || c.Write? || c.WriteFixed? || c.SendMsg? || c.Send? }

  datatype Slot = Slot(fd: int, write: bool)

  datatype Interest = Interest(read: bool, write: bool)

  /** `size` is the length of the slot vectors. */
  datatype Model = Model(
    fds: seq<int>, codes: seq<Opcode>, status: seq<Status>,
    slots: map<Slot, nat>, size: nat, interest: map<int, Interest>, log: seq<Entry>)

  /** A call on the proactor thread, with what the handlers it triggers go on to do: the handler
      of a cancelled operation runs before `Cancel` returns.  `connected` is the outcome of the
      connect system call made by the submission of a Connect. */
  datatype Call =
    | Submit(op: Option<nat>, connected: bool)
    | Cancel(op: Option<nat>, body: seq<Call>)
    | Stop(bodies: seq<Bodies>)

  datatype Bodies = Bodies(reader: seq<Call>, writer: seq<Call>)

  predicate Known(m: Model, op: Option<nat>) {
    op.Some? && op.value < |m.status| && op.value < |m.fds| && op.value < |m.codes|
  }

  function SlotOf(m: Model, op: nat): Slot
    requires op < |m.fds| && op < |m.codes|
  {
    Slot(m.fds[op], IsWriteOp(m.codes[op]))
  }

  /** Register exactly the occupied directions, or drop the descriptor. */
  function Refresh(m: Model, fd: int): Model {
    var r, w := Slot(fd, false) in m.slots, Slot(fd, true) in m.slots;
    m.(interest := if r || w then m.interest[fd := Interest(r, w)] else m.interest - {fd})
  }

  predicate AcceptsSubmit(m: Model, op: Option<nat>, connected: bool) {
    Known(m, op) && m.fds[op.value] >= 0 && m.status[op.value].Idle? && (m.codes[op.value].Connect? ==> connected)
    && SlotOf(m, op.value) !in m.slots
  }

  function DoSubmit(m: Model, op: nat): Model
    requires Known(m, Some(op)) && m.fds[op] >= 0
  {
    Refresh(
      m.(slots := m.slots[SlotOf(m, op) := op],
         size := if m.fds[op] >= m.size then m.fds[op] + 1 else m.size,
         status := m.status[op := Submitted],
         log := m.log + [Accepted(op)]),
      m.fds[op])
  }

  predicate AcceptsCancel(m: Model, op: Option<nat>) {
    Known(m, op) && 0 <= m.fds[op.value] < m.size && m.status[op.value].Submitted?
    && SlotOf(m, op.value) in m.slots && m.slots[SlotOf(m, op.value)] == op.value
  }

  /** Empty the slot of `op` and tell the reactor. */
  function Vacate(m: Model, op: nat): Model
    requires op < |m.fds| && op < |m.codes|
  {
    Refresh(m.(slots := m.slots - {SlotOf(m, op)}), m.fds[op])
  }

  /** Empty both slots of a descriptor and, if one was occupied, drop it from the reactor. */
  function VacateBoth(m: Model, fd: int): Model {
    m.(slots := m.slots - {Slot(fd, false), Slot(fd, true)},
       interest := if Slot(fd, false) in m.slots || Slot(fd, true) in m.slots then m.interest - {fd} else m.interest)
  }

  function Occupant(m: Model, s: Slot): Option<nat> {
    if s in m.slots then Some(m.slots[s]) else None
  }

  function RunCalls(m: Model, calls: seq<Call>): Model
    decreases calls, 0
  {
    if calls == [] then m else RunCall(RunCalls(m, calls[..|calls| - 1]), calls[|calls| - 1])
  }

  function RunCall(m: Model, c: Call): Model
    decreases c, 0
  {
    match c
    case Submit(op, connected) => if AcceptsSubmit(m, op, connected) then DoSubmit(m, op.value) else m
    case Cancel(op, body) =>
      if AcceptsCancel(m, op) then
        Deliver(Vacate(m.(status := m.status[op.value := Cancelling]), op.value), op, -ECANCELED, true, body)
      else m
    case Stop(bodies) => CancelFrom(m, bodies, 0)
  }

  /** Call the handler of `op`, which goes on to do `body`; then the operation is idle. */
  function Deliver(m: Model, op: Option<nat>, result: int, cancelled: bool, body: seq<Call>): Model
    decreases body, 1
  {
    if op.None? then m
    else
      var during := RunCalls(m.(log := m.log + [Finished(op.value, cancelled, result)]), body);
      if op.value < |during.status| then during.(status := during.status[op.value := Idle]) else during
  }

  /** Both occupants of a descriptor are ended, the reader first. */
  function DeliverBoth(m: Model, fd: int, result: int, cancelled: bool, bodies: Bodies): Model
    decreases bodies, 2
  {
    var r, w := Occupant(m, Slot(fd, false)), Occupant(m, Slot(fd, true));
    Deliver(Deliver(VacateBoth(m, fd), r, result, cancelled, bodies.reader), w, result, cancelled, bodies.writer)
  }

  /** Cancel everything from descriptor `fd` on; the vectors may grow meanwhile. */
  function CancelFrom(m: Model, bodies: seq<Bodies>, fd: nat): Model
    decreases bodies, 3, if fd < |bodies| then |bodies| - fd else 0, m.size - fd
  {
    if fd >= m.size then m
    else if fd < |bodies| then CancelFrom(DeliverBoth(m, fd, -ECANCELED, true, bodies[fd]), bodies, fd + 1)
    else CancelSilently(m, fd)
  }

  /** The rest of the sweep, when the handlers left make no calls. */
  function CancelSilently(m: Model, fd: nat): Model
    decreases m.size - fd
  {
    if fd >= m.size then m
    else CancelSilently(EndSilently(m, fd), fd + 1)
  }

  lemma {:induction false} SweepStep(m: Model, bodies: seq<Bodies>, fd: nat)
    requires fd < m.size
    ensures CancelFrom(m, bodies, fd) ==
      CancelFrom(if fd < |bodies| then DeliverBoth(m, fd, -ECANCELED, true, bodies[fd]) else EndSilently(m, fd), bodies, fd + 1)
  {}

  function EndQuietly(m: Model, op: Option<nat>): Model {
    if op.None? then m
    else m.(log := m.log + [Finished(op.value, true, -ECANCELED)],
            status := if op.value < |m.status| then m.status[op.value := Idle] else m.status)
  }

  function EndSilently(m: Model, fd: int): Model {
    EndQuietly(EndQuietly(VacateBoth(m, fd), Occupant(m, Slot(fd, false))), Occupant(m, Slot(fd, true)))
  }

  /** What the event loop meets: readiness, a hang-up or an error of a descriptor, or a command.
      `result` is what the system call of the operation returns. */
  datatype Turn =
    | Readable(fd: int, result: int, body: seq<Call>)
    | Writeable(fd: int, result: int, body: seq<Call>)
    | Closed(fd: int, bodies: Bodies)
    | Failed(fd: int, bodies: Bodies)
    | Command(call: Call)

  /** `onReadable` and `onWriteable`: perform the operation and end it. */
  function Ready(m: Model, s: Slot, result: int, body: seq<Call>): Model {
    match Occupant(m, s)
    case None => m
    case Some(op) => if Known(m, Some(op)) then Deliver(Vacate(m, op), Some(op), result, false, body) else m
  }

  function Take(m: Model, t: Turn): Model {
    match t
    case Readable(fd, result, body) => Ready(m, Slot(fd, false), result, body)
    case Writeable(fd, result, body) => Ready(m, Slot(fd, true), result, body)
    case Closed(fd, bodies) => DeliverBoth(m, fd, 0, false, bodies)
    case Failed(fd, bodies) => DeliverBoth(m, fd, -ECONNRESET, false, bodies)
    case Command(call) => RunCall(m, call)
  }

  // ----- the invariant

  predicate WellFormed(m: Model) { |m.fds| == |m.codes| == |m.status| }

  predicate InSlot(m: Model, op: nat) {
    op < |m.fds| && op < |m.codes| && SlotOf(m, op) in m.slots && m.slots[SlotOf(m, op)] == op
  }

  /** An occupied slot holds a submitted operation of its own descriptor and direction. */
  predicate SlotOk(m: Model, s: Slot)
    requires s in m.slots
  {
    var op := m.slots[s];
    op < |m.status| && InSlot(m, op) && SlotOf(m, op) == s && m.status[op].Submitted? && 0 <= s.fd < m.size
  }

  /** The reactor watches exactly the occupied directions of a descriptor. */
  predicate InterestOk(m: Model, fd: int) {
    var r, w := Slot(fd, false) in m.slots, Slot(fd, true) in m.slots;
    if r || w then fd in m.interest && m.interest[fd] == Interest(r, w) else fd !in m.interest
  }

  ghost predicate SlotsOk(m: Model) { forall s :: s in m.slots ==> SlotOk(m, s) }

  ghost predicate WatchOk(m: Model) { forall fd :: InterestOk(m, fd) }

  /** An operation is idle unless it is in its slot or on its way out. */
  ghost predicate StatusOk(m: Model, waiting: set<nat>, busy: set<nat>) {
    && (forall op :: 0 <= op < |m.status| ==> (InSlot(m, op) || op in waiting || op in busy <==> !m.status[op].Idle?))
    && (forall op :: op in waiting || op in busy ==> op < |m.status| && !InSlot(m, op))
  }

  ghost predicate LogTracks(m: Model, waiting: set<nat>) {
    LogOk(m.log) && forall op :: Open(m.log, op) <==> InSlot(m, op) || op in waiting
  }

  /** `waiting`: taken out of their slots, handlers still to be called; `busy`: handler running. */
  ghost predicate Inv(m: Model, waiting: set<nat>, busy: set<nat>) {
    && WellFormed(m) && waiting !! busy
    && SlotsOk(m) && WatchOk(m) && StatusOk(m, waiting, busy) && LogTracks(m, waiting)
  }

  /** `n` comes after `m`: the same operations, a longer log, vectors no shorter. */
  predicate Continues(m: Model, n: Model) {
    m.fds == n.fds && m.codes == n.codes && |m.status| == |n.status| && m.log <= n.log && m.size <= n.size
  }

  lemma {:induction false} SubmitKeepsInv(m: Model, op: nat, waiting: set<nat>, busy: set<nat>, connected: bool)
    requires Inv(m, waiting, busy) && AcceptsSubmit(m, Some(op), connected)
    ensures Inv(DoSubmit(m, op), waiting, busy) && Continues(m, DoSubmit(m, op))
  {
    var n := DoSubmit(m, op);
    LogGrows(m.log, Accepted(op));
    forall o ensures InSlot(n, o) <==> InSlot(m, o) || o == op {}
    forall s | s in n.slots ensures SlotOk(n, s) { if s != SlotOf(m, op) { assert SlotOk(m, s); } }
    forall fd ensures InterestOk(n, fd) { assert InterestOk(m, fd); }
  }

  /** Emptying slots leaves the rest of the table in order. */
  lemma {:induction false} FewerSlots(m: Model, n: Model)
    requires SlotsOk(m) && n.fds == m.fds && n.codes == m.codes && n.size == m.size && |n.status| == |m.status|
    requires forall s :: s in n.slots ==> s in m.slots && n.slots[s] == m.slots[s]
    requires forall s :: s in n.slots ==> m.slots[s] < |m.status| && n.status[m.slots[s]] == m.status[m.slots[s]]
    ensures SlotsOk(n)
  {
    forall s | s in n.slots ensures SlotOk(n, s) { assert SlotOk(m, s); }
  }

  /** Taking an operation out of its slot. */
  lemma {:induction false} VacateKeepsInv(m: Model, op: nat, waiting: set<nat>, busy: set<nat>)
    requires Inv(m, waiting, busy) && InSlot(m, op)
    ensures Inv(Vacate(m, op), waiting + {op}, busy) && Continues(m, Vacate(m, op))
    ensures op !in waiting
  {
    var n := Vacate(m, op);
    assert SlotOk(m, SlotOf(m, op));
    forall o ensures InSlot(n, o) <==> InSlot(m, o) && o != op {}
    forall s | s in n.slots ensures m.slots[s] < |m.status| { assert SlotOk(m, s); }
    FewerSlots(m, n);
    forall fd ensures InterestOk(n, fd) { assert InterestOk(m, fd); }
  }

  /** An operation outside the table may be marked as being cancelled. */
  lemma {:induction false} MarkKeepsInv(m: Model, op: nat, waiting: set<nat>, busy: set<nat>)
    requires Inv(m, waiting, busy) && op in waiting
    ensures Inv(m.(status := m.status[op := Cancelling]), waiting, busy)
  {
    var n := m.(status := m.status[op := Cancelling]);
    OutsideTable(m, n, op);
  }

  lemma {:induction false} OutsideTable(m: Model, n: Model, op: nat)
    requires WellFormed(m) && SlotsOk(m) && WatchOk(m) && op < |m.status| && !InSlot(m, op)
    requires n.fds == m.fds && n.codes == m.codes && n.size == m.size && n.slots == m.slots && n.interest == m.interest
    requires |n.status| == |m.status| && forall o :: 0 <= o < |m.status| && o != op ==> n.status[o] == m.status[o]
    ensures SlotsOk(n) && WatchOk(n) && forall o :: InSlot(n, o) <==> InSlot(m, o)
  {
    forall s | s in n.slots ensures SlotOk(n, s) { assert SlotOk(m, s); }
    forall fd ensures InterestOk(n, fd) { assert InterestOk(m, fd); }
  }

  function AsSet(op: Option<nat>): set<nat> { if op.Some? then {op.value} else {} }

  lemma {:induction false} VacateBothKeepsTable(m: Model, fd: int)
    requires WellFormed(m) && SlotsOk(m) && WatchOk(m)
    ensures SlotsOk(VacateBoth(m, fd)) && WatchOk(VacateBoth(m, fd))
  {
    var n := VacateBoth(m, fd);
    forall s | s in n.slots ensures m.slots[s] < |m.status| { assert SlotOk(m, s); }
    FewerSlots(m, n);
    forall f ensures InterestOk(n, f) { assert InterestOk(m, f); }
  }

  lemma {:induction false} VacateBothKeepsInv(m: Model, fd: int, waiting: set<nat>, busy: set<nat>)
    requires Inv(m, waiting, busy)
    ensures
      var r, w := Occupant(m, Slot(fd, false)), Occupant(m, Slot(fd, true));
      && Inv(VacateBoth(m, fd), waiting + AsSet(r) + AsSet(w), busy)
      && AsSet(r) !! waiting && AsSet(w) !! waiting && AsSet(r) !! AsSet(w)
    ensures Continues(m, VacateBoth(m, fd))
  {
    var r, w := Occupant(m, Slot(fd, false)), Occupant(m, Slot(fd, true));
    var n := VacateBoth(m, fd);
    if r.Some? { assert SlotOk(m, Slot(fd, false)); }
    if w.Some? { assert SlotOk(m, Slot(fd, true)); }
    VacateBothKeepsTable(m, fd);
    forall o ensures InSlot(n, o) <==> InSlot(m, o) && o !in AsSet(r) && o !in AsSet(w) {}
  }

  lemma {:induction false} FinishKeepsInv(
      m: Model, op: nat, waiting: set<nat>, busy: set<nat>, cancelled: bool, result: int)
    requires op in waiting && Inv(m, waiting, busy) && (cancelled ==> result < 0)
    ensures Inv(m.(log := m.log + [Finished(op, cancelled, result)]), waiting - {op}, busy + {op})
  {
    LogGrows(m.log, Finished(op, cancelled, result));
    OutsideTable(m, m.(log := m.log + [Finished(op, cancelled, result)]), op);
  }

  lemma {:induction false} IdleKeepsInv(m: Model, op: nat, waiting: set<nat>, busy: set<nat>)
    requires op in busy && Inv(m, waiting, busy)
    ensures Inv(m.(status := m.status[op := Idle]), waiting, busy - {op})
  {
    OutsideTable(m, m.(status := m.status[op := Idle]), op);
  }

  lemma {:induction false} RunCallsKeepInv(m: Model, calls: seq<Call>, waiting: set<nat>, busy: set<nat>)
    requires Inv(m, waiting, busy)
    ensures Inv(RunCalls(m, calls), waiting, busy) && Continues(m, RunCalls(m, calls))
    decreases calls, 0
  {
    if calls != [] {
      RunCallsKeepInv(m, calls[..|calls| - 1], waiting, busy);
      RunCallKeepsInv(RunCalls(m, calls[..|calls| - 1]), calls[|calls| - 1], waiting, busy);
    }
  }

  lemma {:induction false} RunCallKeepsInv(m: Model, c: Call, waiting: set<nat>, busy: set<nat>)
    requires Inv(m, waiting, busy)
    ensures Inv(RunCall(m, c), waiting, busy) && Continues(m, RunCall(m, c))
    decreases c, 0
  {
    match c
    case Submit(op, connected) =>
      if AcceptsSubmit(m, op, connected) { SubmitKeepsInv(m, op.value, waiting, busy, connected); }
    case Cancel(op, body) =>
      if AcceptsCancel(m, op) {
        VacateKeepsInv(m, op.value, waiting, busy);
        MarkKeepsInv(Vacate(m, op.value), op.value, waiting + {op.value}, busy);
        assert Vacate(m, op.value).(status := m.status[op.value := Cancelling])
            == Vacate(m.(status := m.status[op.value := Cancelling]), op.value);
        DeliverKeepsInv(Vacate(m.(status := m.status[op.value := Cancelling]), op.value), op, -ECANCELED, true, body, waiting + {op.value}, busy);
        assert waiting + {op.value} - {op.value} == waiting;
      }
    case Stop(bodies) => CancelFromKeepsInv(m, bodies, 0, waiting, busy);
  }

  lemma {:induction false} DeliverKeepsInv(
      m: Model, op: Option<nat>, result: int, cancelled: bool, body: seq<Call>, waiting: set<nat>, busy: set<nat>)
    requires Inv(m, waiting, busy) && AsSet(op) <= waiting && (cancelled ==> result < 0)
    ensures Inv(Deliver(m, op, result, cancelled, body), waiting - AsSet(op), busy)
    ensures Continues(m, Deliver(m, op, result, cancelled, body))
    decreases body, 1
  {
    if op.Some? {
      FinishKeepsInv(m, op.value, waiting, busy, cancelled, result);
      var told := m.(log := m.log + [Finished(op.value, cancelled, result)]);
      RunCallsKeepInv(told, body, waiting - {op.value}, busy + {op.value});
      IdleKeepsInv(RunCalls(told, body), op.value, waiting - {op.value}, busy + {op.value});
      assert busy + {op.value} - {op.value} == busy;
    } else {
      assert waiting - AsSet(op) == waiting;
    }
  }

  lemma {:induction false} DeliverBothKeepsInv(
      m: Model, fd: int, result: int, cancelled: bool, bodies: Bodies, waiting: set<nat>, busy: set<nat>)
    requires Inv(m, waiting, busy) && (cancelled ==> result < 0)
    ensures Inv(DeliverBoth(m, fd, result, cancelled, bodies), waiting, busy)
    ensures Continues(m, DeliverBoth(m, fd, result, cancelled, bodies))
    decreases bodies, 2
  {
    var r, w := Occupant(m, Slot(fd, false)), Occupant(m, Slot(fd, true));
    VacateBothKeepsInv(m, fd, waiting, busy);
    var out := waiting + AsSet(r) + AsSet(w);
    DeliverKeepsInv(VacateBoth(m, fd), r, result, cancelled, bodies.reader, out, busy);
    var mid := Deliver(VacateBoth(m, fd), r, result, cancelled, bodies.reader);
    DeliverKeepsInv(mid, w, result, cancelled, bodies.writer, out - AsSet(r), busy);
    assert out - AsSet(r) - AsSet(w) == waiting;
  }

  lemma {:induction false} CancelFromKeepsInv(m: Model, bodies: seq<Bodies>, fd: nat, waiting: set<nat>, busy: set<nat>)
    requires Inv(m, waiting, busy)
    ensures Inv(CancelFrom(m, bodies, fd), waiting, busy) && Continues(m, CancelFrom(m, bodies, fd))
    decreases bodies, 3, if fd < |bodies| then |bodies| - fd else 0
  {
    if fd < m.size {
      if fd < |bodies| {
        DeliverBothKeepsInv(m, fd, -ECANCELED, true, bodies[fd], waiting, busy);
        CancelFromKeepsInv(DeliverBoth(m, fd, -ECANCELED, true, bodies[fd]), bodies, fd + 1, waiting, busy);
      } else {
        CancelSilentlyKeepsInv(m, fd, waiting, busy);
      }
    }
  }

  lemma {:induction false} EndQuietlyKeepsInv(m: Model, op: Option<nat>, waiting: set<nat>, busy: set<nat>)
    requires Inv(m, waiting, busy) && AsSet(op) <= waiting
    ensures Inv(EndQuietly(m, op), waiting - AsSet(op), busy) && Continues(m, EndQuietly(m, op))
  {
    if op.Some? {
      FinishKeepsInv(m, op.value, waiting, busy, true, -ECANCELED);
      IdleKeepsInv(m.(log := m.log + [Finished(op.value, true, -ECANCELED)]), op.value, waiting - {op.value}, busy + {op.value});
      assert busy + {op.value} - {op.value} == busy;
    } else {
      assert waiting - AsSet(op) == waiting;
    }
  }

  lemma {:induction false} CancelSilentlyKeepsInv(m: Model, fd: nat, waiting: set<nat>, busy: set<nat>)
    requires Inv(m, waiting, busy)
    ensures Inv(CancelSilently(m, fd), waiting, busy) && Continues(m, CancelSilently(m, fd))
    decreases m.size - fd
  {
    if fd < m.size {
      var r, w := Occupant(m, Slot(fd, false)), Occupant(m, Slot(fd, true));
      VacateBothKeepsInv(m, fd, waiting, busy);
      var out := waiting + AsSet(r) + AsSet(w);
      EndQuietlyKeepsInv(VacateBoth(m, fd), r, out, busy);
      EndQuietlyKeepsInv(EndQuietly(VacateBoth(m, fd), r), w, out - AsSet(r), busy);
      assert out - AsSet(r) - AsSet(w) == waiting;
      CancelSilentlyKeepsInv(EndSilently(m, fd), fd + 1, waiting, busy);
    }
  }

  // ----- whole runs

  lemma {:induction false} ReadyKeepsInv(m: Model, s: Slot, result: int, body: seq<Call>)
    requires Inv(m, {}, {})
    ensures Inv(Ready(m, s, result, body), {}, {}) && Continues(m, Ready(m, s, result, body))
  {
    if s in m.slots {
      var op := m.slots[s];
      assert SlotOk(m, s);
      VacateKeepsInv(m, op, {}, {});
      DeliverKeepsInv(Vacate(m, op), Some(op), result, false, body, {} + {op}, {});
      assert {} + {op} - AsSet(Some(op)) == {};
    }
  }

  lemma {:induction false} TurnKeepsInv(m: Model, t: Turn)
    requires Inv(m, {}, {})
    ensures Inv(Take(m, t), {}, {}) && Continues(m, Take(m, t))
  {
    match t
    case Readable(fd, result, body) => ReadyKeepsInv(m, Slot(fd, false), result, body);
    case Writeable(fd, result, body) => ReadyKeepsInv(m, Slot(fd, true), result, body);
    case Closed(fd, bodies) => DeliverBothKeepsInv(m, fd, 0, false, bodies, {}, {});
    case Failed(fd, bodies) => DeliverBothKeepsInv(m, fd, -ECONNRESET, false, bodies, {}, {});
    case Command(call) => RunCallKeepsInv(m, call, {}, {});
  }

  function After(m: Model, turns: seq<Turn>): Model
    decreases |turns|
  {
    if turns == [] then m else Take(After(m, turns[..|turns| - 1]), turns[|turns| - 1])
  }

  lemma {:induction false} RunKeepsInv(m: Model, turns: seq<Turn>)
    requires Inv(m, {}, {})
    ensures Inv(After(m, turns), {}, {})
    decreases |turns|
  {
    if turns != [] {
      RunKeepsInv(m, turns[..|turns| - 1]);
      TurnKeepsInv(After(m, turns[..|turns| - 1]), turns[|turns| - 1]);
    }
  }

  function Fresh(fds: seq<int>, codes: seq<Opcode>, size: nat): Model
    requires |fds| == |codes|
  {
    Model(fds, codes, seq(|fds|, _ => Idle), map[], size, map[], [])
  }

  lemma {:induction false} FreshHolds(fds: seq<int>, codes: seq<Opcode>, size: nat)
    requires |fds| == |codes|
    ensures Inv(Fresh(fds, codes, size), {}, {})
  {}

  /** Main result over every run, with handlers submitting and cancelling to any depth: an occupied
      slot holds a submitted operation of that descriptor and direction, every operation that is
      not idle is in its slot, the reactor watches exactly the occupied directions, and each
      operation accepted is ended exactly once before it is accepted again, or is still in its
      slot. */
  lemma {:induction false} EveryOperationEndsOnce(fds: seq<int>, codes: seq<Opcode>, size: nat, turns: seq<Turn>)
    requires |fds| == |codes|
    ensures
      var m := After(Fresh(fds, codes, size), turns);
      && SlotsOk(m) && WatchOk(m)
      && (forall op :: 0 <= op < |m.status| ==> (InSlot(m, op) <==> !m.status[op].Idle?))
      && LogOk(m.log)
      && forall i :: 0 <= i < |m.log| && m.log[i].Accepted? ==>
           InSlot(m, m.log[i].op) || exists j :: i < j < |m.log| && EndsAt(m.log, i, j)
  {
    FreshHolds(fds, codes, size);
    RunKeepsInv(Fresh(fds, codes, size), turns);
    var m := After(Fresh(fds, codes, size), turns);
    forall i | 0 <= i < |m.log| && m.log[i].Accepted?
      ensures InSlot(m, m.log[i].op) || exists j :: i < j < |m.log| && EndsAt(m.log, i, j)
    {
      if !Open(m.log, m.log[i].op) { AcceptedThenEnded(m.log, i); }
    }
  }

  // ----- which operation an event ends, and how

  /** Operations that wait until the descriptor can be written; the others wait until it can be read. */
  const WRITERS: set<Opcode> := {Connect, Write, WriteFixed, SendMsg, Send}
  const READERS: set<Opcode> := {Accept, Read, ReadFixed, RecvMsg, Recv}

  /** The operation is in flight on this descriptor, waiting for this direction. */
  predicate Awaits(m: Model, op: nat, fd: int, write: bool) {
    InSlot(m, op) && m.fds[op] == fd && m.codes[op] in if write then WRITERS else READERS
  }

  /** The first thing that happened from `m` to `n` is this ending. */
  predicate EndsFirst(m: Model, n: Model, op: nat, cancelled: bool, result: int) {
    m.log + [Finished(op, cancelled, result)] <= n.log
  }

  predicate EndedWith(m: Model, n: Model, op: nat, cancelled: bool, result: int) {
    m.log <= n.log && exists j :: |m.log| <= j < |n.log| && n.log[j] == Finished(op, cancelled, result)
  }

  lemma OccupantAwaits(m: Model, fd: int, write: bool, op: nat)
    requires Inv(m, {}, {})
    ensures Occupant(m, Slot(fd, write)) == Some(op) <==> Awaits(m, op, fd, write)
  {
    if Slot(fd, write) in m.slots { assert SlotOk(m, Slot(fd, write)); }
  }

  lemma {:induction false} DeliverEndsFirst(
      m: Model, op: nat, result: int, cancelled: bool, body: seq<Call>, waiting: set<nat>)
    requires Inv(m, waiting, {}) && op in waiting && (cancelled ==> result < 0)
    ensures EndsFirst(m, Deliver(m, Some(op), result, cancelled, body), op, cancelled, result)
  {
    var told := m.(log := m.log + [Finished(op, cancelled, result)]);
    FinishKeepsInv(m, op, waiting, {}, cancelled, result);
    RunCallsKeepInv(told, body, waiting - {op}, {} + {op});
  }

  /** Readiness ends the one operation that waits for it, with the result of its system call, before
      its handler does anything; if none waits it changes nothing. */
  lemma {:induction false} ReadinessEndsExactly(m: Model, fd: int, result: int, body: seq<Call>, write: bool)
    requires Inv(m, {}, {})
    ensures
      var n := Take(m, if write then Writeable(fd, result, body) else Readable(fd, result, body));
      && (forall op :: Awaits(m, op, fd, write) ==> EndsFirst(m, n, op, false, result))
      && ((forall op :: !Awaits(m, op, fd, write)) ==> n == m)
  {
    var s := Slot(fd, write);
    forall op: nat ensures Occupant(m, s) == Some(op) <==> Awaits(m, op, fd, write) { OccupantAwaits(m, fd, write, op); }
    if s in m.slots {
      var op := m.slots[s];
      assert SlotOk(m, s);
      VacateKeepsInv(m, op, {}, {});
      DeliverEndsFirst(Vacate(m, op), op, result, false, body, {} + {op});
    }
  }

  /** A hang-up ends both with 0, an error both with a connection reset; neither as a cancellation. */
  lemma {:induction false} LossEndsExactly(m: Model, fd: int, bodies: Bodies, failed: bool, op: nat, write: bool)
    requires Inv(m, {}, {}) && Awaits(m, op, fd, write)
    ensures
      var n := Take(m, if failed then Failed(fd, bodies) else Closed(fd, bodies));
      EndedWith(m, n, op, false, if failed then -104 else 0) && (!write ==> EndsFirst(m, n, op, false, if failed then -104 else 0))
  {
    var result := if failed then -ECONNRESET else 0;
    OccupantAwaits(m, fd, write, op);
    BothEndWith(m, fd, result, false, bodies, op, write);
  }

  lemma {:induction false} BothEndWith(m: Model, fd: int, result: int, cancelled: bool, bodies: Bodies, op: nat, write: bool)
    requires Inv(m, {}, {}) && Occupant(m, Slot(fd, write)) == Some(op) && (cancelled ==> result < 0)
    ensures
      var n := DeliverBoth(m, fd, result, cancelled, bodies);
      EndedWith(m, n, op, cancelled, result) && (!write ==> EndsFirst(m, n, op, cancelled, result))
  {
    var r, w := Occupant(m, Slot(fd, false)), Occupant(m, Slot(fd, true));
    VacateBothKeepsInv(m, fd, {}, {});
    var v := VacateBoth(m, fd);
    var out := {} + AsSet(r) + AsSet(w);
    DeliverKeepsInv(v, r, result, cancelled, bodies.reader, out, {});
    var mid := Deliver(v, r, result, cancelled, bodies.reader);
    DeliverKeepsInv(mid, w, result, cancelled, bodies.writer, out - AsSet(r), {});
    var n := Deliver(mid, w, result, cancelled, bodies.writer);
    if write {
      DeliverEndsFirst(mid, op, result, cancelled, bodies.writer, out - AsSet(r));
      assert (mid.log + [Finished(op, cancelled, result)])[|mid.log|] == n.log[|mid.log|];
    } else {
      DeliverEndsFirst(v, op, result, cancelled, bodies.reader, out);
      assert (v.log + [Finished(op, cancelled, result)])[|v.log|] == mid.log[|v.log|] == n.log[|v.log|];
    }
  }

  /** No operation in flight waits for the direction of `op` on its descriptor. */
  ghost predicate DirectionFree(m: Model, op: nat)
    requires op < |m.fds| && op < |m.codes|
  {
    forall o: nat :: o < |m.fds| && o < |m.codes| && Open(m.log, o) && m.fds[o] == m.fds[op] ==>
      (m.codes[o] in WRITERS <==> m.codes[op] !in WRITERS)
  }

  /** What a call between two turns is taken for, by the record alone: a submission exactly when the
      operation is not in flight, its descriptor is valid, nothing else waits there for the same
      direction and, for a connection, connecting did not fail; a cancellation exactly when the
      operation is in flight, and that ends it as cancelled before anything else happens.  What is not
      taken changes nothing. */
  lemma {:induction false} CallsTakenExactly(m: Model, op: nat, connected: bool, body: seq<Call>)
    requires Inv(m, {}, {})
    ensures
      var n := RunCall(m, Submit(Some(op), connected));
      if op < |m.fds| && m.fds[op] >= 0 && !Open(m.log, op) && DirectionFree(m, op) && (m.codes[op].Connect? ==> connected)
      then n.log == m.log + [Accepted(op)] && InSlot(n, op) else n == m
    ensures
      var n := RunCall(m, Cancel(Some(op), body));
      if Open(m.log, op) then EndsFirst(m, n, op, true, -125) else n == m
  {
    if op < |m.fds| {
      assert DirectionFree(m, op) <==> SlotOf(m, op) !in m.slots by { FreeIsEmpty(m, op); }
      if InSlot(m, op) { assert SlotOk(m, SlotOf(m, op)); }
    }
    if AcceptsCancel(m, Some(op)) {
      var marked := m.(status := m.status[op := Cancelling]);
      VacateKeepsInv(m, op, {}, {});
      MarkKeepsInv(Vacate(m, op), op, {} + {op}, {});
      assert Vacate(m, op).(status := m.status[op := Cancelling]) == Vacate(marked, op);
      DeliverEndsFirst(Vacate(marked, op), op, -ECANCELED, true, body, {} + {op});
    }
  }

  lemma FreeIsEmpty(m: Model, op: nat)
    requires Inv(m, {}, {}) && op < |m.fds|
    ensures DirectionFree(m, op) <==> SlotOf(m, op) !in m.slots
  {
    var s := SlotOf(m, op);
    if s in m.slots {
      assert SlotOk(m, s);
      assert Open(m.log, m.slots[s]);
    }
    forall o: nat | o < |m.fds| && Open(m.log, o) ensures InSlot(m, o) {}
  }

  // ----- stopping

  predicate EndedSince(m: Model, from: nat, op: nat) {
    exists j :: from <= j < |m.log| && m.log[j].Finished? && m.log[j].op == op
  }

  lemma {:induction false} EndedStays(m: Model, n: Model, from: nat, op: nat)
    requires Continues(m, n) && EndedSince(m, from, op)
    ensures EndedSince(n, from, op)
  {
    var j :| from <= j < |m.log| && m.log[j].Finished? && m.log[j].op == op;
    assert n.log[j] == m.log[j];
  }

  /** Until it is ended, an operation stays where it is. */
  lemma {:induction false} InSlotOrEnded(m: Model, n: Model, op: nat)
    requires Inv(m, {}, {}) && Inv(n, {}, {}) && Continues(m, n) && InSlot(m, op)
    ensures InSlot(n, op) || EndedSince(n, |m.log|, op)
  {
    if !Open(n.log, op) { ClosedLater(m.log, n.log, op); }
  }

  lemma {:induction false} ClosedLater(log: seq<Entry>, longer: seq<Entry>, op: nat)
    requires log <= longer && Open(log, op) && !Open(longer, op)
    ensures exists j :: |log| <= j < |longer| && longer[j].Finished? && longer[j].op == op
    decreases |longer|
  {
    SamePrefix(log, longer);
    if |longer| > |log| && longer[|longer| - 1].op != op {
      ClosedLater(log, longer[..|longer| - 1], op);
      var j :| |log| <= j < |longer| - 1 && longer[..|longer| - 1][j].Finished? && longer[..|longer| - 1][j].op == op;
      assert longer[j].Finished? && longer[j].op == op;
    }
  }

  lemma SamePrefix(log: seq<Entry>, longer: seq<Entry>)
    requires log <= longer
    ensures |log| == |longer| ==> log == longer
  {}

  lemma {:induction false} DeliveredIsEnded(
      m: Model, op: Option<nat>, result: int, cancelled: bool, body: seq<Call>, waiting: set<nat>)
    requires Inv(m, waiting, {}) && op.Some? && op.value in waiting && (cancelled ==> result < 0)
    ensures EndedSince(Deliver(m, op, result, cancelled, body), |m.log|, op.value)
  {
    var told := m.(log := m.log + [Finished(op.value, cancelled, result)]);
    FinishKeepsInv(m, op.value, waiting, {}, cancelled, result);
    RunCallsKeepInv(told, body, waiting - {op.value}, {} + {op.value});
    var n := Deliver(m, op, result, cancelled, body);
    assert told.log <= n.log;
    assert n.log[|m.log|] == Finished(op.value, cancelled, result);
  }

  lemma {:induction false} BothAreEnded(m: Model, fd: int, result: int, cancelled: bool, bodies: Bodies, op: nat)
    requires Inv(m, {}, {}) && InSlot(m, op) && m.fds[op] == fd && (cancelled ==> result < 0)
    ensures EndedSince(DeliverBoth(m, fd, result, cancelled, bodies), |m.log|, op)
  {
    var r, w := Occupant(m, Slot(fd, false)), Occupant(m, Slot(fd, true));
    VacateBothKeepsInv(m, fd, {}, {});
    var v := VacateBoth(m, fd);
    var out := {} + AsSet(r) + AsSet(w);
    DeliverKeepsInv(v, r, result, cancelled, bodies.reader, out, {});
    var mid := Deliver(v, r, result, cancelled, bodies.reader);
    DeliverKeepsInv(mid, w, result, cancelled, bodies.writer, out - AsSet(r), {});
    if r == Some(op) {
      DeliveredIsEnded(v, r, result, cancelled, bodies.reader, out);
      EndedStays(mid, DeliverBoth(m, fd, result, cancelled, bodies), |m.log|, op);
    } else {
      DeliveredIsEnded(mid, w, result, cancelled, bodies.writer, out - AsSet(r));
    }
  }

  lemma {:induction false} SweepEnds(m: Model, bodies: seq<Bodies>, fd: nat, op: nat)
    requires Inv(m, {}, {}) && InSlot(m, op) && fd <= m.fds[op]
    ensures EndedSince(CancelFrom(m, bodies, fd), |m.log|, op)
    decreases if fd < |bodies| then |bodies| - fd else 0, m.size - fd
  {
    assert SlotOk(m, SlotOf(m, op));
    CancelFromKeepsInv(m, bodies, fd, {}, {});
    var end := CancelFrom(m, bodies, fd);
    if fd < |bodies| {
      var n := DeliverBoth(m, fd, -ECANCELED, true, bodies[fd]);
      DeliverBothKeepsInv(m, fd, -ECANCELED, true, bodies[fd], {}, {});
      CancelFromKeepsInv(n, bodies, fd + 1, {}, {});
      Onward(m, n, end, fd, op, bodies[fd]);
      if !EndedSince(n, |m.log|, op) {
        SweepEnds(n, bodies, fd + 1, op);
        var j :| |n.log| <= j < |end.log| && end.log[j].Finished? && end.log[j].op == op;
      }
    } else {
      SilentSweepEnds(m, fd, op);
    }
  }

  /** One descriptor further on, the operation has been ended or is still ahead. */
  lemma {:induction false} Onward(m: Model, n: Model, end: Model, fd: nat, op: nat, bodies: Bodies)
    requires Inv(m, {}, {}) && InSlot(m, op) && fd <= m.fds[op] && Inv(n, {}, {}) && Continues(m, n) && Continues(n, end)
    requires n == DeliverBoth(m, fd, -ECANCELED, true, bodies)
    ensures EndedSince(n, |m.log|, op) ==> EndedSince(end, |m.log|, op)
    ensures !EndedSince(n, |m.log|, op) ==> InSlot(n, op) && fd + 1 <= n.fds[op]
  {
    InSlotOrEnded(m, n, op);
    if m.fds[op] == fd { BothAreEnded(m, fd, -ECANCELED, true, bodies, op); }
    if EndedSince(n, |m.log|, op) { EndedStays(n, end, |m.log|, op); }
  }

  lemma {:induction false} SilentIsDeliver(m: Model, fd: int)
    requires WellFormed(m)
    ensures EndSilently(m, fd) == DeliverBoth(m, fd, -ECANCELED, true, Bodies([], []))
  {}

  lemma {:induction false} SilentSweepEnds(m: Model, fd: nat, op: nat)
    requires Inv(m, {}, {}) && InSlot(m, op) && fd <= m.fds[op] < m.size
    ensures EndedSince(CancelSilently(m, fd), |m.log|, op)
    decreases m.size - fd
  {
    var n, end := EndSilently(m, fd), CancelSilently(m, fd);
    SilentIsDeliver(m, fd);
    DeliverBothKeepsInv(m, fd, -ECANCELED, true, Bodies([], []), {}, {});
    CancelSilentlyKeepsInv(n, fd + 1, {}, {});
    Onward(m, n, end, fd, op, Bodies([], []));
    if !EndedSince(n, |m.log|, op) {
      SilentSweepEnds(n, fd + 1, op);
      var j :| |n.log| <= j < |end.log| && end.log[j].Finished? && end.log[j].op == op;
    }
  }

  /** `cancelAllOperations` ends every operation that was in flight when it was called, whatever
      the handlers it runs submit or cancel. */
  lemma {:induction false} StopEndsAllInFlight(m: Model, bodies: seq<Bodies>)
    requires Inv(m, {}, {})
    ensures forall op :: InSlot(m, op) ==> EndedSince(RunCall(m, Stop(bodies)), |m.log|, op)
  {
    forall op | InSlot(m, op) ensures EndedSince(RunCall(m, Stop(bodies)), |m.log|, op) {
      assert SlotOk(m, SlotOf(m, op));
      SweepEnds(m, bodies, 0, op);
    }
  }

  // ----- exactly what a stop leaves in flight

  /** What the sweep does at one descriptor. */
  function SweepOne(m: Model, bodies: seq<Bodies>, fd: nat): Model {
    if fd >= m.size then m
    else if fd < |bodies| then DeliverBoth(m, fd, -ECANCELED, true, bodies[fd])
    else EndSilently(m, fd)
  }

  /** The proactor when the sweep reaches descriptor `d`. */
  function SweptTo(m: Model, bodies: seq<Bodies>, d: nat): Model
    decreases d
  {
    if d == 0 then m else SweepOne(SweptTo(m, bodies, d - 1), bodies, d - 1)
  }

  lemma {:induction false} SweepGoesOn(m: Model, bodies: seq<Bodies>, d: nat)
    ensures CancelFrom(SweptTo(m, bodies, d), bodies, d) == CancelFrom(m, bodies, 0)
    decreases d
  {
    if d > 0 {
      SweepGoesOn(m, bodies, d - 1);
      if d - 1 < SweptTo(m, bodies, d - 1).size { SweepStep(SweptTo(m, bodies, d - 1), bodies, d - 1); }
    }
  }

  lemma {:induction false} SweepOneKeepsInv(m: Model, bodies: seq<Bodies>, fd: nat)
    requires Inv(m, {}, {})
    ensures Inv(SweepOne(m, bodies, fd), {}, {}) && Continues(m, SweepOne(m, bodies, fd))
  {
    if fd < |bodies| {
      DeliverBothKeepsInv(m, fd, -ECANCELED, true, bodies[fd], {}, {});
    } else {
      SilentIsDeliver(m, fd);
      DeliverBothKeepsInv(m, fd, -ECANCELED, true, Bodies([], []), {}, {});
    }
  }

  lemma {:induction false} SweptKeepsInv(m: Model, bodies: seq<Bodies>, d: nat)
    requires Inv(m, {}, {})
    ensures Inv(SweptTo(m, bodies, d), {}, {}) && Continues(m, SweptTo(m, bodies, d))
    ensures Continues(SweptTo(m, bodies, d), CancelFrom(m, bodies, 0))
    decreases d
  {
    if d > 0 {
      SweptKeepsInv(m, bodies, d - 1);
      SweepOneKeepsInv(SweptTo(m, bodies, d - 1), bodies, d - 1);
    }
    SweepGoesOn(m, bodies, d);
    CancelFromKeepsInv(SweptTo(m, bodies, d), bodies, d, {}, {});
  }

  /** Past the handlers that make calls the vectors grow no more, so the sweep comes to an end. */
  lemma {:induction false} SizeSettles(m: Model, bodies: seq<Bodies>, d: nat)
    requires d >= |bodies|
    ensures SweptTo(m, bodies, d).size == SweptTo(m, bodies, |bodies|).size
    decreases d
  {
    if d > |bodies| { SizeSettles(m, bodies, d - 1); }
  }

  lemma {:induction false} SweepEnded(m: Model, bodies: seq<Bodies>) returns (d: nat)
    ensures SweptTo(m, bodies, d) == CancelFrom(m, bodies, 0)
  {
    d := |bodies| + SweptTo(m, bodies, |bodies|).size;
    SizeSettles(m, bodies, d);
    SweepGoesOn(m, bodies, d);
  }

  /** Entry `j` was made while the sweep was at descriptor `d`. */
  lemma {:induction false} MadeWhen(m: Model, bodies: seq<Bodies>, last: nat, j: nat) returns (d: nat)
    requires |m.log| <= j < |SweptTo(m, bodies, last).log|
    ensures |SweptTo(m, bodies, d).log| <= j < |SweptTo(m, bodies, d + 1).log|
    decreases last
  {
    d := last - 1;
    if |SweptTo(m, bodies, d).log| > j { d := MadeWhen(m, bodies, d, j); }
  }

  /** A handler run while the sweep was at descriptor `d` submitted `op` to a descriptor no further
      on, and nothing has ended it since. */
  predicate SubmittedBehind(m: Model, bodies: seq<Bodies>, op: nat, d: nat, j: nat) {
    && op < |m.fds| && m.fds[op] <= d
    && |SweptTo(m, bodies, d).log| <= j < |SweptTo(m, bodies, d + 1).log|
    && LastAccepted(RunCall(m, Stop(bodies)).log, op, j)
  }

  ghost predicate LeftBehind(m: Model, bodies: seq<Bodies>, op: nat) {
    exists d: nat, j: nat :: SubmittedBehind(m, bodies, op, d, j)
  }

  /** What is in flight after `cancelAllOperations` is exactly what its handlers submitted to
      descriptors already swept, the one being swept included, and nothing ended since. */
  lemma {:induction false} StopLeavesExactly(m: Model, bodies: seq<Bodies>, op: nat)
    requires Inv(m, {}, {})
    ensures InSlot(RunCall(m, Stop(bodies)), op) <==> LeftBehind(m, bodies, op)
  {
    var end := CancelFrom(m, bodies, 0);
    CancelFromKeepsInv(m, bodies, 0, {}, {});
    if InSlot(end, op) {
      var j := OpenIsAccepted(end.log, op);
      LateAcceptance(m, bodies, op, j);
    }
    if LeftBehind(m, bodies, op) {
      var d: nat, j: nat :| SubmittedBehind(m, bodies, op, d, j);
      AcceptedIsOpen(end.log, end.log, op, j);
    }
  }

  /** An acceptance from before the stop is not the last word on its operation. */
  lemma {:induction false} AcceptedLate(m: Model, bodies: seq<Bodies>, op: nat, j: nat)
    requires Inv(m, {}, {}) && LastAccepted(CancelFrom(m, bodies, 0).log, op, j)
    ensures j >= |m.log|
  {
    hide SlotsOk, WatchOk, StatusOk, CancelFrom;
    CancelFromKeepsInv(m, bodies, 0, {}, {});
    if j < |m.log| {
      AcceptedIsOpen(m.log, CancelFrom(m, bodies, 0).log, op, j);
      StopEndsAllInFlight(m, bodies);
    }
  }

  /** What is submitted further on is ended when the sweep gets there. */
  lemma {:induction false} AcceptedBehind(m: Model, bodies: seq<Bodies>, op: nat, d: nat, j: nat)
    requires Inv(m, {}, {}) && op < |m.fds| && LastAccepted(CancelFrom(m, bodies, 0).log, op, j)
    requires j < |SweptTo(m, bodies, d + 1).log|
    ensures m.fds[op] <= d
  {
    hide SlotsOk, WatchOk, StatusOk, CancelFrom;
    var n, end := SweptTo(m, bodies, d + 1), CancelFrom(m, bodies, 0);
    SweptKeepsInv(m, bodies, d + 1);
    AcceptedIsOpen(n.log, end.log, op, j);
    SweepGoesOn(m, bodies, d + 1);
    if m.fds[op] > d { SweepEnds(n, bodies, d + 1, op); }
  }

  lemma {:induction false} LateAcceptance(m: Model, bodies: seq<Bodies>, op: nat, j: nat)
    requires Inv(m, {}, {}) && op < |m.fds| && LastAccepted(CancelFrom(m, bodies, 0).log, op, j)
    ensures LeftBehind(m, bodies, op)
  {
    hide Inv, CancelFrom, SweptTo;
    AcceptedLate(m, bodies, op, j);
    var last := SweepEnded(m, bodies);
    var d := MadeWhen(m, bodies, last, j);
    AcceptedBehind(m, bodies, op, d, j);
    assert SubmittedBehind(m, bodies, op, d, j);
  }

  /** So a stop leaves nothing in flight exactly when nothing was left behind. */
  lemma {:induction false} StopIsCleanExactly(m: Model, bodies: seq<Bodies>)
    requires Inv(m, {}, {})
    ensures RunCall(m, Stop(bodies)).slots == map[] <==> forall op :: !LeftBehind(m, bodies, op)
  {
    var end := RunCall(m, Stop(bodies));
    CancelFromKeepsInv(m, bodies, 0, {}, {});
    forall op ensures InSlot(end, op) <==> LeftBehind(m, bodies, op) { StopLeavesExactly(m, bodies, op); }
    forall s | s in end.slots ensures InSlot(end, end.slots[s]) { assert SlotOk(end, s); }
    if forall s :: s !in end.slots { assert end.slots == map[]; }
  }

  /** A call, with whatever its handlers go on to do, that submits none of `ops`. */
  predicate Avoids(c: Call, ops: set<nat>)
    decreases c
  {
    match c
    case Submit(op, _) => op.None? || op.value !in ops
    case Cancel(_, body) => forall i :: 0 <= i < |body| ==> Avoids(body[i], ops)
    case Stop(bodies) => forall i :: 0 <= i < |bodies| ==> BothAvoid(bodies[i], ops)
  }

  predicate BothAvoid(b: Bodies, ops: set<nat>)
    decreases b
  {
    && (forall i :: 0 <= i < |b.reader| ==> Avoids(b.reader[i], ops))
    && (forall i :: 0 <= i < |b.writer| ==> Avoids(b.writer[i], ops))
  }

  /** From `m` to `n` none of `ops` was accepted, and whatever ended was cancelled. */
  predicate CallsLogged(m: Model, n: Model, ops: set<nat>) {
    && m.log <= n.log
    && forall j :: |m.log| <= j < |n.log| ==>
         match n.log[j]
         case Accepted(op) => op !in ops
         case Finished(_, cancelled, result) => cancelled && result == -125
  }

  lemma LoggedOnward(m: Model, n: Model, o: Model, ops: set<nat>)
    requires CallsLogged(m, n, ops) && CallsLogged(n, o, ops)
    ensures CallsLogged(m, o, ops)
  {}

  lemma {:induction false} CallsAvoid(m: Model, calls: seq<Call>, ops: set<nat>)
    requires forall i :: 0 <= i < |calls| ==> Avoids(calls[i], ops)
    ensures CallsLogged(m, RunCalls(m, calls), ops)
    decreases calls, 0
  {
    if calls != [] {
      var before := RunCalls(m, calls[..|calls| - 1]);
      CallsAvoid(m, calls[..|calls| - 1], ops);
      CallAvoids(before, calls[|calls| - 1], ops);
      LoggedOnward(m, before, RunCalls(m, calls), ops);
    }
  }

  lemma {:induction false} CallAvoids(m: Model, c: Call, ops: set<nat>)
    requires Avoids(c, ops)
    ensures CallsLogged(m, RunCall(m, c), ops)
    decreases c, 0
  {
    match c
    case Submit(_, _) =>
    case Cancel(op, body) =>
      if AcceptsCancel(m, op) {
        DeliverAvoids(Vacate(m.(status := m.status[op.value := Cancelling]), op.value), op, body, ops);
      }
    case Stop(bodies) => SweepAvoids(m, bodies, 0, ops);
  }

  lemma {:induction false} DeliverAvoids(m: Model, op: Option<nat>, body: seq<Call>, ops: set<nat>)
    requires forall i :: 0 <= i < |body| ==> Avoids(body[i], ops)
    ensures CallsLogged(m, Deliver(m, op, -ECANCELED, true, body), ops)
    decreases body, 1
  {
    if op.Some? {
      var told := m.(log := m.log + [Finished(op.value, true, -ECANCELED)]);
      CallsAvoid(told, body, ops);
      LoggedOnward(m, told, RunCalls(told, body), ops);
    }
  }

  lemma {:induction false} BothAvoided(m: Model, fd: int, bodies: Bodies, ops: set<nat>)
    requires BothAvoid(bodies, ops)
    ensures CallsLogged(m, DeliverBoth(m, fd, -ECANCELED, true, bodies), ops)
    decreases bodies, 2
  {
    var r, w := Occupant(m, Slot(fd, false)), Occupant(m, Slot(fd, true));
    var mid := Deliver(VacateBoth(m, fd), r, -ECANCELED, true, bodies.reader);
    DeliverAvoids(VacateBoth(m, fd), r, bodies.reader, ops);
    DeliverAvoids(mid, w, bodies.writer, ops);
    LoggedOnward(m, mid, DeliverBoth(m, fd, -ECANCELED, true, bodies), ops);
  }

  lemma {:induction false} SweepAvoids(m: Model, bodies: seq<Bodies>, fd: nat, ops: set<nat>)
    requires forall i :: 0 <= i < |bodies| ==> BothAvoid(bodies[i], ops)
    ensures CallsLogged(m, CancelFrom(m, bodies, fd), ops)
    decreases bodies, 3, if fd < |bodies| then |bodies| - fd else 0
  {
    if fd < m.size {
      if fd < |bodies| {
        var n := DeliverBoth(m, fd, -ECANCELED, true, bodies[fd]);
        BothAvoided(m, fd, bodies[fd], ops);
        SweepAvoids(n, bodies, fd + 1, ops);
        LoggedOnward(m, n, CancelFrom(m, bodies, fd), ops);
      } else {
        SilentlyAvoids(m, fd, ops);
      }
    }
  }

  lemma {:induction false} SilentlyAvoids(m: Model, fd: nat, ops: set<nat>)
    ensures CallsLogged(m, CancelSilently(m, fd), ops)
    decreases m.size - fd
  {
    if fd < m.size {
      SilentlyAvoids(EndSilently(m, fd), fd + 1, ops);
      assert CallsLogged(m, EndSilently(m, fd), ops);
      LoggedOnward(m, EndSilently(m, fd), CancelSilently(m, fd), ops);
    }
  }

  lemma {:induction false} AvoidsNothing(c: Call)
    ensures Avoids(c, {})
    decreases c
  {
    match c
    case Submit(_, _) =>
    case Cancel(_, body) => forall i | 0 <= i < |body| ensures Avoids(body[i], {}) { AvoidsNothing(body[i]); }
    case Stop(bodies) => forall i | 0 <= i < |bodies| ensures BothAvoid(bodies[i], {}) { BothAvoidNothing(bodies[i]); }
  }

  lemma {:induction false} BothAvoidNothing(b: Bodies)
    ensures BothAvoid(b, {})
    decreases b
  {
    forall i | 0 <= i < |b.reader| ensures Avoids(b.reader[i], {}) { AvoidsNothing(b.reader[i]); }
    forall i | 0 <= i < |b.writer| ensures Avoids(b.writer[i], {}) { AvoidsNothing(b.writer[i]); }
  }

  /** Whatever calls a program makes, to any depth: an operation they end is told it was cancelled. */
  lemma {:induction false} CallsOnlyCancel(m: Model, c: Call)
    ensures CallsLogged(m, RunCall(m, c), {})
  {
    AvoidsNothing(c);
    CallAvoids(m, c, {});
  }

  /** So a stop ends everything in flight as cancelled. */
  lemma {:induction false} StopCancelsAllInFlight(m: Model, bodies: seq<Bodies>)
    requires Inv(m, {}, {})
    ensures forall op :: InSlot(m, op) ==> EndedWith(m, RunCall(m, Stop(bodies)), op, true, -125)
  {
    StopEndsAllInFlight(m, bodies);
    CallsOnlyCancel(m, Stop(bodies));
  }

  /** The operations of descriptors up to `d`. */
  function UpTo(m: Model, d: nat): set<nat> { set op: nat | op < |m.fds| && m.fds[op] <= d }

  /** And nothing is left behind when each handler submits only further on, if at all: what a caller
      can see from the handlers alone. */
  lemma {:induction false} StopIsClean(m: Model, bodies: seq<Bodies>)
    requires Inv(m, {}, {})
    requires forall d :: 0 <= d < |bodies| ==> BothAvoid(bodies[d], UpTo(m, d))
    ensures RunCall(m, Stop(bodies)).slots == map[]
  {
    forall op ensures !LeftBehind(m, bodies, op) {
      if LeftBehind(m, bodies, op) {
        var d: nat, j: nat :| SubmittedBehind(m, bodies, op, d, j);
        NotAcceptedBehind(m, bodies, op, d, j);
      }
    }
    StopIsCleanExactly(m, bodies);
  }

  lemma {:induction false} NotAcceptedBehind(m: Model, bodies: seq<Bodies>, op: nat, d: nat, j: nat)
    requires Inv(m, {}, {})
    requires forall i :: 0 <= i < |bodies| ==> BothAvoid(bodies[i], UpTo(m, i))
    ensures !SubmittedBehind(m, bodies, op, d, j)
  {
    hide SlotsOk, WatchOk, StatusOk, DeliverBoth, CancelFrom;
    if SubmittedBehind(m, bodies, op, d, j) {
      var at, n := SweptTo(m, bodies, d), SweptTo(m, bodies, d + 1);
      if d < |bodies| {
        BothAvoided(at, d, bodies[d], UpTo(m, d));
      } else {
        assert CallsLogged(at, EndSilently(at, d), UpTo(m, d));
      }
      SweptKeepsInv(m, bodies, d + 1);
    }
  }

  /** But an operation its handlers submit to a descriptor already swept stays in flight, and is
      not ended by this stop. */
  lemma {:induction false} ResubmissionSurvivesStop() returns (m: Model, bodies: seq<Bodies>)
    ensures Inv(m, {}, {}) && InSlot(m, 0)
    ensures InSlot(RunCall(m, Stop(bodies)), 1) && !EndedSince(RunCall(m, Stop(bodies)), 0, 1)
  {
    var watch := map[0 := Interest(true, false)];
    m := Model([0, 0], [Read, Read], [Submitted, Idle], map[Slot(0, false) := 0], 1, watch, [Accepted(0)]);
    OneInFlight(m);
    bodies := [Bodies([Submit(Some(1), true)], [])];
    var n := m.(status := [Idle, Submitted], slots := map[Slot(0, false) := 1],
                log := [Accepted(0), Finished(0, true, -ECANCELED), Accepted(1)]);
    ResubmitDuringStop(m, n, bodies[0]);
    assert CancelFrom(n, bodies, 1) == n;
  }

  lemma {:induction false} OneInFlight(m: Model)
    requires m == Model([0, 0], [Read, Read], [Submitted, Idle], map[Slot(0, false) := 0], 1,
                        map[0 := Interest(true, false)], [Accepted(0)])
    ensures Inv(m, {}, {})
  {
    var m0 := Fresh([0, 0], [Read, Read], 1);
    FreshHolds([0, 0], [Read, Read], 1);
    SubmitKeepsInv(m0, 0, {}, {}, true);
    var n := DoSubmit(m0, 0);
    assert n.slots == m.slots && n.interest == m.interest;
    assert n.log == m.log && n.status == m.status;
  }

  lemma {:induction false} ResubmitDuringStop(m: Model, n: Model, bodies: Bodies)
    requires m == Model([0, 0], [Read, Read], [Submitted, Idle], map[Slot(0, false) := 0], 1,
                        map[0 := Interest(true, false)], [Accepted(0)])
    requires n == m.(status := [Idle, Submitted], slots := map[Slot(0, false) := 1],
                     log := [Accepted(0), Finished(0, true, -ECANCELED), Accepted(1)])
    requires bodies == Bodies([Submit(Some(1), true)], [])
    ensures DeliverBoth(m, 0, -ECANCELED, true, bodies) == n
  {
    var told := m.(slots := map[], interest := map[], log := [Accepted(0), Finished(0, true, -ECANCELED)]);
    assert VacateBoth(m, 0) == told.(log := m.log);
    assert told.(log := m.log).log + [Finished(0, true, -ECANCELED)] == told.log;
    var again := n.(status := [Submitted, Submitted]);
    assert DoSubmit(told, 1) == again;
    assert RunCalls(told, bodies.reader[..0]) == told;
    assert RunCalls(told, bodies.reader) == again;
  }
}

module EpollModel {
  import opened OperationLog
  import opened EpollSpec
  import opened Wrappers

  class IoOperation {
    const id: nat      // stands for the address of the operation
    const fd: int
    const code: Opcode
    var state: Status

    constructor (id: nat, fd: int, code: Opcode)
      ensures this.id == id && this.fd == fd && this.code == code && state == Idle
    {
      this.id, this.fd, this.code := id, fd, code;
      state := Idle;
    }
  }

  class Proactor {
    const world: seq<IoOperation>      // every operation there is
    var readOps: seq<IoOperation?>
    var writeOps: seq<IoOperation?>
    var interest: map<int, Interest>   // of the reactor
    ghost var log: seq<Entry>

    ghost predicate Valid()
      reads this
    {
      && |readOps| == |writeOps|
      && (forall i :: 0 <= i < |world| ==> world[i].id == i)
      && (forall i :: 0 <= i < |readOps| ==> InWorld(readOps[i]) && InWorld(writeOps[i]))
    }

    ghost predicate InWorld(op: IoOperation?) { op != null ==> op.id < |world| && world[op.id] == op }

    ghost function At(s: Slot): IoOperation?
      reads this
    {
      var ops := if s.write then writeOps else readOps;
      if 0 <= s.fd < |ops| then ops[s.fd] else null
    }

    ghost function Table(): (r: map<Slot, nat>)
      reads this
      requires |readOps| == |writeOps|
      ensures forall s :: s in r <==> At(s) != null
      ensures forall s :: s in r ==> r[s] == At(s).id
    {
      map s | s in AllSlots(|readOps|) && At(s) != null :: At(s).id
    }

    ghost function Abs(): Model
      reads this, world
      requires |readOps| == |writeOps|
    {
      Model(Fds(), Codes(), Statuses(), Table(), |readOps|, interest, log)
    }

    ghost function Fds(): seq<int> { seq(|world|, i requires 0 <= i < |world| => world[i].fd) }

    ghost function Codes(): seq<Opcode> { seq(|world|, i requires 0 <= i < |world| => world[i].code) }

    ghost function Statuses(): seq<Status>
      reads world
    {
      seq(|world|, i requires 0 <= i < |world| reads world => world[i].state)
    }

    ghost function Name(op: IoOperation?): Option<nat> { if op == null then None else Some(op.id) }

    constructor (world: seq<IoOperation>)
      requires forall i :: 0 <= i < |world| ==> world[i].id == i && world[i].state == Idle
      ensures Valid() && this.world == world
      ensures Abs() == Fresh(Abs().fds, Abs().codes, 256)
    {
      this.world := world;
      readOps, writeOps := seq(256, _ => null), seq(256, _ => null);
      interest, log := map[], [];
    }

    /** The reactor's `addHandler` and `delHandler` on its own thread. */
    method AddHandler(fd: int, wantRead: bool, wantWrite: bool)
      requires Valid()
      modifies this`interest
      ensures Valid() && Abs() == old(Abs()).(interest := old(interest)[fd := Interest(wantRead, wantWrite)])
    {
      ghost var before := Abs();
      interest := interest[fd := Interest(wantRead, wantWrite)];
      assert Table() == before.slots;
    }

    method DelHandler(fd: int)
      requires Valid()
      modifies this`interest
      ensures Valid() && Abs() == old(Abs()).(interest := old(interest) - {fd})
    {
      ghost var before := Abs();
      interest := interest - {fd};
      assert Table() == before.slots;
    }

    method Resize(n: nat)
      requires Valid() && n >= |readOps|
      modifies this`readOps, this`writeOps
      ensures Valid() && |readOps| == n && Abs() == old(Abs()).(size := n)
    {
      ghost var before := Abs();
      readOps := readOps + seq(n - |readOps|, _ => null);
      writeOps := writeOps + seq(n - |writeOps|, _ => null);
      assert Table() == before.slots;
    }

    /** Put an operation, or nothing, into a slot. */
    method SetSlot(fd: int, write: bool, op: IoOperation?)
      requires Valid() && 0 <= fd < |readOps| && InWorld(op)
      modifies this`readOps, this`writeOps
      ensures Valid() && At(Slot(fd, write)) == op
      ensures forall s :: s != Slot(fd, write) ==> At(s) == old(At(s))
      ensures Abs() == old(Abs()).(slots :=
        if op == null then old(Abs()).slots - {Slot(fd, write)} else old(Abs()).slots[Slot(fd, write) := op.id])
    {
      ghost var before := Abs();
      if write {
        writeOps := writeOps[fd := op];
      } else {
        readOps := readOps[fd := op];
      }
      forall s ensures At(s) == if s == Slot(fd, write) then op else old(At(s)) {}
      ghost var after := if op == null then before.slots - {Slot(fd, write)} else before.slots[Slot(fd, write) := op.id];
      forall s ensures s in Table() <==> s in after {}
      assert Table() == after;
    }

    method SetState(op: IoOperation, state: Status)
      requires Valid() && InWorld(op)
      modifies op
      ensures Valid() && op.state == state && Abs() == old(Abs()).(status := old(Abs()).status[op.id := state])
    {
      ghost var before := Abs();
      op.state := state;
      assert Table() == before.slots;
      assert Statuses() == before.status[op.id := state];
    }

    method Record(ghost e: Entry)
      requires Valid()
      modifies this`log
      ensures Valid() && Abs() == old(Abs()).(log := old(log) + [e])
    {
      ghost var before := Abs();
      log := log + [e];
      assert Table() == before.slots;
    }

    lemma AbsOf(op: IoOperation)
      requires Valid() && InWorld(op)
      ensures op.id < |Abs().status| && op.id < |Abs().fds| && op.id < |Abs().codes|
      ensures Abs().status[op.id] == op.state
      ensures SlotOf(Abs(), op.id) == Slot(op.fd, IsWriteOp(op.code))
      ensures Abs().fds[op.id] == op.fd && Abs().codes[op.id] == op.code
    {}

    method SubmitOperation(op: IoOperation?, connected: bool) returns (err: int)
      requires Valid() && InWorld(op)
      modifies this, world
      ensures Valid()
      ensures Abs() == RunCall(old(Abs()), Submit(Name(op), connected))
      ensures err == if AcceptsSubmit(old(Abs()), Name(op), connected) then 0 else -1
    {
      if op == null { return -1; }
      AbsOf(op);
      if op.fd < 0 { return -1; }
      if op.state != Idle { return -1; }
      if op.code.Connect? && !connected { return -1; }
      var isWrite := IsWriteOp(op.code);
      ghost var before := Abs();
      ghost var occupied := At(Slot(op.fd, isWrite)) != null;
      if op.fd >= |readOps| {
        Resize(op.fd + 1);
      }
      assert occupied <==> Slot(op.fd, isWrite) in before.slots;
      if (isWrite && writeOps[op.fd] != null) || (!isWrite && readOps[op.fd] != null) {
        assert occupied && Abs() == before;
        return -1;
      }
      assert !occupied;
      Place(op);
      assert Abs() == DoSubmit(before, op.id);
      return 0;
    }

    /** The accepting part of a submission. */
    method Place(op: IoOperation)
      requires Valid() && InWorld(op) && 0 <= op.fd < |readOps|
      modifies this, world
      ensures Valid() && Abs() == DoSubmit(old(Abs()), op.id)
    {
      ghost var before := Abs();
      AbsOf(op);
      SetSlot(op.fd, IsWriteOp(op.code), op);
      SetState(op, Submitted);
      Record(Accepted(op.id));
      ghost var filled := Abs();
      assert Slot(op.fd, false) in filled.slots <==> readOps[op.fd] != null;
      assert Slot(op.fd, true) in filled.slots <==> writeOps[op.fd] != null;
      AddHandler(op.fd, readOps[op.fd] != null, writeOps[op.fd] != null);
    }

    /** Drop the descriptor from the reactor, or narrow its interest to the occupied slots. */
    method Watch(fd: int)
      requires Valid() && 0 <= fd < |readOps|
      modifies this`interest
      ensures Valid() && Abs() == Refresh(old(Abs()), fd)
    {
      assert Slot(fd, false) in Abs().slots <==> readOps[fd] != null;
      assert Slot(fd, true) in Abs().slots <==> writeOps[fd] != null;
      if readOps[fd] == null && writeOps[fd] == null {
        DelHandler(fd);
      } else {
        AddHandler(fd, readOps[fd] != null, writeOps[fd] != null);
      }
    }

    method CancelOperation(op: IoOperation?, body: seq<Call>) returns (err: int)
      requires Valid() && InWorld(op)
      modifies this, world
      ensures Valid()
      ensures Abs() == RunCall(old(Abs()), Cancel(Name(op), body))
      ensures err == if AcceptsCancel(old(Abs()), Name(op)) then 0 else -1
      decreases body, 2
    {
      if op == null { return -1; }
      AbsOf(op);
      if op.fd < 0 { return -1; }
      if op.state != Submitted { return -1; }
      if op.fd >= |readOps| { return -1; }
      ghost var before := Abs();
      var isWrite := IsWriteOp(op.code);
      assert Slot(op.fd, isWrite) in before.slots <==> At(Slot(op.fd, isWrite)) != null;
      SetState(op, Cancelling);
      if (isWrite && writeOps[op.fd] != op) || (!isWrite && readOps[op.fd] != op) {
        SetState(op, Submitted);
        assert Abs().status == before.status;
        assert At(Slot(op.fd, isWrite)) == null || At(Slot(op.fd, isWrite)).id != op.id;
        return -1;
      }
      assert At(Slot(op.fd, isWrite)) == op && AcceptsCancel(before, Some(op.id));
      SetSlot(op.fd, isWrite, null);
      Watch(op.fd);
      assert Abs() == Vacate(before.(status := before.status[op.id := Cancelling]), op.id);
      DispatchOperation(op, -ECANCELED, true, body);
      return 0;
    }

    /** Call the handler, which makes the calls `body`; then the operation is idle. */
    method DispatchOperation(op: IoOperation?, result: int, cancelled: bool, body: seq<Call>)
      requires Valid() && InWorld(op)
      modifies this, world
      ensures Valid()
      ensures Abs() == Deliver(old(Abs()), Name(op), result, cancelled, body)
      decreases body, 1
    {
      if op == null { return; }
      Record(Finished(op.id, cancelled, result));
      PerformAll(body);
      AbsOf(op);
      SetState(op, Idle);
    }

    function Find(op: Option<nat>): IoOperation? {
      if op.Some? && op.value < |world| then world[op.value] else null
    }

    /** The calls a handler makes, in order. */
    method PerformAll(calls: seq<Call>)
      requires Valid()
      modifies this, world
      ensures Valid()
      ensures Abs() == RunCalls(old(Abs()), calls)
      decreases calls, 0
    {
      var i := 0;
      while i < |calls|
        invariant 0 <= i <= |calls|
        invariant Valid()
        invariant Abs() == RunCalls(old(Abs()), calls[..i])
      {
        assert calls[..i + 1][..i] == calls[..i];
        Perform(calls[i]);
        i := i + 1;
      }
      assert calls[..i] == calls;
    }

    method Perform(c: Call)
      requires Valid()
      modifies this, world
      ensures Valid()
      ensures Abs() == RunCall(old(Abs()), c)
      decreases c, 0
    {
      match c
      case Submit(op, connected) => var _ := SubmitOperation(Find(op), connected);
      case Cancel(op, body) => var _ := CancelOperation(Find(op), body);
      case Stop(bodies) => CancelAllOperations(bodies);
    }

    /** Empty both slots of a descriptor, telling the reactor if one was occupied. */
    method TakeBoth(fd: int) returns (rOp: IoOperation?, wOp: IoOperation?)
      requires Valid() && 0 <= fd < |readOps|
      modifies this
      ensures Valid() && InWorld(rOp) && InWorld(wOp)
      ensures Name(rOp) == Occupant(old(Abs()), Slot(fd, false))
      ensures Name(wOp) == Occupant(old(Abs()), Slot(fd, true))
      ensures Abs() == VacateBoth(old(Abs()), fd)
    {
      ghost var before := Abs();
      rOp := readOps[fd];
      assert At(Slot(fd, false)) == rOp;
      SetSlot(fd, false, null);
      wOp := writeOps[fd];
      assert At(Slot(fd, true)) == wOp == old(At(Slot(fd, true)));
      SetSlot(fd, true, null);
      assert Abs().slots == before.slots - {Slot(fd, false), Slot(fd, true)};
      if rOp != null || wOp != null {
        DelHandler(fd);
      }
    }

    method EndBoth(fd: int, result: int, cancelled: bool, bodies: Bodies)
      requires Valid() && 0 <= fd < |readOps|
      modifies this, world
      ensures Valid()
      ensures Abs() == DeliverBoth(old(Abs()), fd, result, cancelled, bodies)
      decreases bodies, 2
    {
      var rOp, wOp := TakeBoth(fd);
      DispatchOperation(rOp, result, cancelled, bodies.reader);
      DispatchOperation(wOp, result, cancelled, bodies.writer);
    }

    /** End both occupants when their handlers make no calls. */
    method EndBothQuietly(fd: int)
      requires Valid() && 0 <= fd < |readOps|
      modifies this, world
      ensures Valid()
      ensures Abs() == EndSilently(old(Abs()), fd)
    {
      var rOp, wOp := TakeBoth(fd);
      FinishQuietly(rOp);
      FinishQuietly(wOp);
    }

    method FinishQuietly(op: IoOperation?)
      requires Valid() && InWorld(op)
      modifies this, world
      ensures Valid() && Abs() == EndQuietly(old(Abs()), Name(op))
    {
      if op == null { return; }
      Record(Finished(op.id, true, -ECANCELED));
      AbsOf(op);
      SetState(op, Idle);
    }

    /** Sweep every descriptor; the vectors may grow while handlers run. */
    method CancelAllOperations(bodies: seq<Bodies>)
      requires Valid()
      modifies this, world
      ensures Valid()
      ensures Abs() == CancelFrom(old(Abs()), bodies, 0)
      decreases bodies, 3
    {
      var fd := 0;
      while fd < |readOps|
        invariant 0 <= fd
        invariant Valid()
        invariant CancelFrom(Abs(), bodies, fd) == CancelFrom(old(Abs()), bodies, 0)
        decreases if fd < |bodies| then |bodies| - fd else 0, |readOps| - fd
      {
        SweepStep(Abs(), bodies, fd);
        if fd < |bodies| {
          EndBoth(fd, -ECANCELED, true, bodies[fd]);
        } else {
          EndBothQuietly(fd);
        }
        fd := fd + 1;
      }
    }

    method EndOperation(op: IoOperation?, result: int, body: seq<Call>)
      requires Valid() && InWorld(op) && (op != null ==> 0 <= op.fd < |readOps|)
      modifies this, world
      ensures Valid()
      ensures Abs() == if op == null then old(Abs()) else Deliver(Vacate(old(Abs()), op.id), Some(op.id), result, false, body)
    {
      if op == null { return; }
      AbsOf(op);
      SetSlot(op.fd, IsWriteOp(op.code), null);
      Watch(op.fd);
      DispatchOperation(op, result, false, body);
    }

    /** Readiness: the operation in the slot is performed, with the given result, and ended. */
    method OnReady(fd: int, write: bool, result: int, body: seq<Call>)
      requires Valid() && Inv(Abs(), {}, {}) && 0 <= fd < |readOps|
      modifies this, world
      ensures Valid()
      ensures Abs() == Ready(old(Abs()), Slot(fd, write), result, body)
    {
      var op := if write then writeOps[fd] else readOps[fd];
      assert At(Slot(fd, write)) == op;
      if op != null {
        assert SlotOk(Abs(), Slot(fd, write));
        AbsOf(op);
      }
      EndOperation(op, result, body);
    }

    method TakeTurn(t: Turn)
      requires Valid() && Inv(Abs(), {}, {}) && (!t.Command? ==> 0 <= t.fd < |readOps|)
      modifies this, world
      ensures Valid()
      ensures Abs() == Take(old(Abs()), t)
    {
      match t
      case Readable(fd, result, body) => OnReady(fd, false, result, body);
      case Writeable(fd, result, body) => OnReady(fd, true, result, body);
      case Closed(fd, bodies) => EndBoth(fd, 0, false, bodies);
      case Failed(fd, bodies) => EndBoth(fd, -ECONNRESET, false, bodies);
      case Command(call) => Perform(call);
    }

    /** The event loop over any supply of turns.  An event concerns a descriptor the vectors have
        grown to hold by the time it is dispatched. */
    method EventLoop(turns: seq<Turn>)
      requires Valid() && Inv(Abs(), {}, {})
      requires forall i :: 0 <= i < |turns| && !turns[i].Command? ==> 0 <= turns[i].fd < After(Abs(), turns[..i]).size
      modifies this, world
      ensures Valid() && Inv(Abs(), {}, {})
      ensures Abs() == After(old(Abs()), turns)
    {
      var i := 0;
      while i < |turns|
        invariant 0 <= i <= |turns|
        invariant Valid() && Inv(Abs(), {}, {})
        invariant Abs() == After(old(Abs()), turns[..i])
      {
        assert turns[..i + 1][..i] == turns[..i];
        TurnKeepsInv(Abs(), turns[i]);
        TakeTurn(turns[i]);
        i := i + 1;
      }
      assert turns[..i] == turns;
    }
  }

  ghost function AllSlots(n: nat): (r: set<Slot>)
    ensures forall s :: s in r <==> 0 <= s.fd < n
  {
    if n == 0 then {} else AllSlots(n - 1) + {Slot(n - 1, false), Slot(n - 1, true)}
  }
}
