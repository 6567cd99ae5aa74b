/**
 The lock-free chunk pool of core/include/join/allocator.hpp: a free list threaded through the
 chunks, whose head is a (index, generation) pair changed by compare-and-exchange.

 Any number of threads, possibly in different processes, run the constructor, `pop` and `push`
 over one segment.  Every atomic access is one step of a state machine, so a run is an arbitrary
 interleaving.  The word that holds a chunk's link also holds user data while the chunk is in
 use: `UserWrite` puts any value there.
 */
module FreeList {

  const NULL_IDX: nat := 0xFFFF_FFFF
  const GENERATIONS: nat := 0x1_0000_0000
  const UNINITIALISED: nat := 0
  const BUSY: nat := 0xFFFF_FFFF_FFFF_FFFF
  const MAGIC: nat := 0x9F7E_3B2A_8D5C_4E1B

  type Index = nat
  type Tid = nat

  /** The tagged head: both halves are compared and exchanged at once. */
  datatype Head = Head(idx: nat, gen: nat)

  /** Where a thread is in the constructor, `pop` or `push`.  `stamp` is a history variable: the
      number of head changes made before this thread's last look at the head. */
  datatype Local =
    | Unborn
    | Building(written: nat)
    | Waiting
    | Idle
    | PopLoaded(cur: Head, stamp: nat)
    | PopRead(cur: Head, next: nat, stamp: nat)
    | PushLoaded(chunk: Index, cur: Head, stamp: nat)
    | PushLinked(chunk: Index, cur: Head, stamp: nat)

  /** `owner` says which caller holds a chunk; `epoch` counts head changes (history). */
  datatype State = State(
    magic: nat, head: Head, links: seq<nat>,
    owner: map<Index, Tid>, locals: seq<Local>, epoch: nat)

  datatype Action =
    | CtorExchange(t: Tid)
    | CtorWrite(t: Tid)
    | CtorSpin(t: Tid)
    | PopLoad(t: Tid)
    | PopTest(t: Tid)
    | PopExchange(t: Tid, spurious: bool)
    | PushLoad(t: Tid, chunk: Index)
    | PushLink(t: Tid)
    | PushExchange(t: Tid, spurious: bool)
    | UserWrite(chunk: Index, value: nat)
    | Handover(chunk: Index, to: Tid)

  /** What a step means to the abstract list. */
  datatype Event = Silent | SawEmpty(t: Tid) | Popped(t: Tid, chunk: Index) | Pushed(t: Tid, chunk: Index)

  predicate InPush(l: Local, c: Index) {
    (l.PushLoaded? || l.PushLinked?) && l.chunk == c
  }

  /** A caller may use a chunk it holds, except while it is giving it back. */
  predicate Usable(s: State, c: Index) {
    c in s.owner && s.owner[c] < |s.locals| && !InPush(s.locals[s.owner[c]], c)
  }

  predicate Enabled(s: State, a: Action) {
    match a
    case CtorExchange(t) => t < |s.locals| && s.locals[t].Unborn?
    case CtorWrite(t) => t < |s.locals| && s.locals[t].Building?
    case CtorSpin(t) => t < |s.locals| && s.locals[t].Waiting?
    case PopLoad(t) => t < |s.locals| && s.locals[t].Idle?
    case PopTest(t) => t < |s.locals| && s.locals[t].PopLoaded? && (s.locals[t].cur.idx == NULL_IDX || s.locals[t].cur.idx < |s.links|)
    case PopExchange(t, _) => t < |s.locals| && s.locals[t].PopRead?
    case PushLoad(t, c) => t < |s.locals| && s.locals[t].Idle? && c in s.owner && s.owner[c] == t
    case PushLink(t) => t < |s.locals| && s.locals[t].PushLoaded? && s.locals[t].chunk < |s.links|
    case PushExchange(t, _) => t < |s.locals| && s.locals[t].PushLinked?
    case UserWrite(c, _) => c < |s.links| && Usable(s, c)
    case Handover(c, to) => Usable(s, c) && to < |s.locals|
  }

  /** The hypothesis the 32-bit generation relies on: a `pop` does not exchange the head after a
      multiple of 2^32 head changes, other than none, that brought its chunk back to the head.
      Fewer than 2^32 head changes since its look are enough (`BoundIsTimely`); `push` needs none. */
  predicate Timely(s: State, a: Action) {
    match a
    case PopExchange(t, _) =>
      t < |s.locals| && s.locals[t].PopRead? ==>
        var l := s.locals[t];
        s.epoch == l.stamp || (s.epoch - l.stamp) % GENERATIONS != 0 || s.head.idx != l.cur.idx
    case _ => true
  }

  function NextGen(g: nat): nat { (g + 1) % GENERATIONS }

  predicate Exchanges(s: State, cur: Head, spurious: bool) { s.head == cur && !spurious }

  /** The link the constructor writes into chunk `i` of `count`. */
  function InitialLink(i: nat, count: nat): nat { if i + 1 < count then i + 1 else NULL_IDX }

  function Apply(s: State, a: Action): State
    requires Enabled(s, a)
  {
    match a
    case CtorExchange(t) =>
      if s.magic == UNINITIALISED then s.(magic := BUSY, locals := s.locals[t := Building(0)])
      else s.(locals := s.locals[t := Waiting])
    case CtorWrite(t) =>
      var i := s.locals[t].written;
      if i < |s.links| then
        s.(links := s.links[i := InitialLink(i, |s.links|)], locals := s.locals[t := Building(i + 1)])
      else if i == |s.links| then
        s.(head := Head(0, 0), locals := s.locals[t := Building(i + 1)])
      else
        s.(magic := MAGIC, locals := s.locals[t := Idle])
    case CtorSpin(t) =>
      if s.magic == MAGIC then s.(locals := s.locals[t := Idle]) else s
    case PopLoad(t) => s.(locals := s.locals[t := PopLoaded(s.head, s.epoch)])
    case PopTest(t) =>
      var l := s.locals[t];
      if l.cur.idx == NULL_IDX then s.(locals := s.locals[t := Idle])
      else s.(locals := s.locals[t := PopRead(l.cur, s.links[l.cur.idx], l.stamp)])
    case PopExchange(t, spurious) =>
      var l := s.locals[t];
      if Exchanges(s, l.cur, spurious) then
        s.(head := Head(l.next, NextGen(l.cur.gen)), owner := s.owner[l.cur.idx := t],
           locals := s.locals[t := Idle], epoch := s.epoch + 1)
      else s.(locals := s.locals[t := PopLoaded(s.head, s.epoch)])
    case PushLoad(t, c) => s.(locals := s.locals[t := PushLoaded(c, s.head, s.epoch)])
    case PushLink(t) =>
      var l := s.locals[t];
      s.(links := s.links[l.chunk := l.cur.idx], locals := s.locals[t := PushLinked(l.chunk, l.cur, l.stamp)])
    case PushExchange(t, spurious) =>
      var l := s.locals[t];
      if Exchanges(s, l.cur, spurious) then
        s.(head := Head(l.chunk, NextGen(l.cur.gen)), owner := s.owner - {l.chunk},
           locals := s.locals[t := Idle], epoch := s.epoch + 1)
      else s.(locals := s.locals[t := PushLoaded(l.chunk, s.head, s.epoch)])
    case UserWrite(c, v) => s.(links := s.links[c := v])
    case Handover(c, to) => s.(owner := s.owner[c := to])
  }

  /** The abstract reading of a step: a successful exchange is the pop or push, a look at a null
      head is the moment the list was seen empty, everything else is invisible. */
  function EventOf(s: State, a: Action): Event
    requires Enabled(s, a)
  {
    match a
    case PopLoad(t) => if s.head.idx == NULL_IDX then SawEmpty(t) else Silent
    case PopExchange(t, spurious) =>
      if Exchanges(s, s.locals[t].cur, spurious) then Popped(t, s.locals[t].cur.idx)
      else if s.head.idx == NULL_IDX then SawEmpty(t) else Silent
    case PushExchange(t, spurious) =>
      if Exchanges(s, s.locals[t].cur, spurious) then Pushed(t, s.locals[t].chunk) else Silent
    case _ => Silent
  }

  // ----- the abstract specification: a stack of free chunks

  predicate Legal(list: seq<Index>, e: Event) {
    match e
    case Silent => true
    case SawEmpty(_) => list == []
    case Popped(_, c) => list != [] && list[0] == c
    case Pushed(_, c) => c !in list
  }

  function Effect(list: seq<Index>, e: Event): seq<Index>
    requires Legal(list, e)
  {
    match e
    case Popped(_, _) => list[1..]
    case Pushed(_, c) => [c] + list
    case _ => list
  }

  function Iota(count: nat): seq<Index> { seq(count, i => i) }

  // ----- the invariant

  predicate Distinct(list: seq<Index>) {
    forall i, j :: 0 <= i < j < |list| ==> list[i] != list[j]
  }

  predicate LinkAt(links: seq<nat>, list: seq<Index>, k: nat)
    requires k < |list|
  {
    list[k] < |links| && links[list[k]] == if k + 1 < |list| then list[k + 1] else NULL_IDX
  }

  /** Following the links from `from` visits exactly `list` and ends at the null index. */
  predicate Chain(links: seq<nat>, from: nat, list: seq<Index>) {
    && (if list == [] then from == NULL_IDX else from == list[0] && from < |links|)
    && (forall k :: 0 <= k < |list| ==> LinkAt(links, list, k))
  }

  /** The free list and the held chunks partition the segment. */
  predicate Partition(s: State, list: seq<Index>) {
    && Distinct(list)
    && (forall c :: c in s.owner ==> c < |s.links| && s.owner[c] < |s.locals|)
    && (forall c :: 0 <= c < |s.links| ==> (c in list <==> c !in s.owner))
  }

  predicate ViewOk(s: State, cur: Head, stamp: nat) {
    && (cur.idx == NULL_IDX || cur.idx < |s.links|)
    && cur.gen == stamp % GENERATIONS
    && stamp <= s.epoch
    && (stamp == s.epoch ==> cur == s.head)
  }

  predicate LocalOk(s: State, t: Tid)
    requires t < |s.locals|
  {
    match s.locals[t]
    case Building(_) => false
    case PopLoaded(cur, stamp) => ViewOk(s, cur, stamp)
    case PopRead(cur, next, stamp) =>
      ViewOk(s, cur, stamp) && cur.idx < |s.links| && (stamp == s.epoch ==> next == s.links[cur.idx])
    case PushLoaded(c, cur, stamp) => ViewOk(s, cur, stamp) && c in s.owner && s.owner[c] == t
    case PushLinked(c, cur, stamp) =>
      ViewOk(s, cur, stamp) && c in s.owner && s.owner[c] == t && c < |s.links| && s.links[c] == cur.idx
    case _ => true
  }

  predicate InConstructor(l: Local) { l.Unborn? || l.Building? || l.Waiting? }

  /** Thread `b`, and no other, is filling in the links. */
  predicate Builder(s: State, b: Tid) {
    && b < |s.locals| && s.locals[b].Building?
    && (forall t :: 0 <= t < |s.locals| && s.locals[t].Building? ==> t == b)
    && s.locals[b].written <= |s.links| + 1
    && (forall k :: 0 <= k < s.locals[b].written && k < |s.links| ==> s.links[k] == InitialLink(k, |s.links|))
    && (s.locals[b].written == |s.links| + 1 ==> s.head == Head(0, 0))
  }

  /** Before the pool is published nobody is past the constructor, and once one constructor has
      claimed the segment there is exactly one builder. */
  predicate Starting(s: State) {
    && s.epoch == 0 && s.owner == map[]
    && (forall t :: 0 <= t < |s.locals| ==> InConstructor(s.locals[t]))
    && (s.magic == UNINITIALISED ==> forall t :: 0 <= t < |s.locals| ==> s.locals[t].Unborn?)
    && (s.magic == BUSY ==> exists b :: 0 <= b < |s.locals| && Builder(s, b))
  }

  /** Afterwards the list is the chain of links from the head. */
  predicate Ready(s: State, list: seq<Index>) {
    && Chain(s.links, s.head.idx, list)
    && s.head.gen == s.epoch % GENERATIONS
    && forall t :: 0 <= t < |s.locals| ==> LocalOk(s, t)
  }

  predicate Inv(s: State, list: seq<Index>) {
    && 0 < |s.links| <= NULL_IDX
    && Partition(s, list)
    && if s.magic == MAGIC then Ready(s, list)
       else (s.magic == UNINITIALISED || s.magic == BUSY) && Starting(s) && list == Iota(|s.links|)
  }

  /** A fresh segment: zeroed memory and `threads` callers about to construct their pool. */
  function Initial(count: nat, threads: nat): State {
    State(UNINITIALISED, Head(0, 0), seq(count, _ => 0), map[], seq(threads, _ => Unborn), 0)
  }

  // ----- preservation, one lemma per kind of step

  lemma SameModulo(a: nat, b: nat)
    requires a <= b
    ensures a % GENERATIONS == b % GENERATIONS <==> (b - a) % GENERATIONS == 0
  {}

  lemma BoundIsTimely(s: State, a: Action)
    requires a.PopExchange? && a.t < |s.locals| && s.locals[a.t].PopRead?
    requires s.locals[a.t].stamp <= s.epoch < s.locals[a.t].stamp + GENERATIONS
    ensures Timely(s, a)
  {}

  /** When the exchange of a thread whose look at the head is out of date succeeds: exactly when the
      same chunk is at the head again after a multiple of 2^32 head changes. */
  lemma {:induction false} StaleExchangeExactly(s: State, list: seq<Index>, t: Tid)
    requires Inv(s, list) && t < |s.locals|
    requires s.locals[t].PopRead? || s.locals[t].PushLinked?
    requires s.locals[t].stamp < s.epoch
    ensures Exchanges(s, s.locals[t].cur, false)
            <==> s.head.idx == s.locals[t].cur.idx && (s.epoch - s.locals[t].stamp) % GENERATIONS == 0
  {
    assert s.magic == MAGIC;
    assert LocalOk(s, t);
    SameModulo(s.locals[t].stamp, s.epoch);
  }

  /** So within the bound it fails: the generation moved on. */
  lemma {:induction false} StaleExchangeFails(s: State, list: seq<Index>, t: Tid, spurious: bool)
    requires Inv(s, list) && t < |s.locals| && s.locals[t].PopRead? && Timely(s, PopExchange(t, spurious))
    ensures Exchanges(s, s.locals[t].cur, spurious) ==> s.locals[t].stamp == s.epoch
  {
    assert s.magic == MAGIC;
    assert LocalOk(s, t);
    if s.locals[t].stamp < s.epoch { StaleExchangeExactly(s, list, t); }
  }

  lemma NextGenIsEpoch(epoch: nat)
    ensures NextGen(epoch % GENERATIONS) == (epoch + 1) % GENERATIONS
  {}

  /** Writing into a held chunk leaves the chain of free chunks as it is. */
  lemma {:induction false} HeldWriteKeepsChain(s: State, list: seq<Index>, c: Index, v: nat)
    requires Inv(s, list) && s.magic == MAGIC && c in s.owner
    ensures Chain(s.links[c := v], s.head.idx, list)
    ensures s.head.idx != c
  {
    var links := s.links[c := v];
    forall k | 0 <= k < |list| ensures LinkAt(links, list, k) {
      assert LinkAt(s.links, list, k) && list[k] in list;
    }
  }

  lemma {:induction false} ConstructorSteps(s: State, list: seq<Index>, a: Action)
    requires Inv(s, list) && Enabled(s, a)
    requires a.CtorExchange? || a.CtorWrite? || a.CtorSpin?
    ensures Inv(Apply(s, a), list)
  {
    var s' := Apply(s, a);
    if s'.magic == BUSY {
      if s.magic == UNINITIALISED {
        assert Builder(s', a.t);
      } else {
        var b :| 0 <= b < |s.locals| && Builder(s, b);
        assert Builder(s', b);
      }
    } else if s.magic == BUSY {
      Published(s, a.t);
    } else if s.magic == MAGIC {
      assert LocalOk(s, a.t);
      forall u | 0 <= u < |s'.locals| ensures LocalOk(s', u) { assert LocalOk(s, u); }
    }
  }

  /** The builder's last step publishes the full list. */
  lemma {:induction false} Published(s: State, t: Tid)
    requires 0 < |s.links| <= NULL_IDX && s.magic == BUSY && Starting(s)
    requires Enabled(s, CtorWrite(t)) && s.locals[t].written > |s.links|
    ensures Ready(Apply(s, CtorWrite(t)), Iota(|s.links|))
  {
    var s', list := Apply(s, CtorWrite(t)), Iota(|s.links|);
    var b :| 0 <= b < |s.locals| && Builder(s, b);
    forall k | 0 <= k < |list| ensures LinkAt(s'.links, list, k) {
      assert s.links[k] == InitialLink(k, |s.links|);
    }
    forall u | 0 <= u < |s'.locals| ensures LocalOk(s', u) {}
  }

  lemma {:induction false} InUse(s: State, list: seq<Index>, t: Tid)
    requires Inv(s, list) && t < |s.locals| && !InConstructor(s.locals[t])
    ensures s.magic == MAGIC && LocalOk(s, t)
  {}

  /** Loads change nothing but the thread's own view. */
  lemma {:induction false} LoadSteps(s: State, list: seq<Index>, a: Action)
    requires Inv(s, list) && Enabled(s, a)
    requires a.PopLoad? || a.PopTest? || a.PushLoad?
    ensures Legal(list, EventOf(s, a))
    ensures Inv(Apply(s, a), list)
  {
    var s' := Apply(s, a);
    InUse(s, list, a.t);
    forall u | 0 <= u < |s'.locals| ensures LocalOk(s', u) { assert LocalOk(s, u); }
  }

  /** Callers write only into chunks they hold, whether their own data or the link of a push. */
  lemma {:induction false} WriteSteps(s: State, list: seq<Index>, a: Action)
    requires Inv(s, list) && Enabled(s, a)
    requires a.PushLink? || a.UserWrite? || a.Handover?
    ensures Inv(Apply(s, a), list)
  {
    var s' := Apply(s, a);
    assert s.magic == MAGIC;
    if a.PushLink? { InUse(s, list, a.t); HeldWriteKeepsChain(s, list, s.locals[a.t].chunk, s.locals[a.t].cur.idx); }
    if a.UserWrite? { HeldWriteKeepsChain(s, list, a.chunk, a.value); }
    forall u | 0 <= u < |s'.locals| ensures LocalOk(s', u) { assert LocalOk(s, u); }
  }

  /** A failed exchange only renews the thread's look at the head. */
  lemma {:induction false} FailedExchange(s: State, list: seq<Index>, a: Action)
    requires Inv(s, list) && Enabled(s, a) && (a.PopExchange? || a.PushExchange?)
    requires !Exchanges(s, s.locals[a.t].cur, a.spurious)
    ensures Legal(list, EventOf(s, a))
    ensures Inv(Apply(s, a), list)
  {
    InUse(s, list, a.t);
    var s' := Apply(s, a);
    forall u | 0 <= u < |s'.locals| ensures LocalOk(s', u) { assert LocalOk(s, u); }
  }

  lemma {:induction false} ChainTail(links: seq<nat>, list: seq<Index>)
    requires list != [] && Chain(links, list[0], list)
    ensures Chain(links, links[list[0]], list[1..])
  {
    assert LinkAt(links, list, 0);
    assert |list| > 1 ==> LinkAt(links, list, 1);
    forall k | 0 <= k < |list[1..]| ensures LinkAt(links, list[1..], k) {
      assert LinkAt(links, list, k + 1);
    }
  }

  lemma {:induction false} ChainCons(links: seq<nat>, c: Index, list: seq<Index>)
    requires c < |links| && Chain(links, links[c], list)
    ensures Chain(links, c, [c] + list)
  {
    forall k | 0 <= k < |[c] + list| ensures LinkAt(links, [c] + list, k) {
      if k > 0 { assert LinkAt(links, list, k - 1); }
    }
  }

  lemma {:induction false} PopStep(s: State, list: seq<Index>, t: Tid)
    requires Inv(s, list) && Enabled(s, PopExchange(t, false)) && Exchanges(s, s.locals[t].cur, false)
    requires s.locals[t].cur.idx < |s.links| && s.locals[t].next == s.links[s.locals[t].cur.idx]
    ensures list != [] && list[0] == s.locals[t].cur.idx
    ensures Inv(Apply(s, PopExchange(t, false)), list[1..])
  {
    var s' := Apply(s, PopExchange(t, false));
    InUse(s, list, t);
    NextGenIsEpoch(s.epoch);
    ChainTail(s.links, list);
    forall c | 0 <= c < |s'.links| ensures c in list[1..] <==> c !in s'.owner {
      assert c in list <==> c == list[0] || c in list[1..];
    }
    forall u | 0 <= u < |s'.locals| ensures LocalOk(s', u) { assert LocalOk(s, u); }
  }

  lemma {:induction false} PushStep(s: State, list: seq<Index>, t: Tid)
    requires Inv(s, list) && Enabled(s, PushExchange(t, false)) && Exchanges(s, s.locals[t].cur, false)
    ensures s.locals[t].chunk !in list
    ensures Inv(Apply(s, PushExchange(t, false)), [s.locals[t].chunk] + list)
  {
    var s', c := Apply(s, PushExchange(t, false)), s.locals[t].chunk;
    InUse(s, list, t);
    NextGenIsEpoch(s.epoch);
    ChainCons(s.links, c, list);
    assert Partition(s', [c] + list);
    forall u | 0 <= u < |s'.locals| ensures LocalOk(s', u) { assert LocalOk(s, u); }
  }

  /** Every step of every thread is a legal step of the stack of free chunks and keeps the
      invariant: the chain from the head is that stack. */
  lemma {:induction false} StepRefines(s: State, list: seq<Index>, a: Action)
    requires Inv(s, list) && Enabled(s, a) && Timely(s, a)
    ensures Legal(list, EventOf(s, a))
    ensures Inv(Apply(s, a), Effect(list, EventOf(s, a)))
  {
    match a
    case PopExchange(t, spurious) =>
      if Exchanges(s, s.locals[t].cur, spurious) {
        StaleExchangeFails(s, list, t, spurious);
        InUse(s, list, t);
        PopStep(s, list, t);
      } else {
        FailedExchange(s, list, a);
      }
    case PushExchange(t, spurious) =>
      if Exchanges(s, s.locals[t].cur, spurious) { PushStep(s, list, t); } else { FailedExchange(s, list, a); }
    case CtorExchange(_) => ConstructorSteps(s, list, a);
    case CtorWrite(_) => ConstructorSteps(s, list, a);
    case CtorSpin(_) => ConstructorSteps(s, list, a);
    case PopLoad(_) => LoadSteps(s, list, a);
    case PopTest(_) => LoadSteps(s, list, a);
    case PushLoad(_, _) => LoadSteps(s, list, a);
    case _ => WriteSteps(s, list, a);
  }

  // ----- whole runs

  /** `acts` can happen one after the other from `s`, each exchange in time. */
  predicate Schedulable(s: State, acts: seq<Action>)
    decreases |acts|
  {
    acts == [] || (Enabled(s, acts[0]) && Timely(s, acts[0]) && Schedulable(Apply(s, acts[0]), acts[1..]))
  }

  function Final(s: State, acts: seq<Action>): State
    requires Schedulable(s, acts)
    decreases |acts|
  {
    if acts == [] then s else Final(Apply(s, acts[0]), acts[1..])
  }

  function History(s: State, acts: seq<Action>): (events: seq<Event>)
    requires Schedulable(s, acts)
    ensures |events| == |acts|
    decreases |acts|
  {
    if acts == [] then [] else [EventOf(s, acts[0])] + History(Apply(s, acts[0]), acts[1..])
  }

  predicate LegalHistory(list: seq<Index>, events: seq<Event>)
    decreases |events|
  {
    events == [] || (Legal(list, events[0]) && LegalHistory(Effect(list, events[0]), events[1..]))
  }

  function Replay(list: seq<Index>, events: seq<Event>): seq<Index>
    requires LegalHistory(list, events)
    decreases |events|
  {
    if events == [] then list else Replay(Effect(list, events[0]), events[1..])
  }

  lemma {:induction false} RunFrom(s: State, list: seq<Index>, acts: seq<Action>)
    requires Inv(s, list) && Schedulable(s, acts)
    ensures LegalHistory(list, History(s, acts))
    ensures Inv(Final(s, acts), Replay(list, History(s, acts)))
    decreases |acts|
  {
    if acts != [] {
      var e, s' := EventOf(s, acts[0]), Apply(s, acts[0]);
      StepRefines(s, list, acts[0]);
      RunFrom(s', Effect(list, e), acts[1..]);
      assert History(s, acts)[1..] == History(s', acts[1..]);
    }
  }

  /** The chunks met by following the links from `from`, giving up after `fuel` of them. */
  function Follow(links: seq<nat>, from: nat, fuel: nat): seq<Index>
    decreases fuel
  {
    if fuel == 0 || from >= |links| then [] else [from] + Follow(links, links[from], fuel - 1)
  }

  lemma {:induction false} FollowIsChain(links: seq<nat>, from: nat, list: seq<Index>, fuel: nat)
    requires |links| <= NULL_IDX && Chain(links, from, list) && |list| <= fuel
    ensures Follow(links, from, fuel) == list
    decreases fuel
  {
    if list != [] {
      var rest := list[1..];
      assert LinkAt(links, list, 0);
      assert |list| > 1 ==> LinkAt(links, list, 1);
      forall k | 0 <= k < |rest| ensures LinkAt(links, rest, k) { assert LinkAt(links, list, k + 1); }
      FollowIsChain(links, links[from], rest, fuel - 1);
    }
  }

  lemma {:induction false} DistinctIsShort(list: seq<Index>, bound: nat)
    requires Distinct(list) && forall k :: 0 <= k < |list| ==> list[k] < bound
    ensures |list| <= bound
    decreases bound
  {
    if list != [] {
      var first := list[0];
      if i :| 0 <= i < |list| && list[i] == bound - 1 {
        DistinctIsShort(list[..i] + list[i + 1..], bound - 1);
      } else {
        DistinctIsShort(list, bound - 1);
      }
    }
  }

  lemma {:induction false} InitialHolds(count: nat, threads: nat)
    requires 0 < count <= NULL_IDX
    ensures Inv(Initial(count, threads), Iota(count))
  {
    forall c | 0 <= c < count ensures c in Iota(count) { assert Iota(count)[c] == c; }
  }

  predicate SameBuilder(s: State, t: Tid, u: Tid) {
    t < |s.locals| && u < |s.locals| && s.locals[t].Building? && s.locals[u].Building? ==> t == u
  }

  /** No thread is about to look at, or write into, a chunk outside the segment. */
  predicate InBounds(s: State, t: Tid) {
    t < |s.locals| ==>
      match s.locals[t]
      case PopLoaded(cur, _) => cur.idx == NULL_IDX || cur.idx < |s.links|
      case PushLoaded(c, _, _) => c < |s.links|
      case _ => true
  }

  /** What the invariant says about a state, without the stack it is stated with. */
  lemma {:induction false} ReadOff(s: State, list: seq<Index>)
    requires Inv(s, list)
    ensures s.magic != MAGIC ==> s.owner == map[] && forall t :: 0 <= t < |s.locals| ==> InConstructor(s.locals[t])
    ensures forall t, u :: SameBuilder(s, t, u)
    ensures forall t :: InBounds(s, t)
    ensures s.magic == MAGIC ==> Follow(s.links, s.head.idx, |s.links|) == list
  {
    if s.magic == MAGIC {
      forall k | 0 <= k < |list| ensures list[k] < |s.links| { assert LinkAt(s.links, list, k); }
      DistinctIsShort(list, |s.links|);
      FollowIsChain(s.links, s.head.idx, list, |s.links|);
      forall t: Tid, u: Tid ensures SameBuilder(s, t, u) { if t < |s.locals| { assert LocalOk(s, t); } }
      forall t: Tid ensures InBounds(s, t) { if t < |s.locals| { assert LocalOk(s, t); } }
    }
  }

  /** Main result.  In every interleaving the successful exchanges are a legal history of one
      stack of chunks that starts full.  One constructor at most is building, and nobody is past
      the constructor before the pool is built; and no thread ever reads or writes a link outside
      the segment.  From then on, following the links from the head
      enumerates that stack: no chunk twice, and exactly the chunks nobody holds. */
  lemma {:induction false} PoolRefinesStack(count: nat, threads: nat, acts: seq<Action>)
    requires 0 < count <= NULL_IDX
    requires Schedulable(Initial(count, threads), acts)
    ensures
      var s := Final(Initial(count, threads), acts);
      var events := History(Initial(count, threads), acts);
      && LegalHistory(Iota(count), events)
      && (s.magic != MAGIC ==> s.owner == map[] && forall t :: 0 <= t < |s.locals| ==> InConstructor(s.locals[t]))
      && (forall t, u :: SameBuilder(s, t, u))
      && (forall t :: InBounds(s, t))
      && (s.magic == MAGIC ==>
        var free := Follow(s.links, s.head.idx, count);
        && free == Replay(Iota(count), events)
        && Distinct(free)
        && forall c :: 0 <= c < count ==> (c in free <==> c !in s.owner))
  {
    var s0 := Initial(count, threads);
    InitialHolds(count, threads);
    RunFrom(s0, Iota(count), acts);
    RunKeepsSize(s0, acts);
    ReadOff(Final(s0, acts), Replay(Iota(count), History(s0, acts)));
  }

  lemma {:induction false} RunKeepsSize(s: State, acts: seq<Action>)
    requires Schedulable(s, acts)
    ensures |Final(s, acts).links| == |s.links|
    decreases |acts|
  {
    if acts != [] { RunKeepsSize(Apply(s, acts[0]), acts[1..]); }
  }

  // ----- what a call comes to

  predicate Moves(a: Action, t: Tid) { !a.UserWrite? && !a.Handover? && a.t == t }

  predicate InPop(s: State, t: Tid) { t < |s.locals| && (s.locals[t].PopLoaded? || s.locals[t].PopRead?) }

  predicate Pushing(s: State, t: Tid, c: Index) { t < |s.locals| && InPush(s.locals[t], c) }

  predicate IsIdle(s: State, t: Tid) { t < |s.locals| && s.locals[t].Idle? }

  /** The last look of the thread found no chunk. */
  predicate LookedAtNull(s: State, t: Tid) {
    t < |s.locals| && s.locals[t].PopLoaded? && s.locals[t].cur.idx == NULL_IDX
  }

  predicate Takes(e: Event, t: Tid) { e.Popped? && e.t == t }

  predicate Gives(e: Event, t: Tid, c: Index) { e == Pushed(t, c) }

  /** The state after `k` steps. */
  function StateAt(s: State, acts: seq<Action>, k: nat): State
    requires Schedulable(s, acts) && k <= |acts|
    decreases |acts|
  {
    if k == 0 then s else StateAt(Apply(s, acts[0]), acts[1..], k - 1)
  }

  /** A thread inside `pop` leaves it by taking a chunk, which it then holds, or by a test after it
      looked at a null head; any other step, a lost exchange among them, leaves it inside. */
  lemma {:induction false} PopLeavesExactly(s: State, a: Action, t: Tid)
    requires Enabled(s, a) && InPop(s, t)
    ensures IsIdle(Apply(s, a), t) <==> Takes(EventOf(s, a), t) || (a == PopTest(t) && LookedAtNull(s, t))
    ensures !IsIdle(Apply(s, a), t) ==> InPop(Apply(s, a), t)
    ensures Takes(EventOf(s, a), t) ==>
              EventOf(s, a).chunk in Apply(s, a).owner && Apply(s, a).owner[EventOf(s, a).chunk] == t
    ensures LookedAtNull(Apply(s, a), t) <==> (if Moves(a, t) then EventOf(s, a) == SawEmpty(t) else LookedAtNull(s, t))
  {}

  /** A thread inside `push` leaves it by giving its chunk back, and in no other way. */
  lemma {:induction false} PushLeavesExactly(s: State, a: Action, t: Tid, c: Index)
    requires Enabled(s, a) && Pushing(s, t, c)
    ensures IsIdle(Apply(s, a), t) <==> Gives(EventOf(s, a), t, c)
    ensures !IsIdle(Apply(s, a), t) ==> Pushing(Apply(s, a), t, c)
    ensures Gives(EventOf(s, a), t, c) ==> c !in Apply(s, a).owner
  {}

  lemma {:induction false} StepAt(s: State, acts: seq<Action>, k: nat)
    requires Schedulable(s, acts) && k < |acts|
    ensures Enabled(StateAt(s, acts, k), acts[k])
    ensures StateAt(s, acts, k + 1) == Apply(StateAt(s, acts, k), acts[k])
    ensures History(s, acts)[k] == EventOf(StateAt(s, acts, k), acts[k])
    decreases |acts|
  {
    var s', rest := Apply(s, acts[0]), acts[1..];
    assert History(s, acts) == [EventOf(s, acts[0])] + History(s', rest);
    if k > 0 { StepAt(s', rest, k - 1); } else { assert StateAt(s, acts, 1) == s'; }
  }

  /** From step `i` up to step `m` thread `t` neither takes nor gives anything. */
  predicate NothingDone(events: seq<Event>, t: Tid, i: nat, m: nat)
    requires m <= |events|
  {
    forall k :: i <= k < m ==> !(events[k].Popped? && events[k].t == t) && !(events[k].Pushed? && events[k].t == t)
  }

  /** The thread's last look before step `m` was at step `k`, and the list was empty then. */
  predicate LastSawEmpty(acts: seq<Action>, events: seq<Event>, t: Tid, k: nat, m: nat)
    requires m <= |acts| == |events|
  {
    k < m && events[k] == SawEmpty(t) && forall i :: k < i < m ==> !Moves(acts[i], t)
  }

  predicate EmptyAtLastLook(acts: seq<Action>, events: seq<Event>, t: Tid, i: nat, m: nat)
    requires m <= |acts| == |events|
  {
    exists k :: i <= k < m && LastSawEmpty(acts, events, t, k, m)
  }

  /** The thread is in the middle of the call it began with step `i`. */
  predicate Within(s: State, acts: seq<Action>, t: Tid, i: nat, m: nat)
    requires Schedulable(s, acts)
  {
    i < m <= |acts| && forall k :: i < k <= m ==> !IsIdle(StateAt(s, acts, k), t)
  }

  lemma {:induction false} MidPop(s: State, acts: seq<Action>, t: Tid, i: nat, m: nat)
    requires Schedulable(s, acts) && Within(s, acts, t, i, m) && acts[i] == PopLoad(t)
    ensures InPop(StateAt(s, acts, m), t) && NothingDone(History(s, acts), t, i, m)
    ensures LookedAtNull(StateAt(s, acts, m), t)
            <==> EmptyAtLastLook(acts, History(s, acts), t, i, m)
    decreases m
  {
    var before, a, events := StateAt(s, acts, m - 1), acts[m - 1], History(s, acts);
    StepAt(s, acts, m - 1);
    if m == i + 1 {
      assert LookedAtNull(StateAt(s, acts, m), t) ==> LastSawEmpty(acts, events, t, i, m);
    } else {
      MidPop(s, acts, t, i, m - 1);
      PopLeavesExactly(before, a, t);
      OneStepLater(acts, events, t, i, m);
    }
  }

  lemma {:induction false} OneStepLater(acts: seq<Action>, events: seq<Event>, t: Tid, i: nat, m: nat)
    requires i + 1 < m <= |acts| == |events|
    ensures EmptyAtLastLook(acts, events, t, i, m)
            <==> events[m - 1] == SawEmpty(t) || (!Moves(acts[m - 1], t) && EmptyAtLastLook(acts, events, t, i, m - 1))
  {
    if events[m - 1] == SawEmpty(t) { assert LastSawEmpty(acts, events, t, m - 1, m); }
    if !Moves(acts[m - 1], t) && EmptyAtLastLook(acts, events, t, i, m - 1) {
      var k :| i <= k < m - 1 && LastSawEmpty(acts, events, t, k, m - 1);
      assert LastSawEmpty(acts, events, t, k, m);
    }
    if EmptyAtLastLook(acts, events, t, i, m) {
      var k :| i <= k < m && LastSawEmpty(acts, events, t, k, m);
      assert k < m - 1 ==> LastSawEmpty(acts, events, t, k, m - 1);
    }
  }

  lemma {:induction false} MidPush(s: State, acts: seq<Action>, t: Tid, i: nat, m: nat)
    requires Schedulable(s, acts) && Within(s, acts, t, i, m) && acts[i].PushLoad? && acts[i].t == t
    ensures Pushing(StateAt(s, acts, m), t, acts[i].chunk) && NothingDone(History(s, acts), t, i, m)
    decreases m
  {
    StepAt(s, acts, m - 1);
    if m > i + 1 {
      MidPush(s, acts, t, i, m - 1);
      PushLeavesExactly(StateAt(s, acts, m - 1), acts[m - 1], t, acts[i].chunk);
    }
  }

  predicate Holds(s: State, c: Index, t: Tid) { c in s.owner && s.owner[c] == t }

  /** A call of thread `t` begins with step `i` and returns with step `j`. */
  predicate CallSpans(s: State, acts: seq<Action>, t: Tid, i: nat, j: nat)
    requires Schedulable(s, acts)
  {
    j < |acts| && Within(s, acts, t, i, j) && IsIdle(StateAt(s, acts, j + 1), t)
  }

  /** Main result for a caller of `pop`, over every interleaving.  When it returns it has either taken
      one chunk, by its last step, and holds it; or it returns null, and then the list was empty at its
      last look.  A lost exchange is no reason to return, and before its return it changes nothing. */
  lemma {:induction false} PopReturnsExactly(s: State, acts: seq<Action>, t: Tid, i: nat, j: nat)
    requires Schedulable(s, acts) && CallSpans(s, acts, t, i, j) && acts[i] == PopLoad(t)
    ensures NothingDone(History(s, acts), t, i, j)
    ensures Takes(History(s, acts)[j], t) || acts[j] == PopTest(t)
    ensures Takes(History(s, acts)[j], t) ==> Holds(StateAt(s, acts, j + 1), History(s, acts)[j].chunk, t)
    ensures acts[j] == PopTest(t) ==> EmptyAtLastLook(acts, History(s, acts), t, i, j)
  {
    MidPop(s, acts, t, i, j);
    StepAt(s, acts, j);
    PopLeavesExactly(StateAt(s, acts, j), acts[j], t);
  }

  /** And of `push`: it returns exactly when it has given its chunk back. */
  lemma {:induction false} PushReturnsExactly(s: State, acts: seq<Action>, t: Tid, i: nat, j: nat)
    requires Schedulable(s, acts) && CallSpans(s, acts, t, i, j) && acts[i].PushLoad? && acts[i].t == t
    ensures NothingDone(History(s, acts), t, i, j)
    ensures Gives(History(s, acts)[j], t, acts[i].chunk) && acts[i].chunk !in StateAt(s, acts, j + 1).owner
  {
    MidPush(s, acts, t, i, j);
    StepAt(s, acts, j);
    PushLeavesExactly(StateAt(s, acts, j), acts[j], t, acts[i].chunk);
  }

  // ----- no exchange is lost for nothing

  predicate HasView(l: Local) { l.PopLoaded? || l.PopRead? || l.PushLoaded? || l.PushLinked? }

  predicate Changes(e: Event) { e.Popped? || e.Pushed? }

  predicate Looks(a: Action, t: Tid) {
    (a.PopLoad? || a.PushLoad? || a.PopExchange? || a.PushExchange?) && a.t == t
  }

  /** Step `k` changed the head, and the thread has not looked at it since. */
  predicate ChangedSinceLook(acts: seq<Action>, events: seq<Event>, t: Tid, k: nat, m: nat)
    requires m <= |acts| == |events|
  {
    k < m && Changes(events[k]) && forall i :: k <= i < m ==> !Looks(acts[i], t)
  }

  predicate Overtaken(acts: seq<Action>, events: seq<Event>, t: Tid, m: nat)
    requires m <= |acts| == |events|
  {
    exists k :: 0 <= k < m && ChangedSinceLook(acts, events, t, k, m)
  }

  lemma {:induction false} StampTellsChanges(s: State, acts: seq<Action>, t: Tid, m: nat)
    requires Schedulable(s, acts) && m <= |acts| && t < |s.locals| && !HasView(s.locals[t])
    ensures
      var s' := StateAt(s, acts, m);
      && |s'.locals| == |s.locals|
      && (HasView(s'.locals[t]) ==> s'.locals[t].stamp <= s'.epoch)
      && (HasView(s'.locals[t]) && s'.locals[t].stamp < s'.epoch ==> Overtaken(acts, History(s, acts), t, m))
    decreases m
  {
    if m > 0 {
      StampTellsChanges(s, acts, t, m - 1);
      StepAt(s, acts, m - 1);
      StampStep(StateAt(s, acts, m - 1), acts[m - 1], t);
      if !Looks(acts[m - 1], t) { OvertakenStep(acts, History(s, acts), t, m); }
    }
  }

  lemma {:induction false} StampStep(s: State, a: Action, t: Tid)
    requires Enabled(s, a) && t < |s.locals|
    ensures |Apply(s, a).locals| == |s.locals|
    ensures Apply(s, a).epoch == s.epoch + if Changes(EventOf(s, a)) then 1 else 0
    ensures Looks(a, t) && HasView(Apply(s, a).locals[t]) ==> Apply(s, a).locals[t].stamp == Apply(s, a).epoch
    ensures !Looks(a, t) && HasView(Apply(s, a).locals[t]) ==>
              HasView(s.locals[t]) && Apply(s, a).locals[t].stamp == s.locals[t].stamp
  {}

  lemma {:induction false} OvertakenStep(acts: seq<Action>, events: seq<Event>, t: Tid, m: nat)
    requires 0 < m <= |acts| == |events| && !Looks(acts[m - 1], t)
    ensures Changes(events[m - 1]) || Overtaken(acts, events, t, m - 1) ==> Overtaken(acts, events, t, m)
  {
    if Changes(events[m - 1]) {
      assert ChangedSinceLook(acts, events, t, m - 1, m);
    } else if Overtaken(acts, events, t, m - 1) {
      var k :| 0 <= k < m - 1 && ChangedSinceLook(acts, events, t, k, m - 1);
      assert ChangedSinceLook(acts, events, t, k, m);
    }
  }

  lemma {:induction false} InvAt(s: State, list: seq<Index>, acts: seq<Action>, k: nat) returns (now: seq<Index>)
    requires Inv(s, list) && Schedulable(s, acts) && k <= |acts|
    ensures Inv(StateAt(s, acts, k), now)
    decreases k
  {
    now := list;
    if k > 0 {
      StepRefines(s, list, acts[0]);
      now := InvAt(Apply(s, acts[0]), Effect(list, EventOf(s, acts[0])), acts[1..], k - 1);
    }
  }

  /** Main progress result, over every interleaving: a thread loses an exchange, unless the processor
      fails it for no reason, only because another call has succeeded since the thread's last look. */
  lemma {:induction false} LostExchangeHasWinner(count: nat, threads: nat, acts: seq<Action>, t: Tid, j: nat)
    requires 0 < count <= NULL_IDX && Schedulable(Initial(count, threads), acts) && j < |acts| && t < threads
    requires acts[j] == PopExchange(t, false) || acts[j] == PushExchange(t, false)
    ensures Changes(History(Initial(count, threads), acts)[j]) || Overtaken(acts, History(Initial(count, threads), acts), t, j)
  {
    var s0 := Initial(count, threads);
    InitialHolds(count, threads);
    StepAt(s0, acts, j);
    StampTellsChanges(s0, acts, t, j);
    var list := InvAt(s0, Iota(count), acts, j);
    var s := StateAt(s0, acts, j);
    if s.locals[t].stamp == s.epoch { CurrentExchangeSucceeds(s, list, acts[j]); }
  }

  lemma {:induction false} CurrentExchangeSucceeds(s: State, list: seq<Index>, a: Action)
    requires Inv(s, list) && (a.PopExchange? || a.PushExchange?) && !a.spurious && Enabled(s, a)
    requires s.locals[a.t].stamp == s.epoch
    ensures Changes(EventOf(s, a))
  {
    InUse(s, list, a.t);
  }

  /** No chunk has two holders: between two pops of a chunk lies a push of it. */
  lemma {:induction false} PoppedOnce(list: seq<Index>, events: seq<Event>, i: nat, j: nat)
    requires Distinct(list) && LegalHistory(list, events)
    requires i < j < |events| && events[i].Popped? && events[j].Popped? && events[i].chunk == events[j].chunk
    ensures exists k :: i < k < j && events[k].Pushed? && events[k].chunk == events[i].chunk
    decreases |events|
  {
    var next, rest := Effect(list, events[0]), events[1..];
    assert Distinct(next);
    if i > 0 {
      PoppedOnce(next, rest, i - 1, j - 1);
      var k :| i - 1 < k < j - 1 && rest[k].Pushed? && rest[k].chunk == rest[i - 1].chunk;
      assert events[k + 1] == rest[k];
    } else {
      var c := events[0].chunk;
      assert c !in next;
      var k := ReturnedBefore(next, rest, c, j - 1);
      assert events[k + 1] == rest[k];
    }
  }

  lemma {:induction false} ReturnedBefore(list: seq<Index>, events: seq<Event>, c: Index, j: nat) returns (k: nat)
    requires Distinct(list) && LegalHistory(list, events) && c !in list
    requires j < |events| && events[j].Popped? && events[j].chunk == c
    ensures k < j && events[k].Pushed? && events[k].chunk == c
    decreases |events|
  {
    if events[0].Pushed? && events[0].chunk == c { return 0; }
    assert list != [] ==> list[0] in list;
    var k' := ReturnedBefore(Effect(list, events[0]), events[1..], c, j - 1);
    k := k' + 1;
  }

  // ----- what the bound is for

  /** A successful exchange of `pop` leaves a free list behind exactly when the link it read is
      still the link of the chunk it takes. */
  lemma {:induction false} PopIsSoundExactly(s: State, list: seq<Index>, t: Tid)
    requires Inv(s, list) && Enabled(s, PopExchange(t, false)) && Exchanges(s, s.locals[t].cur, false)
    ensures s.locals[t].cur.idx < |s.links|
    ensures (exists list' :: Inv(Apply(s, PopExchange(t, false)), list'))
            <==> s.locals[t].next == s.links[s.locals[t].cur.idx]
  {
    InUse(s, list, t);
    var s' := Apply(s, PopExchange(t, false));
    if s.locals[t].next == s.links[s.locals[t].cur.idx] { PopStep(s, list, t); }
    assert list != [] && list[0] == s.head.idx && LinkAt(s.links, list, 0);
    if list' :| Inv(s', list') { SameRest(s, s', list, list', t); }
  }

  lemma {:induction false} SameRest(s: State, s': State, list: seq<Index>, list': seq<Index>, t: Tid)
    requires Inv(s, list) && s.magic == MAGIC && list != [] && list[0] == s.head.idx && t < |s.locals|
    requires s'.links == s.links && s'.owner == s.owner[list[0] := t] && s'.magic == MAGIC && Inv(s', list')
    ensures s'.head.idx == s.links[list[0]]
  {
    assert LinkAt(s.links, list, 0);
    forall c: nat ensures c in list' <==> c in list && c != list[0] {
      if c in list { var k :| 0 <= k < |list| && list[k] == c; assert LinkAt(s.links, list, k); }
      if c in list' { var k :| 0 <= k < |list'| && list'[k] == c; assert LinkAt(s.links, list', k); }
    }
    assert forall i :: 0 <= i < |list'| ==> list'[i] in list';
    if |list| > 1 {
      assert LinkAt(s.links, list, 1);
      assert list[1] in list && list[1] in list';
      var k :| 0 <= k < |list'| && list'[k] == list[1];
      if k > 0 {
        assert LinkAt(s.links, list', k - 1) && list'[k - 1] in list';
        OnlyPredecessor(s.links, list, list', k);
      }
      assert list'[0] == list[1];
    }
  }

  /** What links to the second chunk of a chain is its first. */
  lemma OnlyPredecessor(links: seq<nat>, list: seq<Index>, list': seq<Index>, k: nat)
    requires |links| <= NULL_IDX && Distinct(list) && |list| > 1
    requires forall i :: 0 <= i < |list| ==> LinkAt(links, list, i)
    requires 0 < k < |list'| && list'[k] == list[1] && LinkAt(links, list', k - 1) && list'[k - 1] in list
    ensures list'[k - 1] == list[0]
  {
    var j :| 0 <= j < |list| && list[j] == list'[k - 1];
    assert LinkAt(links, list, j) && LinkAt(links, list, 1);
    assert j + 1 < |list| && list[j + 1] == list[1];
  }

  /** One more step of a run. */
  lemma {:induction false} Then(s0: State, acts: seq<Action>, s: State, a: Action, s': State) returns (more: seq<Action>)
    requires Schedulable(s0, acts) && Final(s0, acts) == s
    requires Enabled(s, a) && Timely(s, a) && Apply(s, a) == s'
    ensures Schedulable(s0, more) && Final(s0, more) == s'
    decreases |acts|
  {
    if acts == [] {
      more := [a];
    } else {
      var rest := Then(Apply(s0, acts[0]), acts[1..], s, a, s');
      more := [acts[0]] + rest;
      assert more[1..] == rest;
    }
  }

  /** Three chunks; thread 0 has looked at the head and read the link 0 -> 1, and thread 1 has since
      taken all three chunks and given back chunk 0, once or many times: `epoch` head changes. */
  function Swapped(epoch: nat): State {
    State(MAGIC, Head(0, epoch % GENERATIONS), [NULL_IDX, 2, NULL_IDX], map[1 := 1, 2 := 1],
          [PopRead(Head(0, 0), 1, 0), Idle], epoch)
  }

  /** The state from which thread 1 starts to take chunks. */
  function Looked(head: Head, owner: map<Index, Tid>, worker: Local, epoch: nat): State {
    State(MAGIC, head, [1, 2, NULL_IDX], owner, [PopRead(Head(0, 0), 1, 0), worker], epoch)
  }

  lemma {:induction false} UpToTheLook() returns (acts: seq<Action>)
    ensures Schedulable(Initial(3, 2), acts)
    ensures Final(Initial(3, 2), acts) == Looked(Head(0, 0), map[], Idle, 0)
  {
    var s0 := Initial(3, 2);
    var h := Head(0, 0);
    var s := State(UNINITIALISED, h, [0, 0, 0], map[], [Unborn, Unborn], 0);
    assert s0 == s;
    var s1 := s.(magic := BUSY, locals := [Unborn, Building(0)]);
    acts := Then(s0, [], s, CtorExchange(1), s1);
    var s2 := s1.(links := [1, 0, 0], locals := [Unborn, Building(1)]);
    acts := Then(s0, acts, s1, CtorWrite(1), s2);
    var s3 := s2.(links := [1, 2, 0], locals := [Unborn, Building(2)]);
    acts := Then(s0, acts, s2, CtorWrite(1), s3);
    var s4 := s3.(links := [1, 2, NULL_IDX], locals := [Unborn, Building(3)]);
    acts := Then(s0, acts, s3, CtorWrite(1), s4);
    acts := Constructed(s0, acts, s4);
  }

  lemma {:induction false} Constructed(s0: State, before: seq<Action>, s4: State) returns (acts: seq<Action>)
    requires s4 == State(BUSY, Head(0, 0), [1, 2, NULL_IDX], map[], [Unborn, Building(3)], 0)
    requires Schedulable(s0, before) && Final(s0, before) == s4
    ensures Schedulable(s0, acts) && Final(s0, acts) == Looked(Head(0, 0), map[], Idle, 0)
  {
    var s5 := s4.(locals := [Unborn, Building(4)]);
    acts := Then(s0, before, s4, CtorWrite(1), s5);
    var s6 := s5.(magic := MAGIC, locals := [Unborn, Idle]);
    acts := Then(s0, acts, s5, CtorWrite(1), s6);
    var s7 := s6.(locals := [Waiting, Idle]);
    acts := Then(s0, acts, s6, CtorExchange(0), s7);
    var s8 := s7.(locals := [Idle, Idle]);
    acts := Then(s0, acts, s7, CtorSpin(0), s8);
    var s9 := s8.(locals := [PopLoaded(Head(0, 0), 0), Idle]);
    acts := Then(s0, acts, s8, PopLoad(0), s9);
    acts := Then(s0, acts, s9, PopTest(0), Looked(Head(0, 0), map[], Idle, 0));
  }

  /** Thread 1 takes the chunk at the head. */
  lemma {:induction false} TakeHead(s0: State, before: seq<Action>, i: nat, owner: map<Index, Tid>) returns (acts: seq<Action>)
    requires i < 3 && Schedulable(s0, before) && Final(s0, before) == Looked(Head(i, i), owner, Idle, i)
    ensures Schedulable(s0, acts)
    ensures Final(s0, acts) == Looked(Head(if i < 2 then i + 1 else NULL_IDX, i + 1), owner[i := 1], Idle, i + 1)
  {
    hide Schedulable, Final;
    var h, next := Head(i, i), if i < 2 then i + 1 else NULL_IDX;
    acts := Then(s0, before, Looked(h, owner, Idle, i), PopLoad(1), Looked(h, owner, PopLoaded(h, i), i));
    acts := Then(s0, acts, Looked(h, owner, PopLoaded(h, i), i), PopTest(1), Looked(h, owner, PopRead(h, next, i), i));
    acts := Then(s0, acts, Looked(h, owner, PopRead(h, next, i), i), PopExchange(1, false),
                 Looked(Head(next, i + 1), owner[i := 1], Idle, i + 1));
  }

  lemma {:induction false} TakeAll() returns (acts: seq<Action>)
    ensures Schedulable(Initial(3, 2), acts)
    ensures Final(Initial(3, 2), acts) == Looked(Head(NULL_IDX, 3), map[0 := 1, 1 := 1, 2 := 1], Idle, 3)
  {
    hide Schedulable, Final, Looked;
    acts := UpToTheLook();
    acts := TakeHead(Initial(3, 2), acts, 0, map[]);
    acts := TakeHead(Initial(3, 2), acts, 1, map[0 := 1]);
    acts := TakeHead(Initial(3, 2), acts, 2, map[0 := 1, 1 := 1]);
    assert map[][0 := 1] == map[0 := 1] && map[0 := 1][1 := 1] == map[0 := 1, 1 := 1];
  }

  /** And gives back chunk 0. */
  lemma {:induction false} UpToTheSwap() returns (acts: seq<Action>)
    ensures Schedulable(Initial(3, 2), acts) && Final(Initial(3, 2), acts) == Swapped(4)
  {
    hide Schedulable, Final;
    var s0 := Initial(3, 2);
    acts := TakeAll();
    var all, h := map[0 := 1, 1 := 1, 2 := 1], Head(NULL_IDX, 3);
    var s := Looked(h, all, Idle, 3);
    var s1 := s.(locals := [PopRead(Head(0, 0), 1, 0), PushLoaded(0, h, 3)]);
    acts := Then(s0, acts, s, PushLoad(1, 0), s1);
    var s2 := s1.(links := [NULL_IDX, 2, NULL_IDX], locals := [PopRead(Head(0, 0), 1, 0), PushLinked(0, h, 3)]);
    acts := Then(s0, acts, s1, PushLink(1), s2);
    assert all - {0} == map[1 := 1, 2 := 1];
    acts := Then(s0, acts, s2, PushExchange(1, false), Swapped(4));
  }

  /** Chunk 0 is taken and given back once more. */
  lemma {:induction false} OnceMore(s0: State, before: seq<Action>, e: nat) returns (acts: seq<Action>)
    requires Schedulable(s0, before) && Final(s0, before) == Swapped(e)
    ensures Schedulable(s0, acts) && Final(s0, acts) == Swapped(e + 2)
  {
    var s, victim := Swapped(e), PopRead(Head(0, 0), 1, 0);
    var s1 := s.(locals := [victim, PopLoaded(s.head, e)]);
    acts := Then(s0, before, s, PopLoad(1), s1);
    var s2 := s1.(locals := [victim, PopRead(s.head, NULL_IDX, e)]);
    acts := Then(s0, acts, s1, PopTest(1), s2);
    var empty, all := Head(NULL_IDX, (e + 1) % GENERATIONS), map[1 := 1, 2 := 1, 0 := 1];
    var s3 := s2.(head := empty, owner := all, locals := [victim, Idle], epoch := e + 1);
    NextGenIsEpoch(e);
    assert s2.owner[0 := 1] == all;
    acts := Then(s0, acts, s2, PopExchange(1, false), s3);
    acts := GiveBack(s0, acts, e, s3);
  }

  lemma {:induction false} GiveBack(s0: State, before: seq<Action>, e: nat, s3: State) returns (acts: seq<Action>)
    requires s3 == Swapped(e).(
      head := Head(NULL_IDX, (e + 1) % GENERATIONS), owner := map[1 := 1, 2 := 1, 0 := 1], epoch := e + 1)
    requires Schedulable(s0, before) && Final(s0, before) == s3
    ensures Schedulable(s0, acts) && Final(s0, acts) == Swapped(e + 2)
  {
    var victim := PopRead(Head(0, 0), 1, 0);
    var s4 := s3.(locals := [victim, PushLoaded(0, s3.head, e + 1)]);
    acts := Then(s0, before, s3, PushLoad(1, 0), s4);
    var s5 := s4.(locals := [victim, PushLinked(0, s3.head, e + 1)]);
    assert s4.links[0 := NULL_IDX] == s4.links;
    acts := Then(s0, acts, s4, PushLink(1), s5);
    NextGenIsEpoch(e + 1);
    assert s5.owner - {0} == map[1 := 1, 2 := 1];
    acts := Then(s0, acts, s5, PushExchange(1, false), Swapped(e + 2));
  }

  lemma {:induction false} ManyTimes(rounds: nat) returns (acts: seq<Action>)
    ensures Schedulable(Initial(3, 2), acts) && Final(Initial(3, 2), acts) == Swapped(4 + 2 * rounds)
    decreases rounds
  {
    if rounds == 0 {
      acts := UpToTheSwap();
    } else {
      acts := ManyTimes(rounds - 1);
      acts := OnceMore(Initial(3, 2), acts, 4 + 2 * (rounds - 1));
    }
  }

  /** The bound is needed.  A run of two threads over three chunks, every step of it timely, ends
      2^32 head changes after thread 0's look at the head: its exchange then succeeds, puts chunk 1
      at the head although thread 1 holds it, and no free list is left. */
  lemma {:induction false} TimelyIsNeeded() returns (acts: seq<Action>)
    ensures Schedulable(Initial(3, 2), acts)
    ensures
      var s, late := Final(Initial(3, 2), acts), PopExchange(0, false);
      && Enabled(s, late) && s.epoch - s.locals[0].stamp == GENERATIONS && Exchanges(s, s.locals[0].cur, false)
      && Apply(s, late).head.idx == 1 && Apply(s, late).owner == map[0 := 0, 1 := 1, 2 := 1]
      && forall list :: !Inv(Apply(s, late), list)
  {
    acts := ManyTimes((GENERATIONS - 4) / 2);
    var s' := Apply(Swapped(GENERATIONS), PopExchange(0, false));
    assert s'.owner == map[0 := 0, 1 := 1, 2 := 1];
    forall list ensures !Inv(s', list) {
      if list != [] && list[0] == 1 { assert 1 in list && 1 in s'.owner; }
    }
  }
}
