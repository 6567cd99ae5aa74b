/**
 The three-state lock of core/include/join/futex.hpp, for any number of threads.

 The word is 0 when the lock is free, 1 when it is held and nobody is known to wait, 2 when it is
 held and somebody may wait.  Each compare-exchange, the exchange and each futex call is one
 atomic step; the kernel's WAIT checks the word and goes to sleep in one step, WAKE releases one
 sleeper if there is one, and a sleeper may also return for no reason.
 */
module Futex {

  type Tid = nat

  datatype Pc =
    | Out                      // neither holding nor asking for the lock
    | Entering                 // lock: about to try 0 -> 1
    | Contending(seen: nat)    // lock: the value the last failed exchange saw
    | AboutToWait              // lock: about to call FUTEX_WAIT
    | Sleeping                 // inside FUTEX_WAIT
    | Retrying                 // lock: about to try 0 -> 2
    | Critical                 // holds the lock
    | OwesWake                 // unlock: the exchange returned 2, FUTEX_WAKE not called yet

  datatype State = State(word: nat, threads: seq<Pc>)

  datatype Action =
    | Lock(t: Tid)
    | TryLock(t: Tid)
    | Enter(t: Tid)
    | Mark(t: Tid)
    | Wait(t: Tid)
    | Retry(t: Tid)
    | Unlock(t: Tid)
    | Wake(t: Tid, woken: Tid)
    | WakeNobody(t: Tid)
    | Spurious(t: Tid)

  predicate At(s: State, t: Tid, p: Pc) { t < |s.threads| && s.threads[t] == p }

  predicate Enabled(s: State, a: Action) {
    match a
    case Lock(t) => At(s, t, Out)
    case TryLock(t) => At(s, t, Out)
    case Enter(t) => At(s, t, Entering)
    case Mark(t) => t < |s.threads| && s.threads[t].Contending?
    case Wait(t) => At(s, t, AboutToWait)
    case Retry(t) => At(s, t, Retrying)
    case Unlock(t) => At(s, t, Critical)
    case Wake(t, w) => At(s, t, OwesWake) && At(s, w, Sleeping)
    case WakeNobody(t) => At(s, t, OwesWake) && Sleeping !in s.threads
    case Spurious(t) => At(s, t, Sleeping)
  }

  function Goto(s: State, t: Tid, p: Pc): State
    requires t < |s.threads|
  {
    s.(threads := s.threads[t := p])
  }

  function Apply(s: State, a: Action): State
    requires Enabled(s, a)
  {
    match a
    case Lock(t) => Goto(s, t, Entering)
    case TryLock(t) => if s.word == 0 then Goto(s.(word := 1), t, Critical) else s
    case Enter(t) => if s.word == 0 then Goto(s.(word := 1), t, Critical) else Goto(s, t, Contending(s.word))
    case Mark(t) =>
      var seen := s.threads[t].seen;
      if seen == 2 then Goto(s, t, AboutToWait)
      else if s.word == seen then Goto(s.(word := 2), t, AboutToWait)
      else Goto(s, t, Retrying)
    case Wait(t) => if s.word == 2 then Goto(s, t, Sleeping) else Goto(s, t, Retrying)
    case Retry(t) => if s.word == 0 then Goto(s.(word := 2), t, Critical) else Goto(s, t, Contending(s.word))
    case Unlock(t) => if s.word == 2 then Goto(s.(word := 0), t, OwesWake) else Goto(s.(word := 0), t, Out)
    case Wake(t, w) => Goto(Goto(s, t, Out), w, Retrying)
    case WakeNobody(t) => Goto(s, t, Out)
    case Spurious(t) => Goto(s, t, Retrying)
  }

  function Initial(n: nat): State { State(0, seq(n, _ => Out)) }

  // ----- the invariant

  /** Threads that will look at the word again without being woken. */
  predicate Awake(p: Pc) { p.Contending? || p.AboutToWait? || p.Retrying? }

  predicate MutualExclusion(s: State) {
    && (forall t, u :: 0 <= t < u < |s.threads| ==> !(s.threads[t].Critical? && s.threads[u].Critical?))
    && (s.word == 0 <==> forall t :: 0 <= t < |s.threads| ==> !s.threads[t].Critical?)
  }

  /** Somebody is going to let the sleepers go on. */
  predicate Attended(s: State) {
    s.word == 2 || exists t :: 0 <= t < |s.threads| && (s.threads[t].OwesWake? || Awake(s.threads[t]))
  }

  predicate Inv(s: State) {
    && s.word <= 2
    && MutualExclusion(s)
    && (forall t :: 0 <= t < |s.threads| && s.threads[t].Contending? ==> s.threads[t].seen == 1 || s.threads[t].seen == 2)
    && (Sleeping in s.threads ==> Attended(s))
  }

  lemma {:induction false} InitialHolds(n: nat)
    ensures Inv(Initial(n))
  {}

  lemma {:induction false} StepKeepsExclusion(s: State, a: Action)
    requires Inv(s) && Enabled(s, a)
    ensures MutualExclusion(Apply(s, a))
  {
    var s' := Apply(s, a);
    if s.word == 0 && s'.word != 0 {
      assert s'.threads[a.t].Critical?;
    } else if a.Unlock? {
      forall u | 0 <= u < |s.threads| ensures !s'.threads[u].Critical? { assert u == a.t || u < a.t || a.t < u; }
    } else {
      forall u | 0 <= u < |s.threads| ensures s'.threads[u].Critical? == s.threads[u].Critical? {}
    }
  }

  lemma {:induction false} StepKeepsAttended(s: State, a: Action)
    requires Inv(s) && Enabled(s, a)
    ensures Sleeping in Apply(s, a).threads ==> Attended(Apply(s, a))
  {
    var s' := Apply(s, a);
    match a
    case Wake(t, w) => assert Awake(s'.threads[w]);
    case Spurious(t) => assert Awake(s'.threads[t]);
    case Unlock(t) =>
      if s.word == 2 { assert s'.threads[t].OwesWake?; }
      else { StillAttended(s, s', t); }
    case Mark(t) => assert Awake(s'.threads[t]);
    case Wait(t) => if s.word != 2 { assert Awake(s'.threads[t]); }
    case Retry(t) => if s.word != 0 { assert Awake(s'.threads[t]); }
    case WakeNobody(t) =>
      forall u | 0 <= u < |s'.threads| ensures s'.threads[u] != Sleeping { assert s.threads[u] in s.threads; }
    case Enter(t) => if s.word != 0 { assert Awake(s'.threads[t]); } else { StillAttended(s, s', t); }
    case TryLock(t) => StillAttended(s, s', t);
    case Lock(t) => StillAttended(s, s', t);
  }

  /** A step of a thread that attends nobody leaves the sleepers as attended as they were. */
  lemma {:induction false} StillAttended(s: State, s': State, t: Tid)
    requires t < |s.threads| && |s'.threads| == |s.threads|
    requires forall u :: 0 <= u < |s.threads| && u != t ==> s'.threads[u] == s.threads[u]
    requires !s.threads[t].OwesWake? && !Awake(s.threads[t]) && s.threads[t] != Sleeping
    requires s.word == 2 ==> s'.word == 2
    requires Sleeping in s.threads ==> Attended(s)
    requires s'.threads[t] != Sleeping
    ensures Sleeping in s'.threads ==> Attended(s')
  {
    if Sleeping in s'.threads && s.word != 2 {
      var v :| 0 <= v < |s'.threads| && s'.threads[v] == Sleeping;
      assert s.threads[v] == Sleeping;
      var u :| 0 <= u < |s.threads| && (s.threads[u].OwesWake? || Awake(s.threads[u]));
      assert s'.threads[u] == s.threads[u];
    }
  }

  lemma {:induction false} StepKeepsInv(s: State, a: Action)
    requires Inv(s) && Enabled(s, a)
    ensures Inv(Apply(s, a))
  {
    StepKeepsExclusion(s, a);
    StepKeepsAttended(s, a);
    if s.word != 0 {
      var h :| 0 <= h < |s.threads| && s.threads[h].Critical?;
    }
  }

  // ----- whole runs

  predicate Schedulable(s: State, acts: seq<Action>)
    decreases |acts|
  {
    acts == [] || (Enabled(s, acts[0]) && Schedulable(Apply(s, acts[0]), acts[1..]))
  }

  function Final(s: State, acts: seq<Action>): State
    requires Schedulable(s, acts)
    decreases |acts|
  {
    if acts == [] then s else Final(Apply(s, acts[0]), acts[1..])
  }

  lemma {:induction false} RunKeepsInv(s: State, acts: seq<Action>)
    requires Inv(s) && Schedulable(s, acts)
    ensures Inv(Final(s, acts))
    decreases |acts|
  {
    if acts != [] {
      StepKeepsInv(s, acts[0]);
      RunKeepsInv(Apply(s, acts[0]), acts[1..]);
    }
  }

  /** Main safety result: in every run at most one thread is in the critical section, the word is
      zero exactly when nobody is, and a free lock nobody is working on has no sleepers. */
  lemma {:induction false} LockIsSafe(n: nat, acts: seq<Action>)
    requires Schedulable(Initial(n), acts)
    ensures
      var s := Final(Initial(n), acts);
      && MutualExclusion(s)
      && (Sleeping in s.threads ==> Attended(s))
      && (s.word == 0 && (forall t :: 0 <= t < |s.threads| ==> s.threads[t] == Out || s.threads[t] == Sleeping)
          ==> Sleeping !in s.threads)
  {
    InitialHolds(n);
    RunKeepsInv(Initial(n), acts);
  }

  predicate Free(s: State) { forall t :: 0 <= t < |s.threads| ==> !s.threads[t].Critical? }

  /** An attempt on the word takes the lock exactly when nobody holds it; one of `tryLock` that does not
      changes nothing, and one of `lock` goes on trying. */
  lemma {:induction false} AttemptsExactly(n: nat, acts: seq<Action>, a: Action)
    requires Schedulable(Initial(n), acts)
    requires Enabled(Final(Initial(n), acts), a) && (a.TryLock? || a.Enter? || a.Retry?)
    ensures
      var s := Final(Initial(n), acts);
      var s' := Apply(s, a);
      && (s'.threads[a.t].Critical? <==> Free(s))
      && (!Free(s) ==> if a.TryLock? then s' == s else s'.threads[a.t].Contending? && s'.word == s.word)
  {
    InitialHolds(n);
    RunKeepsInv(Initial(n), acts);
  }

  /** And only the holder gives it back, which leaves it free. */
  lemma {:induction false} ReleasesExactly(n: nat, acts: seq<Action>, a: Action, t: Tid)
    requires Schedulable(Initial(n), acts) && Enabled(Final(Initial(n), acts), a)
    requires t < |Final(Initial(n), acts).threads| && Final(Initial(n), acts).threads[t].Critical?
    ensures
      var s' := Apply(Final(Initial(n), acts), a);
      && |s'.threads| == |Final(Initial(n), acts).threads|
      && (!s'.threads[t].Critical? <==> a == Unlock(t)) && (a == Unlock(t) ==> Free(s') && s'.word == 0)
  {
    InitialHolds(n);
    RunKeepsInv(Initial(n), acts);
    var s := Final(Initial(n), acts);
    forall u | 0 <= u < |s.threads| && u != t ensures !s.threads[u].Critical? { assert u < t || t < u; }
  }

  // ----- no wake-up is lost: once calls stop arriving, everybody gets through

  /** Steps other than a new call and a wake-up for no reason. */
  predicate Internal(a: Action) { !a.Lock? && !a.TryLock? && !a.Spurious? }

  predicate Done(s: State) {
    s.word == 0 && forall t :: 0 <= t < |s.threads| ==> s.threads[t] == Out
  }

  /** A thread that is neither out nor asleep has a step to take. */
  lemma {:induction false} BusyHasStep(s: State, t: Tid) returns (a: Action)
    requires Inv(s) && t < |s.threads| && s.threads[t] != Out && s.threads[t] != Sleeping
    ensures Internal(a) && Enabled(s, a)
  {
    match s.threads[t]
    case Entering => a := Enter(t);
    case Contending(_) => a := Mark(t);
    case AboutToWait => a := Wait(t);
    case Retrying => a := Retry(t);
    case Critical => a := Unlock(t);
    case OwesWake =>
      if Sleeping in s.threads {
        var w :| 0 <= w < |s.threads| && s.threads[w] == Sleeping;
        a := Wake(t, w);
      } else {
        a := WakeNobody(t);
      }
  }

  /** If nothing internal can happen, nobody holds, wants or waits for the lock. */
  lemma {:induction false} StuckMeansDone(s: State)
    requires Inv(s)
    requires forall a :: Internal(a) ==> !Enabled(s, a)
    ensures Done(s)
  {
    forall t | 0 <= t < |s.threads| ensures s.threads[t] == Out || s.threads[t] == Sleeping {
      if s.threads[t] != Out && s.threads[t] != Sleeping {
        var a := BusyHasStep(s, t);
      }
    }
  }

  /** How often a thread can still change the word. */
  function Changes(p: Pc): nat {
    match p
    case Out => 0
    case OwesWake => 0
    case Critical => 1
    case _ => 3
  }

  /** How far a thread is from a change of the word or from sleep, given the word. */
  function Distance(p: Pc, word: nat): nat {
    match p
    case Out => 0
    case Critical => 0
    case Sleeping => 0
    case OwesWake => 10
    case Entering => 7
    case AboutToWait => if word == 2 then 1 else 4
    case Retrying => 3
    case Contending(seen) =>
      if seen == 2 then (if word == 2 then 2 else 5)
      else (if word == 1 then 2 else 4)
  }

  function SumChanges(ps: seq<Pc>): nat {
    if ps == [] then 0 else Changes(ps[0]) + SumChanges(ps[1..])
  }

  function SumDistance(ps: seq<Pc>, word: nat): (r: nat)
    ensures r <= 10 * |ps|
  {
    if ps == [] then 0 else Distance(ps[0], word) + SumDistance(ps[1..], word)
  }

  lemma {:induction false} SumsUpdate(ps: seq<Pc>, t: Tid, p: Pc, word: nat)
    requires t < |ps|
    ensures SumChanges(ps[t := p]) == SumChanges(ps) - Changes(ps[t]) + Changes(p)
    ensures SumDistance(ps[t := p], word) == SumDistance(ps, word) - Distance(ps[t], word) + Distance(p, word)
  {
    if t > 0 {
      assert ps[t := p][1..] == ps[1..][t - 1 := p];
      SumsUpdate(ps[1..], t - 1, p, word);
    }
  }

  function WordChangesLeft(s: State): nat { SumChanges(s.threads) + if s.word == 1 then 1 else 0 }

  /** Decreases at every internal step. */
  function Work(s: State): nat {
    WordChangesLeft(s) * (10 * |s.threads| + 1) + SumDistance(s.threads, s.word)
  }

  lemma {:induction false} WordChangeIsPaidFor(s: State, a: Action)
    requires Inv(s) && Enabled(s, a) && Internal(a) && Apply(s, a).word != s.word
    ensures WordChangesLeft(Apply(s, a)) + 1 <= WordChangesLeft(s)
  {
    var s' := Apply(s, a);
    SumsUpdate(s.threads, a.t, s'.threads[a.t], s.word);
    assert s'.threads == s.threads[a.t := s'.threads[a.t]];
  }

  lemma {:induction false} StepGetsCloser(s: State, a: Action)
    requires Inv(s) && Enabled(s, a) && Internal(a) && !a.Wake? && Apply(s, a).word == s.word
    ensures WordChangesLeft(Apply(s, a)) == WordChangesLeft(s)
    ensures SumDistance(Apply(s, a).threads, s.word) < SumDistance(s.threads, s.word)
  {
    var s' := Apply(s, a);
    SumsUpdate(s.threads, a.t, s'.threads[a.t], s.word);
    assert s'.threads == s.threads[a.t := s'.threads[a.t]];
  }

  lemma LessChanges(x: nat, y: nat, n: nat)
    requires x + 1 <= y
    ensures x * n + n <= y * n
  {
    assert y * n == x * n + n + (y - x - 1) * n;
  }

  lemma {:induction false} WordChangeWorks(s: State, a: Action)
    requires Inv(s) && Enabled(s, a) && Internal(a) && Apply(s, a).word != s.word
    ensures Work(Apply(s, a)) < Work(s)
  {
    WordChangeIsPaidFor(s, a);
    var s' := Apply(s, a);
    assert |s'.threads| == |s.threads|;
    hide Inv, Enabled, Apply, WordChangesLeft;
    LessChanges(WordChangesLeft(s'), WordChangesLeft(s), 10 * |s.threads| + 1);
  }

  lemma {:induction false} WakeWorks(s: State, a: Action)
    requires Enabled(s, a) && a.Wake?
    ensures Work(Apply(s, a)) < Work(s)
  {
    hide SumChanges, SumDistance;
    SumsUpdate(s.threads, a.t, Out, s.word);
    SumsUpdate(s.threads[a.t := Out], a.woken, Retrying, s.word);
  }

  lemma {:induction false} InternalStepWorks(s: State, a: Action)
    requires Inv(s) && Enabled(s, a) && Internal(a)
    ensures Work(Apply(s, a)) < Work(s)
  {
    hide Inv, SumChanges, SumDistance;
    if Apply(s, a).word != s.word {
      WordChangeWorks(s, a);
    } else if a.Wake? {
      WakeWorks(s, a);
    } else {
      StepGetsCloser(s, a);
      assert |Apply(s, a).threads| == |s.threads|;
    }
  }

  /** Main liveness result: from any reachable state, whatever the scheduler does, only boundedly
      many internal steps can happen, and when no more can, every thread has been through the
      lock and is out again.  So no wake-up is lost. */
  lemma {:induction false} EverybodyGetsThrough(n: nat, before: seq<Action>, acts: seq<Action>)
    requires Schedulable(Initial(n), before)
    requires Schedulable(Final(Initial(n), before), acts) && forall i :: 0 <= i < |acts| ==> Internal(acts[i])
    ensures |acts| <= Work(Final(Initial(n), before))
    ensures
      var s := Final(Final(Initial(n), before), acts);
      (forall a :: Internal(a) ==> !Enabled(s, a)) ==> Done(s)
  {
    var s := Final(Initial(n), before);
    InitialHolds(n);
    RunKeepsInv(Initial(n), before);
    RunKeepsInv(s, acts);
    BoundedWork(s, acts);
    if forall a :: Internal(a) ==> !Enabled(Final(s, acts), a) { StuckMeansDone(Final(s, acts)); }
  }

  lemma {:induction false} BoundedWork(s: State, acts: seq<Action>)
    requires Inv(s) && Schedulable(s, acts) && forall i :: 0 <= i < |acts| ==> Internal(acts[i])
    ensures |acts| <= Work(s)
    decreases |acts|
  {
    if acts != [] {
      StepKeepsInv(s, acts[0]);
      InternalStepWorks(s, acts[0]);
      BoundedWork(Apply(s, acts[0]), acts[1..]);
    }
  }
}
