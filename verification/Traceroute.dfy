/**
 Route and path MTU discovery (fabric/src/ping.cpp, `Ping::trace`, `Ping::pathMtu` and `Ping::isFatal`).

 The network is a function from the number of an echo to what came of it, so that a result for
 every function is a result for every behaviour of the network.
 */
module Traceroute {
  import opened Wrappers

  type uint32 = n: int | 0 <= n < 0x1_0000_0000

  /** What one echo brought; `mtu` is the one an error reported, 0 for none, `route` the socket's own. */
  datatype Answer = Answer(replied: bool, expired: bool, mtu: uint32, route: int, sent: bool, retryable: bool)

  /** Nothing left the host and retrying cannot succeed. */
  predicate IsFatal(a: Answer) {
    !a.sent && !a.retryable
  }

  /** static_cast<int> */
  function ToInt(n: uint32): int {
    if n < 0x8000_0000 then n else n - 0x1_0000_0000
  }

  function Max(a: int, b: int): int { if a < b then b else a }

  datatype Config = Config(maxHops: int, probes: int, size: int, overhead: int)

  /** A failure that reports an MTU too small for the size sent. */
  predicate Narrows(a: Answer, size: int, c: Config) {
    !a.replied && !a.expired && a.mtu != 0 && Shrunk(a, c) < size
  }

  function Shrunk(a: Answer, c: Config): int {
    Max(0, ToInt(a.mtu) - c.overhead)
  }

  // ----- what a trace has done so far, told from its events

  datatype Event = Echo(hop: int, size: int, answer: Answer) | Hop(hop: int)

  predicate NarrowedBy(e: Event, c: Config) {
    e.Echo? && Narrows(e.answer, e.size, c)
  }

  predicate AbortedBy(e: Event, c: Config) {
    e.Echo? && !e.answer.replied && !e.answer.expired && !NarrowedBy(e, c) && IsFatal(e.answer)
  }

  predicate RepliedBy(e: Event) { e.Echo? && e.answer.replied }

  /** The hops `onHop` was called for, in order. */
  function Reported(log: seq<Event>): seq<int> {
    if log == [] then []
    else
      var front, e := log[..|log| - 1], log[|log| - 1];
      Reported(front) + if e.Hop? then [e.hop] else []
  }

  function Echoes(log: seq<Event>): nat {
    if log == [] then 0 else Echoes(log[..|log| - 1]) + if log[|log| - 1].Echo? then 1 else 0
  }

  /** Echoes since the round began; a report ends it, and so does a narrowing. */
  function InRound(log: seq<Event>, c: Config): nat {
    if log == [] then 0
    else
      var e := log[|log| - 1];
      if e.Hop? || NarrowedBy(e, c) then 0 else InRound(log[..|log| - 1], c) + 1
  }

  /** The hop being probed: one more than were reported. */
  function Probing(log: seq<Event>): nat { |Reported(log)| + 1 }

  /** The size being sent: what the last narrowing left. */
  function Sending(log: seq<Event>, c: Config): int {
    if log == [] then c.size
    else
      var e := log[|log| - 1];
      if NarrowedBy(e, c) then Shrunk(e.answer, c) else Sending(log[..|log| - 1], c)
  }

  predicate Aborted(log: seq<Event>, c: Config) {
    exists i | 0 <= i < |log| :: AbortedBy(log[i], c)
  }

  /** The hop of the last reply, -1 without one. */
  function Reached(log: seq<Event>): int {
    if log == [] then -1
    else
      var e := log[|log| - 1];
      if RepliedBy(e) then e.hop else Reached(log[..|log| - 1])
  }

  /** What the trace does next. */
  function Next(log: seq<Event>, c: Config, answers: nat -> Answer): Option<Event> {
    var k := InRound(log, c);
    var probe := Echo(Probing(log), Sending(log, c), answers(Echoes(log)));
    if k == 0 && (Probing(log) > c.maxHops || Reached(log) != -1 || Aborted(log, c)) then None
    else if k < c.probes && !Aborted(log, c) then Some(probe)
    else Some(Hop(Probing(log)))
  }

  ghost predicate IsPrefix(log: seq<Event>, c: Config, answers: nat -> Answer) {
    forall i | 0 <= i < |log| :: Next(log[..i], c, answers) == Some(log[i])
  }

  /** The run from beginning to end. */
  ghost predicate IsRun(log: seq<Event>, c: Config, answers: nat -> Answer) {
    IsPrefix(log, c, answers) && Next(log, c, answers) == None
  }

  lemma Extend(log: seq<Event>, e: Event, c: Config, answers: nat -> Answer)
    requires IsPrefix(log, c, answers) && Next(log, c, answers) == Some(e)
    ensures IsPrefix(log + [e], c, answers)
  {
    var more := log + [e];
    assert more[..|log|] == log;
    assert forall i | 0 <= i < |log| :: more[..i] == log[..i];
  }

  lemma OneMore(log: seq<Event>, e: Event, c: Config)
    ensures
      var more := log + [e];
      && |Reported(more)| == |Reported(log)| + (if e.Hop? then 1 else 0)
      && Echoes(more) == Echoes(log) + (if e.Echo? then 1 else 0)
      && InRound(more, c) == (if e.Hop? || NarrowedBy(e, c) then 0 else InRound(log, c) + 1)
      && Sending(more, c) == (if NarrowedBy(e, c) then Shrunk(e.answer, c) else Sending(log, c))
      && (Aborted(more, c) <==> Aborted(log, c) || AbortedBy(e, c))
      && Reached(more) == (if RepliedBy(e) then e.hop else Reached(log))
  {
    hide NarrowedBy, AbortedBy;
    var more := log + [e];
    assert more[..|log|] == log && more[|log|] == e;
    if Aborted(log, c) {
      var i :| 0 <= i < |log| && AbortedBy(log[i], c);
      assert AbortedBy(more[i], c);
    }
  }

  lemma NothingYet(c: Config, answers: nat -> Answer)
    ensures IsPrefix([], c, answers) && Reported([]) == [] && Echoes([]) == 0 && InRound([], c) == 0
    ensures Sending([], c) == c.size && Reached([]) == -1 && !Aborted([], c)
  {}

  method Trace(c: Config, answers: nat -> Answer) returns (reached: int, log: seq<Event>)
    ensures IsRun(log, c, answers) && reached == Reached(log)
  {
    NothingYet(c, answers);
    hide Reported, Echoes, InRound, Sending, Reached, Aborted, IsPrefix;
    log, reached := [], -1;
    var hop, size, aborted, echoes := 1, c.size, false, 0;
    while hop <= c.maxHops && reached == -1 && !aborted
      invariant IsPrefix(log, c, answers) && InRound(log, c) == 0
      invariant hop == Probing(log) && size == Sending(log, c) && echoes == Echoes(log)
      invariant reached == Reached(log) && aborted == Aborted(log, c)
      decreases c.maxHops - hop, Max(size, 0)
    {
      var narrowed, probe := false, 0;
      ghost var sizeBefore := size;
      while probe < c.probes && !narrowed && !aborted
        invariant 0 <= probe && IsPrefix(log, c, answers)
        invariant InRound(log, c) == if narrowed then 0 else probe
        invariant hop == Probing(log) && size == Sending(log, c) && echoes == Echoes(log)
        invariant reached == Reached(log) && aborted == Aborted(log, c) && hop <= c.maxHops
        invariant if narrowed then 0 <= size < sizeBefore else size == sizeBefore
        invariant probe == 0 ==> !narrowed && !aborted && reached == -1
        decreases c.probes - probe
      {
        var answer := answers(echoes);
        var e := Echo(hop, size, answer);
        Extend(log, e, c, answers);
        OneMore(log, e, c);
        log := log + [e];
        echoes := echoes + 1;
        if answer.replied {
          reached := hop;
        } else if !answer.expired {
          var shrunk := Max(0, ToInt(answer.mtu) - c.overhead);
          narrowed := answer.mtu != 0 && shrunk < size;
          if narrowed {
            size := shrunk;
          } else {
            aborted := IsFatal(answer);
          }
        }
        probe := probe + 1;
      }
      if !narrowed {
        Extend(log, Hop(hop), c, answers);
        OneMore(log, Hop(hop), c);
        log := log + [Hop(hop)];
        hop := hop + 1;
      }
    }
  }

  // ----- every run

  /** What holds of every beginning of a run. */
  ghost predicate Inv(log: seq<Event>, c: Config) {
    && (forall i | 0 <= i < |Reported(log)| :: Reported(log)[i] == i + 1)
    && |Reported(log)| <= Max(0, c.maxHops)
    && (InRound(log, c) > 0 ==> Probing(log) <= c.maxHops)
    && Narrowings(log, c) + Max(0, Sending(log, c)) <= Max(0, c.size)
    && (Reached(log) != -1 ==> 1 <= Reached(log) == Probing(log) - if log[|log| - 1].Hop? then 1 else 0)
    && (InRound(log, c) == 0 ==> log == [] || log[|log| - 1].Hop? || NarrowedBy(log[|log| - 1], c))
  }

  function Narrowings(log: seq<Event>, c: Config): nat {
    if log == [] then 0
    else Narrowings(log[..|log| - 1], c) + if NarrowedBy(log[|log| - 1], c) then 1 else 0
  }

  lemma {:induction false} PrefixKeepsInv(log: seq<Event>, c: Config, answers: nat -> Answer)
    requires IsPrefix(log, c, answers)
    ensures Inv(log, c)
  {
    if log != [] {
      var front := log[..|log| - 1];
      assert forall i | 0 <= i < |front| :: front[..i] == log[..i];
      PrefixKeepsInv(front, c, answers);
      assert Next(front, c, answers) == Some(log[|log| - 1]);
    }
  }

  /** Hops are reported 1, 2, 3, ... once each, and no further than `maxHops`. */
  lemma ReportsInOrder(log: seq<Event>, c: Config, answers: nat -> Answer)
    requires IsPrefix(log, c, answers)
    ensures |Reported(log)| <= Max(0, c.maxHops)
    ensures forall i | 0 <= i < |Reported(log)| :: Reported(log)[i] == i + 1
  {
    PrefixKeepsInv(log, c, answers);
  }

  /** A payload can be narrowed no more often than it has bytes. */
  lemma NarrowingsAreBounded(log: seq<Event>, c: Config, answers: nat -> Answer)
    requires IsPrefix(log, c, answers)
    ensures Narrowings(log, c) <= Max(0, c.size)
  {
    PrefixKeepsInv(log, c, answers);
  }

  /** What follows a narrowing probes the same hop again, with fewer bytes. */
  lemma RetriesAreSmaller(log: seq<Event>, i: nat, c: Config, answers: nat -> Answer)
    requires IsPrefix(log, c, answers) && i + 1 < |log| && NarrowedBy(log[i], c)
    ensures log[i + 1].Echo? && log[i + 1].hop == log[i].hop && log[i + 1].size < log[i].size
  {
    var upTo := log[..i + 1];
    assert upTo[..i] == log[..i] && upTo[|upTo| - 1] == log[i];
    assert Next(log[..i], c, answers) == Some(log[i]);
    assert Next(upTo, c, answers) == Some(log[i + 1]);
  }

  lemma {:induction false} ReachedIsLastReply(log: seq<Event>)
    requires forall i | 0 <= i < |log| && log[i].Echo? :: log[i].hop >= 1
    ensures Reached(log) == -1 <==> !(exists i | 0 <= i < |log| :: RepliedBy(log[i]))
    ensures Reached(log) != -1 ==> exists i | 0 <= i < |log| :: RepliedBy(log[i]) && log[i].hop == Reached(log)
  {
    if log != [] { ReachedIsLastReply(log[..|log| - 1]); }
  }

  /** The result is -1 exactly without a reply, and else a hop a reply came for. */
  lemma ReachedReplied(log: seq<Event>, c: Config, answers: nat -> Answer)
    requires IsPrefix(log, c, answers)
    ensures Reached(log) == -1 <==> !(exists i | 0 <= i < |log| :: RepliedBy(log[i]))
    ensures Reached(log) != -1 ==> exists i | 0 <= i < |log| :: RepliedBy(log[i]) && log[i].hop == Reached(log)
  {
    forall i | 0 <= i < |log| && log[i].Echo? ensures log[i].hop >= 1 {
      assert Next(log[..i], c, answers) == Some(log[i]);
    }
    ReachedIsLastReply(log);
  }

  /**
   The hop returned is the last one reported, exactly when the last event is no narrowing:
   a narrowing after a reply ends the trace with its hop unreported.
   */
  lemma ReachedIsReportedExactly(log: seq<Event>, c: Config, answers: nat -> Answer)
    requires IsRun(log, c, answers) && Reached(log) != -1
    ensures log != []
    ensures Reached(log) in Reported(log) <==> !NarrowedBy(log[|log| - 1], c)
    ensures Reached(log) == |Reported(log)| + if NarrowedBy(log[|log| - 1], c) then 1 else 0
  {
    PrefixKeepsInv(log, c, answers);
    var r := Reported(log);
    assert Reached(log) == |r| > 0 ==> r[|r| - 1] == Reached(log);
  }

  /** A run without a reply stops early only for an error that retrying cannot mend. */
  lemma UnreachedReason(log: seq<Event>, c: Config, answers: nat -> Answer)
    requires IsRun(log, c, answers) && Reached(log) == -1
    ensures Aborted(log, c) || |Reported(log)| == Max(0, c.maxHops)
  {
    PrefixKeepsInv(log, c, answers);
  }

  // ----- every event, by what came before it

  lemma ToIntExactly(n: uint32)
    ensures -0x8000_0000 <= ToInt(n) < 0x8000_0000 && (ToInt(n) - n) % 0x1_0000_0000 == 0
  {}

  predicate LastNarrowing(log: seq<Event>, c: Config, j: nat, i: nat) {
    j < i <= |log| && NarrowedBy(log[j], c) && forall k :: j < k < i ==> !NarrowedBy(log[k], c)
  }

  lemma {:induction false} SendingIs(log: seq<Event>, c: Config, i: nat)
    requires i <= |log|
    ensures (forall k :: 0 <= k < i ==> !NarrowedBy(log[k], c)) ==> Sending(log[..i], c) == c.size
    ensures forall j :: 0 <= j < i && LastNarrowing(log, c, j, i) ==>
              Sending(log[..i], c) == Max(0, ToInt(log[j].answer.mtu) - c.overhead)
  {
    hide Max, ToInt;
    if i > 0 {
      SendingIs(log, c, i - 1);
      SendingStep(log, c, i);
      hide NarrowedBy;
      forall j | 0 <= j < i && LastNarrowing(log, c, j, i)
        ensures Sending(log[..i], c) == Max(0, ToInt(log[j].answer.mtu) - c.overhead)
      {
        if j < i - 1 { assert LastNarrowing(log, c, j, i - 1); }
      }
    }
  }

  lemma SendingStep(log: seq<Event>, c: Config, i: nat)
    requires 0 < i <= |log|
    ensures Sending(log[..i], c)
            == if NarrowedBy(log[i - 1], c) then Max(0, ToInt(log[i - 1].answer.mtu) - c.overhead) else Sending(log[..i - 1], c)
  {
    hide NarrowedBy;
    assert log[..i][..i - 1] == log[..i - 1];
  }

  lemma {:induction false} ReportedStays(log: seq<Event>, s: nat, i: nat)
    requires s <= i <= |log| && forall k :: s <= k < i ==> log[k].Echo?
    ensures Reported(log[..i]) == Reported(log[..s])
    decreases i
  {
    if i > s {
      ReportedStays(log, s, i - 1);
      assert log[..i][..i - 1] == log[..i - 1];
    }
  }

  lemma {:induction false} InRoundIs(log: seq<Event>, c: Config, i: nat) returns (s: nat)
    requires i <= |log|
    ensures s == i - InRound(log[..i], c) && (s == 0 || log[s - 1].Hop? || NarrowedBy(log[s - 1], c))
    ensures forall k :: s <= k < i ==> log[k].Echo? && !NarrowedBy(log[k], c)
  {
    s := i;
    if i > 0 {
      assert log[..i][..i - 1] == log[..i - 1];
      if !(log[i - 1].Hop? || NarrowedBy(log[i - 1], c)) { s := InRoundIs(log, c, i - 1); }
    }
  }

  /** An echo probes the hop after those reported, with the answers in their order, and with the size the
      last narrowing left, the one given if there was none. */
  lemma EchoesExactly(log: seq<Event>, i: nat, c: Config, answers: nat -> Answer)
    requires IsPrefix(log, c, answers) && i < |log| && log[i].Echo?
    ensures log[i].hop == |Reported(log[..i])| + 1 <= Max(0, c.maxHops) && log[i].answer == answers(Echoes(log[..i]))
    ensures (forall k :: 0 <= k < i ==> !NarrowedBy(log[k], c)) ==> log[i].size == c.size
    ensures forall j :: 0 <= j < i && LastNarrowing(log, c, j, i) ==>
              log[i].size == Max(0, ToInt(log[j].answer.mtu) - c.overhead)
  {
    assert Next(log[..i], c, answers) == Some(log[i]);
    SendingIs(log, c, i);
    assert forall k | 0 <= k < i + 1 :: log[..i + 1][..k] == log[..k];
    PrefixKeepsInv(log[..i], c, answers) by { assert forall k | 0 <= k < i :: log[..i][..k] == log[..k]; }
  }

  /** The hop reported at `i` was probed from `s` on, as often as asked unless the last probe was fatal. */
  ghost predicate FullRound(log: seq<Event>, c: Config, s: nat, i: nat) {
    && s <= i < |log| && log[i].Hop?
    && (s == 0 || log[s - 1].Hop? || NarrowedBy(log[s - 1], c))
    && (forall k :: s <= k < i ==> log[k].Echo? && log[k].hop == log[i].hop && !NarrowedBy(log[k], c))
    && (i - s == Max(0, c.probes) || (s < i && i - s < c.probes && AbortedBy(log[i - 1], c)))
  }

  lemma InRoundStep(log: seq<Event>, c: Config, i: nat)
    requires 0 < i <= |log|
    ensures InRound(log[..i], c) == if log[i - 1].Hop? || NarrowedBy(log[i - 1], c) then 0 else InRound(log[..i - 1], c) + 1
  {
    hide NarrowedBy;
    assert log[..i][..i - 1] == log[..i - 1];
  }

  /** When a probe is sent, and when the hop is reported. */
  lemma CountTells(log: seq<Event>, i: nat, c: Config, answers: nat -> Answer)
    requires IsPrefix(log, c, answers) && i < |log|
    ensures log[i].Echo? ==> InRound(log[..i], c) < c.probes
    ensures log[i].Hop? ==> InRound(log[..i], c) >= c.probes || (InRound(log[..i], c) > 0 && Aborted(log[..i], c))
  {
    hide InRound, Sending, Aborted, Reached, Reported, Echoes;
    assert Next(log[..i], c, answers) == Some(log[i]);
  }

  lemma RoundCount(log: seq<Event>, i: nat, c: Config, answers: nat -> Answer)
    requires IsPrefix(log, c, answers) && i < |log| && log[i].Hop?
    ensures
      var n := InRound(log[..i], c);
      n <= i && (n == Max(0, c.probes) || (0 < n < c.probes && AbortedBy(log[i - 1], c)))
  {
    hide IsPrefix, InRound, AbortedBy, NarrowedBy;
    var n := InRound(log[..i], c);
    var s := InRoundIs(log, c, i);
    CountTells(log, i, c, answers);
    if s < i {
      InRoundStep(log, c, i);
      CountTells(log, i - 1, c, answers);
    }
    if n < c.probes {
      var j :| 0 <= j < |log[..i]| && AbortedBy(log[..i][j], c);
      AbortEnds(log, j, c, answers);
    }
  }

  lemma RoundHops(log: seq<Event>, i: nat, s: nat, c: Config, answers: nat -> Answer)
    requires IsPrefix(log, c, answers) && s <= i < |log| && log[i].Hop?
    requires forall k :: s <= k < i ==> log[k].Echo?
    ensures forall k :: s <= k < i ==> log[k].Echo? && log[k].hop == log[i].hop
  {
    hide InRound, Sending, Aborted, Reached, Reported, Echoes;
    ReportedStays(log, s, i);
    assert Next(log[..i], c, answers) == Some(log[i]);
    forall k | s <= k < i ensures log[k].hop == log[i].hop {
      assert Next(log[..k], c, answers) == Some(log[k]);
      ReportedStays(log, s, k);
    }
  }

  lemma RoundsAreFull(log: seq<Event>, i: nat, c: Config, answers: nat -> Answer)
    requires IsPrefix(log, c, answers) && i < |log| && log[i].Hop?
    ensures exists s :: 0 <= s <= i && FullRound(log, c, s, i)
  {
    hide IsPrefix, InRound, AbortedBy, NarrowedBy;
    var s := InRoundIs(log, c, i);
    RoundCount(log, i, c, answers);
    RoundHops(log, i, s, c, answers);
    assert FullRound(log, c, s, i);
  }

  /** A failure nothing left the host for and retrying cannot mend is followed by the report of its hop,
      and by nothing else. */
  lemma AbortEnds(log: seq<Event>, j: nat, c: Config, answers: nat -> Answer)
    requires IsPrefix(log, c, answers) && j < |log| && AbortedBy(log[j], c)
    ensures !log[j].answer.replied && !log[j].answer.expired && !log[j].answer.sent && !log[j].answer.retryable
    ensures |log| <= j + 2 && (|log| == j + 2 ==> log[j + 1] == Hop(log[j].hop))
  {
    AbortedHere(log, j, c, answers);
    AfterAbort(log[..j], log[j], c, answers);
    hide Next, AbortedBy;
    if j + 1 < |log| { TwoMore(log, j); }
  }

  lemma AbortedHere(log: seq<Event>, j: nat, c: Config, answers: nat -> Answer)
    requires IsPrefix(log, c, answers) && j < |log| && AbortedBy(log[j], c)
    ensures log[j].hop == |Reported(log[..j])| + 1
    ensures !log[j].answer.replied && !log[j].answer.expired && !log[j].answer.sent && !log[j].answer.retryable
  {
    hide InRound, Sending, Aborted, Reached, Reported, Echoes;
    assert Next(log[..j], c, answers) == Some(log[j]);
  }

  lemma TwoMore(log: seq<Event>, j: nat)
    requires j + 1 < |log|
    ensures log[..j + 1] == log[..j] + [log[j]] && log[..j + 2] == log[..j] + [log[j]] + [log[j + 1]]
  {}

  lemma AfterAbort(front: seq<Event>, e: Event, c: Config, answers: nat -> Answer)
    requires AbortedBy(e, c)
    ensures Next(front + [e], c, answers) == Some(Hop(|Reported(front)| + 1))
    ensures forall h :: Next(front + [e] + [Hop(h)], c, answers) == None
  {
    var one := front + [e];
    assert one[..|front|] == front && one[|front|] == e;
    assert Aborted(one, c);
    forall h ensures Next(one + [Hop(h)], c, answers) == None {
      var two := one + [Hop(h)];
      assert two[..|one|] == one && two[|front|] == e;
      assert Aborted(two, c);
    }
  }

  /** A trace ends exactly when a round is over and a reply came, or an error was fatal, or the hops ran
      out. */
  lemma EndsExactly(log: seq<Event>, c: Config, answers: nat -> Answer)
    requires IsPrefix(log, c, answers)
    ensures IsRun(log, c, answers) <==>
      && (log == [] || log[|log| - 1].Hop? || NarrowedBy(log[|log| - 1], c))
      && (|Reported(log)| >= Max(0, c.maxHops)
          || (exists i :: 0 <= i < |log| && RepliedBy(log[i])) || (exists i :: 0 <= i < |log| && AbortedBy(log[i], c)))
  {
    PrefixKeepsInv(log, c, answers);
    ReachedReplied(log, c, answers);
  }

  /** The network's answers determine the run. */
  lemma RunIsUnique(a: seq<Event>, b: seq<Event>, c: Config, answers: nat -> Answer)
    requires IsRun(a, c, answers) && IsRun(b, c, answers)
    ensures a == b
  {
    NoLonger(a, b, c, answers);
    NoLonger(b, a, c, answers);
    SamePrefix(a, b, |a|, c, answers);
    assert a[..|a|] == a && b[..|b|] == b;
  }

  lemma NoLonger(a: seq<Event>, b: seq<Event>, c: Config, answers: nat -> Answer)
    requires IsRun(a, c, answers) && IsPrefix(b, c, answers)
    ensures |b| <= |a|
  {
    SamePrefix(a, b, if |a| < |b| then |a| else |b|, c, answers);
    assert a[..|a|] == a;
  }

  lemma {:induction false} SamePrefix(a: seq<Event>, b: seq<Event>, n: nat, c: Config, answers: nat -> Answer)
    requires IsPrefix(a, c, answers) && IsPrefix(b, c, answers) && n <= |a| && n <= |b|
    ensures a[..n] == b[..n]
  {
    if n > 0 {
      SamePrefix(a, b, n - 1, c, answers);
      assert Next(a[..n - 1], c, answers) == Some(a[n - 1]) && Next(b[..n - 1], c, answers) == Some(b[n - 1]);
      assert a[..n] == a[..n - 1] + [a[n - 1]] && b[..n] == b[..n - 1] + [b[n - 1]];
    }
  }

  // ----- the destination answers at hop 1, then the second probe is too big: hop 1 is never reported

  function Fickle(n: nat): Answer {
    Answer(n == 0, false, if n == 0 then 0 else 68, 1500, true, false)
  }

  lemma ReachedUnreported()
    ensures var c := Config(30, 3, 100, 28);
      var log := [Echo(1, 100, Fickle(0)), Echo(1, 100, Fickle(1))];
      IsRun(log, c, Fickle) && Reached(log) == 1 && Reported(log) == []
  {
    var c := Config(30, 3, 100, 28);
    var first, second := Echo(1, 100, Fickle(0)), Echo(1, 100, Fickle(1));
    var one, log := [first], [first, second];
    assert log[..1] == one && log[..0] == [] && one[..0] == [];
    assert Next([], c, Fickle) == Some(first);
    assert InRound(one, c) == 1 && Next(one, c, Fickle) == Some(second);
    assert NarrowedBy(second, c) && Reached(log) == Reached(one) == 1;
    assert Reported(one) == [] && Reported(log) == [];
  }

  // ----- path MTU

  const BUFFER_SIZE: int := 65535
  const MAX_MTU_PROBES: int := 30
  const DEFAULT_PROBES: int := 3

  /** The answer reports an MTU below the size tried. */
  predicate Reports(a: Answer, mtu: int) { a.mtu != 0 && ToInt(a.mtu) < mtu }

  /** The first echo after the last report. */
  function Since(reports: seq<nat>): nat { if reports == [] then 0 else reports[|reports| - 1] + 1 }

  /**
   `mtus` are the sizes tried, `reports` the echoes whose error gave each after the first, `used` the
   number of echoes.  The result is -1 unless the last echo got a reply, as no other did; then it is
   the last size tried, or the route's own MTU when nothing had narrowed it.  It gives up after thirty
   sizes, after three echoes in vain for one size, or at the first error retrying cannot mend.
   */
  method PathMtu(answers: nat -> Answer)
    returns (result: int, mtus: seq<int>, reports: seq<nat>, used: nat)
    ensures 1 <= |mtus| == |reports| + 1 <= MAX_MTU_PROBES + 1 && mtus[0] == BUFFER_SIZE
    ensures forall k :: 0 <= k < |reports| ==> mtus[k + 1] < mtus[k]
    ensures forall k :: 0 <= k < |reports| ==>
      reports[k] < used && !answers(reports[k]).replied && mtus[k + 1] == ToInt(answers(reports[k]).mtu) != 0
    ensures used <= MAX_MTU_PROBES * DEFAULT_PROBES
    ensures forall i :: 0 <= i < used - 1 ==> !answers(i).replied
    ensures result == if used == 0 || !answers(used - 1).replied then -1
                      else if |mtus| == 1 && answers(used - 1).route > 0 then answers(used - 1).route
                      else mtus[|mtus| - 1]
    ensures forall i :: Since(reports) <= i < used && !answers(i).replied ==> !Reports(answers(i), mtus[|mtus| - 1])
    ensures forall i :: Since(reports) <= i < used - 1 ==> !IsFatal(answers(i))
    ensures (forall i :: 0 <= i < used ==> !answers(i).replied) ==>
      || |reports| == MAX_MTU_PROBES
      || used == Since(reports) + DEFAULT_PROBES || (Since(reports) < used && IsFatal(answers(used - 1)))
  {
    var mtu, narrowed := BUFFER_SIZE, false;
    result, mtus, reports, used := -1, [mtu], [], 0;
    var probe := 0;
    while probe < MAX_MTU_PROBES
      invariant 0 <= probe <= MAX_MTU_PROBES && |mtus| == |reports| + 1 == probe + 1
      invariant mtus[0] == BUFFER_SIZE && mtus[probe] == mtu && narrowed == (probe > 0)
      invariant forall k :: 0 <= k < |reports| ==> mtus[k + 1] < mtus[k]
      invariant forall k :: 0 <= k < |reports| ==>
        reports[k] < used && !answers(reports[k]).replied && mtus[k + 1] == ToInt(answers(reports[k]).mtu) != 0
      invariant used <= probe * DEFAULT_PROBES && result == -1
      invariant forall i :: 0 <= i < used ==> !answers(i).replied
      invariant used == Since(reports)
    {
      var previous, retry := mtu, 0;
      while retry < DEFAULT_PROBES
        invariant 0 <= retry <= DEFAULT_PROBES && mtu == previous && narrowed == (probe > 0) && result == -1
        invariant used <= probe * DEFAULT_PROBES + retry
        invariant forall k :: 0 <= k < |reports| ==> reports[k] < used
        invariant forall i :: 0 <= i < used ==> !answers(i).replied
        invariant used == Since(reports) + retry
        invariant forall i :: Since(reports) <= i < used ==> !Reports(answers(i), mtu) && !IsFatal(answers(i))
      {
        var answer := answers(used);
        used := used + 1;
        if answer.replied {
          result := if !narrowed && answer.route > 0 then answer.route else mtu;
          break;
        }
        if Reports(answer, mtu) {
          mtu := ToInt(answer.mtu);
          narrowed := true;
          mtus, reports := mtus + [mtu], reports + [used - 1];
          break;
        }
        if IsFatal(answer) { break; }
        retry := retry + 1;
      }
      if mtu == previous { break; }
      probe := probe + 1;
    }
  }
}
