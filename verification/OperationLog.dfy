/**
 The record of what happens to asynchronous operations, common to both proactor backends
 (core/include/join/io_operation.hpp, core/include/join/proactor.hpp): an operation is accepted
 and later ended by one call of its completion or cancellation handler.
 */
module OperationLog {

  datatype Status = Idle | Submitted | Cancelling

  /** `Finished` is the dispatch of an operation: `onCancel` if `cancelled`, else `onComplete`. */
  datatype Entry = Accepted(op: nat) | Finished(op: nat, cancelled: bool, result: int)

  /** Accepted and not finished since. */
  predicate Open(log: seq<Entry>, op: nat)
    decreases |log|
  {
    log != [] &&
    var last := log[|log| - 1];
    if last.op == op then last.Accepted? else Open(log[..|log| - 1], op)
  }

  /** What may come next: the acceptance of an operation that is not open, or the end of one that is. */
  predicate Follows(log: seq<Entry>, e: Entry) {
    match e
    case Accepted(op) => !Open(log, op)
    case Finished(op, cancelled, result) => Open(log, op) && (cancelled ==> result < 0)
  }

  /** Acceptances and endings of each operation alternate, and only a negative result is
      reported as a cancellation. */
  predicate LogOk(log: seq<Entry>) {
    forall i :: 0 <= i < |log| ==> Follows(log[..i], log[i])
  }

  lemma {:induction false} LogGrows(log: seq<Entry>, e: Entry)
    requires LogOk(log) && Follows(log, e)
    ensures LogOk(log + [e])
    ensures forall i :: Open(log + [e], i) <==> if e.op == i then e.Accepted? else Open(log, i)
  {
    var longer := log + [e];
    assert longer[..|log|] == log;
    forall i | 0 <= i < |log| ensures longer[..i] == log[..i] {}
  }

  /** Entry `j` ends the operation accepted at `i`, and nothing in between concerns it. */
  predicate EndsAt(log: seq<Entry>, i: nat, j: nat) {
    i < j < |log| && log[i].Accepted? && log[j].Finished? && log[j].op == log[i].op
    && forall k :: i < k < j ==> log[k].op != log[i].op
  }

  lemma {:induction false} AcceptedThenEnded(log: seq<Entry>, i: nat)
    requires LogOk(log) && i < |log| && log[i].Accepted? && !Open(log, log[i].op)
    ensures exists j :: i < j < |log| && EndsAt(log, i, j)
  {
    if k :| i < k < |log| && log[k].op == log[i].op {
      FirstAfter(log, i, k);
    } else {
      assert log[..|log|] == log;
      StaysOpen(log, i, |log|);
    }
  }

  /** The first entry about an operation after its acceptance ends it. */
  lemma {:induction false} FirstAfter(log: seq<Entry>, i: nat, k: nat)
    requires LogOk(log) && i < k < |log| && log[i].Accepted? && log[k].op == log[i].op
    ensures exists j :: i < j < |log| && EndsAt(log, i, j)
    decreases k
  {
    if l :| i < l < k && log[l].op == log[i].op {
      FirstAfter(log, i, l);
    } else {
      StaysOpen(log, i, k);
      assert EndsAt(log, i, k);
    }
  }

  lemma {:induction false} StaysOpen(log: seq<Entry>, i: nat, k: nat)
    requires i < k <= |log| && log[i].Accepted?
    requires forall l :: i < l < k ==> log[l].op != log[i].op
    ensures Open(log[..k], log[i].op)
    decreases k
  {
    assert log[..k][..k - 1] == log[..k - 1];
    if k > i + 1 { StaysOpen(log, i, k - 1); }
  }

  /** The last entry about `op` is its acceptance, at `j`. */
  predicate LastAccepted(log: seq<Entry>, op: nat, j: nat) {
    j < |log| && log[j] == Accepted(op) && forall k :: j < k < |log| ==> log[k].op != op
  }

  lemma {:induction false} OpenIsAccepted(log: seq<Entry>, op: nat) returns (j: nat)
    requires Open(log, op)
    ensures LastAccepted(log, op, j)
    decreases |log|
  {
    var n := |log| - 1;
    if log[n].op == op {
      j := n;
    } else {
      j := OpenIsAccepted(log[..n], op);
      assert forall k :: j < k < n ==> log[k] == log[..n][k];
    }
  }

  lemma {:induction false} AcceptedIsOpen(log: seq<Entry>, longer: seq<Entry>, op: nat, j: nat)
    requires log <= longer && j < |log| && LastAccepted(longer, op, j)
    ensures Open(log, op)
  {
    assert log[..|log|] == log;
    assert forall k :: j <= k < |log| ==> log[k] == longer[k];
    StaysOpen(log, j, |log|);
  }
}
