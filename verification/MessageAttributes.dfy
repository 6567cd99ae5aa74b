/**
 What the attributes of a kernel message give, when each kind may come any number of times
 (the loops over attributes in fabric/src/route_manager.cpp, fabric/src/neighbor_manager.cpp and
 fabric/src/interface_manager.cpp): stated by which attributes there are, not by a fold.
 */
module MessageAttributes {
  import opened Wrappers

  /** Of the attributes that give a value, the last one counts; without one it is as before. */
  predicate LastCounts<A, V(==)>(attributes: seq<A>, given: A -> Option<V>, before: V, v: V) {
    || (v == before && forall k :: 0 <= k < |attributes| ==> given(attributes[k]).None?)
    || exists i :: 0 <= i < |attributes| && given(attributes[i]) == Some(v)
                   && forall k :: i < k < |attributes| ==> given(attributes[k]).None?
  }

  lemma NoneGiven<A, V>(given: A -> Option<V>, before: V)
    ensures LastCounts([], given, before, before)
  {}

  lemma OneMoreGiven<A, V>(attributes: seq<A>, a: A, given: A -> Option<V>, before: V, v: V)
    requires LastCounts(attributes, given, before, v)
    ensures LastCounts(attributes + [a], given, before, if given(a).Some? then given(a).value else v)
  {
    var more := attributes + [a];
    assert more[|attributes|] == a;
    if given(a).None? && !(v == before && forall k :: 0 <= k < |attributes| ==> given(attributes[k]).None?) {
      var i :| 0 <= i < |attributes| && given(attributes[i]) == Some(v)
               && forall k :: i < k < |attributes| ==> given(attributes[k]).None?;
      assert given(more[i]) == Some(v);
    }
  }

  /** So the attributes determine the value. */
  lemma GivenIsOne<A, V>(attributes: seq<A>, given: A -> Option<V>, before: V, v: V, w: V)
    requires LastCounts(attributes, given, before, v) && LastCounts(attributes, given, before, w)
    ensures v == w
  {}

  /** Some attribute gives a value other than the one before it. */
  predicate EverChanges<A, V(==)>(attributes: seq<A>, given: A -> Option<V>, before: V) {
    exists i :: 0 <= i < |attributes| && ChangesAt(attributes, given, before, i)
  }

  predicate ChangesAt<A, V(==)>(attributes: seq<A>, given: A -> Option<V>, before: V, i: nat)
    requires i < |attributes|
  {
    given(attributes[i]).Some? && !LastCounts(attributes[..i], given, before, given(attributes[i]).value)
  }

  lemma OneMoreChange<A, V>(attributes: seq<A>, a: A, given: A -> Option<V>, before: V, v: V)
    requires LastCounts(attributes, given, before, v)
    ensures EverChanges(attributes + [a], given, before)
            <==> EverChanges(attributes, given, before) || (given(a).Some? && given(a).value != v)
  {
    hide LastCounts;
    var more := attributes + [a];
    assert more[..|attributes|] == attributes && more[|attributes|] == a;
    assert forall i :: 0 <= i < |attributes| ==> more[..i] == attributes[..i];
    if given(a).Some? {
      if LastCounts(attributes, given, before, given(a).value) { GivenIsOne(attributes, given, before, v, given(a).value); }
      if given(a).value != v { assert ChangesAt(more, given, before, |attributes|); }
    }
    if EverChanges(attributes, given, before) {
      var i :| 0 <= i < |attributes| && ChangesAt(attributes, given, before, i);
      assert ChangesAt(more, given, before, i);
    }
    if EverChanges(more, given, before) {
      var i :| 0 <= i < |more| && ChangesAt(more, given, before, i);
      assert i < |attributes| ==> ChangesAt(attributes, given, before, i);
    }
  }
}
