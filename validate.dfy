/** The sanity check on an ascending list of events (EnumerableIEventsExtensions.Validate):
    no null element, only positive durations, and every event starting strictly
    after the previous one ends, the first being compared against DateTime.MinValue.
    The exceptions the check throws are a result value here. */
module Validation {
  import opened Options
  import opened Events

  /** Why an element was rejected; each is an InvalidOperationException message. */
  datatype Violation =
    | NullEvent            // "Event index i is null"
    | NonPositiveDuration  // "... ends in the past"
    | NotAfterPreviousEnd  // "... starts at ... before or when previous event ends at ..."

  /** The outcome of Validate: it returns, or it throws on the first bad index. */
  datatype Verdict = Valid | Invalid(index: nat, violation: Violation)

  /** The end of the element before index i, or DateTime.MinValue for the first. */
  function PreviousEnd(events: seq<Event?>, i: nat): int
    requires i <= |events|
    reads events
  {
    if i == 0 || events[i - 1] == null then MinValue else events[i - 1].End()
  }

  /** What, if anything, is wrong with element i. */
  function ViolationAt(events: seq<Event?>, i: nat): Option<Violation>
    requires i < |events|
    reads events
  {
    if events[i] == null then Some(NullEvent)
    else if events[i].duration <= 0 then Some(NonPositiveDuration)
    else if events[i].start <= PreviousEnd(events, i) then Some(NotAfterPreviousEnd)
    else None
  }

  /** A list that Validate accepts. */
  ghost predicate Validated(events: seq<Event?>)
    reads events
  {
    forall i :: 0 <= i < |events| ==> ViolationAt(events, i) == None
  }

  /** The verdict reports the first violation, or Valid when there is none. */
  ghost predicate Reports(events: seq<Event?>, verdict: Verdict)
    reads events
  {
    match verdict
    case Valid => Validated(events)
    case Invalid(index, violation) =>
      && index < |events|
      && ViolationAt(events, index) == Some(violation)
      && forall i :: 0 <= i < index ==> ViolationAt(events, i) == None
  }

  /** Scan the list once, tracking the end of the last accepted event. */
  method Validate(events: seq<Event?>) returns (verdict: Verdict)
    ensures Reports(events, verdict)
  {
    var lastEnd := MinValue;
    var i := 0;
    while i < |events|
      invariant 0 <= i <= |events|
      invariant forall j :: 0 <= j < i ==> ViolationAt(events, j) == None
      invariant lastEnd == PreviousEnd(events, i)
    {
      var item := events[i];
      if item == null {
        return Invalid(i, NullEvent);
      }
      if 0 >= item.duration {
        return Invalid(i, NonPositiveDuration);
      }
      if item.start <= lastEnd {
        return Invalid(i, NotAfterPreviousEnd);
      }
      i := i + 1;
      lastEnd := item.start + item.duration;
    }
    return Valid;
  }

  /** At most one verdict reports a list: the first violation is unique. */
  lemma ReportsUnique(events: seq<Event?>, v1: Verdict, v2: Verdict)
    requires Reports(events, v1) && Reports(events, v2)
    ensures v1 == v2
  {
  }

  /** Validate fails exactly when some element is null, has a non-positive duration,
      or starts at or before the end of the previous element (or at MinValue). */
  lemma {:induction false} RejectsIff(events: seq<Event?>)
    ensures !Validated(events) <==>
      exists i :: 0 <= i < |events| &&
        (events[i] == null || events[i].duration <= 0 || events[i].start <= PreviousEnd(events, i))
  {
    if !Validated(events) {
      var i :| 0 <= i < |events| && ViolationAt(events, i) != None;
      assert events[i] == null || events[i].duration <= 0 || events[i].start <= PreviousEnd(events, i);
    } else {
      forall i | 0 <= i < |events|
        ensures !(events[i] == null || events[i].duration <= 0 || events[i].start <= PreviousEnd(events, i))
      {
        assert ViolationAt(events, i) == None;
      }
    }
  }

  /** In a validated list every event ends strictly before any later one starts:
      neither overlaps nor exact adjacency survive validation. */
  lemma {:induction false} ValidatedAscending(events: seq<Event?>, i: nat, j: nat)
    requires Validated(events)
    requires i < j < |events|
    ensures events[i] != null && events[j] != null
    ensures events[i].End() < events[j].start
    decreases j - i
  {
    assert ViolationAt(events, i) == None;
    assert ViolationAt(events, j) == None;
    assert ViolationAt(events, j - 1) == None;
    if j > i + 1 {
      ValidatedAscending(events, i, j - 1);
    }
  }
}
