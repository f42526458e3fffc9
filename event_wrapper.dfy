/** EventWrapper: an event together with its end time, computed once when the
    wrapper is built, and the comparisons the resolver makes between two wrappers.
    As in the struct, the start is read from the wrapped event while the end is
    the cached value. */
module EventWrappers {
  import opened Events

  datatype EventWrapper = EventWrapper(event: Event, endTime: int) {

    /** b starts before this one and ends after this one starts. */
    predicate StartOverlappedBy(b: EventWrapper)
      reads event, b.event
    {
      b.event.start < event.start && b.endTime > event.start
    }

    /** b starts before this one ends and ends after it. */
    predicate EndOverlappedBy(b: EventWrapper)
      reads b.event
    {
      b.event.start < endTime && b.endTime > endTime
    }

    /** This one lies within b (bounds included). */
    predicate CompletelyOverlappedBy(b: EventWrapper)
      reads event, b.event
    {
      event.start >= b.event.start && endTime <= b.endTime
    }

    /** This one starts exactly when b ends. */
    predicate StartsAdjacentTo(b: EventWrapper)
      reads event
    {
      b.endTime == event.start
    }

    /** This one ends exactly when b starts. */
    predicate EndsAdjacentTo(b: EventWrapper)
      reads b.event
    {
      endTime == b.event.start
    }

    /** This one ends strictly before b starts. */
    predicate IsWayBefore(b: EventWrapper)
      reads b.event
    {
      endTime < b.event.start
    }

    /** This one starts strictly after b ends. */
    predicate IsWayAfter(b: EventWrapper)
      reads event
    {
      event.start > b.endTime
    }
  }

  /** new EventWrapper(e): the cached end is the event's end at construction time. */
  function Wrap(e: Event): EventWrapper
    reads e
  {
    EventWrapper(e, e.start + e.duration)
  }

  /** A wrapper whose cached end still agrees with its event. */
  ghost predicate Current(w: EventWrapper)
    reads w.event
  {
    w.endTime == w.event.End()
  }

  lemma WrapIsCurrent(e: Event)
    ensures Current(Wrap(e))
  {
  }

  lemma WayBeforeIffWayAfter(a: EventWrapper, b: EventWrapper)
    ensures a.IsWayBefore(b) <==> b.IsWayAfter(a)
  {
  }

  lemma StartsAdjacentIffEndsAdjacent(a: EventWrapper, b: EventWrapper)
    ensures a.StartsAdjacentTo(b) <==> b.EndsAdjacentTo(a)
  {
  }

  lemma CompletelyOverlappedReflexive(a: EventWrapper)
    ensures a.CompletelyOverlappedBy(a)
  {
  }

  /** End overlap and complete overlap are not exclusive: both hold exactly when b
      starts no later than a and ends strictly after it. */
  lemma EndOverlapMeetsCompleteOverlap(a: EventWrapper, b: EventWrapper)
    requires a.endTime > a.event.start
    ensures a.EndOverlappedBy(b) && a.CompletelyOverlappedBy(b)
        <==> b.event.start <= a.event.start && a.endTime < b.endTime
  {
  }

  lemma WayBeforeExcludesOverlap(a: EventWrapper, b: EventWrapper)
    ensures a.IsWayBefore(b) ==> !a.EndOverlappedBy(b)
    ensures a.IsWayBefore(b) && a.endTime > a.event.start ==> !a.CompletelyOverlappedBy(b)
  {
  }

  lemma AdjacencyExcludesOverlap(a: EventWrapper, b: EventWrapper)
    ensures a.EndsAdjacentTo(b) ==> !a.EndOverlappedBy(b)
    ensures a.StartsAdjacentTo(b) ==> !a.StartOverlappedBy(b)
  {
  }
}
