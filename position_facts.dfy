/** What the position reported by ResolvePosition guarantees: the shape of the
    classification on any list, and, on a list Validate accepts, that the named
    events are distinct and that every event the candidate touches is named,
    apart from one case the resolver misses. */
module PositionFacts {
  import opened Options
  import opened Events
  import opened EventPositions
  import opened ResolvePositions
  import opened Validation

  /** Spans that are non-empty, strictly ascending and separated by gaps. */
  ghost predicate Ordered(spans: seq<Span>)
  {
    && (forall i :: 0 <= i < |spans| ==> spans[i].start < spans[i].end)
    && (forall i, j :: 0 <= i < j < |spans| ==> spans[i].end < spans[j].start)
  }

  /** The spans of a validated list are ordered. */
  lemma ValidatedOrdered(events: seq<Event>)
    requires Validated(events)
    ensures Ordered(Spans(events))
  {
    var spans := Spans(events);
    forall i | 0 <= i < |spans| ensures spans[i].start < spans[i].end {
      assert ViolationAt(events, i) == None;
    }
    forall i, j | 0 <= i < j < |spans| ensures spans[i].end < spans[j].start {
      ValidatedAscending(events, i, j);
    }
  }

  /** A validated list holds each event object once. */
  lemma ValidatedDistinct(events: seq<Event>, i: nat, j: nat)
    requires Validated(events)
    requires i < |events| && j < |events| && i != j
    ensures events[i] != events[j]
  {
    assert ViolationAt(events, i) == None;
    if i < j {
      ValidatedAscending(events, i, j);
    } else {
      ValidatedAscending(events, j, i);
    }
  }

  /** The classification on any list: at most one head neighbour and at most one
      tail neighbour; the covered events form a contiguous run of the list, in list
      order, each lying within the candidate; the head comes right before the run
      and the tail right after it. */
  lemma PositionShape(events: seq<Event>, evt: Event)
    ensures var pos := PositionOf(events, evt);
      && !(pos.startsAdjacentTo.Some? && pos.overlapsEndOf.Some?)
      && !(pos.endsAdjacentTo.Some? && pos.overlapsStartOf.Some?)
      && (forall e :: e in pos.overlapsCompletely ==> evt.start <= e.start && e.End() <= evt.End())
      && exists lo: nat, hi: nat :: lo <= hi <= |events| && pos.overlapsCompletely == events[lo..hi]
           && (pos.ExtendEnd().Some? ==> 0 < lo && pos.ExtendEnd().value == events[lo - 1])
           && (pos.PrependStart().Some? ==> hi < |events| && pos.PrependStart().value == events[hi])
  {
    var spans, y := Spans(events), SpanOf(evt);
    var pos := PositionOf(events, evt);
    var lo, hi := RunStart(spans, y), RunEnd(spans, y);
    forall e | e in pos.overlapsCompletely ensures evt.start <= e.start && e.End() <= evt.End() {
      var i :| lo <= i < hi && events[i] == e;
    }
    assert pos.overlapsCompletely == events[lo..hi];
  }

  /** On a validated list the covered events, the head and the tail are distinct
      objects, so the planners never delete an event they also update. */
  lemma NamedDistinct(events: seq<Event>, evt: Event)
    requires Validated(events)
    ensures var pos := PositionOf(events, evt);
      && (pos.ExtendEnd().Some? ==> pos.ExtendEnd().value !in pos.overlapsCompletely)
      && (pos.PrependStart().Some? ==> pos.PrependStart().value !in pos.overlapsCompletely)
      && (pos.ExtendEnd().Some? && pos.PrependStart().Some? ==>
            pos.ExtendEnd().value != pos.PrependStart().value)
  {
    var spans, y := Spans(events), SpanOf(evt);
    var pos := PositionOf(events, evt);
    var k, lo, hi := First(spans, y), RunStart(spans, y), RunEnd(spans, y);
    if pos.ExtendEnd().Some? {
      forall i | lo <= i < hi ensures events[i] != events[k] {
        ValidatedDistinct(events, i, k);
      }
    }
    if pos.PrependStart().Some? {
      forall i | lo <= i < hi ensures events[i] != events[hi] {
        ValidatedDistinct(events, i, hi);
      }
      if pos.ExtendEnd().Some? {
        ValidatedDistinct(events, k, hi);
      }
    }
  }

  /** Index form of NamesEveryTouch: on ordered spans, a span that overlaps or
      touches y is the head, lies in the covered run, or is the tail, unless y
      starts inside it and ends exactly where it ends. */
  lemma TouchedIndex(spans: seq<Span>, y: Span, j: nat)
    requires Ordered(spans)
    requires y.start < y.end
    requires j < |spans|
    requires spans[j].start <= y.end && y.start <= spans[j].end
    requires !(spans[j].start < y.start && spans[j].end == y.end)
    ensures var k, lo, hi := First(spans, y), RunStart(spans, y), RunEnd(spans, y);
      || (j == k && lo == k + 1)
      || (lo <= j < hi)
      || (j == hi && (EndsAdjacentAtRunEnd(spans, y) || OverlapsStartAtRunEnd(spans, y)))
  {
    var k, lo, hi := First(spans, y), RunStart(spans, y), RunEnd(spans, y);
    if j == hi && j > k {
      assert spans[k].end < spans[j].start;
    }
  }

  /** On a validated list, every event whose span overlaps or touches the candidate
      is named by the position (head, covered or tail), except an event the
      candidate starts inside and ends exactly with: the resolver skips the rest of
      the list safely. */
  lemma NamesEveryTouch(events: seq<Event>, evt: Event, j: nat)
    requires Validated(events)
    requires evt.duration > 0
    requires j < |events|
    requires events[j].start <= evt.End() && evt.start <= events[j].End()
    requires !(events[j].start < evt.start && events[j].End() == evt.End())
    ensures var pos := PositionOf(events, evt);
      || pos.startsAdjacentTo == Some(events[j])
      || pos.overlapsEndOf == Some(events[j])
      || events[j] in pos.overlapsCompletely
      || pos.endsAdjacentTo == Some(events[j])
      || pos.overlapsStartOf == Some(events[j])
  {
    var spans, y := Spans(events), SpanOf(evt);
    ValidatedOrdered(events);
    TouchedIndex(spans, y, j);
    var lo, hi := RunStart(spans, y), RunEnd(spans, y);
    if lo <= j < hi {
      assert events[lo..hi][j - lo] == events[j];
    }
  }

  /** On ordered spans, the resolver's skip stops at j when the span before j ends
      before y starts and span j does not. */
  lemma FirstAt(spans: seq<Span>, y: Span, j: nat)
    requires Ordered(spans)
    requires j <= |spans|
    requires j == 0 || spans[j - 1].end < y.start
    requires j == |spans| || y.start <= spans[j].end
    ensures First(spans, y) == j
  {
    forall i | 0 <= i < j ensures spans[i].end < y.start {
      if i < j - 1 {
        assert spans[i].end < spans[j - 1].start;
      }
    }
  }

  /** The covered run starting at `from` stops at m when every span in between lies
      within y and span m, if any, does not. */
  lemma RunEndAt(spans: seq<Span>, y: Span, from: nat, m: nat)
    requires from <= m <= |spans|
    requires forall i :: from <= i < m ==> y.start <= spans[i].start && spans[i].end <= y.end
    requires m == |spans| || !(y.start <= spans[m].start && spans[m].end <= y.end)
    ensures CoveredRunEnd(spans, y, from) == m
  {
  }

  /** Span form of HeadOverlapIgnoresStart. */
  lemma HeadOverlapAt(events: seq<Event>, spans: seq<Span>, y: Span, j: nat)
    requires |spans| == |events| && Ordered(spans)
    requires j < |spans|
    requires j == 0 || spans[j - 1].end < y.start
    requires y.start < spans[j].end < y.end
    ensures PositionAt(events, spans, y).overlapsEndOf == Some(events[j])
    ensures RunStart(spans, y) == j + 1
  {
    FirstAt(spans, y, j);
  }

  /** The head check never looks at the start of the first event reached: when the
      candidate starts before that event ends and ends after it, the event is the
      head (OverlapsEndOf) even if the candidate starts at or before it and so
      covers it completely. AddEvent then keeps the event's start, and RemoveEvent
      gives it the duration evt.start - start, which is not positive in that case. */
  lemma HeadOverlapIgnoresStart(events: seq<Event>, evt: Event, j: nat)
    requires Validated(events)
    requires j < |events|
    requires j == 0 || events[j - 1].End() < evt.start
    requires evt.start < events[j].End() < evt.End()
    ensures var pos := PositionOf(events, evt);
      && pos.overlapsEndOf == Some(events[j])
      && events[j] !in pos.overlapsCompletely
  {
    var spans, y := Spans(events), SpanOf(evt);
    ValidatedOrdered(events);
    HeadOverlapAt(events, spans, y, j);
    var covered := PositionOf(events, evt).overlapsCompletely;
    assert covered == events[j + 1..RunEnd(spans, y)];
    forall i | 0 <= i < |covered| ensures covered[i] != events[j] {
      ValidatedDistinct(events, j + 1 + i, j);
    }
  }

  /** Span form of InsideIsTailOverlap. */
  lemma InsideAt(events: seq<Event>, spans: seq<Span>, y: Span, j: nat)
    requires |spans| == |events| && Ordered(spans)
    requires j < |spans|
    requires j == 0 || spans[j - 1].end < y.start
    requires spans[j].start < y.start < y.end < spans[j].end
    ensures PositionAt(events, spans, y) == Position(None, None, Some(events[j]), None, [])
  {
    FirstAt(spans, y, j);
    RunEndAt(spans, y, j, j);
  }

  /** A candidate strictly inside an event is classified as overlapping that event's
      start (the tail), so AddEvent moves the event's start up to the candidate's
      start and RemoveEvent cuts away everything before the candidate's end. */
  lemma InsideIsTailOverlap(events: seq<Event>, evt: Event, j: nat)
    requires Validated(events)
    requires evt.duration > 0
    requires j < |events|
    requires events[j].start < evt.start && evt.End() < events[j].End()
    ensures PositionOf(events, evt) == Position(None, None, Some(events[j]), None, [])
  {
    ValidatedOrdered(events);
    if j > 0 {
      assert Spans(events)[j - 1].end < Spans(events)[j].start;
    }
    InsideAt(events, Spans(events), SpanOf(evt), j);
  }

  /** Span form of InsideEndingTogetherIsMissed. */
  lemma InsideEndingTogetherAt(events: seq<Event>, spans: seq<Span>, y: Span, j: nat)
    requires |spans| == |events| && Ordered(spans)
    requires j < |spans|
    requires j == 0 || spans[j - 1].end < y.start
    requires spans[j].start < y.start < y.end == spans[j].end
    ensures PositionAt(events, spans, y) == EmptyPosition
  {
    FirstAt(spans, y, j);
    RunEndAt(spans, y, j, j);
  }

  /** The case NamesEveryTouch excludes does happen: a candidate that starts inside
      an event and ends with it gets an empty position, so AddEvent inserts it over
      the event and RemoveEvent emits nothing. */
  lemma InsideEndingTogetherIsMissed(events: seq<Event>, evt: Event, j: nat)
    requires Validated(events)
    requires evt.duration > 0
    requires j < |events|
    requires events[j].start < evt.start && evt.End() == events[j].End()
    ensures PositionOf(events, evt) == EmptyPosition
  {
    ValidatedOrdered(events);
    if j > 0 {
      assert Spans(events)[j - 1].end < Spans(events)[j].start;
    }
    InsideEndingTogetherAt(events, Spans(events), SpanOf(evt), j);
  }
}
