/** Classification of a candidate event against an ascending list of events
    (EnumerableIEventsExtensions.ResolvePosition). The specification works on a
    snapshot of the spans (start, end) and walks it by indices: the skipped prefix,
    the head neighbour, the run of completely overlapped events and the tail
    neighbour. The method is the enumerator loop over wrapped events. */
module ResolvePositions {
  import opened Options
  import opened Events
  import opened EventPositions
  import opened EventWrappers

  /** The instants an event occupies, [start, end). */
  datatype Span = Span(start: int, end: int)

  function SpanOf(e: Event): Span
    reads e
  {
    Span(e.start, e.End())
  }

  /** The spans of a list of events, read in the current state. */
  function Spans(events: seq<Event>): (spans: seq<Span>)
    reads events
    ensures |spans| == |events|
    ensures forall i :: 0 <= i < |events| ==> spans[i] == SpanOf(events[i])
  {
    seq(|events|, i reads events requires 0 <= i < |events| => SpanOf(events[i]))
  }

  /** Index of the first span at or after `from` that does not end before y
      starts: every span skipped ends strictly before y starts. */
  function SkipWayBefore(spans: seq<Span>, y: Span, from: nat): (k: nat)
    requires from <= |spans|
    ensures from <= k <= |spans|
    ensures forall i :: from <= i < k ==> spans[i].end < y.start
    ensures k < |spans| ==> y.start <= spans[k].end
    decreases |spans| - from
  {
    if from == |spans| || !(spans[from].end < y.start) then from
    else SkipWayBefore(spans, y, from + 1)
  }

  /** End of the run, starting at `from`, of spans that lie within y. */
  function CoveredRunEnd(spans: seq<Span>, y: Span, from: nat): (m: nat)
    requires from <= |spans|
    ensures from <= m <= |spans|
    ensures forall i :: from <= i < m ==> y.start <= spans[i].start && spans[i].end <= y.end
    ensures m < |spans| ==> !(y.start <= spans[m].start && spans[m].end <= y.end)
    decreases |spans| - from
  {
    if from == |spans| || !(y.start <= spans[from].start && spans[from].end <= y.end) then from
    else CoveredRunEnd(spans, y, from + 1)
  }

  /** Index of the first span reached after skipping the past ones. */
  function First(spans: seq<Span>, y: Span): nat
  {
    SkipWayBefore(spans, y, 0)
  }

  /** y starts exactly when the first reached span ends (head adjacency). */
  predicate StartsAdjacentAtFirst(spans: seq<Span>, y: Span)
  {
    var k := First(spans, y);
    k < |spans| && spans[k].end == y.start
  }

  /** Otherwise, y starts before and ends after the end of the first reached span
      (head overlap). The start of that span is not compared. */
  predicate OverlapsEndAtFirst(spans: seq<Span>, y: Span)
  {
    var k := First(spans, y);
    k < |spans| && !StartsAdjacentAtFirst(spans, y) && y.start < spans[k].end && y.end > spans[k].end
  }

  /** Index where the run of covered spans starts: past the head neighbour. */
  function RunStart(spans: seq<Span>, y: Span): nat
  {
    var k := First(spans, y);
    if StartsAdjacentAtFirst(spans, y) || OverlapsEndAtFirst(spans, y) then k + 1 else k
  }

  /** Index of the first span after the run: the one the tail checks look at. */
  function RunEnd(spans: seq<Span>, y: Span): nat
  {
    CoveredRunEnd(spans, y, RunStart(spans, y))
  }

  /** y ends exactly when the span after the run starts (tail adjacency). */
  predicate EndsAdjacentAtRunEnd(spans: seq<Span>, y: Span)
  {
    var m := RunEnd(spans, y);
    m < |spans| && y.end == spans[m].start
  }

  /** Otherwise, y's end lies strictly inside the span after the run (tail overlap). */
  predicate OverlapsStartAtRunEnd(spans: seq<Span>, y: Span)
  {
    var m := RunEnd(spans, y);
    m < |spans| && !EndsAdjacentAtRunEnd(spans, y) && spans[m].start < y.end && spans[m].end > y.end
  }

  /** The position ResolvePosition reports, picking the events at those indices. */
  function PositionAt(events: seq<Event>, spans: seq<Span>, y: Span): Position
    requires |spans| == |events|
  {
    var k := First(spans, y);
    var m := RunEnd(spans, y);
    Position(
      if StartsAdjacentAtFirst(spans, y) then Some(events[k]) else None,
      if EndsAdjacentAtRunEnd(spans, y) then Some(events[m]) else None,
      if OverlapsStartAtRunEnd(spans, y) then Some(events[m]) else None,
      if OverlapsEndAtFirst(spans, y) then Some(events[k]) else None,
      events[RunStart(spans, y)..m])
  }

  /** The position of evt within events, in the current state. */
  function PositionOf(events: seq<Event>, evt: Event): Position
    reads events, evt
  {
    PositionAt(events, Spans(events), SpanOf(evt))
  }

  lemma SliceGrows<T>(s: seq<T>, lo: nat, hi: nat)
    requires lo < hi <= |s|
    ensures s[lo..hi] == s[lo..hi - 1] + [s[hi - 1]]
  {
  }

  /** The do/while loop that skips the events way before the candidate: moves the
      enumerator from `from` to the first event the candidate does not lie after,
      or to the end of the list. */
  method SkipPast(events: seq<Event>, newItem: EventWrapper, from: nat) returns (next: nat)
    requires from <= |events|
    requires Current(newItem)
    ensures next == SkipWayBefore(Spans(events), SpanOf(newItem.event), from)
  {
    ghost var spans, y := Spans(events), SpanOf(newItem.event);
    next := from;
    while next < |events|
      invariant from <= next <= |events|
      invariant SkipWayBefore(spans, y, next) == SkipWayBefore(spans, y, from)
      decreases |events| - next
    {
      var listItem := Wrap(events[next]);
      if !listItem.IsWayBefore(newItem) { return; }
      next := next + 1;
    }
  }

  /** The while loop that queues the events the candidate completely overlaps,
      starting at `from`: stops at the first event that is not contained, or at
      the end of the list. */
  method QueueContained(events: seq<Event>, newItem: EventWrapper, from: nat)
    returns (queue: seq<Event>, next: nat)
    requires from <= |events|
    requires Current(newItem)
    ensures next == CoveredRunEnd(Spans(events), SpanOf(newItem.event), from)
    ensures queue == events[from..next]
  {
    ghost var spans, y := Spans(events), SpanOf(newItem.event);
    queue, next := [], from;
    while next < |events|
      invariant from <= next <= |events|
      invariant CoveredRunEnd(spans, y, next) == CoveredRunEnd(spans, y, from)
      invariant queue == events[from..next]
      decreases |events| - next
    {
      var listItem := Wrap(events[next]);
      if !listItem.CompletelyOverlappedBy(newItem) { return; }
      queue := queue + [listItem.event];
      next := next + 1;
      SliceGrows(events, from, next);
    }
  }

  /** One forward pass over the list: skip the events way before the candidate,
      look at the first event reached for a head neighbour, queue the events the
      candidate covers, then look at the next event for a tail neighbour. No event
      is written. */
  method ResolvePosition(events: seq<Event>, evt: Event) returns (pos: Position)
    ensures pos == PositionOf(events, evt)
  {
    ghost var spans, y := Spans(events), SpanOf(evt);
    var newItem := Wrap(evt);
    pos := EmptyPosition;
    // skip preceding past events
    var next := SkipPast(events, newItem, 0);
    if next == |events| { return; }
    var listItem := Wrap(events[next]);
    // does the candidate start adjacent to, or overlap the end of, this event
    if newItem.StartsAdjacentTo(listItem) {
      pos := pos.(startsAdjacentTo := Some(listItem.event));
      next := next + 1;
    } else if listItem.EndOverlappedBy(newItem) {
      pos := pos.(overlapsEndOf := Some(listItem.event));
      next := next + 1;
    }
    assert next == RunStart(spans, y);
    // queue the following events the candidate contains
    var queue;
    queue, next := QueueContained(events, newItem, next);
    pos := pos.(overlapsCompletely := queue);
    if next == |events| { return; }
    listItem := Wrap(events[next]);
    // does the candidate end adjacent to, or overlap the start of, this event
    if newItem.EndsAdjacentTo(listItem) {
      pos := pos.(endsAdjacentTo := Some(listItem.event));
    } else if newItem.EndOverlappedBy(listItem) {
      pos := pos.(overlapsStartOf := Some(listItem.event));
    }
  }
}
