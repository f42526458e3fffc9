/** The command plans AddEvent and RemoveEvent produce on a validated list, case
    by case: where the candidate lies decides the head and tail neighbours and the
    covered run, and from those the commands follow. */
module PlanningFacts {
  import opened Options
  import opened Events
  import opened DataCommands
  import opened EventPositions
  import opened ResolvePositions
  import opened Validation
  import opened PositionFacts
  import opened Planning

  /** Events strictly between two events of an ordered list lie within a candidate
      that reaches from the first one's end to the second one's start. */
  lemma BetweenCovered(spans: seq<Span>, y: Span, j: nat, h: nat)
    requires Ordered(spans)
    requires j < h <= |spans|
    requires y.start <= spans[j].end
    requires spans[h - 1].end <= y.end || (h < |spans| && spans[h].start <= y.end)
    ensures forall i :: j < i < h ==> y.start <= spans[i].start && spans[i].end <= y.end
  {
    forall i | j < i < h ensures y.start <= spans[i].start && spans[i].end <= y.end {
      assert spans[j].end < spans[i].start;
      if h < |spans| {
        assert spans[i].end < spans[h].start;
      }
      if i < h - 1 {
        assert spans[i].end < spans[h - 1].start;
      }
    }
  }

  /** Span form of AddMergesAcross. */
  lemma MergeAt(events: seq<Event>, spans: seq<Span>, y: Span, j: nat, h: nat)
    requires |spans| == |events| && Ordered(spans)
    requires j < h < |spans|
    requires j == 0 || spans[j - 1].end < y.start
    requires y.start <= spans[j].end < y.end
    requires spans[h].start <= y.end < spans[h].end
    ensures var pos := PositionAt(events, spans, y);
      && pos.startsAdjacentTo == (if spans[j].end == y.start then Some(events[j]) else None)
      && pos.overlapsEndOf == (if spans[j].end == y.start then None else Some(events[j]))
      && pos.endsAdjacentTo == (if y.end == spans[h].start then Some(events[h]) else None)
      && pos.overlapsStartOf == (if y.end == spans[h].start then None else Some(events[h]))
      && pos.overlapsCompletely == events[j + 1..h]
  {
    FirstAt(spans, y, j);
    BetweenCovered(spans, y, j, h);
    RunEndAt(spans, y, j + 1, h);
  }

  /** Add, merge case (tests MergeBC and OverlapsCompletely): the candidate starts
      at or inside event j, the first one it reaches, and ends at or inside a later
      event h. Event j is the head, h the tail, the events between are covered:
      they and h are deleted and j is updated (AddEffect: its end becomes h's end). */
  lemma AddMergesAcross(events: seq<Event>, evt: Event, j: nat, h: nat)
    requires Validated(events)
    requires j < h < |events|
    requires j == 0 || events[j - 1].End() < evt.start
    requires evt.start <= events[j].End() < evt.End()
    requires events[h].start <= evt.End() < events[h].End()
    ensures var pos := PositionOf(events, evt);
      && pos.startsAdjacentTo == (if events[j].End() == evt.start then Some(events[j]) else None)
      && pos.overlapsEndOf == (if events[j].End() == evt.start then None else Some(events[j]))
      && pos.endsAdjacentTo == (if evt.End() == events[h].start then Some(events[h]) else None)
      && pos.overlapsStartOf == (if evt.End() == events[h].start then None else Some(events[h]))
      && pos.overlapsCompletely == events[j + 1..h]
      && AddCommands(pos, evt) == Deletes(events[j + 1..h]) + [Command(events[h], Delete), Command(events[j], Update)]
  {
    ValidatedOrdered(events);
    MergeAt(events, Spans(events), SpanOf(evt), j, h);
  }

  /** Span form of AddExtendsEnd. */
  lemma ExtendAt(events: seq<Event>, spans: seq<Span>, y: Span, j: nat, h: nat)
    requires |spans| == |events| && Ordered(spans)
    requires j < h <= |spans|
    requires j == 0 || spans[j - 1].end < y.start
    requires y.start <= spans[j].end < y.end
    requires spans[h - 1].end <= y.end
    requires h == |spans| || y.end < spans[h].start
    ensures var pos := PositionAt(events, spans, y);
      && pos.startsAdjacentTo == (if spans[j].end == y.start then Some(events[j]) else None)
      && pos.overlapsEndOf == (if spans[j].end == y.start then None else Some(events[j]))
      && pos.endsAdjacentTo == None && pos.overlapsStartOf == None
      && pos.overlapsCompletely == events[j + 1..h]
  {
    FirstAt(spans, y, j);
    BetweenCovered(spans, y, j, h);
    RunEndAt(spans, y, j + 1, h);
  }

  /** Add, extend case (test ExtendBEnd): the candidate starts at or inside event j,
      ends after it, and every later event it reaches lies within it. Event j is
      the head, there is no tail: the covered events are deleted and j is updated
      (AddEffect: its end becomes the candidate's end). */
  lemma AddExtendsEnd(events: seq<Event>, evt: Event, j: nat, h: nat)
    requires Validated(events)
    requires j < h <= |events|
    requires j == 0 || events[j - 1].End() < evt.start
    requires evt.start <= events[j].End() < evt.End()
    requires events[h - 1].End() <= evt.End()
    requires h == |events| || evt.End() < events[h].start
    ensures var pos := PositionOf(events, evt);
      && pos.startsAdjacentTo == (if events[j].End() == evt.start then Some(events[j]) else None)
      && pos.overlapsEndOf == (if events[j].End() == evt.start then None else Some(events[j]))
      && pos.endsAdjacentTo == None && pos.overlapsStartOf == None
      && pos.overlapsCompletely == events[j + 1..h]
      && AddCommands(pos, evt) == Deletes(events[j + 1..h]) + [Command(events[j], Update)]
  {
    ValidatedOrdered(events);
    ExtendAt(events, Spans(events), SpanOf(evt), j, h);
  }

  /** Span form of AddPrependsStart. */
  lemma PrependAt(events: seq<Event>, spans: seq<Span>, y: Span, h: nat)
    requires |spans| == |events| && Ordered(spans)
    requires y.start < y.end
    requires h < |spans|
    requires h == 0 || spans[h - 1].end < y.start
    requires spans[h].start <= y.end < spans[h].end
    ensures var pos := PositionAt(events, spans, y);
      && pos.startsAdjacentTo == None && pos.overlapsEndOf == None
      && pos.endsAdjacentTo == (if y.end == spans[h].start then Some(events[h]) else None)
      && pos.overlapsStartOf == (if y.end == spans[h].start then None else Some(events[h]))
      && pos.overlapsCompletely == []
  {
    FirstAt(spans, y, h);
    RunEndAt(spans, y, h, h);
  }

  /** Add, prepend case (test ExtendCStartAdjacent): the first event the candidate
      reaches is event h, and the candidate ends at or inside it without reaching
      its end. Event h is the tail and there is no head: h is updated (AddEffect:
      its start becomes the candidate's start). */
  lemma AddPrependsStart(events: seq<Event>, evt: Event, h: nat)
    requires Validated(events)
    requires evt.duration > 0
    requires h < |events|
    requires h == 0 || events[h - 1].End() < evt.start
    requires events[h].start <= evt.End() < events[h].End()
    ensures var pos := PositionOf(events, evt);
      && pos.startsAdjacentTo == None && pos.overlapsEndOf == None
      && pos.endsAdjacentTo == (if evt.End() == events[h].start then Some(events[h]) else None)
      && pos.overlapsStartOf == (if evt.End() == events[h].start then None else Some(events[h]))
      && pos.overlapsCompletely == []
      && AddCommands(pos, evt) == [Command(events[h], Update)]
  {
    ValidatedOrdered(events);
    PrependAt(events, Spans(events), SpanOf(evt), h);
  }

  /** Span form of AddInsertsInGap. */
  lemma GapAt(events: seq<Event>, spans: seq<Span>, y: Span, j: nat)
    requires |spans| == |events| && Ordered(spans)
    requires y.start < y.end
    requires j <= |spans|
    requires j == 0 || spans[j - 1].end < y.start
    requires j == |spans| || y.end < spans[j].start
    ensures PositionAt(events, spans, y) == EmptyPosition
  {
    FirstAt(spans, y, j);
    RunEndAt(spans, y, j, j);
  }

  /** Add, insert case (test AddNew): the candidate lies in a gap of the list,
      touching no event. The position is empty and the candidate is inserted. */
  lemma AddInsertsInGap(events: seq<Event>, evt: Event, j: nat)
    requires Validated(events)
    requires evt.duration > 0
    requires j <= |events|
    requires j == 0 || events[j - 1].End() < evt.start
    requires j == |events| || evt.End() < events[j].start
    ensures PositionOf(events, evt) == EmptyPosition
    ensures AddCommands(PositionOf(events, evt), evt) == [Command(evt, Insert)]
  {
    ValidatedOrdered(events);
    GapAt(events, Spans(events), SpanOf(evt), j);
  }

  /** AddEvent inserts the candidate exactly when the position names no head and no
      tail neighbour; otherwise it only updates and deletes. */
  lemma InsertOnlyAlone(pos: Position, evt: Event)
    ensures (exists c :: c in AddCommands(pos, evt) && c.verb == Insert) <==>
              pos.ExtendEnd() == None && pos.PrependStart() == None
    ensures forall c :: c in AddCommands(pos, evt) && c.verb == Insert ==> c.event == evt
  {
    var deletes := Deletes(pos.overlapsCompletely);
    forall c | c in deletes ensures c.verb == Delete {
      var i :| 0 <= i < |deletes| && deletes[i] == c;
    }
    if pos.ExtendEnd() == None && pos.PrependStart() == None {
      assert AddCommands(pos, evt)[|deletes|] == Command(evt, Insert);
    }
  }

  /** Span form of RemoveExactEvent. */
  lemma ExactAt(events: seq<Event>, spans: seq<Span>, y: Span, j: nat)
    requires |spans| == |events| && Ordered(spans)
    requires j < |spans| && y == spans[j]
    ensures PositionAt(events, spans, y) == Position(None, None, None, None, [events[j]])
  {
    FirstAt(spans, y, j);
    RunEndAt(spans, y, j, j + 1);
    assert events[j..j + 1] == [events[j]];
  }

  /** Remove, exact case (test OverlapsCompletely of RemoveSlot): removing a span
      equal to event j of the list deletes exactly that event and writes nothing. */
  lemma RemoveExactEvent(events: seq<Event>, evt: Event, j: nat)
    requires Validated(events)
    requires j < |events|
    requires evt.start == events[j].start && evt.End() == events[j].End()
    ensures var pos := PositionOf(events, evt);
      && RemoveCommands(pos) == [Command(events[j], Delete)]
      && RemoveWritten(pos) == {}
  {
    ValidatedOrdered(events);
    ExactAt(events, Spans(events), SpanOf(evt), j);
  }

  /** Span form of RemoveClipsEnd. */
  lemma ClipEndAt(events: seq<Event>, spans: seq<Span>, y: Span, j: nat)
    requires |spans| == |events| && Ordered(spans)
    requires j < |spans|
    requires spans[j].start < y.start < spans[j].end < y.end
    requires j + 1 == |spans| || y.end <= spans[j + 1].start
    ensures var pos := PositionAt(events, spans, y);
      && pos.overlapsEndOf == Some(events[j])
      && pos.overlapsStartOf == None
      && pos.overlapsCompletely == []
  {
    if j > 0 {
      assert spans[j - 1].end < spans[j].start;
    }
    FirstAt(spans, y, j);
    RunEndAt(spans, y, j + 1, j + 1);
  }

  /** Remove, clip-end case (test OverlapsEndOf of RemoveSlot): the span starts
      inside event j and ends after it, at or before the next event's start. Event
      j alone is updated (RemoveEffect: its start is kept and its end becomes the
      span's start). */
  lemma RemoveClipsEnd(events: seq<Event>, evt: Event, j: nat)
    requires Validated(events)
    requires j < |events|
    requires events[j].start < evt.start < events[j].End() < evt.End()
    requires j + 1 == |events| || evt.End() <= events[j + 1].start
    ensures var pos := PositionOf(events, evt);
      && pos.overlapsEndOf == Some(events[j])
      && RemoveCommands(pos) == [Command(events[j], Update)]
      && RemoveWritten(pos) == {events[j]}
  {
    ValidatedOrdered(events);
    ClipEndAt(events, Spans(events), SpanOf(evt), j);
  }

  /** Span form of RemoveClipsStart. */
  lemma ClipStartAt(events: seq<Event>, spans: seq<Span>, y: Span, j: nat)
    requires |spans| == |events| && Ordered(spans)
    requires y.start < y.end
    requires j < |spans|
    requires j == 0 || spans[j - 1].end <= y.start
    requires spans[j].start < y.end < spans[j].end
    ensures var pos := PositionAt(events, spans, y);
      && pos.overlapsEndOf == None
      && pos.overlapsStartOf == Some(events[j])
      && pos.overlapsCompletely == []
  {
    if j > 0 && spans[j - 1].end == y.start {
      FirstAt(spans, y, j - 1);
    } else {
      FirstAt(spans, y, j);
    }
    RunEndAt(spans, y, j, j);
  }

  /** Remove, clip-start case (test OverlapsStartOf of RemoveSlot): the span starts
      at or after the end of event j - 1 and ends inside event j. Event j alone is
      updated (RemoveEffect: its start becomes the span's end and its end is kept;
      since the span ends before event j does, by the requires, RemoveEvent
      leaves it a positive duration). */
  lemma RemoveClipsStart(events: seq<Event>, evt: Event, j: nat)
    requires Validated(events)
    requires evt.duration > 0
    requires j < |events|
    requires j == 0 || events[j - 1].End() <= evt.start
    requires events[j].start < evt.End() < events[j].End()
    ensures var pos := PositionOf(events, evt);
      && pos.overlapsStartOf == Some(events[j])
      && RemoveCommands(pos) == [Command(events[j], Update)]
      && RemoveWritten(pos) == {events[j]}
  {
    ValidatedOrdered(events);
    ClipStartAt(events, Spans(events), SpanOf(evt), j);
  }
}
