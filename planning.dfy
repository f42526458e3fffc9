/** The command planners (EnumerableIEventsExtensions.AddEvent / RemoveEvent): from
    the position of a candidate they write new starts and durations into the
    neighbouring events and return, in order, the commands the data layer must
    apply. The lazily yielded sequence of the source is returned whole. */
module Planning {
  import opened Options
  import opened Events
  import opened DataCommands
  import opened EventPositions
  import opened EventWrappers
  import opened ResolvePositions
  import opened Validation

  /** One Delete per event, in order. */
  function Deletes(events: seq<Event>): (cmds: seq<Command>)
    ensures |cmds| == |events|
    ensures forall i :: 0 <= i < |events| ==> cmds[i] == Command(events[i], Delete)
  {
    if events == [] then [] else Deletes(events[..|events| - 1]) + [Command(events[|events| - 1], Delete)]
  }

  /** The commands AddEvent yields for a position: the covered events are deleted,
      then the candidate merges two neighbours, extends the head, prepends the tail,
      or is inserted. */
  function AddCommands(pos: Position, evt: Event): seq<Command>
  {
    Deletes(pos.overlapsCompletely) +
    match (pos.ExtendEnd(), pos.PrependStart())
    case (Some(head), Some(tail)) => [Command(tail, Delete), Command(head, Update)]
    case (Some(head), None) => [Command(head, Update)]
    case (None, Some(tail)) => [Command(tail, Update)]
    case (None, None) => [Command(evt, Insert)]
  }

  /** The commands RemoveEvent yields for a position: the covered events are
      deleted, then the event whose end is overlapped and the event whose start is
      overlapped are updated. */
  function RemoveCommands(pos: Position): seq<Command>
  {
    Deletes(pos.overlapsCompletely)
    + (if pos.overlapsEndOf.Some? then [Command(pos.overlapsEndOf.value, Update)] else [])
    + (if pos.overlapsStartOf.Some? then [Command(pos.overlapsStartOf.value, Update)] else [])
  }

  /** The event AddEvent rewrites for a position: the head neighbour when there is
      one, else the tail neighbour, else none. */
  function AddWritten(pos: Position): set<Event>
  {
    if pos.ExtendEnd().Some? then {pos.ExtendEnd().value}
    else if pos.PrependStart().Some? then {pos.PrependStart().value}
    else {}
  }

  /** The events RemoveEvent rewrites for a position: the two it clips. */
  function RemoveWritten(pos: Position): set<Event>
  {
    (if pos.overlapsEndOf.Some? then {pos.overlapsEndOf.value} else {})
    + (if pos.overlapsStartOf.Some? then {pos.overlapsStartOf.value} else {})
  }

  /** No event of the list outside `written` has a new start or duration. */
  twostate predicate Keeps(events: seq<Event>, written: set<Event>)
    reads events
  {
    forall e :: e in events && e !in written ==> e.start == old(e.start) && e.duration == old(e.duration)
  }

  /** What AddEvent does once the position `pos` is known: the commands of
      AddCommands, and the rewrite of one neighbour.
      - merge: the head keeps its start and now ends where the tail ended;
      - extend: the head keeps its start and now ends where the candidate ends;
      - prepend: the tail now starts where the candidate starts and keeps its end;
      - insert: nothing is rewritten. */
  twostate predicate AddEffect(pos: Position, evt: Event, new cmds: seq<Command>)
    reads AddWritten(pos), evt
  {
    && cmds == AddCommands(pos, evt)
    && match (pos.ExtendEnd(), pos.PrependStart())
       case (Some(head), Some(tail)) =>
         head.start == old(head.start) && head.End() == old(tail.End())
       case (Some(head), None) =>
         head.start == old(head.start) && head.End() == old(evt.End())
       case (None, Some(tail)) =>
         tail.start == old(evt.start) && tail.End() == old(tail.End())
       case (None, None) =>
         true
  }

  /** What RemoveEvent does once the position `pos` is known: the commands of
      RemoveCommands; the event whose end is overlapped keeps its start and now
      ends where the candidate starts; the event whose start is overlapped now
      starts where the candidate ends and keeps its end. */
  twostate predicate RemoveEffect(pos: Position, evt: Event, new cmds: seq<Command>)
    reads RemoveWritten(pos), evt
  {
    && cmds == RemoveCommands(pos)
    && (pos.overlapsEndOf.Some? ==>
          var head := pos.overlapsEndOf.value;
          head.start == old(head.start) && head.End() == old(evt.start))
    && (pos.overlapsStartOf.Some? ==>
          var tail := pos.overlapsStartOf.value;
          tail.start == old(evt.End()) && tail.End() == old(tail.End()))
  }

  /** The neighbours a position names are events of the list. */
  lemma NeighboursInList(events: seq<Event>, evt: Event)
    ensures var pos := PositionOf(events, evt);
      && (pos.startsAdjacentTo.Some? ==> pos.startsAdjacentTo.value in events)
      && (pos.overlapsEndOf.Some? ==> pos.overlapsEndOf.value in events)
      && (pos.endsAdjacentTo.Some? ==> pos.endsAdjacentTo.value in events)
      && (pos.overlapsStartOf.Some? ==> pos.overlapsStartOf.value in events)
  {
  }

  /** The two events RemoveEvent clips are different objects and neither is the
      candidate, so each write reads only values from before the call. */
  lemma ClippedDistinct(events: seq<Event>, evt: Event)
    ensures var pos := PositionOf(events, evt);
      && (pos.overlapsEndOf.Some? ==> pos.overlapsEndOf.value != evt)
      && (pos.overlapsStartOf.Some? ==> pos.overlapsStartOf.value != evt)
      && (pos.overlapsEndOf.Some? && pos.overlapsStartOf.Some? ==>
            pos.overlapsEndOf.value != pos.overlapsStartOf.value)
  {
  }

  /** Every duration AddEvent writes is positive when the list is validated and
      the candidate's duration is positive. */
  lemma AddWritesPositive(events: seq<Event>, evt: Event)
    requires Validated(events)
    requires evt.duration > 0
    ensures var pos := PositionOf(events, evt);
      match (pos.ExtendEnd(), pos.PrependStart())
      case (Some(head), Some(tail)) => tail.End() - head.start > 0
      case (Some(head), None) => evt.End() - head.start > 0
      case (None, Some(tail)) => tail.End() - evt.start > 0
      case (None, None) => true
  {
    var spans, y := Spans(events), SpanOf(evt);
    var k, m := First(spans, y), RunEnd(spans, y);
    var pos := PositionOf(events, evt);
    if pos.ExtendEnd().Some? {
      assert ViolationAt(events, k) == None;
      if pos.PrependStart().Some? {
        ValidatedAscending(events, k, m);
        assert ViolationAt(events, m) == None;
      }
    } else if pos.PrependStart().Some? {
      assert ViolationAt(events, m) == None;
    }
  }

  /** Every event of a validated list has a positive duration. */
  lemma ValidatedPositive(events: seq<Event>)
    requires Validated(events)
    ensures forall e :: e in events ==> e.duration > 0
  {
    forall e | e in events ensures e.duration > 0 {
      var i :| 0 <= i < |events| && events[i] == e;
      assert ViolationAt(events, i) == None;
    }
  }

  /** The foreach loop that yields a Delete for each completely overlapped event. */
  method DeleteAll(covered: seq<Event>) returns (cmds: seq<Command>)
    ensures cmds == Deletes(covered)
  {
    cmds := [];
    for i := 0 to |covered|
      invariant cmds == Deletes(covered[..i])
    {
      cmds := cmds + [Command(covered[i], Delete)];
      assert covered[..i + 1][..i] == covered[..i];
    }
    assert covered[..|covered|] == covered;
  }

  /** The body of AddEvent after the position is resolved: delete the covered
      events, then merge the candidate into its head and/or tail neighbour, or
      insert it when it has neither. */
  method PlanAdd(position: Position, evt: Event) returns (cmds: seq<Command>)
    modifies AddWritten(position)
    ensures AddEffect(position, evt, cmds)
  {
    cmds := DeleteAll(position.overlapsCompletely);
    var extendEnd := position.ExtendEnd();
    var prependStart := position.PrependStart();
    // the candidate fills the space between two events
    if extendEnd.Some? && prependStart.Some? {
      var head, tail := extendEnd.value, prependStart.value;
      head.duration := (tail.start + tail.duration) - head.start;
      cmds := cmds + [Command(tail, Delete), Command(head, Update)];
      return;
    }
    // the candidate extends the end of a preceding event
    if extendEnd.Some? {
      var head := extendEnd.value;
      head.duration := (evt.start + evt.duration) - head.start;
      cmds := cmds + [Command(head, Update)];
      return;
    }
    // the candidate prepends the start of a following event
    if prependStart.Some? {
      var tail := prependStart.value;
      tail.duration := (tail.start + tail.duration) - evt.start;
      tail.start := evt.start;
      cmds := cmds + [Command(tail, Update)];
      return;
    }
    // completely new territory
    cmds := cmds + [Command(evt, Insert)];
  }

  /** The body of RemoveEvent after the position is resolved: delete the covered
      events, cut back the event whose end the span overlaps and cut forward the
      event whose start it overlaps. Adjacent events are left alone. */
  method PlanRemove(position: Position, evt: Event) returns (cmds: seq<Command>)
    requires position.overlapsEndOf.Some? ==> position.overlapsEndOf.value != evt
    requires position.overlapsStartOf.Some? ==> position.overlapsStartOf.value != evt
    requires position.overlapsEndOf.Some? && position.overlapsStartOf.Some? ==>
               position.overlapsEndOf.value != position.overlapsStartOf.value
    modifies RemoveWritten(position)
    ensures RemoveEffect(position, evt, cmds)
  {
    var overlapsEndOf := position.overlapsEndOf;
    var overlapsStartOf := position.overlapsStartOf;
    cmds := DeleteAll(position.overlapsCompletely);
    // the span overlaps the end of a preceding event
    if overlapsEndOf.Some? {
      var head := overlapsEndOf.value;
      head.duration := evt.start - head.start;
      cmds := cmds + [Command(head, Update)];
    }
    // the span overlaps the start of a following event
    if overlapsStartOf.Some? {
      var tail := overlapsStartOf.value;
      tail.duration := (tail.start + tail.duration) - (evt.start + evt.duration);
      tail.start := evt.start + evt.duration;
      cmds := cmds + [Command(tail, Update)];
      return;
    }
  }

  /** Plan the insertion of evt into an ascending list (AddEvent). */
  method AddEvent(events: seq<Event>, evt: Event) returns (cmds: seq<Command>)
    modifies events
    ensures AddEffect(old(PositionOf(events, evt)), evt, cmds)
    ensures Keeps(events, AddWritten(old(PositionOf(events, evt))))
    ensures old(Validated(events)) && old(evt.duration) > 0 ==> forall e :: e in events ==> e.duration > 0
  {
    var position := ResolvePosition(events, evt);
    NeighboursInList(events, evt);
    if Validated(events) && evt.duration > 0 {
      AddWritesPositive(events, evt);
      ValidatedPositive(events);
    }
    cmds := PlanAdd(position, evt);
  }

  /** Plan the removal of the span of evt from an ascending list (RemoveEvent). */
  method RemoveEvent(events: seq<Event>, evt: Event) returns (cmds: seq<Command>)
    modifies events
    ensures RemoveEffect(old(PositionOf(events, evt)), evt, cmds)
    ensures Keeps(events, RemoveWritten(old(PositionOf(events, evt))))
  {
    var position := ResolvePosition(events, evt);
    NeighboursInList(events, evt);
    ClippedDistinct(events, evt);
    cmds := PlanRemove(position, evt);
  }
}
