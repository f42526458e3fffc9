/** Basic value and reference types of the slot engine: optional values, the event
    itself (IEvent), the commands handed back to the data layer (DataCommand,
    DataCommandVerb) and the classification of a candidate (IEventPosition). */

module Options {
  /** Stands for a reference that may be null. */
  datatype Option<+T> = None | Some(value: T)
}

module Events {
  /** DateTime.MinValue in ticks: no instant lies before it. */
  const MinValue: int := 0

  /** An event that has a duration (IEvent). Start and duration are ticks; the
      planners overwrite both fields on existing events, so an event is an object. */
  class Event {
    var start: int
    var duration: int

    constructor (start: int, duration: int)
      ensures this.start == start && this.duration == duration
    {
      this.start := start;
      this.duration := duration;
    }

    /** The instant the event ends, start + duration. */
    function End(): int
      reads this
    {
      start + duration
    }
  }
}

module DataCommands {
  import opened Events

  /** What the data layer must do with an event (DataCommandVerb). */
  datatype Verb = Insert | Update | Delete

  /** A change to one event in the data layer (DataCommand). For an Update the
      planner has already written the new start and duration into the event. */
  datatype Command = Command(event: Event, verb: Verb)
}

module EventPositions {
  import opened Options
  import opened Events

  /** How a candidate event is positioned within a list of existing events
      (IEventPosition / EventPosition). The queue of completely overlapped events
      is a sequence in enqueue order. */
  datatype Position = Position(
    startsAdjacentTo: Option<Event>,   // the candidate starts exactly when this one ends
    endsAdjacentTo: Option<Event>,     // the candidate ends exactly when this one starts
    overlapsStartOf: Option<Event>,    // the candidate overlaps this one's start
    overlapsEndOf: Option<Event>,      // the candidate overlaps this one's end
    overlapsCompletely: seq<Event>)    // events the candidate completely overlaps
  {
    /** The preceding neighbour that absorbs the candidate's head:
        StartsAdjacentTo ?? OverlapsEndOf. */
    function ExtendEnd(): Option<Event> {
      if startsAdjacentTo.Some? then startsAdjacentTo else overlapsEndOf
    }

    /** The following neighbour that absorbs the candidate's tail:
        EndsAdjacentTo ?? OverlapsStartOf. */
    function PrependStart(): Option<Event> {
      if endsAdjacentTo.Some? then endsAdjacentTo else overlapsStartOf
    }
  }

  /** A freshly constructed EventPosition: no neighbours, an empty queue. */
  const EmptyPosition: Position := Position(None, None, None, None, [])
}
