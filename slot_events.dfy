/** The SlotEvents class: a fixed ascending list of events with the same
    resolve, add, remove and validate operations as the list extensions, each
    stated as doing exactly what the list operation does on the wrapped list. */
module Slots {
  import opened Events
  import opened DataCommands
  import opened EventPositions
  import opened ResolvePositions
  import opened Validation
  import opened Planning

  class SlotEvents {
    /** The wrapped list; the reference never changes after construction. */
    const sortedEvents: seq<Event>

    /** Wraps the list as given. The null check of the source has no counterpart:
        a Dafny sequence is never null. */
    constructor (sortedEvents: seq<Event>)
      ensures SortedEvents() == sortedEvents
    {
      this.sortedEvents := sortedEvents;
    }

    /** The wrapped list, unchanged. */
    function SortedEvents(): seq<Event>
    {
      sortedEvents
    }

    /** The classification of newEvent against the wrapped list. */
    method ResolveSlotPosition(newEvent: Event) returns (pos: Position)
      ensures pos == PositionOf(SortedEvents(), newEvent)
    {
      pos := ResolvePosition(SortedEvents(), newEvent);
    }

    /** AddEvent on the wrapped list: the same commands and the same field writes. */
    method AddSlot(evt: Event) returns (cmds: seq<Command>)
      modifies sortedEvents
      ensures AddEffect(old(PositionOf(sortedEvents, evt)), evt, cmds)
      ensures Keeps(sortedEvents, AddWritten(old(PositionOf(sortedEvents, evt))))
      ensures old(Validated(sortedEvents)) && old(evt.duration) > 0 ==>
                forall e :: e in sortedEvents ==> e.duration > 0
    {
      cmds := AddEvent(sortedEvents, evt);
    }

    /** RemoveEvent on the wrapped list: the same commands and the same field writes. */
    method RemoveSlot(evt: Event) returns (cmds: seq<Command>)
      modifies sortedEvents
      ensures RemoveEffect(old(PositionOf(sortedEvents, evt)), evt, cmds)
      ensures Keeps(sortedEvents, RemoveWritten(old(PositionOf(sortedEvents, evt))))
    {
      cmds := RemoveEvent(sortedEvents, evt);
    }

    /** Validate on the wrapped list. */
    method Validate() returns (verdict: Verdict)
      ensures Reports(sortedEvents, verdict)
    {
      verdict := Validation.Validate(sortedEvents);
    }
  }
}
