# Klinkby.Calendar slot engine in Dafny

A model of the time-slot placement engine of Klinkby.Calendar, with proofs about it. The engine works on an ascending list of events. Each event is a start and a duration; time is counted in integer ticks.

It has three jobs:

- **Classify** (`ResolvePosition`). One forward pass over the list relates a candidate span to the list:
  - the head neighbour: the event the candidate starts adjacent to, or whose end it overlaps;
  - the run of events the candidate completely covers;
  - the tail neighbour: the event the candidate ends adjacent to, or whose start it overlaps.
- **Plan** (`AddEvent`, `RemoveEvent`). From that position, the planners write new starts and durations into the neighbouring events in place. They return, in order, the Insert, Update and Delete commands the data layer must apply.
- **Validate** (`Validate`). The check reports the first element that is null, has a non-positive duration, or does not start strictly after the previous element ends. The first element is compared against `DateTime.MinValue`.

The `SlotEvents` class wraps a fixed list and offers the same operations.

Layout, one module per file:

- `events.dfy`: the data types. `Event` is a class whose `start` and `duration` the planners overwrite. `Command` and `Verb` are the data commands. `Position` is the classification, with the FIFO queue of covered events as a sequence.
- `event_wrapper.dfy`: `EventWrapper`, an event plus its end time cached at construction, and its seven boundary predicates.
- `resolve_position.dfy`: the specification `PositionOf` and the method `ResolvePosition`.
  - `PositionOf` is built from index functions over a snapshot of the spans: the skipped prefix, the head, the covered run and the tail.
  - `ResolvePosition` has the enumerator's two loops as the methods `SkipPast` and `QueueContained`.
- `validate.dfy`: the looping `Validate`, proved to report the first violation.
- `planning.dfy`: `AddEvent` and `RemoveEvent`.
  - Each first resolves the position, then runs the rest of the source body (`PlanAdd`, `PlanRemove`).
  - Each is specified by the commands it returns and the new field values of the events it writes, stated against the position before the call. No other event of the list changes.
- `position_facts.dfy`, `planning_facts.dfy`: what a position and a plan look like, case by case.
  - On a validated list: the covered events, the head and the tail are distinct objects, and every event that overlaps or touches the candidate is named by the position when the candidate has a positive duration, with one exception.
  - Three places where the classification departs from its documentation.
- `slot_events.dfy`: the `SlotEvents` class. Each operation is proved to do exactly what the list operation does on the wrapped list.
- `scenarios.dfy`: each unit test of the repository, stated as a method on the fixture A..E, with its expected outcome proved as a postcondition, plus examples of the three departures.

The model follows the code where it differs from the documentation comments. `IEventPosition.cs:14-18` says the position's overlap fields mean "overlaps the start (end) but not the end (start)". The code never checks the head neighbour's start (`EnumerableIEventsExtensions.cs:176`), and it classifies a candidate strictly inside an event as overlapping that event's start (`:195`). The model proves these facts as they are:

- `PositionFacts.HeadOverlapIgnoresStart`;
- `PositionFacts.InsideIsTailOverlap`;
- `PositionFacts.InsideEndingTogetherIsMissed`, where a candidate starting inside an event and ending exactly with it gets an empty position.

`EndOverlappedBy` and `CompletelyOverlappedBy` can both hold of the same pair: for a = [5, 6) and b = [4, 8), both do. `EventWrappers.EndOverlapMeetsCompleteOverlap` states exactly when.

## Model

| member | source | states |
|---|---|---|
| EventWrappers.WrapIsCurrent | Klinkby.Calendar/EventWrapper.cs:11-15 | a fresh wrapper's cached end agrees with its event |
| EventWrappers.WayBeforeIffWayAfter | Klinkby.Calendar/EventWrapper.cs:42-50 | a.IsWayBefore(b) holds exactly when b.IsWayAfter(a) holds |
| EventWrappers.StartsAdjacentIffEndsAdjacent | Klinkby.Calendar/EventWrapper.cs:32-40 | a.StartsAdjacentTo(b) holds exactly when b.EndsAdjacentTo(a) holds |
| EventWrappers.CompletelyOverlappedReflexive | Klinkby.Calendar/EventWrapper.cs:27-30 | every wrapper is completely overlapped by itself |
| EventWrappers.EndOverlapMeetsCompleteOverlap | Klinkby.Calendar/EventWrapper.cs:22-30 | for a non-empty a, end overlap and complete overlap by b both hold iff b starts no later than a and ends strictly after it |
| EventWrappers.WayBeforeExcludesOverlap | Klinkby.Calendar/EventWrapper.cs:22-30 | a wrapper way before b is not end-overlapped by b, and if it is non-empty it is not completely overlapped by b either |
| EventWrappers.AdjacencyExcludesOverlap | Klinkby.Calendar/EventWrapper.cs:17-40 | a wrapper ending exactly where b starts is not end-overlapped by b, and one starting exactly where b ends is not start-overlapped by b |
| ResolvePositions.SkipWayBefore | Klinkby.Calendar/EnumerableIEventsExtensions.cs:163-167 | every span the skip passes ends strictly before the candidate starts, and the span it stops at does not |
| ResolvePositions.CoveredRunEnd | Klinkby.Calendar/EnumerableIEventsExtensions.cs:183-188 | every span of the run lies within the candidate, and the span after the run does not |
| ResolvePositions.SkipPast | Klinkby.Calendar/EnumerableIEventsExtensions.cs:163-167 | the do/while skip loop stops exactly where SkipWayBefore says |
| ResolvePositions.QueueContained | Klinkby.Calendar/EnumerableIEventsExtensions.cs:183-188 | the containment loop stops exactly where CoveredRunEnd says, and the queue is the list slice it passed, in order |
| ResolvePositions.ResolvePosition | Klinkby.Calendar/EnumerableIEventsExtensions.cs:145-202 | the position returned is PositionOf(events, evt); no event is written |
| PositionFacts.ValidatedOrdered | Klinkby.Calendar/EnumerableIEventsExtensions.cs:113-136 | the spans of a validated list are non-empty and strictly ascending with gaps |
| PositionFacts.ValidatedDistinct | Klinkby.Calendar/EnumerableIEventsExtensions.cs:113-136 | a validated list holds each event object at most once |
| PositionFacts.PositionShape | Klinkby.Calendar/EnumerableIEventsExtensions.cs:163-198 | at most one of StartsAdjacentTo/OverlapsEndOf and one of EndsAdjacentTo/OverlapsStartOf is set; the covered events are a contiguous slice of the list, each within the candidate; the head is right before the slice and the tail right after it |
| PositionFacts.NamedDistinct | Klinkby.Calendar/EnumerableIEventsExtensions.cs:169-198 | on a validated list, neither the head nor the tail is among the covered events, and the head is not the tail |
| PositionFacts.TouchedIndex | Klinkby.Calendar/EnumerableIEventsExtensions.cs:163-199 | on ordered spans, a span that overlaps or touches the candidate sits at the head index, in the covered run or at the tail index, unless the candidate starts inside it and ends with it |
| PositionFacts.NamesEveryTouch | Klinkby.Calendar/EnumerableIEventsExtensions.cs:163-199 | on a validated list, every event overlapping or touching a non-empty candidate is named by the position, except one the candidate starts inside and ends with; the events skipped at the end are disjoint from the candidate |
| PositionFacts.FirstAt | Klinkby.Calendar/EnumerableIEventsExtensions.cs:163-167 | on ordered spans, the skip stops at the first span not ending before the candidate starts |
| PositionFacts.RunEndAt | Klinkby.Calendar/EnumerableIEventsExtensions.cs:183-188 | the containment loop stops at the first span not within the candidate |
| PositionFacts.HeadOverlapAt | Klinkby.Calendar/EnumerableIEventsExtensions.cs:176-181 | span form of HeadOverlapIgnoresStart |
| PositionFacts.HeadOverlapIgnoresStart | Klinkby.Calendar/EnumerableIEventsExtensions.cs:176-181 | the first event reached is OverlapsEndOf whenever the candidate starts before it ends and ends after it, even when the candidate covers it entirely; it is then not among the covered events |
| PositionFacts.InsideAt | Klinkby.Calendar/EnumerableIEventsExtensions.cs:190-198 | span form of InsideIsTailOverlap |
| PositionFacts.InsideIsTailOverlap | Klinkby.Calendar/EnumerableIEventsExtensions.cs:190-198 | a candidate strictly inside an event of a validated list gets a position whose only field is OverlapsStartOf = that event |
| PositionFacts.InsideEndingTogetherAt | Klinkby.Calendar/EnumerableIEventsExtensions.cs:169-198 | span form of InsideEndingTogetherIsMissed |
| PositionFacts.InsideEndingTogetherIsMissed | Klinkby.Calendar/EnumerableIEventsExtensions.cs:169-198 | a candidate that starts inside an event and ends with it gets the empty position |
| Validation.Validate | Klinkby.Calendar/EnumerableIEventsExtensions.cs:113-136 | the verdict is Valid exactly when no element is violating; otherwise it names the first violating index and its reason (null, non-positive duration, not after the previous end or MinValue) |
| Validation.ReportsUnique | Klinkby.Calendar/EnumerableIEventsExtensions.cs:117-135 | at most one verdict reports a list, so Validate's result is determined |
| Validation.RejectsIff | Klinkby.Calendar/EnumerableIEventsExtensions.cs:117-135 | a list is rejected iff some element is null, has duration at most 0, or starts at or before the previous element's end (MinValue for the first) |
| Validation.ValidatedAscending | Klinkby.Calendar/EnumerableIEventsExtensions.cs:123-128 | in a validated list, each event ends strictly before every later event starts, so neither overlap nor adjacency survives |
| Planning.Deletes | Klinkby.Calendar/EnumerableIEventsExtensions.cs:25-28 | one Delete per covered event, in queue order |
| Planning.DeleteAll | Klinkby.Calendar/EnumerableIEventsExtensions.cs:25-28 | the foreach loop yields exactly Deletes(covered) |
| Planning.NeighboursInList | Klinkby.Calendar/EnumerableIEventsExtensions.cs:169-198 | every neighbour a position names is an event of the list |
| Planning.ClippedDistinct | Klinkby.Calendar/EnumerableIEventsExtensions.cs:87-102 | the two events RemoveEvent clips differ from each other and from the removed span |
| Planning.AddWritesPositive | Klinkby.Calendar/EnumerableIEventsExtensions.cs:33-60 | on a validated list with a positive-duration candidate, each duration AddEvent writes (merge, extend, prepend) is positive |
| Planning.ValidatedPositive | Klinkby.Calendar/EnumerableIEventsExtensions.cs:123-126 | every event of a validated list has a positive duration |
| Planning.PlanAdd | Klinkby.Calendar/EnumerableIEventsExtensions.cs:25-63 | the commands are AddCommands(position): the covered events are deleted, then the candidate merges into head and tail, extends the head, prepends the tail or is inserted. The head keeps its start and ends at the tail's old end (merge) or the candidate's end (extend); the tail starts at the candidate's start and keeps its end (prepend); only that neighbour is written |
| Planning.PlanRemove | Klinkby.Calendar/EnumerableIEventsExtensions.cs:77-103 | the commands are the covered Deletes, then an Update of OverlapsEndOf (start kept, end = span start), then an Update of OverlapsStartOf (start = span end, end kept); adjacency is ignored, nothing is inserted, only those two are written |
| Planning.AddEvent | Klinkby.Calendar/EnumerableIEventsExtensions.cs:19-64 | PlanAdd's effect at the position of evt in the list before the call; no other list event changes; on a validated list with a positive candidate, every list event still has a positive duration |
| Planning.RemoveEvent | Klinkby.Calendar/EnumerableIEventsExtensions.cs:74-104 | PlanRemove's effect at the position of evt in the list before the call; no other list event changes |
| PlanningFacts.BetweenCovered | Klinkby.Calendar/EnumerableIEventsExtensions.cs:183-188 | on ordered spans, the events strictly between the head and the first event reaching past the candidate lie within it |
| PlanningFacts.MergeAt | Klinkby.Calendar/EnumerableIEventsExtensions.cs:163-198 | span form of AddMergesAcross |
| PlanningFacts.AddMergesAcross | Klinkby.Calendar/EnumerableIEventsExtensions.cs:25-40 | a candidate from inside/at the end of event j to inside/at the start of event h: j is the head, h the tail, the events between are covered, and AddEvent deletes them and h, then updates j |
| PlanningFacts.ExtendAt | Klinkby.Calendar/EnumerableIEventsExtensions.cs:163-198 | span form of AddExtendsEnd |
| PlanningFacts.AddExtendsEnd | Klinkby.Calendar/EnumerableIEventsExtensions.cs:25-49 | a candidate from inside/at the end of event j past every later event it reaches: j is the only neighbour, and AddEvent deletes the covered events and updates j |
| PlanningFacts.PrependAt | Klinkby.Calendar/EnumerableIEventsExtensions.cs:163-198 | span form of AddPrependsStart |
| PlanningFacts.AddPrependsStart | Klinkby.Calendar/EnumerableIEventsExtensions.cs:52-60 | a candidate ending at or inside the first event h it reaches: h is the only neighbour, and AddEvent emits one Update of h |
| PlanningFacts.GapAt | Klinkby.Calendar/EnumerableIEventsExtensions.cs:163-198 | span form of AddInsertsInGap |
| PlanningFacts.AddInsertsInGap | Klinkby.Calendar/EnumerableIEventsExtensions.cs:61-63 | a candidate in a gap of a validated list gets the empty position and AddEvent emits only Insert(candidate) |
| PlanningFacts.InsertOnlyAlone | Klinkby.Calendar/EnumerableIEventsExtensions.cs:29-63 | AddEvent's commands contain an Insert iff the position has no head and no tail, and that Insert is of the candidate |
| PlanningFacts.ExactAt | Klinkby.Calendar/EnumerableIEventsExtensions.cs:163-198 | span form of RemoveExactEvent |
| PlanningFacts.RemoveExactEvent | Klinkby.Calendar/EnumerableIEventsExtensions.cs:82-102 | removing a span equal to a list event yields exactly one Delete of that event and writes nothing |
| PlanningFacts.ClipEndAt | Klinkby.Calendar/EnumerableIEventsExtensions.cs:163-198 | span form of RemoveClipsEnd |
| PlanningFacts.RemoveClipsEnd | Klinkby.Calendar/EnumerableIEventsExtensions.cs:87-92 | removing a span that starts inside event j and ends past it, but not past the next start, yields one Update of j, the only event written |
| PlanningFacts.ClipStartAt | Klinkby.Calendar/EnumerableIEventsExtensions.cs:163-198 | span form of RemoveClipsStart |
| PlanningFacts.RemoveClipsStart | Klinkby.Calendar/EnumerableIEventsExtensions.cs:95-102 | removing a span that ends inside event j and starts no earlier than the previous end yields one Update of j, the only event written |
| Slots.SlotEvents.constructor | Klinkby.Calendar/SlotEvents.cs:14-26 | SortedEvents returns the wrapped list unchanged |
| Slots.SlotEvents.ResolveSlotPosition | Klinkby.Calendar/SlotEvents.cs:132-186 | the same position as ResolvePosition(SortedEvents, e) |
| Slots.SlotEvents.AddSlot | Klinkby.Calendar/SlotEvents.cs:28-72 | the same commands and field writes as AddEvent(SortedEvents, e), including positivity on a validated list |
| Slots.SlotEvents.RemoveSlot | Klinkby.Calendar/SlotEvents.cs:74-103 | the same commands and field writes as RemoveEvent(SortedEvents, e) |
| Slots.SlotEvents.Validate | Klinkby.Calendar/SlotEvents.cs:109-130 | the same verdict rules as Validate, applied to the wrapped list |
| Scenarios.CreateEvents | Klinkby.Calendar.Test/AddSlot.cs:13-23 | the fixture A..E of fresh one-hour events |
| Scenarios.FixtureValidated | Klinkby.Calendar.Test/Validate.cs:11-16 | Validate accepts the fixture |
| Scenarios.CoverCPosition | Klinkby.Calendar.Test/AddSlot.cs:33-48 | X from B's end to inside D starts adjacent to B, covers C and overlaps D's start; the commands are Delete C, Delete D, Update B |
| Scenarios.AddOverlapsCompletely | Klinkby.Calendar.Test/AddSlot.cs:25-51 | position (B adjacent, C covered, D start overlapped); commands Delete C, Delete D, Update B; B keeps its start and ends where D ended |
| Scenarios.AddMergeBC | Klinkby.Calendar.Test/AddSlot.cs:53-75 | position (B adjacent, C start overlapped); commands Delete C, Update B; B ends where C ended |
| Scenarios.AddExtendCStartAdjacent | Klinkby.Calendar.Test/AddSlot.cs:77-97 | position (ends adjacent to C); one Update of C, which starts at X's start and keeps its end |
| Scenarios.AddExtendBEnd | Klinkby.Calendar.Test/AddSlot.cs:99-119 | position (B end overlapped); one Update of B, which keeps its start and ends at X's end |
| Scenarios.AddNew | Klinkby.Calendar.Test/AddSlot.cs:121-139 | empty position; one Insert of X |
| Scenarios.RemoveWholeEvent | Klinkby.Calendar.Test/RemoveSlot.cs:12-22 | removing E yields one Delete of E |
| Scenarios.RemoveOverlapsEndOf | Klinkby.Calendar.Test/RemoveSlot.cs:24-35 | one Update of A, which now ends at the removed span's start |
| Scenarios.RemoveOverlapsStartOf | Klinkby.Calendar.Test/RemoveSlot.cs:37-50 | one Update of B, which now starts at the removed span's end and keeps its end |
| Scenarios.ValidateAllOk | Klinkby.Calendar.Test/Validate.cs:11-16 | the fixture is Valid |
| Scenarios.ValidateOutOfOrder | Klinkby.Calendar.Test/Validate.cs:18-30 | index 2 is rejected as not after the previous end |
| Scenarios.ValidateAdjacent | Klinkby.Calendar.Test/Validate.cs:32-44 | index 1 is rejected as not after the previous end |
| Scenarios.ValidateNull | Klinkby.Calendar.Test/Validate.cs:46-58 | index 1 is rejected as null |
| Scenarios.AddCoveringFirstKeepsItsStart | Klinkby.Calendar/EnumerableIEventsExtensions.cs:43-49 | adding a span that covers A entirely updates A with its old start kept, so the part before A is lost |
| Scenarios.RemoveCoveringFirstLeavesEmpty | Klinkby.Calendar/EnumerableIEventsExtensions.cs:87-92 | removing a span that covers A entirely clips A to duration 0 instead of deleting it |
| Scenarios.AddInsideMovesStart | Klinkby.Calendar/EnumerableIEventsExtensions.cs:52-60 | adding a span strictly inside B moves B's start up to the span's start |
| Scenarios.RemoveInsideCutsFront | Klinkby.Calendar/EnumerableIEventsExtensions.cs:95-102 | removing a span strictly inside B also removes the part of B before the span |
| Scenarios.AddInsideEndingTogetherInserts | Klinkby.Calendar/EnumerableIEventsExtensions.cs:61-63 | adding a span inside B that ends with B inserts it, overlapping B |
| Scenarios.RemoveInsideEndingTogetherDoesNothing | Klinkby.Calendar/EnumerableIEventsExtensions.cs:74-104 | removing a span inside B that ends with B produces no command |

## Left out

- Null arguments and `ArgumentNullException` (`EnumerableIEventsExtensions.cs:148-149`, `SlotEvents.cs:16`). Dafny sequences and `Event` references are never null. Null elements are modelled only for `Validate`, which takes a `seq<Event?>`. The resolver and planners take lists without nulls; on a null element the source fails with a NullReferenceException, which is not modelled.
- Lazy `yield return`. Commands are returned as a whole sequence, so the field writes done before an early stop of the enumeration are not modelled. The order of writes and commands is kept.
- `DateTime` and `TimeSpan` range. Times are unbounded integer ticks and `DateTime.MinValue` is 0, so the overflow exceptions of `DateTime + TimeSpan` do not occur.
- `Debug.Assert` after each write. It is not a check in the model. `Planning.AddWritesPositive` states when the asserted positivity holds; `Scenarios.RemoveCoveringFirstLeavesEmpty` shows a case where it does not.
- The text of the `InvalidOperationException` messages. The verdict keeps the index and the kind of violation.
- A general "the union of spans is preserved" theorem. It is false in the three documented departures, so the model states the plan case by case instead (the `PlanningFacts` lemmas).
- Slots.SlotEvents.AddSlot, RemoveSlot, ResolveSlotPosition and Validate are proved equal to the extension methods by calling them, not by repeating the identical body. `SlotPosition`/`ISlotPosition` are the same `Position` type.
- `AdminBookingRepository.cs` and `BookingRepository.cs`. These are database queries, object mapping, locking and time-zone conversion; they are not part of this model. `AssemblyInfo.cs` and the test mocks are left out as well; the tests appear as `Scenarios`.
