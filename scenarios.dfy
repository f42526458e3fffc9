/** The unit-test scenarios of the repository, stated on the model, plus examples
    of the cases where the resolver's classification differs from its documented
    intent. Times are minutes on the model's clock; the fixture day starts at
    minute 1000, so that the first event starts after MinValue. The fixture is
    A 00:00-01:00, B 01:30-02:30, C 03:00-04:00, D 05:00-06:00, E 07:00-08:00. */
module Scenarios {
  import opened Options
  import opened Events
  import opened DataCommands
  import opened EventPositions
  import opened ResolvePositions
  import opened Validation
  import opened PositionFacts
  import opened Planning
  import opened PlanningFacts
  import opened Slots

  /** The fixture A..E: each event lasts an hour. */
  ghost predicate Fixture(events: seq<Event>)
    reads events
  {
    && |events| == 5
    && events[0].start == 1000 && events[1].start == 1090 && events[2].start == 1180
    && events[3].start == 1300 && events[4].start == 1420
    && forall i :: 0 <= i < 5 ==> events[i].duration == 60
  }

  /** The fixture list (CreateEvents of the tests), made of fresh events. */
  method CreateEvents() returns (events: seq<Event>)
    ensures Fixture(events)
    ensures forall i :: 0 <= i < |events| ==> fresh(events[i])
  {
    var a := new Event(1000, 60);
    var b := new Event(1090, 60);
    var c := new Event(1180, 60);
    var d := new Event(1300, 60);
    var e := new Event(1420, 60);
    events := [a, b, c, d, e];
  }

  /** Validate accepts the fixture. */
  lemma FixtureValidated(events: seq<Event>)
    requires Fixture(events)
    ensures Validated(events)
  {
    assert ViolationAt(events, 0) == None;
    assert ViolationAt(events, 1) == None;
    assert ViolationAt(events, 2) == None;
    assert ViolationAt(events, 3) == None;
    assert ViolationAt(events, 4) == None;
  }

  /** The position of X 02:30-05:30 in the fixture, and the commands adding it. */
  lemma CoverCPosition(events: seq<Event>, x: Event)
    requires Fixture(events)
    requires x.start == 1150 && x.duration == 180
    ensures PositionOf(events, x) == Position(Some(events[1]), None, Some(events[3]), None, [events[2]])
    ensures AddCommands(PositionOf(events, x), x) ==
              [Command(events[2], Delete), Command(events[3], Delete), Command(events[1], Update)]
  {
    FixtureValidated(events);
    AddMergesAcross(events, x, 1, 3);
    assert events[2..3] == [events[2]];
    assert Deletes([events[2]]) == [Command(events[2], Delete)];
  }

  /** Test OverlapsCompletely of AddSlot: X 02:30-05:30 starts where B ends, covers
      C and overlaps the start of D. C and D are deleted and B now ends where D
      ended. */
  method AddOverlapsCompletely() returns (pos: Position, cmds: seq<Command>, b: Event, c: Event, d: Event)
    ensures pos == Position(Some(b), None, Some(d), None, [c])
    ensures cmds == [Command(c, Delete), Command(d, Delete), Command(b, Update)]
    ensures b.start == 1090 && b.End() == 1360
  {
    var events := CreateEvents();
    FixtureValidated(events);
    b, c, d := events[1], events[2], events[3];
    var x := new Event(1150, 180);
    CoverCPosition(events, x);
    pos := ResolvePosition(events, x);
    cmds := AddEvent(events, x);
  }

  /** Test MergeBC of AddSlot: X 02:30-03:15 fills the gap between B and C. C is
      deleted and B now ends where C ended. */
  method AddMergeBC() returns (pos: Position, cmds: seq<Command>, b: Event, c: Event)
    ensures pos == Position(Some(b), None, Some(c), None, [])
    ensures cmds == [Command(c, Delete), Command(b, Update)]
    ensures b.start == 1090 && b.End() == 1240
  {
    var events := CreateEvents();
    FixtureValidated(events);
    b, c := events[1], events[2];
    var x := new Event(1150, 45);
    AddMergesAcross(events, x, 1, 2);
    pos := ResolvePosition(events, x);
    cmds := AddEvent(events, x);
  }

  /** Test ExtendCStartAdjacent of AddSlot: X 02:45-03:00 ends where C starts. C now
      starts at 02:45 and keeps its end. */
  method AddExtendCStartAdjacent() returns (pos: Position, cmds: seq<Command>, c: Event)
    ensures pos == Position(None, Some(c), None, None, [])
    ensures cmds == [Command(c, Update)]
    ensures c.start == 1165 && c.End() == 1240
  {
    var events := CreateEvents();
    FixtureValidated(events);
    c := events[2];
    var x := new Event(1165, 15);
    AddPrependsStart(events, x, 2);
    pos := ResolvePosition(events, x);
    cmds := AddEvent(events, x);
  }

  /** Test ExtendBEnd of AddSlot: X 01:45-02:45 overlaps the end of B. B keeps its
      start and now ends at 02:45. */
  method AddExtendBEnd() returns (pos: Position, cmds: seq<Command>, b: Event)
    ensures pos == Position(None, None, None, Some(b), [])
    ensures cmds == [Command(b, Update)]
    ensures b.start == 1090 && b.End() == 1165
  {
    var events := CreateEvents();
    FixtureValidated(events);
    b := events[1];
    var x := new Event(1105, 60);
    AddExtendsEnd(events, x, 1, 2);
    pos := ResolvePosition(events, x);
    cmds := AddEvent(events, x);
  }

  /** Test AddNew of AddSlot: X 04:15-04:16 touches nothing and is inserted. */
  method AddNew() returns (pos: Position, cmds: seq<Command>, x: Event)
    ensures pos == EmptyPosition
    ensures cmds == [Command(x, Insert)]
  {
    var events := CreateEvents();
    FixtureValidated(events);
    x := new Event(1255, 1);
    AddInsertsInGap(events, x, 3);
    pos := ResolvePosition(events, x);
    cmds := AddEvent(events, x);
  }

  /** Test OverlapsCompletely of RemoveSlot: removing E itself deletes E. */
  method RemoveWholeEvent() returns (cmds: seq<Command>, e: Event)
    ensures cmds == [Command(e, Delete)]
  {
    var events := CreateEvents();
    FixtureValidated(events);
    var slots := new SlotEvents(events);
    e := events[4];
    RemoveExactEvent(events, e, 4);
    cmds := slots.RemoveSlot(e);
  }

  /** Test OverlapsEndOf of RemoveSlot: removing 00:30-01:30 cuts A back to end at
      00:30. */
  method RemoveOverlapsEndOf() returns (cmds: seq<Command>, a: Event)
    ensures cmds == [Command(a, Update)]
    ensures a.start == 1000 && a.End() == 1030
  {
    var events := CreateEvents();
    FixtureValidated(events);
    var slots := new SlotEvents(events);
    a := events[0];
    var x := new Event(1030, 60);
    RemoveClipsEnd(events, x, 0);
    cmds := slots.RemoveSlot(x);
  }

  /** Test OverlapsStartOf of RemoveSlot: removing 01:00-02:00 moves B's start to
      02:00 and keeps its end. */
  method RemoveOverlapsStartOf() returns (cmds: seq<Command>, b: Event)
    ensures cmds == [Command(b, Update)]
    ensures b.start == 1120 && b.End() == 1150
  {
    var events := CreateEvents();
    FixtureValidated(events);
    var slots := new SlotEvents(events);
    b := events[1];
    var x := new Event(1060, 60);
    RemoveClipsStart(events, x, 1);
    cmds := slots.RemoveSlot(x);
  }

  /** Test AllOk of Validate: the fixture is accepted. */
  method ValidateAllOk() returns (verdict: Verdict)
    ensures verdict == Valid
  {
    var events := CreateEvents();
    FixtureValidated(events);
    verdict := Validate(events);
  }

  /** Test OutOfOrder of Validate: B lasts two hours, so C starts before B ends and
      index 2 is rejected. */
  method ValidateOutOfOrder() returns (verdict: Verdict)
    ensures verdict == Invalid(2, NotAfterPreviousEnd)
  {
    var a := new Event(1000, 60);
    var b := new Event(1090, 120);
    var c := new Event(1180, 60);
    var d := new Event(1300, 60);
    var e := new Event(1420, 60);
    var events := [a, b, c, d, e];
    assert ViolationAt(events, 0) == None;
    assert ViolationAt(events, 1) == None;
    assert ViolationAt(events, 2) == Some(NotAfterPreviousEnd);
    verdict := Validate(events);
  }

  /** Test Adjacent of Validate: B starts exactly when A ends, and index 1 is
      rejected. */
  method ValidateAdjacent() returns (verdict: Verdict)
    ensures verdict == Invalid(1, NotAfterPreviousEnd)
  {
    var a := new Event(1000, 60);
    var b := new Event(1060, 60);
    var c := new Event(1180, 60);
    var d := new Event(1300, 60);
    var e := new Event(1420, 60);
    var events := [a, b, c, d, e];
    assert ViolationAt(events, 0) == None;
    assert ViolationAt(events, 1) == Some(NotAfterPreviousEnd);
    verdict := Validate(events);
  }

  /** Test Null of Validate: the second element is null, and index 1 is rejected. */
  method ValidateNull() returns (verdict: Verdict)
    ensures verdict == Invalid(1, NullEvent)
  {
    var a := new Event(1000, 60);
    var c := new Event(1180, 60);
    var d := new Event(1300, 60);
    var e := new Event(1420, 60);
    var events: seq<Event?> := [a, null, c, d, e];
    assert ViolationAt(events, 0) == None;
    assert ViolationAt(events, 1) == Some(NullEvent);
    verdict := Validate(events);
  }

  /** Adding 23:50-01:10, which covers A entirely: A is the head by end overlap, keeps
      its start, and the ten minutes before A are not covered afterwards. */
  method AddCoveringFirstKeepsItsStart() returns (cmds: seq<Command>, a: Event)
    ensures cmds == [Command(a, Update)]
    ensures a.start == 1000 && a.End() == 1070
  {
    var events := CreateEvents();
    FixtureValidated(events);
    a := events[0];
    var x := new Event(990, 80);
    AddExtendsEnd(events, x, 0, 1);
    cmds := AddEvent(events, x);
  }

  /** Removing 00:00-01:15, which covers A entirely: A is clipped rather than
      deleted, and left with duration zero. */
  method RemoveCoveringFirstLeavesEmpty() returns (cmds: seq<Command>, a: Event)
    ensures cmds == [Command(a, Update)]
    ensures a.start == 1000 && a.duration == 0
  {
    var events := CreateEvents();
    FixtureValidated(events);
    a := events[0];
    var x := new Event(1000, 75);
    AddExtendsEnd(events, x, 0, 1);
    cmds := RemoveEvent(events, x);
  }

  /** Adding 01:40-02:00, strictly inside B: B is the tail by start overlap, and its
      start moves up to 01:40. */
  method AddInsideMovesStart() returns (cmds: seq<Command>, b: Event)
    ensures cmds == [Command(b, Update)]
    ensures b.start == 1100 && b.End() == 1150
  {
    var events := CreateEvents();
    FixtureValidated(events);
    b := events[1];
    var x := new Event(1100, 20);
    InsideIsTailOverlap(events, x, 1);
    cmds := AddEvent(events, x);
  }

  /** Removing 01:40-02:00, strictly inside B: B now starts at 02:00, so 01:30-01:40
      is removed as well. */
  method RemoveInsideCutsFront() returns (cmds: seq<Command>, b: Event)
    ensures cmds == [Command(b, Update)]
    ensures b.start == 1120 && b.End() == 1150
  {
    var events := CreateEvents();
    FixtureValidated(events);
    b := events[1];
    var x := new Event(1100, 20);
    InsideIsTailOverlap(events, x, 1);
    cmds := RemoveEvent(events, x);
  }

  /** Adding 01:40-02:30, inside B and ending with it: the position is empty and X is
      inserted although it overlaps B. */
  method AddInsideEndingTogetherInserts() returns (cmds: seq<Command>, x: Event)
    ensures cmds == [Command(x, Insert)]
  {
    var events := CreateEvents();
    FixtureValidated(events);
    x := new Event(1100, 50);
    InsideEndingTogetherIsMissed(events, x, 1);
    cmds := AddEvent(events, x);
  }

  /** Removing 01:40-02:30, inside B and ending with it: no command is produced. */
  method RemoveInsideEndingTogetherDoesNothing() returns (cmds: seq<Command>)
    ensures cmds == []
  {
    var events := CreateEvents();
    FixtureValidated(events);
    var x := new Event(1100, 50);
    InsideEndingTogetherIsMissed(events, x, 1);
    cmds := RemoveEvent(events, x);
  }
}
