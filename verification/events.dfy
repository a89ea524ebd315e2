/**
 * Calendar events of a quiz (extendedquiz_update_events, lib.php): which
 * open/close events the quiz and each of its overrides put in the calendar,
 * and how the events already stored are reused or deleted. Event names,
 * descriptions and visibility, and the calendar itself, are left out.
 */
module Events {
  import opened Wrappers
  import Overrides

  /** Longest span shown as a single event: five days, in seconds. */
  const MaxEventLength: int := 5 * 24 * 60 * 60

  /** A single event for the whole open period, or separate opening and closing events. */
  datatype Kind = Whole | Opens | Closes

  /** A calendar event to be written. */
  datatype Event = Event(kind: Kind, courseId: nat, groupId: nat, userId: nat, timeStart: int, duration: int)

  /** An event already stored for the quiz, as far as the update looks at it. */
  datatype StoredEvent = StoredEvent(id: nat, groupId: nat, userId: nat)

  function OrZero(v: Option<nat>): nat {
    if v.Some? then v.value else 0
  }

  function OrDefault(v: Option<int>, default: int): int {
    if v.Some? then v.value else default
  }

  /**
   * The events for one entry of the to-do list: `None` is the quiz itself,
   * `Some(o)` an override. An override adds an opening or closing event only
   * when it sets that time to a non-zero value; a group override whose group
   * no longer exists adds nothing.
   */
  function EventsFor(q: Overrides.QuizAccess, course: nat, current: Option<Overrides.Override>, existingGroups: set<nat>): (r: seq<Event>)
    ensures |r| <= 2
    ensures forall e :: e in r ==> e.duration >= 0
  {
    var groupId := if current.Some? then OrZero(current.value.groupId) else 0;
    var userId := if current.Some? then OrZero(current.value.userId) else 0;
    var timeOpen := if current.Some? then OrDefault(current.value.fields.timeOpen, q.timeOpen) else q.timeOpen;
    var timeClose := if current.Some? then OrDefault(current.value.fields.timeClose, q.timeClose) else q.timeClose;
    var addOpen := current.None? || current.value.id == 0 || OrDefault(current.value.fields.timeOpen, 0) != 0;
    var addClose := current.None? || current.value.id == 0 || OrDefault(current.value.fields.timeClose, 0) != 0;
    var courseId := if userId != 0 then 0 else course;
    var duration := if timeClose - timeOpen > 0 then timeClose - timeOpen else 0;
    if groupId != 0 && groupId !in existingGroups then []
    else if !(addOpen || addClose) then []
    else if timeClose != 0 && timeOpen != 0 && duration <= MaxEventLength then
      [Event(Whole, courseId, groupId, userId, timeOpen, duration)]
    else
      (if timeOpen != 0 && addOpen then [Event(Opens, courseId, groupId, userId, timeOpen, 0)] else [])
      + (if timeClose != 0 && addClose then [Event(Closes, courseId, groupId, userId, timeClose, 0)] else [])
  }

  /**
   * The quiz's own events: one event from opening to closing when both are
   * set and at most five days apart, else an opening and a closing event for
   * whichever of the two is set; none when neither is.
   */
  lemma QuizEvents(q: Overrides.QuizAccess, course: nat, existingGroups: set<nat>)
    ensures var r := EventsFor(q, course, None, existingGroups);
            (q.timeOpen != 0 && q.timeClose != 0 && q.timeClose - q.timeOpen <= MaxEventLength ==>
               r == [Event(Whole, course, 0, 0, q.timeOpen, if q.timeClose > q.timeOpen then q.timeClose - q.timeOpen else 0)]) &&
            (q.timeOpen != 0 && q.timeClose != 0 && q.timeClose - q.timeOpen > MaxEventLength ==>
               r == [Event(Opens, course, 0, 0, q.timeOpen, 0), Event(Closes, course, 0, 0, q.timeClose, 0)]) &&
            (q.timeOpen != 0 && q.timeClose == 0 ==> r == [Event(Opens, course, 0, 0, q.timeOpen, 0)]) &&
            (q.timeOpen == 0 && q.timeClose != 0 ==> r == [Event(Closes, course, 0, 0, q.timeClose, 0)]) &&
            (q.timeOpen == 0 && q.timeClose == 0 ==> r == [])
  {
  }

  /**
   * An override's opening event exists only when the override sets a non-zero
   * opening time, and its closing event only when it sets a non-zero closing
   * time. Conversely, a non-zero time the override sets always shows up, as
   * its own event or as the start or end of a single event, unless the
   * override's group is gone.
   */
  lemma OverrideEventsFollowSetTimes(q: Overrides.QuizAccess, course: nat, o: Overrides.Override, existingGroups: set<nat>)
    requires o.id != 0
    ensures var r := EventsFor(q, course, Some(o), existingGroups);
            (forall e :: e in r && e.kind == Opens ==> OrDefault(o.fields.timeOpen, 0) != 0 && e.timeStart == o.fields.timeOpen.value) &&
            (forall e :: e in r && e.kind == Closes ==> OrDefault(o.fields.timeClose, 0) != 0 && e.timeStart == o.fields.timeClose.value)
    ensures var r := EventsFor(q, course, Some(o), existingGroups);
            var groupKept := OrZero(o.groupId) == 0 || OrZero(o.groupId) in existingGroups;
            (groupKept && OrDefault(o.fields.timeOpen, 0) != 0 ==>
               exists e :: e in r && (e.kind == Opens || e.kind == Whole) && e.timeStart == o.fields.timeOpen.value) &&
            (groupKept && OrDefault(o.fields.timeClose, 0) != 0 ==>
               exists e :: e in r && (e.kind == Closes || e.kind == Whole) && e.timeStart + e.duration >= o.fields.timeClose.value)
  {
  }

  /** A single event starts at the opening time and ends at the closing time (never before it opens). */
  lemma WholeEventSpansOpenPeriod(q: Overrides.QuizAccess, course: nat, current: Option<Overrides.Override>, existingGroups: set<nat>, e: Event)
    requires e in EventsFor(q, course, current, existingGroups) && e.kind == Whole
    ensures var timeOpen := if current.Some? then OrDefault(current.value.fields.timeOpen, q.timeOpen) else q.timeOpen;
            var timeClose := if current.Some? then OrDefault(current.value.fields.timeClose, q.timeClose) else q.timeClose;
            e.timeStart == timeOpen && timeOpen != 0 && timeClose != 0 &&
            e.timeStart + e.duration == (if timeClose > timeOpen then timeClose else timeOpen) &&
            e.duration <= MaxEventLength
  {
  }

  /** An override that sets neither time (or sets both to 0) adds no event. */
  lemma OverrideWithoutTimesAddsNothing(q: Overrides.QuizAccess, course: nat, o: Overrides.Override, existingGroups: set<nat>)
    requires o.id != 0
    requires OrDefault(o.fields.timeOpen, 0) == 0 && OrDefault(o.fields.timeClose, 0) == 0
    ensures EventsFor(q, course, Some(o), existingGroups) == []
  {
  }

  /** User events belong to no course, so that the calendar shows them. */
  lemma UserEventsHaveNoCourse(q: Overrides.QuizAccess, course: nat, o: Overrides.Override, existingGroups: set<nat>)
    requires OrZero(o.userId) != 0
    ensures forall e :: e in EventsFor(q, course, Some(o), existingGroups) ==> e.courseId == 0 && e.userId == o.userId.value
  {
  }

  /** All events of a to-do list, in order. */
  function AllEvents(q: Overrides.QuizAccess, course: nat, todo: seq<Option<Overrides.Override>>, existingGroups: set<nat>): (r: seq<Event>)
    ensures |r| <= 2 * |todo|
  {
    if |todo| == 0 then []
    else EventsFor(q, course, todo[0], existingGroups) + AllEvents(q, course, todo[1..], existingGroups)
  }

  /** What the update writes: each event with the id of the stored event it reuses, if any, and the ids to delete. */
  datatype Plan = Plan(writes: seq<(Option<nat>, Event)>, deletes: seq<nat>)

  /** Stored events are reused in order, one per new event; the rest are deleted. */
  function Assign(events: seq<Event>, stored: seq<nat>): (p: Plan)
    ensures |p.writes| == |events|
    ensures forall i :: 0 <= i < |events| ==> p.writes[i].1 == events[i]
    ensures forall i :: 0 <= i < |events| ==> p.writes[i].0 == (if i < |stored| then Some(stored[i]) else None)
  {
    if |events| == 0 then Plan([], stored)
    else if |stored| == 0 then
      var rest := Assign(events[1..], []);
      Plan([(None, events[0])] + rest.writes, rest.deletes)
    else
      var rest := Assign(events[1..], stored[1..]);
      Plan([(Some(stored[0]), events[0])] + rest.writes, rest.deletes)
  }

  /** The ids a plan reuses, in order. */
  function Reused(writes: seq<(Option<nat>, Event)>): seq<nat> {
    if |writes| == 0 then []
    else (if writes[0].0.Some? then [writes[0].0.value] else []) + Reused(writes[1..])
  }

  /** Every stored event is either reused, in order, or deleted; none is both or lost. */
  lemma {:induction false} AssignPartitionsStored(events: seq<Event>, stored: seq<nat>)
    ensures Reused(Assign(events, stored).writes) + Assign(events, stored).deletes == stored
    ensures |Assign(events, stored).deletes| == (if |stored| > |events| then |stored| - |events| else 0)
  {
    if |events| == 0 {
    } else if |stored| == 0 {
      AssignPartitionsStored(events[1..], []);
      var rest := Assign(events[1..], []);
      assert ([(None, events[0])] + rest.writes)[1..] == rest.writes;
    } else {
      AssignPartitionsStored(events[1..], stored[1..]);
      var rest := Assign(events[1..], stored[1..]);
      assert ([(Some(stored[0]), events[0])] + rest.writes)[1..] == rest.writes;
      assert [stored[0]] + stored[1..] == stored;
    }
  }

  /** Whether the update loads a stored event: always for the whole quiz, else when its group and user are the override's. */
  predicate Keeps(e: StoredEvent, single: Option<Overrides.Override>) {
    single.None? || (e.groupId == OrZero(single.value.groupId) && e.userId == OrZero(single.value.userId))
  }

  /** The ids of the stored events the update loads, in stored order. */
  function Loaded(stored: seq<StoredEvent>, single: Option<Overrides.Override>): (r: seq<nat>)
    ensures |r| <= |stored|
    ensures single.None? ==> |r| == |stored|
    ensures forall e :: e in stored && Keeps(e, single) ==> e.id in r
    ensures forall id :: id in r ==> exists e :: e in stored && Keeps(e, single) && e.id == id
  {
    if |stored| == 0 then []
    else
      var e := stored[0];
      var rest := Loaded(stored[1..], single);
      assert forall x :: x in stored <==> x == e || x in stored[1..];
      (if Keeps(e, single) then [e.id] else []) + rest
  }

  /**
   * The to-do list of extendedquiz_update_events: for the whole quiz every
   * override of the quiz followed by the quiz itself; for one override that
   * override alone.
   */
  function Todo(overrides: seq<Overrides.Override>, single: Option<Overrides.Override>): (r: seq<Option<Overrides.Override>>)
    ensures single.Some? ==> r == [single]
    ensures single.None? ==> |r| == |overrides| + 1 && r[|overrides|] == None
    ensures single.None? ==> forall i :: 0 <= i < |overrides| ==> r[i] == Some(overrides[i])
  {
    if single.Some? then [single] else seq(|overrides|, i requires 0 <= i < |overrides| => Some(overrides[i])) + [None]
  }

  /**
   * extendedquiz_update_events: writes every event of the to-do list in
   * order, and deletes only events it loaded; for one override at most two
   * events are written.
   */
  function UpdateEvents(q: Overrides.QuizAccess, course: nat, overrides: seq<Overrides.Override>,
                        single: Option<Overrides.Override>, stored: seq<StoredEvent>, existingGroups: set<nat>): (p: Plan)
    ensures |p.writes| == |AllEvents(q, course, Todo(overrides, single), existingGroups)|
    ensures forall i :: 0 <= i < |p.writes| ==> p.writes[i].1 == AllEvents(q, course, Todo(overrides, single), existingGroups)[i]
    ensures single.Some? ==> |p.writes| <= 2
    ensures forall id :: id in p.deletes ==> exists e :: e in stored && Keeps(e, single) && e.id == id
  {
    var events := AllEvents(q, course, Todo(overrides, single), existingGroups);
    var loaded := Loaded(stored, single);
    AssignPartitionsStored(events, loaded);
    var p := Assign(events, loaded);
    assert forall id :: id in p.deletes ==> id in loaded;
    p
  }

  /**
   * Updating the events writes every event the to-do list calls for, reusing
   * loaded ids in order and deleting exactly the loaded events left over.
   */
  lemma UpdateEventsAccounts(q: Overrides.QuizAccess, course: nat, overrides: seq<Overrides.Override>,
                             single: Option<Overrides.Override>, stored: seq<StoredEvent>, existingGroups: set<nat>)
    ensures var p := UpdateEvents(q, course, overrides, single, stored, existingGroups);
            Reused(p.writes) + p.deletes == Loaded(stored, single)
  {
    AssignPartitionsStored(AllEvents(q, course, Todo(overrides, single), existingGroups), Loaded(stored, single));
  }
}
