/**
 * Candidate filters of the genetic scheduler: the meeting times a course may
 * use (GeneticAlgorithm._get_suitable_meeting_times), the rooms it may use
 * (_get_suitable_rooms), and the slot catalogue the search reads (the
 * non-lunch weekday rows of the MeetingTime table).
 */
module SlotFilter {
  import opened Models

  const Noon: Time := 12 * 60
  const LatestEnd: Time := 17 * 60

  /** `a` is `b` with some elements dropped, order kept. */
  ghost predicate IsSubsequence<T>(a: seq<T>, b: seq<T>)
    decreases |b|
  {
    if a == [] then true
    else if b == [] then false
    else (a[0] == b[0] && IsSubsequence(a[1..], b[1..])) || IsSubsequence(a, b[1..])
  }

  /** Whether one slot survives the filter for `course`: a Lab course never
    * starts at 12:00, and a course of duration other than 1 must end, by the
    * wrap-around end rule, no later than 17:00. */
  predicate SuitsCourse(course: Course, mt: MeetingTime) {
    (course.kind == Lab ==> mt.start != Noon)
    && (course.duration != 1 ==> EndAfter(mt.start, course.duration) <= LatestEnd)
  }

  /** The meeting times from `slots` that suit `course`, in catalogue order. */
  function SuitableMeetingTimes(course: Course, slots: seq<MeetingTime>): (r: seq<MeetingTime>)
    ensures IsSubsequence(r, slots)
    ensures course.kind == Lab ==> forall mt :: mt in r ==> mt.start != Noon
    ensures course.duration != 1 ==>
              forall mt :: mt in r ==> EndAfter(mt.start, course.duration) <= LatestEnd
    ensures forall mt :: mt in slots && SuitsCourse(course, mt) ==> mt in r
    ensures forall mt :: mt in r ==> mt in slots
    ensures course.kind != Lab && course.duration == 1 ==> r == slots
  {
    if slots == [] then []
    else if SuitsCourse(course, slots[0]) then [slots[0]] + SuitableMeetingTimes(course, slots[1..])
    else SuitableMeetingTimes(course, slots[1..])
  }

  /** Filtering twice is filtering once. */
  lemma {:induction false} SuitableMeetingTimesIdempotent(course: Course, slots: seq<MeetingTime>)
    ensures SuitableMeetingTimes(course, SuitableMeetingTimes(course, slots))
            == SuitableMeetingTimes(course, slots)
  {
    if slots != [] {
      SuitableMeetingTimesIdempotent(course, slots[1..]);
    }
  }

  /** For a one-hour course only the Lab filter applies. */
  lemma {:induction false} OneHourOnlyLabFilter(course: Course, slots: seq<MeetingTime>)
    requires course.duration == 1
    ensures forall mt :: mt in SuitableMeetingTimes(course, slots)
                         <==> mt in slots && (course.kind == Lab ==> mt.start != Noon)
  {
  }

  /** A room suits a course: a Lab room for a Lab course, otherwise any room
    * holding the course's maximum enrolment. */
  predicate RoomSuits(course: Course, r: Room) {
    if course.kind == Lab then r.kind == LabRoom else r.capacity >= course.maxStudents
  }

  /** The available rooms that suit `course`, in catalogue order. */
  function SuitableRooms(course: Course, rooms: seq<Room>): (r: seq<Room>)
    ensures IsSubsequence(r, rooms)
    ensures forall x :: x in r <==> x in rooms && RoomSuits(course, x)
  {
    if rooms == [] then []
    else if RoomSuits(course, rooms[0]) then [rooms[0]] + SuitableRooms(course, rooms[1..])
    else SuitableRooms(course, rooms[1..])
  }

  /** The slots the search schedules into: not lunch, Monday to Friday. */
  function SchedulableTimes(table: seq<MeetingTime>): (r: seq<MeetingTime>)
    ensures IsSubsequence(r, table)
    ensures forall mt :: mt in r <==> mt in table && !mt.isLunchBreak && IsWeekday(mt.day)
  {
    if table == [] then []
    else if !table[0].isLunchBreak && IsWeekday(table[0].day)
    then [table[0]] + SchedulableTimes(table[1..])
    else SchedulableTimes(table[1..])
  }
}
