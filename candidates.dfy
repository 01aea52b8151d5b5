/**
 * What the genetic scheduler draws its assignments from: the available
 * instructors and rooms and the schedulable meeting times, and, for one
 * course, the candidate list each operator picks from before it falls back
 * to the whole catalogue.
 */
module Candidates {
  import opened Models
  import opened SlotFilter

  /** The search's read-only catalogue: available instructors (ids),
    * available rooms, and the non-lunch weekday meeting times. The source
    * orders the meeting times by day name and start time; every draw from
    * them is an arbitrary choice, so their order is not kept here. */
  datatype Catalogue = Catalogue(instructors: seq<nat>, rooms: seq<Room>, meetingTimes: seq<MeetingTime>)

  /** The course's own instructors, or every available instructor when the
    * course lists none. */
  function InstructorChoices(course: Course, cat: Catalogue): (r: seq<nat>)
    ensures r == [] <==> course.instructors == [] && cat.instructors == []
    ensures forall x :: x in r ==> x in course.instructors || x in cat.instructors
    ensures course.instructors != [] ==> r == course.instructors
    ensures course.instructors == [] ==> r == cat.instructors
  {
    if course.instructors != [] then course.instructors else cat.instructors
  }

  /** The meeting times that suit the course, or every meeting time when
    * none does. */
  function TimeChoices(course: Course, cat: Catalogue): (r: seq<MeetingTime>)
    ensures r == [] <==> cat.meetingTimes == []
    ensures forall mt :: mt in r ==> mt in cat.meetingTimes
    ensures (exists mt :: mt in cat.meetingTimes && SuitsCourse(course, mt)) ==>
              && r == SuitableMeetingTimes(course, cat.meetingTimes)
              && forall mt :: mt in r <==> mt in cat.meetingTimes && SuitsCourse(course, mt)
    ensures !(exists mt :: mt in cat.meetingTimes && SuitsCourse(course, mt)) ==> r == cat.meetingTimes
  {
    var suitable := SuitableMeetingTimes(course, cat.meetingTimes);
    if suitable != [] then
      assert forall mt :: mt in suitable ==> SuitsCourse(course, mt) by {
        SuitableSound(course, cat.meetingTimes);
      }
      assert suitable[0] in cat.meetingTimes && SuitsCourse(course, suitable[0]);
      suitable
    else
      assert cat.meetingTimes != [] ==> cat.meetingTimes[0] in cat.meetingTimes;
      assert forall mt :: mt in cat.meetingTimes ==> !SuitsCourse(course, mt);
      cat.meetingTimes
  }

  lemma {:induction false} SuitableSound(course: Course, slots: seq<MeetingTime>)
    ensures forall mt :: mt in SuitableMeetingTimes(course, slots) ==> SuitsCourse(course, mt)
  {
    if slots != [] {
      SuitableSound(course, slots[1..]);
    }
  }

  /** The rooms that suit the course, or every available room when none does. */
  function RoomChoices(course: Course, cat: Catalogue): (r: seq<Room>)
    ensures r == [] <==> cat.rooms == []
    ensures forall x :: x in r ==> x in cat.rooms
    ensures (exists x :: x in cat.rooms && RoomSuits(course, x)) ==>
              && r == SuitableRooms(course, cat.rooms)
              && forall x :: x in r <==> x in cat.rooms && RoomSuits(course, x)
    ensures !(exists x :: x in cat.rooms && RoomSuits(course, x)) ==> r == cat.rooms
  {
    var suitable := SuitableRooms(course, cat.rooms);
    if suitable != [] then
      assert suitable[0] in cat.rooms && RoomSuits(course, suitable[0]);
      suitable
    else
      assert cat.rooms != [] ==> cat.rooms[0] in cat.rooms;
      cat.rooms
  }

  /** `random.choice`: some element of a non-empty list; every property
    * proved about a caller holds whichever element is drawn. */
  method Choose<T(==)>(xs: seq<T>) returns (x: T)
    requires xs != []
    ensures x in xs
  {
    assert xs[0] in xs;
    x :| x in xs;
  }
}
