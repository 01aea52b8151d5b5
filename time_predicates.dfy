/**
 * The time predicates of the genetic scheduler: a class's time range, the
 * overlap of two classes, their conflict, and lunch-break spanning
 * (GeneticAlgorithm._get_class_time_range, _same_time_slot, _has_conflict,
 * _spans_lunch_break).
 */
module TimePredicates {
  import opened Wrappers
  import opened Models

  const LunchStart: Time := 13 * 60
  const LunchEnd: Time := 13 * 60 + 45

  /** (start, end) of a class with a meeting time, or None without one. */
  function ClassTimeRange(c: ClassSession): (r: Option<(Time, Time)>)
    ensures r.None? <==> c.meetingTime.None?
    ensures r.Some? ==> r.value.0 == c.meetingTime.value.start
    ensures r.Some? ==> Hour(r.value.1) == (Hour(r.value.0) + c.duration) % 24
                        && Minute(r.value.1) == Minute(r.value.0)
  {
    match c.meetingTime
    case None => None
    case Some(mt) => Some((mt.start, EndAfter(mt.start, c.duration)))
  }

  function Max(a: int, b: int): int { if a < b then b else a }
  function Min(a: int, b: int): int { if a < b then a else b }

  /** Two classes overlap in time: both have a meeting time on the same day
    * and max(start) < min(end). */
  predicate SameTimeSlot(c1: ClassSession, c2: ClassSession)
    ensures SameTimeSlot(c1, c2) ==>
      c1.meetingTime.Some? && c2.meetingTime.Some? && c1.meetingTime.value.day == c2.meetingTime.value.day
  {
    match (ClassTimeRange(c1), ClassTimeRange(c2))
    case (Some(r1), Some(r2)) =>
      c1.meetingTime.value.day == c2.meetingTime.value.day
      && Max(r1.0, r2.0) < Min(r1.1, r2.1)
    case _ => false
  }

  /** The instructor of both is set and the same. */
  predicate SharesInstructor(c1: ClassSession, c2: ClassSession) {
    c1.instructor.Some? && c2.instructor.Some? && c1.instructor.value == c2.instructor.value
  }

  /** The room of both is set and has the same id. */
  predicate SharesRoom(c1: ClassSession, c2: ClassSession) {
    c1.room.Some? && c2.room.Some? && c1.room.value.id == c2.room.value.id
  }

  predicate SharesSection(c1: ClassSession, c2: ClassSession) {
    c1.section.id == c2.section.id
  }

  /** Two classes conflict: they overlap in time and share an instructor,
    * a room or a section (checked in that order; the result is one bool). */
  predicate HasConflict(c1: ClassSession, c2: ClassSession)
    ensures HasConflict(c1, c2) <==>
      SameTimeSlot(c1, c2) && (SharesInstructor(c1, c2) || SharesRoom(c1, c2) || SharesSection(c1, c2))
  {
    if c1.meetingTime.None? || c2.meetingTime.None? then false
    else if SameTimeSlot(c1, c2) then
      if SharesInstructor(c1, c2) then true
      else if SharesRoom(c1, c2) then true
      else if SharesSection(c1, c2) then true
      else false
    else false
  }

  /** The class's range meets the lunch window: start < 13:45 and end > 13:00. */
  predicate SpansLunchBreak(c: ClassSession)
    ensures SpansLunchBreak(c) <==>
      (c.meetingTime.Some? && c.meetingTime.value.start < At(13, 45)
       && EndAfter(c.meetingTime.value.start, c.duration) > At(13, 0))
  {
    match ClassTimeRange(c)
    case None => false
    case Some(r) => r.0 < LunchEnd && r.1 > LunchStart
  }

  /** The overlap test stated on the meeting times: same day, and the
    * half-open ranges [start, end) are both non-empty and intersect. */
  lemma SameTimeSlotIff(c1: ClassSession, c2: ClassSession)
    ensures SameTimeSlot(c1, c2) <==>
      (c1.meetingTime.Some? && c2.meetingTime.Some?
       && c1.meetingTime.value.day == c2.meetingTime.value.day
       && c1.meetingTime.value.start < EndAfter(c2.meetingTime.value.start, c2.duration)
       && c2.meetingTime.value.start < EndAfter(c1.meetingTime.value.start, c1.duration)
       && c1.meetingTime.value.start < EndAfter(c1.meetingTime.value.start, c1.duration)
       && c2.meetingTime.value.start < EndAfter(c2.meetingTime.value.start, c2.duration))
  {
  }

  lemma SameTimeSlotSymmetric(c1: ClassSession, c2: ClassSession)
    ensures SameTimeSlot(c1, c2) <==> SameTimeSlot(c2, c1)
  {
  }

  lemma HasConflictSymmetric(c1: ClassSession, c2: ClassSession)
    ensures HasConflict(c1, c2) <==> HasConflict(c2, c1)
  {
  }

  /** Neither predicate holds for a class without a meeting time or for
    * classes on different days. */
  lemma NoOverlapWithoutTimeOrAcrossDays(c1: ClassSession, c2: ClassSession)
    requires c1.meetingTime.None? || c2.meetingTime.None?
             || c1.meetingTime.value.day != c2.meetingTime.value.day
    ensures !SameTimeSlot(c1, c2) && !HasConflict(c1, c2)
  {
  }

  /** With the wrap-around end rule, a class whose end wraps past midnight
    * has an empty range and so never overlaps anything. */
  lemma WrappedRangeNeverOverlaps(c1: ClassSession, c2: ClassSession)
    requires c1.meetingTime.Some?
    requires EndAfter(c1.meetingTime.value.start, c1.duration) <= c1.meetingTime.value.start
    ensures !SameTimeSlot(c1, c2) && !HasConflict(c1, c2)
  {
  }
}
