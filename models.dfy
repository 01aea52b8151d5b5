/**
 * The catalogue records the scheduler reads (rooms, meeting-time slots,
 * courses, sections) and the class session it fills in, as immutable values.
 * Database identities become `nat` ids; a foreign key becomes either the id
 * or a copy of the referenced record, whichever the scheduler consults.
 */
module Models {
  import opened Wrappers

  /** A time of day, in minutes since midnight (Python's `datetime.time`
    * without seconds). Ordering times is ordering these numbers, exactly as
    * `datetime.time` compares (hour, minute) lexicographically. */
  type Time = t: int | 0 <= t < 1440

  function Hour(t: Time): int { t / 60 }
  function Minute(t: Time): int { t % 60 }

  /** `datetime.time(hour=h, minute=m)` for a valid hour and minute. */
  function At(h: int, m: int): (t: Time)
    requires 0 <= h < 24 && 0 <= m < 60
    ensures Hour(t) == h && Minute(t) == m
  {
    h * 60 + m
  }

  /** The end of a class of `duration` hours starting at `start`:
    * `time(hour=(start.hour + duration) % 24, minute=start.minute)`.
    * The hour wraps at midnight; Dafny's `%` by 24 never goes negative,
    * which is also what Python's `%` does for a negative duration. */
  function EndAfter(start: Time, duration: int): (t: Time)
    ensures Hour(t) == (Hour(start) + duration) % 24 && Minute(t) == Minute(start)
  {
    At((Hour(start) + duration) % 24, Minute(start))
  }

  datatype Day = Monday | Tuesday | Wednesday | Thursday | Friday | Saturday

  /** The days the genetic search schedules on (Saturday is excluded). */
  predicate IsWeekday(d: Day) { d != Saturday }

  datatype RoomKind = Classroom | LabRoom | Hall | Seminar

  datatype CourseKind = Theory | Lab | Practical

  datatype Room = Room(id: nat, capacity: int, kind: RoomKind)

  /** A row of the MeetingTime table. */
  datatype MeetingTime = MeetingTime(pid: string, day: Day, start: Time, end: Time, isLunchBreak: bool)

  /** A course with the fields the scheduler reads; `instructors` are the ids
    * of the instructors eligible to teach it, in query order. */
  datatype Course = Course(
    id: nat,
    kind: CourseKind,
    duration: int,
    classesPerWeek: int,
    semester: int,
    maxStudents: int,
    instructors: seq<nat>)

  /** A student section; `courses` are the courses it takes (all semesters). */
  datatype Section = Section(id: nat, numStudents: int, room: Option<Room>, courses: seq<Course>)

  /** The identity of a required class: section, course and weekly index. */
  datatype ClassKey = ClassKey(sectionId: nat, courseId: nat, index: nat)

  /** One required weekly class as the genetic search sees it: fixed course,
    * section and duration, and three assignments that start unset. */
  datatype ClassSession = ClassSession(
    id: ClassKey,
    course: Course,
    section: Section,
    duration: int,
    instructor: Option<nat>,
    room: Option<Room>,
    meetingTime: Option<MeetingTime>)

  /** A class whose instructor, room and meeting time are all set. */
  predicate IsFullyAssigned(c: ClassSession) {
    c.instructor.Some? && c.room.Some? && c.meetingTime.Some?
  }

  /** A candidate timetable. */
  type Individual = seq<ClassSession>

  /** The fields that no operator of the search may change. */
  predicate SameIdentity(a: ClassSession, b: ClassSession) {
    a.id == b.id && a.course == b.course && a.section == b.section && a.duration == b.duration
  }

  /** Position by position, the same classes as `shape`, whatever their
    * assignments. */
  predicate ShapedLike(ind: Individual, shape: Individual) {
    |ind| == |shape| && forall i :: 0 <= i < |ind| ==> SameIdentity(ind[i], shape[i])
  }
}
