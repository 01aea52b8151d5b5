/**
 * The checks run before a class of a saved timetable is moved to another
 * slot: which saved classes occupy the new day and start time, and whether
 * each clashes with the moved class by instructor, room or section.
 */
module MoveConflicts {
  import opened Wrappers
  import opened Models

  /** A saved class of a timetable, with the fields the checks read: its
    * course's duration in hours and the ids of its instructor, room and
    * section, and its meeting-time row. */
  datatype SavedClass = SavedClass(classId: string, duration: int, instructor: nat, room: nat, section: nat, slot: MeetingTime)

  /** Instructor conflicts take precedence over room conflicts, and those
    * over section conflicts. */
  datatype ConflictKind = InstructorConflict | RoomConflict | SectionConflict

  /** One reported conflict: its kind and the saved class it is with. */
  datatype Conflict = Conflict(kind: ConflictKind, cls: SavedClass)

  /** `exclude(class_id=exclude_class_id)`: with no id nothing is excluded. */
  predicate Considered(c: SavedClass, exclude: Option<string>) {
    exclude.None? || c.classId != exclude.value
  }

  /** The start of the `k`-th hour of a saved class: the hour wraps at
    * midnight and the minute is kept. */
  function HourStart(c: SavedClass, k: nat): Time {
    At((Hour(c.slot.start) + k) % 24, Minute(c.slot.start))
  }

  /** The saved class meets on `day` and one of its hours starts at `start`. */
  predicate Occupies(c: SavedClass, day: Day, start: Time) {
    c.slot.day == day && exists k: nat :: k < c.duration && HourStart(c, k) == start
  }

  /** A time of day is its hour and its minute. */
  lemma SameTime(a: Time, b: Time)
    ensures a == b <==> Hour(a) == Hour(b) && Minute(a) == Minute(b)
  {
  }

  /** Adding whole days of hours does not change the hour of the day. */
  lemma HourWrap(h: int, k: nat, target: int)
    requires 0 <= h < 24 && 0 <= target < 24
    ensures (h + k) % 24 == target <==> (target - h) % 24 == k % 24
  {
    var q := (h + k) / 24;
    assert h + k == 24 * q + (h + k) % 24;
    var p := k / 24;
    assert k == 24 * p + k % 24;
  }

  /** The hours a class occupies are the start times with its minute whose
    * hour lies fewer than `duration` hours after its own, counting round
    * midnight. */
  lemma {:induction false} OccupiesWindow(c: SavedClass, day: Day, start: Time)
    ensures Occupies(c, day, start) <==>
              c.slot.day == day && Minute(start) == Minute(c.slot.start)
              && (Hour(start) - Hour(c.slot.start)) % 24 < c.duration
  {
    if c.slot.day == day && Minute(start) == Minute(c.slot.start) && (Hour(start) - Hour(c.slot.start)) % 24 < c.duration {
      WindowOccupied(c, start);
    }
    if Occupies(c, day, start) {
      OccupiedInWindow(c, start);
    }
  }

  /** A start time in the window is one of the class's hour starts. */
  lemma WindowOccupied(c: SavedClass, start: Time)
    requires Minute(start) == Minute(c.slot.start) && (Hour(start) - Hour(c.slot.start)) % 24 < c.duration
    ensures exists k: nat :: k < c.duration && HourStart(c, k) == start
  {
    var h := Hour(c.slot.start);
    var k: nat := (Hour(start) - h) % 24;
    assert k < 24 && k % 24 == k;
    HourWrap(h, k, Hour(start));
    var t := HourStart(c, k);
    assert Hour(t) == Hour(start) && Minute(t) == Minute(start);
    SameTime(t, start);
  }

  /** Each hour start of the class lies in the window. */
  lemma OccupiedInWindow(c: SavedClass, start: Time)
    requires exists k: nat :: k < c.duration && HourStart(c, k) == start
    ensures Minute(start) == Minute(c.slot.start) && (Hour(start) - Hour(c.slot.start)) % 24 < c.duration
  {
    var k: nat :| k < c.duration && HourStart(c, k) == start;
    HourWrap(Hour(c.slot.start), k, Hour(start));
  }

  /** The kind of conflict a saved class at the new slot has with the moved
    * class, if any. */
  function KindOf(c: SavedClass, instructor: nat, room: nat, section: nat): (k: Option<ConflictKind>)
    ensures k == Some(InstructorConflict) <==> c.instructor == instructor
    ensures k == Some(RoomConflict) <==> c.instructor != instructor && c.room == room
    ensures k == Some(SectionConflict) <==> c.instructor != instructor && c.room != room && c.section == section
    ensures k.None? <==> c.instructor != instructor && c.room != room && c.section != section
  {
    if c.instructor == instructor then Some(InstructorConflict)
    else if c.room == room then Some(RoomConflict)
    else if c.section == section then Some(SectionConflict)
    else None
  }

  /** The conflicts of moving a class to (`day`, `start`), in the order of
    * the saved classes, at most one per saved class. */
  function SlotConflicts(classes: seq<SavedClass>, day: Day, start: Time, instructor: nat, room: nat, section: nat,
                         exclude: Option<string>): (r: seq<Conflict>)
    ensures |r| <= |classes|
  {
    if classes == [] then []
    else
      var c := classes[|classes| - 1];
      var kind := KindOf(c, instructor, room, section);
      SlotConflicts(classes[..|classes| - 1], day, start, instructor, room, section, exclude)
      + (if Considered(c, exclude) && Occupies(c, day, start) && kind.Some? then [Conflict(kind.value, c)] else [])
  }

  /** A conflict is reported exactly for each considered saved class that
    * occupies the new slot and shares the instructor, room or section, with
    * the kind the precedence gives. */
  lemma {:induction false} SlotConflictsMembers(classes: seq<SavedClass>, day: Day, start: Time, instructor: nat, room: nat,
                                                section: nat, exclude: Option<string>)
    ensures forall x :: x in SlotConflicts(classes, day, start, instructor, room, section, exclude) <==>
              && x.cls in classes && Considered(x.cls, exclude) && Occupies(x.cls, day, start)
              && KindOf(x.cls, instructor, room, section) == Some(x.kind)
  {
    if classes != [] {
      var init := classes[..|classes| - 1];
      SlotConflictsMembers(init, day, start, instructor, room, section, exclude);
      assert classes == init + [classes[|classes| - 1]];
    }
  }

  /** The class being moved is never reported when its id is excluded. */
  lemma ExcludedNeverReported(classes: seq<SavedClass>, day: Day, start: Time, instructor: nat, room: nat,
                              section: nat, id: string)
    ensures forall x :: x in SlotConflicts(classes, day, start, instructor, room, section, Some(id)) ==> x.cls.classId != id
  {
    SlotConflictsMembers(classes, day, start, instructor, room, section, Some(id));
  }

  /** Without an exclusion, checking a saved class of one hour or more
    * against its own slot, instructor, room and section reports it as an
    * instructor conflict with itself. */
  lemma SelfConflict(classes: seq<SavedClass>, c: SavedClass)
    requires c in classes && c.duration >= 1
    ensures Conflict(InstructorConflict, c) in SlotConflicts(classes, c.slot.day, c.slot.start, c.instructor, c.room, c.section, None)
  {
    assert HourStart(c, 0) == c.slot.start;
    SlotConflictsMembers(classes, c.slot.day, c.slot.start, c.instructor, c.room, c.section, None);
  }

  /** Every reported conflict is with one of the saved classes. */
  lemma {:induction false} ReportedAreSaved(classes: seq<SavedClass>, day: Day, start: Time, instructor: nat, room: nat,
                                            section: nat, exclude: Option<string>)
    ensures forall x :: x in SlotConflicts(classes, day, start, instructor, room, section, exclude) ==> x.cls in classes
  {
    if classes != [] {
      ReportedAreSaved(classes[..|classes| - 1], day, start, instructor, room, section, exclude);
    }
  }

  /** Conflicts with pairwise distinct class ids. */
  predicate DistinctClasses(r: seq<Conflict>) {
    forall i, j :: 0 <= i < j < |r| ==> r[i].cls.classId != r[j].cls.classId
  }

  lemma DistinctSnoc(before: seq<Conflict>, tail: seq<Conflict>, id: string)
    requires DistinctClasses(before) && |tail| <= 1
    requires forall x :: x in before ==> x.cls.classId != id
    requires forall x :: x in tail ==> x.cls.classId == id
    ensures DistinctClasses(before + tail)
  {
    var r := before + tail;
    forall i, j | 0 <= i < j < |r| ensures r[i].cls.classId != r[j].cls.classId {
      if j >= |before| {
        assert r[j] in tail && r[i] == before[i];
      } else {
        assert r[i] == before[i] && r[j] == before[j];
      }
    }
  }

  /** Saved classes with distinct ids give conflicts with distinct ids: no
    * saved class is reported twice. */
  lemma {:induction false} SlotConflictsDistinct(classes: seq<SavedClass>, day: Day, start: Time, instructor: nat, room: nat,
                                                 section: nat, exclude: Option<string>)
    requires forall i, j :: 0 <= i < j < |classes| ==> classes[i].classId != classes[j].classId
    ensures DistinctClasses(SlotConflicts(classes, day, start, instructor, room, section, exclude))
  {
    if classes != [] {
      var init := classes[..|classes| - 1];
      var last := classes[|classes| - 1];
      SlotConflictsDistinct(init, day, start, instructor, room, section, exclude);
      ReportedAreSaved(init, day, start, instructor, room, section, exclude);
      var before := SlotConflicts(init, day, start, instructor, room, section, exclude);
      forall x | x in before ensures x.cls.classId != last.classId {
        var k :| 0 <= k < |init| && init[k] == x.cls;
        assert init[k] == classes[k];
      }
      var kind := KindOf(last, instructor, room, section);
      var tail := if Considered(last, exclude) && Occupies(last, day, start) && kind.Some? then [Conflict(kind.value, last)] else [];
      DistinctSnoc(before, tail, last.classId);
    }
  }

  /** The inner loop over the hours of a saved class, stopping at the first
    * hour that starts at `start`. */
  method OccupiesAt(c: SavedClass, day: Day, start: Time) returns (hit: bool)
    ensures hit == Occupies(c, day, start)
  {
    hit := false;
    if c.slot.day != day {
      return;
    }
    var k: nat := 0;
    while k < c.duration
      invariant !hit
      invariant forall j: nat :: j < k ==> HourStart(c, j) != start
      decreases c.duration - k
    {
      if HourStart(c, k) == start {
        hit := true;
        return;
      }
      k := k + 1;
    }
  }

  /** `check_slot_conflicts`: the loop over the saved classes. */
  method CheckSlotConflicts(classes: seq<SavedClass>, day: Day, start: Time, instructor: nat, room: nat, section: nat,
                            exclude: Option<string>) returns (conflicts: seq<Conflict>)
    ensures conflicts == SlotConflicts(classes, day, start, instructor, room, section, exclude)
  {
    conflicts := [];
    for i := 0 to |classes|
      invariant conflicts == SlotConflicts(classes[..i], day, start, instructor, room, section, exclude)
    {
      var c := classes[i];
      assert classes[..i + 1][..i] == classes[..i];
      if Considered(c, exclude) {
        var hit := OccupiesAt(c, day, start);
        if hit {
          var kind := KindOf(c, instructor, room, section);
          if kind.Some? {
            conflicts := conflicts + [Conflict(kind.value, c)];
          }
        }
      }
    }
    assert classes[..|classes|] == classes;
  }

  // ---------------------------------------------------------------------
  // The instructor-only check

  /** The saved classes of `instructor` that occupy the new slot, in order. */
  function InstructorConflicts(classes: seq<SavedClass>, day: Day, start: Time, instructor: nat,
                               exclude: Option<string>): (r: seq<SavedClass>)
    ensures |r| <= |classes|
  {
    if classes == [] then []
    else
      var c := classes[|classes| - 1];
      InstructorConflicts(classes[..|classes| - 1], day, start, instructor, exclude)
      + (if c.instructor == instructor && Considered(c, exclude) && Occupies(c, day, start) then [c] else [])
  }

  /** The saved classes of the conflicts of one kind, in order. */
  function OfKind(r: seq<Conflict>, kind: ConflictKind): seq<SavedClass> {
    if r == [] then []
    else OfKind(r[..|r| - 1], kind) + (if r[|r| - 1].kind == kind then [r[|r| - 1].cls] else [])
  }

  lemma {:induction false} OfKindAppend(a: seq<Conflict>, b: seq<Conflict>, kind: ConflictKind)
    ensures OfKind(a + b, kind) == OfKind(a, kind) + OfKind(b, kind)
  {
    if b != [] {
      var ab := a + b;
      var last := b[|b| - 1];
      assert ab[..|ab| - 1] == a + b[..|b| - 1];
      assert ab[|ab| - 1] == last;
      OfKindAppend(a, b[..|b| - 1], kind);
      var t := if last.kind == kind then [last.cls] else [];
      assert OfKind(ab, kind) == OfKind(a + b[..|b| - 1], kind) + t;
      assert OfKind(b, kind) == OfKind(b[..|b| - 1], kind) + t;
    } else {
      assert a + b == a;
    }
  }

  /** The instructor-only check reports exactly the classes the full check
    * reports as instructor conflicts, whatever room and section the moved
    * class has. */
  lemma {:induction false} InstructorCheckAgrees(classes: seq<SavedClass>, day: Day, start: Time, instructor: nat, room: nat,
                                                 section: nat, exclude: Option<string>)
    ensures InstructorConflicts(classes, day, start, instructor, exclude)
            == OfKind(SlotConflicts(classes, day, start, instructor, room, section, exclude), InstructorConflict)
  {
    if classes != [] {
      var init := classes[..|classes| - 1];
      InstructorCheckAgrees(init, day, start, instructor, room, section, exclude);
      var c := classes[|classes| - 1];
      var kind := KindOf(c, instructor, room, section);
      var tail := if Considered(c, exclude) && Occupies(c, day, start) && kind.Some? then [Conflict(kind.value, c)] else [];
      OfKindAppend(SlotConflicts(init, day, start, instructor, room, section, exclude), tail, InstructorConflict);
      assert OfKind([], InstructorConflict) == [];
      if tail != [] {
        assert OfKind(tail, InstructorConflict) == OfKind([], InstructorConflict) + (if tail[0].kind == InstructorConflict then [c] else []);
      }
    }
  }

  /** `check_instructor_conflicts`: the loop over the instructor's saved classes. */
  method CheckInstructorConflicts(classes: seq<SavedClass>, instructor: nat, day: Day, start: Time,
                                  exclude: Option<string>) returns (conflicts: seq<SavedClass>)
    ensures conflicts == InstructorConflicts(classes, day, start, instructor, exclude)
  {
    conflicts := [];
    for i := 0 to |classes|
      invariant conflicts == InstructorConflicts(classes[..i], day, start, instructor, exclude)
    {
      var c := classes[i];
      assert classes[..i + 1][..i] == classes[..i];
      if c.instructor == instructor && Considered(c, exclude) {
        var hit := OccupiesAt(c, day, start);
        if hit {
          conflicts := conflicts + [c];
        }
      }
    }
    assert classes[..|classes|] == classes;
  }
}
