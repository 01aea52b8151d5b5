/**
 * The first generation (GeneticAlgorithm.generate_initial_population): each
 * individual is the catalogue of required classes with, class by class, an
 * instructor, a meeting time that avoids the earlier classes of the same
 * instructor or section where possible, and a room that is not already
 * booked at that day and start time.
 */
module InitialPopulation {
  import opened Wrappers
  import opened Models
  import opened SlotFilter
  import opened TimePredicates
  import opened Candidates

  // ---------------------------------------------------------------------
  // Meeting times free of clashes with the classes placed so far

  /** The class as the lookahead sees it at meeting time `mt`: only its
    * meeting time and duration matter to the overlap test. */
  function Probe(c: ClassSession, mt: MeetingTime): ClassSession {
    c.(meetingTime := Some(mt), room := None, instructor := None)
  }

  /** An earlier class with a meeting time and the same instructor (two
    * unset instructors count as the same) or the same section overlaps
    * class `c` placed at `mt`. */
  predicate Clash(prev: ClassSession, c: ClassSession, mt: MeetingTime) {
    prev.meetingTime.Some?
    && (prev.instructor == c.instructor || prev.section.id == c.section.id)
    && SameTimeSlot(prev, Probe(c, mt))
  }

  predicate ClashesWithEarlier(prefix: seq<ClassSession>, c: ClassSession, mt: MeetingTime) {
    exists j :: 0 <= j < |prefix| && Clash(prefix[j], c, mt)
  }

  /** The times of `times`, in order, at which `c` clashes with no class of `prefix`. */
  function FreeTimes(prefix: seq<ClassSession>, c: ClassSession, times: seq<MeetingTime>): (r: seq<MeetingTime>)
    ensures forall mt :: mt in r <==> mt in times && !ClashesWithEarlier(prefix, c, mt)
  {
    if times == [] then []
    else
      var last := times[|times| - 1];
      assert times == times[..|times| - 1] + [last];
      FreeTimes(prefix, c, times[..|times| - 1]) + (if ClashesWithEarlier(prefix, c, last) then [] else [last])
  }

  /** The lookahead reads the instructor and nothing of the class's own
    * room or meeting time. */
  lemma FreeTimesSameProbe(prefix: seq<ClassSession>, c: ClassSession, d: ClassSession, times: seq<MeetingTime>)
    requires c.instructor == d.instructor
    requires c.(meetingTime := None, room := None) == d.(meetingTime := None, room := None)
    ensures FreeTimes(prefix, c, times) == FreeTimes(prefix, d, times)
  {
    if times != [] {
      var last := times[|times| - 1];
      assert Probe(c, last) == Probe(d, last);
      FreeTimesSameProbe(prefix, c, d, times[..|times| - 1]);
    }
  }

  /** The inner loop of the lookahead: scans the earlier classes and stops
    * at the first clash. */
  method ClashesAt(prefix: seq<ClassSession>, c: ClassSession, mt: MeetingTime) returns (conflict: bool)
    ensures conflict == ClashesWithEarlier(prefix, c, mt)
  {
    conflict := false;
    var j := 0;
    while j < |prefix| && !conflict
      invariant 0 <= j <= |prefix|
      invariant conflict <==> exists k :: 0 <= k < j && Clash(prefix[k], c, mt)
    {
      var prev := prefix[j];
      if prev.meetingTime.Some? && prev.instructor == c.instructor && SameTimeSlot(prev, Probe(c, mt)) {
        conflict := true;
      } else if prev.meetingTime.Some? && prev.section.id == c.section.id && SameTimeSlot(prev, Probe(c, mt)) {
        conflict := true;
      }
      j := j + 1;
    }
  }

  /** The source's double loop over candidate times and earlier classes. */
  method ConflictFreeTimes(prefix: seq<ClassSession>, c: ClassSession, times: seq<MeetingTime>) returns (available: seq<MeetingTime>)
    ensures available == FreeTimes(prefix, c, times)
  {
    available := [];
    for t := 0 to |times|
      invariant available == FreeTimes(prefix, c, times[..t])
    {
      var mt := times[t];
      var conflict := ClashesAt(prefix, c, mt);
      assert times[..t + 1] == times[..t] + [mt];
      if !conflict {
        available := available + [mt];
      }
    }
    assert times[..|times|] == times;
  }

  // ---------------------------------------------------------------------
  // Rooms booked per (day, start time)

  /** The key under which a room is booked. */
  function SlotKey(mt: MeetingTime): (Day, Time) {
    (mt.day, mt.start)
  }

  /** Ids of the rooms the classes of `prefix` hold at `key`. */
  function RoomsAt(prefix: seq<ClassSession>, key: (Day, Time)): set<nat> {
    set j | 0 <= j < |prefix| && prefix[j].room.Some? && prefix[j].meetingTime.Some?
                              && SlotKey(prefix[j].meetingTime.value) == key :: prefix[j].room.value.id
  }

  lemma RoomsAtSnoc(prefix: seq<ClassSession>, c: ClassSession, key: (Day, Time))
    ensures RoomsAt(prefix + [c], key) ==
            RoomsAt(prefix, key)
            + (if c.room.Some? && c.meetingTime.Some? && SlotKey(c.meetingTime.value) == key
               then {c.room.value.id} else {})
  {
    var t := prefix + [c];
    assert forall j :: 0 <= j < |prefix| ==> t[j] == prefix[j];
    assert t[|prefix|] == c;
  }

  /** The rooms of `rooms`, in order, whose id is not in `taken`. */
  function FreeOf(rooms: seq<Room>, taken: set<nat>): (r: seq<Room>)
    ensures forall x :: x in r <==> x in rooms && x.id !in taken
  {
    if rooms == [] then []
    else if rooms[0].id !in taken then [rooms[0]] + FreeOf(rooms[1..], taken)
    else FreeOf(rooms[1..], taken)
  }

  // ---------------------------------------------------------------------
  // What one class receives

  /** The course's own instructors first, then any available one, else none. */
  predicate InstructorBuilt(c: ClassSession, cat: Catalogue) {
    var choices := InstructorChoices(c.course, cat);
    if choices != [] then c.instructor.Some? && c.instructor.value in choices else c.instructor.None?
  }

  /** A suitable time free of clashes with earlier classes; failing that any
    * suitable time; failing that any time; else none. */
  predicate TimeBuilt(prefix: seq<ClassSession>, c: ClassSession, cat: Catalogue) {
    var suitable := SuitableMeetingTimes(c.course, cat.meetingTimes);
    var free := FreeTimes(prefix, c, suitable);
    if free != [] then c.meetingTime.Some? && c.meetingTime.value in free
    else if suitable != [] then c.meetingTime.Some? && c.meetingTime.value in suitable
    else if cat.meetingTimes != [] then c.meetingTime.Some? && c.meetingTime.value in cat.meetingTimes
    else c.meetingTime.None?
  }

  /** No room without a time. With a time: the section's own room if it is
    * not booked at that slot; else an unbooked suitable room; else any
    * unbooked room; else none. */
  predicate RoomBuilt(prefix: seq<ClassSession>, c: ClassSession, cat: Catalogue) {
    if c.meetingTime.None? then c.room.None?
    else
      var taken := RoomsAt(prefix, SlotKey(c.meetingTime.value));
      var own := c.section.room;
      if own.Some? && own.value.id !in taken then c.room == own
      else
        var suitableFree := FreeOf(SuitableRooms(c.course, cat.rooms), taken);
        var anyFree := FreeOf(cat.rooms, taken);
        if suitableFree != [] then c.room.Some? && c.room.value in suitableFree
        else if anyFree != [] then c.room.Some? && c.room.value in anyFree
        else c.room.None?
  }

  /** Class `c`, placed after the classes of `prefix`, is `orig` with the
    * three assignments the source's rules allow. */
  predicate ClassBuilt(prefix: seq<ClassSession>, c: ClassSession, orig: ClassSession, cat: Catalogue) {
    && c == orig.(instructor := c.instructor, meetingTime := c.meetingTime, room := c.room)
    && InstructorBuilt(c, cat)
    && TimeBuilt(prefix, c, cat)
    && RoomBuilt(prefix, c, cat)
  }

  /** Every class of `ind` was built after the ones before it. */
  predicate Built(ind: Individual, allClasses: seq<ClassSession>, cat: Catalogue) {
    |ind| == |allClasses| && forall k :: 0 <= k < |ind| ==> ClassBuilt(ind[..k], ind[k], allClasses[k], cat)
  }

  // ---------------------------------------------------------------------
  // The source's loops

  /** `used_rooms` records, per (day, start time), exactly the rooms the
    * classes placed so far hold there. */
  ghost predicate Tracks(usedRooms: map<(Day, Time), set<nat>>, prefix: seq<ClassSession>) {
    && (forall key :: key in usedRooms ==> usedRooms[key] == RoomsAt(prefix, key))
    && (forall key :: key !in usedRooms ==> RoomsAt(prefix, key) == {})
  }

  method ChooseInstructor(c: ClassSession, cat: Catalogue) returns (instructor: Option<nat>)
    ensures InstructorBuilt(c.(instructor := instructor), cat)
  {
    var instructors := InstructorChoices(c.course, cat);
    if instructors != [] {
      var x := Choose(instructors);
      instructor := Some(x);
    } else {
      instructor := None;
    }
  }

  method ChooseTime(prefix: seq<ClassSession>, c: ClassSession, cat: Catalogue) returns (mt: Option<MeetingTime>)
    ensures TimeBuilt(prefix, c.(meetingTime := mt), cat)
  {
    var suitable := SuitableMeetingTimes(c.course, cat.meetingTimes);
    var available := ConflictFreeTimes(prefix, c, suitable);
    if available != [] {
      var x := Choose(available);
      mt := Some(x);
    } else if suitable != [] {
      var x := Choose(suitable);
      mt := Some(x);
    } else if cat.meetingTimes != [] {
      var x := Choose(cat.meetingTimes);
      mt := Some(x);
    } else {
      mt := None;
    }
    FreeTimesSameProbe(prefix, c.(meetingTime := mt), c, suitable);
  }

  method ChooseRoom(prefix: seq<ClassSession>, c: ClassSession, cat: Catalogue, usedRooms: map<(Day, Time), set<nat>>)
    returns (room: Option<Room>, usedRooms': map<(Day, Time), set<nat>>)
    requires Tracks(usedRooms, prefix)
    ensures RoomBuilt(prefix, c.(room := room), cat)
    ensures Tracks(usedRooms', prefix + [c.(room := room)])
  {
    usedRooms' := usedRooms;
    if c.meetingTime.Some? {
      var key := SlotKey(c.meetingTime.value);
      if key !in usedRooms' {
        usedRooms' := usedRooms'[key := {}];
      }
      var taken := usedRooms'[key];
      if c.section.room.Some? && c.section.room.value.id !in taken {
        room := c.section.room;
      } else {
        var suitableFree := FreeOf(SuitableRooms(c.course, cat.rooms), taken);
        var anyFree := FreeOf(cat.rooms, taken);
        if suitableFree != [] {
          var r := Choose(suitableFree);
          room := Some(r);
        } else if anyFree != [] {
          var r := Choose(anyFree);
          room := Some(r);
        } else {
          room := None;
        }
      }
      if room.Some? {
        usedRooms' := usedRooms'[key := usedRooms'[key] + {room.value.id}];
      }
    } else {
      room := None;
    }
    forall key ensures RoomsAt(prefix + [c.(room := room)], key) ==
                         RoomsAt(prefix, key)
                         + (if room.Some? && c.meetingTime.Some? && SlotKey(c.meetingTime.value) == key
                            then {room.value.id} else {}) {
      RoomsAtSnoc(prefix, c.(room := room), key);
    }
  }

  /** The body of the per-class loop: instructor, then meeting time, then
    * room, each seeing the classes placed before. */
  method PlaceClass(prefix: seq<ClassSession>, orig: ClassSession, cat: Catalogue, usedRooms: map<(Day, Time), set<nat>>)
    returns (c: ClassSession, usedRooms': map<(Day, Time), set<nat>>)
    requires Tracks(usedRooms, prefix)
    ensures ClassBuilt(prefix, c, orig, cat)
    ensures Tracks(usedRooms', prefix + [c])
  {
    var instructor := ChooseInstructor(orig, cat);
    c := orig.(instructor := instructor);
    var mt := ChooseTime(prefix, c, cat);
    c := c.(meetingTime := mt);
    var room;
    room, usedRooms' := ChooseRoom(prefix, c, cat, usedRooms);
    FreeTimesSameProbe(prefix, c.(room := room), c, SuitableMeetingTimes(c.course, cat.meetingTimes));
    c := c.(room := room);
  }

  /** One individual: the classes are visited in catalogue order and each
    * sees the assignments of the ones before it. */
  method BuildIndividual(allClasses: seq<ClassSession>, cat: Catalogue) returns (ind: Individual)
    ensures Built(ind, allClasses, cat)
  {
    ind := allClasses;
    var usedRooms: map<(Day, Time), set<nat>> := map[];
    for idx := 0 to |ind|
      invariant |ind| == |allClasses|
      invariant forall k :: 0 <= k < idx ==> ClassBuilt(ind[..k], ind[k], allClasses[k], cat)
      invariant forall k :: idx <= k < |ind| ==> ind[k] == allClasses[k]
      invariant Tracks(usedRooms, ind[..idx])
    {
      var prefix := ind[..idx];
      var c;
      c, usedRooms := PlaceClass(prefix, ind[idx], cat, usedRooms);
      ind := ind[idx := c];
      assert ind[..idx + 1] == prefix + [c];
      assert forall k :: 0 <= k <= idx ==> ind[..k] == prefix[..k];
    }
  }

  /** `population_size` individuals, each built independently from the
    * catalogue. */
  method GenerateInitialPopulation(allClasses: seq<ClassSession>, cat: Catalogue, populationSize: nat)
    returns (population: seq<Individual>)
    ensures |population| == populationSize
    ensures forall i :: 0 <= i < |population| ==> Built(population[i], allClasses, cat)
  {
    population := [];
    for n := 0 to populationSize
      invariant |population| == n
      invariant forall i :: 0 <= i < n ==> Built(population[i], allClasses, cat)
    {
      var individual := BuildIndividual(allClasses, cat);
      population := population + [individual];
    }
  }

  // ---------------------------------------------------------------------
  // What every initial individual satisfies

  /** Each individual is the catalogue with only instructor, room and
    * meeting time filled in. */
  lemma BuiltKeepsCatalogue(ind: Individual, allClasses: seq<ClassSession>, cat: Catalogue)
    requires Built(ind, allClasses, cat)
    ensures ShapedLike(ind, allClasses)
    ensures forall k :: 0 <= k < |ind| ==>
              ind[k] == allClasses[k].(instructor := ind[k].instructor, room := ind[k].room, meetingTime := ind[k].meetingTime)
  {
    forall k | 0 <= k < |ind| ensures SameIdentity(ind[k], allClasses[k]) {
      assert ClassBuilt(ind[..k], ind[k], allClasses[k], cat);
    }
  }

  /** The instructor comes from the course's instructors, or from all
    * available ones when the course has none, and is unset only when both
    * are empty; the meeting time comes from the suitable times, or from all
    * times when none suits, and is unset only when there are no times. */
  lemma {:induction false} BuiltDrawsFromChoices(ind: Individual, allClasses: seq<ClassSession>, cat: Catalogue)
    requires Built(ind, allClasses, cat)
    ensures forall k :: 0 <= k < |ind| ==>
              && (ind[k].instructor.Some? <==> InstructorChoices(ind[k].course, cat) != [])
              && (ind[k].instructor.Some? ==> ind[k].instructor.value in InstructorChoices(ind[k].course, cat))
              && (ind[k].meetingTime.Some? <==> cat.meetingTimes != [])
              && (ind[k].meetingTime.Some? ==> ind[k].meetingTime.value in TimeChoices(ind[k].course, cat))
  {
    forall k | 0 <= k < |ind|
      ensures && (ind[k].instructor.Some? <==> InstructorChoices(ind[k].course, cat) != [])
              && (ind[k].instructor.Some? ==> ind[k].instructor.value in InstructorChoices(ind[k].course, cat))
              && (ind[k].meetingTime.Some? <==> cat.meetingTimes != [])
              && (ind[k].meetingTime.Some? ==> ind[k].meetingTime.value in TimeChoices(ind[k].course, cat))
    {
      var c := ind[k];
      assert ClassBuilt(ind[..k], c, allClasses[k], cat);
      var suitable := SuitableMeetingTimes(c.course, cat.meetingTimes);
      if suitable != [] {
        assert suitable[0] in suitable;
      }
    }
  }

  /** When a suitable time free of clashes exists, the class gets one: no
    * earlier class with the same instructor or section overlaps it. */
  lemma {:induction false} BuiltAvoidsClashes(ind: Individual, allClasses: seq<ClassSession>, cat: Catalogue, k: nat)
    requires Built(ind, allClasses, cat) && k < |ind|
    requires FreeTimes(ind[..k], ind[k], SuitableMeetingTimes(ind[k].course, cat.meetingTimes)) != []
    ensures ind[k].meetingTime.Some?
    ensures ind[k].meetingTime.value in SuitableMeetingTimes(ind[k].course, cat.meetingTimes)
    ensures forall j :: 0 <= j < k ==> !Clash(ind[j], ind[k], ind[k].meetingTime.value)
  {
    assert ClassBuilt(ind[..k], ind[k], allClasses[k], cat);
    forall j | 0 <= j < k ensures !Clash(ind[j], ind[k], ind[k].meetingTime.value) {
      assert ind[..k][j] == ind[j];
    }
  }

  /** The room a class gets is not held by an earlier class at its slot. */
  lemma RoomIsFree(prefix: seq<ClassSession>, c: ClassSession, cat: Catalogue)
    requires RoomBuilt(prefix, c, cat) && c.room.Some?
    ensures c.meetingTime.Some? && c.room.value.id !in RoomsAt(prefix, SlotKey(c.meetingTime.value))
  {
  }

  /** A room is only assigned together with a meeting time, and no two
    * classes at the same day and start time share a room. */
  lemma {:induction false} BuiltRoomsUnique(ind: Individual, allClasses: seq<ClassSession>, cat: Catalogue)
    requires Built(ind, allClasses, cat)
    ensures forall k :: 0 <= k < |ind| && ind[k].room.Some? ==> ind[k].meetingTime.Some?
    ensures forall i, j :: 0 <= i < j < |ind| && ind[i].room.Some? && ind[j].room.Some?
                           && SlotKey(ind[i].meetingTime.value) == SlotKey(ind[j].meetingTime.value)
                           ==> ind[i].room.value.id != ind[j].room.value.id
  {
    forall k | 0 <= k < |ind| && ind[k].room.Some? ensures ind[k].meetingTime.Some? {
      assert ClassBuilt(ind[..k], ind[k], allClasses[k], cat);
    }
    forall i, j | 0 <= i < j < |ind| && ind[i].room.Some? && ind[j].room.Some?
                  && SlotKey(ind[i].meetingTime.value) == SlotKey(ind[j].meetingTime.value)
      ensures ind[i].room.value.id != ind[j].room.value.id
    {
      assert ClassBuilt(ind[..j], ind[j], allClasses[j], cat);
      RoomIsFree(ind[..j], ind[j], cat);
      var prefix := ind[..j];
      assert prefix[i] == ind[i];
      assert ind[i].room.value.id in RoomsAt(prefix, SlotKey(ind[j].meetingTime.value));
    }
  }

  /** A class with a meeting time keeps its section's room whenever no
    * earlier class holds that room at the same day and start time; it is
    * left without a room only when every available room is held there. */
  lemma {:induction false} BuiltPrefersSectionRoom(ind: Individual, allClasses: seq<ClassSession>, cat: Catalogue, k: nat)
    requires Built(ind, allClasses, cat) && k < |ind| && ind[k].meetingTime.Some?
    ensures var key := SlotKey(ind[k].meetingTime.value);
      && (ind[k].section.room.Some?
          && (forall j :: 0 <= j < k && ind[j].room.Some? && ind[j].meetingTime.Some?
                          && SlotKey(ind[j].meetingTime.value) == key
                          ==> ind[j].room.value.id != ind[k].section.room.value.id)
          ==> ind[k].room == ind[k].section.room)
      && (ind[k].room.None? ==>
          forall r :: r in cat.rooms ==>
            exists j :: 0 <= j < k && ind[j].room.Some? && ind[j].meetingTime.Some?
                        && SlotKey(ind[j].meetingTime.value) == key && ind[j].room.value.id == r.id)
  {
    var c := ind[k];
    var prefix := ind[..k];
    var key := SlotKey(c.meetingTime.value);
    assert ClassBuilt(prefix, c, allClasses[k], cat);
    forall j | 0 <= j < k ensures prefix[j] == ind[j] {
    }
    if c.section.room.Some?
       && (forall j :: 0 <= j < k && ind[j].room.Some? && ind[j].meetingTime.Some?
                       && SlotKey(ind[j].meetingTime.value) == key
                       ==> ind[j].room.value.id != c.section.room.value.id) {
      assert c.section.room.value.id !in RoomsAt(prefix, key);
    }
    if c.room.None? {
      forall r | r in cat.rooms
        ensures exists j :: 0 <= j < k && ind[j].room.Some? && ind[j].meetingTime.Some?
                            && SlotKey(ind[j].meetingTime.value) == key && ind[j].room.value.id == r.id
      {
        assert r.id in RoomsAt(prefix, key);
      }
    }
  }
}
