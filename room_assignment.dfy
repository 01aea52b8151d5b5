/**
 * The one-time room pre-assignment (GeneticAlgorithm._assign_rooms_to_sections):
 * sections, largest first, each take the largest unclaimed room that holds
 * them; a section with a Lab course looks at unclaimed Lab rooms first.
 */
module RoomAssignment {
  import opened Wrappers
  import opened Models
  import opened Sorting

  /** The section takes at least one Lab course (in any semester). */
  predicate HasLabs(s: Section) {
    exists c :: c in s.courses && c.kind == Lab
  }

  /** Unclaimed rooms that hold `n` students, optionally Lab rooms only. */
  function FreeRooms(rooms: seq<Room>, claimed: set<nat>, n: int, labOnly: bool): (r: seq<Room>)
    ensures forall x :: x in r <==>
              x in rooms && x.id !in claimed && x.capacity >= n && (labOnly ==> x.kind == LabRoom)
  {
    if rooms == [] then []
    else if rooms[0].id !in claimed && rooms[0].capacity >= n && (labOnly ==> rooms[0].kind == LabRoom)
    then [rooms[0]] + FreeRooms(rooms[1..], claimed, n, labOnly)
    else FreeRooms(rooms[1..], claimed, n, labOnly)
  }

  /** The rooms a section chooses from, given the rooms already claimed. */
  function Candidates(s: Section, rooms: seq<Room>, claimed: set<nat>): seq<Room> {
    if HasLabs(s) && FreeRooms(rooms, claimed, s.numStudents, true) != []
    then FreeRooms(rooms, claimed, s.numStudents, true)
    else FreeRooms(rooms, claimed, s.numStudents, false)
  }

  function Capacity(r: Room): real { r.capacity as real }

  /** The head of the candidates sorted by capacity, largest first. */
  function Largest(cands: seq<Room>): (r: Option<Room>)
    ensures r.None? <==> cands == []
    ensures r.Some? ==> r.value in cands && forall x :: x in cands ==> x.capacity <= r.value.capacity
  {
    var sorted := SortDesc(cands, Capacity);
    if sorted == [] then None
    else
      assert sorted[0] in multiset(cands);
      assert forall x :: x in cands ==> x in multiset(sorted);
      Some(sorted[0])
  }

  /** The room one section receives when `claimed` is already taken. */
  function RoomFor(s: Section, rooms: seq<Room>, claimed: set<nat>): Option<Room> {
    Largest(Candidates(s, rooms, claimed))
  }

  /** Ids of the rooms given to the sections in `ss`. */
  function Claimed(ss: seq<Section>): set<nat> {
    set i | 0 <= i < |ss| && ss[i].room.Some? :: ss[i].room.value.id
  }

  lemma ClaimedSnoc(ss: seq<Section>, s: Section)
    ensures Claimed(ss + [s]) == if s.room.Some? then Claimed(ss) + {s.room.value.id} else Claimed(ss)
  {
    var t := ss + [s];
    assert forall i :: 0 <= i < |ss| ==> t[i] == ss[i];
    assert t[|ss|] == s;
  }

  /** What one step promises: the room is available, unclaimed and large
    * enough; a section with labs gets a Lab room whenever a free Lab room fits;
    * no candidate is larger; and there is no room only when none fits. */
  lemma {:induction false} RoomForChoice(s: Section, rooms: seq<Room>, claimed: set<nat>)
    ensures var r := RoomFor(s, rooms, claimed);
      && (r.Some? ==> r.value in rooms && r.value.id !in claimed && r.value.capacity >= s.numStudents)
      && (r.Some? && HasLabs(s)
          && (exists x :: x in rooms && x.id !in claimed && x.kind == LabRoom && x.capacity >= s.numStudents)
          ==> r.value.kind == LabRoom)
      && (r.Some? ==> forall x :: x in Candidates(s, rooms, claimed) ==> x.capacity <= r.value.capacity)
      && (r.None? <==> !exists x :: x in rooms && x.id !in claimed && x.capacity >= s.numStudents)
  {
    var labs := FreeRooms(rooms, claimed, s.numStudents, true);
    var any := FreeRooms(rooms, claimed, s.numStudents, false);
    if HasLabs(s) && (exists x :: x in rooms && x.id !in claimed && x.kind == LabRoom && x.capacity >= s.numStudents) {
      var x :| x in rooms && x.id !in claimed && x.kind == LabRoom && x.capacity >= s.numStudents;
      assert x in labs;
    }
    if exists x :: x in rooms && x.id !in claimed && x.capacity >= s.numStudents {
      var x :| x in rooms && x.id !in claimed && x.capacity >= s.numStudents;
      assert x in any;
    }
  }

  /** The size of a section, as a sort key. */
  function Size(s: Section): real { s.numStudents as real }

  /** `placed` is the first |placed| sections of `ordered`, each with the
    * room it gets after the ones before it, no room id twice, each room
    * available and large enough. */
  ghost predicate PlacedInOrder(ordered: seq<Section>, placed: seq<Section>, rooms: seq<Room>) {
    && |placed| <= |ordered|
    && (forall i :: 0 <= i < |placed| ==>
          placed[i] == ordered[i].(room := RoomFor(ordered[i], rooms, Claimed(placed[..i]))))
    && (forall i, j :: 0 <= i < j < |placed| && placed[i].room.Some? && placed[j].room.Some?
          ==> placed[i].room.value.id != placed[j].room.value.id)
    && (forall i :: 0 <= i < |placed| && placed[i].room.Some? ==>
          placed[i].room.value in rooms && placed[i].room.value.capacity >= placed[i].numStudents)
  }

  lemma PlaceNext(ordered: seq<Section>, placed: seq<Section>, rooms: seq<Room>)
    requires PlacedInOrder(ordered, placed, rooms) && |placed| < |ordered|
    ensures var s := ordered[|placed|];
      PlacedInOrder(ordered, placed + [s.(room := RoomFor(s, rooms, Claimed(placed)))], rooms)
  {
    var s := ordered[|placed|];
    RoomForChoice(s, rooms, Claimed(placed));
    PlaceNextByRule(ordered, placed, rooms);
    PlaceNextDistinct(placed, s, rooms);
  }

  /** The next section gets the room the rule gives it after the ones before. */
  lemma PlaceNextByRule(ordered: seq<Section>, placed: seq<Section>, rooms: seq<Room>)
    requires |placed| < |ordered|
    requires forall i :: 0 <= i < |placed| ==>
               placed[i] == ordered[i].(room := RoomFor(ordered[i], rooms, Claimed(placed[..i])))
    ensures var next := placed + [ordered[|placed|].(room := RoomFor(ordered[|placed|], rooms, Claimed(placed)))];
      forall i :: 0 <= i < |next| ==>
        next[i] == ordered[i].(room := RoomFor(ordered[i], rooms, Claimed(next[..i])))
  {
    var k := |placed|;
    var next := placed + [ordered[k].(room := RoomFor(ordered[k], rooms, Claimed(placed)))];
    assert next[..k] == placed;
    forall i | 0 <= i < k ensures next[..i] == placed[..i] {
    }
  }

  /** A room outside `Claimed(placed)` keeps the room ids pairwise distinct. */
  lemma PlaceNextDistinct(placed: seq<Section>, s: Section, rooms: seq<Room>)
    requires forall i, j :: 0 <= i < j < |placed| && placed[i].room.Some? && placed[j].room.Some?
               ==> placed[i].room.value.id != placed[j].room.value.id
    requires var r := RoomFor(s, rooms, Claimed(placed)); r.Some? ==> r.value.id !in Claimed(placed)
    ensures var next := placed + [s.(room := RoomFor(s, rooms, Claimed(placed)))];
      forall i, j :: 0 <= i < j < |next| && next[i].room.Some? && next[j].room.Some?
        ==> next[i].room.value.id != next[j].room.value.id
  {
    var k := |placed|;
    var next := placed + [s.(room := RoomFor(s, rooms, Claimed(placed)))];
    forall i | 0 <= i < k && next[i].room.Some? && next[k].room.Some?
      ensures next[i].room.value.id != next[k].room.value.id
    {
      assert next[i] == placed[i];
      assert placed[i].room.value.id in Claimed(placed);
    }
  }

  /** Processes the sections largest first and returns them, in that order,
    * with their rooms set; a claimed room id is never handed out again. */
  method AssignRoomsToSections(sections: seq<Section>, rooms: seq<Room>) returns (placed: seq<Section>)
    ensures |placed| == |sections|
    ensures forall i :: 0 <= i < |placed| ==>
              placed[i] == SortDesc(sections, Size)[i].(room := RoomFor(SortDesc(sections, Size)[i], rooms, Claimed(placed[..i])))
    ensures forall i, j :: 0 <= i < j < |placed| && placed[i].room.Some? && placed[j].room.Some?
              ==> placed[i].room.value.id != placed[j].room.value.id
    ensures forall i :: 0 <= i < |placed| && placed[i].room.Some? ==>
              placed[i].room.value in rooms && placed[i].room.value.capacity >= placed[i].numStudents
  {
    var ordered := SortDesc(sections, Size);
    var assignedRooms: set<nat> := {};
    placed := [];
    for k := 0 to |ordered|
      invariant |placed| == k
      invariant assignedRooms == Claimed(placed)
      invariant PlacedInOrder(ordered, placed, rooms)
    {
      var section := ordered[k];
      var available: seq<Room>;
      if HasLabs(section) {
        available := FreeRooms(rooms, assignedRooms, section.numStudents, true);
        if available == [] {
          available := FreeRooms(rooms, assignedRooms, section.numStudents, false);
        }
      } else {
        available := FreeRooms(rooms, assignedRooms, section.numStudents, false);
      }
      assert available == Candidates(section, rooms, assignedRooms);
      var room := Largest(available);
      PlaceNext(ordered, placed, rooms);
      ClaimedSnoc(placed, section.(room := room));
      if room.Some? {
        assignedRooms := assignedRooms + {room.value.id};
      }
      placed := placed + [section.(room := room)];
    }
  }
}
