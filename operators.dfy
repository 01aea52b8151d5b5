/**
 * The variation operators of the genetic scheduler: tournament selection,
 * single-point crossover, mutation of instructor or meeting time, and the
 * repair of unset fields (GeneticAlgorithm.selection, crossover, mutate,
 * _repair_individual). Individuals are values; every random draw is an
 * arbitrary element of its candidate list.
 */
module Operators {
  import opened Wrappers
  import opened Models
  import opened Candidates

  // ---------------------------------------------------------------------
  // Tournament selection

  const TournamentSize: nat := 5

  /** A tournament: `min(5, n)` distinct indices into a population of `n`. */
  predicate IsTournament(sample: seq<nat>, n: nat) {
    && |sample| == (if n < TournamentSize then n else TournamentSize)
    && (forall i :: 0 <= i < |sample| ==> sample[i] < n)
    && (forall i, j :: 0 <= i < j < |sample| ==> sample[i] != sample[j])
  }

  /** `tournament_fitness.index(max(tournament_fitness))`: the position in
    * the sample of the first entry with the highest fitness. */
  function FirstBest(fitness: seq<real>, sample: seq<nat>): (k: nat)
    requires sample != []
    requires forall i :: 0 <= i < |sample| ==> sample[i] < |fitness|
    ensures k < |sample|
    ensures forall j :: 0 <= j < |sample| ==> fitness[sample[j]] <= fitness[sample[k]]
    ensures forall j :: 0 <= j < k ==> fitness[sample[j]] < fitness[sample[k]]
  {
    if |sample| == 1 then 0
    else
      var k := FirstBest(fitness, sample[..|sample| - 1]);
      if fitness[sample[|sample| - 1]] > fitness[sample[k]] then |sample| - 1 else k
  }

  /** The indices 0..n-1 in order. */
  function Indices(n: nat): (r: seq<nat>)
    ensures |r| == n && forall i :: 0 <= i < n ==> r[i] == i
  {
    if n == 0 then [] else Indices(n - 1) + [n - 1]
  }

  /** One tournament per population slot; each winner is the first fittest
    * member of its tournament. */
  method Selection(population: seq<Individual>, fitness: seq<real>) returns (selected: seq<Individual>, ghost samples: seq<seq<nat>>)
    requires |fitness| == |population|
    ensures |selected| == |population| && |samples| == |population|
    ensures forall i :: 0 <= i < |selected| ==>
              IsTournament(samples[i], |population|)
              && selected[i] == population[samples[i][FirstBest(fitness, samples[i])]]
  {
    var n := |population|;
    var size := if n < TournamentSize then n else TournamentSize;
    selected, samples := [], [];
    for t := 0 to n
      invariant |selected| == t && |samples| == t
      invariant forall i :: 0 <= i < t ==>
                  IsTournament(samples[i], n) && selected[i] == population[samples[i][FirstBest(fitness, samples[i])]]
    {
      assert IsTournament(Indices(size), n);
      var sample: seq<nat> :| IsTournament(sample, n);
      assert IsTournament(sample, n);
      assert n >= 1;
      assert |sample| >= 1;
      var winner := sample[FirstBest(fitness, sample)];
      selected := selected + [population[winner]];
      samples := samples + [sample];
    }
  }

  // ---------------------------------------------------------------------
  // Single-point crossover

  /** `child1 = p1[:k] + p2[k:]`, `child2 = p2[:k] + p1[k:]` for a cut point
    * `k` in [1, len-1]; parents of different lengths or shorter than 2 come
    * back unchanged. */
  function Crossover(p1: Individual, p2: Individual, k: nat): (r: (Individual, Individual))
    requires |p1| == |p2| && |p1| >= 2 ==> 1 <= k < |p1|
    ensures |p1| != |p2| || |p1| < 2 ==> r == (p1, p2)
    ensures |r.0| == |p1| && |r.1| == |p2|
    ensures |p1| == |p2| ==> forall i :: 0 <= i < |p1| ==>
              (r.0[i] == p1[i] && r.1[i] == p2[i]) || (r.0[i] == p2[i] && r.1[i] == p1[i])
  {
    if |p1| != |p2| || |p1| < 2 then (p1, p2)
    else (p1[..k] + p2[k..], p2[..k] + p1[k..])
  }

  /** Crossing the two children again at the same point gives back the parents. */
  lemma CrossoverInvolution(p1: Individual, p2: Individual, k: nat)
    requires |p1| == |p2| && |p1| >= 2 ==> 1 <= k < |p1|
    ensures var c := Crossover(p1, p2, k); Crossover(c.0, c.1, k) == (p1, p2)
  {
    if |p1| == |p2| && |p1| >= 2 {
      var c := Crossover(p1, p2, k);
      assert c.0[..k] + c.1[k..] == p1;
      assert c.1[..k] + c.0[k..] == p2;
    }
  }

  /** Children of two parents shaped like `shape` are shaped like it. */
  lemma CrossoverKeepsShape(p1: Individual, p2: Individual, k: nat, shape: Individual)
    requires |p1| == |p2| && |p1| >= 2 ==> 1 <= k < |p1|
    requires ShapedLike(p1, shape) && ShapedLike(p2, shape)
    ensures ShapedLike(Crossover(p1, p2, k).0, shape) && ShapedLike(Crossover(p1, p2, k).1, shape)
  {
  }

  /** `random.randint(1, len(parent1) - 1)` followed by the crossover. */
  method CrossoverStep(p1: Individual, p2: Individual) returns (c1: Individual, c2: Individual)
    ensures exists k: nat :: (|p1| == |p2| && |p1| >= 2 ==> 1 <= k < |p1|) && (c1, c2) == Crossover(p1, p2, k)
  {
    var k: nat := 1;
    if |p1| == |p2| && |p1| >= 2 {
      k :| 1 <= k < |p1|;
    }
    c1, c2 := Crossover(p1, p2, k).0, Crossover(p1, p2, k).1;
  }

  // ---------------------------------------------------------------------
  // Mutation

  /** One class after mutation: untouched, or only its instructor redrawn
    * from the instructor choices, or only its meeting time redrawn from the
    * time choices. The room is never changed. */
  predicate MutatedClass(before: ClassSession, after: ClassSession, cat: Catalogue) {
    && SameIdentity(after, before)
    && after.room == before.room
    && (|| after == before
        || (after == before.(instructor := after.instructor)
            && after.instructor.Some? && after.instructor.value in InstructorChoices(before.course, cat))
        || (after == before.(meetingTime := after.meetingTime)
            && after.meetingTime.Some? && after.meetingTime.value in TimeChoices(before.course, cat)))
  }

  /** Class by class, `after` is a mutation of `before`. */
  predicate MutatedFrom(before: Individual, after: Individual, cat: Catalogue) {
    |after| == |before| && forall i :: 0 <= i < |after| ==> MutatedClass(before[i], after[i], cat)
  }

  /** Each class independently either keeps its assignment or has its
    * instructor or its meeting time redrawn; an empty candidate list leaves
    * the class as it is. */
  method Mutate(ind: Individual, cat: Catalogue) returns (r: Individual)
    ensures |r| == |ind|
    ensures forall i :: 0 <= i < |r| ==> MutatedClass(ind[i], r[i], cat)
  {
    r := ind;
    for i := 0 to |r|
      invariant |r| == |ind|
      invariant forall j :: 0 <= j < i ==> MutatedClass(ind[j], r[j], cat)
      invariant forall j :: i <= j < |r| ==> r[j] == ind[j]
    {
      var c := r[i];
      var mutates: bool :| true;
      if mutates {
        var mutateInstructor: bool :| true;
        if mutateInstructor {
          var choices := InstructorChoices(c.course, cat);
          if choices != [] {
            var x := Choose(choices);
            c := c.(instructor := Some(x));
          }
        } else {
          var choices := TimeChoices(c.course, cat);
          if choices != [] {
            var mt := Choose(choices);
            c := c.(meetingTime := Some(mt));
          }
        }
      }
      r := r[i := c];
    }
  }

  /** Mutation keeps every class's identity and room. */
  lemma MutationKeepsShapeAndRooms(ind: Individual, r: Individual, cat: Catalogue)
    requires |r| == |ind| && forall i :: 0 <= i < |r| ==> MutatedClass(ind[i], r[i], cat)
    ensures ShapedLike(r, ind)
    ensures forall i :: 0 <= i < |r| ==> r[i].room == ind[i].room
  {
  }

  /** With nothing to draw from, mutation changes nothing. */
  lemma MutationWithoutChoices(ind: Individual, r: Individual, cat: Catalogue)
    requires cat.instructors == [] && cat.meetingTimes == []
    requires forall i :: 0 <= i < |ind| ==> ind[i].course.instructors == []
    requires |r| == |ind| && forall i :: 0 <= i < |r| ==> MutatedClass(ind[i], r[i], cat)
    ensures r == ind
  {
    forall i | 0 <= i < |r| ensures r[i] == ind[i] {
      assert InstructorChoices(ind[i].course, cat) == [];
      assert TimeChoices(ind[i].course, cat) == [];
    }
  }

  // ---------------------------------------------------------------------
  // Repair

  /** An unset field gets an element of its choices when there is one; a
    * set field is left alone. */
  predicate FieldRepaired<T(==)>(before: Option<T>, after: Option<T>, choices: seq<T>) {
    if before.Some? then after == before
    else if choices == [] then after.None?
    else after.Some? && after.value in choices
  }

  /** One class after repair: only the unset instructor, room and meeting
    * time may change, each drawn from its choices. */
  predicate RepairedClass(before: ClassSession, after: ClassSession, cat: Catalogue) {
    && after == before.(instructor := after.instructor, room := after.room, meetingTime := after.meetingTime)
    && FieldRepaired(before.instructor, after.instructor, InstructorChoices(before.course, cat))
    && FieldRepaired(before.room, after.room, RoomChoices(before.course, cat))
    && FieldRepaired(before.meetingTime, after.meetingTime, TimeChoices(before.course, cat))
  }

  predicate RepairedFrom(before: Individual, after: Individual, cat: Catalogue) {
    |after| == |before| && forall i :: 0 <= i < |after| ==> RepairedClass(before[i], after[i], cat)
  }

  /** Draws a value for an unset field from its choices, if there are any. */
  method RepairField<T(==)>(before: Option<T>, choices: seq<T>) returns (after: Option<T>)
    ensures FieldRepaired(before, after, choices)
  {
    after := before;
    if before.None? && choices != [] {
      var x := Choose(choices);
      after := Some(x);
    }
  }

  /** Fills whichever of a class's instructor, room and meeting time is unset. */
  method RepairClass(c: ClassSession, cat: Catalogue) returns (r: ClassSession)
    ensures RepairedClass(c, r, cat)
  {
    var instructor := RepairField(c.instructor, InstructorChoices(c.course, cat));
    var room := RepairField(c.room, RoomChoices(c.course, cat));
    var meetingTime := RepairField(c.meetingTime, TimeChoices(c.course, cat));
    r := c.(instructor := instructor, room := room, meetingTime := meetingTime);
  }

  /** Fills, class by class, whichever of instructor, room and meeting time
    * is unset. */
  method RepairIndividual(ind: Individual, cat: Catalogue) returns (r: Individual)
    ensures RepairedFrom(ind, r, cat)
  {
    r := [];
    for i := 0 to |ind|
      invariant |r| == i
      invariant forall j :: 0 <= j < i ==> RepairedClass(ind[j], r[j], cat)
    {
      var c := RepairClass(ind[i], cat);
      r := r + [c];
    }
  }

  /** Repair keeps every class's identity. */
  lemma RepairKeepsShape(ind: Individual, r: Individual, cat: Catalogue)
    requires RepairedFrom(ind, r, cat)
    ensures ShapedLike(r, ind)
  {
  }

  /** Repairing a fully assigned individual changes nothing. */
  lemma {:induction false} RepairOfCompleteIsIdentity(ind: Individual, r: Individual, cat: Catalogue)
    requires forall i :: 0 <= i < |ind| ==> IsFullyAssigned(ind[i])
    requires RepairedFrom(ind, r, cat)
    ensures r == ind
  {
    forall i | 0 <= i < |r| ensures r[i] == ind[i] {
      assert RepairedClass(ind[i], r[i], cat);
    }
  }

  /** Repair is idempotent: repairing a repaired individual changes nothing,
    * whatever either repair draws. */
  lemma {:induction false} RepairIdempotent(a: Individual, b: Individual, c: Individual, cat: Catalogue)
    requires RepairedFrom(a, b, cat) && RepairedFrom(b, c, cat)
    ensures c == b
  {
    forall i | 0 <= i < |c| ensures c[i] == b[i] {
      assert RepairedClass(a[i], b[i], cat) && RepairedClass(b[i], c[i], cat);
      assert a[i].course == b[i].course;
    }
  }

  /** After repair a field is unset only when both its candidate list and
    * the global fallback are empty; with a full catalogue every class is
    * fully assigned. */
  lemma RepairCompletes(ind: Individual, r: Individual, cat: Catalogue)
    requires RepairedFrom(ind, r, cat)
    ensures forall i :: 0 <= i < |r| ==>
              && (r[i].instructor.None? ==> ind[i].course.instructors == [] && cat.instructors == [])
              && (r[i].room.None? ==> cat.rooms == [])
              && (r[i].meetingTime.None? ==> cat.meetingTimes == [])
    ensures cat.instructors != [] && cat.rooms != [] && cat.meetingTimes != [] ==>
              forall i :: 0 <= i < |r| ==> IsFullyAssigned(r[i])
  {
  }
}
