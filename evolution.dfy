/**
 * The main loop of the genetic scheduler (GeneticAlgorithm.evolve): score
 * the population, keep the best individual seen (a fully assigned one
 * replaces a partial one even at a lower score), stop after 200 generations
 * without improvement or once the current best is fully assigned and meets
 * every weekly requirement, and otherwise breed the next generation from the
 * elite and repaired children.
 */
module Evolution {
  import opened Wrappers
  import opened Models
  import opened Sorting
  import opened Candidates
  import opened Fitness
  import opened Operators
  import opened InitialPopulation

  const MaxStagnation: nat := 200

  /** Python's `int()` on a real: truncation toward zero. */
  function Truncate(x: real): int {
    if x >= 0.0 then x.Floor else -((-x).Floor)
  }

  /** `max(1, int(len(population) * elite_rate))`. */
  function EliteSize(n: nat, rate: real): (k: int)
    ensures k >= 1
  {
    var t := Truncate(n as real * rate);
    if t < 1 then 1 else t
  }

  /** Population indices, fittest first, ties in index order. */
  function Ranked(fitness: seq<real>): (r: seq<nat>)
    ensures |r| == |fitness|
    ensures forall i :: 0 <= i < |r| ==> r[i] < |fitness|
    ensures forall i, j :: 0 <= i < j < |r| ==> fitness[r[i]] >= fitness[r[j]]
    ensures multiset(r) == multiset(Indices(|fitness|))
  {
    var key: nat -> real := (i: nat) => if i < |fitness| then fitness[i] else 0.0;
    var r := SortDesc<nat>(Indices(|fitness|), key);
    forall i | 0 <= i < |r| ensures r[i] < |fitness| {
      assert r[i] in multiset(Indices(|fitness|));
    }
    r
  }

  /** Every elite is at least as fit as every individual left out of the elite. */
  lemma {:induction false} ElitesAreFittest(fitness: seq<real>, elite: nat, i: nat, j: nat)
    requires elite <= |fitness| && i < elite && j < |fitness|
    requires j !in Ranked(fitness)[..elite]
    ensures fitness[Ranked(fitness)[i]] >= fitness[j]
  {
    var r := Ranked(fitness);
    assert Indices(|fitness|)[j] == j;
    assert j in multiset(Indices(|fitness|));
    assert j in r;
    var m :| 0 <= m < |r| && r[m] == j;
  }

  /** Every class has an instructor, a room and a meeting time. */
  predicate AllAssigned(ind: Individual) {
    forall i :: 0 <= i < |ind| ==> IsFullyAssigned(ind[i])
  }

  /** A catalogue from which repair can always fill every field. */
  predicate FullCatalogue(cat: Catalogue) {
    cat.instructors != [] && cat.rooms != [] && cat.meetingTimes != []
  }

  /** Fitness of every individual, in order. */
  lemma ScoresSnoc(population: seq<Individual>, fitness: seq<real>, f: real, cat: Catalogue, sqrt: real -> real)
    requires IsSquareRoot(sqrt) && |fitness| < |population|
    requires forall j :: 0 <= j < |fitness| ==> fitness[j] == Score(population[j], cat.meetingTimes, sqrt)
    requires f == Score(population[|fitness|], cat.meetingTimes, sqrt)
    ensures forall j :: 0 <= j <= |fitness| ==> (fitness + [f])[j] == Score(population[j], cat.meetingTimes, sqrt)
  {
  }

  method ScorePopulation(population: seq<Individual>, cat: Catalogue, sqrt: real -> real) returns (fitness: seq<real>)
    requires IsSquareRoot(sqrt)
    ensures |fitness| == |population|
    ensures forall i :: 0 <= i < |population| ==> fitness[i] == Score(population[i], cat.meetingTimes, sqrt)
  {
    fitness := [];
    for i := 0 to |population|
      invariant |fitness| == i
      invariant forall j :: 0 <= j < i ==> fitness[j] == Score(population[j], cat.meetingTimes, sqrt)
    {
      var f := CalculateFitness(population[i], cat.meetingTimes, sqrt);
      ScoresSnoc(population, fitness, f, cat, sqrt);
      fitness := fitness + [f];
    }
  }

  /** One child pair: two parents drawn from the selected pool, crossed at
    * some cut point, mutated and repaired. The ghost results name the
    * parents, the cut point and the two mutants. */
  method Breed(selected: seq<Individual>, cat: Catalogue, ghost shape: Individual)
    returns (c1: Individual, c2: Individual, ghost p1: Individual, ghost p2: Individual, ghost k: nat,
             ghost m1: Individual, ghost m2: Individual)
    requires selected != [] && forall i :: 0 <= i < |selected| ==> ShapedLike(selected[i], shape)
    ensures p1 in selected && p2 in selected
    ensures |p1| == |p2| && |p1| >= 2 ==> 1 <= k < |p1|
    ensures MutatedFrom(Crossover(p1, p2, k).0, m1, cat) && MutatedFrom(Crossover(p1, p2, k).1, m2, cat)
    ensures RepairedFrom(m1, c1, cat) && RepairedFrom(m2, c2, cat)
    ensures ShapedLike(c1, shape) && ShapedLike(c2, shape)
    ensures FullCatalogue(cat) ==> AllAssigned(c1) && AllAssigned(c2)
  {
    var parent1 := Choose(selected);
    var parent2 := Choose(selected);
    p1, p2 := parent1, parent2;
    var x1, x2 := CrossoverStep(parent1, parent2);
    k :| (|p1| == |p2| && |p1| >= 2 ==> 1 <= k < |p1|) && (x1, x2) == Crossover(p1, p2, k);
    CrossoverKeepsShape(p1, p2, k, shape);
    var mutant1 := Mutate(x1, cat);
    var mutant2 := Mutate(x2, cat);
    m1, m2 := mutant1, mutant2;
    MutationKeepsShapeAndRooms(x1, m1, cat);
    MutationKeepsShapeAndRooms(x2, m2, cat);
    c1 := RepairIndividual(mutant1, cat);
    c2 := RepairIndividual(mutant2, cat);
    RepairKeepsShape(m1, c1, cat);
    RepairKeepsShape(m2, c2, cat);
    RepairCompletes(m1, c1, cat);
    RepairCompletes(m2, c2, cat);
  }

  /** How one child came about: its parents from the selected pool, the cut
    * point, which of the two crossover children it grew from (`first`), and
    * that child after mutation, before repair. */
  datatype Origin = Origin(p1: Individual, p2: Individual, k: nat, first: bool, mutant: Individual)

  /** `child` is the repaired mutant of one child of crossing two selected
    * parents at a valid cut point. */
  ghost predicate BredFrom(child: Individual, o: Origin, selected: seq<Individual>, cat: Catalogue) {
    && o.p1 in selected && o.p2 in selected
    && (|o.p1| == |o.p2| && |o.p1| >= 2 ==> 1 <= o.k < |o.p1|)
    && MutatedFrom(if o.first then Crossover(o.p1, o.p2, o.k).0 else Crossover(o.p1, o.p2, o.k).1, o.mutant, cat)
    && RepairedFrom(o.mutant, child, cat)
  }

  /** Every child in `children` is bred as its entry in `origins` says. */
  ghost predicate AllBredFrom(children: seq<Individual>, origins: seq<Origin>, selected: seq<Individual>, cat: Catalogue) {
    |children| == |origins| && forall j :: 0 <= j < |origins| ==> BredFrom(children[j], origins[j], selected, cat)
  }

  /** The number of elites kept: `elite_size`, cut to the population size. */
  function EliteCount(n: nat, rate: real): (e: nat)
    ensures 1 <= e || n == 0
    ensures e <= n
  {
    if EliteSize(n, rate) < n then EliteSize(n, rate) else n
  }

  /** The next generation: the elite, fittest first, then repaired children
    * of tournament winners, cut back to the population size. The ghost
    * results are the tournament samples, the winners they give, and the
    * origin of each child after the elite. */
  method NextGeneration(population: seq<Individual>, fitness: seq<real>, cat: Catalogue, eliteRate: real, ghost shape: Individual)
    returns (next: seq<Individual>, ghost selected: seq<Individual>, ghost samples: seq<seq<nat>>, ghost origins: seq<Origin>)
    requires |fitness| == |population| && |population| >= 1
    requires forall i :: 0 <= i < |population| ==> ShapedLike(population[i], shape)
    ensures |next| == |population|
    ensures forall i :: 0 <= i < |next| ==> ShapedLike(next[i], shape)
    ensures |selected| == |population| && |samples| == |population|
    ensures forall i :: 0 <= i < |selected| ==>
              IsTournament(samples[i], |population|)
              && selected[i] == population[samples[i][FirstBest(fitness, samples[i])]]
    ensures forall i :: 0 <= i < EliteCount(|population|, eliteRate) ==> next[i] == population[Ranked(fitness)[i]]
    ensures AllBredFrom(next[EliteCount(|population|, eliteRate)..], origins, selected, cat)
    ensures FullCatalogue(cat) ==> forall i :: EliteCount(|population|, eliteRate) <= i < |next| ==> AllAssigned(next[i])
  {
    var n := |population|;
    var winners;
    winners, samples := Selection(population, fitness);
    selected := winners;
    forall i | 0 <= i < |winners| ensures ShapedLike(winners[i], shape) {
      assert IsTournament(samples[i], n);
    }
    var elite := EliteCount(n, eliteRate);
    var prefix := Elites(population, fitness, elite, shape);
    next, origins := FillWithChildren(prefix, winners, n, cat, shape);
    forall i | 0 <= i < elite ensures next[i] == population[Ranked(fitness)[i]] {
      assert next[..elite][i] == prefix[i];
    }
  }

  /** The first `elite` individuals by rank, fittest first. */
  method Elites(population: seq<Individual>, fitness: seq<real>, elite: nat, ghost shape: Individual)
    returns (prefix: seq<Individual>)
    requires |fitness| == |population| && elite <= |population|
    requires forall i :: 0 <= i < |population| ==> ShapedLike(population[i], shape)
    ensures |prefix| == elite
    ensures forall j :: 0 <= j < elite ==> prefix[j] == population[Ranked(fitness)[j]]
    ensures forall j :: 0 <= j < elite ==> ShapedLike(prefix[j], shape)
  {
    var ranked := Ranked(fitness);
    prefix := [];
    for i := 0 to elite
      invariant |prefix| == i
      invariant forall j :: 0 <= j < i ==> prefix[j] == population[ranked[j]]
      invariant forall j :: 0 <= j < i ==> ShapedLike(prefix[j], shape)
    {
      prefix := prefix + [population[ranked[i]]];
    }
  }

  /** `while len(new_population) < len(population)`: child pairs are added
    * after `prefix`, and the list is cut back to `n`. `origins[j]` says how
    * the child at `|prefix| + j` was bred. */
  method FillWithChildren(prefix: seq<Individual>, selected: seq<Individual>, n: nat, cat: Catalogue, ghost shape: Individual)
    returns (next: seq<Individual>, ghost origins: seq<Origin>)
    requires |prefix| <= n
    requires forall j :: 0 <= j < |prefix| ==> ShapedLike(prefix[j], shape)
    requires selected != [] && forall i :: 0 <= i < |selected| ==> ShapedLike(selected[i], shape)
    ensures |next| == n && next[..|prefix|] == prefix
    ensures forall j :: 0 <= j < n ==> ShapedLike(next[j], shape)
    ensures AllBredFrom(next[|prefix|..], origins, selected, cat)
    ensures FullCatalogue(cat) ==> forall j :: |prefix| <= j < n ==> AllAssigned(next[j])
  {
    next, origins := prefix, [];
    while |next| < n
      invariant |prefix| <= |next| && next[..|prefix|] == prefix
      invariant forall j :: 0 <= j < |next| ==> ShapedLike(next[j], shape)
      invariant |origins| == |next| - |prefix|
      invariant forall j :: 0 <= j < |origins| ==> BredFrom(next[|prefix| + j], origins[j], selected, cat)
      invariant FullCatalogue(cat) ==> forall j :: |prefix| <= j < |next| ==> AllAssigned(next[j])
      decreases n - |next|
    {
      var c1, c2;
      ghost var p1, p2, k, m1, m2;
      c1, c2, p1, p2, k, m1, m2 := Breed(selected, cat, shape);
      ChildrenSnoc(prefix, next, origins, selected, cat, c1, c2, Origin(p1, p2, k, true, m1), Origin(p1, p2, k, false, m2));
      next, origins := next + [c1, c2], origins + [Origin(p1, p2, k, true, m1), Origin(p1, p2, k, false, m2)];
    }
    ghost var all, allOrigins := next, origins;
    next, origins := next[..n], origins[..n - |prefix|];
    forall j | 0 <= j < |origins| ensures BredFrom(next[|prefix|..][j], origins[j], selected, cat) {
      assert next[|prefix|..][j] == all[|prefix| + j] && origins[j] == allOrigins[j];
    }
  }

  /** Appending a bred pair keeps every child after `prefix` tied to its origin. */
  lemma ChildrenSnoc(prefix: seq<Individual>, next: seq<Individual>, origins: seq<Origin>, selected: seq<Individual>,
                     cat: Catalogue, c1: Individual, c2: Individual, o1: Origin, o2: Origin)
    requires |prefix| <= |next| && |origins| == |next| - |prefix|
    requires forall j :: 0 <= j < |origins| ==> BredFrom(next[|prefix| + j], origins[j], selected, cat)
    requires BredFrom(c1, o1, selected, cat) && BredFrom(c2, o2, selected, cat)
    ensures forall j :: 0 <= j < |origins| + 2 ==>
              BredFrom((next + [c1, c2])[|prefix| + j], (origins + [o1, o2])[j], selected, cat)
  {
    forall j | 0 <= j < |origins| + 2
      ensures BredFrom((next + [c1, c2])[|prefix| + j], (origins + [o1, o2])[j], selected, cat)
    {
      if j < |origins| {
        assert (next + [c1, c2])[|prefix| + j] == next[|prefix| + j];
        assert (origins + [o1, o2])[j] == origins[j];
      }
    }
  }

  /** `xs.index(max(xs))`: the first position of the largest value. */
  function FirstMax(xs: seq<real>): (k: nat)
    requires xs != []
    ensures k < |xs|
    ensures forall i :: 0 <= i < |xs| ==> xs[i] <= xs[k]
    ensures forall i :: 0 <= i < k ==> xs[i] < xs[k]
  {
    var all := Indices(|xs|);
    var k := FirstBest(xs, all);
    assert all[k] == k;
    assert forall i :: 0 <= i < |xs| ==> xs[i] <= xs[k] by {
      forall i | 0 <= i < |xs| ensures xs[i] <= xs[k] {
        assert xs[all[i]] <= xs[all[k]];
      }
    }
    assert forall i :: 0 <= i < k ==> xs[i] < xs[k] by {
      forall i | 0 <= i < k ensures xs[i] < xs[k] {
        assert xs[all[i]] < xs[all[k]];
      }
    }
    k
  }

  /** Scores the population and finds the first individual with the
    * highest score (`fitness_scores.index(max(fitness_scores))`). */
  method BestOf(population: seq<Individual>, cat: Catalogue, sqrt: real -> real) returns (fitness: seq<real>, top: nat)
    requires IsSquareRoot(sqrt) && |population| >= 1
    ensures |fitness| == |population| && top < |population|
    ensures forall i :: 0 <= i < |population| ==> fitness[i] == Score(population[i], cat.meetingTimes, sqrt)
    ensures forall i :: 0 <= i < |population| ==> 0.0 <= fitness[i] <= fitness[top] <= 100.0
    ensures forall i :: 0 <= i < top ==> fitness[i] < fitness[top]
    ensures top == FirstMax(fitness)
  {
    fitness := ScorePopulation(population, cat, sqrt);
    top := FirstMax(fitness);
  }

  /** A best individual that is non-empty and fully assigned (`if best_individual`
    * treats an empty individual as absent). */
  predicate HeldFull(best: Option<Individual>) {
    best.Some? && best.value != [] && AllAssigned(best.value)
  }

  /** The generation's best replaces the best so far when it scores higher,
    * or when it is fully assigned and the best so far is not. */
  predicate Improves(currentFitness: real, current: Individual, bestFitness: real, best: Option<Individual>) {
    currentFitness > bestFitness || (AllAssigned(current) && !HeldFull(best))
  }

  /** The best score recorded after generation `i` is not below the one
    * before, or generation `i` replaced a partial best by a fully assigned
    * one. */
  ghost predicate NoDropAt(trace: seq<real>, full: seq<bool>, i: nat)
    requires 0 < i < |trace| && |full| == |trace|
  {
    trace[i - 1] <= trace[i] || (!full[i - 1] && full[i])
  }

  /** The per-generation record: `full[g]` says whether the best after
    * generation `g` was fully assigned. The recorded best score only falls
    * in a generation where a fully assigned individual replaces a partial
    * one. */
  ghost predicate Progression(trace: seq<real>, full: seq<bool>) {
    && |full| == |trace|
    && forall i {:trigger NoDropAt(trace, full, i)} :: 0 < i < |trace| ==> NoDropAt(trace, full, i)
  }

  lemma ProgressionSnoc(trace: seq<real>, full: seq<bool>, t: real, f: bool)
    requires Progression(trace, full)
    requires trace != [] ==> trace[|trace| - 1] <= t || (!full[|full| - 1] && f)
    ensures Progression(trace + [t], full + [f])
  {
    var trace', full' := trace + [t], full + [f];
    forall i | 0 < i < |trace'| ensures NoDropAt(trace', full', i) {
      if i < |trace| {
        assert NoDropAt(trace, full, i);
        assert trace'[i - 1] == trace[i - 1] && trace'[i] == trace[i];
        assert full'[i - 1] == full[i - 1] && full'[i] == full[i];
      }
    }
  }

  /** What the search knows about its best individual after the
    * generations recorded in `trace`. */
  ghost predicate Record(allClasses: seq<ClassSession>, cat: Catalogue, sqrt: real -> real,
                         best: Option<Individual>, bestFitness: real, trace: seq<real>, full: seq<bool>)
    requires IsSquareRoot(sqrt)
  {
    && 0.0 <= bestFitness <= 100.0
    && Progression(trace, full)
    && (forall i :: 0 <= i < |trace| ==> 0.0 <= trace[i] <= 100.0)
    && (trace == [] ==> best.None?)
    && (trace != [] ==> trace[|trace| - 1] == bestFitness && (full[|full| - 1] <==> HeldFull(best)))
    && (best.None? ==> bestFitness == 0.0)
    && (best.Some? ==> bestFitness == Score(best.value, cat.meetingTimes, sqrt) && ShapedLike(best.value, allClasses))
  }

  /** Recording one more generation keeps the record: the generation's best
    * either improves on the best so far and takes its place, or leaves it. */
  lemma {:induction false} RecordStep(allClasses: seq<ClassSession>, cat: Catalogue, sqrt: real -> real,
                                      best: Option<Individual>, bestFitness: real, trace: seq<real>, full: seq<bool>,
                                      current: Individual, currentFitness: real, newBest: Option<Individual>, newBestFitness: real)
    requires IsSquareRoot(sqrt) && Record(allClasses, cat, sqrt, best, bestFitness, trace, full)
    requires currentFitness == Score(current, cat.meetingTimes, sqrt) && ShapedLike(current, allClasses)
    requires Improves(currentFitness, current, bestFitness, best) ==> newBest == Some(current) && newBestFitness == currentFitness
    requires !Improves(currentFitness, current, bestFitness, best) ==> newBest == best && newBestFitness == bestFitness
    ensures Record(allClasses, cat, sqrt, newBest, newBestFitness, trace + [newBestFitness], full + [HeldFull(newBest)])
  {
    if trace != [] && Improves(currentFitness, current, bestFitness, best) && currentFitness <= bestFitness {
      // Only the full-replaces-partial rule applies here.
      assert !full[|full| - 1];
      if current == [] {
        // An empty current means an empty catalogue, so the best is empty too.
        assert |allClasses| == 0;
        assert best.Some? ==> best.value == [];
        assert bestFitness == 0.0;
      } else {
        assert HeldFull(newBest);
      }
    }
    ProgressionSnoc(trace, full, newBestFitness, HeldFull(newBest));
    if Improves(currentFitness, current, bestFitness, best) {
      assert newBest.Some? && newBestFitness == Score(newBest.value, cat.meetingTimes, sqrt);
      assert ShapedLike(newBest.value, allClasses);
    } else {
      assert newBest == best && newBestFitness == bestFitness;
    }
    assert 0.0 <= newBestFitness <= 100.0;
    ScoresSnocBounded(trace, newBestFitness);
    assert newBest.None? ==> newBestFitness == 0.0;
    assert newBest.Some? ==> newBestFitness == Score(newBest.value, cat.meetingTimes, sqrt) && ShapedLike(newBest.value, allClasses);
  }

  lemma ScoresSnocBounded(trace: seq<real>, t: real)
    requires forall i :: 0 <= i < |trace| ==> 0.0 <= trace[i] <= 100.0
    requires 0.0 <= t <= 100.0
    ensures forall i :: 0 <= i < |trace| + 1 ==> 0.0 <= (trace + [t])[i] <= 100.0
  {
    forall i | 0 <= i < |trace| + 1 ensures 0.0 <= (trace + [t])[i] <= 100.0 {
      if i < |trace| {
        assert (trace + [t])[i] == trace[i];
      }
    }
  }

  /** `generations_without_improvement` after generations whose
    * improvements are `improved`: the number of generations since the last
    * one that improved (all of them when none did). */
  function StaleRun(improved: seq<bool>): (n: nat)
    ensures n <= |improved|
    ensures forall i :: |improved| - n <= i < |improved| ==> !improved[i]
    ensures n < |improved| ==> improved[|improved| - 1 - n]
  {
    if improved == [] || improved[|improved| - 1] then 0
    else StaleRun(improved[..|improved| - 1]) + 1
  }

  lemma StaleRunSnoc(improved: seq<bool>, b: bool)
    ensures StaleRun(improved + [b]) == if b then 0 else StaleRun(improved) + 1
  {
    assert (improved + [b])[..|improved|] == improved;
  }

  /** One generation's bookkeeping: score the population, let its first best
    * individual replace the best so far when it improves on it (which
    * resets the count of generations without improvement; otherwise that
    * count goes up), and record the best score. */
  method Advance(population: seq<Individual>, allClasses: seq<ClassSession>, cat: Catalogue, sqrt: real -> real,
                 best: Option<Individual>, bestFitness: real, stale: nat, trace: seq<real>, ghost full: seq<bool>)
    returns (fitness: seq<real>, current: Individual, newBest: Option<Individual>, newBestFitness: real,
             newStale: nat, newTrace: seq<real>, ghost newFull: seq<bool>)
    requires IsSquareRoot(sqrt) && |population| >= 1
    requires forall i :: 0 <= i < |population| ==> ShapedLike(population[i], allClasses)
    requires Record(allClasses, cat, sqrt, best, bestFitness, trace, full)
    ensures Record(allClasses, cat, sqrt, newBest, newBestFitness, newTrace, newFull)
    ensures newTrace == trace + [newBestFitness] && newFull == full + [HeldFull(newBest)] && |fitness| == |population|
    ensures forall i :: 0 <= i < |population| ==> fitness[i] == Score(population[i], cat.meetingTimes, sqrt)
    ensures current == population[FirstMax(fitness)] && ShapedLike(current, allClasses)
    ensures Improves(fitness[FirstMax(fitness)], current, bestFitness, best) ==>
              newBest == Some(current) && newBestFitness == fitness[FirstMax(fitness)] && newStale == 0
    ensures !Improves(fitness[FirstMax(fitness)], current, bestFitness, best) ==>
              newBest == best && newBestFitness == bestFitness && newStale == stale + 1
    ensures AllAssigned(current) ==> newBest.Some? && AllAssigned(newBest.value)
    ensures allClasses == [] && trace == [] ==> newBest == Some([]) && newTrace == [0.0]
  {
    var top;
    fitness, top := BestOf(population, cat, sqrt);
    current := population[top];
    if Improves(fitness[top], current, bestFitness, best) {
      newBest, newBestFitness, newStale := Some(current), fitness[top], 0;
    } else {
      newBest, newBestFitness, newStale := best, bestFitness, stale + 1;
    }
    RecordStep(allClasses, cat, sqrt, best, bestFitness, trace, full, current, fitness[top], newBest, newBestFitness);
    newTrace, newFull := trace + [newBestFitness], full + [HeldFull(newBest)];
  }

  /** The counter of generations without improvement, read off the
    * per-generation improvements, and the best score staying put in every
    * generation that did not improve. */
  ghost predicate Stagnation(trace: seq<real>, improved: seq<bool>, stale: nat) {
    && |improved| == |trace|
    && stale == StaleRun(improved)
    && (forall g {:trigger improved[g]} :: 0 < g < |trace| && !improved[g] ==> trace[g] == trace[g - 1])
  }

  /** The best so far after a generation whose best is `current`, scoring
    * `score`: `current` with its score when it improves, the previous best
    * otherwise. */
  predicate Stepped(current: Individual, score: real, best: Option<Individual>, bestFitness: real,
                    newBest: Option<Individual>, newBestFitness: real)
  {
    && (Improves(score, current, bestFitness, best) ==> newBest == Some(current) && newBestFitness == score)
    && (!Improves(score, current, bestFitness, best) ==> newBest == best && newBestFitness == bestFitness)
  }

  /** The best and the best score before generation `g`: the initial `None`
    * and 0, or what generation `g - 1` recorded. */
  function PriorBest(bests: seq<Option<Individual>>, g: nat): Option<Individual>
    requires g <= |bests|
  {
    if g == 0 then None else bests[g - 1]
  }

  function PriorFitness(trace: seq<real>, g: nat): real
    requires g <= |trace|
  {
    if g == 0 then 0.0 else trace[g - 1]
  }

  /** The search's history: for each generation `g`, its best individual
    * `currents[g]` and that individual's score `scores[g]`, whether it
    * improved on the best so far, and the best `bests[g]` and best score
    * `trace[g]` after it. */
  ghost predicate History(trace: seq<real>, bests: seq<Option<Individual>>, currents: seq<Individual>,
                          scores: seq<real>, improved: seq<bool>)
  {
    && |bests| == |trace| && |currents| == |trace| && |scores| == |trace| && |improved| == |trace|
    && forall g {:trigger HistoryAt(trace, bests, currents, scores, improved, g)} :: 0 <= g < |trace| ==>
         HistoryAt(trace, bests, currents, scores, improved, g)
  }

  /** Generation `g` of the history: whether it improved, and the best and
    * best score it left. */
  ghost predicate HistoryAt(trace: seq<real>, bests: seq<Option<Individual>>, currents: seq<Individual>,
                            scores: seq<real>, improved: seq<bool>, g: nat)
    requires g < |trace| && |bests| == |trace| && |currents| == |trace| && |scores| == |trace| && |improved| == |trace|
  {
    && improved[g] == Improves(scores[g], currents[g], PriorFitness(trace, g), PriorBest(bests, g))
    && Stepped(currents[g], scores[g], PriorBest(bests, g), PriorFitness(trace, g), bests[g], trace[g])
  }

  /** One more generation extends the history. */
  lemma HistorySnoc(trace: seq<real>, bests: seq<Option<Individual>>, currents: seq<Individual>,
                    scores: seq<real>, improved: seq<bool>,
                    current: Individual, score: real, b: bool, newBest: Option<Individual>, newBestFitness: real)
    requires History(trace, bests, currents, scores, improved)
    requires b == Improves(score, current, PriorFitness(trace, |trace|), PriorBest(bests, |trace|))
    requires Stepped(current, score, PriorBest(bests, |trace|), PriorFitness(trace, |trace|), newBest, newBestFitness)
    ensures History(trace + [newBestFitness], bests + [newBest], currents + [current], scores + [score], improved + [b])
  {
    var t, bs, cs, ss, imp := trace + [newBestFitness], bests + [newBest], currents + [current], scores + [score], improved + [b];
    forall g | 0 <= g < |t| ensures HistoryAt(t, bs, cs, ss, imp, g) {
      assert PriorFitness(t, g) == PriorFitness(trace, g) && PriorBest(bs, g) == PriorBest(bests, g);
      if g < |trace| {
        assert HistoryAt(trace, bests, currents, scores, improved, g);
        assert imp[g] == improved[g] && cs[g] == currents[g] && ss[g] == scores[g] && bs[g] == bests[g] && t[g] == trace[g];
      }
    }
  }

  /** `score` is the score of `ind`, and `m` says whether `ind` is fully
    * assigned and meets every weekly requirement. */
  ghost predicate Judged(ind: Individual, score: real, m: bool, cat: Catalogue, sqrt: real -> real)
    requires IsSquareRoot(sqrt)
  {
    && score == Score(ind, cat.meetingTimes, sqrt)
    && (m <==> AllAssigned(ind) && MeetsClassesPerWeek(ind))
  }

  /** The best individual of each generation, its score, and whether it met
    * the convergence test, generation by generation. */
  ghost predicate Assessed(currents: seq<Individual>, scores: seq<real>, met: seq<bool>, cat: Catalogue, sqrt: real -> real)
    requires IsSquareRoot(sqrt)
  {
    && |scores| == |currents| && |met| == |currents|
    && forall g {:trigger Judged(currents[g], scores[g], met[g], cat, sqrt)} :: 0 <= g < |currents| ==>
         Judged(currents[g], scores[g], met[g], cat, sqrt)
  }

  /** `Assessed`, read at generation `g`. */
  lemma AssessedAt(currents: seq<Individual>, scores: seq<real>, met: seq<bool>,
                   cat: Catalogue, sqrt: real -> real, g: nat)
    requires IsSquareRoot(sqrt) && Assessed(currents, scores, met, cat, sqrt) && g < |currents|
    ensures scores[g] == Score(currents[g], cat.meetingTimes, sqrt)
    ensures met[g] <==> AllAssigned(currents[g]) && MeetsClassesPerWeek(currents[g])
  {
    assert Judged(currents[g], scores[g], met[g], cat, sqrt);
  }

  /** Assessing one more generation's best keeps the earlier assessments. */
  lemma AssessedSnoc(currents: seq<Individual>, scores: seq<real>, met: seq<bool>, cat: Catalogue, sqrt: real -> real,
                     current: Individual, score: real, m: bool)
    requires IsSquareRoot(sqrt) && Assessed(currents, scores, met, cat, sqrt)
    requires Judged(current, score, m, cat, sqrt)
    ensures Assessed(currents + [current], scores + [score], met + [m], cat, sqrt)
  {
    var cs, ss, ms := currents + [current], scores + [score], met + [m];
    forall g | 0 <= g < |cs| ensures Judged(cs[g], ss[g], ms[g], cat, sqrt) {
      if g < |currents| {
        assert cs[g] == currents[g] && ss[g] == scores[g] && ms[g] == met[g];
        assert Judged(currents[g], scores[g], met[g], cat, sqrt);
      }
    }
  }

  /** The source's two early stops, checked after generation `g`: 200
    * generations in a row without improvement, or a generation best that
    * is fully assigned and meets every weekly requirement (`met[g]`, see
    * `Assessed`). */
  ghost predicate StopsAfter(improved: seq<bool>, met: seq<bool>, g: nat)
    requires g < |improved| && g < |met|
  {
    StaleRun(improved[..g + 1]) >= MaxStagnation || met[g]
  }

  /** The loop converged after its `n`-th generation: that generation's
    * best met the convergence test before 200 stale generations ran. */
  ghost predicate ConvergedAt(met: seq<bool>, stale: nat, n: nat) {
    0 < n <= |met| && stale < MaxStagnation && met[n - 1]
  }

  /** No generation before the `n`-th met a stop condition. */
  ghost predicate NoStopBefore(improved: seq<bool>, met: seq<bool>, n: nat)
    requires n <= |improved| && n <= |met|
  {
    forall g {:trigger StopsAfter(improved, met, g)} :: 0 <= g < n ==> !StopsAfter(improved, met, g)
  }

  /** Recording one more generation leaves the earlier generations' stop
    * tests as they were. */
  lemma NoStopBeforeSnoc(improved: seq<bool>, met: seq<bool>, b: bool, m: bool, n: nat)
    requires |improved| == |met| && n <= |improved|
    ensures NoStopBefore(improved + [b], met + [m], n) == NoStopBefore(improved, met, n)
  {
    forall g | 0 <= g < n
      ensures StopsAfter(improved + [b], met + [m], g) == StopsAfter(improved, met, g)
    {
      assert (improved + [b])[..g + 1] == improved[..g + 1];
    }
  }

  /** The loop ran `n` of at most `generations` generations: none before
    * the last met a stop condition, and it ended early only because the
    * last one did. */
  ghost predicate StopRule(improved: seq<bool>, met: seq<bool>, n: nat, generations: nat)
    requires n <= |improved| && n <= |met|
  {
    && (n > 0 ==> NoStopBefore(improved, met, n - 1))
    && (n < generations ==> n > 0 && StopsAfter(improved, met, n - 1))
  }

  /** A generation that did not stop leaves the earlier generations' stop
    * tests as they were, and the loop stops after it exactly when it meets
    * a stop condition. */
  lemma StopStep(improved: seq<bool>, met: seq<bool>, b: bool, m: bool,
                 newStale: nat, stop: bool, converged: bool)
    requires |improved| == |met| && NoStopBefore(improved, met, |improved|)
    requires newStale == StaleRun(improved + [b])
    requires converged <==> newStale < MaxStagnation && m
    requires stop <==> newStale >= MaxStagnation || converged
    ensures NoStopBefore(improved + [b], met + [m], |improved|)
    ensures stop <==> StopsAfter(improved + [b], met + [m], |improved|)
    ensures !stop ==> NoStopBefore(improved + [b], met + [m], |improved| + 1)
  {
    NoStopBeforeSnoc(improved, met, b, m, |improved|);
    assert (improved + [b])[..|improved| + 1] == improved + [b];
  }

  /** One generation, as `Generation` reports it, extends what the loop
    * knows by that generation (`m` is its convergence test); it stops the
    * loop exactly when it meets a stop condition, and it converges exactly
    * when its best passes the convergence test before 200 stale
    * generations. */
  lemma SearchStep(allClasses: seq<ClassSession>, cat: Catalogue, sqrt: real -> real,
                   best: Option<Individual>, bestFitness: real, trace: seq<real>, full: seq<bool>,
                   improved: seq<bool>, stale: nat, bests: seq<Option<Individual>>,
                   currents: seq<Individual>, scores: seq<real>, met: seq<bool>,
                   current: Individual, score: real, m: bool, newBest: Option<Individual>, newBestFitness: real,
                   newTrace: seq<real>, newFull: seq<bool>, newImproved: seq<bool>, newStale: nat,
                   stop: bool, converged: bool)
    requires IsSquareRoot(sqrt)
    requires Searched(allClasses, cat, sqrt, best, bestFitness, trace, full, improved, stale, bests, currents, scores, met)
    requires NoStopBefore(improved, met, |trace|)
    requires Record(allClasses, cat, sqrt, newBest, newBestFitness, newTrace, newFull)
    requires Stagnation(newTrace, newImproved, newStale)
    requires newTrace == trace + [newBestFitness] && score == Score(current, cat.meetingTimes, sqrt)
    requires newImproved == improved + [Improves(score, current, bestFitness, best)]
    requires Stepped(current, score, best, bestFitness, newBest, newBestFitness)
    requires m <==> AllAssigned(current) && MeetsClassesPerWeek(current)
    requires converged <==> newStale < MaxStagnation && m
    requires stop <==> newStale >= MaxStagnation || converged
    ensures Searched(allClasses, cat, sqrt, newBest, newBestFitness, newTrace, newFull, newImproved, newStale,
                     bests + [newBest], currents + [current], scores + [score], met + [m])
    ensures stop <==> StopsAfter(newImproved, met + [m], |trace|)
    ensures NoStopBefore(newImproved, met + [m], |trace|)
    ensures !stop ==> NoStopBefore(newImproved, met + [m], |trace| + 1)
    ensures converged <==> ConvergedAt(met + [m], newStale, |newTrace|)
  {
    HistorySnoc(trace, bests, currents, scores, improved, current, score,
                Improves(score, current, bestFitness, best), newBest, newBestFitness);
    assert Judged(current, score, m, cat, sqrt);
    AssessedSnoc(currents, scores, met, cat, sqrt, current, score, m);
    StopStep(improved, met, Improves(score, current, bestFitness, best), m, newStale, stop, converged);
  }

  /** A generation keeps `Stagnation`: the counter is reset when it
    * improved and goes up by one (with the best score unchanged) when not. */
  lemma StagnationSnoc(trace: seq<real>, improved: seq<bool>, stale: nat, newFitness: real, oldFitness: real,
                       b: bool, newStale: nat)
    requires Stagnation(trace, improved, stale)
    requires trace != [] ==> trace[|trace| - 1] == oldFitness
    requires b ==> newStale == 0
    requires !b ==> newStale == stale + 1 && newFitness == oldFitness
    ensures Stagnation(trace + [newFitness], improved + [b], newStale)
  {
    StaleRunSnoc(improved, b);
    RecordImproved(trace, improved, newFitness, oldFitness, b);
  }

  /** One pass of the loop body up to breeding: the bookkeeping of
    * `Advance`, then the two early stops, checked in the source's order. */
  method Generation(population: seq<Individual>, allClasses: seq<ClassSession>, cat: Catalogue, sqrt: real -> real,
                    best: Option<Individual>, bestFitness: real, stale: nat, trace: seq<real>,
                    ghost full: seq<bool>, ghost improved: seq<bool>)
    returns (fitness: seq<real>, current: Individual, newBest: Option<Individual>, newBestFitness: real,
             newStale: nat, newTrace: seq<real>, ghost newFull: seq<bool>, ghost newImproved: seq<bool>,
             stop: bool, ghost converged: bool)
    requires IsSquareRoot(sqrt) && |population| >= 1
    requires forall i :: 0 <= i < |population| ==> ShapedLike(population[i], allClasses)
    requires Record(allClasses, cat, sqrt, best, bestFitness, trace, full)
    requires Stagnation(trace, improved, stale)
    ensures Record(allClasses, cat, sqrt, newBest, newBestFitness, newTrace, newFull)
    ensures Stagnation(newTrace, newImproved, newStale)
    ensures newTrace == trace + [newBestFitness] && |fitness| == |population|
    ensures forall i :: 0 <= i < |population| ==> fitness[i] == Score(population[i], cat.meetingTimes, sqrt)
    ensures current == population[FirstMax(fitness)] && fitness[FirstMax(fitness)] == Score(current, cat.meetingTimes, sqrt)
    ensures newImproved == improved + [Improves(fitness[FirstMax(fitness)], current, bestFitness, best)]
    ensures Stepped(current, fitness[FirstMax(fitness)], best, bestFitness, newBest, newBestFitness)
    ensures converged <==> newStale < MaxStagnation && AllAssigned(current) && MeetsClassesPerWeek(current)
    ensures stop <==> newStale >= MaxStagnation || converged
    ensures converged ==> newBest.Some? && AllAssigned(newBest.value)
    ensures allClasses == [] ==> stop
  {
    ghost var b := Improves(0.0, [], 0.0, None);
    fitness, current, newBest, newBestFitness, newStale, newTrace, newFull :=
      Advance(population, allClasses, cat, sqrt, best, bestFitness, stale, trace, full);
    b := Improves(fitness[FirstMax(fitness)], current, bestFitness, best);
    StagnationSnoc(trace, improved, stale, newBestFitness, bestFitness, b, newStale);
    newImproved := improved + [b];
    converged := false;
    if newStale >= MaxStagnation {
      stop := true;
    } else {
      var currentFull := AllAssigned(current);
      var meets := CheckClassesPerWeek(current);
      converged := currentFull && meets;
      stop := currentFull && meets;
    }
  }

  /** `score` is the fitness of the catalogue's timetables: the value
    * `Score` gives each individual. The generation loop's history is stated
    * over such a value rather than over `Score` itself. */
  ghost predicate IsScore(score: Individual -> real, cat: Catalogue, sqrt: real -> real)
    requires IsSquareRoot(sqrt)
  {
    forall ind {:trigger Score(ind, cat.meetingTimes, sqrt)} :: score(ind) == Score(ind, cat.meetingTimes, sqrt)
  }

  /** The score of each individual of a population, in order. */
  ghost function Scores(population: seq<Individual>, score: Individual -> real): seq<real>
  {
    seq(|population|, i requires 0 <= i < |population| => score(population[i]))
  }

  /** A list holding each individual's score, in order, is the population's scores. */
  lemma ScoresOf(population: seq<Individual>, fitness: seq<real>, cat: Catalogue, sqrt: real -> real,
                 score: Individual -> real)
    requires IsSquareRoot(sqrt) && IsScore(score, cat, sqrt) && |fitness| == |population|
    requires forall i :: 0 <= i < |population| ==> fitness[i] == Score(population[i], cat.meetingTimes, sqrt)
    ensures fitness == Scores(population, score)
  {
  }

  /** `next` is bred from `population` as `NextGeneration` breeds it:
    * `selected` holds the tournament winners of `samples`, the first
    * `EliteCount` individuals are the fittest in rank order, and every
    * child after them is bred from the winners as `origins` says. */
  ghost predicate BredNext(population: seq<Individual>, next: seq<Individual>, selected: seq<Individual>,
                           samples: seq<seq<nat>>, origins: seq<Origin>, cat: Catalogue, score: Individual -> real,
                           eliteRate: real)
  {
    var fitness := Scores(population, score);
    && |next| == |population| && |selected| == |population| && |samples| == |population|
    && (forall i :: 0 <= i < |selected| ==>
          IsTournament(samples[i], |population|)
          && selected[i] == population[samples[i][FirstBest(fitness, samples[i])]])
    && (forall i :: 0 <= i < EliteCount(|population|, eliteRate) ==> next[i] == population[Ranked(fitness)[i]])
    && AllBredFrom(next[EliteCount(|population|, eliteRate)..], origins, selected, cat)
  }

  /** What `NextGeneration` ensures, read with the population's own scores. */
  lemma BredFromScores(population: seq<Individual>, fitness: seq<real>, next: seq<Individual>,
                       selected: seq<Individual>, samples: seq<seq<nat>>, origins: seq<Origin>,
                       cat: Catalogue, score: Individual -> real, eliteRate: real)
    requires fitness == Scores(population, score)
    requires |next| == |population| && |selected| == |population| && |samples| == |population|
    requires forall i :: 0 <= i < |selected| ==>
               IsTournament(samples[i], |population|)
               && selected[i] == population[samples[i][FirstBest(fitness, samples[i])]]
    requires forall i :: 0 <= i < EliteCount(|population|, eliteRate) ==> next[i] == population[Ranked(fitness)[i]]
    requires AllBredFrom(next[EliteCount(|population|, eliteRate)..], origins, selected, cat)
    ensures BredNext(population, next, selected, samples, origins, cat, score, eliteRate)
  {
  }

  /** `current` is the first fittest individual of `population`
    * (`population[fitness_scores.index(max(fitness_scores))]`). */
  ghost predicate Fittest(population: seq<Individual>, current: Individual, score: Individual -> real)
  {
    population != [] && current == population[FirstMax(Scores(population, score))]
  }

  /** Generation `g`'s population was bred from generation `g - 1`'s. */
  ghost predicate BredAt(populations: seq<seq<Individual>>, pools: seq<seq<Individual>>,
                         tournaments: seq<seq<seq<nat>>>, breeding: seq<seq<Origin>>, cat: Catalogue,
                         score: Individual -> real, eliteRate: real, g: nat)
    requires 0 < g < |populations|
    requires g <= |pools| && g <= |tournaments| && g <= |breeding|
  {
    BredNext(populations[g - 1], populations[g], pools[g - 1], tournaments[g - 1], breeding[g - 1], cat, score, eliteRate)
  }

  /** The populations of the search, one per generation, plus the one bred
    * for the next generation when the loop ran on: the first is `initial`,
    * each later one is bred from the one before (with the winners `pools`,
    * their tournaments and the children's origins), and each generation's
    * best is the first fittest individual of its population. */
  ghost predicate Lineage(initial: seq<Individual>, populations: seq<seq<Individual>>, pools: seq<seq<Individual>>,
                          tournaments: seq<seq<seq<nat>>>, breeding: seq<seq<Origin>>, currents: seq<Individual>,
                          cat: Catalogue, score: Individual -> real, eliteRate: real)
  {
    && populations != [] && populations[0] == initial
    && |currents| <= |populations| <= |currents| + 1
    && |pools| == |populations| - 1 && |tournaments| == |pools| && |breeding| == |pools|
    && (forall g {:trigger Fittest(populations[g], currents[g], score)} :: 0 <= g < |currents| ==>
          Fittest(populations[g], currents[g], score))
    && (forall g {:trigger BredAt(populations, pools, tournaments, breeding, cat, score, eliteRate, g)} ::
          0 < g < |populations| ==> BredAt(populations, pools, tournaments, breeding, cat, score, eliteRate, g))
  }

  /** Scoring the last population of the lineage adds its first fittest
    * individual as that generation's best. */
  lemma LineageScored(initial: seq<Individual>, populations: seq<seq<Individual>>, pools: seq<seq<Individual>>,
                      tournaments: seq<seq<seq<nat>>>, breeding: seq<seq<Origin>>, currents: seq<Individual>,
                      cat: Catalogue, score: Individual -> real, eliteRate: real, last: seq<Individual>, current: Individual)
    requires Lineage(initial, populations, pools, tournaments, breeding, currents, cat, score, eliteRate)
    requires |populations| == |currents| + 1 && populations[|populations| - 1] == last
    requires Fittest(last, current, score)
    ensures Lineage(initial, populations, pools, tournaments, breeding, currents + [current], cat, score, eliteRate)
  {
    var cs := currents + [current];
    forall g | 0 <= g < |cs| ensures Fittest(populations[g], cs[g], score) {
      if g < |currents| {
        assert cs[g] == currents[g];
      }
    }
  }

  /** Breeding the next population from the last scored one extends the
    * lineage by it. */
  lemma LineageBred(initial: seq<Individual>, populations: seq<seq<Individual>>, pools: seq<seq<Individual>>,
                    tournaments: seq<seq<seq<nat>>>, breeding: seq<seq<Origin>>, currents: seq<Individual>,
                    cat: Catalogue, score: Individual -> real, eliteRate: real,
                    last: seq<Individual>, next: seq<Individual>, selected: seq<Individual>, samples: seq<seq<nat>>,
                    origins: seq<Origin>)
    requires Lineage(initial, populations, pools, tournaments, breeding, currents, cat, score, eliteRate)
    requires |populations| == |currents| && populations[|populations| - 1] == last
    requires BredNext(last, next, selected, samples, origins, cat, score, eliteRate)
    ensures Lineage(initial, populations + [next], pools + [selected], tournaments + [samples],
                    breeding + [origins], currents, cat, score, eliteRate)
  {
    var ps, pl, ts, bs := populations + [next], pools + [selected], tournaments + [samples], breeding + [origins];
    forall g | 0 <= g < |currents| ensures Fittest(ps[g], currents[g], score) {
      assert ps[g] == populations[g];
    }
    forall g | 0 < g < |ps| ensures BredAt(ps, pl, ts, bs, cat, score, eliteRate, g) {
      if g < |populations| {
        assert BredAt(populations, pools, tournaments, breeding, cat, score, eliteRate, g);
        assert ps[g] == populations[g] && ps[g - 1] == populations[g - 1] && pl[g - 1] == pools[g - 1];
        assert ts[g - 1] == tournaments[g - 1] && bs[g - 1] == breeding[g - 1];
      } else {
        assert ps[g - 1] == last && ps[g] == next && pl[g - 1] == selected;
        assert ts[g - 1] == samples && bs[g - 1] == origins;
      }
    }
  }

  /** What the generation loop knows after the generations in `trace`: the
    * record of best scores, the stagnation counter, the per-generation
    * history and scores, and the best so far as the history's last entry. */
  ghost predicate Searched(allClasses: seq<ClassSession>, cat: Catalogue, sqrt: real -> real,
                           best: Option<Individual>, bestFitness: real, trace: seq<real>, full: seq<bool>,
                           improved: seq<bool>, stale: nat, bests: seq<Option<Individual>>,
                           currents: seq<Individual>, scores: seq<real>, met: seq<bool>)
    requires IsSquareRoot(sqrt)
  {
    && Record(allClasses, cat, sqrt, best, bestFitness, trace, full)
    && Stagnation(trace, improved, stale)
    && History(trace, bests, currents, scores, improved)
    && Assessed(currents, scores, met, cat, sqrt)
    && best == PriorBest(bests, |trace|) && bestFitness == PriorFitness(trace, |trace|)
  }

  /** Before the first generation the loop knows nothing yet. */
  lemma SearchedEmpty(allClasses: seq<ClassSession>, cat: Catalogue, sqrt: real -> real)
    requires IsSquareRoot(sqrt)
    ensures Searched(allClasses, cat, sqrt, None, 0.0, [], [], [], 0, [], [], [], [])
  {
  }

  /** One pass of the generation loop's body: runs `Generation`, extends
    * the history by it and, unless the loop stops there, breeds the next
    * population (`next` is the unchanged population when it stops). */
  method Step(population: seq<Individual>, allClasses: seq<ClassSession>, cat: Catalogue, eliteRate: real,
              sqrt: real -> real, ghost score: Individual -> real, best: Option<Individual>, bestFitness: real, stale: nat, trace: seq<real>,
              ghost full: seq<bool>, ghost improved: seq<bool>, ghost bests: seq<Option<Individual>>,
              ghost currents: seq<Individual>, ghost scores: seq<real>, ghost met: seq<bool>)
    returns (next: seq<Individual>, current: Individual, newBest: Option<Individual>, newBestFitness: real,
             newStale: nat, newTrace: seq<real>, ghost newFull: seq<bool>, ghost newImproved: seq<bool>,
             stop: bool, ghost converged: bool, ghost newBests: seq<Option<Individual>>,
             ghost newCurrents: seq<Individual>, ghost newScores: seq<real>, ghost newMet: seq<bool>,
             ghost selected: seq<Individual>, ghost samples: seq<seq<nat>>, ghost origins: seq<Origin>)
    requires IsSquareRoot(sqrt) && IsScore(score, cat, sqrt) && |population| >= 1
    requires forall i :: 0 <= i < |population| ==> ShapedLike(population[i], allClasses)
    requires Searched(allClasses, cat, sqrt, best, bestFitness, trace, full, improved, stale, bests, currents, scores, met)
    requires NoStopBefore(improved, met, |trace|)
    ensures Searched(allClasses, cat, sqrt, newBest, newBestFitness, newTrace, newFull, newImproved, newStale,
                     newBests, newCurrents, newScores, newMet)
    ensures |next| == |population| && |newTrace| == |trace| + 1
    ensures forall i :: 0 <= i < |next| ==> ShapedLike(next[i], allClasses)
    ensures |newCurrents| == |newTrace| && newCurrents == currents + [current]
    ensures Fittest(population, current, score)
    ensures stop ==> next == population
    ensures !stop ==> BredNext(population, next, selected, samples, origins, cat, score, eliteRate)
    ensures stop <==> StopsAfter(newImproved, newMet, |newTrace| - 1)
    ensures NoStopBefore(newImproved, newMet, |newTrace| - 1)
    ensures !stop ==> NoStopBefore(newImproved, newMet, |newTrace|)
    ensures converged <==> ConvergedAt(newMet, newStale, |newTrace|)
    ensures stop <==> newStale >= MaxStagnation || converged
    ensures converged ==> newBest.Some? && AllAssigned(newBest.value)
    ensures allClasses == [] ==> stop
    ensures allClasses == [] && trace == [] ==> newBest == Some([]) && newBestFitness == 0.0 && newTrace == [0.0]
  {
    var fitness;
    fitness, current, newBest, newBestFitness, newStale, newTrace, newFull, newImproved, stop, converged :=
      Generation(population, allClasses, cat, sqrt, best, bestFitness, stale, trace, full, improved);
    ghost var top := fitness[FirstMax(fitness)];
    ghost var m := AllAssigned(current) && MeetsClassesPerWeek(current);
    SearchStep(allClasses, cat, sqrt, best, bestFitness, trace, full, improved, stale, bests, currents, scores, met,
               current, top, m, newBest, newBestFitness, newTrace, newFull, newImproved, newStale, stop, converged);
    newBests, newCurrents, newScores, newMet := bests + [newBest], currents + [current], scores + [top], met + [m];
    ScoresOf(population, fitness, cat, sqrt, score);
    next, selected, samples, origins := population, [], [], [];
    if !stop {
      next, selected, samples, origins := NextGeneration(population, fitness, cat, eliteRate, allClasses);
      BredFromScores(population, fitness, next, selected, samples, origins, cat, score, eliteRate);
    }
  }

  /** The whole search. Returns the best individual seen (repaired, unless
    * it is empty), its score, and the best score after each generation run.
    * `sqrt` is the square root used by the fitness. Ghost results: `found`
    * is the best individual before the final repair, `full[g]` says whether
    * the best after generation `g` was fully assigned, `stagnation` and
    * `converged` say why the loop stopped early, `initial` and `populations`
    * are the populations run with the breeding that linked them, and `score`
    * is the fitness as a function on individuals. */
  method Evolve(allClasses: seq<ClassSession>, cat: Catalogue, populationSize: nat, eliteRate: real,
                generations: nat, sqrt: real -> real)
    returns (best: Option<Individual>, bestFitness: real, trace: seq<real>,
             ghost found: Option<Individual>, ghost full: seq<bool>, ghost improved: seq<bool>,
             ghost stagnation: nat, ghost converged: bool,
             ghost bests: seq<Option<Individual>>, ghost currents: seq<Individual>, ghost scores: seq<real>,
             ghost met: seq<bool>, ghost initial: seq<Individual>, ghost populations: seq<seq<Individual>>,
             ghost pools: seq<seq<Individual>>, ghost tournaments: seq<seq<seq<nat>>>, ghost breeding: seq<seq<Origin>>,
             ghost score: Individual -> real)
    requires IsSquareRoot(sqrt)
    requires populationSize >= 1 || generations == 0
    ensures |trace| <= generations
    ensures Record(allClasses, cat, sqrt, found, bestFitness, trace, full)
    ensures History(trace, bests, currents, scores, improved)
    ensures Assessed(currents, scores, met, cat, sqrt)
    ensures |initial| == populationSize && forall i :: 0 <= i < |initial| ==> Built(initial[i], allClasses, cat)
    ensures IsScore(score, cat, sqrt)
    ensures Lineage(initial, populations, pools, tournaments, breeding, currents, cat, score, eliteRate)
    ensures found == PriorBest(bests, |trace|)
    ensures forall g :: 0 <= g < |trace| - 1 ==> !StopsAfter(improved, met, g)
    ensures |trace| < generations ==> trace != [] && StopsAfter(improved, met, |trace| - 1)
    ensures generations == 0 ==> best == None && bestFitness == 0.0 && trace == []
    ensures found.None? ==> best.None?
    ensures found.Some? && found.value == [] ==> best == found
    ensures found.Some? && found.value != [] ==> best.Some? && RepairedFrom(found.value, best.value, cat)
    ensures best.Some? && best.value != [] && FullCatalogue(cat) ==> AllAssigned(best.value)
    ensures |improved| == |trace| && stagnation == StaleRun(improved)
    ensures forall g {:trigger improved[g]} :: 0 < g < |trace| && !improved[g] ==> trace[g] == trace[g - 1]
    ensures |trace| < generations ==> stagnation >= MaxStagnation || converged
    ensures converged ==> ConvergedAt(met, stagnation, |trace|)
    ensures converged ==> found.Some? && AllAssigned(found.value) && best == found
    ensures allClasses == [] && generations >= 1 ==> best == Some([]) && bestFitness == 0.0 && trace == [0.0]
  {
    var population := GenerateInitialPopulation(allClasses, cat, populationSize);
    forall i | 0 <= i < |population| ensures ShapedLike(population[i], allClasses) {
      BuiltKeepsCatalogue(population[i], allClasses, cat);
    }
    var stale;
    initial := population;
    score := ind => Score(ind, cat.meetingTimes, sqrt);
    best, bestFitness, trace, full, improved, stale, converged, bests, currents, scores, met,
      populations, pools, tournaments, breeding := Search(population, allClasses, cat, eliteRate, generations, sqrt, score);
    found, stagnation := best, stale;
    best := RepairBest(best, cat);
  }

  /** The generation loop, from the initial population to the first early
    * stop or the last generation. The early stops end the loop through
    * `stop`, which `Step` sets exactly when the source breaks out of it. */
  method Search(initial: seq<Individual>, allClasses: seq<ClassSession>, cat: Catalogue, eliteRate: real,
                generations: nat, sqrt: real -> real, ghost score: Individual -> real)
    returns (best: Option<Individual>, bestFitness: real, trace: seq<real>, ghost full: seq<bool>,
             ghost improved: seq<bool>, stale: nat, ghost converged: bool,
             ghost bests: seq<Option<Individual>>, ghost currents: seq<Individual>, ghost scores: seq<real>,
             ghost met: seq<bool>, ghost populations: seq<seq<Individual>>, ghost pools: seq<seq<Individual>>,
             ghost tournaments: seq<seq<seq<nat>>>, ghost breeding: seq<seq<Origin>>)
    requires IsSquareRoot(sqrt) && IsScore(score, cat, sqrt)
    requires |initial| >= 1 || generations == 0
    requires forall i :: 0 <= i < |initial| ==> ShapedLike(initial[i], allClasses)
    ensures |trace| <= generations
    ensures Searched(allClasses, cat, sqrt, best, bestFitness, trace, full, improved, stale, bests, currents, scores, met)
    ensures StopRule(improved, met, |trace|, generations)
    ensures Lineage(initial, populations, pools, tournaments, breeding, currents, cat, score, eliteRate)
    ensures generations == 0 ==> best == None && bestFitness == 0.0 && trace == []
    ensures |trace| < generations ==> stale >= MaxStagnation || converged
    ensures converged ==> ConvergedAt(met, stale, |trace|)
    ensures converged ==> best.Some? && AllAssigned(best.value)
    ensures allClasses == [] && generations >= 1 ==> best == Some([]) && bestFitness == 0.0 && trace == [0.0]
  {
    best, bestFitness, trace := None, 0.0, [];
    full, improved := [], [];
    bests, currents, scores, met := [], [], [], [];
    populations, pools, tournaments, breeding := [initial], [], [], [];
    stale := 0;
    converged := false;
    SearchedEmpty(allClasses, cat, sqrt);
    var population := initial;
    var generation := 0;
    var stop := false;
    while generation < generations && !stop
      invariant generation == |trace| <= generations
      invariant |population| >= 1 || generations == 0
      invariant forall i :: 0 <= i < |population| ==> ShapedLike(population[i], allClasses)
      invariant Searched(allClasses, cat, sqrt, best, bestFitness, trace, full, improved, stale, bests, currents, scores, met)
      invariant trace != [] ==> NoStopBefore(improved, met, |trace| - 1)
      invariant !stop ==> NoStopBefore(improved, met, |trace|)
      invariant stop ==> trace != [] && StopsAfter(improved, met, |trace| - 1)
      invariant stop ==> stale >= MaxStagnation || converged
      invariant converged ==> ConvergedAt(met, stale, |trace|) && best.Some? && AllAssigned(best.value)
      invariant allClasses == [] && !stop ==> trace == []
      invariant allClasses == [] && stop ==> best == Some([]) && bestFitness == 0.0 && trace == [0.0]
      invariant Lineage(initial, populations, pools, tournaments, breeding, currents, cat, score, eliteRate)
      invariant !stop ==> |populations| == |trace| + 1 && populations[|trace|] == population
    {
      var current;
      ghost var scored, oldCurrents, selected, samples, origins := population, currents, [], [], [];
      population, current, best, bestFitness, stale, trace, full, improved, stop, converged, bests, currents, scores, met,
        selected, samples, origins :=
        Step(population, allClasses, cat, eliteRate, sqrt, score, best, bestFitness, stale, trace, full, improved,
             bests, currents, scores, met);
      LineageScored(initial, populations, pools, tournaments, breeding, oldCurrents, cat, score, eliteRate, scored, current);
      if !stop {
        LineageBred(initial, populations, pools, tournaments, breeding, currents, cat, score, eliteRate,
                    scored, population, selected, samples, origins);
        populations, pools, tournaments, breeding :=
          populations + [population], pools + [selected], tournaments + [samples], breeding + [origins];
      }
      generation := generation + 1;
    }
  }

  /** `if best_individual: best_individual = self._repair_individual(...)`:
    * an empty or missing best stays as it is. */
  method RepairBest(found: Option<Individual>, cat: Catalogue) returns (best: Option<Individual>)
    ensures found.None? ==> best.None?
    ensures found.Some? && found.value == [] ==> best == found
    ensures found.Some? && found.value != [] ==> best.Some? && RepairedFrom(found.value, best.value, cat)
    ensures best.Some? && best.value != [] && FullCatalogue(cat) ==> AllAssigned(best.value)
    ensures found.Some? && AllAssigned(found.value) ==> best == found
  {
    best := found;
    if found.Some? && found.value != [] {
      var repaired := RepairIndividual(found.value, cat);
      RepairKeepsShape(found.value, repaired, cat);
      RepairCompletes(found.value, repaired, cat);
      if AllAssigned(found.value) {
        RepairOfCompleteIsIdentity(found.value, repaired, cat);
      }
      best := Some(repaired);
    }
  }

  /** A generation that does not improve records the same best score as the
    * one before it. */
  lemma RecordImproved(trace: seq<real>, improved: seq<bool>, newFitness: real, oldFitness: real, b: bool)
    requires |improved| == |trace|
    requires forall g {:trigger improved[g]} :: 0 < g < |trace| && !improved[g] ==> trace[g] == trace[g - 1]
    requires trace != [] ==> trace[|trace| - 1] == oldFitness
    requires !b ==> newFitness == oldFitness
    ensures var t, i := trace + [newFitness], improved + [b];
      forall g {:trigger i[g]} :: 0 < g < |t| && !i[g] ==> t[g] == t[g - 1]
  {
    var t, i := trace + [newFitness], improved + [b];
    forall g | 0 < g < |t| && !i[g] ensures t[g] == t[g - 1] {
      if g < |trace| {
        assert t[g] == trace[g] && t[g - 1] == trace[g - 1] && i[g] == improved[g];
      }
    }
  }
}
