/**
 * The fitness of a candidate timetable (GeneticAlgorithm.calculate_fitness)
 * and the classes-per-week test (_meets_classes_per_week).
 *
 * Every penalty is first defined as a function of the individual; the
 * methods compute the same numbers with the source's loops and are proved
 * equal to them. The distribution penalty, ten times the standard deviation
 * of the weekday counts, is pinned down by its square; the square root itself
 * is a parameter.
 */
module Fitness {
  import opened Wrappers
  import opened Models
  import opened TimePredicates

  // ---------------------------------------------------------------------
  // Per-class penalties

  /** 50 for an incomplete Lab class, 40 for any other incomplete class. */
  function UnassignedCost(c: ClassSession): int {
    if IsFullyAssigned(c) then 0 else if c.course.kind == Lab then 50 else 40
  }

  /** 5 for a Lab class in a room that is not a Lab room. */
  function SoftCost(c: ClassSession): int {
    if c.room.Some? && c.course.kind == Lab && c.room.value.kind != LabRoom then 5 else 0
  }

  /** The class ends exactly at 13:00. */
  predicate EndsAtLunch(c: ClassSession) {
    c.meetingTime.Some? && EndAfter(c.meetingTime.value.start, c.duration) == LunchStart
  }

  /** 100 for spanning the lunch break, 100 for ending right at 13:00. */
  function LunchCost(c: ClassSession): int {
    (if SpansLunchBreak(c) then 100 else 0) + (if EndsAtLunch(c) then 100 else 0)
  }

  /** Sum of `cost` over the classes, in order. */
  function SumOf(s: seq<ClassSession>, cost: ClassSession -> int): int {
    if s == [] then 0 else SumOf(s[..|s| - 1], cost) + cost(s[|s| - 1])
  }

  lemma SumOfSnoc(s: seq<ClassSession>, i: nat, cost: ClassSession -> int)
    requires i < |s|
    ensures SumOf(s[..i + 1], cost) == SumOf(s[..i], cost) + cost(s[i])
  {
    assert s[..i + 1][..i] == s[..i];
  }

  lemma {:induction false} SumOfBounds(s: seq<ClassSession>, cost: ClassSession -> int, hi: int)
    requires forall c :: c in s ==> 0 <= cost(c) <= hi
    ensures 0 <= SumOf(s, cost) <= hi * |s|
  {
    if s != [] {
      SumOfBounds(s[..|s| - 1], cost, hi);
    }
  }

  /** The classes of `ind` with instructor, room and meeting time set, in order. */
  function FullyAssigned(ind: Individual): (r: seq<ClassSession>)
    ensures forall c :: c in r <==> c in ind && IsFullyAssigned(c)
    ensures |r| <= |ind|
  {
    if ind == [] then []
    else
      var rest := FullyAssigned(ind[..|ind| - 1]);
      assert ind == ind[..|ind| - 1] + [ind[|ind| - 1]];
      if IsFullyAssigned(ind[|ind| - 1]) then rest + [ind[|ind| - 1]] else rest
  }

  // ---------------------------------------------------------------------
  // Spread over the weekdays

  /** How many of `fa` meet on day `d`. */
  function DayCount(fa: seq<ClassSession>, d: Day): nat {
    if fa == [] then 0
    else
      var c := fa[|fa| - 1];
      DayCount(fa[..|fa| - 1], d) + (if c.meetingTime.Some? && c.meetingTime.value.day == d then 1 else 0)
  }

  /** The Monday..Friday counts of `fa` (a Saturday class is not counted). */
  function WeekdayCounts(fa: seq<ClassSession>): (r: seq<real>)
    ensures |r| == 5
  {
    [DayCount(fa, Monday) as real, DayCount(fa, Tuesday) as real, DayCount(fa, Wednesday) as real,
     DayCount(fa, Thursday) as real, DayCount(fa, Friday) as real]
  }

  function Square(x: real): real { x * x }

  function Mean(xs: seq<real>): real
    requires |xs| == 5
  {
    (xs[0] + xs[1] + xs[2] + xs[3] + xs[4]) / 5.0
  }

  /** The population variance of five numbers. */
  function Variance(xs: seq<real>): real
    requires |xs| == 5
  {
    (Square(xs[0] - Mean(xs)) + Square(xs[1] - Mean(xs)) + Square(xs[2] - Mean(xs))
     + Square(xs[3] - Mean(xs)) + Square(xs[4] - Mean(xs))) / 5.0
  }

  /** The variance of the weekday counts; the mean is over five days even
    * when some class meets on a Saturday. */
  function DayVariance(fa: seq<ClassSession>): real {
    Variance(WeekdayCounts(fa))
  }

  /** Some class of `fa` has a meeting time. */
  predicate HasScheduledDay(fa: seq<ClassSession>) {
    fa != [] && (fa[|fa| - 1].meetingTime.Some? || HasScheduledDay(fa[..|fa| - 1]))
  }

  /** `sqrt` is the square root on the non-negative reals. */
  ghost predicate IsSquareRoot(sqrt: real -> real) {
    forall x :: 0.0 <= x ==> 0.0 <= sqrt(x) && sqrt(x) * sqrt(x) == x && (sqrt(x) == 0.0 <==> x == 0.0)
  }

  lemma {:induction false} UnscheduledCountsZero(fa: seq<ClassSession>, d: Day)
    requires !HasScheduledDay(fa)
    ensures DayCount(fa, d) == 0
  {
    if fa != [] {
      UnscheduledCountsZero(fa[..|fa| - 1], d);
    }
  }

  /** Ten times the standard deviation of the weekday counts, or 0 when no
    * class has a day at all. */
  function DistributionPenalty(fa: seq<ClassSession>, sqrt: real -> real): (d: real)
    requires IsSquareRoot(sqrt)
    ensures 0.0 <= d
    ensures d == 0.0 <==> DayVariance(fa) == 0.0
  {
    if HasScheduledDay(fa) then
      VarianceNonNegative(WeekdayCounts(fa));
      ScaledRoot(DayVariance(fa), sqrt);
      10.0 * sqrt(DayVariance(fa))
    else
      UnscheduledCountsZero(fa, Monday);
      UnscheduledCountsZero(fa, Tuesday);
      UnscheduledCountsZero(fa, Wednesday);
      UnscheduledCountsZero(fa, Thursday);
      UnscheduledCountsZero(fa, Friday);
      VarianceOfEqual(WeekdayCounts(fa));
      0.0
  }

  /** The penalty is determined without looking at the square root: it is
    * the non-negative number whose square is 100 times the variance. */
  lemma DistributionPenaltySquare(fa: seq<ClassSession>, sqrt: real -> real)
    requires IsSquareRoot(sqrt)
    ensures DistributionPenalty(fa, sqrt) * DistributionPenalty(fa, sqrt) == 100.0 * DayVariance(fa)
  {
    if HasScheduledDay(fa) {
      VarianceNonNegative(WeekdayCounts(fa));
      ScaledRoot(DayVariance(fa), sqrt);
    } else {
      UnscheduledCountsZero(fa, Monday);
      UnscheduledCountsZero(fa, Tuesday);
      UnscheduledCountsZero(fa, Wednesday);
      UnscheduledCountsZero(fa, Thursday);
      UnscheduledCountsZero(fa, Friday);
      VarianceOfEqual(WeekdayCounts(fa));
    }
  }

  /** Classes spread evenly over the five weekdays cost nothing. */
  lemma EvenSpreadCostsNothing(fa: seq<ClassSession>, sqrt: real -> real)
    requires IsSquareRoot(sqrt)
    requires DayCount(fa, Monday) == DayCount(fa, Tuesday) == DayCount(fa, Wednesday)
             == DayCount(fa, Thursday) == DayCount(fa, Friday)
    ensures DistributionPenalty(fa, sqrt) == 0.0
  {
    assert DayVariance(fa) == 0.0;
  }

  lemma SquarePositive(x: real)
    requires x != 0.0
    ensures Square(x) > 0.0
  {
    if x > 0.0 {
      calc {
        Square(x);
        x * x;
      >
        0.0;
      }
    } else {
      var e := -x;
      calc {
        Square(x);
        x * x;
        e * e;
      >
        0.0;
      }
    }
  }

  lemma ScaledRoot(v: real, sqrt: real -> real)
    requires IsSquareRoot(sqrt) && 0.0 <= v
    ensures 0.0 <= 10.0 * sqrt(v) && (10.0 * sqrt(v)) * (10.0 * sqrt(v)) == 100.0 * v
    ensures 10.0 * sqrt(v) == 0.0 <==> v == 0.0
  {
    var r := sqrt(v);
    assert r * r == v;
    assert (10.0 * r) * (10.0 * r) == 100.0 * (r * r);
  }

  lemma VarianceNonNegative(xs: seq<real>)
    requires |xs| == 5
    ensures Variance(xs) >= 0.0
  {
    var m := Mean(xs);
    SquareNonNegative(xs[0] - m);
    SquareNonNegative(xs[1] - m);
    SquareNonNegative(xs[2] - m);
    SquareNonNegative(xs[3] - m);
    SquareNonNegative(xs[4] - m);
  }

  /** Five equal numbers have variance 0. */
  lemma VarianceOfEqual(xs: seq<real>)
    requires |xs| == 5 && xs[0] == xs[1] == xs[2] == xs[3] == xs[4]
    ensures Variance(xs) == 0.0
  {
    assert Mean(xs) == xs[0];
    assert Square(0.0) == 0.0;
  }

  lemma SquareNonNegative(x: real)
    ensures Square(x) >= 0.0
  {
  }

  /** Five numbers that are not all equal have a positive variance. */
  lemma VariancePositive(xs: seq<real>, i: nat, j: nat)
    requires |xs| == 5 && i < 5 && j < 5 && xs[i] != xs[j]
    ensures Variance(xs) > 0.0
  {
    var devs := [xs[0] - Mean(xs), xs[1] - Mean(xs), xs[2] - Mean(xs), xs[3] - Mean(xs), xs[4] - Mean(xs)];
    var k := if devs[i] != 0.0 then i else j;
    assert devs[k] != 0.0;
    SquarePositive(devs[k]);
    forall m | 0 <= m < 5 ensures Square(devs[m]) >= 0.0 {
      SquareNonNegative(devs[m]);
    }
    assert Variance(xs) == (Square(devs[0]) + Square(devs[1]) + Square(devs[2]) + Square(devs[3]) + Square(devs[4])) / 5.0;
  }

  /** Two weekdays with different counts always cost something. */
  lemma UnevenSpreadCosts(fa: seq<ClassSession>, sqrt: real -> real, d1: Day, d2: Day)
    requires IsSquareRoot(sqrt) && IsWeekday(d1) && IsWeekday(d2)
    requires DayCount(fa, d1) != DayCount(fa, d2)
    ensures DistributionPenalty(fa, sqrt) > 0.0
  {
    var counts := WeekdayCounts(fa);
    assert counts[WeekdayIndex(d1)] == DayCount(fa, d1) as real;
    assert counts[WeekdayIndex(d2)] == DayCount(fa, d2) as real;
    VariancePositive(counts, WeekdayIndex(d1), WeekdayIndex(d2));
  }

  /** Position of a weekday in Monday..Friday. */
  function WeekdayIndex(d: Day): (k: nat)
    requires IsWeekday(d)
    ensures k < 5
  {
    match d
    case Monday => 0
    case Tuesday => 1
    case Wednesday => 2
    case Thursday => 3
    case Friday => 4
  }

  // ---------------------------------------------------------------------
  // Post-lunch use

  const PostLunchStart: Time := 13 * 60 + 45

  /** Some slot starts at 13:45 or later. */
  predicate HasPostLunchSlot(slots: seq<MeetingTime>) {
    slots != [] && (slots[|slots| - 1].start >= PostLunchStart || HasPostLunchSlot(slots[..|slots| - 1]))
  }

  /** Some class of `fa` meets in one of `slots` that starts at 13:45 or later. */
  predicate UsesPostLunchSlot(fa: seq<ClassSession>, slots: seq<MeetingTime>) {
    && fa != []
    && (|| UsesPostLunchSlot(fa[..|fa| - 1], slots)
        || var c := fa[|fa| - 1];
           c.meetingTime.Some? && c.meetingTime.value in slots && c.meetingTime.value.start >= PostLunchStart)
  }

  lemma {:induction false} HasPostLunchSlotIff(slots: seq<MeetingTime>)
    ensures HasPostLunchSlot(slots) <==> exists mt :: mt in slots && mt.start >= PostLunchStart
  {
    if slots != [] {
      var init := slots[..|slots| - 1];
      HasPostLunchSlotIff(init);
      assert slots == init + [slots[|slots| - 1]];
    }
  }

  lemma {:induction false} UsesPostLunchSlotIff(fa: seq<ClassSession>, slots: seq<MeetingTime>)
    ensures UsesPostLunchSlot(fa, slots) <==>
              exists c :: c in fa && c.meetingTime.Some? && c.meetingTime.value in slots
                          && c.meetingTime.value.start >= PostLunchStart
  {
    if fa != [] {
      var init := fa[..|fa| - 1];
      UsesPostLunchSlotIff(init, slots);
      assert fa == init + [fa[|fa| - 1]];
    }
  }

  /** 50 when the catalogue has slots from 13:45 on but no fully assigned
    * class uses one of them. */
  function PostLunchPenalty(fa: seq<ClassSession>, slots: seq<MeetingTime>): (p: int)
    ensures p == 0 || p == 50
  {
    if HasPostLunchSlot(slots) && !UsesPostLunchSlot(fa, slots) then 50 else 0
  }

  /** The penalty is 50 exactly when some slot starts at 13:45 or later and
    * no fully assigned class meets in such a slot. */
  lemma PostLunchPenaltyCases(fa: seq<ClassSession>, slots: seq<MeetingTime>)
    ensures PostLunchPenalty(fa, slots) == 50 <==>
              && (exists mt :: mt in slots && mt.start >= PostLunchStart)
              && !(exists c :: c in fa && c.meetingTime.Some? && c.meetingTime.value in slots
                                && c.meetingTime.value.start >= PostLunchStart)
  {
    HasPostLunchSlotIff(slots);
    UsesPostLunchSlotIff(fa, slots);
  }

  // ---------------------------------------------------------------------
  // Classes per week

  /** `classes_per_week or 1`. */
  function Required(c: Course): int {
    if c.classesPerWeek == 0 then 1 else c.classesPerWeek
  }

  /** Course ids of the classes, each once, in order of first appearance
    * (the key order of the source's counting dict). */
  function CourseIds(s: seq<ClassSession>): (ids: seq<nat>)
    ensures forall i, j :: 0 <= i < j < |ids| ==> ids[i] != ids[j]
  {
    if s == [] then []
    else
      var before := CourseIds(s[..|s| - 1]);
      var last := s[|s| - 1];
      assert s == s[..|s| - 1] + [last];
      if last.course.id in before then before else before + [last.course.id]
  }

  /** The course ids listed are exactly those of the classes. */
  lemma {:induction false} CourseIdsListed(s: seq<ClassSession>)
    ensures forall id :: id in CourseIds(s) <==> exists c :: c in s && c.course.id == id
  {
    if s != [] {
      var before := s[..|s| - 1];
      CourseIdsListed(before);
      assert s == before + [s[|s| - 1]];
    }
  }

  /** How many of the classes belong to course `id`. */
  function CountCourse(s: seq<ClassSession>, id: nat): nat {
    if s == [] then 0
    else CountCourse(s[..|s| - 1], id) + (if s[|s| - 1].course.id == id then 1 else 0)
  }

  /** The weekly requirement of course `id`, read from the first class of
    * that course (0 when there is none). */
  function RequiredOf(s: seq<ClassSession>, id: nat): int {
    if s == [] then 0
    else
      var before := s[..|s| - 1];
      if CountCourse(before, id) > 0 then RequiredOf(before, id)
      else if s[|s| - 1].course.id == id then Required(s[|s| - 1].course)
      else 0
  }

  /** How many weekly classes course `id` is short of. */
  function Shortfall(s: seq<ClassSession>, id: nat): nat {
    if CountCourse(s, id) < RequiredOf(s, id) then RequiredOf(s, id) - CountCourse(s, id) else 0
  }

  function ShortfallSum(s: seq<ClassSession>, ids: seq<nat>): nat {
    if ids == [] then 0 else ShortfallSum(s, ids[..|ids| - 1]) + Shortfall(s, ids[|ids| - 1])
  }

  /** 100 per missing weekly class, over the courses that have at least one
    * fully assigned class. */
  function ClassesPerWeekPenaltyOf(fa: seq<ClassSession>): nat {
    100 * ShortfallSum(fa, CourseIds(fa))
  }

  /** Every course with a fully assigned class has at least its weekly
    * requirement of fully assigned classes; equivalently, the
    * classes-per-week penalty is zero. */
  predicate MeetsClassesPerWeek(ind: Individual)
    ensures MeetsClassesPerWeek(ind) <==> ClassesPerWeekPenaltyOf(FullyAssigned(ind)) == 0
  {
    var fa := FullyAssigned(ind);
    ShortfallSumZero(fa, CourseIds(fa));
    forall id :: id in CourseIds(fa) ==> CountCourse(fa, id) >= RequiredOf(fa, id)
  }

  lemma {:induction false} ShortfallSumZero(s: seq<ClassSession>, ids: seq<nat>)
    ensures ShortfallSum(s, ids) == 0 <==> forall id :: id in ids ==> Shortfall(s, id) == 0
  {
    if ids != [] {
      ShortfallSumZero(s, ids[..|ids| - 1]);
      assert ids == ids[..|ids| - 1] + [ids[|ids| - 1]];
    }
  }

  // ---------------------------------------------------------------------
  // Conflicts: one per conflicting pair (i, j), i < j, of fully assigned classes

  /** Conflicts of class `i` with classes `i+1 .. j-1`. */
  function RowConflicts(fa: seq<ClassSession>, i: nat, j: nat): nat
    requires i < |fa| && j <= |fa|
    decreases j
  {
    if j <= i + 1 then 0
    else RowConflicts(fa, i, j - 1) + (if HasConflict(fa[i], fa[j - 1]) then 1 else 0)
  }

  /** Conflicts of the pairs whose first class is below `i`. */
  function ConflictsBelow(fa: seq<ClassSession>, i: nat): nat
    requires i <= |fa|
  {
    if i == 0 then 0 else ConflictsBelow(fa, i - 1) + RowConflicts(fa, i - 1, |fa|)
  }

  /** The number of conflicting pairs of fully assigned classes: zero
    * exactly when no pair conflicts (see `ConflictsCountPairs` for the
    * count itself). */
  function Conflicts(fa: seq<ClassSession>): (n: nat)
    ensures n == 0 <==> forall a, b {:trigger HasConflict(fa[a], fa[b])} :: 0 <= a < b < |fa| ==> !HasConflict(fa[a], fa[b])
  {
    ConflictsBelowZero(fa, |fa|);
    ConflictsBelow(fa, |fa|)
  }

  /** One conflict per conflicting pair of positions `a < b`, whatever
    * resources the pair shares. */
  lemma ConflictsCountPairs(fa: seq<ClassSession>)
    ensures Conflicts(fa) == |set a: nat, b: nat | a < b < |fa| && HasConflict(fa[a], fa[b]) :: (a, b)|
  {
    ConflictsBelowCount(fa, |fa|);
    PairsBelowCount(ClashOf(fa), |fa|, |fa|);
    assert PairsBelow(ClashOf(fa), |fa|, |fa|) == set a: nat, b: nat | a < b < |fa| && HasConflict(fa[a], fa[b]) :: (a, b);
  }

  lemma {:induction false} RowConflictsZero(fa: seq<ClassSession>, i: nat, j: nat)
    requires i < |fa| && j <= |fa|
    ensures RowConflicts(fa, i, j) == 0 <==> forall k :: i < k < j ==> !HasConflict(fa[i], fa[k])
    decreases j
  {
    if j > i + 1 {
      RowConflictsZero(fa, i, j - 1);
    }
  }

  lemma {:induction false} ConflictsBelowZero(fa: seq<ClassSession>, i: nat)
    requires i <= |fa|
    ensures ConflictsBelow(fa, i) == 0 <==>
              forall a, b :: 0 <= a < i && a < b < |fa| ==> !HasConflict(fa[a], fa[b])
  {
    if i > 0 {
      ConflictsBelowZero(fa, i - 1);
      RowConflictsZero(fa, i - 1, |fa|);
    }
  }

  /** A clashing pair counts once, however many of instructor, room and
    * section it shares. */
  lemma PairCountsOnce(c1: ClassSession, c2: ClassSession)
    ensures Conflicts([c1, c2]) == if HasConflict(c1, c2) then 1 else 0
  {
    var fa := [c1, c2];
    assert RowConflicts(fa, 1, 2) == 0;
    assert RowConflicts(fa, 0, 2) == (if HasConflict(c1, c2) then 1 else 0) by {
      assert RowConflicts(fa, 0, 1) == 0;
    }
    assert ConflictsBelow(fa, 1) == RowConflicts(fa, 0, 2);
    assert ConflictsBelow(fa, 2) == ConflictsBelow(fa, 1) + RowConflicts(fa, 1, 2);
  }

  // The counting argument, for any relation `clash` on positions: the
  // source's double loop adds one for each related pair `a < b`.

  /** The related pairs `(a, b)`, `a < b < n`, whose first position is below `i`. */
  function PairsBelow(clash: (nat, nat) -> bool, n: nat, i: nat): set<(nat, nat)> {
    set a: nat, b: nat | a < i && a < b < n && clash(a, b) :: (a, b)
  }

  /** The related pairs `(i, b)` with `i < b < j`. */
  function RowPairs(clash: (nat, nat) -> bool, i: nat, j: nat): set<(nat, nat)> {
    set b: nat | i < b < j && clash(i, b) :: (i, b)
  }

  /** The inner loop's count for row `i`, up to `j`. */
  function RowCount(clash: (nat, nat) -> bool, i: nat, j: nat): nat
    decreases j
  {
    if j <= i + 1 then 0 else RowCount(clash, i, j - 1) + (if clash(i, j - 1) then 1 else 0)
  }

  /** The outer loop's count after the rows below `i`. */
  function CountBelow(clash: (nat, nat) -> bool, n: nat, i: nat): nat {
    if i == 0 then 0 else CountBelow(clash, n, i - 1) + RowCount(clash, i - 1, n)
  }

  lemma {:induction false} RowPairsCount(clash: (nat, nat) -> bool, i: nat, j: nat)
    ensures |RowPairs(clash, i, j)| == RowCount(clash, i, j)
    decreases j
  {
    if j <= i + 1 {
      assert RowPairs(clash, i, j) == {};
    } else {
      RowPairsCount(clash, i, j - 1);
      RowPairsSnoc(clash, i, j);
      if clash(i, j - 1) {
        assert |RowPairs(clash, i, j - 1) + {(i, j - 1)}| == |RowPairs(clash, i, j - 1)| + 1;
      }
    }
  }

  /** Widening a row by one position adds that pair when it is related. */
  lemma RowPairsSnoc(clash: (nat, nat) -> bool, i: nat, j: nat)
    requires i + 1 < j
    ensures (i, j - 1) !in RowPairs(clash, i, j - 1)
    ensures RowPairs(clash, i, j) ==
              if clash(i, j - 1) then RowPairs(clash, i, j - 1) + {(i, j - 1)} else RowPairs(clash, i, j - 1)
  {
    var shorter := RowPairs(clash, i, j - 1);
    var last: set<(nat, nat)> := if clash(i, j - 1) then {(i, j - 1)} else {};
    forall p | p in RowPairs(clash, i, j) ensures p in shorter + last {
      var b: nat :| i < b < j && clash(i, b) && p == (i, b);
      if b < j - 1 {
        assert p in shorter;
      }
    }
    assert RowPairs(clash, i, j) == shorter + last;
  }

  /** The pairs below `i` are those below `i - 1` and, apart from them, the
    * pairs of row `i - 1`. */
  lemma PairsBelowSplit(clash: (nat, nat) -> bool, n: nat, i: nat)
    requires 0 < i
    ensures |PairsBelow(clash, n, i)| == |PairsBelow(clash, n, i - 1)| + |RowPairs(clash, i - 1, n)|
  {
    var before, row := PairsBelow(clash, n, i - 1), RowPairs(clash, i - 1, n);
    forall p | p in PairsBelow(clash, n, i) ensures p in before + row {
      var a: nat, b: nat :| a < i && a < b < n && clash(a, b) && p == (a, b);
      if a < i - 1 {
        assert p in before;
      } else {
        assert p in row;
      }
    }
    forall p | p in row ensures p !in before {
      assert p.0 == i - 1;
    }
    assert PairsBelow(clash, n, i) == before + row;
    assert |before + row| + |before * row| == |before| + |row|;
  }

  lemma {:induction false} PairsBelowCount(clash: (nat, nat) -> bool, n: nat, i: nat)
    ensures |PairsBelow(clash, n, i)| == CountBelow(clash, n, i)
  {
    if i == 0 {
      assert PairsBelow(clash, n, 0) == {};
    } else {
      PairsBelowCount(clash, n, i - 1);
      RowPairsCount(clash, i - 1, n);
      PairsBelowSplit(clash, n, i);
    }
  }

  /** Conflict between the classes at two positions of `fa`. */
  function ClashOf(fa: seq<ClassSession>): (nat, nat) -> bool {
    (a: nat, b: nat) => a < |fa| && b < |fa| && HasConflict(fa[a], fa[b])
  }

  lemma {:induction false} RowConflictsCount(fa: seq<ClassSession>, i: nat, j: nat)
    requires i < |fa| && j <= |fa|
    ensures RowConflicts(fa, i, j) == RowCount(ClashOf(fa), i, j)
    decreases j
  {
    if j > i + 1 {
      RowConflictsCount(fa, i, j - 1);
      assert ClashOf(fa)(i, j - 1) == HasConflict(fa[i], fa[j - 1]);
    }
  }

  lemma {:induction false} ConflictsBelowCount(fa: seq<ClassSession>, i: nat)
    requires i <= |fa|
    ensures ConflictsBelow(fa, i) == CountBelow(ClashOf(fa), |fa|, i)
  {
    if i > 0 {
      ConflictsBelowCount(fa, i - 1);
      RowConflictsCount(fa, i - 1, |fa|);
    }
  }

  // ---------------------------------------------------------------------
  // The score

  /** The weighted sum of all penalties: never below the distribution
    * penalty plus 1000 per conflict. */
  function TotalPenalty(ind: Individual, slots: seq<MeetingTime>, distribution: real): (t: real)
    ensures t >= distribution + 1000.0 * Conflicts(FullyAssigned(ind)) as real
  {
    var fa := FullyAssigned(ind);
    SumOfBounds(ind, UnassignedCost, 50);
    SumOfBounds(ind, SoftCost, 5);
    SumOfBounds(ind, LunchCost, 200);
    (Conflicts(fa) * 1000 + SumOf(ind, UnassignedCost) * 50 + SumOf(ind, SoftCost) * 10) as real
      + distribution
      + (PostLunchPenalty(fa, slots) + ClassesPerWeekPenaltyOf(fa) + SumOf(ind, LunchCost)) as real
  }

  /** The normalising constant for `n` classes: 1000 per possible pair,
    * the worst per-class penalties, and the post-lunch penalty. */
  function MaxPenalty(n: nat): (m: real)
    ensures m >= 50.0 + 265.0 * n as real
  {
    assert n * (n - 1) >= 0 by {
      if n > 0 {
        assert n - 1 >= 0;
      }
    }
    (n * (n - 1)) as real / 2.0 * 1000.0
      + (n * 50 + n * 10 + n * 5 + 50 + n * 100 + n * 100) as real
  }

  function RealMax(a: real, b: real): real { if a < b then b else a }

  /** 0 for an empty individual; otherwise (1 - total / max) * 100, floored at 0. */
  function Fitness(ind: Individual, slots: seq<MeetingTime>, distribution: real): (f: real)
    ensures |ind| == 0 ==> f == 0.0
    ensures distribution >= 0.0 ==> 0.0 <= f <= 100.0
    ensures distribution >= 0.0 && |ind| > 0 ==> (f == 100.0 <==> TotalPenalty(ind, slots, distribution) == 0.0)
  {
    if |ind| == 0 then 0.0
    else
      var total := TotalPenalty(ind, slots, distribution);
      var most := MaxPenalty(|ind|);
      ScoreBounds(total, most);
      if most == 0.0 then (if total == 0.0 then 100.0 else 0.0)
      else RealMax(0.0, (1.0 - total / most) * 100.0)
  }

  /** The normalisation step on its own: a non-negative total against a
    * positive maximum gives a score in [0, 100], 100 only for total 0. */
  lemma ScoreBounds(total: real, most: real)
    requires most > 0.0
    ensures 0.0 <= RealMax(0.0, (1.0 - total / most) * 100.0)
    ensures total >= 0.0 ==> RealMax(0.0, (1.0 - total / most) * 100.0) <= 100.0
    ensures total >= 0.0 ==> (RealMax(0.0, (1.0 - total / most) * 100.0) == 100.0 <==> total == 0.0)
  {
    var q := total / most;
    if total < 0.0 {
      return;
    }
    assert q * most == total;
    assert q >= 0.0;
    assert q == 0.0 <==> total == 0.0;
  }

  /** The normaliser is not an upper bound on the total: a catalogue of one
    * class that is left unassigned already scores 0. */
  lemma SingleUnassignedClassScoresZero(c: ClassSession, slots: seq<MeetingTime>, distribution: real)
    requires !IsFullyAssigned(c) && distribution >= 0.0
    ensures Fitness([c], slots, distribution) == 0.0
  {
    assert SumOf([c], UnassignedCost) == UnassignedCost(c) by {
      assert [c][..0] == [];
    }
    SumOfBounds([c], SoftCost, 5);
    SumOfBounds([c], LunchCost, 200);
    assert TotalPenalty([c], slots, distribution) >= 2000.0;
  }

  // ---------------------------------------------------------------------
  // The source's loops

  /** The first pass over the classes: unassigned, soft-constraint and
    * lunch-break penalties. */
  method PerClassPenalties(ind: Individual) returns (unassigned: int, soft: int, lunch: int)
    ensures unassigned == SumOf(ind, UnassignedCost)
    ensures soft == SumOf(ind, SoftCost)
    ensures lunch == SumOf(ind, LunchCost)
    ensures 0 <= unassigned <= 50 * |ind| && 0 <= soft <= 5 * |ind| && 0 <= lunch <= 200 * |ind|
  {
    unassigned, soft, lunch := 0, 0, 0;
    for i := 0 to |ind|
      invariant unassigned == SumOf(ind[..i], UnassignedCost)
      invariant soft == SumOf(ind[..i], SoftCost)
      invariant lunch == SumOf(ind[..i], LunchCost)
    {
      SumOfSnoc(ind, i, UnassignedCost);
      SumOfSnoc(ind, i, SoftCost);
      SumOfSnoc(ind, i, LunchCost);
      var u, so, l := ClassPenalties(ind[i]);
      unassigned, soft, lunch := unassigned + u, soft + so, lunch + l;
    }
    assert ind[..|ind|] == ind;
    SumOfBounds(ind, UnassignedCost, 50);
    SumOfBounds(ind, SoftCost, 5);
    SumOfBounds(ind, LunchCost, 200);
  }

  /** The body of the first pass for one class: what it adds to each of the
    * three accumulators. */
  method ClassPenalties(c: ClassSession) returns (unassigned: int, soft: int, lunch: int)
    ensures unassigned == UnassignedCost(c) && soft == SoftCost(c) && lunch == LunchCost(c)
  {
    unassigned, soft, lunch := 0, 0, 0;
    if !IsFullyAssigned(c) {
      if c.course.kind == Lab {
        unassigned := 50;
      } else {
        unassigned := 40;
      }
    }
    if c.room.Some? {
      if c.course.kind == Lab && c.room.value.kind != LabRoom {
        soft := 5;
      }
    }
    if SpansLunchBreak(c) {
      lunch := lunch + 100;
    }
    if c.meetingTime.Some? {
      var range := ClassTimeRange(c);
      if range.value.1 == LunchStart {
        lunch := lunch + 100;
      }
    }
  }

  /** The source's counting dict: for each course id with a class in `fa`,
    * in order of first appearance, its number of classes and its weekly
    * requirement. */
  method CountByCourse(fa: seq<ClassSession>) returns (counts: map<nat, nat>, required: map<nat, int>, order: seq<nat>)
    ensures order == CourseIds(fa)
    ensures forall id :: id in counts <==> id in order
    ensures forall id :: id in required <==> id in order
    ensures forall id :: id in counts ==> counts[id] == CountCourse(fa, id)
    ensures forall id :: id in required ==> required[id] == RequiredOf(fa, id)
  {
    counts, required, order := map[], map[], [];
    for i := 0 to |fa|
      invariant (counts, required, order) == Tally(fa[..i])
    {
      assert fa[..i + 1] == fa[..i] + [fa[i]];
      TallyStep(fa[..i], fa[i]);
      var id := fa[i].course.id;
      if id !in counts {
        counts := counts[id := 0];
        required := required[id := Required(fa[i].course)];
        order := order + [id];
      }
      counts := counts[id := counts[id] + 1];
      assert counts == Tally(fa[..i + 1]).0;
    }
    assert fa[..|fa|] == fa;
    TallyKeys(fa);
    TallyCounts(fa);
    TallyRequired(fa);
  }

  /** The counting dict after the classes of `s`, in the order the loop
    * builds it. */
  function Tally(s: seq<ClassSession>): (map<nat, nat>, map<nat, int>, seq<nat>) {
    if s == [] then (map[], map[], [])
    else
      var (counts, required, order) := Tally(s[..|s| - 1]);
      var c := s[|s| - 1];
      var id := c.course.id;
      if id !in counts then (counts[id := 1], required[id := Required(c.course)], order + [id])
      else (counts[id := counts[id] + 1], required, order)
  }

  /** One more class: its course is counted once more, and added with its
    * requirement when it is new. */
  lemma TallyStep(s: seq<ClassSession>, c: ClassSession)
    ensures var id := c.course.id;
            Tally(s + [c]) ==
              if id !in Tally(s).0 then (Tally(s).0[id := 1], Tally(s).1[id := Required(c.course)], Tally(s).2 + [id])
              else (Tally(s).0[id := Tally(s).0[id] + 1], Tally(s).1, Tally(s).2)
  {
    assert (s + [c])[..|s|] == s;
  }

  /** The counting dict's keys are the course ids of `s`, in order of first
    * appearance. */
  lemma {:induction false} TallyKeys(s: seq<ClassSession>)
    ensures Tally(s).2 == CourseIds(s)
    ensures forall id :: id in Tally(s).0 <==> id in CourseIds(s)
    ensures forall id :: id in Tally(s).1 <==> id in CourseIds(s)
  {
    if s != [] {
      var before := s[..|s| - 1];
      var c := s[|s| - 1];
      TallyKeys(before);
      assert s == before + [c];
      CountingStep(before, c);
    }
  }

  /** Each course id is counted once per class of that course. */
  lemma {:induction false} TallyCounts(s: seq<ClassSession>)
    ensures forall id :: id in Tally(s).0 ==> Tally(s).0[id] == CountCourse(s, id)
  {
    if s != [] {
      var before := s[..|s| - 1];
      var c := s[|s| - 1];
      TallyCounts(before);
      TallyKeys(before);
      assert s == before + [c];
      CountingStep(before, c);
      CountPositiveIffListed(before, c.course.id);
    }
  }

  /** Each course id carries the requirement of its first class. */
  lemma {:induction false} TallyRequired(s: seq<ClassSession>)
    ensures forall id :: id in Tally(s).1 ==> Tally(s).1[id] == RequiredOf(s, id)
  {
    if s != [] {
      var before := s[..|s| - 1];
      var c := s[|s| - 1];
      TallyRequired(before);
      TallyKeys(before);
      assert s == before + [c];
      CountingStep(before, c);
      forall id | id in Tally(s).1 ensures Tally(s).1[id] == RequiredOf(s, id) {
        CountPositiveIffListed(before, id);
      }
    }
  }

  /** What one more class does to the course ids, the counts and the
    * requirements. */
  lemma CountingStep(s: seq<ClassSession>, c: ClassSession)
    ensures CourseIds(s + [c]) == if c.course.id in CourseIds(s) then CourseIds(s) else CourseIds(s) + [c.course.id]
    ensures forall id :: CountCourse(s + [c], id) == CountCourse(s, id) + (if c.course.id == id then 1 else 0)
    ensures forall id :: RequiredOf(s + [c], id) ==
              if CountCourse(s, id) > 0 then RequiredOf(s, id)
              else if c.course.id == id then Required(c.course) else 0
  {
    assert (s + [c])[..|s|] == s;
  }

  /** 100 points per missing weekly class, course by course. */
  method ClassesPerWeekPenalty(fa: seq<ClassSession>) returns (penalty: int)
    ensures penalty == ClassesPerWeekPenaltyOf(fa)
  {
    var counts, required, order := CountByCourse(fa);
    penalty := 0;
    for k := 0 to |order|
      invariant penalty == 100 * ShortfallSum(fa, order[..k])
    {
      var id := order[k];
      assert order[..k + 1][..k] == order[..k];
      if counts[id] < required[id] {
        penalty := penalty + (required[id] - counts[id]) * 100;
      }
    }
    assert order[..|order|] == order;
  }

  /** The convergence test: false at the first course, in order of first
    * appearance, with fewer fully assigned classes than it requires. */
  method CheckClassesPerWeek(ind: Individual) returns (ok: bool)
    ensures ok == MeetsClassesPerWeek(ind)
    ensures ok <==> ClassesPerWeekPenaltyOf(FullyAssigned(ind)) == 0
  {
    var fa := FullyAssigned(ind);
    var counts, required, order := CountByCourse(fa);
    ok := RequirementsMet(fa, counts, required, order);
    assert ok <==> forall id :: id in CourseIds(fa) ==> CountCourse(fa, id) >= RequiredOf(fa, id) by {
      if !ok {
        var k :| 0 <= k < |order| && CountCourse(fa, order[k]) < RequiredOf(fa, order[k]);
        assert order[k] in CourseIds(fa);
      } else {
        forall id | id in CourseIds(fa) ensures CountCourse(fa, id) >= RequiredOf(fa, id) {
          var j :| 0 <= j < |order| && order[j] == id;
        }
      }
    }
  }

  /** The loop over the counting dict of the convergence test: false at the
    * first course whose count is below its requirement. */
  method RequirementsMet(fa: seq<ClassSession>, counts: map<nat, nat>, required: map<nat, int>, order: seq<nat>)
    returns (ok: bool)
    requires forall k :: 0 <= k < |order| ==>
               && order[k] in counts && counts[order[k]] == CountCourse(fa, order[k])
               && order[k] in required && required[order[k]] == RequiredOf(fa, order[k])
    ensures ok <==> forall k :: 0 <= k < |order| ==> CountCourse(fa, order[k]) >= RequiredOf(fa, order[k])
  {
    for k := 0 to |order|
      invariant forall j :: 0 <= j < k ==> CountCourse(fa, order[j]) >= RequiredOf(fa, order[j])
    {
      if counts[order[k]] < required[order[k]] {
        return false;
      }
    }
    return true;
  }

  lemma {:induction false} CountPositiveIffListed(s: seq<ClassSession>, id: nat)
    ensures CountCourse(s, id) > 0 <==> id in CourseIds(s)
  {
    if s != [] {
      CountPositiveIffListed(s[..|s| - 1], id);
    }
  }

  /** The pairwise double loop over the fully assigned classes. */
  method CountConflicts(fa: seq<ClassSession>) returns (conflicts: nat)
    ensures conflicts == Conflicts(fa)
    ensures conflicts == 0 <==> forall a, b :: 0 <= a < b < |fa| ==> !HasConflict(fa[a], fa[b])
  {
    conflicts := 0;
    var n := |fa|;
    for i := 0 to n
      invariant conflicts == ConflictsBelow(fa, i)
    {
      for j := i + 1 to n
        invariant conflicts == ConflictsBelow(fa, i) + RowConflicts(fa, i, j)
      {
        if HasConflict(fa[i], fa[j]) {
          conflicts := conflicts + 1;
        }
      }
    }
  }

  /** The score of one individual, with the distribution penalty taken
    * from its fully assigned classes. `sqrt` stands for the floating-point
    * square root behind the standard deviation. */
  function Score(ind: Individual, slots: seq<MeetingTime>, sqrt: real -> real): (f: real)
    requires IsSquareRoot(sqrt)
    ensures 0.0 <= f <= 100.0
    ensures |ind| == 0 ==> f == 0.0
  {
    var distribution := DistributionPenalty(FullyAssigned(ind), sqrt);
    Fitness(ind, slots, distribution)
  }

  /** The score of one individual, computed step by step. */
  method CalculateFitness(ind: Individual, slots: seq<MeetingTime>, sqrt: real -> real) returns (fitness: real)
    requires IsSquareRoot(sqrt)
    ensures fitness == Score(ind, slots, sqrt)
    ensures fitness == Fitness(ind, slots, DistributionPenalty(FullyAssigned(ind), sqrt))
    ensures 0.0 <= fitness <= 100.0
    ensures |ind| == 0 ==> fitness == 0.0
  {
    var distribution := DistributionPenalty(FullyAssigned(ind), sqrt);
    if |ind| == 0 {
      return 0.0;
    }
    var total := SumPenalties(ind, slots, distribution);
    var n := |ind|;
    var most := (n * (n - 1)) as real / 2.0 * 1000.0
                + (n * 50 + n * 10 + n * 5 + 50 + n * 100 + n * 100) as real;
    assert most == MaxPenalty(n);
    if most == 0.0 {
      return if total == 0.0 then 100.0 else 0.0;
    }
    fitness := RealMax(0.0, (1.0 - total / most) * 100.0);
  }

  /** The penalty accumulators of the score, added up with their weights. */
  method SumPenalties(ind: Individual, slots: seq<MeetingTime>, distribution: real) returns (total: real)
    ensures total == TotalPenalty(ind, slots, distribution)
  {
    var unassigned, soft, lunch := PerClassPenalties(ind);
    var fa := FullyAssigned(ind);
    var postLunch := PostLunchPenalty(fa, slots);
    var perWeek := ClassesPerWeekPenalty(fa);
    var conflicts := CountConflicts(fa);
    total := (conflicts * 1000 + unassigned * 50 + soft * 10) as real + distribution
             + (postLunch + perWeek + lunch) as real;
  }
}
