# University timetable scheduler — a Dafny model of its scheduling core

The scheduler builds a weekly university timetable with a genetic search.
First each student section is given a home room. Then the required weekly
classes are listed: one per section, per course of a chosen semester and per
weekly occurrence. A population of candidate timetables is then evolved. Each
candidate gives every class an instructor, a room and a meeting time; it is
scored by a penalty-based fitness between 0 and 100; and it is bred by
tournament selection, single-point crossover, mutation and repair, with
elitism and two early stops.

Around the search sit three smaller pieces, also modelled here:

- the checker that warns, when a class is dragged to a new slot of a saved
  timetable, which classes it would clash with;
- the course-name abbreviation used in exported timetables;
- the generator of the default weekly grid of meeting-time slots.

The database records become immutable values, and an individual is a
sequence of class records with optional fields. Every random draw (choice,
sample, cut point, mutation coin) becomes an arbitrary element of its
candidate list, so every property below holds whatever is drawn. Times are
minutes since midnight. A class ends `(hour + duration) % 24` hours at the
start's minute, exactly as the source computes it.

The three stages of the search (the room pass, the catalogue of required
classes and the evolution) are modelled as separate operations. No member
composes them, so the evolution's properties hold for any catalogue, not
only for the one built from the room pass's output.

Besides the record of best scores, the generation loop returns, as ghost
results, every population it ran and how each one was bred from the one
before: the tournament winners, the tournaments that chose them and each
child's parents (`Lineage`). These facts are stated over `score`, the
fitness as a function on individuals; `Evolve` returns it and proves that it
gives every individual its `Score`.

Modules, one per concern:

| file | module | models |
|---|---|---|
| wrappers.dfy | Wrappers | `Option`, standing for Python's `None` |
| models.dfy | Models | Room, MeetingTime, Course, Section and class records; the end-time rule |
| time_predicates.dfy | TimePredicates | time range, overlap, conflict and lunch-span predicates |
| slot_filter.dfy | SlotFilter | suitable meeting times and rooms for a course; the schedulable slots |
| sorting.dfy | Sorting | stable sort, largest key first |
| candidates.dfy | Candidates | the search's catalogue and each field's candidate list with its fallback |
| room_assignment.dfy | RoomAssignment | the one-time section-to-room pass |
| required_classes.dfy | RequiredClasses | the catalogue of required classes |
| initial_population.dfy | InitialPopulation | the first generation |
| fitness.dfy | Fitness | the fitness and the classes-per-week test |
| operators.dfy | Operators | selection, crossover, mutation, repair |
| evolution.dfy | Evolution | the generation loop |
| move_conflicts.dfy | MoveConflicts | the slot and instructor conflict checks for a moved class |
| abbreviation.dfy | Abbreviation | the course-name abbreviation |
| default_slots.dfy | DefaultSlots | the default slot grid and its idempotent insertion into the table |

## Model

| member | source | states |
|---|---|---|
| Models.EndAfter | University-Time-table-scheduler-main/backend/scheduler_app/genetic_algorithm.py:396-399 | the end of a class has hour (start hour + duration) mod 24 and the start's minute |
| TimePredicates.ClassTimeRange | University-Time-table-scheduler-main/backend/scheduler_app/genetic_algorithm.py:390-399 | no range exactly when the class has no meeting time; otherwise the range starts at the meeting time's start, and its end hour is the start hour plus the duration, wrapped at 24 |
| TimePredicates.SameTimeSlotSymmetric | University-Time-table-scheduler-main/backend/scheduler_app/genetic_algorithm.py:401-418 | the overlap test gives the same answer in both argument orders |
| TimePredicates.HasConflictSymmetric | University-Time-table-scheduler-main/backend/scheduler_app/genetic_algorithm.py:369-388 | the conflict test gives the same answer in both argument orders |
| TimePredicates.NoOverlapWithoutTimeOrAcrossDays | University-Time-table-scheduler-main/backend/scheduler_app/genetic_algorithm.py:372-373 | a class without a meeting time, or two classes on different days, neither overlap nor conflict |
| TimePredicates.SameTimeSlot | University-Time-table-scheduler-main/backend/scheduler_app/genetic_algorithm.py:401-418 | an overlap needs both classes to have meeting times on the same day |
| TimePredicates.SameTimeSlotIff | University-Time-table-scheduler-main/backend/scheduler_app/genetic_algorithm.py:401-418 | two classes overlap exactly when both have times on the same day, each starts before the other ends (with the end wrapped as the source computes it), and neither range is empty |
| TimePredicates.HasConflict | University-Time-table-scheduler-main/backend/scheduler_app/genetic_algorithm.py:369-388 | a conflict holds exactly when the classes overlap in time and share an instructor, a room or a section |
| TimePredicates.SpansLunchBreak | University-Time-table-scheduler-main/backend/scheduler_app/genetic_algorithm.py:420-434 | a class spans lunch exactly when it has a time, starts before 13:45 and its wrapped end is after 13:00 |
| TimePredicates.WrappedRangeNeverOverlaps | University-Time-table-scheduler-main/backend/scheduler_app/genetic_algorithm.py:390-418 | a class whose end wraps to or before its start overlaps and conflicts with nothing |
| SlotFilter.SuitableMeetingTimes | University-Time-table-scheduler-main/backend/scheduler_app/genetic_algorithm.py:130-155 | an order-preserving sub-list of the slots; never 12:00 for a Lab course; for a duration other than 1 every slot's wrapped end is by 17:00; every suiting slot is kept; a one-hour non-Lab course keeps all slots |
| SlotFilter.SuitableMeetingTimesIdempotent | University-Time-table-scheduler-main/backend/scheduler_app/genetic_algorithm.py:130-155 | filtering the filtered list changes nothing |
| SlotFilter.OneHourOnlyLabFilter | University-Time-table-scheduler-main/backend/scheduler_app/genetic_algorithm.py:139-144 | for a one-hour course a slot is kept exactly when it is not the 12:00 slot of a Lab course |
| SlotFilter.SuitableRooms | University-Time-table-scheduler-main/backend/scheduler_app/genetic_algorithm.py:256-266 | an order-preserving sub-list holding exactly the Lab rooms for a Lab course, otherwise exactly the rooms holding the course's maximum enrolment |
| SlotFilter.SchedulableTimes | University-Time-table-scheduler-main/backend/scheduler_app/genetic_algorithm.py:37-40 | a sub-list of the slot table holding exactly its non-lunch Monday-to-Friday slots |
| Sorting.Insert | University-Time-table-scheduler-main/backend/scheduler_app/genetic_algorithm.py:55 | inserting into a list sorted largest-first keeps it sorted and adds exactly the one element |
| Sorting.SortDesc | University-Time-table-scheduler-main/backend/scheduler_app/genetic_algorithm.py:55 | the result is a permutation of the input, sorted largest key first |
| Candidates.InstructorChoices | University-Time-table-scheduler-main/backend/scheduler_app/genetic_algorithm.py:167-178 | the course's own instructors when it has any, otherwise every available instructor; empty only when both lists are |
| Candidates.TimeChoices | University-Time-table-scheduler-main/backend/scheduler_app/genetic_algorithm.py:195-205 | when some catalogue time suits the course, exactly the suitable times; otherwise every catalogue time; empty only when the catalogue has no time |
| Candidates.SuitableSound | University-Time-table-scheduler-main/backend/scheduler_app/genetic_algorithm.py:130-155 | every time the filter keeps suits the course |
| Candidates.RoomChoices | University-Time-table-scheduler-main/backend/scheduler_app/genetic_algorithm.py:498-506 | when some catalogue room suits the course, exactly the suitable rooms; otherwise every catalogue room; empty only when the catalogue has no room |
| Candidates.Choose | University-Time-table-scheduler-main/backend/scheduler_app/genetic_algorithm.py:174 | a random choice returns an element of its non-empty list |
| RoomAssignment.FreeRooms | University-Time-table-scheduler-main/backend/scheduler_app/genetic_algorithm.py:66-73 | exactly the unclaimed rooms that hold the section, Lab rooms only when asked |
| RoomAssignment.Largest | University-Time-table-scheduler-main/backend/scheduler_app/genetic_algorithm.py:70-78 | no room exactly when there is no candidate; otherwise a candidate no other candidate exceeds in capacity |
| RoomAssignment.ClaimedSnoc | University-Time-table-scheduler-main/backend/scheduler_app/genetic_algorithm.py:58-89 | placing one more section claims its room's id, if it got one |
| RoomAssignment.RoomForChoice | University-Time-table-scheduler-main/backend/scheduler_app/genetic_algorithm.py:60-89 | the room is available, unclaimed and large enough; a section with labs gets a Lab room whenever a free one fits; no candidate is larger; no room exactly when no unclaimed room fits |
| RoomAssignment.PlaceNext | University-Time-table-scheduler-main/backend/scheduler_app/genetic_algorithm.py:60-89 | placing the next section in size order keeps room ids distinct and every room large enough |
| RoomAssignment.PlaceNextByRule | University-Time-table-scheduler-main/backend/scheduler_app/genetic_algorithm.py:60-89 | the next section in size order gets the room the rule gives it after all earlier sections, and the earlier ones keep theirs |
| RoomAssignment.PlaceNextDistinct | University-Time-table-scheduler-main/backend/scheduler_app/genetic_algorithm.py:80-88 | a room outside the claimed ids keeps the room ids of the placed sections pairwise distinct |
| RoomAssignment.AssignRoomsToSections | University-Time-table-scheduler-main/backend/scheduler_app/genetic_algorithm.py:52-89 | the sections, largest first, each with the room chosen after the earlier ones; no room id twice; every room is available and holds its section |
| RequiredClasses.MatchingCourses | University-Time-table-scheduler-main/backend/scheduler_app/genetic_algorithm.py:103 | exactly the section's courses whose semester is selected |
| RequiredClasses.GenerateRequiredClasses | University-Time-table-scheduler-main/backend/scheduler_app/genetic_algorithm.py:91-128 | the nested loops build the catalogue function `RequiredClasses` |
| RequiredClasses.AppendSectionClasses | University-Time-table-scheduler-main/backend/scheduler_app/genetic_algorithm.py:101-123 | one section appends, course by course in the order of its matching courses, that course's classes |
| RequiredClasses.AppendCourseClasses | University-Time-table-scheduler-main/backend/scheduler_app/genetic_algorithm.py:110-123 | one course appends one class per weekly occurrence, numbered from 0 |
| RequiredClasses.CourseClassesMembers | University-Time-table-scheduler-main/backend/scheduler_app/genetic_algorithm.py:110-123 | one course gives exactly n classes, one per weekly index below n |
| RequiredClasses.CoursesClassesMembers | University-Time-table-scheduler-main/backend/scheduler_app/genetic_algorithm.py:108-123 | a section's classes number the sum of its courses' weekly counts, and are exactly one per listed course and weekly index |
| RequiredClasses.RequiredClassesMembers | University-Time-table-scheduler-main/backend/scheduler_app/genetic_algorithm.py:91-128 | the catalogue has one entry per (section, course of a selected semester, weekly index below `classes_per_week`, 1 when that is 0), and holds exactly those classes |
| RequiredClasses.RequiredClassesMembersStep | University-Time-table-scheduler-main/backend/scheduler_app/genetic_algorithm.py:101-123 | adding one section's classes keeps the catalogue equal to the classes of the sections so far |
| RequiredClasses.RequiredClassesDistinct | University-Time-table-scheduler-main/backend/scheduler_app/genetic_algorithm.py:101-123 | when section ids are distinct and each section lists distinct courses, the generated class keys (section, course, index) are pairwise distinct |
| RequiredClasses.CoursesClassesDistinct | University-Time-table-scheduler-main/backend/scheduler_app/genetic_algorithm.py:108-123 | a section's class keys are pairwise distinct when its courses are |
| RequiredClasses.CourseClassesDistinct | University-Time-table-scheduler-main/backend/scheduler_app/genetic_algorithm.py:113-115 | one course's weekly class keys are pairwise distinct |
| RequiredClasses.MatchingCoursesDistinct | University-Time-table-scheduler-main/backend/scheduler_app/genetic_algorithm.py:103 | filtering by semester keeps course ids distinct |
| RequiredClasses.KeysDistinctConcat | University-Time-table-scheduler-main/backend/scheduler_app/genetic_algorithm.py:123 | two id-distinct class lists with no id in common join into an id-distinct list |
| RequiredClasses.RequiredClasses | University-Time-table-scheduler-main/backend/scheduler_app/genetic_algorithm.py:113-123 | every catalogue class starts with no instructor, room or time, has its course's duration, and its key names section, course and index |
| RequiredClasses.CoursesClasses | University-Time-table-scheduler-main/backend/scheduler_app/genetic_algorithm.py:108-123 | every class of a section starts unassigned, with its course's duration and its section-course-index id |
| RequiredClasses.CourseClasses | University-Time-table-scheduler-main/backend/scheduler_app/genetic_algorithm.py:113-123 | one course gives exactly `n` classes, the i-th being the new class with index i |
| InitialPopulation.FreeTimes | University-Time-table-scheduler-main/backend/scheduler_app/genetic_algorithm.py:181-193 | exactly the candidate times at which the class clashes with no earlier class of the same instructor or section |
| InitialPopulation.FreeTimesSameProbe | University-Time-table-scheduler-main/backend/scheduler_app/genetic_algorithm.py:186-191 | the lookahead depends only on the class's identity and instructor, not on its room or time |
| InitialPopulation.ClashesAt | University-Time-table-scheduler-main/backend/scheduler_app/genetic_algorithm.py:185-191 | the inner loop reports a clash exactly when some earlier class clashes |
| InitialPopulation.ConflictFreeTimes | University-Time-table-scheduler-main/backend/scheduler_app/genetic_algorithm.py:182-193 | the double loop returns exactly the clash-free times, in order |
| InitialPopulation.RoomsAtSnoc | University-Time-table-scheduler-main/backend/scheduler_app/genetic_algorithm.py:210-246 | placing one class adds its room, and only it, to the rooms booked at its slot |
| InitialPopulation.FreeOf | University-Time-table-scheduler-main/backend/scheduler_app/genetic_algorithm.py:219-245 | exactly the rooms whose id is not booked |
| InitialPopulation.ChooseInstructor | University-Time-table-scheduler-main/backend/scheduler_app/genetic_algorithm.py:167-178 | a course instructor, else an available one, else none |
| InitialPopulation.ChooseTime | University-Time-table-scheduler-main/backend/scheduler_app/genetic_algorithm.py:180-204 | a clash-free suitable time, else a suitable time, else any time, else none |
| InitialPopulation.ChooseRoom | University-Time-table-scheduler-main/backend/scheduler_app/genetic_algorithm.py:206-250 | the section's room when unbooked at the slot, else an unbooked suitable room, else any unbooked room, else none; the booking map keeps tracking exactly the rooms held per slot |
| InitialPopulation.BuildIndividual | University-Time-table-scheduler-main/backend/scheduler_app/genetic_algorithm.py:161-252 | every class is assigned by those rules after the classes before it |
| InitialPopulation.PlaceClass | University-Time-table-scheduler-main/backend/scheduler_app/genetic_algorithm.py:166-250 | one class is given an instructor, a meeting time and a room by the rules, seeing the classes before it, and `used_rooms` keeps recording exactly the rooms held per (day, start time) |
| InitialPopulation.GenerateInitialPopulation | University-Time-table-scheduler-main/backend/scheduler_app/genetic_algorithm.py:157-254 | `population_size` individuals, each built by those rules |
| InitialPopulation.BuiltKeepsCatalogue | University-Time-table-scheduler-main/backend/scheduler_app/genetic_algorithm.py:161-163 | an individual is the catalogue with only instructor, room and time filled in |
| InitialPopulation.BuiltDrawsFromChoices | University-Time-table-scheduler-main/backend/scheduler_app/genetic_algorithm.py:167-204 | instructor and time come from their candidate lists, and each is unset only when its list is empty |
| InitialPopulation.BuiltAvoidsClashes | University-Time-table-scheduler-main/backend/scheduler_app/genetic_algorithm.py:181-196 | when a clash-free suitable time exists the class gets one, and no earlier class of its instructor or section overlaps it |
| InitialPopulation.RoomIsFree | University-Time-table-scheduler-main/backend/scheduler_app/genetic_algorithm.py:206-250 | an assigned room comes with a time and is not booked by an earlier class at that slot |
| InitialPopulation.BuiltRoomsUnique | University-Time-table-scheduler-main/backend/scheduler_app/genetic_algorithm.py:206-250 | a room only comes with a time, and no two classes at the same day and start share a room |
| InitialPopulation.BuiltPrefersSectionRoom | University-Time-table-scheduler-main/backend/scheduler_app/genetic_algorithm.py:208-231 | a timed class keeps its section's room whenever it is unbooked at the slot, and has no room only when every room is booked there |
| Fitness.SumOfBounds | University-Time-table-scheduler-main/backend/scheduler_app/genetic_algorithm.py:283-304 | a sum of per-class costs in [0, hi] lies in [0, hi * n] |
| Fitness.FullyAssigned | University-Time-table-scheduler-main/backend/scheduler_app/genetic_algorithm.py:307 | exactly the classes with instructor, room and time, no more than the individual holds |
| Fitness.UnscheduledCountsZero | University-Time-table-scheduler-main/backend/scheduler_app/genetic_algorithm.py:311-312 | with no scheduled class every day count is zero |
| Fitness.DistributionPenalty | University-Time-table-scheduler-main/backend/scheduler_app/genetic_algorithm.py:310-319 | non-negative, and zero exactly when the weekday counts have zero variance |
| Fitness.DistributionPenaltySquare | University-Time-table-scheduler-main/backend/scheduler_app/genetic_algorithm.py:316-319 | its square is 100 times the variance of the weekday counts |
| Fitness.EvenSpreadCostsNothing | University-Time-table-scheduler-main/backend/scheduler_app/genetic_algorithm.py:313-319 | equal counts on all five weekdays cost nothing |
| Fitness.UnevenSpreadCosts | University-Time-table-scheduler-main/backend/scheduler_app/genetic_algorithm.py:313-319 | two weekdays with different counts cost something |
| Fitness.VarianceNonNegative | University-Time-table-scheduler-main/backend/scheduler_app/genetic_algorithm.py:316-317 | the variance of five counts is never negative |
| Fitness.CourseIds | University-Time-table-scheduler-main/backend/scheduler_app/genetic_algorithm.py:332-339 | no course id is listed twice |
| Fitness.CourseIdsListed | University-Time-table-scheduler-main/backend/scheduler_app/genetic_algorithm.py:332-339 | the listed ids are exactly the course ids of the classes |
| Fitness.ShortfallSumZero | University-Time-table-scheduler-main/backend/scheduler_app/genetic_algorithm.py:341-348 | the summed shortfall is zero exactly when each listed course has none |
| Fitness.MeetsClassesPerWeek | University-Time-table-scheduler-main/backend/scheduler_app/genetic_algorithm.py:519-539 | the classes-per-week test holds exactly when the classes-per-week penalty of the fitness is zero |
| Fitness.RowConflictsZero | University-Time-table-scheduler-main/backend/scheduler_app/genetic_algorithm.py:351-357 | a row of the pair loop counts nothing exactly when its class conflicts with none after it |
| Fitness.ConflictsBelowZero | University-Time-table-scheduler-main/backend/scheduler_app/genetic_algorithm.py:350-357 | the first rows count nothing exactly when none of their pairs conflicts |
| Fitness.Conflicts | University-Time-table-scheduler-main/backend/scheduler_app/genetic_algorithm.py:350-357 | the conflict count is zero exactly when no pair of positions a < b holds conflicting classes |
| Fitness.ConflictsCountPairs | University-Time-table-scheduler-main/backend/scheduler_app/genetic_algorithm.py:350-357 | the conflict count is the number of index pairs a < b whose classes conflict: one per pair, whatever resources it shares |
| Fitness.ConflictsBelowCount | University-Time-table-scheduler-main/backend/scheduler_app/genetic_algorithm.py:350-357 | the nested loops count, row by row, the same number as the generic pair count for the conflict relation |
| Fitness.RowConflictsCount | University-Time-table-scheduler-main/backend/scheduler_app/genetic_algorithm.py:351-357 | the inner loop counts the same number as the generic row count |
| Fitness.PairsBelowCount | University-Time-table-scheduler-main/backend/scheduler_app/genetic_algorithm.py:350-357 | for any relation on positions, the row-by-row count equals the size of the set of related pairs a < b with a below the row bound |
| Fitness.PairsBelowSplit | University-Time-table-scheduler-main/backend/scheduler_app/genetic_algorithm.py:350-351 | the related pairs of the first i rows split into those of the first i-1 rows and those of row i-1 |
| Fitness.RowPairsCount | University-Time-table-scheduler-main/backend/scheduler_app/genetic_algorithm.py:351-357 | the count of one row equals the size of its set of related pairs |
| Fitness.RowPairsSnoc | University-Time-table-scheduler-main/backend/scheduler_app/genetic_algorithm.py:351-357 | extending a row by one column adds that pair exactly when it is related |
| Fitness.PairCountsOnce | University-Time-table-scheduler-main/backend/scheduler_app/genetic_algorithm.py:356-357 | a clashing pair adds exactly 1, however many resources it shares |
| Fitness.TotalPenalty | University-Time-table-scheduler-main/backend/scheduler_app/genetic_algorithm.py:360 | the weighted total is at least the distribution penalty plus 1000 per conflicting pair (the other terms are non-negative) |
| Fitness.MaxPenalty | University-Time-table-scheduler-main/backend/scheduler_app/genetic_algorithm.py:362 | the normaliser is at least 50 + 265 n, so the zero-normaliser branch is never taken |
| Fitness.ScoreBounds | University-Time-table-scheduler-main/backend/scheduler_app/genetic_algorithm.py:366 | the clipped score lies in [0, 100] and is 100 exactly when the total penalty is 0 |
| Fitness.Fitness | University-Time-table-scheduler-main/backend/scheduler_app/genetic_algorithm.py:277-280 | fitness is 0 for an empty individual; with a non-negative distribution penalty it lies in [0, 100] and is 100 exactly when the total penalty is 0 |
| Fitness.PostLunchPenalty | University-Time-table-scheduler-main/backend/scheduler_app/genetic_algorithm.py:321-328 | the penalty takes only the values 0 and 50 |
| Fitness.HasPostLunchSlotIff | University-Time-table-scheduler-main/backend/scheduler_app/genetic_algorithm.py:322 | the slot test holds exactly when some meeting time starts at 13:45 or later |
| Fitness.UsesPostLunchSlotIff | University-Time-table-scheduler-main/backend/scheduler_app/genetic_algorithm.py:323 | the use test holds exactly when some fully assigned class meets in a listed slot starting at 13:45 or later |
| Fitness.PostLunchPenaltyCases | University-Time-table-scheduler-main/backend/scheduler_app/genetic_algorithm.py:321-328 | the penalty is 50 exactly when some slot starts at 13:45 or later and no fully assigned class meets in such a slot |
| Fitness.ClassPenalties | University-Time-table-scheduler-main/backend/scheduler_app/genetic_algorithm.py:283-304 | one class's unassigned, lab-room and lunch penalties |
| Fitness.SingleUnassignedClassScoresZero | University-Time-table-scheduler-main/backend/scheduler_app/genetic_algorithm.py:283-289 | one incomplete class on its own scores 0 |
| Fitness.PerClassPenalties | University-Time-table-scheduler-main/backend/scheduler_app/genetic_algorithm.py:283-304 | the per-class loop computes the unassigned, soft and lunch sums, each between 0 and 50, 5 and 200 times the class count |
| Fitness.CountByCourse | University-Time-table-scheduler-main/backend/scheduler_app/genetic_algorithm.py:332-339 | the counting dict holds exactly the course ids present, with each course's class count and requirement |
| Fitness.TallyKeys | University-Time-table-scheduler-main/backend/scheduler_app/genetic_algorithm.py:332-339 | the counting dict's keys are the course ids present, each once, in order of first appearance |
| Fitness.TallyCounts | University-Time-table-scheduler-main/backend/scheduler_app/genetic_algorithm.py:332-339 | each course id is counted once per fully assigned class of that course |
| Fitness.TallyRequired | University-Time-table-scheduler-main/backend/scheduler_app/genetic_algorithm.py:337-339 | each counted course id carries the weekly requirement (`classes_per_week or 1`) of its course |
| Fitness.TallyStep | University-Time-table-scheduler-main/backend/scheduler_app/genetic_algorithm.py:333-339 | one more class adds its course id with count 1 and its requirement when new, and otherwise raises that id's count by one |
| Fitness.ClassesPerWeekPenalty | University-Time-table-scheduler-main/backend/scheduler_app/genetic_algorithm.py:330-348 | the loop computes 100 times the summed shortfall over the courses present |
| Fitness.CheckClassesPerWeek | University-Time-table-scheduler-main/backend/scheduler_app/genetic_algorithm.py:519-539 | true exactly when every course present has its weekly requirement, which is exactly when the fitness's classes-per-week penalty is zero |
| Fitness.RequirementsMet | University-Time-table-scheduler-main/backend/scheduler_app/genetic_algorithm.py:531-539 | the early-return loop answers whether every listed course meets its requirement |
| Fitness.CountPositiveIffListed | University-Time-table-scheduler-main/backend/scheduler_app/genetic_algorithm.py:332-341 | a course has classes exactly when it is a key of the counting dict |
| Fitness.CountConflicts | University-Time-table-scheduler-main/backend/scheduler_app/genetic_algorithm.py:350-357 | the double loop counts conflicting pairs, zero exactly when no pair conflicts |
| Fitness.Score | University-Time-table-scheduler-main/backend/scheduler_app/genetic_algorithm.py:270-367 | the score lies in [0, 100] and is 0 for an empty individual |
| Fitness.CalculateFitness | University-Time-table-scheduler-main/backend/scheduler_app/genetic_algorithm.py:270-367 | the step-by-step computation equals the fitness function, in [0, 100], 0 when empty |
| Fitness.SumPenalties | University-Time-table-scheduler-main/backend/scheduler_app/genetic_algorithm.py:283-360 | the accumulated penalties, weighted 1000, 50 and 10 plus the distribution, post-lunch, classes-per-week and lunch penalties, equal the total penalty function |
| Operators.FirstBest | University-Time-table-scheduler-main/backend/scheduler_app/genetic_algorithm.py:443-444 | the position of the first highest fitness in the sample |
| Operators.Indices | University-Time-table-scheduler-main/backend/scheduler_app/genetic_algorithm.py:596 | the indices 0..n-1 in order |
| Operators.Selection | University-Time-table-scheduler-main/backend/scheduler_app/genetic_algorithm.py:436-447 | as many winners as individuals, each the first fittest member of its sample of min(5, n) distinct indices |
| Operators.Crossover | University-Time-table-scheduler-main/backend/scheduler_app/genetic_algorithm.py:449-460 | parents of unequal length or shorter than 2 come back unchanged; otherwise lengths are kept and each position of a child comes from a parent at that position, the two children taking opposite parents |
| Operators.CrossoverInvolution | University-Time-table-scheduler-main/backend/scheduler_app/genetic_algorithm.py:457-459 | crossing the children again at the same point gives back the parents |
| Operators.CrossoverKeepsShape | University-Time-table-scheduler-main/backend/scheduler_app/genetic_algorithm.py:449-460 | children of catalogue-shaped parents are catalogue-shaped |
| Operators.CrossoverStep | University-Time-table-scheduler-main/backend/scheduler_app/genetic_algorithm.py:457 | the children come from some cut point in [1, len-1] |
| Operators.Mutate | University-Time-table-scheduler-main/backend/scheduler_app/genetic_algorithm.py:462-483 | length kept; each class is untouched, or has only its instructor or only its time redrawn from its candidates |
| Operators.MutationKeepsShapeAndRooms | University-Time-table-scheduler-main/backend/scheduler_app/genetic_algorithm.py:464-466 | mutation keeps every class's identity and never changes a room |
| Operators.MutationWithoutChoices | University-Time-table-scheduler-main/backend/scheduler_app/genetic_algorithm.py:470-482 | with no instructor and no time to draw from, mutation changes nothing |
| Operators.RepairField | University-Time-table-scheduler-main/backend/scheduler_app/genetic_algorithm.py:488-516 | a set field stays; an unset field gets a candidate when there is one |
| Operators.RepairClass | University-Time-table-scheduler-main/backend/scheduler_app/genetic_algorithm.py:487-516 | only unset fields of the class change, each to one of its candidates |
| Operators.RepairIndividual | University-Time-table-scheduler-main/backend/scheduler_app/genetic_algorithm.py:485-517 | every class of the individual is repaired that way |
| Operators.RepairKeepsShape | University-Time-table-scheduler-main/backend/scheduler_app/genetic_algorithm.py:485-517 | repair keeps length and every class's identity |
| Operators.RepairOfCompleteIsIdentity | University-Time-table-scheduler-main/backend/scheduler_app/genetic_algorithm.py:488-508 | repairing a fully assigned individual changes nothing |
| Operators.RepairIdempotent | University-Time-table-scheduler-main/backend/scheduler_app/genetic_algorithm.py:485-517 | repairing a repaired individual changes nothing |
| Operators.RepairCompletes | University-Time-table-scheduler-main/backend/scheduler_app/genetic_algorithm.py:488-516 | after repair a field is unset only when its candidates and fallback are both empty; with a full catalogue every class is fully assigned |
| Evolution.EliteSize | University-Time-table-scheduler-main/backend/scheduler_app/genetic_algorithm.py:595 | at least one elite |
| Evolution.Ranked | University-Time-table-scheduler-main/backend/scheduler_app/genetic_algorithm.py:596 | a permutation of the population indices, fittest first |
| Evolution.ElitesAreFittest | University-Time-table-scheduler-main/backend/scheduler_app/genetic_algorithm.py:595-598 | every elite is at least as fit as every individual left out |
| Evolution.ScorePopulation | University-Time-table-scheduler-main/backend/scheduler_app/genetic_algorithm.py:555 | one score per individual, each its fitness |
| Evolution.ScoresSnoc | University-Time-table-scheduler-main/backend/scheduler_app/genetic_algorithm.py:555 | appending the next individual's score keeps the scores aligned with the population |
| Evolution.Breed | University-Time-table-scheduler-main/backend/scheduler_app/genetic_algorithm.py:600-611 | both parents come from the selected pool; the children are the cut-point crossover of the parents, each mutated and then repaired; they keep the catalogue shape and are fully assigned when the catalogue offers every field |
| Evolution.FillWithChildren | University-Time-table-scheduler-main/backend/scheduler_app/genetic_algorithm.py:600-613 | the elites are kept as the prefix, children fill the population up to its size, all catalogue-shaped, and every child is fully assigned when the catalogue offers every field |
| Evolution.NextGeneration | University-Time-table-scheduler-main/backend/scheduler_app/genetic_algorithm.py:592-613 | same population size and shape; the first `max(1, int(n * rate))` (at most n) are the fittest in rank order; the rest are fully assigned when the catalogue offers every field |
| Evolution.FirstMax | University-Time-table-scheduler-main/backend/scheduler_app/genetic_algorithm.py:556-557 | the index of the first highest score |
| Evolution.BestOf | University-Time-table-scheduler-main/backend/scheduler_app/genetic_algorithm.py:555-557 | every individual's score, and the first index holding the highest one |
| Evolution.ProgressionSnoc | University-Time-table-scheduler-main/backend/scheduler_app/genetic_algorithm.py:578 | appending a score that does not fall, or falls only as a fully assigned best replaces a partial one, keeps the trace's progression |
| Evolution.RecordStep | University-Time-table-scheduler-main/backend/scheduler_app/genetic_algorithm.py:564-578 | updating the best by the improvement rule keeps the record: the best's score is its fitness and the last trace entry |
| Evolution.Advance | University-Time-table-scheduler-main/backend/scheduler_app/genetic_algorithm.py:555-578 | the first fittest individual replaces the best exactly when it improves on it (higher score, or fully assigned over a partial best), resetting the stagnation count, which otherwise grows by one; one more trace entry; an empty catalogue records `[]` with 0 |
| Evolution.StaleRun | University-Time-table-scheduler-main/backend/scheduler_app/genetic_algorithm.py:570-575 | the stagnation count is the number of trailing generations that did not improve, and the generation before them improved |
| Evolution.StaleRunSnoc | University-Time-table-scheduler-main/backend/scheduler_app/genetic_algorithm.py:570-575 | an improving generation resets the count; any other adds one |
| Evolution.RecordImproved | University-Time-table-scheduler-main/backend/scheduler_app/genetic_algorithm.py:570-578 | a generation that does not improve repeats the previous trace entry |
| Evolution.StagnationSnoc | University-Time-table-scheduler-main/backend/scheduler_app/genetic_algorithm.py:570-578 | one generation keeps the stagnation count tied to the per-generation improvements and the trace |
| Evolution.Generation | University-Time-table-scheduler-main/backend/scheduler_app/genetic_algorithm.py:555-590 | every returned fitness entry is its individual's score and the generation best is the first individual with the highest one; one generation keeps the record and the stagnation bookkeeping; it stops exactly when 200 generations passed without improvement or the generation best is fully assigned and meets classes-per-week |
| Evolution.Search | University-Time-table-scheduler-main/backend/scheduler_app/genetic_algorithm.py:554-613 | at most one trace entry per generation; the loop keeps the record, the stagnation count, the per-generation history and assessments; no generation before the last met a stop condition, and the loop ended before the last generation only because the last one run did; convergence means that generation's best met the convergence test before 200 stale generations, and leaves a fully assigned best; the populations run start at the initial one, each generation's best is the first fittest individual of its population, and each later population is bred from the one before |
| Evolution.SearchedEmpty | University-Time-table-scheduler-main/backend/scheduler_app/genetic_algorithm.py:542-548 | before the first generation there is no best, the best score is 0 and the trace and history are empty |
| Evolution.HistorySnoc | University-Time-table-scheduler-main/backend/scheduler_app/genetic_algorithm.py:555-578 | one more generation extends the history: whether its best improved on the best so far, and the best and best score it left |
| Evolution.AssessedAt | University-Time-table-scheduler-main/backend/scheduler_app/genetic_algorithm.py:555-588 | each generation's recorded score is its best individual's fitness, and its convergence flag is set exactly when that individual is fully assigned and meets classes-per-week |
| Evolution.AssessedSnoc | University-Time-table-scheduler-main/backend/scheduler_app/genetic_algorithm.py:555-588 | assessing one more generation's best keeps the earlier assessments |
| Evolution.NoStopBeforeSnoc | University-Time-table-scheduler-main/backend/scheduler_app/genetic_algorithm.py:583-590 | recording one more generation leaves the earlier generations' stop tests unchanged |
| Evolution.StopStep | University-Time-table-scheduler-main/backend/scheduler_app/genetic_algorithm.py:583-590 | after a run where no generation stopped the loop, the next generation stops it exactly when it meets a stop condition |
| Evolution.SearchStep | University-Time-table-scheduler-main/backend/scheduler_app/genetic_algorithm.py:555-590 | one generation extends the record, the stagnation count, the history and the assessments; it stops the loop exactly when 200 stale generations ran or its best is fully assigned and meets classes-per-week, and converges exactly in the second case |
| Evolution.Step | University-Time-table-scheduler-main/backend/scheduler_app/genetic_algorithm.py:555-613 | one pass of the loop: the history grows by one generation whose best is the first fittest individual of the population; the loop stops exactly when that generation meets a stop condition, and then the population is kept; otherwise the next population has the same size and shape, its first `EliteCount` individuals are the fittest in rank order, the pool holds each tournament's winner, and every later child is bred from the pool |
| Evolution.LineageScored | University-Time-table-scheduler-main/backend/scheduler_app/genetic_algorithm.py:555-557 | scoring the last population of the lineage adds its first fittest individual as that generation's best |
| Evolution.LineageBred | University-Time-table-scheduler-main/backend/scheduler_app/genetic_algorithm.py:592-613 | the population bred from the last scored one extends the lineage |
| Evolution.Elites | University-Time-table-scheduler-main/backend/scheduler_app/genetic_algorithm.py:595-598 | the first `elite` individuals in fitness rank, fittest first |
| Evolution.EliteCount | University-Time-table-scheduler-main/backend/scheduler_app/genetic_algorithm.py:595-598 | at least one elite for a non-empty population, and never more than the population |
| Evolution.RepairBest | University-Time-table-scheduler-main/backend/scheduler_app/genetic_algorithm.py:615-617 | no best stays none; an empty best is kept; otherwise the best is repaired, and a fully assigned best is returned unchanged |
| Evolution.Evolve | University-Time-table-scheduler-main/backend/scheduler_app/genetic_algorithm.py:541-635 | at most one trace entry per generation; the trace repeats its entry in each generation that did not improve, and the best score falls only when a fully assigned best replaces a partial one; the stagnation count is the run of non-improving generations; each generation's best, its score and whether it improved are recorded; no generation before the last met a stop condition, and an early stop is due to 200 stale generations or to the last generation's best being fully assigned and meeting classes-per-week; the returned best is the repaired best seen; an empty catalogue returns `([], 0, [0])`; the initial population has the requested size and is built from the catalogue, each generation's best is the first fittest individual of its population by `Score`, and each later population is bred from the one before |
| MoveConflicts.OccupiesWindow | University-Time-table-scheduler-main/backend/scheduler_app/utils.py:476-486 | a saved class occupies a start time exactly when it is on that day, at the same minute, and fewer than `duration` hours after its start counting round midnight |
| MoveConflicts.WindowOccupied | University-Time-table-scheduler-main/backend/scheduler_app/utils.py:476-486 | a start time on the class's minute, fewer than `duration` hours after its start counting round midnight, is one of its hour starts |
| MoveConflicts.OccupiedInWindow | University-Time-table-scheduler-main/backend/scheduler_app/utils.py:476-486 | every hour start of the class has its minute and lies fewer than `duration` hours after its start, counting round midnight |
| MoveConflicts.KindOf | University-Time-table-scheduler-main/backend/scheduler_app/utils.py:487-499 | instructor when the instructor matches, else room when the room matches, else section when the section matches, else no conflict |
| MoveConflicts.SlotConflicts | University-Time-table-scheduler-main/backend/scheduler_app/utils.py:463-511 | no more reports than saved classes |
| MoveConflicts.SlotConflictsMembers | University-Time-table-scheduler-main/backend/scheduler_app/utils.py:463-511 | a conflict is reported exactly for a saved class that is not excluded, occupies the new slot and shares a resource, with the precedence's kind |
| MoveConflicts.ExcludedNeverReported | University-Time-table-scheduler-main/backend/scheduler_app/utils.py:472 | the excluded class is never reported |
| MoveConflicts.SelfConflict | University-Time-table-scheduler-main/backend/test_slot_update_comprehensive.py:107-116 | without exclusion a class checked at its own slot is reported as an instructor conflict with itself |
| MoveConflicts.ReportedAreSaved | University-Time-table-scheduler-main/backend/scheduler_app/utils.py:474-509 | every report names a saved class |
| MoveConflicts.SlotConflictsDistinct | University-Time-table-scheduler-main/backend/scheduler_app/utils.py:509 | no class is reported twice |
| MoveConflicts.OccupiesAt | University-Time-table-scheduler-main/backend/scheduler_app/utils.py:479-486 | the hour-offset loop stops with a hit exactly when the class occupies the start time |
| MoveConflicts.CheckSlotConflicts | University-Time-table-scheduler-main/backend/scheduler_app/utils.py:463-511 | the loops compute the slot-conflict list |
| MoveConflicts.InstructorConflicts | University-Time-table-scheduler-main/backend/scheduler_app/utils.py:426-460 | no more reports than saved classes |
| MoveConflicts.InstructorCheckAgrees | University-Time-table-scheduler-main/backend/scheduler_app/utils.py:426-460 | the instructor check reports exactly the instructor conflicts of the slot check, whatever room and section are given |
| MoveConflicts.CheckInstructorConflicts | University-Time-table-scheduler-main/backend/scheduler_app/utils.py:426-460 | the loops compute the instructor-conflict list |
| Abbreviation.UpperChar | University-Time-table-scheduler-main/backend/scheduler_app/utils.py:18 | a lower-case ASCII letter becomes its capital; other characters stay |
| Abbreviation.Upper | University-Time-table-scheduler-main/backend/scheduler_app/utils.py:17 | same length, each character upper-cased |
| Abbreviation.RunLength | University-Time-table-scheduler-main/backend/scheduler_app/utils.py:15 | the length of the maximal run of word characters at the front |
| Abbreviation.Words | University-Time-table-scheduler-main/backend/scheduler_app/utils.py:15 | every word is non-empty and made of word characters |
| Abbreviation.WordsAreMaximalRuns | University-Time-table-scheduler-main/backend/scheduler_app/utils.py:15 | the words are the maximal runs of word characters of the name, at increasing positions, one per start position |
| Abbreviation.WordStarts | University-Time-table-scheduler-main/backend/scheduler_app/utils.py:15 | one start position per word |
| Abbreviation.SkipKeepsRuns | University-Time-table-scheduler-main/backend/scheduler_app/utils.py:15 | a leading non-word character shifts every run by one |
| Abbreviation.RunThenRuns | University-Time-table-scheduler-main/backend/scheduler_app/utils.py:15 | a leading maximal run followed by the runs of the rest gives the runs of the whole |
| Abbreviation.LeadingRun | University-Time-table-scheduler-main/backend/scheduler_app/utils.py:15 | a prefix of word characters ended by a non-word character or the end of the name is a maximal run |
| Abbreviation.LaterRuns | University-Time-table-scheduler-main/backend/scheduler_app/utils.py:15 | the runs of a suffix that starts after a run are runs of the whole name, at shifted positions |
| Abbreviation.ConsRuns | University-Time-table-scheduler-main/backend/scheduler_app/utils.py:15 | a run before every run of a list extends the list of maximal runs |
| Abbreviation.RunShifted | University-Time-table-scheduler-main/backend/scheduler_app/utils.py:15 | a run of a suffix is a run of the whole name when its left edge is still a boundary |
| Abbreviation.WordsCoverWordChars | University-Time-table-scheduler-main/backend/scheduler_app/utils.py:15 | the words put together are exactly the word characters of the name |
| Abbreviation.NoWordsIff | University-Time-table-scheduler-main/backend/scheduler_app/utils.py:15-16 | a name has no word exactly when it has no word character |
| Abbreviation.AbbreviateCourseName | University-Time-table-scheduler-main/backend/scheduler_app/utils.py:11-18 | "UNK" for a missing or empty name; the first three characters upper-cased when there is no word; otherwise one upper-cased initial per word |
| Abbreviation.Initials | University-Time-table-scheduler-main/backend/scheduler_app/utils.py:18 | one upper-cased first character per word |
| Abbreviation.AbbreviationChars | University-Time-table-scheduler-main/backend/scheduler_app/utils.py:13-18 | the label is made of word characters exactly when the name has one |
| DefaultSlots.HHMM | University-Time-table-scheduler-main/backend/scheduler_app/models.py:112 | a start time prints as four digits |
| DefaultSlots.Hourly | University-Time-table-scheduler-main/backend/scheduler_app/models.py:91-107 | nine hourly slots per day |
| DefaultSlots.CreatedSlotsAreDefault | University-Time-table-scheduler-main/backend/scheduler_app/models.py:98-132 | every slot the generator creates fits the default grid's description |
| DefaultSlots.DefaultSlotIsCreated | University-Time-table-scheduler-main/backend/scheduler_app/models.py:98-132 | every slot of that description is an hourly, lunch or post-lunch slot of its day |
| DefaultSlots.HourlySound | University-Time-table-scheduler-main/backend/scheduler_app/models.py:100-113 | a day's hourly slots start on the hour, 09:00 to 18:00, never at 13:00 |
| DefaultSlots.HourlyComplete | University-Time-table-scheduler-main/backend/scheduler_app/models.py:100-113 | every such hour has its slot |
| DefaultSlots.ExtrasList | University-Time-table-scheduler-main/backend/scheduler_app/models.py:116-132 | a weekday's extras are lunch, then 13:45, 14:45 and 15:45 |
| DefaultSlots.ExtrasSound | University-Time-table-scheduler-main/backend/scheduler_app/models.py:116-132 | the extras are on their day and fit the grid |
| DefaultSlots.ExtrasStarts | University-Time-table-scheduler-main/backend/scheduler_app/models.py:117-132 | the extras start at 13:00 or at a quarter to the hour |
| DefaultSlots.ExtrasDistinct | University-Time-table-scheduler-main/backend/scheduler_app/models.py:117-132 | four extras on a weekday, none on Saturday, with distinct keys |
| DefaultSlots.ExtrasComplete | University-Time-table-scheduler-main/backend/scheduler_app/models.py:117-132 | a weekday's lunch and post-lunch slots are all among its extras |
| DefaultSlots.DaySlotsSound | University-Time-table-scheduler-main/backend/scheduler_app/models.py:98-132 | a day's slots are on that day and fit the grid |
| DefaultSlots.DaySlotsComplete | University-Time-table-scheduler-main/backend/scheduler_app/models.py:98-132 | every grid slot of a day is among that day's slots |
| DefaultSlots.GridOfMembers | University-Time-table-scheduler-main/backend/scheduler_app/models.py:98-132 | the slots of a list of days are exactly the grid slots on those days |
| DefaultSlots.EveryDayCovered | University-Time-table-scheduler-main/backend/scheduler_app/models.py:88 | the day list holds every day, Monday to Saturday |
| DefaultSlots.Grid | University-Time-table-scheduler-main/backend/scheduler_app/models.py:88-132 | the generated grid holds exactly the slots of the default description: 74 slots with pairwise distinct (day, start, end) keys |
| DefaultSlots.WeekGrid | University-Time-table-scheduler-main/backend/scheduler_app/models.py:98-132 | the grid built over the six days holds exactly the default slots, 74 of them with distinct keys |
| DefaultSlots.IsDefaultSlot | University-Time-table-scheduler-main/backend/scheduler_app/models.py:90-96 | every default slot lies between 09:00 and 19:00 and ends after it starts |
| DefaultSlots.Pid | University-Time-table-scheduler-main/backend/scheduler_app/models.py:112-130 | a generated `pid` has 11 characters, or 12 for a lunch slot |
| DefaultSlots.PidInjective | University-Time-table-scheduler-main/backend/scheduler_app/models.py:112-130 | equal `pid`s mean the same day and the same lunch flag, and, for non-lunch slots, the same start |
| DefaultSlots.GridFacts | University-Time-table-scheduler-main/backend/scheduler_app/models.py:105-132 | only 13:00-13:45 is lunch; nothing else starts at 13:00; Saturday has no lunch and no quarter-hour slot; every other slot lasts an hour |
| DefaultSlots.DistinctAppend | University-Time-table-scheduler-main/backend/scheduler_app/models.py:110-113 | joining two key-distinct lists with no key in common is key-distinct |
| DefaultSlots.HourlyDistinct | University-Time-table-scheduler-main/backend/scheduler_app/models.py:100-113 | a day's hourly slots have distinct (day, start, end) keys |
| DefaultSlots.DaySlotsDistinct | University-Time-table-scheduler-main/backend/scheduler_app/models.py:98-132 | 13 slots on a weekday and 9 on Saturday, with distinct keys |
| DefaultSlots.DaySlotsDay | University-Time-table-scheduler-main/backend/scheduler_app/models.py:98-132 | a day's slots are all on that day |
| DefaultSlots.GridOfDays | University-Time-table-scheduler-main/backend/scheduler_app/models.py:98 | the slots of some days lie on those days |
| DefaultSlots.SaturdaysOfDistinct | University-Time-table-scheduler-main/backend/scheduler_app/models.py:88 | a list of distinct days holds Saturday at most once |
| DefaultSlots.GridOfDistinct | University-Time-table-scheduler-main/backend/scheduler_app/models.py:98-132 | distinct days give key-distinct slots, 13 per weekday and 9 for Saturday |
| DefaultSlots.AddOne | University-Time-table-scheduler-main/backend/scheduler_app/models.py:110-114 | a slot whose key exists leaves the table alone; otherwise it is appended |
| DefaultSlots.AddAllAppends | University-Time-table-scheduler-main/backend/scheduler_app/models.py:98-134 | inserting only appends, and only slots of the list |
| DefaultSlots.AddAllConcat | University-Time-table-scheduler-main/backend/scheduler_app/models.py:98-134 | inserting two lists is inserting one after the other |
| DefaultSlots.AddAllSnoc | University-Time-table-scheduler-main/backend/scheduler_app/models.py:98-134 | inserting one more slot is one more existence check |
| DefaultSlots.AddAllKeeps | University-Time-table-scheduler-main/backend/scheduler_app/models.py:110-113 | a key present before is present after |
| DefaultSlots.AddAllCovers | University-Time-table-scheduler-main/backend/scheduler_app/models.py:110-132 | afterwards every listed slot's key is present |
| DefaultSlots.AddAllPresent | University-Time-table-scheduler-main/backend/scheduler_app/models.py:110-132 | a table already holding every key is left unchanged |
| DefaultSlots.AddAllFresh | University-Time-table-scheduler-main/backend/scheduler_app/models.py:110-132 | key-distinct slots none of which is present are all appended |
| DefaultSlots.EmptyTableGetsGrid | University-Time-table-scheduler-main/backend/scheduler_app/models.py:75-134 | a table with none of the slots gets the whole grid appended, 74 rows |
| DefaultSlots.SecondRunAddsNothing | University-Time-table-scheduler-main/backend/scheduler_app/models.py:75-134 | running the generator twice is running it once |
| DefaultSlots.SlotTable.constructor | University-Time-table-scheduler-main/backend/scheduler_app/models.py:60-73 | a table holding the given rows |
| DefaultSlots.SlotTable.Ensure | University-Time-table-scheduler-main/backend/scheduler_app/models.py:110-114 | one existence check and insertion; the count is the rows added |
| DefaultSlots.SlotTable.EnsureHourly | University-Time-table-scheduler-main/backend/scheduler_app/models.py:100-114 | the hourly loop inserts the day's hourly slots and counts them |
| DefaultSlots.SlotTable.EnsureWeekdayExtras | University-Time-table-scheduler-main/backend/scheduler_app/models.py:116-132 | the weekday block inserts lunch and post-lunch slots and counts them |
| DefaultSlots.SlotTable.GenerateDefaultSlots | University-Time-table-scheduler-main/backend/scheduler_app/models.py:75-134 | the table becomes the old table with the grid inserted, and the result is the number of rows added |

## Left out

- Database access (query filters, `save()`, `Course.objects.get`, `instructors.all()`) is replaced by immutable in-memory records. A course record read back from the database is taken to be the one the class carries.
- Randomness: each draw is an arbitrary element of its candidate list. Probability distributions and the mutation rate's coin are not modelled; whether a class mutates at all is arbitrary.
- Python aliasing: crossover children share class dicts with their parents and are then mutated in place, so a change can leak into another child. Individuals here are values and no such leak happens. Likewise `copy.deepcopy` is the identity on values.
- Fitness.DistributionPenalty: the floating-point square root is a parameter `sqrt` that returns the non-negative root of its argument. Rounding in float arithmetic is not modelled; the rest of the score is exact real arithmetic.
- Evolution.Evolve: the trace entries are not rounded to two decimals (`round(…, 2)`).
- Evolution.Evolve: a population size of 0 with at least one generation is excluded, because `max([])` raises there.
- SlotFilter.SchedulableTimes: the query sorts the slots by day name and start time (`order_by('day', 'start_time')`); the model keeps the table's own order instead. Every later use of the list is an arbitrary draw from it or a membership test, so no property here depends on that order.
- RequiredClasses.RequiredClasses: a class is identified by the key (section pk, course pk, index) instead of the source's string id `f"{section.section_id}_{course.course_id}_{i}"`. That string can collide: `course_id` is unique only together with the department, and the `_` join is ambiguous (`A_1` + `X` against `A` + `1_X`). Distinctness is proved for the key, not for the string.
- Logging and the progress bar are left out.
- Times have no seconds; `datetime.time` values in the slot table are whole minutes.
- MoveConflicts: the display fields of a report (formatted time, section code, course name, room number, instructor name) are reduced to the saved class itself.
- MoveConflicts: a missing course `duration` is not modelled (the default of 1 in `getattr`); every saved class carries its duration.
- Abbreviation: `\w` and `upper()` are modelled on ASCII letters, digits and underscore only; Unicode word characters and case mapping are left out.
- DefaultSlots.SlotTable.GenerateDefaultSlots: the `overwrite` parameter is unused in the source and is left out; an insert that clashes with an existing `pid` on a different time (a database uniqueness error) is not modelled.
- Sorting.SortDesc: the sort is stable by construction (an element goes in front of later elements with the same key), but stability is not stated as a contract.
- The PDF and Excel exporters, the REST views, serializers, management commands and the frontend are not part of this model.
