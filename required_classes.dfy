/**
 * The catalogue of required classes (GeneticAlgorithm._generate_required_classes):
 * for every section, every course of the section whose semester is selected,
 * and every weekly occurrence of that course, one class with nothing assigned.
 */
module RequiredClasses {
  import opened Wrappers
  import opened Models

  /** `classes_per_week or 1`: a zero count means one class; a negative
    * count stays negative and yields no class at all. */
  function NumSlots(c: Course): int {
    if c.classesPerWeek == 0 then 1 else c.classesPerWeek
  }

  /** The `i`-th weekly class of `course` for `section`, unassigned. */
  function NewClass(section: Section, course: Course, i: nat): ClassSession {
    ClassSession(ClassKey(section.id, course.id, i), course, section, course.duration, None, None, None)
  }

  /** The section's courses whose semester is selected, in order. */
  function MatchingCourses(courses: seq<Course>, semesters: set<int>): (r: seq<Course>)
    ensures forall c :: c in r <==> c in courses && c.semester in semesters
  {
    if courses == [] then []
    else if courses[0].semester in semesters then [courses[0]] + MatchingCourses(courses[1..], semesters)
    else MatchingCourses(courses[1..], semesters)
  }

  /** A class as the catalogue creates it: nothing assigned, the duration of
    * its course, and keyed by its section, course and weekly index. */
  predicate IsNewClass(c: ClassSession) {
    && c.instructor.None? && c.room.None? && c.meetingTime.None?
    && c.duration == c.course.duration
    && c.id == ClassKey(c.section.id, c.course.id, c.id.index)
  }

  /** The first `n` weekly classes of one course: the `i`-th is the new
    * class with weekly index `i`. */
  function CourseClasses(section: Section, course: Course, n: nat): (r: seq<ClassSession>)
    ensures |r| == n && forall i :: 0 <= i < n ==> r[i] == NewClass(section, course, i)
  {
    if n == 0 then [] else CourseClasses(section, course, n - 1) + [NewClass(section, course, n - 1)]
  }

  function Occurrences(c: Course): nat {
    if NumSlots(c) < 0 then 0 else NumSlots(c)
  }

  /** The number of weekly classes the courses ask for, all together. */
  function SlotCount(courses: seq<Course>): nat {
    if courses == [] then 0 else Occurrences(courses[0]) + SlotCount(courses[1..])
  }

  /** The number of weekly classes all sections ask for in the selected
    * semesters. */
  function CatalogueSize(sections: seq<Section>, semesters: set<int>): nat {
    if sections == [] then 0
    else SlotCount(MatchingCourses(sections[0].courses, semesters)) + CatalogueSize(sections[1..], semesters)
  }

  /** No two classes share an id (section, course and weekly index). */
  predicate KeysDistinct(classes: seq<ClassSession>) {
    forall a, b :: 0 <= a < b < |classes| ==> classes[a].id != classes[b].id
  }

  /** No two courses share an id. */
  predicate CourseIdsDistinct(courses: seq<Course>) {
    forall a, b :: 0 <= a < b < |courses| ==> courses[a].id != courses[b].id
  }

  /** No two sections share an id, and none lists a course twice. */
  predicate SectionsDistinct(sections: seq<Section>) {
    && (forall a, b :: 0 <= a < b < |sections| ==> sections[a].id != sections[b].id)
    && (forall s :: s in sections ==> CourseIdsDistinct(s.courses))
  }

  /** The classes of a section for the given courses, course by course. */
  function CoursesClasses(section: Section, courses: seq<Course>): (r: seq<ClassSession>)
    ensures forall c :: c in r ==> IsNewClass(c)
  {
    if courses == [] then []
    else
      var last := courses[|courses| - 1];
      CoursesClasses(section, courses[..|courses| - 1]) + CourseClasses(section, last, Occurrences(last))
  }

  /** The whole catalogue, section by section; every entry starts with
    * nothing assigned and with the duration of its course. */
  function RequiredClasses(sections: seq<Section>, semesters: set<int>): (r: seq<ClassSession>)
    ensures forall c :: c in r ==> IsNewClass(c)
  {
    if sections == [] then []
    else
      var last := sections[|sections| - 1];
      RequiredClasses(sections[..|sections| - 1], semesters)
        + CoursesClasses(last, MatchingCourses(last.courses, semesters))
  }

  method GenerateRequiredClasses(sections: seq<Section>, semesters: set<int>) returns (classes: seq<ClassSession>)
    ensures classes == RequiredClasses(sections, semesters)
  {
    classes := [];
    for si := 0 to |sections|
      invariant classes == RequiredClasses(sections[..si], semesters)
    {
      classes := AppendSectionClasses(classes, sections[si], semesters);
      RequiredClassesStep(sections, semesters, si);
    }
    assert sections[..|sections|] == sections;
  }

  /** The loop over the matching courses of one section. */
  method AppendSectionClasses(classes: seq<ClassSession>, section: Section, semesters: set<int>) returns (r: seq<ClassSession>)
    ensures r == classes + CoursesClasses(section, MatchingCourses(section.courses, semesters))
  {
    var candidates := MatchingCourses(section.courses, semesters);
    r := classes;
    for ci := 0 to |candidates|
      invariant r == classes + CoursesClasses(section, candidates[..ci])
    {
      ghost var done := CoursesClasses(section, candidates[..ci]);
      r := AppendCourseClasses(r, section, candidates[ci]);
      CoursesClassesStep(section, candidates, ci);
      assert r == classes + (done + CourseClasses(section, candidates[ci], Occurrences(candidates[ci])));
    }
    assert candidates[..|candidates|] == candidates;
  }

  /** The innermost loop: one class per weekly occurrence of `course`. */
  method AppendCourseClasses(classes: seq<ClassSession>, section: Section, course: Course) returns (r: seq<ClassSession>)
    ensures r == classes + CourseClasses(section, course, Occurrences(course))
  {
    var numSlots := NumSlots(course);
    r := classes;
    var i := 0;
    while i < numSlots
      invariant 0 <= i && (numSlots >= 0 ==> i <= numSlots) && (numSlots < 0 ==> i == 0)
      invariant r == classes + CourseClasses(section, course, i)
    {
      r := r + [NewClass(section, course, i)];
      i := i + 1;
    }
  }

  lemma CoursesClassesStep(section: Section, courses: seq<Course>, ci: nat)
    requires ci < |courses|
    ensures CoursesClasses(section, courses[..ci + 1])
            == CoursesClasses(section, courses[..ci]) + CourseClasses(section, courses[ci], Occurrences(courses[ci]))
  {
    assert courses[..ci + 1][..ci] == courses[..ci];
  }

  lemma RequiredClassesStep(sections: seq<Section>, semesters: set<int>, si: nat)
    requires si < |sections|
    ensures RequiredClasses(sections[..si + 1], semesters)
            == RequiredClasses(sections[..si], semesters)
               + CoursesClasses(sections[si], MatchingCourses(sections[si].courses, semesters))
  {
    assert sections[..si + 1][..si] == sections[..si];
  }

  lemma {:induction false} CourseClassesMembers(section: Section, course: Course, n: nat)
    ensures |CourseClasses(section, course, n)| == n
    ensures forall c :: c in CourseClasses(section, course, n) <==>
              exists i :: 0 <= i < n && c == NewClass(section, course, i)
  {
    if n > 0 {
      CourseClassesMembers(section, course, n - 1);
    }
  }

  lemma {:induction false} CoursesClassesMembers(section: Section, courses: seq<Course>)
    ensures |CoursesClasses(section, courses)| == SlotCount(courses)
    ensures forall c :: c in CoursesClasses(section, courses) <==>
              exists course, i :: course in courses && 0 <= i < NumSlots(course) && c == NewClass(section, course, i)
  {
    if courses != [] {
      var init := courses[..|courses| - 1];
      var last := courses[|courses| - 1];
      CoursesClassesMembers(section, init);
      CourseClassesMembers(section, last, Occurrences(last));
      assert courses == init + [last];
      SlotCountSnoc(init, last);
      forall c | c in CoursesClasses(section, courses)
        ensures exists course, i :: course in courses && 0 <= i < NumSlots(course) && c == NewClass(section, course, i)
      {
        if c in CoursesClasses(section, init) {
          var course, i :| course in init && 0 <= i < NumSlots(course) && c == NewClass(section, course, i);
          assert course in courses;
        } else {
          var i :| 0 <= i < Occurrences(last) && c == NewClass(section, last, i);
        }
      }
      forall c | exists course, i :: course in courses && 0 <= i < NumSlots(course) && c == NewClass(section, course, i)
        ensures c in CoursesClasses(section, courses)
      {
        var course, i :| course in courses && 0 <= i < NumSlots(course) && c == NewClass(section, course, i);
        if course in init {
        } else {
          assert course == last;
        }
      }
    }
  }

  /** The catalogue holds exactly one unassigned class per selected section,
    * course of that section with a selected semester, and weekly index below
    * `classes_per_week` (1 when that is 0). */
  lemma {:induction false} RequiredClassesMembers(sections: seq<Section>, semesters: set<int>)
    ensures |RequiredClasses(sections, semesters)| == CatalogueSize(sections, semesters)
    ensures forall c :: c in RequiredClasses(sections, semesters) <==> InCatalogue(sections, semesters, c)
  {
    if sections != [] {
      var init := sections[..|sections| - 1];
      var last := sections[|sections| - 1];
      RequiredClassesMembers(init, semesters);
      assert sections == init + [last];
      CatalogueSizeSnoc(init, last, semesters);
      CoursesClassesMembers(last, MatchingCourses(last.courses, semesters));
      RequiredClassesMembersStep(init, last, semesters);
    }
  }

  /** `c` is the new class of some section, some of its courses in a
    * selected semester, and some weekly index of that course. */
  ghost predicate InCatalogue(sections: seq<Section>, semesters: set<int>, c: ClassSession) {
    exists s, course, i :: s in sections && course in s.courses && course.semester in semesters
                           && 0 <= i < NumSlots(course) && c == NewClass(s, course, i)
  }

  /** Adding one section to the catalogue adds exactly its classes. */
  lemma RequiredClassesMembersStep(init: seq<Section>, last: Section, semesters: set<int>)
    requires forall c :: c in RequiredClasses(init, semesters) <==> InCatalogue(init, semesters, c)
    requires forall c :: c in CoursesClasses(last, MatchingCourses(last.courses, semesters)) <==>
               exists course, i :: course in MatchingCourses(last.courses, semesters) && 0 <= i < NumSlots(course)
                                   && c == NewClass(last, course, i)
    ensures forall c :: c in RequiredClasses(init + [last], semesters) <==> InCatalogue(init + [last], semesters, c)
  {
    var sections := init + [last];
    var matching := MatchingCourses(last.courses, semesters);
    assert sections[..|sections| - 1] == init;
    forall c | c in RequiredClasses(sections, semesters) ensures InCatalogue(sections, semesters, c) {
      if c in RequiredClasses(init, semesters) {
        var s, course, i :| s in init && course in s.courses && course.semester in semesters
                            && 0 <= i < NumSlots(course) && c == NewClass(s, course, i);
        assert s in sections;
      } else {
        var course, i :| course in matching && 0 <= i < NumSlots(course) && c == NewClass(last, course, i);
        assert last in sections;
      }
    }
    forall c | InCatalogue(sections, semesters, c) ensures c in RequiredClasses(sections, semesters) {
      var s, course, i :| s in sections && course in s.courses && course.semester in semesters
                          && 0 <= i < NumSlots(course) && c == NewClass(s, course, i);
      if s in init {
        assert InCatalogue(init, semesters, c);
      } else {
        assert s == last;
        assert course in matching;
      }
    }
  }

  lemma {:induction false} SlotCountSnoc(courses: seq<Course>, c: Course)
    ensures SlotCount(courses + [c]) == SlotCount(courses) + Occurrences(c)
  {
    if courses != [] {
      assert (courses + [c])[1..] == courses[1..] + [c];
      SlotCountSnoc(courses[1..], c);
    }
  }

  lemma {:induction false} CatalogueSizeSnoc(sections: seq<Section>, s: Section, semesters: set<int>)
    ensures CatalogueSize(sections + [s], semesters)
            == CatalogueSize(sections, semesters) + SlotCount(MatchingCourses(s.courses, semesters))
  {
    if sections != [] {
      assert (sections + [s])[1..] == sections[1..] + [s];
      CatalogueSizeSnoc(sections[1..], s, semesters);
    }
  }

  /** Joining two id-distinct lists with no id in common stays id-distinct. */
  lemma KeysDistinctConcat(x: seq<ClassSession>, y: seq<ClassSession>)
    requires KeysDistinct(x) && KeysDistinct(y)
    requires forall c, d :: c in x && d in y ==> c.id != d.id
    ensures KeysDistinct(x + y)
  {
    var xy := x + y;
    forall a, b | 0 <= a < b < |xy| ensures xy[a].id != xy[b].id {
      if b >= |x| && a < |x| {
        assert xy[a] in x && xy[b] in y;
      } else if a >= |x| {
        assert xy[a] == y[a - |x|] && xy[b] == y[b - |x|];
      }
    }
  }

  /** The weekly classes of one course have distinct ids. */
  lemma {:induction false} CourseClassesDistinct(section: Section, course: Course, n: nat)
    ensures KeysDistinct(CourseClasses(section, course, n))
  {
    if n > 0 {
      CourseClassesDistinct(section, course, n - 1);
      CourseClassesMembers(section, course, n - 1);
      KeysDistinctConcat(CourseClasses(section, course, n - 1), [NewClass(section, course, n - 1)]);
    }
  }

  /** Selecting by semester keeps course ids distinct. */
  lemma {:induction false} MatchingCoursesDistinct(courses: seq<Course>, semesters: set<int>)
    requires CourseIdsDistinct(courses)
    ensures CourseIdsDistinct(MatchingCourses(courses, semesters))
  {
    if courses != [] {
      var rest := courses[1..];
      MatchingCoursesDistinct(rest, semesters);
      var m := MatchingCourses(rest, semesters);
      if courses[0].semester in semesters {
        var r := [courses[0]] + m;
        forall a, b | 0 <= a < b < |r| ensures r[a].id != r[b].id {
          if a == 0 {
            assert r[b] == m[b - 1] && m[b - 1] in rest;
            var j :| 0 <= j < |rest| && rest[j] == m[b - 1];
            assert courses[j + 1] == rest[j];
          } else {
            assert r[a] == m[a - 1] && r[b] == m[b - 1];
          }
        }
      }
    }
  }

  /** A section whose courses have distinct ids gets classes with distinct
    * ids. */
  lemma {:induction false} CoursesClassesDistinct(section: Section, courses: seq<Course>)
    requires CourseIdsDistinct(courses)
    ensures KeysDistinct(CoursesClasses(section, courses))
  {
    if courses != [] {
      var init := courses[..|courses| - 1];
      var last := courses[|courses| - 1];
      CoursesClassesDistinct(section, init);
      CourseClassesDistinct(section, last, Occurrences(last));
      CoursesClassesMembers(section, init);
      CourseClassesMembers(section, last, Occurrences(last));
      forall c, d | c in CoursesClasses(section, init) && d in CourseClasses(section, last, Occurrences(last))
        ensures c.id != d.id
      {
        var course, i :| course in init && 0 <= i < NumSlots(course) && c == NewClass(section, course, i);
        var j :| 0 <= j < |init| && init[j] == course;
        assert courses[j] == course;
      }
      KeysDistinctConcat(CoursesClasses(section, init), CourseClasses(section, last, Occurrences(last)));
    }
  }

  /** When sections have distinct ids and no section lists a course twice,
    * the catalogue holds each (section, course, weekly index) once. */
  lemma {:induction false} RequiredClassesDistinct(sections: seq<Section>, semesters: set<int>)
    requires SectionsDistinct(sections)
    ensures KeysDistinct(RequiredClasses(sections, semesters))
  {
    if sections != [] {
      var init := sections[..|sections| - 1];
      var last := sections[|sections| - 1];
      var matching := MatchingCourses(last.courses, semesters);
      assert SectionsDistinct(init) by {
        forall s | s in init ensures s in sections { }
      }
      RequiredClassesDistinct(init, semesters);
      MatchingCoursesDistinct(last.courses, semesters);
      CoursesClassesDistinct(last, matching);
      RequiredClassesMembers(init, semesters);
      CoursesClassesMembers(last, matching);
      forall c, d | c in RequiredClasses(init, semesters) && d in CoursesClasses(last, matching)
        ensures c.id != d.id
      {
        var s, course, i :| s in init && course in s.courses && course.semester in semesters
                            && 0 <= i < NumSlots(course) && c == NewClass(s, course, i);
        var j :| 0 <= j < |init| && init[j] == s;
        assert sections[j] == s;
      }
      KeysDistinctConcat(RequiredClasses(init, semesters), CoursesClasses(last, matching));
    }
  }
}
