/** Courses, lessons and per-user progress (courses/models.py). */
module Courses {
  import opened Wrappers
  import opened PyMath
  import opened Seqs

  datatype Difficulty = Beginner | Intermediate | Advanced

  datatype Course = Course(
    id: nat,
    title: string,
    description: string,
    difficulty: Difficulty,
    isPublished: bool,
    isArchived: bool)

  datatype Lesson = Lesson(
    id: nat,
    course: nat,
    title: string,
    content: string,
    videoUrl: Option<string>,
    order: nat,
    durationMinutes: nat)

  /** The course and lesson tables; lessons are kept in listing order (course, then order). */
  datatype CourseCatalog = CourseCatalog(courses: seq<Course>, lessons: seq<Lesson>)

  /** One user's progress in one course: the ids of completed lessons, the completion flag and its stamp. */
  datatype Progress = Progress(completedLessons: set<nat>, completed: bool, completedAt: Option<nat>)

  /** Progress records keyed by (user, course): the `unique_together` constraint makes this a map. */
  type ProgressStore = map<(nat, nat), Progress>

  const NewProgress := Progress({}, false, None)

  predicate ListedBefore(a: Lesson, b: Lesson) {
    a.course < b.course || (a.course == b.course && a.order < b.order)
  }

  predicate LessonsListed(ls: seq<Lesson>) {
    forall i, j :: 0 <= i < j < |ls| ==> ListedBefore(ls[i], ls[j])
  }

  predicate LessonIdsDistinct(ls: seq<Lesson>) {
    forall i, j :: 0 <= i < j < |ls| ==> ls[i].id != ls[j].id
  }

  predicate CourseIdsDistinct(cs: seq<Course>) {
    forall i, j :: 0 <= i < j < |cs| ==> cs[i].id != cs[j].id
  }

  /** Primary keys and the `(course, order)` uniqueness. */
  predicate Valid(cat: CourseCatalog) {
    CourseIdsDistinct(cat.courses) && LessonsListed(cat.lessons) && LessonIdsDistinct(cat.lessons)
  }

  /** Strictly ascending `order` along a list of lessons. */
  predicate AscendingOrder(ls: seq<Lesson>) {
    forall i, j :: 0 <= i < j < |ls| ==> ls[i].order < ls[j].order
  }

  /** `get_object_or_404(Course, id=...)`. */
  function FindCourse(courses: seq<Course>, id: nat): (r: Option<Course>)
    ensures r.Some? ==> r.value in courses && r.value.id == id
    ensures r.None? <==> forall c :: c in courses ==> c.id != id
  {
    if |courses| == 0 then None
    else if courses[0].id == id then Some(courses[0])
    else FindCourse(courses[1..], id)
  }

  /** `course.lessons.all()`: the lessons of one course, in strictly ascending `order`. */
  function LessonsOf(ls: seq<Lesson>, course: nat): (r: seq<Lesson>)
    ensures forall l :: l in r <==> l in ls && l.course == course
    ensures LessonsListed(ls) ==> AscendingOrder(r)
    ensures LessonIdsDistinct(ls) ==> LessonIdsDistinct(r)
  {
    LessonsOfFacts(ls, course);
    Filter(ls, (l: Lesson) => l.course == course)
  }

  lemma LessonsOfFacts(ls: seq<Lesson>, course: nat)
    ensures var r := Filter(ls, (l: Lesson) => l.course == course);
      && (LessonsListed(ls) ==> AscendingOrder(r))
      && (LessonIdsDistinct(ls) ==> LessonIdsDistinct(r))
  {
    var keep := (l: Lesson) => l.course == course;
    var r := Filter(ls, keep);
    if LessonsListed(ls) {
      FilterPairwise(ls, keep, (a: Lesson, b: Lesson) => ListedBefore(a, b));
      forall i, j | 0 <= i < j < |r| ensures r[i].order < r[j].order {
        assert r[i] in r && r[j] in r;
        assert ListedBefore(r[i], r[j]);
      }
    }
    if LessonIdsDistinct(ls) {
      FilterPairwise(ls, keep, (a: Lesson, b: Lesson) => a.id != b.id);
    }
  }

  /** The keys of a list of lessons. */
  function LessonIds(ls: seq<Lesson>): (ids: set<nat>)
    ensures forall id :: id in ids <==> exists l :: l in ls && l.id == id
  {
    if |ls| == 0 then {}
    else
      assert forall l :: l in ls <==> l == ls[0] || l in ls[1..];
      {ls[0].id} + LessonIds(ls[1..])
  }

  /** A list of lessons has at most as many keys as entries, and exactly as many when keys are distinct. */
  lemma LessonIdsCard(ls: seq<Lesson>)
    ensures |LessonIds(ls)| <= |ls|
    ensures LessonIdsDistinct(ls) ==> |LessonIds(ls)| == |ls|
  {
    LessonIdsAtMost(ls);
    if LessonIdsDistinct(ls) {
      LessonIdsExact(ls);
    }
  }

  lemma {:induction false} LessonIdsAtMost(ls: seq<Lesson>)
    ensures |LessonIds(ls)| <= |ls|
  {
    if |ls| > 0 {
      LessonIdsAtMost(ls[1..]);
      var rest := LessonIds(ls[1..]);
      assert LessonIds(ls) == {ls[0].id} + rest;
      assert |{ls[0].id} + rest| <= |{ls[0].id}| + |rest|;
    }
  }

  lemma {:induction false} LessonIdsExact(ls: seq<Lesson>)
    requires LessonIdsDistinct(ls)
    ensures |LessonIds(ls)| == |ls|
  {
    if |ls| > 0 {
      var tail := ls[1..];
      TailDistinct(ls);
      LessonIdsExact(tail);
      HeadNotInTail(ls);
      assert LessonIds(ls) == {ls[0].id} + LessonIds(tail);
    }
  }

  lemma TailDistinct(ls: seq<Lesson>)
    requires |ls| > 0 && LessonIdsDistinct(ls)
    ensures LessonIdsDistinct(ls[1..])
  {
    var tail := ls[1..];
    forall i, j | 0 <= i < j < |tail| ensures tail[i].id != tail[j].id {
      assert tail[i] == ls[i + 1] && tail[j] == ls[j + 1];
    }
  }

  lemma HeadNotInTail(ls: seq<Lesson>)
    requires |ls| > 0 && LessonIdsDistinct(ls)
    ensures ls[0].id !in LessonIds(ls[1..])
  {
    var tail := ls[1..];
    forall l | l in tail ensures l.id != ls[0].id {
      var k :| 0 <= k < |tail| && tail[k] == l;
      assert ls[k + 1] == l;
    }
  }

  /** `UserCourseProgress.progress_percentage`: completed lessons as a rounded percentage of the course's
      lessons, 0 for a course without lessons. */
  function ProgressPercentage(cat: CourseCatalog, course: nat, p: Progress): (r: int)
    ensures |LessonsOf(cat.lessons, course)| == 0 ==> r == 0
    ensures var n := |LessonsOf(cat.lessons, course)|;
      n > 0 ==> 2 * Abs(100 * |p.completedLessons| - r * n) <= n
    ensures var n := |LessonsOf(cat.lessons, course)|;
      n > 0 && 2 * Abs(100 * |p.completedLessons| - r * n) == n ==> r % 2 == 0
    ensures p.completedLessons <= LessonIds(LessonsOf(cat.lessons, course)) ==> 0 <= r <= 100
    ensures (Valid(cat) && |LessonsOf(cat.lessons, course)| > 0 &&
             p.completedLessons == LessonIds(LessonsOf(cat.lessons, course))) ==> r == 100
  {
    var ls := LessonsOf(cat.lessons, course);
    LessonIdsCard(ls);
    CompletedCard(p.completedLessons, LessonIds(ls));
    if |ls| > 0 then PercentEnds(|ls|); Percent(|p.completedLessons|, |ls|)
    else Percent(|p.completedLessons|, |ls|)
  }

  lemma CompletedCard(done: set<nat>, all: set<nat>)
    ensures done <= all ==> |done| <= |all|
  {
    if done <= all {
      assert all == done + (all - done);
    }
  }

  /** `UserCourseProgress.passed` as written: the rounded percentage equals 100. */
  predicate PassedAsWritten(cat: CourseCatalog, course: nat, p: Progress): (b: bool)
    ensures b ==> |LessonsOf(cat.lessons, course)| > 0
    ensures b ==> 200 * (|LessonsOf(cat.lessons, course)| - |p.completedLessons|) <= |LessonsOf(cat.lessons, course)|
    ensures (Valid(cat) && |LessonsOf(cat.lessons, course)| > 0 &&
             p.completedLessons == LessonIds(LessonsOf(cat.lessons, course))) ==> b
  {
    ProgressPercentage(cat, course, p) == 100
  }

  /** Recording more lessons of the course never undoes a pass as written: the percentage cannot fall,
      and it cannot pass 100. */
  lemma PassedAsWrittenGrows(cat: CourseCatalog, course: nat, p: Progress, p': Progress)
    requires p.completedLessons <= p'.completedLessons <= LessonIds(LessonsOf(cat.lessons, course))
    requires PassedAsWritten(cat, course, p)
    ensures PassedAsWritten(cat, course, p')
  {
    var ls := LessonsOf(cat.lessons, course);
    CompletedCard(p.completedLessons, p'.completedLessons);
    CompletedCard(p'.completedLessons, LessonIds(ls));
    LessonIdsCard(ls);
    PercentMonotone(|p.completedLessons|, |p'.completedLessons|, |ls|);
    assert ProgressPercentage(cat, course, p') <= 100;
  }

  /** The course is passed when it has lessons and every one of them is completed. */
  predicate Passed(cat: CourseCatalog, course: nat, p: Progress) {
    var ls := LessonsOf(cat.lessons, course);
    |ls| > 0 && LessonIds(ls) <= p.completedLessons
  }

  /** The all-lessons test means what it says, and it implies the rounded test at every course size. */
  lemma PassedMeansAllLessons(cat: CourseCatalog, course: nat, p: Progress)
    ensures Passed(cat, course, p) <==>
      (exists l :: l in cat.lessons && l.course == course) &&
      forall l :: l in cat.lessons && l.course == course ==> l.id in p.completedLessons
    ensures Valid(cat) && p.completedLessons <= LessonIds(LessonsOf(cat.lessons, course)) && Passed(cat, course, p) ==>
      PassedAsWritten(cat, course, p)
  {
    var ls := LessonsOf(cat.lessons, course);
    if |ls| > 0 {
      assert ls[0] in ls;
    }
    if (exists l :: l in cat.lessons && l.course == course) {
      var l :| l in cat.lessons && l.course == course;
      assert l in ls;
    }
  }

  /** Below 200 lessons the rounded test and the all-lessons test agree, for progress that only
      records lessons of the course. */
  lemma {:induction false} PassedAgreesBelow200(cat: CourseCatalog, course: nat, p: Progress)
    requires Valid(cat)
    requires p.completedLessons <= LessonIds(LessonsOf(cat.lessons, course))
    requires |LessonsOf(cat.lessons, course)| < 200
    ensures PassedAsWritten(cat, course, p) <==> Passed(cat, course, p)
  {
    var ls := LessonsOf(cat.lessons, course);
    var all := LessonIds(ls);
    LessonIdsCard(ls);
    if |ls| > 0 {
      CompletedCard(p.completedLessons, all);
      PercentEndsExact(|p.completedLessons|, |ls|);
      if |p.completedLessons| == |ls| {
        SubsetSameSize(p.completedLessons, all);
      }
    }
  }

  lemma SubsetSameSize(done: set<nat>, all: set<nat>)
    requires done <= all && |done| == |all|
    ensures done == all
  {
    if done != all {
      var x :| x in all && x !in done;
      assert done <= all - {x};
      CompletedCard(done, all - {x});
    }
  }

  /** From 200 lessons on, a user one lesson short of the whole course already passes as written. */
  lemma {:induction false} PassedAsWrittenOneShort(cat: CourseCatalog, course: nat, p: Progress, missing: nat)
    requires Valid(cat)
    requires |LessonsOf(cat.lessons, course)| >= 200
    requires missing in LessonIds(LessonsOf(cat.lessons, course))
    requires p.completedLessons == LessonIds(LessonsOf(cat.lessons, course)) - {missing}
    ensures PassedAsWritten(cat, course, p)
    ensures !Passed(cat, course, p)
  {
    var ls := LessonsOf(cat.lessons, course);
    var all := LessonIds(ls);
    assert LessonIdsDistinct(ls);
    LessonIdsExact(ls);
    assert |all - {missing}| == |all| - 1;
    PercentEndsFrom200(|ls|);
    assert ProgressPercentage(cat, course, p) == Percent(|ls| - 1, |ls|);
    assert missing !in p.completedLessons;
  }
}
