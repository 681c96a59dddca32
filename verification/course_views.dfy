/** The course request handlers of courses/views.py: listing and detail visibility, lesson navigation,
    marking a lesson complete, and archiving. */
module CourseViews {
  import opened Wrappers
  import opened Seqs
  import opened Courses

  datatype CourseError = NotFound

  /** Where `mark_lesson_complete` sends the user next. */
  datatype Redirect = ToLesson(course: nat, lesson: nat) | ToCourse(course: nat)

  /** What the lesson page shows besides the lesson itself. */
  datatype LessonPage = LessonPage(
    course: Course,
    lesson: Lesson,
    previous: Option<Lesson>,
    next: Option<Lesson>,
    isCompleted: bool)

  /** A course students may see: published and not archived. */
  predicate Listed(c: Course) {
    c.isPublished && !c.isArchived
  }

  /** `course_list_view`. */
  function ListedCourses(cat: CourseCatalog): (r: seq<Course>)
    ensures forall c :: c in r <==> c in cat.courses && c.isPublished && !c.isArchived
  {
    Filter(cat.courses, (c: Course) => Listed(c))
  }

  /** `archived_courses_view`. */
  function ArchivedCourses(cat: CourseCatalog): (r: seq<Course>)
    ensures forall c :: c in r <==> c in cat.courses && c.isArchived
  {
    Filter(cat.courses, (c: Course) => c.isArchived)
  }

  /** Every stored progress record only lists lessons of its course, carries a stamp exactly when it is
      completed, and is completed only when its rounded percentage is 100. */
  predicate Consistent(cat: CourseCatalog, course: nat, p: Progress) {
    && p.completedLessons <= LessonIds(LessonsOf(cat.lessons, course))
    && (p.completed <==> p.completedAt.Some?)
    && (p.completed ==> PassedAsWritten(cat, course, p))
  }

  /** The consistency the corrected completion test keeps: completed only when every lesson is. */
  predicate ConsistentCorrected(cat: CourseCatalog, course: nat, p: Progress) {
    && p.completedLessons <= LessonIds(LessonsOf(cat.lessons, course))
    && (p.completed <==> p.completedAt.Some?)
    && (p.completed ==> Passed(cat, course, p))
  }

  predicate ProgressValid(cat: CourseCatalog, store: ProgressStore) {
    forall k :: k in store ==> Consistent(cat, k.1, store[k])
  }

  /** `UserCourseProgress.objects.get_or_create(user=..., course=...)`. */
  function GetOrCreate(store: ProgressStore, user: nat, course: nat): (r: (ProgressStore, Progress))
    ensures (user, course) in r.0 && r.0[(user, course)] == r.1
    ensures (user, course) in store ==> r.0 == store
    ensures (user, course) !in store ==> r.1 == NewProgress
    ensures r.0.Keys == store.Keys + {(user, course)}
    ensures forall k :: k in store ==> r.0[k] == store[k]
  {
    if (user, course) in store then (store, store[(user, course)])
    else (store[(user, course) := NewProgress], NewProgress)
  }

  /** `course_detail_view`: staff see any course, everyone else only listed ones; the visit creates the
      user's progress record if it is missing. */
  function CourseDetail(cat: CourseCatalog, store: ProgressStore, user: nat, isStaff: bool, courseId: nat)
    : (r: Result<(ProgressStore, Course, seq<Lesson>, Progress), CourseError>)
    ensures Valid(cat) ==>
      (r.Success? <==> exists c :: c in cat.courses && c.id == courseId && (isStaff || Listed(c)))
    ensures r.Success? ==>
      var (store', c, lessons, p) := r.value;
      && c in cat.courses && c.id == courseId
      && (forall l :: l in lessons <==> l in cat.lessons && l.course == courseId)
      && lessons == LessonsOf(cat.lessons, courseId)
      && (user, courseId) in store' && store'[(user, courseId)] == p
      && (forall k :: k in store ==> k in store' && store'[k] == store[k])
  {
    match FindCourse(cat.courses, courseId)
    case None =>
      Failure(NotFound)
    case Some(c) =>
      if isStaff || Listed(c) then
        var (store', p) := GetOrCreate(store, user, courseId);
        Success((store', c, LessonsOf(cat.lessons, courseId), p))
      else
        Failure(NotFound)
  }

  /** `list.index(lesson)`: the first position of the lesson with that key. */
  function IndexOf(ls: seq<Lesson>, id: nat): (r: Option<nat>)
    ensures r.Some? ==> r.value < |ls| && ls[r.value].id == id && forall j :: 0 <= j < r.value ==> ls[j].id != id
    ensures r.None? <==> forall l :: l in ls ==> l.id != id
  {
    if |ls| == 0 then None
    else if ls[0].id == id then Some(0)
    else
      assert forall l :: l in ls ==> l == ls[0] || l in ls[1..];
      match IndexOf(ls[1..], id)
      case None => None
      case Some(i) => Some(i + 1)
  }

  /** The previous and next lesson around position `i`. */
  function Neighbours(ls: seq<Lesson>, i: nat): (r: (Option<Lesson>, Option<Lesson>))
    requires i < |ls|
    ensures r.0.None? <==> i == 0
    ensures r.1.None? <==> i == |ls| - 1
    ensures r.0.Some? ==> r.0.value == ls[i - 1]
    ensures r.1.Some? ==> r.1.value == ls[i + 1]
  {
    (if i > 0 then Some(ls[i - 1]) else None,
     if i < |ls| - 1 then Some(ls[i + 1]) else None)
  }

  /** In a course listed by ascending `order`, the previous lesson is the one with the greatest order
      below the current one and the next the one with the least order above it; without a previous
      lesson the current one has the least order, without a next one the greatest. */
  lemma NeighboursAdjacent(ls: seq<Lesson>, i: nat)
    requires i < |ls| && AscendingOrder(ls)
    ensures var (prev, next) := Neighbours(ls, i);
      && (prev.Some? ==>
            (prev.value.order < ls[i].order &&
             forall l :: l in ls && l.order < ls[i].order ==> l.order <= prev.value.order))
      && (prev.None? ==> forall l :: l in ls ==> ls[i].order <= l.order)
      && (next.Some? ==>
            (ls[i].order < next.value.order &&
             forall l :: l in ls && ls[i].order < l.order ==> next.value.order <= l.order))
      && (next.None? ==> forall l :: l in ls ==> l.order <= ls[i].order)
  {
    forall l | l in ls
      ensures l.order < ls[i].order ==> exists k :: 0 <= k < i && ls[k] == l
      ensures ls[i].order < l.order ==> exists k :: i < k < |ls| && ls[k] == l
    {
      var k :| 0 <= k < |ls| && ls[k] == l;
    }
  }

  /** `lesson_view`: the course must be published (archived ones are not excluded) and the lesson must
      belong to it; the page shows the neighbours and whether the lesson is completed. */
  function LessonView(cat: CourseCatalog, store: ProgressStore, user: nat, courseId: nat, lessonId: nat)
    : (r: Result<(ProgressStore, LessonPage), CourseError>)
    ensures Valid(cat) ==>
      (r.Success? <==>
        && (exists c :: c in cat.courses && c.id == courseId && c.isPublished)
        && (exists l :: l in cat.lessons && l.id == lessonId && l.course == courseId))
    ensures r.Success? ==>
      var (store', page) := r.value;
      var ls := LessonsOf(cat.lessons, courseId);
      && page.course.id == courseId && page.course.isPublished
      && page.lesson.id == lessonId && page.lesson in ls
      && (page.previous.None? <==> ls[0] == page.lesson)
      && (Valid(cat) ==> (page.next.None? <==> ls[|ls| - 1] == page.lesson))
      && IndexOf(ls, lessonId).Some?
      && ls[IndexOf(ls, lessonId).value] == page.lesson
      && (page.previous, page.next) == Neighbours(ls, IndexOf(ls, lessonId).value)
      && (user, courseId) in store'
      && (page.isCompleted <==> lessonId in store'[(user, courseId)].completedLessons)
      && (forall k :: k in store ==> k in store' && store'[k] == store[k])
  {
    PublishedFound(cat, courseId);
    FindLessonOfCourse(cat, courseId, lessonId);
    match FindCourse(cat.courses, courseId)
    case None =>
      Failure(NotFound)
    case Some(c) =>
      if !c.isPublished then Failure(NotFound)
      else
        var ls := LessonsOf(cat.lessons, courseId);
        match IndexOf(ls, lessonId)
        case None =>
          Failure(NotFound)
        case Some(i) =>
          var (store', p) := GetOrCreate(store, user, courseId);
          var (prev, next) := Neighbours(ls, i);
          LessonPosition(cat, courseId, lessonId, i);
          Success((store', LessonPage(c, ls[i], prev, next, lessonId in p.completedLessons)))
  }

  /** The progress after recording one lesson, as the view does it: the lesson is added at most once;
      the course becomes completed, with stamp `now`, the first time the rounded percentage is 100. */
  function Complete(cat: CourseCatalog, course: nat, p: Progress, lessonId: nat, now: nat): (p': Progress)
    ensures p'.completedLessons == p.completedLessons + {lessonId}
    ensures p.completed ==> p'.completed && p'.completedAt == p.completedAt
    ensures !p.completed ==> (p'.completed <==> ProgressPercentage(cat, course, p') == 100)
    ensures !p.completed && p'.completed ==> p'.completedAt == Some(now)
    ensures !p'.completed ==> p'.completedAt == p.completedAt
  {
    var added := if lessonId in p.completedLessons then p
                 else p.(completedLessons := p.completedLessons + {lessonId});
    if PassedAsWritten(cat, course, added) && !added.completed then
      added.(completed := true, completedAt := Some(now))
    else
      added
  }

  /** The transition with the evidently intended completion test: the course becomes completed, with
      stamp `now`, the first time every lesson of it is done. */
  function CompleteCorrected(cat: CourseCatalog, course: nat, p: Progress, lessonId: nat, now: nat): (p': Progress)
    ensures p'.completedLessons == p.completedLessons + {lessonId}
    ensures p.completed ==> p'.completed && p'.completedAt == p.completedAt
    ensures !p.completed ==> (p'.completed <==>
      (exists l :: l in cat.lessons && l.course == course) &&
      forall l :: l in cat.lessons && l.course == course ==> l.id in p'.completedLessons)
    ensures !p.completed && p'.completed ==> p'.completedAt == Some(now)
    ensures !p'.completed ==> p'.completedAt == p.completedAt
  {
    var added := if lessonId in p.completedLessons then p
                 else p.(completedLessons := p.completedLessons + {lessonId});
    PassedMeansAllLessons(cat, course, added);
    if Passed(cat, course, added) && !added.completed then
      added.(completed := true, completedAt := Some(now))
    else
      added
  }

  /** `mark_lesson_complete`: any existing course (published or not), a lesson of that course; records
      the lesson, completes the course when the rounded percentage reaches 100, and redirects to the next lesson or,
      after the last one, to the course page. */
  function MarkLessonComplete(cat: CourseCatalog, store: ProgressStore, user: nat, courseId: nat, lessonId: nat, now: nat)
    : (r: Result<(ProgressStore, Redirect), CourseError>)
    ensures r.Success? ==>
      var store' := r.value.0;
      var before := if (user, courseId) in store then store[(user, courseId)] else NewProgress;
      && (user, courseId) in store'
      && store'[(user, courseId)].completedLessons == before.completedLessons + {lessonId}
      && (before.completed ==>
            store'[(user, courseId)].completed && store'[(user, courseId)].completedAt == before.completedAt)
      && (!before.completed ==>
            (store'[(user, courseId)].completed <==> ProgressPercentage(cat, courseId, store'[(user, courseId)]) == 100))
    ensures r.Success? ==>
      var store' := r.value.0;
      && (forall k :: k != (user, courseId) ==> (k in store' <==> k in store))
      && (forall k :: k in store && k != (user, courseId) ==> store'[k] == store[k])
  {
    match FindCourse(cat.courses, courseId)
    case None =>
      Failure(NotFound)
    case Some(_) =>
      var ls := LessonsOf(cat.lessons, courseId);
      match IndexOf(ls, lessonId)
      case None =>
        Failure(NotFound)
      case Some(i) =>
        var (store1, p) := GetOrCreate(store, user, courseId);
        var p' := Complete(cat, courseId, p, lessonId, now);
        var store' := store1[(user, courseId) := p'];
        var redirect := if i < |ls| - 1 then ToLesson(courseId, ls[i + 1].id) else ToCourse(courseId);
        Success((store', redirect))
  }

  /** After marking, the redirect goes to the lesson that follows the marked one in the course, or to the
      course page when the marked lesson is the last. */
  lemma MarkLessonCompleteRedirect(cat: CourseCatalog, store: ProgressStore, user: nat, courseId: nat,
                                   lessonId: nat, now: nat)
    requires MarkLessonComplete(cat, store, user, courseId, lessonId, now).Success?
    ensures var redirect := MarkLessonComplete(cat, store, user, courseId, lessonId, now).value.1;
      var ls := LessonsOf(cat.lessons, courseId);
      && |ls| > 0
      && redirect.course == courseId
      && (Valid(cat) ==> (redirect.ToCourse? <==> ls[|ls| - 1].id == lessonId))
      && (redirect.ToLesson? ==> exists i :: 0 <= i < |ls| - 1 && ls[i].id == lessonId && redirect.lesson == ls[i + 1].id)
  {
    var ls := LessonsOf(cat.lessons, courseId);
    var i := IndexOf(ls, lessonId).value;
    LessonPosition(cat, courseId, lessonId, i);
  }

  /** With unique course keys, the looked-up course is published exactly when some course with that key is. */
  lemma PublishedFound(cat: CourseCatalog, id: nat)
    ensures Valid(cat) ==>
      ((FindCourse(cat.courses, id).Some? && FindCourse(cat.courses, id).value.isPublished) <==>
       exists c :: c in cat.courses && c.id == id && c.isPublished)
  {
    if Valid(cat) && exists c :: c in cat.courses && c.id == id && c.isPublished {
      var c :| c in cat.courses && c.id == id && c.isPublished;
      var c' := FindCourse(cat.courses, id).value;
      var i :| 0 <= i < |cat.courses| && cat.courses[i] == c;
      var j :| 0 <= j < |cat.courses| && cat.courses[j] == c';
      assert i == j;
    }
  }

  /** `mark_lesson_complete` answers 404 exactly when the course does not exist or the lesson is not one
      of its lessons; unlike the lesson page it does not look at the published flag. */
  lemma MarkLessonCompleteSucceedsIff(cat: CourseCatalog, store: ProgressStore, user: nat, courseId: nat,
                                      lessonId: nat, now: nat)
    ensures MarkLessonComplete(cat, store, user, courseId, lessonId, now).Success? <==>
      && (exists c :: c in cat.courses && c.id == courseId)
      && (exists l :: l in cat.lessons && l.id == lessonId && l.course == courseId)
  {
    FindLessonOfCourse(cat, courseId, lessonId);
  }

  /** A lesson of the course is found in the course's lesson list exactly when the table has it. */
  lemma FindLessonOfCourse(cat: CourseCatalog, courseId: nat, lessonId: nat)
    ensures IndexOf(LessonsOf(cat.lessons, courseId), lessonId).Some? <==>
      exists l :: l in cat.lessons && l.id == lessonId && l.course == courseId
  {
    var ls := LessonsOf(cat.lessons, courseId);
    var r := IndexOf(ls, lessonId);
    if r.Some? {
      assert ls[r.value] in ls;
    }
  }

  /** Where a lesson sits in its course's list decides first and last: keys are unique. */
  lemma LessonPosition(cat: CourseCatalog, courseId: nat, lessonId: nat, i: nat)
    requires IndexOf(LessonsOf(cat.lessons, courseId), lessonId) == Some(i)
    ensures var ls := LessonsOf(cat.lessons, courseId);
      && ls[i] in ls
      && (Valid(cat) ==> (ls[0] == ls[i] <==> i == 0))
      && (Valid(cat) ==> (ls[|ls| - 1] == ls[i] <==> i == |ls| - 1))
      && (Valid(cat) ==> (ls[|ls| - 1].id == lessonId <==> i == |ls| - 1))
  {
    var ls := LessonsOf(cat.lessons, courseId);
    assert ls[i] in ls;
    if Valid(cat) {
      assert LessonIdsDistinct(ls);
    }
  }

  /** Recording a lesson of the course keeps a progress record consistent. */
  lemma CompleteConsistent(cat: CourseCatalog, course: nat, p: Progress, lessonId: nat, now: nat)
    requires Consistent(cat, course, p)
    requires lessonId in LessonIds(LessonsOf(cat.lessons, course))
    ensures Consistent(cat, course, Complete(cat, course, p, lessonId, now))
  {
    var p' := Complete(cat, course, p, lessonId, now);
    if p.completed {
      PassedAsWrittenGrows(cat, course, p, p');
    }
  }

  /** The corrected transition keeps the corrected consistency: completed only when every lesson is. */
  lemma CompleteCorrectedConsistent(cat: CourseCatalog, course: nat, p: Progress, lessonId: nat, now: nat)
    requires ConsistentCorrected(cat, course, p)
    requires lessonId in LessonIds(LessonsOf(cat.lessons, course))
    ensures ConsistentCorrected(cat, course, CompleteCorrected(cat, course, p, lessonId, now))
  {
    PassedMeansAllLessons(cat, course, p);
    PassedMeansAllLessons(cat, course, CompleteCorrected(cat, course, p, lessonId, now));
  }

  /** Below 200 lessons the transition as written and the corrected one are the same. */
  lemma CompleteAgreesBelow200(cat: CourseCatalog, course: nat, p: Progress, lessonId: nat, now: nat)
    requires Valid(cat)
    requires p.completedLessons <= LessonIds(LessonsOf(cat.lessons, course))
    requires lessonId in LessonIds(LessonsOf(cat.lessons, course))
    requires |LessonsOf(cat.lessons, course)| < 200
    ensures Complete(cat, course, p, lessonId, now) == CompleteCorrected(cat, course, p, lessonId, now)
  {
    var added := if lessonId in p.completedLessons then p
                 else p.(completedLessons := p.completedLessons + {lessonId});
    PassedAgreesBelow200(cat, course, added);
  }

  /** From 200 lessons on, recording the last-but-one missing lesson completes the course as written,
      stamped `now`, although a lesson is still not done; the corrected transition leaves it open. */
  lemma CompleteOneLessonEarly(cat: CourseCatalog, course: nat, p: Progress, lessonId: nat, missing: nat, now: nat)
    requires Valid(cat)
    requires |LessonsOf(cat.lessons, course)| >= 200
    requires lessonId in LessonIds(LessonsOf(cat.lessons, course))
    requires missing in LessonIds(LessonsOf(cat.lessons, course)) && missing != lessonId
    requires p.completedLessons == LessonIds(LessonsOf(cat.lessons, course)) - {missing, lessonId}
    requires !p.completed
    ensures var p' := Complete(cat, course, p, lessonId, now);
      p'.completed && p'.completedAt == Some(now) && missing !in p'.completedLessons
    ensures !CompleteCorrected(cat, course, p, lessonId, now).completed
  {
    var all := LessonIds(LessonsOf(cat.lessons, course));
    assert lessonId !in p.completedLessons;
    var added := p.(completedLessons := p.completedLessons + {lessonId});
    assert added.completedLessons == all - {missing};
    PassedAsWrittenOneShort(cat, course, added, missing);
  }

  /** The view as written: marking the 200th of 201 lessons stores the course as completed with one
      lesson still missing. */
  lemma MarkingCompletesOneLessonEarly(cat: CourseCatalog, store: ProgressStore, user: nat, courseId: nat,
                                       lessonId: nat, missing: nat, now: nat)
    requires Valid(cat)
    requires FindCourse(cat.courses, courseId).Some?
    requires |LessonsOf(cat.lessons, courseId)| >= 200
    requires lessonId in LessonIds(LessonsOf(cat.lessons, courseId))
    requires missing in LessonIds(LessonsOf(cat.lessons, courseId)) && missing != lessonId
    requires (user, courseId) in store
    requires store[(user, courseId)].completedLessons == LessonIds(LessonsOf(cat.lessons, courseId)) - {missing, lessonId}
    requires !store[(user, courseId)].completed
    ensures MarkLessonComplete(cat, store, user, courseId, lessonId, now).Success?
    ensures var p' := MarkLessonComplete(cat, store, user, courseId, lessonId, now).value.0[(user, courseId)];
      p'.completed && p'.completedAt == Some(now) && missing !in p'.completedLessons
  {
    var ls := LessonsOf(cat.lessons, courseId);
    var l :| l in ls && l.id == lessonId;
    MarkLessonCompleteSucceedsIff(cat, store, user, courseId, lessonId, now);
    MarkLessonCompleteRecord(cat, store, user, courseId, lessonId, now);
    CompleteOneLessonEarly(cat, courseId, store[(user, courseId)], lessonId, missing, now);
  }

  /** The caller's stored record after marking is the transition applied to the record before. */
  lemma MarkLessonCompleteRecord(cat: CourseCatalog, store: ProgressStore, user: nat, courseId: nat,
                                 lessonId: nat, now: nat)
    requires MarkLessonComplete(cat, store, user, courseId, lessonId, now).Success?
    ensures var before := if (user, courseId) in store then store[(user, courseId)] else NewProgress;
      MarkLessonComplete(cat, store, user, courseId, lessonId, now).value.0[(user, courseId)] ==
        Complete(cat, courseId, before, lessonId, now)
  {
  }

  /** `mark_lesson_complete` keeps every progress record consistent with the catalog. */
  lemma MarkLessonCompleteKeepsProgressValid(cat: CourseCatalog, store: ProgressStore, user: nat, courseId: nat,
                                             lessonId: nat, now: nat)
    requires ProgressValid(cat, store)
    requires MarkLessonComplete(cat, store, user, courseId, lessonId, now).Success?
    ensures ProgressValid(cat, MarkLessonComplete(cat, store, user, courseId, lessonId, now).value.0)
  {
    var ls := LessonsOf(cat.lessons, courseId);
    var i := IndexOf(ls, lessonId).value;
    assert ls[i] in ls;
    var p := GetOrCreate(store, user, courseId).1;
    assert Consistent(cat, courseId, p);
    CompleteConsistent(cat, courseId, p, lessonId, now);
  }

  /** Showing a lesson keeps every progress record consistent (it can only add a fresh record). */
  lemma LessonViewKeepsProgressValid(cat: CourseCatalog, store: ProgressStore, user: nat, courseId: nat, lessonId: nat)
    requires ProgressValid(cat, store)
    requires LessonView(cat, store, user, courseId, lessonId).Success?
    ensures ProgressValid(cat, LessonView(cat, store, user, courseId, lessonId).value.0)
  {
    assert Consistent(cat, courseId, NewProgress);
  }

  /** Recording a lesson a second time changes nothing. */
  lemma CompleteIdempotent(cat: CourseCatalog, course: nat, p: Progress, lessonId: nat, now: nat, now': nat)
    ensures var p' := Complete(cat, course, p, lessonId, now);
      Complete(cat, course, p', lessonId, now') == p'
  {
  }

  /** Marking the same lesson again, at any later time, leaves every progress record as it was. */
  lemma MarkLessonCompleteIdempotent(cat: CourseCatalog, store: ProgressStore, user: nat, courseId: nat,
                                     lessonId: nat, now: nat, now': nat)
    requires MarkLessonComplete(cat, store, user, courseId, lessonId, now).Success?
    ensures var store' := MarkLessonComplete(cat, store, user, courseId, lessonId, now).value.0;
      && MarkLessonComplete(cat, store', user, courseId, lessonId, now').Success?
      && MarkLessonComplete(cat, store', user, courseId, lessonId, now').value.0 == store'
  {
    var p := GetOrCreate(store, user, courseId).1;
    var p' := Complete(cat, courseId, p, lessonId, now);
    CompleteIdempotent(cat, courseId, p, lessonId, now, now');
    var store' := MarkLessonComplete(cat, store, user, courseId, lessonId, now).value.0;
    assert store'[(user, courseId)] == p';
    assert store'[(user, courseId) := p'] == store';
  }

  /** A completed course is never reset and its completion stamp never overwritten. */
  lemma CompletionIsPermanent(cat: CourseCatalog, store: ProgressStore, user: nat, courseId: nat,
                              lessonId: nat, now: nat)
    requires (user, courseId) in store && store[(user, courseId)].completed
    requires MarkLessonComplete(cat, store, user, courseId, lessonId, now).Success?
    ensures var store' := MarkLessonComplete(cat, store, user, courseId, lessonId, now).value.0;
      store'[(user, courseId)].completed && store'[(user, courseId)].completedAt == store[(user, courseId)].completedAt
  {
  }

  /** The course table with the archive flag of course `id` set to `archived`. */
  function SetArchived(courses: seq<Course>, id: nat, archived: bool): (r: seq<Course>)
    ensures |r| == |courses|
    ensures forall i :: 0 <= i < |courses| ==>
      r[i] == if courses[i].id == id then courses[i].(isArchived := archived) else courses[i]
  {
    seq(|courses|, i requires 0 <= i < |courses| =>
      if courses[i].id == id then courses[i].(isArchived := archived) else courses[i])
  }

  /** `archive_course`: any existing course is archived and drops out of the course list. */
  function ArchiveCourse(cat: CourseCatalog, id: nat): (r: Result<CourseCatalog, CourseError>)
    ensures r.Success? <==> FindCourse(cat.courses, id).Some?
    ensures r.Success? ==>
      && r.value.lessons == cat.lessons
      && |r.value.courses| == |cat.courses|
      && (forall i :: 0 <= i < |cat.courses| && cat.courses[i].id == id ==>
            r.value.courses[i] == cat.courses[i].(isArchived := true))
      && (forall i :: 0 <= i < |cat.courses| && cat.courses[i].id != id ==> r.value.courses[i] == cat.courses[i])
      && (forall c :: c in r.value.courses && c.id == id ==> c.isArchived)
      && (forall c :: c in ListedCourses(r.value) ==> c.id != id)
    ensures r.Success? && Valid(cat) ==> Valid(r.value)
  {
    match FindCourse(cat.courses, id)
    case None => Failure(NotFound)
    case Some(_) => Success(cat.(courses := SetArchived(cat.courses, id, true)))
  }

  /** `restore_course`: only an archived course is found (`is_archived=True` in the lookup); it is unarchived. */
  function RestoreCourse(cat: CourseCatalog, id: nat): (r: Result<CourseCatalog, CourseError>)
    ensures r.Success? <==> exists c :: c in cat.courses && c.id == id && c.isArchived
    ensures r.Success? ==>
      && r.value.lessons == cat.lessons
      && |r.value.courses| == |cat.courses|
      && (forall i :: 0 <= i < |cat.courses| && cat.courses[i].id == id ==>
            r.value.courses[i] == cat.courses[i].(isArchived := false))
      && (forall i :: 0 <= i < |cat.courses| && cat.courses[i].id != id ==> r.value.courses[i] == cat.courses[i])
      && (forall c :: c in r.value.courses && c.id == id ==> !c.isArchived)
    ensures r.Success? && Valid(cat) ==> Valid(r.value)
  {
    if exists c :: c in cat.courses && c.id == id && c.isArchived then
      Success(cat.(courses := SetArchived(cat.courses, id, false)))
    else
      Failure(NotFound)
  }

  /** Archiving a course that was not archived and restoring it gives back the catalog it started from. */
  lemma ArchiveRestoreRoundTrip(cat: CourseCatalog, id: nat)
    requires Valid(cat)
    requires exists c :: c in cat.courses && c.id == id && !c.isArchived
    ensures ArchiveCourse(cat, id).Success?
    ensures RestoreCourse(ArchiveCourse(cat, id).value, id) == Success(cat)
  {
    var c :| c in cat.courses && c.id == id && !c.isArchived;
    var archived := ArchiveCourse(cat, id).value;
    var i :| 0 <= i < |cat.courses| && cat.courses[i] == c;
    assert archived.courses[i] in archived.courses;
    var restored := RestoreCourse(archived, id).value;
    assert restored.courses == cat.courses by {
      forall k | 0 <= k < |cat.courses| ensures restored.courses[k] == cat.courses[k] {
        if cat.courses[k].id == id {
          assert k == i;
        }
      }
    }
  }

  /** Once archived, a course's detail page is refused to everyone but staff. */
  lemma ArchivedCourseHiddenFromStudents(cat: CourseCatalog, store: ProgressStore, user: nat, id: nat)
    requires Valid(cat) && FindCourse(cat.courses, id).Some?
    ensures ArchiveCourse(cat, id).Success?
    ensures CourseDetail(ArchiveCourse(cat, id).value, store, user, false, id).Failure?
    ensures CourseDetail(ArchiveCourse(cat, id).value, store, user, true, id).Success?
  {
    var archived := ArchiveCourse(cat, id).value;
    var c := FindCourse(cat.courses, id).value;
    var i :| 0 <= i < |cat.courses| && cat.courses[i] == c;
    assert archived.courses[i] in archived.courses;
  }
}
