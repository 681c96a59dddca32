# SexEduc e-learning core, modelled in Dafny

SexEduc is a Django e-learning site. Students take courses made of ordered lessons and sit quizzes made of ordered multiple-choice questions. Staff archive, restore and delete quizzes and courses. This project models the logic at the centre of the site as pure Dafny functions over immutable tables, and proves what that logic promises:

- **Taking a quiz** (`take_quiz_view`). One attempt per user and quiz is allowed. A question earns credit only when the submitted answer id names a correct answer of that same question. The score is Python's `round` of the percentage, with ties to even, and 0 for a quiz without questions. The stored answer map is keyed by `str(question.id)`.
- **Reviewing an attempt** (`quiz_results_view`). Only the requesting user's attempt on that quiz can be reviewed. The review has one line per current question, comparing the chosen answer with the question's first correct answer.
- **Values derived from an attempt**: `passed`, `correct_count` and `incorrect_count`.
- **Course progress**: `progress_percentage` and `passed`, plus the `mark_lesson_complete` transition and previous/next navigation in `lesson_view`.
- **Soft deletion**. Quizzes are archived via `is_active` and courses via `is_archived`. The model covers what the student lists and detail pages show, and what restore and permanent delete accept.
- **`youtube_embed`**, the filter that turns stored video links into privacy-enhanced embed links.

The modules are:

- `Wrappers`: `Option` and `Result`.
- `PyMath`: Python `round`, a percentage guarded against an empty whole, and `int()` of a quotient.
- `Decimal`: `str(int)` and its inverse.
- `Seqs`: an order-preserving filter, used for every `.filter(...)` query.
- `PyStrings`: `strip`, `in`, `replace`, `split` and `join`.
- `QuizCatalog`, `QuizAttempts`, `QuizScoring`, `QuizReview` and `QuizArchive`: the quiz app.
- `Courses` and `CourseViews`: the course app.
- `YouTube`: the link filter.

The database is represented in two ways:

- **Catalog tables** are sequences in their listing order. Validity predicates state the guarantees the database gives: unique keys and the `(quiz, order)` and `(course, order)` uniqueness constraints.
- **Stores**:
  - Quiz attempts are a sequence, since no database constraint makes `(user, quiz)` unique.
  - Course progress is a map keyed by `(user, course)`, which is the `unique_together` of `UserCourseProgress`.

Request data is modelled as follows:

- A submitted form is a map from question id to the raw text of the field `question_<id>`.
- A 404 is a `NotFound` failure.
- Timestamps are opaque numbers passed in by the caller.

## Model

| member | source | states |
|---|---|---|
| PyMath.RoundHalfEvenUnique | quizzes/views.py:68 | Python `round` is the unique nearest integer, ties going to the even neighbour |
| PyMath.RoundHalfEvenMonotone | courses/models.py:79 | rounding never decreases when the numerator grows |
| PyMath.Percent | quizzes/views.py:68 | the score is 0 when there are no questions, so there is never a division by zero; otherwise it is the integer nearest 100·correct/total, an exact half going to the even neighbour (so 1 of 8 gives 12), and it lies in [0, 100] when 0 ≤ correct ≤ total |
| PyMath.PercentMonotone | quizzes/views.py:68 | the score is monotone in the number of correct answers |
| PyMath.PercentEnds | courses/models.py:79 | all items give 100 and none give 0 |
| PyMath.PercentEndsExact | quizzes/views.py:68 | below 200 items, 100 is reached only by all and 0 only by none, in both directions |
| PyMath.PercentEndsFrom200 | courses/models.py:79 | from 200 items on, one short of all already rounds to 100 and a single item rounds to 0 |
| PyMath.TruncDiv | quizzes/models.py:85 | `int()` of a quotient truncates toward zero: for a non-negative numerator it is the largest multiple not above it, for a negative one the smallest not below it |
| Decimal.NatToString | quizzes/views.py:62 | `str(id)` is a non-empty digit string without a leading zero |
| Decimal.ParseNat | quizzes/views.py:63 | a submitted id is read as a number exactly when it is a non-empty run of digits |
| Decimal.ParseNatToString | quizzes/views.py:98 | reading back the key `str(id)` gives the same id (round trip) |
| Decimal.NatToStringInjective | quizzes/views.py:62 | distinct question ids give distinct answer-map keys |
| QuizCatalog.FindQuiz | quizzes/views.py:44 | a quiz lookup by key either returns a quiz with that key or reports that none exists |
| QuizCatalog.QuestionsOf | quizzes/models.py:40-42 | a quiz's questions are exactly the table's questions of that quiz, in strictly ascending `order` with distinct keys |
| QuizCatalog.QuestionCount | quizzes/models.py:24-26 | `question_count` is the number of distinct questions belonging to the quiz |
| QuizCatalog.TotalPoints | quizzes/models.py:28-30 | `total_points` equals `question_count`: one point per question |
| QuizCatalog.CorrectAnswer | quizzes/models.py:47-49 | `correct_answer` is an answer of the question flagged correct, with the smallest key among them, or None exactly when no answer is flagged |
| QuizCatalog.FindAnswer | quizzes/views.py:99 | an answer lookup by key alone returns an answer with that key, or None exactly when there is none |
| QuizCatalog.IsCorrectChoice | quizzes/views.py:63-65 | the credit test holds exactly when some answer has the submitted key, belongs to this question and is flagged correct |
| QuizAttempts.CorrectCountAsWritten | quizzes/models.py:82-85 | `correct_count` as written is the truncated `score/100·question_count`: for scores in [0, 100] it lies in [0, question_count], and a score of 100 gives question_count |
| QuizAttempts.IncorrectCountAsWritten | quizzes/models.py:87-90 | `incorrect_count` plus `correct_count` is `question_count`; both lie in [0, question_count] |
| QuizAttempts.CorrectCount | quizzes/models.py:82-85 | the corrected count: within half a unit of score/100·question_count, in [0, question_count] for scores in [0, 100] |
| QuizAttempts.IncorrectCount | quizzes/models.py:87-90 | the corrected incorrect count complements the corrected correct count to `question_count` |
| QuizAttempts.Passed | quizzes/models.py:78-80 | `passed` compares the score with the quiz's threshold: a zero threshold passes every graded attempt, a full score passes every threshold up to 100, and no score up to 100 passes a threshold above 100 |
| QuizAttempts.PassedMonotone | quizzes/models.py:78-80 | `passed` is `score ≥ passing_score`: more correct answers never turn a pass into a fail, and a full score passes every threshold up to 100 |
| QuizAttempts.CorrectCountAsWrittenLosesAnswers | quizzes/models.py:85 | 1 of 3 correct scores 33, and the truncated count reports 0 correct and 3 incorrect |
| QuizAttempts.CorrectCountRecoversScore | quizzes/models.py:82-85 | with fewer than 100 questions, the rounded count recovers the true number of correct answers from the score |
| QuizAttempts.ThreeOfFourScenario | quizzes/models.py:78-90 | 3 of 4 correct scores 75, passes a threshold of 70, and counts 3 correct and 1 incorrect |
| QuizAttempts.EmptyQuizScenario | quizzes/views.py:68 | a quiz without questions scores 0, which passes only a zero threshold |
| QuizScoring.CountCorrectExtremes | quizzes/views.py:59-65 | the number of credited questions equals the number of questions exactly when every question is credited, and is 0 exactly when none is |
| QuizScoring.RecordedAnswersContents | quizzes/views.py:57-62 | the stored map's keys are exactly `str(id)` of the questions answered with non-empty text, each holding the submitted text verbatim |
| QuizScoring.GradeSubmission | quizzes/views.py:55-65 | the view's single loop computes exactly the credited count and the stored answer map |
| QuizScoring.Score | quizzes/views.py:68 | the stored score lies in [0, 100], is 0 for a quiz without questions, and otherwise is the integer nearest the percentage of credited questions, an exact half going to the even neighbour |
| QuizScoring.StartQuiz | quizzes/views.py:44-51 | the take-quiz page gives a 404 exactly when the quiz does not exist and is refused exactly when an attempt already exists; otherwise it shows exactly that quiz's questions, as the catalog's question list in ascending `order` |
| QuizScoring.Submit | quizzes/views.py:42-78 | a submission is refused exactly when the quiz is missing or already attempted; otherwise exactly one attempt is appended, for this user and quiz, with a fresh key, the graded score of the quiz's questions, the recorded answer map, the given time and a time taken of 0 |
| QuizScoring.SubmitKeepsStoreValid | quizzes/views.py:48-51 | an accepted submission keeps keys fresh and distinct and keeps at most one attempt per user and quiz |
| QuizScoring.SecondSubmissionRejected | quizzes/views.py:48-51 | after one accepted submission, every later submission by that user for that quiz is refused |
| QuizScoring.GuardPrecedesScoring | quizzes/views.py:48-53 | once an attempt exists, the outcome does not depend on what was submitted, and nothing is stored |
| QuizScoring.CrossQuestionAnswerNotCredited | quizzes/views.py:63 | the id of another question's answer earns no credit, even when that answer is correct |
| QuizReview.ChosenAnswer | quizzes/views.py:98-99 | a chosen answer exists exactly when a stored value for the question reads as a key that some answer has; it is then an answer with that key |
| QuizReview.ReviewRowFor | quizzes/views.py:98-107 | a review line shows the chosen answer and the question's first correct answer, and is correct exactly when a chosen answer exists and equals that first correct answer; it is never correct without a stored answer |
| QuizReview.ReviewRows | quizzes/views.py:97-107 | one review line per question, in question order |
| QuizReview.FindAttempt | quizzes/views.py:91 | the attempt lookup matches key, requesting user and quiz together |
| QuizReview.Review | quizzes/views.py:87-107 | the results page succeeds exactly when the quiz exists and the key names an attempt of this user on this quiz; it then has one line per current question, in order, each the review line for that question built from the attempt's stored answers (its chosen answer, the first correct answer and whether they agree) |
| QuizReview.EmptySubmissionReviewsIncorrect | quizzes/views.py:106 | with nothing recorded, no line is marked correct |
| QuizReview.RowAgreesWithCredit | quizzes/views.py:98-106 | when a question has at most one correct answer, its review line is correct exactly when grading credited it |
| QuizReview.CountsAgree | quizzes/views.py:97-107 | counting correct review lines gives the credited count when the two agree question by question |
| QuizReview.ReviewMatchesScore | quizzes/views.py:59-68 | with the catalog unchanged and at most one correct answer per question, the review of a fresh attempt marks exactly the credited number of lines correct, and the stored score is their percentage |
| QuizReview.FoundAttemptIsLatest | quizzes/views.py:91 | after a submission, the only attempt of that user on that quiz is the one just stored |
| QuizReview.TwoCorrectAnswersDisagree | quizzes/views.py:100-106 | with two answers flagged correct, choosing the second earns credit, yet the review marks that line wrong |
| QuizArchive.ActiveQuizzes | quizzes/views.py:15 | the student quiz list is exactly the active quizzes |
| QuizArchive.ArchivedQuizzes | quizzes/views.py:188 | the archive is exactly the inactive quizzes |
| QuizArchive.ArchiveQuiz | quizzes/views.py:165-174 | archiving succeeds on any existing quiz and only clears its `is_active`; the quiz leaves the student list and nothing else changes |
| QuizArchive.RestoreQuiz | quizzes/views.py:196-202 | restore succeeds exactly on an inactive quiz and sets only its `is_active` back to true; other quizzes, questions and answers are unchanged |
| QuizArchive.ArchiveRestoreRoundTrip | quizzes/views.py:171-200 | archiving an active quiz and then restoring it gives back the original catalog |
| QuizArchive.PermanentDeleteQuiz | quizzes/views.py:206-214 | permanent delete succeeds exactly on an inactive quiz and removes exactly its questions, their answers and its attempts; other quizzes' question lists and all invariants are preserved |
| QuizArchive.ArchivedQuizStillStartable | quizzes/views.py:44 | an archived quiz is hidden from the list but can still be started, since the take-quiz lookup ignores `is_active` |
| Courses.FindCourse | courses/views.py:23 | a course lookup by key either returns a course with that key or reports that none exists |
| Courses.LessonsOf | courses/models.py:48-50 | a course's lessons are exactly its table rows, in strictly ascending `order` with distinct keys |
| Courses.LessonIdsCard | courses/models.py:75-78 | a course with distinct lesson keys has as many keys as lessons |
| Courses.ProgressPercentage | courses/models.py:72-79 | `progress_percentage` is 0 for a course without lessons; otherwise it is the integer nearest 100·completed/total, an exact half going to the even neighbour; it lies in [0, 100] when only course lessons are recorded, and is 100 when all are |
| Courses.PassedAsWritten | courses/models.py:81-84 | the as-written `passed` (rounded percentage equals 100) needs a course with lessons, allows at most one missing lesson in every 200, and holds once every lesson is completed |
| Courses.PassedMeansAllLessons | courses/models.py:81-84 | the corrected `passed` holds exactly when the course has lessons and every one is completed; for progress on course lessons it implies the as-written test at every course size |
| Courses.PassedAsWrittenGrows | courses/views.py:88-93 | recording more lessons of the course never undoes a pass as written |
| Courses.PassedAgreesBelow200 | courses/models.py:81-84 | below 200 lessons, "percentage is 100" holds exactly when every lesson is completed |
| Courses.PassedAsWrittenOneShort | courses/models.py:81-84 | from 200 lessons on, a user one lesson short already passes as written but has not completed every lesson |
| CourseViews.ListedCourses | courses/views.py:11-15 | the course list is exactly the published, non-archived courses |
| CourseViews.ArchivedCourses | courses/views.py:256-260 | the course archive is exactly the archived courses |
| CourseViews.GetOrCreate | courses/views.py:31-34 | `get_or_create` returns the existing record unchanged, or creates an empty one, and touches no other record |
| CourseViews.CourseDetail | courses/views.py:18-41 | staff see any existing course and others only listed ones; the page lists exactly the course's lessons, as the course's lesson list in ascending `order`, and other progress records are untouched |
| CourseViews.IndexOf | courses/views.py:58 | `list.index` gives the first position holding the lesson's key, or None exactly when no lesson has it |
| CourseViews.Neighbours | courses/views.py:57-60 | previous is None exactly at the first position and next exactly at the last; otherwise they are the entries at index −1 and +1 |
| CourseViews.NeighboursAdjacent | courses/views.py:57-60 | in order-sorted lessons, previous has the greatest `order` below the current lesson and next the least above it |
| CourseViews.LessonView | courses/views.py:44-73 | the lesson page succeeds exactly for a published course and one of its lessons; the shown lesson sits at the first position of its key in the ordered lesson list, and previous and next are the neighbours at that position (None exactly at the first and last lesson); `is_completed` reflects the record |
| CourseViews.LessonViewKeepsProgressValid | courses/views.py:51-54 | showing a lesson keeps every progress record consistent |
| CourseViews.Complete | courses/views.py:87-96 | a lesson is added to the completed set once; a course not completed before becomes completed, stamped with `now`, exactly when the rounded percentage after adding is 100; a completion is never reset |
| CourseViews.CompleteCorrected | courses/views.py:87-96 | the intended transition: a course not completed before becomes completed, stamped with `now`, exactly when the course has lessons and every one of them is recorded |
| CourseViews.CompleteCorrectedConsistent | courses/views.py:87-96 | the intended transition keeps records completed only when every lesson is done |
| CourseViews.CompleteAgreesBelow200 | courses/views.py:93 | below 200 lessons the transition as written and the intended one give the same record |
| CourseViews.CompleteOneLessonEarly | courses/views.py:93-95 | from 200 lessons on, recording the last-but-one missing lesson completes the course as written, stamped now, with one lesson still missing, while the corrected transition leaves it open |
| CourseViews.MarkingCompletesOneLessonEarly | courses/views.py:76-96 | marking the 200th of 201 lessons stores the course as completed, stamped now, with one lesson still missing |
| CourseViews.MarkLessonComplete | courses/views.py:76-98 | only the caller's record changes; the lesson is added to it; an earlier completion keeps its stamp; a course not yet completed becomes completed exactly when the rounded percentage after adding is 100 |
| CourseViews.MarkLessonCompleteRedirect | courses/views.py:99-106 | the redirect goes to the lesson right after the marked one when one exists, and to the course page after the last lesson |
| CourseViews.MarkLessonCompleteSucceedsIff | courses/views.py:79-80 | marking succeeds exactly for an existing course (published or not) and a lesson of that course |
| CourseViews.MarkLessonCompleteKeepsProgressValid | courses/views.py:87-96 | marking keeps every record consistent: only course lessons recorded, a stamp exactly when completed, completed only when the rounded percentage is 100 |
| CourseViews.CompleteIdempotent | courses/views.py:88-96 | recording the same lesson again leaves the progress unchanged |
| CourseViews.MarkLessonCompleteIdempotent | courses/views.py:87-96 | marking the same lesson twice, at any later time, leaves the store as the first marking did |
| CourseViews.CompletionIsPermanent | courses/views.py:93-96 | a completed course stays completed and keeps its first completion stamp |
| CourseViews.ArchiveCourse | courses/views.py:236-243 | archiving succeeds on any existing course, sets only its `is_archived`, leaves every other course and lesson unchanged, and removes the course from the list |
| CourseViews.RestoreCourse | courses/views.py:246-253 | restore succeeds exactly on an archived course and clears only its `is_archived`; every other course and lesson is unchanged |
| CourseViews.ArchiveRestoreRoundTrip | courses/views.py:239-251 | archiving a non-archived course and then restoring it gives back the original catalog |
| CourseViews.ArchivedCourseHiddenFromStudents | courses/views.py:22-25 | after archiving, the detail page is refused to students but still shown to staff |
| PyStrings.Strip | courses/templatetags/youtube_tags.py:25 | `strip` cuts whitespace-only margins and leaves a result whose ends are not whitespace |
| PyStrings.StripUnique | courses/templatetags/youtube_tags.py:25 | any such cut is the one `strip` makes |
| PyStrings.StripFixed | courses/templatetags/youtube_tags.py:25 | `strip` leaves a string unchanged exactly when its ends are not whitespace; stripping twice is stripping once |
| PyStrings.Contains | courses/templatetags/youtube_tags.py:28 | `t in s` holds exactly when `t` starts at some position of `s` |
| PyStrings.ReplaceAll | courses/templatetags/youtube_tags.py:33 | the result of `replace` begins and ends with a character of the input or of the replacement text; the full meaning (`replace(o, n)` is `n.join(split(o))`) is carried by `PyStrings.ReplaceIsJoinSplit` |
| PyStrings.JoinSplit | courses/templatetags/youtube_tags.py:33 | joining the split pieces with the separator gives back the string |
| PyStrings.ReplaceIsJoinSplit | courses/templatetags/youtube_tags.py:33 | `replace(o, n)` is `n.join(split(o))`: only occurrences change, and the text between them is kept |
| PyStrings.SplitPiecesFree | courses/templatetags/youtube_tags.py:33 | no split piece contains the separator, so every occurrence is replaced |
| PyStrings.ReplaceAbsent | courses/templatetags/youtube_tags.py:32-33 | with no occurrence, `replace` changes nothing |
| PyStrings.ReplacePresent | courses/templatetags/youtube_tags.py:32-33 | with an occurrence, the replacement text appears in the result |
| YouTube.IdRun | courses/templatetags/youtube_tags.py:39 | the id group takes the longest run of `[a-zA-Z0-9_-]`, so trailing parameters such as `&t=123s` are dropped |
| YouTube.FirstMatch | courses/templatetags/youtube_tags.py:39 | `re.search` finds the leftmost match position, or reports that there is none |
| YouTube.Search | courses/templatetags/youtube_tags.py:45-47 | a search fails exactly when the pattern matches nowhere; a found id is the group of the leftmost match |
| YouTube.MobileContainsDesktop | courses/templatetags/youtube_tags.py:39 | a mobile watch match is also a desktop match two characters later, with the same id |
| YouTube.WatchIdDesktopOnly | courses/templatetags/youtube_tags.py:39-41 | the mobile alternative of the watch pattern never changes the id that is found |
| YouTube.ExtractVideoId | courses/templatetags/youtube_tags.py:36-59 | the watch pattern is tried first, then `youtu.be/`, then `/v/`, then `/shorts/`, and the first search that finds an id decides; an id is a non-empty run of id characters; there is none exactly when no pattern matches |
| YouTube.Normalize | courses/templatetags/youtube_tags.py:27-67 | a nocookie link is kept; an embed link has its host rewritten; otherwise an extracted id gives exactly the nocookie embed link for that id, and unrecognised input is kept; a stripped input gives a stripped output |
| YouTube.EmbedLinkFacts | courses/templatetags/youtube_tags.py:64 | a built link contains the nocookie embed path and has no whitespace at its ends |
| YouTube.YoutubeEmbed | courses/templatetags/youtube_tags.py:8-67 | None and the empty string are returned unchanged; any other input is stripped, then normalised |
| YouTube.YoutubeEmbedIdempotent | courses/templatetags/youtube_tags.py:21-67 | applying the filter twice is the same as applying it once |

## Left out

- Django plumbing is not modelled: rendering, redirects as HTTP responses, flash messages, decorators, forms, admin and URL routing. Login is assumed. Staff rights are a boolean parameter.
- Python floats are not modelled bit-exactly. The score, `progress_percentage` and `correct_count` are computed in exact rational arithmetic with round-half-to-even. A float quotient can land a hair below an exact integer, for example `0.57 * 100`. `int()` then gives one less than the exact value.
- QuizAttempts.CorrectCountAsWritten: stated on exact arithmetic, for the float reason above.
- Decimal.ParseNat: reads only plain digit strings, leading zeros included. The ORM converts the value with Python's `int()`, which also accepts surrounding whitespace, a leading sign and underscores between digits. So `" 12"`, `"+12"` or `"1_2"` names answer 12 in the view, and no answer in the model. A value `int()` rejects makes the ORM raise an error; the model treats it as naming no answer.
- `str.strip` is modelled on the ASCII whitespace set. Unicode whitespace beyond ASCII is not stripped.
- `re.search` is modelled only for the four fixed patterns of the filter, not as a general regular-expression engine.
- Concurrency is not modelled. The check-then-create in `take_quiz_view` has no database uniqueness behind it, so two simultaneous posts could both pass the guard. The model is sequential.
- Timestamps are opaque numbers supplied by the caller. `time_taken_minutes` keeps its default of 0, since the view never sets it.
- The course detail page is modelled for a logged-in user, who always gets a progress record.
- Course `lesson_count` and `enrolled_count` are left out: they are plain counts and no view logic depends on them. So are the quiz detail page's attempt list and the create, edit and delete views for questions, answers, courses and lessons, which are form round trips.
- `correct_count` is documented as the "Count of correct answers" (quizzes/models.py:84), but the code truncates a product of the rounded score. The model follows the code; see Findings.
- `mark_lesson_complete` is modelled as written: it completes a course when the rounded percentage is 100, so from 200 lessons on a course can be completed one lesson early. The intended transition is `CourseViews.CompleteCorrected`; the two agree below 200 lessons (`CourseViews.CompleteAgreesBelow200`).
- The review shows `quiz.questions.all()` at review time. Changing the catalog between submission and review is possible but not explored beyond `QuizReview.ReviewMatchesScore`'s precondition.

## Findings

| source | as written | input that shows it | evidently intended | confidence | as-written member | corrected member |
|---|---|---|---|---|---|---|
| quizzes/models.py:82-85 | `correct_count` truncates `score/100 · question_count` | 1 of 3 correct: score 33, `int(0.33 · 3) = 0`, so 0 correct and 3 incorrect are shown | the number of correct answers the score came from (round, not truncate) | not executed | QuizAttempts.CorrectCountAsWrittenLosesAnswers | QuizAttempts.CorrectCountRecoversScore |
| courses/models.py:81-84 | `passed` is `progress_percentage == 100`, a rounded percentage | 200 of 201 lessons: round(99.502…) = 100, so the course counts as passed | every lesson of the course completed | not executed | Courses.PassedAsWrittenOneShort | Courses.PassedMeansAllLessons |
| courses/views.py:93-95 | `mark_lesson_complete` completes the course when `progress_percentage == 100` | marking the 200th of 201 lessons: the course is stored as completed, stamped now, with one lesson never done | completion when every lesson of the course is done | not executed | CourseViews.MarkingCompletesOneLessonEarly | CourseViews.CompleteCorrected |
