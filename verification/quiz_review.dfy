/** The graded review of a stored attempt (`quiz_results_view` of quizzes/views.py). */
module QuizReview {
  import opened Wrappers
  import opened Decimal
  import opened QuizCatalog
  import opened QuizAttempts
  import opened QuizScoring

  /** One line of the review: the question, the answer the user chose (if it still resolves),
      the question's first correct answer, and whether the two are the same answer. */
  datatype ReviewRow = ReviewRow(
    question: Question,
    userAnswer: Option<Answer>,
    correctAnswer: Option<Answer>,
    isCorrect: bool)

  /** The answer a stored value names: `Answer.objects.filter(id=...).first()` if the value is non-empty. */
  function ChosenAnswer(answers: seq<Answer>, stored: map<string, string>, q: Question): (r: Option<Answer>)
    ensures NatToString(q.id) !in stored ==> r.None?
    ensures r.Some? ==> r.value in answers
    ensures r.Some? ==> ParseNat(stored[NatToString(q.id)]) == Some(r.value.id)
    ensures r.Some? <==>
      && NatToString(q.id) in stored
      && ParseNat(stored[NatToString(q.id)]).Some?
      && exists a :: a in answers && a.id == ParseNat(stored[NatToString(q.id)]).value
  {
    var key := NatToString(q.id);
    if key in stored && stored[key] != "" then
      match ParseNat(stored[key])
      case Some(id) => FindAnswer(answers, id)
      case None => None
    else None
  }

  /** The review line for one question. */
  function ReviewRowFor(answers: seq<Answer>, stored: map<string, string>, q: Question): (row: ReviewRow)
    ensures row.question == q
    ensures row.userAnswer == ChosenAnswer(answers, stored, q)
    ensures row.correctAnswer == CorrectAnswer(answers, q.id)
    ensures row.correctAnswer.Some? ==> row.correctAnswer.value in answers && CorrectFor(row.correctAnswer.value, q.id)
    ensures row.correctAnswer.None? ==> forall a :: a in answers ==> !CorrectFor(a, q.id)
    ensures row.isCorrect <==> row.userAnswer.Some? && row.userAnswer == row.correctAnswer
    ensures NatToString(q.id) !in stored ==> row.userAnswer.None? && !row.isCorrect
    ensures row.isCorrect ==> ParseNat(stored[NatToString(q.id)]) == Some(row.correctAnswer.value.id)
  {
    var user := ChosenAnswer(answers, stored, q);
    var correct := CorrectAnswer(answers, q.id);
    ReviewRow(q, user, correct, if user.Some? then user == correct else false)
  }

  /** One review line per question, in question order. */
  function ReviewRows(answers: seq<Answer>, stored: map<string, string>, qs: seq<Question>): (rows: seq<ReviewRow>)
    ensures |rows| == |qs|
    ensures forall i :: 0 <= i < |qs| ==> rows[i] == ReviewRowFor(answers, stored, qs[i])
  {
    seq(|qs|, i requires 0 <= i < |qs| => ReviewRowFor(answers, stored, qs[i]))
  }

  /** `UserQuizAttempt` by key, restricted to the requesting user and the quiz in the URL. */
  function FindAttempt(attempts: seq<Attempt>, id: nat, user: nat, quiz: nat): (r: Option<Attempt>)
    ensures r.Some? ==> r.value in attempts && r.value.id == id && r.value.user == user && r.value.quiz == quiz
    ensures r.None? <==> forall a :: a in attempts ==> !(a.id == id && a.user == user && a.quiz == quiz)
  {
    if |attempts| == 0 then None
    else
      var a := attempts[0];
      if a.id == id && a.user == user && a.quiz == quiz then Some(a)
      else
        assert forall x :: x in attempts ==> x == a || x in attempts[1..];
        FindAttempt(attempts[1..], id, user, quiz)
  }

  /** The results page: the attempt and one review line per current question of the quiz. Another
      user's attempt, or an attempt of another quiz, is a 404 like a missing one. */
  function Review(cat: Catalog, store: AttemptStore, user: nat, quizId: nat, attemptId: nat)
    : (r: Result<(Attempt, seq<ReviewRow>), QuizError>)
    ensures r.Failure? ==> r.error == NotFound
    ensures r.Success? <==>
      FindQuiz(cat.quizzes, quizId).Some? &&
      exists a :: a in store.attempts && a.id == attemptId && a.user == user && a.quiz == quizId
    ensures r.Success? ==>
      var (a, rows) := r.value;
      var qs := QuestionsOf(cat.questions, quizId);
      && a in store.attempts && a.id == attemptId && a.user == user && a.quiz == quizId
      && |rows| == |qs|
      && (forall i :: 0 <= i < |rows| ==> rows[i].question == qs[i])
      && (forall i :: 0 <= i < |rows| ==> rows[i] == ReviewRowFor(cat.answers, a.answers, qs[i]))
      && rows == ReviewRows(cat.answers, a.answers, qs)
  {
    match FindQuiz(cat.quizzes, quizId)
    case None =>
      Failure(NotFound)
    case Some(_) =>
      match FindAttempt(store.attempts, attemptId, user, quizId)
      case None =>
        Failure(NotFound)
      case Some(a) =>
        Success((a, ReviewRows(cat.answers, a.answers, QuestionsOf(cat.questions, quizId))))
  }

  /** The number of review lines marked correct. */
  function CountCorrectRows(rows: seq<ReviewRow>): (n: nat)
    ensures n <= |rows|
    ensures n == 0 <==> forall i :: 0 <= i < |rows| ==> !rows[i].isCorrect
  {
    if |rows| == 0 then 0
    else
      var init := rows[..|rows| - 1];
      assert forall i :: 0 <= i < |init| ==> init[i] == rows[i];
      CountCorrectRows(init) + (if rows[|rows| - 1].isCorrect then 1 else 0)
  }

  /** With nothing submitted, no review line is correct. */
  lemma EmptySubmissionReviewsIncorrect(answers: seq<Answer>, qs: seq<Question>)
    ensures forall i :: 0 <= i < |qs| ==> !ReviewRows(answers, map[], qs)[i].isCorrect
  {
  }

  /** For one question whose catalog entry has at most one correct answer, the review line is correct
      exactly when the submission that produced the stored map earned credit for it. */
  lemma RowAgreesWithCredit(answers: seq<Answer>, sub: Submission, qs: seq<Question>, q: Question)
    requires AnswersByKey(answers)
    requires AtMostOneCorrect(answers, q.id)
    requires q in qs
    ensures ReviewRowFor(answers, RecordedAnswers(qs, sub), q).isCorrect <==> Credited(answers, sub, q)
  {
    var stored := RecordedAnswers(qs, sub);
    var key := NatToString(q.id);
    RecordedAnswersContents(qs, sub);
    if key in stored {
      var q' :| q' in qs && Answered(sub, q') && key == NatToString(q'.id);
      NatToStringInjective(q.id, q'.id);
      assert stored[key] == sub[q.id];
    }
    var row := ReviewRowFor(answers, stored, q);
    if Credited(answers, sub, q) {
      var id := ParseNat(sub[q.id]).value;
      var a :| a in answers && a.id == id && CorrectFor(a, q.id);
      var user := ChosenAnswer(answers, stored, q);
      assert user.Some? && user.value.id == id;
      assert user.value == a by { SameKeySameAnswer(answers, user.value, a); }
      var c := CorrectAnswer(answers, q.id).value;
      assert c == a by { OnlyCorrectAnswer(answers, q.id, c, a); }
    }
  }

  lemma SameKeySameAnswer(answers: seq<Answer>, a: Answer, b: Answer)
    requires AnswersByKey(answers) && a in answers && b in answers && a.id == b.id
    ensures a == b
  {
    var i :| 0 <= i < |answers| && answers[i] == a;
    var j :| 0 <= j < |answers| && answers[j] == b;
    assert i == j;
  }

  lemma OnlyCorrectAnswer(answers: seq<Answer>, question: nat, a: Answer, b: Answer)
    requires AtMostOneCorrect(answers, question)
    requires a in answers && b in answers && CorrectFor(a, question) && CorrectFor(b, question)
    ensures a == b
  {
    var i :| 0 <= i < |answers| && answers[i] == a;
    var j :| 0 <= j < |answers| && answers[j] == b;
  }

  /** Counting lines and counting credit agree when they agree question by question. */
  lemma {:induction false} CountsAgree(answers: seq<Answer>, stored: map<string, string>, sub: Submission, ps: seq<Question>)
    requires forall p :: p in ps ==> (ReviewRowFor(answers, stored, p).isCorrect <==> Credited(answers, sub, p))
    ensures CountCorrectRows(ReviewRows(answers, stored, ps)) == CountCorrect(answers, ps, sub)
  {
    if |ps| > 0 {
      var init := ps[..|ps| - 1];
      var rows := ReviewRows(answers, stored, ps);
      assert rows[..|rows| - 1] == ReviewRows(answers, stored, init);
      assert ps[|ps| - 1] in ps;
      CountsAgree(answers, stored, sub, init);
    }
  }

  /** With the catalog unchanged since submission and at most one correct answer per question, the review
      marks exactly as many lines correct as the grading credited, and the stored score is the percentage
      of those lines. */
  lemma ReviewMatchesScore(cat: Catalog, store: AttemptStore, user: nat, quizId: nat, sub: Submission, now: nat)
    requires Valid(cat)
    requires forall q :: q in cat.questions && q.quiz == quizId ==> AtMostOneCorrect(cat.answers, q.id)
    requires Submit(cat, store, user, quizId, sub, now).Success?
    ensures var (store', a) := Submit(cat, store, user, quizId, sub, now).value;
      var rv := Review(cat, store', user, quizId, a.id);
      && rv.Success?
      && CountCorrectRows(rv.value.1) == CountCorrect(cat.answers, QuestionsOf(cat.questions, quizId), sub)
      && a.score == PyMath.Percent(CountCorrectRows(rv.value.1), |rv.value.1|)
  {
    var (store', a) := Submit(cat, store, user, quizId, sub, now).value;
    var qs := QuestionsOf(cat.questions, quizId);
    assert a in store'.attempts;
    var rv := Review(cat, store', user, quizId, a.id);
    var (a', rows) := rv.value;
    FoundAttemptIsLatest(store, store', a, a', user, quizId);
    forall p | p in qs ensures ReviewRowFor(cat.answers, a.answers, p).isCorrect <==> Credited(cat.answers, sub, p) {
      RowAgreesWithCredit(cat.answers, sub, qs, p);
    }
    CountsAgree(cat.answers, a.answers, sub, qs);
  }

  /** The attempt a submission just stored is the only one of that user for that quiz. */
  lemma FoundAttemptIsLatest(store: AttemptStore, store': AttemptStore, a: Attempt, a': Attempt, user: nat, quizId: nat)
    requires !HasAttempt(store, user, quizId)
    requires store'.attempts == store.attempts + [a]
    requires a' in store'.attempts && a'.user == user && a'.quiz == quizId
    ensures a' == a
  {
  }

  /** Two answers flagged correct on one question: choosing the second earns credit when grading,
      but the review compares against the first and marks the line wrong. */
  lemma TwoCorrectAnswersDisagree()
    ensures var answers := [Answer(10, 1, "A", true), Answer(11, 1, "B", true)];
      var q := Question(1, 1, "Q", 0);
      var sub := map[1 := "11"];
      && CountCorrect(answers, [q], sub) == 1
      && CountCorrectRows(ReviewRows(answers, RecordedAnswers([q], sub), [q])) == 0
  {
    var answers := [Answer(10, 1, "A", true), Answer(11, 1, "B", true)];
    var q := Question(1, 1, "Q", 0);
    var sub := map[1 := "11"];
    assert ParseNat("11") == Some(11);
    assert Credited(answers, sub, q);
    assert [q][..0] == [];
    var stored := RecordedAnswers([q], sub);
    assert NatToString(1) == "1";
    assert stored["1"] == "11";
    var rows := ReviewRows(answers, stored, [q]);
    assert rows[0].correctAnswer == Some(answers[0]);
    assert rows[0].userAnswer == Some(answers[1]);
    assert rows[..0] == [];
  }
}
