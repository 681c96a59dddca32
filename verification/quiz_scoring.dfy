/** Taking a quiz (`take_quiz_view` of quizzes/views.py): the one-attempt guard, grading a submission
    against the catalog, and recording the attempt. */
module QuizScoring {
  import opened Wrappers
  import opened PyMath
  import opened Decimal
  import opened QuizCatalog
  import opened QuizAttempts

  /** The submitted form: the value of the field `question_<id>`, keyed by question id, as raw text. */
  type Submission = map<nat, string>

  /** The errors the quiz views report: a 404, or the "only one attempt" redirect. */
  datatype QuizError = NotFound | AlreadyAttempted

  /** Stored attempts in creation order, and the key the next one receives. */
  datatype AttemptStore = AttemptStore(attempts: seq<Attempt>, nextId: nat)

  /** `request.POST.get(f'question_{id}')` is present and non-empty. */
  predicate Answered(sub: Submission, q: Question) {
    q.id in sub && sub[q.id] != ""
  }

  /** The question earns credit: the submitted text names an answer of this very question flagged correct. */
  predicate Credited(answers: seq<Answer>, sub: Submission, q: Question) {
    && Answered(sub, q)
    && match ParseNat(sub[q.id])
       case Some(id) => IsCorrectChoice(answers, id, q.id)
       case None => false
  }

  /** The number of credited questions. */
  function CountCorrect(answers: seq<Answer>, qs: seq<Question>, sub: Submission): (n: nat)
    ensures n <= |qs|
  {
    if |qs| == 0 then 0
    else CountCorrect(answers, qs[..|qs| - 1], sub) + (if Credited(answers, sub, qs[|qs| - 1]) then 1 else 0)
  }

  /** The count is full exactly when every question is credited, and zero exactly when none is. */
  lemma {:induction false} CountCorrectExtremes(answers: seq<Answer>, qs: seq<Question>, sub: Submission)
    ensures CountCorrect(answers, qs, sub) == |qs| <==> forall i :: 0 <= i < |qs| ==> Credited(answers, sub, qs[i])
    ensures CountCorrect(answers, qs, sub) == 0 <==> forall i :: 0 <= i < |qs| ==> !Credited(answers, sub, qs[i])
  {
    if |qs| > 0 {
      var init := qs[..|qs| - 1];
      assert forall i :: 0 <= i < |init| ==> init[i] == qs[i];
      CountCorrectExtremes(answers, init, sub);
    }
  }

  /** The answer map the attempt stores: `str(question.id)` to the submitted text, for answered questions only. */
  function RecordedAnswers(qs: seq<Question>, sub: Submission): map<string, string>
  {
    if |qs| == 0 then map[]
    else
      var m := RecordedAnswers(qs[..|qs| - 1], sub);
      var last := qs[|qs| - 1];
      if Answered(sub, last) then m[NatToString(last.id) := sub[last.id]] else m
  }

  /** The stored keys are exactly the answered questions' ids as text, each holding the submitted text. */
  lemma {:induction false} RecordedAnswersContents(qs: seq<Question>, sub: Submission)
    ensures forall k :: k in RecordedAnswers(qs, sub) <==> exists q :: q in qs && Answered(sub, q) && k == NatToString(q.id)
    ensures forall q :: q in qs && Answered(sub, q) ==>
      NatToString(q.id) in RecordedAnswers(qs, sub) && RecordedAnswers(qs, sub)[NatToString(q.id)] == sub[q.id]
  {
    if |qs| > 0 {
      var init := qs[..|qs| - 1];
      var last := qs[|qs| - 1];
      RecordedAnswersContents(init, sub);
      assert forall q :: q in qs <==> q in init || q == last;
      if Answered(sub, last) {
        var m := RecordedAnswers(init, sub);
        assert RecordedAnswers(qs, sub) == m[NatToString(last.id) := sub[last.id]];
        forall k ensures k in RecordedAnswers(qs, sub) <==> exists q :: q in qs && Answered(sub, q) && k == NatToString(q.id) {
          if k == NatToString(last.id) {
            assert last in qs;
          } else if k in m {
            var q :| q in init && Answered(sub, q) && k == NatToString(q.id);
            assert q in qs;
          }
        }
        forall q | q in init && Answered(sub, q) && NatToString(q.id) == NatToString(last.id)
          ensures sub[q.id] == sub[last.id]
        {
          NatToStringInjective(q.id, last.id);
        }
      } else {
        assert RecordedAnswers(qs, sub) == RecordedAnswers(init, sub);
      }
    }
  }

  /** The loop of the view: walks the questions once, counting credited ones and recording answered ones. */
  method GradeSubmission(answers: seq<Answer>, qs: seq<Question>, sub: Submission)
    returns (correct: nat, recorded: map<string, string>)
    ensures correct == CountCorrect(answers, qs, sub)
    ensures recorded == RecordedAnswers(qs, sub)
  {
    correct := 0;
    recorded := map[];
    var i := 0;
    while i < |qs|
      invariant 0 <= i <= |qs|
      invariant correct == CountCorrect(answers, qs[..i], sub)
      invariant recorded == RecordedAnswers(qs[..i], sub)
    {
      var q := qs[i];
      GradeStep(answers, qs, sub, i);
      var answerId: Option<string> := if q.id in sub then Some(sub[q.id]) else None;
      if answerId.Some? && answerId.value != "" {
        recorded := recorded[NatToString(q.id) := answerId.value];
        var parsed := ParseNat(answerId.value);
        if parsed.Some? && IsCorrectChoice(answers, parsed.value, q.id) {
          assert Credited(answers, sub, q);
          correct := correct + 1;
        } else {
          assert !Credited(answers, sub, q);
        }
      } else {
        assert !Answered(sub, q);
      }
      i := i + 1;
    }
    assert qs[..|qs|] == qs;
  }

  /** One more question extends the count and the answer map by that question alone. */
  lemma GradeStep(answers: seq<Answer>, qs: seq<Question>, sub: Submission, i: nat)
    requires i < |qs|
    ensures CountCorrect(answers, qs[..i + 1], sub) ==
      CountCorrect(answers, qs[..i], sub) + (if Credited(answers, sub, qs[i]) then 1 else 0)
    ensures RecordedAnswers(qs[..i + 1], sub) ==
      if Answered(sub, qs[i]) then RecordedAnswers(qs[..i], sub)[NatToString(qs[i].id) := sub[qs[i].id]]
      else RecordedAnswers(qs[..i], sub)
  {
    var p := qs[..i + 1];
    assert p[..|p| - 1] == qs[..i];
    assert p[|p| - 1] == qs[i];
  }

  /** The percentage score of a submission: 0 for a quiz without questions. */
  function Score(answers: seq<Answer>, qs: seq<Question>, sub: Submission): (s: int)
    ensures 0 <= s <= 100
    ensures |qs| == 0 ==> s == 0
    ensures |qs| > 0 ==> 2 * Abs(100 * CountCorrect(answers, qs, sub) - s * |qs|) <= |qs|
    ensures |qs| > 0 && 2 * Abs(100 * CountCorrect(answers, qs, sub) - s * |qs|) == |qs| ==> s % 2 == 0
  {
    Percent(CountCorrect(answers, qs, sub), |qs|)
  }

  /** `UserQuizAttempt.objects.filter(user=..., quiz=...).exists()`. */
  predicate HasAttempt(store: AttemptStore, user: nat, quiz: nat) {
    exists a :: a in store.attempts && a.user == user && a.quiz == quiz
  }

  /** Keys are below the next key and distinct, and each (user, quiz) pair has at most one attempt. */
  predicate StoreValid(store: AttemptStore) {
    && (forall i :: 0 <= i < |store.attempts| ==> store.attempts[i].id < store.nextId)
    && (forall i, j :: 0 <= i < j < |store.attempts| ==> store.attempts[i].id != store.attempts[j].id)
    && (forall i, j :: 0 <= i < j < |store.attempts| ==>
          (store.attempts[i].user, store.attempts[i].quiz) != (store.attempts[j].user, store.attempts[j].quiz))
  }

  /** A GET of the take-quiz page: the quiz and its questions, unless the user has already attempted it. */
  function StartQuiz(cat: Catalog, store: AttemptStore, user: nat, quizId: nat): (r: Result<(Quiz, seq<Question>), QuizError>)
    ensures r == Failure(NotFound) <==> FindQuiz(cat.quizzes, quizId).None?
    ensures r == Failure(AlreadyAttempted) <==> FindQuiz(cat.quizzes, quizId).Some? && HasAttempt(store, user, quizId)
    ensures r.Success? ==> r.value.0.id == quizId && r.value.0 in cat.quizzes
    ensures r.Success? ==> forall q :: q in r.value.1 <==> q in cat.questions && q.quiz == quizId
    ensures r.Success? ==> r.value.1 == QuestionsOf(cat.questions, quizId)
  {
    match FindQuiz(cat.quizzes, quizId)
    case None =>
      Failure(NotFound)
    case Some(quiz) =>
      if HasAttempt(store, user, quizId) then Failure(AlreadyAttempted)
      else Success((quiz, QuestionsOf(cat.questions, quizId)))
  }

  /** A POST of the take-quiz page: guard, grade, then store one new attempt stamped `now`. */
  function Submit(cat: Catalog, store: AttemptStore, user: nat, quizId: nat, sub: Submission, now: nat)
    : (r: Result<(AttemptStore, Attempt), QuizError>)
    ensures r == Failure(NotFound) <==> FindQuiz(cat.quizzes, quizId).None?
    ensures r == Failure(AlreadyAttempted) <==> FindQuiz(cat.quizzes, quizId).Some? && HasAttempt(store, user, quizId)
    ensures r.Success? ==>
      var (store', a) := r.value;
      && store'.attempts == store.attempts + [a]
      && a.id == store.nextId && store'.nextId == store.nextId + 1
      && a.user == user && a.quiz == quizId && a.attemptedAt == now
      && 0 <= a.score <= 100
      && !HasAttempt(store, user, quizId) && HasAttempt(store', user, quizId)
    ensures r.Success? ==>
      var a := r.value.1;
      var qs := QuestionsOf(cat.questions, quizId);
      && a.score == Score(cat.answers, qs, sub)
      && a.answers == RecordedAnswers(qs, sub)
      && a.timeTakenMinutes == 0
  {
    match FindQuiz(cat.quizzes, quizId)
    case None =>
      Failure(NotFound)
    case Some(quiz) =>
      if HasAttempt(store, user, quizId) then Failure(AlreadyAttempted)
      else
        var qs := QuestionsOf(cat.questions, quizId);
        var a := Attempt(store.nextId, user, quizId, Score(cat.answers, qs, sub), RecordedAnswers(qs, sub), now, 0);
        var store' := AttemptStore(store.attempts + [a], store.nextId + 1);
        assert a in store'.attempts;
        Success((store', a))
  }

  /** An accepted submission keeps the store valid: a fresh key, and the first attempt of its pair. */
  lemma SubmitKeepsStoreValid(cat: Catalog, store: AttemptStore, user: nat, quizId: nat, sub: Submission, now: nat)
    requires StoreValid(store)
    ensures Submit(cat, store, user, quizId, sub, now).Success? ==>
      StoreValid(Submit(cat, store, user, quizId, sub, now).value.0)
  {
    var r := Submit(cat, store, user, quizId, sub, now);
    if r.Success? {
      var (store', a) := r.value;
      var s := store'.attempts;
      assert |s| == |store.attempts| + 1 && s[|s| - 1] == a;
      forall i | 0 <= i < |store.attempts| ensures s[i] == store.attempts[i] && (s[i].user, s[i].quiz) != (a.user, a.quiz) {
        assert store.attempts[i] in store.attempts;
      }
    }
  }

  /** After one accepted submission every later one for the same user and quiz is refused, whatever the
      catalog, the answers or the time. */
  lemma SecondSubmissionRejected(cat: Catalog, cat': Catalog, store: AttemptStore, user: nat, quizId: nat,
                                 sub: Submission, sub': Submission, now: nat, now': nat)
    requires Submit(cat, store, user, quizId, sub, now).Success?
    ensures var store' := Submit(cat, store, user, quizId, sub, now).value.0;
      Submit(cat', store', user, quizId, sub', now').Failure?
  {
  }

  /** The guard runs before grading: once an attempt exists, what was submitted makes no difference
      and nothing is stored. */
  lemma GuardPrecedesScoring(cat: Catalog, store: AttemptStore, user: nat, quizId: nat,
                             sub: Submission, sub': Submission, now: nat, now': nat)
    requires HasAttempt(store, user, quizId)
    ensures Submit(cat, store, user, quizId, sub, now) == Submit(cat, store, user, quizId, sub', now')
    ensures Submit(cat, store, user, quizId, sub, now).Failure?
  {
  }

  /** An answer id that belongs to another question never earns credit, even if that answer is correct. */
  lemma CrossQuestionAnswerNotCredited(answers: seq<Answer>, sub: Submission, q: Question, other: Answer)
    requires AnswersByKey(answers)
    requires other in answers && other.question != q.id
    requires q.id in sub && ParseNat(sub[q.id]) == Some(other.id)
    ensures !Credited(answers, sub, q)
  {
  }
}
