/** The soft-delete lifecycle of a quiz (quizzes/views.py): active, archived, then restored or removed for good. */
module QuizArchive {
  import opened Wrappers
  import opened Seqs
  import opened QuizCatalog
  import opened QuizAttempts
  import opened QuizScoring

  /** `Quiz.objects.filter(is_active=True)`: what students see in the quiz list. */
  function ActiveQuizzes(cat: Catalog): (r: seq<Quiz>)
    ensures forall q :: q in r <==> q in cat.quizzes && q.isActive
  {
    Filter(cat.quizzes, (q: Quiz) => q.isActive)
  }

  /** `Quiz.objects.filter(is_active=False)`: the staff archive. */
  function ArchivedQuizzes(cat: Catalog): (r: seq<Quiz>)
    ensures forall q :: q in r <==> q in cat.quizzes && !q.isActive
  {
    Filter(cat.quizzes, (q: Quiz) => !q.isActive)
  }

  /** The quiz table with the flag of quiz `id` set to `active`. */
  function SetActive(quizzes: seq<Quiz>, id: nat, active: bool): (r: seq<Quiz>)
    ensures |r| == |quizzes|
    ensures forall i :: 0 <= i < |quizzes| ==>
      r[i] == if quizzes[i].id == id then quizzes[i].(isActive := active) else quizzes[i]
  {
    seq(|quizzes|, i requires 0 <= i < |quizzes| =>
      if quizzes[i].id == id then quizzes[i].(isActive := active) else quizzes[i])
  }

  /** `delete_quiz` on POST: any existing quiz is archived; questions, answers and attempts stay. */
  function ArchiveQuiz(cat: Catalog, id: nat): (r: Result<Catalog, QuizError>)
    ensures r.Success? <==> FindQuiz(cat.quizzes, id).Some?
    ensures r.Failure? ==> r.error == NotFound
    ensures r.Success? ==>
      && r.value.questions == cat.questions && r.value.answers == cat.answers
      && |r.value.quizzes| == |cat.quizzes|
      && (forall i :: 0 <= i < |cat.quizzes| && cat.quizzes[i].id == id ==>
            r.value.quizzes[i] == cat.quizzes[i].(isActive := false))
      && (forall i :: 0 <= i < |cat.quizzes| && cat.quizzes[i].id != id ==> r.value.quizzes[i] == cat.quizzes[i])
    ensures r.Success? ==> forall q :: q in ActiveQuizzes(r.value) ==> q.id != id
    ensures r.Success? && Valid(cat) ==> Valid(r.value)
  {
    match FindQuiz(cat.quizzes, id)
    case None => Failure(NotFound)
    case Some(_) => Success(cat.(quizzes := SetActive(cat.quizzes, id, false)))
  }

  /** `restore_quiz`: only an archived quiz is found (`is_active=False` in the lookup); it becomes active. */
  function RestoreQuiz(cat: Catalog, id: nat): (r: Result<Catalog, QuizError>)
    ensures r.Success? <==> exists q :: q in cat.quizzes && q.id == id && !q.isActive
    ensures r.Failure? ==> r.error == NotFound
    ensures r.Success? ==>
      && r.value.questions == cat.questions && r.value.answers == cat.answers
      && |r.value.quizzes| == |cat.quizzes|
      && (forall i :: 0 <= i < |cat.quizzes| && cat.quizzes[i].id == id ==>
            r.value.quizzes[i] == cat.quizzes[i].(isActive := true))
      && (forall i :: 0 <= i < |cat.quizzes| && cat.quizzes[i].id != id ==> r.value.quizzes[i] == cat.quizzes[i])
    ensures r.Success? && Valid(cat) ==>
      Valid(r.value) && exists q :: q in ActiveQuizzes(r.value) && q.id == id
  {
    if exists q :: q in cat.quizzes && q.id == id && !q.isActive then
      var q' :| q' in cat.quizzes && q'.id == id && !q'.isActive;
      var r := cat.(quizzes := SetActive(cat.quizzes, id, true));
      assert q'.(isActive := true) in r.quizzes by {
        var i :| 0 <= i < |cat.quizzes| && cat.quizzes[i] == q';
        assert r.quizzes[i] == q'.(isActive := true);
      }
      Success(r)
    else
      Failure(NotFound)
  }

  /** Archiving an active quiz and restoring it gives back the catalog it started from. */
  lemma ArchiveRestoreRoundTrip(cat: Catalog, id: nat)
    requires Valid(cat)
    requires exists q :: q in cat.quizzes && q.id == id && q.isActive
    ensures ArchiveQuiz(cat, id).Success?
    ensures RestoreQuiz(ArchiveQuiz(cat, id).value, id) == Success(cat)
  {
    var q :| q in cat.quizzes && q.id == id && q.isActive;
    var archived := ArchiveQuiz(cat, id).value;
    var i :| 0 <= i < |cat.quizzes| && cat.quizzes[i] == q;
    assert archived.quizzes[i] == q.(isActive := false);
    assert archived.quizzes[i] in archived.quizzes;
    var restored := RestoreQuiz(archived, id).value;
    assert restored.quizzes == cat.quizzes by {
      forall k | 0 <= k < |cat.quizzes| ensures restored.quizzes[k] == cat.quizzes[k] {
        if cat.quizzes[k].id == id {
          assert k == i;
        }
      }
    }
  }

  /** `permanent_delete_quiz` on POST: only an archived quiz is found; deleting it cascades to its
      questions, their answers and the attempts on it. */
  function PermanentDeleteQuiz(cat: Catalog, store: AttemptStore, id: nat): (r: Result<(Catalog, AttemptStore), QuizError>)
    ensures r.Success? <==> exists q :: q in cat.quizzes && q.id == id && !q.isActive
    ensures r.Failure? ==> r.error == NotFound
    ensures r.Success? ==>
      var (cat', store') := r.value;
      && FindQuiz(cat'.quizzes, id).None?
      && (forall q :: q in cat'.quizzes <==> q in cat.quizzes && q.id != id)
      && (forall q :: q in cat'.questions <==> q in cat.questions && q.quiz != id)
      && (forall a :: a in store'.attempts <==> a in store.attempts && a.quiz != id)
      && (forall a :: a in cat'.answers ==> a in cat.answers)
      && (forall a :: a in cat.answers && (forall q :: q in cat.questions && q.id == a.question ==> q.quiz != id)
            ==> a in cat'.answers)
    ensures r.Success? ==> forall a, q :: a in r.value.0.answers && q in cat.questions && q.id == a.question ==>
      q.quiz != id
    ensures r.Success? ==> forall other :: other != id ==>
      QuestionsOf(r.value.0.questions, other) == QuestionsOf(cat.questions, other)
    ensures r.Success? && Valid(cat) ==> Valid(r.value.0)
    ensures r.Success? && StoreValid(store) ==> StoreValid(r.value.1)
  {
    if exists q :: q in cat.quizzes && q.id == id && !q.isActive then
      var gone := set q | q in cat.questions && q.quiz == id :: q.id;
      var cat' := Catalog(
        Filter(cat.quizzes, (q: Quiz) => q.id != id),
        Filter(cat.questions, (q: Question) => q.quiz != id),
        Filter(cat.answers, (a: Answer) => a.question !in gone));
      var store' := store.(attempts := Filter(store.attempts, (a: Attempt) => a.quiz != id));
      DeleteKeepsOtherQuizzes(cat.questions, id);
      DeleteKeepsInvariants(cat, store, id, gone);
      Success((cat', store'))
    else
      Failure(NotFound)
  }

  lemma DeleteKeepsOtherQuizzes(qs: seq<Question>, id: nat)
    ensures forall other :: other != id ==>
      QuestionsOf(Filter(qs, (q: Question) => q.quiz != id), other) == QuestionsOf(qs, other)
  {
    forall other | other != id
      ensures QuestionsOf(Filter(qs, (q: Question) => q.quiz != id), other) == QuestionsOf(qs, other)
    {
      FilterOfFilter(qs, id, other);
    }
  }

  /** Dropping the questions of one quiz does not change the question list of another. */
  lemma {:induction false} FilterOfFilter(qs: seq<Question>, id: nat, other: nat)
    requires other != id
    ensures QuestionsOf(Filter(qs, (q: Question) => q.quiz != id), other) == QuestionsOf(qs, other)
  {
    var keep := (q: Question) => q.quiz != id;
    var sel := (q: Question) => q.quiz == other;
    if |qs| > 0 {
      FilterOfFilter(qs[1..], id, other);
      assert QuestionsOf(qs, other) == Filter(qs, sel);
      if keep(qs[0]) {
        assert Filter(qs, keep) == [qs[0]] + Filter(qs[1..], keep);
        assert Filter(qs, keep)[1..] == Filter(qs[1..], keep);
      } else {
        assert Filter(qs, keep) == Filter(qs[1..], keep);
      }
    }
  }

  lemma DeleteKeepsInvariants(cat: Catalog, store: AttemptStore, id: nat, gone: set<nat>)
    ensures Valid(cat) ==> Valid(Catalog(
        Filter(cat.quizzes, (q: Quiz) => q.id != id),
        Filter(cat.questions, (q: Question) => q.quiz != id),
        Filter(cat.answers, (a: Answer) => a.question !in gone)))
    ensures StoreValid(store) ==> StoreValid(store.(attempts := Filter(store.attempts, (a: Attempt) => a.quiz != id)))
  {
    if Valid(cat) {
      FilterPairwise(cat.quizzes, (q: Quiz) => q.id != id, (a: Quiz, b: Quiz) => a.id != b.id);
      FilterPairwise(cat.questions, (q: Question) => q.quiz != id, (a: Question, b: Question) => ListedBefore(a, b));
      FilterPairwise(cat.questions, (q: Question) => q.quiz != id, (a: Question, b: Question) => a.id != b.id);
      FilterPairwise(cat.answers, (a: Answer) => a.question !in gone, (a: Answer, b: Answer) => a.id < b.id);
    }
    if StoreValid(store) {
      var keep := (a: Attempt) => a.quiz != id;
      FilterPairwise(store.attempts, keep, (a: Attempt, b: Attempt) => a.id != b.id);
      FilterPairwise(store.attempts, keep, (a: Attempt, b: Attempt) => (a.user, a.quiz) != (b.user, b.quiz));
      var r := Filter(store.attempts, keep);
      forall i | 0 <= i < |r| ensures r[i].id < store.nextId {
        assert r[i] in r;
      }
    }
  }

  /** The take-quiz view looks a quiz up by key alone: an archived quiz is hidden from the list
      but can still be started by a user who has not attempted it. */
  lemma ArchivedQuizStillStartable(cat: Catalog, store: AttemptStore, user: nat, id: nat)
    requires FindQuiz(cat.quizzes, id).Some? && !HasAttempt(store, user, id)
    ensures ArchiveQuiz(cat, id).Success?
    ensures StartQuiz(ArchiveQuiz(cat, id).value, store, user, id).Success?
  {
    var q := FindQuiz(cat.quizzes, id).value;
    var archived := ArchiveQuiz(cat, id).value;
    var i :| 0 <= i < |cat.quizzes| && cat.quizzes[i] == q;
    assert archived.quizzes[i].id == id;
    assert archived.quizzes[i] in archived.quizzes;
  }
}
