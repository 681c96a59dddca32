/** The quiz catalog of quizzes/models.py: quizzes, their questions and the answer choices,
    as immutable tables read by the attempt, review and archive operations. */
module QuizCatalog {
  import opened Wrappers
  import opened Seqs

  datatype Quiz = Quiz(
    id: nat,
    title: string,
    description: string,
    course: Option<nat>,
    passingScore: nat,
    timeLimitMinutes: nat,
    isActive: bool)

  /** A question belongs to one quiz; `order` places it within that quiz. */
  datatype Question = Question(id: nat, quiz: nat, text: string, order: nat)

  /** An answer choice belongs to one question and may be flagged correct. */
  datatype Answer = Answer(id: nat, question: nat, text: string, isCorrect: bool)

  /** The three tables. `questions` is kept in the model's listing order (quiz, then order);
      `answers` in primary-key order, which is the order `.first()` uses for a model without an ordering. */
  datatype Catalog = Catalog(quizzes: seq<Quiz>, questions: seq<Question>, answers: seq<Answer>)

  /** Listing order of questions: by quiz, then by `order`; strictness is the `(quiz, order)` uniqueness. */
  predicate ListedBefore(a: Question, b: Question) {
    a.quiz < b.quiz || (a.quiz == b.quiz && a.order < b.order)
  }

  predicate QuestionsListed(qs: seq<Question>) {
    forall i, j :: 0 <= i < j < |qs| ==> ListedBefore(qs[i], qs[j])
  }

  predicate QuestionIdsDistinct(qs: seq<Question>) {
    forall i, j :: 0 <= i < j < |qs| ==> qs[i].id != qs[j].id
  }

  /** Primary keys of answers are distinct and the table is in key order. */
  predicate AnswersByKey(answers: seq<Answer>) {
    forall i, j :: 0 <= i < j < |answers| ==> answers[i].id < answers[j].id
  }

  predicate QuizIdsDistinct(quizzes: seq<Quiz>) {
    forall i, j :: 0 <= i < j < |quizzes| ==> quizzes[i].id != quizzes[j].id
  }

  /** What the database guarantees about the catalog: primary keys and the `(quiz, order)` constraint. */
  predicate Valid(cat: Catalog) {
    && QuizIdsDistinct(cat.quizzes)
    && QuestionsListed(cat.questions)
    && QuestionIdsDistinct(cat.questions)
    && AnswersByKey(cat.answers)
  }

  /** `get_object_or_404(Quiz, id=...)`: the quiz with that key, or None. */
  function FindQuiz(quizzes: seq<Quiz>, id: nat): (r: Option<Quiz>)
    ensures r.Some? ==> r.value in quizzes && r.value.id == id
    ensures r.None? <==> forall q :: q in quizzes ==> q.id != id
  {
    if |quizzes| == 0 then None
    else if quizzes[0].id == id then Some(quizzes[0])
    else FindQuiz(quizzes[1..], id)
  }

  /** `quiz.questions.all()`: the questions of one quiz, in listing order. Within the quiz they come
      in strictly ascending `order`, so no two share an order. */
  function QuestionsOf(qs: seq<Question>, quiz: nat): (r: seq<Question>)
    ensures forall q :: q in r <==> q in qs && q.quiz == quiz
    ensures QuestionsListed(qs) ==> AscendingOrder(r)
    ensures QuestionIdsDistinct(qs) ==> QuestionIdsDistinct(r)
  {
    QuestionsOfFacts(qs, quiz);
    Filter(qs, (q: Question) => q.quiz == quiz)
  }

  /** Strictly ascending `order` along a list of questions. */
  predicate AscendingOrder(r: seq<Question>) {
    forall i, j :: 0 <= i < j < |r| ==> r[i].order < r[j].order
  }

  lemma QuestionsOfFacts(qs: seq<Question>, quiz: nat)
    ensures var r := Filter(qs, (q: Question) => q.quiz == quiz);
      && (QuestionsListed(qs) ==> AscendingOrder(r))
      && (QuestionIdsDistinct(qs) ==> QuestionIdsDistinct(r))
  {
    var keep := (q: Question) => q.quiz == quiz;
    var r := Filter(qs, keep);
    if QuestionsListed(qs) {
      FilterPairwise(qs, keep, (a: Question, b: Question) => ListedBefore(a, b));
      forall i, j | 0 <= i < j < |r| ensures r[i].order < r[j].order {
        assert r[i] in r && r[j] in r;
        assert ListedBefore(r[i], r[j]);
      }
    }
    if QuestionIdsDistinct(qs) {
      FilterPairwise(qs, keep, (a: Question, b: Question) => a.id != b.id);
    }
  }

  /** `Quiz.question_count`, the live count of the quiz's questions. */
  function QuestionCount(cat: Catalog, quiz: nat): (n: nat)
    requires Valid(cat)
    ensures n == |set q | q in cat.questions && q.quiz == quiz|
  {
    var qs := QuestionsOf(cat.questions, quiz);
    assert Pairwise(qs, (a: Question, b: Question) => a != b) by {
      assert QuestionIdsDistinct(qs);
    }
    DistinctCard(qs);
    assert (set q | q in qs) == (set q | q in cat.questions && q.quiz == quiz);
    |qs|
  }

  /** `Quiz.total_points`: every question is worth one point. */
  function TotalPoints(cat: Catalog, quiz: nat): (n: nat)
    requires Valid(cat)
    ensures n == QuestionCount(cat, quiz)
    ensures n == |set q | q in cat.questions && q.quiz == quiz|
  {
    |QuestionsOf(cat.questions, quiz)|
  }

  predicate CorrectFor(a: Answer, question: nat) {
    a.question == question && a.isCorrect
  }

  /** `Question.correct_answer`: the first answer of the question flagged correct, or None. */
  function CorrectAnswer(answers: seq<Answer>, question: nat): (r: Option<Answer>)
    ensures r.Some? ==> r.value in answers && CorrectFor(r.value, question)
    ensures r.None? <==> forall a :: a in answers ==> !CorrectFor(a, question)
    ensures r.Some? && AnswersByKey(answers) ==>
      forall a :: a in answers && CorrectFor(a, question) ==> r.value.id <= a.id
  {
    if |answers| == 0 then None
    else if CorrectFor(answers[0], question) then
      assert forall a :: a in answers ==> a == answers[0] || a in answers[1..];
      Some(answers[0])
    else
      var r := CorrectAnswer(answers[1..], question);
      assert forall a :: a in answers ==> a == answers[0] || a in answers[1..];
      assert AnswersByKey(answers) ==> AnswersByKey(answers[1..]);
      r
  }

  /** `Answer.objects.filter(id=...).first()`: the answer with that key, or None. */
  function FindAnswer(answers: seq<Answer>, id: nat): (r: Option<Answer>)
    ensures r.Some? ==> r.value in answers && r.value.id == id
    ensures r.None? <==> forall a :: a in answers ==> a.id != id
  {
    if |answers| == 0 then None
    else if answers[0].id == id then Some(answers[0])
    else FindAnswer(answers[1..], id)
  }

  /** `Answer.objects.filter(id=..., question=..., is_correct=True).first()` is not None. */
  function IsCorrectChoice(answers: seq<Answer>, id: nat, question: nat): (r: bool)
    ensures r <==> exists a :: a in answers && a.id == id && CorrectFor(a, question)
  {
    if |answers| == 0 then false
    else if answers[0].id == id && CorrectFor(answers[0], question) then true
    else
      assert forall a :: a in answers ==> a == answers[0] || a in answers[1..];
      IsCorrectChoice(answers[1..], id, question)
  }

  /** The single-correct-answer expectation the data model does not enforce. */
  predicate AtMostOneCorrect(answers: seq<Answer>, question: nat) {
    forall i, j ::
      (0 <= i < |answers| && 0 <= j < |answers| &&
       CorrectFor(answers[i], question) && CorrectFor(answers[j], question)) ==> i == j
  }
}
