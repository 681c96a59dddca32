/** `UserQuizAttempt` of quizzes/models.py and the values it derives from its stored score. */
module QuizAttempts {
  import opened PyMath

  /** One stored attempt. `answers` maps `str(question id)` to the submitted answer text, verbatim;
      `attemptedAt` is an opaque creation stamp. */
  datatype Attempt = Attempt(
    id: nat,
    user: nat,
    quiz: nat,
    score: int,
    answers: map<string, string>,
    attemptedAt: nat,
    timeTakenMinutes: nat)

  /** `UserQuizAttempt.passed`: the score reaches the quiz's passing threshold. */
  predicate Passed(score: int, passingScore: nat): (b: bool)
    ensures passingScore == 0 && score >= 0 ==> b
    ensures score == 100 && passingScore <= 100 ==> b
    ensures score <= 100 && passingScore > 100 ==> !b
  {
    score >= passingScore
  }

  /** `UserQuizAttempt.correct_count` as written: `int(score / 100 * question_count)`, which truncates. */
  function CorrectCountAsWritten(score: int, questionCount: nat): (r: int)
    ensures score >= 0 ==> r * 100 <= score * questionCount < r * 100 + 100
    ensures 0 <= score <= 100 ==> 0 <= r <= questionCount
    ensures score == 100 ==> r == questionCount
  {
    ScaledScoreBounds(score, questionCount);
    TruncDiv(score * questionCount, 100)
  }

  /** `UserQuizAttempt.incorrect_count` as written: the questions the truncated count leaves over. */
  function IncorrectCountAsWritten(score: int, questionCount: nat): (r: int)
    ensures r + CorrectCountAsWritten(score, questionCount) == questionCount
    ensures 0 <= score <= 100 ==> 0 <= r <= questionCount
    ensures score == 100 ==> r == 0
  {
    questionCount - CorrectCountAsWritten(score, questionCount)
  }

  /** The number of correct answers recovered from the score by rounding to the nearest integer
      (ties to even, like Python's `round`) instead of truncating. */
  function CorrectCount(score: int, questionCount: nat): (r: int)
    ensures 2 * Abs(score * questionCount - r * 100) <= 100
    ensures 0 <= score <= 100 ==> 0 <= r <= questionCount
    ensures score == 100 ==> r == questionCount
  {
    RoundedCountBounds(score, questionCount);
    RoundHalfEven(score * questionCount, 100)
  }

  lemma ScaledScoreBounds(score: int, questionCount: nat)
    ensures 0 <= score <= 100 ==> 0 <= score * questionCount <= 100 * questionCount
  {
    if 0 <= score <= 100 && questionCount > 0 {
      MulMonotone(score, 100, questionCount);
      MulMonotone(0, score, questionCount);
    }
  }

  lemma RoundedCountBounds(score: int, questionCount: nat)
    ensures 0 <= score <= 100 ==> 0 <= RoundHalfEven(score * questionCount, 100) <= questionCount
    ensures score == 100 ==> RoundHalfEven(score * questionCount, 100) == questionCount
  {
    var n := score * questionCount;
    ScaledScoreBounds(score, questionCount);
    RoundHalfEvenUnique(100 * questionCount, 100, questionCount);
    if 0 <= score <= 100 {
      RoundHalfEvenMonotone(0, n, 100);
      RoundHalfEvenMonotone(n, 100 * questionCount, 100);
      RoundHalfEvenUnique(0, 100, 0);
    }
  }

  /** The incorrect answers: the questions the rounded correct count leaves over. */
  function IncorrectCount(score: int, questionCount: nat): (r: int)
    ensures r + CorrectCount(score, questionCount) == questionCount
    ensures 0 <= score <= 100 ==> 0 <= r <= questionCount
    ensures score == 100 ==> r == 0
  {
    questionCount - CorrectCount(score, questionCount)
  }

  /** More correct answers on the same quiz never turn a pass into a fail, and a full score passes
      every threshold a percentage can set. */
  lemma PassedMonotone(c1: nat, c2: nat, questionCount: nat, passingScore: nat)
    requires c1 <= c2 <= questionCount
    ensures Passed(Percent(c1, questionCount), passingScore) ==> Passed(Percent(c2, questionCount), passingScore)
    ensures questionCount > 0 && passingScore <= 100 ==> Passed(Percent(questionCount, questionCount), passingScore)
  {
    PercentMonotone(c1, c2, questionCount);
    if questionCount > 0 {
      PercentEnds(questionCount);
    }
  }

  /** Truncation loses a correct answer: one of three correct scores 33, and 33% of 3 truncates to 0. */
  lemma CorrectCountAsWrittenLosesAnswers()
    ensures Percent(1, 3) == 33
    ensures CorrectCountAsWritten(Percent(1, 3), 3) == 0
    ensures IncorrectCountAsWritten(Percent(1, 3), 3) == 3
  {
    RoundHalfEvenUnique(100, 3, 33);
  }

  /** Rounding recovers the number of correct answers from the score whenever the quiz has fewer
      than 100 questions (from 100 on, the score no longer determines it). */
  lemma CorrectCountRecoversScore(correct: nat, questionCount: nat)
    requires correct <= questionCount < 100
    ensures CorrectCount(Percent(correct, questionCount), questionCount) == correct
  {
    var s := Percent(correct, questionCount);
    if questionCount == 0 {
      RoundHalfEvenUnique(0, 100, 0);
    } else {
      // |100 * correct - s * n| <= n / 2 < 50
      assert 2 * Abs(s * questionCount - correct * 100) < 100;
      RoundHalfEvenUnique(s * questionCount, 100, correct);
    }
  }

  /** Four questions with three correct against a passing score of 70: score 75, passed, 3 right and 1 wrong. */
  lemma ThreeOfFourScenario()
    ensures Percent(3, 4) == 75
    ensures Passed(Percent(3, 4), 70)
    ensures CorrectCountAsWritten(75, 4) == 3 && IncorrectCountAsWritten(75, 4) == 1
    ensures CorrectCount(75, 4) == 3 && IncorrectCount(75, 4) == 1
  {
    RoundHalfEvenUnique(300, 4, 75);
    RoundHalfEvenUnique(300, 100, 3);
  }

  /** A quiz without questions scores 0, which passes only a zero threshold. */
  lemma EmptyQuizScenario(passingScore: nat)
    ensures Percent(0, 0) == 0
    ensures Passed(Percent(0, 0), passingScore) <==> passingScore == 0
    ensures CorrectCountAsWritten(0, 0) == 0 && IncorrectCountAsWritten(0, 0) == 0
  {
  }
}
