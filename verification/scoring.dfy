/** Automatic scoring of a submission (the loop inside `SubmitAttempt`): each
    answer is matched to a question of the exam, compared with that
    question's first correct option, and the question's points are awarded
    when they agree. */
module Scoring {
  import opened Common
  import opened Models

  /** Index of the first option flagged correct, or null when none is. */
  function FirstCorrect(options: seq<AnswerOption>): (r: Option<nat>)
    ensures r.Some? ==> r.value < |options| && options[r.value].isCorrect
    ensures r.Some? ==> forall j :: 0 <= j < r.value ==> !options[j].isCorrect
    ensures r.None? <==> forall j :: 0 <= j < |options| ==> !options[j].isCorrect
  {
    if |options| == 0 then None
    else if options[0].isCorrect then Some(0)
    else
      match FirstCorrect(options[1..])
      case None => None
      case Some(k) => Some(k + 1)
  }

  /** The id of the question's first correct option, or null when it has
      none. */
  function CorrectOptionId(q: Question): Option<int> {
    match FirstCorrect(q.options)
    case None => None
    case Some(k) => Some(q.options[k].id)
  }

  /** The comparison uses C#'s lifted equality on `int?`: two nulls are
      equal, a null and a value are not. */
  predicate IsCorrect(q: Question, selected: Option<int>) {
    selected == CorrectOptionId(q)
  }

  function FindQuestionIn(questions: seq<Question>, id: int): (r: Option<Question>)
    ensures r.Some? ==> r.value in questions && r.value.id == id
    ensures r.None? <==> forall q :: q in questions ==> q.id != id
  {
    if |questions| == 0 then None
    else if questions[0].id == id then Some(questions[0])
    else FindQuestionIn(questions[1..], id)
  }

  /** The first question of the exam with the given id. */
  function FindQuestion(e: Exam, id: int): Option<Question> {
    FindQuestionIn(e.questions, id)
  }

  /** One entry of the per-answer breakdown returned to the client. */
  datatype AnswerResult = AnswerResult(questionId: int, selectedOptionId: Option<int>,
                                       isCorrect: bool)

  /** The breakdown entry for one answer, or null when the answer names no
      question of the exam (such answers are skipped). */
  function Judge(e: Exam, a: StudentAnswer): Option<AnswerResult> {
    match FindQuestion(e, a.questionId)
    case None => None
    case Some(q) => Some(AnswerResult(a.questionId, a.selectedOptionId,
                                      IsCorrect(q, a.selectedOptionId)))
  }

  /** Points one answer earns. */
  function Earned(e: Exam, a: StudentAnswer): real {
    match FindQuestion(e, a.questionId)
    case None => 0.0
    case Some(q) => if IsCorrect(q, a.selectedOptionId) then q.points else 0.0
  }

  /** The score of a list of answers: the points earned, summed in order. */
  function Score(e: Exam, answers: seq<StudentAnswer>): real
    decreases |answers|
  {
    if |answers| == 0 then 0.0
    else Score(e, answers[..|answers| - 1]) + Earned(e, answers[|answers| - 1])
  }

  /** The breakdown: one entry per answer that names a question of the exam,
      in input order. */
  function Grade(e: Exam, answers: seq<StudentAnswer>): seq<AnswerResult>
    decreases |answers|
  {
    if |answers| == 0 then []
    else
      var init := Grade(e, answers[..|answers| - 1]);
      match Judge(e, answers[|answers| - 1])
      case None => init
      case Some(r) => init + [r]
  }

  /** The answers that name a question of the exam, in input order. */
  function KnownAnswers(e: Exam, answers: seq<StudentAnswer>): (k: seq<StudentAnswer>)
    ensures forall a :: a in k <==> a in answers && FindQuestion(e, a.questionId).Some?
    decreases |answers|
  {
    if |answers| == 0 then []
    else
      var init := KnownAnswers(e, answers[..|answers| - 1]);
      var a := answers[|answers| - 1];
      assert forall b :: b in answers <==> b in answers[..|answers| - 1] || b == a;
      if FindQuestion(e, a.questionId).Some? then init + [a] else init
  }

  function SumPoints(questions: seq<Question>): real
    decreases |questions|
  {
    if |questions| == 0 then 0.0
    else SumPoints(questions[..|questions| - 1]) + questions[|questions| - 1].points
  }

  /** `Questions.Sum(q => q.Points)`: the exam's total possible score. */
  function TotalPoints(e: Exam): real {
    SumPoints(e.questions)
  }

  /** The scoring loop of `SubmitAttempt`, one pass over the answers. */
  method ScoreAnswers(e: Exam, answers: seq<StudentAnswer>)
    returns (score: real, results: seq<AnswerResult>)
    ensures score == Score(e, answers)
    ensures results == Grade(e, answers)
  {
    score := 0.0;
    results := [];
    var i := 0;
    while i < |answers|
      invariant 0 <= i <= |answers|
      invariant score == Score(e, answers[..i])
      invariant results == Grade(e, answers[..i])
    {
      var ans := answers[i];
      match FindQuestion(e, ans.questionId) {
        case None =>
        case Some(q) =>
          var ok := ans.selectedOptionId == CorrectOptionId(q);
          if ok {
            score := score + q.points;
          }
          results := results + [AnswerResult(ans.questionId, ans.selectedOptionId, ok)];
      }
      assert answers[..i + 1][..i] == answers[..i];
      i := i + 1;
    }
    assert answers[..|answers|] == answers;
  }

  /** Scores add up over concatenated answer lists. */
  lemma {:induction false} ScoreAppend(e: Exam, a: seq<StudentAnswer>, b: seq<StudentAnswer>)
    ensures Score(e, a + b) == Score(e, a) + Score(e, b)
    decreases |b|
  {
    if |b| == 0 {
      assert a + b == a;
    } else {
      var b' := b[..|b| - 1];
      assert (a + b)[..|a + b| - 1] == a + b';
      ScoreAppend(e, a, b');
    }
  }

  /** Breakdowns concatenate likewise. */
  lemma {:induction false} GradeAppend(e: Exam, a: seq<StudentAnswer>, b: seq<StudentAnswer>)
    ensures Grade(e, a + b) == Grade(e, a) + Grade(e, b)
    decreases |b|
  {
    if |b| == 0 {
      assert a + b == a;
    } else {
      var b' := b[..|b| - 1];
      assert (a + b)[..|a + b| - 1] == a + b';
      GradeAppend(e, a, b');
    }
  }

  /** Answers naming no question of the exam change neither the score nor
      the breakdown; the breakdown has exactly one entry per remaining
      answer, in order, carrying its question, selection and verdict. */
  lemma {:induction false} UnknownAnswersSkipped(e: Exam, answers: seq<StudentAnswer>)
    ensures Score(e, answers) == Score(e, KnownAnswers(e, answers))
    ensures var k := KnownAnswers(e, answers);
            var g := Grade(e, answers);
            |g| == |k| &&
            forall i :: 0 <= i < |k| ==>
              FindQuestion(e, k[i].questionId).Some? &&
              g[i] == AnswerResult(k[i].questionId, k[i].selectedOptionId,
                                   IsCorrect(FindQuestion(e, k[i].questionId).value,
                                             k[i].selectedOptionId))
    decreases |answers|
  {
    if |answers| > 0 {
      var init := answers[..|answers| - 1];
      var a := answers[|answers| - 1];
      UnknownAnswersSkipped(e, init);
      var ki := KnownAnswers(e, init);
      if FindQuestion(e, a.questionId).Some? {
        assert KnownAnswers(e, answers) == ki + [a];
        ScoreAppend(e, ki, [a]);
        assert [a][..0] == [];
      }
    }
  }

  /** The score does not depend on the order of the answers, and every
      duplicate counts: any rearrangement of the same answers scores the
      same. */
  lemma {:induction false} ScorePermutation(e: Exam, a: seq<StudentAnswer>, b: seq<StudentAnswer>)
    requires multiset(a) == multiset(b)
    ensures Score(e, a) == Score(e, b)
    decreases |a|
  {
    if |a| == 0 {
      assert |b| == |multiset(b)| == 0;
    } else {
      var x := a[|a| - 1];
      var a' := a[..|a| - 1];
      assert a == a' + [x];
      assert x in multiset(b);
      var k :| 0 <= k < |b| && b[k] == x;
      var b' := b[..k] + b[k + 1..];
      RemoveOne(a', x, b, k);
      ScorePermutation(e, a', b');
      ScoreAppend(e, a', [x]);
      ScoreWithout(e, b, k);
    }
  }

  /** Taking the same element out of two equal multisets keeps them equal. */
  lemma RemoveOne<T>(a: seq<T>, x: T, b: seq<T>, k: nat)
    requires k < |b| && b[k] == x
    requires multiset(a + [x]) == multiset(b)
    ensures multiset(a) == multiset(b[..k] + b[k + 1..])
  {
    var b' := b[..k] + b[k + 1..];
    assert b == b[..k] + [x] + b[k + 1..];
    assert multiset(b) == multiset(b[..k]) + multiset([x]) + multiset(b[k + 1..]);
    assert multiset(b') == multiset(b[..k]) + multiset(b[k + 1..]);
    assert multiset(a + [x]) == multiset(a) + multiset([x]);
    forall y ensures multiset(a)[y] == multiset(b')[y] {
      assert multiset(b)[y] == multiset(b')[y] + multiset([x])[y];
    }
  }

  /** The score of a list is the score without one answer plus that
      answer's. */
  lemma ScoreWithout(e: Exam, b: seq<StudentAnswer>, k: nat)
    requires k < |b|
    ensures Score(e, b) == Score(e, b[..k] + b[k + 1..]) + Score(e, [b[k]])
  {
    assert b == b[..k] + [b[k]] + b[k + 1..];
    ScoreAppend(e, b[..k], b[k + 1..]);
    ScoreAppend(e, b[..k] + [b[k]], b[k + 1..]);
    ScoreAppend(e, b[..k], [b[k]]);
  }

  /** A duplicated answer is counted once per occurrence. */
  lemma DuplicateAnswersEachCount(e: Exam, a: StudentAnswer)
    ensures Score(e, [a, a]) == 2.0 * Earned(e, a)
  {
    assert [a, a][..1] == [a];
    assert [a][..0] == [];
    assert Score(e, [a]) == Earned(e, a);
  }

  /** For a question with no option flagged correct, an answer is judged
      correct exactly when it selects nothing. */
  lemma NoCorrectOptionMeansNullWins(q: Question, selected: Option<int>)
    requires forall o :: o in q.options ==> !o.isCorrect
    ensures IsCorrect(q, selected) <==> selected.None?
  {
  }

  /** With non-negative points no submission scores below zero. */
  lemma {:induction false} ScoreNonNegative(e: Exam, answers: seq<StudentAnswer>)
    requires forall q :: q in e.questions ==> q.points >= 0.0
    ensures Score(e, answers) >= 0.0
    decreases |answers|
  {
    if |answers| > 0 {
      ScoreNonNegative(e, answers[..|answers| - 1]);
    }
  }

  /** The worked example: two one-point questions whose correct options are
      1 and 3, answered with options 1 and 4. */
  lemma TwoQuestionExample()
    ensures var e := Exam(7, "Quiz", "edu", 30, 0, 100, true, 1,
                          [Question(1, 7, "q1", MCQ, 1.0,
                                    [AnswerOption(1, "a", true), AnswerOption(2, "b", false)]),
                           Question(2, 7, "q2", MCQ, 1.0,
                                    [AnswerOption(3, "c", true), AnswerOption(4, "d", false)])]);
            var answers := [StudentAnswer(1, Some(1)), StudentAnswer(2, Some(4))];
            Score(e, answers) == 1.0 && TotalPoints(e) == 2.0 &&
            Grade(e, answers) == [AnswerResult(1, Some(1), true), AnswerResult(2, Some(4), false)]
  {
    var e := Exam(7, "Quiz", "edu", 30, 0, 100, true, 1,
                  [Question(1, 7, "q1", MCQ, 1.0,
                            [AnswerOption(1, "a", true), AnswerOption(2, "b", false)]),
                   Question(2, 7, "q2", MCQ, 1.0,
                            [AnswerOption(3, "c", true), AnswerOption(4, "d", false)])]);
    var answers := [StudentAnswer(1, Some(1)), StudentAnswer(2, Some(4))];
    assert answers[..1] == [StudentAnswer(1, Some(1))];
    assert answers[..1][..0] == [];
    assert e.questions[..1][..0] == [];
    assert CorrectOptionId(e.questions[0]) == Some(1);
    assert CorrectOptionId(e.questions[1]) == Some(3);
    assert FindQuestion(e, 1) == Some(e.questions[0]);
    assert FindQuestion(e, 2) == Some(e.questions[1]);
    assert Earned(e, answers[0]) == 1.0;
    assert Earned(e, answers[1]) == 0.0;
    assert Score(e, answers[..1]) == 1.0;
    assert Grade(e, answers[..1]) == [AnswerResult(1, Some(1), true)];
    assert e.questions[..1] == [e.questions[0]];
    assert SumPoints(e.questions[..1]) == 1.0;
    assert TotalPoints(e) == 2.0;
    assert Score(e, answers) == 1.0;
    assert Grade(e, answers) == [AnswerResult(1, Some(1), true), AnswerResult(2, Some(4), false)];
  }
}
