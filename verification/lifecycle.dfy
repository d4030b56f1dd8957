/** The attempt lifecycle of `ExamsController`: starting an attempt, saving
    partial answers and submitting. Each request is one atomic step from a
    store to a new store and an HTTP-style result; the clock is the `now`
    parameter. */
module Lifecycle {
  import opened Common
  import opened Models
  import opened Seqs
  import opened Scoring

  /** The persisted state the actions read and write: the exam catalog, the
      attempts table in insertion order, and the key the database hands out
      to the next attempt. */
  datatype Store = Store(exams: seq<Exam>, attempts: seq<Attempt>, nextAttemptId: int)

  /** Why a request was refused with `BadRequest`. */
  datatype Reason = NotCurrentlyAvailable | MaxAttemptsReached(maxAttempts: int) | AlreadySubmitted

  /** The error results of the actions. */
  datatype ActionError = NotFound | BadRequest(reason: Reason) | Unauthorized

  /** The availability window; both ends are inclusive. */
  predicate InWindow(e: Exam, now: Instant) {
    e.startTime <= now <= e.endTime
  }

  /** How many attempts (submitted or not) the student has on the exam. */
  function AttemptCount(attempts: seq<Attempt>, student: string, examId: int): nat
    decreases |attempts|
  {
    if |attempts| == 0 then 0
    else
      var a := attempts[|attempts| - 1];
      AttemptCount(attempts[..|attempts| - 1], student, examId)
        + (if a.studentId == student && a.examId == examId then 1 else 0)
  }

  /** How many of those attempts are submitted. */
  function SubmittedCount(attempts: seq<Attempt>, student: string, examId: int): nat
    decreases |attempts|
  {
    if |attempts| == 0 then 0
    else
      var a := attempts[|attempts| - 1];
      SubmittedCount(attempts[..|attempts| - 1], student, examId)
        + (if a.studentId == student && a.examId == examId && a.IsSubmitted() then 1 else 0)
  }

  function AttemptIdOf(a: Attempt): int {
    a.id
  }

  /** `FirstOrDefault(a => a.Id == id)` on the attempts table, as a
      position. */
  function FindAttempt(attempts: seq<Attempt>, id: int): (r: Option<nat>)
    ensures r.Some? ==> r.value < |attempts| && attempts[r.value].id == id
    ensures r.None? <==> forall a :: a in attempts ==> a.id != id
  {
    var ids := Map(attempts, AttemptIdOf);
    var r := FirstIndex(ids, id);
    assert r.None? ==> forall a :: a in attempts ==> AttemptIdOf(a) in ids;
    r
  }

  /** The reply of a successful start. */
  datatype StartReply = StartReply(attemptId: int, endTime: Instant, remainingAttempts: int)

  /** `StartAttempt`: checks the window and the attempt cap, then records a
      fresh attempt whose deadline is `now` plus the exam's duration. The
      exam's published flag is not consulted. */
  function StartAttempt(s: Store, student: string, examId: int, now: Instant)
    : (r: (Store, Result<StartReply, ActionError>))
    ensures r.1 == Failure(NotFound) <==> FindExam(s.exams, examId).None?
    ensures r.1 == Failure(BadRequest(NotCurrentlyAvailable)) <==>
              FindExam(s.exams, examId).Some? && !InWindow(FindExam(s.exams, examId).value, now)
    ensures r.1.Success? <==>
              && FindExam(s.exams, examId).Some?
              && InWindow(FindExam(s.exams, examId).value, now)
              && AttemptCount(s.attempts, student, examId) < FindExam(s.exams, examId).value.maxAttempts
    ensures FindExam(s.exams, examId).Some? ==>
              var e := FindExam(s.exams, examId).value;
              (r.1 == Failure(BadRequest(MaxAttemptsReached(e.maxAttempts))) <==>
                 InWindow(e, now) && AttemptCount(s.attempts, student, examId) >= e.maxAttempts)
    ensures r.1.Failure? ==> r.0 == s
    ensures r.1.Success? ==> |r.0.attempts| == |s.attempts| + 1
    ensures r.1.Success? ==>
              var e := FindExam(s.exams, examId).value;
              var a := r.0.attempts[|s.attempts|];
              && r.0.exams == s.exams
              && r.0.attempts == s.attempts + [a]
              && r.0.nextAttemptId == s.nextAttemptId + 1
              && a.id == s.nextAttemptId == r.1.value.attemptId
              && a.studentId == student && a.examId == examId
              && a.startTime == now
              && a.endTime == now + e.durationMinutes == r.1.value.endTime
              && !a.IsSubmitted() && a.score == 0.0 && a.answers == []
              && AttemptCount(r.0.attempts, student, examId)
                   == AttemptCount(s.attempts, student, examId) + 1 <= e.maxAttempts
              && r.1.value.remainingAttempts
                   == e.maxAttempts - AttemptCount(r.0.attempts, student, examId) >= 0
  {
    match FindExam(s.exams, examId)
    case None => (s, Failure(NotFound))
    case Some(e) =>
      if now < e.startTime || now > e.endTime then
        (s, Failure(BadRequest(NotCurrentlyAvailable)))
      else
        var count := AttemptCount(s.attempts, student, examId);
        if count >= e.maxAttempts then
          (s, Failure(BadRequest(MaxAttemptsReached(e.maxAttempts))))
        else
          var a := NewAttempt(s.nextAttemptId, student, examId, now, now + e.durationMinutes);
          var attempts' := s.attempts + [a];
          assert attempts'[..|attempts'| - 1] == s.attempts;
          (Store(s.exams, attempts', s.nextAttemptId + 1),
           Success(StartReply(a.id, a.endTime, e.maxAttempts - count - 1)))
  }

  /** `SavePartialAnswers`: replaces the attempt's answers with exactly the
      supplied list and replies with the server time. Neither the caller nor
      the submitted state is checked. */
  function SavePartialAnswers(s: Store, attemptId: int, answers: seq<StudentAnswer>, now: Instant)
    : (r: (Store, Result<Instant, ActionError>))
    ensures r.1.Failure? <==> FindAttempt(s.attempts, attemptId).None?
    ensures r.1.Failure? ==> r == (s, Failure(NotFound))
    ensures r.1.Success? ==>
              var i := FindAttempt(s.attempts, attemptId).value;
              && r.1.value == now
              && r.0.exams == s.exams && r.0.nextAttemptId == s.nextAttemptId
              && |r.0.attempts| == |s.attempts|
              && r.0.attempts[i].answers == answers
              && r.0.attempts[i] == s.attempts[i].(answers := answers)
              && forall j :: 0 <= j < |s.attempts| && j != i ==> r.0.attempts[j] == s.attempts[j]
  {
    match FindAttempt(s.attempts, attemptId)
    case None => (s, Failure(NotFound))
    case Some(i) =>
      var a := s.attempts[i];
      (s.(attempts := s.attempts[i := a.(answers := answers)]), Success(now))
  }

  /** The reply of a successful submission. */
  datatype SubmitReply = SubmitReply(score: real, totalScore: real,
                                     answers: seq<AnswerResult>, remainingAttempts: int)

  /** `SubmitAttempt`: refuses a missing attempt, then an already submitted
      one, then another student's; otherwise scores the supplied answers and
      records the score and the submission time. The supplied answers are not
      stored, and the attempt's deadline is not compared with `now`. The
      attempt is loaded together with its exam (an inner join), so an
      attempt whose exam is missing is not found; attempt keys are primary
      keys, so the first attempt with the key is the only one. */
  function SubmitAttempt(s: Store, attemptId: int, caller: string,
                         answers: seq<StudentAnswer>, now: Instant)
    : (r: (Store, Result<SubmitReply, ActionError>))
    ensures r.1 == Failure(NotFound) <==>
              FindAttempt(s.attempts, attemptId).None? ||
              FindExam(s.exams, s.attempts[FindAttempt(s.attempts, attemptId).value].examId).None?
    ensures r.1 == Failure(BadRequest(AlreadySubmitted)) <==>
              FindAttempt(s.attempts, attemptId).Some? &&
              var a := s.attempts[FindAttempt(s.attempts, attemptId).value];
              FindExam(s.exams, a.examId).Some? && a.IsSubmitted()
    ensures r.1 == Failure(Unauthorized) <==>
              FindAttempt(s.attempts, attemptId).Some? &&
              var a := s.attempts[FindAttempt(s.attempts, attemptId).value];
              FindExam(s.exams, a.examId).Some? && !a.IsSubmitted() && a.studentId != caller
    ensures r.1.Success? <==>
              FindAttempt(s.attempts, attemptId).Some? &&
              var a := s.attempts[FindAttempt(s.attempts, attemptId).value];
              !a.IsSubmitted() && a.studentId == caller && FindExam(s.exams, a.examId).Some?
    ensures r.1.Failure? ==> r.0 == s
    ensures r.1.Success? ==>
              var i := FindAttempt(s.attempts, attemptId).value;
              var a := s.attempts[i];
              var e := FindExam(s.exams, a.examId).value;
              && r.0.exams == s.exams && r.0.nextAttemptId == s.nextAttemptId
              && |r.0.attempts| == |s.attempts|
              && r.0.attempts[i] == a.(score := Score(e, answers), submittedTime := Some(now))
              && (forall j :: 0 <= j < |s.attempts| && j != i ==> r.0.attempts[j] == s.attempts[j])
              && r.1.value.score == Score(e, answers)
              && r.1.value.totalScore == TotalPoints(e)
              && r.1.value.answers == Grade(e, answers)
              && r.1.value.remainingAttempts
                   == e.maxAttempts - SubmittedCount(r.0.attempts, caller, a.examId)
  {
    match FindAttempt(s.attempts, attemptId)
    case None => (s, Failure(NotFound))
    case Some(i) =>
      var a := s.attempts[i];
      match FindExam(s.exams, a.examId)
      case None => (s, Failure(NotFound))
      case Some(e) =>
        if a.IsSubmitted() then (s, Failure(BadRequest(AlreadySubmitted)))
        else if a.studentId != caller then (s, Failure(Unauthorized))
        else
          var score := Score(e, answers);
          var s' := s.(attempts := s.attempts[i := a.(score := score, submittedTime := Some(now))]);
          (s', Success(SubmitReply(score, TotalPoints(e), Grade(e, answers),
                                   e.maxAttempts - SubmittedCount(s'.attempts, caller, a.examId))))
  }

  // ---------------------------------------------------------------------
  // Store invariants

  /** Attempt keys are below the next key the database hands out. */
  predicate KeysFresh(s: Store) {
    forall i :: 0 <= i < |s.attempts| ==> s.attempts[i].id < s.nextAttemptId
  }

  /** Attempt keys are unique. */
  predicate KeysUnique(s: Store) {
    forall i, j :: 0 <= i < j < |s.attempts| ==> s.attempts[i].id != s.attempts[j].id
  }

  /** No student holds more attempts on an exam than the exam allows. */
  predicate WithinCap(s: Store, a: Attempt) {
    match FindExam(s.exams, a.examId)
    case None => true
    case Some(e) => AttemptCount(s.attempts, a.studentId, a.examId) <= e.maxAttempts
  }

  predicate CapRespected(s: Store) {
    forall i :: 0 <= i < |s.attempts| ==> WithinCap(s, s.attempts[i])
  }

  predicate Valid(s: Store) {
    KeysFresh(s) && KeysUnique(s) && CapRespected(s)
  }

  /** Appending an attempt adds one to its own (student, exam) count and
      leaves every other count alone. */
  lemma AttemptCountAppend(attempts: seq<Attempt>, a: Attempt, student: string, examId: int)
    ensures AttemptCount(attempts + [a], student, examId)
            == AttemptCount(attempts, student, examId)
               + (if a.studentId == student && a.examId == examId then 1 else 0)
  {
    assert (attempts + [a])[..|attempts|] == attempts;
  }

  /** Replacing an attempt by one with the same student and exam keeps every
      count. */
  lemma {:induction false} AttemptCountUpdate(attempts: seq<Attempt>, i: nat, v: Attempt,
                                             student: string, examId: int)
    requires i < |attempts|
    requires v.studentId == attempts[i].studentId && v.examId == attempts[i].examId
    ensures AttemptCount(attempts[i := v], student, examId) == AttemptCount(attempts, student, examId)
    decreases |attempts|
  {
    var n := |attempts|;
    if i < n - 1 {
      assert attempts[i := v][..n - 1] == attempts[..n - 1][i := v];
      AttemptCountUpdate(attempts[..n - 1], i, v, student, examId);
    } else {
      assert attempts[i := v][..n - 1] == attempts[..n - 1];
    }
  }

  /** Submitted attempts are among the attempts. */
  lemma {:induction false} SubmittedAtMostStarted(attempts: seq<Attempt>, student: string, examId: int)
    ensures SubmittedCount(attempts, student, examId) <= AttemptCount(attempts, student, examId)
    decreases |attempts|
  {
    if |attempts| > 0 {
      SubmittedAtMostStarted(attempts[..|attempts| - 1], student, examId);
    }
  }

  /** A start never pushes a student past an exam's cap, and keeps the keys
      fresh and unique. */
  lemma StartPreservesValid(s: Store, student: string, examId: int, now: Instant)
    requires Valid(s)
    ensures Valid(StartAttempt(s, student, examId, now).0)
  {
    var r := StartAttempt(s, student, examId, now);
    if r.1.Success? {
      var s' := r.0;
      var a := s'.attempts[|s.attempts|];
      forall i | 0 <= i < |s'.attempts|
        ensures WithinCap(s', s'.attempts[i])
      {
        var b := s'.attempts[i];
        AttemptCountAppend(s.attempts, a, b.studentId, b.examId);
        if i < |s.attempts| {
          assert WithinCap(s, s.attempts[i]);
        }
      }
    }
  }

  /** Saving answers changes no count and no key. */
  lemma SavePreservesValid(s: Store, attemptId: int, answers: seq<StudentAnswer>, now: Instant)
    requires Valid(s)
    ensures Valid(SavePartialAnswers(s, attemptId, answers, now).0)
  {
    var r := SavePartialAnswers(s, attemptId, answers, now);
    if r.1.Success? {
      var i := FindAttempt(s.attempts, attemptId).value;
      var s' := r.0;
      assert s'.attempts == s.attempts[i := s'.attempts[i]];
      forall j | 0 <= j < |s'.attempts|
        ensures WithinCap(s', s'.attempts[j])
      {
        var b := s'.attempts[j];
        AttemptCountUpdate(s.attempts, i, s'.attempts[i], b.studentId, b.examId);
        assert WithinCap(s, s.attempts[j]);
      }
    }
  }

  /** Submitting changes no count and no key. */
  lemma SubmitPreservesValid(s: Store, attemptId: int, caller: string,
                             answers: seq<StudentAnswer>, now: Instant)
    requires Valid(s)
    ensures Valid(SubmitAttempt(s, attemptId, caller, answers, now).0)
  {
    var r := SubmitAttempt(s, attemptId, caller, answers, now);
    if r.1.Success? {
      var i := FindAttempt(s.attempts, attemptId).value;
      var s' := r.0;
      assert s'.attempts == s.attempts[i := s'.attempts[i]];
      forall j | 0 <= j < |s'.attempts|
        ensures WithinCap(s', s'.attempts[j])
      {
        var b := s'.attempts[j];
        AttemptCountUpdate(s.attempts, i, s'.attempts[i], b.studentId, b.examId);
        assert WithinCap(s, s.attempts[j]);
      }
    }
  }

  /** Under the cap invariant the remaining-attempts count a submission
      reports is never negative. */
  lemma SubmitRemainingNonNegative(s: Store, attemptId: int, caller: string,
                                   answers: seq<StudentAnswer>, now: Instant)
    requires CapRespected(s)
    ensures var r := SubmitAttempt(s, attemptId, caller, answers, now);
            r.1.Success? ==> r.1.value.remainingAttempts >= 0
  {
    var r := SubmitAttempt(s, attemptId, caller, answers, now);
    if r.1.Success? {
      var i := FindAttempt(s.attempts, attemptId).value;
      var a := s.attempts[i];
      assert WithinCap(s, a);
      assert r.0.attempts == s.attempts[i := r.0.attempts[i]];
      AttemptCountUpdate(s.attempts, i, r.0.attempts[i], caller, a.examId);
      SubmittedAtMostStarted(r.0.attempts, caller, a.examId);
    }
  }

  /** A second submission of the same attempt is refused and changes
      nothing: the stored score and submission time stay those of the
      first. */
  lemma SubmitOnlyOnce(s: Store, attemptId: int, caller: string, answers: seq<StudentAnswer>,
                       now: Instant, caller2: string, answers2: seq<StudentAnswer>, later: Instant)
    requires SubmitAttempt(s, attemptId, caller, answers, now).1.Success?
    ensures var s1 := SubmitAttempt(s, attemptId, caller, answers, now).0;
            SubmitAttempt(s1, attemptId, caller2, answers2, later)
              == (s1, Failure(BadRequest(AlreadySubmitted)))
  {
    var s1 := SubmitAttempt(s, attemptId, caller, answers, now).0;
    var i := FindAttempt(s.attempts, attemptId).value;
    assert Map(s1.attempts, AttemptIdOf) == Map(s.attempts, AttemptIdOf);
    assert FindAttempt(s1.attempts, attemptId) == Some(i);
  }

  /** Saving the same answers twice is the same as saving them once. */
  lemma SaveIdempotent(s: Store, attemptId: int, answers: seq<StudentAnswer>, now: Instant, later: Instant)
    ensures var s1 := SavePartialAnswers(s, attemptId, answers, now).0;
            SavePartialAnswers(s1, attemptId, answers, later).0 == s1
  {
    var r := SavePartialAnswers(s, attemptId, answers, now);
    if r.1.Success? {
      var i := FindAttempt(s.attempts, attemptId).value;
      assert Map(r.0.attempts, AttemptIdOf) == Map(s.attempts, AttemptIdOf);
      assert FindAttempt(r.0.attempts, attemptId) == Some(i);
    }
  }

  /** Saving still succeeds, and still replaces the answers, once the attempt
      is submitted. */
  lemma SaveAfterSubmitAccepted(s: Store, attemptId: int, caller: string,
                                answers: seq<StudentAnswer>, now: Instant,
                                saved: seq<StudentAnswer>, later: Instant)
    requires SubmitAttempt(s, attemptId, caller, answers, now).1.Success?
    ensures var s1 := SubmitAttempt(s, attemptId, caller, answers, now).0;
            var r := SavePartialAnswers(s1, attemptId, saved, later);
            && r.1 == Success(later)
            && r.0.attempts[FindAttempt(s1.attempts, attemptId).value].IsSubmitted()
            && r.0.attempts[FindAttempt(s1.attempts, attemptId).value].answers == saved
  {
    var s1 := SubmitAttempt(s, attemptId, caller, answers, now).0;
    var i := FindAttempt(s.attempts, attemptId).value;
    assert Map(s1.attempts, AttemptIdOf) == Map(s.attempts, AttemptIdOf);
    assert FindAttempt(s1.attempts, attemptId) == Some(i);
  }

  /** The stored deadline plays no part in submission: an attempt submitted
      after its deadline is scored like any other. */
  lemma LateSubmissionAccepted(s: Store, attemptId: int, caller: string,
                               answers: seq<StudentAnswer>, now: Instant)
    requires FindAttempt(s.attempts, attemptId).Some?
    requires var a := s.attempts[FindAttempt(s.attempts, attemptId).value];
             !a.IsSubmitted() && a.studentId == caller && FindExam(s.exams, a.examId).Some?
             && now > a.endTime
    ensures SubmitAttempt(s, attemptId, caller, answers, now).1.Success?
  {
  }

  /** The remaining count a submission reports counts only submitted
      attempts, while a start counts all of them: with a cap of two and two
      attempts started, submitting the first reports one attempt left although
      a third start is refused. */
  lemma SubmitRemainingDiffersFromStart()
    ensures var e := Exam(1, "Quiz", "edu", 30, 0, 100, true, 2, []);
            var s0 := Store([e], [], 1);
            var s1 := StartAttempt(s0, "stu", 1, 10).0;
            var s2 := StartAttempt(s1, "stu", 1, 11).0;
            var sub := SubmitAttempt(s2, 1, "stu", [], 12);
            && sub.1.Success? && sub.1.value.remainingAttempts == 1
            && StartAttempt(sub.0, "stu", 1, 13).1 == Failure(BadRequest(MaxAttemptsReached(2)))
  {
    var e := Exam(1, "Quiz", "edu", 30, 0, 100, true, 2, []);
    var a1 := NewAttempt(1, "stu", 1, 10, 40);
    var a2 := NewAttempt(2, "stu", 1, 11, 41);
    var a1' := a1.(score := 0.0, submittedTime := Some(12));
    TwoStarts(e);
    SubmitFirstOfTwo(e, a1, a2);
    CapCountsUnsubmitted(e, a1', a2);
  }

  lemma TwoStarts(e: Exam)
    requires e == Exam(1, "Quiz", "edu", 30, 0, 100, true, 2, [])
    ensures StartAttempt(StartAttempt(Store([e], [], 1), "stu", 1, 10).0, "stu", 1, 11).0
            == Store([e], [NewAttempt(1, "stu", 1, 10, 40), NewAttempt(2, "stu", 1, 11, 41)], 3)
  {
    var s0 := Store([e], [], 1);
    assert FindExam(s0.exams, 1) == Some(e);
    assert AttemptCount(s0.attempts, "stu", 1) == 0;
    var a1 := NewAttempt(1, "stu", 1, 10, 40);
    var s1 := StartAttempt(s0, "stu", 1, 10).0;
    assert s1 == Store([e], [a1], 2);
    assert AttemptCount(s1.attempts, "stu", 1) == 1;
  }

  lemma SubmitFirstOfTwo(e: Exam, a1: Attempt, a2: Attempt)
    requires e == Exam(1, "Quiz", "edu", 30, 0, 100, true, 2, [])
    requires a1 == NewAttempt(1, "stu", 1, 10, 40) && a2 == NewAttempt(2, "stu", 1, 11, 41)
    ensures var sub := SubmitAttempt(Store([e], [a1, a2], 3), 1, "stu", [], 12);
            && sub.0 == Store([e], [a1.(score := 0.0, submittedTime := Some(12)), a2], 3)
            && sub.1.Success? && sub.1.value.remainingAttempts == 1
  {
    var s2 := Store([e], [a1, a2], 3);
    assert FindAttempt(s2.attempts, 1) == Some(0) by {
      assert Map(s2.attempts, AttemptIdOf) == [1, 2];
    }
    assert FindExam(s2.exams, 1) == Some(e);
    var a1' := a1.(score := 0.0, submittedTime := Some(12));
    assert [a1', a2][..1] == [a1'];
    assert [a1'][..0] == [];
    assert SubmittedCount([a1'], "stu", 1) == 1;
    assert SubmittedCount([a1', a2], "stu", 1) == 1;
  }

  lemma CapCountsUnsubmitted(e: Exam, a1: Attempt, a2: Attempt)
    requires e == Exam(1, "Quiz", "edu", 30, 0, 100, true, 2, [])
    requires a1.studentId == "stu" && a1.examId == 1 && a2.studentId == "stu" && a2.examId == 1
    ensures StartAttempt(Store([e], [a1, a2], 3), "stu", 1, 13).1 == Failure(BadRequest(MaxAttemptsReached(2)))
  {
    assert FindExam([e], 1) == Some(e);
    assert [a1, a2][..1] == [a1];
    assert [a1][..0] == [];
    assert AttemptCount([a1], "stu", 1) == 1;
    assert AttemptCount([a1, a2], "stu", 1) == 2;
  }

  // ---------------------------------------------------------------------
  // Sequences of requests

  /** One request to the lifecycle actions. */
  datatype Request =
    | Start(student: string, examId: int, startAt: Instant)
    | Save(saveId: int, saved: seq<StudentAnswer>, saveAt: Instant)
    | Submit(submitId: int, caller: string, submitted: seq<StudentAnswer>, submitAt: Instant)

  function Step(s: Store, req: Request): Store {
    match req
    case Start(student, examId, now) => StartAttempt(s, student, examId, now).0
    case Save(id, answers, now) => SavePartialAnswers(s, id, answers, now).0
    case Submit(id, caller, answers, now) => SubmitAttempt(s, id, caller, answers, now).0
  }

  /** The store after serving the requests one after another. */
  function Run(s: Store, reqs: seq<Request>): Store
    decreases |reqs|
  {
    if |reqs| == 0 then s else Run(Step(s, reqs[0]), reqs[1..])
  }

  /** Served one at a time, no sequence of requests lets a student hold more
      attempts on an exam than its cap, nor reuses an attempt key. */
  lemma {:induction false} RunPreservesValid(s: Store, reqs: seq<Request>)
    requires Valid(s)
    ensures Valid(Run(s, reqs))
    decreases |reqs|
  {
    if |reqs| > 0 {
      match reqs[0] {
        case Start(student, examId, now) => StartPreservesValid(s, student, examId, now);
        case Save(id, answers, now) => SavePreservesValid(s, id, answers, now);
        case Submit(id, caller, answers, now) => SubmitPreservesValid(s, id, caller, answers, now);
      }
      RunPreservesValid(Step(s, reqs[0]), reqs[1..]);
    }
  }
}
