/** Which exams a student sees: the filter of `StudentsController.AvailableExams`
    and the looser one of `ExamRepository.GetAvailableExamsForStudentAsync`,
    plus the `MyResults` filter. The clock is the `now` parameter, and the
    signed-in user is whatever the identity layer resolves (null when it
    resolves nobody). */
module Availability {
  import opened Common
  import opened Models
  import opened Seqs
  import opened Lifecycle

  /** The university of the exam's creator as the joined query sees it:
      null when the creator row is missing or has no university. */
  function CreatorUniversity(users: seq<User>, e: Exam): Option<string> {
    match FindUser(users, e.creatorId)
    case None => None
    case Some(c) => c.university
  }

  /** The `StudentsController` filter: published, inside the window, with an
      existing creator whose university equals the student's (two nulls are
      equal, as in C#). */
  predicate ListedFor(users: seq<User>, e: Exam, university: Option<string>, now: Instant) {
    && e.isPublished
    && e.startTime <= now && e.endTime >= now
    && FindUser(users, e.creatorId).Some?
    && FindUser(users, e.creatorId).value.university == university
  }

  /** `AvailableExams`: Unauthorized without a signed-in user, otherwise the
      catalog's exams that pass `ListedFor`, in catalog order. */
  function AvailableExams(users: seq<User>, exams: seq<Exam>, currentUser: Option<User>, now: Instant)
    : (r: Result<seq<Exam>, ActionError>)
    ensures currentUser.None? <==> r.Failure?
    ensures r.Failure? ==> r.error == Unauthorized
    ensures r.Success? ==>
              |r.value| <= |exams| &&
              forall e :: e in r.value <==>
                e in exams && e.isPublished && InWindow(e, now) &&
                (exists c :: c in users && c.id == e.creatorId) &&
                CreatorUniversity(users, e) == currentUser.value.university
  {
    match currentUser
    case None => Failure(Unauthorized)
    case Some(u) => Success(Where(exams, (e: Exam) => ListedFor(users, e, u.university, now)))
  }

  const UnknownUniversity: string := "Unknown University"

  /** The repository's filter. A student without a university, or with the
      placeholder "Unknown University", sees every published exam in its
      window; any other student also sees exams whose creator has no
      university or the placeholder. */
  predicate RepositoryAdmits(users: seq<User>, e: Exam, studentUniversity: Option<string>, now: Instant) {
    && e.isPublished
    && e.startTime <= now && e.endTime >= now
    && (if IsNullOrEmpty(studentUniversity) || studentUniversity == Some(UnknownUniversity) then true
        else
          var cu := CreatorUniversity(users, e);
          cu == studentUniversity || IsNullOrEmpty(cu) || cu == Some(UnknownUniversity))
  }

  /** `GetAvailableExamsForStudentAsync`. */
  function AvailableForStudent(users: seq<User>, exams: seq<Exam>, studentUniversity: Option<string>,
                               now: Instant): (r: seq<Exam>)
    ensures forall e :: e in r ==> e in exams && e.isPublished && InWindow(e, now)
    ensures forall e :: e in r <==> e in exams && RepositoryAdmits(users, e, studentUniversity, now)
  {
    Where(exams, (e: Exam) => RepositoryAdmits(users, e, studentUniversity, now))
  }

  /** Students without a (real) university see every published exam in its
      window. */
  lemma UnaffiliatedSeesAll(users: seq<User>, exams: seq<Exam>, studentUniversity: Option<string>,
                            now: Instant, e: Exam)
    requires IsNullOrEmpty(studentUniversity) || studentUniversity == Some(UnknownUniversity)
    requires e in exams && e.isPublished && InWindow(e, now)
    ensures e in AvailableForStudent(users, exams, studentUniversity, now)
  {
  }

  /** For any other student an exam is admitted exactly when its creator
      shares the student's university, or has none, or has the
      placeholder; a missing creator counts as having none. */
  lemma AffiliatedSeesOwnOrUnaffiliated(users: seq<User>, exams: seq<Exam>, studentUniversity: string,
                                        now: Instant, e: Exam)
    requires studentUniversity != "" && studentUniversity != UnknownUniversity
    requires e in exams && e.isPublished && InWindow(e, now)
    ensures e in AvailableForStudent(users, exams, Some(studentUniversity), now) <==>
              match FindUser(users, e.creatorId)
              case None => true
              case Some(c) => c.university == Some(studentUniversity) || IsNullOrEmpty(c.university)
                              || c.university == Some(UnknownUniversity)
  {
  }

  /** The controller never lists an exam the repository would withhold from
      the same student at the same time. */
  lemma ControllerWithinRepository(users: seq<User>, exams: seq<Exam>, u: User, now: Instant)
    ensures AvailableExams(users, exams, Some(u), now).Success?
    ensures forall e :: e in AvailableExams(users, exams, Some(u), now).value ==>
              e in AvailableForStudent(users, exams, u.university, now)
  {
  }

  /** The converse fails: a student with a university is shown, by the
      repository, an exam whose creator has none, which the controller hides. */
  lemma RepositoryAdmitsMore(now: Instant)
    ensures var creator := User("c", "c@x", None, None, None);
            var student := User("s", "s@ksu.edu.sa", None, Some("King Saud University"), None);
            var e := Exam(1, "Quiz", "c", 30, now, now, true, 1, []);
            && AvailableExams([creator, student], [e], Some(student), now) == Success([])
            && AvailableForStudent([creator, student], [e], student.university, now) == [e]
  {
    var creator := User("c", "c@x", None, None, None);
    var student := User("s", "s@ksu.edu.sa", None, Some("King Saud University"), None);
    var e := Exam(1, "Quiz", "c", 30, now, now, true, 1, []);
    var users := [creator, student];
    assert FindUser(users, "c") == Some(creator);
    assert !ListedFor(users, e, student.university, now);
    assert RepositoryAdmits(users, e, student.university, now);
    assert [e][..0] == [];
  }

  /** With unique exam keys, looking an exam of the catalog up by its key
      finds that exam. */
  lemma FindExamUnique(exams: seq<Exam>, e: Exam)
    requires NoDuplicates(Map(exams, ExamIdOf))
    requires e in exams
    ensures FindExam(exams, e.id) == Some(e)
  {
    var k :| 0 <= k < |exams| && exams[k] == e;
    FindExamAt(exams, k);
  }

  lemma {:induction false} FindExamAt(exams: seq<Exam>, k: nat)
    requires NoDuplicates(Map(exams, ExamIdOf))
    requires k < |exams|
    ensures FindExam(exams, exams[k].id) == Some(exams[k])
    decreases k
  {
    if k > 0 {
      assert Map(exams, ExamIdOf)[0] != Map(exams, ExamIdOf)[k];
      var rest := exams[1..];
      assert Map(rest, ExamIdOf) == Map(exams, ExamIdOf)[1..];
      FindExamAt(rest, k - 1);
    }
  }

  /** An exam the controller lists can be started at the same instant as
      far as the window goes: `StartAttempt` does not refuse it as
      unavailable. */
  lemma ListedExamIsStartable(s: Store, users: seq<User>, u: User, now: Instant, e: Exam)
    requires NoDuplicates(Map(s.exams, ExamIdOf))
    requires AvailableExams(users, s.exams, Some(u), now).Success?
    requires e in AvailableExams(users, s.exams, Some(u), now).value
    ensures StartAttempt(s, u.id, e.id, now).1 != Failure(BadRequest(NotCurrentlyAvailable))
    ensures StartAttempt(s, u.id, e.id, now).1 != Failure(NotFound)
  {
    FindExamUnique(s.exams, e);
  }

  /** `MyResults`: Unauthorized without a user id, otherwise the caller's
      submitted attempts in table order. */
  function MyResults(attempts: seq<Attempt>, userId: Option<string>): (r: Result<seq<Attempt>, ActionError>)
    ensures userId.None? <==> r.Failure?
    ensures r.Failure? ==> r.error == Unauthorized
    ensures r.Success? ==>
              forall a :: a in r.value <==> a in attempts && a.studentId == userId.value && a.IsSubmitted()
  {
    match userId
    case None => Failure(Unauthorized)
    case Some(id) => Success(Where(attempts, (a: Attempt) => a.studentId == id && a.IsSubmitted()))
  }
}
