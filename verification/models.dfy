/** The entities the exam-attempt core works on, as immutable records.
    Instants are whole minutes (`DateTime` in UTC); `decimal` points and
    scores are exact reals. Navigation properties are resolved by lookup. */
module Models {
  import opened Common

  type Instant = int

  datatype QuestionType = MCQ | TrueFalse

  /** `Option` in the source: one selectable answer of a question. */
  datatype AnswerOption = AnswerOption(id: int, text: string, isCorrect: bool)

  datatype Question = Question(id: int, examId: int, text: string, kind: QuestionType,
                               points: real, options: seq<AnswerOption>)

  datatype Exam = Exam(id: int, title: string, creatorId: string,
                       durationMinutes: int, startTime: Instant, endTime: Instant,
                       isPublished: bool, maxAttempts: int, questions: seq<Question>)

  /** One answer of an attempt; a null selection means "unanswered". */
  datatype StudentAnswer = StudentAnswer(questionId: int, selectedOptionId: Option<int>)

  /** `StudentExamAttempt`. `endTime` is the deadline stored at start. */
  datatype Attempt = Attempt(id: int, studentId: string, examId: int,
                             startTime: Instant, endTime: Instant,
                             submittedTime: Option<Instant>, score: real,
                             answers: seq<StudentAnswer>)
  {
    /** An attempt is submitted exactly when its submission time is set. */
    predicate IsSubmitted() {
      submittedTime.Some?
    }
  }

  /** `ApplicationUser`, with the fields the core reads. */
  datatype User = User(id: string, email: string, displayName: Option<string>,
                       university: Option<string>, profileImagePath: Option<string>)

  /** A freshly created attempt: the record's defaults leave it unscored,
      unsubmitted and without answers. */
  function NewAttempt(id: int, studentId: string, examId: int,
                      start: Instant, end: Instant): Attempt
  {
    Attempt(id, studentId, examId, start, end, None, 0.0, [])
  }

  function ExamIdOf(e: Exam): int {
    e.id
  }

  /** `Find(id)` on the exams table. */
  function FindExam(exams: seq<Exam>, id: int): (r: Option<Exam>)
    ensures r.Some? ==> r.value in exams && r.value.id == id
    ensures r.None? <==> forall e :: e in exams ==> e.id != id
  {
    if |exams| == 0 then None
    else if exams[0].id == id then Some(exams[0])
    else FindExam(exams[1..], id)
  }

  /** `Find(id)` on the users table. */
  function FindUser(users: seq<User>, id: string): (r: Option<User>)
    ensures r.Some? ==> r.value in users && r.value.id == id
    ensures r.None? <==> forall u :: u in users ==> u.id != id
  {
    if |users| == 0 then None
    else if users[0].id == id then Some(users[0])
    else FindUser(users[1..], id)
  }
}
