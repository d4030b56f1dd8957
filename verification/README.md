# Online exam system: attempt lifecycle, scoring and statistics in Dafny

This project models the core of the OnlineExamSystem web application, an
ASP.NET Core MVC site where educators publish timed exams and students take
them. The model covers:

- the exam-attempt lifecycle of `ExamsController`: starting an attempt
  inside the exam's window and under its attempt cap, replacing the saved
  partial answers, and submitting with automatic scoring;
- the option reconciliation of `EditQuestion` and the type mapping of
  `AddQuestion`;
- the administrator dashboards of `AdminController`: completion counts, the
  best attempt per student and exam, pass/fail counts at the 50 % threshold,
  the university ranking, per-educator statistics, the role synchronisation
  of `EditUser` and the university count of the index page;
- the exam listings of `StudentsController` and `ExamRepository`, and the
  results page;
- the string rules of `AccountController`: email domain to university,
  email local part to role, and the redirect after login and on the welcome
  page;
- the upload checks and the display-name and password rules of
  `ProfileController`.

Every controller action is a pure function. It maps the relevant part of the
database (a `Store`, or a snapshot of joined rows for the statistics), the
request and the clock value `now` to a result and, where the action writes,
a new store. Time is whole minutes. `decimal` points and scores are exact
`real`s. A nullable value is an `Option`. An error reply (`NotFound`,
`BadRequest`, `Unauthorized`, `Challenge`) is a `Failure`.

Modules, one per file:
- `Common`: `Option`, `Result`, and the .NET string operations used.
- `Seqs`: generic sequence helpers.
- `Models`: the entities.
- `Scoring`, `Lifecycle` and `QuestionEditing`: `ExamsController`.
- `Statistics`: `AdminController`.
- `Availability`: `StudentsController` and `ExamRepository`.
- `Registration`: `AccountController`.
- `Profile`: `ProfileController`.

Where the written design of the system and the code disagree, the model
follows the code:
- `StartAttempt` never looks at the exam's published flag.
- `SavePartialAnswers` still accepts answers after submission, and for any caller.
- `SubmitAttempt` reports "already submitted" before it checks ownership.
- A question with no option flagged correct counts an unanswered (null) selection as correct. It does not score zero.
- Late submissions are scored like any other.

Paths below are relative to the repository root.

## Model

| member | source | states |
|---|---|---|
| Lifecycle.StartAttempt | onlineExamApp/Controllers/ExamsController.cs:126-160 | NotFound iff the exam is missing. A start is refused as not available iff `now` lies outside [start, end], so both ends are inclusive. For an existing exam in its window, the reply is BadRequest carrying the cap iff the student already holds at least the cap in attempts (submitted or not). It succeeds iff the exam exists, `now` is in the window, and the student holds fewer attempts than the cap. The published flag plays no part. On failure the store is unchanged. On success exactly one attempt is appended: it is unsubmitted, scores 0, has no answers, runs from `now` to `now + duration`, and takes the next key. The reply's remaining count is cap − new count, which is ≥ 0. |
| Lifecycle.SavePartialAnswers | onlineExamApp/Controllers/ExamsController.cs:165-180 | A missing attempt gives NotFound and no change. Otherwise that attempt's answers become exactly the supplied list and every other record is unchanged. Neither the owner nor the submitted state is checked. |
| Lifecycle.SubmitAttempt | onlineExamApp/Controllers/ExamsController.cs:184-232 | The checks run in order: NotFound, then already submitted, then Unauthorized for another student's attempt. The attempt is loaded joined with its exam, so an attempt whose exam is missing is also NotFound. Every refusal leaves the store unchanged. On success only the attempt's score and submission time change, and the supplied answers are not stored. The reply carries the score, the total points of the exam, the per-answer breakdown, and cap − submitted count. |
| Lifecycle.StartPreservesValid | onlineExamApp/Controllers/ExamsController.cs:138-153 | A start keeps the store invariant: attempt keys stay fresh and unique, and no student exceeds an exam's cap. |
| Lifecycle.SavePreservesValid | onlineExamApp/Controllers/ExamsController.cs:167-178 | Saving answers keeps the invariant. |
| Lifecycle.SubmitPreservesValid | onlineExamApp/Controllers/ExamsController.cs:186-219 | Submitting keeps the invariant. |
| Lifecycle.RunPreservesValid | onlineExamApp/Controllers/ExamsController.cs:126-232 | Over any sequence of start, save and submit requests served one at a time, no student holds more attempts on an exam than its cap and no attempt key is reused. |
| Lifecycle.AttemptCountAppend | onlineExamApp/Controllers/ExamsController.cs:138-139 | Appending an attempt adds one to its own (student, exam) count and leaves every other count unchanged. |
| Lifecycle.AttemptCountUpdate | onlineExamApp/Controllers/ExamsController.cs:138-139 | Rewriting an attempt without changing its student or exam keeps every count. |
| Lifecycle.SubmittedAtMostStarted | onlineExamApp/Controllers/ExamsController.cs:221-222 | The submitted count of a student on an exam never exceeds their attempt count. |
| Lifecycle.SubmitRemainingNonNegative | onlineExamApp/Controllers/ExamsController.cs:221-224 | Under the cap invariant, the remaining count reported on submission is ≥ 0. |
| Lifecycle.SubmitOnlyOnce | onlineExamApp/Controllers/ExamsController.cs:191 | After a successful submit, any further submit of that attempt, by anyone with any answers, is refused as already submitted and leaves the store, and so the stored score, unchanged. |
| Lifecycle.SaveIdempotent | onlineExamApp/Controllers/ExamsController.cs:171-177 | Saving the same answers twice gives the same store as saving them once. |
| Lifecycle.SaveAfterSubmitAccepted | onlineExamApp/Controllers/ExamsController.cs:167-179 | Saving after a successful submit still succeeds and still replaces the answers. |
| Lifecycle.LateSubmissionAccepted | onlineExamApp/Models/StudentExamAttempt.cs:11 | An attempt whose stored deadline has passed is still scored and submitted. |
| Lifecycle.SubmitRemainingDiffersFromStart | onlineExamApp/Controllers/ExamsController.cs:159 | A concrete store in which the remaining count reported on submit is positive while the next start is refused at the cap. Start counts all attempts and submit counts only submitted ones. |
| Lifecycle.FindAttempt | onlineExamApp/Controllers/ExamsController.cs:167-169 | The lookup by key returns a position holding that key. It returns nothing iff no attempt has the key. |
| Models.FindExam | onlineExamApp/Controllers/ExamsController.cs:128-129 | The lookup by key returns an exam of the catalog with that key. It returns nothing iff no exam has it. |
| Scoring.FirstCorrect | onlineExamApp/Controllers/ExamsController.cs:204 | Returns the first option flagged correct, with no flagged option before it. It returns null iff no option is flagged. |
| Scoring.ScoreAnswers | onlineExamApp/Controllers/ExamsController.cs:196-215 | The scoring loop computes the recursive score and breakdown definitions. |
| Scoring.ScoreAppend | onlineExamApp/Controllers/ExamsController.cs:199-207 | The score of concatenated answer lists is the sum of their scores. |
| Scoring.GradeAppend | onlineExamApp/Controllers/ExamsController.cs:209-214 | Breakdowns of concatenated answer lists concatenate, so results follow the input order. |
| Scoring.KnownAnswers | onlineExamApp/Controllers/ExamsController.cs:201-202 | An answer is kept iff it names a question of the exam. |
| Scoring.UnknownAnswersSkipped | onlineExamApp/Controllers/ExamsController.cs:201-202 | Answers naming no question of the exam change neither the score nor the breakdown. |
| Scoring.ScorePermutation | onlineExamApp/Controllers/ExamsController.cs:199-207 | The score depends only on the multiset of answers, not their order. |
| Scoring.DuplicateAnswersEachCount | onlineExamApp/Controllers/ExamsController.cs:199-207 | A repeated answer earns its points once per occurrence. |
| Scoring.NoCorrectOptionMeansNullWins | onlineExamApp/Controllers/ExamsController.cs:204-205 | For a question with no option flagged correct, an answer is correct iff its selection is null. |
| Scoring.ScoreNonNegative | onlineExamApp/Controllers/ExamsController.cs:196-207 | With non-negative points, no submission scores below zero. |
| Scoring.TwoQuestionExample | onlineExamApp/Controllers/ExamsController.cs:199-229 | A worked two-question submission: its score, total and breakdown. |
| QuestionEditing.ReconcileMatchesReference | onlineExamApp/Controllers/ExamsController.cs:252-271 | With distinct option keys, the edit loop equals an independent definition. It keeps the listed existing options in their order, each carrying the text and correctness of the last model entry with its key. These are followed by one new option per model entry with key 0. Non-zero keys the question lacks are ignored. |
| QuestionEditing.ReconcileIds | onlineExamApp/Controllers/ExamsController.cs:252-271 | Every option after the edit is either new (key 0) or an existing option whose key the model lists. |
| QuestionEditing.KeepListed | onlineExamApp/Controllers/ExamsController.cs:252-254 | An existing option survives iff the model lists its key. |
| QuestionEditing.KeepListedDistinct | onlineExamApp/Controllers/ExamsController.cs:253 | Removing options keeps the remaining keys distinct. |
| QuestionEditing.ApplyEditsFrom | onlineExamApp/Controllers/ExamsController.cs:256-271 | Each remaining pass of the loop keeps agreeing with the reference definition. |
| QuestionEditing.EditQuestion | onlineExamApp/Controllers/ExamsController.cs:244-275 | NotFound iff no question has the model's key. Otherwise the first such question takes the model's text, points and reconciled options, keeps its type and exam, and every other question is unchanged. |
| QuestionEditing.ParseQuestionType | onlineExamApp/Controllers/ExamsController.cs:108 | A question is true/false iff the type string is exactly "TrueFalse". |
| QuestionEditing.AddQuestion | onlineExamApp/Controllers/ExamsController.cs:98-121 | NotFound iff no exam has the key. Otherwise the new question belongs to that exam, carries the text, points and mapped type, and holds one option per supplied option, in order. |
| QuestionEditing.TypeMatchIsCaseSensitive | onlineExamApp/Controllers/ExamsController.cs:108 | "truefalse" yields a multiple-choice question. |
| Statistics.ExamCompletion | onlineExamApp/Controllers/AdminController.cs:142-151 | The totals count all exams and all attempts. Completed ≤ started, with equality iff every attempt is submitted. |
| Statistics.ExamCompletionStats | onlineExamApp/Controllers/AdminController.cs:210-222 | There is one entry per exam in catalog order, holding its title, its attempts and its submitted attempts. Completed ≤ started. |
| Statistics.CompletedOn | onlineExamApp/Controllers/AdminController.cs:216-218 | An exam's submitted attempts never outnumber its attempts. |
| Statistics.PerExamStatsSumToTotals | onlineExamApp/Controllers/AdminController.cs:145-146 | With unique exam keys and every attempt's exam present, the per-exam counts sum to the global totals. |
| Statistics.BestIn | onlineExamApp/Controllers/AdminController.cs:168-171 | The chosen attempt belongs to the group and has its highest score. Every earlier member of the group scores strictly less. |
| Statistics.BestInUnique | onlineExamApp/Controllers/AdminController.cs:170 | Highest score plus earliest among ties determines the chosen attempt uniquely. |
| Statistics.BestAttempts | onlineExamApp/Controllers/AdminController.cs:168-171 | There is one attempt per distinct (student, exam) pair, in order of first appearance, each taken from the input. |
| Statistics.BestAttemptsOnePerGroup | onlineExamApp/Controllers/AdminController.cs:168-171 | No two chosen attempts share a (student, exam) pair, and every input pair has a chosen attempt. |
| Statistics.BestAttemptsMaximal | onlineExamApp/Controllers/AdminController.cs:170 | No attempt of a group scores above the chosen one. |
| Statistics.TieGoesToFirst | onlineExamApp/Controllers/AdminController.cs:170 | With equal scores the earlier attempt is chosen, because the descending sort is stable. |
| Statistics.PassesIffHalf | onlineExamApp/Controllers/AdminController.cs:173-174 | With a positive total, `score / total * 100 >= 50` holds iff the score is at least half the total. |
| Statistics.PassedPlusFailed | onlineExamApp/Controllers/AdminController.cs:173-177 | When no total is zero, the `>= 50` and `< 50` counts add up to the number of attempts. |
| Statistics.StatsBy | onlineExamApp/Controllers/AdminController.cs:179-186 | There is one entry per distinct group key, in order of first appearance. Each entry is labelled from its key, and its pass count plus fail count equals its group's size. |
| Statistics.SortByPassed | onlineExamApp/Controllers/AdminController.cs:187 | The result is ordered by non-increasing passes and is a permutation of the input. |
| Statistics.SortByPassedStable | onlineExamApp/Controllers/AdminController.cs:187 | Entries with equal passes keep their relative order. |
| Statistics.UniversityRanking | onlineExamApp/Controllers/AdminController.cs:153-196 | It succeeds iff no best submitted attempt has a zero total; otherwise the division throws. The university count covers the universities of all attempts, null included. Passed + failed equals the number of best submitted attempts. The ranking is non-increasing in passes and a permutation of the per-university statistics, with null labelled "Unknown". |
| Statistics.RankingIgnoresUnsubmitted | onlineExamApp/Controllers/AdminController.cs:165 | Unsubmitted attempts never enter the ranking or the pass counts. |
| Statistics.UnknownLabelShared | onlineExamApp/Controllers/AdminController.cs:180-183 | A null university and one named "Unknown" form two separate ranking entries that both show "Unknown". |
| Statistics.EducatorEntry | onlineExamApp/Controllers/AdminController.cs:238-243 | The educator's name is the display name of the creator on the group's first attempt, or "Unknown". There is one entry per distinct university label (`University ?? "Unknown"`) of the educator's best attempts, in order of first appearance. Each entry's passes are the attempts of its group at 50 % or more, and passes plus failures equals the group's size. |
| Statistics.EducatorStatsCoverBest | onlineExamApp/Controllers/AdminController.cs:234-243 | The educator statistics report an (educator, university label) pair iff some best attempt was made on that educator's exam by a student with that label. No pair is dropped and none is invented. |
| Statistics.EducatorPerformance | onlineExamApp/Controllers/AdminController.cs:234-246 | Best attempts are taken over all attempts, submitted or not. It succeeds iff no best attempt has a zero total. There is one entry per distinct exam creator, in order of first appearance. |
| Statistics.EducatorsCountUnsubmitted | onlineExamApp/Controllers/AdminController.cs:227-242 | An unsubmitted attempt with score 0 is absent from the ranking but is counted as a failure in its educator's statistics. |
| Statistics.Except | onlineExamApp/Controllers/AdminController.cs:126-127 | The set difference has no duplicates. It holds exactly the elements of the first list that are not in the second. |
| Statistics.EditUser | onlineExamApp/Controllers/AdminController.cs:115-131 | NotFound iff no user has the key. Otherwise the name, email and university are overwritten and the image path is kept. The roles added are requested but not current; the roles removed are current but not requested. Afterwards a role is held iff it was requested. |
| Statistics.EditUserRolesMatchRequest | onlineExamApp/Controllers/AdminController.cs:126-129 | After `EditUser` the user's role set equals the requested set. |
| Statistics.UniversityCount | onlineExamApp/Controllers/AdminController.cs:30 | The count equals the number of distinct non-empty university strings among the users. |
| Availability.AvailableExams | onlineExamApp/Controllers/StudentsController.cs:27-47 | Unauthorized iff there is no signed-in user. Otherwise an exam is listed iff it is published, in the window, has an existing creator, and that creator's university equals the student's. |
| Availability.AvailableForStudent | onlineExamApp/Repositories/ExamRepository.cs:18-34 | Every exam returned is published and in the window. An exam is returned iff the repository predicate admits it. |
| Availability.UnaffiliatedSeesAll | onlineExamApp/Repositories/ExamRepository.cs:28-29 | A student whose university is null, empty or "Unknown University" gets every published exam in its window. |
| Availability.AffiliatedSeesOwnOrUnaffiliated | onlineExamApp/Repositories/ExamRepository.cs:30-32 | For any other student, an exam is returned iff its creator's university equals theirs, is empty, or is "Unknown University". |
| Availability.ControllerWithinRepository | onlineExamApp/Repositories/ExamRepository.cs:24-32 | Every exam the controller lists is also returned by the repository for the same student and time. |
| Availability.RepositoryAdmitsMore | onlineExamApp/Repositories/ExamRepository.cs:30-32 | A concrete case where the repository returns an exam the controller withholds. |
| Availability.FindExamUnique | onlineExamApp/Controllers/ExamsController.cs:128 | With unique exam keys, looking up an exam of the catalog by its key finds that exam. |
| Availability.ListedExamIsStartable | onlineExamApp/Controllers/StudentsController.cs:38-43 | Starting a listed exam at the same instant is never refused as missing or as outside the window. |
| Availability.MyResults | onlineExamApp/Controllers/StudentsController.cs:50-64 | Unauthorized iff there is no user id. Otherwise it returns exactly the caller's submitted attempts. |
| Registration.LookupUniversity | onlineExamApp/Controllers/AccountController.cs:141-147 | The result is the value of the first table entry whose key is a suffix of the domain. It is "Unknown University" when no key matches. |
| Registration.FirstSuffixMatch | onlineExamApp/Controllers/AccountController.cs:141-142 | Returns the first entry whose key ends the domain; none before it does. It returns nothing iff no key does. |
| Registration.SuffixHasNoBoundary | onlineExamApp/Controllers/AccountController.cs:142 | "xksu.edu.sa" maps to King Saud University, because matching ignores label boundaries. |
| Registration.GenericKeyIsLastResort | onlineExamApp/Controllers/AccountController.cs:136 | "stu.edu.sa" matches none of the earlier keys and maps to University of Dammam through the generic key "u.edu.sa". |
| Registration.RoleForLocalPart | onlineExamApp/Controllers/AccountController.cs:154-170 | Ignoring case, the role is Admin iff the local part ends with ".Ad". Otherwise it is Educator iff it ends with ".Ed", otherwise Student iff it ends with ".Sa", and otherwise there is no role. |
| Registration.Register | onlineExamApp/Controllers/AccountController.cs:117-170 | A malformed email is refused iff it has no '@'. The suffix error is given iff the local part carries no role suffix. Otherwise the university comes from the lower-cased domain and the role from the local part. |
| Registration.RegisterExample | onlineExamApp/Controllers/AccountController.cs:117-160 | "sara.ED@KSU.EDU.SA" registers as an Educator of King Saud University. |
| Registration.RegisterWithoutSuffix | onlineExamApp/Controllers/AccountController.cs:166-170 | "sara@ksu.edu.sa" is refused for lack of a role suffix. |
| Registration.RoleFromLocalPartOnly | onlineExamApp/Controllers/AccountController.cs:151 | Two emails with the same local part get the same outcome and role, whatever their domains. |
| Registration.LoginRedirect | onlineExamApp/Controllers/AccountController.cs:67-81 | The first match in the order Educator, Admin, Student decides the redirect. With none of these roles it goes to Welcome. |
| Registration.Welcome | onlineExamApp/Controllers/AccountController.cs:284-305 | Anonymous visitors see the page, and a signed-in user who cannot be loaded is challenged. Otherwise the first match in the order Admin, Educator, Student decides, and with none it goes to Home. |
| Registration.LoginAndWelcomeDisagree | onlineExamApp/Controllers/AccountController.cs:294-297 | A user holding both Admin and Educator is sent to the educator page after login but to the admin page by Welcome. With exactly one of the two roles, both actions agree. |
| Profile.UploadImage | onlineExamApp/Controllers/ProfileController.cs:100-151 | The checks run in order: empty or null, then larger than 2·1024·1024 bytes, then a lower-cased extension outside .jpg/.jpeg/.png, then no user (Challenge). Each refusal happens iff the earlier checks pass and its own fails. On success the stored path is "/images/profiles/" + generated name + lower-cased extension. The old image is deleted iff its path is non-empty and starts with "/images/profiles/". |
| Profile.GetExtension | onlineExamApp/Controllers/ProfileController.cs:114 | The extension is either empty or a '.' followed by at least one character, with no further '.' or '/'. It is a suffix of the file name. |
| Profile.ExtensionOfSuffix | onlineExamApp/Controllers/ProfileController.cs:124 | A name followed by a well-formed extension has exactly that extension, so the stored file keeps the validated extension. |
| Profile.SizeBoundInclusive | onlineExamApp/Controllers/ProfileController.cs:23 | Exactly 2 MiB is accepted and one byte more is refused. |
| Profile.UpperCaseExtensionAccepted | onlineExamApp/Controllers/ProfileController.cs:114-115 | "photo.JPG" is accepted and stored with ".jpg". |
| Profile.NoExtensionRefused | onlineExamApp/Controllers/ProfileController.cs:114-119 | A file name without an extension is refused as an invalid type. |
| Profile.DisplayNameAfterEdit | onlineExamApp/Controllers/ProfileController.cs:61-68 | A non-blank requested name is kept. A null, empty or whitespace name becomes the start of the email up to its first '.'. |
| Profile.EditProfile | onlineExamApp/Controllers/ProfileController.cs:53-96 | No user gives Challenge. A non-empty new password that differs from its confirmation is refused before anything is saved. A failed reset is refused. Otherwise only the display name changes. |
| Profile.BlankNameFallsBack | onlineExamApp/Controllers/ProfileController.cs:61-63 | For "sara.ali@ksu.edu.sa", a whitespace-only name becomes "sara". |

## Left out

- Concurrency: each request is one atomic step. The count-then-insert race in `StartAttempt` and the check-then-write race in `SubmitAttempt` are not modelled.
- Identity framework calls are not modelled: user creation, password hashing and reset tokens, sign-in, and role lookups. Role sets are inputs, and the outcome of the password reset in `EditProfile` is a boolean parameter. `EditProfile` does not model a failed `UpdateAsync`, which only changes the message.
- The admin index page's student and educator counts, `ManageUsers`, `CreateUser`, `DeleteUser` and the educator count of the `EducatorPerformance` page are left out. They are role lookups or plain persistence.
- Persistence: the model has no entity-framework includes, cascades or key generation beyond a counter. The statistics read a pre-joined snapshot of attempt rows. Exam creation and deletion, `Details`, `ManageQuestions`, `Take` and the question delete actions are plain reads and writes and are left out.
- `StudentAnswer.IsCorrect`, `StudentExamAttempt.EducatorId`, and the exam's description, subject and difficulty are never read by the modelled rules.
- Email sending, database seeding, the one-time-password service and program startup are I/O, randomness or configuration.
- File streams, directory creation, file deletion and GUID generation are not modelled. `UploadImage` takes the generated name as a parameter and reports whether the old file is deleted.
- Profile.GetExtension: only '/' is treated as a directory separator. The Windows '\\' and ':' separators are not.
- Common.ToLower: lower-cases ASCII letters only. The case-insensitive suffix tests of `Register` are modelled the same way. The culture-sensitive `domain.EndsWith(key)` of `Register` and `ProfileImagePath.StartsWith(...)` of `UploadImage` are modelled as ordinal tests, so characters the culture comparison ignores (zero-width characters, for instance) are not ignored here.
- `decimal` is modelled as an exact `real`. Rounding at 28 significant digits is not modelled, and neither is the `decimal(10,2)` column precision of `Points` and `Score` (onlineExamApp/Data/ApplicationDbContext.cs:21-27), which rounds stored values to two decimals.
- Model-state validation (`ModelState.IsValid`, `[EmailAddress]`) is not modelled. `Register` instead reports an email without '@' as malformed, where `Split('@')[1]` would throw.
- `Register` runs after the account is created, so an email with no role suffix leaves an account without a role or university. The model returns only the refusal.
- The `ReturnUrl` plumbing of the profile edit page, views, TempData messages, anti-forgery and routing are not modelled.
- Availability.AvailableExams, Availability.AvailableForStudent and Statistics.UniversityRanking: the university comparisons, the empty-university test and the distinct university count run in SQL Server, whose default collation ignores case and trailing spaces. The model compares strings ordinally, so "king saud university" and "King Saud University" are different universities here.
- Statistics.EditUser: role changes are modelled as exact set updates on the role names given. The identity layer normalises role names, stops adding at the first role already held, and throws for a role that does not exist after the profile fields are saved. The model's promise that the requested roles are held afterwards holds only for requests naming "Admin", "Educator" and "Student" exactly, which are the names the edit page offers.
- The order of the domain table is taken as its listed order, which is the enumeration order of a `Dictionary` that only receives insertions.
