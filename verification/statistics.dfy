/** The dashboards of `AdminController`: completion counts, the best attempt
    per student and exam, pass/fail statistics grouped by university and by
    educator, the role synchronisation of `EditUser` and the university count
    of the index page.

    The statistics read attempts joined with their student, their exam's
    questions and the exam's creator; that join is given here as a snapshot
    of `AttemptRow`s in table order. */
module Statistics {
  import opened Common
  import opened Models
  import opened Seqs
  import opened Lifecycle

  // ---------------------------------------------------------------------
  // Completion counts

  function IsSubmittedAttempt(a: Attempt): bool {
    a.IsSubmitted()
  }

  /** The three totals of `ExamCompletion`. */
  datatype CompletionTotals = CompletionTotals(totalExams: nat, totalStarted: nat, totalCompleted: nat)

  function ExamCompletion(s: Store): (r: CompletionTotals)
    ensures r.totalExams == |s.exams| && r.totalStarted == |s.attempts|
    ensures r.totalCompleted <= r.totalStarted
    ensures r.totalCompleted == |s.attempts| <==> forall a :: a in s.attempts ==> a.IsSubmitted()
  {
    var done := Where(s.attempts, IsSubmittedAttempt);
    WhereAll(s.attempts, IsSubmittedAttempt);
    CompletionTotals(|s.exams|, |s.attempts|, |done|)
  }

  /** `Where` keeps everything exactly when every element passes. */
  lemma {:induction false} WhereAll<T(!new)>(s: seq<T>, p: T -> bool)
    ensures |Where(s, p)| == |s| <==> forall x :: x in s ==> p(x)
    decreases |s|
  {
    if |s| > 0 {
      var init := s[..|s| - 1];
      WhereAll(init, p);
      assert forall y :: y in s <==> y in init || y == s[|s| - 1];
    }
  }

  /** Attempts on one exam, and how many of them are submitted. */
  function StartedOn(attempts: seq<Attempt>, examId: int): nat
    decreases |attempts|
  {
    if |attempts| == 0 then 0
    else
      StartedOn(attempts[..|attempts| - 1], examId)
        + (if attempts[|attempts| - 1].examId == examId then 1 else 0)
  }

  function CompletedOn(attempts: seq<Attempt>, examId: int): (n: nat)
    ensures n <= StartedOn(attempts, examId)
    decreases |attempts|
  {
    if |attempts| == 0 then 0
    else
      var a := attempts[|attempts| - 1];
      CompletedOn(attempts[..|attempts| - 1], examId)
        + (if a.examId == examId && a.IsSubmitted() then 1 else 0)
  }

  datatype ExamStat = ExamStat(examTitle: string, started: nat, completed: nat)

  /** `GetExamCompletionStats`: one entry per exam, in catalog order. */
  function ExamCompletionStats(s: Store): (r: seq<ExamStat>)
    ensures |r| == |s.exams|
    ensures forall i :: 0 <= i < |r| ==>
              && r[i].examTitle == s.exams[i].title
              && r[i].started == StartedOn(s.attempts, s.exams[i].id)
              && r[i].completed == CompletedOn(s.attempts, s.exams[i].id)
              && r[i].completed <= r[i].started
  {
    seq(|s.exams|, i requires 0 <= i < |s.exams| =>
      ExamStat(s.exams[i].title, StartedOn(s.attempts, s.exams[i].id),
               CompletedOn(s.attempts, s.exams[i].id)))
  }

  function SumStarted(stats: seq<ExamStat>): nat
    decreases |stats|
  {
    if |stats| == 0 then 0 else SumStarted(stats[..|stats| - 1]) + stats[|stats| - 1].started
  }

  function SumCompleted(stats: seq<ExamStat>): nat
    decreases |stats|
  {
    if |stats| == 0 then 0 else SumCompleted(stats[..|stats| - 1]) + stats[|stats| - 1].completed
  }

  /** How many exams carry the id. */
  function Occurrences(exams: seq<Exam>, id: int): nat
    decreases |exams|
  {
    if |exams| == 0 then 0
    else Occurrences(exams[..|exams| - 1], id) + (if exams[|exams| - 1].id == id then 1 else 0)
  }

  /** Per-exam sums over a catalog, written without the stats list. */
  function StartedSum(exams: seq<Exam>, attempts: seq<Attempt>): nat
    decreases |exams|
  {
    if |exams| == 0 then 0
    else StartedSum(exams[..|exams| - 1], attempts) + StartedOn(attempts, exams[|exams| - 1].id)
  }

  function CompletedSum(exams: seq<Exam>, attempts: seq<Attempt>): nat
    decreases |exams|
  {
    if |exams| == 0 then 0
    else CompletedSum(exams[..|exams| - 1], attempts) + CompletedOn(attempts, exams[|exams| - 1].id)
  }

  lemma {:induction false} StatsSums(s: Store)
    ensures SumStarted(ExamCompletionStats(s)) == StartedSum(s.exams, s.attempts)
    ensures SumCompleted(ExamCompletionStats(s)) == CompletedSum(s.exams, s.attempts)
    decreases |s.exams|
  {
    if |s.exams| > 0 {
      var s' := s.(exams := s.exams[..|s.exams| - 1]);
      StatsSums(s');
      assert ExamCompletionStats(s)[..|s.exams| - 1] == ExamCompletionStats(s');
    }
  }

  /** Adding one attempt adds one to the sum for each exam carrying its exam
      id. */
  lemma {:induction false} StartedSumAppend(exams: seq<Exam>, attempts: seq<Attempt>, a: Attempt)
    ensures StartedSum(exams, attempts + [a]) == StartedSum(exams, attempts) + Occurrences(exams, a.examId)
    ensures CompletedSum(exams, attempts + [a])
            == CompletedSum(exams, attempts) + (if a.IsSubmitted() then Occurrences(exams, a.examId) else 0)
    decreases |exams|
  {
    assert (attempts + [a])[..|attempts|] == attempts;
    if |exams| > 0 {
      StartedSumAppend(exams[..|exams| - 1], attempts, a);
    }
  }

  /** With unique exam keys, an existing key occurs exactly once. */
  lemma {:induction false} OccursOnce(exams: seq<Exam>, id: int)
    requires NoDuplicates(Map(exams, ExamIdOf))
    requires id in Map(exams, ExamIdOf)
    ensures Occurrences(exams, id) == 1
    decreases |exams|
  {
    var n := |exams| - 1;
    var init := exams[..n];
    assert Map(init, ExamIdOf) == Map(exams, ExamIdOf)[..n];
    if exams[n].id == id {
      assert id !in Map(init, ExamIdOf) by {
        forall j | 0 <= j < n ensures Map(init, ExamIdOf)[j] != id {
          assert Map(exams, ExamIdOf)[j] != Map(exams, ExamIdOf)[n];
        }
      }
      OccursNever(init, id);
    } else {
      var k :| 0 <= k < |exams| && Map(exams, ExamIdOf)[k] == id;
      assert k < n;
      assert id in Map(init, ExamIdOf);
      OccursOnce(init, id);
    }
  }

  lemma {:induction false} OccursNever(exams: seq<Exam>, id: int)
    requires id !in Map(exams, ExamIdOf)
    ensures Occurrences(exams, id) == 0
    decreases |exams|
  {
    if |exams| > 0 {
      var n := |exams| - 1;
      assert Map(exams[..n], ExamIdOf) == Map(exams, ExamIdOf)[..n];
      assert Map(exams, ExamIdOf)[n] == exams[n].id;
      OccursNever(exams[..n], id);
    }
  }

  predicate ExamsKnown(s: Store) {
    forall a :: a in s.attempts ==> a.examId in Map(s.exams, ExamIdOf)
  }

  /** When exam keys are unique and every attempt's exam exists, the
      per-exam entries of `GetExamCompletionStats` add up to the totals of
      `ExamCompletion`. */
  lemma {:induction false} PerExamStatsSumToTotals(s: Store)
    requires NoDuplicates(Map(s.exams, ExamIdOf))
    requires ExamsKnown(s)
    ensures SumStarted(ExamCompletionStats(s)) == ExamCompletion(s).totalStarted
    ensures SumCompleted(ExamCompletionStats(s)) == ExamCompletion(s).totalCompleted
    decreases |s.attempts|
  {
    StatsSums(s);
    if |s.attempts| == 0 {
      StartedSumEmpty(s.exams);
    } else {
      var n := |s.attempts| - 1;
      var a := s.attempts[n];
      var s' := s.(attempts := s.attempts[..n]);
      assert s.attempts == s'.attempts + [a];
      PerExamStatsSumToTotals(s');
      StatsSums(s');
      StartedSumAppend(s.exams, s'.attempts, a);
      assert a in s.attempts;
      OccursOnce(s.exams, a.examId);
    }
  }

  lemma {:induction false} StartedSumEmpty(exams: seq<Exam>)
    ensures StartedSum(exams, []) == 0 && CompletedSum(exams, []) == 0
    decreases |exams|
  {
    if |exams| > 0 {
      StartedSumEmpty(exams[..|exams| - 1]);
    }
  }

  // ---------------------------------------------------------------------
  // Best attempt per (student, exam)

  /** One attempt with what the statistics read through its navigation
      properties: the student's university, the exam's total points, and the
      exam creator's key and display name (null when the creator row is
      missing). */
  datatype AttemptRow = AttemptRow(studentId: string, examId: int, score: real, submitted: bool,
                                   university: Option<string>, examTotal: real,
                                   creatorId: string, creatorName: Option<string>)

  datatype StudentExam = StudentExam(studentId: string, examId: int)

  function KeyOf(r: AttemptRow): StudentExam {
    StudentExam(r.studentId, r.examId)
  }

  /** The first attempt of the group with the highest score: the group is
      sorted by descending score with a stable sort and its first element
      taken. */
  function BestIn(rows: seq<AttemptRow>, k: StudentExam): (b: nat)
    requires k in Map(rows, KeyOf)
    ensures b < |rows| && KeyOf(rows[b]) == k
    ensures forall j :: 0 <= j < |rows| && KeyOf(rows[j]) == k ==> rows[j].score <= rows[b].score
    ensures forall j :: 0 <= j < b && KeyOf(rows[j]) == k ==> rows[j].score < rows[b].score
    decreases |rows|
  {
    var n := |rows| - 1;
    var init := rows[..n];
    if k in Map(init, KeyOf) then
      var b := BestIn(init, k);
      if KeyOf(rows[n]) == k && rows[n].score > rows[b].score then n else b
    else
      OnlyLastHasKey(rows, k);
      n
  }

  /** A key absent from all but the last row belongs to the last row only. */
  lemma OnlyLastHasKey(rows: seq<AttemptRow>, k: StudentExam)
    requires k in Map(rows, KeyOf) && k !in Map(rows[..|rows| - 1], KeyOf)
    ensures KeyOf(rows[|rows| - 1]) == k
    ensures forall j :: 0 <= j < |rows| - 1 ==> KeyOf(rows[j]) != k
  {
    var n := |rows| - 1;
    forall j | 0 <= j < n ensures KeyOf(rows[j]) != k {
      assert Map(rows[..n], KeyOf)[j] == KeyOf(rows[j]);
    }
  }

  /** The maximum-and-earliest characterisation pins the best attempt
      down. */
  lemma BestInUnique(rows: seq<AttemptRow>, k: StudentExam, b: nat)
    requires b < |rows| && KeyOf(rows[b]) == k
    requires forall j :: 0 <= j < |rows| && KeyOf(rows[j]) == k ==> rows[j].score <= rows[b].score
    requires forall j :: 0 <= j < b && KeyOf(rows[j]) == k ==> rows[j].score < rows[b].score
    ensures k in Map(rows, KeyOf) && b == BestIn(rows, k)
  {
    assert Map(rows, KeyOf)[b] == k;
  }

  /** The keys of the groups, in order of first appearance. */
  function GroupKeys(rows: seq<AttemptRow>): seq<StudentExam> {
    Distinct(Map(rows, KeyOf))
  }

  /** Positions of the best attempts, one per group. */
  function BestIndices(rows: seq<AttemptRow>): (r: seq<nat>)
    ensures |r| == |GroupKeys(rows)|
    ensures forall i :: 0 <= i < |r| ==>
              && r[i] < |rows| && KeyOf(rows[r[i]]) == GroupKeys(rows)[i]
              && (forall j :: 0 <= j < |rows| && KeyOf(rows[j]) == KeyOf(rows[r[i]]) ==>
                                rows[j].score <= rows[r[i]].score)
              && (forall j :: 0 <= j < r[i] && KeyOf(rows[j]) == KeyOf(rows[r[i]]) ==>
                                rows[j].score < rows[r[i]].score)
  {
    var keys := GroupKeys(rows);
    seq(|keys|, i requires 0 <= i < |keys| => BestIn(rows, keys[i]))
  }

  /** `GroupBy(a => new { a.StudentId, a.ExamId }).Select(g =>
      g.OrderByDescending(a => a.Score).First())`. */
  function BestAttempts(rows: seq<AttemptRow>): (r: seq<AttemptRow>)
    ensures |r| == |BestIndices(rows)| == |GroupKeys(rows)|
    ensures forall i :: 0 <= i < |r| ==> r[i] == rows[BestIndices(rows)[i]]
    ensures forall i :: 0 <= i < |r| ==> r[i] in rows && KeyOf(r[i]) == GroupKeys(rows)[i]
  {
    var idx := BestIndices(rows);
    seq(|idx|, i requires 0 <= i < |idx| => rows[idx[i]])
  }

  /** Exactly one best attempt per distinct (student, exam) pair: the chosen
      rows have pairwise distinct keys and every row's key is among them. */
  lemma BestAttemptsOnePerGroup(rows: seq<AttemptRow>)
    ensures forall i, j :: 0 <= i < j < |BestAttempts(rows)| ==>
              KeyOf(BestAttempts(rows)[i]) != KeyOf(BestAttempts(rows)[j])
    ensures forall x :: x in rows ==>
              exists i :: 0 <= i < |BestAttempts(rows)| && KeyOf(BestAttempts(rows)[i]) == KeyOf(x)
  {
    var best := BestAttempts(rows);
    var keys := GroupKeys(rows);
    forall x | x in rows
      ensures exists i :: 0 <= i < |best| && KeyOf(best[i]) == KeyOf(x)
    {
      var j :| 0 <= j < |rows| && rows[j] == x;
      assert Map(rows, KeyOf)[j] == KeyOf(x);
      assert KeyOf(x) in keys;
      var i :| 0 <= i < |keys| && keys[i] == KeyOf(x);
      assert KeyOf(best[i]) == keys[i];
    }
  }

  /** Each best attempt has the highest score of its group. */
  lemma BestAttemptsMaximal(rows: seq<AttemptRow>, i: nat, x: AttemptRow)
    requires i < |BestAttempts(rows)|
    requires x in rows && KeyOf(x) == KeyOf(BestAttempts(rows)[i])
    ensures x.score <= BestAttempts(rows)[i].score
  {
    var j :| 0 <= j < |rows| && rows[j] == x;
  }

  /** With equal scores the earlier attempt wins. */
  lemma TieGoesToFirst(a: AttemptRow, b: AttemptRow)
    requires KeyOf(a) == KeyOf(b) && a.score == b.score
    ensures BestAttempts([a, b]) == [a]
  {
    var rows := [a, b];
    assert Map(rows, KeyOf) == [KeyOf(a), KeyOf(a)];
    assert Map(rows, KeyOf)[..1] == [KeyOf(a)];
    assert Map(rows, KeyOf)[..1][..0] == [];
    assert Distinct([KeyOf(a)]) == [KeyOf(a)];
    assert rows[..1] == [a];
    assert Map(rows[..1], KeyOf) == [KeyOf(a)];
    assert GroupKeys(rows) == [KeyOf(a)];
    assert BestIn(rows, KeyOf(a)) == 0;
  }

  // ---------------------------------------------------------------------
  // Pass / fail

  /** Every row has a non-zero total, so the percentage can be computed. */
  predicate TotalsNonZero(rows: seq<AttemptRow>) {
    forall r :: r in rows ==> r.examTotal != 0.0
  }

  /** `(decimal)Score / total * 100 >= 50`. */
  predicate Passes(r: AttemptRow)
    requires r.examTotal != 0.0
  {
    r.score / r.examTotal * 100.0 >= 50.0
  }

  /** With a positive total, passing means scoring at least half the points;
      exactly half passes. */
  lemma PassesIffHalf(r: AttemptRow)
    requires r.examTotal > 0.0
    ensures Passes(r) <==> 2.0 * r.score >= r.examTotal
  {
    var p := r.score / r.examTotal;
    assert r.score == p * r.examTotal;
    if p >= 0.5 {
      assert p * r.examTotal >= 0.5 * r.examTotal;
    } else {
      assert p * r.examTotal < 0.5 * r.examTotal;
    }
  }

  function PassedCount(rows: seq<AttemptRow>): nat
    requires TotalsNonZero(rows)
    decreases |rows|
  {
    if |rows| == 0 then 0
    else
      var r := rows[|rows| - 1];
      PassedCount(rows[..|rows| - 1]) + (if Passes(r) then 1 else 0)
  }

  /** The `< 50` count, computed independently as the source does. */
  function FailedCount(rows: seq<AttemptRow>): nat
    requires TotalsNonZero(rows)
    decreases |rows|
  {
    if |rows| == 0 then 0
    else
      var r := rows[|rows| - 1];
      FailedCount(rows[..|rows| - 1]) + (if r.score / r.examTotal * 100.0 < 50.0 then 1 else 0)
  }

  /** The two thresholds are complementary: every attempt is counted exactly
      once. */
  lemma {:induction false} PassedPlusFailed(rows: seq<AttemptRow>)
    requires TotalsNonZero(rows)
    ensures PassedCount(rows) + FailedCount(rows) == |rows|
    decreases |rows|
  {
    if |rows| > 0 {
      PassedPlusFailed(rows[..|rows| - 1]);
    }
  }

  // ---------------------------------------------------------------------
  // Grouped pass / fail statistics

  datatype UniStat = UniStat(university: string, passed: nat, failed: nat)

  function UniversityOf(r: AttemptRow): Option<string> {
    r.university
  }

  /** `University ?? "Unknown"`. */
  function UniversityLabel(r: AttemptRow): string {
    r.university.GetOr("Unknown")
  }

  function UnknownIfNull(u: Option<string>): string {
    u.GetOr("Unknown")
  }

  function AsLabel(u: string): string {
    u
  }

  /** `GroupBy(key).Select(u => new { University = label(u.Key), Passed =
      ..., Failed = ... })`: one entry per distinct key, in order of first
      appearance. */
  function StatsBy<K(==,!new)>(rows: seq<AttemptRow>, key: AttemptRow -> K, labelOf: K -> string): (r: seq<UniStat>)
    requires TotalsNonZero(rows)
    ensures |r| == |Distinct(Map(rows, key))|
    ensures forall i :: 0 <= i < |r| ==>
              var g := Members(rows, key, Distinct(Map(rows, key))[i]);
              && r[i].university == labelOf(Distinct(Map(rows, key))[i])
              && TotalsNonZero(g)
              && r[i].passed == PassedCount(g)
              && r[i].passed + r[i].failed == |g|
  {
    var keys := Distinct(Map(rows, key));
    seq(|keys|, i requires 0 <= i < |keys| => GroupStat(rows, key, labelOf, keys[i]))
  }

  /** The entry of the group with key `k`. */
  function GroupStat<K(==,!new)>(rows: seq<AttemptRow>, key: AttemptRow -> K, labelOf: K -> string, k: K)
    : (r: UniStat)
    requires TotalsNonZero(rows)
    ensures var g := Members(rows, key, k);
            && r.university == labelOf(k)
            && TotalsNonZero(g)
            && r.passed == PassedCount(g)
            && r.passed + r.failed == |g|
  {
    var g := Members(rows, key, k);
    PassedPlusFailed(g);
    UniStat(labelOf(k), PassedCount(g), FailedCount(g))
  }

  /** Every group is non-empty. */
  lemma GroupsNonEmpty<K(!new)>(rows: seq<AttemptRow>, key: AttemptRow -> K, k: K)
    requires k in Map(rows, key)
    ensures |Members(rows, key, k)| > 0
  {
    var j :| 0 <= j < |rows| && Map(rows, key)[j] == k;
    assert rows[j] in Members(rows, key, k);
  }

  predicate NonIncreasing(s: seq<UniStat>) {
    forall i, j :: 0 <= i < j < |s| ==> s[i].passed >= s[j].passed
  }

  /** Inserts after every entry with at least as many passes. */
  function InsertByPassed(sorted: seq<UniStat>, x: UniStat): seq<UniStat>
    decreases |sorted|
  {
    if |sorted| == 0 then [x]
    else if sorted[0].passed >= x.passed then [sorted[0]] + InsertByPassed(sorted[1..], x)
    else [x] + sorted
  }

  /** Inserting adds exactly the one entry. */
  lemma {:induction false} InsertPermutes(sorted: seq<UniStat>, x: UniStat)
    ensures multiset(InsertByPassed(sorted, x)) == multiset(sorted) + multiset{x}
    decreases |sorted|
  {
    if |sorted| > 0 {
      assert sorted == [sorted[0]] + sorted[1..];
      InsertPermutes(sorted[1..], x);
    }
  }

  /** Inserting under a bound keeps every entry under it. */
  lemma {:induction false} InsertBelow(sorted: seq<UniStat>, x: UniStat, m: nat)
    requires forall i :: 0 <= i < |sorted| ==> sorted[i].passed <= m
    requires x.passed <= m
    ensures forall i :: 0 <= i < |InsertByPassed(sorted, x)| ==> InsertByPassed(sorted, x)[i].passed <= m
    decreases |sorted|
  {
    if |sorted| > 0 && sorted[0].passed >= x.passed {
      InsertBelow(sorted[1..], x, m);
    }
  }

  /** Inserting into a sorted list keeps it sorted. */
  lemma {:induction false} InsertKeepsOrder(sorted: seq<UniStat>, x: UniStat)
    requires NonIncreasing(sorted)
    ensures NonIncreasing(InsertByPassed(sorted, x))
    decreases |sorted|
  {
    if |sorted| > 0 && sorted[0].passed >= x.passed {
      var rest := InsertByPassed(sorted[1..], x);
      InsertKeepsOrder(sorted[1..], x);
      InsertBelow(sorted[1..], x, sorted[0].passed);
      assert InsertByPassed(sorted, x) == [sorted[0]] + rest;
    }
  }

  /** `OrderByDescending(u => u.Passed)`, a stable sort. */
  function SortByPassed(s: seq<UniStat>): (r: seq<UniStat>)
    ensures NonIncreasing(r)
    ensures multiset(r) == multiset(s)
    decreases |s|
  {
    if |s| == 0 then []
    else
      assert s == s[..|s| - 1] + [s[|s| - 1]];
      var init := SortByPassed(s[..|s| - 1]);
      InsertKeepsOrder(init, s[|s| - 1]);
      InsertPermutes(init, s[|s| - 1]);
      InsertByPassed(init, s[|s| - 1])
  }

  function Keep(y: UniStat, v: nat): seq<UniStat> {
    if y.passed == v then [y] else []
  }

  /** The entries with the given number of passes, in order. */
  function WithPassed(s: seq<UniStat>, v: nat): seq<UniStat>
    decreases |s|
  {
    if |s| == 0 then [] else Keep(s[0], v) + WithPassed(s[1..], v)
  }

  lemma WithPassedCons(y: UniStat, s: seq<UniStat>, v: nat)
    ensures WithPassed([y] + s, v) == Keep(y, v) + WithPassed(s, v)
  {
    assert ([y] + s)[1..] == s;
  }

  lemma {:induction false} WithPassedAppend(s: seq<UniStat>, x: UniStat, v: nat)
    ensures WithPassed(s + [x], v) == WithPassed(s, v) + Keep(x, v)
    decreases |s|
  {
    if |s| == 0 {
      WithPassedCons(x, [], v);
      assert [x] + [] == [x];
    } else {
      var a := Keep(s[0], v);
      assert s + [x] == [s[0]] + (s[1..] + [x]);
      assert s == [s[0]] + s[1..];
      calc {
        WithPassed(s + [x], v);
        { WithPassedCons(s[0], s[1..] + [x], v); }
        a + WithPassed(s[1..] + [x], v);
        { WithPassedAppend(s[1..], x, v); }
        a + (WithPassed(s[1..], v) + Keep(x, v));
        (a + WithPassed(s[1..], v)) + Keep(x, v);
        { WithPassedCons(s[0], s[1..], v); }
        WithPassed(s, v) + Keep(x, v);
      }
    }
  }

  lemma {:induction false} WithPassedNone(s: seq<UniStat>, v: nat)
    requires forall i :: 0 <= i < |s| ==> s[i].passed < v
    ensures WithPassed(s, v) == []
    decreases |s|
  {
    if |s| > 0 {
      WithPassedNone(s[1..], v);
    }
  }

  /** Entries with the inserted entry's count stay ahead of it. */
  lemma {:induction false} InsertStable(sorted: seq<UniStat>, x: UniStat, v: nat)
    requires NonIncreasing(sorted)
    ensures WithPassed(InsertByPassed(sorted, x), v) == WithPassed(sorted, v) + Keep(x, v)
    decreases |sorted|
  {
    if |sorted| == 0 {
      WithPassedCons(x, [], v);
      assert [x] + [] == [x];
    } else if sorted[0].passed >= x.passed {
      InsertStable(sorted[1..], x, v);
      InsertStableBehind(sorted, x, v);
    } else {
      InsertStableAhead(sorted, x, v);
    }
  }

  lemma InsertStableBehind(sorted: seq<UniStat>, x: UniStat, v: nat)
    requires |sorted| > 0 && sorted[0].passed >= x.passed
    requires WithPassed(InsertByPassed(sorted[1..], x), v) == WithPassed(sorted[1..], v) + Keep(x, v)
    ensures WithPassed(InsertByPassed(sorted, x), v) == WithPassed(sorted, v) + Keep(x, v)
  {
    var rest := InsertByPassed(sorted[1..], x);
    var t := InsertByPassed(sorted, x);
    assert t == [sorted[0]] + rest;
    assert t[1..] == rest;
    SameHeadKeepsSuffix(sorted, t, v, Keep(x, v));
  }

  /** Two lists with the same head whose tails' filtered forms differ by a
      suffix differ by that suffix too. */
  lemma SameHeadKeepsSuffix(s: seq<UniStat>, t: seq<UniStat>, v: nat, k: seq<UniStat>)
    requires |s| > 0 && |t| > 0 && s[0] == t[0]
    requires WithPassed(t[1..], v) == WithPassed(s[1..], v) + k
    ensures WithPassed(t, v) == WithPassed(s, v) + k
  {
    var a := Keep(s[0], v);
    var ws := WithPassed(s[1..], v);
    assert WithPassed(t, v) == a + WithPassed(t[1..], v);
    assert WithPassed(s, v) == a + ws;
    ConcatAssoc(a, ws, k);
  }

  lemma ConcatAssoc<T>(a: seq<T>, b: seq<T>, c: seq<T>)
    ensures a + (b + c) == (a + b) + c
  {
  }

  lemma InsertStableAhead(sorted: seq<UniStat>, x: UniStat, v: nat)
    requires NonIncreasing(sorted)
    requires |sorted| > 0 && sorted[0].passed < x.passed
    ensures WithPassed(InsertByPassed(sorted, x), v) == WithPassed(sorted, v) + Keep(x, v)
  {
    assert InsertByPassed(sorted, x) == [x] + sorted;
    WithPassedCons(x, sorted, v);
    if x.passed == v {
      WithPassedNone(sorted, v);
      assert [x] + [] == [] + [x];
    } else {
      assert WithPassed(sorted, v) + [] == WithPassed(sorted, v);
    }
  }

  /** The sort is stable: entries with equal passes keep their relative
      order. */
  lemma {:induction false} SortByPassedStable(s: seq<UniStat>, v: nat)
    ensures WithPassed(SortByPassed(s), v) == WithPassed(s, v)
    decreases |s|
  {
    if |s| > 0 {
      var init := s[..|s| - 1];
      var x := s[|s| - 1];
      var sorted := SortByPassed(init);
      assert s == init + [x];
      calc {
        WithPassed(SortByPassed(s), v);
        WithPassed(InsertByPassed(sorted, x), v);
        { InsertStable(sorted, x, v); }
        WithPassed(sorted, v) + Keep(x, v);
        { SortByPassedStable(init, v); }
        WithPassed(init, v) + Keep(x, v);
        { WithPassedAppend(init, x, v); }
        WithPassed(s, v);
      }
    }
  }

  function IsSubmittedRow(r: AttemptRow): bool {
    r.submitted
  }

  datatype StatsError = DivideByZero

  datatype RankingReport = RankingReport(totalUniversities: nat, totalPassed: nat, totalFailed: nat,
                                         ranking: seq<UniStat>)

  /** `UniversityRanking` and `GetUniversityRankingStats`. The university
      count covers every attempt's student university, null included; the
      rest reads only submitted attempts. The percentage divides by the
      exam's total points, so a best attempt on an exam without points
      raises `DivideByZeroException`. */
  function UniversityRanking(rows: seq<AttemptRow>): (r: Result<RankingReport, StatsError>)
    ensures var best := BestAttempts(Where(rows, IsSubmittedRow));
            && (r.Success? <==> TotalsNonZero(best))
            && (r.Success? ==>
                  && r.value.totalUniversities == |set x | x in rows :: x.university|
                  && r.value.totalPassed == PassedCount(best)
                  && r.value.totalPassed + r.value.totalFailed == |best|
                  && NonIncreasing(r.value.ranking)
                  && multiset(r.value.ranking) == multiset(StatsBy(best, UniversityOf, UnknownIfNull)))
  {
    var best := BestAttempts(Where(rows, IsSubmittedRow));
    if !TotalsNonZero(best) then Failure(DivideByZero)
    else
      var unis := Distinct(Map(rows, UniversityOf));
      DistinctCount(rows);
      PassedPlusFailed(best);
      Success(RankingReport(|unis|, PassedCount(best), FailedCount(best),
                            SortByPassed(StatsBy(best, UniversityOf, UnknownIfNull))))
  }

  lemma DistinctCount(rows: seq<AttemptRow>)
    ensures |Distinct(Map(rows, UniversityOf))| == |set x | x in rows :: x.university|
  {
    var d := Distinct(Map(rows, UniversityOf));
    NoDuplicatesCard(d);
    assert (set u | u in d) == (set x | x in rows :: x.university) by {
      forall u ensures u in d <==> u in (set x | x in rows :: x.university) {
        if u in (set x | x in rows :: x.university) {
          var x :| x in rows && x.university == u;
          var j :| 0 <= j < |rows| && rows[j] == x;
          assert Map(rows, UniversityOf)[j] == u;
        }
      }
    }
  }

  /** Only submitted attempts enter the ranking. */
  lemma RankingIgnoresUnsubmitted(rows: seq<AttemptRow>)
    requires forall x :: x in rows ==> !x.submitted
    ensures UniversityRanking(rows).Success?
    ensures UniversityRanking(rows).value.ranking == []
    ensures UniversityRanking(rows).value.totalPassed == 0
  {
    assert Map([], KeyOf) == [];
  }

  /** A null university and a university actually named "Unknown" land in
      two separate groups that carry the same label. */
  lemma UnknownLabelShared(rows: seq<AttemptRow>, a: AttemptRow, b: AttemptRow)
    requires TotalsNonZero(rows)
    requires a in rows && b in rows
    requires a.university == None && b.university == Some("Unknown")
    ensures exists i, j :: 0 <= i < j < |StatsBy(rows, UniversityOf, UnknownIfNull)| &&
              StatsBy(rows, UniversityOf, UnknownIfNull)[i].university == "Unknown" &&
              StatsBy(rows, UniversityOf, UnknownIfNull)[j].university == "Unknown"
  {
    KeyListed(rows, a);
    KeyListed(rows, b);
    var ka := GroupOfKey(rows, None);
    var kb := GroupOfKey(rows, Some("Unknown"));
    var st := StatsBy(rows, UniversityOf, UnknownIfNull);
    if ka < kb {
      assert st[ka].university == "Unknown" && st[kb].university == "Unknown";
    } else {
      assert st[kb].university == "Unknown" && st[ka].university == "Unknown";
    }
  }

  /** The position of a university's group in the statistics, labelled
      from the university. */
  lemma GroupOfKey(rows: seq<AttemptRow>, u: Option<string>) returns (k: nat)
    requires TotalsNonZero(rows)
    requires u in Distinct(Map(rows, UniversityOf))
    ensures k < |StatsBy(rows, UniversityOf, UnknownIfNull)|
    ensures Distinct(Map(rows, UniversityOf))[k] == u
    ensures StatsBy(rows, UniversityOf, UnknownIfNull)[k].university == UnknownIfNull(u)
  {
    var keys := Distinct(Map(rows, UniversityOf));
    k :| 0 <= k < |keys| && keys[k] == u;
  }

  lemma KeyListed(rows: seq<AttemptRow>, x: AttemptRow)
    requires x in rows
    ensures x.university in Distinct(Map(rows, UniversityOf))
  {
    var j :| 0 <= j < |rows| && rows[j] == x;
    assert Map(rows, UniversityOf)[j] == x.university;
  }

  function CreatorOf(r: AttemptRow): string {
    r.creatorId
  }

  datatype EducatorStat = EducatorStat(educatorId: string, educatorName: string,
                                       universityStats: seq<UniStat>)

  /** One educator's entry: the name comes from the group's first member. */
  function EducatorEntry(best: seq<AttemptRow>, c: string): (r: EducatorStat)
    requires TotalsNonZero(best)
    requires c in Map(best, CreatorOf)
    ensures var g := Members(best, CreatorOf, c);
            && |g| > 0
            && r.educatorId == c
            && r.educatorName == g[0].creatorName.GetOr("Unknown")
            && Map(r.universityStats, UniLabelOf) == Distinct(Map(g, UniversityLabel))
            && forall i :: 0 <= i < |r.universityStats| ==>
                 var u := Members(g, UniversityLabel, r.universityStats[i].university);
                 && TotalsNonZero(u)
                 && r.universityStats[i].passed == PassedCount(u)
                 && r.universityStats[i].passed + r.universityStats[i].failed == |u|
  {
    var g := Members(best, CreatorOf, c);
    GroupsNonEmpty(best, CreatorOf, c);
    var st := StatsBy(g, UniversityLabel, AsLabel);
    assert Map(st, UniLabelOf) == Distinct(Map(g, UniversityLabel));
    EducatorStat(c, g[0].creatorName.GetOr("Unknown"), st)
  }

  function UniLabelOf(u: UniStat): string {
    u.university
  }

  /** `GetEducatorPerformanceStats`: best attempts over all attempts,
      submitted or not, grouped by the exam's creator. */
  function EducatorPerformance(rows: seq<AttemptRow>): (r: Result<seq<EducatorStat>, StatsError>)
    ensures var best := BestAttempts(rows);
            var cs := Distinct(Map(best, CreatorOf));
            && (r.Success? <==> TotalsNonZero(best))
            && (r.Success? ==>
                  && |r.value| == |cs|
                  && (forall i :: 0 <= i < |cs| ==> r.value[i] == EducatorEntry(best, cs[i]))
                  && Map(r.value, EducatorIdOf) == cs)
  {
    var best := BestAttempts(rows);
    if !TotalsNonZero(best) then Failure(DivideByZero)
    else
      var cs := Distinct(Map(best, CreatorOf));
      var es := seq(|cs|, i requires 0 <= i < |cs| => EducatorEntry(best, cs[i]));
      EntryIds(cs, es);
      Success(es)
  }

  function EducatorIdOf(e: EducatorStat): string {
    e.educatorId
  }

  lemma EntryIds(cs: seq<string>, es: seq<EducatorStat>)
    requires |es| == |cs|
    requires forall i :: 0 <= i < |cs| ==> es[i].educatorId == cs[i]
    ensures Map(es, EducatorIdOf) == cs
  {
  }

  /** Some best attempt was made on an exam of educator `c` by a student
      whose university label is `uni`. */
  predicate Attempted(best: seq<AttemptRow>, c: string, uni: string) {
    exists x :: x in best && x.creatorId == c && UniversityLabel(x) == uni
  }

  /** The educator statistics carry an entry for educator `c` and
      university label `uni`. */
  predicate Reports(es: seq<EducatorStat>, c: string, uni: string) {
    exists i, j :: 0 <= i < |es| && 0 <= j < |es[i].universityStats| &&
                   es[i].educatorId == c && es[i].universityStats[j].university == uni
  }

  /** The educator statistics report exactly the (educator, university)
      pairs of the best attempts: none is dropped and none is invented. */
  lemma EducatorStatsCoverBest(rows: seq<AttemptRow>, c: string, uni: string)
    requires EducatorPerformance(rows).Success?
    ensures Reports(EducatorPerformance(rows).value, c, uni) <==> Attempted(BestAttempts(rows), c, uni)
  {
    if Attempted(BestAttempts(rows), c, uni) {
      AttemptedIsReported(rows, c, uni);
    }
    if Reports(EducatorPerformance(rows).value, c, uni) {
      var es := EducatorPerformance(rows).value;
      var i, j :| 0 <= i < |es| && 0 <= j < |es[i].universityStats| &&
                  es[i].educatorId == c && es[i].universityStats[j].university == uni;
      ReportedIsAttempted(rows, i, j);
    }
  }

  lemma AttemptedIsReported(rows: seq<AttemptRow>, c: string, uni: string)
    requires EducatorPerformance(rows).Success?
    requires Attempted(BestAttempts(rows), c, uni)
    ensures Reports(EducatorPerformance(rows).value, c, uni)
  {
    var best := BestAttempts(rows);
    var es := EducatorPerformance(rows).value;
    var x :| x in best && x.creatorId == c && UniversityLabel(x) == uni;
    MapHas(best, CreatorOf, x);
    var cs := Distinct(Map(best, CreatorOf));
    assert c in cs;
    var i :| 0 <= i < |cs| && cs[i] == c;
    var e := EducatorEntry(best, c);
    assert es[i] == e;
    var g := Members(best, CreatorOf, c);
    MapHas(g, UniversityLabel, x);
    assert uni in Map(e.universityStats, UniLabelOf);
    var j :| 0 <= j < |e.universityStats| && Map(e.universityStats, UniLabelOf)[j] == uni;
    assert es[i].educatorId == c && es[i].universityStats[j].university == uni;
  }

  lemma ReportedIsAttempted(rows: seq<AttemptRow>, i: nat, j: nat)
    requires EducatorPerformance(rows).Success?
    requires i < |EducatorPerformance(rows).value|
    requires j < |EducatorPerformance(rows).value[i].universityStats|
    ensures var e := EducatorPerformance(rows).value[i];
            Attempted(BestAttempts(rows), e.educatorId, e.universityStats[j].university)
  {
    EntryAt(rows, i);
    EntryLabelAttempted(BestAttempts(rows), EducatorPerformance(rows).value[i].educatorId, j);
  }

  /** The `i`th educator entry is the entry of the `i`th distinct creator. */
  lemma EntryAt(rows: seq<AttemptRow>, i: nat)
    requires EducatorPerformance(rows).Success?
    requires i < |EducatorPerformance(rows).value|
    ensures var best := BestAttempts(rows);
            var e := EducatorPerformance(rows).value[i];
            TotalsNonZero(best) && e.educatorId in Map(best, CreatorOf) &&
            e == EducatorEntry(best, e.educatorId)
  {
    var best := BestAttempts(rows);
    var cs := Distinct(Map(best, CreatorOf));
    assert EducatorPerformance(rows).value[i] == EducatorEntry(best, cs[i]);
  }

  /** Every university label in an educator's entry comes from one of the
      educator's best attempts. */
  lemma EntryLabelAttempted(best: seq<AttemptRow>, c: string, j: nat)
    requires TotalsNonZero(best) && c in Map(best, CreatorOf)
    requires j < |EducatorEntry(best, c).universityStats|
    ensures Attempted(best, c, EducatorEntry(best, c).universityStats[j].university)
  {
    var e := EducatorEntry(best, c);
    var uni := e.universityStats[j].university;
    var g := Members(best, CreatorOf, c);
    assert Map(e.universityStats, UniLabelOf)[j] == uni;
    var x := MapFrom(g, UniversityLabel, uni);
    assert x in best && x.creatorId == c;
  }

  /** Unlike the ranking, educator statistics count unsubmitted attempts:
      an exam with only an unsubmitted attempt still yields an entry for its
      creator, counted as a failure. */
  lemma EducatorsCountUnsubmitted(x: AttemptRow)
    requires !x.submitted && x.score == 0.0 && x.examTotal > 0.0
    ensures UniversityRanking([x]).Success? && UniversityRanking([x]).value.ranking == []
    ensures EducatorPerformance([x]).Success?
    ensures EducatorPerformance([x]).value
            == [EducatorStat(x.creatorId, x.creatorName.GetOr("Unknown"),
                             [UniStat(UniversityLabel(x), 0, 1)])]
  {
    RankingIgnoresUnsubmitted([x]);
    EducatorOfOne(x);
  }

  /** The educator statistics of a single failing attempt. */
  lemma EducatorOfOne(x: AttemptRow)
    requires x.score == 0.0 && x.examTotal > 0.0
    ensures EducatorPerformance([x])
            == Success([EducatorStat(x.creatorId, x.creatorName.GetOr("Unknown"),
                                     [UniStat(UniversityLabel(x), 0, 1)])])
  {
    BestOfOne(x);
    SingleGroup(x, CreatorOf);
    SingleEducator(x);
    assert CreatorOf(x) == x.creatorId;
    assert BestAttempts([x]) == [x];
    assert Distinct(Map(BestAttempts([x]), CreatorOf)) == [x.creatorId];
    OneEducator([x], x.creatorId);
    assert EducatorEntry(BestAttempts([x]), x.creatorId) == EducatorEntry([x], x.creatorId);
  }

  /** When the best attempts all share one creator, there is one entry. */
  lemma OneEducator(rows: seq<AttemptRow>, c: string)
    requires TotalsNonZero(BestAttempts(rows))
    requires Distinct(Map(BestAttempts(rows), CreatorOf)) == [c]
    ensures c in Map(BestAttempts(rows), CreatorOf)
    ensures EducatorPerformance(rows) == Success([EducatorEntry(BestAttempts(rows), c)])
  {
    var best := BestAttempts(rows);
    var cs := Distinct(Map(best, CreatorOf));
    assert cs[0] in cs;
    var es := seq(|cs|, i requires 0 <= i < |cs| => EducatorEntry(best, cs[i]));
    assert es[0] == EducatorEntry(best, c);
    assert es == [EducatorEntry(best, c)];
  }

  /** A single row forms a single group. */
  lemma SingleGroup<K(!new)>(x: AttemptRow, key: AttemptRow -> K)
    ensures Map([x], key) == [key(x)]
    ensures Distinct([key(x)]) == [key(x)]
    ensures Members([x], key, key(x)) == [x]
  {
    assert [x][..0] == [];
    assert [key(x)][..0] == [];
  }

  lemma SingleEducator(x: AttemptRow)
    requires x.score == 0.0 && x.examTotal > 0.0
    ensures TotalsNonZero([x]) && x.creatorId in Map([x], CreatorOf)
    ensures EducatorEntry([x], x.creatorId)
            == EducatorStat(x.creatorId, x.creatorName.GetOr("Unknown"), [UniStat(UniversityLabel(x), 0, 1)])
  {
    SingleGroup(x, CreatorOf);
    SingleStats(x, UniversityLabel, AsLabel);
    assert EducatorEntry([x], x.creatorId)
           == EducatorStat(x.creatorId, x.creatorName.GetOr("Unknown"), StatsBy([x], UniversityLabel, AsLabel));
  }

  /** A failing single row yields one group with one failure. */
  lemma SingleStats<K(!new)>(x: AttemptRow, key: AttemptRow -> K, labelOf: K -> string)
    requires x.score == 0.0 && x.examTotal > 0.0
    ensures TotalsNonZero([x])
    ensures StatsBy([x], key, labelOf) == [UniStat(labelOf(key(x)), 0, 1)]
  {
    SingleGroup(x, key);
    OneRowFails(x);
    var g := GroupStat([x], key, labelOf, key(x));
    assert g == UniStat(labelOf(key(x)), 0, 1);
    OneGroup([x], key, labelOf, key(x));
  }

  /** Rows that all share one key form one group. */
  lemma OneGroup<K(!new)>(rows: seq<AttemptRow>, key: AttemptRow -> K, labelOf: K -> string, k: K)
    requires TotalsNonZero(rows)
    requires Distinct(Map(rows, key)) == [k]
    ensures StatsBy(rows, key, labelOf) == [GroupStat(rows, key, labelOf, k)]
  {
    var keys := Distinct(Map(rows, key));
    var st := seq(|keys|, i requires 0 <= i < |keys| => GroupStat(rows, key, labelOf, keys[i]));
    assert st[0] == GroupStat(rows, key, labelOf, k);
    assert st == [GroupStat(rows, key, labelOf, k)];
  }

  /** A single row scoring 0 of a positive total is no pass. */
  lemma OneRowFails(x: AttemptRow)
    requires x.score == 0.0 && x.examTotal > 0.0
    ensures TotalsNonZero([x]) && PassedCount([x]) == 0
  {
    assert [x][..0] == [];
    assert !Passes(x);
  }

  lemma BestOfOne(x: AttemptRow)
    ensures BestAttempts([x]) == [x]
  {
    SingleGroup(x, KeyOf);
  }

  // ---------------------------------------------------------------------
  // EditUser and the index page

  /** `a.Except(b)`: the distinct elements of `a` not in `b`, in order. */
  function Except(a: seq<string>, b: seq<string>): (r: seq<string>)
    ensures NoDuplicates(r)
    ensures forall x :: x in r <==> x in a && x !in b
    decreases |a|
  {
    if |a| == 0 then []
    else
      var init := Except(a[..|a| - 1], b);
      var x := a[|a| - 1];
      assert forall y :: y in a <==> y in a[..|a| - 1] || y == x;
      if x in b || x in init then init else init + [x]
  }

  datatype EditUserModel = EditUserModel(id: string, displayName: Option<string>, email: string,
                                         university: Option<string>, roles: seq<string>)

  datatype RoleSync = RoleSync(user: User, toAdd: seq<string>, toRemove: seq<string>)

  /** `EditUser` (POST): overwrites the profile fields, then adds the
      requested roles the user lacks and removes the current roles not
      requested. `currentRoles` is what the role store reports for the
      user. */
  function EditUser(users: seq<User>, currentRoles: seq<string>, model: EditUserModel)
    : (r: Result<RoleSync, ActionError>)
    ensures r.Failure? <==> forall u :: u in users ==> u.id != model.id
    ensures r.Failure? ==> r.error == NotFound
    ensures r.Success? ==>
              && r.value.user.id == model.id
              && r.value.user.profileImagePath == FindUser(users, model.id).value.profileImagePath
              && r.value.user.displayName == model.displayName
              && r.value.user.email == model.email
              && r.value.user.university == model.university
              && (forall x :: x in r.value.toAdd ==> x !in currentRoles)
              && (forall x :: x in r.value.toRemove ==> x in currentRoles)
              && forall x :: (x in currentRoles && x !in r.value.toRemove) || x in r.value.toAdd
                             <==> x in model.roles
  {
    match FindUser(users, model.id)
    case None => Failure(NotFound)
    case Some(u) =>
      Success(RoleSync(u.(displayName := model.displayName, email := model.email,
                          university := model.university),
                       Except(model.roles, currentRoles), Except(currentRoles, model.roles)))
  }

  /** Applying the difference yields exactly the requested roles. */
  lemma EditUserRolesMatchRequest(users: seq<User>, currentRoles: seq<string>, model: EditUserModel)
    requires exists u :: u in users && u.id == model.id
    ensures EditUser(users, currentRoles, model).Success?
    ensures var d := EditUser(users, currentRoles, model).value;
            (set x | x in currentRoles) - (set x | x in d.toRemove) + (set x | x in d.toAdd)
            == set x | x in model.roles
  {
  }

  function HasUniversity(u: User): bool {
    !IsNullOrEmpty(u.university)
  }

  function UniversityValue(u: User): string {
    u.university.GetOr("")
  }

  /** The index page's university count: distinct non-empty `University`
      strings over all users. */
  function UniversityCount(users: seq<User>): (n: nat)
    ensures n == |set u | u in users && HasUniversity(u) :: u.university.value|
  {
    var named := Where(users, HasUniversity);
    var d := Distinct(Map(named, UniversityValue));
    NoDuplicatesCard(d);
    assert (set x | x in d) == (set u | u in users && HasUniversity(u) :: u.university.value) by {
      forall x ensures x in d <==> x in (set u | u in users && HasUniversity(u) :: u.university.value) {
        if x in d {
          var j :| 0 <= j < |named| && Map(named, UniversityValue)[j] == x;
          assert named[j] in named;
        }
      }
    }
    |d|
  }
}
