/** Question authoring in `ExamsController`: `AddQuestion` and the option
    reconciliation of `EditQuestion`. Options created here carry key 0: the
    database assigns their keys when the change is saved. */
module QuestionEditing {
  import opened Common
  import opened Models
  import opened Seqs
  import opened Lifecycle

  function OptionIdOf(o: AnswerOption): int {
    o.id
  }

  function OptionIds(options: seq<AnswerOption>): seq<int> {
    Map(options, OptionIdOf)
  }

  /** The existing options whose ids the edited model still lists. */
  function KeepListed(existing: seq<AnswerOption>, ids: seq<int>): (r: seq<AnswerOption>)
    ensures forall o :: o in r <==> o in existing && o.id in ids
    decreases |existing|
  {
    if |existing| == 0 then []
    else
      var init := KeepListed(existing[..|existing| - 1], ids);
      var o := existing[|existing| - 1];
      assert forall p :: p in existing <==> p in existing[..|existing| - 1] || p == o;
      if o.id in ids then init + [o] else init
  }

  /** Overwrites text and correctness of the first option with the edit's
      id; nothing happens when no option has it. */
  function UpdateFirst(options: seq<AnswerOption>, edit: AnswerOption): seq<AnswerOption> {
    match FirstIndex(OptionIds(options), edit.id)
    case None => options
    case Some(k) => options[k := options[k].(text := edit.text, isCorrect := edit.isCorrect)]
  }

  /** One iteration of the loop over the model's options: id 0 adds a new
      option, any other id edits the matching existing one. */
  function ApplyEdit(options: seq<AnswerOption>, edit: AnswerOption): seq<AnswerOption> {
    if edit.id == 0 then options + [AnswerOption(0, edit.text, edit.isCorrect)]
    else UpdateFirst(options, edit)
  }

  function ApplyEdits(options: seq<AnswerOption>, edits: seq<AnswerOption>): seq<AnswerOption>
    decreases |edits|
  {
    if |edits| == 0 then options else ApplyEdits(ApplyEdit(options, edits[0]), edits[1..])
  }

  /** The options of a question after `EditQuestion`: the existing options
      the model no longer lists are removed, then the model's entries are
      applied in order. */
  function ReconcileOptions(existing: seq<AnswerOption>, model: seq<AnswerOption>): seq<AnswerOption> {
    ApplyEdits(KeepListed(existing, OptionIds(model)), model)
  }

  // ---------------------------------------------------------------------
  // Reference definition of the reconciliation

  /** The last model entry with the given id. */
  function LastEdit(edits: seq<AnswerOption>, id: int): Option<AnswerOption>
    decreases |edits|
  {
    if |edits| == 0 then None
    else if edits[|edits| - 1].id == id then Some(edits[|edits| - 1])
    else LastEdit(edits[..|edits| - 1], id)
  }

  /** An existing option as the edits leave it: the last entry naming its
      (non-zero) id decides its text and correctness. */
  function Edited(o: AnswerOption, edits: seq<AnswerOption>): AnswerOption {
    if o.id == 0 then o
    else
      match LastEdit(edits, o.id)
      case None => o
      case Some(m) => o.(text := m.text, isCorrect := m.isCorrect)
  }

  function EditAll(options: seq<AnswerOption>, edits: seq<AnswerOption>): (r: seq<AnswerOption>)
    ensures |r| == |options|
    ensures forall i :: 0 <= i < |options| ==> r[i] == Edited(options[i], edits)
  {
    seq(|options|, i requires 0 <= i < |options| => Edited(options[i], edits))
  }

  /** One new option per model entry with id 0, in model order. */
  function NewOptions(edits: seq<AnswerOption>): seq<AnswerOption>
    decreases |edits|
  {
    if |edits| == 0 then []
    else
      var m := edits[|edits| - 1];
      NewOptions(edits[..|edits| - 1])
        + (if m.id == 0 then [AnswerOption(0, m.text, m.isCorrect)] else [])
  }

  lemma MapAppend(a: seq<AnswerOption>, b: seq<AnswerOption>)
    ensures OptionIds(a + b) == OptionIds(a) + OptionIds(b)
  {
  }

  lemma EditAllIds(options: seq<AnswerOption>, edits: seq<AnswerOption>)
    ensures OptionIds(EditAll(options, edits)) == OptionIds(options)
  {
  }

  lemma {:induction false} NewOptionsIdsZero(edits: seq<AnswerOption>)
    ensures forall o :: o in NewOptions(edits) ==> o.id == 0
    decreases |edits|
  {
    if |edits| > 0 {
      NewOptionsIdsZero(edits[..|edits| - 1]);
    }
  }

  lemma NewOptionsAppend(edits: seq<AnswerOption>, m: AnswerOption)
    ensures NewOptions(edits + [m])
            == NewOptions(edits) + (if m.id == 0 then [AnswerOption(0, m.text, m.isCorrect)] else [])
  {
    assert (edits + [m])[..|edits|] == edits;
  }

  lemma LastEditAppend(edits: seq<AnswerOption>, m: AnswerOption, id: int)
    ensures LastEdit(edits + [m], id) == if m.id == id then Some(m) else LastEdit(edits, id)
  {
    assert (edits + [m])[..|edits|] == edits;
  }

  lemma EditedAppend(o: AnswerOption, done: seq<AnswerOption>, m: AnswerOption)
    ensures Edited(o, done + [m]) == if o.id == m.id && o.id != 0
                                     then o.(text := m.text, isCorrect := m.isCorrect)
                                     else Edited(o, done)
  {
    LastEditAppend(done, m, o.id);
  }

  /** An entry whose id no existing option has edits nothing. */
  lemma EditAllUnmatched(base: seq<AnswerOption>, done: seq<AnswerOption>, m: AnswerOption)
    requires m.id == 0 || forall j :: 0 <= j < |base| ==> base[j].id != m.id
    ensures EditAll(base, done + [m]) == EditAll(base, done)
  {
    forall j | 0 <= j < |base| ensures EditAll(base, done + [m])[j] == EditAll(base, done)[j] {
      EditedAppend(base[j], done, m);
    }
  }

  /** An entry naming exactly one existing option edits that option only. */
  lemma EditAllMatched(base: seq<AnswerOption>, done: seq<AnswerOption>, m: AnswerOption, k: nat)
    requires k < |base| && base[k].id == m.id != 0
    requires forall j :: 0 <= j < |base| && j != k ==> base[j].id != m.id
    ensures var a := EditAll(base, done);
            EditAll(base, done + [m]) == a[k := a[k].(text := m.text, isCorrect := m.isCorrect)]
  {
    var a := EditAll(base, done);
    forall j | 0 <= j < |base|
      ensures EditAll(base, done + [m])[j] == a[k := a[k].(text := m.text, isCorrect := m.isCorrect)][j]
    {
      EditedAppend(base[j], done, m);
    }
  }

  /** New options (key 0) are never the target of an edit with a non-zero
      id. */
  lemma UpdateFirstConcat(a: seq<AnswerOption>, b: seq<AnswerOption>, m: AnswerOption)
    requires m.id != 0
    requires forall o :: o in b ==> o.id == 0
    ensures UpdateFirst(a + b, m) == UpdateFirst(a, m) + b
  {
    MapAppend(a, b);
    assert m.id !in OptionIds(b) by {
      forall j | 0 <= j < |b| ensures OptionIds(b)[j] != m.id {
        assert b[j] in b;
      }
    }
    FirstIndexConcat(OptionIds(a), OptionIds(b), m.id);
    match FirstIndex(OptionIds(a), m.id) {
      case None =>
      case Some(k) =>
        UpdateInPrefix(a, b, k, a[k].(text := m.text, isCorrect := m.isCorrect));
    }
  }

  /** A search that cannot succeed in the tail sees only the prefix. */
  lemma {:induction false} FirstIndexConcat<T>(s: seq<T>, t: seq<T>, x: T)
    requires x !in t
    ensures FirstIndex(s + t, x) == FirstIndex(s, x)
    decreases |s|
  {
    if |s| == 0 {
      assert s + t == t;
    } else if s[0] != x {
      assert (s + t)[1..] == s[1..] + t;
      FirstIndexConcat(s[1..], t, x);
    }
  }

  lemma UpdateInPrefix(a: seq<AnswerOption>, b: seq<AnswerOption>, k: nat, o: AnswerOption)
    requires k < |a|
    ensures (a + b)[k := o] == a[k := o] + b
  {
  }

  /** One loop iteration agrees with the reference definition. */
  lemma ApplyEditStep(base: seq<AnswerOption>, done: seq<AnswerOption>, m: AnswerOption)
    requires NoDuplicates(OptionIds(base))
    ensures ApplyEdit(EditAll(base, done) + NewOptions(done), m)
            == EditAll(base, done + [m]) + NewOptions(done + [m])
  {
    var a := EditAll(base, done);
    var b := NewOptions(done);
    NewOptionsAppend(done, m);
    if m.id == 0 {
      EditAllUnmatched(base, done, m);
    } else {
      NewOptionsIdsZero(done);
      UpdateFirstConcat(a, b, m);
      EditAllIds(base, done);
      assert OptionIds(a) == OptionIds(base);
      match FirstIndex(OptionIds(a), m.id) {
        case None =>
          forall j | 0 <= j < |base| ensures base[j].id != m.id {
            assert OptionIds(base)[j] == base[j].id;
          }
          EditAllUnmatched(base, done, m);
        case Some(k) =>
          forall j | 0 <= j < |base| && j != k
            ensures base[j].id != m.id
          {
            assert OptionIds(base)[j] == base[j].id;
            assert OptionIds(base)[k] == base[k].id;
          }
          EditAllMatched(base, done, m, k);
      }
    }
  }

  /** The loop over the remaining entries agrees with the reference
      definition. */
  lemma {:induction false} ApplyEditsFrom(base: seq<AnswerOption>, done: seq<AnswerOption>,
                                          rest: seq<AnswerOption>)
    requires NoDuplicates(OptionIds(base))
    ensures ApplyEdits(EditAll(base, done) + NewOptions(done), rest)
            == EditAll(base, done + rest) + NewOptions(done + rest)
    decreases |rest|
  {
    if |rest| == 0 {
      assert done + rest == done;
    } else {
      var m := rest[0];
      var cur := EditAll(base, done) + NewOptions(done);
      var done' := done + [m];
      assert done' + rest[1..] == done + rest;
      calc {
        ApplyEdits(cur, rest);
        ApplyEdits(ApplyEdit(cur, m), rest[1..]);
        { ApplyEditStep(base, done, m); }
        ApplyEdits(EditAll(base, done') + NewOptions(done'), rest[1..]);
        { ApplyEditsFrom(base, done', rest[1..]); }
        EditAll(base, done' + rest[1..]) + NewOptions(done' + rest[1..]);
      }
    }
  }

  /** Keeping a subsequence keeps the ids distinct. */
  lemma {:induction false} KeepListedDistinct(existing: seq<AnswerOption>, ids: seq<int>)
    requires NoDuplicates(OptionIds(existing))
    ensures NoDuplicates(OptionIds(KeepListed(existing, ids)))
    decreases |existing|
  {
    if |existing| > 0 {
      var init := existing[..|existing| - 1];
      var o := existing[|existing| - 1];
      assert OptionIds(init) == OptionIds(existing)[..|existing| - 1];
      KeepListedDistinct(init, ids);
      var k := KeepListed(init, ids);
      if o.id in ids {
        forall p | p in k ensures p.id != o.id {
          var j :| 0 <= j < |init| && init[j] == p;
          assert OptionIds(existing)[j] == p.id;
          assert OptionIds(existing)[|existing| - 1] == o.id;
        }
        var ks := OptionIds(k + [o]);
        forall i, j | 0 <= i < j < |ks| ensures ks[i] != ks[j] {
          if j == |k| {
            assert k[i] in k;
          } else {
            assert OptionIds(k)[i] == ks[i] && OptionIds(k)[j] == ks[j];
          }
        }
      }
    }
  }

  /** With distinct option keys, `EditQuestion` keeps exactly the existing
      options the model lists, in their order, each with the text and
      correctness of the last model entry naming it, followed by one new
      option per model entry with id 0, in model order. */
  lemma ReconcileMatchesReference(existing: seq<AnswerOption>, model: seq<AnswerOption>)
    requires NoDuplicates(OptionIds(existing))
    ensures ReconcileOptions(existing, model)
            == EditAll(KeepListed(existing, OptionIds(model)), model) + NewOptions(model)
  {
    var kept := KeepListed(existing, OptionIds(model));
    KeepListedDistinct(existing, OptionIds(model));
    assert EditAll(kept, []) == kept;
    ApplyEditsFrom(kept, [], model);
    assert [] + model == model;
    assert EditAll(kept, []) + NewOptions([]) == kept;
  }

  /** Consequently every option after the edit is either an existing option
      the model lists or a new one with key 0: a non-zero id the question
      did not already have never appears. */
  lemma ReconcileIds(existing: seq<AnswerOption>, model: seq<AnswerOption>)
    requires NoDuplicates(OptionIds(existing))
    ensures forall o :: o in ReconcileOptions(existing, model) ==>
              o.id == 0 || (o.id in OptionIds(existing) && o.id in OptionIds(model))
  {
    ReconcileMatchesReference(existing, model);
    var kept := KeepListed(existing, OptionIds(model));
    NewOptionsIdsZero(model);
    forall o | o in ReconcileOptions(existing, model)
      ensures o.id == 0 || (o.id in OptionIds(existing) && o.id in OptionIds(model))
    {
      if o !in NewOptions(model) {
        var p := EditedFrom(kept, model, o);
        IdListed(existing, p);
      }
    }
  }

  /** An edited option is one of the options it was edited from, key and
      all. */
  lemma EditedFrom(options: seq<AnswerOption>, edits: seq<AnswerOption>, o: AnswerOption) returns (p: AnswerOption)
    requires o in EditAll(options, edits)
    ensures p in options && p.id == o.id
  {
    var j :| 0 <= j < |options| && EditAll(options, edits)[j] == o;
    p := options[j];
  }

  lemma IdListed(options: seq<AnswerOption>, p: AnswerOption)
    requires p in options
    ensures p.id in OptionIds(options)
  {
    var t :| 0 <= t < |options| && options[t] == p;
    assert OptionIds(options)[t] == p.id;
  }

  // ---------------------------------------------------------------------
  // The actions

  function QuestionIdOf(q: Question): int {
    q.id
  }

  /** `EditQuestion` (POST): the first question with the model's id gets the
      model's text and points and reconciled options; its type and exam are
      left alone. */
  function EditQuestion(questions: seq<Question>, model: Question): (r: Result<seq<Question>, ActionError>)
    ensures r.Failure? <==> forall q :: q in questions ==> q.id != model.id
    ensures r.Failure? ==> r.error == NotFound
    ensures r.Success? ==>
              var k := FirstIndex(Map(questions, QuestionIdOf), model.id).value;
              && |r.value| == |questions|
              && (forall j :: 0 <= j < |questions| && j != k ==> r.value[j] == questions[j])
              && r.value[k].id == model.id
              && r.value[k].examId == questions[k].examId
              && r.value[k].kind == questions[k].kind
              && r.value[k].text == model.text
              && r.value[k].points == model.points
              && r.value[k].options == ReconcileOptions(questions[k].options, model.options)
  {
    var ids := Map(questions, QuestionIdOf);
    assert forall q :: q in questions ==> QuestionIdOf(q) in ids;
    match FirstIndex(ids, model.id)
    case None => Failure(NotFound)
    case Some(k) =>
      var q := questions[k];
      Success(questions[k := q.(text := model.text, points := model.points,
                                options := ReconcileOptions(q.options, model.options))])
  }

  /** The request body of `AddQuestion`. */
  datatype OptionDto = OptionDto(text: string, isCorrect: bool)
  datatype QuestionDto = QuestionDto(examId: int, text: string, kind: string, points: real,
                                     options: seq<OptionDto>)

  /** The type field is matched exactly: only "TrueFalse" yields a true/false
      question, anything else a multiple-choice one. */
  function ParseQuestionType(kind: string): (t: QuestionType)
    ensures t == TrueFalse <==> kind == "TrueFalse"
  {
    if kind == "TrueFalse" then TrueFalse else MCQ
  }

  function OptionFromDto(o: OptionDto): AnswerOption {
    AnswerOption(0, o.text, o.isCorrect)
  }

  /** `AddQuestion`: the new question, with the key the database gives it,
      or NotFound when the exam does not exist. */
  function AddQuestion(exams: seq<Exam>, dto: QuestionDto, newId: int): (r: Result<Question, ActionError>)
    ensures r.Failure? <==> forall e :: e in exams ==> e.id != dto.examId
    ensures r.Failure? ==> r.error == NotFound
    ensures r.Success? ==>
              && r.value.id == newId && r.value.examId == dto.examId
              && r.value.text == dto.text && r.value.points == dto.points
              && (r.value.kind == TrueFalse <==> dto.kind == "TrueFalse")
              && |r.value.options| == |dto.options|
              && forall i :: 0 <= i < |dto.options| ==>
                   r.value.options[i].text == dto.options[i].text &&
                   r.value.options[i].isCorrect == dto.options[i].isCorrect
  {
    match FindExam(exams, dto.examId)
    case None => Failure(NotFound)
    case Some(_) =>
      Success(Question(newId, dto.examId, dto.text, ParseQuestionType(dto.kind), dto.points,
                       Map(dto.options, OptionFromDto)))
  }

  /** The match is case-sensitive: "truefalse" yields a multiple-choice
      question. */
  lemma TypeMatchIsCaseSensitive()
    ensures ParseQuestionType("truefalse") == MCQ
    ensures ParseQuestionType("TrueFalse") == TrueFalse
  {
    assert "truefalse" != "TrueFalse" by {
      assert "truefalse"[0] != "TrueFalse"[0];
    }
  }
}
