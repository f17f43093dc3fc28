/**
 * The quiz package's gorm-backed store. The three tables (quizzes,
 * questions, answers) are maps from primary key to row; auto-increment
 * keys come from two counters. `UpdateQuiz` reconciles the stored
 * questions and answers of one quiz with an incoming quiz inside a
 * transaction: matching rows are updated, unknown ones created and the
 * ones no longer present deleted.
 */
module QuizGormRepository {
  import opened Wrappers
  import GameCommon
  import MapEnum

  /** The records as the handlers pass them in and get them back. */
  datatype Answer = Answer(
    id: nat,
    isCorrect: bool,
    text: string,
    latex: string,
    imageName: string,
    image: seq<GameCommon.Byte>)

  datatype Question = Question(id: nat, text: string, answers: seq<Answer>)

  datatype Quiz = Quiz(
    id: nat,
    title: string,
    password: string,
    description: string,
    questions: seq<Question>)

  datatype QuizMetadata = QuizMetadata(id: nat, title: string)

  /** Table rows: the record minus its key and children, plus its foreign key. */
  datatype QuizRow = QuizRow(title: string, password: string, description: string)

  datatype QuestionRow = QuestionRow(quizId: nat, text: string)

  datatype AnswerRow = AnswerRow(
    questionId: nat,
    isCorrect: bool,
    text: string,
    latex: string,
    imageName: string,
    image: seq<GameCommon.Byte>)

  /** The whole database, with the next key each table will hand out. */
  datatype Tables = Tables(
    quizzes: map<nat, QuizRow>,
    questions: map<nat, QuestionRow>,
    answers: map<nat, AnswerRow>,
    nextQuestionId: nat,
    nextAnswerId: nat)

  datatype RepoError =
    | QuizNotFound        // ErrQuizNotFound, "Quiz not found"
    | MissingWhereClause  // gorm refuses an update whose model has a zero primary key
    | DatabaseError       // any other error the database reports

  /**
   * Keys are positive and below their counter, and every answer points
   * at a question key already handed out.
   */
  ghost predicate Consistent(t: Tables)
  {
    && 0 < t.nextQuestionId
    && 0 < t.nextAnswerId
    && (forall k :: k in t.questions ==> 0 < k < t.nextQuestionId)
    && (forall k :: k in t.answers ==> 0 < k < t.nextAnswerId)
    && (forall k :: k in t.answers ==> t.answers[k].questionId < t.nextQuestionId)
  }

  /** gorm's `Updates` with a struct writes only the fields that are not their zero value. */
  function Pick<T(==)>(incoming: T, zero: T, stored: T): (r: T)
    ensures r == incoming || r == stored
    ensures incoming != zero ==> r == incoming
  {
    if incoming != zero then incoming else stored
  }

  function MergeQuiz(row: QuizRow, q: Quiz): QuizRow
  {
    QuizRow(Pick(q.title, "", row.title), Pick(q.password, "", row.password), Pick(q.description, "", row.description))
  }

  function MergeAnswer(row: AnswerRow, a: Answer): AnswerRow
  {
    row.(isCorrect := Pick(a.isCorrect, false, row.isCorrect),
         text := Pick(a.text, "", row.text),
         latex := Pick(a.latex, "", row.latex),
         imageName := Pick(a.imageName, "", row.imageName),
         image := Pick(a.image, [], row.image))
  }

  function NewAnswerRow(questionId: nat, a: Answer): AnswerRow
  {
    AnswerRow(questionId, a.isCorrect, a.text, a.latex, a.imageName, a.image)
  }

  function AnswerIds(list: seq<Answer>): set<nat>
  {
    set a | a in list :: a.id
  }

  function QuestionIds(list: seq<Question>): set<nat>
  {
    set q | q in list :: q.id
  }

  function AnswersOf(rows: map<nat, AnswerRow>, questionId: nat): set<nat>
  {
    set k | k in rows && rows[k].questionId == questionId
  }

  function QuestionsOf(rows: map<nat, QuestionRow>, quizId: nat): set<nat>
  {
    set k | k in rows && rows[k].quizId == quizId
  }

  function Without<R>(rows: map<nat, R>, doomed: set<nat>): map<nat, R>
  {
    map k | k in rows && k !in doomed :: rows[k]
  }

  predicate DistinctAnswerIds(list: seq<Answer>)
  {
    forall i, j :: 0 <= i < j < |list| ==> list[i].id != list[j].id
  }

  predicate DistinctQuestionIds(list: seq<Question>)
  {
    forall i, j :: 0 <= i < j < |list| ==> list[i].id != list[j].id
  }

  /** One pass of the answer loop: update the answer of this question with that key, or create one. */
  function StepAnswer(rows: map<nat, AnswerRow>, next: nat, questionId: nat, a: Answer): (map<nat, AnswerRow>, nat)
  {
    if a.id in rows && rows[a.id].questionId == questionId then
      (rows[a.id := MergeAnswer(rows[a.id], a)], next)
    else
      (rows[next := NewAnswerRow(questionId, a)], next + 1)
  }

  function UpsertAnswers(rows: map<nat, AnswerRow>, next: nat, questionId: nat, list: seq<Answer>): (map<nat, AnswerRow>, nat)
    decreases |list|
  {
    if list == [] then (rows, next)
    else
      var before := UpsertAnswers(rows, next, questionId, list[..|list| - 1]);
      StepAnswer(before.0, before.1, questionId, list[|list| - 1])
  }

  /** `updateAnswers`: upsert every incoming answer, then delete the question's earlier answers not mentioned. */
  function ReconcileAnswers(rows: map<nat, AnswerRow>, next: nat, questionId: nat, list: seq<Answer>): (map<nat, AnswerRow>, nat)
  {
    var upserted := UpsertAnswers(rows, next, questionId, list);
    (Without(upserted.0, AnswersOf(rows, questionId) - AnswerIds(list)), upserted.1)
  }

  /** One pass of the question loop, answers included. */
  function StepQuestion(t: Tables, quizId: nat, question: Question): Tables
  {
    if question.id in t.questions && t.questions[question.id].quizId == quizId then
      var row := t.questions[question.id];
      var reconciled := ReconcileAnswers(t.answers, t.nextAnswerId, question.id, question.answers);
      t.(questions := t.questions[question.id := row.(text := Pick(question.text, "", row.text))],
         answers := reconciled.0,
         nextAnswerId := reconciled.1)
    else
      var id := t.nextQuestionId;
      var reconciled := ReconcileAnswers(t.answers, t.nextAnswerId, id, question.answers);
      t.(questions := t.questions[id := QuestionRow(quizId, question.text)],
         nextQuestionId := id + 1,
         answers := reconciled.0,
         nextAnswerId := reconciled.1)
  }

  function UpsertQuestions(t: Tables, quizId: nat, list: seq<Question>): Tables
    decreases |list|
  {
    if list == [] then t
    else StepQuestion(UpsertQuestions(t, quizId, list[..|list| - 1]), quizId, list[|list| - 1])
  }

  /** The tables after a committed `UpdateQuiz(q)`. */
  function UpdatedTables(t: Tables, q: Quiz): Tables
  {
    var merged := t.(quizzes := if q.id in t.quizzes then t.quizzes[q.id := MergeQuiz(t.quizzes[q.id], q)] else t.quizzes);
    var upserted := UpsertQuestions(merged, q.id, q.questions);
    upserted.(questions := Without(upserted.questions, QuestionsOf(t.questions, q.id) - QuestionIds(q.questions)))
  }

  /** The keys the answer upsert pass leaves: the earlier ones plus a run of fresh ones. */
  lemma {:induction false} UpsertAnswersKeys(rows: map<nat, AnswerRow>, next: nat, questionId: nat, list: seq<Answer>)
    requires forall k :: k in rows ==> k < next
    ensures var r := UpsertAnswers(rows, next, questionId, list);
      && next <= r.1 <= next + |list|
      && (forall k :: k in r.0 <==> k in rows || next <= k < r.1)
    decreases |list|
  {
    if list != [] {
      UpsertAnswersKeys(rows, next, questionId, list[..|list| - 1]);
    }
  }

  /** Earlier rows stay, keep their question and keep their correct mark. */
  lemma {:induction false} UpsertAnswersKeep(rows: map<nat, AnswerRow>, next: nat, questionId: nat, list: seq<Answer>)
    requires forall k :: k in rows ==> k < next
    ensures var r := UpsertAnswers(rows, next, questionId, list);
      && (forall k :: k in rows ==> k in r.0 && r.0[k].questionId == rows[k].questionId)
      && (forall k :: k in rows && rows[k].isCorrect ==> r.0[k].isCorrect)
    decreases |list|
  {
    if list != [] {
      UpsertAnswersKeep(rows, next, questionId, list[..|list| - 1]);
      UpsertAnswersKeys(rows, next, questionId, list[..|list| - 1]);
    }
  }

  /** Earlier rows are untouched unless they belong to this question and are mentioned. */
  lemma {:induction false} UpsertAnswersRows(rows: map<nat, AnswerRow>, next: nat, questionId: nat, list: seq<Answer>)
    requires forall k :: k in rows ==> k < next
    ensures var r := UpsertAnswers(rows, next, questionId, list);
      forall k :: k in rows && (rows[k].questionId != questionId || k !in AnswerIds(list)) ==> k in r.0 && r.0[k] == rows[k]
    decreases |list|
  {
    if list != [] {
      var init := list[..|list| - 1];
      var a := list[|list| - 1];
      assert list == init + [a];
      assert AnswerIds(list) == AnswerIds(init) + {a.id};
      UpsertAnswersRows(rows, next, questionId, init);
      UpsertAnswersKeys(rows, next, questionId, init);
    }
  }

  /** The rows the pass creates belong to this question. */
  lemma {:induction false} UpsertAnswersFresh(rows: map<nat, AnswerRow>, next: nat, questionId: nat, list: seq<Answer>)
    requires forall k :: k in rows ==> k < next
    ensures var r := UpsertAnswers(rows, next, questionId, list);
      forall k :: k in r.0 && k !in rows ==> r.0[k].questionId == questionId
    decreases |list|
  {
    if list != [] {
      UpsertAnswersFresh(rows, next, questionId, list[..|list| - 1]);
      UpsertAnswersKeys(rows, next, questionId, list[..|list| - 1]);
    }
  }

  /** With distinct incoming ids, each mentioned answer of the question is the stored row merged with it. */
  lemma {:induction false} UpsertAnswersMerge(rows: map<nat, AnswerRow>, next: nat, questionId: nat, list: seq<Answer>)
    requires forall k :: k in rows ==> k < next
    requires DistinctAnswerIds(list)
    ensures var r := UpsertAnswers(rows, next, questionId, list);
      forall a :: a in list && a.id in rows && rows[a.id].questionId == questionId ==>
        a.id in r.0 && r.0[a.id] == MergeAnswer(rows[a.id], a)
    decreases |list|
  {
    if list != [] {
      var init := list[..|list| - 1];
      var a := list[|list| - 1];
      assert list == init + [a];
      assert DistinctAnswerIds(init);
      var before := UpsertAnswers(rows, next, questionId, init);
      UpsertAnswersMerge(rows, next, questionId, init);
      UpsertAnswersRows(rows, next, questionId, init);
      UpsertAnswersKeys(rows, next, questionId, init);
      forall b | b in list && b.id in rows && rows[b.id].questionId == questionId
        ensures b.id in UpsertAnswers(rows, next, questionId, list).0
        ensures UpsertAnswers(rows, next, questionId, list).0[b.id] == MergeAnswer(rows[b.id], b)
      {
        if b == a {
          assert a.id !in AnswerIds(init);
        } else {
          assert b in init;
          var i :| 0 <= i < |init| && init[i] == b;
          assert list[i].id != list[|list| - 1].id;
          StepAnswerKeeps(before.0, before.1, questionId, a, b.id);
        }
      }
    }
  }

  /** One pass of the answer loop leaves every other existing row as it was. */
  lemma StepAnswerKeeps(rows: map<nat, AnswerRow>, next: nat, questionId: nat, a: Answer, k: nat)
    requires k in rows && k < next && k != a.id
    ensures k in StepAnswer(rows, next, questionId, a).0
    ensures StepAnswer(rows, next, questionId, a).0[k] == rows[k]
  {
  }

  /**
   * `updateAnswers` (repository.go 144-200): answers of other questions
   * stay as they were; of this question's earlier answers exactly those
   * mentioned by id survive, updated field by field with the non-zero
   * incoming values; every other answer of the question is new; and an
   * answer once marked correct cannot be unmarked, since `false` is the
   * zero value the update skips.
   */
  lemma ReconcileAnswersFacts(rows: map<nat, AnswerRow>, next: nat, questionId: nat, list: seq<Answer>)
    requires forall k :: k in rows ==> k < next
    ensures var r := ReconcileAnswers(rows, next, questionId, list);
      && next <= r.1
      && (forall k :: k in r.0 ==> k in rows || next <= k < r.1)
      && (forall k :: k in rows && rows[k].questionId != questionId ==> k in r.0 && r.0[k] == rows[k])
      && (forall k :: k in AnswersOf(rows, questionId) ==> (k in r.0 <==> k in AnswerIds(list)))
      && (forall k :: k in r.0 ==> r.0[k].questionId == questionId || (k in rows && r.0[k] == rows[k]))
      && (forall k :: k in r.0 && r.0[k].questionId == questionId ==> (k in rows && k in AnswerIds(list)) || next <= k)
      && (forall k :: k in r.0 && k in rows && rows[k].isCorrect ==> r.0[k].isCorrect)
      && (DistinctAnswerIds(list) ==>
            forall a :: a in list && a.id in rows && rows[a.id].questionId == questionId ==>
              r.0[a.id] == MergeAnswer(rows[a.id], a))
  {
    UpsertAnswersKeys(rows, next, questionId, list);
    UpsertAnswersKeep(rows, next, questionId, list);
    UpsertAnswersRows(rows, next, questionId, list);
    UpsertAnswersFresh(rows, next, questionId, list);
    if DistinctAnswerIds(list) {
      UpsertAnswersMerge(rows, next, questionId, list);
    }
  }

  /** One pass of the question loop keeps the tables consistent and touches only that question and its answers. */
  lemma StepQuestionFacts(t: Tables, quizId: nat, question: Question)
    requires Consistent(t)
    ensures var u := StepQuestion(t, quizId, question);
      && Consistent(u)
      && u.quizzes == t.quizzes
      && t.nextQuestionId <= u.nextQuestionId
      && (forall k :: k in u.questions <==> k in t.questions || t.nextQuestionId <= k < u.nextQuestionId)
      && (forall k :: k in t.questions ==> u.questions[k].quizId == t.questions[k].quizId)
      && (forall k :: k in t.questions && (t.questions[k].quizId != quizId || k != question.id) ==> u.questions[k] == t.questions[k])
      && (forall k :: t.nextQuestionId <= k < u.nextQuestionId ==> u.questions[k].quizId == quizId)
      && (question.id in QuestionsOf(t.questions, quizId) ==>
            u.questions[question.id].text == Pick(question.text, "", t.questions[question.id].text))
      && (forall k :: k in t.answers && !(t.answers[k].questionId == question.id && question.id in QuestionsOf(t.questions, quizId)) ==>
            k in u.answers && u.answers[k] == t.answers[k])
  {
    var matched := question.id in t.questions && t.questions[question.id].quizId == quizId;
    ReconcileAnswersFacts(t.answers, t.nextAnswerId, if matched then question.id else t.nextQuestionId, question.answers);
  }

  /** The question upsert pass: what it keeps, what it creates, which answers it leaves alone. */
  lemma {:induction false} UpsertQuestionsFacts(t: Tables, quizId: nat, list: seq<Question>)
    requires Consistent(t)
    ensures var u := UpsertQuestions(t, quizId, list);
      && Consistent(u)
      && u.quizzes == t.quizzes
      && t.nextQuestionId <= u.nextQuestionId
      && (forall k :: k in u.questions <==> k in t.questions || t.nextQuestionId <= k < u.nextQuestionId)
      && (forall k :: k in t.questions ==> u.questions[k].quizId == t.questions[k].quizId)
      && (forall k :: k in t.questions && (t.questions[k].quizId != quizId || k !in QuestionIds(list)) ==> u.questions[k] == t.questions[k])
      && (forall k :: t.nextQuestionId <= k < u.nextQuestionId ==> u.questions[k].quizId == quizId)
      && (forall k :: k in t.answers && !(t.answers[k].questionId in QuestionIds(list) && t.answers[k].questionId in QuestionsOf(t.questions, quizId)) ==>
            k in u.answers && u.answers[k] == t.answers[k])
    decreases |list|
  {
    if list != [] {
      var init := list[..|list| - 1];
      var last := list[|list| - 1];
      assert list == init + [last];
      assert QuestionIds(list) == QuestionIds(init) + {last.id};
      UpsertQuestionsFacts(t, quizId, init);
      var p := UpsertQuestions(t, quizId, init);
      StepQuestionFacts(p, quizId, last);
    }
  }

  /** With distinct incoming ids, each mentioned question of the quiz gets the incoming text unless it is empty. */
  lemma {:induction false} UpsertQuestionsText(t: Tables, quizId: nat, list: seq<Question>)
    requires Consistent(t)
    requires DistinctQuestionIds(list)
    ensures var u := UpsertQuestions(t, quizId, list);
      forall q :: q in list && q.id in QuestionsOf(t.questions, quizId) ==>
        q.id in u.questions && u.questions[q.id].text == Pick(q.text, "", t.questions[q.id].text)
    decreases |list|
  {
    if list != [] {
      var init := list[..|list| - 1];
      var last := list[|list| - 1];
      assert list == init + [last];
      assert DistinctQuestionIds(init);
      UpsertQuestionsText(t, quizId, init);
      UpsertQuestionsFacts(t, quizId, init);
      var p := UpsertQuestions(t, quizId, init);
      StepQuestionFacts(p, quizId, last);
      assert last.id !in QuestionIds(init);
      forall q | q in list && q.id in QuestionsOf(t.questions, quizId)
        ensures UpsertQuestions(t, quizId, list).questions[q.id].text == Pick(q.text, "", t.questions[q.id].text)
      {
        if q != last {
          assert q in init;
          var i :| 0 <= i < |init| && init[i] == q;
          assert list[i].id != list[|list| - 1].id;
        } else {
          assert p.questions[q.id] == t.questions[q.id];
        }
      }
    }
  }

  /**
   * `UpdateQuiz` (repository.go 54-142), when it commits: questions of
   * other quizzes are untouched; of this quiz's earlier questions exactly
   * those mentioned by id survive, with their text updated unless the
   * incoming text is empty; every other question of the quiz is new; and
   * answers are touched only for surviving questions, so the answers of
   * a deleted question stay in their table.
   */
  lemma UpdatedTablesFacts(t: Tables, q: Quiz)
    requires Consistent(t)
    ensures var r := UpdatedTables(t, q);
      && Consistent(r)
      && r.quizzes == (if q.id in t.quizzes then t.quizzes[q.id := MergeQuiz(t.quizzes[q.id], q)] else t.quizzes)
      && (forall k :: k in t.questions && t.questions[k].quizId != q.id ==> k in r.questions && r.questions[k] == t.questions[k])
      && (forall k :: k in QuestionsOf(t.questions, q.id) ==> (k in r.questions <==> k in QuestionIds(q.questions)))
      && (forall k :: k in r.questions && r.questions[k].quizId == q.id ==>
            (k in t.questions && k in QuestionIds(q.questions)) || t.nextQuestionId <= k)
      && (forall k :: k in t.answers && !(t.answers[k].questionId in QuestionIds(q.questions) && t.answers[k].questionId in QuestionsOf(t.questions, q.id)) ==>
            k in r.answers && r.answers[k] == t.answers[k])
      && (DistinctQuestionIds(q.questions) ==>
            forall question :: question in q.questions && question.id in QuestionsOf(t.questions, q.id) ==>
              r.questions[question.id].text == Pick(question.text, "", t.questions[question.id].text))
  {
    var merged := t.(quizzes := if q.id in t.quizzes then t.quizzes[q.id := MergeQuiz(t.quizzes[q.id], q)] else t.quizzes);
    UpsertQuestionsFacts(merged, q.id, q.questions);
    if DistinctQuestionIds(q.questions) {
      UpsertQuestionsText(merged, q.id, q.questions);
    }
  }

  /** Ranging over the rows a `Where` found lists exactly the matching keys. */
  lemma ListedAnswers(rows: map<nat, AnswerRow>, questionId: nat, ks: seq<nat>)
    requires MapEnum.Enumerates(ks, (map k: nat | k in rows && rows[k].questionId == questionId :: rows[k]).Keys)
    ensures (set k | k in ks) == AnswersOf(rows, questionId)
  {
  }

  lemma ListedQuestions(rows: map<nat, QuestionRow>, quizId: nat, ks: seq<nat>)
    requires MapEnum.Enumerates(ks, (map k: nat | k in rows && rows[k].quizId == quizId :: rows[k]).Keys)
    ensures (set k | k in ks) == QuestionsOf(rows, quizId)
  {
  }

  class GormQuizRepository {
    var quizzes: map<nat, QuizRow>
    var questions: map<nat, QuestionRow>
    var answers: map<nat, AnswerRow>
    var nextQuestionId: nat
    var nextAnswerId: nat

    ghost function State(): Tables
      reads this
    {
      Tables(quizzes, questions, answers, nextQuestionId, nextAnswerId)
    }

    ghost predicate Valid()
      reads this
    {
      Consistent(State())
    }

    /** `NewGormQuizRepository` over an empty database. */
    constructor ()
      ensures Valid()
      ensures quizzes == map[] && questions == map[] && answers == map[]
    {
      quizzes := map[];
      questions := map[];
      answers := map[];
      nextQuestionId := 1;
      nextAnswerId := 1;
    }

    /** Whether some incoming answer carries `id` (the inner search of the delete loop). */
    static method MentionsAnswer(list: seq<Answer>, id: nat) returns (found: bool)
      ensures found <==> id in AnswerIds(list)
    {
      found := false;
      var i := 0;
      while i < |list|
        invariant 0 <= i <= |list|
        invariant !found ==> forall j :: 0 <= j < i ==> list[j].id != id
        invariant found ==> id in AnswerIds(list)
      {
        if list[i].id == id {
          found := true;
          break;
        }
        i := i + 1;
      }
    }

    static method MentionsQuestion(list: seq<Question>, id: nat) returns (found: bool)
      ensures found <==> id in QuestionIds(list)
    {
      found := false;
      var i := 0;
      while i < |list|
        invariant 0 <= i <= |list|
        invariant !found ==> forall j :: 0 <= j < i ==> list[j].id != id
        invariant found ==> id in QuestionIds(list)
      {
        if list[i].id == id {
          found := true;
          break;
        }
        i := i + 1;
      }
    }

    /** One pass of the answer loop: update the answer of this question with that key, or create one. */
    method UpsertAnswer(questionId: nat, a: Answer)
      modifies this
      ensures (answers, nextAnswerId) == StepAnswer(old(answers), old(nextAnswerId), questionId, a)
      ensures quizzes == old(quizzes) && questions == old(questions) && nextQuestionId == old(nextQuestionId)
    {
      if a.id in answers && answers[a.id].questionId == questionId {
        answers := answers[a.id := MergeAnswer(answers[a.id], a)];
      } else {
        answers := answers[nextAnswerId := NewAnswerRow(questionId, a)];
        nextAnswerId := nextAnswerId + 1;
      }
    }

    /** The delete loop of `updateAnswers`: drop each listed earlier answer that no incoming answer mentions. */
    method DeleteAnswersNotIn(existing: seq<nat>, list: seq<Answer>)
      modifies this
      ensures answers == Without(old(answers), (set k | k in existing) - AnswerIds(list))
      ensures quizzes == old(quizzes) && questions == old(questions)
      ensures nextQuestionId == old(nextQuestionId) && nextAnswerId == old(nextAnswerId)
    {
      var j := 0;
      while j < |existing|
        invariant 0 <= j <= |existing|
        invariant forall k :: k in answers <==> k in old(answers) && !(k in existing[..j] && k !in AnswerIds(list))
        invariant forall k :: k in answers ==> answers[k] == old(answers)[k]
        invariant quizzes == old(quizzes) && questions == old(questions)
        invariant nextQuestionId == old(nextQuestionId) && nextAnswerId == old(nextAnswerId)
      {
        var found := MentionsAnswer(list, existing[j]);
        if !found {
          answers := answers - {existing[j]};
        }
        assert existing[..j + 1] == existing[..j] + [existing[j]];
        j := j + 1;
      }
      assert existing[..|existing|] == existing;
    }

    /** `updateAnswers` inside the open transaction. */
    method UpdateAnswers(questionId: nat, list: seq<Answer>)
      modifies this
      ensures (answers, nextAnswerId) == ReconcileAnswers(old(answers), old(nextAnswerId), questionId, list)
      ensures quizzes == old(quizzes) && questions == old(questions) && nextQuestionId == old(nextQuestionId)
    {
      var existing := MapEnum.Keys(map k: nat | k in answers && answers[k].questionId == questionId :: answers[k]);
      ListedAnswers(answers, questionId, existing);
      ghost var rows := answers;
      ghost var next := nextAnswerId;
      UpsertAnswersInOrder(questionId, list);
      DeleteAnswersNotIn(existing, list);
      assert answers == Without(UpsertAnswers(rows, next, questionId, list).0, AnswersOf(rows, questionId) - AnswerIds(list));
    }

    /** The upsert loop of `updateAnswers`: each incoming answer in list order. */
    method UpsertAnswersInOrder(questionId: nat, list: seq<Answer>)
      modifies this
      ensures (answers, nextAnswerId) == UpsertAnswers(old(answers), old(nextAnswerId), questionId, list)
      ensures quizzes == old(quizzes) && questions == old(questions) && nextQuestionId == old(nextQuestionId)
    {
      var i := 0;
      while i < |list|
        invariant 0 <= i <= |list|
        invariant (answers, nextAnswerId) == UpsertAnswers(old(answers), old(nextAnswerId), questionId, list[..i])
        invariant quizzes == old(quizzes) && questions == old(questions) && nextQuestionId == old(nextQuestionId)
      {
        UpsertAnswer(questionId, list[i]);
        assert list[..i + 1][..i] == list[..i];
        i := i + 1;
      }
      assert list[..|list|] == list;
    }

    /** One pass of the question loop: update the question of this quiz with that key, or create one; then its answers. */
    method UpsertQuestion(quizId: nat, question: Question)
      modifies this
      ensures State() == StepQuestion(old(State()), quizId, question)
    {
      if question.id in questions && questions[question.id].quizId == quizId {
        var row := questions[question.id];
        questions := questions[question.id := row.(text := Pick(question.text, "", row.text))];
        UpdateAnswers(question.id, question.answers);
      } else {
        var newId := nextQuestionId;
        questions := questions[newId := QuestionRow(quizId, question.text)];
        nextQuestionId := nextQuestionId + 1;
        UpdateAnswers(newId, question.answers);
      }
    }

    /** The delete loop of `UpdateQuiz`: drop each listed earlier question that no incoming question mentions. */
    method DeleteQuestionsNotIn(existing: seq<nat>, list: seq<Question>)
      modifies this
      ensures questions == Without(old(questions), (set k | k in existing) - QuestionIds(list))
      ensures quizzes == old(quizzes) && answers == old(answers)
      ensures nextQuestionId == old(nextQuestionId) && nextAnswerId == old(nextAnswerId)
    {
      var j := 0;
      while j < |existing|
        invariant 0 <= j <= |existing|
        invariant forall k :: k in questions <==> k in old(questions) && !(k in existing[..j] && k !in QuestionIds(list))
        invariant forall k :: k in questions ==> questions[k] == old(questions)[k]
        invariant quizzes == old(quizzes) && answers == old(answers)
        invariant nextQuestionId == old(nextQuestionId) && nextAnswerId == old(nextAnswerId)
      {
        var found := MentionsQuestion(list, existing[j]);
        if !found {
          questions := questions - {existing[j]};
        }
        assert existing[..j + 1] == existing[..j] + [existing[j]];
        j := j + 1;
      }
      assert existing[..|existing|] == existing;
    }

    /** The update-or-create loop of `UpdateQuiz`. */
    method UpsertQuestionList(quizId: nat, list: seq<Question>)
      modifies this
      ensures State() == UpsertQuestions(old(State()), quizId, list)
    {
      var i := 0;
      while i < |list|
        invariant 0 <= i <= |list|
        invariant State() == UpsertQuestions(old(State()), quizId, list[..i])
      {
        UpsertQuestion(quizId, list[i]);
        assert list[..i + 1][..i] == list[..i];
        i := i + 1;
      }
      assert list[..|list|] == list;
    }

    /** The body of the transaction between the quiz update and the commit, for a non-zero quiz id. */
    method ReconcileQuiz(q: Quiz)
      modifies this
      ensures State() == UpdatedTables(old(State()), q)
    {
      ghost var t := State();
      if q.id in quizzes {
        quizzes := quizzes[q.id := MergeQuiz(quizzes[q.id], q)];
      }
      var existing := MapEnum.Keys(map k: nat | k in questions && questions[k].quizId == q.id :: questions[k]);
      ListedQuestions(questions, q.id, existing);
      UpsertQuestionList(q.id, q.questions);
      ghost var upserted := State();
      DeleteQuestionsNotIn(existing, q.questions);
      assert State() == upserted.(questions := Without(upserted.questions, QuestionsOf(t.questions, q.id) - QuestionIds(q.questions)));
    }

    /**
     * `UpdateQuiz`. A zero quiz id makes the first update fail; a failing
     * commit rolls everything back. Either way the tables are unchanged
     * and the id returned is 0.
     */
    method UpdateQuiz(q: Quiz, commitFails: bool) returns (id: nat, err: Option<RepoError>)
      modifies this
      requires Valid()
      ensures Valid()
      ensures q.id == 0 ==> err == Some(MissingWhereClause)
      ensures err.None? <==> q.id != 0 && !commitFails
      ensures err.Some? ==> id == 0 && State() == old(State())
      ensures err.None? ==> id == q.id && State() == UpdatedTables(old(State()), q)
    {
      if q.id == 0 {
        return 0, Some(MissingWhereClause);
      }
      UpdatedTablesFacts(State(), q);
      var saved := (quizzes, questions, answers, nextQuestionId, nextAnswerId);
      ReconcileQuiz(q);
      if commitFails {
        quizzes, questions, answers, nextQuestionId, nextAnswerId := saved.0, saved.1, saved.2, saved.3, saved.4;
        return 0, Some(DatabaseError);
      }
      return q.id, None;
    }

    /** An answer record read back from its row. */
    static function AnswerFrom(id: nat, row: AnswerRow): Answer
    {
      Answer(id, row.isCorrect, row.text, row.latex, row.imageName, row.image)
    }

    /** `list` holds each stored answer of the question exactly once, as stored. */
    ghost predicate LoadedAnswers(list: seq<Answer>, questionId: nat)
      reads this
    {
      && DistinctAnswerIds(list)
      && (forall k :: k in AnswerIds(list) <==> k in AnswersOf(answers, questionId))
      && (forall a :: a in list ==> a.id in answers && a == AnswerFrom(a.id, answers[a.id]))
    }

    /** `list` holds each stored question of the quiz exactly once, with its answers preloaded. */
    ghost predicate LoadedQuestions(list: seq<Question>, quizId: nat)
      reads this
    {
      && DistinctQuestionIds(list)
      && (forall k :: k in QuestionIds(list) <==> k in QuestionsOf(questions, quizId))
      && (forall q :: q in list ==> q.id in questions && q.text == questions[q.id].text && LoadedAnswers(q.answers, q.id))
    }

    /** `Preload("Questions.Answers")` for one question: its answers in some order. */
    method LoadAnswers(questionId: nat) returns (list: seq<Answer>)
      ensures LoadedAnswers(list, questionId)
    {
      var ks := MapEnum.Keys(map k: nat | k in answers && answers[k].questionId == questionId :: answers[k]);
      forall j | 0 <= j < |ks|
        ensures ks[j] in answers
      {
        assert ks[j] in ks;
      }
      list := [];
      var i := 0;
      while i < |ks|
        invariant 0 <= i <= |ks|
        invariant |list| == i
        invariant forall j :: 0 <= j < i ==> list[j].id == ks[j] && ks[j] in answers && list[j] == AnswerFrom(ks[j], answers[ks[j]])
      {
        list := list + [AnswerFrom(ks[i], answers[ks[i]])];
        i := i + 1;
      }
      forall k
        ensures k in AnswerIds(list) <==> k in AnswersOf(answers, questionId)
      {
        if k in AnswerIds(list) {
          var a :| a in list && a.id == k;
          var j :| 0 <= j < |list| && list[j] == a;
          assert ks[j] == k;
        }
        if k in AnswersOf(answers, questionId) {
          var j :| 0 <= j < |ks| && ks[j] == k;
          assert list[j].id == k;
        }
      }
    }

    /** `GetQuiz`: a missing row is `ErrQuizNotFound`; otherwise the quiz with its questions and answers. */
    method GetQuiz(id: nat) returns (r: Result<Quiz, RepoError>)
      ensures r.Err? <==> id !in quizzes
      ensures r.Err? ==> r.error == QuizNotFound
      ensures r.Ok? ==> (r.value.id == id
        && QuizRow(r.value.title, r.value.password, r.value.description) == quizzes[id]
        && LoadedQuestions(r.value.questions, id))
    {
      if id !in quizzes {
        return Err(QuizNotFound);
      }
      var list := LoadQuestions(id);
      var row := quizzes[id];
      return Ok(Quiz(id, row.title, row.password, row.description, list));
    }

    /** `Preload("Questions.Answers")`: the quiz's questions in some order, each with its answers. */
    method LoadQuestions(quizId: nat) returns (list: seq<Question>)
      ensures LoadedQuestions(list, quizId)
    {
      var ks := MapEnum.Keys(map k: nat | k in questions && questions[k].quizId == quizId :: questions[k]);
      forall j | 0 <= j < |ks|
        ensures ks[j] in questions
      {
        assert ks[j] in ks;
      }
      list := [];
      var i := 0;
      while i < |ks|
        invariant 0 <= i <= |ks|
        invariant |list| == i
        invariant forall j :: 0 <= j < i ==> list[j].id == ks[j] && ks[j] in questions
        invariant forall q :: q in list ==> q.id in questions && q.text == questions[q.id].text && LoadedAnswers(q.answers, q.id)
      {
        var loaded := LoadAnswers(ks[i]);
        list := list + [Question(ks[i], questions[ks[i]].text, loaded)];
        i := i + 1;
      }
      forall k
        ensures k in QuestionIds(list) <==> k in QuestionsOf(questions, quizId)
      {
        if k in QuestionIds(list) {
          var q :| q in list && q.id == k;
          var j :| 0 <= j < |list| && list[j] == q;
          assert ks[j] == k;
        }
        if k in QuestionsOf(questions, quizId) {
          var j :| 0 <= j < |ks| && ks[j] == k;
          assert list[j].id == k;
        }
      }
    }

    /**
     * `DeleteQuiz`. Deleting no row is not an error for gorm, so the
     * not-found mapping never fires and a missing id succeeds; the quiz's
     * questions and answers are not deleted with it.
     */
    method DeleteQuiz(id: nat) returns (err: Option<RepoError>)
      modifies this
      ensures err == None
      ensures quizzes == old(quizzes) - {id}
      ensures questions == old(questions) && answers == old(answers)
      ensures nextQuestionId == old(nextQuestionId) && nextAnswerId == old(nextAnswerId)
    {
      quizzes := quizzes - {id};
      return None;
    }

    /** `GetAllQuizzesMetadata`: one (id, title) pair per stored quiz, in the order the rows come back. */
    method GetAllQuizzesMetadata() returns (r: seq<QuizMetadata>, ghost ids: seq<nat>)
      ensures MapEnum.Enumerates(ids, quizzes.Keys)
      ensures |r| == |ids| == |quizzes|
      ensures forall i :: 0 <= i < |r| ==> ids[i] in quizzes && r[i] == QuizMetadata(ids[i], quizzes[ids[i]].title)
    {
      var ks := MapEnum.Keys(quizzes);
      ids := ks;
      r := [];
      var i := 0;
      while i < |ks|
        invariant 0 <= i <= |ks|
        invariant |r| == i
        invariant forall j :: 0 <= j < i ==> ks[j] in quizzes && r[j] == QuizMetadata(ks[j], quizzes[ks[j]].title)
      {
        r := r + [QuizMetadata(ks[i], quizzes[ks[i]].title)];
        i := i + 1;
      }
    }
  }
}
