/**
 * The quiz package's SQLite store. Three tables keyed by rowid (quiz,
 * question, answer); questions reference their quiz and answers their
 * question, both with ON DELETE CASCADE (the server turns foreign keys
 * on). Writes run in a transaction that is rolled back unless it commits.
 */
module QuizSqlite {
  import opened Wrappers
  import QuizModels

  type Quiz = QuizModels.Quiz
  type Question = QuizModels.Question
  type Answer = QuizModels.Answer

  datatype QuizRow = QuizRow(title: string, password: string, description: string)

  datatype QuestionRow = QuestionRow(quizId: int, text: string)

  /** The answer table has no columns for the image name and image. */
  datatype AnswerRow = AnswerRow(questionId: int, isCorrect: bool, text: string, latex: string)

  /** The three tables and, for each, a rowid above every key in use. */
  datatype Tables = Tables(
    quizzes: map<int, QuizRow>,
    questions: map<int, QuestionRow>,
    answers: map<int, AnswerRow>,
    nextQuizId: int,
    nextQuestionId: int,
    nextAnswerId: int)

  datatype SqlError =
    | QuizIsNil        // "quiz is nil"
    | StatementFailed  // a statement inside the transaction reported an error
    | ForeignKeyFailed // "FOREIGN KEY constraint failed": a question inserted under a quiz id with no quiz row
    | EmptyBatch       // sqlx refuses a named batch insert of no rows ("length of array is 0")
    | CommitFailed     // the commit reported an error
    | ScanFailed       // a NULL column cannot be scanned into an answer's fields

  /**
   * Where, if anywhere, the database reports an error during a write:
   * `StatementFails` is an error on a statement before the question loop
   * meets a foreign-key violation or a question without answers,
   * `CommitFails` an error on the commit.
   */
  datatype Failure = NoFailure | StatementFails | CommitFails

  /** No question of the list is without answers, so no answer batch is empty. */
  predicate EveryQuestionAnswered(qs: seq<Question>)
  {
    forall i :: 0 <= i < |qs| ==> qs[i].answers != []
  }

  /**
   * The question loop under `quizId` gets past its INSERTs: with foreign
   * keys on (kwikquiz.go turns them on), a question row must name a
   * stored quiz, and no answer batch may be empty.
   */
  predicate Insertable(quizzes: map<int, QuizRow>, quizId: int, qs: seq<Question>)
  {
    (qs == [] || quizId in quizzes) && EveryQuestionAnswered(qs)
  }

  ghost predicate Consistent(t: Tables)
  {
    && (forall k :: k in t.quizzes ==> k < t.nextQuizId)
    && (forall k :: k in t.questions ==> k < t.nextQuestionId)
    && (forall k :: k in t.answers ==> k < t.nextAnswerId)
    && (forall k :: k in t.answers ==> t.answers[k].questionId < t.nextQuestionId)
  }

  function QuizRowOf(q: Quiz): QuizRow
  {
    QuizRow(q.titleField, q.password, q.description)
  }

  /** The row an answer is inserted as: its question id and the four mapped columns. */
  function AnswerRowOf(a: Answer): AnswerRow
  {
    AnswerRow(a.questionId, a.isCorrect, a.textField, a.latex)
  }

  /** Every answer's `QuestionID` set to the question's new rowid (sqlite.go 97-99, 161-163, 235-237). */
  function Stamped(list: seq<Answer>, questionId: int): (r: seq<Answer>)
    ensures |r| == |list|
    ensures forall j :: 0 <= j < |r| ==> r[j].questionId == questionId
    ensures forall j :: 0 <= j < |r| ==> r[j] == list[j].(questionId := questionId)
  {
    seq(|list|, j requires 0 <= j < |list| => list[j].(questionId := questionId))
  }

  function QuestionsOf(rows: map<int, QuestionRow>, quizId: int): set<int>
  {
    set k | k in rows && rows[k].quizId == quizId
  }

  /** The question rows left once those of `quizId` are deleted. */
  function DropQuiz(rows: map<int, QuestionRow>, quizId: int): map<int, QuestionRow>
  {
    map k | k in rows && rows[k].quizId != quizId :: rows[k]
  }

  /** Deleting the questions of a quiz, with the cascade to their answers. */
  function DeleteQuestionsOf(t: Tables, quizId: int): Tables
  {
    var doomed := QuestionsOf(t.questions, quizId);
    t.(questions := DropQuiz(t.questions, quizId),
       answers := map k | k in t.answers && t.answers[k].questionId !in doomed :: t.answers[k])
  }

  /** The batch insert of a question's answers, one fresh rowid each. */
  function InsertAnswers(rows: map<int, AnswerRow>, next: int, list: seq<Answer>): (map<int, AnswerRow>, int)
    decreases |list|
  {
    if list == [] then (rows, next)
    else
      var before := InsertAnswers(rows, next, list[..|list| - 1]);
      (before.0[before.1 := AnswerRowOf(list[|list| - 1])], before.1 + 1)
  }

  function AnswerTotal(qs: seq<Question>): nat
    decreases |qs|
  {
    if qs == [] then 0 else AnswerTotal(qs[..|qs| - 1]) + |qs[|qs| - 1].answers|
  }

  /** One pass of the question loop: insert the question, stamp its answers with its rowid, insert them. */
  function AddQuestion(p: Tables, quizId: int, q: Question): Tables
  {
    var id := p.nextQuestionId;
    var inserted := InsertAnswers(p.answers, p.nextAnswerId, Stamped(q.answers, id));
    p.(questions := p.questions[id := QuestionRow(quizId, q.text)],
       nextQuestionId := id + 1,
       answers := inserted.0,
       nextAnswerId := inserted.1)
  }

  /** The question rows the loop adds: the i-th question under rowid `next + i`. */
  function QuestionRowsAfter(rows: map<int, QuestionRow>, next: int, quizId: int, qs: seq<Question>): map<int, QuestionRow>
    decreases |qs|
  {
    if qs == [] then rows
    else QuestionRowsAfter(rows, next, quizId, qs[..|qs| - 1])[next + |qs| - 1 := QuestionRow(quizId, qs[|qs| - 1].text)]
  }

  /** The answer rows the loop adds: the answers of the i-th question, stamped with its rowid `nextQuestion + i`, batch-inserted in turn. */
  function AnswerRowsAfter(rows: map<int, AnswerRow>, next: int, nextQuestion: int, qs: seq<Question>): (map<int, AnswerRow>, int)
    decreases |qs|
  {
    if qs == [] then (rows, next)
    else
      var p := AnswerRowsAfter(rows, next, nextQuestion, qs[..|qs| - 1]);
      InsertAnswers(p.0, p.1, Stamped(qs[|qs| - 1].answers, nextQuestion + |qs| - 1))
  }

  /** The question loop over a whole list. */
  function InsertQuestions(t: Tables, quizId: int, qs: seq<Question>): Tables
  {
    var a := AnswerRowsAfter(t.answers, t.nextAnswerId, t.nextQuestionId, qs);
    t.(questions := QuestionRowsAfter(t.questions, t.nextQuestionId, quizId, qs),
       nextQuestionId := t.nextQuestionId + |qs|,
       answers := a.0,
       nextAnswerId := a.1)
  }

  /** The tables after a committed `Insert(quiz)`; the quiz gets the next rowid. */
  function Inserted(t: Tables, quiz: Quiz): Tables
  {
    var id := t.nextQuizId;
    InsertQuestions(t.(quizzes := t.quizzes[id := QuizRowOf(quiz)], nextQuizId := id + 1), id, quiz.questions)
  }

  /** Delete every question of `target` (and, by cascade, their answers), then insert `qs` under it. */
  function ReplaceQuestions(t: Tables, target: int, qs: seq<Question>): Tables
  {
    InsertQuestions(DeleteQuestionsOf(t, target), target, qs)
  }

  /** The tables after a committed `Upsert(quiz)`: insert or overwrite the quiz row under its own id, replace its questions. */
  function Upserted(t: Tables, quiz: Quiz): Tables
  {
    var next := if quiz.id < t.nextQuizId then t.nextQuizId else quiz.id + 1;
    ReplaceQuestions(t.(quizzes := t.quizzes[quiz.id := QuizRowOf(quiz)], nextQuizId := next), quiz.id, quiz.questions)
  }

  /** `UPDATE quiz ... WHERE quiz_id = :quiz_id`: rewrites the row if there is one. */
  function UpdatedRow(t: Tables, quiz: Quiz): Tables
  {
    if quiz.id in t.quizzes then t.(quizzes := t.quizzes[quiz.id := QuizRowOf(quiz)]) else t
  }

  /**
   * The tables after a committed `Update(quiz)` as written: the questions
   * are replaced under `lastInsertRowId`, the value `LastInsertId`
   * reports after an UPDATE, which is the rowid of the connection's most
   * recent INSERT and not the updated quiz.
   */
  function UpdatedAsWritten(t: Tables, quiz: Quiz, lastInsertRowId: int): Tables
  {
    ReplaceQuestions(UpdatedRow(t, quiz), lastInsertRowId, quiz.questions)
  }

  /** The update the code evidently intends: replace the questions of the quiz it updated. */
  function UpdatedCorrected(t: Tables, quiz: Quiz): Tables
  {
    ReplaceQuestions(UpdatedRow(t, quiz), quiz.id, quiz.questions)
  }

  /** A batch insert adds exactly `|list|` rows under consecutive fresh rowids and keeps the existing ones. */
  lemma {:induction false} InsertAnswersFacts(rows: map<int, AnswerRow>, next: int, list: seq<Answer>)
    requires forall k :: k in rows ==> k < next
    ensures var r := InsertAnswers(rows, next, list);
      && r.1 == next + |list|
      && (forall k :: k in r.0 <==> k in rows || next <= k < r.1)
      && (forall k :: k in rows ==> r.0[k] == rows[k])
    decreases |list|
  {
    if list != [] {
      InsertAnswersFacts(rows, next, list[..|list| - 1]);
    }
  }

  /** The rows a list of answers is inserted as, in order. */
  function RowsOf(list: seq<Answer>): (r: seq<AnswerRow>)
    ensures |r| == |list|
    ensures forall j :: 0 <= j < |list| ==> r[j] == AnswerRowOf(list[j])
  {
    seq(|list|, j requires 0 <= j < |list| => AnswerRowOf(list[j]))
  }

  /** `m` holds `expected` under consecutive rowids from `next` on. */
  ghost predicate PlacedFrom(m: map<int, AnswerRow>, next: int, expected: seq<AnswerRow>)
  {
    forall j :: 0 <= j < |expected| ==> PlacedEntry(m, next, expected, j)
  }

  /** `m` holds the `j`-th row of `expected` under rowid `next + j`. */
  ghost predicate PlacedEntry(m: map<int, AnswerRow>, next: int, expected: seq<AnswerRow>, j: int)
    requires 0 <= j < |expected|
  {
    next + j in m && m[next + j] == expected[j]
  }

  lemma PlacedAt(m: map<int, AnswerRow>, next: int, expected: seq<AnswerRow>, j: int)
    requires PlacedFrom(m, next, expected)
    requires 0 <= j < |expected|
    ensures next + j in m && m[next + j] == expected[j]
  {
    assert PlacedEntry(m, next, expected, j);
  }

  /** Two runs placed back to back, the first kept by whatever placed the second, form one run. */
  lemma PlacedConcat(m: map<int, AnswerRow>, m': map<int, AnswerRow>, next: int, first: seq<AnswerRow>, second: seq<AnswerRow>)
    requires PlacedFrom(m, next, first)
    requires forall k :: k in m ==> k in m' && m'[k] == m[k]
    requires PlacedFrom(m', next + |first|, second)
    ensures PlacedFrom(m', next, first + second)
  {
    var both := first + second;
    forall j | 0 <= j < |both|
      ensures PlacedEntry(m', next, both, j)
    {
      if j < |first| {
        PlacedAt(m, next, first, j);
        assert both[j] == first[j];
      } else {
        PlacedAt(m', next + |first|, second, j - |first|);
        assert both[j] == second[j - |first|];
      }
    }
  }

  /** The batch insert stores the j-th answer under rowid `next + j`, in list order. */
  lemma {:induction false} InsertAnswersPlacement(rows: map<int, AnswerRow>, next: int, list: seq<Answer>)
    requires forall k :: k in rows ==> k < next
    ensures PlacedFrom(InsertAnswers(rows, next, list).0, next, RowsOf(list))
    decreases |list|
  {
    if list != [] {
      var init := list[..|list| - 1];
      InsertAnswersPlacement(rows, next, init);
      InsertAnswersFacts(rows, next, init);
      var p := InsertAnswers(rows, next, init);
      var r := InsertAnswers(rows, next, list);
      assert RowsOf(list) == RowsOf(init) + [AnswerRowOf(list[|list| - 1])];
      assert PlacedFrom(r.0, next + |RowsOf(init)|, [AnswerRowOf(list[|list| - 1])]);
      PlacedConcat(p.0, r.0, next, RowsOf(init), [AnswerRowOf(list[|list| - 1])]);
    }
  }

  /** The loop over `qs + [q]` is the loop over `qs` followed by one pass for `q`. */
  lemma InsertQuestionsSnoc(t: Tables, quizId: int, qs: seq<Question>, q: Question)
    ensures InsertQuestions(t, quizId, qs + [q]) == AddQuestion(InsertQuestions(t, quizId, qs), quizId, q)
  {
    assert (qs + [q])[..|qs|] == qs;
  }

  /** The i-th question is inserted under `next + i` for the given quiz; existing question rows are untouched. */
  lemma {:induction false} QuestionRowsAfterFacts(rows: map<int, QuestionRow>, next: int, quizId: int, qs: seq<Question>)
    requires forall k :: k in rows ==> k < next
    ensures var r := QuestionRowsAfter(rows, next, quizId, qs);
      && (forall k :: k in r <==> k in rows || next <= k < next + |qs|)
      && (forall k :: k in rows ==> r[k] == rows[k])
      && (forall k :: next <= k < next + |qs| ==> r[k].quizId == quizId)
      && (forall i :: 0 <= i < |qs| ==> next + i in r && r[next + i] == QuestionRow(quizId, qs[i].text))
    decreases |qs|
  {
    if qs != [] {
      var init := qs[..|qs| - 1];
      QuestionRowsAfterFacts(rows, next, quizId, init);
      forall i | 0 <= i < |qs| - 1
        ensures qs[i] == init[i]
      {
      }
    }
  }

  /** The new answers take `AnswerTotal(qs)` consecutive rowids from `next` on, each pointing at one of the new question rowids; existing answer rows are untouched. */
  lemma {:induction false} AnswerRowsAfterFacts(rows: map<int, AnswerRow>, next: int, nextQuestion: int, qs: seq<Question>)
    requires forall k :: k in rows ==> k < next
    ensures var r := AnswerRowsAfter(rows, next, nextQuestion, qs);
      && r.1 == next + AnswerTotal(qs)
      && (forall k :: k in r.0 <==> k in rows || next <= k < r.1)
      && (forall k :: k in rows ==> r.0[k] == rows[k])
      && (forall k :: next <= k < r.1 ==> nextQuestion <= r.0[k].questionId < nextQuestion + |qs|)
    decreases |qs|
  {
    if qs != [] {
      var init := qs[..|qs| - 1];
      AnswerRowsAfterFacts(rows, next, nextQuestion, init);
      var p := AnswerRowsAfter(rows, next, nextQuestion, init);
      var stamped := Stamped(qs[|qs| - 1].answers, nextQuestion + |qs| - 1);
      InsertAnswersFacts(p.0, p.1, stamped);
      InsertAnswersPlacement(p.0, p.1, stamped);
      var r := AnswerRowsAfter(rows, next, nextQuestion, qs);
      forall k | p.1 <= k < r.1
        ensures r.0[k].questionId == nextQuestion + |qs| - 1
      {
        PlacedAt(r.0, p.1, RowsOf(stamped), k - p.1);
      }
    }
  }

  /** The loop takes `AnswerTotal(qs)` answer rowids and keeps every rowid below its counter. */
  lemma {:induction false} AnswerRowsAfterCount(rows: map<int, AnswerRow>, next: int, nextQuestion: int, qs: seq<Question>)
    requires forall k :: k in rows ==> k < next
    ensures var r := AnswerRowsAfter(rows, next, nextQuestion, qs);
      r.1 == next + AnswerTotal(qs) && forall k :: k in r.0 ==> k < r.1
    decreases |qs|
  {
    if qs != [] {
      AnswerRowsAfterCount(rows, next, nextQuestion, qs[..|qs| - 1]);
      var p := AnswerRowsAfter(rows, next, nextQuestion, qs[..|qs| - 1]);
      InsertAnswersFacts(p.0, p.1, Stamped(qs[|qs| - 1].answers, nextQuestion + |qs| - 1));
    }
  }

  /** The rows the answers of `list` become once stamped with `questionId`. */
  function StampedRows(list: seq<Answer>, questionId: int): (r: seq<AnswerRow>)
    ensures |r| == |list|
    ensures forall j :: 0 <= j < |r| ==> r[j].questionId == questionId && r[j].text == list[j].textField
  {
    RowsOf(Stamped(list, questionId))
  }

  /** Every answer row the loop should add, question by question, the i-th question's rows stamped with `nextQuestion + i`. */
  function AllStampedRows(nextQuestion: int, qs: seq<Question>): seq<AnswerRow>
    decreases |qs|
  {
    if qs == [] then []
    else AllStampedRows(nextQuestion, qs[..|qs| - 1]) + StampedRows(qs[|qs| - 1].answers, nextQuestion + |qs| - 1)
  }

  /**
   * Stamping (sqlite.go 97-99): the answer rows the loop adds are, in
   * rowid order from `next`, exactly the questions' answers in order,
   * each stamped with the rowid of its question.
   */
  lemma {:induction false} AnswerRowsAfterPlacement(rows: map<int, AnswerRow>, next: int, nextQuestion: int, qs: seq<Question>)
    requires forall k :: k in rows ==> k < next
    ensures AnswerRowsAfter(rows, next, nextQuestion, qs).1 == next + |AllStampedRows(nextQuestion, qs)|
    ensures PlacedFrom(AnswerRowsAfter(rows, next, nextQuestion, qs).0, next, AllStampedRows(nextQuestion, qs))
    decreases |qs|
  {
    if qs != [] {
      var init := qs[..|qs| - 1];
      AnswerRowsAfterPlacement(rows, next, nextQuestion, init);
      AnswerRowsAfterCount(rows, next, nextQuestion, init);
      var p := AnswerRowsAfter(rows, next, nextQuestion, init);
      var stamped := Stamped(qs[|qs| - 1].answers, nextQuestion + |qs| - 1);
      InsertAnswersFacts(p.0, p.1, stamped);
      InsertAnswersPlacement(p.0, p.1, stamped);
      PlacedConcat(p.0, AnswerRowsAfter(rows, next, nextQuestion, qs).0, next,
        AllStampedRows(nextQuestion, init), StampedRows(qs[|qs| - 1].answers, nextQuestion + |qs| - 1));
    }
  }

  /** The question loop keeps the tables consistent and moves the counters by the number of questions and answers. */
  lemma InsertQuestionsCounters(t: Tables, quizId: int, qs: seq<Question>)
    requires Consistent(t)
    ensures var r := InsertQuestions(t, quizId, qs);
      && Consistent(r)
      && r.quizzes == t.quizzes && r.nextQuizId == t.nextQuizId
      && r.nextQuestionId == t.nextQuestionId + |qs|
      && r.nextAnswerId == t.nextAnswerId + AnswerTotal(qs)
  {
    QuestionRowsAfterFacts(t.questions, t.nextQuestionId, quizId, qs);
    AnswerRowsAfterFacts(t.answers, t.nextAnswerId, t.nextQuestionId, qs);
  }

  /** The cascade removes exactly the quiz's questions and the answers pointing at them. */
  lemma DeleteQuestionsOfFacts(t: Tables, quizId: int)
    requires Consistent(t)
    ensures var r := DeleteQuestionsOf(t, quizId);
      && Consistent(r)
      && r.quizzes == t.quizzes
      && r.nextQuestionId == t.nextQuestionId && r.nextAnswerId == t.nextAnswerId
      && (forall k :: k in r.questions <==> k in t.questions && t.questions[k].quizId != quizId)
      && (forall k :: k in r.questions ==> r.questions[k] == t.questions[k])
      && (forall k :: k in r.answers <==> k in t.answers && t.answers[k].questionId !in QuestionsOf(t.questions, quizId))
      && (forall k :: k in r.answers ==> r.answers[k] == t.answers[k])
  {
  }

  /**
   * `r` holds `qs` as the questions of `target`: exactly the rowids from
   * `t.nextQuestionId` on, one per question in order, and every answer
   * of them is new (its rowid is not below `t.nextAnswerId`).
   */
  ghost predicate ReplacedUnder(t: Tables, r: Tables, target: int, qs: seq<Question>)
  {
    && (forall k :: k in QuestionsOf(r.questions, target) <==> t.nextQuestionId <= k < t.nextQuestionId + |qs|)
    && (forall k :: t.nextQuestionId <= k < t.nextQuestionId + |qs| ==>
          k in r.questions && r.questions[k] == QuestionRow(target, qs[k - t.nextQuestionId].text))
    && (forall k :: k in r.answers && r.answers[k].questionId in QuestionsOf(r.questions, target) ==> t.nextAnswerId <= k)
  }

  /** Questions of other quizzes, and answers not under a question of `target`, are carried over from `t` to `r`. */
  ghost predicate KeepsOthers(t: Tables, r: Tables, target: int)
  {
    && (forall k :: k in t.questions && t.questions[k].quizId != target ==> k in r.questions && r.questions[k] == t.questions[k])
    && (forall k :: k in t.answers && t.answers[k].questionId !in QuestionsOf(t.questions, target) ==>
          k in r.answers && r.answers[k] == t.answers[k])
  }

  /** Both predicates look only at the question and answer tables and their counters. */
  lemma SameRowsSameReplace(t: Tables, u: Tables, r: Tables, target: int, qs: seq<Question>)
    requires u.questions == t.questions && u.answers == t.answers
    requires u.nextQuestionId == t.nextQuestionId && u.nextAnswerId == t.nextAnswerId
    ensures ReplacedUnder(u, r, target, qs) ==> ReplacedUnder(t, r, target, qs)
    ensures KeepsOthers(u, r, target) ==> KeepsOthers(t, r, target)
  {
  }

  /** Deleting the questions of `target` and inserting `qs` under it replaces its questions and keeps the rest. */
  lemma ReplaceQuestionsFacts(t: Tables, target: int, qs: seq<Question>)
    requires Consistent(t)
    ensures Consistent(ReplaceQuestions(t, target, qs))
    ensures ReplaceQuestions(t, target, qs).quizzes == t.quizzes
    ensures ReplacedUnder(t, ReplaceQuestions(t, target, qs), target, qs)
    ensures KeepsOthers(t, ReplaceQuestions(t, target, qs), target)
  {
    ReplaceQuestionsQuestions(t, target, qs);
    ReplaceQuestionsAnswers(t, target, qs);
  }

  /** Inserting `qs` under `target` after dropping its questions leaves it exactly the new rows; other quizzes' rows stay. */
  lemma {:induction false} RowsAfterDropFacts(rows: map<int, QuestionRow>, next: int, target: int, qs: seq<Question>)
    requires forall k :: k in rows ==> k < next
    ensures var r := QuestionRowsAfter(DropQuiz(rows, target), next, target, qs);
      && (forall k :: k in QuestionsOf(r, target) <==> next <= k < next + |qs|)
      && (forall k :: next <= k < next + |qs| ==> k in r && r[k] == QuestionRow(target, qs[k - next].text))
      && (forall k :: k in rows && rows[k].quizId != target ==> k in r && r[k] == rows[k])
  {
    var d := DropQuiz(rows, target);
    QuestionRowsAfterFacts(d, next, target, qs);
    var r := QuestionRowsAfter(d, next, target, qs);
    forall k | next <= k < next + |qs|
      ensures k in r && r[k] == QuestionRow(target, qs[k - next].text)
    {
      var i := k - next;
      assert r[next + i] == QuestionRow(target, qs[i].text);
    }
  }

  lemma ReplaceQuestionsQuestions(t: Tables, target: int, qs: seq<Question>)
    requires Consistent(t)
    ensures var r := ReplaceQuestions(t, target, qs);
      && (forall k :: k in QuestionsOf(r.questions, target) <==> t.nextQuestionId <= k < t.nextQuestionId + |qs|)
      && (forall k :: t.nextQuestionId <= k < t.nextQuestionId + |qs| ==>
            k in r.questions && r.questions[k] == QuestionRow(target, qs[k - t.nextQuestionId].text))
      && (forall k :: k in t.questions && t.questions[k].quizId != target ==> k in r.questions && r.questions[k] == t.questions[k])
  {
    RowsAfterDropFacts(t.questions, t.nextQuestionId, target, qs);
    assert ReplaceQuestions(t, target, qs).questions == QuestionRowsAfter(DropQuiz(t.questions, target), t.nextQuestionId, target, qs);
  }

  lemma ReplaceQuestionsAnswers(t: Tables, target: int, qs: seq<Question>)
    requires Consistent(t)
    ensures var r := ReplaceQuestions(t, target, qs);
      && Consistent(r)
      && r.quizzes == t.quizzes
      && (forall k :: k in r.answers && r.answers[k].questionId in QuestionsOf(r.questions, target) ==> t.nextAnswerId <= k)
      && (forall k :: k in t.answers && t.answers[k].questionId !in QuestionsOf(t.questions, target) ==>
            k in r.answers && r.answers[k] == t.answers[k])
  {
    DeleteQuestionsOfFacts(t, target);
    var d := DeleteQuestionsOf(t, target);
    QuestionRowsAfterFacts(d.questions, d.nextQuestionId, target, qs);
    AnswerRowsAfterFacts(d.answers, d.nextAnswerId, d.nextQuestionId, qs);
  }

  /**
   * `Upsert` replaces all (sqlite.go 114-177): the quiz row holds the
   * given fields under the given id, the quiz's questions are exactly the
   * given ones under fresh rowids, every answer of them is new, and the
   * rest of the tables is as before except that the old questions of the
   * quiz and their answers are gone.
   */
  lemma UpsertReplacesAll(t: Tables, quiz: Quiz)
    requires Consistent(t)
    ensures Consistent(Upserted(t, quiz))
    ensures Upserted(t, quiz).quizzes == t.quizzes[quiz.id := QuizRowOf(quiz)]
    ensures ReplacedUnder(t, Upserted(t, quiz), quiz.id, quiz.questions)
    ensures KeepsOthers(t, Upserted(t, quiz), quiz.id)
  {
    var next := if quiz.id < t.nextQuizId then t.nextQuizId else quiz.id + 1;
    var u := t.(quizzes := t.quizzes[quiz.id := QuizRowOf(quiz)], nextQuizId := next);
    assert Consistent(u);
    assert Upserted(t, quiz) == ReplaceQuestions(u, quiz.id, quiz.questions);
    ReplaceQuestionsFacts(u, quiz.id, quiz.questions);
    SameRowsSameReplace(t, u, ReplaceQuestions(u, quiz.id, quiz.questions), quiz.id, quiz.questions);
  }

  /** A question with answers leaves at least one stamped row carrying its rowid. */
  lemma {:induction false} StampedRowsCover(nextQuestion: int, qs: seq<Question>, i: int)
    requires 0 <= i < |qs| && qs[i].answers != []
    ensures exists j :: 0 <= j < |AllStampedRows(nextQuestion, qs)| && AllStampedRows(nextQuestion, qs)[j].questionId == nextQuestion + i
    decreases |qs|
  {
    var init := qs[..|qs| - 1];
    var pre := AllStampedRows(nextQuestion, init);
    var last := StampedRows(qs[|qs| - 1].answers, nextQuestion + |qs| - 1);
    assert AllStampedRows(nextQuestion, qs) == pre + last;
    if i == |qs| - 1 {
      assert (pre + last)[|pre|] == last[0];
    } else {
      assert init[i] == qs[i];
      StampedRowsCover(nextQuestion, init, i);
      var j :| 0 <= j < |pre| && pre[j].questionId == nextQuestion + i;
      assert (pre + last)[j] == pre[j];
    }
  }

  /**
   * A committed write stores no question without answers: when every
   * question of `qs` has one (the only way the write commits), every
   * question of `target` afterwards has an answer row, so the join that
   * `Get` runs meets no NULL row for it.
   */
  lemma {:induction false} ReplacedQuestionsHaveAnswers(t: Tables, target: int, qs: seq<Question>)
    requires Consistent(t)
    requires EveryQuestionAnswered(qs)
    ensures var r := ReplaceQuestions(t, target, qs);
      forall k :: k in QuestionsOf(r.questions, target) ==> exists a :: a in r.answers && r.answers[a].questionId == k
  {
    var d := DeleteQuestionsOf(t, target);
    DeleteQuestionsOfFacts(t, target);
    ReplaceQuestionsQuestions(t, target, qs);
    AnswerRowsAfterPlacement(d.answers, d.nextAnswerId, d.nextQuestionId, qs);
    var r := ReplaceQuestions(t, target, qs);
    assert r.answers == AnswerRowsAfter(d.answers, d.nextAnswerId, d.nextQuestionId, qs).0;
    var stamped := AllStampedRows(d.nextQuestionId, qs);
    forall k | k in QuestionsOf(r.questions, target)
      ensures exists a :: a in r.answers && r.answers[a].questionId == k
    {
      var i := k - t.nextQuestionId;
      StampedRowsCover(d.nextQuestionId, qs, i);
      var j :| 0 <= j < |stamped| && stamped[j].questionId == d.nextQuestionId + i;
      PlacedAt(r.answers, d.nextAnswerId, stamped, j);
    }
  }

  /**
   * `Update` as written (sqlite.go 179-251) misses its quiz whenever the
   * connection's last inserted rowid is another key: the quiz row is
   * rewritten but its questions stay exactly as they were.
   */
  lemma UpdateMissesItsQuiz(t: Tables, quiz: Quiz, lastInsertRowId: int)
    requires Consistent(t)
    requires lastInsertRowId != quiz.id
    ensures QuestionsOf(UpdatedAsWritten(t, quiz, lastInsertRowId).questions, quiz.id) == QuestionsOf(t.questions, quiz.id)
  {
    var u := UpdatedRow(t, quiz);
    assert u.questions == t.questions;
    DeleteQuestionsOfFacts(u, lastInsertRowId);
    var d := DeleteQuestionsOf(u, lastInsertRowId);
    QuestionRowsAfterFacts(d.questions, d.nextQuestionId, lastInsertRowId, quiz.questions);
    var r := UpdatedAsWritten(t, quiz, lastInsertRowId);
    forall k
      ensures k in QuestionsOf(r.questions, quiz.id) <==> k in QuestionsOf(t.questions, quiz.id)
    {
    }
  }

  /**
   * The last inserted rowid need not name a quiz: on a fresh database,
   * inserting a quiz with one question of two answers leaves the answer
   * rowid 2 last, and no quiz has rowid 2, so an `Update` with questions
   * that runs next on the connection fails on the foreign key.
   */
  lemma LastRowIdNamesNoQuiz(quiz: Quiz, update: Quiz)
    requires |quiz.questions| == 1 && |quiz.questions[0].answers| == 2
    requires update.questions != []
    ensures var t := Inserted(Tables(map[], map[], map[], 1, 1, 1), quiz);
      && t.quizzes.Keys == {1}
      && t.nextAnswerId - 1 == 2
      && !Insertable(t.quizzes, t.nextAnswerId - 1, update.questions)
  {
    var t0 := Tables(map[], map[], map[], 1, 1, 1);
    var u := t0.(quizzes := t0.quizzes[1 := QuizRowOf(quiz)], nextQuizId := 2);
    var qs := quiz.questions;
    assert qs[..0] == [];
    var stamped := Stamped(qs[0].answers, 1);
    InsertAnswersFacts(map[], 1, stamped);
    assert AnswerRowsAfter(map[], 1, 1, qs).1 == 3;
  }

  /** The corrected `Update` replaces the updated quiz's own questions, as `Upsert` does. */
  lemma UpdateCorrectedReplacesAll(t: Tables, quiz: Quiz)
    requires Consistent(t)
    ensures Consistent(UpdatedCorrected(t, quiz))
    ensures ReplacedUnder(t, UpdatedCorrected(t, quiz), quiz.id, quiz.questions)
    ensures KeepsOthers(t, UpdatedCorrected(t, quiz), quiz.id)
  {
    ReplaceQuestionsFacts(UpdatedRow(t, quiz), quiz.id, quiz.questions);
    SameRowsSameReplace(t, UpdatedRow(t, quiz), UpdatedCorrected(t, quiz), quiz.id, quiz.questions);
  }

  /**
   * A row of the join of a quiz's questions with their answers
   * (sqlite.go 262-269): the question's columns and, through the LEFT
   * JOIN, its answer's, all NULL (`None`) for a question without answers.
   */
  datatype QueryRow = QueryRow(questionId: int, quizId: int, text: string, answer: Option<Answer>)

  /** The scanned `Result` struct: the embedded question's key and columns, and the answer. */
  datatype JoinRow = JoinRow(questionId: int, quizId: int, text: string, answer: Answer)

  /**
   * `StructScan` of one row (sqlite.go 281-285). NULL answer columns
   * cannot be stored in the answer's integer and string fields, which is
   * an error. The question's key `id` is unexported (models.go 35), so
   * the scan never fills it and it stays 0; with `fillsKey` the scan
   * fills it from `question_id`, as a mapped field would be.
   */
  function Scan(row: QueryRow, fillsKey: bool): Option<JoinRow>
  {
    if row.answer.None? then None
    else Some(JoinRow(if fillsKey then row.questionId else 0, row.quizId, row.text, row.answer.value))
  }

  /** Scanning every row in order: no result if any row fails to scan. */
  function ScanAll(rows: seq<QueryRow>, fillsKey: bool): Option<seq<JoinRow>>
    decreases |rows|
  {
    if rows == [] then Some([])
    else
      var init := ScanAll(rows[..|rows| - 1], fillsKey);
      var last := Scan(rows[|rows| - 1], fillsKey);
      if init.None? || last.None? then None else Some(init.value + [last.value])
  }

  lemma {:induction false} ScanAllSnoc(rows: seq<QueryRow>, row: QueryRow, fillsKey: bool)
    requires ScanAll(rows, fillsKey).Some? && Scan(row, fillsKey).Some?
    ensures ScanAll(rows + [row], fillsKey) == Some(ScanAll(rows, fillsKey).value + [Scan(row, fillsKey).value])
  {
    assert (rows + [row])[..|rows|] == rows;
  }

  /** A row that fails to scan makes the whole scan fail. */
  lemma {:induction false} ScanAllFails(rows: seq<QueryRow>, i: int, fillsKey: bool)
    requires 0 <= i < |rows| && Scan(rows[i], fillsKey).None?
    ensures ScanAll(rows, fillsKey).None?
    decreases |rows|
  {
    if i < |rows| - 1 {
      ScanAllFails(rows[..|rows| - 1], i, fillsKey);
    }
  }

  /** The scan succeeds exactly when no row has NULL answer columns, and then keeps one result per row, in order. */
  lemma {:induction false} ScanAllFacts(rows: seq<QueryRow>, fillsKey: bool)
    ensures ScanAll(rows, fillsKey).Some? <==> forall i :: 0 <= i < |rows| ==> rows[i].answer.Some?
    ensures ScanAll(rows, fillsKey).Some? ==>
      var r := ScanAll(rows, fillsKey).value;
      |r| == |rows| && forall i :: 0 <= i < |rows| ==> Some(r[i]) == Scan(rows[i], fillsKey)
    decreases |rows|
  {
    if rows != [] {
      var init := rows[..|rows| - 1];
      ScanAllFacts(init, fillsKey);
      if ScanAll(rows, fillsKey).None? {
        if ScanAll(init, fillsKey).None? {
          var i :| 0 <= i < |init| && init[i].answer.None?;
          assert rows[i] == init[i];
        }
      } else {
        forall i | 0 <= i < |rows| - 1
          ensures rows[i] == init[i]
        {
        }
      }
    }
  }

  /**
   * One row of the scan loop: a row whose question id equals that of the
   * question being built adds its answer there, any other row starts a
   * new question holding just its answer.
   */
  function GroupStep(g: seq<Question>, row: JoinRow): seq<Question>
  {
    if g != [] && g[|g| - 1].id == row.questionId then
      g[..|g| - 1] + [g[|g| - 1].(answers := g[|g| - 1].answers + [row.answer])]
    else
      g + [QuizModels.Question(row.questionId, row.quizId, row.text, [row.answer])]
  }

  /** The grouping of the join rows as the scan loop builds it. */
  function Grouped(rows: seq<JoinRow>): seq<Question>
    decreases |rows|
  {
    if rows == [] then [] else GroupStep(Grouped(rows[..|rows| - 1]), rows[|rows| - 1])
  }

  /** Grouping one more row is one more grouping step. */
  lemma GroupedSnoc(rows: seq<JoinRow>, row: JoinRow)
    ensures Grouped(rows + [row]) == GroupStep(Grouped(rows), row)
  {
    assert (rows + [row])[..|rows|] == rows;
  }

  /** All answers of a list of questions, in order. */
  function AllAnswers(qs: seq<Question>): seq<Answer>
    decreases |qs|
  {
    if qs == [] then [] else AllAnswers(qs[..|qs| - 1]) + qs[|qs| - 1].answers
  }

  /** Each answer tagged with the id of the question holding it, in order. */
  function AnswerOwners(qs: seq<Question>): seq<int>
    decreases |qs|
  {
    if qs == [] then [] else AnswerOwners(qs[..|qs| - 1]) + seq(|qs[|qs| - 1].answers|, _ => qs[|qs| - 1].id)
  }

  /** The answers of the rows, in row order. */
  function RowAnswers(rows: seq<JoinRow>): (r: seq<Answer>)
    ensures |r| == |rows| && forall i :: 0 <= i < |rows| ==> r[i] == rows[i].answer
    decreases |rows|
  {
    if rows == [] then [] else RowAnswers(rows[..|rows| - 1]) + [rows[|rows| - 1].answer]
  }

  /** The question id of each row, in row order. */
  function RowOwners(rows: seq<JoinRow>): (r: seq<int>)
    ensures |r| == |rows| && forall i :: 0 <= i < |rows| ==> r[i] == rows[i].questionId
    decreases |rows|
  {
    if rows == [] then [] else RowOwners(rows[..|rows| - 1]) + [rows[|rows| - 1].questionId]
  }

  /** Questions that each hold an answer, with neighbours of different ids. */
  ghost predicate WellGrouped(g: seq<Question>)
  {
    && (forall i :: 0 <= i < |g| ==> g[i].answers != [])
    && (forall i :: 0 < i < |g| ==> g[i - 1].id != g[i].id)
  }

  lemma GroupStepShape(g: seq<Question>, row: JoinRow)
    requires WellGrouped(g)
    ensures var h := GroupStep(g, row);
      && WellGrouped(h)
      && h != []
      && h[|h| - 1].id == row.questionId
  {
  }

  lemma GroupStepAnswers(g: seq<Question>, row: JoinRow)
    ensures AllAnswers(GroupStep(g, row)) == AllAnswers(g) + [row.answer]
  {
    var h := GroupStep(g, row);
    if g != [] && g[|g| - 1].id == row.questionId {
      assert h[..|h| - 1] == g[..|g| - 1];
    } else {
      assert h[..|h| - 1] == g;
    }
  }

  lemma GroupStepOwners(g: seq<Question>, row: JoinRow)
    ensures AnswerOwners(GroupStep(g, row)) == AnswerOwners(g) + [row.questionId]
  {
    var h := GroupStep(g, row);
    if g != [] && g[|g| - 1].id == row.questionId {
      var last := g[|g| - 1];
      assert h[..|h| - 1] == g[..|g| - 1];
      assert seq(|last.answers| + 1, _ => last.id) == seq(|last.answers|, _ => last.id) + [last.id];
    } else {
      assert h[..|h| - 1] == g;
    }
  }

  /**
   * Group boundaries in `Get` (sqlite.go 287-300): no rows give no
   * questions; every question holds at least one answer; neighbouring
   * questions have different ids; the last question is the last row's.
   */
  lemma {:induction false} GroupedShape(rows: seq<JoinRow>)
    ensures var g := Grouped(rows);
      && (g == [] <==> rows == [])
      && WellGrouped(g)
      && (g != [] ==> g[|g| - 1].id == rows[|rows| - 1].questionId)
    decreases |rows|
  {
    if rows != [] {
      GroupedShape(rows[..|rows| - 1]);
      GroupStepShape(Grouped(rows[..|rows| - 1]), rows[|rows| - 1]);
    }
  }

  /** Reading the grouped answers question by question gives the rows' answers in row order (sqlite.go 275-300). */
  lemma {:induction false} GroupedAnswers(rows: seq<JoinRow>)
    ensures AllAnswers(Grouped(rows)) == RowAnswers(rows)
    decreases |rows|
  {
    if rows != [] {
      var init := rows[..|rows| - 1];
      GroupedAnswers(init);
      GroupStepAnswers(Grouped(init), rows[|rows| - 1]);
    }
  }

  /** Each grouped answer sits under the question id of the row it came from. */
  lemma {:induction false} GroupedOwners(rows: seq<JoinRow>)
    ensures AnswerOwners(Grouped(rows)) == RowOwners(rows)
    decreases |rows|
  {
    if rows != [] {
      var init := rows[..|rows| - 1];
      GroupedOwners(init);
      GroupStepOwners(Grouped(init), rows[|rows| - 1]);
    }
  }

  /** A step on a list whose last question is still being built, split at that question. */
  lemma GroupStepOpen(qs: seq<Question>, current: Question, row: JoinRow)
    ensures GroupStep(qs + [current], row)
      == if current.id == row.questionId
         then qs + [current.(answers := current.answers + [row.answer])]
         else qs + [current] + [QuizModels.Question(row.questionId, row.quizId, row.text, [row.answer])]
  {
    assert (qs + [current])[..|qs|] == qs;
  }

  /** With every key at 0, as the scan as written leaves it, one question holds every answer. */
  lemma {:induction false} GroupedUnkeyed(s: seq<JoinRow>)
    requires forall i :: 0 <= i < |s| ==> s[i].questionId == 0
    ensures s != [] ==> Grouped(s) == [QuizModels.Question(0, s[0].quizId, s[0].text, RowAnswers(s))]
    decreases |s|
  {
    if s != [] {
      var init := s[..|s| - 1];
      GroupedUnkeyed(init);
      if init != [] {
        assert init[0] == s[0];
      } else {
        var last := s[|s| - 1];
        assert last == s[0] && last.questionId == 0;
        assert Grouped(s) == GroupStep([], last) == [QuizModels.Question(0, last.quizId, last.text, [last.answer])];
        assert RowAnswers(s) == RowAnswers(init) + [last.answer] == [last.answer];
      }
    }
  }

  /** Every answer of a single question is owned by that question. */
  lemma {:induction false} OwnersOfOne(g: seq<Question>)
    ensures |g| == 1 ==> forall j :: 0 <= j < |AnswerOwners(g)| ==> AnswerOwners(g)[j] == g[0].id
  {
    if |g| == 1 {
      assert g[..0] == [];
      assert AnswerOwners(g) == seq(|g[0].answers|, _ => g[0].id);
    }
  }

  /**
   * `Get` as written (sqlite.go 275-300) merges the questions: rows of
   * two different questions, none NULL, give a single question with key
   * 0 holding every answer, where the scan that fills the key gives at
   * least two.
   */
  lemma {:induction false} UnfilledKeyMergesQuestions(rows: seq<QueryRow>, i: int)
    requires forall j :: 0 <= j < |rows| ==> rows[j].answer.Some?
    requires 0 <= i < |rows| && rows[i].questionId != rows[0].questionId
    ensures ScanAll(rows, false).Some? && ScanAll(rows, true).Some?
    ensures Grouped(ScanAll(rows, false).value)
      == [QuizModels.Question(0, rows[0].quizId, rows[0].text, RowAnswers(ScanAll(rows, false).value))]
    ensures |Grouped(ScanAll(rows, true).value)| >= 2
  {
    ScanAllFacts(rows, false);
    ScanAllFacts(rows, true);
    var s0 := ScanAll(rows, false).value;
    var s1 := ScanAll(rows, true).value;
    assert Some(s0[0]) == Scan(rows[0], false);
    GroupedUnkeyed(s0);
    var g := Grouped(s1);
    GroupedShape(s1);
    GroupedOwners(s1);
    OwnersOfOne(g);
    assert Some(s1[0]) == Scan(rows[0], true) && Some(s1[i]) == Scan(rows[i], true);
    assert AnswerOwners(g)[0] != AnswerOwners(g)[i];
  }

  class RepositorySQLite {
    var quizzes: map<int, QuizRow>
    var questions: map<int, QuestionRow>
    var answers: map<int, AnswerRow>
    var nextQuizId: int
    var nextQuestionId: int
    var nextAnswerId: int

    ghost function State(): Tables
      reads this
    {
      Tables(quizzes, questions, answers, nextQuizId, nextQuestionId, nextAnswerId)
    }

    ghost predicate Valid()
      reads this
    {
      Consistent(State())
    }

    /** `NewRepositorySQLite` over a fresh database: the tables exist and are empty. */
    constructor ()
      ensures Valid()
      ensures quizzes == map[] && questions == map[] && answers == map[]
    {
      quizzes := map[];
      questions := map[];
      answers := map[];
      nextQuizId := 1;
      nextQuestionId := 1;
      nextAnswerId := 1;
    }

    method SetState(t: Tables)
      modifies this
      ensures State() == t
    {
      quizzes, questions, answers := t.quizzes, t.questions, t.answers;
      nextQuizId, nextQuestionId, nextAnswerId := t.nextQuizId, t.nextQuestionId, t.nextAnswerId;
    }

    /** The stamping loop: every answer gets the question's rowid. */
    static method StampAnswers(list: seq<Answer>, questionId: int) returns (stamped: seq<Answer>)
      ensures stamped == Stamped(list, questionId)
    {
      stamped := list;
      var i := 0;
      while i < |stamped|
        invariant 0 <= i <= |stamped| == |list|
        invariant forall j :: 0 <= j < i ==> stamped[j] == list[j].(questionId := questionId)
        invariant forall j :: i <= j < |list| ==> stamped[j] == list[j]
      {
        stamped := stamped[i := stamped[i].(questionId := questionId)];
        i := i + 1;
      }
    }

    /** The batch `INSERT INTO answer`: one row per answer, in order; sqlx refuses an empty batch. */
    method InsertAnswerRows(list: seq<Answer>) returns (ok: bool)
      modifies this
      ensures ok <==> list != []
      ensures ok ==> (answers, nextAnswerId) == InsertAnswers(old(answers), old(nextAnswerId), list)
      ensures !ok ==> State() == old(State())
      ensures quizzes == old(quizzes) && questions == old(questions)
      ensures nextQuizId == old(nextQuizId) && nextQuestionId == old(nextQuestionId)
    {
      if |list| == 0 {
        return false;
      }
      var i := 0;
      while i < |list|
        invariant 0 <= i <= |list|
        invariant (answers, nextAnswerId) == InsertAnswers(old(answers), old(nextAnswerId), list[..i])
        invariant quizzes == old(quizzes) && questions == old(questions)
        invariant nextQuizId == old(nextQuizId) && nextQuestionId == old(nextQuestionId)
      {
        answers := answers[nextAnswerId := AnswerRowOf(list[i])];
        nextAnswerId := nextAnswerId + 1;
        assert list[..i + 1][..i] == list[..i];
        i := i + 1;
      }
      assert list[..|list|] == list;
      return true;
    }

    /**
     * One pass of the question loop shared by `Insert`, `Upsert` and
     * `Update`; the question INSERT fails on the foreign key when no quiz
     * row has `quizId`, and the answer batch fails when it is empty.
     */
    method InsertQuestion(quizId: int, q: Question) returns (err: Option<SqlError>)
      modifies this
      ensures quizId !in old(quizzes) ==> err == Some(ForeignKeyFailed)
      ensures quizId in old(quizzes) && q.answers == [] ==> err == Some(EmptyBatch)
      ensures err.None? <==> quizId in old(quizzes) && q.answers != []
      ensures err.None? ==> State() == AddQuestion(old(State()), quizId, q)
    {
      if quizId !in quizzes {
        return Some(ForeignKeyFailed);
      }
      var id := nextQuestionId;
      questions := questions[id := QuestionRow(quizId, q.text)];
      nextQuestionId := id + 1;
      var stamped := StampAnswers(q.answers, id);
      var ok := InsertAnswerRows(stamped);
      err := if ok then None else Some(EmptyBatch);
    }

    /**
     * The question loop; it stops at its first failing statement: the
     * first question's INSERT when `quizId` names no quiz, otherwise the
     * answer batch of the first question without answers.
     */
    method InsertQuestionList(quizId: int, qs: seq<Question>) returns (err: Option<SqlError>)
      modifies this
      ensures qs != [] && quizId !in old(quizzes) ==> err == Some(ForeignKeyFailed)
      ensures quizId in old(quizzes) && !EveryQuestionAnswered(qs) ==> err == Some(EmptyBatch)
      ensures err.None? <==> Insertable(old(quizzes), quizId, qs)
      ensures err.None? ==> State() == InsertQuestions(old(State()), quizId, qs)
    {
      var i := 0;
      while i < |qs|
        invariant 0 <= i <= |qs|
        invariant State() == InsertQuestions(old(State()), quizId, qs[..i])
        invariant quizzes == old(quizzes)
        invariant i > 0 ==> quizId in quizzes
        invariant forall j :: 0 <= j < i ==> qs[j].answers != []
      {
        err := InsertQuestion(quizId, qs[i]);
        if err.Some? {
          return;
        }
        InsertQuestionsSnoc(old(State()), quizId, qs[..i], qs[i]);
        assert qs[..i + 1] == qs[..i] + [qs[i]];
        i := i + 1;
      }
      assert qs[..|qs|] == qs;
      return None;
    }

    /** `DELETE FROM question WHERE quiz_id = ?`, cascading to the answers. */
    method DeleteQuestionsOfQuiz(quizId: int)
      modifies this
      ensures State() == DeleteQuestionsOf(old(State()), quizId)
    {
      var doomed := set k | k in questions && questions[k].quizId == quizId;
      questions := map k | k in questions && questions[k].quizId != quizId :: questions[k];
      answers := map k | k in answers && answers[k].questionId !in doomed :: answers[k];
    }

    /** Deleting the questions of `target` (with their answers) and inserting `qs` under it, as `Upsert` and `Update` do. */
    method ReplaceQuestionsOf(target: int, qs: seq<Question>) returns (err: Option<SqlError>)
      modifies this
      requires Valid()
      ensures qs != [] && target !in old(quizzes) ==> err == Some(ForeignKeyFailed)
      ensures target in old(quizzes) && !EveryQuestionAnswered(qs) ==> err == Some(EmptyBatch)
      ensures err.None? <==> Insertable(old(quizzes), target, qs)
      ensures err.None? ==> Valid() && State() == ReplaceQuestions(old(State()), target, qs)
    {
      DeleteQuestionsOfFacts(State(), target);
      InsertQuestionsCounters(DeleteQuestionsOf(State(), target), target, qs);
      DeleteQuestionsOfQuiz(target);
      err := InsertQuestionList(target, qs);
    }

    /**
     * `Insert`: a nil quiz is refused; otherwise the quiz, its questions
     * and their stamped answers are inserted and the quiz's new rowid
     * returned. A failing statement, or a question without answers,
     * returns 0; a failing commit still returns the new rowid. Every
     * failure leaves the tables unchanged.
     */
    method Insert(quiz: Option<Quiz>, failure: Failure) returns (id: int, err: Option<SqlError>)
      modifies this
      requires Valid()
      ensures Valid()
      ensures quiz.None? ==> err == Some(QuizIsNil) && id == 0
      ensures quiz.Some? && failure == StatementFails ==> err == Some(StatementFailed) && id == 0
      ensures quiz.Some? && failure != StatementFails && !EveryQuestionAnswered(quiz.value.questions) ==> err == Some(EmptyBatch) && id == 0
      ensures quiz.Some? && failure == CommitFails && EveryQuestionAnswered(quiz.value.questions) ==> err == Some(CommitFailed) && id == old(nextQuizId)
      ensures err.None? <==> quiz.Some? && failure == NoFailure && EveryQuestionAnswered(quiz.value.questions)
      ensures err.Some? ==> State() == old(State())
      ensures err.None? ==> id == old(nextQuizId) && State() == Inserted(old(State()), quiz.value)
    {
      if quiz.None? {
        return 0, Some(QuizIsNil);
      }
      var q := quiz.value;
      ghost var t := State();
      InsertQuestionsCounters(t.(quizzes := t.quizzes[t.nextQuizId := QuizRowOf(q)], nextQuizId := t.nextQuizId + 1), t.nextQuizId, q.questions);
      var saved := Tables(quizzes, questions, answers, nextQuizId, nextQuestionId, nextAnswerId);
      var insertedQuizId := nextQuizId;
      quizzes := quizzes[insertedQuizId := QuizRowOf(q)];
      nextQuizId := insertedQuizId + 1;
      var e := InsertQuestionList(insertedQuizId, q.questions);
      if failure == StatementFails || e.Some? {
        SetState(saved);
        return 0, if failure == StatementFails then Some(StatementFailed) else e;
      }
      if failure == CommitFails {
        SetState(saved);
        return insertedQuizId, Some(CommitFailed);
      }
      return insertedQuizId, None;
    }

    /**
     * `Upsert`: a nil quiz is refused; otherwise the quiz row is inserted
     * or overwritten under the quiz's own id, its questions replaced, and
     * that id returned even when the commit fails.
     */
    method Upsert(quiz: Option<Quiz>, failure: Failure) returns (id: int, err: Option<SqlError>)
      modifies this
      requires Valid()
      ensures Valid()
      ensures quiz.None? ==> err == Some(QuizIsNil) && id == 0
      ensures quiz.Some? && failure == StatementFails ==> err == Some(StatementFailed) && id == 0
      ensures quiz.Some? && failure != StatementFails && !EveryQuestionAnswered(quiz.value.questions) ==> err == Some(EmptyBatch) && id == 0
      ensures quiz.Some? && failure == CommitFails && EveryQuestionAnswered(quiz.value.questions) ==> err == Some(CommitFailed) && id == quiz.value.id
      ensures err.None? <==> quiz.Some? && failure == NoFailure && EveryQuestionAnswered(quiz.value.questions)
      ensures err.Some? ==> State() == old(State())
      ensures err.None? ==> id == quiz.value.id && State() == Upserted(old(State()), quiz.value)
    {
      if quiz.None? {
        return 0, Some(QuizIsNil);
      }
      var q := quiz.value;
      var saved := Tables(quizzes, questions, answers, nextQuizId, nextQuestionId, nextAnswerId);
      quizzes := quizzes[q.id := QuizRowOf(q)];
      if q.id >= nextQuizId {
        nextQuizId := q.id + 1;
      }
      var e := ReplaceQuestionsOf(q.id, q.questions);
      if failure == StatementFails || e.Some? {
        SetState(saved);
        return 0, if failure == StatementFails then Some(StatementFailed) else e;
      }
      if failure == CommitFails {
        SetState(saved);
        return q.id, Some(CommitFailed);
      }
      return q.id, None;
    }

    /**
     * `Update` as written: a nil quiz is refused; otherwise the quiz row
     * is rewritten if present, and the questions are replaced under
     * `lastInsertRowId`, the connection's last inserted rowid that
     * `LastInsertId` reports after the UPDATE, which is also what it returns.
     * When no quiz row has that rowid, the first question INSERT violates
     * the foreign key and the transaction rolls back.
     */
    method Update(quiz: Option<Quiz>, lastInsertRowId: int, failure: Failure) returns (id: int, err: Option<SqlError>)
      modifies this
      requires Valid()
      ensures Valid()
      ensures quiz.None? ==> err == Some(QuizIsNil) && id == 0
      ensures quiz.Some? && failure == StatementFails ==> err == Some(StatementFailed) && id == 0
      ensures quiz.Some? && failure != StatementFails && quiz.value.questions != [] && lastInsertRowId !in old(quizzes) ==> err == Some(ForeignKeyFailed) && id == 0
      ensures quiz.Some? && failure != StatementFails && lastInsertRowId in old(quizzes) && !EveryQuestionAnswered(quiz.value.questions) ==> err == Some(EmptyBatch) && id == 0
      ensures quiz.Some? && failure == CommitFails && Insertable(old(quizzes), lastInsertRowId, quiz.value.questions) ==> err == Some(CommitFailed) && id == lastInsertRowId
      ensures err.None? <==> quiz.Some? && failure == NoFailure && Insertable(old(quizzes), lastInsertRowId, quiz.value.questions)
      ensures err.Some? ==> State() == old(State())
      ensures err.None? ==> id == lastInsertRowId && State() == UpdatedAsWritten(old(State()), quiz.value, lastInsertRowId)
    {
      if quiz.None? {
        return 0, Some(QuizIsNil);
      }
      var q := quiz.value;
      var saved := Tables(quizzes, questions, answers, nextQuizId, nextQuestionId, nextAnswerId);
      if q.id in quizzes {
        quizzes := quizzes[q.id := QuizRowOf(q)];
      }
      var upsertedQuizId := lastInsertRowId;
      var e := ReplaceQuestionsOf(upsertedQuizId, q.questions);
      if failure == StatementFails || e.Some? {
        SetState(saved);
        return 0, if failure == StatementFails then Some(StatementFailed) else e;
      }
      if failure == CommitFails {
        SetState(saved);
        return upsertedQuizId, Some(CommitFailed);
      }
      return upsertedQuizId, None;
    }

    /**
     * `Update` replacing the questions of the quiz it updates, and
     * returning that quiz's id; for a quiz id with no row, inserting a
     * question violates the foreign key.
     */
    method UpdateCorrected(quiz: Option<Quiz>, failure: Failure) returns (id: int, err: Option<SqlError>)
      modifies this
      requires Valid()
      ensures Valid()
      ensures quiz.None? ==> err == Some(QuizIsNil) && id == 0
      ensures quiz.Some? && failure == StatementFails ==> err == Some(StatementFailed) && id == 0
      ensures quiz.Some? && failure != StatementFails && quiz.value.questions != [] && quiz.value.id !in old(quizzes) ==> err == Some(ForeignKeyFailed) && id == 0
      ensures quiz.Some? && failure != StatementFails && quiz.value.id in old(quizzes) && !EveryQuestionAnswered(quiz.value.questions) ==> err == Some(EmptyBatch) && id == 0
      ensures quiz.Some? && failure == CommitFails && Insertable(old(quizzes), quiz.value.id, quiz.value.questions) ==> err == Some(CommitFailed) && id == quiz.value.id
      ensures err.None? <==> quiz.Some? && failure == NoFailure && Insertable(old(quizzes), quiz.value.id, quiz.value.questions)
      ensures err.Some? ==> State() == old(State())
      ensures err.None? ==> id == quiz.value.id && State() == UpdatedCorrected(old(State()), quiz.value)
    {
      if quiz.None? {
        return 0, Some(QuizIsNil);
      }
      var q := quiz.value;
      var saved := Tables(quizzes, questions, answers, nextQuizId, nextQuestionId, nextAnswerId);
      if q.id in quizzes {
        quizzes := quizzes[q.id := QuizRowOf(q)];
      }
      var e := ReplaceQuestionsOf(q.id, q.questions);
      if failure == StatementFails || e.Some? {
        SetState(saved);
        return 0, if failure == StatementFails then Some(StatementFailed) else e;
      }
      if failure == CommitFails {
        SetState(saved);
        return q.id, Some(CommitFailed);
      }
      return q.id, None;
    }

    /**
     * One pass of the scan loop's grouping: the open question `current`
     * takes the row's answer when the keys match, and is otherwise closed
     * and replaced by a new question for the row.
     */
    static method GroupRow(qs: seq<Question>, current: Option<Question>, row: JoinRow)
      returns (closed: seq<Question>, next: Question)
      requires current.None? ==> qs == []
      ensures closed + [next] == GroupStep(if current.None? then qs else qs + [current.value], row)
    {
      if current.Some? {
        GroupStepOpen(qs, current.value, row);
      }
      var started := QuizModels.Question(row.questionId, row.quizId, row.text, []);
      assert started.(answers := started.answers + [row.answer]) ==
             QuizModels.Question(row.questionId, row.quizId, row.text, [row.answer]);
      closed := qs;
      next := if current.None? then started else current.value;
      if row.questionId != next.id {
        closed := closed + [next];
        next := started;
      }
      next := next.(answers := next.answers + [row.answer]);
    }

    /**
     * The scan loop of `Get` over the join rows: each row is scanned,
     * a scan error ends the loop with that error, and the scanned rows
     * are grouped by the question key the scan leaves in them.
     */
    static method ScanRows(rows: seq<QueryRow>, fillsKey: bool) returns (qs: seq<Question>, err: Option<SqlError>)
      ensures err.Some? <==> ScanAll(rows, fillsKey).None?
      ensures err.Some? ==> err == Some(ScanFailed)
      ensures err.None? ==> qs == Grouped(ScanAll(rows, fillsKey).value)
    {
      qs := [];
      var current: Option<Question> := None;
      ghost var scanned: seq<JoinRow> := [];
      var i := 0;
      while i < |rows|
        invariant 0 <= i <= |rows|
        invariant ScanAll(rows[..i], fillsKey) == Some(scanned)
        invariant (current.None? <==> i == 0)
        invariant current.None? ==> qs == []
        invariant Grouped(scanned) == if current.None? then qs else qs + [current.value]
      {
        var res := Scan(rows[i], fillsKey);
        if res.None? {
          ScanAllFails(rows, i, fillsKey);
          return [], Some(ScanFailed);
        }
        var row := res.value;
        var next;
        qs, next := GroupRow(qs, current, row);
        current := Some(next);
        ScanAllSnoc(rows[..i], rows[i], fillsKey);
        assert rows[..i + 1] == rows[..i] + [rows[i]];
        GroupedSnoc(scanned, row);
        scanned := scanned + [row];
        i := i + 1;
      }
      assert rows[..|rows|] == rows;
      if current.Some? {
        qs := qs + [current.value];
      }
      err := None;
    }

    /**
     * `Get` as written: a failed lookup of the quiz row gives no quiz and
     * no error; a NULL row (a question without answers) gives the scan
     * error; otherwise the quiz with the questions grouped from `rows`,
     * the rows the join query returns for it, under the key the scan
     * leaves at 0.
     */
    method Get(id: int, rows: seq<QueryRow>) returns (quiz: Option<Quiz>, err: Option<SqlError>)
      ensures id !in quizzes ==> quiz.None? && err.None?
      ensures id in quizzes && ScanAll(rows, false).None? ==> quiz.None? && err == Some(ScanFailed)
      ensures id in quizzes && ScanAll(rows, false).Some? ==>
        && err.None?
        && quiz == Some(QuizModels.Quiz(id, quizzes[id].title, quizzes[id].password, quizzes[id].description, Grouped(ScanAll(rows, false).value)))
    {
      if id !in quizzes {
        return None, None;
      }
      var row := quizzes[id];
      var qs;
      qs, err := ScanRows(rows, false);
      if err.Some? {
        return None, err;
      }
      return Some(QuizModels.Quiz(id, row.title, row.password, row.description, qs)), None;
    }

    /** `Get` with the question key filled from `question_id`, so that each question keeps its own answers. */
    method GetCorrected(id: int, rows: seq<QueryRow>) returns (quiz: Option<Quiz>, err: Option<SqlError>)
      ensures id !in quizzes ==> quiz.None? && err.None?
      ensures id in quizzes && ScanAll(rows, true).None? ==> quiz.None? && err == Some(ScanFailed)
      ensures id in quizzes && ScanAll(rows, true).Some? ==>
        && err.None?
        && quiz == Some(QuizModels.Quiz(id, quizzes[id].title, quizzes[id].password, quizzes[id].description, Grouped(ScanAll(rows, true).value)))
    {
      if id !in quizzes {
        return None, None;
      }
      var row := quizzes[id];
      var qs;
      qs, err := ScanRows(rows, true);
      if err.Some? {
        return None, err;
      }
      return Some(QuizModels.Quiz(id, row.title, row.password, row.description, qs)), None;
    }

    /** `Delete`: removes the quiz row and, by cascade, its questions and their answers. */
    method Delete(id: int) returns (err: Option<SqlError>)
      modifies this
      ensures err == None
      ensures State() == DeleteQuestionsOf(old(State()), id).(quizzes := old(quizzes) - {id})
    {
      DeleteQuestionsOfQuiz(id);
      quizzes := quizzes - {id};
      return None;
    }
  }
}
