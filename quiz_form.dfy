/**
 * The server side of the quiz form: the request as the handler sees it
 * and `parseQuizForm`/`parseQuestions`, which read questions and answers
 * by position (`question-i`, `answer-i-j`, `correct-answer-i-j`, counting
 * from 1) and stop at the first missing one.
 */
module QuizForm {
  import opened Wrappers
  import Decimal
  import GameCommon

  /**
   * A form field name. The indexed names stand for the decimal renderings
   * `question-<q>`, `answer-<q>-<a>`, `correct-answer-<q>-<a>` and
   * `correct-answer-<q>`; `Named` covers every other name.
   */
  datatype FieldName =
    | QuestionField(q: int)
    | AnswerField(q: int, a: int)
    | CorrectField(q: int, a: int)
    | CorrectRadio(q: int)
    | Named(name: string)

  const TitleName := Named("title")
  const PasswordName := Named("password")
  const DescriptionName := Named("description")

  /** An uploaded file: the header's file name and the bytes. */
  datatype Upload = Upload(filename: string, content: seq<GameCommon.Byte>)

  /**
   * A request after form parsing: the `qid` path value, the first text
   * value of each field and the first file of each file field.
   */
  datatype Request = Request(qid: string, values: map<FieldName, string>, files: map<FieldName, Upload>)

  /**
   * The map of first values for a list of submitted (name, value) pairs:
   * Go's `FormValue` returns the first value when a name repeats.
   */
  function FirstValues<V>(pairs: seq<(FieldName, V)>): map<FieldName, V>
  {
    if pairs == [] then map[]
    else FirstValues(pairs[1..])[pairs[0].0 := pairs[0].1]
  }

  /** A name is in the map exactly when some pair carries it. */
  lemma {:induction false} FirstValuesHas<V>(pairs: seq<(FieldName, V)>, x: FieldName)
    ensures x in FirstValues(pairs) <==> exists v :: (x, v) in pairs
  {
    if pairs != [] {
      FirstValuesHas(pairs[1..], x);
      assert pairs == [pairs[0]] + pairs[1..];
      if x != pairs[0].0 && exists v :: (x, v) in pairs {
        var v :| (x, v) in pairs;
        assert (x, v) in pairs[1..];
      }
    }
  }

  /** The value kept for a name is the value of some pair carrying that name. */
  lemma {:induction false} FirstValuesIn<V>(pairs: seq<(FieldName, V)>, x: FieldName)
    requires x in FirstValues(pairs)
    ensures (x, FirstValues(pairs)[x]) in pairs
  {
    if pairs[0].0 != x {
      FirstValuesIn(pairs[1..], x);
      assert pairs == [pairs[0]] + pairs[1..];
    }
  }

  /** The request the server sees for the (name, value) pairs a form submits, in document order. */
  function RequestOf(qid: string, values: seq<(FieldName, string)>, files: seq<(FieldName, Upload)>): Request
  {
    Request(qid, FirstValues(values), FirstValues(files))
  }

  /** `r.FormValue(name)`: the first value, or "" when the field is absent. */
  function FormValue(r: Request, name: FieldName): string
  {
    if name in r.values then r.values[name] else ""
  }

  /** Every field name the request carries, as text or as file. */
  function Names(r: Request): set<FieldName>
  {
    r.values.Keys + r.files.Keys
  }

  /** The bound that makes the reading loops finish: no run of present fields is longer. */
  function Bound(r: Request): nat
  {
    |r.values| + |r.files|
  }

  lemma NamesWithinBound(r: Request)
    ensures |Names(r)| <= Bound(r)
  {
    assert |r.values.Keys| == |r.values| && |r.files.Keys| == |r.files|;
  }

  // ---------------------------------------------------------------- model

  datatype Answer = Answer(isCorrect: bool, text: string, latex: string, imageName: string, image: seq<GameCommon.Byte>)

  datatype Question = Question(text: string, answers: seq<Answer>)

  datatype Quiz = Quiz(id: nat, title: string, password: string, description: string, questions: seq<Question>)

  /** "invalid quiz ID" */
  datatype FormError = InvalidQuizId

  const Uint64Modulus: int := 0x1_0000_0000_0000_0000

  // ------------------------------------------------------- specification

  /** Question `i` is read: its text is not empty. */
  predicate HasQuestion(r: Request, i: int)
  {
    FormValue(r, QuestionField(i)) != ""
  }

  /** Answer `j` of question `i` is read: it has a file or non-empty text. */
  predicate HasAnswer(r: Request, i: int, j: int)
  {
    AnswerField(i, j) in r.files || FormValue(r, AnswerField(i, j)) != ""
  }

  /**
   * The answer read at `answer-i-j`: text with a line break is LaTeX,
   * other text is plain text, and without text the file is an image; it is
   * correct exactly when `correct-answer-i-j` is "Correct".
   */
  function ReadAnswer(r: Request, i: int, j: int): (a: Answer)
    requires HasAnswer(r, i, j)
  {
    var text := FormValue(r, AnswerField(i, j));
    var content :=
      if text != "" then
        if '\n' in text then Answer(false, "", text, "", []) else Answer(false, text, "", "", [])
      else
        Answer(false, "", "", r.files[AnswerField(i, j)].filename, r.files[AnswerField(i, j)].content);
    content.(isCorrect := FormValue(r, CorrectField(i, j)) == "Correct")
  }

  /** Answers `j`, `j + 1`, ... of question `i` up to the first gap. */
  function AnswersFrom(r: Request, i: int, j: nat): seq<Answer>
    decreases Bound(r) + 1 - j
  {
    if j > Bound(r) || !HasAnswer(r, i, j) then []
    else [ReadAnswer(r, i, j)] + AnswersFrom(r, i, j + 1)
  }

  /** Questions `i`, `i + 1`, ... up to the first gap. */
  function QuestionsFrom(r: Request, i: nat): seq<Question>
    decreases Bound(r) + 1 - i
  {
    if i > Bound(r) || !HasQuestion(r, i) then []
    else [Question(FormValue(r, QuestionField(i)), AnswersFrom(r, i, 1))] + QuestionsFrom(r, i + 1)
  }

  /** Distinct indexes name distinct fields, so a run of `k` present questions needs `k` names. */
  lemma {:induction false} QuestionRunFits(names: set<FieldName>, from: nat, k: nat)
    requires forall i :: from <= i < from + k ==> QuestionField(i) in names
    ensures k <= |names|
  {
    if k > 0 {
      QuestionRunFits(names - {QuestionField(from + k - 1)}, from, k - 1);
    }
  }

  lemma {:induction false} AnswerRunFits(names: set<FieldName>, q: int, from: nat, k: nat)
    requires forall j :: from <= j < from + k ==> AnswerField(q, j) in names
    ensures k <= |names|
  {
    if k > 0 {
      AnswerRunFits(names - {AnswerField(q, from + k - 1)}, q, from, k - 1);
    }
  }

  /** A gap-free run of `k` present questions is no longer than the bound. */
  lemma QuestionRunBounded(r: Request, k: nat)
    requires forall m :: 1 <= m <= k ==> HasQuestion(r, m)
    ensures k <= Bound(r)
  {
    forall m | 1 <= m < 1 + k
      ensures QuestionField(m) in Names(r)
    {
      assert HasQuestion(r, m);
    }
    QuestionRunFits(Names(r), 1, k);
    NamesWithinBound(r);
  }

  /** A gap-free run of `k` present answers is no longer than the bound. */
  lemma AnswerRunBounded(r: Request, i: int, k: nat)
    requires forall m :: 1 <= m <= k ==> HasAnswer(r, i, m)
    ensures k <= Bound(r)
  {
    forall m | 1 <= m < 1 + k
      ensures AnswerField(i, m) in Names(r)
    {
      assert HasAnswer(r, i, m);
    }
    AnswerRunFits(Names(r), i, 1, k);
    NamesWithinBound(r);
  }

  /**
   * `AnswersFrom` reads exactly the longest run of present answers
   * starting at `j`: the size bound in its definition never cuts it short.
   */
  lemma {:induction false} AnswersFromRun(r: Request, i: int, j: nat, n: nat)
    requires j >= 1
    requires forall m :: 1 <= m < j ==> HasAnswer(r, i, m)
    ensures n < |AnswersFrom(r, i, j)| ==> HasAnswer(r, i, j + n) && AnswersFrom(r, i, j)[n] == ReadAnswer(r, i, j + n)
    ensures n == |AnswersFrom(r, i, j)| ==> !HasAnswer(r, i, j + n)
    decreases Bound(r) + 1 - j
  {
    if !HasAnswer(r, i, j) {
      assert AnswersFrom(r, i, j) == [];
    } else {
      AnswerRunBounded(r, i, j);
      var rest := AnswersFrom(r, i, j + 1);
      assert AnswersFrom(r, i, j) == [ReadAnswer(r, i, j)] + rest;
      if n > 0 {
        AnswersFromRun(r, i, j + 1, n - 1);
        assert j + 1 + (n - 1) == j + n;
        if n < |AnswersFrom(r, i, j)| {
          assert AnswersFrom(r, i, j)[n] == rest[n - 1];
        }
      }
    }
  }

  lemma {:induction false} QuestionsFromRun(r: Request, i: nat, n: nat)
    requires i >= 1
    requires forall m :: 1 <= m < i ==> HasQuestion(r, m)
    ensures n < |QuestionsFrom(r, i)| ==>
              HasQuestion(r, i + n)
              && QuestionsFrom(r, i)[n] == Question(FormValue(r, QuestionField(i + n)), AnswersFrom(r, i + n, 1))
    ensures n == |QuestionsFrom(r, i)| ==> !HasQuestion(r, i + n)
    decreases Bound(r) + 1 - i
  {
    if i > Bound(r) {
      if HasQuestion(r, i) {
        QuestionRunBounded(r, i);
      }
    } else if HasQuestion(r, i) && n > 0 {
      QuestionsFromRun(r, i + 1, n - 1);
    }
  }

  /**
   * The questions read from a request are the longest gap-free run
   * `question-1`, `question-2`, ..., in index order, each with its text
   * and the answers read for its index.
   */
  lemma {:induction false} ParsedQuestionsArePrefix(r: Request)
    ensures forall n :: 1 <= n <= |QuestionsFrom(r, 1)| ==>
              HasQuestion(r, n)
              && QuestionsFrom(r, 1)[n - 1] == Question(FormValue(r, QuestionField(n)), AnswersFrom(r, n, 1))
    ensures !HasQuestion(r, |QuestionsFrom(r, 1)| + 1)
  {
    forall n | 1 <= n <= |QuestionsFrom(r, 1)|
      ensures HasQuestion(r, n)
      ensures QuestionsFrom(r, 1)[n - 1] == Question(FormValue(r, QuestionField(n)), AnswersFrom(r, n, 1))
    {
      QuestionsFromRun(r, 1, n - 1);
    }
    QuestionsFromRun(r, 1, |QuestionsFrom(r, 1)|);
  }

  /**
   * The answers read for question `i` are the longest gap-free run
   * `answer-i-1`, `answer-i-2`, ..., in index order.
   */
  lemma {:induction false} ParsedAnswersArePrefix(r: Request, i: int)
    ensures forall m :: 1 <= m <= |AnswersFrom(r, i, 1)| ==>
              HasAnswer(r, i, m) && AnswersFrom(r, i, 1)[m - 1] == ReadAnswer(r, i, m)
    ensures !HasAnswer(r, i, |AnswersFrom(r, i, 1)| + 1)
  {
    forall m | 1 <= m <= |AnswersFrom(r, i, 1)|
      ensures HasAnswer(r, i, m) && AnswersFrom(r, i, 1)[m - 1] == ReadAnswer(r, i, m)
    {
      AnswersFromRun(r, i, 1, m - 1);
    }
    AnswersFromRun(r, i, 1, |AnswersFrom(r, i, 1)|);
  }

  /** With no `correct-answer-i-j` equal to "Correct", every parsed answer is incorrect. */
  lemma {:induction false} NoCorrectAnswers(r: Request, i: nat)
    requires forall x :: x in r.values && x.CorrectField? ==> r.values[x] != "Correct"
    ensures forall q :: q in QuestionsFrom(r, i) ==> forall a :: a in q.answers ==> !a.isCorrect
    decreases Bound(r) + 1 - i
  {
    if i <= Bound(r) && HasQuestion(r, i) {
      NoCorrectAnswersIn(r, i, 1);
      NoCorrectAnswers(r, i + 1);
    }
  }

  lemma {:induction false} NoCorrectAnswersIn(r: Request, i: int, j: nat)
    requires forall x :: x in r.values && x.CorrectField? ==> r.values[x] != "Correct"
    ensures forall a :: a in AnswersFrom(r, i, j) ==> !a.isCorrect
    decreases Bound(r) + 1 - j
  {
    if j <= Bound(r) && HasAnswer(r, i, j) {
      NoCorrectAnswersIn(r, i, j + 1);
    }
  }

  /**
   * When every submitted question field is filled in, question `n` is read
   * exactly when some field is named `question-n`; when only one is, the
   * text read is that field's value.
   */
  lemma QuestionPresence(qid: string, values: seq<(FieldName, string)>, files: seq<(FieldName, Upload)>, n: int)
    requires forall p :: p in values && p.0.QuestionField? ==> p.1 != ""
    ensures HasQuestion(RequestOf(qid, values, files), n) <==> exists v :: (QuestionField(n), v) in values
    ensures forall v :: (QuestionField(n), v) in values && (forall w :: (QuestionField(n), w) in values ==> w == v) ==>
              FormValue(RequestOf(qid, values, files), QuestionField(n)) == v
  {
    FirstValuesHas(values, QuestionField(n));
    if QuestionField(n) in FirstValues(values) {
      FirstValuesIn(values, QuestionField(n));
    }
  }

  /**
   * When questions `1..k` are present and `k + 1` is not, exactly `k`
   * questions are read.
   */
  lemma QuestionCount(r: Request, k: nat)
    requires forall n :: 1 <= n <= k ==> HasQuestion(r, n)
    requires !HasQuestion(r, k + 1)
    ensures |QuestionsFrom(r, 1)| == k
  {
    ParsedQuestionsArePrefix(r);
    if |QuestionsFrom(r, 1)| != k {
      assert false;
    }
  }

  /**
   * When answers `1..k` of question `i` are present and `k + 1` is not,
   * exactly `k` answers are read for it.
   */
  lemma AnswerCount(r: Request, i: int, k: nat)
    requires forall m :: 1 <= m <= k ==> HasAnswer(r, i, m)
    requires !HasAnswer(r, i, k + 1)
    ensures |AnswersFrom(r, i, 1)| == k
  {
    ParsedAnswersArePrefix(r, i);
    if |AnswersFrom(r, i, 1)| != k {
      assert false;
    }
  }

  /**
   * When no submitted `correct-answer-i-j` field holds "Correct", every
   * answer the server reads is incorrect.
   */
  lemma NoCorrectFromPairs(qid: string, values: seq<(FieldName, string)>, files: seq<(FieldName, Upload)>)
    requires forall p :: p in values && p.0.CorrectField? ==> p.1 != "Correct"
    ensures forall q :: q in QuestionsFrom(RequestOf(qid, values, files), 1) ==> forall a :: a in q.answers ==> !a.isCorrect
  {
    var r := RequestOf(qid, values, files);
    forall x | x in r.values && x.CorrectField?
      ensures r.values[x] != "Correct"
    {
      FirstValuesIn(values, x);
    }
    NoCorrectAnswers(r, 1);
  }

  // -------------------------------------------------------------- methods

  /**
   * `parseQuestions`: the outer loop over `question-i`. The image-reading
   * error paths are I/O and are not modelled, so the error result is
   * always nil.
   */
  method ParseQuestions(r: Request) returns (questions: seq<Question>)
    ensures questions == QuestionsFrom(r, 1)
  {
    questions := [];
    var questionIndex := 1;
    while true
      invariant questionIndex >= 1
      invariant forall m :: 1 <= m < questionIndex ==> HasQuestion(r, m)
      invariant questions + QuestionsFrom(r, questionIndex) == QuestionsFrom(r, 1)
      decreases Bound(r) + 1 - questionIndex
    {
      var questionText := FormValue(r, QuestionField(questionIndex));
      if questionText == "" {
        break;
      }
      QuestionRunBounded(r, questionIndex);
      var answers := ParseAnswers(r, questionIndex);
      var question := Question(questionText, answers);
      assert QuestionsFrom(r, questionIndex) == [question] + QuestionsFrom(r, questionIndex + 1);
      questions := questions + [question];
      questionIndex := questionIndex + 1;
    }
  }

  /**
   * The inner loop of `parseQuestions` over `answer-i-j`: it stops at the
   * first index with neither a file nor text.
   */
  method ParseAnswers(r: Request, questionIndex: int) returns (answers: seq<Answer>)
    ensures answers == AnswersFrom(r, questionIndex, 1)
  {
    answers := [];
    var answerIndex := 1;
    while true
      invariant answerIndex >= 1
      invariant forall m :: 1 <= m < answerIndex ==> HasAnswer(r, questionIndex, m)
      invariant answers + AnswersFrom(r, questionIndex, answerIndex) == AnswersFrom(r, questionIndex, 1)
      decreases Bound(r) + 1 - answerIndex
    {
      var answerPrefix := AnswerField(questionIndex, answerIndex);
      var fileMissing := answerPrefix !in r.files;
      var textValue := FormValue(r, answerPrefix);
      if fileMissing && textValue == "" {
        AnswersEnd(r, questionIndex, answerIndex, answers);
        break;
      }
      var answer := ParseAnswer(r, questionIndex, answerIndex);
      AnswersExtend(r, questionIndex, answerIndex, answers);
      answers := answers + [answer];
      answerIndex := answerIndex + 1;
    }
  }

  /** The answer loop's end: at the first missing answer, the answers read so far are all of them. */
  lemma AnswersEnd(r: Request, i: int, j: nat, answers: seq<Answer>)
    requires !HasAnswer(r, i, j)
    requires answers + AnswersFrom(r, i, j) == AnswersFrom(r, i, 1)
    ensures answers == AnswersFrom(r, i, 1)
  {
    assert answers + [] == answers;
  }

  /** One turn of the answer loop: a present answer extends the answers read so far. */
  lemma AnswersExtend(r: Request, i: int, j: nat, answers: seq<Answer>)
    requires j >= 1
    requires forall m :: 1 <= m < j ==> HasAnswer(r, i, m)
    requires HasAnswer(r, i, j)
    requires answers + AnswersFrom(r, i, j) == AnswersFrom(r, i, 1)
    ensures j <= Bound(r)
    ensures forall m :: 1 <= m < j + 1 ==> HasAnswer(r, i, m)
    ensures answers + [ReadAnswer(r, i, j)] + AnswersFrom(r, i, j + 1) == AnswersFrom(r, i, 1)
  {
    AnswerRunBounded(r, i, j);
    assert AnswersFrom(r, i, j) == [ReadAnswer(r, i, j)] + AnswersFrom(r, i, j + 1);
  }

  /**
   * One answer of `parseQuestions`: text with a line break becomes LaTeX,
   * other text plain text, and with no text the uploaded file becomes the
   * image; the `correct-answer-i-j` field decides correctness.
   */
  method ParseAnswer(r: Request, questionIndex: int, answerIndex: int) returns (answer: Answer)
    requires HasAnswer(r, questionIndex, answerIndex)
    ensures answer == ReadAnswer(r, questionIndex, answerIndex)
  {
    var answerPrefix := AnswerField(questionIndex, answerIndex);
    var textValue := FormValue(r, answerPrefix);
    if textValue != "" {
      if '\n' in textValue {
        answer := Answer(false, "", textValue, "", []);
      } else {
        answer := Answer(false, textValue, "", "", []);
      }
    } else {
      var upload := r.files[answerPrefix];
      answer := Answer(false, "", "", upload.filename, upload.content);
    }
    var correctBtnValue := FormValue(r, CorrectField(questionIndex, answerIndex));
    answer := answer.(isCorrect := correctBtnValue == "Correct");
  }

  /**
   * `parseQuizForm`: an empty `qid` gives id 0, a `qid` that is not an
   * integer is refused, and any other is converted to `uint` (so a
   * negative one wraps around); the text fields are copied as sent, and
   * the questions come from the second of two identical parses.
   */
  method ParseQuizForm(r: Request) returns (result: Result<Quiz, FormError>)
    ensures result.Err? <==> r.qid != "" && Decimal.Atoi(r.qid).Err?
    ensures result.Err? ==> result.error == InvalidQuizId
    ensures result.Ok? ==> result.value.id == if r.qid == "" then 0 else Decimal.Atoi(r.qid).value % Uint64Modulus
    ensures result.Ok? ==> result.value.title == FormValue(r, TitleName)
                           && result.value.password == FormValue(r, PasswordName)
                           && result.value.description == FormValue(r, DescriptionName)
    ensures result.Ok? ==> result.value.questions == QuestionsFrom(r, 1)
  {
    var qid: nat := 0;
    if r.qid != "" {
      var qidInt := Decimal.Atoi(r.qid);
      if qidInt.Err? {
        return Err(InvalidQuizId);
      }
      qid := qidInt.value % Uint64Modulus;
    }
    var title := FormValue(r, TitleName);
    var password := FormValue(r, PasswordName);
    var description := FormValue(r, DescriptionName);
    var questions := ParseQuestions(r);
    questions := ParseQuestions(r);
    return Ok(Quiz(qid, title, password, description, questions));
  }

  /** A negative id in the path wraps around: "-1" becomes 2^64 - 1. */
  lemma NegativeQuizIdWraps()
    ensures Decimal.Atoi("-1") == Ok(-1)
    ensures -1 % Uint64Modulus == Uint64Modulus - 1
  {
    assert Decimal.DigitRun("1") == 1;
    assert "-1"[1..] == "1";
    assert "1"[..1] == "1";
  }
}
