/**
 * The quiz package's in-memory data model and the bounds checks through
 * which a quiz serves the game engine's `Quiz` and `Question` interfaces.
 */
module QuizModels {
  import opened Wrappers
  import GameCommon

  datatype Answer = Answer(
    id: int,
    questionId: int,
    isCorrect: bool,
    textField: string,
    latex: string,
    imageName: string,
    image: seq<GameCommon.Byte>)

  datatype Question = Question(id: int, quizId: int, text: string, answers: seq<Answer>)

  datatype Quiz = Quiz(
    id: int,
    titleField: string,
    password: string,
    description: string,
    questions: seq<Question>)

  /** "No question with index: <idx>" */
  datatype QuizError = NoQuestionWithIndex(index: int)

  function Title(q: Quiz): string { q.titleField }

  function Text(a: Answer): string { a.textField }

  /** `Quiz.GetQuestion`: the question at `idx` when it exists, an error otherwise. */
  function GetQuestion(q: Quiz, idx: int): (r: Result<Question, QuizError>)
    ensures r.Ok? <==> 0 <= idx < |q.questions|
    ensures r.Ok? ==> r.value == q.questions[idx]
    ensures r.Err? ==> r.error == NoQuestionWithIndex(idx)
  {
    if |q.questions| > idx && idx > -1 then Ok(q.questions[idx])
    else Err(NoQuestionWithIndex(idx))
  }

  function QuestionsCount(q: Quiz): nat { |q.questions| }

  /** `Question.IsAnswerValid`: the index names one of the answers. */
  predicate IsAnswerValid(q: Question, answerIndex: int)
  {
    if |q.answers| <= answerIndex then false
    else if 0 > answerIndex then false
    else true
  }

  /** `Question.IsAnswerCorrect`: false for an invalid index, else the answer's flag. */
  function IsAnswerCorrect(q: Question, answerIndex: int): (b: bool)
    ensures b <==> 0 <= answerIndex < |q.answers| && q.answers[answerIndex].isCorrect
  {
    if !IsAnswerValid(q, answerIndex) then false
    else q.answers[answerIndex].isCorrect
  }

  /** `Question.Answers`: an element-by-element copy of the answers. */
  function Answers(q: Question): (r: seq<Answer>)
    ensures |r| == |q.answers|
    ensures forall i :: 0 <= i < |r| ==> r[i] == q.answers[i]
  {
    seq(|q.answers|, i requires 0 <= i < |q.answers| => q.answers[i])
  }

  lemma IsAnswerValidBounds(q: Question, answerIndex: int)
    ensures IsAnswerValid(q, answerIndex) <==> 0 <= answerIndex < |q.answers|
  {
  }

  /** A quiz question seen through the game's `Question` interface. */
  function AsGameQuestion(q: Question): GameCommon.Question
  {
    GameCommon.Question(i => IsAnswerValid(q, i), i => IsAnswerCorrect(q, i))
  }

  /** A quiz seen through the game's `Quiz` interface. */
  function AsGameQuiz(q: Quiz): GameCommon.Quiz
  {
    GameCommon.Quiz(
      Title(q),
      QuestionsCount(q),
      i => match GetQuestion(q, i)
           case Ok(question) => Some(AsGameQuestion(question))
           case Err(_) => None)
  }

  /**
   * Through the interface the game can fetch exactly the questions below
   * `QuestionsCount`, so the game's `roundNum + 1 >= QuestionsCount()`
   * check leaves no index that `GetQuestion` would refuse.
   */
  lemma GameQuizQuestions(q: Quiz, i: int)
    ensures AsGameQuiz(q).getQuestion(i).Some? <==> 0 <= i < AsGameQuiz(q).questionsCount
    ensures 0 <= i < |q.questions| ==>
              AsGameQuiz(q).getQuestion(i) == Some(AsGameQuestion(q.questions[i]))
  {
  }
}
