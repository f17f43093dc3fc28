/**
 * `InMemoryQuizRepository`: quizzes kept in a map under ids drawn from a
 * counter that only grows.
 */
module QuizMemoryRepository {
  import opened Wrappers
  import MapEnum

  datatype Question = Question(text: string, answers: seq<string>, correctAnswer: int)

  datatype Quiz = Quiz(
    id: int,
    title: string,
    password: string,
    description: string,
    timePerQuestion: int,
    questionOrder: string,
    questions: seq<Question>)

  const ZeroQuiz := Quiz(0, "", "", "", 0, "", [])

  datatype RepoError =
    | QuizNotFound      // "Quiz not found"
    | QuizAlreadyExists // "Quiz already exists"

  /** `Quiz.AddQuestion`: appends at the end, earlier questions untouched. */
  function AddQuestion(q: Quiz, question: Question): (r: Quiz)
    ensures |r.questions| == |q.questions| + 1
    ensures r.questions[..|q.questions|] == q.questions && r.questions[|q.questions|] == question
    ensures r.(questions := q.questions) == q
  {
    q.(questions := q.questions + [question])
  }

  class InMemoryQuizRepository {
    var quizzes: map<int, Quiz>
    var counter: int

    /** Every stored quiz sits under its own id, below the counter. */
    ghost predicate Valid()
      reads this
    {
      && counter >= 0
      && forall id :: id in quizzes ==> 0 <= id < counter && quizzes[id].id == id
    }

    /** `NewInMemoryQuizRepository`: empty, counter at 0. */
    constructor ()
      ensures Valid() && quizzes == map[] && counter == 0
    {
      quizzes := map[];
      counter := 0;
    }

    /**
     * `AddQuiz`: the quiz gets the counter's value as id, which no stored
     * quiz has; the counter goes up by one.
     */
    method AddQuiz(quiz: Quiz) returns (id: int, err: Option<RepoError>)
      requires Valid()
      modifies this
      ensures Valid()
      ensures err.None? && id == old(counter) && id !in old(quizzes)
      ensures counter == old(counter) + 1
      ensures quizzes == old(quizzes)[id := quiz.(id := id)]
    {
      var q := quiz.(id := counter);
      counter := counter + 1;
      if q.id in quizzes {
        // Every stored id is below the old counter: "Quiz already exists"
        // is never returned.
        assert false;
      }
      quizzes := quizzes[q.id := q];
      return q.id, None;
    }

    /** `UpdateQuiz`: replaces the quiz stored under `quiz.id`, if any. */
    method UpdateQuiz(quiz: Quiz) returns (err: Option<RepoError>)
      requires Valid()
      modifies this`quizzes
      ensures Valid()
      ensures err == (if quiz.id in old(quizzes) then None else Some(QuizNotFound))
      ensures quizzes == if err.None? then old(quizzes)[quiz.id := quiz] else old(quizzes)
    {
      if quiz.id !in quizzes {
        return Some(QuizNotFound);
      }
      quizzes := quizzes[quiz.id := quiz];
      return None;
    }

    /** `GetQuiz`: the stored quiz, or the zero quiz with `QuizNotFound`. */
    function GetQuiz(id: int): (r: (Quiz, Option<RepoError>))
      reads this
      ensures r.1.None? <==> id in quizzes
      ensures r.1.None? ==> r.0 == quizzes[id]
      ensures r.1.Some? ==> r == (ZeroQuiz, Some(QuizNotFound))
    {
      if id in quizzes then (quizzes[id], None) else (ZeroQuiz, Some(QuizNotFound))
    }

    /** `DeleteQuiz`: removes that id or fails; the counter stays, so ids are not reused. */
    method DeleteQuiz(id: int) returns (err: Option<RepoError>)
      requires Valid()
      modifies this`quizzes
      ensures Valid()
      ensures err == (if id in old(quizzes) then None else Some(QuizNotFound))
      ensures quizzes == old(quizzes) - {id}
    {
      if id !in quizzes {
        return Some(QuizNotFound);
      }
      quizzes := quizzes - {id};
      return None;
    }

    /** `GetAllQuizzes`: every stored quiz exactly once, in map order. */
    method GetAllQuizzes() returns (r: seq<Quiz>, ghost ids: seq<int>)
      ensures MapEnum.Enumerates(ids, quizzes.Keys)
      ensures |r| == |ids| == |quizzes|
      ensures forall i :: 0 <= i < |r| ==> ids[i] in quizzes && r[i] == quizzes[ids[i]]
    {
      r, ids := MapEnum.Values(quizzes);
    }
  }
}
