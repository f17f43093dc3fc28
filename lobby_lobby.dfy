/**
 * The lobby package's `Lobby` (lobby.go): creation, moving to the next
 * question and scoring the answers when a question closes.
 *
 * Users are Go references shared between `Host` and `Players`; the model
 * keeps one record per client id in `users`, with the host and the
 * players naming their records by id. The embedded game's `Quiz` is a
 * reference, `None` until one is set. The question timer is reduced to its
 * state: none yet, running, fired or cancelled.
 */
module LobbyLobby {
  import opened Wrappers
  import QuizModels
  import GameRound
  import GoTime
  import opened LobbyTemplates

  type ClientId = string

  /** A `User`; the websocket connection is left out. */
  datatype User = User(
    clientId: ClientId,
    username: string,
    isHost: bool,
    submittedAnswerIdx: int,
    answerSubmissionTime: Option<int>,
    score: int,
    newPoints: int)

  datatype LobbyOptions = LobbyOptions(timePerQuestion: int, pin: string)

  datatype QuestionTimer = NoTimer | Armed | Fired | Cancelled

  /**
   * What `CancellableTimer.Cancel` comes to: a running timer is stopped
   * and its goroutine shows the answer; a missing timer or one already
   * cancelled panics (a nil timer, or a channel closed twice); a timer
   * that fired had its channel drained by the goroutine, so `Cancel`
   * waits on that channel for ever.
   */
  datatype CancelOutcome = QuestionClosed | CancelPanics | CancelBlocks

  /** `CancellableTimer.Cancel` on a timer in state `t`. */
  function CancelOutcomeOf(t: QuestionTimer): (r: CancelOutcome)
    ensures r == QuestionClosed <==> t == Armed
    ensures r == CancelBlocks <==> t == Fired
    ensures r == CancelPanics <==> t == NoTimer || t == Cancelled
  {
    match t
    case Armed => QuestionClosed
    case Fired => CancelBlocks
    case _ => CancelPanics
  }

  /**
   * A lobby's fields as one value (the mutex left out). The question
   * timeout, an RFC 3339 string in the source, is kept as the instant it
   * renders; `None` is the empty string.
   */
  datatype LobbyData = LobbyData(
    quiz: Option<QuizModels.Quiz>,
    host: Option<ClientId>,
    pin: string,
    timePerQuestion: int,
    createdAt: int,
    users: map<ClientId, User>,
    players: set<ClientId>,
    state: LobbyState,
    questionTimer: QuestionTimer,
    currentQuestionStartTime: Option<int>,
    currentQuestionTimeout: Option<int>,
    currentQuestionIdx: int,
    currentQuestion: Option<QuizModels.Question>,
    playersAnswering: int)

  /** The host and every player have a record. */
  ghost predicate Linked(d: LobbyData)
  {
    && (d.host.Some? ==> d.host.value in d.users)
    && d.players <= d.users.Keys
  }

  /** A user whose answer is cleared before a new question. */
  function Cleared(u: User): (r: User)
    ensures r.submittedAnswerIdx == -1 && r.answerSubmissionTime.None?
    ensures r.(submittedAnswerIdx := u.submittedAnswerIdx, answerSubmissionTime := u.answerSubmissionTime) == u
  {
    u.(submittedAnswerIdx := -1, answerSubmissionTime := None)
  }

  /** The records of `who` cleared, every other record as it was. */
  function ClearedFor(users: map<ClientId, User>, who: set<ClientId>): map<ClientId, User>
  {
    map c | c in users :: if c in who then Cleared(users[c]) else users[c]
  }

  /** The host's id as a set: empty when there is no host. */
  function HostSet(host: Option<ClientId>): set<ClientId>
  {
    if host.Some? then {host.value} else {}
  }

  /** Clearing one more record, given as an optional id. */
  lemma ClearedForStep(start: map<ClientId, User>, done: set<ClientId>, c: Option<ClientId>)
    ensures var before := ClearedFor(start, done);
            ClearedFor(start, done + HostSet(c)) ==
              if c.Some? && c.value in start then before[c.value := Cleared(before[c.value])] else before
  {
  }

  /**
   * What `StartNextQuestion` may be called on: a host and a quiz (both
   * dereferenced), and an index at most one short of the number of
   * questions (past that the source indexes beyond the question slice).
   */
  predicate CanStartNextQuestion(d: LobbyData)
  {
    d.host.Some? && d.quiz.Some? && 0 <= d.currentQuestionIdx + 1 <= |d.quiz.value.questions|
  }

  /** `StartNextQuestion` on the lobby as a value. */
  function NextQuestion(d: LobbyData, now: int): LobbyData
    requires CanStartNextQuestion(d)
  {
    var idx := d.currentQuestionIdx + 1;
    var asked := d.(
      users := ClearedFor(d.users, d.players + HostSet(d.host)),
      currentQuestionIdx := idx,
      state := LsQuestion,
      currentQuestionStartTime := Some(now),
      currentQuestionTimeout := Some(now + d.timePerQuestion),
      playersAnswering := |d.players|);
    if idx == |d.quiz.value.questions| then asked.(state := LsFinalResults)
    else asked.(currentQuestion := Some(d.quiz.value.questions[idx]), questionTimer := Armed)
  }

  /**
   * `StartNextQuestion` clears the host's and every player's answer,
   * advances the index by one, stamps the question's start and timeout and
   * expects an answer from every player. Once the index reaches the
   * number of questions the lobby shows the final results, and the
   * current question and the timer are left as they were; otherwise the
   * indexed question is open and its timer runs. Nothing else changes.
   */
  lemma NextQuestionFacts(d: LobbyData, now: int)
    requires CanStartNextQuestion(d)
    ensures var r := NextQuestion(d, now);
      && r.currentQuestionIdx == d.currentQuestionIdx + 1
      && r.playersAnswering == |d.players|
      && r.users.Keys == d.users.Keys
      && (forall c :: c in d.users && (c in d.players || d.host == Some(c)) ==> r.users[c] == Cleared(d.users[c]))
      && (forall c :: c in d.users && c !in d.players && d.host != Some(c) ==> r.users[c] == d.users[c])
      && (r.currentQuestionIdx == |d.quiz.value.questions| ==>
            r.state == LsFinalResults && r.currentQuestion == d.currentQuestion &&
            r.questionTimer == d.questionTimer)
      && (r.currentQuestionIdx < |d.quiz.value.questions| ==>
            r.state == LsQuestion && r.questionTimer == Armed &&
            r.currentQuestion == Some(d.quiz.value.questions[r.currentQuestionIdx]))
      && r.currentQuestionStartTime == Some(now)
      && r.currentQuestionTimeout == Some(now + d.timePerQuestion)
      && r.(users := d.users, state := d.state, questionTimer := d.questionTimer,
            currentQuestionStartTime := d.currentQuestionStartTime,
            currentQuestionTimeout := d.currentQuestionTimeout, currentQuestionIdx := d.currentQuestionIdx,
            currentQuestion := d.currentQuestion, playersAnswering := d.playersAnswering) == d
      && (Linked(d) ==> Linked(r))
  {
  }

  // ------------------------------------------------------------ scoring

  /** The submitted index names one of the question's answers. */
  predicate Answered(u: User, q: Option<QuizModels.Question>)
  {
    q.Some? && 0 <= u.submittedAnswerIdx < |q.value.answers|
  }

  /** The submitted index is `-1` (no answer) or names one of the question's answers. */
  predicate Answerable(u: User, q: Option<QuizModels.Question>)
  {
    u.submittedAnswerIdx == -1 || Answered(u, q)
  }

  /** Every player's submitted index names an answer of the current question. */
  ghost predicate AllAnswered(d: LobbyData)
  {
    forall c :: c in d.players && c in d.users ==> Answered(d.users[c], d.currentQuestion)
  }

  /** Every player's submitted index is `-1` or names an answer of the current question. */
  ghost predicate PlayersAnswerable(d: LobbyData)
  {
    forall c :: c in d.players && c in d.users ==> Answerable(d.users[c], d.currentQuestion)
  }

  /**
   * One player's points as the loop of `ShowAnswer` computes them for an
   * answer: a wrong answer leaves the record as it was, a right one adds
   * its new points to the score, and a right one within 500 ms earns the
   * full 1000.
   */
  function ScoredAnswer(u: User, q: Option<QuizModels.Question>, start: Option<int>, timePerQuestion: int): (r: User)
    requires Answered(u, q)
    ensures r.(score := u.score, newPoints := u.newPoints) == u
    ensures !q.value.answers[u.submittedAnswerIdx].isCorrect ==> r == u
    ensures q.value.answers[u.submittedAnswerIdx].isCorrect ==> r.score == u.score + r.newPoints
    ensures (q.value.answers[u.submittedAnswerIdx].isCorrect &&
             GoTime.Sub(u.answerSubmissionTime, start) < GameRound.FastAnswer) ==> r.newPoints == GameRound.MaxPoints
  {
    if q.value.answers[u.submittedAnswerIdx].isCorrect then
      var timeToAnswer := GoTime.Sub(u.answerSubmissionTime, start);
      var points :=
        if timeToAnswer < GameRound.FastAnswer then GameRound.MaxPoints
        else GameRound.SlowAnswerPoints(timeToAnswer, timePerQuestion);
      u.(newPoints := points, score := u.score + points)
    else u
  }

  /**
   * One player's points with the missing guard for an absent answer in
   * place: no answer earns 0 new points and keeps the score; an answer is
   * scored as before.
   */
  function Scored(u: User, q: Option<QuizModels.Question>, start: Option<int>, timePerQuestion: int): (r: User)
    requires Answerable(u, q)
    ensures u.submittedAnswerIdx == -1 ==> r == u.(newPoints := 0)
    ensures Answered(u, q) ==> r == ScoredAnswer(u, q, start, timePerQuestion)
  {
    if u.submittedAnswerIdx == -1 then u.(newPoints := 0)
    else ScoredAnswer(u, q, start, timePerQuestion)
  }

  /** The records of `who` scored as `ShowAnswer` scores them, every other record as it was. */
  function AnswersScoredFor(d: LobbyData, who: set<ClientId>): map<ClientId, User>
    requires forall c :: c in who && c in d.users ==> Answered(d.users[c], d.currentQuestion)
  {
    map c | c in d.users ::
      if c in who then ScoredAnswer(d.users[c], d.currentQuestion, d.currentQuestionStartTime, d.timePerQuestion)
      else d.users[c]
  }

  /** The records of `who` scored with the guard in place, every other record as it was. */
  function ScoredFor(d: LobbyData, who: set<ClientId>): map<ClientId, User>
    requires forall c :: c in who && c in d.users ==> Answerable(d.users[c], d.currentQuestion)
  {
    map c | c in d.users ::
      if c in who then Scored(d.users[c], d.currentQuestion, d.currentQuestionStartTime, d.timePerQuestion)
      else d.users[c]
  }

  lemma AnswersScoredForStep(d: LobbyData, done: set<ClientId>, c: ClientId)
    requires AllAnswered(d) && done <= d.players && c in d.players && c !in done
    ensures var before := AnswersScoredFor(d, done);
            AnswersScoredFor(d, done + {c}) ==
              if c in d.users
              then before[c := ScoredAnswer(before[c], d.currentQuestion, d.currentQuestionStartTime, d.timePerQuestion)]
              else before
  {
  }

  lemma ScoredForStep(d: LobbyData, done: set<ClientId>, c: ClientId)
    requires PlayersAnswerable(d) && done <= d.players && c in d.players && c !in done
    ensures var before := ScoredFor(d, done);
            ScoredFor(d, done + {c}) ==
              if c in d.users
              then before[c := Scored(before[c], d.currentQuestion, d.currentQuestionStartTime, d.timePerQuestion)]
              else before
  {
  }

  /**
   * `ShowAnswer` as written: the answer state and every player scored for
   * the current question; it can only be run when every player has
   * answered, because the unanswered index `-1` is looked up as an answer.
   */
  function AnswerShownAsWritten(d: LobbyData): (r: LobbyData)
    requires AllAnswered(d)
    ensures r.state == LsAnswer
    ensures r.users.Keys == d.users.Keys
    ensures forall c :: c in d.users && c !in d.players ==> r.users[c] == d.users[c]
    ensures forall c :: c in d.users && c in d.players ==>
              r.users[c] == ScoredAnswer(d.users[c], d.currentQuestion, d.currentQuestionStartTime, d.timePerQuestion)
    ensures r.(users := d.users, state := d.state) == d
    ensures Linked(d) ==> Linked(r)
  {
    d.(state := LsAnswer, users := AnswersScoredFor(d, d.players))
  }

  /**
   * `ShowAnswer` with the guard: the answer state, every player scored,
   * a player without an answer given 0 new points, and nothing else
   * changed.
   */
  function AnswerShown(d: LobbyData): (r: LobbyData)
    requires PlayersAnswerable(d)
    ensures r.state == LsAnswer
    ensures r.users.Keys == d.users.Keys
    ensures forall c :: c in d.users && c !in d.players ==> r.users[c] == d.users[c]
    ensures forall c :: c in d.users && c in d.players ==>
              r.users[c] == Scored(d.users[c], d.currentQuestion, d.currentQuestionStartTime, d.timePerQuestion)
    ensures r.(users := d.users, state := d.state) == d
    ensures Linked(d) ==> Linked(r)
  {
    d.(state := LsAnswer, users := ScoredFor(d, d.players))
  }

  /** Where every player has answered, the guard changes nothing. */
  lemma AnswerShownAgrees(d: LobbyData)
    requires AllAnswered(d)
    ensures PlayersAnswerable(d)
    ensures AnswerShown(d) == AnswerShownAsWritten(d)
  {
    assert PlayersAnswerable(d);
    assert ScoredFor(d, d.players) == AnswersScoredFor(d, d.players);
  }

  /**
   * The defect: right after a question opens every player's index is -1,
   * so closing it before a player answers (the skip button, or the timer
   * running out) makes `ShowAnswer` look up answer -1 and panic.
   */
  lemma ShowAnswerRefusedAfterNextQuestion(d: LobbyData, now: int, p: ClientId)
    requires CanStartNextQuestion(d) && d.currentQuestionIdx + 1 < |d.quiz.value.questions|
    requires p in d.players && p in d.users
    ensures !AllAnswered(NextQuestion(d, now))
  {
    NextQuestionFacts(d, now);
    assert NextQuestion(d, now).users[p].submittedAnswerIdx == -1;
  }

  /** A player who did not answer keeps their score and earns nothing. */
  lemma UnansweredEarnsNothing(d: LobbyData, c: ClientId)
    requires PlayersAnswerable(d)
    requires c in d.players && c in d.users && d.users[c].submittedAnswerIdx == -1
    ensures AnswerShown(d).users[c].newPoints == 0
    ensures AnswerShown(d).users[c].score == d.users[c].score
  {
  }

  /** With the guard, a question can be closed right after it opens: every player earns 0. */
  lemma {:induction false} ShowAnswerAfterNextQuestion(d: LobbyData, now: int)
    requires CanStartNextQuestion(d)
    ensures PlayersAnswerable(NextQuestion(d, now))
    ensures forall c :: c in d.players && c in d.users ==>
              AnswerShown(NextQuestion(d, now)).users[c].newPoints == 0 &&
              AnswerShown(NextQuestion(d, now)).users[c].score == d.users[c].score
  {
    NextQuestionFacts(d, now);
    var n := NextQuestion(d, now);
    forall c | c in n.players && c in n.users
      ensures Answerable(n.users[c], n.currentQuestion)
    {
      assert n.users[c] == Cleared(d.users[c]);
    }
    forall c | c in d.players && c in d.users
      ensures AnswerShown(n).users[c].newPoints == 0 && AnswerShown(n).users[c].score == d.users[c].score
    {
      assert n.users[c] == Cleared(d.users[c]);
      UnansweredEarnsNothing(n, c);
    }
  }

  // ------------------------------------------------------------ the lobby object

  class Lobby {
    var quiz: Option<QuizModels.Quiz>
    var host: Option<ClientId>
    var pin: string
    var timePerQuestion: int
    var createdAt: int
    var users: map<ClientId, User>
    var players: set<ClientId>
    var state: LobbyState
    var questionTimer: QuestionTimer
    var currentQuestionStartTime: Option<int>
    var currentQuestionTimeout: Option<int>
    var currentQuestionIdx: int
    var currentQuestion: Option<QuizModels.Question>
    var playersAnswering: int

    function State(): LobbyData
      reads this
    {
      LobbyData(quiz, host, pin, timePerQuestion, createdAt, users, players, state, questionTimer,
                currentQuestionStartTime, currentQuestionTimeout, currentQuestionIdx,
                currentQuestion, playersAnswering)
    }

    /**
     * `CreateLobby`: no host, no players and no quiz yet, waiting for
     * players, with the index before the first question.
     */
    constructor (options: LobbyOptions, now: int)
      ensures State() == LobbyData(None, None, options.pin, options.timePerQuestion, now, map[], {},
                                   LsWaitingForPlayers, NoTimer, None, None, -1, None, 0)
      ensures Linked(State())
    {
      quiz := None;
      host := None;
      pin := options.pin;
      timePerQuestion := options.timePerQuestion;
      createdAt := now;
      users := map[];
      players := {};
      state := LsWaitingForPlayers;
      questionTimer := NoTimer;
      currentQuestionStartTime := None;
      currentQuestionTimeout := None;
      currentQuestionIdx := -1;
      currentQuestion := None;
      playersAnswering := 0;
    }

    /** `&Lobby{}`: every field at its zero value. */
    constructor Zero()
      ensures State() == LobbyData(None, None, "", 0, 0, map[], {}, LsWaitingForPlayers, NoTimer,
                                   None, None, 0, None, 0)
    {
      quiz := None;
      host := None;
      pin := "";
      timePerQuestion := 0;
      createdAt := 0;
      users := map[];
      players := {};
      state := LsWaitingForPlayers;
      questionTimer := NoTimer;
      currentQuestionStartTime := None;
      currentQuestionTimeout := None;
      currentQuestionIdx := 0;
      currentQuestion := None;
      playersAnswering := 0;
    }

    /** `StartNextQuestion`, on a lobby it can be called on. */
    method StartNextQuestion(now: int)
      requires CanStartNextQuestion(State())
      modifies this
      ensures State() == NextQuestion(old(State()), now)
    {
      ClearAnswers();
      Advance(now);
      ExpectAnswers(now);
      if currentQuestionIdx == |quiz.value.questions| {
        state := LsFinalResults;
        return;
      }
      OpenQuestion();
    }

    /** The reset loop of `StartNextQuestion` applied to the lobby's records. */
    method ClearAnswers()
      modifies this
      ensures State() == old(State()).(users := ClearedFor(old(users), old(players) + HostSet(old(host))))
    {
      users := ClearUsers(users, players, host);
    }

    /** `StartNextQuestion` moving the index on and opening the question state at `now`. */
    method Advance(now: int)
      modifies this
      ensures State() == old(State()).(currentQuestionIdx := old(currentQuestionIdx) + 1,
                                       state := LsQuestion, currentQuestionStartTime := Some(now))
    {
      currentQuestionIdx := currentQuestionIdx + 1;
      state := LsQuestion;
      currentQuestionStartTime := Some(now);
    }

    /** `StartNextQuestion` setting the deadline and the count of players still to answer. */
    method ExpectAnswers(now: int)
      modifies this
      ensures State() == old(State()).(currentQuestionTimeout := Some(now + timePerQuestion),
                                       playersAnswering := |players|)
    {
      currentQuestionTimeout := Some(now + timePerQuestion);
      playersAnswering := |players|;
    }

    /** `StartNextQuestion` showing the indexed question and starting its timer. */
    method OpenQuestion()
      requires quiz.Some? && 0 <= currentQuestionIdx < |quiz.value.questions|
      modifies this
      ensures State() == old(State()).(currentQuestion := Some(old(quiz.value.questions[currentQuestionIdx])),
                                       questionTimer := Armed)
    {
      currentQuestion := Some(quiz.value.questions[currentQuestionIdx]);
      questionTimer := Armed;
    }

    /** The reset loop itself, on the user table as a value: the host's answer, then each player's. */
    static method ClearUsers(start: map<ClientId, User>, ps: set<ClientId>, h: Option<ClientId>)
      returns (us: map<ClientId, User>)
      ensures us == ClearedFor(start, ps + HostSet(h))
    {
      us := start;
      if h.Some? && h.value in us {
        us := us[h.value := Cleared(us[h.value])];
      }
      ClearedForStep(start, {}, h);
      ghost var cleared := HostSet(h);
      var rest := ps;
      while rest != {}
        invariant rest <= ps
        invariant cleared + rest == ps + HostSet(h)
        invariant us == ClearedFor(start, cleared)
        decreases rest
      {
        var c :| c in rest;
        ClearedForStep(start, cleared, Some(c));
        if c in us {
          us := us[c := Cleared(us[c])];
        }
        cleared := cleared + {c};
        rest := rest - {c};
      }
    }

    /**
     * `ShowAnswer` as written. Every player's submitted index must name an
     * answer of the current question: the source looks the index up
     * without checking for -1.
     */
    method ShowAnswer()
      requires AllAnswered(State())
      modifies this
      ensures State() == AnswerShownAsWritten(old(State()))
    {
      users := ScoreAnswers(State());
      state := LsAnswer;
    }

    /** The scoring loop of `ShowAnswer`, on the lobby as a value. */
    static method ScoreAnswers(d: LobbyData) returns (us: map<ClientId, User>)
      requires AllAnswered(d)
      ensures us == AnswersScoredFor(d, d.players)
    {
      us := d.users;
      ghost var scored: set<ClientId> := {};
      var rest := d.players;
      while rest != {}
        invariant rest <= d.players
        invariant scored + rest == d.players && scored !! rest
        invariant us == AnswersScoredFor(d, scored)
        decreases rest
      {
        var c :| c in rest;
        AnswersScoredForStep(d, scored, c);
        if c in us {
          us := us[c := ScoredAnswer(us[c], d.currentQuestion, d.currentQuestionStartTime, d.timePerQuestion)];
        }
        scored := scored + {c};
        rest := rest - {c};
      }
    }

    /**
     * `ShowAnswer` with a player who has not answered given 0 new points
     * and skipped: every index need only be -1 or an answer's.
     */
    method ShowAnswerCorrected()
      requires PlayersAnswerable(State())
      modifies this
      ensures State() == AnswerShown(old(State()))
    {
      users := ScoreUsers(State());
      state := LsAnswer;
    }

    /** The scoring loop of `ShowAnswerCorrected`, on the lobby as a value. */
    static method ScoreUsers(d: LobbyData) returns (us: map<ClientId, User>)
      requires PlayersAnswerable(d)
      ensures us == ScoredFor(d, d.players)
    {
      us := d.users;
      ghost var scored: set<ClientId> := {};
      var rest := d.players;
      while rest != {}
        invariant rest <= d.players
        invariant scored + rest == d.players && scored !! rest
        invariant us == ScoredFor(d, scored)
        decreases rest
      {
        var c :| c in rest;
        ScoredForStep(d, scored, c);
        if c in us {
          var u := us[c];
          if u.submittedAnswerIdx == -1 {
            us := us[c := u.(newPoints := 0)];
          } else {
            us := us[c := ScoredAnswer(u, d.currentQuestion, d.currentQuestionStartTime, d.timePerQuestion)];
          }
        }
        scored := scored + {c};
        rest := rest - {c};
      }
    }
  }
}
