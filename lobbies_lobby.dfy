/**
 * The lobbies package's `lobby` record (lobby.go): creation, moving to
 * the next question and scoring the answers when a question closes.
 * Users are Go references shared between `Host` and `Players`; the model
 * keeps one record per client id in `users`, with the host and the
 * players naming their records by id, so a host who is also a player
 * still has a single record.
 */
module LobbiesLobby {
  import opened Wrappers
  import QuizModels
  import GameRound
  import GoTime

  type ClientId = string

  datatype LobbyState = LsWaitingForPlayers | LsQuestion | LsAnswer | LsFinalResults

  /** A `user`; the websocket connection is left out. */
  datatype User = User(
    clientId: ClientId,
    username: string,
    isHost: bool,
    submittedAnswerIdx: int,
    answerSubmissionTime: Option<int>,
    score: int,
    newPoints: int)

  datatype LobbyOptions = LobbyOptions(timePerQuestion: int, pin: string)

  /** A lobby's fields as one value (the mutex and the question timer left out). */
  datatype LobbyData = LobbyData(
    quiz: Option<QuizModels.Quiz>,
    host: Option<ClientId>,
    pin: string,
    timePerQuestion: int,
    createdAt: int,
    users: map<ClientId, User>,
    players: set<ClientId>,
    state: LobbyState,
    currentQuestionStartTime: Option<int>,
    currentQuestionTimeout: Option<int>,
    currentQuestionIdx: int,
    currentQuestion: Option<QuizModels.Question>,
    playersAnswering: int)

  /** The host and every player have a record. */
  ghost predicate Linked(d: LobbyData)
  {
    && (d.host.Some? ==> d.host.value in d.users)
    && d.players <= d.users.Keys
  }

  /** A user whose answer is cleared before a new question. */
  function Cleared(u: User): (r: User)
    ensures r.submittedAnswerIdx == -1 && r.answerSubmissionTime.None?
    ensures r.(submittedAnswerIdx := u.submittedAnswerIdx, answerSubmissionTime := u.answerSubmissionTime) == u
  {
    u.(submittedAnswerIdx := -1, answerSubmissionTime := None)
  }

  /** The records of `who` cleared, every other record as it was. */
  function ClearedFor(users: map<ClientId, User>, who: set<ClientId>): map<ClientId, User>
  {
    map c | c in users :: if c in who then Cleared(users[c]) else users[c]
  }

  /** The host's id as a set: empty when there is no host. */
  function HostSet(host: Option<ClientId>): set<ClientId>
  {
    if host.Some? then {host.value} else {}
  }

  /** Clearing one more record, given as an optional id. */
  lemma ClearedForStep(start: map<ClientId, User>, done: set<ClientId>, c: Option<ClientId>)
    ensures var before := ClearedFor(start, done);
            ClearedFor(start, done + HostSet(c)) ==
              if c.Some? && c.value in start then before[c.value := Cleared(before[c.value])] else before
  {
  }

  /** `startNextQuestion` on the lobby as a value. */
  function NextQuestion(d: LobbyData, now: int): LobbyData
    requires d.host.Some? && d.quiz.Some?
    requires 0 <= d.currentQuestionIdx + 1 <= |d.quiz.value.questions|
  {
    var idx := d.currentQuestionIdx + 1;
    var asked := d.(
      users := ClearedFor(d.users, d.players + HostSet(d.host)),
      currentQuestionIdx := idx,
      state := LsQuestion,
      currentQuestionStartTime := Some(now),
      currentQuestionTimeout := Some(now + d.timePerQuestion),
      playersAnswering := |d.players|);
    if idx == |d.quiz.value.questions| then asked.(state := LsFinalResults)
    else asked.(currentQuestion := Some(d.quiz.value.questions[idx]))
  }

  /**
   * `startNextQuestion` clears the host's and every player's answer,
   * advances the index by one, opens the question state and expects an
   * answer from every player. Once the index reaches the number of
   * questions the lobby shows the final results instead and the current
   * question is left as it was. Nothing else changes.
   */
  lemma NextQuestionFacts(d: LobbyData, now: int)
    requires d.host.Some? && d.quiz.Some?
    requires 0 <= d.currentQuestionIdx + 1 <= |d.quiz.value.questions|
    ensures var r := NextQuestion(d, now);
      && r.currentQuestionIdx == d.currentQuestionIdx + 1
      && r.playersAnswering == |d.players|
      && r.users.Keys == d.users.Keys
      && (forall c :: c in d.users && (c in d.players || d.host == Some(c)) ==> r.users[c] == Cleared(d.users[c]))
      && (forall c :: c in d.users && c !in d.players && d.host != Some(c) ==> r.users[c] == d.users[c])
      && (r.currentQuestionIdx == |d.quiz.value.questions| ==>
            r.state == LsFinalResults && r.currentQuestion == d.currentQuestion)
      && (r.currentQuestionIdx < |d.quiz.value.questions| ==>
            r.state == LsQuestion && r.currentQuestion == Some(d.quiz.value.questions[r.currentQuestionIdx]))
      && r.currentQuestionStartTime == Some(now)
      && r.currentQuestionTimeout == Some(now + d.timePerQuestion)
      && r.(users := d.users, state := d.state, currentQuestionStartTime := d.currentQuestionStartTime,
            currentQuestionTimeout := d.currentQuestionTimeout, currentQuestionIdx := d.currentQuestionIdx,
            currentQuestion := d.currentQuestion, playersAnswering := d.playersAnswering) == d
      && (Linked(d) ==> Linked(r))
  {
  }

  /** The submitted index can be looked up: `-1` (no answer) or a valid index of the question. */
  predicate Answerable(u: User, q: Option<QuizModels.Question>)
  {
    u.submittedAnswerIdx == -1 || (q.Some? && 0 <= u.submittedAnswerIdx < |q.value.answers|)
  }

  /** The user submitted an answer that the question marks correct. */
  predicate AnsweredCorrectly(u: User, q: Option<QuizModels.Question>)
  {
    && u.submittedAnswerIdx != -1
    && q.Some? && 0 <= u.submittedAnswerIdx < |q.value.answers|
    && q.value.answers[u.submittedAnswerIdx].isCorrect
  }

  /**
   * One player's points when the question `q` that opened at `start`
   * closes: no answer earns 0 new points, a wrong answer leaves the record
   * as it was, a right one within 500 ms earns the full 1000, and a right
   * answer adds its new points to the score.
   */
  function Scored(u: User, q: Option<QuizModels.Question>, start: Option<int>, timePerQuestion: int): (r: User)
    requires Answerable(u, q)
    ensures r.(score := u.score, newPoints := u.newPoints) == u
    ensures u.submittedAnswerIdx == -1 ==> r.newPoints == 0 && r.score == u.score
    ensures u.submittedAnswerIdx != -1 && !AnsweredCorrectly(u, q) ==> r == u
    ensures AnsweredCorrectly(u, q) ==> r.score == u.score + r.newPoints
    ensures AnsweredCorrectly(u, q) && GoTime.Sub(u.answerSubmissionTime, start) < GameRound.FastAnswer ==>
              r.newPoints == GameRound.MaxPoints
  {
    if u.submittedAnswerIdx == -1 then u.(newPoints := 0)
    else if q.value.answers[u.submittedAnswerIdx].isCorrect then
      var timeToAnswer := GoTime.Sub(u.answerSubmissionTime, start);
      var points :=
        if timeToAnswer < GameRound.FastAnswer then GameRound.MaxPoints
        else GameRound.SlowAnswerPoints(timeToAnswer, timePerQuestion);
      u.(newPoints := points, score := u.score + points)
    else u
  }

  /** Every player's submitted index can be looked up in the current question. */
  ghost predicate PlayersAnswerable(d: LobbyData)
  {
    forall c :: c in d.players && c in d.users ==> Answerable(d.users[c], d.currentQuestion)
  }

  /** The players' records after scoring, every other record as it was. */
  function ScoredFor(d: LobbyData, who: set<ClientId>): map<ClientId, User>
    requires forall c :: c in who && c in d.users ==> Answerable(d.users[c], d.currentQuestion)
  {
    map c | c in d.users ::
      if c in who then Scored(d.users[c], d.currentQuestion, d.currentQuestionStartTime, d.timePerQuestion)
      else d.users[c]
  }

  /** Scoring one more player who was not scored yet. */
  lemma ScoredForStep(d: LobbyData, done: set<ClientId>, c: ClientId)
    requires PlayersAnswerable(d) && done <= d.players && c in d.players && c !in done
    ensures var before := ScoredFor(d, done);
            ScoredFor(d, done + {c}) ==
              if c in d.users
              then before[c := Scored(before[c], d.currentQuestion, d.currentQuestionStartTime, d.timePerQuestion)]
              else before
  {
  }

  /**
   * `showAnswer`: the answer state, every player scored for the current
   * question, and nothing else changed; in particular the host's record
   * changes only if the host is also a player.
   */
  function AnswerShown(d: LobbyData): (r: LobbyData)
    requires PlayersAnswerable(d)
    ensures r.state == LsAnswer
    ensures r.users.Keys == d.users.Keys
    ensures forall c :: c in d.users && c !in d.players ==> r.users[c] == d.users[c]
    ensures forall c :: c in d.users && c in d.players ==>
              r.users[c] == Scored(d.users[c], d.currentQuestion, d.currentQuestionStartTime, d.timePerQuestion)
    ensures r.(users := d.users, state := d.state) == d
    ensures Linked(d) ==> Linked(r)
  {
    d.(state := LsAnswer, users := ScoredFor(d, d.players))
  }

  /** A player who did not answer keeps their score and earns nothing. */
  lemma UnansweredEarnsNothing(d: LobbyData, c: ClientId)
    requires PlayersAnswerable(d)
    requires c in d.players && c in d.users && d.users[c].submittedAnswerIdx == -1
    ensures AnswerShown(d).users[c].newPoints == 0
    ensures AnswerShown(d).users[c].score == d.users[c].score
  {
  }

  /** Right after a question opens, scoring it gives every player 0 new points. */
  lemma {:induction false} ShowAnswerAfterNextQuestion(d: LobbyData, now: int)
    requires d.host.Some? && d.quiz.Some?
    requires 0 <= d.currentQuestionIdx + 1 <= |d.quiz.value.questions|
    ensures PlayersAnswerable(NextQuestion(d, now))
    ensures forall c :: c in d.players && c in d.users ==>
              AnswerShown(NextQuestion(d, now)).users[c].newPoints == 0 &&
              AnswerShown(NextQuestion(d, now)).users[c].score == d.users[c].score
  {
    NextQuestionFacts(d, now);
    var n := NextQuestion(d, now);
    forall c | c in n.players && c in n.users
      ensures Answerable(n.users[c], n.currentQuestion)
    {
      assert n.users[c] == Cleared(d.users[c]);
    }
    forall c | c in d.players && c in d.users
      ensures AnswerShown(n).users[c].newPoints == 0 && AnswerShown(n).users[c].score == d.users[c].score
    {
      assert n.users[c] == Cleared(d.users[c]);
      UnansweredEarnsNothing(n, c);
    }
  }

  class Lobby {
    var quiz: Option<QuizModels.Quiz>
    var host: Option<ClientId>
    var pin: string
    var timePerQuestion: int
    var createdAt: int
    var users: map<ClientId, User>
    var players: set<ClientId>
    var state: LobbyState
    var currentQuestionStartTime: Option<int>
    var currentQuestionTimeout: Option<int>
    var currentQuestionIdx: int
    var currentQuestion: Option<QuizModels.Question>
    var playersAnswering: int

    function State(): LobbyData
      reads this
    {
      LobbyData(quiz, host, pin, timePerQuestion, createdAt, users, players, state,
                currentQuestionStartTime, currentQuestionTimeout, currentQuestionIdx,
                currentQuestion, playersAnswering)
    }

    /**
     * `createLobby`: no host, no players and no quiz yet, waiting for
     * players, with the index before the first question.
     */
    constructor (options: LobbyOptions, now: int)
      ensures State() == LobbyData(None, None, options.pin, options.timePerQuestion, now, map[], {},
                                   LsWaitingForPlayers, None, None, -1, None, 0)
      ensures Linked(State())
    {
      quiz := None;
      host := None;
      pin := options.pin;
      timePerQuestion := options.timePerQuestion;
      createdAt := now;
      users := map[];
      players := {};
      state := LsWaitingForPlayers;
      currentQuestionStartTime := None;
      currentQuestionTimeout := None;
      currentQuestionIdx := -1;
      currentQuestion := None;
      playersAnswering := 0;
    }

    /** `lobby{}`: every field at its zero value. */
    constructor Zero()
      ensures State() == LobbyData(None, None, "", 0, 0, map[], {}, LsWaitingForPlayers, None, None, 0, None, 0)
    {
      quiz := None;
      host := None;
      pin := "";
      timePerQuestion := 0;
      createdAt := 0;
      users := map[];
      players := {};
      state := LsWaitingForPlayers;
      currentQuestionStartTime := None;
      currentQuestionTimeout := None;
      currentQuestionIdx := 0;
      currentQuestion := None;
      playersAnswering := 0;
    }

    /**
     * `startNextQuestion`. The host and the quiz must be set, and the
     * index may run at most one past the last question: beyond that the
     * source indexes past the end of the question slice.
     */
    method StartNextQuestion(now: int)
      requires host.Some? && quiz.Some?
      requires 0 <= currentQuestionIdx + 1 <= |quiz.value.questions|
      modifies this
      ensures State() == NextQuestion(old(State()), now)
    {
      ghost var d := State();
      ClearAnswers();
      currentQuestionIdx := currentQuestionIdx + 1;
      state := LsQuestion;
      currentQuestionStartTime := Some(now);
      currentQuestionTimeout := Some(now + timePerQuestion);
      playersAnswering := |players|;
      ghost var asked := State();
      assert asked == d.(
        users := ClearedFor(d.users, d.players + HostSet(d.host)),
        currentQuestionIdx := d.currentQuestionIdx + 1,
        state := LsQuestion,
        currentQuestionStartTime := Some(now),
        currentQuestionTimeout := Some(now + d.timePerQuestion),
        playersAnswering := |d.players|);
      if currentQuestionIdx == |quiz.value.questions| {
        state := LsFinalResults;
        return;
      }
      currentQuestion := Some(quiz.value.questions[currentQuestionIdx]);
    }

    /** The reset loop of `startNextQuestion`: the host's answer, then each player's. */
    method ClearAnswers()
      modifies this
      ensures State() == old(State()).(users := ClearedFor(old(users), old(players) + HostSet(old(host))))
    {
      users := ClearUsers(users, players, host);
    }

    /** The loop itself, on the user table as a value. */
    static method ClearUsers(start: map<ClientId, User>, ps: set<ClientId>, h: Option<ClientId>)
      returns (us: map<ClientId, User>)
      ensures us == ClearedFor(start, ps + HostSet(h))
    {
      us := start;
      if h.Some? && h.value in us {
        us := us[h.value := Cleared(us[h.value])];
      }
      ClearedForStep(start, {}, h);
      ghost var cleared := HostSet(h);
      var rest := ps;
      while rest != {}
        invariant rest <= ps
        invariant cleared + rest == ps + HostSet(h)
        invariant us == ClearedFor(start, cleared)
        decreases rest
      {
        var c :| c in rest;
        ClearedForStep(start, cleared, Some(c));
        if c in us {
          us := us[c := Cleared(us[c])];
        }
        cleared := cleared + {c};
        rest := rest - {c};
      }
    }

    /**
     * `showAnswer`. Every player's submitted index must be `-1` or an
     * index of the current question's answers; otherwise the source
     * indexes out of range or through a nil question.
     */
    method ShowAnswer()
      requires PlayersAnswerable(State())
      modifies this
      ensures State() == AnswerShown(old(State()))
    {
      users := ScoreUsers(State());
      state := LsAnswer;
    }

    /** The scoring loop of `showAnswer`, on the lobby as a value. */
    static method ScoreUsers(d: LobbyData) returns (us: map<ClientId, User>)
      requires PlayersAnswerable(d)
      ensures us == ScoredFor(d, d.players)
    {
      us := d.users;
      ghost var scored: set<ClientId> := {};
      var rest := d.players;
      while rest != {}
        invariant rest <= d.players
        invariant scored + rest == d.players && scored !! rest
        invariant us == ScoredFor(d, scored)
        decreases rest
      {
        var c :| c in rest;
        ScoredForStep(d, scored, c);
        if c in us {
          us := us[c := Scored(us[c], d.currentQuestion, d.currentQuestionStartTime, d.timePerQuestion)];
        }
        scored := scored + {c};
        rest := rest - {c};
      }
    }
  }
}
