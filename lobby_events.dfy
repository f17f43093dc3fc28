/**
 * The lobby package's events (events.go): reading a websocket message as
 * an event, attaching a new connection to a lobby, and the handler of
 * each event, each run as one step on the lobby.
 *
 * The message format and the answer trigger are those of the lobbies
 * package, whose reading of them is reused; the table of trigger names
 * differs (there is no finish button here).
 */
module LobbyEvents {
  import opened Wrappers
  import Decimal
  import QuizModels
  import LobbiesEvents
  import opened LobbyTemplates
  import opened LobbyLobby

  // ------------------------------------------------------------ parsing

  datatype LobbyEvent =
    | AnswerSubmitted(questionIdx: int, answerIdx: int)
    | SkipToAnswerRequest
    | NextQuestionRequest
    | ChangeUsernameRequest
    | GameStartRequest
    | SubmittedUsername(username: string)

  /** The trigger name each kind of event arrives under. */
  function TriggerName(e: LobbyEvent): string
  {
    match e
    case AnswerSubmitted(_, _) => "answer"
    case SkipToAnswerRequest => "skip-to-answer-btn"
    case NextQuestionRequest => "next-question-btn"
    case ChangeUsernameRequest => "change-username-btn"
    case GameStartRequest => "start-game-btn"
    case SubmittedUsername(_) => "new-username-form"
  }

  const TriggerNames: set<string> := {
    "answer", "skip-to-answer-btn", "next-question-btn", "change-username-btn",
    "start-game-btn", "new-username-form"}

  /**
   * `ParseLobbyEvent`: an event is read only from a well-formed message
   * whose trigger name is that event's, and any other trigger name,
   * the lobbies package's "finish-game-btn" among them, is refused with
   * that name.
   */
  function ParseLobbyEvent(msg: Option<LobbiesEvents.Message>): (r: Result<LobbyEvent, LobbiesEvents.ParseError>)
    ensures msg.None? ==> r == Err(LobbiesEvents.MalformedJson)
    ensures r.Ok? ==> msg.Some? && TriggerName(r.value) == msg.value.hxTriggerName
    ensures msg.Some? && msg.value.hxTriggerName !in TriggerNames ==>
              r == Err(LobbiesEvents.UnrecognizedTrigger(msg.value.hxTriggerName))
    ensures msg.Some? && msg.value.hxTriggerName == "finish-game-btn" ==> r.Err?
  {
    if msg.None? then Err(LobbiesEvents.MalformedJson)
    else
      var m := msg.value;
      if m.hxTriggerName == "answer" then
        match LobbiesEvents.ScanAnswerTrigger(m.hxTrigger)
        case Ok((q, a)) => Ok(AnswerSubmitted(q, a))
        case Err(e) => Err(e)
      else if m.hxTriggerName == "skip-to-answer-btn" then Ok(SkipToAnswerRequest)
      else if m.hxTriggerName == "next-question-btn" then Ok(NextQuestionRequest)
      else if m.hxTriggerName == "change-username-btn" then Ok(ChangeUsernameRequest)
      else if m.hxTriggerName == "start-game-btn" then Ok(GameStartRequest)
      else if m.hxTriggerName == "new-username-form" then
        if m.username.Some? then Ok(SubmittedUsername(m.username.value)) else Err(LobbiesEvents.MalformedJson)
      else Err(LobbiesEvents.UnrecognizedTrigger(m.hxTriggerName))
  }

  /** The message the page sends for an event. */
  function Encode(e: LobbyEvent): LobbiesEvents.Message
    requires e.AnswerSubmitted? ==> e.questionIdx >= 0 && e.answerIdx >= 0
  {
    LobbiesEvents.Message(
      TriggerName(e),
      if e.AnswerSubmitted? then LobbiesEvents.AnswerTrigger(e.questionIdx, e.answerIdx) else "",
      Some(if e.SubmittedUsername? then e.username else ""))
  }

  /** Every event the page can send is read back as itself. */
  lemma ParseEncode(e: LobbyEvent)
    requires e.AnswerSubmitted? ==> 0 <= e.questionIdx <= Decimal.Int64Max && 0 <= e.answerIdx <= Decimal.Int64Max
    ensures ParseLobbyEvent(Some(Encode(e))) == Ok(e)
  {
    if e.AnswerSubmitted? {
      LobbiesEvents.ScanAnswerTriggerRender(e.questionIdx, e.answerIdx, []);
      assert LobbiesEvents.AnswerTrigger(e.questionIdx, e.answerIdx) + [] ==
             LobbiesEvents.AnswerTrigger(e.questionIdx, e.answerIdx);
    }
  }

  // ------------------------------------------------------------ the invariant

  /** Why a handler failed. */
  datatype EventError =
    | UsernameEmpty          // "new username is empty"
    | GameAlreadyStarted     // "game already started" (username, change-username)
    | UsernameTaken          // "username already in the lobby"
    | NotHost                // "Non-host tried to start the game"
    | NotEnoughPlayers       // "Can't start the game: not enough players"
    | AlreadyStarted         // "Game already started, sending current state to initiator"
    | NoQuestions            // "Can't start the game: quiz has no questions"
    | InvalidAnswerIndex     // "Invalid answer index"
    | SubmittedAfterTimeout  // "Submitted after question timeout"

  /** The record of a newly connected client: every other field at its zero value. */
  function Fresh(cid: ClientId): (u: User)
    ensures u.clientId == cid && u.username == "" && !u.isHost && u.submittedAnswerIdx == 0
    ensures u.answerSubmissionTime.None? && u.score == 0 && u.newPoints == 0
  {
    User(cid, "", false, 0, None, 0, 0)
  }

  /** The players who have not answered the current question. */
  function Unanswered(d: LobbyData): set<ClientId>
  {
    set c | c in d.players && c in d.users && d.users[c].submittedAnswerIdx == -1
  }

  /** Records exist only once there is a host, and the host and the players have one. */
  ghost predicate Attached(d: LobbyData)
  {
    && (d.host.None? ==> d.users == map[])
    && Linked(d)
  }

  /** Exactly the host's record carries the host flag. */
  ghost predicate HostFlagged(d: LobbyData)
  {
    forall c :: c in d.users ==> (d.users[c].isHost <==> d.host == Some(c))
  }

  /** No two players share a username. */
  ghost predicate DistinctNames(d: LobbyData)
    requires d.players <= d.users.Keys
  {
    forall p, q :: p in d.players && q in d.players && p != q ==> d.users[p].username != d.users[q].username
  }

  /**
   * Answers are tracked: only the host and the players are ever waiting
   * to answer, while a question is open `PlayersAnswering` counts the
   * players still to answer, and once the game has started every
   * player's answer can be scored.
   */
  ghost predicate AnswersTracked(d: LobbyData)
  {
    && (forall c :: c in d.users && d.users[c].submittedAnswerIdx == -1 ==> c in d.players || d.host == Some(c))
    && (d.state == LsQuestion ==> d.playersAnswering == |Unanswered(d)|)
    && (d.state != LsWaitingForPlayers ==> PlayersAnswerable(d))
  }

  /** What every handler keeps. */
  ghost predicate Valid(d: LobbyData)
  {
    && IsDeclared(d.state)
    && Attached(d)
    && HostFlagged(d)
    && DistinctNames(d)
    && (d.state == LsWaitingForPlayers ==> d.currentQuestionIdx == -1)
    && (d.state == LsQuestion ==> d.questionTimer == Armed)
    && AnswersTracked(d)
  }

  /** A new lobby keeps the invariant. */
  lemma CreatedValid(options: LobbyOptions, now: int)
    ensures Valid(LobbyData(None, None, options.pin, options.timePerQuestion, now, map[], {},
                            LsWaitingForPlayers, NoTimer, None, None, -1, None, 0))
  {
  }

  /** While a question is open, the count reaches 0 exactly when every player has answered. */
  lemma AnsweringZeroIffAllAnswered(d: LobbyData)
    requires Valid(d) && d.state == LsQuestion
    ensures d.playersAnswering >= 0
    ensures d.playersAnswering == 0 <==> forall c :: c in d.players ==> d.users[c].submittedAnswerIdx != -1
  {
    if d.playersAnswering != 0 {
      var c :| c in Unanswered(d);
      assert c in d.players && d.users[c].submittedAnswerIdx == -1;
    } else {
      assert Unanswered(d) == {};
      forall c | c in d.players
        ensures d.users[c].submittedAnswerIdx != -1
      {
        assert c !in Unanswered(d);
      }
    }
  }

  /** A host who also plays can never answer, so the count cannot reach 0 before the timer. */
  lemma HostPlayerKeepsQuestionOpen(d: LobbyData)
    requires Valid(d) && d.state == LsQuestion
    requires d.host.Some? && d.host.value in d.players && d.users[d.host.value].submittedAnswerIdx == -1
    ensures d.playersAnswering >= 1
  {
    assert d.host.value in Unanswered(d);
  }

  // ------------------------------------------------------------ connecting

  datatype Connection = Connection(lobby: LobbyData, view: Template)

  /**
   * `HandleNewWebsocketConn`: the first client becomes the host and is
   * flagged as such, the host and players reconnect to their own records
   * and see the state's view, and anyone else gets a fresh record and the
   * username form.
   */
  function Connect(d: LobbyData, cid: ClientId): (c: Connection)
    requires IsDeclared(d.state)
    ensures c.view == ChooseUsernameView <==> d.host.Some? && d.host.value != cid && cid !in d.players
    ensures c.view != ChooseUsernameView ==> c.view == ViewName(d.state)
    ensures c.lobby.host == if d.host.None? then Some(cid) else d.host
    ensures d.host.None? ==> cid in c.lobby.users && c.lobby.users[cid].isHost
    ensures Linked(d) ==> cid in c.lobby.users
    ensures c.lobby.users.Keys <= d.users.Keys + {cid}
    ensures forall k :: k in d.users && k != cid ==> k in c.lobby.users && c.lobby.users[k] == d.users[k]
    ensures d.host.Some? && (d.host.value == cid || cid in d.players) ==> c.lobby == d
    ensures c.lobby.(host := d.host, users := d.users) == d
  {
    if d.host.None? then
      Connection(d.(host := Some(cid), users := d.users[cid := Fresh(cid).(isHost := true)]), ViewName(d.state))
    else if d.host.value == cid then Connection(d, ViewName(d.state))
    else if cid in d.players then Connection(d, ViewName(d.state))
    else Connection(d.(users := d.users[cid := Fresh(cid)]), ChooseUsernameView)
  }

  lemma ConnectKeepsValid(d: LobbyData, cid: ClientId)
    requires Valid(d)
    ensures Valid(Connect(d, cid).lobby)
  {
    var r := Connect(d, cid).lobby;
    if d.host.None? {
      assert r.users == map[cid := Fresh(cid).(isHost := true)] && r.players == {};
    } else if d.host.value != cid && cid !in d.players {
      FreshRecordKeepsValid(d, cid);
    }
  }

  /** A fresh record for a client that is neither the host nor a player keeps the invariant. */
  lemma FreshRecordKeepsValid(d: LobbyData, cid: ClientId)
    requires Valid(d) && d.host.Some? && d.host.value != cid && cid !in d.players
    ensures Valid(d.(users := d.users[cid := Fresh(cid)]))
  {
    var r := d.(users := d.users[cid := Fresh(cid)]);
    assert Unanswered(r) == Unanswered(d);
    assert DistinctNames(r);
    assert HostFlagged(r);
  }

  // ------------------------------------------------------------ usernames

  datatype Step = Step(lobby: LobbyData, err: Option<EventError>)

  /** The usernames the players go by. */
  function PlayerNames(d: LobbyData): set<string>
  {
    set c | c in d.players && c in d.users :: d.users[c].username
  }

  /** `LEUSubmittedUsername.Handle`, its guards in the source's order. */
  function SubmitUsername(d: LobbyData, initiator: ClientId, name: string): (r: Step)
    requires initiator in d.users
    ensures r.err.None? <==> name != "" && d.state == LsWaitingForPlayers &&
                             (d.users[initiator].username == name || name !in PlayerNames(d))
    ensures name == "" ==> r.err == Some(UsernameEmpty)
    ensures name != "" && d.state != LsWaitingForPlayers ==> r.err == Some(GameAlreadyStarted)
    ensures r.err.Some? || d.users[initiator].username == name ==> r.lobby == d
    ensures r.err.None? ==> initiator in r.lobby.users && r.lobby.users[initiator].username == name
    ensures r.err.None? && d.users[initiator].username != name ==>
              r.lobby.players == d.players + {initiator} &&
              r.lobby.users == d.users[initiator := d.users[initiator].(username := name)] &&
              r.lobby.(users := d.users, players := d.players) == d
  {
    if name == "" then Step(d, Some(UsernameEmpty))
    else if d.state != LsWaitingForPlayers then Step(d, Some(GameAlreadyStarted))
    else if d.users[initiator].username == name then Step(d, None)
    else if name in PlayerNames(d) then Step(d, Some(UsernameTaken))
    else
      Step(d.(users := d.users[initiator := d.users[initiator].(username := name)],
              players := d.players + {initiator}), None)
  }

  /** Taking a username keeps every player's name distinct (and the rest of the invariant). */
  lemma SubmitUsernameKeepsValid(d: LobbyData, initiator: ClientId, name: string)
    requires Valid(d) && initiator in d.users
    ensures Valid(SubmitUsername(d, initiator, name).lobby)
  {
    var r := SubmitUsername(d, initiator, name).lobby;
    if r != d {
      forall p, q | p in r.players && q in r.players && p != q
        ensures r.users[p].username != r.users[q].username
      {
        if p == initiator {
          assert d.users[q].username in PlayerNames(d);
        } else if q == initiator {
          assert d.users[p].username in PlayerNames(d);
        }
      }
    }
  }

  /** `LEChangeUsernameRequest.Handle`: allowed only while waiting for players. */
  function UsernameChangeError(d: LobbyData): (err: Option<EventError>)
    ensures err.None? <==> d.state == LsWaitingForPlayers
    ensures err.Some? ==> err.value == GameAlreadyStarted
  {
    if d.state != LsWaitingForPlayers then Some(GameAlreadyStarted) else None
  }

  // ------------------------------------------------------------ questions

  /** `StartNextQuestion` from a lobby that keeps the invariant keeps it. */
  lemma NextQuestionKeepsValid(d: LobbyData, now: int)
    requires Valid(d) && CanStartNextQuestion(d)
    ensures Valid(NextQuestion(d, now))
  {
    var r := NextQuestion(d, now);
    NextQuestionFacts(d, now);
    assert Unanswered(r) == d.players;
  }

  /**
   * The guards of `LEGameStartRequest.Handle` pass: the host asks, there
   * is a player, the game is waiting, and the quiz has a question.
   */
  predicate CanStartGame(d: LobbyData, initiator: ClientId)
    requires d.host.Some?
  {
    && d.host.value == initiator
    && |d.players| > 0
    && d.state == LsWaitingForPlayers
    && d.quiz.Some? && |d.quiz.value.questions| > 0
  }

  /**
   * `LEGameStartRequest.Handle`, its guards in the source's order, then
   * the first question. The host must be set (the source dereferences it
   * first), and the quiz once the first three guards pass; the index must
   * let `StartNextQuestion` run.
   */
  function StartGame(d: LobbyData, initiator: ClientId, now: int): (r: Step)
    requires d.host.Some?
    requires d.host.value == initiator && |d.players| > 0 && d.state == LsWaitingForPlayers ==> d.quiz.Some?
    requires CanStartGame(d, initiator) ==> CanStartNextQuestion(d)
    ensures r.err.None? <==> CanStartGame(d, initiator)
    ensures d.host.value != initiator ==> r.err == Some(NotHost)
    ensures d.host.value == initiator && |d.players| == 0 ==> r.err == Some(NotEnoughPlayers)
    ensures d.host.value == initiator && |d.players| > 0 && d.state != LsWaitingForPlayers ==>
              r.err == Some(AlreadyStarted)
    ensures r.err.Some? ==> r.lobby == d
    ensures r.err.None? ==> r.lobby == NextQuestion(d, now)
  {
    if d.host.value != initiator then Step(d, Some(NotHost))
    else if |d.players| == 0 then Step(d, Some(NotEnoughPlayers))
    else if d.state != LsWaitingForPlayers then Step(d, Some(AlreadyStarted))
    else if |d.quiz.value.questions| == 0 then Step(d, Some(NoQuestions))
    else Step(NextQuestion(d, now), None)
  }

  /** In a lobby that keeps the invariant, a started game shows its first question. */
  lemma StartGameOpensFirstQuestion(d: LobbyData, initiator: ClientId, now: int)
    requires Valid(d) && d.host.Some? && CanStartGame(d, initiator)
    ensures CanStartNextQuestion(d)
    ensures var r := StartGame(d, initiator, now).lobby;
            r.state == LsQuestion && r.currentQuestionIdx == 0 && r.questionTimer == Armed &&
            r.currentQuestion == Some(d.quiz.value.questions[0]) && r.playersAnswering == |d.players|
    ensures Valid(StartGame(d, initiator, now).lobby)
  {
    NextQuestionFacts(d, now);
    NextQuestionKeepsValid(d, now);
  }

  // ------------------------------------------------------------ answers

  datatype Submission = Submission(lobby: LobbyData, err: Option<EventError>, closesQuestion: bool)

  /**
   * `LEAnswerSubmitted.Handle`, its guards in the source's order. The
   * current question must be set (the source dereferences it first), and
   * so must the host once the first two guards pass. `closesQuestion` is
   * the cancellation of the question timer after the last answer.
   */
  function SubmitAnswer(d: LobbyData, initiator: ClientId, questionIdx: int, answerIdx: int, now: int): (r: Submission)
    requires d.currentQuestion.Some? && initiator in d.users
    requires 0 <= answerIdx < |d.currentQuestion.value.answers| && questionIdx == d.currentQuestionIdx ==> d.host.Some?
    ensures !(0 <= answerIdx < |d.currentQuestion.value.answers|) ==> r.err == Some(InvalidAnswerIndex)
    ensures r.lobby != d <==>
              && 0 <= answerIdx < |d.currentQuestion.value.answers|
              && questionIdx == d.currentQuestionIdx
              && d.host != Some(initiator)
              && d.state == LsQuestion
              && d.users[initiator].submittedAnswerIdx == -1
    ensures r.err == Some(SubmittedAfterTimeout) <==>
              && 0 <= answerIdx < |d.currentQuestion.value.answers|
              && questionIdx == d.currentQuestionIdx
              && d.host != Some(initiator)
              && d.state != LsQuestion
    ensures r.lobby != d ==>
              r.err.None? &&
              r.lobby.users == d.users[initiator := d.users[initiator].(submittedAnswerIdx := answerIdx,
                                                                     answerSubmissionTime := Some(now))] &&
              r.lobby.playersAnswering == d.playersAnswering - 1 &&
              r.lobby.(users := d.users, playersAnswering := d.playersAnswering) == d
    ensures r.closesQuestion <==> r.lobby != d && d.playersAnswering == 1
  {
    var q := d.currentQuestion.value;
    if answerIdx < 0 || answerIdx >= |q.answers| then Submission(d, Some(InvalidAnswerIndex), false)
    else if questionIdx != d.currentQuestionIdx then Submission(d, None, false)
    else if initiator == d.host.value then Submission(d, None, false)
    else if d.state != LsQuestion then Submission(d, Some(SubmittedAfterTimeout), false)
    else if d.users[initiator].submittedAnswerIdx != -1 then Submission(d, None, false)
    else
      var recorded := d.users[initiator].(submittedAnswerIdx := answerIdx, answerSubmissionTime := Some(now));
      Submission(d.(users := d.users[initiator := recorded], playersAnswering := d.playersAnswering - 1),
                 None, d.playersAnswering - 1 == 0)
  }

  /** A change to answers alone keeps the table's links, the host flag and the distinct names. */
  lemma AnswersOnlyChanged(d: LobbyData, r: LobbyData)
    requires Attached(d) && HostFlagged(d) && DistinctNames(d)
    requires r.host == d.host && r.players == d.players
    requires r.users.Keys == d.users.Keys
    requires forall c :: c in d.users ==> r.users[c].username == d.users[c].username && r.users[c].isHost == d.users[c].isHost
    ensures Attached(r) && HostFlagged(r) && DistinctNames(r)
  {
    if d.host.None? {
      assert r.users == map[];
    }
  }

  /** Recording an answer takes exactly that player off the count of players still to answer. */
  lemma RecordedAnswerTracked(d: LobbyData, initiator: ClientId, answerIdx: int, now: int)
    requires AnswersTracked(d) && d.state == LsQuestion && d.currentQuestion.Some?
    requires initiator in d.users && d.users[initiator].submittedAnswerIdx == -1 && d.host != Some(initiator)
    requires 0 <= answerIdx < |d.currentQuestion.value.answers|
    ensures AnswersTracked(d.(users := d.users[initiator := d.users[initiator].(submittedAnswerIdx := answerIdx,
                                                                              answerSubmissionTime := Some(now))],
                              playersAnswering := d.playersAnswering - 1))
  {
    var r := d.(users := d.users[initiator := d.users[initiator].(submittedAnswerIdx := answerIdx,
                                                                answerSubmissionTime := Some(now))],
                playersAnswering := d.playersAnswering - 1);
    assert initiator in Unanswered(d);
    assert Unanswered(d) == Unanswered(r) + {initiator};
  }

  lemma SubmitAnswerKeepsValid(d: LobbyData, initiator: ClientId, questionIdx: int, answerIdx: int, now: int)
    requires Valid(d) && d.currentQuestion.Some? && initiator in d.users
    ensures Valid(SubmitAnswer(d, initiator, questionIdx, answerIdx, now).lobby)
  {
    var r := SubmitAnswer(d, initiator, questionIdx, answerIdx, now).lobby;
    if r != d {
      AnswersOnlyChanged(d, r);
      RecordedAnswerTracked(d, initiator, answerIdx, now);
    }
  }

  /**
   * The last answer closes the question: it is the moment every player
   * has answered (the host excepted, who cannot answer).
   */
  lemma LastAnswerClosesQuestion(d: LobbyData, initiator: ClientId, questionIdx: int, answerIdx: int, now: int)
    requires Valid(d) && d.currentQuestion.Some? && initiator in d.users
    requires SubmitAnswer(d, initiator, questionIdx, answerIdx, now).lobby != d
    ensures var s := SubmitAnswer(d, initiator, questionIdx, answerIdx, now);
            s.closesQuestion <==> forall c :: c in d.players ==> s.lobby.users[c].submittedAnswerIdx != -1
  {
    SubmitAnswerKeepsValid(d, initiator, questionIdx, answerIdx, now);
    AnsweringZeroIffAllAnswered(SubmitAnswer(d, initiator, questionIdx, answerIdx, now).lobby);
  }

  // ------------------------------------------------------------ closing a question

  /** Closing a question, the timer stopped as `t`, keeps the invariant. */
  lemma CloseKeepsValid(d: LobbyData, t: QuestionTimer)
    requires Valid(d) && PlayersAnswerable(d)
    ensures Valid(AnswerShown(d).(questionTimer := t))
  {
    var r := AnswerShown(d).(questionTimer := t);
    assert forall c :: c in d.users ==> r.users[c].username == d.users[c].username && r.users[c].isHost == d.users[c].isHost;
    AnswersOnlyChanged(d, r);
  }

  // ------------------------------------------------------------ the handlers on a lobby

  /**
   * `HandleNewWebsocketConn`. The view is chosen before the roles are
   * sorted out, so the state must be one that has a view.
   */
  method HandleNewWebsocketConn(l: Lobby, cid: ClientId) returns (view: Template)
    requires IsDeclared(l.state)
    modifies l
    ensures l.State() == Connect(old(l.State()), cid).lobby
    ensures view == Connect(old(l.State()), cid).view
  {
    view := ViewName(l.state);
    if l.host.None? {
      l.host := Some(cid);
      l.users := l.users[cid := Fresh(cid).(isHost := true)];
    } else if l.host.value == cid {
    } else if cid in l.players {
    } else {
      view := ChooseUsernameView;
      l.users := l.users[cid := Fresh(cid)];
    }
  }

  /** `LEUSubmittedUsername.Handle` for a connected client. */
  method HandleSubmittedUsername(l: Lobby, initiator: ClientId, name: string) returns (err: Option<EventError>)
    requires initiator in l.users
    modifies l
    ensures l.State() == SubmitUsername(old(l.State()), initiator, name).lobby
    ensures err == SubmitUsername(old(l.State()), initiator, name).err
  {
    if name == "" {
      return Some(UsernameEmpty);
    }
    if l.state != LsWaitingForPlayers {
      return Some(GameAlreadyStarted);
    }
    if l.users[initiator].username == name {
      return None;
    }
    if name in PlayerNames(l.State()) {
      return Some(UsernameTaken);
    }
    l.users := l.users[initiator := l.users[initiator].(username := name)];
    l.players := l.players + {initiator};
    return None;
  }

  /** `LEChangeUsernameRequest.Handle`: changes nothing. */
  method HandleChangeUsername(l: Lobby) returns (err: Option<EventError>)
    ensures err == UsernameChangeError(l.State())
  {
    if l.state != LsWaitingForPlayers {
      return Some(GameAlreadyStarted);
    }
    return None;
  }

  /** `LEGameStartRequest.Handle`, with the preconditions of `StartGame`. */
  method HandleGameStart(l: Lobby, initiator: ClientId, now: int) returns (err: Option<EventError>)
    requires l.host.Some?
    requires l.host.value == initiator && |l.players| > 0 && l.state == LsWaitingForPlayers ==> l.quiz.Some?
    requires CanStartGame(l.State(), initiator) ==> CanStartNextQuestion(l.State())
    modifies l
    ensures l.State() == StartGame(old(l.State()), initiator, now).lobby
    ensures err == StartGame(old(l.State()), initiator, now).err
  {
    if l.host.value != initiator {
      return Some(NotHost);
    }
    if |l.players| == 0 {
      return Some(NotEnoughPlayers);
    }
    if l.state != LsWaitingForPlayers {
      return Some(AlreadyStarted);
    }
    if |l.quiz.value.questions| == 0 {
      return Some(NoQuestions);
    }
    l.StartNextQuestion(now);
    return None;
  }

  /**
   * `LENextQuestionRequest.Handle`: `StartNextQuestion` whoever asks and
   * whatever the state, so the lobby must be one it can run on.
   */
  method HandleNextQuestion(l: Lobby, now: int)
    requires CanStartNextQuestion(l.State())
    modifies l
    ensures l.State() == NextQuestion(old(l.State()), now)
  {
    l.StartNextQuestion(now);
  }

  /**
   * Cancelling or firing the running question timer as `t`, after which
   * the timer's goroutine shows the answer (with the guard for players
   * who have not answered).
   */
  method CloseQuestion(l: Lobby, t: QuestionTimer)
    requires PlayersAnswerable(l.State())
    modifies l
    ensures l.State() == AnswerShown(old(l.State())).(questionTimer := t)
  {
    l.questionTimer := t;
    l.ShowAnswerCorrected();
  }

  /**
   * `LESkipToAnswerRequest.Handle`: cancels the question timer, whoever
   * asks and in any state. Only a running timer closes the question;
   * otherwise the handler panics or blocks with the lobby as it was.
   */
  method HandleSkipToAnswer(l: Lobby) returns (outcome: CancelOutcome)
    requires l.questionTimer == Armed ==> PlayersAnswerable(l.State())
    modifies l
    ensures outcome == CancelOutcomeOf(old(l.questionTimer))
    ensures outcome == QuestionClosed ==> l.State() == AnswerShown(old(l.State())).(questionTimer := Cancelled)
    ensures outcome != QuestionClosed ==> l.State() == old(l.State())
  {
    outcome := CancelOutcomeOf(l.questionTimer);
    if outcome == QuestionClosed {
      CloseQuestion(l, Cancelled);
    }
  }

  /** The question timer running out. */
  method QuestionTimeout(l: Lobby)
    requires l.questionTimer == Armed && PlayersAnswerable(l.State())
    modifies l
    ensures l.State() == AnswerShown(old(l.State())).(questionTimer := Fired)
  {
    CloseQuestion(l, Fired);
  }

  /**
   * `LEAnswerSubmitted.Handle`. The current question must be set, and so
   * must the host once the answer and question indices pass. After the
   * last player's answer the timer is cancelled, which closes the
   * question: so whenever a question is open its timer must be running
   * and the players' answers must be scorable.
   */
  method HandleAnswerSubmitted(l: Lobby, initiator: ClientId, questionIdx: int, answerIdx: int, now: int)
    returns (err: Option<EventError>)
    requires initiator in l.users && l.currentQuestion.Some?
    requires 0 <= answerIdx < |l.currentQuestion.value.answers| && questionIdx == l.currentQuestionIdx ==> l.host.Some?
    requires l.state == LsQuestion ==> l.questionTimer == Armed && PlayersAnswerable(l.State())
    modifies l
    ensures var s := SubmitAnswer(old(l.State()), initiator, questionIdx, answerIdx, now);
            && err == s.err
            && (!s.closesQuestion ==> l.State() == s.lobby)
            && (s.closesQuestion ==> PlayersAnswerable(s.lobby) &&
                                     l.State() == AnswerShown(s.lobby).(questionTimer := Cancelled))
  {
    ghost var d := l.State();
    if answerIdx < 0 || answerIdx >= |l.currentQuestion.value.answers| {
      return Some(InvalidAnswerIndex);
    }
    if questionIdx != l.currentQuestionIdx || initiator == l.host.value {
      return None;
    }
    if l.state != LsQuestion {
      return Some(SubmittedAfterTimeout);
    }
    if l.users[initiator].submittedAnswerIdx != -1 {
      return None;
    }
    l.users := l.users[initiator := l.users[initiator].(submittedAnswerIdx := answerIdx, answerSubmissionTime := Some(now))];
    l.playersAnswering := l.playersAnswering - 1;
    assert l.State() == SubmitAnswer(d, initiator, questionIdx, answerIdx, now).lobby;
    if l.playersAnswering == 0 {
      CloseQuestion(l, Cancelled);
    }
    return None;
  }
}
