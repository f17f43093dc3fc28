/**
 * The lobbies package's events (events.go): reading a websocket message
 * as an event, attaching a new connection to a lobby, and the handlers
 * that run, under the lobby's mutex, for each event.
 *
 * The lobby these handlers work on carries the fields they touch. Users
 * are kept as in the lobby record model: one record per client id in
 * `users`, named by the `host` field and the `players` set, so a record
 * the source reaches through two references is one record here too.
 */
module LobbiesEvents {
  import opened Wrappers
  import Decimal
  import QuizModels
  import GameRound
  import GoTime
  import Sorting
  import MapEnum
  import opened LobbiesTemplates
  import opened LobbiesUser
  import LobbiesRepository

  // ------------------------------------------------------------ parsing

  /**
   * What `parseLobbyEvent` reads from a websocket message: the htmx
   * trigger name and trigger id, and the `Username` field, which is `None`
   * when the message holds a non-string value there (an absent field reads
   * as ""). A message that does not decode as such an object is `None`.
   */
  datatype Message = Message(hxTriggerName: string, hxTrigger: string, username: Option<string>)

  datatype LobbyEvent =
    | AnswerSubmitted(questionIdx: int, answerIdx: int)
    | SkipToAnswerRequested
    | NextQuestionRequested
    | EndGameRequested
    | UsernameChangeRequested
    | GameStartRequested
    | NewUsernameSubmitted(username: string)

  datatype ParseError =
    | MalformedJson
    | BadAnswerTrigger
    | UnrecognizedTrigger(name: string)

  /** The trigger name each kind of event arrives under. */
  function TriggerName(e: LobbyEvent): string
  {
    match e
    case AnswerSubmitted(_, _) => "answer"
    case SkipToAnswerRequested => "skip-to-answer-btn"
    case NextQuestionRequested => "next-question-btn"
    case EndGameRequested => "finish-game-btn"
    case UsernameChangeRequested => "change-username-btn"
    case GameStartRequested => "start-game-btn"
    case NewUsernameSubmitted(_) => "new-username-form"
  }

  const TriggerNames: set<string> := {
    "answer", "skip-to-answer-btn", "next-question-btn", "finish-game-btn",
    "change-username-btn", "start-game-btn", "new-username-form"}

  const AnswerPrefix: string := "answer-q"
  const AnswerSeparator: string := "-a"

  /**
   * `fmt.Sscanf(trigger, "answer-q%d-a%d", ..)`: the literal text must
   * match, each number is read as `%d` reads it, and whatever follows the
   * second number is not looked at.
   */
  function ScanAnswerTrigger(s: string): (r: Result<(int, int), ParseError>)
    ensures r.Ok? ==> |AnswerPrefix| <= |s| && s[..|AnswerPrefix|] == AnswerPrefix
    ensures r.Ok? ==> Decimal.Int64Min <= r.value.0 <= Decimal.Int64Max
    ensures r.Ok? ==> Decimal.Int64Min <= r.value.1 <= Decimal.Int64Max
    ensures r.Err? ==> r.error == BadAnswerTrigger
  {
    if |s| < |AnswerPrefix| || s[..|AnswerPrefix|] != AnswerPrefix then Err(BadAnswerTrigger)
    else match Decimal.ScanInt(s[|AnswerPrefix|..])
      case Err(_) => Err(BadAnswerTrigger)
      case Ok((q, rest)) =>
        if |rest| < |AnswerSeparator| || rest[..|AnswerSeparator|] != AnswerSeparator then Err(BadAnswerTrigger)
        else match Decimal.ScanInt(rest[|AnswerSeparator|..])
          case Err(_) => Err(BadAnswerTrigger)
          case Ok((a, _)) => Ok((q, a))
  }

  /** The trigger id of the button for answer `a` of question `q`. */
  function AnswerTrigger(q: nat, a: nat): string
  {
    AnswerPrefix + Decimal.Render(q) + AnswerSeparator + Decimal.Render(a)
  }

  /** An answer button's trigger id reads back as its two indices, whatever non-digit text follows. */
  lemma ScanAnswerTriggerRender(q: nat, a: nat, tail: string)
    requires q <= Decimal.Int64Max && a <= Decimal.Int64Max
    requires tail == [] || !Decimal.IsDigit(tail[0])
    ensures ScanAnswerTrigger(AnswerTrigger(q, a) + tail) == Ok((q, a))
  {
    var rest := AnswerSeparator + (Decimal.Render(a) + tail);
    var s := AnswerPrefix + (Decimal.Render(q) + rest);
    AnswerTriggerParts(q, a, tail);
    assert rest[0] == '-';
    ScanAfterLiteral(AnswerPrefix, q, rest);
    ScanAfterLiteral(AnswerSeparator, a, tail);
    ScanAnswerTriggerOf(s, q, rest, a, tail);
  }

  /** An answer button's trigger id, followed by more text, as its four parts. */
  lemma AnswerTriggerParts(q: nat, a: nat, tail: string)
    ensures AnswerTrigger(q, a) + tail
         == AnswerPrefix + (Decimal.Render(q) + (AnswerSeparator + (Decimal.Render(a) + tail)))
  {
  }

  /** A literal followed by a rendered number: the literal comes off and the number scans back. */
  lemma ScanAfterLiteral(p: string, n: nat, rest: string)
    requires n <= Decimal.Int64Max
    requires rest == [] || !Decimal.IsDigit(rest[0])
    ensures var s := p + (Decimal.Render(n) + rest);
      |p| <= |s| && s[..|p|] == p && Decimal.ScanInt(s[|p|..]) == Ok((n, rest))
  {
    var s := p + (Decimal.Render(n) + rest);
    assert s[..|p|] == p && s[|p|..] == Decimal.Render(n) + rest;
    Decimal.ScanRender(n, rest);
  }

  /**
   * White space before either number is skipped, as `%d` skips it: the
   * trigger with spaces inserted after each literal reads as the same
   * two indices.
   */
  lemma ScanAnswerTriggerSpaced(q: nat, a: nat, sp1: string, sp2: string, tail: string)
    requires q <= Decimal.Int64Max && a <= Decimal.Int64Max
    requires forall i :: 0 <= i < |sp1| ==> Decimal.IsScanSpace(sp1[i])
    requires forall i :: 0 <= i < |sp2| ==> Decimal.IsScanSpace(sp2[i])
    requires tail == [] || !Decimal.IsDigit(tail[0])
    ensures ScanAnswerTrigger(AnswerPrefix + (sp1 + (Decimal.Render(q) + (AnswerSeparator + (sp2 + (Decimal.Render(a) + tail)))))) == Ok((q, a))
  {
    var rest := AnswerSeparator + (sp2 + (Decimal.Render(a) + tail));
    var s := AnswerPrefix + (sp1 + (Decimal.Render(q) + rest));
    assert rest[0] == '-';
    ScanAfterSpacedLiteral(AnswerPrefix, sp1, q, rest);
    ScanAfterSpacedLiteral(AnswerSeparator, sp2, a, tail);
    ScanAnswerTriggerOf(s, q, rest, a, tail);
  }

  /** A literal, white space and a rendered number: the literal comes off and the number scans back. */
  lemma ScanAfterSpacedLiteral(p: string, sp: string, n: nat, rest: string)
    requires n <= Decimal.Int64Max
    requires forall i :: 0 <= i < |sp| ==> Decimal.IsScanSpace(sp[i])
    requires rest == [] || !Decimal.IsDigit(rest[0])
    ensures var s := p + (sp + (Decimal.Render(n) + rest));
      |p| <= |s| && s[..|p|] == p && Decimal.ScanInt(s[|p|..]) == Ok((n, rest))
  {
    var s := p + (sp + (Decimal.Render(n) + rest));
    assert s[..|p|] == p && s[|p|..] == sp + (Decimal.Render(n) + rest);
    Decimal.ScanIntSkipsSpace(sp, Decimal.Render(n) + rest);
    Decimal.ScanRender(n, rest);
  }

  /** The trigger id scan, once each of its steps is known to succeed. */
  lemma ScanAnswerTriggerOf(s: string, q: int, rest: string, a: int, tail: string)
    requires |AnswerPrefix| <= |s| && s[..|AnswerPrefix|] == AnswerPrefix
    requires Decimal.ScanInt(s[|AnswerPrefix|..]) == Ok((q, rest))
    requires |AnswerSeparator| <= |rest| && rest[..|AnswerSeparator|] == AnswerSeparator
    requires Decimal.ScanInt(rest[|AnswerSeparator|..]) == Ok((a, tail))
    ensures ScanAnswerTrigger(s) == Ok((q, a))
  {
  }

  /**
   * `parseLobbyEvent`: an event is read only from a well-formed message
   * whose trigger name is that event's, and any other trigger name is
   * refused with that name.
   */
  function ParseLobbyEvent(msg: Option<Message>): (r: Result<LobbyEvent, ParseError>)
    ensures msg.None? ==> r == Err(MalformedJson)
    ensures r.Ok? ==> msg.Some? && TriggerName(r.value) == msg.value.hxTriggerName
    ensures msg.Some? && msg.value.hxTriggerName !in TriggerNames ==>
              r == Err(UnrecognizedTrigger(msg.value.hxTriggerName))
  {
    if msg.None? then Err(MalformedJson)
    else
      var m := msg.value;
      if m.hxTriggerName == "answer" then
        match ScanAnswerTrigger(m.hxTrigger)
        case Ok((q, a)) => Ok(AnswerSubmitted(q, a))
        case Err(e) => Err(e)
      else if m.hxTriggerName == "skip-to-answer-btn" then Ok(SkipToAnswerRequested)
      else if m.hxTriggerName == "next-question-btn" then Ok(NextQuestionRequested)
      else if m.hxTriggerName == "finish-game-btn" then Ok(EndGameRequested)
      else if m.hxTriggerName == "change-username-btn" then Ok(UsernameChangeRequested)
      else if m.hxTriggerName == "start-game-btn" then Ok(GameStartRequested)
      else if m.hxTriggerName == "new-username-form" then
        if m.username.Some? then Ok(NewUsernameSubmitted(m.username.value)) else Err(MalformedJson)
      else Err(UnrecognizedTrigger(m.hxTriggerName))
  }

  /** The message the page sends for an event. */
  function Encode(e: LobbyEvent): Message
    requires e.AnswerSubmitted? ==> e.questionIdx >= 0 && e.answerIdx >= 0
  {
    Message(
      TriggerName(e),
      if e.AnswerSubmitted? then AnswerTrigger(e.questionIdx, e.answerIdx) else "",
      Some(if e.NewUsernameSubmitted? then e.username else ""))
  }

  /** Every event the page can send is read back as itself. */
  lemma ParseEncode(e: LobbyEvent)
    requires e.AnswerSubmitted? ==> 0 <= e.questionIdx <= Decimal.Int64Max && 0 <= e.answerIdx <= Decimal.Int64Max
    ensures ParseLobbyEvent(Some(Encode(e))) == Ok(e)
  {
    if e.AnswerSubmitted? {
      ScanAnswerTriggerRender(e.questionIdx, e.answerIdx, []);
      assert AnswerTrigger(e.questionIdx, e.answerIdx) + [] == AnswerTrigger(e.questionIdx, e.answerIdx);
    }
  }

  // ------------------------------------------------------------ the lobby

  /** The question timer: a Go timer with a cancel channel, or none yet. */
  datatype QuestionTimer = NoTimer | Armed | Fired | Cancelled

  /**
   * What `cancellableTimer.Cancel` comes to: a running timer is stopped
   * and its goroutine closes the question; a missing timer or one already
   * cancelled panics (a nil timer, or a channel closed twice); a timer
   * that fired had its channel drained by the goroutine, so `Cancel`
   * waits on that channel for ever.
   */
  datatype CancelOutcome = QuestionClosed | CancelPanics | CancelBlocks

  /** `cancellableTimer.Cancel` on a timer in state `t`. */
  function CancelOutcomeOf(t: QuestionTimer): (r: CancelOutcome)
    ensures r == QuestionClosed <==> t == Armed
    ensures r == CancelBlocks <==> t == Fired
    ensures r == CancelPanics <==> t == NoTimer || t == Cancelled
  {
    match t
    case Armed => QuestionClosed
    case Fired => CancelBlocks
    case _ => CancelPanics
  }

  /** Why a handler failed. */
  datatype EventError =
    | UsernameEmpty          // "new username is empty"
    | GameAlreadyStarted     // "game already started" (username, change-username)
    | UsernameTaken          // "username already in the lobby"
    | NotHost                // "Non-host tried to start the game"
    | NotEnoughPlayers       // "Can't start the game: not enough players"
    | AlreadyStarted         // "Game already started, sending current state to initiator"
    | NoQuestions            // "Can't start the game: quiz has no questions"
    | InvalidAnswerIndex     // "Invalid answer index"
    | SubmittedAfterTimeout  // "Submitted after question timeout"
    | LobbyNotFound          // from the lobby store
    | PastGameNotSaved       // from the past-games store

  /** The lobby's fields as one value (the mutex and the connections left out). */
  datatype LobbyData = LobbyData(
    pin: string,
    quiz: QuizModels.Quiz,
    host: Option<ClientId>,
    users: map<ClientId, User>,
    players: set<ClientId>,
    state: LobbyState,
    startedAt: Option<int>,
    finishedAt: Option<int>,
    timePerQuestion: int,
    timeForReading: int,
    currentQuestionIdx: int,
    currentQuestion: Option<QuizModels.Question>,
    currentQuestionStartTime: Option<int>,
    currentQuestionTimeout: Option<int>,
    readingTimeout: Option<int>,
    playersAnswering: int,
    leaderboard: seq<ClientId>,
    questionTimer: QuestionTimer)

  /** The record of a newly connected client: every other field at its zero value. */
  function Fresh(cid: ClientId): (u: User)
    ensures u.clientId == cid && u.username == "" && u.submittedAnswerIdx == 0
    ensures u.answerSubmissionTime.None? && u.score == 0 && u.newPoints == 0
  {
    User(cid, "", 0, None, 0, 0)
  }

  /** The players who have not answered the current question. */
  function Unanswered(d: LobbyData): set<ClientId>
  {
    set c | c in d.players && c in d.users && d.users[c].submittedAnswerIdx == -1
  }

  /** The submitted index is `-1` (no answer) or an index of the question's answers. */
  predicate Answerable(u: User, q: Option<QuizModels.Question>)
  {
    u.submittedAnswerIdx == -1 || (q.Some? && 0 <= u.submittedAnswerIdx < |q.value.answers|)
  }

  ghost predicate PlayersAnswerable(d: LobbyData)
  {
    forall c :: c in d.players && c in d.users ==> Answerable(d.users[c], d.currentQuestion)
  }

  /** The host and the players have records. */
  ghost predicate Linked(d: LobbyData)
  {
    && (d.host.None? ==> d.users == map[])
    && (d.host.Some? ==> d.host.value in d.users)
    && d.players <= d.users.Keys
  }

  /** No two players share a username. */
  ghost predicate DistinctNames(d: LobbyData)
    requires d.players <= d.users.Keys
  {
    forall p, q :: p in d.players && q in d.players && p != q ==> d.users[p].username != d.users[q].username
  }

  /**
   * Answers are tracked: only the host and the players are ever waiting
   * to answer, and while a question is open `PlayersAnswering` counts the
   * players still to answer.
   */
  ghost predicate AnswersTracked(d: LobbyData)
  {
    && (forall c :: c in d.users && d.users[c].submittedAnswerIdx == -1 ==> c in d.players || d.host == Some(c))
    && (d.state == LsQuestion ==> d.playersAnswering == |Unanswered(d)|)
    && (d.state != LsWaitingForPlayers ==> PlayersAnswerable(d))
  }

  /** The leaderboard lists players, each once, highest score first. */
  ghost predicate Ranked(d: LobbyData)
    requires d.players <= d.users.Keys
  {
    && (forall i, j :: 0 <= i < j < |d.leaderboard| ==> d.leaderboard[i] != d.leaderboard[j])
    && (forall i :: 0 <= i < |d.leaderboard| ==> d.leaderboard[i] in d.players)
    && (forall i, j :: 0 <= i < j < |d.leaderboard| ==>
          d.leaderboard[i] in d.players && d.leaderboard[j] in d.players &&
          d.users[d.leaderboard[i]].score >= d.users[d.leaderboard[j]].score)
  }

  /** What every handler keeps. */
  ghost predicate Valid(d: LobbyData)
  {
    && IsDeclared(d.state)
    && -1 <= d.currentQuestionIdx
    && Linked(d)
    && DistinctNames(d)
    && (d.state == LsQuestion <==> d.questionTimer == Armed)
    && AnswersTracked(d)
    && Ranked(d)
  }

  /**
   * In a lobby that keeps the invariant, a skip closes the question
   * exactly while one is open; in the waiting room, on the answer and
   * after the final results it panics or blocks instead.
   */
  lemma SkipClosesOnlyOpenQuestion(d: LobbyData)
    requires Valid(d)
    ensures CancelOutcomeOf(d.questionTimer) == QuestionClosed <==> d.state == LsQuestion
    ensures d.state != LsQuestion ==> CancelOutcomeOf(d.questionTimer) in {CancelPanics, CancelBlocks}
  {
  }

  /** While a question is open, the count of players still to answer is never negative. */
  lemma AnsweringNeverNegative(d: LobbyData)
    requires Valid(d) && d.state == LsQuestion
    ensures d.playersAnswering >= 0
  {
  }

  /** While a question is open, the count reaches 0 exactly when every player has answered. */
  lemma AnsweringZeroIffAllAnswered(d: LobbyData)
    requires Valid(d) && d.state == LsQuestion
    ensures d.playersAnswering == 0 <==> forall c :: c in d.players ==> d.users[c].submittedAnswerIdx != -1
  {
    if d.playersAnswering != 0 {
      var c :| c in Unanswered(d);
      assert c in d.players && d.users[c].submittedAnswerIdx == -1;
    } else {
      assert Unanswered(d) == {};
      forall c | c in d.players
        ensures d.users[c].submittedAnswerIdx != -1
      {
        assert c !in Unanswered(d);
      }
    }
  }

  /** A host who also plays can never answer, so the count cannot reach 0 before the timer. */
  lemma HostPlayerKeepsQuestionOpen(d: LobbyData)
    requires Valid(d) && d.state == LsQuestion
    requires d.host.Some? && d.host.value in d.players && d.users[d.host.value].submittedAnswerIdx == -1
    ensures d.playersAnswering >= 1
  {
    assert d.host.value in Unanswered(d);
  }

  /**
   * In a lobby that keeps the invariant, every connected client meets the
   * handlers' preconditions: the host is set, the index is in range, the
   * state has a view, and an open question has a running timer and
   * answers that can be scored.
   */
  lemma ValidMeetsHandlerNeeds(d: LobbyData, initiator: ClientId)
    requires Valid(d) && initiator in d.users
    ensures d.host.Some? && -1 <= d.currentQuestionIdx && IsDeclared(d.state)
    ensures d.players <= d.users.Keys
    ensures d.state == LsQuestion ==> d.questionTimer == Armed && PlayersAnswerable(d)
    ensures forall i :: 0 <= i < |d.leaderboard| ==> d.leaderboard[i] in d.users
  {
  }

  // ------------------------------------------------------------ connecting

  datatype Connection = Connection(lobby: LobbyData, view: Template)

  /**
   * `handleNewWebsocketConn`: the first client becomes the host, the host
   * and players reconnect to their own records and see the lobby's view,
   * and anyone else gets a fresh record and the username form.
   */
  function Connect(d: LobbyData, cid: ClientId): (c: Connection)
    requires IsDeclared(d.state)
    ensures c.view == ChooseUsernameView <==> d.host.Some? && d.host.value != cid && cid !in d.players
    ensures c.view != ChooseUsernameView ==> c.view == View(d.state)
    ensures c.lobby.host == if d.host.None? then Some(cid) else d.host
    ensures Linked(d) ==> cid in c.lobby.users
    ensures c.lobby.users.Keys <= d.users.Keys + {cid}
    ensures forall k :: k in d.users && k != cid ==> k in c.lobby.users && c.lobby.users[k] == d.users[k]
    ensures d.host.Some? && (d.host.value == cid || cid in d.players) ==> c.lobby == d
    ensures c.lobby.(host := d.host, users := d.users) == d
  {
    if d.host.None? then Connection(d.(host := Some(cid), users := d.users[cid := Fresh(cid)]), View(d.state))
    else if d.host.value == cid then Connection(d, View(d.state))
    else if cid in d.players then Connection(d, View(d.state))
    else Connection(d.(users := d.users[cid := Fresh(cid)]), ChooseUsernameView)
  }

  lemma ConnectKeepsValid(d: LobbyData, cid: ClientId)
    requires Valid(d)
    ensures Valid(Connect(d, cid).lobby)
  {
    if d.host.None? {
      ConnectFirstKeepsValid(d, cid);
    } else if d.host.value != cid && cid !in d.players {
      ConnectNewcomerKeepsValid(d, cid);
    }
  }

  /** The first client to connect becomes the host of a lobby that keeps the invariant. */
  lemma ConnectFirstKeepsValid(d: LobbyData, cid: ClientId)
    requires Valid(d) && d.host.None?
    ensures Valid(d.(host := Some(cid), users := d.users[cid := Fresh(cid)]))
  {
  }

  /** A newcomer's fresh record keeps the invariant: it is neither a player nor the host. */
  lemma ConnectNewcomerKeepsValid(d: LobbyData, cid: ClientId)
    requires Valid(d) && d.host.Some? && d.host.value != cid && cid !in d.players
    ensures Valid(d.(users := d.users[cid := Fresh(cid)]))
  {
    var r := d.(users := d.users[cid := Fresh(cid)]);
    assert Unanswered(r) == Unanswered(d);
  }

  // ------------------------------------------------------------ usernames

  datatype Step = Step(lobby: LobbyData, err: Option<EventError>)

  /** The usernames the players go by. */
  function PlayerNames(d: LobbyData): set<string>
  {
    set c | c in d.players && c in d.users :: d.users[c].username
  }

  /** `leNewUsernameSubmitted.Handle`, its guards in the source's order. */
  function SubmitUsername(d: LobbyData, initiator: ClientId, name: string): (r: Step)
    requires initiator in d.users
    ensures r.err.None? <==> name != "" && d.state == LsWaitingForPlayers &&
                             (d.users[initiator].username == name || name !in PlayerNames(d))
    ensures name == "" ==> r.err == Some(UsernameEmpty)
    ensures name != "" && d.state != LsWaitingForPlayers ==> r.err == Some(GameAlreadyStarted)
    ensures r.err.Some? || d.users[initiator].username == name ==> r.lobby == d
    ensures r.err.None? ==> initiator in r.lobby.users && r.lobby.users[initiator].username == name
    ensures r.err.None? && d.users[initiator].username != name ==>
              r.lobby.players == d.players + {initiator} &&
              r.lobby.users == d.users[initiator := d.users[initiator].(username := name)] &&
              r.lobby.(users := d.users, players := d.players) == d
  {
    if name == "" then Step(d, Some(UsernameEmpty))
    else if d.state != LsWaitingForPlayers then Step(d, Some(GameAlreadyStarted))
    else if d.users[initiator].username == name then Step(d, None)
    else if name in PlayerNames(d) then Step(d, Some(UsernameTaken))
    else
      Step(d.(users := d.users[initiator := d.users[initiator].(username := name)],
              players := d.players + {initiator}), None)
  }

  /** Taking a username keeps every player's name distinct (and the rest of the invariant). */
  lemma SubmitUsernameKeepsValid(d: LobbyData, initiator: ClientId, name: string)
    requires Valid(d) && initiator in d.users
    ensures Valid(SubmitUsername(d, initiator, name).lobby)
  {
    var r := SubmitUsername(d, initiator, name).lobby;
    if r != d {
      forall p, q | p in r.players && q in r.players && p != q
        ensures r.users[p].username != r.users[q].username
      {
        if p == initiator {
          assert d.users[q].username in PlayerNames(d);
        } else if q == initiator {
          assert d.users[p].username in PlayerNames(d);
        }
      }
    }
  }

  /** `leUsernameChangeRequested.Handle`: allowed only while waiting for players. */
  function UsernameChangeError(d: LobbyData): (err: Option<EventError>)
    ensures err.None? <==> d.state == LsWaitingForPlayers
    ensures err.Some? ==> err.value == GameAlreadyStarted
  {
    if d.state != LsWaitingForPlayers then Some(GameAlreadyStarted) else None
  }

  // ------------------------------------------------------------ questions

  /** A record whose answer is cleared before a new question. */
  function Cleared(u: User): (r: User)
    ensures r.submittedAnswerIdx == -1 && r.answerSubmissionTime.None?
    ensures r.(submittedAnswerIdx := u.submittedAnswerIdx, answerSubmissionTime := u.answerSubmissionTime) == u
  {
    u.(submittedAnswerIdx := -1, answerSubmissionTime := None)
  }

  function ClearedFor(users: map<ClientId, User>, who: set<ClientId>): map<ClientId, User>
  {
    map c | c in users :: if c in who then Cleared(users[c]) else users[c]
  }

  function HostSet(host: Option<ClientId>): set<ClientId>
  {
    if host.Some? then {host.value} else {}
  }

  lemma ClearedForStep(start: map<ClientId, User>, done: set<ClientId>, c: Option<ClientId>)
    ensures var before := ClearedFor(start, done);
            ClearedFor(start, done + HostSet(c)) ==
              if c.Some? && c.value in start then before[c.value := Cleared(before[c.value])] else before
  {
  }

  /** The guard of `leNextQuestionRequested.Handle`: the last question has not been reached. */
  predicate HasNextQuestion(d: LobbyData)
  {
    d.currentQuestionIdx < |d.quiz.questions| - 1
  }

  /**
   * `leNextQuestionRequested.Handle` on the lobby as a value. Past the last
   * question it does nothing; otherwise the host must be set (the source
   * dereferences it) and the index must not lie below -1.
   */
  function NextQuestion(d: LobbyData, now: int): LobbyData
    requires HasNextQuestion(d) ==> d.host.Some? && -1 <= d.currentQuestionIdx
  {
    if !HasNextQuestion(d) then d
    else
      var idx := d.currentQuestionIdx + 1;
      d.(users := ClearedFor(d.users, d.players + HostSet(d.host)),
         state := LsQuestion,
         currentQuestionIdx := idx,
         currentQuestion := Some(d.quiz.questions[idx]),
         currentQuestionStartTime := Some(now),
         currentQuestionTimeout := Some(now + d.timePerQuestion),
         readingTimeout := Some(now + d.timeForReading),
         playersAnswering := |d.players|,
         questionTimer := Armed)
  }

  /**
   * Moving on clears the host's and every player's answer, opens the next
   * question for the time per question and expects an answer from every
   * player; scores, names and everything else stay.
   */
  lemma NextQuestionFacts(d: LobbyData, now: int)
    requires HasNextQuestion(d) && d.host.Some? && -1 <= d.currentQuestionIdx
    ensures NextQuestion(d, now).currentQuestionIdx == d.currentQuestionIdx + 1
    ensures NextQuestion(d, now).currentQuestion == Some(d.quiz.questions[d.currentQuestionIdx + 1])
    ensures NextQuestion(d, now).state == LsQuestion && NextQuestion(d, now).questionTimer == Armed
    ensures NextQuestion(d, now).currentQuestionTimeout == Some(now + d.timePerQuestion)
    ensures NextQuestion(d, now).playersAnswering == |d.players|
    ensures NextQuestion(d, now).users.Keys == d.users.Keys
    ensures forall c :: c in d.users && (c in d.players || d.host == Some(c)) ==>
              NextQuestion(d, now).users[c] == Cleared(d.users[c])
    ensures forall c :: c in d.users && c !in d.players && d.host != Some(c) ==>
              NextQuestion(d, now).users[c] == d.users[c]
  {
  }

  lemma NextQuestionKeepsValid(d: LobbyData, now: int)
    requires Valid(d) && (HasNextQuestion(d) ==> d.host.Some?)
    ensures Valid(NextQuestion(d, now))
  {
    if HasNextQuestion(d) {
      var r := NextQuestion(d, now);
      NextQuestionFacts(d, now);
      assert Unanswered(r) == d.players;
    }
  }

  /** `leGameStartRequested.Handle`, its guards in the source's order, then the first question. */
  function StartGame(d: LobbyData, initiator: ClientId, now: int): (r: Step)
    requires d.host.Some?
    ensures r.err.None? <==> d.host.value == initiator && |d.players| > 0 &&
                             d.state == LsWaitingForPlayers && |d.quiz.questions| > 0
    ensures d.host.value != initiator ==> r.err == Some(NotHost)
    ensures r.err.Some? ==> r.lobby == d
    ensures r.err.None? ==> r.lobby == NextQuestion(d.(startedAt := Some(now), currentQuestionIdx := -1), now)
    ensures r.err.None? ==> r.lobby.state == LsQuestion && r.lobby.currentQuestionIdx == 0 &&
                            r.lobby.currentQuestion == Some(d.quiz.questions[0]) &&
                            r.lobby.startedAt == Some(now) && r.lobby.playersAnswering == |d.players|
  {
    if d.host.value != initiator then Step(d, Some(NotHost))
    else if |d.players| == 0 then Step(d, Some(NotEnoughPlayers))
    else if d.state != LsWaitingForPlayers then Step(d, Some(AlreadyStarted))
    else if |d.quiz.questions| == 0 then Step(d, Some(NoQuestions))
    else Step(NextQuestion(d.(startedAt := Some(now), currentQuestionIdx := -1), now), None)
  }

  lemma StartGameKeepsValid(d: LobbyData, initiator: ClientId, now: int)
    requires Valid(d) && d.host.Some?
    ensures Valid(StartGame(d, initiator, now).lobby)
  {
    if StartGame(d, initiator, now).err.None? {
      NextQuestionKeepsValid(d.(startedAt := Some(now), currentQuestionIdx := -1), now);
    }
  }

  // ------------------------------------------------------------ answers

  datatype Submission = Submission(lobby: LobbyData, err: Option<EventError>, closesQuestion: bool)

  /**
   * `leAnswerSubmitted.Handle`, its guards in the source's order. The
   * current question must be set (the source dereferences it first), and
   * so must the host once the first two guards pass. `closesQuestion` is
   * the cancellation of the question timer after the last answer.
   */
  function SubmitAnswer(d: LobbyData, initiator: ClientId, questionIdx: int, answerIdx: int, now: int): (r: Submission)
    requires d.currentQuestion.Some? && initiator in d.users
    requires 0 <= answerIdx < |d.currentQuestion.value.answers| && questionIdx == d.currentQuestionIdx ==> d.host.Some?
    ensures !(0 <= answerIdx < |d.currentQuestion.value.answers|) ==> r.err == Some(InvalidAnswerIndex)
    ensures r.lobby != d <==>
              && 0 <= answerIdx < |d.currentQuestion.value.answers|
              && questionIdx == d.currentQuestionIdx
              && d.host != Some(initiator)
              && d.state == LsQuestion
              && d.users[initiator].submittedAnswerIdx == -1
    ensures r.lobby != d ==>
              r.err.None? &&
              r.lobby.users == d.users[initiator := d.users[initiator].(submittedAnswerIdx := answerIdx,
                                                                     answerSubmissionTime := Some(now))] &&
              r.lobby.playersAnswering == d.playersAnswering - 1 &&
              r.lobby.(users := d.users, playersAnswering := d.playersAnswering) == d
    ensures r.closesQuestion <==> r.lobby != d && d.playersAnswering == 1
  {
    var q := d.currentQuestion.value;
    if answerIdx < 0 || answerIdx >= |q.answers| then Submission(d, Some(InvalidAnswerIndex), false)
    else if questionIdx != d.currentQuestionIdx then Submission(d, None, false)
    else if initiator == d.host.value then Submission(d, None, false)
    else if d.state != LsQuestion then Submission(d, Some(SubmittedAfterTimeout), false)
    else if d.users[initiator].submittedAnswerIdx != -1 then Submission(d, None, false)
    else
      var recorded := d.users[initiator].(submittedAnswerIdx := answerIdx, answerSubmissionTime := Some(now));
      Submission(d.(users := d.users[initiator := recorded], playersAnswering := d.playersAnswering - 1),
                 None, d.playersAnswering - 1 == 0)
  }

  /** A change to answers alone keeps the table's links, the distinct names and the ranking. */
  lemma AnswersOnlyChanged(d: LobbyData, r: LobbyData)
    requires Linked(d) && DistinctNames(d) && Ranked(d)
    requires r.host == d.host && r.players == d.players && r.leaderboard == d.leaderboard
    requires r.users.Keys == d.users.Keys
    requires forall c :: c in d.users ==> r.users[c].username == d.users[c].username && r.users[c].score == d.users[c].score
    ensures Linked(r) && DistinctNames(r) && Ranked(r)
  {
    if d.host.None? {
      assert r.users == map[];
    }
  }

  /** Recording an answer takes exactly that player off the count of players still to answer. */
  lemma RecordedAnswerTracked(d: LobbyData, initiator: ClientId, answerIdx: int, now: int)
    requires AnswersTracked(d) && d.state == LsQuestion && d.currentQuestion.Some?
    requires initiator in d.users && d.users[initiator].submittedAnswerIdx == -1 && d.host != Some(initiator)
    requires 0 <= answerIdx < |d.currentQuestion.value.answers|
    ensures AnswersTracked(d.(users := d.users[initiator := d.users[initiator].(submittedAnswerIdx := answerIdx,
                                                                              answerSubmissionTime := Some(now))],
                              playersAnswering := d.playersAnswering - 1))
  {
    var r := d.(users := d.users[initiator := d.users[initiator].(submittedAnswerIdx := answerIdx,
                                                                answerSubmissionTime := Some(now))],
                playersAnswering := d.playersAnswering - 1);
    assert initiator in Unanswered(d);
    assert Unanswered(d) == Unanswered(r) + {initiator};
  }

  lemma SubmitAnswerKeepsValid(d: LobbyData, initiator: ClientId, questionIdx: int, answerIdx: int, now: int)
    requires Valid(d) && d.currentQuestion.Some? && initiator in d.users
    ensures Valid(SubmitAnswer(d, initiator, questionIdx, answerIdx, now).lobby)
  {
    var r := SubmitAnswer(d, initiator, questionIdx, answerIdx, now).lobby;
    if r != d {
      AnswersOnlyChanged(d, r);
      RecordedAnswerTracked(d, initiator, answerIdx, now);
    }
  }

  // ------------------------------------------------------------ scoring

  /**
   * One player's points when the question that opened at `start` closes:
   * no answer earns 0 new points, a wrong answer leaves the record as it
   * was, a right one within 500 ms earns the full 1000, and a right answer
   * adds its new points to the score.
   */
  function Scored(u: User, q: Option<QuizModels.Question>, start: Option<int>, timePerQuestion: int): (r: User)
    requires Answerable(u, q)
    ensures r.(score := u.score, newPoints := u.newPoints) == u
    ensures u.submittedAnswerIdx == -1 ==> r.newPoints == 0 && r.score == u.score
    ensures u.submittedAnswerIdx != -1 && !q.value.answers[u.submittedAnswerIdx].isCorrect ==> r == u
    ensures u.submittedAnswerIdx != -1 && q.value.answers[u.submittedAnswerIdx].isCorrect ==>
              r.score == u.score + r.newPoints
    ensures (u.submittedAnswerIdx != -1 && q.value.answers[u.submittedAnswerIdx].isCorrect &&
             GoTime.Sub(u.answerSubmissionTime, start) < GameRound.FastAnswer) ==> r.newPoints == GameRound.MaxPoints
  {
    if u.submittedAnswerIdx == -1 then u.(newPoints := 0)
    else if q.value.answers[u.submittedAnswerIdx].isCorrect then
      var timeToAnswer := GoTime.Sub(u.answerSubmissionTime, start);
      var points :=
        if timeToAnswer < GameRound.FastAnswer then GameRound.MaxPoints
        else GameRound.SlowAnswerPoints(timeToAnswer, timePerQuestion);
      u.(newPoints := points, score := u.score + points)
    else u
  }

  function ScoredFor(d: LobbyData, who: set<ClientId>): map<ClientId, User>
    requires forall c :: c in who && c in d.users ==> Answerable(d.users[c], d.currentQuestion)
  {
    map c | c in d.users ::
      if c in who then Scored(d.users[c], d.currentQuestion, d.currentQuestionStartTime, d.timePerQuestion)
      else d.users[c]
  }

  lemma ScoredForStep(d: LobbyData, done: set<ClientId>, c: ClientId)
    requires PlayersAnswerable(d) && done <= d.players && c in d.players && c !in done
    ensures var before := ScoredFor(d, done);
            ScoredFor(d, done + {c}) ==
              if c in d.users
              then before[c := Scored(before[c], d.currentQuestion, d.currentQuestionStartTime, d.timePerQuestion)]
              else before
  {
  }

  /**
   * The scoring part of `leShowAnswerRequested.Handle`: the answer state,
   * every player scored, every other record and field as it was.
   */
  function AnswerScored(d: LobbyData): (r: LobbyData)
    requires PlayersAnswerable(d)
    ensures r.state == LsAnswer
    ensures r.users.Keys == d.users.Keys
    ensures forall c :: c in d.users && c !in d.players ==> r.users[c] == d.users[c]
    ensures forall c :: c in d.users && c in d.players ==>
              r.users[c] == Scored(d.users[c], d.currentQuestion, d.currentQuestionStartTime, d.timePerQuestion)
    ensures r.(users := d.users, state := d.state) == d
  {
    d.(state := LsAnswer, users := ScoredFor(d, d.players))
  }

  /** The leaderboard `leShowAnswerRequested.Handle` computes: every player once, highest score first. */
  ghost predicate RanksPlayers(lb: seq<ClientId>, users: map<ClientId, User>, players: set<ClientId>)
  {
    && MapEnum.Enumerates(lb, players)
    && (forall i :: 0 <= i < |lb| ==> lb[i] in users)
    && (forall i, j :: 0 <= i < j < |lb| ==> lb[i] in users && lb[j] in users &&
                                             users[lb[i]].score >= users[lb[j]].score)
  }

  /** Closing a question with a ranked leaderboard and a stopped timer keeps the invariant. */
  lemma ShowAnswerKeepsValid(d: LobbyData, lb: seq<ClientId>, t: QuestionTimer)
    requires Valid(d) && d.questionTimer == Armed && t != Armed
    requires RanksPlayers(lb, AnswerScored(d).users, d.players)
    ensures Valid(AnswerScored(d).(leaderboard := lb, questionTimer := t))
  {
  }

  // ------------------------------------------------------------ the end

  datatype PlayerScore = PlayerScore(username: string, score: int)

  datatype PastGame = PastGame(startedAt: Option<int>, endedAt: int, quizTitle: string, scores: seq<PlayerScore>)

  /** The score line of each leaderboard entry, in leaderboard order. */
  function ScoresOf(users: map<ClientId, User>, lb: seq<ClientId>): (s: seq<PlayerScore>)
    requires forall i :: 0 <= i < |lb| ==> lb[i] in users
    ensures |s| == |lb|
    ensures forall i :: 0 <= i < |lb| ==> s[i] == PlayerScore(users[lb[i]].username, users[lb[i]].score)
  {
    seq(|lb|, i requires 0 <= i < |lb| => PlayerScore(users[lb[i]].username, users[lb[i]].score))
  }

  /** A past game records its players highest score first, each under a distinct name. */
  lemma RecordedScoresRanked(d: LobbyData)
    requires Valid(d)
    ensures forall i :: 0 <= i < |d.leaderboard| ==> d.leaderboard[i] in d.users
    ensures var s := ScoresOf(d.users, d.leaderboard);
            forall i, j :: 0 <= i < j < |s| ==> s[i].score >= s[j].score && s[i].username != s[j].username
  {
    assert forall i :: 0 <= i < |d.leaderboard| ==> d.leaderboard[i] in d.users;
    var s := ScoresOf(d.users, d.leaderboard);
    forall i, j | 0 <= i < j < |s|
      ensures s[i].score >= s[j].score && s[i].username != s[j].username
    {
      assert d.leaderboard[i] != d.leaderboard[j];
      assert d.leaderboard[i] in d.players && d.leaderboard[j] in d.players;
    }
  }

  // ------------------------------------------------------------ the lobby object

  class Lobby {
    var pin: string
    var quiz: QuizModels.Quiz
    var host: Option<ClientId>
    var users: map<ClientId, User>
    var players: set<ClientId>
    var state: LobbyState
    var startedAt: Option<int>
    var finishedAt: Option<int>
    var timePerQuestion: int
    var timeForReading: int
    var currentQuestionIdx: int
    var currentQuestion: Option<QuizModels.Question>
    var currentQuestionStartTime: Option<int>
    var currentQuestionTimeout: Option<int>
    var readingTimeout: Option<int>
    var playersAnswering: int
    var leaderboard: seq<ClientId>
    var questionTimer: QuestionTimer

    function State(): LobbyData
      reads this
    {
      LobbyData(pin, quiz, host, users, players, state, startedAt, finishedAt, timePerQuestion,
                timeForReading, currentQuestionIdx, currentQuestion, currentQuestionStartTime,
                currentQuestionTimeout, readingTimeout, playersAnswering, leaderboard, questionTimer)
    }

    /** A lobby waiting for players, with no host, no players and no question yet. */
    constructor (pin: string, quiz: QuizModels.Quiz, timePerQuestion: int, timeForReading: int)
      ensures State() == LobbyData(pin, quiz, None, map[], {}, LsWaitingForPlayers, None, None,
                                   timePerQuestion, timeForReading, -1, None, None, None, None, 0, [], NoTimer)
      ensures Valid(State())
    {
      this.pin := pin;
      this.quiz := quiz;
      host := None;
      users := map[];
      players := {};
      state := LsWaitingForPlayers;
      startedAt := None;
      finishedAt := None;
      this.timePerQuestion := timePerQuestion;
      this.timeForReading := timeForReading;
      currentQuestionIdx := -1;
      currentQuestion := None;
      currentQuestionStartTime := None;
      currentQuestionTimeout := None;
      readingTimeout := None;
      playersAnswering := 0;
      leaderboard := [];
      questionTimer := NoTimer;
    }

    /**
     * `handleNewWebsocketConn`. The view is chosen before the roles are
     * sorted out, so the state must be one that has a view.
     */
    method HandleNewWebsocketConn(cid: ClientId) returns (view: Template)
      requires IsDeclared(state)
      modifies this
      ensures State() == Connect(old(State()), cid).lobby
      ensures view == Connect(old(State()), cid).view
    {
      view := View(state);
      if host.None? {
        host := Some(cid);
        users := users[cid := Fresh(cid)];
      } else if host.value == cid {
      } else if cid in players {
      } else {
        view := ChooseUsernameView;
        users := users[cid := Fresh(cid)];
      }
    }

    /** `leNewUsernameSubmitted.Handle` for a connected client. */
    method HandleNewUsername(initiator: ClientId, name: string) returns (err: Option<EventError>)
      requires initiator in users
      modifies this
      ensures State() == SubmitUsername(old(State()), initiator, name).lobby
      ensures err == SubmitUsername(old(State()), initiator, name).err
    {
      if name == "" {
        return Some(UsernameEmpty);
      }
      if state != LsWaitingForPlayers {
        return Some(GameAlreadyStarted);
      }
      if users[initiator].username == name {
        return None;
      }
      if name in PlayerNames(State()) {
        return Some(UsernameTaken);
      }
      users := users[initiator := users[initiator].(username := name)];
      players := players + {initiator};
      return None;
    }

    /** `leUsernameChangeRequested.Handle`: changes nothing. */
    method HandleUsernameChangeRequest() returns (err: Option<EventError>)
      ensures err == UsernameChangeError(State())
    {
      if state != LsWaitingForPlayers {
        return Some(GameAlreadyStarted);
      }
      return None;
    }

    /**
     * `leNextQuestionRequested.Handle`. Unless the last question has been
     * reached, the host must be set and the index must not lie below -1.
     */
    method HandleNextQuestion(now: int)
      requires HasNextQuestion(State()) ==> host.Some? && -1 <= currentQuestionIdx
      modifies this
      ensures State() == NextQuestion(old(State()), now)
    {
      if currentQuestionIdx >= |quiz.questions| - 1 {
        return;
      }
      ClearAnswers();
      OpenQuestion();
      StartClock(now);
      AwaitAnswers();
    }

    /** The reset loop of `leNextQuestionRequested.Handle` applied to the lobby's records. */
    method ClearAnswers()
      modifies this
      ensures State() == old(State()).(users := ClearedFor(old(users), old(players) + HostSet(old(host))))
    {
      users := ClearUsers(users, players, host);
    }

    /** `leNextQuestionRequested.Handle` moving to the next question. */
    method OpenQuestion()
      requires 0 <= currentQuestionIdx + 1 < |quiz.questions|
      modifies this
      ensures State() == old(State()).(
                state := LsQuestion,
                currentQuestionIdx := old(currentQuestionIdx) + 1,
                currentQuestion := Some(old(quiz.questions[currentQuestionIdx + 1])))
    {
      state := LsQuestion;
      currentQuestionIdx := currentQuestionIdx + 1;
      currentQuestion := Some(quiz.questions[currentQuestionIdx]);
    }

    /** `leNextQuestionRequested.Handle` starting the question's clock at `now`. */
    method StartClock(now: int)
      modifies this
      ensures State() == old(State()).(
                currentQuestionStartTime := Some(now),
                currentQuestionTimeout := Some(now + timePerQuestion),
                readingTimeout := Some(now + timeForReading))
    {
      currentQuestionStartTime := Some(now);
      currentQuestionTimeout := Some(now + timePerQuestion);
      readingTimeout := Some(now + timeForReading);
    }

    /** `leNextQuestionRequested.Handle` waiting for every player and starting the question timer. */
    method AwaitAnswers()
      modifies this
      ensures State() == old(State()).(playersAnswering := |players|, questionTimer := Armed)
    {
      playersAnswering := |players|;
      questionTimer := Armed;
    }

    /** The reset loop of `leNextQuestionRequested.Handle`: the host's answer, then each player's. */
    static method ClearUsers(start: map<ClientId, User>, ps: set<ClientId>, h: Option<ClientId>)
      returns (us: map<ClientId, User>)
      ensures us == ClearedFor(start, ps + HostSet(h))
    {
      us := start;
      if h.Some? && h.value in us {
        us := us[h.value := Cleared(us[h.value])];
      }
      ClearedForStep(start, {}, h);
      ghost var cleared := HostSet(h);
      var rest := ps;
      while rest != {}
        invariant rest <= ps
        invariant cleared + rest == ps + HostSet(h)
        invariant us == ClearedFor(start, cleared)
        decreases rest
      {
        var c :| c in rest;
        ClearedForStep(start, cleared, Some(c));
        if c in us {
          us := us[c := Cleared(us[c])];
        }
        cleared := cleared + {c};
        rest := rest - {c};
      }
    }

    /** `leGameStartRequested.Handle`; the host must be set, as the source dereferences it first. */
    method HandleGameStart(initiator: ClientId, now: int) returns (err: Option<EventError>)
      requires host.Some?
      modifies this
      ensures State() == StartGame(old(State()), initiator, now).lobby
      ensures err == StartGame(old(State()), initiator, now).err
    {
      if host.value != initiator {
        return Some(NotHost);
      }
      if |players| == 0 {
        return Some(NotEnoughPlayers);
      }
      if state != LsWaitingForPlayers {
        return Some(AlreadyStarted);
      }
      if |quiz.questions| == 0 {
        return Some(NoQuestions);
      }
      startedAt := Some(now);
      currentQuestionIdx := -1;
      HandleNextQuestion(now);
      return None;
    }

    /**
     * `leAnswerSubmitted.Handle`. The current question must be set, and so
     * must the host once the answer and question indices pass. After the
     * last player's answer the timer is cancelled, which closes the
     * question at once: so the timer must be running whenever a question
     * is open, the players must be in the table and their answers must be
     * indices of the question.
     */
    method HandleAnswerSubmitted(initiator: ClientId, questionIdx: int, answerIdx: int, now: int)
      returns (err: Option<EventError>)
      requires initiator in users && currentQuestion.Some?
      requires 0 <= answerIdx < |currentQuestion.value.answers| && questionIdx == currentQuestionIdx ==> host.Some?
      requires state == LsQuestion ==> questionTimer == Armed && PlayersAnswerable(State()) && players <= users.Keys
      modifies this
      ensures var s := SubmitAnswer(old(State()), initiator, questionIdx, answerIdx, now);
              && err == s.err
              && (!s.closesQuestion ==> State() == s.lobby)
              && (s.closesQuestion ==>
                    State() == AnswerScored(s.lobby).(leaderboard := leaderboard, questionTimer := Cancelled) &&
                    RanksPlayers(leaderboard, users, players))
    {
      ghost var d := State();
      if answerIdx < 0 || answerIdx >= |currentQuestion.value.answers| {
        return Some(InvalidAnswerIndex);
      }
      if questionIdx != currentQuestionIdx || initiator == host.value {
        return None;
      }
      if state != LsQuestion {
        return Some(SubmittedAfterTimeout);
      }
      if users[initiator].submittedAnswerIdx != -1 {
        return None;
      }
      users := users[initiator := users[initiator].(submittedAnswerIdx := answerIdx, answerSubmissionTime := Some(now))];
      playersAnswering := playersAnswering - 1;
      assert State() == SubmitAnswer(d, initiator, questionIdx, answerIdx, now).lobby;
      if playersAnswering == 0 {
        CloseQuestion(Cancelled);
      }
      return None;
    }

    /**
     * `leSkipToAnswerRequested.Handle`: cancels the question timer in any
     * state. Only a running timer closes the question; otherwise the
     * handler panics or blocks with the lobby as it was.
     */
    method HandleSkipToAnswer() returns (outcome: CancelOutcome)
      requires questionTimer == Armed ==> PlayersAnswerable(State()) && players <= users.Keys
      modifies this
      ensures outcome == CancelOutcomeOf(old(questionTimer))
      ensures outcome == QuestionClosed ==>
                State() == AnswerScored(old(State())).(leaderboard := leaderboard, questionTimer := Cancelled) &&
                RanksPlayers(leaderboard, users, players)
      ensures outcome != QuestionClosed ==> State() == old(State())
    {
      outcome := CancelOutcomeOf(questionTimer);
      if outcome == QuestionClosed {
        CloseQuestion(Cancelled);
      }
    }

    /** The question timer running out, which closes the question. */
    method QuestionTimeout()
      requires questionTimer == Armed && PlayersAnswerable(State()) && players <= users.Keys
      modifies this
      ensures State() == AnswerScored(old(State())).(leaderboard := leaderboard, questionTimer := Fired)
      ensures RanksPlayers(leaderboard, users, players)
    {
      CloseQuestion(Fired);
    }

    /**
     * `leShowAnswerRequested.Handle`, run once the timer has stopped as
     * `t`: every player's answer must be an index of the question.
     */
    method CloseQuestion(t: QuestionTimer)
      requires PlayersAnswerable(State()) && players <= users.Keys
      modifies this
      ensures State() == AnswerScored(old(State())).(leaderboard := leaderboard, questionTimer := t)
      ensures RanksPlayers(leaderboard, users, players)
    {
      var d := State();
      var scored := ScoreUsers(d);
      state, users := LsAnswer, scored;
      leaderboard := RankPlayers(users, players);
      questionTimer := t;
    }

    /** The scoring loop of `leShowAnswerRequested.Handle`, on the lobby as a value. */
    static method ScoreUsers(d: LobbyData) returns (us: map<ClientId, User>)
      requires PlayersAnswerable(d)
      ensures us == ScoredFor(d, d.players)
    {
      us := d.users;
      ghost var scored: set<ClientId> := {};
      var rest := d.players;
      while rest != {}
        invariant rest <= d.players
        invariant scored + rest == d.players && scored !! rest
        invariant us == ScoredFor(d, scored)
        decreases rest
      {
        var c :| c in rest;
        ScoredForStep(d, scored, c);
        if c in us {
          us := us[c := Scored(us[c], d.currentQuestion, d.currentQuestionStartTime, d.timePerQuestion)];
        }
        scored := scored + {c};
        rest := rest - {c};
      }
    }

    /** The leaderboard of `leShowAnswerRequested.Handle`: the players collected, then sorted by score, highest first. */
    static method RankPlayers(us: map<ClientId, User>, ps: set<ClientId>) returns (lb: seq<ClientId>)
      requires ps <= us.Keys
      ensures RanksPlayers(lb, us, ps)
    {
      var collected := MapEnum.Elements(ps);
      var a := new ClientId[|collected|](i requires 0 <= i < |collected| => collected[i]);
      assert a[..] == collected;
      Sorting.SortBy(a, (c: ClientId) => if c in us then -us[c].score else 0);
      lb := a[..];
      MapEnum.EnumeratesPermuted(collected, lb, ps);
    }
  }

  // ------------------------------------------------------------ the service

  /** The lobby service: the lobby store and the past games saved so far, oldest first. */
  class Service {
    const lobbies: LobbiesRepository.InMemoryLobbyRepository
    var pastGames: seq<PastGame>

    constructor (lobbies: LobbiesRepository.InMemoryLobbyRepository)
      ensures this.lobbies == lobbies && pastGames == []
    {
      this.lobbies := lobbies;
      pastGames := [];
    }

    /**
     * `leEndGameRequested.Handle`: stamps the finish time, removes the
     * lobby from the store (failing if it is not there) and saves the game
     * with the leaderboard's names and scores in leaderboard order.
     * `saveFails` stands for the past-games store refusing the insert.
     */
    method HandleEndGame(l: Lobby, now: int, saveFails: bool) returns (err: Option<EventError>)
      requires forall i :: 0 <= i < |l.leaderboard| ==> l.leaderboard[i] in l.users
      modifies l, lobbies
      modifies this
      ensures l.State() == old(l.State()).(finishedAt := Some(now))
      ensures lobbies.lobbies == old(lobbies.lobbies) - {l.pin}
      ensures l.pin !in old(lobbies.lobbies) ==> err == Some(LobbyNotFound) && pastGames == old(pastGames)
      ensures l.pin in old(lobbies.lobbies) && saveFails ==> err == Some(PastGameNotSaved) && pastGames == old(pastGames)
      ensures l.pin in old(lobbies.lobbies) && !saveFails ==>
                err.None? &&
                pastGames == old(pastGames) + [PastGame(l.startedAt, now, QuizModels.Title(l.quiz),
                                                        ScoresOf(l.users, l.leaderboard))]
    {
      l.finishedAt := Some(now);
      var e := lobbies.DeleteLobby(l.pin);
      if e.Some? {
        return Some(LobbyNotFound);
      }
      var scores := CollectScores(l.users, l.leaderboard);
      if saveFails {
        return Some(PastGameNotSaved);
      }
      pastGames := pastGames + [PastGame(l.startedAt, now, QuizModels.Title(l.quiz), scores)];
      return None;
    }

    /** The score loop of `leEndGameRequested.Handle`. */
    static method CollectScores(users: map<ClientId, User>, lb: seq<ClientId>) returns (scores: seq<PlayerScore>)
      requires forall i :: 0 <= i < |lb| ==> lb[i] in users
      ensures scores == ScoresOf(users, lb)
    {
      scores := [];
      var i := 0;
      while i < |lb|
        invariant 0 <= i <= |lb|
        invariant scores == ScoresOf(users, lb[..i])
      {
        scores := scores + [PlayerScore(users[lb[i]].username, users[lb[i]].score)];
        i := i + 1;
      }
      assert lb[..i] == lb;
    }
  }
}
