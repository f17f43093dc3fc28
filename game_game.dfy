/**
 * A game: its settings and quiz, the points of each player, the running
 * round and its number, and the start and end instants.
 */
module GameGame {
  import opened Wrappers
  import opened GameCommon
  import opened GameRound
  import MapEnum
  import Sorting

  datatype GameSettings = GameSettings(quiz: Quiz, roundSettings: RoundSettings)

  datatype GameError =
    | GameAlreadyStarted                     // ErrGameAlreadyStarted
    | GameFinished                           // ErrGameFinished
    | NoMoreQuestions                        // ErrNoMoreQuestions
    | InvalidUsername(reason: UsernameError) // ErrInvalidUsername
    | UsernameAlreadyInGame                  // "Username already in game"
    | OldUsernameNotInGame                   // "Username is not in game: ..."
    | NewUsernameInGame                      // "New username is already in game: ..."
    | UsernameNotInGame                      // "Username not in game"
    | GameNotStarted                         // "Game not started"
    | PreviousRoundNotFinished               // "Previous round not finished"
    | RoundNotFinished                       // "Round not finished"
    | NoPlayersInGame                        // "No players in game"
    | NoSuchQuestion(index: int)             // the quiz's GetQuestion error
    | NoCurrentRound                         // "Not in round"
    | RoundRejected(cause: RoundError)       // an error passed up from the round

  /** The zero `Score` that `make([]Score, n)` fills a slice with. */
  const ZeroScore := Score(0, [])

  /** One score per listed player, in the order listed. */
  ghost function Entries(points: map<Username, int>, order: seq<Username>): (r: seq<Score>)
    requires forall p :: p in order ==> p in points
    ensures |r| == |order|
  {
    if order == [] then []
    else Entries(points, order[..|order| - 1]) + [Score(points[order[|order| - 1]], order[|order| - 1])]
  }

  /** The loop of `Leaderboard`: `len(points)` zero scores, then one score per listed player. */
  method CollectScores(points: map<Username, int>, names: seq<Username>) returns (leaderboard: seq<Score>)
    requires forall p :: p in names ==> p in points
    ensures leaderboard == seq(|points|, _ => ZeroScore) + Entries(points, names)
  {
    leaderboard := seq(|points|, _ => ZeroScore);
    var i := 0;
    while i < |names|
      invariant 0 <= i <= |names|
      invariant leaderboard == seq(|points|, _ => ZeroScore) + Entries(points, names[..i])
    {
      assert names[..i + 1] == names[..i] + [names[i]];
      leaderboard := leaderboard + [Score(points[names[i]], names[i])];
      i := i + 1;
    }
    assert names[..|names|] == names;
  }

  /** `slices.SortFunc` by non-decreasing points: the same scores, reordered. */
  method SortByPoints(s: seq<Score>) returns (r: seq<Score>)
    ensures |r| == |s|
    ensures Sorting.SortedBy(r, (x: Score) => x.points)
    ensures multiset(r) == multiset(s)
  {
    var a := new Score[|s|](k requires 0 <= k < |s| => s[k]);
    assert a[..] == s;
    Sorting.SortBy(a, (x: Score) => x.points);
    r := a[..];
    assert |multiset(r)| == |multiset(s)|;
  }

  class Game {
    var settings: GameSettings
    var startedAt: Option<int>
    var endedAt: Option<int>
    var quiz: Quiz
    var points: map<Username, int>
    var round: Round?
    var roundNum: int

    ghost predicate Valid()
      reads this, round
    {
      && (round != null ==> round.Valid())
      && (startedAt.Some? ==> round != null)
      && (startedAt.Some? ==> points != map[])
    }

    predicate HasStarted()
      reads this
    {
      startedAt.Some?
    }

    predicate HasEnded()
      reads this
    {
      endedAt.Some?
    }

    /** `InRound`: the current round has started and not yet finished. */
    predicate InRound()
      reads this, round
    {
      round != null && round.HasStarted() && !round.HasFinished()
    }

    /** `CreateGame`: no players, no round; applying the settings cannot fail yet. */
    constructor (settings: GameSettings)
      ensures Valid()
      ensures points == map[] && round == null
      ensures startedAt.None? && endedAt.None? && roundNum == 0
      ensures this.settings == settings && quiz == settings.quiz
    {
      this.settings := settings;
      this.quiz := settings.quiz;
      this.startedAt := None;
      this.endedAt := None;
      this.points := map[];
      this.round := null;
      this.roundNum := 0;
      new;
      var err := UpdateSettings(settings);
      assert err.None?;
    }

    /** `UpdateSettings`: allowed only before the game starts. */
    method UpdateSettings(s: GameSettings) returns (err: Option<GameError>)
      requires Valid()
      modifies this`settings, this`quiz
      ensures Valid()
      ensures err == (if old(startedAt).Some? then Some(GameAlreadyStarted) else None)
      ensures settings == (if err.None? then s else old(settings))
      ensures quiz == (if err.None? then s.quiz else old(quiz))
    {
      if startedAt.Some? {
        return Some(GameAlreadyStarted);
      }
      quiz := s.quiz;
      settings := s;
      return None;
    }

    /**
     * `AddPlayer`: refused after the start, then for an invalid name, then
     * for a name already present. Since `IsValid` accepts no name, it
     * never adds anyone.
     */
    method AddPlayer(u: Username) returns (err: Option<GameError>)
      requires Valid()
      modifies this`points
      ensures Valid()
      ensures old(startedAt).Some? ==> err == Some(GameAlreadyStarted)
      ensures old(startedAt).None? ==> err == Some(InvalidUsername(IsValid(u).err))
      ensures err.Some? && points == old(points)
    {
      if startedAt.Some? {
        return Some(GameAlreadyStarted);
      }
      var verdict := IsValid(u);
      if !verdict.valid {
        return Some(InvalidUsername(verdict.err));
      }
      // No name passes `IsValid`, so the duplicate check and the insertion
      // of `u` with 0 points that follow in the source are never reached.
      assert false;
    }

    /**
     * `ChangeUsername`: renaming to the same name is a successful no-op;
     * otherwise the old name must be present, the new one absent and valid.
     * As no name is valid, only the no-op succeeds.
     */
    method ChangeUsername(oldName: Username, newName: Username) returns (err: Option<GameError>)
      requires Valid()
      modifies this`points
      ensures Valid()
      ensures oldName == newName ==> err.None?
      ensures oldName != newName && oldName !in old(points) ==> err == Some(OldUsernameNotInGame)
      ensures oldName != newName && oldName in old(points) && newName in old(points) ==> err == Some(NewUsernameInGame)
      ensures (oldName != newName && oldName in old(points) && newName !in old(points))
                ==> err == Some(InvalidUsername(IsValid(newName).err))
      ensures points == old(points)
    {
      if oldName == newName {
        return None;
      }
      if oldName !in points {
        return Some(OldUsernameNotInGame);
      }
      var oldUsernamePoints := points[oldName];
      if newName in points {
        return Some(NewUsernameInGame);
      }
      var verdict := IsValid(newName);
      if !verdict.valid {
        return Some(InvalidUsername(verdict.err));
      }
      // No name passes `IsValid`, so moving the old name's points to the
      // new name, as the source does next, is never reached.
      assert false;
    }

    /** `RemovePlayer`: only before the start, only a present name, only that key. */
    method RemovePlayer(u: Username) returns (err: Option<GameError>)
      requires Valid()
      modifies this`points
      ensures Valid()
      ensures old(startedAt).Some? ==> err == Some(GameAlreadyStarted)
      ensures old(startedAt).None? && u !in old(points) ==> err == Some(UsernameNotInGame)
      ensures err.None? <==> old(startedAt).None? && u in old(points)
      ensures points == if err.None? then old(points) - {u} else old(points)
    {
      if startedAt.Some? {
        return Some(GameAlreadyStarted);
      }
      if u !in points {
        return Some(UsernameNotInGame);
      }
      points := points - {u};
      return None;
    }

    /** `players()`: every player exactly once, in map order. */
    method Players() returns (ps: seq<Username>)
      ensures MapEnum.Enumerates(ps, points.Keys)
      ensures |ps| == |points|
    {
      ps := MapEnum.Keys(points);
    }

    /**
     * `startRound`: refused while the current round runs, after the end,
     * without players, or when the quiz has no question `num`; otherwise a
     * fresh started round for the current players becomes round `num`.
     */
    method StartRound(num: int, now: int) returns (err: Option<GameError>)
      requires Valid()
      modifies this`round, this`roundNum
      ensures Valid()
      ensures old(round) != null && old(round).endedAt.None? ==> err == Some(RoundNotFinished)
      ensures (old(round) == null || old(round).endedAt.Some?) && endedAt.Some? ==> err == Some(GameFinished)
      ensures ((old(round) == null || old(round).endedAt.Some?) && endedAt.None? && points == map[])
                ==> err == Some(NoPlayersInGame)
      ensures ((old(round) == null || old(round).endedAt.Some?) && endedAt.None? && points != map[]
               && quiz.getQuestion(num).None?)
                ==> err == Some(NoSuchQuestion(num))
      ensures err.None? <==> ((old(round) == null || old(round).endedAt.Some?) && endedAt.None? && points != map[]
               && quiz.getQuestion(num).Some?)
      ensures err.Some? ==> round == old(round) && roundNum == old(roundNum)
      ensures err.None? ==> fresh(round) && roundNum == num
      ensures err.None? ==> round.players == points.Keys && round.answers == map[]
      ensures err.None? ==> round.question == quiz.getQuestion(num).value
      ensures err.None? ==> round.settings == settings.roundSettings
      ensures err.None? ==> round.startAt == Some(now) && round.endedAt.None?
    {
      if round != null && round.endedAt.None? {
        return Some(RoundNotFinished);
      }
      if endedAt.Some? {
        return Some(GameFinished);
      }
      if |points| == 0 {
        return Some(NoPlayersInGame);
      }
      var question := quiz.getQuestion(num);
      if question.None? {
        return Some(NoSuchQuestion(num));
      }
      var players := Players();
      var newRound := new Round(players, question.value, settings.roundSettings);
      round := newRound;
      roundNum := num;
      var started := newRound.Start(now);
      assert started.None?;
      return None;
    }

    /**
     * `Start`: once, before the end, and only if round 0 can start; its
     * refusals are `startRound(0)`'s, and on success round 0 runs and the
     * game is stamped as started at `now`.
     */
    method Start(now: int) returns (err: Option<GameError>)
      requires Valid()
      modifies this`startedAt, this`round, this`roundNum
      ensures Valid()
      ensures old(startedAt).Some? ==> err == Some(GameAlreadyStarted)
      ensures old(startedAt).None? && endedAt.Some? ==> err == Some(GameFinished)
      ensures (old(startedAt).None? && endedAt.None? && old(round) != null && old(round).endedAt.None?)
                ==> err == Some(RoundNotFinished)
      ensures (old(startedAt).None? && endedAt.None? && points == map[]
               && (old(round) == null || old(round).endedAt.Some?))
                ==> err == Some(NoPlayersInGame)
      ensures (old(startedAt).None? && endedAt.None? && points != map[]
               && (old(round) == null || old(round).endedAt.Some?) && quiz.getQuestion(0).None?)
                ==> err == Some(NoSuchQuestion(0))
      ensures err.None? <==> (old(startedAt).None? && endedAt.None? && points != map[]
               && (old(round) == null || old(round).endedAt.Some?) && quiz.getQuestion(0).Some?)
      ensures startedAt == if err.None? then Some(now) else old(startedAt)
      ensures err.None? ==> roundNum == 0 && fresh(round)
      ensures err.None? ==> round.players == points.Keys && round.answers == map[]
      ensures err.None? ==> round.question == quiz.getQuestion(0).value
      ensures err.None? ==> round.settings == settings.roundSettings
      ensures err.None? ==> round.startAt == Some(now) && round.endedAt.None?
      ensures err.Some? ==> round == old(round) && roundNum == old(roundNum)
    {
      if startedAt.Some? {
        return Some(GameAlreadyStarted);
      }
      if endedAt.Some? {
        return Some(GameFinished);
      }
      err := StartRound(0, now);
      if err.Some? {
        return err;
      }
      startedAt := Some(now);
    }

    /**
     * `StartNextRound`: refused after the end, before the start, while the
     * round runs, or when the quiz has no next question; otherwise round
     * `roundNum + 1` starts as `startRound` starts it (a game that is
     * started always has players, none can leave after the start).
     */
    method StartNextRound(now: int) returns (err: Option<GameError>)
      requires Valid()
      modifies this`round, this`roundNum
      ensures Valid()
      ensures endedAt.Some? ==> err == Some(GameFinished)
      ensures endedAt.None? && startedAt.None? ==> err == Some(GameNotStarted)
      ensures endedAt.None? && startedAt.Some? && old(round.endedAt).None? ==> err == Some(PreviousRoundNotFinished)
      ensures (endedAt.None? && startedAt.Some? && old(round.endedAt).Some?
               && old(roundNum) + 1 >= quiz.questionsCount)
                ==> err == Some(NoMoreQuestions)
      ensures (endedAt.None? && startedAt.Some? && old(round.endedAt).Some?
               && old(roundNum) + 1 < quiz.questionsCount && quiz.getQuestion(old(roundNum) + 1).None?)
                ==> err == Some(NoSuchQuestion(old(roundNum) + 1))
      ensures err.None? ==> (endedAt.None? && startedAt.Some? && old(round.endedAt).Some?
               && old(roundNum) + 1 < quiz.questionsCount && quiz.getQuestion(old(roundNum) + 1).Some?)
      ensures (endedAt.None? && startedAt.Some? && old(round.endedAt).Some?
               && old(roundNum) + 1 < quiz.questionsCount && quiz.getQuestion(old(roundNum) + 1).Some?) ==> err.None?
      ensures err.None? ==> roundNum == old(roundNum) + 1 && fresh(round)
      ensures err.None? ==> round.players == points.Keys && round.answers == map[]
      ensures err.None? ==> round.question == quiz.getQuestion(roundNum).value
      ensures err.None? ==> round.settings == settings.roundSettings
      ensures err.None? ==> round.startAt == Some(now) && round.endedAt.None?
      ensures err.Some? ==> roundNum == old(roundNum) && round == old(round)
    {
      if endedAt.Some? {
        return Some(GameFinished);
      }
      if startedAt.None? {
        return Some(GameNotStarted);
      }
      if round.endedAt.None? {
        return Some(PreviousRoundNotFinished);
      }
      if roundNum + 1 >= quiz.questionsCount {
        return Some(NoMoreQuestions);
      }
      err := StartRound(roundNum + 1, now);
    }

    /** `Finish`: succeeds once, then reports the game as finished. */
    method Finish(now: int) returns (err: Option<GameError>)
      requires Valid()
      modifies this`endedAt
      ensures Valid()
      ensures err == (if old(endedAt).Some? then Some(GameFinished) else None)
      ensures endedAt == if old(endedAt).Some? then old(endedAt) else Some(now)
    {
      if endedAt.Some? {
        return Some(GameFinished);
      }
      endedAt := Some(now);
      return None;
    }

    /** `RoundNum`: -1 until the game has started, then the current round's number. */
    function RoundNum(): (r: int)
      reads this, round
      requires Valid()
      ensures startedAt.None? ==> r == -1
      ensures startedAt.Some? ==> r == roundNum
    {
      if startedAt.None? then -1 else roundNum
    }

    /**
     * `Leaderboard`: the slice is created with `len(points)` zero scores and
     * then one score per player is appended, so it has twice as many
     * entries as players; it is sorted by non-decreasing points.
     */
    method Leaderboard() returns (r: seq<Score>, ghost order: seq<Username>)
      ensures MapEnum.Enumerates(order, points.Keys)
      ensures |r| == 2 * |points|
      ensures Sorting.SortedBy(r, (s: Score) => s.points)
      ensures multiset(r) == multiset(seq(|points|, _ => ZeroScore)) + multiset(Entries(points, order))
    {
      var names := MapEnum.Keys(points);
      order := names;
      var leaderboard := CollectScores(points, names);
      r := SortByPoints(leaderboard);
    }

    /** `SubmitAnswer`: needs a round, then defers to it. */
    method SubmitAnswer(u: Username, answerIndex: int, now: int) returns (err: Option<GameError>)
      requires Valid()
      modifies round
      ensures Valid()
      ensures old(round) == null ==> err == Some(NoCurrentRound)
      ensures round != null ==> err == (match old(round.Rejection(u, answerIndex, now))
                                          case None => None
                                          case Some(e) => Some(RoundRejected(e)))
      ensures round != null && err.None? ==> round.answers == old(round.answers)[u := RoundAnswer(answerIndex, now)]
      ensures round != null && err.Some? ==> round.answers == old(round.answers) && round.endedAt == old(round.endedAt)
      ensures round != null && err.None? ==> (round.endedAt.Some? <==> round.answers.Keys == round.players)
      ensures round != null && err.None? && round.answers.Keys == round.players ==> round.endedAt == Some(now)
      ensures round != null ==> round.players == old(round.players) && round.startAt == old(round.startAt)
      ensures round != null ==> round.question == old(round.question) && round.settings == old(round.settings)
    {
      if round == null {
        return Some(NoCurrentRound);
      }
      var e := round.SubmitAnswer(u, answerIndex, now);
      if e.Some? {
        return Some(RoundRejected(e.value));
      }
      return None;
    }
  }
}
