/**
 * One round of a game: the players who may answer, their answers, and
 * the timestamps that open and close the round. Times are nanosecond
 * instants passed in by the caller; `None` stands for the zero time.Time.
 */
module GameRound {
  import opened Wrappers
  import opened GameCommon

  /** 500 ms, in nanoseconds. */
  const FastAnswer: int := 500_000_000
  const MaxPoints: int := 1000

  datatype RoundSettings = RoundSettings(readingTime: int, answerTime: int)

  datatype RoundAnswer = RoundAnswer(index: int, submittedAt: int)

  datatype RoundError =
    | AlreadyStarted  // "Round already started"
    | AlreadyEnded    // "Round already ended"
    | InvalidAnswer   // "invalid answer index"
    | NotInRound      // "player not in round"
    | NotStarted      // "round has not started"
    | TooEarly        // "answer submitted before answering allowed"
    | AfterEnd        // "answer submitted after round ended"
    | AlreadyAnswered // "player has already submitted an answer: ..."
    | NotEnded        // "round has not ended"

  /**
   * Points for a correct answer given `t` ns after reading time ended,
   * when `t` is at least 500 ms: the source computes
   * int((1 - t / answerTime / 2) * 1000) in floating point. This helper
   * uses the exact rational value truncated toward zero instead.
   */
  function SlowAnswerPoints(t: int, answerTime: int): int
  {
    if answerTime <= 0 then 0
    else
      var num := MaxPoints * answerTime - MaxPoints * t / 2;
      if num >= 0 then num / answerTime else -((-num) / answerTime)
  }

  class Round {
    var question: Question
    var settings: RoundSettings
    var startAt: Option<int>
    var endedAt: Option<int>
    var players: set<Username>
    var answers: map<Username, RoundAnswer>

    /** Only players of the round answer, and only once it has started. */
    ghost predicate Valid()
      reads this
    {
      && answers.Keys <= players
      && (answers != map[] ==> startAt.Some?)
    }

    predicate HasStarted()
      reads this
    {
      startAt.Some?
    }

    predicate HasFinished()
      reads this
    {
      endedAt.Some?
    }

    /** `CreateRound`: every listed player may answer; nothing has happened yet. */
    constructor (players: seq<Username>, question: Question, settings: RoundSettings)
      ensures Valid()
      ensures this.players == set p | p in players
      ensures this.question == question && this.settings == settings
      ensures answers == map[] && startAt.None? && endedAt.None?
    {
      this.question := question;
      this.settings := settings;
      this.startAt := None;
      this.endedAt := None;
      this.players := set p | p in players;
      this.answers := map[];
    }

    /** `Start`: a round starts once, and never after it ended. */
    method Start(now: int) returns (err: Option<RoundError>)
      requires Valid()
      modifies this
      ensures Valid()
      ensures old(startAt).Some? ==> err == Some(AlreadyStarted)
      ensures old(startAt).None? && old(endedAt).Some? ==> err == Some(AlreadyEnded)
      ensures err.None? <==> old(startAt).None? && old(endedAt).None?
      ensures startAt == if err.None? then Some(now) else old(startAt)
      ensures endedAt == old(endedAt) && players == old(players) && answers == old(answers)
      ensures question == old(question) && settings == old(settings)
    {
      if startAt.Some? {
        return Some(AlreadyStarted);
      }
      if endedAt.Some? {
        return Some(AlreadyEnded);
      }
      startAt := Some(now);
      return None;
    }

    /** `finishRound`: the end time is set once. */
    method FinishRound(now: int) returns (err: Option<RoundError>)
      requires Valid()
      modifies this`endedAt
      ensures Valid()
      ensures err == (if old(endedAt).Some? then Some(AlreadyEnded) else None)
      ensures endedAt == if old(endedAt).Some? then old(endedAt) else Some(now)
    {
      if endedAt.Some? {
        return Some(AlreadyEnded);
      }
      endedAt := Some(now);
      return None;
    }

    /** `FinishEarly`: ends the round whether or not it has started. */
    method FinishEarly(now: int) returns (err: Option<RoundError>)
      requires Valid()
      modifies this`endedAt
      ensures Valid()
      ensures err == (if old(endedAt).Some? then Some(AlreadyEnded) else None)
      ensures endedAt == if old(endedAt).Some? then old(endedAt) else Some(now)
    {
      err := FinishRound(now);
    }

    /**
     * The timer started by `Start` firing after reading and answer time:
     * it ends a round nobody ended before (an earlier end stops the timer).
     */
    method TimerFired(now: int)
      requires Valid() && startAt.Some?
      requires now >= startAt.value + settings.readingTime + settings.answerTime
      modifies this`endedAt
      ensures Valid()
      ensures endedAt == if old(endedAt).Some? then old(endedAt) else Some(now)
    {
      if endedAt.None? {
        var _ := FinishRound(now);
      }
    }

    /** The first check `SubmitAnswer` fails, in the order the source makes them. */
    ghost function Rejection(player: Username, answerIndex: int, now: int): Option<RoundError>
      reads this
    {
      if !question.isAnswerValid(answerIndex) then Some(InvalidAnswer)
      else if player !in players then Some(NotInRound)
      else if startAt.None? then Some(NotStarted)
      else if now < startAt.value + settings.readingTime then Some(TooEarly)
      else if endedAt.Some? then Some(AfterEnd)
      else if player in answers then Some(AlreadyAnswered)
      else None
    }

    /**
     * `SubmitAnswer`: records the first answer of a player of a running
     * round once reading time is over; the round finishes as soon as every
     * player has answered.
     */
    method SubmitAnswer(player: Username, answerIndex: int, now: int) returns (err: Option<RoundError>)
      requires Valid()
      modifies this
      ensures Valid()
      ensures err == old(Rejection(player, answerIndex, now))
      ensures err.Some? ==> answers == old(answers) && endedAt == old(endedAt)
      ensures err.None? ==> answers == old(answers)[player := RoundAnswer(answerIndex, now)]
      ensures err.None? ==> (endedAt.Some? <==> answers.Keys == players)
      ensures err.None? && answers.Keys == players ==> endedAt == Some(now)
      ensures startAt == old(startAt) && players == old(players)
      ensures question == old(question) && settings == old(settings)
    {
      if !question.isAnswerValid(answerIndex) {
        return Some(InvalidAnswer);
      }
      if player !in players {
        return Some(NotInRound);
      }
      if startAt.None? {
        return Some(NotStarted);
      }
      if now < startAt.value + settings.readingTime {
        return Some(TooEarly);
      }
      if endedAt.Some? {
        return Some(AfterEnd);
      }
      if player in answers {
        return Some(AlreadyAnswered);
      }
      answers := answers[player := RoundAnswer(answerIndex, now)];
      AllAnsweredIffSameSize(answers.Keys, players);
      if |answers| == |players| {
        var _ := FinishRound(now);
      }
      return None;
    }

    /** Points a player of an ended round earns for their answer. */
    ghost function PointsFor(p: Username): int
      reads this
      requires Valid() && endedAt.Some?
    {
      if p in answers && question.isAnswerCorrect(answers[p].index) then
        var t := answers[p].submittedAt - (startAt.value + settings.readingTime);
        if t < FastAnswer then MaxPoints else SlowAnswerPoints(t, settings.answerTime)
      else 0
    }

    /**
     * `GetResults`: for an ended round, one entry per player: nothing for a
     * missing or wrong answer, full points for a right one within 500 ms.
     */
    method GetResults() returns (r: Result<map<Username, int>, RoundError>)
      requires Valid()
      ensures r.Err? <==> endedAt.None?
      ensures r.Err? ==> r.error == NotEnded
      ensures r.Ok? ==> r.value.Keys == players
      ensures r.Ok? ==> forall p :: p in players ==> r.value[p] == PointsFor(p)
      ensures r.Ok? ==> forall p :: p in players && (p !in answers || !question.isAnswerCorrect(answers[p].index)) ==> r.value[p] == 0
      ensures r.Ok? ==> forall p :: p in answers && question.isAnswerCorrect(answers[p].index)
                           && answers[p].submittedAt - (startAt.value + settings.readingTime) < FastAnswer
                           ==> r.value[p] == MaxPoints
    {
      if endedAt.None? {
        return Err(NotEnded);
      }
      var scores: map<Username, int> := map[];
      var rest := players;
      while rest != {}
        invariant rest <= players
        invariant scores.Keys == players - rest
        invariant forall p :: p in scores ==> scores[p] == PointsFor(p)
      {
        var username :| username in rest;
        var pointsAwarded := 0;
        if username in answers && question.isAnswerCorrect(answers[username].index) {
          var time2Answer := answers[username].submittedAt - (startAt.value + settings.readingTime);
          if time2Answer < FastAnswer {
            pointsAwarded := MaxPoints;
          } else {
            pointsAwarded := SlowAnswerPoints(time2Answer, settings.answerTime);
          }
        }
        scores := scores[username := pointsAwarded];
        rest := rest - {username};
      }
      return Ok(scores);
    }
  }

  /** A subset of the players has the players' size exactly when it is all of them. */
  lemma AllAnsweredIffSameSize(answered: set<Username>, players: set<Username>)
    requires answered <= players
    ensures |answered| == |players| <==> answered == players
  {
    if answered != players {
      var p :| p in players && p !in answered;
      assert answered <= players - {p};
      SubsetSize(answered, players - {p});
    }
  }

  lemma {:induction false} SubsetSize(a: set<Username>, b: set<Username>)
    requires a <= b
    ensures |a| <= |b|
    decreases b
  {
    if a != {} {
      var x :| x in a;
      SubsetSize(a - {x}, b - {x});
    }
  }
}
