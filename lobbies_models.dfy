/**
 * The lobbies package's game-backed `Lobby`: the view a client is shown
 * follows the state of the lobby's game.
 */
module LobbiesModels {
  import opened Wrappers
  import GameCommon
  import GameRound
  import GameGame
  import GoTime
  import LobbiesUser
  import opened LobbiesTemplates

  datatype LobbyOptions = LobbyOptions(settings: GameGame.GameSettings, pin: string)

  /**
   * `NewLobbyOptions`: the example math quiz, 5 s of reading time and
   * 30 s of answer time; the pin is left empty for the repository to fill.
   */
  function NewLobbyOptions(exampleQuizMath: GameCommon.Quiz): (o: LobbyOptions)
    ensures o.settings.quiz == exampleQuizMath
    ensures o.settings.roundSettings.readingTime == 5 * GoTime.Second
    ensures o.settings.roundSettings.answerTime == 30 * GoTime.Second
    ensures o.pin == ""
  {
    LobbyOptions(
      GameGame.GameSettings(exampleQuizMath, GameRound.RoundSettings(5 * GoTime.Second, 30 * GoTime.Second)),
      "")
  }

  class Lobby {
    var pin: string
    var host: Option<LobbiesUser.User>
    var users: map<LobbiesUser.ClientId, LobbiesUser.User>
    var game: GameGame.Game

    /** `createLobby`: the options' pin, no users yet and a fresh game that has not started. */
    constructor (options: LobbyOptions)
      ensures pin == options.pin && host.None? && users == map[]
      ensures fresh(game) && game.settings == options.settings
      ensures game.points == map[] && !game.HasStarted() && !game.HasEnded()
      ensures View() == WaitingRoomView
    {
      pin := options.pin;
      host := None;
      users := map[];
      game := new GameGame.Game(options.settings);
    }

    /**
     * `Lobby.View`: the waiting room before the game starts; then the
     * question while a round runs, even once the game has ended; then the
     * finish view once the game has ended, and the answer view before that.
     */
    function View(): (v: Template)
      reads this, game, game.round
      ensures !game.HasStarted() ==> v == WaitingRoomView
      ensures game.HasStarted() && game.InRound() ==> v == QuestionView
      ensures game.HasStarted() && !game.InRound() ==> (v == OnFinishView <==> game.HasEnded())
      ensures game.HasStarted() && !game.InRound() ==> (v == AnswerView <==> !game.HasEnded())
      ensures v != ChooseUsernameView
    {
      if !game.HasStarted() then WaitingRoomView
      else if game.InRound() then QuestionView
      else if game.HasEnded() then OnFinishView
      else AnswerView
    }
  }
}
