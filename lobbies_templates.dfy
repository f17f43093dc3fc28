/**
 * The lobbies package's lobby states and the view each one is rendered
 * with, plus the `decrement` helper its templates call.
 */
module LobbiesTemplates {
  /** The view templates of the lobbies package, by name. */
  datatype Template =
    | ChooseUsernameView
    | WaitingRoomView
    | QuestionView
    | AnswerView
    | OnFinishView

  /** `LobbyState` is a Go `int`; only three values are declared. */
  type LobbyState = int

  const LsWaitingForPlayers: LobbyState := 0
  const LsQuestion: LobbyState := 1
  const LsAnswer: LobbyState := 2

  predicate IsDeclared(state: LobbyState)
  {
    LsWaitingForPlayers <= state <= LsAnswer
  }

  /**
   * `LobbyState.View`: each declared state has its own view, and no state
   * is shown with the username or finish views. Any other value panics.
   */
  function View(state: LobbyState): (v: Template)
    requires IsDeclared(state)
    ensures v == WaitingRoomView <==> state == LsWaitingForPlayers
    ensures v == QuestionView <==> state == LsQuestion
    ensures v == AnswerView <==> state == LsAnswer
  {
    if state == LsWaitingForPlayers then WaitingRoomView
    else if state == LsQuestion then QuestionView
    else AnswerView
  }

  /** Distinct declared states are shown with distinct views. */
  lemma ViewInjective(a: LobbyState, b: LobbyState)
    requires IsDeclared(a) && IsDeclared(b) && a != b
    ensures View(a) != View(b)
  {
  }

  /** The `decrement` template function: the integer just below `i`. */
  function Decrement(i: int): (r: int)
    ensures r < i && r + 1 == i
  {
    i - 1
  }
}
