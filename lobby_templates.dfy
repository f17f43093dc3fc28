/**
 * The lobby package's lobby states (`LobbyState`, a Go `int` counted
 * with `iota`) and the view each state is rendered with.
 */
module LobbyTemplates {
  /** The view templates of the lobby package, by name. */
  datatype Template =
    | ChooseUsernameView
    | WaitingRoomView
    | QuestionView
    | AnswerView
    | FinalResultsView

  type LobbyState = int

  const LsWaitingForPlayers: LobbyState := 0
  const LsQuestion: LobbyState := 1
  const LsAnswer: LobbyState := 2
  const LsFinalResults: LobbyState := 3

  /** The four declared states; `ViewName` panics on any other value. */
  predicate IsDeclared(state: LobbyState)
  {
    LsWaitingForPlayers <= state <= LsFinalResults
  }

  /**
   * `LobbyState.ViewName`: each declared state has its own view, and no
   * state is shown with the username form.
   */
  function ViewName(state: LobbyState): (v: Template)
    requires IsDeclared(state)
    ensures v == WaitingRoomView <==> state == LsWaitingForPlayers
    ensures v == QuestionView <==> state == LsQuestion
    ensures v == AnswerView <==> state == LsAnswer
    ensures v == FinalResultsView <==> state == LsFinalResults
    ensures v != ChooseUsernameView
  {
    if state == LsWaitingForPlayers then WaitingRoomView
    else if state == LsQuestion then QuestionView
    else if state == LsAnswer then AnswerView
    else FinalResultsView
  }

  /** Distinct declared states are shown with distinct views. */
  lemma ViewNameInjective(a: LobbyState, b: LobbyState)
    requires IsDeclared(a) && IsDeclared(b) && a != b
    ensures ViewName(a) != ViewName(b)
  {
  }
}
