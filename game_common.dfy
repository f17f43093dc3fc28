/**
 * Shared vocabulary of the game package: usernames and their validation,
 * scores, and the two interfaces through which a game sees its quiz.
 */
module GameCommon {
  import opened Wrappers

  /** One byte of a Go string. */
  type Byte = b: int | 0 <= b < 256

  /** `Username` is a Go string: a sequence of bytes whose `len` counts bytes. */
  type Username = seq<Byte>

  const Space: Byte := 0x20
  const Tab: Byte := 0x09
  const MaxUsernameLength := 40

  /** The error messages `IsValid` can return. */
  datatype UsernameError =
    | EmptyUsername         // "username is empty"
    | UsernameTooLong       // "username is too long"
    | WhitespacesNotAllowed // "whitespaces not allowed"
    | TabsNotAllowed        // "tabs not allowed"
    | NoMessage             // errors.New("")

  /** The `(bool, error)` pair `IsValid` returns; the error is never nil. */
  datatype Verdict = Verdict(valid: bool, err: UsernameError)

  /**
   * `Username.IsValid`. The character loop returns on its first rune:
   * a rune other than a space yields "whitespaces not allowed", and a
   * space, being different from a tab, yields "tabs not allowed". The
   * first rune is a space exactly when the first byte is 0x20, because
   * no multi-byte or invalid UTF-8 sequence decodes to U+0020. So the
   * `return true` after the loop is never reached: no username is valid.
   */
  function IsValid(u: Username): (r: Verdict)
    ensures !r.valid
    ensures r.err == EmptyUsername <==> |u| == 0
    ensures r.err == UsernameTooLong <==> |u| > MaxUsernameLength
    ensures 0 < |u| <= MaxUsernameLength ==>
              r.err == (if u[0] == Space then TabsNotAllowed else WhitespacesNotAllowed)
  {
    if |u| == 0 then Verdict(false, EmptyUsername)
    else if |u| > MaxUsernameLength then Verdict(false, UsernameTooLong)
    else if u[0] != Space then Verdict(false, WhitespacesNotAllowed)
    else Verdict(false, TabsNotAllowed)
  }

  /** A player's points. */
  datatype Score = Score(points: int, player: Username)

  /** The `Question` interface: which answer indexes exist and which are right. */
  datatype Question = Question(isAnswerValid: int -> bool, isAnswerCorrect: int -> bool)

  /** The `Quiz` interface. `getQuestion` is `None` where the Go method returns an error. */
  datatype Quiz = Quiz(title: string, questionsCount: int, getQuestion: int -> Option<Question>)
}
