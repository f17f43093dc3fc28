/**
 * The quiz-update page script: it fills the form from the stored quiz,
 * adds and deletes question and answer blocks, switches an answer between
 * text, image and LaTeX, toggles an answer's correctness into a hidden
 * field, and shows or hides the delete buttons. The page is the state the
 * script changes in place; what the browser then submits is a list of
 * (name, value) pairs in document order, read by `QuizForm`.
 */
module QuizUpdateScript {
  import opened Wrappers
  import GameCommon
  import opened QuizForm

  // ------------------------------------------------ the embedded quiz data

  /** An answer as the embedded JSON carries it. */
  datatype AnswerData = AnswerData(text: string, latex: string, image: seq<GameCommon.Byte>, isCorrect: bool)

  datatype QuestionData = QuestionData(text: string, answers: seq<AnswerData>)

  datatype QuizData = QuizData(title: string, password: string, description: string, questions: seq<QuestionData>)

  // ------------------------------------------------------------- the page

  datatype InputKind = TextInput | FileInput | TextArea

  /** The `data-type` of an answer-kind button. */
  datatype AnswerKind = TextKind | ImageKind | LatexKind

  /**
   * An answer's input element: its kind, its name, the value the script
   * wrote into it, and the file the user chose (the script never chooses one).
   */
  datatype AnswerInput = AnswerInput(kind: InputKind, name: FieldName, value: string, chosen: Option<QuizForm.Upload>)

  datatype HiddenInput = HiddenInput(name: FieldName, value: string)

  /**
   * One `.answer-option` block: the input, the name its kind buttons point
   * at (`data-answer`), whether the correctness button reads "Correct", and
   * the hidden inputs appended beside that button.
   */
  datatype AnswerOption = AnswerOption(input: AnswerInput, dataAnswer: FieldName, correct: bool, hidden: seq<HiddenInput>)

  /**
   * One `.question-item` block. `number` is both the number in its label
   * "Question N" and the one in its `answers-container-N` class: the script
   * always writes the two together.
   */
  datatype QuestionItem = QuestionItem(
    number: int,
    questionName: FieldName,
    questionValue: string,
    answers: seq<AnswerOption>,
    deleteHidden: bool)

  /** "true" or "false": the text of a JavaScript boolean written into a field. */
  predicate IsBooleanText(v: string)
  {
    v == "true" || v == "false"
  }

  function BooleanText(b: bool): (v: string)
    ensures IsBooleanText(v)
    ensures v == "true" <==> b
  {
    if b then "true" else "false"
  }

  /**
   * The naming discipline the script keeps: question fields are
   * `question-…`, answer fields and their kind buttons `answer-…`, and the
   * hidden fields `correct-answer-…` holding "true" or "false".
   */
  ghost predicate OptionValid(o: AnswerOption)
  {
    && o.input.name.AnswerField?
    && o.dataAnswer.AnswerField?
    && forall h :: 0 <= h < |o.hidden| ==> o.hidden[h].name.CorrectField? && IsBooleanText(o.hidden[h].value)
  }

  ghost predicate ItemValid(it: QuestionItem)
  {
    it.questionName.QuestionField? && forall j :: 0 <= j < |it.answers| ==> OptionValid(it.answers[j])
  }

  ghost predicate ItemsValid(items: seq<QuestionItem>)
  {
    forall i :: 0 <= i < |items| ==> ItemValid(items[i])
  }

  // --------------------------------------------------------- HTML blocks

  /**
   * The value the HTML parser reads for an attribute written as
   * `value="${s}"` with `s` not escaped: the text up to the first double
   * quote, after which the rest of `s` is read as further attributes.
   */
  function QuotedAttribute(s: string): (r: string)
    ensures |r| <= |s| && r == s[..|r|]
    ensures '"' !in r
    ensures |r| < |s| ==> s[|r|] == '"'
  {
    if s == [] || s[0] == '"' then []
    else
      var r := [s[0]] + QuotedAttribute(s[1..]);
      assert r == s[..|r|];
      r
  }

  /**
   * The value a text input holds once the stored text is written into its
   * `value` attribute: cut at the first double quote, and with the line
   * breaks the browser's value sanitisation strips.
   */
  function HydratedText(s: string): (r: string)
    ensures '"' !in r && '\n' !in r && '\r' !in r
    ensures |r| <= |s|
  {
    StripNewlines(QuotedAttribute(s))
  }

  /** A text with no double quote and no line break survives the attribute unchanged. */
  lemma {:induction false} PlainTextSurvivesAttribute(s: string)
    requires '"' !in s && '\n' !in s && '\r' !in s
    ensures HydratedText(s) == s
  {
    QuotedAttributeOfPlain(s);
  }

  lemma {:induction false} QuotedAttributeOfPlain(s: string)
    requires '"' !in s
    ensures QuotedAttribute(s) == s
    decreases |s|
  {
    if s != [] {
      assert '"' !in s[1..] by {
        forall i | 0 <= i < |s[1..]|
          ensures s[1..][i] != '"'
        {
          assert s[1..][i] == s[i + 1];
        }
      }
      QuotedAttributeOfPlain(s[1..]);
    }
  }

  /** A stored text with a double quote in it loads cut short, for instance `Is "x" true` as `Is `. */
  lemma QuoteCutsText()
    ensures HydratedText("Is \"x\" true") == "Is "
  {
    assert QuotedAttribute("\"x\" true") == [];
    assert QuotedAttribute("Is \"x\" true") == "Is ";
    assert StripNewlines("") == "";
    assert StripNewlines("Is ") == "Is ";
  }

  /**
   * `getAnswerHTML(n, m, answer)`: an answer block named `answer-n-m`; a
   * stored answer with image bytes becomes a file input, any other a text
   * input holding its text, else its LaTeX, each written into the
   * unescaped `value` attribute; the button shows whether it is
   * correct. Without a stored answer the block is an empty, incorrect text input.
   */
  function AnswerHTML(n: int, m: int, answer: Option<AnswerData>): (o: AnswerOption)
    ensures OptionValid(o) && o.hidden == []
    ensures o.input.name == AnswerField(n, m) && o.dataAnswer == AnswerField(n, m)
    ensures o.correct <==> answer.Some? && answer.value.isCorrect
    ensures o.input.kind == FileInput <==> answer.Some? && answer.value.image != []
    ensures o.input.chosen == None
    ensures o.input.value == if answer.None? then ""
              else QuotedAttribute(if answer.value.text != "" then answer.value.text else answer.value.latex)
  {
    var kind := if answer.Some? && answer.value.image != [] then FileInput else TextInput;
    var value :=
      if answer.None? then ""
      else if answer.value.text != "" then QuotedAttribute(answer.value.text)
      else QuotedAttribute(answer.value.latex);
    AnswerOption(
      AnswerInput(kind, AnswerField(n, m), value, None),
      AnswerField(n, m),
      answer.Some? && answer.value.isCorrect,
      [])
  }

  /**
   * The question block `addQuestion(question, n)` inserts: label and
   * container number `n`, field `question-n` holding the stored text as
   * the unescaped `value` attribute and the text input leave it, and
   * the stored answers numbered `1, 2, …` in order.
   */
  function QuestionHTML(n: int, question: Option<QuestionData>): (it: QuestionItem)
    ensures ItemValid(it) && !it.deleteHidden
    ensures it.number == n && it.questionName == QuestionField(n)
    ensures it.questionValue == if question.Some? then HydratedText(question.value.text) else ""
    ensures question.None? ==> it.answers == []
    ensures question.Some? ==> |it.answers| == |question.value.answers|
    ensures question.Some? ==> forall j :: 0 <= j < |it.answers| ==>
              it.answers[j] == AnswerHTML(n, j + 1, Some(question.value.answers[j]))
  {
    var answers := if question.None? then [] else AnswersHTML(n, question.value.answers);
    QuestionItem(n, QuestionField(n), if question.Some? then HydratedText(question.value.text) else "", answers, false)
  }

  /** `question.Answers.map(...)`: answer `j` of the list becomes the block `getAnswerHTML(n, j + 1, answer)`. */
  function AnswersHTML(n: int, answers: seq<AnswerData>): (os: seq<AnswerOption>)
    ensures |os| == |answers|
    ensures forall j :: 0 <= j < |os| ==> os[j] == AnswerHTML(n, j + 1, Some(answers[j])) && OptionValid(os[j])
  {
    seq(|answers|, j requires 0 <= j < |answers| => AnswerHTML(n, j + 1, Some(answers[j])))
  }

  // ----------------------------------------------- page transformations

  /**
   * `toggleDeleteButtons`: with exactly one question its delete button is
   * hidden, otherwise every delete button is shown.
   */
  function ToggledDelete(items: seq<QuestionItem>): (r: seq<QuestionItem>)
    ensures |r| == |items|
    ensures |items| == 1 ==> r[0] == items[0].(deleteHidden := true)
    ensures |items| != 1 ==> forall i :: 0 <= i < |r| ==> r[i] == items[i].(deleteHidden := false)
  {
    if |items| == 1 then [items[0].(deleteHidden := true)]
    else seq(|items|, i requires 0 <= i < |items| => items[i].(deleteHidden := false))
  }

  /** `toggleDeleteButtons` overwrites every flag it looks at, so earlier flags do not matter. */
  lemma ToggledDeleteIgnoresFlags(s: seq<QuestionItem>, t: seq<QuestionItem>)
    requires |s| == |t|
    requires forall i :: 0 <= i < |s| ==> s[i].(deleteHidden := false) == t[i].(deleteHidden := false)
    ensures ToggledDelete(s) == ToggledDelete(t)
  {
    if |s| == 1 {
      assert s[0].(deleteHidden := true) == s[0].(deleteHidden := false).(deleteHidden := true);
      assert t[0].(deleteHidden := true) == t[0].(deleteHidden := false).(deleteHidden := true);
    }
  }

  /** `input.name.replace(/-\d+/, '-' + n)`: the first index in a name becomes `n`. */
  function RenumberName(name: FieldName, n: int): (r: FieldName)
  {
    match name
    case QuestionField(_) => QuestionField(n)
    case AnswerField(_, a) => AnswerField(n, a)
    case CorrectField(_, a) => CorrectField(n, a)
    case CorrectRadio(_) => CorrectRadio(n)
    case Named(s) => Named(s)
  }

  /** Renumbering touches the inputs of a block, not its kind buttons. */
  function RenumberOption(o: AnswerOption, n: int): (r: AnswerOption)
  {
    o.(input := o.input.(name := RenumberName(o.input.name, n)),
       hidden := seq(|o.hidden|, h requires 0 <= h < |o.hidden| => o.hidden[h].(name := RenumberName(o.hidden[h].name, n))))
  }

  function RenumberItem(it: QuestionItem, n: int): (r: QuestionItem)
  {
    it.(number := n,
        questionName := RenumberName(it.questionName, n),
        answers := seq(|it.answers|, j requires 0 <= j < |it.answers| => RenumberOption(it.answers[j], n)))
  }

  /** The blocks after `updateQuestionNumbers`: block `i` carries number `i + 1`. */
  function Renumbered(items: seq<QuestionItem>): (r: seq<QuestionItem>)
    ensures |r| == |items|
  {
    seq(|items|, i requires 0 <= i < |items| => RenumberItem(items[i], i + 1))
  }

  lemma RenumberedValid(items: seq<QuestionItem>)
    requires ItemsValid(items)
    ensures ItemsValid(Renumbered(items))
    ensures Numbered(Renumbered(items))
  {
    forall i | 0 <= i < |items|
      ensures ItemValid(Renumbered(items)[i])
    {
      var it := items[i];
      assert ItemValid(it);
      forall j | 0 <= j < |it.answers|
        ensures OptionValid(RenumberOption(it.answers[j], i + 1))
      {
        assert OptionValid(it.answers[j]);
      }
    }
  }

  /** Question blocks numbered `1, 2, …` in document order, as hydration and renumbering leave them. */
  ghost predicate Numbered(items: seq<QuestionItem>)
  {
    forall i :: 0 <= i < |items| ==> items[i].number == i + 1 && items[i].questionName == QuestionField(i + 1)
  }

  /** The block sequence without block `k`. */
  function Removed<T>(s: seq<T>, k: nat): (r: seq<T>)
    requires k < |s|
    ensures |r| == |s| - 1
    ensures forall i :: 0 <= i < k ==> r[i] == s[i]
    ensures forall i :: k <= i < |r| ==> r[i] == s[i + 1]
  {
    s[..k] + s[k + 1..]
  }

  /** The index of the first hidden input named `x`, if any. */
  function FirstHidden(hs: seq<HiddenInput>, x: FieldName): (r: Option<nat>)
    ensures r.Some? ==> r.value < |hs| && hs[r.value].name == x && forall h :: 0 <= h < r.value ==> hs[h].name != x
    ensures r.None? ==> forall h :: 0 <= h < |hs| ==> hs[h].name != x
  {
    if hs == [] then None
    else if hs[0].name == x then Some(0)
    else match FirstHidden(hs[1..], x)
      case None => None
      case Some(h) => Some(h + 1)
  }

  /** The hidden inputs without the first one named `x`. */
  function WithoutFirst(hs: seq<HiddenInput>, x: FieldName): (r: seq<HiddenInput>)
  {
    match FirstHidden(hs, x)
    case Some(h) => hs[..h] + hs[h + 1..]
    case None => hs
  }

  /**
   * `toggleCorrectAnswer` on one answer block: the button text flips, and
   * the hidden field `x` (found beside the button, or created) is moved to
   * the end holding "true" exactly when the button now reads "Correct".
   */
  function ToggleOption(o: AnswerOption, x: FieldName): (r: AnswerOption)
  {
    o.(correct := !o.correct, hidden := WithoutFirst(o.hidden, x) + [HiddenInput(x, BooleanText(!o.correct))])
  }

  /** No two hidden inputs of a block share a name. */
  ghost predicate DistinctNames(hs: seq<HiddenInput>)
  {
    forall h, g :: 0 <= h < g < |hs| ==> hs[h].name != hs[g].name
  }

  /** Removing the one field named `x` from distinct fields leaves distinct fields, none named `x`. */
  lemma WithoutFirstSpec(hs: seq<HiddenInput>, x: FieldName)
    requires DistinctNames(hs)
    ensures DistinctNames(WithoutFirst(hs, x))
    ensures forall h :: 0 <= h < |WithoutFirst(hs, x)| ==> WithoutFirst(hs, x)[h].name != x && WithoutFirst(hs, x)[h] in hs
  {
    match FirstHidden(hs, x)
    case None =>
    case Some(k) =>
      var kept := hs[..k] + hs[k + 1..];
      forall h | 0 <= h < |kept|
        ensures kept[h] == if h < k then hs[h] else hs[h + 1]
      {
      }
  }

  /**
   * Toggling flips the button and keeps one hidden field per name, the
   * field `x` last and holding the new state; toggling twice restores the
   * button text.
   */
  lemma ToggleOptionSpec(o: AnswerOption, x: FieldName)
    requires DistinctNames(o.hidden)
    ensures ToggleOption(ToggleOption(o, x), x).correct == o.correct
    ensures DistinctNames(ToggleOption(o, x).hidden)
    ensures var hs := ToggleOption(o, x).hidden;
            hs[|hs| - 1] == HiddenInput(x, BooleanText(!o.correct))
            && forall h :: 0 <= h < |hs| - 1 ==> hs[h].name != x && hs[h] in o.hidden
  {
    WithoutFirstSpec(o.hidden, x);
  }

  /** Toggling keeps the naming discipline. */
  lemma ToggleOptionValid(o: AnswerOption, x: FieldName)
    requires OptionValid(o) && x.CorrectField?
    ensures OptionValid(ToggleOption(o, x))
  {
    var kept := WithoutFirst(o.hidden, x);
    forall h | 0 <= h < |kept|
      ensures kept[h] in o.hidden
    {
      match FirstHidden(o.hidden, x)
      case None =>
      case Some(k) =>
        assert kept[h] == if h < k then o.hidden[h] else o.hidden[h + 1];
    }
  }

  /** The first answer input, in document order, named `x`, as block and option index. */
  function FindAnswerInput(items: seq<QuestionItem>, x: FieldName, from: nat): (r: Option<(nat, nat)>)
    requires from <= |items|
    ensures r.Some? ==> from <= r.value.0 < |items| && r.value.1 < |items[r.value.0].answers|
                        && items[r.value.0].answers[r.value.1].input.name == x
                        && (forall i, j :: from <= i < r.value.0 && 0 <= j < |items[i].answers| ==> items[i].answers[j].input.name != x)
                        && (forall j :: 0 <= j < r.value.1 ==> items[r.value.0].answers[j].input.name != x)
    ensures r.None? ==> forall i, j :: from <= i < |items| && 0 <= j < |items[i].answers| ==> items[i].answers[j].input.name != x
    decreases |items| - from
  {
    if from == |items| then None
    else match FirstAnswerNamed(items[from].answers, x)
      case Some(j) => Some((from, j))
      case None => FindAnswerInput(items, x, from + 1)
  }

  function FirstAnswerNamed(os: seq<AnswerOption>, x: FieldName): (r: Option<nat>)
    ensures r.Some? ==> r.value < |os| && os[r.value].input.name == x && forall j :: 0 <= j < r.value ==> os[j].input.name != x
    ensures r.None? ==> forall j :: 0 <= j < |os| ==> os[j].input.name != x
  {
    if os == [] then None
    else if os[0].input.name == x then Some(0)
    else match FirstAnswerNamed(os[1..], x)
      case None => None
      case Some(j) => Some(j + 1)
  }

  /** The input `handleAnswerTypeChange` puts in place: same name, no value, no file. */
  function SwitchedInput(name: FieldName, kind: AnswerKind): (input: AnswerInput)
    ensures input.name == name && input.value == "" && input.chosen == None
    ensures input.kind == match kind case TextKind => TextInput case ImageKind => FileInput case LatexKind => TextArea
  {
    match kind
    case TextKind => AnswerInput(TextInput, name, "", None)
    case ImageKind => AnswerInput(FileInput, name, "", None)
    case LatexKind => AnswerInput(TextArea, name, "", None)
  }

  /** Option `j` of block `i` with `o` in its place. */
  function SetOption(items: seq<QuestionItem>, i: nat, j: nat, o: AnswerOption): (r: seq<QuestionItem>)
    requires i < |items| && j < |items[i].answers|
  {
    items[i := items[i].(answers := items[i].answers[j := o])]
  }

  // --------------------------------------------------- what is submitted

  /** A text input's value has its line breaks stripped; other values are kept. */
  function StripNewlines(s: string): (r: string)
    ensures '\n' !in r && '\r' !in r
    ensures '\n' !in s && '\r' !in s ==> r == s
    ensures |r| <= |s|
    ensures forall c :: c in r ==> c in s
  {
    if s == [] then []
    else (if s[0] == '\n' || s[0] == '\r' then [] else [s[0]]) + StripNewlines(s[1..])
  }

  /** The text pairs an answer input submits; a file input with no file chosen submits an empty value. */
  function InputPairs(input: AnswerInput): seq<(FieldName, string)>
  {
    match input.kind
    case TextInput => [(input.name, StripNewlines(input.value))]
    case TextArea => [(input.name, input.value)]
    case FileInput => if input.chosen.None? then [(input.name, "")] else []
  }

  function HiddenPairs(hs: seq<HiddenInput>): seq<(FieldName, string)>
  {
    if hs == [] then [] else [(hs[0].name, hs[0].value)] + HiddenPairs(hs[1..])
  }

  function OptionsPairs(os: seq<AnswerOption>): seq<(FieldName, string)>
  {
    if os == [] then [] else InputPairs(os[0].input) + HiddenPairs(os[0].hidden) + OptionsPairs(os[1..])
  }

  function ItemsPairs(items: seq<QuestionItem>): seq<(FieldName, string)>
  {
    if items == [] then []
    else [(items[0].questionName, items[0].questionValue)] + OptionsPairs(items[0].answers) + ItemsPairs(items[1..])
  }

  function OptionsFiles(os: seq<AnswerOption>): seq<(FieldName, QuizForm.Upload)>
  {
    if os == [] then []
    else (if os[0].input.kind == FileInput && os[0].input.chosen.Some? then [(os[0].input.name, os[0].input.chosen.value)] else [])
         + OptionsFiles(os[1..])
  }

  function ItemsFiles(items: seq<QuestionItem>): seq<(FieldName, QuizForm.Upload)>
  {
    if items == [] then [] else OptionsFiles(items[0].answers) + ItemsFiles(items[1..])
  }

  /** The text pairs the page submits: the quiz fields, then the blocks in document order. */
  function SubmittedPairs(title: string, password: string, description: string, items: seq<QuestionItem>): seq<(FieldName, string)>
  {
    [(QuizForm.TitleName, title), (QuizForm.PasswordName, password), (QuizForm.DescriptionName, description)] + ItemsPairs(items)
  }

  /** The request the server reads when the page is submitted for quiz `qid`. */
  function SubmittedRequest(qid: string, title: string, password: string, description: string, items: seq<QuestionItem>): QuizForm.Request
  {
    QuizForm.RequestOf(qid, SubmittedPairs(title, password, description, items), ItemsFiles(items))
  }

  /**
   * A `required` answer input passes the browser's constraint validation:
   * a text input needs a value (line breaks stripped), a text area a
   * value, a file input a chosen file.
   */
  predicate InputFilled(input: AnswerInput)
  {
    match input.kind
    case TextInput => StripNewlines(input.value) != ""
    case TextArea => input.value != ""
    case FileInput => input.chosen.Some?
  }

  /**
   * The browser submits the page only when every `required` field passes:
   * each question field and each answer input carries `required`
   * (quiz-update.js 26, 48, 121-127); the hidden correctness inputs do not.
   */
  predicate Submittable(items: seq<QuestionItem>)
  {
    forall i :: 0 <= i < |items| ==> items[i].questionValue != "" && OptionsFilled(items[i].answers)
  }

  predicate OptionsFilled(os: seq<AnswerOption>)
  {
    forall j :: 0 <= j < |os| ==> InputFilled(os[j].input)
  }

  // ---------------------------------------------- facts about submission

  /** Every pair an answer block submits is an answer field or a "true"/"false" correctness field. */
  lemma {:induction false} OptionsPairsShape(os: seq<AnswerOption>)
    requires forall j :: 0 <= j < |os| ==> OptionValid(os[j])
    ensures forall p :: p in OptionsPairs(os) ==> p.0.AnswerField? || (p.0.CorrectField? && IsBooleanText(p.1))
  {
    if os != [] {
      assert OptionValid(os[0]);
      HiddenPairsShape(os[0].hidden);
      OptionsPairsShape(os[1..]);
    }
  }

  lemma {:induction false} HiddenPairsShape(hs: seq<HiddenInput>)
    requires forall h :: 0 <= h < |hs| ==> hs[h].name.CorrectField? && IsBooleanText(hs[h].value)
    ensures forall p :: p in HiddenPairs(hs) ==> p.0.CorrectField? && IsBooleanText(p.1)
  {
    if hs != [] {
      HiddenPairsShape(hs[1..]);
    }
  }

  /**
   * The question pairs a page submits are exactly its question fields;
   * every other pair is an answer field or a "true"/"false" correctness field.
   */
  lemma {:induction false} ItemsPairsShape(items: seq<QuestionItem>)
    requires ItemsValid(items)
    ensures forall p :: p in ItemsPairs(items) && p.0.QuestionField? ==>
              exists i :: 0 <= i < |items| && p == (items[i].questionName, items[i].questionValue)
    ensures forall i :: 0 <= i < |items| ==> (items[i].questionName, items[i].questionValue) in ItemsPairs(items)
    ensures forall p :: p in ItemsPairs(items) ==>
              p.0.QuestionField? || p.0.AnswerField? || (p.0.CorrectField? && IsBooleanText(p.1))
  {
    if items != [] {
      assert ItemValid(items[0]);
      OptionsPairsShape(items[0].answers);
      ItemsPairsShape(items[1..]);
      var rest := items[1..];
      forall p | p in ItemsPairs(items) && p.0.QuestionField?
        ensures exists i :: 0 <= i < |items| && p == (items[i].questionName, items[i].questionValue)
      {
        if p != (items[0].questionName, items[0].questionValue) {
          assert p in ItemsPairs(rest);
          var i :| 0 <= i < |rest| && p == (rest[i].questionName, rest[i].questionValue);
          assert items[i + 1] == rest[i];
        }
      }
      forall i | 1 <= i < |items|
        ensures (items[i].questionName, items[i].questionValue) in ItemsPairs(items)
      {
        assert items[i] == rest[i - 1];
      }
    }
  }

  /**
   * Whatever the user toggles, the server never reads an answer of this
   * page as correct: the hidden fields hold "true"/"false" and the server
   * only accepts "Correct".
   */
  lemma SubmittedAnswersNeverCorrect(qid: string, title: string, password: string, description: string, items: seq<QuestionItem>)
    requires ItemsValid(items)
    ensures forall q :: q in QuizForm.QuestionsFrom(SubmittedRequest(qid, title, password, description, items), 1) ==>
              forall a :: a in q.answers ==> !a.isCorrect
  {
    ItemsPairsShape(items);
    var values := [(QuizForm.TitleName, title), (QuizForm.PasswordName, password), (QuizForm.DescriptionName, description)] + ItemsPairs(items);
    QuizForm.NoCorrectFromPairs(qid, values, ItemsFiles(items));
  }

  /** The question pairs of a submitted page are its blocks' question fields, all filled in. */
  lemma SubmittedQuestionPairs(title: string, password: string, description: string, items: seq<QuestionItem>)
    requires ItemsValid(items)
    requires forall i :: 0 <= i < |items| ==> items[i].questionValue != ""
    ensures forall p :: p in SubmittedPairs(title, password, description, items) && p.0.QuestionField? ==>
              p.1 != "" && exists i :: 0 <= i < |items| && p == (items[i].questionName, items[i].questionValue)
    ensures forall i :: 0 <= i < |items| ==>
              (items[i].questionName, items[i].questionValue) in SubmittedPairs(title, password, description, items)
  {
    ItemsPairsShape(items);
    var values := SubmittedPairs(title, password, description, items);
    forall p | p in values && p.0.QuestionField?
      ensures p in ItemsPairs(items)
    {
    }
  }

  /** Question `n` is read from a submitted page exactly when some block is named `question-n`. */
  lemma SubmittedQuestionPresence(qid: string, title: string, password: string, description: string, items: seq<QuestionItem>, n: int)
    requires ItemsValid(items)
    requires forall i :: 0 <= i < |items| ==> items[i].questionValue != ""
    ensures QuizForm.HasQuestion(SubmittedRequest(qid, title, password, description, items), n) <==>
            exists i :: 0 <= i < |items| && items[i].questionName == QuestionField(n)
  {
    var values := SubmittedPairs(title, password, description, items);
    SubmittedQuestionPairs(title, password, description, items);
    QuizForm.QuestionPresence(qid, values, ItemsFiles(items), n);
    if exists i :: 0 <= i < |items| && items[i].questionName == QuestionField(n) {
      var i :| 0 <= i < |items| && items[i].questionName == QuestionField(n);
      assert (QuestionField(n), items[i].questionValue) in values;
    }
    if exists v :: (QuestionField(n), v) in values {
      var v :| (QuestionField(n), v) in values;
      var i :| 0 <= i < |items| && (QuestionField(n), v) == (items[i].questionName, items[i].questionValue);
    }
  }

  /**
   * A page numbered `1..m` (as hydration and `updateQuestionNumbers` leave
   * it) with every question filled in is read back as exactly its `m`
   * questions, in order, with their texts.
   */
  lemma NumberedPageReadsAll(qid: string, title: string, password: string, description: string, items: seq<QuestionItem>)
    requires ItemsValid(items) && Numbered(items)
    requires forall i :: 0 <= i < |items| ==> items[i].questionValue != ""
    ensures var qs := QuizForm.QuestionsFrom(SubmittedRequest(qid, title, password, description, items), 1);
            |qs| == |items| && forall i :: 0 <= i < |items| ==> qs[i].text == items[i].questionValue
  {
    var r := SubmittedRequest(qid, title, password, description, items);
    forall n | 1 <= n <= |items| + 1
      ensures QuizForm.HasQuestion(r, n) <==> n <= |items|
      ensures n <= |items| ==> QuizForm.FormValue(r, QuestionField(n)) == items[n - 1].questionValue
    {
      SubmittedQuestionPresence(qid, title, password, description, items, n);
      if n <= |items| {
        NumberedQuestionValue(qid, title, password, description, items, n);
      }
    }
    QuizForm.QuestionCount(r, |items|);
    QuizForm.ParsedQuestionsArePrefix(r);
  }

  /** On a numbered page, `question-n` reads as the text of block `n`. */
  lemma NumberedQuestionValue(qid: string, title: string, password: string, description: string, items: seq<QuestionItem>, n: int)
    requires ItemsValid(items) && Numbered(items)
    requires forall i :: 0 <= i < |items| ==> items[i].questionValue != ""
    requires 1 <= n <= |items|
    ensures QuizForm.FormValue(SubmittedRequest(qid, title, password, description, items), QuestionField(n)) == items[n - 1].questionValue
  {
    var values := SubmittedPairs(title, password, description, items);
    var v := items[n - 1].questionValue;
    SubmittedQuestionPairs(title, password, description, items);
    assert (QuestionField(n), v) in values by {
      assert items[n - 1].questionName == QuestionField(n);
    }
    forall w | (QuestionField(n), w) in values
      ensures w == v
    {
      var i :| 0 <= i < |items| && (QuestionField(n), w) == (items[i].questionName, items[i].questionValue);
      assert items[i].questionName == QuestionField(i + 1);
    }
    QuizForm.QuestionPresence(qid, values, ItemsFiles(items), n);
  }

  /**
   * Deleting block `k` of a page numbered `1..m` without renumbering leaves
   * a gap at `question-(k+1)`: the server reads only the `k` questions
   * before it and drops every later one.
   */
  lemma DeleteWithoutRenumberingTruncates(qid: string, title: string, password: string, description: string, items: seq<QuestionItem>, k: nat)
    requires ItemsValid(items) && Numbered(items) && k < |items|
    requires forall i :: 0 <= i < |items| ==> items[i].questionValue != ""
    ensures |QuizForm.QuestionsFrom(SubmittedRequest(qid, title, password, description, ToggledDelete(Removed(items, k))), 1)| == k
  {
    var rest := ToggledDelete(Removed(items, k));
    var r := SubmittedRequest(qid, title, password, description, rest);
    assert ItemsValid(rest) by {
      forall i | 0 <= i < |rest|
        ensures ItemValid(rest[i])
      {
        var src := if i < k then i else i + 1;
        assert ItemValid(items[src]);
        assert rest[i].questionName == items[src].questionName && rest[i].answers == items[src].answers;
      }
    }
    forall n | 1 <= n <= k + 1
      ensures QuizForm.HasQuestion(r, n) <==> n <= k
    {
      SubmittedQuestionPresence(qid, title, password, description, rest, n);
      if n <= k {
        assert rest[n - 1].questionName == QuestionField(n);
      }
    }
    QuizForm.QuestionCount(r, k);
  }

  /** The first `n` stored questions as the blocks hydration adds, numbered `1..n`. */
  function Hydrated(data: QuizData, n: nat): (items: seq<QuestionItem>)
    requires n <= |data.questions|
    ensures |items| == n && Numbered(items)
    ensures forall i :: 0 <= i < n ==> items[i] == QuestionHTML(i + 1, Some(data.questions[i]))
  {
    seq(n, i requires 0 <= i < n => QuestionHTML(i + 1, Some(data.questions[i])))
  }

  /** One more hydrated question: the page toggled after appending it is the toggled longer prefix. */
  lemma HydratedStep(data: QuizData, n: nat, before: seq<QuestionItem>)
    requires n < |data.questions|
    requires before == ToggledDelete(Hydrated(data, n))
    ensures ToggledDelete(before + [QuestionHTML(n + 1, Some(data.questions[n]))]) == ToggledDelete(Hydrated(data, n + 1))
  {
    var s := before + [QuestionHTML(n + 1, Some(data.questions[n]))];
    var h := Hydrated(data, n);
    var t := Hydrated(data, n + 1);
    forall i | 0 <= i < |s|
      ensures s[i].(deleteHidden := false) == t[i].(deleteHidden := false)
    {
      if i < n {
        assert s[i] == before[i];
        assert h[i] == t[i];
        if n == 1 {
          assert before[i] == h[i].(deleteHidden := true);
        } else {
          assert before[i] == h[i].(deleteHidden := false);
        }
      }
    }
    ToggledDeleteIgnoresFlags(s, t);
  }

  /** A stored answer loads into a filled-in input: no image (a file input starts with no file) and a value left after the attribute and the text input. */
  predicate AnswerLoadsFilled(a: AnswerData)
  {
    a.image == [] && HydratedText(if a.text != "" then a.text else a.latex) != ""
  }

  /** A stored question loads filled in: its text and every one of its answers. */
  predicate QuestionLoadsFilled(q: QuestionData)
  {
    HydratedText(q.text) != "" && forall j :: 0 <= j < |q.answers| ==> AnswerLoadsFilled(q.answers[j])
  }

  /** The block of a stored question passes validation exactly when the question loads filled in. */
  lemma QuestionHTMLFilled(n: int, q: QuestionData)
    ensures var it := QuestionHTML(n, Some(q));
      (it.questionValue != "" && OptionsFilled(it.answers)) <==> QuestionLoadsFilled(q)
  {
    var it := QuestionHTML(n, Some(q));
    forall j | 0 <= j < |q.answers|
      ensures InputFilled(it.answers[j].input) <==> AnswerLoadsFilled(q.answers[j])
    {
      assert it.answers[j] == AnswerHTML(n, j + 1, Some(q.answers[j]));
    }
  }

  /**
   * The page as hydration leaves it can be submitted exactly when every
   * stored question loads with some text and every stored answer loads
   * filled in.
   */
  lemma HydratedSubmittable(data: QuizData)
    ensures Submittable(ToggledDelete(Hydrated(data, |data.questions|))) <==>
            forall i :: 0 <= i < |data.questions| ==> QuestionLoadsFilled(data.questions[i])
  {
    var items := ToggledDelete(Hydrated(data, |data.questions|));
    forall i | 0 <= i < |items|
      ensures (items[i].questionValue != "" && OptionsFilled(items[i].answers)) <==> QuestionLoadsFilled(data.questions[i])
    {
      HydratedItemFilled(data, i);
    }
  }

  /** Block `i` of the hydrated page passes validation exactly when stored question `i` loads filled in. */
  lemma HydratedItemFilled(data: QuizData, i: nat)
    requires i < |data.questions|
    ensures var it := ToggledDelete(Hydrated(data, |data.questions|))[i];
      (it.questionValue != "" && OptionsFilled(it.answers)) <==> QuestionLoadsFilled(data.questions[i])
  {
    var it := ToggledDelete(Hydrated(data, |data.questions|))[i];
    var h := QuestionHTML(i + 1, Some(data.questions[i]));
    assert it.questionValue == h.questionValue && it.answers == h.answers;
    QuestionHTMLFilled(i + 1, data.questions[i]);
  }

  /** A stored image answer loads as a `required` file input with no file, so the untouched page cannot be submitted. */
  lemma StoredImageBlocksSubmission(data: QuizData, i: nat, j: nat)
    requires i < |data.questions| && j < |data.questions[i].answers|
    requires data.questions[i].answers[j].image != []
    ensures !Submittable(ToggledDelete(Hydrated(data, |data.questions|)))
  {
    var items := ToggledDelete(Hydrated(data, |data.questions|));
    assert items[i].answers == Hydrated(data, |data.questions|)[i].answers;
    assert items[i].answers[j].input.kind == FileInput && items[i].answers[j].input.chosen == None;
  }

  /**
   * Submitting the page as hydration leaves it, when the browser lets it
   * be submitted, gives the server back the stored questions, in order,
   * each with its text as the `value` attribute left it (the stored text
   * itself for a text with no double quote and no line break).
   */
  lemma HydratedPageReadsStoredQuestions(qid: string, data: QuizData)
    requires Submittable(ToggledDelete(Hydrated(data, |data.questions|)))
    ensures var qs := QuizForm.QuestionsFrom(
              SubmittedRequest(qid, data.title, data.password, data.description, ToggledDelete(Hydrated(data, |data.questions|))), 1);
            |qs| == |data.questions| && forall i :: 0 <= i < |qs| ==> qs[i].text == HydratedText(data.questions[i].text)
  {
    var items := ToggledDelete(Hydrated(data, |data.questions|));
    assert ItemsValid(items) && Numbered(items) by {
      forall i | 0 <= i < |items|
        ensures ItemValid(items[i]) && items[i].number == i + 1 && items[i].questionName == QuestionField(i + 1)
      {
        assert ItemValid(Hydrated(data, |data.questions|)[i]);
      }
    }
    NumberedPageReadsAll(qid, data.title, data.password, data.description, items);
  }

  // ------------------------------------------------------------- the page

  class QuizUpdatePage {
    var title: string
    var password: string
    var description: string
    var items: seq<QuestionItem>

    ghost predicate Valid()
      reads this
    {
      ItemsValid(items)
    }

    /**
     * The `DOMContentLoaded` handler: the title, password and description
     * fields take the stored values and the stored questions are added in
     * order as questions `1..n`.
     */
    constructor Hydrate(data: QuizData)
      ensures Valid()
      ensures title == data.title && password == data.password && description == data.description
      ensures items == ToggledDelete(Hydrated(data, |data.questions|))
      ensures Numbered(items) && |items| == |data.questions|
      ensures forall i :: 0 <= i < |items| ==>
                items[i].questionValue == HydratedText(data.questions[i].text)
                && items[i].answers == QuestionHTML(i + 1, Some(data.questions[i])).answers
    {
      title := data.title;
      password := data.password;
      description := data.description;
      items := [];
      new;
      var index := 0;
      while index < |data.questions|
        invariant 0 <= index <= |data.questions|
        invariant items == ToggledDelete(Hydrated(data, index))
        invariant Valid()
        invariant title == data.title && password == data.password && description == data.description
      {
        ghost var before := items;
        AddQuestion(Some(data.questions[index]), index + 1);
        HydratedStep(data, index, before);
        index := index + 1;
      }
      ghost var before := items;
      ToggleDeleteButtons();
      ToggledDeleteIgnoresFlags(before, Hydrated(data, |data.questions|));
    }

    /** `addQuestion(question, n)`: append block `n`, then re-toggle the delete buttons. */
    method AddQuestion(question: Option<QuestionData>, n: int)
      modifies this
      requires Valid()
      ensures Valid()
      ensures items == ToggledDelete(old(items) + [QuestionHTML(n, question)])
      ensures title == old(title) && password == old(password) && description == old(description)
    {
      items := items + [QuestionHTML(n, question)];
      ToggleDeleteButtons();
    }

    /** The add-question button: the new block is numbered one past the current count. */
    method AddQuestionClicked()
      modifies this
      requires Valid()
      ensures Valid()
      ensures items == ToggledDelete(old(items) + [QuestionHTML(|old(items)| + 1, None)])
      ensures title == old(title) && password == old(password) && description == old(description)
    {
      AddQuestion(None, |items| + 1);
    }

    /** A delete-question button: its block goes, the others keep their numbers. */
    method DeleteQuestion(k: nat)
      modifies this
      requires Valid() && k < |items|
      ensures Valid()
      ensures items == ToggledDelete(Removed(old(items), k))
      ensures title == old(title) && password == old(password) && description == old(description)
    {
      items := Removed(items, k);
      ToggleDeleteButtons();
    }

    method ToggleDeleteButtons()
      modifies this
      requires Valid()
      ensures Valid()
      ensures items == ToggledDelete(old(items))
      ensures title == old(title) && password == old(password) && description == old(description)
    {
      if |items| == 1 {
        items := [items[0].(deleteHidden := true)];
      } else {
        var i := 0;
        var shown: seq<QuestionItem> := [];
        while i < |items|
          invariant 0 <= i <= |items|
          invariant |shown| == i
          invariant forall j :: 0 <= j < i ==> shown[j] == items[j].(deleteHidden := false)
        {
          shown := shown + [items[i].(deleteHidden := false)];
          i := i + 1;
        }
        items := shown;
      }
    }

    /**
     * `updateQuestionNumbers`: block `i` takes number `i + 1` in its label,
     * its container and the first index of every field name inside it.
     */
    method UpdateQuestionNumbers()
      modifies this
      requires Valid()
      ensures Valid() && Numbered(items)
      ensures items == Renumbered(old(items))
      ensures title == old(title) && password == old(password) && description == old(description)
    {
      RenumberedValid(items);
      var i := 0;
      while i < |items|
        invariant 0 <= i <= |items| && |items| == |old(items)|
        invariant forall j :: 0 <= j < i ==> items[j] == RenumberItem(old(items)[j], j + 1)
        invariant forall j :: i <= j < |items| ==> items[j] == old(items)[j]
        invariant title == old(title) && password == old(password) && description == old(description)
      {
        items := items[i := RenumberItem(items[i], i + 1)];
        i := i + 1;
      }
    }

    /**
     * An add-answer button: the answer is numbered one past the block's
     * current answer count, under the number read from the block's label.
     */
    method AddAnswerClicked(k: nat)
      modifies this
      requires Valid() && k < |items|
      ensures Valid()
      ensures items == old(items)[k := old(items)[k].(answers := old(items)[k].answers
                 + [AnswerHTML(old(items)[k].number, |old(items)[k].answers| + 1, None)])]
      ensures title == old(title) && password == old(password) && description == old(description)
    {
      var item := items[k];
      var answerCount := |item.answers| + 1;
      items := items[k := item.(answers := item.answers + [AnswerHTML(item.number, answerCount, None)])];
    }

    /** A delete-answer button: its answer block goes, the others keep their names. */
    method DeleteAnswer(k: nat, a: nat)
      modifies this
      requires Valid() && k < |items| && a < |items[k].answers|
      ensures Valid()
      ensures items == old(items)[k := old(items)[k].(answers := Removed(old(items)[k].answers, a))]
      ensures title == old(title) && password == old(password) && description == old(description)
    {
      items := items[k := items[k].(answers := Removed(items[k].answers, a))];
    }

    /**
     * `handleAnswerTypeChange` for a kind button of answer `a` in block `k`:
     * the first answer input in the page named by the button's `data-answer`
     * is replaced by an empty input of the chosen kind under the same name;
     * when no input has that name nothing changes.
     */
    method ChangeAnswerType(k: nat, a: nat, kind: AnswerKind)
      modifies this
      requires Valid() && k < |items| && a < |items[k].answers|
      ensures Valid()
      ensures var x := old(items)[k].answers[a].dataAnswer;
              match FindAnswerInput(old(items), x, 0)
              case None => items == old(items)
              case Some(loc) =>
                items == SetOption(old(items), loc.0, loc.1,
                           old(items)[loc.0].answers[loc.1].(input := SwitchedInput(x, kind)))
      ensures title == old(title) && password == old(password) && description == old(description)
    {
      var answerInputName := items[k].answers[a].dataAnswer;
      var found := FindAnswerInput(items, answerInputName, 0);
      if found.None? {
        return;
      }
      var (i, j) := found.value;
      var option := items[i].answers[j];
      var newOption := option.(input := SwitchedInput(answerInputName, kind));
      assert OptionValid(option);
      items := SetOption(items, i, j, newOption);
      assert ItemValid(old(items)[i]);
    }

    /**
     * A correctness button of answer `a` in block `k`: the button flips and
     * the hidden field `correct-answer-N-M` beside it (N from the label, M
     * the answer's position) records the new state as "true"/"false".
     */
    method ToggleCorrectAnswer(k: nat, a: nat)
      modifies this
      requires Valid() && k < |items| && a < |items[k].answers|
      ensures Valid()
      ensures items == SetOption(old(items), k, a,
                 ToggleOption(old(items)[k].answers[a], CorrectField(old(items)[k].number, a + 1)))
      ensures items[k].answers[a].correct == !old(items)[k].answers[a].correct
      ensures title == old(title) && password == old(password) && description == old(description)
    {
      var option := items[k].answers[a];
      var questionNumber := items[k].number;
      var answerNumber := a + 1;
      var correct := !option.correct;
      var hiddenName := CorrectField(questionNumber, answerNumber);
      var existing := FirstHidden(option.hidden, hiddenName);
      var kept := option.hidden;
      if existing.Some? {
        kept := option.hidden[..existing.value] + option.hidden[existing.value + 1..];
      }
      var newOption := option.(correct := correct, hidden := kept + [HiddenInput(hiddenName, BooleanText(correct))]);
      assert newOption == ToggleOption(option, hiddenName);
      assert ItemValid(items[k]);
      ToggleOptionValid(option, hiddenName);
      items := SetOption(items, k, a, newOption);
    }
  }
}
