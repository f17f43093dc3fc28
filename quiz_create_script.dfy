/**
 * The quiz-creation page script: the add-question button appends a block
 * numbered one past the current count, with a question field, four answer
 * fields and a radio group for the correct answer; a delete button removes
 * its block without renumbering the others; the delete buttons are never
 * hidden.
 */
module QuizCreateScript {
  import opened Wrappers
  import Decimal
  import opened QuizForm

  const AnswersPerQuestion: nat := 4

  /** The texts of a block's four answer fields. */
  type AnswerValues = s: seq<string> | |s| == AnswersPerQuestion witness ["", "", "", ""]

  /** The value of a radio option: 1 to 4. */
  type OptionValue = v: nat | 1 <= v <= AnswersPerQuestion witness 1

  /**
   * One `.question-item` block: its number N, the texts held by
   * `question-N` and `answer-N-1..4`, the option checked in the radio group
   * `correct-answer-N`, and whether its delete button is hidden.
   */
  datatype QuestionBlock = QuestionBlock(
    number: int,
    questionValue: string,
    answerValues: AnswerValues,
    checked: Option<OptionValue>,
    deleteHidden: bool)

  /** The block the add-question button inserts as number `n`: empty fields, nothing checked. */
  function NewBlock(n: int): (b: QuestionBlock)
    ensures !b.deleteHidden && b.number == n && b.checked == None
  {
    QuestionBlock(n, "", ["", "", "", ""], None, false)
  }

  /**
   * `toggleDeleteButtons`: the hiding branch runs only when there are no
   * delete buttons, so every existing button is shown.
   */
  function ToggledDelete(blocks: seq<QuestionBlock>): (r: seq<QuestionBlock>)
    ensures |r| == |blocks|
    ensures forall i :: 0 <= i < |r| ==> r[i] == blocks[i].(deleteHidden := false)
  {
    if |blocks| == 0 then blocks
    else seq(|blocks|, i requires 0 <= i < |blocks| => blocks[i].(deleteHidden := false))
  }

  /** The sequence without element `k`. */
  function Removed<T>(s: seq<T>, k: nat): (r: seq<T>)
    requires k < |s|
    ensures |r| == |s| - 1
    ensures forall i :: 0 <= i < k ==> r[i] == s[i]
    ensures forall i :: k <= i < |r| ==> r[i] == s[i + 1]
  {
    s[..k] + s[k + 1..]
  }

  /** Blocks numbered `1, 2, …` in document order. */
  ghost predicate Numbered(blocks: seq<QuestionBlock>)
  {
    forall i :: 0 <= i < |blocks| ==> blocks[i].number == i + 1
  }

  // --------------------------------------------------- what is submitted

  /** The pairs one block submits: the question, the four answers, and the checked radio value. */
  function BlockPairs(b: QuestionBlock): seq<(FieldName, string)>
  {
    [(QuestionField(b.number), b.questionValue),
     (AnswerField(b.number, 1), b.answerValues[0]),
     (AnswerField(b.number, 2), b.answerValues[1]),
     (AnswerField(b.number, 3), b.answerValues[2]),
     (AnswerField(b.number, 4), b.answerValues[3])]
    + (if b.checked.Some? then [(CorrectRadio(b.number), Decimal.Render(b.checked.value))] else [])
  }

  function BlocksPairs(blocks: seq<QuestionBlock>): seq<(FieldName, string)>
  {
    if blocks == [] then [] else BlockPairs(blocks[0]) + BlocksPairs(blocks[1..])
  }

  /** The request the server reads when the page is submitted; the page has no file fields. */
  function SubmittedRequest(qid: string, title: string, password: string, description: string, blocks: seq<QuestionBlock>): Request
  {
    RequestOf(qid, FormPairs(title, password, description, blocks), [])
  }

  function FormPairs(title: string, password: string, description: string, blocks: seq<QuestionBlock>): seq<(FieldName, string)>
  {
    [(TitleName, title), (PasswordName, password), (DescriptionName, description)] + BlocksPairs(blocks)
  }

  /** The pair `p` is one of block `b`'s fields with its value. */
  predicate FromBlock(p: (FieldName, string), b: QuestionBlock)
  {
    || p == (QuestionField(b.number), b.questionValue)
    || (p.0.AnswerField? && p.0.q == b.number && 1 <= p.0.a <= AnswersPerQuestion && p.1 == b.answerValues[p.0.a - 1])
    || p.0 == CorrectRadio(b.number)
  }

  lemma BlockPairsShape(b: QuestionBlock)
    ensures forall p :: p in BlockPairs(b) ==> FromBlock(p, b)
    ensures (QuestionField(b.number), b.questionValue) in BlockPairs(b)
    ensures forall m :: 1 <= m <= AnswersPerQuestion ==> (AnswerField(b.number, m), b.answerValues[m - 1]) in BlockPairs(b)
  {
    assert BlockPairs(b)[1] == (AnswerField(b.number, 1), b.answerValues[0]);
    assert BlockPairs(b)[2] == (AnswerField(b.number, 2), b.answerValues[1]);
    assert BlockPairs(b)[3] == (AnswerField(b.number, 3), b.answerValues[2]);
    assert BlockPairs(b)[4] == (AnswerField(b.number, 4), b.answerValues[3]);
  }

  /** Every submitted block pair is one of some block's fields. */
  lemma {:induction false} BlocksPairsShape(blocks: seq<QuestionBlock>)
    ensures forall p :: p in BlocksPairs(blocks) ==> exists i :: 0 <= i < |blocks| && FromBlock(p, blocks[i])
  {
    if blocks != [] {
      BlockPairsShape(blocks[0]);
      BlocksPairsShape(blocks[1..]);
      forall p | p in BlocksPairs(blocks)
        ensures exists i :: 0 <= i < |blocks| && FromBlock(p, blocks[i])
      {
        if !FromBlock(p, blocks[0]) {
          assert p in BlocksPairs(blocks[1..]);
          var i :| 0 <= i < |blocks| - 1 && FromBlock(p, blocks[1..][i]);
          assert FromBlock(p, blocks[i + 1]);
        }
      }
    }
  }

  /** Every pair of block `i` is submitted. */
  lemma {:induction false} BlockPairsIncluded(blocks: seq<QuestionBlock>, i: nat)
    requires i < |blocks|
    ensures forall p :: p in BlockPairs(blocks[i]) ==> p in BlocksPairs(blocks)
  {
    if i > 0 {
      BlockPairsIncluded(blocks[1..], i - 1);
      assert blocks[1..][i - 1] == blocks[i];
    }
  }

  /** No block submits a `correct-answer-N-M` field. */
  lemma NoCorrectField(title: string, password: string, description: string, blocks: seq<QuestionBlock>)
    ensures forall p :: p in FormPairs(title, password, description, blocks) ==> !p.0.CorrectField?
  {
    BlocksPairsShape(blocks);
  }

  /**
   * The page submits its correct answer as the radio group
   * `correct-answer-N`, never as `correct-answer-N-M`, so the server reads
   * every answer of a created quiz as incorrect.
   */
  lemma SubmittedAnswersNeverCorrect(qid: string, title: string, password: string, description: string, blocks: seq<QuestionBlock>)
    ensures forall q :: q in QuestionsFrom(SubmittedRequest(qid, title, password, description, blocks), 1) ==>
              forall a :: a in q.answers ==> !a.isCorrect
  {
    NoCorrectField(title, password, description, blocks);
    NoCorrectFromPairs(qid, FormPairs(title, password, description, blocks), []);
  }

  /** In a numbered page, `question-n` is read exactly for `n` in `1..m`, holding block `n`'s text. */
  lemma NumberedQuestionValue(qid: string, title: string, password: string, description: string, blocks: seq<QuestionBlock>, n: int)
    requires Numbered(blocks)
    ensures var r := SubmittedRequest(qid, title, password, description, blocks);
            && (QuestionField(n) in r.values <==> 1 <= n <= |blocks|)
            && (1 <= n <= |blocks| ==> r.values[QuestionField(n)] == blocks[n - 1].questionValue)
  {
    var values := FormPairs(title, password, description, blocks);
    var x := QuestionField(n);
    FirstValuesHas(values, x);
    if x in FirstValues(values) {
      FirstValuesIn(values, x);
      QuestionPairFromBlock(title, password, description, blocks, n, FirstValues(values)[x]);
    }
    if 1 <= n <= |blocks| {
      BlockPairsShape(blocks[n - 1]);
      BlockPairsIncluded(blocks, n - 1);
      assert (x, blocks[n - 1].questionValue) in values;
    }
  }

  /** In a numbered page, a submitted `question-n` pair is block `n`'s question. */
  lemma QuestionPairFromBlock(title: string, password: string, description: string, blocks: seq<QuestionBlock>, n: int, v: string)
    requires Numbered(blocks)
    requires (QuestionField(n), v) in FormPairs(title, password, description, blocks)
    ensures 1 <= n <= |blocks| && v == blocks[n - 1].questionValue
  {
    BlocksPairsShape(blocks);
    assert (QuestionField(n), v) in BlocksPairs(blocks);
    var i :| 0 <= i < |blocks| && FromBlock((QuestionField(n), v), blocks[i]);
    assert blocks[i].number == i + 1;
  }

  /** In a numbered page, `answer-n-m` is read exactly for `n` in `1..m` and `m` in `1..4`, holding that field's text. */
  lemma NumberedAnswerValue(qid: string, title: string, password: string, description: string, blocks: seq<QuestionBlock>, n: int, m: int)
    requires Numbered(blocks)
    ensures var r := SubmittedRequest(qid, title, password, description, blocks);
            && (AnswerField(n, m) in r.values <==> 1 <= n <= |blocks| && 1 <= m <= AnswersPerQuestion)
            && (1 <= n <= |blocks| && 1 <= m <= AnswersPerQuestion ==>
                  r.values[AnswerField(n, m)] == blocks[n - 1].answerValues[m - 1])
  {
    var values := FormPairs(title, password, description, blocks);
    var x := AnswerField(n, m);
    FirstValuesHas(values, x);
    if x in FirstValues(values) {
      FirstValuesIn(values, x);
      BlocksPairsShape(blocks);
      var v := FirstValues(values)[x];
      assert (x, v) in BlocksPairs(blocks);
      var i :| 0 <= i < |blocks| && FromBlock((x, v), blocks[i]);
      assert blocks[i].number == i + 1;
    }
    if 1 <= n <= |blocks| && 1 <= m <= AnswersPerQuestion {
      BlockPairsShape(blocks[n - 1]);
      BlockPairsIncluded(blocks, n - 1);
      assert (x, blocks[n - 1].answerValues[m - 1]) in values;
    }
  }

  /**
   * A page numbered `1..m` with every question filled in is read as its
   * `m` questions, in order, with their texts.
   */
  lemma NumberedPageReadsAllQuestions(qid: string, title: string, password: string, description: string, blocks: seq<QuestionBlock>)
    requires Numbered(blocks)
    requires forall i :: 0 <= i < |blocks| ==> blocks[i].questionValue != ""
    ensures var qs := QuestionsFrom(SubmittedRequest(qid, title, password, description, blocks), 1);
            |qs| == |blocks| && forall i :: 0 <= i < |blocks| ==> qs[i].text == blocks[i].questionValue
  {
    var r := SubmittedRequest(qid, title, password, description, blocks);
    forall n | 1 <= n <= |blocks| + 1
      ensures HasQuestion(r, n) <==> n <= |blocks|
      ensures n <= |blocks| ==> FormValue(r, QuestionField(n)) == blocks[n - 1].questionValue
    {
      NumberedQuestionValue(qid, title, password, description, blocks, n);
    }
    QuestionCount(r, |blocks|);
    ParsedQuestionsArePrefix(r);
    forall i | 0 <= i < |blocks|
      ensures QuestionsFrom(r, 1)[i].text == blocks[i].questionValue
    {
      assert HasQuestion(r, i + 1);
    }
  }

  /** Every answer field of the block holds non-empty text without line breaks. */
  predicate AnswersFilled(b: QuestionBlock)
  {
    forall m :: 0 <= m < AnswersPerQuestion ==> b.answerValues[m] != "" && '\n' !in b.answerValues[m]
  }

  /**
   * In a page numbered `1..m` with question `n`'s answers filled in (as
   * text inputs hold them, without line breaks), question `n` is read with
   * its four answers as plain text, in order, all incorrect.
   */
  lemma NumberedPageReadsAllAnswers(qid: string, title: string, password: string, description: string, blocks: seq<QuestionBlock>, n: int)
    requires Numbered(blocks) && 1 <= n <= |blocks|
    requires AnswersFilled(blocks[n - 1])
    ensures var answers := AnswersFrom(SubmittedRequest(qid, title, password, description, blocks), n, 1);
            |answers| == AnswersPerQuestion
            && forall m :: 0 <= m < AnswersPerQuestion ==>
                 answers[m] == QuizForm.Answer(false, blocks[n - 1].answerValues[m], "", "", [])
  {
    var r := SubmittedRequest(qid, title, password, description, blocks);
    var values := blocks[n - 1].answerValues;
    NoCorrectField(title, password, description, blocks);
    forall m | 1 <= m <= AnswersPerQuestion + 1
      ensures HasAnswer(r, n, m) <==> m <= AnswersPerQuestion
      ensures m <= AnswersPerQuestion ==> ReadAnswer(r, n, m) == QuizForm.Answer(false, values[m - 1], "", "", [])
    {
      NumberedAnswerValue(qid, title, password, description, blocks, n, m);
      FirstValuesHas(FormPairs(title, password, description, blocks), CorrectField(n, m));
    }
    AnswerCount(r, n, AnswersPerQuestion);
    ParsedAnswersArePrefix(r, n);
    forall m | 0 <= m < AnswersPerQuestion
      ensures AnswersFrom(r, n, 1)[m] == QuizForm.Answer(false, values[m], "", "", [])
    {
      assert HasAnswer(r, n, m + 1);
    }
  }

  /**
   * Deleting block `k` of a page numbered `1..m` leaves a gap at
   * `question-(k+1)`: the server reads only the `k` questions before it.
   */
  lemma DeleteWithoutRenumberingTruncates(qid: string, title: string, password: string, description: string, blocks: seq<QuestionBlock>, k: nat)
    requires Numbered(blocks) && k < |blocks|
    requires forall i :: 0 <= i < |blocks| ==> blocks[i].questionValue != ""
    ensures |QuestionsFrom(SubmittedRequest(qid, title, password, description, ToggledDelete(Removed(blocks, k))), 1)| == k
  {
    var rest := ToggledDelete(Removed(blocks, k));
    var r := SubmittedRequest(qid, title, password, description, rest);
    var values := FormPairs(title, password, description, rest);
    BlocksPairsShape(rest);
    forall n | 1 <= n <= k + 1
      ensures HasQuestion(r, n) <==> n <= k
    {
      FirstValuesHas(values, QuestionField(n));
      if QuestionField(n) in r.values {
        FirstValuesIn(values, QuestionField(n));
        var v := r.values[QuestionField(n)];
        assert (QuestionField(n), v) in BlocksPairs(rest);
        var i :| 0 <= i < |rest| && FromBlock((QuestionField(n), v), rest[i]);
        assert rest[i].number == if i < k then i + 1 else i + 2;
      }
      if n <= k {
        BlockPairsShape(rest[n - 1]);
        BlockPairsIncluded(rest, n - 1);
        assert (QuestionField(n), rest[n - 1].questionValue) in values;
      }
    }
    QuestionCount(r, k);
  }

  // ------------------------------------------------------------- the page

  class QuizCreatePage {
    var blocks: seq<QuestionBlock>

    /** Every delete button is shown. */
    ghost predicate Valid()
      reads this
    {
      forall i :: 0 <= i < |blocks| ==> !blocks[i].deleteHidden
    }

    /** The `DOMContentLoaded` handler: no blocks yet; the initial toggle finds no button. */
    constructor ()
      ensures Valid() && blocks == []
    {
      blocks := [];
      new;
      ToggleDeleteButtons();
    }

    /** The add-question button: a new block numbered one past the current count. */
    method AddQuestionClicked()
      modifies this
      requires Valid()
      ensures Valid()
      ensures blocks == old(blocks) + [NewBlock(|old(blocks)| + 1)]
    {
      var questionNumber := |blocks| + 1;
      blocks := blocks + [NewBlock(questionNumber)];
      ToggleDeleteButtons();
    }

    /** A delete button: its block goes; the others keep their numbers. */
    method DeleteQuestion(k: nat)
      modifies this
      requires Valid() && k < |blocks|
      ensures Valid()
      ensures blocks == Removed(old(blocks), k)
    {
      blocks := Removed(blocks, k);
      ToggleDeleteButtons();
    }

    method ToggleDeleteButtons()
      modifies this
      ensures blocks == ToggledDelete(old(blocks))
      ensures forall i :: 0 <= i < |blocks| ==> !blocks[i].deleteHidden
    {
      if |blocks| == 0 {
        // The hiding loop runs over the empty list of buttons.
      } else {
        var i := 0;
        var shown: seq<QuestionBlock> := [];
        while i < |blocks|
          invariant 0 <= i <= |blocks|
          invariant |shown| == i
          invariant forall j :: 0 <= j < i ==> shown[j] == blocks[j].(deleteHidden := false)
        {
          shown := shown + [blocks[i].(deleteHidden := false)];
          i := i + 1;
        }
        blocks := shown;
      }
    }
  }
}
