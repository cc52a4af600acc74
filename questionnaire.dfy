/**
 * The questionnaire screens (Questionnaire.tsx): the multiple-choice toggle,
 * the confirm and save actions of the question card and of the edit modal,
 * attachment removal, the AI-check button's gate, the summary table's
 * answer cell, and the choice between the summary and the detailed view.
 */
module Questionnaire {
  import opened Types
  import opened Strings
  import opened Answers

  /** `{ value: null, evidence: '' }`, the answer a card starts from when none is stored. */
  const DefaultAnswer: Answer := Answer(NotApplicable, "", None, false, None, None, None)

  /** `answers[question.id] ?? { value: null, evidence: '' }`. */
  function InitialAnswer(answers: AnswersState, questionId: string): (r: Answer)
    ensures questionId in answers ==> r == answers[questionId]
    ensures questionId !in answers ==> r.value == NotApplicable && !r.confirmed && r.evidence == ""
  {
    if questionId in answers then answers[questionId] else DefaultAnswer
  }

  // ---------------------------------------------------------------------
  // Multiple choice.

  /** `value.filter(v => v !== option)`. */
  function RemoveAll(xs: seq<string>, option: string): seq<string>
    decreases |xs|
  {
    if xs == [] then []
    else (if xs[0] == option then [] else [xs[0]]) + RemoveAll(xs[1..], option)
  }

  /** The filter distributes over concatenation, so the kept elements stay in their order. */
  lemma {:induction false} RemoveAllAppend(a: seq<string>, b: seq<string>, option: string)
    ensures RemoveAll(a + b, option) == RemoveAll(a, option) + RemoveAll(b, option)
    decreases |a|
  {
    if a != [] {
      assert (a + b)[0] == a[0] && (a + b)[1..] == a[1..] + b;
      RemoveAllAppend(a[1..], b, option);
      var head := if a[0] == option then [] else [a[0]];
      assert RemoveAll(a + b, option) == head + RemoveAll(a[1..] + b, option);
      assert head + (RemoveAll(a[1..], option) + RemoveAll(b, option))
             == (head + RemoveAll(a[1..], option)) + RemoveAll(b, option);
    } else {
      assert a + b == b;
    }
  }

  /** Every occurrence of `option` goes and every other element keeps its multiplicity. */
  lemma {:induction false} RemoveAllCounts(xs: seq<string>, option: string)
    ensures option !in RemoveAll(xs, option)
    ensures forall x :: x != option ==> multiset(RemoveAll(xs, option))[x] == multiset(xs)[x]
    decreases |xs|
  {
    if xs != [] {
      RemoveAllCounts(xs[1..], option);
      assert xs == [xs[0]] + xs[1..];
    }
  }

  /** Filtering out an absent option changes nothing. */
  lemma {:induction false} RemoveAllAbsent(xs: seq<string>, option: string)
    requires option !in xs
    ensures RemoveAll(xs, option) == xs
    decreases |xs|
  {
    if xs != [] {
      RemoveAllAbsent(xs[1..], option);
    }
  }

  /**
   * `MultipleChoiceInput.handleChange`: checking appends the option at the
   * end; unchecking removes every occurrence of it.
   */
  function ToggleOption(value: seq<string>, option: string, checked: bool): (r: seq<string>)
    ensures checked ==> |r| == |value| + 1 && r[..|value|] == value && r[|value|] == option
    ensures !checked ==> option !in r
    ensures !checked ==> forall x :: x != option ==> multiset(r)[x] == multiset(value)[x]
  {
    if checked then value + [option]
    else
      RemoveAllCounts(value, option);
      RemoveAll(value, option)
  }

  /**
   * Unchecking what was just checked restores the selection, order included,
   * and unchecking keeps the relative order of the remaining options.
   */
  lemma ToggleRoundTrip(value: seq<string>, option: string, prefix: seq<string>, suffix: seq<string>)
    ensures option !in value ==> ToggleOption(ToggleOption(value, option, true), option, false) == value
    ensures ToggleOption(prefix + suffix, option, false)
            == ToggleOption(prefix, option, false) + ToggleOption(suffix, option, false)
  {
    RemoveAllAppend(prefix, suffix, option);
    if option !in value {
      RemoveAllAppend(value, [option], option);
      RemoveAllAbsent(value, option);
    }
  }

  // ---------------------------------------------------------------------
  // Confirm, save and attachments.

  /**
   * `QuestionCard.handleConfirm` and `EditQuestionModal.handleSave`: the
   * edited answer is stored with `confirmed` set and every other field as edited.
   */
  function Confirm(edited: Answer): (r: Answer)
    ensures r.confirmed
    ensures r.(confirmed := edited.confirmed) == edited
  {
    edited.(confirmed := true)
  }

  /**
   * A confirmed answer is counted, whatever its value: confirming a card that
   * was never touched records "not applicable" and counts it as answered.
   */
  lemma ConfirmCounts(edited: Answer)
    ensures IsAnswerProvided(Some(Confirm(edited)))
    ensures Confirm(DefaultAnswer).value == NotApplicable && IsAnswerProvided(Some(Confirm(DefaultAnswer)))
  {
  }

  /** The card's confirm button: disabled when nothing was edited and the stored answer is already confirmed. */
  predicate ConfirmEnabled(isDirty: bool, initialAnswer: Answer) {
    !(!isDirty && initialAnswer.confirmed)
  }

  /** `EditQuestionModal.handleRemoveAttachment`: the answer without its attachment. */
  function RemoveAttachment(a: Answer): (r: Answer)
    ensures r.attachment.None?
    ensures r.(attachment := a.attachment) == a
  {
    a.(attachment := None)
  }

  /** The local state of a question card. */
  datatype CardState = CardState(answer: Answer, isDirty: bool)

  /**
   * `updateAnswerState(fields)` with `fields` an answer lacking its
   * `attachment` key: `{ ...prev, ...fields }` takes every other field from
   * `fields` and keeps the attachment of `prev`.
   */
  function MergeWithoutAttachment(prev: Answer, fields: Answer): (r: Answer)
    ensures r.attachment == prev.attachment
    ensures r.(attachment := fields.attachment) == fields
  {
    fields.(attachment := prev.attachment)
  }

  /** `QuestionCard.handleRemoveAttachment` as written: the rest of the answer is merged back into it. */
  function CardRemoveAttachmentAsWritten(s: CardState): (r: CardState)
    ensures r.isDirty
  {
    CardState(MergeWithoutAttachment(s.answer, s.answer), true)
  }

  /**
   * The card's remove button does not remove anything: the merge restores the
   * attachment it was meant to drop, and only the dirty flag changes.
   */
  lemma CardRemoveAttachmentKeepsIt(s: CardState)
    ensures CardRemoveAttachmentAsWritten(s).answer == s.answer
    ensures s.answer.attachment.Some? ==> CardRemoveAttachmentAsWritten(s).answer.attachment.Some?
  {
  }

  /** The card's remove button as intended, matching the edit modal: the attachment is dropped. */
  function CardRemoveAttachment(s: CardState): (r: CardState)
    ensures r.isDirty && r.answer.attachment.None?
    ensures r.answer.(attachment := s.answer.attachment) == s.answer
  {
    CardState(RemoveAttachment(s.answer), true)
  }

  /**
   * Confirming from the card stores the confirmed answer and clears the dirty
   * flag, which disables the button until the next edit.
   */
  function CardConfirm(s: CardState): (r: (Answer, CardState))
    ensures r.0 == Confirm(s.answer) && r.1 == CardState(s.answer, false)
  {
    (Confirm(s.answer), CardState(s.answer, false))
  }

  /** After a confirmation stored back as the card's initial answer, the button is disabled until an edit. */
  lemma ConfirmDisablesButton(s: CardState)
    ensures !ConfirmEnabled(CardConfirm(s).1.isDirty, CardConfirm(s).0)
    ensures ConfirmEnabled(true, CardConfirm(s).0)
  {
  }

  // ---------------------------------------------------------------------
  // AI check gate.

  /** `disabled={isAiChecking || !isAnswerValueProvided(value)}`, negated. */
  predicate AiCheckEnabled(isAiChecking: bool, v: AnswerValue) {
    !isAiChecking && IsAnswerValueProvided(v)
  }

  /**
   * The button only runs on a real value: never on null or undefined, never
   * on a blank text or an empty selection; on a value of the question's shape
   * the prompt can always be built. Any boolean enables it.
   */
  lemma AiCheckGate(isAiChecking: bool, v: AnswerValue, t: QuestionType)
    ensures AiCheckEnabled(isAiChecking, v) ==> !isAiChecking && !v.NotApplicable? && !v.Unanswered?
    ensures AiCheckEnabled(isAiChecking, v) && v.Str? ==> Trim(v.s) != ""
    ensures AiCheckEnabled(isAiChecking, v) && v.List? ==> v.items != []
    ensures AiCheckEnabled(isAiChecking, v) && WellTyped(v, t) ==> FormatAnswerForPrompt(v, t).Some?
    ensures !isAiChecking && v.Bool? ==> AiCheckEnabled(isAiChecking, v)
  {
    if WellTyped(v, t) {
      WellTypedFormats(v, t);
    }
  }

  // ---------------------------------------------------------------------
  // Summary table.

  /** The answer cell of the summary table. `Raises` is the TypeError of `undefined.length`. */
  datatype SummaryCell =
    | Pending
    | NotApplicableCell
    | TrueCell
    | FalseCell
    | Plain(text: string)
    | Selected(count: Option<nat>)
    | Filled
    | Raises

  /** The `length` property of a value; `None` is `undefined`, on a boolean. */
  function LengthOf(v: AnswerValue): Option<nat>
    requires !v.Unanswered? && !v.NotApplicable?
  {
    match v
    case Bool(_) => None
    case Str(s) => Some(|s|)
    case List(xs) => Some(|xs|)
  }

  /** `SummaryView.getSummaryAnswerText`. */
  function SummaryAnswerText(t: QuestionType, a: Option<Answer>): (r: SummaryCell)
    ensures r == Pending <==> !IsAnswerProvided(a)
    ensures IsAnswerProvided(a) && a.value.value == NotApplicable ==> r == NotApplicableCell
    ensures IsAnswerProvided(a) && t == MultipleChoice && a.value.value.List? ==> r == Selected(Some(|a.value.value.items|))
  {
    if !IsAnswerProvided(a) then Pending
    else
      var v := a.value.value;
      if v.NotApplicable? then NotApplicableCell
      else
        match t
        case Boolean => if Truthy(v) then TrueCell else FalseCell
        case SingleChoice => Plain(JsString(v))
        case MultipleChoice => if v.Unanswered? then Raises else Selected(LengthOf(v))
        case _ => Filled
  }

  /**
   * The summary's "Pendente" marks exactly the questions the progress counter
   * leaves out, and an answer of the shape its input produces never raises.
   */
  lemma SummaryMatchesCounter(catalog: seq<Question>, answers: AnswersState, q: Question)
    requires q in catalog
    ensures SummaryAnswerText(q.qtype, Lookup(answers, q.id)) != Pending <==> q in ProvidedQuestions(catalog, answers)
    ensures q.id in answers && WellTyped(answers[q.id].value, q.qtype) && !answers[q.id].value.Unanswered? ==>
              SummaryAnswerText(q.qtype, Lookup(answers, q.id)) != Raises
  {
  }

  // ---------------------------------------------------------------------
  // View selection.

  /** What the questionnaire renders. */
  datatype Screen =
    | SummaryScreen
    | EmptyScreen(isSearching: bool)
    | Cards(cards: seq<(Question, Answer)>)

  /** The top of `Questionnaire`: the summary, the empty notice, or one card per question. */
  function QuestionnaireScreen(mode: QuestionnaireViewMode, questionsForTopic: seq<Question>, answers: AnswersState,
                               isSearching: bool): (r: Screen)
    ensures mode == Summary <==> r == SummaryScreen
    ensures mode == Detailed && questionsForTopic == [] ==> r == EmptyScreen(isSearching)
    ensures r.Cards? ==> |r.cards| == |questionsForTopic| > 0
                         && forall i :: 0 <= i < |r.cards| ==>
                              r.cards[i] == (questionsForTopic[i], InitialAnswer(answers, questionsForTopic[i].id))
  {
    if mode == Summary then SummaryScreen
    else if questionsForTopic == [] then EmptyScreen(isSearching)
    else Cards(seq(|questionsForTopic|, i requires 0 <= i < |questionsForTopic| =>
                     (questionsForTopic[i], InitialAnswer(answers, questionsForTopic[i].id))))
  }
}
