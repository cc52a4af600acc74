/**
 * The report screen (Report.tsx): how an answer value is displayed, the
 * question type labels, the answer cell of the response summary, the
 * answered percentage, and the carousel of the three compliance charts.
 */
module Report {
  import opened Types
  import opened Strings
  import opened Answers
  import opened Aggregation
  import Questionnaire

  /** The `{ text, color }` pair of `formatAnswerValueForDisplay`. */
  datatype Display = Display(text: string, color: string)

  const NotApplicableText: string := "Não Aplicável"
  const NotAnsweredText: string := "Não respondido"
  const MutedColor: string := "text-slate-500"
  const NotApplicableColor: string := "text-slate-600"
  const PlainColor: string := "text-slate-800"

  /**
   * `formatAnswerValueForDisplay(value, confirmed)`: null or undefined reads
   * "not applicable" once confirmed and "not answered" before; an empty
   * selection and a blank text also read "not answered".
   */
  function FormatAnswerValueForDisplay(v: AnswerValue, confirmed: bool): (r: Display)
    ensures (v.NotApplicable? || v.Unanswered?) && confirmed ==> r == Display(NotApplicableText, NotApplicableColor)
    ensures (v.NotApplicable? || v.Unanswered?) && !confirmed ==> r == Display(NotAnsweredText, MutedColor)
    ensures v.Bool? ==> r.text == (if v.b then "Verdadeiro" else "Falso")
    ensures v.List? && v.items == [] ==> r == Display(NotAnsweredText, MutedColor)
    ensures v.List? && v.items != [] ==> r == Display(Join(v.items, ", "), PlainColor)
    ensures v.Str? && Trim(v.s) == "" ==> r == Display(NotAnsweredText, MutedColor)
    ensures v.Str? && Trim(v.s) != "" ==> r == Display(v.s, PlainColor)
  {
    match v
    case NotApplicable | Unanswered =>
      if confirmed then Display(NotApplicableText, NotApplicableColor) else Display(NotAnsweredText, MutedColor)
    case Bool(b) => if b then Display("Verdadeiro", "text-teal-700") else Display("Falso", "text-red-700")
    case List(xs) => if xs == [] then Display(NotAnsweredText, MutedColor) else Display(Join(xs, ", "), PlainColor)
    case Str(s) => if Trim(s) == "" then Display(NotAnsweredText, MutedColor) else Display(s, PlainColor)
  }

  /** The call sites pass `answer?.value` and `answer?.confirmed`: a missing answer is undefined and unconfirmed. */
  function DisplayAnswer(a: Option<Answer>): (r: Display)
    ensures a.None? ==> r == Display(NotAnsweredText, MutedColor)
  {
    if a.Some? then FormatAnswerValueForDisplay(a.value.value, a.value.confirmed)
    else FormatAnswerValueForDisplay(Unanswered, false)
  }

  /**
   * The display greys a value out exactly when the questionnaire would treat
   * it as empty: the muted colours mark the values `isAnswerValueProvided`
   * rejects, and only those.
   */
  lemma DisplayAgreesWithValuePresence(v: AnswerValue, confirmed: bool)
    ensures var c := FormatAnswerValueForDisplay(v, confirmed).color;
            (c == MutedColor || c == NotApplicableColor) <==> !IsAnswerValueProvided(v)
  {
  }

  /** `getQuestionTypeLabel`. */
  function QuestionTypeLabel(t: QuestionType): (r: string)
    ensures r != ""
  {
    match t
    case TextBlock => "Bloco de texto"
    case Boolean => "Verdadeiro ou falso"
    case MultipleChoice => "Múltipla escolha"
    case SingleChoice => "Escolha única"
    case Text => "Texto"
  }

  /** Every type has its own label, so the label identifies the type. */
  lemma QuestionTypeLabelInjective(t1: QuestionType, t2: QuestionType)
    ensures QuestionTypeLabel(t1) == QuestionTypeLabel(t2) ==> t1 == t2
  {
  }

  /** The answer cell of the response summary. `Raises` is the TypeError of a value without `map`. */
  datatype SummaryCell =
    | NotAnsweredCell
    | NotApplicableCell
    | TextCell
    | TrueCell
    | FalseCell
    | OptionList(items: seq<string>)
    | Plain(text: string)
    | Raises

  /** `getSummaryAnswerText` of the report. */
  function SummaryAnswerText(t: QuestionType, a: Option<Answer>): (r: SummaryCell)
    ensures r == NotAnsweredCell <==> !IsAnswerProvided(a)
    ensures IsAnswerProvided(a) && a.value.value.NotApplicable? ==> r == NotApplicableCell
    ensures IsAnswerProvided(a) && t == MultipleChoice && a.value.value.List? ==> r == OptionList(a.value.value.items)
  {
    if !IsAnswerProvided(a) then NotAnsweredCell
    else
      var v := a.value.value;
      if v.NotApplicable? then NotApplicableCell
      else
        match t
        case TextBlock | Text => TextCell
        case Boolean => if Truthy(v) then TrueCell else FalseCell
        case MultipleChoice => if v.List? then OptionList(v.items) else Raises
        case SingleChoice => Plain(JsString(v))
  }

  /**
   * The report's summary and the questionnaire's summary agree on which
   * answers are still open and which are "not applicable"; a well-shaped
   * value never raises in either.
   */
  lemma SummariesAgree(t: QuestionType, a: Option<Answer>)
    ensures SummaryAnswerText(t, a) == NotAnsweredCell <==> Questionnaire.SummaryAnswerText(t, a) == Questionnaire.Pending
    ensures SummaryAnswerText(t, a) == NotApplicableCell <==> Questionnaire.SummaryAnswerText(t, a) == Questionnaire.NotApplicableCell
    ensures a.Some? && WellTyped(a.value.value, t) && !a.value.value.Unanswered? ==> SummaryAnswerText(t, a) != Raises
  {
  }

  /** `answeredPercentage`. */
  function AnsweredPercentage(answered: nat, total: nat): (r: real)
    ensures total == 0 ==> r == 0.0
    ensures total > 0 ==> r * (total as real) == (answered as real) * 100.0
  {
    if total > 0 then (answered as real) / (total as real) * 100.0 else 0.0
  }

  /** Of `total` questions, `answered` ones make a percentage, 100 exactly when all are answered. */
  lemma PercentageOf(answered: nat, total: nat)
    requires answered <= total && total > 0
    ensures 0.0 <= AnsweredPercentage(answered, total) <= 100.0
    ensures AnsweredPercentage(answered, total) == 100.0 <==> answered == total
  {
    var x, y := answered as real, total as real;
    assert x / y <= 1.0;
    if x / y * 100.0 == 100.0 {
      assert x / y == 1.0;
      assert x == y;
    }
  }

  /** A report's answered percentage is a percentage, and 100 exactly when every question is answered. */
  lemma AnsweredPercentageInRange(catalog: seq<Question>, answers: AnswersState, companyName: string, now: int,
                                  isConsultantReport: bool)
    ensures var r := ComplianceReport(catalog, answers, companyName, CountProvided(catalog, answers), now, isConsultantReport);
            var p := AnsweredPercentage(r.answeredQuestions, r.totalQuestions);
            && 0.0 <= p <= 100.0
            && (|catalog| > 0 ==> (p == 100.0 <==> CountProvided(catalog, answers) == |catalog|))
  {
    var r := ComplianceReport(catalog, answers, companyName, CountProvided(catalog, answers), now, isConsultantReport);
    assert r.answeredQuestions == CountProvided(catalog, answers) <= |catalog| == r.totalQuestions;
    if |catalog| > 0 {
      PercentageOf(r.answeredQuestions, r.totalQuestions);
    }
  }

  // ---------------------------------------------------------------------
  // Carousel.

  /** `complianceSlides.length`: overall, IFRS S1 and IFRS S2. */
  const SlideCount: nat := 3

  /** `nextSlide`: the last slide wraps to the first. */
  function NextSlide(s: int, n: int): int
  {
    if s == n - 1 then 0 else s + 1
  }

  /** `prevSlide`: the first slide wraps to the last. */
  function PrevSlide(s: int, n: int): int
  {
    if s == 0 then n - 1 else s - 1
  }

  /** Both moves keep the index among the slides and undo each other. */
  lemma SlidesWrap(s: int, n: int)
    requires 0 <= s < n
    ensures 0 <= NextSlide(s, n) < n && 0 <= PrevSlide(s, n) < n
    ensures PrevSlide(NextSlide(s, n), n) == s && NextSlide(PrevSlide(s, n), n) == s
  {
  }

  /** Up to a full turn, `k` presses move `k` places on, wrapping once past the last slide. */
  lemma {:induction false} AdvanceUpTo(s: int, n: int, k: nat)
    requires 0 <= s < n && k <= n
    ensures Advance(s, n, k) == if s + k < n then s + k else s + k - n
    decreases k
  {
    if k > 0 {
      AdvanceUpTo(s, n, k - 1);
    }
  }

  /** As many presses as there are slides come back to the slide shown before. */
  lemma FullTurn(s: int, n: int)
    requires 0 <= s < n
    ensures Advance(s, n, n) == s
  {
    AdvanceUpTo(s, n, n);
  }

  /** `k` presses of the next button. */
  function Advance(s: int, n: int, k: nat): int
    decreases k
  {
    if k == 0 then s else NextSlide(Advance(s, n, k - 1), n)
  }

  /** On the three-slide carousel, three presses return to the slide shown before. */
  lemma ThreeSlidesCycle(s: int)
    requires 0 <= s < SlideCount
    ensures Advance(s, SlideCount, SlideCount) == s
  {
    FullTurn(s, SlideCount);
  }
}
