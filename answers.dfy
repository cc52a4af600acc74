/**
 * The single "answered" test, the text an answer value is given in a prompt
 * to the checking service, and the answered/unanswered question filter
 * (App.tsx).
 */
module Answers {
  import opened Types
  import opened Strings

  /** `isAnswerProvided`: an answer counts exactly when it is confirmed, whatever its value. */
  predicate IsAnswerProvided(a: Option<Answer>) {
    a.Some? && a.value.confirmed
  }

  /**
   * `isAnswerValueProvided` (Questionnaire.tsx): null and undefined are not
   * provided, a string only when something is left after trimming, a list
   * only when it is non-empty, and every boolean is. The import check
   * `String(v).trim() !== ''` agrees with it on every value it can meet,
   * since `String(b)` is never blank.
   */
  predicate IsAnswerValueProvided(v: AnswerValue) {
    match v
    case Unanswered => false
    case NotApplicable => false
    case Bool(_) => true
    case Str(s) => Trim(s) != ""
    case List(xs) => xs != []
  }

  /** JavaScript truthiness of an answer value (`null` and `undefined` are falsy). */
  predicate Truthy(v: AnswerValue) {
    match v
    case Unanswered => false
    case NotApplicable => false
    case Bool(b) => b
    case Str(s) => s != ""
    case List(_) => true
  }

  /** `String(value)`: an array converts through `join(',')`. */
  function JsString(v: AnswerValue): string {
    match v
    case Unanswered => "undefined"
    case NotApplicable => "null"
    case Bool(b) => if b then "true" else "false"
    case Str(s) => s
    case List(xs) => Join(xs, ",")
  }

  /** A value of the shape the question's input component produces. */
  predicate WellTyped(v: AnswerValue, t: QuestionType) {
    match v
    case Unanswered => true
    case NotApplicable => true
    case Bool(_) => t == Boolean
    case Str(_) => t == SingleChoice || t == Text || t == TextBlock
    case List(_) => t == MultipleChoice
  }

  /**
   * `formatAnswerForPrompt`. `None` stands for the TypeError JavaScript raises
   * when a multiple-choice question holds a value that has no `join`.
   */
  function FormatAnswerForPrompt(v: AnswerValue, t: QuestionType): (r: Option<string>)
    ensures v.NotApplicable? ==> r == Some("Não aplicável.")
    ensures v.Unanswered? ==> r == Some("Não respondido.")
    ensures r.None? <==> t == MultipleChoice && (v.Bool? || v.Str?)
    ensures r.Some? && t == MultipleChoice && v.List? ==> r.value == Join(v.items, ", ")
  {
    if v.NotApplicable? then Some("Não aplicável.")
    else if v.Unanswered? then Some("Não respondido.")
    else
      match t
      case Boolean => Some(if Truthy(v) then "Verdadeiro" else "Falso")
      case MultipleChoice => (match v case List(xs) => Some(Join(xs, ", ")) case _ => None)
      case _ => Some(JsString(v))
  }

  /** A value of the right shape is always rendered, never raising. */
  lemma WellTypedFormats(v: AnswerValue, t: QuestionType)
    requires WellTyped(v, t)
    ensures FormatAnswerForPrompt(v, t).Some?
    ensures v.Bool? ==> FormatAnswerForPrompt(v, t).value == (if v.b then "Verdadeiro" else "Falso")
    ensures v.Str? ==> FormatAnswerForPrompt(v, t).value == v.s
  {
  }

  /**
   * The prompt keeps "not applicable" and "not answered" apart from each other
   * and from every boolean rendering, whatever the question type.
   */
  lemma PromptSeparatesNullStates(t: QuestionType, b: bool)
    ensures FormatAnswerForPrompt(NotApplicable, t) != FormatAnswerForPrompt(Unanswered, t)
    ensures FormatAnswerForPrompt(NotApplicable, t) != FormatAnswerForPrompt(Bool(b), t)
    ensures FormatAnswerForPrompt(Unanswered, t) != FormatAnswerForPrompt(Bool(b), t)
  {
    assert "Não aplicável."[5] != "Não respondido."[5];
  }

  /** The confirmed questions of `catalog`, in catalog order (`ALL_QUESTIONS.filter(isAnswerProvided)`). */
  function ProvidedQuestions(catalog: seq<Question>, answers: AnswersState): (r: seq<Question>)
    ensures |r| <= |catalog|
    ensures forall q :: q in r <==> q in catalog && IsAnswerProvided(Lookup(answers, q.id))
    decreases |catalog|
  {
    if catalog == [] then []
    else
      (if IsAnswerProvided(Lookup(answers, catalog[0].id)) then [catalog[0]] else [])
      + ProvidedQuestions(catalog[1..], answers)
  }

  /** The complement: questions not yet confirmed, in catalog order. */
  function UnprovidedQuestions(catalog: seq<Question>, answers: AnswersState): (r: seq<Question>)
    ensures forall q :: q in r <==> q in catalog && !IsAnswerProvided(Lookup(answers, q.id))
    decreases |catalog|
  {
    if catalog == [] then []
    else
      (if IsAnswerProvided(Lookup(answers, catalog[0].id)) then [] else [catalog[0]])
      + UnprovidedQuestions(catalog[1..], answers)
  }

  /** The number of provided answers over the whole catalog (`answeredQuestions`). */
  function CountProvided(catalog: seq<Question>, answers: AnswersState): nat {
    |ProvidedQuestions(catalog, answers)|
  }

  /** Every question is either answered or unanswered, never both. */
  lemma {:induction false} ProvidedSplit(catalog: seq<Question>, answers: AnswersState)
    ensures |ProvidedQuestions(catalog, answers)| + |UnprovidedQuestions(catalog, answers)| == |catalog|
    decreases |catalog|
  {
    if catalog != [] {
      ProvidedSplit(catalog[1..], answers);
    }
  }

  /** The answered and the unanswered questions together are the catalog, each question once. */
  lemma {:induction false} ProvidedPartition(catalog: seq<Question>, answers: AnswersState)
    ensures multiset(ProvidedQuestions(catalog, answers)) + multiset(UnprovidedQuestions(catalog, answers))
            == multiset(catalog)
    decreases |catalog|
  {
    if catalog != [] {
      var c, rest := catalog[0], catalog[1..];
      ProvidedPartition(rest, answers);
      var p, u := ProvidedQuestions(rest, answers), UnprovidedQuestions(rest, answers);
      assert multiset(catalog) == multiset([c]) + multiset(rest) by {
        assert catalog == [c] + rest;
      }
      if IsAnswerProvided(Lookup(answers, c.id)) {
        assert ProvidedQuestions(catalog, answers) == [c] + p;
        assert UnprovidedQuestions(catalog, answers) == u;
      } else {
        assert ProvidedQuestions(catalog, answers) == p;
        assert UnprovidedQuestions(catalog, answers) == [c] + u;
      }
    }
  }

  /** Two answer stores that agree on which catalog answers are confirmed have the same provided questions. */
  lemma {:induction false} ProvidedDependsOnlyOnConfirmed(catalog: seq<Question>, a: AnswersState, b: AnswersState)
    requires forall q :: q in catalog ==> IsAnswerProvided(Lookup(a, q.id)) == IsAnswerProvided(Lookup(b, q.id))
    ensures ProvidedQuestions(catalog, a) == ProvidedQuestions(catalog, b)
    decreases |catalog|
  {
    if catalog != [] {
      assert catalog[0] in catalog;
      ProvidedDependsOnlyOnConfirmed(catalog[1..], a, b);
    }
  }

  /** The status filter of the questionnaire view. */
  datatype FilterStatus = All | AnsweredOnly | UnansweredOnly

  /** The status half of `filteredAndSearchedQuestions`. */
  function FilterByStatus(catalog: seq<Question>, answers: AnswersState, status: FilterStatus): seq<Question> {
    match status
    case All => catalog
    case AnsweredOnly => ProvidedQuestions(catalog, answers)
    case UnansweredOnly => UnprovidedQuestions(catalog, answers)
  }

  /**
   * The answered filter shows exactly the questions the progress counter and
   * the report count, and the two filters together show every question once.
   */
  lemma FilterPartitions(catalog: seq<Question>, answers: AnswersState)
    ensures |FilterByStatus(catalog, answers, AnsweredOnly)| == CountProvided(catalog, answers)
    ensures |FilterByStatus(catalog, answers, AnsweredOnly)| + |FilterByStatus(catalog, answers, UnansweredOnly)|
            == |FilterByStatus(catalog, answers, All)|
  {
    ProvidedSplit(catalog, answers);
  }
}
