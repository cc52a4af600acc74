/**
 * The records the diagnosis engine works on, as App.tsx uses them: questions
 * of the static catalog, answers keyed by question id, AI assessments,
 * diagnoses with their report snapshots, and folders.
 */
module Types {

  datatype Option<+T> = None | Some(value: T)

  /** The five question types of the catalog. */
  datatype QuestionType = Boolean | SingleChoice | MultipleChoice | Text | TextBlock

  /**
   * An answer value. `Unanswered` is JavaScript `undefined`, `NotApplicable`
   * is `null`; the two are kept apart.
   */
  datatype AnswerValue =
    | Unanswered
    | NotApplicable
    | Bool(b: bool)
    | Str(s: string)
    | List(items: seq<string>)

  datatype Attachment = Attachment(name: string, mimeType: string, content: string)

  /**
   * The result of the external sufficiency check. The status is kept as the
   * text the service sent: anything other than "sufficient" and "partial"
   * scores nothing.
   */
  datatype AiCheckResult = AiCheckResult(status: string, feedback: string, improvementSuggestion: Option<string>)

  /** A consultant decision; `None` (null or absent) means pending. */
  datatype ValidationStatus = Validated | Refused

  /**
   * One answer. `confirmed` is false when the field is absent; `attachment`,
   * `aiCheck`, `validationStatus` and `consultantComment` are `None` when absent.
   */
  datatype Answer = Answer(
    value: AnswerValue,
    evidence: string,
    attachment: Option<Attachment>,
    confirmed: bool,
    aiCheck: Option<AiCheckResult>,
    validationStatus: Option<ValidationStatus>,
    consultantComment: Option<string>)

  /** Answers of one diagnosis, keyed by question id. */
  type AnswersState = map<string, Answer>

  datatype Question = Question(
    id: string,
    topic: string,
    subtopic: string,
    text: string,
    qtype: QuestionType,
    options: seq<string>,
    reference: string,
    referenceText: string)

  datatype SubtopicCompliance = SubtopicCompliance(name: string, compliance: real)

  datatype TopicCompliance = TopicCompliance(topic: string, compliance: real, subtopics: seq<SubtopicCompliance>)

  /** An immutable report snapshot; `generatedAt` is an opaque timestamp. */
  datatype ReportData = ReportData(
    allQuestions: seq<Question>,
    deficiencies: seq<Question>,
    allAnswers: AnswersState,
    companyName: string,
    answeredQuestions: nat,
    totalQuestions: nat,
    generatedAt: int,
    weightedCompliance: real,
    s1Compliance: real,
    s2Compliance: real,
    topicCompliance: seq<TopicCompliance>,
    isConsultantReport: bool)

  datatype ViewMode = QuestionnaireMode | ReportMode

  datatype QuestionnaireViewMode = Detailed | Summary

  /** One company's assessment; `lastUpdated` is an opaque, comparable timestamp. */
  datatype Diagnosis = Diagnosis(
    id: string,
    companyName: string,
    answers: AnswersState,
    currentTopicName: string,
    reportData: Option<ReportData>,
    validatedReportData: Option<ReportData>,
    viewMode: ViewMode,
    questionnaireViewMode: QuestionnaireViewMode,
    lastUpdated: int,
    folderId: Option<string>)

  datatype Folder = Folder(id: string, name: string)

  /** `answers[id]`, with an absent key read as `undefined`. */
  function Lookup(answers: AnswersState, id: string): Option<Answer> {
    if id in answers then Some(answers[id]) else None
  }

  /** Question ids are unique in the catalog. */
  predicate UniqueIds(catalog: seq<Question>) {
    forall i, j :: 0 <= i < j < |catalog| ==> catalog[i].id != catalog[j].id
  }
}
