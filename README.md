# IFRS S1/S2 compliance diagnosis — a verified model

This project models the compliance-diagnosis core of a single-page application. A company answers a questionnaire about the IFRS S1 and IFRS S2 sustainability-disclosure standards. An external checker assesses each confirmed answer as sufficient, partial or insufficient, and the application aggregates those assessments into a compliance report. A consultant can then validate, refuse or revise each answer and generate a second, validated report. Saved diagnoses can be filed into folders.

The model covers:

- **Answers.** The answer store and the single "answered" test (an answer counts exactly when it is confirmed). It also covers the text an answer is given in a checking prompt and the answered/unanswered filter (`answers.dfy`).
- **Verification.** The verification queue run before each report: provided answers without an assessment are checked one at a time, and a failed check leaves the answer as it was. The checker is an oracle parameter (`verification.dfy`).
- **Aggregation.** An imperative walk over the catalog that accumulates overall, per-topic, per-subtopic and per-standard scores in half-points and collects deficiencies. It is proved equal to a functional report definition, and the percentages and sorted subtopic lists are proved about that definition (`aggregation.dfy`, `sorting.dfy`).
- **Import decoding.** The decoding of the document-import service's response into typed, confirmed answers, with a round trip against the prompt format (`import.dfy`).
- **Diagnoses and folders.** The copy-on-write updates of the diagnoses and folders: answering, validation decisions, consultant edits, folder creation, deletion and moves. Also the two report-generation handlers, which share one aggregation (`diagnoses.dfy`).
- **Consultant area.** The validation counters and the gate on the validated report, the validate/refuse/revise actions and their comments, and the split of completed diagnoses (`consultant.dfy`).
- **Questionnaire screens.** Value presence, the multiple-choice toggle, confirm/save, attachment removal, the AI-check button's gate, the summary cell and the choice of screen (`questionnaire.dfy`).
- **Report screen.** Display formatting, question-type labels, the summary cell, the answered percentage and the chart carousel (`report.dfy`).
- **Saved reports.** The grouping of saved diagnoses by folder, newest first. Also the folders' expanded state and the drag-and-drop guard (`saved_reports.dfy`).

Modelling conventions:

- Answer values are a sum type `Unanswered | NotApplicable | Bool | Str | List`. `Unanswered` stands for JavaScript `undefined` and `NotApplicable` for `null`.
- An absent `confirmed` flag is `false`. A missing optional field is `None`.
- Timestamps and generated ids are integer or string parameters (`now`, `newId`).
- A JavaScript `TypeError` that a branch would raise is an explicit value: `None` from `FormatAnswerForPrompt`, or `Raises` in the summary cells.

Two places where the code does less than one might expect:

- The question weight is fixed at 1, not a parameter.
- The validated report is refused only by the disabled button, not by a check inside the handler. So `Diagnoses.GenerateValidatedReport` has no pending-answers precondition, and the gate is stated separately in `Consultant.GateIff`.

## Model

| member | source | states |
|---|---|---|
| Answers.FormatAnswerForPrompt | App.tsx:52-63 | null gives "Não aplicável.", undefined gives "Não respondido."; it raises exactly for a multiple-choice question holding a non-array; a multiple-choice list is joined with ", " |
| Answers.WellTypedFormats | App.tsx:52-63 | a value of its question's shape always renders: a boolean as "Verdadeiro"/"Falso", a text as itself |
| Answers.PromptSeparatesNullStates | App.tsx:53-57 | "not applicable", "not answered" and every boolean rendering are pairwise different prompts, whatever the type |
| Answers.ProvidedQuestions | App.tsx:344 | the provided questions are exactly the catalog questions whose answer is confirmed, whatever the value, and no more than the catalog |
| Answers.UnprovidedQuestions | App.tsx:709 | the unanswered filter keeps exactly the catalog questions whose answer is not confirmed |
| Answers.ProvidedSplit | App.tsx:707-711 | the answered and unanswered filters together have the catalog's length |
| Answers.ProvidedPartition | App.tsx:707-711 | the answered and unanswered filters together are the catalog as a multiset: every question shows in exactly one |
| Answers.ProvidedDependsOnlyOnConfirmed | App.tsx:48-50 | two answer stores that agree on `confirmed` have the same provided questions |
| Answers.FilterPartitions | App.tsx:704-711 | the answered filter has as many questions as the answered count, and the two filters together cover the catalog |
| Verification.Unchecked | App.tsx:347 | keeps exactly the questions whose answer has no assessment |
| Verification.VerificationQueue | App.tsx:344-347 | the queue is exactly the provided answers without an assessment |
| Verification.VerifyAnswers | App.tsx:350-366 | the sequential loop makes exactly one checker call per queued question and yields the fold of the calls over the queue in catalog order |
| Verification.CheckAllKeys | App.tsx:356-361 | verification never adds or removes an answer |
| Verification.CheckAllOnlySetsAiCheck | App.tsx:356-361 | verification changes only `aiCheck`; `confirmed`, value, evidence and every other field stay |
| Verification.CheckAllUntouched | App.tsx:350-361 | an answer whose question is not queued is left exactly as it was |
| Verification.CheckAllAt | App.tsx:354-361 | the i-th queued answer holds the i-th call's result when that call succeeds, and its old assessment when it fails |
| Verification.QueueUnique | App.tsx:344-347 | with unique catalog ids the queue holds each question once |
| Verification.AllCheckedNoCalls | App.tsx:344-366 | when every provided answer already has an assessment, the queue is empty (zero calls) and the answers are unchanged |
| Verification.VerifyKeepsExisting | App.tsx:347-361 | an existing assessment is never overwritten |
| Verification.RequeuedAreFailures | App.tsx:356-361 | after a run, the questions still awaiting a check are exactly the queued ones whose call failed |
| Sorting.SortBy | App.tsx:458 | the stable sort by a numeric key returns its input sorted ascending and as the same multiset |
| Sorting.SortByCompliance | App.tsx:458 | subtopics are sorted worst compliance first, and it is a permutation of the input |
| Sorting.SortByStable | App.tsx:458 | the sort is stable: the elements with any one key value come out in their input order |
| Sorting.PermutationDistinct | App.tsx:458 | a reordering of a list without repeats has no repeats |
| PropertyKeys.OwnKeysPermutes | App.tsx:451 | `Object.entries` lists exactly the keys that were added, each as often |
| PropertyKeys.OwnKeysOrder | App.tsx:451 | array-index keys come first, in ascending numeric order, and the other keys keep their insertion order |
| PropertyKeys.OwnKeysPlain | App.tsx:451 | with no array-index key the keys are listed in insertion order |
| PropertyKeys.OwnKeysDistinct | App.tsx:451 | keys added once each are listed once each |
| PropertyKeys.IntegerKeysFirst | App.tsx:451 | keys added as "b", "2", "1" are listed as "1", "2", "b" |
| Aggregation.ScoreHalf | App.tsx:414-430 | a question scores 2 half-points exactly for a confirmed answer assessed "sufficient", 1 exactly for "partial", and 0 otherwise |
| Aggregation.Possible | App.tsx:404-412 | a bucket's possible score never exceeds the number of questions |
| Aggregation.TopicsOf | App.tsx:36 | the topic list has no duplicates |
| Aggregation.Aggregate | App.tsx:369-484 | the imperative walk with its mutable accumulators and `topicScores` dictionary produces exactly the report `ComplianceReport` defines |
| Aggregation.WalkCatalog | App.tsx:396-443 | the `forEach` over the catalog leaves every accumulator equal to its bucket's totals and `deficiencies` equal to the catalog-order deficiency list |
| Aggregation.AddToTopic | App.tsx:400-437 | adding one question to a topic's tally creates its subtopic entry on first sight and keeps every topic and subtopic total exact |
| Aggregation.TopicComplianceOf | App.tsx:449-467 | the `APP_TOPICS.map` builds one entry per topic with its percentage and its subtopic list, listed in `Object.entries` key order and then sorted |
| Aggregation.ScoreQuestion | App.tsx:414-430 | the `switch` on the assessment status computes the question's half-point score |
| Aggregation.AchievedAtMostPossible | App.tsx:396-443 | in every bucket 0 ≤ achieved ≤ possible |
| Aggregation.OverallPossibleIsSize | App.tsx:404 | the overall possible score is the catalog size |
| Aggregation.ComplianceInRange | App.tsx:445-447 | a percentage lies in [0, 100], and is exactly 100 for an empty bucket |
| Aggregation.ComplianceFullIff | App.tsx:445 | for a non-empty bucket the percentage is 100 exactly when every point was achieved |
| Aggregation.ReportPercentagesInRange | App.tsx:445-467 | every percentage of a report (overall, S1, S2, each topic, each subtopic) lies in [0, 100] |
| Aggregation.DeficiencyMembers | App.tsx:440-442 | a question is a deficiency exactly when its score is below full |
| Aggregation.FullComplianceIffNoDeficiencies | App.tsx:440-445 | the overall percentage is 100 exactly when there are no deficiencies |
| Aggregation.TopicsPartitionCatalog | App.tsx:404-405 | the topics' possible scores add up to the catalog size: each question counts in exactly one topic |
| Aggregation.TopicListExact | App.tsx:449-467 | the report lists exactly the catalog's topics, each once |
| Aggregation.SubtopicListsExact | App.tsx:449-459 | each topic's subtopic list is sorted worst first, names exactly the subtopics its questions have, and names each of them once |
| Aggregation.SubtopicTiesInKeyOrder | App.tsx:451-458 | subtopics of equal compliance stay in the key order `Object.entries` lists them in |
| Aggregation.ReportDependsOnlyOnScores | App.tsx:396-467 | two answer stores with the same per-question scores yield the same report figures |
| Aggregation.ThreeQuestionExample | App.tsx:396-477 | with one S1 question (sufficient), one S2 question (insufficient) and one in both (unconfirmed), the report shows 33.3% overall, 50% S1, 0% S2, deficiencies q2 and q3, 2 of 3 answered |
| ImportDecoding.FindQuestion | App.tsx:233-234 | returns the first catalog question with that id (no earlier question has it), or reports that none exists |
| ImportDecoding.DropEmpty | App.tsx:245 | keeps exactly the non-empty pieces |
| ImportDecoding.DecodeValue | App.tsx:236-253 | a blank string gives null; a boolean is true exactly for a trimmed "true" in any letter case; a multiple-choice value is split on commas, trimmed and filtered; other types keep the trimmed text; the result always has its question's shape |
| ImportDecoding.SplitOptionsClean | App.tsx:245 | every decoded option is non-empty, trimmed and comma-free |
| ImportDecoding.DecodeEntry | App.tsx:232-263 | an entry for an unknown id or with an unprovided value is dropped; a kept one is confirmed with a provided value |
| ImportDecoding.ParseValue | App.tsx:236-253 | the `switch` computes the decoded value |
| ImportDecoding.DecodeImport | App.tsx:231-264 | the `forEach` builds exactly the stored map of the decoded entries |
| ImportDecoding.StoreAllLastWins | App.tsx:257-263 | a key is present exactly when some entry stores under it, and holds the last such entry's answer |
| ImportDecoding.ImportedPresence | App.tsx:231-264 | an id is imported exactly when some response entry for it is kept, with the answer of the last one |
| ImportDecoding.ImportedWellFormed | App.tsx:231-264 | every imported answer belongs to a catalog question, is confirmed, has a provided value of the right shape that renders into a prompt, and carries no assessment, decision or attachment |
| ImportDecoding.MultipleChoiceRoundTrip | App.tsx:245 | a selection of clean options written as the prompt writes it decodes back to the same selection |
| ImportDecoding.StartFromReport | App.tsx:265-282 | a failed service call or an empty catalog changes nothing; otherwise the new diagnosis is appended to the list and becomes the active one, holding the imported answers, starting at the first topic in the summary view, with no report and no folder |
| Diagnoses.FindDiagnosis | App.tsx:144-146 | returns the first index with that id, or none when no diagnosis has it |
| Diagnoses.SetAnswer | App.tsx:320 | the question gets the new answer and every other entry is unchanged |
| Diagnoses.HandleAnswer | App.tsx:308-323 | only the active diagnosis changes: it gets the answer and a new `lastUpdated`, and every other field is unchanged |
| Diagnoses.SetValidation | App.tsx:530-539 | only that existing answer's status and comment change; the old comment is kept when none is supplied; a missing answer is not created |
| Diagnoses.UpdateAnswerValidation | App.tsx:528-543 | only the named diagnosis changes: its answers as above and a new `lastUpdated` |
| Diagnoses.ValidationKeepsScores | App.tsx:528-543 | a validation decision changes no score and no answered count |
| Diagnoses.ValidationKeepsReport | App.tsx:528-543 | a report generated after a validation decision has the figures of one generated before it |
| Diagnoses.AnswerUpdateFromConsultant | App.tsx:545-553 | only the named diagnosis changes: it gets the consultant's answer under that question and a new `lastUpdated` |
| Diagnoses.CreateFolder | App.tsx:502-509 | a blank name changes nothing; otherwise one folder with the trimmed name is appended after the existing ones; names stay non-blank and trimmed |
| Diagnoses.RemoveFolder | App.tsx:518 | keeps exactly the folders with another id |
| Diagnoses.DeleteFolder | App.tsx:511-520 | the user is alerted exactly when a diagnosis is in the folder, and then nothing changes; otherwise the folder is removed only if the user confirms |
| Diagnoses.DeleteKeepsFiledDiagnoses | App.tsx:511-520 | deleting a folder never strands a filed diagnosis; a folder disappears only if nothing was in it |
| Diagnoses.MoveDiagnosisToFolder | App.tsx:522-526 | only that diagnosis changes: its folder and `lastUpdated` |
| Diagnoses.VerifyAndAggregate | App.tsx:341-484 | the verification queue followed by the one shared aggregation |
| Diagnoses.SendReport | App.tsx:337-489 | without an active diagnosis nothing happens; otherwise the answers are verified, the report is the aggregation of the verified answers (not a consultant report), and the diagnosis switches to the report view |
| Diagnoses.SentReports | App.tsx:485 | only the active diagnosis changes: verified answers, submitted report, report view, new `lastUpdated` |
| Diagnoses.GenerateValidatedReport | App.tsx:555-698 | for an unknown id nothing happens; otherwise the same verification and aggregation run, marked as a consultant report, and the count is taken over the answers before verification |
| Diagnoses.ValidatedReports | App.tsx:694-698 | only that diagnosis changes: verified answers, validated report, new `lastUpdated`; the submitted report stays |
| Diagnoses.AnsweredCountUnaffectedByVerification | App.tsx:677 | counting over the answers before verification gives the same number as counting after it |
| Diagnoses.ValidatedMatchesSubmitted | App.tsx:555-698 | the two handlers produce the same figures from the same answers; only `isConsultantReport` differs |
| Diagnoses.RegenerationIsStable | App.tsx:344-366 | regenerating when every provided answer is assessed makes zero calls and reports the answers as they are |
| Consultant.CountWith | components/ConsultantArea.tsx:159-166 | the number of questions whose answer carries a given decision (validated, refused or none), counted one question at a time; it is the independent definition `Consultant.TallyDecisions` and `Consultant.NoPendingIff` are proved against, and never exceeds the number of questions |
| Consultant.ComputeStats | components/ConsultantArea.tsx:155-167 | total is the answered count; total = validated + refused + pending; each count is the number of provided answers with that decision |
| Consultant.TallyDecisions | components/ConsultantArea.tsx:159-166 | the `forEach` counts each question once, under its own decision |
| Consultant.NoPendingIff | components/ConsultantArea.tsx:169 | the pending count is 0 exactly when every counted question carries a decision |
| Consultant.GateIff | components/ConsultantArea.tsx:197 | the validated report can be generated exactly when no generation is running and every provided answer is validated or refused |
| Consultant.Validate | components/ConsultantArea.tsx:259 | the answer becomes validated with the comment "Validado pelo consultor."; other diagnoses are unchanged |
| Consultant.RefusalComment | components/ConsultantArea.tsx:288 | an empty justification becomes "Recusado pelo consultor."; a typed one is kept |
| Consultant.Refuse | components/ConsultantArea.tsx:284-290 | the answer becomes refused with the refusal comment; other diagnoses are unchanged |
| Consultant.ConsultantSave | components/ConsultantArea.tsx:73-76 | the revision is confirmed, loses its decision and assessment, and gets "Revisado pelo consultor."; value, evidence and attachment are kept |
| Consultant.ConsultantRemoveAttachment | components/ConsultantArea.tsx:68-71 | only the attachment is removed |
| Consultant.RevisedAnswerReenters | components/ConsultantArea.tsx:73-76 | a revised answer counts as answered, is queued for a fresh check and is pending again |
| Consultant.SaveRevision | components/ConsultantArea.tsx:73-76 | the revised answer is stored on that diagnosis only |
| Consultant.Completed | components/ConsultantArea.tsx:302 | keeps exactly the diagnoses that have a submitted report |
| Consultant.ByValidationMembers | components/ConsultantArea.tsx:304-305 | each filter keeps exactly the diagnoses with, respectively without, a validated report |
| Consultant.ByValidationPartition | components/ConsultantArea.tsx:304-305 | the two filters together are their input as a multiset |
| Consultant.SplitPartitions | components/ConsultantArea.tsx:301-307 | the lists awaiting validation and validated are disjoint and together hold every completed diagnosis as often as it occurs |
| Consultant.GenerationMovesToValidated | App.tsx:694-698 | generating the validated report moves a diagnosis from the awaiting list to the validated list |
| Questionnaire.InitialAnswer | components/Questionnaire.tsx:664 | a stored answer is used as it is; otherwise the card starts unconfirmed with a null value and no evidence |
| Questionnaire.RemoveAllCounts | components/Questionnaire.tsx:90 | unchecking removes every occurrence and keeps every other option's multiplicity |
| Questionnaire.RemoveAllAppend | components/Questionnaire.tsx:90 | the filter distributes over concatenation, so the rest keeps its order |
| Questionnaire.ToggleOption | components/Questionnaire.tsx:87-92 | checking appends the option after the untouched selection; unchecking removes every occurrence and keeps the others' counts |
| Questionnaire.ToggleRoundTrip | components/Questionnaire.tsx:87-92 | checking then unchecking a new option restores the selection; unchecking keeps the relative order of the rest |
| Questionnaire.Confirm | components/Questionnaire.tsx:254-257 | the answer is stored with `confirmed` set and every other field as edited |
| Questionnaire.ConfirmCounts | components/Questionnaire.tsx:474-477 | a confirmed answer counts as answered, even an untouched one, which then reads "not applicable" |
| Questionnaire.RemoveAttachment | components/Questionnaire.tsx:249-252 | only the attachment is removed |
| Questionnaire.MergeWithoutAttachment | components/Questionnaire.tsx:428-431 | merging a partial answer without an attachment key keeps the previous attachment |
| Questionnaire.CardRemoveAttachmentAsWritten | components/Questionnaire.tsx:495-498 | the card's remove button as written marks the card dirty |
| Questionnaire.CardRemoveAttachmentKeepsIt | components/Questionnaire.tsx:495-498 | as written, the remove button leaves the answer, attachment included, unchanged |
| Questionnaire.CardRemoveAttachment | components/Questionnaire.tsx:495-498 | as intended, the attachment is removed, nothing else in the answer changes, and the card is dirty |
| Questionnaire.CardConfirm | components/Questionnaire.tsx:474-477 | confirming stores the confirmed answer and clears the dirty flag |
| Questionnaire.ConfirmDisablesButton | components/Questionnaire.tsx:594 | after a confirmation the button is disabled until the next edit |
| Questionnaire.AiCheckGate | components/Questionnaire.tsx:586 | the AI-check button is enabled only for a provided value (never null, undefined, blank text or an empty selection), always for a boolean, and then the prompt can be built |
| Questionnaire.SummaryAnswerText | components/Questionnaire.tsx:322-343 | "Pendente" exactly for an unconfirmed answer; "Não Aplicável" for a confirmed null; a selection shows its count |
| Questionnaire.SummaryMatchesCounter | components/Questionnaire.tsx:322-325 | "Pendente" marks exactly the questions the answered count leaves out, and a well-shaped answer never raises |
| Questionnaire.QuestionnaireScreen | components/Questionnaire.tsx:627-670 | the summary mode shows the summary; a detailed view with no questions shows the empty notice; otherwise one card per question |
| Report.FormatAnswerValueForDisplay | components/Report.tsx:124-138 | null or undefined reads "Não Aplicável" when confirmed and "Não respondido" when not; a boolean reads "Verdadeiro"/"Falso"; an empty list or blank text reads "Não respondido"; a list is joined with ", " |
| Report.DisplayAnswer | components/Report.tsx:150 | a missing answer displays as not answered |
| Report.DisplayAgreesWithValuePresence | components/Report.tsx:124-138 | a value is greyed out exactly when the questionnaire treats it as not provided |
| Report.QuestionTypeLabel | components/Report.tsx:43-52 | every question type has a non-empty label |
| Report.QuestionTypeLabelInjective | components/Report.tsx:43-52 | different types have different labels |
| Report.SummaryAnswerText | components/Report.tsx:54-82 | "Não respondido" exactly for an unconfirmed answer; "Não Aplicável" for a confirmed null; a multiple-choice list shows its options |
| Report.SummariesAgree | components/Report.tsx:54-63 | the report's and the questionnaire's summaries agree on open and not-applicable answers, and a well-shaped value never raises |
| Report.AnsweredPercentage | components/Report.tsx:333 | 0 for no questions, otherwise answered/total × 100 |
| Report.PercentageOf | components/Report.tsx:333 | the percentage lies in [0, 100] and is 100 exactly when all are answered |
| Report.AnsweredPercentageInRange | components/Report.tsx:333 | a report's answered percentage lies in [0, 100] and is 100 exactly when every catalog question is answered |
| Report.SlidesWrap | components/Report.tsx:341-347 | next and previous keep the index among the slides, wrap at the ends and undo each other |
| Report.AdvanceUpTo | components/Report.tsx:341-343 | up to a full turn, k presses move k places on, wrapping once |
| Report.FullTurn | components/Report.tsx:341-343 | as many presses as there are slides return to the slide shown before |
| Report.ThreeSlidesCycle | components/Report.tsx:335-343 | on the three-chart carousel three presses return to the start |
| SavedReports.SortByRecency | components/SavedReports.tsx:164 | the copy is sorted newest first and is a permutation of the diagnoses |
| SavedReports.SameTimeKeepsOrder | components/SavedReports.tsx:164 | diagnoses with the same `lastUpdated` keep their original relative order |
| SavedReports.FolderIdsMembers | components/SavedReports.tsx:167-169 | an id is a key of the grouping exactly when some folder has it |
| SavedReports.GroupReports | components/SavedReports.tsx:163-182 | every folder gets a list; each list is its filed diagnoses in sorted order; the uncategorized list holds the rest in sorted order |
| SavedReports.Distribute | components/SavedReports.tsx:173-179 | each diagnosis goes to its folder's list when its non-empty id names an existing folder, and to the uncategorized list otherwise |
| SavedReports.FilteredNewestFirst | components/SavedReports.tsx:173-179 | each group keeps the newest-first order |
| SavedReports.EachInOnePlace | components/SavedReports.tsx:173-179 | a diagnosis lands in its own folder's list, or in the uncategorized list, as often as it occurs, and in no other list |
| SavedReports.GroupingPartitions | components/SavedReports.tsx:163-182 | the groups shown are newest first and together hold every diagnosis exactly once per occurrence |
| SavedReports.ExpandDefaults | components/SavedReports.tsx:151-161 | existing entries are kept, every folder gets an entry, and the new entries are expanded |
| SavedReports.ToggleExpanded | components/SavedReports.tsx:191-196 | toggling flips what the folder shows (a missing entry reads as collapsed) and leaves every other entry alone |
| SavedReports.ExpansionProperties | components/SavedReports.tsx:151-196 | two toggles restore what is shown; a newly seen folder starts expanded; a known one keeps its state |
| SavedReports.HandleDrop | components/SavedReports.tsx:225-235 | a drop moves the diagnosis only when a drag is in progress, the diagnosis exists and it is not already in the target; the drag state is cleared in every case |
| SavedReports.DropLandsInTarget | components/SavedReports.tsx:225-235 | after a drop the dragged diagnosis is in the target; a drop on its current folder, or of an unknown id, changes nothing |

## Left out

- The checking and document-analysis services (the prompts, the HTTP calls, `JSON.parse` of their responses) are not modelled. The checker is an oracle parameter and the import service's response a parameter.
- The 200 ms pause between checker calls is timing, not logic, and is not modelled.
- Single-question checks from a question card or the edit modal (`handleAiCheck`) are calls into the same service, and are left out with it.
- `localStorage` persistence, `FileReader`, base64 encoding and the 2 MB attachment limit are I/O, and are left out.
- Rendering, charts, `window.confirm` and `alert` are not modelled. The user's answer to the confirmation dialog is a `userConfirms` parameter, and the alert is a flag in `Diagnoses.DeleteOutcome`.
- Clock values and generated ids are parameters. `lastUpdated` is an integer, and its ISO string is not parsed.
- The text search of the questionnaire filter is left out: it depends on JavaScript's Unicode case folding. Only the status filter is modelled.
- The regular-expression splitting of a question's reference text is left out: it is presentation and depends on JavaScript regular expressions.
- The consultant table's own answer formatter and the topic grouping of the summary table are presentation only, and are left out.
- The static question catalog is not shown. It is a parameter, and its topic list is derived as in App.tsx:36-40.
- Two generation runs started at once are not guarded in the application. Concurrency is left out.
- JavaScript objects used as dictionaries inherit prototype keys such as `constructor`. The model uses maps without such keys, so a folder or question id that collides with a prototype key is not modelled.
- Floating point is replaced by exact reals, and scores are kept in whole half-points.
- Switching to the diagnosis screen (`setView`) and clearing the questionnaire filters (`resetFilters`) after an import are screen state; `ImportDecoding.StartFromReport` models the list and the active diagnosis only.
- Questionnaire.LengthOf: counts characters, while JavaScript's `length` counts UTF-16 code units; the two differ for characters outside the Basic Multilingual Plane, which the model does not distinguish.
- Report.DisplayAnswer: states only the missing-answer case; a present answer is displayed by `Report.FormatAnswerValueForDisplay`, whose contract covers every value.

## Findings

| source | as written | input that shows it | evidently intended | confidence | as-written member | corrected member |
|---|---|---|---|---|---|---|
| components/Questionnaire.tsx:495-498 | the card's remove button passes the answer without its `attachment` key to `updateAnswerState`, which merges it into the previous answer (`{ ...prev, ...rest }`), so the previous attachment survives | any card whose answer has an attachment: after the click the answer is unchanged and still has it (`Questionnaire.CardRemoveAttachmentKeepsIt`) | the attachment is removed, as the edit modal's button does at components/Questionnaire.tsx:249-252 | high; not executed | Questionnaire.CardRemoveAttachmentAsWritten | Questionnaire.CardRemoveAttachment |
