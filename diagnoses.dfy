/**
 * The copy-on-write updates App.tsx applies to its list of diagnoses and to
 * its list of folders, and the two report-generation handlers, which run the
 * verification queue and then the single aggregation.
 *
 * Every update returns a new list; the diagnoses it does not target are
 * returned unchanged. `now` stands for `new Date().toISOString()`.
 */
module Diagnoses {
  import opened Types
  import opened Strings
  import opened Answers
  import opened Verification
  import opened Aggregation

  /** `diagnoses.find(d => d.id === id)`: the index of the first diagnosis with that id. */
  function FindDiagnosis(ds: seq<Diagnosis>, id: string): (r: Option<nat>)
    ensures r.Some? ==> r.value < |ds| && ds[r.value].id == id
    ensures r.Some? ==> forall i :: 0 <= i < r.value ==> ds[i].id != id
    ensures r.None? ==> forall i :: 0 <= i < |ds| ==> ds[i].id != id
    decreases |ds|
  {
    if ds == [] then None
    else if ds[0].id == id then Some(0)
    else
      match FindDiagnosis(ds[1..], id)
      case None => None
      case Some(k) => Some(k + 1)
  }

  /** `{ ...d.answers, [questionId]: answer }`. */
  function SetAnswer(answers: AnswersState, questionId: string, answer: Answer): (r: AnswersState)
    ensures questionId in r && r[questionId] == answer
    ensures forall k :: k != questionId ==> Lookup(r, k) == Lookup(answers, k)
  {
    answers[questionId := answer]
  }

  // ---------------------------------------------------------------------
  // Answer updates.

  /**
   * `handleAnswer` through `updateActiveDiagnosis`: the active diagnosis gets
   * the answer under `questionId` and a new `lastUpdated`.
   */
  function HandleAnswer(ds: seq<Diagnosis>, activeId: string, questionId: string, answer: Answer, now: int)
    : (r: seq<Diagnosis>)
    ensures |r| == |ds|
    ensures forall i :: 0 <= i < |ds| && ds[i].id != activeId ==> r[i] == ds[i]
    ensures forall i :: 0 <= i < |ds| && ds[i].id == activeId ==>
              && r[i].(answers := ds[i].answers, lastUpdated := ds[i].lastUpdated) == ds[i]
              && r[i].lastUpdated == now
              && Lookup(r[i].answers, questionId) == Some(answer)
              && (forall k :: k != questionId ==> Lookup(r[i].answers, k) == Lookup(ds[i].answers, k))
  {
    seq(|ds|, i requires 0 <= i < |ds| =>
      if ds[i].id == activeId then ds[i].(answers := SetAnswer(ds[i].answers, questionId, answer), lastUpdated := now)
      else ds[i])
  }

  /**
   * `handleUpdateAnswerValidation`: in the diagnosis `diagnosisId`, an
   * existing answer gets the new status, and the supplied comment or, when
   * none is supplied, its old one. A missing answer is not created. The
   * diagnosis's `lastUpdated` changes in both cases.
   */
  function SetValidation(answers: AnswersState, questionId: string, status: Option<ValidationStatus>,
                         comment: Option<string>): (r: AnswersState)
    ensures r.Keys == answers.Keys
    ensures forall k :: k != questionId ==> Lookup(r, k) == Lookup(answers, k)
    ensures questionId in answers ==>
              && r[questionId].(validationStatus := answers[questionId].validationStatus,
                                consultantComment := answers[questionId].consultantComment) == answers[questionId]
              && r[questionId].validationStatus == status
              && r[questionId].consultantComment == (if comment.Some? then comment else answers[questionId].consultantComment)
  {
    if questionId in answers then
      var prior := answers[questionId];
      answers[questionId := prior.(validationStatus := status,
                                 consultantComment := if comment.Some? then comment else prior.consultantComment)]
    else answers
  }

  function UpdateAnswerValidation(ds: seq<Diagnosis>, diagnosisId: string, questionId: string,
                                  status: Option<ValidationStatus>, comment: Option<string>, now: int)
    : (r: seq<Diagnosis>)
    ensures |r| == |ds|
    ensures forall i :: 0 <= i < |ds| && ds[i].id != diagnosisId ==> r[i] == ds[i]
    ensures forall i :: 0 <= i < |ds| && ds[i].id == diagnosisId ==>
              && r[i].(answers := ds[i].answers, lastUpdated := ds[i].lastUpdated) == ds[i]
              && r[i].lastUpdated == now
              && r[i].answers == SetValidation(ds[i].answers, questionId, status, comment)
  {
    seq(|ds|, i requires 0 <= i < |ds| =>
      if ds[i].id == diagnosisId
      then ds[i].(answers := SetValidation(ds[i].answers, questionId, status, comment), lastUpdated := now)
      else ds[i])
  }

  /**
   * A validation decision changes no score, so a report generated after it
   * has the same figures as one generated before it.
   */
  lemma ValidationKeepsScores(catalog: seq<Question>, answers: AnswersState, questionId: string,
                              status: Option<ValidationStatus>, comment: Option<string>)
    ensures SameScores(catalog, answers, SetValidation(answers, questionId, status, comment))
    ensures CountProvided(catalog, SetValidation(answers, questionId, status, comment)) == CountProvided(catalog, answers)
  {
    var after := SetValidation(answers, questionId, status, comment);
    forall i | 0 <= i < |catalog| ensures ScoreHalf(Lookup(answers, catalog[i].id)) == ScoreHalf(Lookup(after, catalog[i].id)) {
    }
    forall q | q in catalog ensures IsAnswerProvided(Lookup(answers, q.id)) == IsAnswerProvided(Lookup(after, q.id)) {
    }
    ProvidedDependsOnlyOnConfirmed(catalog, answers, after);
  }

  /**
   * A report generated after a validation decision has the figures of one
   * generated before it; only the stored answers differ.
   */
  lemma ValidationKeepsReport(catalog: seq<Question>, answers: AnswersState, questionId: string,
                              status: Option<ValidationStatus>, comment: Option<string>, companyName: string,
                              now: int, isConsultantReport: bool)
    ensures var after := SetValidation(answers, questionId, status, comment);
            ComplianceReport(catalog, answers, companyName, CountProvided(catalog, answers), now, isConsultantReport)
              .(allAnswers := after)
            == ComplianceReport(catalog, after, companyName, CountProvided(catalog, after), now, isConsultantReport)
  {
    var after := SetValidation(answers, questionId, status, comment);
    ValidationKeepsScores(catalog, answers, questionId, status, comment);
    ReportDependsOnlyOnScores(catalog, answers, after, companyName, CountProvided(catalog, answers), now, isConsultantReport);
  }

  /**
   * `handleAnswerUpdateFromConsultant`: the diagnosis gets the consultant's
   * answer under `questionId`. Mapping the list by id has the same effect as
   * `handleAnswer` on the diagnosis of that id.
   */
  function AnswerUpdateFromConsultant(ds: seq<Diagnosis>, diagnosisId: string, questionId: string,
                                      newAnswer: Answer, now: int)
    : (r: seq<Diagnosis>)
    ensures |r| == |ds|
    ensures forall i :: 0 <= i < |ds| && ds[i].id != diagnosisId ==> r[i] == ds[i]
    ensures forall i :: 0 <= i < |ds| && ds[i].id == diagnosisId ==>
              && r[i].(answers := ds[i].answers, lastUpdated := ds[i].lastUpdated) == ds[i]
              && r[i].lastUpdated == now
              && Lookup(r[i].answers, questionId) == Some(newAnswer)
              && (forall k :: k != questionId ==> Lookup(r[i].answers, k) == Lookup(ds[i].answers, k))
  {
    HandleAnswer(ds, diagnosisId, questionId, newAnswer, now)
  }

  // ---------------------------------------------------------------------
  // Folders.

  /** No folder has a blank or untrimmed name. */
  predicate FolderNamesClean(folders: seq<Folder>) {
    forall i :: 0 <= i < |folders| ==> folders[i].name != "" && IsTrimmed(folders[i].name)
  }

  /** `handleCreateFolder`: a blank name is ignored; otherwise a folder with the trimmed name is appended. */
  function CreateFolder(folders: seq<Folder>, name: string, newId: string): (r: seq<Folder>)
    ensures Trim(name) == "" ==> r == folders
    ensures Trim(name) != "" ==> |r| == |folders| + 1 && r[..|folders|] == folders
                                 && r[|folders|] == Folder(newId, Trim(name))
    ensures FolderNamesClean(folders) ==> FolderNamesClean(r)
  {
    if Trim(name) == "" then folders else folders + [Folder(newId, Trim(name))]
  }

  /** Some diagnosis is filed in folder `folderId`. */
  predicate FolderInUse(ds: seq<Diagnosis>, folderId: string) {
    exists i :: 0 <= i < |ds| && ds[i].folderId == Some(folderId)
  }

  /** `prev.filter(f => f.id !== folderId)`. */
  function RemoveFolder(folders: seq<Folder>, folderId: string): (r: seq<Folder>)
    ensures forall f :: f in r <==> f in folders && f.id != folderId
    ensures |r| <= |folders|
    decreases |folders|
  {
    if folders == [] then []
    else (if folders[0].id == folderId then [] else [folders[0]]) + RemoveFolder(folders[1..], folderId)
  }

  /** The outcome of `handleDeleteFolder`: the new folder list, and whether the "not empty" alert was shown. */
  datatype DeleteOutcome = DeleteOutcome(folders: seq<Folder>, alerted: bool)

  /**
   * `handleDeleteFolder`: a folder still holding a diagnosis is kept and the
   * user is alerted; otherwise it is removed if the user confirms.
   */
  function DeleteFolder(folders: seq<Folder>, ds: seq<Diagnosis>, folderId: string, userConfirms: bool)
    : (r: DeleteOutcome)
    ensures r.alerted <==> FolderInUse(ds, folderId)
    ensures r.alerted || !userConfirms ==> r.folders == folders
    ensures !r.alerted && userConfirms ==> r.folders == RemoveFolder(folders, folderId)
  {
    if FolderInUse(ds, folderId) then DeleteOutcome(folders, true)
    else if userConfirms then DeleteOutcome(RemoveFolder(folders, folderId), false)
    else DeleteOutcome(folders, false)
  }

  /** The folder `folderId` exists. */
  predicate FolderExists(folders: seq<Folder>, folderId: string) {
    exists i :: 0 <= i < |folders| && folders[i].id == folderId
  }

  /**
   * Deleting a folder never strands a diagnosis: every diagnosis filed in an
   * existing folder is still filed in an existing folder afterwards, and a
   * folder is gone only if nothing was filed in it.
   */
  lemma DeleteKeepsFiledDiagnoses(folders: seq<Folder>, ds: seq<Diagnosis>, folderId: string, userConfirms: bool)
    ensures var after := DeleteFolder(folders, ds, folderId, userConfirms).folders;
            && (forall i :: 0 <= i < |ds| && ds[i].folderId.Some? && FolderExists(folders, ds[i].folderId.value) ==>
                  FolderExists(after, ds[i].folderId.value))
            && (forall f :: f in folders && f !in after ==> f.id == folderId && !FolderInUse(ds, folderId))
  {
    var after := DeleteFolder(folders, ds, folderId, userConfirms).folders;
    forall i | 0 <= i < |ds| && ds[i].folderId.Some? && FolderExists(folders, ds[i].folderId.value)
      ensures FolderExists(after, ds[i].folderId.value)
    {
      var fid := ds[i].folderId.value;
      var j :| 0 <= j < |folders| && folders[j].id == fid;
      if after != folders {
        assert fid != folderId;
        assert folders[j] in after;
        var k :| 0 <= k < |after| && after[k] == folders[j];
      }
    }
  }

  /** `handleMoveDiagnosisToFolder`: the diagnosis is filed in `folderId` (or in none) and gets a new `lastUpdated`. */
  function MoveDiagnosisToFolder(ds: seq<Diagnosis>, diagnosisId: string, folderId: Option<string>, now: int)
    : (r: seq<Diagnosis>)
    ensures |r| == |ds|
    ensures forall i :: 0 <= i < |ds| && ds[i].id != diagnosisId ==> r[i] == ds[i]
    ensures forall i :: 0 <= i < |ds| && ds[i].id == diagnosisId ==>
              && r[i].(folderId := ds[i].folderId, lastUpdated := ds[i].lastUpdated) == ds[i]
              && r[i].folderId == folderId && r[i].lastUpdated == now
  {
    seq(|ds|, i requires 0 <= i < |ds| =>
      if ds[i].id == diagnosisId then ds[i].(folderId := folderId, lastUpdated := now) else ds[i])
  }

  // ---------------------------------------------------------------------
  // Report generation.

  /** The verification queue followed by the aggregation, shared by both handlers. */
  method VerifyAndAggregate(catalog: seq<Question>, answers: AnswersState, oracle: Oracle, companyName: string,
                            countFrom: AnswersState, useCountFrom: bool, now: int, isConsultantReport: bool)
    returns (checked: AnswersState, report: ReportData, calls: nat)
    ensures calls == |VerificationQueue(catalog, answers)|
    ensures checked == CheckAll(answers, VerificationQueue(catalog, answers), oracle)
    ensures report == ComplianceReport(catalog, checked, companyName,
                                       CountProvided(catalog, if useCountFrom then countFrom else checked),
                                       now, isConsultantReport)
  {
    checked, calls := VerifyAnswers(catalog, answers, oracle);
    var answeredCount := |ProvidedQuestions(catalog, if useCountFrom then countFrom else checked)|;
    report := Aggregate(catalog, checked, companyName, answeredCount, now, isConsultantReport);
  }

  /**
   * `handleSendReport`: without an active diagnosis nothing happens;
   * otherwise its answers are verified, the report is aggregated over the
   * verified answers, and the diagnosis switches to the report view.
   */
  method SendReport(ds: seq<Diagnosis>, activeId: string, catalog: seq<Question>, oracle: Oracle, now: int)
    returns (r: seq<Diagnosis>, calls: nat)
    ensures FindDiagnosis(ds, activeId).None? ==> r == ds && calls == 0
    ensures FindDiagnosis(ds, activeId).Some? ==>
              var d := ds[FindDiagnosis(ds, activeId).value];
              var checked := CheckAll(d.answers, VerificationQueue(catalog, d.answers), oracle);
              && calls == |VerificationQueue(catalog, d.answers)|
              && r == SentReports(ds, activeId, checked,
                                  ComplianceReport(catalog, checked, d.companyName, CountProvided(catalog, checked), now, false),
                                  now)
  {
    var found := FindDiagnosis(ds, activeId);
    if found.None? {
      return ds, 0;
    }
    var d := ds[found.value];
    var checked, report;
    checked, report, calls := VerifyAndAggregate(catalog, d.answers, oracle, d.companyName, map[], false, now, false);
    r := SentReports(ds, activeId, checked, report, now);
  }

  /** `updateActiveDiagnosis({ answers: currentAnswers, reportData, viewMode: 'report' })`. */
  function SentReports(ds: seq<Diagnosis>, activeId: string, checked: AnswersState, report: ReportData, now: int)
    : (r: seq<Diagnosis>)
    ensures |r| == |ds|
    ensures forall i :: 0 <= i < |ds| && ds[i].id != activeId ==> r[i] == ds[i]
    ensures forall i :: 0 <= i < |ds| && ds[i].id == activeId ==>
              r[i] == ds[i].(answers := checked, reportData := Some(report), viewMode := ReportMode, lastUpdated := now)
  {
    seq(|ds|, i requires 0 <= i < |ds| =>
      if ds[i].id == activeId
      then ds[i].(answers := checked, reportData := Some(report), viewMode := ReportMode, lastUpdated := now)
      else ds[i])
  }

  /**
   * `handleGenerateValidatedReport`: for an unknown id nothing happens;
   * otherwise the same verification and aggregation run, the result is a
   * consultant report, and it is stored as `validatedReportData`. The answered
   * count is taken over the answers as they were before verification.
   */
  method GenerateValidatedReport(ds: seq<Diagnosis>, diagnosisId: string, catalog: seq<Question>, oracle: Oracle,
                                 now: int)
    returns (r: seq<Diagnosis>, calls: nat)
    ensures FindDiagnosis(ds, diagnosisId).None? ==> r == ds && calls == 0
    ensures FindDiagnosis(ds, diagnosisId).Some? ==>
              var d := ds[FindDiagnosis(ds, diagnosisId).value];
              var checked := CheckAll(d.answers, VerificationQueue(catalog, d.answers), oracle);
              && calls == |VerificationQueue(catalog, d.answers)|
              && r == ValidatedReports(ds, diagnosisId, checked,
                                       ComplianceReport(catalog, checked, d.companyName, CountProvided(catalog, d.answers), now, true),
                                       now)
  {
    var found := FindDiagnosis(ds, diagnosisId);
    if found.None? {
      return ds, 0;
    }
    var d := ds[found.value];
    var checked, report;
    checked, report, calls := VerifyAndAggregate(catalog, d.answers, oracle, d.companyName, d.answers, true, now, true);
    r := ValidatedReports(ds, diagnosisId, checked, report, now);
  }

  /** `{ ...d, answers: currentAnswers, validatedReportData: validatedReport, lastUpdated }` on the matching diagnosis. */
  function ValidatedReports(ds: seq<Diagnosis>, diagnosisId: string, checked: AnswersState, report: ReportData, now: int)
    : (r: seq<Diagnosis>)
    ensures |r| == |ds|
    ensures forall i :: 0 <= i < |ds| && ds[i].id != diagnosisId ==> r[i] == ds[i]
    ensures forall i :: 0 <= i < |ds| && ds[i].id == diagnosisId ==>
              r[i] == ds[i].(answers := checked, validatedReportData := Some(report), lastUpdated := now)
  {
    seq(|ds|, i requires 0 <= i < |ds| =>
      if ds[i].id == diagnosisId
      then ds[i].(answers := checked, validatedReportData := Some(report), lastUpdated := now)
      else ds[i])
  }

  /**
   * The validated report counts answered questions over the answers before
   * verification, the submitted one over those after it; the two counts are
   * the same because verification never changes `confirmed`.
   */
  lemma AnsweredCountUnaffectedByVerification(catalog: seq<Question>, answers: AnswersState, oracle: Oracle)
    ensures CountProvided(catalog, CheckAll(answers, VerificationQueue(catalog, answers), oracle))
            == CountProvided(catalog, answers)
  {
    var queue := VerificationQueue(catalog, answers);
    var after := CheckAll(answers, queue, oracle);
    CheckAllKeys(answers, queue, oracle);
    forall q | q in catalog ensures IsAnswerProvided(Lookup(answers, q.id)) == IsAnswerProvided(Lookup(after, q.id)) {
      if q.id in answers {
        CheckAllOnlySetsAiCheck(answers, queue, oracle, q.id);
      }
    }
    ProvidedDependsOnlyOnConfirmed(catalog, answers, after);
  }

  /**
   * Both handlers produce the same figures from the same answers: a validated
   * report differs from a submitted one only in `isConsultantReport`.
   */
  lemma ValidatedMatchesSubmitted(catalog: seq<Question>, answers: AnswersState, oracle: Oracle,
                                  companyName: string, now: int)
    ensures var checked := CheckAll(answers, VerificationQueue(catalog, answers), oracle);
            ComplianceReport(catalog, checked, companyName, CountProvided(catalog, answers), now, true)
            == ComplianceReport(catalog, checked, companyName, CountProvided(catalog, checked), now, false)
               .(isConsultantReport := true)
  {
    AnsweredCountUnaffectedByVerification(catalog, answers, oracle);
  }

  /**
   * Regenerating when every provided answer is already assessed calls the
   * checker zero times and yields the report of the answers as they are: two
   * such runs differ only in their timestamp.
   */
  lemma RegenerationIsStable(catalog: seq<Question>, answers: AnswersState, oracle: Oracle,
                             companyName: string, now: int, isConsultantReport: bool)
    requires forall q :: q in catalog && IsAnswerProvided(Lookup(answers, q.id)) ==> answers[q.id].aiCheck.Some?
    ensures |VerificationQueue(catalog, answers)| == 0
    ensures var checked := CheckAll(answers, VerificationQueue(catalog, answers), oracle);
            ComplianceReport(catalog, checked, companyName, CountProvided(catalog, checked), now, isConsultantReport)
            == ComplianceReport(catalog, answers, companyName, CountProvided(catalog, answers), now, isConsultantReport)
  {
    AllCheckedNoCalls(catalog, answers, oracle);
  }
}
