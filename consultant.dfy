/**
 * The consultant's validation area (ConsultantArea.tsx): the counters that
 * gate the validated report, the validate/refuse/revise actions, and the
 * split of completed diagnoses into those awaiting validation and those
 * already validated.
 */
module Consultant {
  import opened Types
  import opened Answers
  import opened Verification
  import opened Diagnoses
  import Questionnaire

  /** The decision recorded on an answer; `None` for a missing answer or a pending one. */
  function StatusOf(a: Option<Answer>): Option<ValidationStatus> {
    if a.Some? then a.value.validationStatus else None
  }

  /** How many of `qs` carry decision `s`. */
  function CountWith(qs: seq<Question>, answers: AnswersState, s: Option<ValidationStatus>): (r: nat)
    ensures r <= |qs|
    decreases |qs|
  {
    if qs == [] then 0
    else CountWith(qs[..|qs| - 1], answers, s) + (if StatusOf(Lookup(answers, qs[|qs| - 1].id)) == s then 1 else 0)
  }

  /** One more question adds one to the count of its own decision and nothing to the others. */
  lemma CountWithSnoc(qs: seq<Question>, answers: AnswersState, q: Question, s: Option<ValidationStatus>)
    ensures CountWith(qs + [q], answers, s)
            == CountWith(qs, answers, s) + (if StatusOf(Lookup(answers, q.id)) == s then 1 else 0)
  {
    assert (qs + [q])[..|qs|] == qs;
  }

  datatype Stats = Stats(total: nat, validated: nat, refused: nat, pending: nat)

  /**
   * The `stats` counter of `ValidationWorkspace`: over the provided answers
   * only, each is counted once as validated, refused or pending.
   */
  method ComputeStats(catalog: seq<Question>, answers: AnswersState) returns (stats: Stats)
    ensures stats.total == CountProvided(catalog, answers)
    ensures stats.total == stats.validated + stats.refused + stats.pending
    ensures var qs := ProvidedQuestions(catalog, answers);
            && stats.validated == CountWith(qs, answers, Some(Validated))
            && stats.refused == CountWith(qs, answers, Some(Refused))
            && stats.pending == CountWith(qs, answers, None)
  {
    var questions := ProvidedQuestions(catalog, answers);
    stats := TallyDecisions(questions, answers);
  }

  /** The `questions.forEach` loop of the counter. */
  method TallyDecisions(questions: seq<Question>, answers: AnswersState) returns (stats: Stats)
    ensures stats.total == |questions| == stats.validated + stats.refused + stats.pending
    ensures stats.validated == CountWith(questions, answers, Some(Validated))
    ensures stats.refused == CountWith(questions, answers, Some(Refused))
    ensures stats.pending == CountWith(questions, answers, None)
  {
    stats := Stats(|questions|, 0, 0, 0);
    for j := 0 to |questions|
      invariant stats.total == |questions|
      invariant stats.validated + stats.refused + stats.pending == j
      invariant stats.validated == CountWith(questions[..j], answers, Some(Validated))
      invariant stats.refused == CountWith(questions[..j], answers, Some(Refused))
      invariant stats.pending == CountWith(questions[..j], answers, None)
    {
      assert questions[..j + 1] == questions[..j] + [questions[j]];
      CountWithSnoc(questions[..j], answers, questions[j], Some(Validated));
      CountWithSnoc(questions[..j], answers, questions[j], Some(Refused));
      CountWithSnoc(questions[..j], answers, questions[j], None);
      match StatusOf(Lookup(answers, questions[j].id))
      case Some(Validated) =>
        stats := stats.(validated := stats.validated + 1);
      case Some(Refused) =>
        stats := stats.(refused := stats.refused + 1);
      case None =>
        stats := stats.(pending := stats.pending + 1);
    }
    assert questions[..|questions|] == questions;
  }

  /** `allHandled`: nothing is pending. */
  predicate AllHandled(stats: Stats) {
    stats.pending == 0
  }

  /** The generate button is enabled (`disabled={!allHandled || isGeneratingReport}`). */
  predicate CanGenerate(stats: Stats, isGeneratingReport: bool) {
    AllHandled(stats) && !isGeneratingReport
  }

  /** No count of pending answers is zero while one of them is pending, and conversely. */
  lemma {:induction false} NoPendingIff(qs: seq<Question>, answers: AnswersState)
    ensures CountWith(qs, answers, None) == 0
            <==> forall i :: 0 <= i < |qs| ==> StatusOf(Lookup(answers, qs[i].id)).Some?
    decreases |qs|
  {
    if qs != [] {
      var init := qs[..|qs| - 1];
      NoPendingIff(init, answers);
      if CountWith(qs, answers, None) == 0 {
        forall i | 0 <= i < |qs| ensures StatusOf(Lookup(answers, qs[i].id)).Some? {
          if i < |qs| - 1 {
            assert init[i] == qs[i];
          }
        }
      } else if CountWith(init, answers, None) == 0 {
        assert StatusOf(Lookup(answers, qs[|qs| - 1].id)).None?;
      } else {
        var i :| 0 <= i < |init| && StatusOf(Lookup(answers, init[i].id)).None?;
        assert init[i] == qs[i];
      }
    }
  }

  /**
   * The gate: a validated report can be generated exactly when every provided
   * answer carries a decision and no generation is running.
   */
  lemma GateIff(catalog: seq<Question>, answers: AnswersState, stats: Stats, isGeneratingReport: bool)
    requires stats.pending == CountWith(ProvidedQuestions(catalog, answers), answers, None)
    ensures CanGenerate(stats, isGeneratingReport)
            <==> !isGeneratingReport
                 && forall q :: q in catalog && IsAnswerProvided(Lookup(answers, q.id)) ==> answers[q.id].validationStatus.Some?
  {
    var qs := ProvidedQuestions(catalog, answers);
    NoPendingIff(qs, answers);
    if forall i :: 0 <= i < |qs| ==> StatusOf(Lookup(answers, qs[i].id)).Some? {
      forall q | q in catalog && IsAnswerProvided(Lookup(answers, q.id)) ensures answers[q.id].validationStatus.Some? {
        assert q in qs;
        var i :| 0 <= i < |qs| && qs[i] == q;
      }
    }
    if forall q :: q in catalog && IsAnswerProvided(Lookup(answers, q.id)) ==> answers[q.id].validationStatus.Some? {
      forall i | 0 <= i < |qs| ensures StatusOf(Lookup(answers, qs[i].id)).Some? {
        assert qs[i] in qs;
      }
    }
  }

  // ---------------------------------------------------------------------
  // Actions.

  const ValidatedComment: string := "Validado pelo consultor."
  const RefusedComment: string := "Recusado pelo consultor."
  const RevisedComment: string := "Revisado pelo consultor."

  /** The "Validar" button: the answer is validated with the fixed comment. */
  function Validate(ds: seq<Diagnosis>, diagnosisId: string, questionId: string, now: int): (r: seq<Diagnosis>)
    ensures |r| == |ds| && forall i :: 0 <= i < |ds| && ds[i].id != diagnosisId ==> r[i] == ds[i]
    ensures forall i :: 0 <= i < |ds| && ds[i].id == diagnosisId && questionId in ds[i].answers ==>
              && questionId in r[i].answers
              && r[i].answers[questionId].validationStatus == Some(Validated)
              && r[i].answers[questionId].consultantComment == Some(ValidatedComment)
  {
    UpdateAnswerValidation(ds, diagnosisId, questionId, Some(Validated), Some(ValidatedComment), now)
  }

  /** `comment || 'Recusado pelo consultor.'`: an empty justification gets the default text. */
  function RefusalComment(comment: string): (r: string)
    ensures r != ""
    ensures comment != "" ==> r == comment
    ensures comment == "" ==> r == RefusedComment
  {
    if comment == "" then RefusedComment else comment
  }

  /** The refusal modal's confirm button. */
  function Refuse(ds: seq<Diagnosis>, diagnosisId: string, questionId: string, comment: string, now: int)
    : (r: seq<Diagnosis>)
    ensures |r| == |ds| && forall i :: 0 <= i < |ds| && ds[i].id != diagnosisId ==> r[i] == ds[i]
    ensures forall i :: 0 <= i < |ds| && ds[i].id == diagnosisId && questionId in ds[i].answers ==>
              && questionId in r[i].answers
              && r[i].answers[questionId].validationStatus == Some(Refused)
              && r[i].answers[questionId].consultantComment == Some(RefusalComment(comment))
  {
    UpdateAnswerValidation(ds, diagnosisId, questionId, Some(Refused), Some(RefusalComment(comment)), now)
  }

  /**
   * `ConsultantEditModal.handleSave`: the revised answer is confirmed, its
   * decision and assessment are dropped and the revision comment is set;
   * value, evidence and attachment are the ones edited.
   */
  function ConsultantSave(edited: Answer): (r: Answer)
    ensures r.value == edited.value && r.evidence == edited.evidence && r.attachment == edited.attachment
    ensures r.confirmed && r.validationStatus.None? && r.aiCheck.None?
    ensures r.consultantComment == Some(RevisedComment)
  {
    edited.(confirmed := true, validationStatus := None, aiCheck := None, consultantComment := Some(RevisedComment))
  }

  /** `ConsultantEditModal.handleRemoveAttachment`: the same removal as the questionnaire's edit modal. */
  function ConsultantRemoveAttachment(a: Answer): (r: Answer)
    ensures r.attachment.None?
    ensures r.(attachment := a.attachment) == a
  {
    Questionnaire.RemoveAttachment(a)
  }

  /**
   * A revised answer goes back through the whole workflow: it counts as
   * answered, is queued for a fresh assessment at the next generation, and is
   * pending again, so the gate closes until it is decided.
   */
  lemma RevisedAnswerReenters(edited: Answer)
    ensures IsAnswerProvided(Some(ConsultantSave(edited)))
    ensures NeedsCheck(Some(ConsultantSave(edited)))
    ensures StatusOf(Some(ConsultantSave(edited))).None?
  {
  }

  /** Saving a revision stores the revised answer on the diagnosis. */
  function SaveRevision(ds: seq<Diagnosis>, diagnosisId: string, questionId: string, edited: Answer, now: int)
    : (r: seq<Diagnosis>)
    ensures |r| == |ds| && forall i :: 0 <= i < |ds| && ds[i].id != diagnosisId ==> r[i] == ds[i]
    ensures forall i :: 0 <= i < |ds| && ds[i].id == diagnosisId ==>
              Lookup(r[i].answers, questionId) == Some(ConsultantSave(edited))
  {
    AnswerUpdateFromConsultant(ds, diagnosisId, questionId, ConsultantSave(edited), now)
  }

  // ---------------------------------------------------------------------
  // The two lists.

  /** `diagnoses.filter(d => d.reportData)`. */
  function Completed(ds: seq<Diagnosis>): (r: seq<Diagnosis>)
    ensures forall d :: d in r <==> d in ds && d.reportData.Some?
    decreases |ds|
  {
    if ds == [] then []
    else (if ds[0].reportData.Some? then [ds[0]] else []) + Completed(ds[1..])
  }

  /** `completed.filter(d => !d.validatedReportData)` when `wantValidated` is false, `completed.filter(d => d.validatedReportData)` otherwise. */
  function ByValidation(ds: seq<Diagnosis>, wantValidated: bool): seq<Diagnosis>
    decreases |ds|
  {
    if ds == [] then []
    else (if ds[0].validatedReportData.Some? == wantValidated then [ds[0]] else []) + ByValidation(ds[1..], wantValidated)
  }

  lemma {:induction false} ByValidationMembers(ds: seq<Diagnosis>, wantValidated: bool)
    ensures forall d :: d in ByValidation(ds, wantValidated) <==> d in ds && d.validatedReportData.Some? == wantValidated
    decreases |ds|
  {
    if ds != [] {
      ByValidationMembers(ds[1..], wantValidated);
      assert ds == [ds[0]] + ds[1..];
    }
  }

  function ForValidation(ds: seq<Diagnosis>): seq<Diagnosis> {
    ByValidation(Completed(ds), false)
  }

  function ValidatedList(ds: seq<Diagnosis>): seq<Diagnosis> {
    ByValidation(Completed(ds), true)
  }

  lemma {:induction false} ByValidationPartition(ds: seq<Diagnosis>)
    ensures multiset(ByValidation(ds, false)) + multiset(ByValidation(ds, true)) == multiset(ds)
    decreases |ds|
  {
    if ds != [] {
      var d, rest := ds[0], ds[1..];
      ByValidationPartition(rest);
      assert ds == [d] + rest;
      var f, v := ByValidation(rest, false), ByValidation(rest, true);
      if d.validatedReportData.Some? {
        assert ByValidation(ds, true) == [d] + v;
        assert multiset([d] + v) == multiset{d} + multiset(v);
      } else {
        assert ByValidation(ds, false) == [d] + f;
        assert multiset([d] + f) == multiset{d} + multiset(f);
      }
      assert multiset(ds) == multiset{d} + multiset(rest);
    }
  }

  /**
   * The two lists hold exactly the diagnoses that have a report: each such
   * diagnosis appears in one list, as often as it appears in the input, and
   * none appears in both.
   */
  lemma SplitPartitions(ds: seq<Diagnosis>)
    ensures multiset(ForValidation(ds)) + multiset(ValidatedList(ds)) == multiset(Completed(ds))
    ensures forall d :: d in ForValidation(ds) <==> d in ds && d.reportData.Some? && d.validatedReportData.None?
    ensures forall d :: d in ValidatedList(ds) <==> d in ds && d.reportData.Some? && d.validatedReportData.Some?
    ensures forall d :: !(d in ForValidation(ds) && d in ValidatedList(ds))
  {
    ByValidationPartition(Completed(ds));
    ByValidationMembers(Completed(ds), false);
    ByValidationMembers(Completed(ds), true);
  }

  /**
   * Generating the validated report moves a diagnosis that awaited
   * validation to the validated list.
   */
  lemma GenerationMovesToValidated(ds: seq<Diagnosis>, diagnosisId: string, checked: AnswersState, report: ReportData,
                                   now: int, i: nat)
    requires i < |ds| && ds[i].id == diagnosisId && ds[i] in ForValidation(ds)
    ensures var after := ValidatedReports(ds, diagnosisId, checked, report, now);
            after[i] in ValidatedList(after) && after[i] !in ForValidation(after)
  {
    var after := ValidatedReports(ds, diagnosisId, checked, report, now);
    SplitPartitions(ds);
    SplitPartitions(after);
    assert after[i] in after;
  }
}
