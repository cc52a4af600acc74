/**
 * The verification queue run before every report generation (App.tsx,
 * `handleSendReport` and `handleGenerateValidatedReport`): every provided
 * answer without an AI assessment is sent, one at a time and in catalog
 * order, to the external checker; a successful result is stored on the
 * answer, a failure leaves the answer as it was.
 *
 * The checker is an oracle parameter that receives the number of calls made
 * before it, so that it may answer differently over time.
 */
module Verification {
  import opened Types
  import opened Answers

  /** The external checker: call number, question, answer to a result or a failure. */
  type Oracle = (nat, Question, Answer) -> Option<AiCheckResult>

  /** A provided answer that carries no assessment yet. */
  predicate NeedsCheck(a: Option<Answer>) {
    IsAnswerProvided(a) && a.value.aiCheck.None?
  }

  /** `allAnsweredQuestions.filter(q => !currentAnswers[q.id]?.aiCheck)`. */
  function Unchecked(qs: seq<Question>, answers: AnswersState): (r: seq<Question>)
    ensures forall q :: q in r <==> q in qs && (q.id !in answers || answers[q.id].aiCheck.None?)
    decreases |qs|
  {
    if qs == [] then []
    else
      (if Lookup(answers, qs[0].id).Some? && answers[qs[0].id].aiCheck.Some? then [] else [qs[0]])
      + Unchecked(qs[1..], answers)
  }

  /** `questionsToVerify`: the provided answers without an assessment, in catalog order. */
  function VerificationQueue(catalog: seq<Question>, answers: AnswersState): (r: seq<Question>)
    ensures forall q :: q in r <==> q in catalog && NeedsCheck(Lookup(answers, q.id))
  {
    Unchecked(ProvidedQuestions(catalog, answers), answers)
  }

  /** Stores a successful result on the answer of `q`; a failure (`None`) stores nothing. */
  function Record(answers: AnswersState, q: Question, result: Option<AiCheckResult>): AnswersState {
    match result
    case Some(c) => if q.id in answers then answers[q.id := answers[q.id].(aiCheck := Some(c))] else answers
    case None => answers
  }

  /** The answers after the calls for `qs`, in order, the k-th being call number k. */
  function CheckAll(answers: AnswersState, qs: seq<Question>, oracle: Oracle): AnswersState
    decreases |qs|
  {
    if qs == [] then answers
    else
      var prev := CheckAll(answers, qs[..|qs| - 1], oracle);
      var q := qs[|qs| - 1];
      if q.id in prev then Record(prev, q, oracle(|qs| - 1, q, prev[q.id])) else prev
  }

  /**
   * The sequential loop. It calls the oracle exactly once per queued question
   * and leaves the store equal to `CheckAll` over the queue.
   */
  method VerifyAnswers(catalog: seq<Question>, answers: AnswersState, oracle: Oracle)
    returns (current: AnswersState, calls: nat)
    ensures calls == |VerificationQueue(catalog, answers)|
    ensures current == CheckAll(answers, VerificationQueue(catalog, answers), oracle)
  {
    current := answers;
    var queue := VerificationQueue(catalog, answers);
    calls := 0;
    for j := 0 to |queue|
      invariant calls == j
      invariant current == CheckAll(answers, queue[..j], oracle)
    {
      var question := queue[j];
      QueuedIsPresent(catalog, answers, oracle, j);
      current := CheckOne(answers, queue[..j], question, oracle, current);
      calls := calls + 1;
      assert queue[..j + 1] == queue[..j] + [question];
    }
    assert queue[..|queue|] == queue;
  }

  /** The body of the loop: call number `|qs|`, on the answer as the earlier calls left it. */
  method CheckOne(answers: AnswersState, qs: seq<Question>, question: Question, oracle: Oracle,
                  current: AnswersState)
    returns (next: AnswersState)
    requires current == CheckAll(answers, qs, oracle)
    requires question.id in current
    ensures next == CheckAll(answers, qs + [question], oracle)
  {
    var answer := current[question.id];
    var result := oracle(|qs|, question, answer);
    next := current;
    if result.Some? {
      next := current[question.id := answer.(aiCheck := result)];
    }
    CheckAllSnoc(answers, qs, question, oracle);
  }

  /** Every queued question has an answer, still there when its turn comes. */
  lemma QueuedIsPresent(catalog: seq<Question>, answers: AnswersState, oracle: Oracle, j: nat)
    requires j < |VerificationQueue(catalog, answers)|
    ensures var queue := VerificationQueue(catalog, answers);
            queue[j].id in CheckAll(answers, queue[..j], oracle)
  {
    var queue := VerificationQueue(catalog, answers);
    assert queue[j] in queue;
    CheckAllKeys(answers, queue[..j], oracle);
  }

  /** One more call, on the answer as the previous calls left it. */
  lemma CheckAllSnoc(answers: AnswersState, qs: seq<Question>, q: Question, oracle: Oracle)
    ensures var prev := CheckAll(answers, qs, oracle);
            CheckAll(answers, qs + [q], oracle)
            == if q.id in prev then Record(prev, q, oracle(|qs|, q, prev[q.id])) else prev
  {
    assert (qs + [q])[..|qs|] == qs;
  }

  /** Checking keeps the set of answered question ids. */
  lemma {:induction false} CheckAllKeys(answers: AnswersState, qs: seq<Question>, oracle: Oracle)
    ensures CheckAll(answers, qs, oracle).Keys == answers.Keys
    decreases |qs|
  {
    if qs != [] {
      CheckAllKeys(answers, qs[..|qs| - 1], oracle);
    }
  }

  /**
   * Checking changes only `aiCheck`: confirmation, value, evidence,
   * attachment and the consultant fields stay as they were.
   */
  lemma {:induction false} CheckAllOnlySetsAiCheck(answers: AnswersState, qs: seq<Question>, oracle: Oracle, k: string)
    requires k in answers
    ensures k in CheckAll(answers, qs, oracle)
    ensures CheckAll(answers, qs, oracle)[k].(aiCheck := answers[k].aiCheck) == answers[k]
    decreases |qs|
  {
    CheckAllKeys(answers, qs, oracle);
    if qs != [] {
      CheckAllOnlySetsAiCheck(answers, qs[..|qs| - 1], oracle, k);
    }
  }

  /** An answer whose question is not queued is left exactly as it was. */
  lemma {:induction false} CheckAllUntouched(answers: AnswersState, qs: seq<Question>, oracle: Oracle, k: string)
    requires k in answers
    requires forall i :: 0 <= i < |qs| ==> qs[i].id != k
    ensures k in CheckAll(answers, qs, oracle) && CheckAll(answers, qs, oracle)[k] == answers[k]
    decreases |qs|
  {
    CheckAllKeys(answers, qs, oracle);
    if qs != [] {
      CheckAllUntouched(answers, qs[..|qs| - 1], oracle, k);
    }
  }

  /**
   * With unique ids, the i-th queued question is checked by call number i on
   * its original answer, and gets that call's result when it succeeds; on a
   * failure its assessment stays as it was.
   */
  lemma {:induction false} CheckAllAt(answers: AnswersState, qs: seq<Question>, oracle: Oracle, i: nat)
    requires UniqueIds(qs)
    requires i < |qs| && qs[i].id in answers
    ensures qs[i].id in CheckAll(answers, qs, oracle)
    ensures CheckAll(answers, qs, oracle)[qs[i].id].aiCheck
            == match oracle(i, qs[i], answers[qs[i].id])
               case Some(c) => Some(c)
               case None => answers[qs[i].id].aiCheck
    decreases |qs|
  {
    var init := qs[..|qs| - 1];
    var k := qs[i].id;
    CheckAllKeys(answers, qs, oracle);
    CheckAllKeys(answers, init, oracle);
    if i == |qs| - 1 {
      forall j | 0 <= j < |init| ensures init[j].id != k { }
      CheckAllUntouched(answers, init, oracle, k);
    } else {
      assert init[i] == qs[i];
      CheckAllAt(answers, init, oracle, i);
      assert qs[|qs| - 1].id != k;
    }
  }

  lemma {:induction false} UncheckedUnique(qs: seq<Question>, answers: AnswersState)
    requires UniqueIds(qs)
    ensures UniqueIds(Unchecked(qs, answers))
    decreases |qs|
  {
    if qs != [] {
      UncheckedUnique(qs[1..], answers);
      var rest := Unchecked(qs[1..], answers);
      forall j | 0 <= j < |rest| ensures rest[j].id != qs[0].id {
        assert rest[j] in rest;
      }
    }
  }

  lemma {:induction false} ProvidedUnique(qs: seq<Question>, answers: AnswersState)
    requires UniqueIds(qs)
    ensures UniqueIds(ProvidedQuestions(qs, answers))
    decreases |qs|
  {
    if qs != [] {
      ProvidedUnique(qs[1..], answers);
      var rest := ProvidedQuestions(qs[1..], answers);
      forall j | 0 <= j < |rest| ensures rest[j].id != qs[0].id {
        assert rest[j] in rest;
      }
    }
  }

  /** The queue of a catalog with unique ids has unique ids. */
  lemma QueueUnique(catalog: seq<Question>, answers: AnswersState)
    requires UniqueIds(catalog)
    ensures UniqueIds(VerificationQueue(catalog, answers))
  {
    ProvidedUnique(catalog, answers);
    UncheckedUnique(ProvidedQuestions(catalog, answers), answers);
  }

  /**
   * Idempotence: when every provided answer already carries an assessment the
   * queue is empty, so a run makes no call and changes nothing.
   */
  lemma AllCheckedNoCalls(catalog: seq<Question>, answers: AnswersState, oracle: Oracle)
    requires forall q :: q in catalog && IsAnswerProvided(Lookup(answers, q.id)) ==> answers[q.id].aiCheck.Some?
    ensures VerificationQueue(catalog, answers) == []
    ensures CheckAll(answers, VerificationQueue(catalog, answers), oracle) == answers
  {
    var provided := ProvidedQuestions(catalog, answers);
    forall i | 0 <= i < |provided|
      ensures provided[i].id in answers && answers[provided[i].id].aiCheck.Some?
    {
      assert provided[i] in provided;
    }
    AllAssessedNoneUnchecked(provided, answers);
  }

  lemma {:induction false} AllAssessedNoneUnchecked(qs: seq<Question>, answers: AnswersState)
    requires forall i :: 0 <= i < |qs| ==> qs[i].id in answers && answers[qs[i].id].aiCheck.Some?
    ensures Unchecked(qs, answers) == []
    decreases |qs|
  {
    if qs != [] {
      AllAssessedNoneUnchecked(qs[1..], answers);
    }
  }

  /**
   * An existing assessment is never overwritten, and nothing but `aiCheck`
   * ever changes.
   */
  lemma VerifyKeepsExisting(catalog: seq<Question>, answers: AnswersState, oracle: Oracle, k: string)
    requires k in answers && answers[k].aiCheck.Some?
    ensures var after := CheckAll(answers, VerificationQueue(catalog, answers), oracle);
            k in after && after[k] == answers[k]
  {
    var queue := VerificationQueue(catalog, answers);
    forall i | 0 <= i < |queue| ensures queue[i].id != k {
      assert queue[i] in queue;
    }
    CheckAllUntouched(answers, queue, oracle, k);
  }

  /**
   * After a run, the questions still awaiting a check are exactly the queued
   * ones whose call failed; when no call fails, a second run makes no call.
   */
  lemma RequeuedAreFailures(catalog: seq<Question>, answers: AnswersState, oracle: Oracle)
    requires UniqueIds(catalog)
    ensures var queue := VerificationQueue(catalog, answers);
            var after := CheckAll(answers, queue, oracle);
            && (forall q :: q in VerificationQueue(catalog, after) ==> q in queue)
            && (forall i :: 0 <= i < |queue| ==>
                  (queue[i] in VerificationQueue(catalog, after) <==> oracle(i, queue[i], answers[queue[i].id]).None?))
  {
    var queue := VerificationQueue(catalog, answers);
    var after := CheckAll(answers, queue, oracle);
    CheckAllKeys(answers, queue, oracle);
    QueueUnique(catalog, answers);
    forall q | q in catalog && q.id in answers
      ensures IsAnswerProvided(Lookup(after, q.id)) == IsAnswerProvided(Lookup(answers, q.id))
    {
      CheckAllOnlySetsAiCheck(answers, queue, oracle, q.id);
    }
    forall q | q in VerificationQueue(catalog, after) ensures q in queue {
      CheckAllOnlySetsAiCheck(answers, queue, oracle, q.id);
      if answers[q.id].aiCheck.Some? {
        VerifyKeepsExisting(catalog, answers, oracle, q.id);
      }
    }
    forall i | 0 <= i < |queue|
      ensures queue[i] in VerificationQueue(catalog, after) <==> oracle(i, queue[i], answers[queue[i].id]).None?
    {
      assert queue[i] in queue;
      CheckAllAt(answers, queue, oracle, i);
      CheckAllOnlySetsAiCheck(answers, queue, oracle, queue[i].id);
    }
  }
}
