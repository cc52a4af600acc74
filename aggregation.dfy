/**
 * The compliance aggregation run at the end of every report generation
 * (`handleSendReport` and `handleGenerateValidatedReport` in App.tsx). It
 * walks the whole catalog once, scores each question, accumulates possible
 * and achieved totals into the overall bucket, the topic and subtopic
 * buckets and the two standard buckets, collects the deficiencies, and then
 * derives the percentages.
 *
 * Scores are 1, 1/2 or 0 per question, so achieved totals are kept in whole
 * half-points; percentages are exact reals.
 */
module Aggregation {
  import opened Types
  import opened Strings
  import opened Answers
  import opened Sorting
  import opened PropertyKeys

  /**
   * The score of one question in half-points: 2 for "sufficient", 1 for
   * "partial", and 0 for anything else, for an unconfirmed answer or for one
   * without an assessment.
   */
  function ScoreHalf(a: Option<Answer>): (r: nat)
    ensures r <= 2
    ensures r == 2 <==> IsAnswerProvided(a) && a.value.aiCheck.Some? && a.value.aiCheck.value.status == "sufficient"
    ensures r == 1 <==> IsAnswerProvided(a) && a.value.aiCheck.Some? && a.value.aiCheck.value.status == "partial"
  {
    if IsAnswerProvided(a) && a.value.aiCheck.Some? then
      var status := a.value.aiCheck.value.status;
      if status == "sufficient" then 2
      else if status == "partial" then 1
      else 0
    else 0
  }

  /** The reference tags that place a question in a standard's bucket. */
  const S1Tag: string := "IFRS S1"
  const S2Tag: string := "IFRS S2"

  /** The accumulation buckets of the report. */
  datatype Bucket =
    | Overall
    | OfTopic(topic: string)
    | OfSubtopic(topic: string, subtopic: string)
    | StandardS1
    | StandardS2

  /** The standard buckets match by substring, independently of each other. */
  predicate InBucket(q: Question, b: Bucket) {
    match b
    case Overall => true
    case OfTopic(t) => q.topic == t
    case OfSubtopic(t, s) => q.topic == t && q.subtopic == s
    case StandardS1 => Includes(q.reference, S1Tag)
    case StandardS2 => Includes(q.reference, S2Tag)
  }

  /** The possible score of a bucket: one point per question in it. */
  function Possible(qs: seq<Question>, b: Bucket): (r: nat)
    ensures r <= |qs|
    decreases |qs|
  {
    if qs == [] then 0
    else Possible(qs[..|qs| - 1], b) + (if InBucket(qs[|qs| - 1], b) then 1 else 0)
  }

  /** The achieved score of a bucket, in half-points. */
  function Achieved(qs: seq<Question>, answers: AnswersState, b: Bucket): nat
    decreases |qs|
  {
    if qs == [] then 0
    else
      var q := qs[|qs| - 1];
      Achieved(qs[..|qs| - 1], answers, b) + (if InBucket(q, b) then ScoreHalf(Lookup(answers, q.id)) else 0)
  }

  /** `possible > 0 ? (achieved / possible) * 100 : 100`, with `achieved` given in half-points. */
  function Compliance(achievedHalf: nat, possible: nat): real {
    if possible > 0 then (achievedHalf as real / 2.0) / (possible as real) * 100.0 else 100.0
  }

  /** The questions scoring below a full point, in catalog order. */
  function Deficiencies(qs: seq<Question>, answers: AnswersState): (r: seq<Question>)
    decreases |qs|
  {
    if qs == [] then []
    else
      var q := qs[|qs| - 1];
      Deficiencies(qs[..|qs| - 1], answers) + (if ScoreHalf(Lookup(answers, q.id)) < 2 then [q] else [])
  }

  /** `[...new Set(ALL_QUESTIONS.map(q => q.topic))]`: the topics in order of first appearance. */
  function TopicsOf(qs: seq<Question>): (r: seq<string>)
    ensures Distinct(r)
    decreases |qs|
  {
    if qs == [] then []
    else
      var prev := TopicsOf(qs[..|qs| - 1]);
      var t := qs[|qs| - 1].topic;
      if t in prev then prev else prev + [t]
  }

  /**
   * The subtopics of topic `t`, in the order the walk first meets them: the
   * order in which the keys of `subtopics` are added.
   */
  function SubtopicsOf(qs: seq<Question>, t: string): (r: seq<string>)
    ensures Distinct(r)
    decreases |qs|
  {
    if qs == [] then []
    else
      var prev := SubtopicsOf(qs[..|qs| - 1], t);
      var q := qs[|qs| - 1];
      if q.topic == t && q.subtopic !in prev then prev + [q.subtopic] else prev
  }

  /** Every question's topic is listed. */
  lemma {:induction false} TopicCovered(qs: seq<Question>, i: nat)
    requires i < |qs|
    ensures qs[i].topic in TopicsOf(qs)
    decreases |qs|
  {
    if i < |qs| - 1 {
      TopicCovered(qs[..|qs| - 1], i);
    }
  }

  /** The unsorted subtopic entries of topic `t`, one per name. */
  function SubtopicResults(qs: seq<Question>, answers: AnswersState, t: string, names: seq<string>)
    : (r: seq<SubtopicCompliance>)
    ensures |r| == |names|
    ensures forall k :: 0 <= k < |r| ==> r[k].name == names[k]
  {
    seq(|names|, k requires 0 <= k < |names| =>
      SubtopicCompliance(names[k], Compliance(Achieved(qs, answers, OfSubtopic(t, names[k])),
                                              Possible(qs, OfSubtopic(t, names[k])))))
  }

  /**
   * The entry of topic `t` in `topicCompliance`: its subtopics listed in the
   * key order of `Object.entries`, then sorted worst first.
   */
  function TopicResult(qs: seq<Question>, answers: AnswersState, t: string): TopicCompliance {
    TopicCompliance(t, Compliance(Achieved(qs, answers, OfTopic(t)), Possible(qs, OfTopic(t))),
                    SortByCompliance(SubtopicResults(qs, answers, t, OwnKeys(SubtopicsOf(qs, t)))))
  }

  /** `APP_TOPICS.map(...)`: one entry per topic, in topic order. */
  function TopicResults(qs: seq<Question>, answers: AnswersState, topics: seq<string>): (r: seq<TopicCompliance>)
    ensures |r| == |topics|
    ensures forall k :: 0 <= k < |r| ==> r[k] == TopicResult(qs, answers, topics[k])
    decreases |topics|
  {
    if topics == [] then []
    else TopicResults(qs, answers, topics[..|topics| - 1]) + [TopicResult(qs, answers, topics[|topics| - 1])]
  }

  /**
   * The report snapshot a generation produces from the answers after
   * verification. `answeredCount` is supplied by the caller, which counts it
   * over its own copy of the answers.
   */
  function ComplianceReport(catalog: seq<Question>, answers: AnswersState, companyName: string,
                            answeredCount: nat, now: int, isConsultantReport: bool): ReportData
  {
    ReportData(
      catalog, Deficiencies(catalog, answers), answers, companyName, answeredCount, |catalog|, now,
      Compliance(Achieved(catalog, answers, Overall), Possible(catalog, Overall)),
      Compliance(Achieved(catalog, answers, StandardS1), Possible(catalog, StandardS1)),
      Compliance(Achieved(catalog, answers, StandardS2), Possible(catalog, StandardS2)),
      TopicResults(catalog, answers, TopicsOf(catalog)),
      isConsultantReport)
  }

  // ---------------------------------------------------------------------
  // The walk itself.

  /** An `{ achieved, possible }` pair of `topicScores`. */
  datatype Tally = Tally(achieved: nat, possible: nat)

  /** One entry of `topicScores`; `subtopicOrder` is the order in which the keys of `subtopics` were added. */
  datatype TopicTally = TopicTally(achieved: nat, possible: nat, subtopicOrder: seq<string>, subtopics: map<string, Tally>)

  /** The entry of topic `t` agrees with the buckets over the questions walked so far. */
  ghost predicate TallyMatches(tt: TopicTally, qs: seq<Question>, answers: AnswersState, t: string) {
    && tt.achieved == Achieved(qs, answers, OfTopic(t))
    && tt.possible == Possible(qs, OfTopic(t))
    && tt.subtopicOrder == SubtopicsOf(qs, t)
    && (forall s :: s in tt.subtopics <==> s in tt.subtopicOrder)
    && (forall s :: s in tt.subtopics ==>
          tt.subtopics[s] == Tally(Achieved(qs, answers, OfSubtopic(t, s)), Possible(qs, OfSubtopic(t, s))))
  }

  /** `topicScores` has one entry per topic, each agreeing with the questions walked so far. */
  ghost predicate TalliesMatch(topicScores: map<string, TopicTally>, topics: seq<string>,
                               qs: seq<Question>, answers: AnswersState)
  {
    && (forall t :: t in topicScores <==> t in topics)
    && (forall t :: t in topicScores ==> TallyMatches(topicScores[t], qs, answers, t))
  }

  /** The six scalar accumulators of the walk (`totalPossibleScore`, `achievedScore`, `s1PossibleScore`, ...). */
  datatype Scores = Scores(totalPossible: nat, achieved: nat, s1Possible: nat, s1Achieved: nat,
                           s2Possible: nat, s2Achieved: nat)

  /** The scalar accumulators agree with the buckets over the questions walked so far. */
  ghost predicate ScoresMatch(scores: Scores, qs: seq<Question>, answers: AnswersState) {
    && scores.totalPossible == Possible(qs, Overall)
    && scores.achieved == Achieved(qs, answers, Overall)
    && scores.s1Possible == Possible(qs, StandardS1)
    && scores.s1Achieved == Achieved(qs, answers, StandardS1)
    && scores.s2Possible == Possible(qs, StandardS2)
    && scores.s2Achieved == Achieved(qs, answers, StandardS2)
  }

  /**
   * Both generation handlers' aggregation: the accumulator walk over the
   * catalog followed by the percentage derivation. The report it returns is
   * the specification `ComplianceReport`.
   */
  method Aggregate(catalog: seq<Question>, answers: AnswersState, companyName: string,
                   answeredCount: nat, now: int, isConsultantReport: bool)
    returns (report: ReportData)
    ensures report == ComplianceReport(catalog, answers, companyName, answeredCount, now, isConsultantReport)
  {
    var topics := TopicsOf(catalog);
    var topicScores := InitTopicScores(topics);
    var scores, deficiencies, finalScores := WalkCatalog(catalog, answers, topics, topicScores);

    var weightedCompliance := Compliance(scores.achieved, scores.totalPossible);
    var s1Compliance := Compliance(scores.s1Achieved, scores.s1Possible);
    var s2Compliance := Compliance(scores.s2Achieved, scores.s2Possible);
    var topicCompliance := TopicComplianceOf(catalog, answers, topics, finalScores);

    report := ReportData(catalog, deficiencies, answers, companyName, answeredCount, |catalog|, now,
                         weightedCompliance, s1Compliance, s2Compliance, topicCompliance, isConsultantReport);
  }

  /** `APP_TOPICS.forEach(topic => topicScores[topic.name] = { achieved: 0, possible: 0, subtopics: {} })`. */
  method InitTopicScores(topics: seq<string>) returns (topicScores: map<string, TopicTally>)
    ensures TalliesMatch(topicScores, topics, [], map[])
    ensures forall t :: t in topicScores ==> topicScores[t] == TopicTally(0, 0, [], map[])
  {
    topicScores := map[];
    for i := 0 to |topics|
      invariant forall t :: t in topicScores <==> t in topics[..i]
      invariant forall t :: t in topicScores ==> topicScores[t] == TopicTally(0, 0, [], map[])
    {
      topicScores := topicScores[topics[i] := TopicTally(0, 0, [], map[])];
    }
    assert topics[..|topics|] == topics;
  }

  /** A fresh tally matches any answers over no questions. */
  lemma FreshTalliesMatch(topicScores: map<string, TopicTally>, topics: seq<string>, answers: AnswersState)
    requires forall t :: t in topicScores <==> t in topics
    requires forall t :: t in topicScores ==> topicScores[t] == TopicTally(0, 0, [], map[])
    ensures TalliesMatch(topicScores, topics, [], answers)
  {
  }

  /** The walk over the catalog: every accumulator agrees with its bucket over the whole catalog. */
  method WalkCatalog(catalog: seq<Question>, answers: AnswersState, topics: seq<string>,
                     initialScores: map<string, TopicTally>)
    returns (scores: Scores, deficiencies: seq<Question>, topicScores: map<string, TopicTally>)
    requires topics == TopicsOf(catalog)
    requires forall t :: t in initialScores <==> t in topics
    requires forall t :: t in initialScores ==> initialScores[t] == TopicTally(0, 0, [], map[])
    ensures ScoresMatch(scores, catalog, answers)
    ensures deficiencies == Deficiencies(catalog, answers)
    ensures TalliesMatch(topicScores, topics, catalog, answers)
  {
    scores := Scores(0, 0, 0, 0, 0, 0);
    deficiencies := [];
    topicScores := initialScores;
    FreshTalliesMatch(topicScores, topics, answers);
    for j := 0 to |catalog|
      invariant ScoresMatch(scores, catalog[..j], answers)
      invariant deficiencies == Deficiencies(catalog[..j], answers)
      invariant TalliesMatch(topicScores, topics, catalog[..j], answers)
    {
      var q := catalog[j];
      var answer := Lookup(answers, q.id);
      var questionScore := ScoreQuestion(answer);
      TopicCovered(catalog, j);
      topicScores := AddQuestion(topicScores, topics, catalog, j, answers, questionScore);
      scores := AddScores(scores, catalog, j, answers, questionScore);
      DeficienciesStep(catalog, j, answers);
      if questionScore < 2 {
        deficiencies := deficiencies + [q];
      }
    }
    assert catalog[..|catalog|] == catalog;
  }

  /** The per-question update of the scalar accumulators. */
  method AddScores(scores: Scores, catalog: seq<Question>, j: nat, answers: AnswersState, questionScore: nat)
    returns (updated: Scores)
    requires j < |catalog|
    requires ScoresMatch(scores, catalog[..j], answers)
    requires questionScore == ScoreHalf(Lookup(answers, catalog[j].id))
    ensures ScoresMatch(updated, catalog[..j + 1], answers)
  {
    var q := catalog[j];
    TotalsStep(catalog, j, answers);
    updated := scores.(totalPossible := scores.totalPossible + 1, achieved := scores.achieved + questionScore);
    var isS1 := Includes(q.reference, S1Tag);
    var isS2 := Includes(q.reference, S2Tag);
    if isS1 {
      updated := updated.(s1Possible := updated.s1Possible + 1, s1Achieved := updated.s1Achieved + questionScore);
    }
    if isS2 {
      updated := updated.(s2Possible := updated.s2Possible + 1, s2Achieved := updated.s2Achieved + questionScore);
    }
  }

  /** The per-question update of `topicScores`. */
  method AddQuestion(topicScores: map<string, TopicTally>, topics: seq<string>, catalog: seq<Question>, j: nat,
                     answers: AnswersState, questionScore: nat)
    returns (updated: map<string, TopicTally>)
    requires j < |catalog| && catalog[j].topic in topics
    requires TalliesMatch(topicScores, topics, catalog[..j], answers)
    requires questionScore == ScoreHalf(Lookup(answers, catalog[j].id))
    ensures TalliesMatch(updated, topics, catalog[..j + 1], answers)
  {
    var q := catalog[j];
    ghost var qs := catalog[..j];
    assert catalog[..j + 1] == qs + [q];
    var topicData := AddToTopic(topicScores[q.topic], qs, q, answers, questionScore);
    forall t | t in topicScores && t != q.topic
      ensures TallyMatches(topicScores[t], qs + [q], answers, t)
    {
      OtherTopicMatches(topicScores[t], qs, q, answers, t);
    }
    updated := topicScores[q.topic := topicData];
  }

  /** `APP_TOPICS.map(...)` over the final tallies. */
  method TopicComplianceOf(catalog: seq<Question>, answers: AnswersState, topics: seq<string>,
                           topicScores: map<string, TopicTally>)
    returns (topicCompliance: seq<TopicCompliance>)
    requires TalliesMatch(topicScores, topics, catalog, answers)
    ensures topicCompliance == TopicResults(catalog, answers, topics)
  {
    topicCompliance := [];
    for i := 0 to |topics|
      invariant topicCompliance == TopicResults(catalog, answers, topics[..i])
    {
      var entry := TopicEntry(catalog, answers, topics, i, topicScores);
      TopicResultsSnoc(catalog, answers, topics, i);
      topicCompliance := topicCompliance + [entry];
    }
    assert topics[..|topics|] == topics;
  }

  /** The body of the `APP_TOPICS.map`: one topic's percentage and its subtopics, worst first. */
  method TopicEntry(catalog: seq<Question>, answers: AnswersState, topics: seq<string>, i: nat,
                    topicScores: map<string, TopicTally>)
    returns (entry: TopicCompliance)
    requires i < |topics|
    requires TalliesMatch(topicScores, topics, catalog, answers)
    ensures entry == TopicResult(catalog, answers, topics[i])
  {
    var t := topics[i];
    assert t in topicScores;
    var topicData := topicScores[t];
    EntriesMatch(topicData, catalog, answers, t);
    var subtopicsCompliance := SubtopicEntries(topicData);
    entry := TopicCompliance(t, Compliance(topicData.achieved, topicData.possible), SortByCompliance(subtopicsCompliance));
  }

  /** One more topic adds its entry at the end. */
  lemma TopicResultsSnoc(catalog: seq<Question>, answers: AnswersState, topics: seq<string>, i: nat)
    requires i < |topics|
    ensures TopicResults(catalog, answers, topics[..i + 1])
            == TopicResults(catalog, answers, topics[..i]) + [TopicResult(catalog, answers, topics[i])]
  {
    assert topics[..i + 1][..i] == topics[..i];
  }

  /** The scalar buckets over one more question of the walk. */
  lemma TotalsStep(catalog: seq<Question>, j: nat, answers: AnswersState)
    requires j < |catalog|
    ensures var q, sc := catalog[j], ScoreHalf(Lookup(answers, catalog[j].id));
            && Possible(catalog[..j + 1], Overall) == Possible(catalog[..j], Overall) + 1
            && Achieved(catalog[..j + 1], answers, Overall) == Achieved(catalog[..j], answers, Overall) + sc
            && Possible(catalog[..j + 1], StandardS1)
               == Possible(catalog[..j], StandardS1) + (if InBucket(q, StandardS1) then 1 else 0)
            && Achieved(catalog[..j + 1], answers, StandardS1)
               == Achieved(catalog[..j], answers, StandardS1) + (if InBucket(q, StandardS1) then sc else 0)
            && Possible(catalog[..j + 1], StandardS2)
               == Possible(catalog[..j], StandardS2) + (if InBucket(q, StandardS2) then 1 else 0)
            && Achieved(catalog[..j + 1], answers, StandardS2)
               == Achieved(catalog[..j], answers, StandardS2) + (if InBucket(q, StandardS2) then sc else 0)
  {
    assert catalog[..j + 1][..j] == catalog[..j];
  }

  lemma DeficienciesStep(catalog: seq<Question>, j: nat, answers: AnswersState)
    requires j < |catalog|
    ensures Deficiencies(catalog[..j + 1], answers)
            == Deficiencies(catalog[..j], answers) + (if ScoreHalf(Lookup(answers, catalog[j].id)) < 2 then [catalog[j]] else [])
  {
    assert catalog[..j + 1][..j] == catalog[..j];
  }

  /** `questionScore`: the score branches of the walk. */
  method ScoreQuestion(answer: Option<Answer>) returns (questionScore: nat)
    ensures questionScore == ScoreHalf(answer)
  {
    questionScore := 0;
    if IsAnswerProvided(answer) && answer.value.aiCheck.Some? {
      var status := answer.value.aiCheck.value.status;
      if status == "sufficient" {
        questionScore := 2;
      } else if status == "partial" {
        questionScore := 1;
      }
    }
  }

  /** Adds one question to its topic's entry, creating its subtopic on first sight. */
  method AddToTopic(topicData: TopicTally, ghost qs: seq<Question>, q: Question, answers: AnswersState,
                    questionScore: nat)
    returns (updated: TopicTally)
    requires TallyMatches(topicData, qs, answers, q.topic)
    requires questionScore == ScoreHalf(Lookup(answers, q.id))
    ensures TallyMatches(updated, qs + [q], answers, q.topic)
  {
    var t := q.topic;
    updated := topicData;
    if q.subtopic !in updated.subtopics {
      updated := updated.(subtopicOrder := updated.subtopicOrder + [q.subtopic],
                          subtopics := updated.subtopics[q.subtopic := Tally(0, 0)]);
    }
    var sub := updated.subtopics[q.subtopic];
    updated := updated.(achieved := updated.achieved + questionScore,
                        possible := updated.possible + 1,
                        subtopics := updated.subtopics[q.subtopic := Tally(sub.achieved + questionScore, sub.possible + 1)]);
    PossibleSnoc(qs, q, OfTopic(t));
    AchievedSnoc(qs, q, answers, OfTopic(t));
    SubtopicsSnoc(qs, q, t);
    forall s | s in updated.subtopics
      ensures updated.subtopics[s]
              == Tally(Achieved(qs + [q], answers, OfSubtopic(t, s)), Possible(qs + [q], OfSubtopic(t, s)))
    {
      PossibleSnoc(qs, q, OfSubtopic(t, s));
      AchievedSnoc(qs, q, answers, OfSubtopic(t, s));
      if s !in topicData.subtopics {
        UnseenSubtopicEmpty(qs, answers, t, s);
      }
    }
  }

  /** A subtopic the walk has not met yet has nothing accumulated. */
  lemma {:induction false} UnseenSubtopicEmpty(qs: seq<Question>, answers: AnswersState, t: string, s: string)
    requires s !in SubtopicsOf(qs, t)
    ensures Possible(qs, OfSubtopic(t, s)) == 0 && Achieved(qs, answers, OfSubtopic(t, s)) == 0
    decreases |qs|
  {
    if qs != [] {
      var init := qs[..|qs| - 1];
      assert s !in SubtopicsOf(init, t);
      UnseenSubtopicEmpty(init, answers, t, s);
    }
  }

  /** A matching entry yields the specified topic entry. */
  lemma EntriesMatch(tt: TopicTally, qs: seq<Question>, answers: AnswersState, t: string)
    requires TallyMatches(tt, qs, answers, t)
    ensures forall s :: s in tt.subtopicOrder ==> s in tt.subtopics
    ensures SubtopicEntries(tt) == SubtopicResults(qs, answers, t, OwnKeys(SubtopicsOf(qs, t)))
    ensures Compliance(tt.achieved, tt.possible) == Compliance(Achieved(qs, answers, OfTopic(t)), Possible(qs, OfTopic(t)))
  {
    var keys := OwnKeys(tt.subtopicOrder);
    OwnKeysPermutes(tt.subtopicOrder);
    var entries, expected := SubtopicEntries(tt), SubtopicResults(qs, answers, t, keys);
    forall k | 0 <= k < |keys| ensures entries[k] == expected[k] {
      assert keys[k] in tt.subtopicOrder;
    }
  }

  /** A question of another topic leaves a topic's entry matching. */
  lemma OtherTopicMatches(tt: TopicTally, qs: seq<Question>, q: Question, answers: AnswersState, t: string)
    requires TallyMatches(tt, qs, answers, t)
    requires q.topic != t
    ensures TallyMatches(tt, qs + [q], answers, t)
  {
    PossibleSnoc(qs, q, OfTopic(t));
    AchievedSnoc(qs, q, answers, OfTopic(t));
    SubtopicsSnoc(qs, q, t);
    forall s | s in tt.subtopics
      ensures tt.subtopics[s] == Tally(Achieved(qs + [q], answers, OfSubtopic(t, s)), Possible(qs + [q], OfSubtopic(t, s)))
    {
      PossibleSnoc(qs, q, OfSubtopic(t, s));
      AchievedSnoc(qs, q, answers, OfSubtopic(t, s));
    }
  }

  /** `Object.entries(topicData.subtopics).map(...)`, in the object's key order. */
  function SubtopicEntries(tt: TopicTally): seq<SubtopicCompliance>
    requires forall s :: s in tt.subtopicOrder ==> s in tt.subtopics
  {
    var keys := OwnKeys(tt.subtopicOrder);
    OwnKeysPermutes(tt.subtopicOrder);
    seq(|keys|, k requires 0 <= k < |keys| =>
      SubtopicCompliance(keys[k], Compliance(tt.subtopics[keys[k]].achieved, tt.subtopics[keys[k]].possible)))
  }

  /** The bucket totals over one more question. */
  lemma PossibleSnoc(qs: seq<Question>, q: Question, b: Bucket)
    ensures Possible(qs + [q], b) == Possible(qs, b) + (if InBucket(q, b) then 1 else 0)
  {
    assert (qs + [q])[..|qs|] == qs;
  }

  lemma AchievedSnoc(qs: seq<Question>, q: Question, answers: AnswersState, b: Bucket)
    ensures Achieved(qs + [q], answers, b)
            == Achieved(qs, answers, b) + (if InBucket(q, b) then ScoreHalf(Lookup(answers, q.id)) else 0)
  {
    assert (qs + [q])[..|qs|] == qs;
  }

  lemma SubtopicsSnoc(qs: seq<Question>, q: Question, t: string)
    ensures SubtopicsOf(qs + [q], t)
            == if q.topic == t && q.subtopic !in SubtopicsOf(qs, t) then SubtopicsOf(qs, t) + [q.subtopic]
               else SubtopicsOf(qs, t)
  {
    assert (qs + [q])[..|qs|] == qs;
  }

  // ---------------------------------------------------------------------
  // Properties of the report.

  /** A bucket never achieves more than its possible score. */
  lemma {:induction false} AchievedAtMostPossible(qs: seq<Question>, answers: AnswersState, b: Bucket)
    ensures Achieved(qs, answers, b) <= 2 * Possible(qs, b)
    decreases |qs|
  {
    if qs != [] {
      AchievedAtMostPossible(qs[..|qs| - 1], answers, b);
    }
  }

  /** Every question counts once in the overall bucket (weight 1). */
  lemma {:induction false} OverallPossibleIsSize(qs: seq<Question>)
    ensures Possible(qs, Overall) == |qs|
    decreases |qs|
  {
    if qs != [] {
      OverallPossibleIsSize(qs[..|qs| - 1]);
    }
  }

  /** A percentage of a bucket lies in [0, 100], and an empty bucket reports 100. */
  lemma ComplianceInRange(achievedHalf: nat, possible: nat)
    requires achievedHalf <= 2 * possible
    ensures 0.0 <= Compliance(achievedHalf, possible) <= 100.0
    ensures possible == 0 ==> Compliance(achievedHalf, possible) == 100.0
  {
    if possible > 0 {
      var x, y := achievedHalf as real / 2.0, possible as real;
      assert x <= y;
      assert x / y <= 1.0;
    }
  }

  /** A non-empty bucket reports 100 exactly when every question in it scores a full point. */
  lemma ComplianceFullIff(achievedHalf: nat, possible: nat)
    requires possible > 0
    ensures Compliance(achievedHalf, possible) == 100.0 <==> achievedHalf == 2 * possible
  {
    var x, y := achievedHalf as real / 2.0, possible as real;
    if x / y * 100.0 == 100.0 {
      assert x / y == 1.0;
      assert x == y;
    }
  }

  lemma BucketInRange(qs: seq<Question>, answers: AnswersState, b: Bucket)
    ensures 0.0 <= Compliance(Achieved(qs, answers, b), Possible(qs, b)) <= 100.0
  {
    AchievedAtMostPossible(qs, answers, b);
    ComplianceInRange(Achieved(qs, answers, b), Possible(qs, b));
  }

  /**
   * Every percentage of a report lies in [0, 100]: the overall figure, both
   * standards, every topic and every subtopic.
   */
  lemma ReportPercentagesInRange(catalog: seq<Question>, answers: AnswersState, companyName: string,
                                 answeredCount: nat, now: int, isConsultantReport: bool)
    ensures var r := ComplianceReport(catalog, answers, companyName, answeredCount, now, isConsultantReport);
            && 0.0 <= r.weightedCompliance <= 100.0
            && 0.0 <= r.s1Compliance <= 100.0
            && 0.0 <= r.s2Compliance <= 100.0
            && (forall k :: 0 <= k < |r.topicCompliance| ==> 0.0 <= r.topicCompliance[k].compliance <= 100.0)
            && (forall k, m :: 0 <= k < |r.topicCompliance| && 0 <= m < |r.topicCompliance[k].subtopics| ==>
                  0.0 <= r.topicCompliance[k].subtopics[m].compliance <= 100.0)
  {
    BucketInRange(catalog, answers, Overall);
    BucketInRange(catalog, answers, StandardS1);
    BucketInRange(catalog, answers, StandardS2);
    var topics := TopicsOf(catalog);
    forall k | 0 <= k < |topics|
      ensures 0.0 <= TopicResult(catalog, answers, topics[k]).compliance <= 100.0
      ensures forall m :: 0 <= m < |TopicResult(catalog, answers, topics[k]).subtopics| ==>
                0.0 <= TopicResult(catalog, answers, topics[k]).subtopics[m].compliance <= 100.0
    {
      TopicInRange(catalog, answers, topics[k]);
    }
  }

  lemma TopicInRange(catalog: seq<Question>, answers: AnswersState, t: string)
    ensures 0.0 <= TopicResult(catalog, answers, t).compliance <= 100.0
    ensures forall m :: 0 <= m < |TopicResult(catalog, answers, t).subtopics| ==>
              0.0 <= TopicResult(catalog, answers, t).subtopics[m].compliance <= 100.0
  {
    BucketInRange(catalog, answers, OfTopic(t));
    var names := OwnKeys(SubtopicsOf(catalog, t));
    var unsorted := SubtopicResults(catalog, answers, t, names);
    var sorted := SortByCompliance(unsorted);
    forall m | 0 <= m < |sorted| ensures 0.0 <= sorted[m].compliance <= 100.0 {
      assert sorted[m] in multiset(unsorted);
      var k :| 0 <= k < |unsorted| && unsorted[k] == sorted[m];
      BucketInRange(catalog, answers, OfSubtopic(t, names[k]));
    }
  }

  /** A question is a deficiency exactly when it scores less than a full point. */
  lemma {:induction false} DeficiencyMembers(qs: seq<Question>, answers: AnswersState)
    ensures forall q :: q in Deficiencies(qs, answers) <==> q in qs && ScoreHalf(Lookup(answers, q.id)) < 2
    decreases |qs|
  {
    if qs != [] {
      var init, last := qs[..|qs| - 1], qs[|qs| - 1];
      DeficiencyMembers(init, answers);
      assert qs == init + [last];
    }
  }

  /** The overall bucket is full exactly when there are no deficiencies. */
  lemma {:induction false} FullScoreIffNoDeficiencies(qs: seq<Question>, answers: AnswersState)
    ensures Achieved(qs, answers, Overall) == 2 * Possible(qs, Overall) <==> Deficiencies(qs, answers) == []
    decreases |qs|
  {
    if qs != [] {
      var init := qs[..|qs| - 1];
      FullScoreIffNoDeficiencies(init, answers);
      AchievedAtMostPossible(init, answers, Overall);
    }
  }

  /**
   * The overall percentage is 100 exactly when no question is a deficiency
   * (for a non-empty catalog; an empty one reports 100 with no deficiencies).
   */
  lemma FullComplianceIffNoDeficiencies(catalog: seq<Question>, answers: AnswersState, companyName: string,
                                        answeredCount: nat, now: int, isConsultantReport: bool)
    ensures var r := ComplianceReport(catalog, answers, companyName, answeredCount, now, isConsultantReport);
            r.weightedCompliance == 100.0 <==> r.deficiencies == []
  {
    FullScoreIffNoDeficiencies(catalog, answers);
    OverallPossibleIsSize(catalog);
    if catalog != [] {
      ComplianceFullIff(Achieved(catalog, answers, Overall), Possible(catalog, Overall));
    }
  }

  /** The sum of the possible scores of the topics `ts`. */
  function SumTopicPossible(qs: seq<Question>, ts: seq<string>): nat {
    if ts == [] then 0 else Possible(qs, OfTopic(ts[0])) + SumTopicPossible(qs, ts[1..])
  }

  lemma {:induction false} SumTopicPossibleAppend(qs: seq<Question>, ts: seq<string>, t: string)
    ensures SumTopicPossible(qs, ts + [t]) == SumTopicPossible(qs, ts) + Possible(qs, OfTopic(t))
    decreases |ts|
  {
    if ts != [] {
      assert (ts + [t])[1..] == ts[1..] + [t];
      SumTopicPossibleAppend(qs, ts[1..], t);
    }
  }

  lemma {:induction false} SumTopicPossibleSnoc(qs: seq<Question>, q: Question, ts: seq<string>)
    requires Distinct(ts)
    ensures SumTopicPossible(qs + [q], ts) == SumTopicPossible(qs, ts) + (if q.topic in ts then 1 else 0)
    decreases |ts|
  {
    if ts != [] {
      PossibleSnoc(qs, q, OfTopic(ts[0]));
      assert Distinct(ts[1..]);
      assert q.topic in ts <==> q.topic == ts[0] || q.topic in ts[1..];
      assert q.topic == ts[0] ==> q.topic !in ts[1..];
      SumTopicPossibleSnoc(qs, q, ts[1..]);
    }
  }

  /** A topic no question has is an empty bucket. */
  lemma {:induction false} AbsentTopicEmpty(qs: seq<Question>, t: string)
    requires t !in TopicsOf(qs)
    ensures Possible(qs, OfTopic(t)) == 0
    decreases |qs|
  {
    if qs != [] {
      var init := qs[..|qs| - 1];
      assert t !in TopicsOf(init);
      AbsentTopicEmpty(init, t);
    }
  }

  /** The topic buckets split the catalog: their possible scores add up to its size. */
  lemma {:induction false} TopicsPartitionCatalog(qs: seq<Question>)
    ensures SumTopicPossible(qs, TopicsOf(qs)) == |qs|
    decreases |qs|
  {
    if qs != [] {
      var init, q := qs[..|qs| - 1], qs[|qs| - 1];
      assert qs == init + [q];
      TopicsPartitionCatalog(init);
      var ts := TopicsOf(init);
      SumTopicPossibleSnoc(init, q, ts);
      if q.topic !in ts {
        SumTopicPossibleAppend(qs, ts, q.topic);
        AbsentTopicEmpty(init, q.topic);
        PossibleSnoc(init, q, OfTopic(q.topic));
      }
    }
  }

  /** A topic is listed exactly when some question has it. */
  lemma {:induction false} TopicsOccur(qs: seq<Question>, t: string)
    requires t in TopicsOf(qs)
    ensures HasTopic(qs, t)
    decreases |qs|
  {
    var init := qs[..|qs| - 1];
    if t in TopicsOf(init) {
      TopicsOccur(init, t);
      var i :| 0 <= i < |init| && init[i].topic == t;
      assert qs[i] == init[i];
    } else {
      assert qs[|qs| - 1].topic == t;
    }
  }

  /** A subtopic is listed for `t` exactly when some question of topic `t` has it. */
  lemma {:induction false} SubtopicsOccur(qs: seq<Question>, t: string, s: string)
    ensures s in SubtopicsOf(qs, t) <==> HasQuestionIn(qs, t, s)
    decreases |qs|
  {
    if qs != [] {
      var init := qs[..|qs| - 1];
      SubtopicsOccur(init, t, s);
      if exists i :: 0 <= i < |init| && init[i].topic == t && init[i].subtopic == s {
        var i :| 0 <= i < |init| && init[i].topic == t && init[i].subtopic == s;
        assert qs[i] == init[i];
      }
      if exists i :: 0 <= i < |qs| && qs[i].topic == t && qs[i].subtopic == s {
        var i :| 0 <= i < |qs| && qs[i].topic == t && qs[i].subtopic == s;
        if i < |init| {
          assert init[i] == qs[i];
        }
      }
    }
  }

  /** Some entry of `subs` is named `s`. */
  predicate ListsSubtopic(subs: seq<SubtopicCompliance>, s: string) {
    exists m :: 0 <= m < |subs| && subs[m].name == s
  }

  /** Some question of the catalog belongs to topic `t` and subtopic `s`. */
  predicate HasQuestionIn(catalog: seq<Question>, t: string, s: string) {
    exists i :: 0 <= i < |catalog| && catalog[i].topic == t && catalog[i].subtopic == s
  }

  /** Some entry of `tc` is for topic `t`. */
  predicate ListsTopic(tc: seq<TopicCompliance>, t: string) {
    exists k :: 0 <= k < |tc| && tc[k].topic == t
  }

  /** Some question of the catalog belongs to topic `t`. */
  predicate HasTopic(catalog: seq<Question>, t: string) {
    exists i :: 0 <= i < |catalog| && catalog[i].topic == t
  }

  /** `topicCompliance` lists exactly the topics of the catalog, each once. */
  lemma TopicListExact(catalog: seq<Question>, answers: AnswersState, companyName: string,
                       answeredCount: nat, now: int, isConsultantReport: bool)
    ensures var tc := ComplianceReport(catalog, answers, companyName, answeredCount, now, isConsultantReport).topicCompliance;
            && (forall t :: ListsTopic(tc, t) <==> HasTopic(catalog, t))
            && (forall k, m :: 0 <= k < m < |tc| ==> tc[k].topic != tc[m].topic)
  {
    var topics := TopicsOf(catalog);
    TopicResultsExact(catalog, answers, topics);
  }

  lemma TopicResultsExact(catalog: seq<Question>, answers: AnswersState, topics: seq<string>)
    requires topics == TopicsOf(catalog)
    ensures var tc := TopicResults(catalog, answers, topics);
            && (forall t :: ListsTopic(tc, t) <==> HasTopic(catalog, t))
            && (forall k, m :: 0 <= k < m < |tc| ==> tc[k].topic != tc[m].topic)
  {
    TopicResultsTopics(catalog, answers, topics);
    TopicsListed(TopicResults(catalog, answers, topics), catalog, topics);
  }

  /** The k-th entry is for the k-th topic. */
  lemma TopicResultsTopics(catalog: seq<Question>, answers: AnswersState, topics: seq<string>)
    ensures var tc := TopicResults(catalog, answers, topics);
            |tc| == |topics| && forall k :: 0 <= k < |tc| ==> tc[k].topic == topics[k]
  {
  }

  /** Entries that follow the catalog's topic list name each catalog topic once. */
  lemma TopicsListed(tc: seq<TopicCompliance>, catalog: seq<Question>, topics: seq<string>)
    requires topics == TopicsOf(catalog)
    requires |tc| == |topics| && forall k :: 0 <= k < |tc| ==> tc[k].topic == topics[k]
    ensures forall t :: ListsTopic(tc, t) <==> HasTopic(catalog, t)
    ensures forall k, m :: 0 <= k < m < |tc| ==> tc[k].topic != tc[m].topic
  {
    forall t ensures ListsTopic(tc, t) <==> HasTopic(catalog, t) {
      if HasTopic(catalog, t) {
        var i :| 0 <= i < |catalog| && catalog[i].topic == t;
        TopicCovered(catalog, i);
        var k :| 0 <= k < |topics| && topics[k] == t;
        assert tc[k].topic == t;
      }
      if ListsTopic(tc, t) {
        var k :| 0 <= k < |tc| && tc[k].topic == t;
        TopicsOccur(catalog, topics[k]);
      }
    }
  }

  /**
   * Each topic entry's subtopics are sorted ascending by compliance, are
   * exactly the subtopics that questions of that topic have, and name each
   * of them once: a permutation of the topic's subtopics.
   */
  lemma SubtopicListsExact(catalog: seq<Question>, answers: AnswersState, companyName: string,
                           answeredCount: nat, now: int, isConsultantReport: bool)
    ensures var tc := ComplianceReport(catalog, answers, companyName, answeredCount, now, isConsultantReport).topicCompliance;
            && (forall k :: 0 <= k < |tc| ==> SortedByCompliance(tc[k].subtopics))
            && (forall k, s :: 0 <= k < |tc| ==>
                  (ListsSubtopic(tc[k].subtopics, s) <==> HasQuestionIn(catalog, tc[k].topic, s)))
            && (forall k, m, n :: 0 <= k < |tc| && 0 <= m < n < |tc[k].subtopics| ==>
                  tc[k].subtopics[m].name != tc[k].subtopics[n].name)
  {
    var topics := TopicsOf(catalog);
    forall k, s | 0 <= k < |topics|
      ensures ListsSubtopic(TopicResult(catalog, answers, topics[k]).subtopics, s)
              <==> HasQuestionIn(catalog, topics[k], s)
    {
      SubtopicNames(catalog, answers, topics[k], s);
    }
    forall k | 0 <= k < |topics|
      ensures var subs := TopicResult(catalog, answers, topics[k]).subtopics;
              forall m, n :: 0 <= m < n < |subs| ==> subs[m].name != subs[n].name
    {
      SubtopicNamesOnce(catalog, answers, topics[k]);
    }
  }

  /** The sorted subtopic entries of `t` carry exactly the subtopic names of `t`. */
  lemma SubtopicNames(catalog: seq<Question>, answers: AnswersState, t: string, s: string)
    ensures ListsSubtopic(TopicResult(catalog, answers, t).subtopics, s) <==> HasQuestionIn(catalog, t, s)
  {
    var names := OwnKeys(SubtopicsOf(catalog, t));
    OwnKeysPermutes(SubtopicsOf(catalog, t));
    SubtopicsOccur(catalog, t, s);
    var unsorted := SubtopicResults(catalog, answers, t, names);
    NamesSurviveSort(names, unsorted, SortByCompliance(unsorted), s);
  }

  /** The sorted subtopic entries of `t` name no subtopic twice. */
  lemma SubtopicNamesOnce(catalog: seq<Question>, answers: AnswersState, t: string)
    ensures var subs := TopicResult(catalog, answers, t).subtopics;
            forall m, n :: 0 <= m < n < |subs| ==> subs[m].name != subs[n].name
  {
    var names := OwnKeys(SubtopicsOf(catalog, t));
    OwnKeysDistinct(SubtopicsOf(catalog, t));
    var unsorted := SubtopicResults(catalog, answers, t, names);
    NamesStayDistinct(names, unsorted, SortByCompliance(unsorted));
  }

  /** Reordering entries named after `names` keeps the set of names. */
  lemma NamesSurviveSort(names: seq<string>, unsorted: seq<SubtopicCompliance>, subs: seq<SubtopicCompliance>,
                         s: string)
    requires |unsorted| == |names| && forall k :: 0 <= k < |unsorted| ==> unsorted[k].name == names[k]
    requires multiset(subs) == multiset(unsorted)
    ensures ListsSubtopic(subs, s) <==> s in names
  {
    if ListsSubtopic(subs, s) {
      var m :| 0 <= m < |subs| && subs[m].name == s;
      assert subs[m] in multiset(unsorted);
      var k :| 0 <= k < |unsorted| && unsorted[k] == subs[m];
      assert names[k] == s;
    }
    if s in names {
      var k :| 0 <= k < |names| && names[k] == s;
      assert unsorted[k] in multiset(subs);
      var m :| 0 <= m < |subs| && subs[m] == unsorted[k];
      assert subs[m].name == s;
    }
  }

  /** Reordering entries named after distinct `names` names each of them once. */
  lemma NamesStayDistinct(names: seq<string>, unsorted: seq<SubtopicCompliance>, subs: seq<SubtopicCompliance>)
    requires |unsorted| == |names| && forall k :: 0 <= k < |unsorted| ==> unsorted[k].name == names[k]
    requires Distinct(names)
    requires multiset(subs) == multiset(unsorted)
    ensures forall m, n :: 0 <= m < n < |subs| ==> subs[m].name != subs[n].name
  {
    assert Distinct(unsorted) by {
      forall i, j | 0 <= i < j < |unsorted| ensures unsorted[i] != unsorted[j] {
        assert unsorted[i].name == names[i] != names[j] == unsorted[j].name;
      }
    }
    forall m, n | 0 <= m < n < |subs| ensures subs[m].name != subs[n].name {
      if subs[m].name == subs[n].name {
        assert subs[m] in multiset(unsorted) && subs[n] in multiset(unsorted);
        var a :| 0 <= a < |unsorted| && unsorted[a] == subs[m];
        var b :| 0 <= b < |unsorted| && unsorted[b] == subs[n];
        assert names[a] == names[b];
        assert a == b;
        CountsTwice(subs, m, n);
        DistinctCountsOnce(unsorted, subs[m]);
      }
    }
  }

  /**
   * Subtopics of equal compliance keep the key order of `Object.entries`:
   * the stable sort reorders only entries whose compliance differs.
   */
  lemma SubtopicTiesInKeyOrder(catalog: seq<Question>, answers: AnswersState, t: string, v: real)
    ensures WithKey(TopicResult(catalog, answers, t).subtopics, ComplianceOf, v)
            == WithKey(SubtopicResults(catalog, answers, t, OwnKeys(SubtopicsOf(catalog, t))), ComplianceOf, v)
  {
    var unsorted := SubtopicResults(catalog, answers, t, OwnKeys(SubtopicsOf(catalog, t)));
    assert SortByCompliance(unsorted) == SortBy(unsorted, ComplianceOf);
    SortByStable(unsorted, ComplianceOf, v);
  }

  /** The two stores give every question of `qs` the same score. */
  predicate SameScores(qs: seq<Question>, a: AnswersState, b: AnswersState) {
    forall i :: 0 <= i < |qs| ==> ScoreHalf(Lookup(a, qs[i].id)) == ScoreHalf(Lookup(b, qs[i].id))
  }

  lemma {:induction false} SameScoresSameBuckets(qs: seq<Question>, a: AnswersState, b: AnswersState, bk: Bucket)
    requires SameScores(qs, a, b)
    ensures Achieved(qs, a, bk) == Achieved(qs, b, bk)
    ensures Deficiencies(qs, a) == Deficiencies(qs, b)
    decreases |qs|
  {
    if qs != [] {
      var init := qs[..|qs| - 1];
      assert SameScores(init, a, b) by {
        forall i | 0 <= i < |init| ensures ScoreHalf(Lookup(a, init[i].id)) == ScoreHalf(Lookup(b, init[i].id)) {
          assert init[i] == qs[i];
        }
      }
      SameScoresSameBuckets(init, a, b, bk);
    }
  }

  /**
   * A report depends on the answers only through the scores: two stores that
   * score every catalog question alike yield the same figures, deficiencies
   * and topic breakdown.
   */
  lemma ReportDependsOnlyOnScores(catalog: seq<Question>, a: AnswersState, b: AnswersState, companyName: string,
                                  answeredCount: nat, now: int, isConsultantReport: bool)
    requires SameScores(catalog, a, b)
    ensures ComplianceReport(catalog, a, companyName, answeredCount, now, isConsultantReport).(allAnswers := b)
            == ComplianceReport(catalog, b, companyName, answeredCount, now, isConsultantReport)
  {
    SameScoresSameBuckets(catalog, a, b, Overall);
    SameScoresSameBuckets(catalog, a, b, StandardS1);
    SameScoresSameBuckets(catalog, a, b, StandardS2);
    var topics := TopicsOf(catalog);
    forall k | 0 <= k < |topics|
      ensures TopicResult(catalog, a, topics[k]) == TopicResult(catalog, b, topics[k])
    {
      var t := topics[k];
      SameScoresSameBuckets(catalog, a, b, OfTopic(t));
      var names := OwnKeys(SubtopicsOf(catalog, t));
      forall m | 0 <= m < |names|
        ensures Achieved(catalog, a, OfSubtopic(t, names[m])) == Achieved(catalog, b, OfSubtopic(t, names[m]))
      {
        SameScoresSameBuckets(catalog, a, b, OfSubtopic(t, names[m]));
      }
      assert SubtopicResults(catalog, a, t, names) == SubtopicResults(catalog, b, t, names);
    }
    assert TopicResults(catalog, a, topics) == TopicResults(catalog, b, topics);
  }

  /** The catalog of the three-question example: q1 in IFRS S1 only, q2 in IFRS S2 only, q3 in both. */
  function ExampleCatalog(): seq<Question> {
    [Question("q1", "Governança", "Supervisão", "", Boolean, [], S1Tag, ""),
     Question("q2", "Governança", "Supervisão", "", Boolean, [], S2Tag, ""),
     Question("q3", "Governança", "Supervisão", "", Boolean, [], S1Tag + ", " + S2Tag, "")]
  }

  /** q1 confirmed and sufficient, q2 confirmed and insufficient, q3 unconfirmed. */
  function ExampleAnswers(): AnswersState {
    map[
      "q1" := Answer(Bool(true), "", None, true, Some(AiCheckResult("sufficient", "", None)), None, None),
      "q2" := Answer(Bool(false), "", None, true, Some(AiCheckResult("insufficient", "", None)), None, None),
      "q3" := Answer(Bool(true), "", None, false, None, None, None)]
  }

  /** Between strings of one length, inclusion is equality. */
  lemma SameLengthIncludes(s: string, sub: string)
    requires |s| == |sub|
    ensures Includes(s, sub) <==> s == sub
  {
    IncludesIffOccurs(s, sub);
    if Includes(s, sub) {
      var i :| OccursAt(s, sub, i);
      assert s[..] == s[i..i + |sub|];
    }
  }

  lemma ExampleStandardsQ1(q: Question)
    requires q.reference == S1Tag
    ensures InBucket(q, StandardS1) && !InBucket(q, StandardS2)
  {
    SameLengthIncludes(q.reference, S1Tag);
    SameLengthIncludes(q.reference, S2Tag);
  }

  lemma ExampleStandardsQ2(q: Question)
    requires q.reference == S2Tag
    ensures !InBucket(q, StandardS1) && InBucket(q, StandardS2)
  {
    SameLengthIncludes(q.reference, S1Tag);
    SameLengthIncludes(q.reference, S2Tag);
  }

  lemma ExampleStandardsQ3(q: Question)
    requires q.reference == S1Tag + ", " + S2Tag
    ensures InBucket(q, StandardS1) && InBucket(q, StandardS2)
  {
    IncludesPrefix(S1Tag, ", " + S2Tag);
    assert S1Tag + ", " + S2Tag == S1Tag + (", " + S2Tag);
    IncludesSuffix(S1Tag + ", ", S2Tag);
  }

  lemma ExampleStandards(qs: seq<Question>)
    requires qs == ExampleCatalog()
    ensures InBucket(qs[0], StandardS1) && !InBucket(qs[0], StandardS2)
    ensures !InBucket(qs[1], StandardS1) && InBucket(qs[1], StandardS2)
    ensures InBucket(qs[2], StandardS1) && InBucket(qs[2], StandardS2)
  {
    ExampleStandardsQ1(qs[0]);
    ExampleStandardsQ2(qs[1]);
    ExampleStandardsQ3(qs[2]);
  }

  lemma ExampleScores(qs: seq<Question>, answers: AnswersState)
    requires qs == ExampleCatalog() && answers == ExampleAnswers()
    ensures ScoreHalf(Lookup(answers, qs[0].id)) == 2
    ensures ScoreHalf(Lookup(answers, qs[1].id)) == 0
    ensures ScoreHalf(Lookup(answers, qs[2].id)) == 0
  {
  }

  /** The buckets of a three-question catalog, question by question. */
  lemma ThreeQuestionPossible(q1: Question, q2: Question, q3: Question, bk: Bucket)
    ensures Possible([q1, q2, q3], bk)
            == (if InBucket(q1, bk) then 1 else 0) + (if InBucket(q2, bk) then 1 else 0) + (if InBucket(q3, bk) then 1 else 0)
  {
    assert [] + [q1] == [q1] && [q1] + [q2] == [q1, q2] && [q1, q2] + [q3] == [q1, q2, q3];
    PossibleSnoc([], q1, bk);
    PossibleSnoc([q1], q2, bk);
    PossibleSnoc([q1, q2], q3, bk);
  }

  lemma ThreeQuestionAchieved(q1: Question, q2: Question, q3: Question, answers: AnswersState, bk: Bucket)
    ensures Achieved([q1, q2, q3], answers, bk)
            == (if InBucket(q1, bk) then ScoreHalf(Lookup(answers, q1.id)) else 0)
             + (if InBucket(q2, bk) then ScoreHalf(Lookup(answers, q2.id)) else 0)
             + (if InBucket(q3, bk) then ScoreHalf(Lookup(answers, q3.id)) else 0)
  {
    assert [] + [q1] == [q1] && [q1] + [q2] == [q1, q2] && [q1, q2] + [q3] == [q1, q2, q3];
    AchievedSnoc([], q1, answers, bk);
    AchievedSnoc([q1], q2, answers, bk);
    AchievedSnoc([q1, q2], q3, answers, bk);
  }

  lemma ThreeQuestionDeficiencies(q1: Question, q2: Question, q3: Question, answers: AnswersState)
    requires ScoreHalf(Lookup(answers, q1.id)) == 2
    requires ScoreHalf(Lookup(answers, q2.id)) < 2 && ScoreHalf(Lookup(answers, q3.id)) < 2
    ensures Deficiencies([q1, q2, q3], answers) == [q2, q3]
  {
    var qs := [q1, q2, q3];
    assert qs[..0] == [] && qs[..1] == [q1] && qs[..2] == [q1, q2] && qs[..3] == qs;
    DeficienciesStep(qs, 0, answers);
    DeficienciesStep(qs, 1, answers);
    DeficienciesStep(qs, 2, answers);
  }

  lemma ExampleFigures(qs: seq<Question>, answers: AnswersState)
    requires qs == ExampleCatalog() && answers == ExampleAnswers()
    ensures Possible(qs, Overall) == 3 && Achieved(qs, answers, Overall) == 2
    ensures Possible(qs, StandardS1) == 2 && Achieved(qs, answers, StandardS1) == 2
    ensures Possible(qs, StandardS2) == 2 && Achieved(qs, answers, StandardS2) == 0
    ensures Deficiencies(qs, answers) == [qs[1], qs[2]]
  {
    ExampleStandards(qs);
    ExampleScores(qs, answers);
    assert qs == [qs[0], qs[1], qs[2]];
    ThreeQuestionPossible(qs[0], qs[1], qs[2], Overall);
    ThreeQuestionAchieved(qs[0], qs[1], qs[2], answers, Overall);
    ThreeQuestionPossible(qs[0], qs[1], qs[2], StandardS1);
    ThreeQuestionAchieved(qs[0], qs[1], qs[2], answers, StandardS1);
    ThreeQuestionPossible(qs[0], qs[1], qs[2], StandardS2);
    ThreeQuestionAchieved(qs[0], qs[1], qs[2], answers, StandardS2);
    ThreeQuestionDeficiencies(qs[0], qs[1], qs[2], answers);
  }

  lemma ExampleAnswered(qs: seq<Question>, answers: AnswersState)
    requires qs == ExampleCatalog() && answers == ExampleAnswers()
    ensures CountProvided(qs, answers) == 2
  {
    assert IsAnswerProvided(Lookup(answers, qs[0].id)) && IsAnswerProvided(Lookup(answers, qs[1].id));
    assert !IsAnswerProvided(Lookup(answers, qs[2].id));
    assert [qs[2]][1..] == [];
    assert ProvidedQuestions([qs[2]], answers) == [];
    assert [qs[1], qs[2]][1..] == [qs[2]];
    assert ProvidedQuestions([qs[1], qs[2]], answers) == [qs[1]];
    assert qs[1..] == [qs[1], qs[2]];
  }

  /**
   * The three-question example: overall 1 of 3 points (33.3%), IFRS S1 1 of 2
   * (50%), IFRS S2 0 of 2 (0%), deficiencies q2 then q3, and two answered
   * questions out of three.
   */
  lemma ThreeQuestionExample(qs: seq<Question>, answers: AnswersState)
    requires qs == ExampleCatalog() && answers == ExampleAnswers()
    ensures var r := ComplianceReport(qs, answers, "ACME", CountProvided(qs, answers), 0, false);
            && r.weightedCompliance == 100.0 / 3.0
            && r.s1Compliance == 50.0
            && r.s2Compliance == 0.0
            && r.deficiencies == [qs[1], qs[2]]
            && r.answeredQuestions == 2
            && r.totalQuestions == 3
  {
    ExampleFigures(qs, answers);
    ExampleAnswered(qs, answers);
  }
}
