/**
 * Import decoding (`handleStartFromReport` in App.tsx): the document-analysis
 * service returns one string per question it could answer, and each string
 * is turned into a typed, confirmed answer or dropped.
 */
module ImportDecoding {
  import opened Types
  import opened Strings
  import opened Answers

  /** One entry of the service's response. */
  datatype GeneratedAnswer = GeneratedAnswer(questionId: string, value: string, evidence: string)

  /** `ALL_QUESTIONS.find(q => q.id === id)`: the first question with that id. */
  function FindQuestion(catalog: seq<Question>, id: string): (r: Option<Question>)
    ensures r.Some? ==> r.value in catalog && r.value.id == id
    ensures r.Some? ==> exists i :: 0 <= i < |catalog| && catalog[i] == r.value
                                    && forall j :: 0 <= j < i ==> catalog[j].id != id
    ensures r.None? <==> forall q :: q in catalog ==> q.id != id
    decreases |catalog|
  {
    if catalog == [] then None
    else if catalog[0].id == id then Some(catalog[0])
    else FindQuestion(catalog[1..], id)
  }

  /** `.map(s => s.trim())`. */
  function TrimAll(pieces: seq<string>): (r: seq<string>)
    ensures |r| == |pieces|
    ensures forall i :: 0 <= i < |r| ==> r[i] == Trim(pieces[i])
  {
    seq(|pieces|, i requires 0 <= i < |pieces| => Trim(pieces[i]))
  }

  /** `.filter(Boolean)`: the non-empty strings, in order. */
  function DropEmpty(xs: seq<string>): (r: seq<string>)
    ensures |r| <= |xs|
    ensures forall x :: x in r <==> x in xs && x != ""
    decreases |xs|
  {
    if xs == [] then []
    else (if xs[0] == "" then [] else [xs[0]]) + DropEmpty(xs[1..])
  }

  /** The selection a multiple-choice response string lists. */
  function SplitOptions(valueStr: string): seq<string> {
    DropEmpty(TrimAll(Split(valueStr, ',')))
  }

  /**
   * The typed value of one response string. A blank string gives null;
   * otherwise a boolean is true exactly for "true" in any letter case, a
   * multiple-choice value is split on commas, and every other type keeps the
   * trimmed text.
   */
  function DecodeValue(raw: string, t: QuestionType): (r: AnswerValue)
    ensures r.NotApplicable? <==> Trim(raw) == ""
    ensures r.Bool? ==> t == Boolean && (r.b <==> LowerIsTrue(Trim(raw)))
    ensures r.List? ==> t == MultipleChoice && r.items == SplitOptions(Trim(raw))
    ensures r.Str? ==> (t == SingleChoice || t == Text || t == TextBlock) && r.s == Trim(raw) && r.s != ""
    ensures !r.Unanswered? && WellTyped(r, t)
  {
    var valueStr := Trim(raw);
    if valueStr == "" then NotApplicable
    else
      match t
      case Boolean => Bool(LowerIsTrue(valueStr))
      case MultipleChoice => List(SplitOptions(valueStr))
      case SingleChoice => Str(valueStr)
      case Text => Str(valueStr)
      case TextBlock => Str(valueStr)
  }

  /** An option text that survives a comma-separated round trip unchanged. */
  predicate CleanItem(x: string) {
    x != "" && IsTrimmed(x) && ',' !in x
  }

  /** Every decoded option is non-empty, trimmed and free of commas. */
  lemma SplitOptionsClean(valueStr: string)
    ensures forall x :: x in SplitOptions(valueStr) ==> CleanItem(x)
  {
    var pieces := Split(valueStr, ',');
    SplitPiecesFree(valueStr, ',');
    forall x | x in SplitOptions(valueStr) ensures CleanItem(x) {
      var i :| 0 <= i < |pieces| && TrimAll(pieces)[i] == x;
      TrimKeepsAbsent(pieces[i], ',');
    }
  }

  /** The answer an entry stores, if any: unknown ids and unprovided values are dropped. */
  function DecodeEntry(catalog: seq<Question>, g: GeneratedAnswer): (r: Option<(string, Answer)>)
    ensures r.Some? ==> r.value.0 == g.questionId
    ensures r.Some? ==> r.value.1.confirmed && IsAnswerValueProvided(r.value.1.value)
    ensures FindQuestion(catalog, g.questionId).None? ==> r.None?
  {
    match FindQuestion(catalog, g.questionId)
    case None => None
    case Some(q) =>
      var v := DecodeValue(g.value, q.qtype);
      if IsAnswerValueProvided(v) then Some((q.id, Answer(v, g.evidence, None, true, None, None, None)))
      else None
  }

  /** Stores the kept entries in order into an empty map; a later entry for the same id wins. */
  function StoreAll(entries: seq<Option<(string, Answer)>>): AnswersState
    decreases |entries|
  {
    if entries == [] then map[]
    else
      var prev := StoreAll(entries[..|entries| - 1]);
      match entries[|entries| - 1]
      case None => prev
      case Some(e) => prev[e.0 := e.1]
  }

  /** The decoding of every entry of a response, in order. */
  function DecodeAll(catalog: seq<Question>, generated: seq<GeneratedAnswer>): (r: seq<Option<(string, Answer)>>)
    ensures |r| == |generated|
    ensures forall i :: 0 <= i < |generated| ==> r[i] == DecodeEntry(catalog, generated[i])
  {
    seq(|generated|, i requires 0 <= i < |generated| => DecodeEntry(catalog, generated[i]))
  }

  /** The answers built from a response. */
  function ImportedAnswers(catalog: seq<Question>, generated: seq<GeneratedAnswer>): AnswersState {
    StoreAll(DecodeAll(catalog, generated))
  }

  /** The `switch` on the question type that parses one response string. */
  method ParseValue(raw: string, t: QuestionType) returns (parsedValue: AnswerValue)
    ensures parsedValue == DecodeValue(raw, t)
  {
    parsedValue := NotApplicable;
    var valueStr := Trim(raw);
    if valueStr != "" {
      match t {
        case Boolean =>
          parsedValue := Bool(LowerIsTrue(valueStr));
        case MultipleChoice =>
          parsedValue := List(DropEmpty(TrimAll(Split(valueStr, ','))));
        case SingleChoice =>
          parsedValue := Str(valueStr);
        case Text =>
          parsedValue := Str(valueStr);
        case TextBlock =>
          parsedValue := Str(valueStr);
      }
    }
  }

  /** The `forEach` that fills `newAnswers`. */
  method DecodeImport(catalog: seq<Question>, generated: seq<GeneratedAnswer>) returns (newAnswers: AnswersState)
    ensures newAnswers == ImportedAnswers(catalog, generated)
  {
    newAnswers := map[];
    ghost var decoded := DecodeAll(catalog, generated);
    for j := 0 to |generated|
      invariant newAnswers == StoreAll(decoded[..j])
    {
      var genAnswer := generated[j];
      assert decoded[..j + 1][..j] == decoded[..j];
      var question := FindQuestion(catalog, genAnswer.questionId);
      if question.Some? {
        var parsedValue := ParseValue(genAnswer.value, question.value.qtype);
        if IsAnswerValueProvided(parsedValue) {
          newAnswers := newAnswers[question.value.id := Answer(parsedValue, genAnswer.evidence, None, true, None, None, None)];
        }
      }
    }
    assert decoded[..|generated|] == decoded;
  }

  /** An entry that stores an answer under `k`. */
  predicate StoresAt(e: Option<(string, Answer)>, k: string) {
    e.Some? && e.value.0 == k
  }

  /**
   * A key is present exactly when some entry stores under it, and then it
   * holds the answer of the last such entry.
   */
  lemma {:induction false} StoreAllLastWins(entries: seq<Option<(string, Answer)>>, k: string)
    ensures k in StoreAll(entries) <==> exists i :: 0 <= i < |entries| && StoresAt(entries[i], k)
    ensures k in StoreAll(entries) ==>
              exists i :: 0 <= i < |entries| && StoresAt(entries[i], k)
                && StoreAll(entries)[k] == entries[i].value.1
                && forall j :: i < j < |entries| ==> !StoresAt(entries[j], k)
    decreases |entries|
  {
    if entries != [] {
      var n := |entries| - 1;
      var init := entries[..n];
      StoreAllLastWins(init, k);
      if StoresAt(entries[n], k) {
      } else if k in StoreAll(init) {
        var i :| 0 <= i < n && StoresAt(init[i], k)
                 && StoreAll(init)[k] == init[i].value.1
                 && forall j :: i < j < n ==> !StoresAt(init[j], k);
        assert entries[i] == init[i];
        assert forall j :: i < j < |entries| ==> !StoresAt(entries[j], k);
      } else {
        forall i | 0 <= i < n ensures init[i] == entries[i] { }
      }
    }
  }

  /**
   * An id is present exactly when some entry for it is kept, and then it
   * holds the answer the last such entry decodes to.
   */
  lemma ImportedPresence(catalog: seq<Question>, generated: seq<GeneratedAnswer>, k: string)
    ensures k in ImportedAnswers(catalog, generated)
            <==> exists i :: 0 <= i < |generated| && StoresAt(DecodeEntry(catalog, generated[i]), k)
    ensures k in ImportedAnswers(catalog, generated) ==>
              exists i :: 0 <= i < |generated| && StoresAt(DecodeEntry(catalog, generated[i]), k)
                && ImportedAnswers(catalog, generated)[k] == DecodeEntry(catalog, generated[i]).value.1
                && forall j :: i < j < |generated| ==> !StoresAt(DecodeEntry(catalog, generated[j]), k)
  {
    StoreAllLastWins(DecodeAll(catalog, generated), k);
  }

  /**
   * Every stored answer belongs to a catalog question, is confirmed, has a
   * provided value of the shape its question type expects, and so renders
   * into a prompt without error.
   */
  lemma ImportedWellFormed(catalog: seq<Question>, generated: seq<GeneratedAnswer>, k: string)
    requires k in ImportedAnswers(catalog, generated)
    ensures FindQuestion(catalog, k).Some?
    ensures var a := ImportedAnswers(catalog, generated)[k];
            && a.confirmed && IsAnswerValueProvided(a.value)
            && WellTyped(a.value, FindQuestion(catalog, k).value.qtype)
            && FormatAnswerForPrompt(a.value, FindQuestion(catalog, k).value.qtype).Some?
            && a.aiCheck.None? && a.validationStatus.None? && a.attachment.None?
  {
    ImportedPresence(catalog, generated, k);
    var i :| 0 <= i < |generated| && StoresAt(DecodeEntry(catalog, generated[i]), k)
             && ImportedAnswers(catalog, generated)[k] == DecodeEntry(catalog, generated[i]).value.1;
    var q := FindQuestion(catalog, k).value;
    WellTypedFormats(DecodeValue(generated[i].value, q.qtype), q.qtype);
  }

  /**
   * Round trip with the prompt format: a multiple-choice selection written
   * as `formatAnswerForPrompt` writes it (items joined with ", ") decodes
   * back to the same selection, when every item is a clean option text.
   */
  lemma MultipleChoiceRoundTrip(xs: seq<string>)
    requires xs != []
    requires forall k :: 0 <= k < |xs| ==> CleanItem(xs[k])
    ensures FormatAnswerForPrompt(List(xs), MultipleChoice) == Some(Join(xs, ", "))
    ensures DecodeValue(Join(xs, ", "), MultipleChoice) == List(xs)
  {
    var j := Join(xs, ", ");
    JoinEnds(xs, ", ");
    TrimOfTrimmed(j);
    DecodeJoin(xs);
    assert DecodeValue(j, MultipleChoice) == List(SplitOptions(j));
  }

  /** With clean items, the comma-split of their ", "-join gives them back. */
  lemma {:induction false} DecodeJoin(xs: seq<string>)
    requires forall k :: 0 <= k < |xs| ==> CleanItem(xs[k])
    ensures SplitOptions(Join(xs, ", ")) == xs
    decreases |xs|
  {
    if |xs| == 0 {
      assert TrimAll([""]) == [""];
    } else if |xs| == 1 {
      SingleOption(xs[0]);
      SplitNoSep(xs[0], ',');
    } else {
      var x := xs[0];
      SingleOption(x);
      DecodeJoin(xs[1..]);
      assert Join(xs, ", ") == x + ", " + Join(xs[1..], ", ");
      SplitJoinStep(x, Join(xs[1..], ", "));
      assert xs == [x] + xs[1..];
    }
  }

  /** A clean option on its own is kept as it is. */
  lemma SingleOption(x: string)
    requires CleanItem(x)
    ensures DropEmpty(TrimAll([x])) == [x]
  {
    TrimOfTrimmed(x);
    assert TrimAll([x]) == [x];
    assert DropEmpty([x]) == [x] + DropEmpty([]);
  }

  /** Splitting `x, rest` yields the options of `x` followed by those of `rest`. */
  lemma SplitJoinStep(x: string, rest: string)
    requires ',' !in x
    ensures SplitOptions(x + ", " + rest) == DropEmpty(TrimAll([x])) + SplitOptions(rest)
  {
    var s := Split(rest, ',');
    SplitCommaSpace(x, rest);
    TrimAllSpaced(x, s);
    DropEmptyAppend(TrimAll([x]), TrimAll(s));
  }

  /** The pieces of `x, rest`: `x`, then those of `rest` with a space before the first. */
  lemma SplitCommaSpace(x: string, rest: string)
    requires ',' !in x
    ensures var s := Split(rest, ',');
            Split(x + ", " + rest, ',') == [x] + ([" " + s[0]] + s[1..])
  {
    assert x + ", " + rest == x + [','] + (" " + rest);
    SplitAfter(x, ',', " " + rest);
    assert (" " + rest)[1..] == rest;
  }

  /** The space in front of the first piece disappears when trimming. */
  lemma TrimAllSpaced(x: string, s: seq<string>)
    requires s != []
    ensures TrimAll([x] + ([" " + s[0]] + s[1..])) == TrimAll([x]) + TrimAll(s)
  {
    var spaced := [x] + ([" " + s[0]] + s[1..]);
    var left := TrimAll(spaced);
    var right := TrimAll([x]) + TrimAll(s);
    forall i | 0 <= i < |right| ensures left[i] == right[i] {
      if i == 1 {
        TrimLeadingSpace(s[0]);
      } else if i > 1 {
        assert spaced[i] == s[i - 1];
      }
    }
  }

  lemma {:induction false} DropEmptyAppend(a: seq<string>, b: seq<string>)
    ensures DropEmpty(a + b) == DropEmpty(a) + DropEmpty(b)
    decreases |a|
  {
    if a != [] {
      DropEmptyAppend(a[1..], b);
      assert (a + b)[0] == a[0];
      assert (a + b)[1..] == a[1..] + b;
      var head := if a[0] == "" then [] else [a[0]];
      calc {
        DropEmpty(a + b);
        head + DropEmpty(a[1..] + b);
        head + (DropEmpty(a[1..]) + DropEmpty(b));
        (head + DropEmpty(a[1..])) + DropEmpty(b);
      }
    } else {
      assert a + b == b;
    }
  }

  /** Trimming ignores one leading space. */
  lemma TrimLeadingSpace(p: string)
    ensures Trim(" " + p) == Trim(p)
  {
    assert (" " + p)[1..] == p;
  }

  /** A string without the separator splits into itself. */
  lemma {:induction false} SplitNoSep(a: string, sep: char)
    requires sep !in a
    ensures Split(a, sep) == [a]
    decreases |a|
  {
    if a != [] {
      SplitNoSep(a[1..], sep);
      assert [a[0]] + a[1..] == a;
    }
  }

  /** The first separator ends the first piece. */
  lemma {:induction false} SplitAfter(a: string, sep: char, rest: string)
    requires sep !in a
    ensures Split(a + [sep] + rest, sep) == [a] + Split(rest, sep)
    decreases |a|
  {
    var s := a + [sep] + rest;
    if a == [] {
      assert s[1..] == rest;
    } else {
      SplitAfter(a[1..], sep, rest);
      assert s[1..] == a[1..] + [sep] + rest;
      assert [a[0]] + a[1..] == a;
    }
  }

  /** The ends of a join of clean items are the ends of the first and last item. */
  lemma {:induction false} JoinEnds(xs: seq<string>, sep: string)
    requires xs != []
    requires forall k :: 0 <= k < |xs| ==> CleanItem(xs[k])
    ensures var j := Join(xs, sep);
            j != [] && !IsJsWhitespace(j[0]) && !IsJsWhitespace(j[|j| - 1])
    decreases |xs|
  {
    if |xs| > 1 {
      JoinEnds(xs[1..], sep);
    }
  }

  /**
   * `handleStartFromReport` after the service call: a failed call (`None`)
   * changes nothing, and so does an empty catalog, whose missing first topic
   * makes the handler throw; otherwise the new diagnosis, holding the decoded
   * answers and opening in the summary view of the questionnaire, is
   * appended to the list `ds` and becomes the active one (`active`).
   */
  method StartFromReport(ds: seq<Diagnosis>, catalog: seq<Question>, companyName: string,
                         response: Option<seq<GeneratedAnswer>>, id: string, now: int)
    returns (r: seq<Diagnosis>, active: Option<string>)
    ensures response.None? || catalog == [] ==> r == ds && active.None?
    ensures response.Some? && catalog != [] ==>
              && |r| == |ds| + 1 && r[..|ds|] == ds && active == Some(id)
              && var d := r[|ds|];
                 && d.answers == ImportedAnswers(catalog, response.value)
                 && d.id == id && d.companyName == companyName
                 && d.currentTopicName == catalog[0].topic
                 && d.viewMode == QuestionnaireMode && d.questionnaireViewMode == Summary
                 && d.reportData.None? && d.validatedReportData.None?
                 && d.folderId.None? && d.lastUpdated == now
  {
    if response.None? || catalog == [] {
      return ds, None;
    }
    var newAnswers := DecodeImport(catalog, response.value);
    var d := Diagnosis(id, companyName, newAnswers, catalog[0].topic, None, None,
                       QuestionnaireMode, Summary, now, None);
    r := ds + [d];
    active := Some(id);
  }
}
