/**
 * The answer side of a feedback form: counting the words of an answer, validating the
 * answers against the questions, recording an edited answer, and the guard and payload
 * of a submission. The answer and error maps are JavaScript objects keyed by question id.
 */
module FormViewer {
  import opened Options
  import opened JsText
  import opened JsObject
  import opened Questions

  const RequiredMessage: string := "This field is required."
  const RangeMessage: string := "Answer must be between 5 and 250 words."
  const MinWords: nat := 5
  const MaxWords: nat := 250

  datatype Question = Question(id: string, question: string, qtype: QuestionType, required: bool)

  datatype FeedbackForm = FeedbackForm(id: string, title: string, description: Option<string>, questions: seq<Question>)

  /** One `{ questionId, responseText }` element of the submitted payload. */
  datatype Submission = Submission(questionId: string, responseText: string)

  // ---------------------------------------------------------------------------
  // Word count

  /** No whitespace character at all. */
  predicate NoWs(s: string) {
    forall i :: 0 <= i < |s| ==> !IsWs(s[i])
  }

  /** `s.split(/\s+/)`: the pieces between maximal whitespace runs. No piece holds
      whitespace, and only the first and the last can be empty: a leading run gives an
      empty first piece, a trailing run an empty last piece. */
  function SplitWs(s: string): (pieces: seq<string>)
    ensures |pieces| >= 1
    ensures forall i :: 0 <= i < |pieces| ==> NoWs(pieces[i])
    ensures forall i :: 0 < i < |pieces| - 1 ==> pieces[i] != []
    ensures s != [] && !IsWs(s[0]) ==> pieces[0] != []
  {
    Pieces(s, "")
  }

  /** The pieces of `s` when the piece in progress already holds `cur`. */
  function Pieces(s: string, cur: string): (pieces: seq<string>)
    ensures |pieces| >= 1
    ensures NoWs(cur) ==> forall i :: 0 <= i < |pieces| ==> NoWs(pieces[i])
    ensures forall i :: 0 < i < |pieces| - 1 ==> pieces[i] != []
    ensures cur != [] || (s != [] && !IsWs(s[0])) ==> pieces[0] != []
    decreases |s|
  {
    if s == [] then [cur]
    else if IsWs(s[0]) then [cur] + Pieces(TrimStart(s[1..]), "")
    else Pieces(s[1..], cur + [s[0]])
  }

  /** `.filter((word) => word !== "").length`: at most the number of pieces, and 0
      exactly when every piece is empty. */
  function NonEmptyCount(pieces: seq<string>): (n: nat)
    ensures n <= |pieces|
    ensures n == 0 <==> forall i :: 0 <= i < |pieces| ==> pieces[i] == []
  {
    if pieces == [] then 0
    else (if pieces[0] == [] then 0 else 1) + NonEmptyCount(pieces[1..])
  }

  /** `getWordCount`: trim, split on whitespace runs, count the non-empty pieces. The
      result is the number of maximal runs of non-whitespace characters, so it is 0
      exactly for empty or whitespace-only text. */
  function WordCount(text: string): (n: nat)
    ensures n == RunStarts(text, true)
    ensures n == 0 <==> AllWs(text)
  {
    TrimmedPiecesCount(text);
    RunStartsZero(text, true);
    NonEmptyCount(SplitWs(Trim(text)))
  }

  /** An independent count of the words of `s`: the positions holding a non-whitespace
      character that follows whitespace, or the start when `afterWs` holds. */
  function RunStarts(s: string, afterWs: bool): nat
  {
    if s == [] then 0
    else (if afterWs && !IsWs(s[0]) then 1 else 0) + RunStarts(s[1..], IsWs(s[0]))
  }

  lemma {:induction false} RunStartsSkipWs(s: string)
    ensures RunStarts(TrimStart(s), true) == RunStarts(s, true)
    decreases |s|
  {
    if s != [] && IsWs(s[0]) {
      RunStartsSkipWs(s[1..]);
    }
  }

  lemma {:induction false} PiecesCount(s: string, cur: string)
    ensures NonEmptyCount(Pieces(s, cur)) == RunStarts(s, cur == []) + if cur == [] then 0 else 1
    decreases |s|
  {
    if s == [] {
    } else if IsWs(s[0]) {
      var t := TrimStart(s[1..]);
      PiecesCount(t, "");
      RunStartsSkipWs(s[1..]);
      assert ([cur] + Pieces(t, ""))[1..] == Pieces(t, "");
    } else {
      PiecesCount(s[1..], cur + [s[0]]);
    }
  }

  lemma {:induction false} RunStartsLead(lead: string, m: string)
    requires AllWs(lead)
    ensures RunStarts(lead + m, true) == RunStarts(m, true)
    decreases |lead|
  {
    if lead == [] {
      assert lead + m == m;
    } else {
      assert (lead + m)[0] == lead[0] && (lead + m)[1..] == lead[1..] + m;
      RunStartsLead(lead[1..], m);
    }
  }

  lemma {:induction false} RunStartsTail(m: string, tail: string, afterWs: bool)
    requires AllWs(tail)
    ensures RunStarts(m + tail, afterWs) == RunStarts(m, afterWs)
    decreases |m|
  {
    if m == [] {
      assert m + tail == tail;
      RunStartsZero(tail, afterWs);
    } else {
      assert (m + tail)[1..] == m[1..] + tail;
      RunStartsTail(m[1..], tail, IsWs(m[0]));
    }
  }

  /** Whitespace-only text has no word start, and only whitespace-only text. */
  lemma {:induction false} RunStartsZero(s: string, afterWs: bool)
    ensures AllWs(s) ==> RunStarts(s, afterWs) == 0
    ensures afterWs && RunStarts(s, afterWs) == 0 ==> AllWs(s)
    decreases |s|
  {
    if s != [] {
      RunStartsZero(s[1..], IsWs(s[0]));
    }
  }

  /** Splitting the trimmed text and dropping empty pieces leaves one piece per maximal
      run of non-whitespace characters. */
  lemma TrimmedPiecesCount(text: string)
    ensures NonEmptyCount(SplitWs(Trim(text))) == RunStarts(text, true)
  {
    var m := Trim(text);
    assert RunStarts(text, true) == RunStarts(m, true) by {
      var lead, tail := TrimBorders(text);
      RunStartsTail(m, tail, true);
      RunStartsLead(lead, m + tail);
      assert text == lead + (m + tail);
    }
    PiecesCount(m, "");
  }

  // ---------------------------------------------------------------------------
  // Validation

  /** The error `validate` records for one question, if any: a required question with
      a blank answer is missing, otherwise a descriptive answer must have 5 to 250 words. */
  function QuestionError(q: Question, answers: Object): (r: Option<string>)
    ensures r.Some? ==> r.value == RequiredMessage || r.value == RangeMessage
    ensures r == Some(RangeMessage) ==> q.qtype == Descriptive
    ensures r == Some(RequiredMessage) ==> q.required
  {
    var val := Trim(Get(answers, q.id));
    if q.required && val == [] then Some(RequiredMessage)
    else if q.qtype == Descriptive then
      var wc := WordCount(val);
      if wc < MinWords || wc > MaxWords then Some(RangeMessage) else None
    else None
  }

  /** The outcome for one question in terms of the raw answer (`''` when there is none):
      the required error exactly for a required question whose answer is blank, the
      range error exactly for a descriptive question that is not in that case and whose
      answer has fewer than 5 or more than 250 words, no error otherwise. */
  lemma QuestionErrorCases(q: Question, answers: Object)
    ensures var v := Get(answers, q.id);
      && (QuestionError(q, answers) == Some(RequiredMessage) <==> q.required && AllWs(v))
      && (QuestionError(q, answers) == Some(RangeMessage) <==>
            !(q.required && AllWs(v)) && q.qtype == Descriptive
            && (RunStarts(v, true) < MinWords || RunStarts(v, true) > MaxWords))
      && (QuestionError(q, answers) == None <==>
            !(q.required && AllWs(v))
            && (q.qtype == Descriptive ==> MinWords <= RunStarts(v, true) <= MaxWords))
  {
    var v := Get(answers, q.id);
    TrimEmptyIffAllWs(v);
    TrimFixesTrimmed(Trim(v));
    assert WordCount(Trim(v)) == WordCount(v);
    assert RequiredMessage != RangeMessage;
  }

  /** An optional descriptive question left empty (or blank) fails with the range error,
      because its word count is 0. */
  lemma EmptyOptionalDescriptiveFails(q: Question, answers: Object)
    requires !q.required && q.qtype == Descriptive
    requires AllWs(Get(answers, q.id))
    ensures QuestionError(q, answers) == Some(RangeMessage)
  {
    QuestionErrorCases(q, answers);
    RunStartsZero(Get(answers, q.id), true);
  }

  /** A rating question is never range-checked: it fails only the required check. */
  lemma RatingOnlyRequired(q: Question, answers: Object)
    requires q.qtype == Rating
    ensures QuestionError(q, answers) == if q.required && AllWs(Get(answers, q.id)) then Some(RequiredMessage) else None
  {
    QuestionErrorCases(q, answers);
  }

  /** The `newErrors` map `validate` builds: one assignment per failing question, in
      question order. It has at most one entry per question. */
  function ValidationErrors(qs: seq<Question>, answers: Object): (errors: Object)
    ensures |errors| <= |qs|
  {
    if qs == [] then []
    else
      var errors := ValidationErrors(qs[..|qs| - 1], answers);
      var q := qs[|qs| - 1];
      match QuestionError(q, answers)
      case None => errors
      case Some(message) => Put(errors, q.id, message)
  }

  /** The error map is empty exactly when every question passes. */
  lemma NoErrorsIffAllPass(qs: seq<Question>, answers: Object)
    ensures |ValidationErrors(qs, answers)| == 0 <==> forall i :: 0 <= i < |qs| ==> QuestionError(qs[i], answers).None?
  {
    if |ValidationErrors(qs, answers)| == 0 {
      NoErrorsAllPass(qs, answers);
    }
    if forall i :: 0 <= i < |qs| ==> QuestionError(qs[i], answers).None? {
      AllPassNoErrors(qs, answers);
    }
  }

  lemma {:induction false} NoErrorsAllPass(qs: seq<Question>, answers: Object)
    requires |ValidationErrors(qs, answers)| == 0
    ensures forall i :: 0 <= i < |qs| ==> QuestionError(qs[i], answers).None?
  {
    forall i | 0 <= i < |qs| ensures QuestionError(qs[i], answers).None? {
      ErrorNotLost(qs, answers, i);
    }
  }

  /** A failing question leaves the error map non-empty. */
  lemma {:induction false} ErrorNotLost(qs: seq<Question>, answers: Object, i: nat)
    requires i < |qs|
    ensures QuestionError(qs[i], answers).Some? ==> |ValidationErrors(qs, answers)| > 0
    decreases |qs|
  {
    var n := |qs| - 1;
    if i == n {
      LastErrorStored(qs, answers);
    } else {
      assert qs[..n][i] == qs[i];
      ErrorNotLost(qs[..n], answers, i);
      assert |ValidationErrors(qs, answers)| >= |ValidationErrors(qs[..n], answers)|;
    }
  }

  /** Every entry of the error map holds one of the two messages. */
  lemma {:induction false} ErrorMessages(qs: seq<Question>, answers: Object)
    ensures forall e :: e in ValidationErrors(qs, answers) ==> e.value == RequiredMessage || e.value == RangeMessage
    decreases |qs|
  {
    if qs != [] {
      var n := |qs| - 1;
      var prev := ValidationErrors(qs[..n], answers);
      ErrorMessages(qs[..n], answers);
      match QuestionError(qs[n], answers)
      case None =>
      case Some(message) =>
        PutEntries(prev, qs[n].id, message);
    }
  }

  /** A failing last question leaves an entry in the error map. */
  lemma LastErrorStored(qs: seq<Question>, answers: Object)
    requires qs != []
    ensures QuestionError(qs[|qs| - 1], answers).Some? ==> |ValidationErrors(qs, answers)| > 0
  {
    var q := qs[|qs| - 1];
    var e := QuestionError(q, answers);
    if e.Some? {
      var errors := ValidationErrors(qs, answers);
      assert errors == Put(ValidationErrors(qs[..|qs| - 1], answers), q.id, e.value);
      assert Entry(q.id, e.value) in errors;
    }
  }

  lemma {:induction false} AllPassNoErrors(qs: seq<Question>, answers: Object)
    requires forall i :: 0 <= i < |qs| ==> QuestionError(qs[i], answers).None?
    ensures ValidationErrors(qs, answers) == []
    decreases |qs|
  {
    if qs != [] {
      var n := |qs| - 1;
      var prefix := qs[..n];
      assert forall i :: 0 <= i < n ==> prefix[i] == qs[i];
      AllPassNoErrors(prefix, answers);
      assert QuestionError(qs[n], answers).None?;
    }
  }

  /** With distinct question ids, the error map holds each question's own error under
      its id. */
  lemma {:induction false} ErrorsByQuestion(qs: seq<Question>, answers: Object)
    requires forall i, j :: 0 <= i < j < |qs| ==> qs[i].id != qs[j].id
    ensures forall i :: 0 <= i < |qs| ==> Lookup(ValidationErrors(qs, answers), qs[i].id) == QuestionError(qs[i], answers)
    decreases |qs|
  {
    if qs != [] {
      var n := |qs| - 1;
      var prefix := qs[..n];
      ErrorsByQuestion(prefix, answers);
      ErrorsElsewhere(prefix, answers, qs[n].id);
      var prev := ValidationErrors(prefix, answers);
      var e := QuestionError(qs[n], answers);
      forall i | 0 <= i < |qs| ensures Lookup(ValidationErrors(qs, answers), qs[i].id) == QuestionError(qs[i], answers) {
        if e.Some? {
          PutLookup(prev, qs[n].id, e.value);
        }
        if i < n {
          assert prefix[i] == qs[i];
        }
      }
    }
  }

  /** The error map holds nothing under a key that is no question's id. */
  lemma {:induction false} ErrorsElsewhere(qs: seq<Question>, answers: Object, k: string)
    requires forall i :: 0 <= i < |qs| ==> qs[i].id != k
    ensures Lookup(ValidationErrors(qs, answers), k) == None
    decreases |qs|
  {
    if qs != [] {
      var n := |qs| - 1;
      ErrorsElsewhere(qs[..n], answers, k);
      var e := QuestionError(qs[n], answers);
      if e.Some? {
        PutLookup(ValidationErrors(qs[..n], answers), qs[n].id, e.value);
      }
    }
  }

  /** The error map never repeats a key. */
  lemma {:induction false} ErrorsWellFormed(qs: seq<Question>, answers: Object)
    ensures WellFormed(ValidationErrors(qs, answers))
    decreases |qs|
  {
    if qs != [] {
      var n := |qs| - 1;
      ErrorsWellFormed(qs[..n], answers);
      if QuestionError(qs[n], answers).Some? {
        PutWellFormed(ValidationErrors(qs[..n], answers), qs[n].id, QuestionError(qs[n], answers).value);
      }
    }
  }

  // ---------------------------------------------------------------------------
  // Submission payload

  /** `Object.entries(answers).map(([questionId, responseText]) => ({ questionId, responseText }))`. */
  function Payload(answers: Object): (sent: seq<Submission>)
    ensures |sent| == |answers|
    ensures forall i :: 0 <= i < |answers| ==> sent[i] == Submission(answers[i].key, answers[i].value)
  {
    if answers == [] then []
    else Payload(answers[..|answers| - 1]) + [Submission(answers[|answers| - 1].key, answers[|answers| - 1].value)]
  }

  /** The payload names every answered question once, in answer order, with its answer. */
  lemma PayloadMatchesAnswers(answers: Object)
    requires WellFormed(answers)
    ensures forall i, j :: 0 <= i < j < |Payload(answers)| ==> Payload(answers)[i].questionId != Payload(answers)[j].questionId
    ensures forall i :: 0 <= i < |answers| ==> Lookup(answers, Payload(answers)[i].questionId) == Some(Payload(answers)[i].responseText)
  {
    KeysAt(answers);
    forall i | 0 <= i < |answers| ensures Lookup(answers, Payload(answers)[i].questionId) == Some(Payload(answers)[i].responseText) {
      LookupAt(answers, i);
    }
  }

  // ---------------------------------------------------------------------------
  // Component state

  /** The viewer's state: the loaded form (absent when loading failed) and the answer
      and error maps. */
  class Viewer {
    var form: Option<FeedbackForm>
    var answers: Object
    var errors: Object

    /** Neither map repeats a key. */
    predicate Valid()
      reads this
    {
      WellFormed(answers) && WellFormed(errors)
    }

    /** Both maps start empty; the form is what the fetch returned. */
    constructor (loaded: Option<FeedbackForm>)
      ensures Valid()
      ensures form == loaded && answers == [] && errors == []
    {
      form := loaded;
      answers := [];
      errors := [];
    }

    /** `handleChange`: records the answer and clears that question's error; every other
        entry of both maps is kept. */
    method HandleChange(questionId: string, value: string)
      requires Valid()
      modifies this
      ensures Valid()
      ensures form == old(form)
      ensures answers == Put(old(answers), questionId, value)
      ensures errors == Put(old(errors), questionId, "")
      ensures Lookup(answers, questionId) == Some(value) && Lookup(errors, questionId) == Some("")
      ensures forall k :: k != questionId ==> Lookup(answers, k) == Lookup(old(answers), k) && Lookup(errors, k) == Lookup(old(errors), k)
    {
      PutLookup(answers, questionId, value);
      PutWellFormed(answers, questionId, value);
      PutLookup(errors, questionId, "");
      PutWellFormed(errors, questionId, "");
      answers := Put(answers, questionId, value);
      errors := Put(errors, questionId, "");
    }

    /** `validate`: replaces the error map with the errors of the form's questions and
        reports whether there are none. */
    method Validate() returns (ok: bool)
      requires Valid()
      modifies this
      ensures Valid()
      ensures form == old(form) && answers == old(answers)
      ensures errors == if form.Some? then ValidationErrors(form.value.questions, answers) else []
      ensures ok <==> |errors| == 0
    {
      var newErrors: Object := [];
      if form.Some? {
        var qs := form.value.questions;
        var i := 0;
        while i < |qs|
          invariant 0 <= i <= |qs|
          invariant newErrors == ValidationErrors(qs[..i], answers)
        {
          assert qs[..i + 1][..i] == qs[..i];
          var q := qs[i];
          var error := QuestionError(q, answers);
          if error.Some? {
            newErrors := Put(newErrors, q.id, error.value);
          }
          i := i + 1;
        }
        assert qs[..i] == qs;
        ErrorsWellFormed(qs, answers);
      }
      errors := newErrors;
      ok := |newErrors| == 0;
    }

    /** `handleSubmit`: with no form, or when validation fails, nothing is sent; otherwise
        the payload is sent, and when the server accepts it both maps are cleared.
        `accepted` stands for the outcome of the POST request. */
    method HandleSubmit(accepted: bool) returns (sent: Option<seq<Submission>>)
      requires Valid()
      modifies this
      ensures Valid()
      ensures form == old(form)
      ensures old(form).None? ==> sent.None? && answers == old(answers) && errors == old(errors)
      ensures old(form).Some? ==>
        (sent.Some? <==> forall i :: 0 <= i < |form.value.questions| ==> QuestionError(form.value.questions[i], old(answers)).None?)
      ensures old(form).Some? && sent.None? ==>
        answers == old(answers) && errors == ValidationErrors(form.value.questions, answers)
      ensures sent.Some? ==> sent.value == Payload(old(answers))
      ensures sent.Some? && accepted ==> answers == [] && errors == []
      ensures sent.Some? && !accepted ==> answers == old(answers) && errors == []
    {
      if form.None? {
        return None;
      }
      var ok := Validate();
      NoErrorsIffAllPass(form.value.questions, answers);
      if !ok {
        return None;
      }
      sent := Some(Payload(answers));
      if accepted {
        answers := [];
        errors := [];
      }
    }
  }
}
