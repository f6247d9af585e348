/**
 * The question list of the form builder. Every handler replaces the list with a new
 * one built by spread, `map` or `filter`, so each is a function from the old list to
 * the new one. Question ids are JavaScript numbers: `Date.now()` for new questions and
 * `parseInt` of the stored id for hydrated ones, which may be `NaN`.
 */
module FormBuilder {
  import opened Options
  import opened Questions

  /** A numeric question id: an integer, or `NaN` when the stored id does not parse. */
  datatype NumId = Num(n: int) | NaN

  /** JavaScript `===` on numeric ids: `NaN` equals nothing, not even itself. */
  predicate SameId(a: NumId, b: NumId) {
    a.Num? && b.Num? && a.n == b.n
  }

  datatype Question = Question(id: NumId, question: string, qtype: QuestionType, required: bool, order: int)

  /** A question as stored by the server, with its id as a string. */
  datatype StoredQuestion = StoredQuestion(id: string, question: string, qtype: QuestionType, required: bool, order: int, formId: string)

  datatype FormData = FormData(title: string, description: Option<string>, questions: seq<StoredQuestion>)

  /** The editable fields that the builder's inputs change: the text, the type and the
      required switch. */
  datatype Change = Text(text: string) | Type(qtype: QuestionType) | Required(required: bool)

  datatype BuilderState = BuilderState(title: string, description: string, questions: seq<Question>)

  /** The builder's initial state: title and description from the form data (`""` when
      absent), and the hydrated questions, or none when there is no form data. */
  function InitialState(formData: Option<FormData>, parseId: string -> NumId): (s: BuilderState)
    ensures formData.None? ==> s == BuilderState("", "", [])
    ensures formData.Some? ==> s.title == formData.value.title
    ensures formData.Some? ==> s.description == match formData.value.description case None => "" case Some(d) => d
    ensures |s.questions| == if formData.Some? then |formData.value.questions| else 0
  {
    match formData
    case None => BuilderState("", "", [])
    case Some(data) =>
      var description := match data.description case None => "" case Some(d) => d;
      BuilderState(data.title, description, Hydrate(data.questions, parseId))
  }

  /** The hydration map: one question per stored question, in the same order, with the
      id parsed and the other fields copied. */
  function Hydrate(stored: seq<StoredQuestion>, parseId: string -> NumId): (qs: seq<Question>)
    ensures |qs| == |stored|
    ensures forall i :: 0 <= i < |stored| ==>
      && qs[i].id == parseId(stored[i].id)
      && qs[i].question == stored[i].question && qs[i].qtype == stored[i].qtype
      && qs[i].required == stored[i].required && qs[i].order == stored[i].order
  {
    if stored == [] then []
    else
      var s := stored[0];
      [Question(parseId(s.id), s.question, s.qtype, s.required, s.order)] + Hydrate(stored[1..], parseId)
  }

  /** `addQuestion`: appends a blank optional descriptive question whose order is the
      old length plus one. `stamp` stands for `Date.now()`. */
  function AddQuestion(qs: seq<Question>, stamp: int): (r: seq<Question>)
    ensures |r| == |qs| + 1 && r[..|qs|] == qs
    ensures r[|qs|] == Question(Num(stamp), "", Descriptive, false, |qs| + 1)
  {
    qs + [Question(Num(stamp), "", Descriptive, false, |qs| + 1)]
  }

  /** `{ ...q, [field]: value }` for the three fields the builder edits. */
  function Apply(q: Question, change: Change): (r: Question)
    ensures r.id == q.id && r.order == q.order
    ensures r.question == if change.Text? then change.text else q.question
    ensures r.qtype == if change.Type? then change.qtype else q.qtype
    ensures r.required == if change.Required? then change.required else q.required
  {
    match change
    case Text(text) => q.(question := text)
    case Type(t) => q.(qtype := t)
    case Required(b) => q.(required := b)
  }

  /** `updateQuestion`: applies the change to every question whose id is `===` to `id`
      and leaves the others as they are, in place. */
  function UpdateQuestion(qs: seq<Question>, id: NumId, change: Change): (r: seq<Question>)
    ensures |r| == |qs|
    ensures forall i :: 0 <= i < |qs| ==> r[i] == if SameId(qs[i].id, id) then Apply(qs[i], change) else qs[i]
  {
    if qs == [] then []
    else [if SameId(qs[0].id, id) then Apply(qs[0], change) else qs[0]] + UpdateQuestion(qs[1..], id, change)
  }

  /** `removeQuestion`: keeps the questions whose id is not `===` to `id`. */
  function RemoveQuestion(qs: seq<Question>, id: NumId): (r: seq<Question>)
    ensures |r| <= |qs|
  {
    if qs == [] then []
    else (if SameId(qs[0].id, id) then [] else [qs[0]]) + RemoveQuestion(qs[1..], id)
  }

  /** Removal keeps exactly the questions whose id is not `===` to `id`. */
  lemma {:induction false} RemoveKeeps(qs: seq<Question>, id: NumId)
    ensures forall q :: q in RemoveQuestion(qs, id) <==> q in qs && !SameId(q.id, id)
    decreases |qs|
  {
    if qs != [] {
      RemoveKeeps(qs[1..], id);
      assert qs == [qs[0]] + qs[1..];
    }
  }

  /** Removal works piece by piece, so it keeps the relative order of what it keeps. */
  lemma {:induction false} RemoveConcat(a: seq<Question>, b: seq<Question>, id: NumId)
    ensures RemoveQuestion(a + b, id) == RemoveQuestion(a, id) + RemoveQuestion(b, id)
    decreases |a|
  {
    if a == [] {
      assert a + b == b;
    } else {
      var head := if SameId(a[0].id, id) then [] else [a[0]];
      assert RemoveQuestion(a + b, id) == head + RemoveQuestion(a[1..] + b, id) by {
        assert (a + b)[0] == a[0] && (a + b)[1..] == a[1..] + b;
      }
      RemoveConcat(a[1..], b, id);
      assert head + (RemoveQuestion(a[1..], id) + RemoveQuestion(b, id))
        == (head + RemoveQuestion(a[1..], id)) + RemoveQuestion(b, id);
    }
  }

  /** Removing an id no question carries changes nothing. */
  lemma {:induction false} RemoveAbsent(qs: seq<Question>, id: NumId)
    requires forall i :: 0 <= i < |qs| ==> !SameId(qs[i].id, id)
    ensures RemoveQuestion(qs, id) == qs
    decreases |qs|
  {
    if qs != [] {
      RemoveAbsent(qs[1..], id);
    }
  }

  /** Updating an id no question carries changes nothing. */
  lemma UpdateAbsent(qs: seq<Question>, id: NumId, change: Change)
    requires forall i :: 0 <= i < |qs| ==> !SameId(qs[i].id, id)
    ensures UpdateQuestion(qs, id, change) == qs
  {
  }

  /** A question whose stored id did not parse can be neither edited nor removed. */
  lemma NaNQuestionStays(qs: seq<Question>, id: NumId, change: Change, i: nat)
    requires i < |qs| && qs[i].id == NaN
    ensures UpdateQuestion(qs, id, change)[i] == qs[i]
    ensures qs[i] in RemoveQuestion(qs, id)
  {
    RemoveKeeps(qs, id);
  }

  /** Adding a question and then removing it by its fresh id gives the list back. */
  lemma AddThenRemove(qs: seq<Question>, stamp: int)
    requires forall i :: 0 <= i < |qs| ==> !SameId(qs[i].id, Num(stamp))
    ensures RemoveQuestion(AddQuestion(qs, stamp), Num(stamp)) == qs
  {
    var added := Question(Num(stamp), "", Descriptive, false, |qs| + 1);
    RemoveConcat(qs, [added], Num(stamp));
    RemoveAbsent(qs, Num(stamp));
    assert RemoveQuestion([added], Num(stamp)) == [];
  }

  /** Removing the one question that carries an id drops exactly that question. */
  lemma RemoveOne(before: seq<Question>, q: Question, after: seq<Question>, id: NumId)
    requires SameId(q.id, id)
    requires forall i :: 0 <= i < |before| ==> !SameId(before[i].id, id)
    requires forall i :: 0 <= i < |after| ==> !SameId(after[i].id, id)
    ensures RemoveQuestion(before + [q] + after, id) == before + after
  {
    RemoveConcat(before + [q], after, id);
    RemoveConcat(before, [q], id);
    RemoveAbsent(before, id);
    RemoveAbsent(after, id);
    assert RemoveQuestion([q], id) == [] by {
      assert [q][1..] == [];
    }
    assert RemoveQuestion(before + [q], id) == before;
  }

  /** Orders are never renumbered: in a list numbered 1..n with distinct ids, removing
      any question but the last and then adding one gives the new question the order of
      the last question, which is still there. */
  lemma RemoveThenAddRepeatsOrder(qs: seq<Question>, k: nat, stamp: int)
    requires forall i :: 0 <= i < |qs| ==> qs[i].id.Num? && qs[i].order == i + 1
    requires forall i, j :: 0 <= i < j < |qs| ==> qs[i].id != qs[j].id
    requires k < |qs| - 1
    ensures var r := AddQuestion(RemoveQuestion(qs, qs[k].id), stamp);
      && qs[|qs| - 1] in r[..|r| - 1]
      && r[|r| - 1].order == qs[|qs| - 1].order
  {
    var id := qs[k].id;
    var kept := RemoveQuestion(qs, id);
    assert kept == qs[..k] + qs[k + 1..] by {
      assert qs == qs[..k] + [qs[k]] + qs[k + 1..];
      RemoveOne(qs[..k], qs[k], qs[k + 1..], id);
    }
    var r := AddQuestion(kept, stamp);
    assert r[..|r| - 1] == kept;
    assert qs[|qs| - 1] == kept[|kept| - 1];
  }
}
