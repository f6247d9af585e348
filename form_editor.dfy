/**
 * The admin form editor. Adding and deleting replace the question list with a new one,
 * but the field edits copy the list shallowly and then assign to the question object
 * at an index, so they change that object in place, wherever else it is referenced.
 * Questions are therefore objects here, and the list holds references to them.
 */
module FormEditor {
  import opened Options
  import opened Questions

  /** A question id: the stored string id, or the `Date.now()` stamp of a new question. */
  datatype QuestionKey = Stored(s: string) | Stamp(n: int)

  /** The field values of a question object at one moment. */
  datatype QuestionData = QuestionData(id: QuestionKey, question: string, qtype: QuestionType, required: bool, order: int)

  class EditorQuestion {
    var id: QuestionKey
    var question: string
    var qtype: QuestionType
    var required: bool
    var order: int

    constructor (data: QuestionData)
      ensures Data() == data
    {
      id := data.id;
      question := data.question;
      qtype := data.qtype;
      required := data.required;
      order := data.order;
    }

    function Data(): QuestionData
      reads this
    {
      QuestionData(id, question, qtype, required, order)
    }
  }

  /** `prev.filter((_, i) => i !== index)`. */
  function WithoutIndex<T>(s: seq<T>, index: int): (r: seq<T>)
    ensures 0 <= index < |s| ==> r == s[..index] + s[index + 1..]
    ensures !(0 <= index < |s|) ==> r == s
  {
    if s == [] then []
    else
      var n := |s| - 1;
      var kept := WithoutIndex(s[..n], index);
      assert s[..n] + [s[n]] == s;
      if n == index then kept else kept + [s[n]]
  }

  /** Deleting the question just added gives the list back. */
  lemma DeleteAfterAdd<T>(s: seq<T>, x: T)
    ensures WithoutIndex(s + [x], |s|) == s
  {
    assert (s + [x])[..|s|] == s;
  }

  /** The data the editor starts from: a title and, possibly, a list of questions. */
  datatype InitialData = InitialData(title: string, questions: Option<seq<EditorQuestion>>)

  class Editor {
    var title: string
    var questions: seq<EditorQuestion>

    /** The field values of the listed questions, in list order. */
    function Snapshot(): (data: seq<QuestionData>)
      reads this, questions
      ensures |data| == |questions|
      ensures forall i :: 0 <= i < |questions| ==> data[i] == questions[i].Data()
    {
      seq(|questions|, i reads this, questions requires 0 <= i < |questions| => questions[i].Data())
    }

    /** `useState(initialData.title)` and `useState(initialData.questions || [])`: the
        editor lists the given question objects themselves, or none. */
    constructor (initial: InitialData)
      ensures title == initial.title
      ensures questions == match initial.questions case None => [] case Some(qs) => qs
    {
      title := initial.title;
      questions := match initial.questions case None => [] case Some(qs) => qs;
    }

    /** `handleAdd`: appends a new blank optional descriptive question whose order is the
        old length plus one; every listed question keeps its fields. `stamp` stands for
        `Date.now()`. */
    method HandleAdd(stamp: int)
      modifies this
      ensures title == old(title)
      ensures |questions| == |old(questions)| + 1 && questions[..|old(questions)|] == old(questions)
      ensures fresh(questions[|questions| - 1])
      ensures Snapshot() == old(Snapshot()) + [QuestionData(Stamp(stamp), "", Descriptive, false, |old(questions)| + 1)]
    {
      var q := new EditorQuestion(QuestionData(Stamp(stamp), "", Descriptive, false, |questions| + 1));
      questions := questions + [q];
    }

    /** `handleDelete`: drops the entry at `index` and keeps the rest in order, with their
        fields (orders included) untouched; an index out of range changes nothing. */
    method HandleDelete(index: int)
      modifies this
      ensures title == old(title)
      ensures questions == WithoutIndex(old(questions), index)
      ensures Snapshot() == WithoutIndex(old(Snapshot()), index)
    {
      questions := WithoutIndex(questions, index);
    }

    /** `copy[idx].question = value`: the object at `idx` gets the new text. Every list
        entry that is that same object shows the change; all other fields and entries
        are unchanged. */
    method EditText(idx: nat, value: string)
      requires idx < |questions|
      modifies questions[idx]
      ensures unchanged(this)
      ensures forall i :: 0 <= i < |questions| ==>
        Snapshot()[i] == if questions[i] == questions[idx] then old(Snapshot()[i]).(question := value) else old(Snapshot()[i])
    {
      questions[idx].question := value;
    }

    /** `copy[idx].type = value`, with the same frame as `EditText`. */
    method EditType(idx: nat, value: QuestionType)
      requires idx < |questions|
      modifies questions[idx]
      ensures unchanged(this)
      ensures forall i :: 0 <= i < |questions| ==>
        Snapshot()[i] == if questions[i] == questions[idx] then old(Snapshot()[i]).(qtype := value) else old(Snapshot()[i])
    {
      questions[idx].qtype := value;
    }

    /** `copy[idx].required = value`, with the same frame as `EditText`. */
    method EditRequired(idx: nat, value: bool)
      requires idx < |questions|
      modifies questions[idx]
      ensures unchanged(this)
      ensures forall i :: 0 <= i < |questions| ==>
        Snapshot()[i] == if questions[i] == questions[idx] then old(Snapshot()[i]).(required := value) else old(Snapshot()[i])
    {
      questions[idx].required := value;
    }
  }
}
