/**
 * The questions step (`Step2Questions`): the add/edit dialog's form, its
 * submit and edit rules, and the per-section question lists.
 */
module QuestionForm {
  import opened Js
  import opened ExamModel
  import opened Partition
  import opened ExamStore

  /** The dialog's state: the form object, the id being edited, whether it is open, and the section last chosen. */
  datatype Editor = Editor(form: Question, editingId: Option<string>, dialogOpen: bool, activeSectionId: Option<string>)

  const BlankOptions: seq<string> := ["", "", "", ""]

  /** The section a fresh form points at: the active section, else the first, else `''`. */
  function DefaultSectionId(active: Option<string>, sections: seq<Section>): (id: string)
    ensures Truthy(active) ==> id == active.value
    ensures !Truthy(active) && |sections| > 0 ==> id == sections[0].id
    ensures !Truthy(active) && |sections| == 0 ==> id == ""
  {
    if Truthy(active) then active.value else if |sections| > 0 then sections[0].id else ""
  }

  /** `resetForm`: a blank two-mark short question of medium difficulty, and no question being edited. */
  function ResetForm(ed: Editor, sections: seq<Section>): (r: Editor)
    ensures r.form.kind == Val(Short) && r.form.questionText == Val("") && r.form.marks == Val(Num(2))
    ensures r.form.difficulty == Val(Medium) && r.form.options == Val(BlankOptions)
    ensures r.form.sectionId == Val(DefaultSectionId(ed.activeSectionId, sections))
    ensures r.form.id.Absent? && r.form.timestamp.Absent?
    ensures r.editingId == None
    ensures r.dialogOpen == ed.dialogOpen && r.activeSectionId == ed.activeSectionId
  {
    ed.(
      form := Question(Absent, Absent, Val(DefaultSectionId(ed.activeSectionId, sections)),
                       Val(Short), Val(""), Val(Num(2)), Val(Medium), Val(BlankOptions)),
      editingId := None)
  }

  /**
   * The state the page mounts with: the dialog closed, no active section,
   * nothing being edited, and the form a reset would give if there were no
   * section to point at, so its section id is `''` whatever the store holds.
   */
  function InitialEditor(): (r: Editor)
    ensures !r.dialogOpen && r.activeSectionId == None && r.editingId == None
    ensures r.form.sectionId == Val("")
    ensures r == ResetForm(r, [])
  {
    Editor(Question(Absent, Absent, Val(""), Val(Short), Val(""), Val(Num(2)), Val(Medium), Val(BlankOptions)),
           None, false, None)
  }

  /**
   * `handleOpenChange`, which the dialog calls when its trigger opens it or
   * Escape or the overlay closes it. Closing resets the form; opening keeps
   * the form but points it at the default section.
   */
  function HandleOpenChange(ed: Editor, open: bool, sections: seq<Section>): (r: Editor)
    ensures r.dialogOpen == open && r.activeSectionId == ed.activeSectionId
    ensures r.form.sectionId == Val(DefaultSectionId(ed.activeSectionId, sections))
    ensures !open ==> r == ResetForm(ed.(dialogOpen := false), sections)
    ensures open ==> r.editingId == ed.editingId && r.form == ed.form.(sectionId := r.form.sectionId)
  {
    if open then ed.(dialogOpen := true, form := ed.form.(sectionId := Val(DefaultSectionId(ed.activeSectionId, sections))))
    else ResetForm(ed.(dialogOpen := false), sections)
  }

  /**
   * A section's own "Add Question" button: it makes the section active and
   * opens the dialog directly, so the form is not reset and keeps its
   * section id from the last reset.
   */
  function OpenForSection(ed: Editor, sectionId: string): (r: Editor)
    ensures r.activeSectionId == Some(sectionId) && r.dialogOpen
    ensures r.form == ed.form && r.editingId == ed.editingId
  {
    ed.(activeSectionId := Some(sectionId), dialogOpen := true)
  }

  /** The dialog's Cancel button closes it without a reset: the form and the editing id stay. */
  function Cancel(ed: Editor): (r: Editor)
    ensures !r.dialogOpen && r == ed.(dialogOpen := false)
  {
    ed.(dialogOpen := false)
  }

  /** Picking a section in the dialog's select: only the form's section id changes. */
  function ChooseSection(ed: Editor, sectionId: string): (r: Editor)
    ensures r.form.sectionId == Val(sectionId)
    ensures r == ed.(form := ed.form.(sectionId := Val(sectionId)))
  {
    ed.(form := ed.form.(sectionId := Val(sectionId)))
  }

  /** Typing into the question text: only the form's text changes. */
  function TypeText(ed: Editor, text: string): (r: Editor)
    ensures r.form.questionText == Val(text)
    ensures r == ed.(form := ed.form.(questionText := Val(text)))
  {
    ed.(form := ed.form.(questionText := Val(text)))
  }

  /** The editor and the store after a handler. */
  datatype Outcome = Outcome(editor: Editor, store: Store)

  /**
   * `handleSubmit`: an empty question text does nothing; a truthy
   * `editingId` merges the form into that question, otherwise the form is
   * added to its section. Afterwards the dialog closes and the form resets;
   * a throw from `addQuestion` leaves everything as it was.
   */
  function HandleSubmit(ed: Editor, st: Store, freshId: string, now: int): (r: Result<Outcome>)
    ensures !TruthyKey(ed.form.questionText) ==> r == Ok(Outcome(ed, st))
    ensures TruthyKey(ed.form.questionText) && Truthy(ed.editingId) ==>
              r.Ok? && r.value.store == UpdateQuestion(st, ed.editingId, ed.form)
    ensures TruthyKey(ed.form.questionText) && !Truthy(ed.editingId) ==>
              match AddQuestion(st, ed.form, ed.form.sectionId.Read(), freshId, now)
              case TypeError => r.TypeError?
              case Ok(s) => r.Ok? && r.value.store == s
    ensures TruthyKey(ed.form.questionText) && r.Ok? ==>
              r.value.editor == ResetForm(ed.(dialogOpen := false), st.sections)
  {
    if !TruthyKey(ed.form.questionText) then Ok(Outcome(ed, st))
    else
      var saved :=
        if Truthy(ed.editingId) then Ok(UpdateQuestion(st, ed.editingId, ed.form))
        else AddQuestion(st, ed.form, ed.form.sectionId.Read(), freshId, now);
      match saved
      case TypeError => TypeError
      case Ok(s) => Ok(Outcome(ResetForm(ed.(dialogOpen := false), st.sections), s))
  }

  /**
   * `handleEdit`: the form is filled from the question, with `Medium`, four
   * blank options and the first section's id standing in for missing
   * values; the dialog opens on the question's id. With no sections and no
   * section id, reading `sections[0].id` throws.
   */
  function HandleEdit(ed: Editor, q: Question, sections: seq<Section>): (r: Result<Editor>)
    ensures r.TypeError? <==> !TruthyKey(q.sectionId) && |sections| == 0
    ensures r.Ok? ==>
      var f := r.value.form;
      && f.sectionId == Val(if TruthyKey(q.sectionId) then q.sectionId.v else sections[0].id)
      && f.difficulty == Val(if q.difficulty.Val? then q.difficulty.v else Medium)
      && f.options == Val(if q.options.Val? then q.options.v else BlankOptions)
      && f.kind == Keyed(q.kind) && f.questionText == Keyed(q.questionText) && f.marks == Keyed(q.marks)
      && f.id.Absent? && f.timestamp.Absent?
      && r.value.editingId == q.id.Read() && r.value.dialogOpen
      && r.value.activeSectionId == ed.activeSectionId
  {
    if !TruthyKey(q.sectionId) && |sections| == 0 then TypeError
    else
      var sid := if TruthyKey(q.sectionId) then q.sectionId.v else sections[0].id;
      Ok(ed.(
        form := Question(Absent, Absent, Val(sid), Keyed(q.kind), Keyed(q.questionText), Keyed(q.marks),
                         Val(if q.difficulty.Val? then q.difficulty.v else Medium),
                         Val(if q.options.Val? then q.options.v else BlankOptions)),
        editingId := q.id.Read(),
        dialogOpen := true))
  }

  /** Typing into option `i`: only that option changes. */
  function EditOption(ed: Editor, i: nat, value: string): (r: Editor)
    requires ed.form.options.Val? && i < |ed.form.options.v|
    ensures r.form.options.Val? && |r.form.options.v| == |ed.form.options.v|
    ensures r.form.options.v[i] == value
    ensures forall j :: 0 <= j < |ed.form.options.v| && j != i ==> r.form.options.v[j] == ed.form.options.v[j]
    ensures r == ed.(form := ed.form.(options := r.form.options))
  {
    ed.(form := ed.form.(options := Val(ed.form.options.v[i := value])))
  }

  /** Typing an option's old text back restores the editor. */
  lemma EditOptionUndo(ed: Editor, i: nat, value: string)
    requires ed.form.options.Val? && i < |ed.form.options.v|
    ensures EditOption(EditOption(ed, i, value), i, ed.form.options.v[i]) == ed
  {
    var r := EditOption(EditOption(ed, i, value), i, ed.form.options.v[i]);
    assert r.form.options.v == ed.form.options.v;
  }

  /**
   * Editing a question with a real id and saving it merges the form into
   * exactly that question and nowhere else: the list keeps its length, a
   * legacy question gets the first section's id written out, and its key
   * fields take the form's values.
   */
  lemma EditThenSave(ed: Editor, st: Store, k: nat, freshId: string, now: int)
    requires Wf(st) && k < |st.questions|
    requires st.questions[k].id.Val? && st.questions[k].id.v != ""
    requires forall j :: 0 <= j < |st.questions| && j != k ==> st.questions[j].id != st.questions[k].id
    requires TruthyKey(st.questions[k].questionText)
    ensures var q := st.questions[k];
      var editing := HandleEdit(ed, q, st.sections).value;
      var r := HandleSubmit(editing, st, freshId, now);
      && r.Ok?
      && |r.value.store.questions| == |st.questions|
      && (forall j :: 0 <= j < |st.questions| && j != k ==> r.value.store.questions[j] == st.questions[j])
      && r.value.store.questions[k].sectionId == Val(if TruthyKey(q.sectionId) then q.sectionId.v else st.sections[0].id)
      && r.value.store.questions[k].id == q.id
      && r.value.store.questions[k].questionText == q.questionText
  {
  }

  /**
   * Editing a copy - whose id is `undefined` - and saving it does not
   * change the copy: `editingId` is falsy, so the form is added as one more question.
   */
  lemma EditCopyAppends(ed: Editor, st: Store, k: nat, freshId: string, now: int)
    requires Wf(st) && k < |st.questions|
    requires st.questions[k].id == Undefined
    requires TruthyKey(st.questions[k].questionText)
    ensures var editing := HandleEdit(ed, st.questions[k], st.sections).value;
      var r := HandleSubmit(editing, st, freshId, now);
      && r.Ok?
      && |r.value.store.questions| == |st.questions| + 1
      && r.value.store.questions[..|st.questions|] == st.questions
      && r.value.store.questions[|st.questions|].id == Val(freshId)
  {
    var editing := HandleEdit(ed, st.questions[k], st.sections).value;
    assert !Truthy(editing.editingId);
  }

  // ---------------------------------------------------------------------------
  // The per-section lists

  /** A question card: the question and its position in the whole list. */
  datatype Card = Card(index: nat, question: Question)

  /**
   * The cards under the section `sectionId`: the questions of its bucket,
   * each numbered by its position in the full list (`questions.indexOf(q)`,
   * which finds the card's own object).
   */
  function Cards(qs: seq<Question>, sectionId: string, firstId: string, from: nat): (r: seq<Card>)
    requires from <= |qs|
    ensures forall c :: c in r ==> from <= c.index < |qs| && qs[c.index] == c.question
                                   && InBucket(c.question, sectionId, firstId)
    ensures forall j, k :: 0 <= j < k < |r| ==> r[j].index < r[k].index
    decreases |qs| - from
  {
    if from == |qs| then []
    else
      (if InBucket(qs[from], sectionId, firstId) then [Card(from, qs[from])] else [])
      + Cards(qs, sectionId, firstId, from + 1)
  }

  /** The questions on a list of cards, in order. */
  function CardQuestions(cs: seq<Card>): seq<Question> {
    if cs == [] then [] else [cs[0].question] + CardQuestions(cs[1..])
  }

  lemma CardQuestionsCons(c: Card, rest: seq<Card>)
    ensures CardQuestions([c] + rest) == [c.question] + CardQuestions(rest)
  {
    assert ([c] + rest)[1..] == rest;
  }

  /** One step of `Cards`: the card for position `from`, if any, then the rest. */
  lemma CardsStep(qs: seq<Question>, sectionId: string, firstId: string, from: nat)
    requires from < |qs|
    ensures CardQuestions(Cards(qs, sectionId, firstId, from))
            == (if InBucket(qs[from], sectionId, firstId) then [qs[from]] else [])
               + CardQuestions(Cards(qs, sectionId, firstId, from + 1))
  {
    var rest := Cards(qs, sectionId, firstId, from + 1);
    if InBucket(qs[from], sectionId, firstId) {
      CardQuestionsCons(Card(from, qs[from]), rest);
    } else {
      assert [] + rest == rest;
    }
  }

  /** One step of the bucket of a suffix. */
  lemma BucketStep(qs: seq<Question>, sectionId: string, firstId: string, from: nat)
    requires from < |qs|
    ensures Bucket(qs[from..], sectionId, firstId)
            == (if InBucket(qs[from], sectionId, firstId) then [qs[from]] else [])
               + Bucket(qs[from + 1..], sectionId, firstId)
  {
    assert qs[from..][1..] == qs[from + 1..];
  }

  /** The questions on the cards are the same bucket the paper prints for that section. */
  lemma {:induction false} CardsAreBucket(qs: seq<Question>, sectionId: string, firstId: string, from: nat)
    requires from <= |qs|
    ensures CardQuestions(Cards(qs, sectionId, firstId, from)) == Bucket(qs[from..], sectionId, firstId)
    decreases |qs| - from
  {
    if from < |qs| {
      CardsAreBucket(qs, sectionId, firstId, from + 1);
      CardsStep(qs, sectionId, firstId, from);
      BucketStep(qs, sectionId, firstId, from);
    }
  }

  /** Every question in the bucket has its card. */
  lemma {:induction false} CardsComplete(qs: seq<Question>, sectionId: string, firstId: string, from: nat, i: nat)
    requires from <= i < |qs| && InBucket(qs[i], sectionId, firstId)
    ensures Card(i, qs[i]) in Cards(qs, sectionId, firstId, from)
    decreases i - from
  {
    if from < i {
      CardsComplete(qs, sectionId, firstId, from + 1, i);
    }
  }

  /** The delete-section control is shown only while more than one section exists. */
  predicate DeleteControlShown(sections: seq<Section>) {
    |sections| > 1
  }

  /**
   * The control and the store's guard agree: where the control is hidden,
   * deleting would be a no-op; where it is shown on a well-formed store,
   * its section goes and exactly one section fewer remains.
   */
  lemma DeleteControlMatchesGuard(st: Store, k: nat)
    requires Wf(st) && NoDangling(st) && k < |st.sections|
    ensures !DeleteControlShown(st.sections) ==> DeleteSection(st, st.sections[k].id) == st
    ensures DeleteControlShown(st.sections) ==>
              |DeleteSection(st, st.sections[k].id).sections| == |st.sections| - 1
  {
    if DeleteControlShown(st.sections) {
      DeleteSectionWf(st, st.sections[k].id);
    }
  }
}
