/**
 * The questions page as a whole: the dialog's state and the store, driven by
 * the clicks and keystrokes the page offers. The section delete button calls
 * `deleteSection` and nothing else, so the page's active section and the
 * form's section id can outlive the section they name; the next question
 * added through the dialog then points at no section and is not printed.
 * `Step` is the page as written; `StepFixed` is the same page whose delete
 * handler also forgets the deleted section.
 */
module EditorSession {
  import opened Js
  import opened ExamModel
  import opened Partition
  import opened ExamStore
  import opened QuestionForm
  import Composer
  import Session

  /** What the user can do on the page. The dialog is modal: page controls work only while it is closed. */
  datatype Event =
    | AddSectionClick(freshId: string)
    | SectionAddQuestion(section: nat)
    | OpenDialog
    | CloseDialog
    | CancelClick
    | SelectSection(section: nat)
    | EnterText(text: string)
    | SubmitClick(freshId: string, now: int)
    | EditClick(question: nat)
    | DeleteQuestionClick(question: nat)
    | DuplicateClick(question: nat, freshId: string, now: int)
    | DeleteSectionClick(section: nat)

  datatype Page = Page(editor: Editor, store: Store)

  function Start(today: string): Page {
    Page(InitialEditor(), DefaultStore(today))
  }

  /**
   * Every event except a section deletion. A generated id that is empty or
   * already in use is not one `crypto.randomUUID` returns, so such an event
   * is ignored; a handler that throws leaves the page as it was.
   */
  function Common(p: Page, e: Event): Page {
    var ed, st := p.editor, p.store;
    match e
    case AddSectionClick(f) =>
      if !ed.dialogOpen && f != "" && !HasSection(st.sections, f) then Page(ed, AddSection(st, f)) else p
    case SectionAddQuestion(k) =>
      if !ed.dialogOpen && k < |st.sections| then Page(OpenForSection(ed, st.sections[k].id), st) else p
    case OpenDialog =>
      if !ed.dialogOpen then Page(HandleOpenChange(ed, true, st.sections), st) else p
    case CloseDialog =>
      if ed.dialogOpen then Page(HandleOpenChange(ed, false, st.sections), st) else p
    case CancelClick =>
      if ed.dialogOpen then Page(Cancel(ed), st) else p
    case SelectSection(k) =>
      if ed.dialogOpen && k < |st.sections| then Page(ChooseSection(ed, st.sections[k].id), st) else p
    case EnterText(t) =>
      if ed.dialogOpen then Page(TypeText(ed, t), st) else p
    case SubmitClick(f, now) =>
      if ed.dialogOpen then
        match HandleSubmit(ed, st, f, now)
        case TypeError => p
        case Ok(o) => Page(o.editor, o.store)
      else p
    case EditClick(k) =>
      if !ed.dialogOpen && k < |st.questions| then
        match HandleEdit(ed, st.questions[k], st.sections)
        case TypeError => p
        case Ok(ed2) => Page(ed2, st)
      else p
    case DeleteQuestionClick(k) =>
      if !ed.dialogOpen && k < |st.questions| then Page(ed, DeleteQuestion(st, st.questions[k].id.Read())) else p
    case DuplicateClick(k, f, now) =>
      if !ed.dialogOpen && k < |st.questions| then
        match DuplicateQuestion(st, st.questions[k].id.Read(), f, now)
        case TypeError => p
        case Ok(st2) => Page(ed, st2)
      else p
    case DeleteSectionClick(_) => p
  }

  /**
   * The page as written: the delete button of a shown section calls
   * `deleteSection` only, so the editor, its active section included, is
   * left as it was.
   */
  function Step(p: Page, e: Event): (r: Page)
    ensures e.DeleteSectionClick? ==> r.editor == p.editor
    ensures e.DeleteSectionClick? && (p.editor.dialogOpen || |p.store.sections| <= 1) ==> r == p
  {
    match e
    case DeleteSectionClick(k) =>
      if !p.editor.dialogOpen && k < |p.store.sections| && DeleteControlShown(p.store.sections)
      then Page(p.editor, DeleteSection(p.store, p.store.sections[k].id))
      else p
    case _ => Common(p, e)
  }

  /**
   * The delete handler with the missing step: a deleted active section stops
   * being active, and a form pointing at the deleted section is pointed at
   * the default section of what remains.
   */
  function Forget(ed: Editor, id: string, sections: seq<Section>): (r: Editor)
    ensures r.activeSectionId == (if ed.activeSectionId == Some(id) then None else ed.activeSectionId)
    ensures ed.form.sectionId != Val(id) ==> r.form == ed.form
    ensures ed.form.sectionId == Val(id) ==> r.form == ed.form.(sectionId := Val(DefaultSectionId(r.activeSectionId, sections)))
    ensures r.editingId == ed.editingId && r.dialogOpen == ed.dialogOpen
  {
    var active := if ed.activeSectionId == Some(id) then None else ed.activeSectionId;
    var form := if ed.form.sectionId == Val(id) then ed.form.(sectionId := Val(DefaultSectionId(active, sections))) else ed.form;
    ed.(form := form, activeSectionId := active)
  }

  /**
   * The corrected page: after a section delete the active section is never
   * an id that is gone.
   */
  function StepFixed(p: Page, e: Event): (r: Page)
    ensures e.DeleteSectionClick? && e.section < |p.store.sections| ==>
      var id := p.store.sections[e.section].id;
      r.editor.activeSectionId != Some(id) || HasSection(r.store.sections, id)
    ensures e.DeleteSectionClick? ==> r.store == Step(p, e).store
  {
    match e
    case DeleteSectionClick(k) =>
      if !p.editor.dialogOpen && k < |p.store.sections| && DeleteControlShown(p.store.sections)
      then
        var st := DeleteSection(p.store, p.store.sections[k].id);
        Page(Forget(p.editor, p.store.sections[k].id, st.sections), st)
      else
        assert k < |p.store.sections| ==> HasSection(p.store.sections, p.store.sections[k].id);
        p
    case _ => Common(p, e)
  }

  function Run(p: Page, es: seq<Event>): Page
    decreases |es|
  {
    if es == [] then p else Run(Step(p, es[0]), es[1..])
  }

  function RunFixed(p: Page, es: seq<Event>): Page
    decreases |es|
  {
    if es == [] then p else RunFixed(StepFixed(p, es[0]), es[1..])
  }

  // ---------------------------------------------------------------------------
  // The page invariant

  /** The active section and the form's section id, when truthy, name existing sections. */
  predicate EditorPlaced(ed: Editor, sections: seq<Section>) {
    && (Truthy(ed.activeSectionId) ==> HasSection(sections, ed.activeSectionId.value))
    && Placed(sections, ed.form)
  }

  predicate Good(p: Page) {
    Wf(p.store) && NoDangling(p.store) && EditorPlaced(p.editor, p.store.sections)
  }

  /** The default section id always names a section or is falsy. */
  lemma DefaultSectionPlaced(active: Option<string>, sections: seq<Section>)
    requires Wf(Store(DefaultMeta(""), [], DefaultStyles, sections))
    requires Truthy(active) ==> HasSection(sections, active.value)
    ensures var id := DefaultSectionId(active, sections); id == "" || HasSection(sections, id)
  {
    if !Truthy(active) {
      assert sections[0].id == sections[0].id;
    }
  }

  /** A section that survives a deletion is still there. */
  lemma Survives(st: Store, id: string, x: string)
    requires HasSection(st.sections, x) && x != id
    ensures HasSection(DeleteSection(st, id).sections, x)
  {
    var j :| 0 <= j < |st.sections| && st.sections[j].id == x;
    var r := DeleteSection(st, id);
    if |st.sections| > 1 {
      assert st.sections[j] in RemoveSection(st.sections, id);
      var i :| 0 <= i < |r.sections| && r.sections[i] == st.sections[j];
    }
  }

  /** Appending a section keeps every existing one. */
  lemma AddKeeps(st: Store, f: string, x: string)
    requires HasSection(st.sections, x)
    ensures HasSection(AddSection(st, f).sections, x)
  {
    var j :| 0 <= j < |st.sections| && st.sections[j].id == x;
    assert AddSection(st, f).sections[j] == st.sections[j];
  }

  lemma StartGood(today: string)
    ensures Good(Start(today))
  {
    assert DefaultStore(today).sections[0].id == "default";
  }

  lemma SubmitGood(p: Page, f: string, now: int)
    requires Good(p) && p.editor.dialogOpen
    ensures HandleSubmit(p.editor, p.store, f, now).Ok?
    ensures var o := HandleSubmit(p.editor, p.store, f, now).value; Good(Page(o.editor, o.store))
  {
    var ed, st := p.editor, p.store;
    if TruthyKey(ed.form.questionText) {
      if Truthy(ed.editingId) {
        Session.UpdateQuestionWf(st, ed.editingId, ed.form);
      } else {
        assert Session.Admissible(st, Session.AddQuestionA(ed.form, ed.form.sectionId.Read(), f, now));
        Session.AddQuestionWf(st, ed.form, ed.form.sectionId.Read(), f, now);
      }
      DefaultSectionPlaced(ed.activeSectionId, st.sections);
    }
  }

  lemma EditGood(p: Page, k: nat)
    requires Good(p) && k < |p.store.questions|
    ensures HandleEdit(p.editor, p.store.questions[k], p.store.sections).Ok?
    ensures Good(Page(HandleEdit(p.editor, p.store.questions[k], p.store.sections).value, p.store))
  {
    assert Placed(p.store.sections, p.store.questions[k]);
    assert HasSection(p.store.sections, p.store.sections[0].id);
  }

  lemma DeleteFixedGood(p: Page, k: nat)
    requires Good(p) && k < |p.store.sections| && DeleteControlShown(p.store.sections)
    ensures var id := p.store.sections[k].id;
      var st := DeleteSection(p.store, id);
      Good(Page(Forget(p.editor, id, st.sections), st))
  {
    var id := p.store.sections[k].id;
    var st := DeleteSection(p.store, id);
    var ed := Forget(p.editor, id, st.sections);
    DeleteSectionWf(p.store, id);
    if Truthy(ed.activeSectionId) {
      Survives(p.store, id, ed.activeSectionId.value);
    }
    if TruthyKey(p.editor.form.sectionId) && p.editor.form.sectionId != Val(id) {
      Survives(p.store, id, p.editor.form.sectionId.v);
    }
    DefaultSectionPlaced(ed.activeSectionId, st.sections);
  }

  /** Every event but a deletion keeps the page invariant. */
  lemma CommonGood(p: Page, e: Event)
    requires Good(p)
    ensures Good(Common(p, e))
  {
    var ed, st := p.editor, p.store;
    match e
    case AddSectionClick(f) =>
      if !ed.dialogOpen && f != "" && !HasSection(st.sections, f) {
        AddSectionWf(st, f);
        if Truthy(ed.activeSectionId) {
          AddKeeps(st, f, ed.activeSectionId.value);
        }
        if TruthyKey(ed.form.sectionId) {
          AddKeeps(st, f, ed.form.sectionId.v);
        }
      }
    case SectionAddQuestion(k) =>
      if !ed.dialogOpen && k < |st.sections| {
        assert HasSection(st.sections, st.sections[k].id);
      }
    case OpenDialog =>
      DefaultSectionPlaced(ed.activeSectionId, st.sections);
    case CloseDialog =>
      DefaultSectionPlaced(ed.activeSectionId, st.sections);
    case CancelClick =>
    case SelectSection(k) =>
      if ed.dialogOpen && k < |st.sections| {
        assert HasSection(st.sections, st.sections[k].id);
      }
    case EnterText(t) =>
    case SubmitClick(f, now) =>
      if ed.dialogOpen {
        SubmitGood(p, f, now);
      }
    case EditClick(k) =>
      if !ed.dialogOpen && k < |st.questions| {
        EditGood(p, k);
      }
    case DeleteQuestionClick(k) =>
      if !ed.dialogOpen && k < |st.questions| {
        Session.DeleteQuestionWf(st, st.questions[k].id.Read());
      }
    case DuplicateClick(k, f, now) =>
      if !ed.dialogOpen && k < |st.questions| {
        Session.DuplicateWf(st, st.questions[k].id.Read(), f, now);
      }
    case DeleteSectionClick(_) =>
  }

  /** With the corrected delete handler, every event keeps the page invariant. */
  lemma StepFixedGood(p: Page, e: Event)
    requires Good(p)
    ensures Good(StepFixed(p, e))
  {
    match e
    case DeleteSectionClick(k) =>
      if !p.editor.dialogOpen && k < |p.store.sections| && DeleteControlShown(p.store.sections) {
        DeleteFixedGood(p, k);
      }
    case _ => CommonGood(p, e);
  }

  lemma {:induction false} RunFixedGood(p: Page, es: seq<Event>)
    requires Good(p)
    ensures Good(RunFixed(p, es))
    decreases |es|
  {
    if es != [] {
      StepFixedGood(p, es[0]);
      RunFixedGood(StepFixed(p, es[0]), es[1..]);
    }
  }

  /** Events other than adding or deleting a section leave the sections as they were. */
  lemma CommonKeepsSections(p: Page, e: Event)
    requires !e.AddSectionClick?
    ensures Common(p, e).store.sections == p.store.sections
  {
  }

  /** The page as written keeps the store well-formed: at least one section, with distinct non-empty ids. */
  lemma StepKeepsWf(p: Page, e: Event)
    requires Wf(p.store)
    ensures Wf(Step(p, e).store)
  {
    match e
    case AddSectionClick(f) =>
      if !p.editor.dialogOpen && f != "" && !HasSection(p.store.sections, f) {
        AddSectionKeepsWf(p.store, f);
      }
    case DeleteSectionClick(k) =>
      if !p.editor.dialogOpen && k < |p.store.sections| && DeleteControlShown(p.store.sections) {
        DeleteExistingSections(p.store, k);
      }
    case _ =>
      CommonKeepsSections(p, e);
  }

  /**
   * However the page as written is used, even along runs that file a
   * question under a deleted section, the store keeps at least one section
   * and distinct non-empty section ids.
   */
  lemma {:induction false} RunKeepsWf(p: Page, es: seq<Event>)
    requires Wf(p.store)
    ensures Wf(Run(p, es).store)
    decreases |es|
  {
    if es != [] {
      StepKeepsWf(p, es[0]);
      RunKeepsWf(Step(p, es[0]), es[1..]);
    }
  }

  /** From the defaults, the page as written never empties the section list or repeats a section id. */
  lemma PageKeepsSections(today: string, es: seq<Event>)
    ensures Wf(Run(Start(today), es).store)
  {
    StartGood(today);
    RunKeepsWf(Start(today), es);
  }

  /** With the corrected page, whatever the user does, the paper prints every stored question exactly once. */
  lemma FixedPagePrintsEveryQuestion(today: string, es: seq<Event>)
    ensures var st := RunFixed(Start(today), es).store;
      && Composer.OfKind(Composer.Compose(st.meta, st.sections, st.questions, st.styles), Composer.KQuestionRow)
         == Composer.Rows(Composer.Emitted(st.sections, st.questions), 0, st.styles)
      && multiset(Composer.Emitted(st.sections, st.questions)) == multiset(st.questions)
      && |Composer.OfKind(Composer.Compose(st.meta, st.sections, st.questions, st.styles), Composer.KQuestionRow)|
         == |st.questions|
  {
    StartGood(today);
    RunFixedGood(Start(today), es);
    var st := RunFixed(Start(today), es).store;
    Composer.EveryQuestionPrintedOnce(st.meta, st.sections, st.questions, st.styles);
  }

  /** The two pages differ only in what a section deletion does to the editor. */
  lemma StepsAgree(p: Page, e: Event)
    ensures StepFixed(p, e).store == Step(p, e).store
    ensures !e.DeleteSectionClick? ==> StepFixed(p, e) == Step(p, e)
  {
  }

  // ---------------------------------------------------------------------------
  // The page as written loses a question

  /**
   * Add a section, open its dialog from its own button, close it with
   * Escape (the reset points the form at the new section), delete the
   * section, then add a question through the top "Add Question" button:
   * the question is stored under the deleted section's id.
   */
  function StaleSectionEvents(): seq<Event> {
    [AddSectionClick("b"), SectionAddQuestion(1), CloseDialog, DeleteSectionClick(1),
     OpenDialog, EnterText("Q"), SubmitClick("q", 0)]
  }

  /** The first half of the run: the new section is made active, then deleted, and the page still holds it as active. */
  lemma StaleFirstHalf(today: string)
    ensures var p := Step(Step(Step(Step(Start(today), AddSectionClick("b")), SectionAddQuestion(1)), CloseDialog), DeleteSectionClick(1));
      && p.store.sections == [DefaultSection] && p.store.questions == []
      && p.editor.activeSectionId == Some("b") && p.editor.editingId == None && !p.editor.dialogOpen
  {
    StaleOpenSection(today);
    StaleCloseAndDelete(Step(Step(Start(today), AddSectionClick("b")), SectionAddQuestion(1)));
  }

  /** Adding section "b" and clicking its own Add Question button makes "b" active. */
  lemma StaleOpenSection(today: string)
    ensures var p := Step(Step(Start(today), AddSectionClick("b")), SectionAddQuestion(1));
      && p.store.sections == [DefaultSection, Section("b", NewSectionTitle(1), "")] && p.store.questions == []
      && p.editor.activeSectionId == Some("b") && p.editor.editingId == None && p.editor.dialogOpen
  {
    var p0 := Start(today);
    assert !HasSection(p0.store.sections, "b");
    var p1 := Step(p0, AddSectionClick("b"));
    assert p1.store.sections == [DefaultSection, Section("b", NewSectionTitle(1), "")];
  }

  /** Closing the dialog and deleting "b" leaves "b" active. */
  lemma StaleCloseAndDelete(p2: Page)
    requires p2.store.sections == [DefaultSection, Section("b", NewSectionTitle(1), "")] && p2.store.questions == []
    requires p2.editor.activeSectionId == Some("b") && p2.editor.editingId == None && p2.editor.dialogOpen
    ensures var p := Step(Step(p2, CloseDialog), DeleteSectionClick(1));
      && p.store.sections == [DefaultSection] && p.store.questions == []
      && p.editor.activeSectionId == Some("b") && p.editor.editingId == None && !p.editor.dialogOpen
  {
    var p3 := Step(p2, CloseDialog);
    assert p3.store == p2.store && !p3.editor.dialogOpen;
    assert RemoveSection(p3.store.sections, "b") == [DefaultSection] by {
      assert RemoveSection(p3.store.sections, "b") == [DefaultSection] + RemoveSection([Section("b", NewSectionTitle(1), "")], "b");
    }
  }

  /** The second half: opening the dialog copies the stale active id into the form, and the submit stores the question under it. */
  lemma StaleSecondHalf(p: Page)
    requires p.store.sections == [DefaultSection] && p.store.questions == []
    requires p.editor.activeSectionId == Some("b") && p.editor.editingId == None && !p.editor.dialogOpen
    ensures var st := Step(Step(Step(p, OpenDialog), EnterText("Q")), SubmitClick("q", 0)).store;
      && st.sections == [DefaultSection] && |st.questions| == 1 && st.questions[0].sectionId == Val("b")
  {
    var p5 := Step(p, OpenDialog);
    assert p5.editor.form.sectionId == Val("b") && p5.editor.dialogOpen;
    var p6 := Step(p5, EnterText("Q"));
    assert TruthyKey(p6.editor.form.questionText);
    var p7 := Step(p6, SubmitClick("q", 0));
    assert p7.store.questions == [Created(p6.editor.form, "b", "q", 0)];
  }

  /** A store whose only section is the default one prints nothing for a question filed under "b". */
  lemma StaleQuestionNotPrinted(st: Store)
    requires st.sections == [DefaultSection] && |st.questions| == 1 && st.questions[0].sectionId == Val("b")
    ensures !NoDangling(st)
    ensures |Composer.OfKind(Composer.Compose(st.meta, st.sections, st.questions, st.styles), Composer.KQuestionRow)| == 0
  {
    var q := st.questions[0];
    assert !Placed(st.sections, q);
    assert Composer.Emitted(st.sections, st.questions) == [] by {
      assert !InBucket(q, "default", "default");
      assert Bucket(st.questions, "default", "default") == [] + Bucket([], "default", "default");
    }
    Composer.ComposeRows(st.meta, st.sections, st.questions, st.styles);
  }

  /** The stored question names no section, falls in no bucket, and the paper prints no question. */
  lemma StaleSectionLosesQuestion(today: string)
    ensures var st := Run(Start(today), StaleSectionEvents()).store;
      && |st.questions| == 1
      && st.questions[0].sectionId == Val("b")
      && !NoDangling(st)
      && |Composer.OfKind(Composer.Compose(st.meta, st.sections, st.questions, st.styles), Composer.KQuestionRow)| == 0
  {
    var es := StaleSectionEvents();
    var p := Start(today);
    StaleFirstHalf(today);
    var p4 := Step(Step(Step(Step(p, es[0]), es[1]), es[2]), es[3]);
    StaleSecondHalf(p4);
    RunSteps(p, es);
    StaleQuestionNotPrinted(Run(p, es).store);
  }

  lemma RunHead(p: Page, es: seq<Event>)
    requires es != []
    ensures Run(p, es) == Run(Step(p, es[0]), es[1..])
  {
  }

  /** The seven steps of the run, one by one. */
  lemma RunSteps(p: Page, es: seq<Event>)
    requires |es| == 7
    ensures Run(p, es) == Step(Step(Step(Step(Step(Step(Step(p, es[0]), es[1]), es[2]), es[3]), es[4]), es[5]), es[6])
  {
    var p1 := Step(p, es[0]);
    var p2 := Step(p1, es[1]);
    var p3 := Step(p2, es[2]);
    var p4 := Step(p3, es[3]);
    var p5 := Step(p4, es[4]);
    var p6 := Step(p5, es[5]);
    var p7 := Step(p6, es[6]);
    calc {
      Run(p, es);
      { RunHead(p, es); }
      Run(p1, es[1..]);
      { RunHead(p1, es[1..]); assert es[1..][1..] == es[2..]; }
      Run(p2, es[2..]);
      { RunHead(p2, es[2..]); assert es[2..][1..] == es[3..]; }
      Run(p3, es[3..]);
      { RunHead(p3, es[3..]); assert es[3..][1..] == es[4..]; }
      Run(p4, es[4..]);
      { RunHead(p4, es[4..]); assert es[4..][1..] == es[5..]; }
      Run(p5, es[5..]);
      { RunHead(p5, es[5..]); assert es[5..][1..] == es[6..]; }
      Run(p6, es[6..]);
      { RunHead(p6, es[6..]); assert es[6..][1..] == []; }
      Run(p7, []);
    }
  }
}
