/**
 * A session of store mutations, starting from the defaults the store loads
 * with. Each action is one call of the store's API with its generated id and
 * timestamp supplied; the invariant `Wf` + `NoDangling` holds after every
 * admissible step, so no handler throws and the paper prints every question.
 */
module Session {
  import opened Js
  import opened ExamModel
  import opened ExamStore
  import Composer

  datatype Action =
    | UpdateMetaA(meta: MetaPatch)
    | AddSectionA(freshId: string)
    | UpdateSectionA(sectionId: string, sectionPatch: SectionPatch)
    | DeleteSectionA(sectionId: string)
    | AddQuestionA(question: Question, target: Option<string>, freshId: string, now: int)
    | UpdateQuestionA(id: Option<string>, patch: Question)
    | DeleteQuestionA(id: Option<string>)
    | DuplicateQuestionA(id: Option<string>, freshId: string, now: int)
    | ReorderA(newOrder: seq<Question>)
    | UpdateStylesA(styles: StylesPatch)
    | ResetA(confirmed: bool)

  /** One call of the store's API; `today` is the date fixed when the store module loads. */
  function Apply(st: Store, a: Action, today: string): Result<Store> {
    match a
    case UpdateMetaA(p) => Ok(UpdateExamMeta(st, p))
    case AddSectionA(f) => Ok(AddSection(st, f))
    case UpdateSectionA(id, p) => Ok(UpdateSection(st, id, p))
    case DeleteSectionA(id) => Ok(DeleteSection(st, id))
    case AddQuestionA(q, target, f, now) => AddQuestion(st, q, target, f, now)
    case UpdateQuestionA(id, p) => Ok(UpdateQuestion(st, id, p))
    case DeleteQuestionA(id) => Ok(DeleteQuestion(st, id))
    case DuplicateQuestionA(id, f, now) => DuplicateQuestion(st, id, f, now)
    case ReorderA(order) => Ok(ReorderQuestions(st, order))
    case UpdateStylesA(p) => Ok(UpdateStyles(st, p))
    case ResetA(c) => Ok(ResetExam(st, c, today))
  }

  /**
   * The calls under which the store keeps its invariant: generated section
   * ids are truthy and unused, section edits keep the id, a question's
   * section names an existing section, and a reorder is a permutation.
   * The store itself checks none of this. The questions page as written can
   * add a question whose section was deleted (see `EditorSession`), which is
   * outside this predicate.
   */
  predicate Admissible(st: Store, a: Action) {
    match a
    case AddSectionA(f) => f != "" && !HasSection(st.sections, f)
    case UpdateSectionA(_, p) => p.id.None?
    case AddQuestionA(q, target, _, _) =>
      if q.sectionId.Absent? then !Truthy(target) || HasSection(st.sections, target.value)
      else Placed(st.sections, q)
    case UpdateQuestionA(_, p) => p.sectionId.Absent? || Placed(st.sections, p)
    case ReorderA(order) => multiset(order) == multiset(st.questions)
    case _ => true
  }

  /** The defaults satisfy the invariant. */
  lemma DefaultWf(today: string)
    ensures Wf(DefaultStore(today)) && NoDangling(DefaultStore(today))
  {
  }

  /** Every admissible action on a well-formed store succeeds and keeps it well-formed. */
  lemma ApplyWf(st: Store, a: Action, today: string)
    requires Wf(st) && NoDangling(st) && Admissible(st, a)
    ensures Apply(st, a, today).Ok?
    ensures Wf(Apply(st, a, today).value) && NoDangling(Apply(st, a, today).value)
  {
    match a
    case UpdateMetaA(p) =>
    case AddSectionA(f) => AddSectionWf(st, f);
    case UpdateSectionA(id, p) => UpdateSectionWf(st, id, p);
    case DeleteSectionA(id) => DeleteSectionWf(st, id);
    case AddQuestionA(q, target, f, now) => AddQuestionWf(st, q, target, f, now);
    case UpdateQuestionA(id, p) => UpdateQuestionWf(st, id, p);
    case DeleteQuestionA(id) => DeleteQuestionWf(st, id);
    case DuplicateQuestionA(id, f, now) => DuplicateWf(st, id, f, now);
    case ReorderA(order) => ReorderWf(st, order);
    case UpdateStylesA(p) =>
    case ResetA(c) => DefaultWf(today);
  }

  lemma AddQuestionWf(st: Store, q: Question, target: Option<string>, f: string, now: int)
    requires Wf(st) && NoDangling(st) && Admissible(st, AddQuestionA(q, target, f, now))
    ensures AddQuestion(st, q, target, f, now).Ok?
    ensures NoDangling(AddQuestion(st, q, target, f, now).value)
  {
    var r := AddQuestion(st, q, target, f, now).value;
    var n := |st.questions|;
    forall i | 0 <= i < |r.questions|
      ensures Placed(r.sections, r.questions[i])
    {
      if i < n {
        assert r.questions[i] == r.questions[..n][i];
      } else if !Truthy(target) && q.sectionId.Absent? {
        assert st.sections[0].id != "";
        assert r.sections[0].id == r.questions[i].sectionId.v;
      }
    }
  }

  lemma UpdateQuestionWf(st: Store, id: Option<string>, p: Question)
    requires Wf(st) && NoDangling(st) && (p.sectionId.Absent? || Placed(st.sections, p))
    ensures NoDangling(UpdateQuestion(st, id, p))
  {
    var r := UpdateQuestion(st, id, p);
    forall i | 0 <= i < |r.questions|
      ensures Placed(r.sections, r.questions[i])
    {
      assert Placed(st.sections, st.questions[i]);
    }
  }

  lemma DeleteQuestionWf(st: Store, id: Option<string>)
    requires NoDangling(st)
    ensures NoDangling(DeleteQuestion(st, id))
  {
    var r := DeleteQuestion(st, id);
    forall i | 0 <= i < |r.questions|
      ensures Placed(r.sections, r.questions[i])
    {
      assert r.questions[i] in st.questions;
      var j :| 0 <= j < |st.questions| && st.questions[j] == r.questions[i];
      assert Placed(st.sections, st.questions[j]);
    }
  }

  lemma DuplicateWf(st: Store, id: Option<string>, f: string, now: int)
    requires Wf(st) && NoDangling(st)
    ensures DuplicateQuestion(st, id, f, now).Ok?
    ensures NoDangling(DuplicateQuestion(st, id, f, now).value)
  {
    match FindQuestion(st.questions, id)
    case None =>
    case Some(k) =>
      var q := st.questions[k];
      assert Placed(st.sections, q);
      AddQuestionWf(st, WithoutId(q), q.sectionId.Read(), f, now);
  }

  lemma ReorderWf(st: Store, order: seq<Question>)
    requires NoDangling(st) && multiset(order) == multiset(st.questions)
    ensures NoDangling(ReorderQuestions(st, order))
  {
    forall i | 0 <= i < |order|
      ensures Placed(st.sections, order[i])
    {
      assert order[i] in multiset(st.questions);
      var j :| 0 <= j < |st.questions| && st.questions[j] == order[i];
    }
  }

  /** The actions in order; the first throw ends the session. */
  function Run(st: Store, actions: seq<Action>, today: string): Result<Store>
    decreases |actions|
  {
    if actions == [] then Ok(st)
    else
      match Apply(st, actions[0], today)
      case TypeError => TypeError
      case Ok(next) => Run(next, actions[1..], today)
  }

  /** Each action is admissible in the state it is applied to. */
  predicate AllAdmissible(st: Store, actions: seq<Action>, today: string)
    decreases |actions|
  {
    actions == [] ||
      (Admissible(st, actions[0]) &&
       match Apply(st, actions[0], today)
       case TypeError => true
       case Ok(next) => AllAdmissible(next, actions[1..], today))
  }

  /** A session of admissible actions from a well-formed store never throws and ends well-formed. */
  lemma {:induction false} RunWf(st: Store, actions: seq<Action>, today: string)
    requires Wf(st) && NoDangling(st) && AllAdmissible(st, actions, today)
    ensures Run(st, actions, today).Ok?
    ensures Wf(Run(st, actions, today).value) && NoDangling(Run(st, actions, today).value)
    decreases |actions|
  {
    if actions != [] {
      ApplyWf(st, actions[0], today);
      RunWf(Apply(st, actions[0], today).value, actions[1..], today);
    }
  }

  /**
   * After any admissible session from the defaults, the paper's question
   * rows are the rows of a permutation of the stored questions: none is lost
   * and none is printed twice. Sessions with an `addQuestion` into a deleted
   * section are not covered.
   */
  lemma SessionPrintsEveryQuestion(actions: seq<Action>, today: string)
    requires AllAdmissible(DefaultStore(today), actions, today)
    ensures Run(DefaultStore(today), actions, today).Ok?
    ensures var st := Run(DefaultStore(today), actions, today).value;
      && Composer.OfKind(Composer.Compose(st.meta, st.sections, st.questions, st.styles), Composer.KQuestionRow)
         == Composer.Rows(Composer.Emitted(st.sections, st.questions), 0, st.styles)
      && multiset(Composer.Emitted(st.sections, st.questions)) == multiset(st.questions)
      && |Composer.OfKind(Composer.Compose(st.meta, st.sections, st.questions, st.styles), Composer.KQuestionRow)|
         == |st.questions|
  {
    DefaultWf(today);
    RunWf(DefaultStore(today), actions, today);
    var st := Run(DefaultStore(today), actions, today).value;
    Composer.EveryQuestionPrintedOnce(st.meta, st.sections, st.questions, st.styles);
  }
}
