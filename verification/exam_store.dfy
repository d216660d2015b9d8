/**
 * The exam store's mutation API (`ExamProvider`): each operation is a pure
 * map from the store before to the store after. Generated ids and
 * timestamps are parameters; a handler that throws is a `TypeError` result
 * and leaves the store as it was.
 */
module ExamStore {
  import opened Js
  import opened ExamModel

  // ---------------------------------------------------------------------------
  // Metadata and styles

  /** Every key the patch carries holds the patch's value in `m`. */
  predicate MetaAgrees(m: Meta, p: MetaPatch) {
    && (p.institutionName.Some? ==> m.institutionName == p.institutionName.value)
    && (p.subject.Some? ==> m.subject == p.subject.value)
    && (p.grade.Some? ==> m.grade == p.grade.value)
    && (p.term.Some? ==> m.term == p.term.value)
    && (p.date.Some? ==> m.date == p.date.value)
    && (p.duration.Some? ==> m.duration == p.duration.value)
    && (p.totalMarks.Some? ==> m.totalMarks == p.totalMarks.value)
    && (p.instructions.Some? ==> m.instructions == p.instructions.value)
  }

  /** Every key the patch does not carry is the same in `m` as in `m0`. */
  predicate MetaKeeps(m: Meta, m0: Meta, p: MetaPatch) {
    && (p.institutionName.None? ==> m.institutionName == m0.institutionName)
    && (p.subject.None? ==> m.subject == m0.subject)
    && (p.grade.None? ==> m.grade == m0.grade)
    && (p.term.None? ==> m.term == m0.term)
    && (p.date.None? ==> m.date == m0.date)
    && (p.duration.None? ==> m.duration == m0.duration)
    && (p.totalMarks.None? ==> m.totalMarks == m0.totalMarks)
    && (p.instructions.None? ==> m.instructions == m0.instructions)
  }

  /** `updateExamMeta`: a shallow merge in which the patch's keys win. */
  function UpdateExamMeta(st: Store, p: MetaPatch): (r: Store)
    ensures MetaAgrees(r.meta, p) && MetaKeeps(r.meta, st.meta, p)
    ensures r.questions == st.questions && r.styles == st.styles && r.sections == st.sections
  {
    st.(meta := PatchMeta(st.meta, p))
  }

  /** The merge of two metadata patches, the later one winning. */
  function ThenMeta(p: MetaPatch, q: MetaPatch): MetaPatch {
    MetaPatch(
      if q.institutionName.Some? then q.institutionName else p.institutionName,
      if q.subject.Some? then q.subject else p.subject,
      if q.grade.Some? then q.grade else p.grade,
      if q.term.Some? then q.term else p.term,
      if q.date.Some? then q.date else p.date,
      if q.duration.Some? then q.duration else p.duration,
      if q.totalMarks.Some? then q.totalMarks else p.totalMarks,
      if q.instructions.Some? then q.instructions else p.instructions)
  }

  /**
   * Two metadata updates in a row are one update with the merged patch;
   * repeating an update changes nothing more, and the empty patch changes nothing.
   */
  lemma UpdateExamMetaLaws(st: Store, p: MetaPatch, q: MetaPatch)
    ensures UpdateExamMeta(UpdateExamMeta(st, p), q) == UpdateExamMeta(st, ThenMeta(p, q))
    ensures UpdateExamMeta(UpdateExamMeta(st, p), p) == UpdateExamMeta(st, p)
    ensures UpdateExamMeta(st, NoMetaKeys) == st
  {
  }

  /** Every key the patch carries holds the patch's value in `s`. */
  predicate StylesAgree(s: Styles, p: StylesPatch) {
    && (p.paperSize.Some? ==> s.paperSize == p.paperSize.value)
    && (p.orientation.Some? ==> s.orientation == p.orientation.value)
    && (p.fontFamily.Some? ==> s.fontFamily == p.fontFamily.value)
    && (p.fontSize.Some? ==> s.fontSize == p.fontSize.value)
    && (p.columns.Some? ==> s.columns == p.columns.value)
    && (p.showMarks.Some? ==> s.showMarks == p.showMarks.value)
    && (p.showLines.Some? ==> s.showLines == p.showLines.value)
  }

  /** Every key the patch does not carry is the same in `s` as in `s0`. */
  predicate StylesKeep(s: Styles, s0: Styles, p: StylesPatch) {
    && (p.paperSize.None? ==> s.paperSize == s0.paperSize)
    && (p.orientation.None? ==> s.orientation == s0.orientation)
    && (p.fontFamily.None? ==> s.fontFamily == s0.fontFamily)
    && (p.fontSize.None? ==> s.fontSize == s0.fontSize)
    && (p.columns.None? ==> s.columns == s0.columns)
    && (p.showMarks.None? ==> s.showMarks == s0.showMarks)
    && (p.showLines.None? ==> s.showLines == s0.showLines)
  }

  /** `updateStyles`: a shallow merge in which the patch's keys win. */
  function UpdateStyles(st: Store, p: StylesPatch): (r: Store)
    ensures StylesAgree(r.styles, p) && StylesKeep(r.styles, st.styles, p)
    ensures r.meta == st.meta && r.questions == st.questions && r.sections == st.sections
  {
    st.(styles := PatchStyles(st.styles, p))
  }

  /** A style update applied twice is applied once. */
  lemma UpdateStylesIdempotent(st: Store, p: StylesPatch)
    ensures UpdateStyles(UpdateStyles(st, p), p) == UpdateStyles(st, p)
  {
  }

  // ---------------------------------------------------------------------------
  // Sections

  /** The title `addSection` gives the section appended to `n` sections. */
  function NewSectionTitle(n: nat): (t: string)
    ensures |t| == 9 && t[..8] == "Section "
    ensures 65 + n < 0xD800 ==> t[8] as int == 'A' as int + n
    ensures n < 26 ==> 'A' <= t[8] <= 'Z'
  {
    "Section " + [FromCharCode(65 + n)]
  }

  /** `addSection`: one new section at the end, with empty instructions. */
  function AddSection(st: Store, freshId: string): (r: Store)
    ensures |r.sections| == |st.sections| + 1
    ensures r.sections[..|st.sections|] == st.sections
    ensures r.sections[|st.sections|] == Section(freshId, NewSectionTitle(|st.sections|), "")
    ensures r.meta == st.meta && r.questions == st.questions && r.styles == st.styles
  {
    st.(sections := st.sections + [Section(freshId, NewSectionTitle(|st.sections|), "")])
  }

  /** `updateSection`: the patch is merged into every section carrying `id`. */
  function UpdateSection(st: Store, id: string, p: SectionPatch): (r: Store)
    ensures |r.sections| == |st.sections|
    ensures forall i :: 0 <= i < |st.sections| ==>
              r.sections[i] == if st.sections[i].id == id then PatchSection(st.sections[i], p) else st.sections[i]
    ensures r.meta == st.meta && r.questions == st.questions && r.styles == st.styles
  {
    st.(sections := seq(|st.sections|, i requires 0 <= i < |st.sections| =>
      if st.sections[i].id == id then PatchSection(st.sections[i], p) else st.sections[i]))
  }

  /** Updating a section no one carries changes nothing; an update applied twice is applied once. */
  lemma UpdateSectionLaws(st: Store, id: string, p: SectionPatch)
    ensures !HasSection(st.sections, id) ==> UpdateSection(st, id, p) == st
    ensures UpdateSection(UpdateSection(st, id, p), id, p) == UpdateSection(st, id, p)
  {
    if !HasSection(st.sections, id) {
      assert UpdateSection(st, id, p).sections == st.sections;
    }
    var once := UpdateSection(st, id, p);
    assert UpdateSection(once, id, p).sections == once.sections;
  }

  /** `sections.filter(s => s.id !== id)`. */
  function RemoveSection(secs: seq<Section>, id: string): (r: seq<Section>)
    ensures |r| <= |secs|
    ensures forall s :: s in r <==> s in secs && s.id != id
  {
    if secs == [] then []
    else (if secs[0].id != id then [secs[0]] else []) + RemoveSection(secs[1..], id)
  }

  /** `sections.find(s => s.id !== id)?.id`. */
  function Fallback(secs: seq<Section>, id: string): (r: Option<string>)
    ensures r.Some? <==> exists i :: 0 <= i < |secs| && secs[i].id != id
    ensures r.Some? ==> r.value != id && HasSection(secs, r.value)
    ensures r.Some? ==> exists k :: 0 <= k < |secs| && secs[k].id == r.value && forall j :: 0 <= j < k ==> secs[j].id == id
  {
    if secs == [] then None
    else if secs[0].id != id then Some(secs[0].id)
    else
      var r := Fallback(secs[1..], id);
      assert forall i :: 0 < i < |secs| ==> secs[i] == secs[1..][i - 1];
      r
  }

  /** The rewrite `deleteSection` applies to a question of the deleted section. */
  function Reassign(q: Question, id: string, fallback: string): Question {
    if q.sectionId == Val(id) then q.(sectionId := Val(fallback)) else q
  }

  /**
   * `deleteSection`: nothing happens when at most one section exists;
   * otherwise the sections carrying `id` go, and their questions move to the
   * first section of the old list with another id, if that id is truthy.
   */
  function DeleteSection(st: Store, id: string): (r: Store)
    ensures |st.sections| <= 1 ==> r == st
    ensures |st.sections| > 1 ==> r.sections == RemoveSection(st.sections, id)
    ensures |r.questions| == |st.questions|
    ensures forall i :: 0 <= i < |r.questions| ==>
              r.questions[i].(sectionId := st.questions[i].sectionId) == st.questions[i]
    ensures forall i :: 0 <= i < |r.questions| && st.questions[i].sectionId != Val(id) ==>
              r.questions[i] == st.questions[i]
    ensures forall i :: 0 <= i < |r.questions| && st.questions[i].sectionId == Val(id) && |st.sections| > 1 ==>
              var fb := Fallback(st.sections, id);
              r.questions[i].sectionId == if Truthy(fb) then Val(fb.value) else Val(id)
    ensures r.meta == st.meta && r.styles == st.styles
  {
    if |st.sections| <= 1 then st
    else
      var fb := Fallback(st.sections, id);
      var qs := if Truthy(fb) then
          seq(|st.questions|, i requires 0 <= i < |st.questions| => Reassign(st.questions[i], id, fb.value))
        else st.questions;
      st.(sections := RemoveSection(st.sections, id), questions := qs)
  }

  /** With distinct ids, removing the section at index `k` leaves the others in order. */
  lemma {:induction false} RemoveSectionAt(secs: seq<Section>, k: nat)
    requires k < |secs|
    requires forall i :: 0 <= i < |secs| && i != k ==> secs[i].id != secs[k].id
    ensures RemoveSection(secs, secs[k].id) == secs[..k] + secs[k + 1..]
  {
    var id := secs[k].id;
    var t := secs[1..];
    if k == 0 {
      RemoveSectionNone(t, id);
      assert RemoveSection(secs, id) == [] + RemoveSection(t, id);
      assert secs[..0] + secs[1..] == t;
    } else {
      assert t[k - 1] == secs[k];
      forall i | 0 <= i < |t| && i != k - 1
        ensures t[i].id != id
      {
        assert t[i] == secs[i + 1];
      }
      RemoveSectionAt(t, k - 1);
      assert secs[0].id != id;
      assert t[..k - 1] == secs[1..k] && t[k..] == secs[k + 1..];
      calc {
        RemoveSection(secs, id);
        [secs[0]] + RemoveSection(t, id);
        [secs[0]] + (secs[1..k] + secs[k + 1..]);
        ([secs[0]] + secs[1..k]) + secs[k + 1..];
        { assert [secs[0]] + secs[1..k] == secs[..k]; }
        secs[..k] + secs[k + 1..];
      }
    }
  }

  lemma {:induction false} RemoveSectionNone(secs: seq<Section>, id: string)
    requires forall i :: 0 <= i < |secs| ==> secs[i].id != id
    ensures RemoveSection(secs, id) == secs
  {
    if secs != [] {
      RemoveSectionNone(secs[1..], id);
    }
  }

  /** The store invariant: at least one section, section ids truthy and distinct. */
  predicate Wf(st: Store) {
    |st.sections| >= 1 && UniqueSectionIds(st.sections)
  }

  /** Every question whose section id is truthy names an existing section. */
  predicate Placed(sections: seq<Section>, q: Question) {
    !TruthyKey(q.sectionId) || HasSection(sections, q.sectionId.v)
  }

  predicate NoDangling(st: Store) {
    forall i :: 0 <= i < |st.questions| ==> Placed(st.sections, st.questions[i])
  }

  /**
   * On a well-formed store, deleting an existing section removes exactly it,
   * keeps the store well-formed, and leaves no question pointing at a
   * missing section; deleting an unknown truthy id changes nothing.
   */
  lemma DeleteSectionWf(st: Store, id: string)
    requires Wf(st) && NoDangling(st)
    ensures var r := DeleteSection(st, id);
      && Wf(r) && NoDangling(r)
      && (|st.sections| > 1 && HasSection(st.sections, id) ==> |r.sections| == |st.sections| - 1)
      && (!HasSection(st.sections, id) && id != "" ==> r == st)
  {
    if |st.sections| > 1 {
      if HasSection(st.sections, id) {
        var k :| 0 <= k < |st.sections| && st.sections[k].id == id;
        DeleteExistingSections(st, k);
        DeleteExistingQuestions(st, k);
      } else {
        DeleteMissingWf(st, id);
        if id != "" {
          DeleteMissingSection(st, id);
        }
      }
    }
  }

  lemma DeleteExistingSections(st: Store, k: nat)
    requires Wf(st) && |st.sections| > 1 && k < |st.sections|
    ensures var r := DeleteSection(st, st.sections[k].id);
      && r.sections == st.sections[..k] + st.sections[k + 1..]
      && Wf(r)
  {
    var secs := st.sections;
    RemoveSectionAt(secs, k);
    RemoveAtUnique(secs, k);
  }

  /** Dropping one entry keeps section ids truthy and distinct. */
  lemma RemoveAtUnique(secs: seq<Section>, k: nat)
    requires UniqueSectionIds(secs) && k < |secs|
    ensures UniqueSectionIds(secs[..k] + secs[k + 1..])
  {
    var rest := secs[..k] + secs[k + 1..];
    forall i | 0 <= i < |rest|
      ensures rest[i] == secs[if i < k then i else i + 1]
    {
    }
  }

  lemma DeleteExistingQuestions(st: Store, k: nat)
    requires Wf(st) && NoDangling(st) && |st.sections| > 1 && k < |st.sections|
    ensures NoDangling(DeleteSection(st, st.sections[k].id))
  {
    var secs := st.sections;
    var id := secs[k].id;
    var r := DeleteSection(st, id);
    DeleteExistingSections(st, k);
    var rest := r.sections;
    var fb := Fallback(secs, id);
    assert fb.Some? by {
      if k == 0 { assert secs[1].id != id; } else { assert secs[0].id != id; }
    }
    forall i | 0 <= i < |r.questions|
      ensures Placed(r.sections, r.questions[i])
    {
      var q := st.questions[i];
      assert Placed(secs, q);
      if q.sectionId == Val(id) {
        StillPresent(secs, k, fb.value);
      } else if TruthyKey(q.sectionId) {
        StillPresent(secs, k, q.sectionId.v);
      }
    }
  }

  /** An id other than the removed one that named a section still does. */
  lemma StillPresent(secs: seq<Section>, k: nat, target: string)
    requires k < |secs| && HasSection(secs, target) && target != secs[k].id
    ensures HasSection(secs[..k] + secs[k + 1..], target)
  {
    var rest := secs[..k] + secs[k + 1..];
    var j :| 0 <= j < |secs| && secs[j].id == target;
    assert rest[if j < k then j else j - 1] == secs[j];
  }

  /** Deleting an id no section carries keeps the sections and places every question. */
  lemma DeleteMissingWf(st: Store, id: string)
    requires Wf(st) && NoDangling(st) && |st.sections| > 1 && !HasSection(st.sections, id)
    ensures DeleteSection(st, id).sections == st.sections
    ensures NoDangling(DeleteSection(st, id))
  {
    RemoveSectionNone(st.sections, id);
    var r := DeleteSection(st, id);
    var fb := Fallback(st.sections, id);
    assert st.sections[0].id != id;
    forall i | 0 <= i < |r.questions|
      ensures Placed(r.sections, r.questions[i])
    {
      assert Placed(st.sections, st.questions[i]);
    }
  }

  lemma DeleteMissingSection(st: Store, id: string)
    requires NoDangling(st) && !HasSection(st.sections, id) && id != ""
    ensures DeleteSection(st, id) == st
  {
    RemoveSectionNone(st.sections, id);
    var r := DeleteSection(st, id);
    forall i | 0 <= i < |st.questions|
      ensures r.questions[i] == st.questions[i]
    {
      assert Placed(st.sections, st.questions[i]);
    }
    assert r.questions == st.questions;
  }

  /**
   * On a well-formed store the reassignment target is the first section
   * left after the deletion.
   */
  lemma FallbackIsNewFirst(st: Store, id: string)
    requires Wf(st) && |st.sections| > 1
    ensures var r := DeleteSection(st, id);
      && |r.sections| >= 1 && Fallback(st.sections, id) == Some(r.sections[0].id)
  {
    var secs := st.sections;
    if secs[0].id != id {
      assert RemoveSection(secs, id)[0] == secs[0];
    } else {
      assert secs[1].id != id;
      RemoveSectionAt(secs, 0);
      assert Fallback(secs[1..], id) == Some(secs[1].id);
    }
  }

  /**
   * The guard counts sections, not distinct ids: two sections sharing one
   * id are both removed, leaving no section at all.
   */
  lemma DeleteSectionDuplicateIds(st: Store, s: Section)
    requires st.sections == [s, s]
    ensures DeleteSection(st, s.id).sections == []
  {
    assert st.sections[1..] == [s];
    assert [s][1..] == [];
    assert RemoveSection([s], s.id) == [];
    assert RemoveSection([s, s], s.id) == RemoveSection([s], s.id);
  }

  /** Deleting a section just added with an unused id restores the store. */
  lemma AddThenDeleteSection(st: Store, freshId: string)
    requires |st.sections| >= 1
    requires !HasSection(st.sections, freshId)
    requires forall i :: 0 <= i < |st.questions| ==> st.questions[i].sectionId != Val(freshId)
    ensures DeleteSection(AddSection(st, freshId), freshId) == st
  {
    var added := AddSection(st, freshId);
    var secs := added.sections;
    var k := |st.sections|;
    forall i | 0 <= i < |secs| && i != k
      ensures secs[i].id != secs[k].id
    {
      assert secs[i] == st.sections[i];
    }
    RemoveSectionAt(secs, k);
    assert secs[..k] == st.sections;
    var r := DeleteSection(added, freshId);
    assert r.questions == st.questions by {
      forall i | 0 <= i < |st.questions|
        ensures r.questions[i] == st.questions[i]
      {
      }
    }
  }

  /** Adding a section with a truthy unused id keeps the store well-formed. */
  /** A fresh truthy id keeps the section ids non-empty and distinct, whatever the questions hold. */
  lemma AddSectionKeepsWf(st: Store, freshId: string)
    requires Wf(st)
    requires freshId != "" && !HasSection(st.sections, freshId)
    ensures Wf(AddSection(st, freshId))
  {
    var r := AddSection(st, freshId);
    forall i, j | 0 <= i < j < |r.sections|
      ensures r.sections[i].id != r.sections[j].id
    {
      if j == |st.sections| {
        assert r.sections[i] == st.sections[i];
      }
    }
  }

  lemma AddSectionWf(st: Store, freshId: string)
    requires Wf(st) && NoDangling(st)
    requires freshId != "" && !HasSection(st.sections, freshId)
    ensures Wf(AddSection(st, freshId)) && NoDangling(AddSection(st, freshId))
  {
    var r := AddSection(st, freshId);
    forall i | 0 <= i < |st.questions|
      ensures Placed(r.sections, r.questions[i])
    {
      assert Placed(st.sections, st.questions[i]);
      if TruthyKey(st.questions[i].sectionId) {
        var j :| 0 <= j < |st.sections| && st.sections[j].id == st.questions[i].sectionId.v;
        assert r.sections[j] == st.sections[j];
      }
    }
  }

  /** Renaming a section or editing its instructions keeps the store well-formed. */
  lemma UpdateSectionWf(st: Store, id: string, p: SectionPatch)
    requires Wf(st) && NoDangling(st) && p.id.None?
    ensures Wf(UpdateSection(st, id, p)) && NoDangling(UpdateSection(st, id, p))
  {
    var r := UpdateSection(st, id, p);
    assert forall i :: 0 <= i < |r.sections| ==> r.sections[i].id == st.sections[i].id;
    forall i | 0 <= i < |st.questions|
      ensures Placed(r.sections, r.questions[i])
    {
      assert Placed(st.sections, st.questions[i]);
      if TruthyKey(st.questions[i].sectionId) {
        var j :| 0 <= j < |st.sections| && st.sections[j].id == st.questions[i].sectionId.v;
        assert r.sections[j].id == st.sections[j].id;
      }
    }
  }

  // ---------------------------------------------------------------------------
  // Questions

  /** The question `addQuestion` builds: generated keys first, the caller's keys over them. */
  function Created(question: Question, target: string, freshId: string, now: int): (q: Question)
    ensures q.id == (if question.id.Absent? then Val(freshId) else question.id)
    ensures q.timestamp == (if question.timestamp.Absent? then Val(now) else question.timestamp)
    ensures q.sectionId == (if question.sectionId.Absent? then Val(target) else question.sectionId)
    ensures q.kind == question.kind && q.questionText == question.questionText && q.marks == question.marks
    ensures q.difficulty == question.difficulty && q.options == question.options
  {
    Spread(NoKeys.(id := Val(freshId), timestamp := Val(now), sectionId := Val(target)), question)
  }

  /**
   * `addQuestion`: the target section is the argument when truthy, else the
   * first section's id; with no sections that read throws.
   */
  function AddQuestion(st: Store, question: Question, sectionId: Option<string>, freshId: string, now: int): (r: Result<Store>)
    ensures r.TypeError? <==> !Truthy(sectionId) && |st.sections| == 0
    ensures r.Ok? ==>
      && |r.value.questions| == |st.questions| + 1
      && r.value.questions[..|st.questions|] == st.questions
      && r.value.questions[|st.questions|]
         == Created(question, if Truthy(sectionId) then sectionId.value else st.sections[0].id, freshId, now)
      && r.value.meta == st.meta && r.value.styles == st.styles && r.value.sections == st.sections
  {
    if !Truthy(sectionId) && |st.sections| == 0 then TypeError
    else
      var target := if Truthy(sectionId) then sectionId.value else st.sections[0].id;
      Ok(st.(questions := st.questions + [Created(question, target, freshId, now)]))
  }

  /** `q.id === id`, where `id` may be `undefined`. */
  predicate IdIs(q: Question, id: Option<string>) {
    q.id.Read() == id
  }

  /** `updateQuestion`: the patch is spread into every question whose id is `id`. */
  function UpdateQuestion(st: Store, id: Option<string>, patch: Question): (r: Store)
    ensures |r.questions| == |st.questions|
    ensures forall i :: 0 <= i < |st.questions| && !IdIs(st.questions[i], id) ==> r.questions[i] == st.questions[i]
    ensures forall i :: 0 <= i < |st.questions| && IdIs(st.questions[i], id) ==>
              r.questions[i] == Spread(st.questions[i], patch)
    ensures r.meta == st.meta && r.styles == st.styles && r.sections == st.sections
  {
    st.(questions := seq(|st.questions|, i requires 0 <= i < |st.questions| =>
      if IdIs(st.questions[i], id) then Spread(st.questions[i], patch) else st.questions[i]))
  }

  /** Spreading the same patch twice is spreading it once. */
  lemma SpreadIdempotent(q: Question, p: Question)
    ensures Spread(Spread(q, p), p) == Spread(q, p)
  {
  }

  /** Updating an id no question carries changes nothing; an update applied twice is applied once. */
  lemma UpdateQuestionLaws(st: Store, id: Option<string>, patch: Question)
    ensures (forall i :: 0 <= i < |st.questions| ==> !IdIs(st.questions[i], id)) ==> UpdateQuestion(st, id, patch) == st
    ensures UpdateQuestion(UpdateQuestion(st, id, patch), id, patch) == UpdateQuestion(st, id, patch)
  {
    if forall i :: 0 <= i < |st.questions| ==> !IdIs(st.questions[i], id) {
      assert UpdateQuestion(st, id, patch).questions == st.questions;
    }
    var once := UpdateQuestion(st, id, patch);
    var twice := UpdateQuestion(once, id, patch);
    forall i | 0 <= i < |st.questions|
      ensures twice.questions[i] == once.questions[i]
    {
      if IdIs(st.questions[i], id) {
        SpreadIdempotent(st.questions[i], patch);
      }
    }
    assert twice.questions == once.questions;
  }

  /** `questions.filter(q => q.id !== id)`. */
  function RemoveQuestion(qs: seq<Question>, id: Option<string>): (r: seq<Question>)
    ensures |r| <= |qs|
    ensures forall q :: q in r <==> q in qs && !IdIs(q, id)
  {
    if qs == [] then []
    else (if !IdIs(qs[0], id) then [qs[0]] else []) + RemoveQuestion(qs[1..], id)
  }

  /** Removing distributes over concatenation, so the survivors keep their order. */
  lemma {:induction false} RemoveQuestionAppend(a: seq<Question>, b: seq<Question>, id: Option<string>)
    ensures RemoveQuestion(a + b, id) == RemoveQuestion(a, id) + RemoveQuestion(b, id)
  {
    if a == [] {
      assert a + b == b;
    } else {
      assert (a + b)[0] == a[0];
      assert (a + b)[1..] == a[1..] + b;
      RemoveQuestionAppend(a[1..], b, id);
    }
  }

  lemma {:induction false} RemoveQuestionNone(qs: seq<Question>, id: Option<string>)
    requires forall i :: 0 <= i < |qs| ==> !IdIs(qs[i], id)
    ensures RemoveQuestion(qs, id) == qs
  {
    if qs != [] {
      RemoveQuestionNone(qs[1..], id);
    }
  }

  /** `deleteQuestion`: every question carrying `id` goes; sections, meta and styles stay. */
  function DeleteQuestion(st: Store, id: Option<string>): (r: Store)
    ensures r.questions == RemoveQuestion(st.questions, id)
    ensures r.meta == st.meta && r.styles == st.styles && r.sections == st.sections
  {
    st.(questions := RemoveQuestion(st.questions, id))
  }

  /** Deleting a question just added under an unused id restores the store. */
  lemma AddThenDeleteQuestion(st: Store, question: Question, sectionId: Option<string>, freshId: string, now: int)
    requires question.id.Absent?
    requires forall i :: 0 <= i < |st.questions| ==> !IdIs(st.questions[i], Some(freshId))
    requires AddQuestion(st, question, sectionId, freshId, now).Ok?
    ensures DeleteQuestion(AddQuestion(st, question, sectionId, freshId, now).value, Some(freshId)) == st
  {
    var added := AddQuestion(st, question, sectionId, freshId, now).value;
    var n := |st.questions|;
    assert added.questions == st.questions + [added.questions[n]];
    RemoveQuestionAppend(st.questions, [added.questions[n]], Some(freshId));
    RemoveQuestionNone(st.questions, Some(freshId));
    assert [added.questions[n]][1..] == [];
  }

  /**
   * `deleteQuestion(undefined)` - what the delete button of a copy sends -
   * removes every question whose id is missing or undefined, not just one.
   */
  lemma DeleteUndefinedIdRemovesAll(st: Store)
    ensures forall q :: q in DeleteQuestion(st, None).questions ==> q.id.Val?
    ensures forall q :: q in st.questions && q.id.Val? ==> q in DeleteQuestion(st, None).questions
  {
  }

  /** The index of the first question whose id is `id`, as `find` scans. */
  function FindQuestion(qs: seq<Question>, id: Option<string>): (r: Option<nat>)
    ensures r.Some? ==> r.value < |qs| && IdIs(qs[r.value], id)
                        && forall j :: 0 <= j < r.value ==> !IdIs(qs[j], id)
    ensures r.None? ==> forall j :: 0 <= j < |qs| ==> !IdIs(qs[j], id)
  {
    if qs == [] then None
    else if IdIs(qs[0], id) then Some(0)
    else
      match FindQuestion(qs[1..], id)
      case None => None
      case Some(k) => Some(k + 1)
  }

  /** `{ ...q, id: undefined }` */
  function WithoutId(q: Question): Question {
    Spread(q, NoKeys.(id := Undefined))
  }

  /**
   * `duplicateQuestion`: nothing when no question carries `id`; otherwise
   * `addQuestion` on the first such question with its id set to
   * `undefined`, passing its section id along.
   */
  function DuplicateQuestion(st: Store, id: Option<string>, freshId: string, now: int): (r: Result<Store>)
    ensures FindQuestion(st.questions, id).None? ==> r == Ok(st)
    ensures FindQuestion(st.questions, id).Some? ==>
      var q := st.questions[FindQuestion(st.questions, id).value];
      r == AddQuestion(st, WithoutId(q), q.sectionId.Read(), freshId, now)
  {
    match FindQuestion(st.questions, id)
    case None => Ok(st)
    case Some(k) =>
      var q := st.questions[k];
      AddQuestion(st, WithoutId(q), q.sectionId.Read(), freshId, now)
  }

  /**
   * A copy made of a complete question ends the list, carries an
   * `undefined` id, and agrees with the original on every other key,
   * including its timestamp and section.
   */
  lemma DuplicateCopy(st: Store, id: Option<string>, freshId: string, now: int)
    requires |st.sections| >= 1
    requires FindQuestion(st.questions, id).Some?
    ensures DuplicateQuestion(st, id, freshId, now).Ok?
    ensures var r := DuplicateQuestion(st, id, freshId, now).value;
      var q := st.questions[FindQuestion(st.questions, id).value];
      && |r.questions| == |st.questions| + 1
      && r.questions[..|st.questions|] == st.questions
      && r.questions[|st.questions|].id == Undefined
      && (Complete(q) ==> r.questions[|st.questions|] == q.(id := Undefined))
  {
  }

  /** The store lifts into a copy's section: its section id is kept, or is the first section's when falsy and missing. */
  lemma DuplicateSection(st: Store, id: Option<string>, freshId: string, now: int)
    requires |st.sections| >= 1
    requires FindQuestion(st.questions, id).Some?
    ensures var r := DuplicateQuestion(st, id, freshId, now).value;
      var q := st.questions[FindQuestion(st.questions, id).value];
      r.questions[|st.questions|].sectionId == if q.sectionId.Absent? then Val(st.sections[0].id) else q.sectionId
  {
  }

  /**
   * When every question has a real id, deleting by the undefined id right
   * after a duplication removes exactly the copy.
   */
  lemma DuplicateThenDeleteUndefined(st: Store, id: Option<string>, freshId: string, now: int)
    requires |st.sections| >= 1
    requires forall i :: 0 <= i < |st.questions| ==> st.questions[i].id.Val?
    ensures DeleteQuestion(DuplicateQuestion(st, id, freshId, now).value, None) == st
  {
    RemoveQuestionNone(st.questions, None);
    match FindQuestion(st.questions, id)
    case None =>
    case Some(k) =>
      var r := DuplicateQuestion(st, id, freshId, now).value;
      var n := |st.questions|;
      assert r.questions == st.questions + [r.questions[n]];
      RemoveQuestionAppend(st.questions, [r.questions[n]], None);
      assert [r.questions[n]][1..] == [];
  }

  /** `reorderQuestions`: the list is replaced by the new order as given. */
  function ReorderQuestions(st: Store, newOrder: seq<Question>): (r: Store)
    ensures r.questions == newOrder
    ensures r.meta == st.meta && r.styles == st.styles && r.sections == st.sections
  {
    st.(questions := newOrder)
  }

  /** `resetExam`: with the user's confirmation, every record returns to its default. */
  function ResetExam(st: Store, confirmed: bool, today: string): (r: Store)
    ensures confirmed ==> Wf(r) && r.questions == [] && r.sections == [DefaultSection]
    ensures confirmed ==> r.styles == DefaultStyles && r.meta == DefaultMeta(today)
    ensures !confirmed ==> r == st
  {
    if confirmed then DefaultStore(today) else st
  }

  // ---------------------------------------------------------------------------
  // Total marks

  /** `Number(q.marks) || 0`: a numeric marks value, else 0. */
  function MarkValue(q: Question): (m: int)
    ensures q.marks.Val? && q.marks.v.Num? ==> m == q.marks.v.n
    ensures !(q.marks.Val? && q.marks.v.Num?) ==> m == 0
  {
    if q.marks.Val? && q.marks.v.Num? then q.marks.v.n else 0
  }

  /**
   * `currentTotalMarks`: the sum of the mark values. `reduce` adds from the
   * left; integer addition is associative, so the sum is written from the front.
   */
  function TotalMarks(qs: seq<Question>): int {
    if qs == [] then 0 else MarkValue(qs[0]) + TotalMarks(qs[1..])
  }

  lemma {:induction false} TotalMarksAppend(a: seq<Question>, b: seq<Question>)
    ensures TotalMarks(a + b) == TotalMarks(a) + TotalMarks(b)
  {
    if a == [] {
      assert a + b == b;
    } else {
      assert (a + b)[1..] == a[1..] + b;
      TotalMarksAppend(a[1..], b);
    }
  }

  /** The `reduce` loop, accumulating from the left. */
  method ComputeTotalMarks(qs: seq<Question>) returns (sum: int)
    ensures sum == TotalMarks(qs)
  {
    sum := 0;
    var i := 0;
    while i < |qs|
      invariant 0 <= i <= |qs|
      invariant sum == TotalMarks(qs[..i])
    {
      TotalMarksAppend(qs[..i], [qs[i]]);
      assert qs[..i + 1] == qs[..i] + [qs[i]];
      sum := sum + MarkValue(qs[i]);
      i := i + 1;
    }
    assert qs[..i] == qs;
  }

  /** Taking out the question at `k` takes its marks out of the total. */
  lemma {:induction false} TotalMarksWithout(b: seq<Question>, k: nat)
    requires k < |b|
    ensures TotalMarks(b) == MarkValue(b[k]) + TotalMarks(b[..k] + b[k + 1..])
  {
    if k == 0 {
      assert b[..0] + b[1..] == b[1..];
    } else {
      var t := b[1..];
      var inner := t[..k - 1] + t[k..];
      TotalMarksWithout(t, k - 1);
      var r := b[..k] + b[k + 1..];
      assert r == [b[0]] + inner;
      assert r[0] == b[0] && r[1..] == inner;
    }
  }

  /** Splitting a sequence at `k` splits its multiset. */
  lemma MultisetSplit(b: seq<Question>, k: nat)
    requires k < |b|
    ensures multiset(b) == multiset(b[..k] + b[k + 1..]) + multiset{b[k]}
  {
    var p, t := b[..k], b[k + 1..];
    assert b == p + ([b[k]] + t);
    assert multiset(b) == multiset(p) + (multiset{b[k]} + multiset(t));
    assert multiset(p + t) == multiset(p) + multiset(t);
  }

  /** A position holding `x`, for an `x` that occurs in `b`. */
  lemma PositionOf(b: seq<Question>, x: Question) returns (k: nat)
    requires x in multiset(b)
    ensures k < |b| && b[k] == x
  {
    assert x in b;
    k :| 0 <= k < |b| && b[k] == x;
  }

  lemma EmptyMultiset(b: seq<Question>)
    requires multiset(b) == multiset{}
    ensures b == []
  {
    assert |b| == |multiset(b)|;
  }

  /** Taking the first element off one side and a copy of it off the other keeps a permutation. */
  lemma PermutationTail(a: seq<Question>, b: seq<Question>, k: nat)
    requires multiset(a) == multiset(b) && a != [] && k < |b| && b[k] == a[0]
    ensures multiset(a[1..]) == multiset(b[..k] + b[k + 1..])
  {
    MultisetSplit(b, k);
    MultisetSplit(a, 0);
    assert a[..0] + a[1..] == a[1..];
    MultisetCancel(multiset(a[1..]), multiset(b[..k] + b[k + 1..]), a[0]);
  }

  lemma MultisetCancel(x: multiset<Question>, y: multiset<Question>, e: Question)
    requires x + multiset{e} == y + multiset{e}
    ensures x == y
  {
    forall z
      ensures x[z] == y[z]
    {
      assert (x + multiset{e})[z] == (y + multiset{e})[z];
    }
  }

  /** The total does not depend on the order of the questions. */
  lemma {:induction false} TotalMarksPermutation(a: seq<Question>, b: seq<Question>)
    requires multiset(a) == multiset(b)
    ensures TotalMarks(a) == TotalMarks(b)
    decreases |a|
  {
    if a == [] {
      EmptyMultiset(b);
    } else {
      var k := PositionOf(b, a[0]);
      PermutationTail(a, b, k);
      TotalMarksPermutation(a[1..], b[..k] + b[k + 1..]);
      TotalMarksWithout(b, k);
    }
  }

  /** Adding a question raises the total by its marks; reordering keeps the total. */
  lemma TotalMarksAfter(st: Store, question: Question, sectionId: Option<string>, freshId: string, now: int, newOrder: seq<Question>)
    requires multiset(newOrder) == multiset(st.questions)
    ensures var r := AddQuestion(st, question, sectionId, freshId, now);
      r.Ok? ==> TotalMarks(r.value.questions) == TotalMarks(st.questions) + MarkValue(question)
    ensures TotalMarks(ReorderQuestions(st, newOrder).questions) == TotalMarks(st.questions)
  {
    var r := AddQuestion(st, question, sectionId, freshId, now);
    if r.Ok? {
      var n := |st.questions|;
      assert r.value.questions == st.questions + [r.value.questions[n]];
      TotalMarksAppend(st.questions, [r.value.questions[n]]);
    }
    TotalMarksPermutation(newOrder, st.questions);
  }
}
