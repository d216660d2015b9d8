/**
 * The four records the exam store keeps (metadata, questions, styles,
 * sections), their merge patches, and the defaults the store starts from.
 */
module ExamModel {
  import opened Js

  datatype QuestionType = Short | Long | Mcq

  datatype Difficulty = Easy | Medium | Hard

  /** A stored marks value: a number, or anything `Number()` turns into NaN. */
  datatype Marks = Num(n: int) | NotANumber

  /** A metadata field that starts as a number and holds the raw input text once edited. */
  datatype Scalar = Number(n: int) | Text(s: string)

  /**
   * A question object. The same shape serves as stored question, as the
   * editor's form data and as an update patch: every key may be missing.
   */
  datatype Question = Question(
    id: Slot<string>,
    timestamp: Slot<int>,
    sectionId: Slot<string>,
    kind: Slot<QuestionType>,
    questionText: Slot<string>,
    marks: Slot<Marks>,
    difficulty: Slot<Difficulty>,
    options: Slot<seq<string>>)

  /** The empty object `{}`. */
  const NoKeys: Question :=
    Question(Absent, Absent, Absent, Absent, Absent, Absent, Absent, Absent)

  /** `{...a, ...b}` on question objects. */
  function Spread(a: Question, b: Question): Question {
    Question(
      SpreadKey(a.id, b.id),
      SpreadKey(a.timestamp, b.timestamp),
      SpreadKey(a.sectionId, b.sectionId),
      SpreadKey(a.kind, b.kind),
      SpreadKey(a.questionText, b.questionText),
      SpreadKey(a.marks, b.marks),
      SpreadKey(a.difficulty, b.difficulty),
      SpreadKey(a.options, b.options))
  }

  /** A question object in which every key is present. */
  predicate Complete(q: Question) {
    && !q.id.Absent? && !q.timestamp.Absent? && !q.sectionId.Absent? && !q.kind.Absent?
    && !q.questionText.Absent? && !q.marks.Absent? && !q.difficulty.Absent? && !q.options.Absent?
  }

  datatype Section = Section(id: string, title: string, instructions: string)

  /** A section update: `None` leaves the key as it is. */
  datatype SectionPatch = SectionPatch(id: Option<string>, title: Option<string>, instructions: Option<string>)

  function PatchSection(s: Section, p: SectionPatch): Section {
    Section(PatchKey(s.id, p.id), PatchKey(s.title, p.title), PatchKey(s.instructions, p.instructions))
  }

  datatype Meta = Meta(
    institutionName: string,
    subject: string,
    grade: string,
    term: string,
    date: string,
    duration: Scalar,
    totalMarks: Scalar,
    instructions: seq<string>)

  datatype MetaPatch = MetaPatch(
    institutionName: Option<string>,
    subject: Option<string>,
    grade: Option<string>,
    term: Option<string>,
    date: Option<string>,
    duration: Option<Scalar>,
    totalMarks: Option<Scalar>,
    instructions: Option<seq<string>>)

  const NoMetaKeys: MetaPatch := MetaPatch(None, None, None, None, None, None, None, None)

  /** `{...meta, ...patch}` */
  function PatchMeta(m: Meta, p: MetaPatch): Meta {
    Meta(
      PatchKey(m.institutionName, p.institutionName),
      PatchKey(m.subject, p.subject),
      PatchKey(m.grade, p.grade),
      PatchKey(m.term, p.term),
      PatchKey(m.date, p.date),
      PatchKey(m.duration, p.duration),
      PatchKey(m.totalMarks, p.totalMarks),
      PatchKey(m.instructions, p.instructions))
  }

  datatype Styles = Styles(
    paperSize: string,
    orientation: string,
    fontFamily: string,
    fontSize: string,
    columns: int,
    showMarks: bool,
    showLines: bool)

  datatype StylesPatch = StylesPatch(
    paperSize: Option<string>,
    orientation: Option<string>,
    fontFamily: Option<string>,
    fontSize: Option<string>,
    columns: Option<int>,
    showMarks: Option<bool>,
    showLines: Option<bool>)

  /** `{...styles, ...patch}` */
  function PatchStyles(s: Styles, p: StylesPatch): Styles {
    Styles(
      PatchKey(s.paperSize, p.paperSize),
      PatchKey(s.orientation, p.orientation),
      PatchKey(s.fontFamily, p.fontFamily),
      PatchKey(s.fontSize, p.fontSize),
      PatchKey(s.columns, p.columns),
      PatchKey(s.showMarks, p.showMarks),
      PatchKey(s.showLines, p.showLines))
  }

  /** The four records, each persisted under its own key. */
  datatype Store = Store(meta: Meta, questions: seq<Question>, styles: Styles, sections: seq<Section>)

  /** The default metadata; `today` is the ISO date computed when the module loads. */
  function DefaultMeta(today: string): Meta {
    Meta("", "", "", "", today, Number(60), Number(100),
         ["All questions are compulsory.", "Read questions carefully before answering."])
  }

  const DefaultStyles: Styles := Styles("A4", "portrait", "Times New Roman", "12", 1, true, true)

  const DefaultSection: Section := Section("default", "Section A", "Attempt all questions in this section.")

  function DefaultStore(today: string): Store {
    Store(DefaultMeta(today), [], DefaultStyles, [DefaultSection])
  }

  /** Section ids are non-empty and pairwise distinct. */
  predicate UniqueSectionIds(sections: seq<Section>) {
    && (forall i :: 0 <= i < |sections| ==> sections[i].id != "")
    && (forall i, j :: 0 <= i < j < |sections| ==> sections[i].id != sections[j].id)
  }

  /** Some section carries the id `id`. */
  predicate HasSection(sections: seq<Section>, id: string) {
    exists i :: 0 <= i < |sections| && sections[i].id == id
  }
}
