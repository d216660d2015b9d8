/**
 * The basic-information step (`Step1BasicInfo`): each input writes its raw
 * value into the metadata, and the instruction list is edited entry by entry.
 */
module BasicInfo {
  import opened Js
  import opened ExamModel
  import opened ExamStore

  /** The inputs that carry a `name` attribute. */
  datatype MetaField = InstitutionName | Subject | Grade | Date | Duration | TotalMarks

  /** The value held under `f`, as the store keeps it. */
  function Get(m: Meta, f: MetaField): Scalar {
    match f
    case InstitutionName => Text(m.institutionName)
    case Subject => Text(m.subject)
    case Grade => Text(m.grade)
    case Date => Text(m.date)
    case Duration => m.duration
    case TotalMarks => m.totalMarks
  }

  /** `{ [name]: value }` */
  function FieldPatch(f: MetaField, value: string): MetaPatch {
    match f
    case InstitutionName => NoMetaKeys.(institutionName := Some(value))
    case Subject => NoMetaKeys.(subject := Some(value))
    case Grade => NoMetaKeys.(grade := Some(value))
    case Date => NoMetaKeys.(date := Some(value))
    case Duration => NoMetaKeys.(duration := Some(Text(value)))
    case TotalMarks => NoMetaKeys.(totalMarks := Some(Text(value)))
  }

  /**
   * `handleChange`: the named field takes the input's text as is - the
   * numeric fields too, which hold text afterwards - and nothing else changes.
   */
  function HandleChange(st: Store, f: MetaField, value: string): (r: Store)
    ensures Get(r.meta, f) == Text(value)
    ensures forall g :: g != f ==> Get(r.meta, g) == Get(st.meta, g)
    ensures r.meta.term == st.meta.term && r.meta.instructions == st.meta.instructions
    ensures r.questions == st.questions && r.styles == st.styles && r.sections == st.sections
  {
    UpdateExamMeta(st, FieldPatch(f, value))
  }

  /** The last write to a field wins, and writes to different fields commute. */
  lemma HandleChangeLaws(st: Store, f: MetaField, g: MetaField, a: string, b: string)
    ensures HandleChange(HandleChange(st, f, a), f, b) == HandleChange(st, f, b)
    ensures f != g ==> HandleChange(HandleChange(st, f, a), g, b) == HandleChange(HandleChange(st, g, b), f, a)
  {
  }

  /** `handleInstructionChange`: entry `i` takes the new text. */
  function HandleInstructionChange(st: Store, i: nat, value: string): (r: Store)
    requires i < |st.meta.instructions|
    ensures |r.meta.instructions| == |st.meta.instructions|
    ensures r.meta.instructions[i] == value
    ensures forall j :: 0 <= j < |st.meta.instructions| && j != i ==> r.meta.instructions[j] == st.meta.instructions[j]
    ensures r.meta == st.meta.(instructions := r.meta.instructions)
    ensures r.questions == st.questions && r.styles == st.styles && r.sections == st.sections
  {
    UpdateExamMeta(st, NoMetaKeys.(instructions := Some(st.meta.instructions[i := value])))
  }

  /** Writing an entry's old text back restores the store. */
  lemma InstructionChangeUndo(st: Store, i: nat, value: string)
    requires i < |st.meta.instructions|
    ensures HandleInstructionChange(HandleInstructionChange(st, i, value), i, st.meta.instructions[i]) == st
  {
    var r := HandleInstructionChange(HandleInstructionChange(st, i, value), i, st.meta.instructions[i]);
    assert r.meta.instructions == st.meta.instructions;
  }

  /** `addInstruction`: a blank entry at the end. */
  function AddInstruction(st: Store): (r: Store)
    ensures |r.meta.instructions| == |st.meta.instructions| + 1
    ensures r.meta.instructions[..|st.meta.instructions|] == st.meta.instructions
    ensures r.meta.instructions[|st.meta.instructions|] == ""
    ensures r.meta == st.meta.(instructions := r.meta.instructions)
    ensures r.questions == st.questions && r.styles == st.styles && r.sections == st.sections
  {
    UpdateExamMeta(st, NoMetaKeys.(instructions := Some(st.meta.instructions + [""])))
  }

  /** `list.filter((_, j) => j !== i)`, written position by position. */
  function DropIndex(s: seq<string>, i: int): (r: seq<string>)
    ensures 0 <= i < |s| ==> |r| == |s| - 1
    ensures !(0 <= i < |s|) ==> r == s
  {
    if s == [] then []
    else (if i == 0 then [] else [s[0]]) + DropIndex(s[1..], i - 1)
  }

  /** Removing position `i` keeps every other entry, in order. */
  lemma {:induction false} DropIndexSlices(s: seq<string>, i: int)
    requires 0 <= i < |s|
    ensures DropIndex(s, i) == s[..i] + s[i + 1..]
  {
    if i == 0 {
      assert DropIndex(s, 0) == [] + DropIndex(s[1..], -1);
      assert s[..0] + s[1..] == s[1..];
    } else {
      var t := s[1..];
      DropIndexSlices(t, i - 1);
      assert DropIndex(s, i) == [s[0]] + DropIndex(t, i - 1);
      assert t[..i - 1] == s[1..i] && t[i..] == s[i + 1..];
      assert [s[0]] + s[1..i] == s[..i];
      assert [s[0]] + (s[1..i] + s[i + 1..]) == ([s[0]] + s[1..i]) + s[i + 1..];
    }
  }

  /** `removeInstruction`: entry `i` goes; an index outside the list changes nothing. */
  function RemoveInstruction(st: Store, i: int): (r: Store)
    ensures r.meta == st.meta.(instructions := DropIndex(st.meta.instructions, i))
    ensures r.questions == st.questions && r.styles == st.styles && r.sections == st.sections
  {
    UpdateExamMeta(st, NoMetaKeys.(instructions := Some(DropIndex(st.meta.instructions, i))))
  }

  /** Removing the entry just added restores the store. */
  lemma AddThenRemoveInstruction(st: Store)
    ensures RemoveInstruction(AddInstruction(st), |st.meta.instructions|) == st
  {
    var ins := st.meta.instructions;
    DropIndexSlices(ins + [""], |ins|);
    assert (ins + [""])[..|ins|] == ins;
  }

  /** The remove buttons are enabled only while more than one entry is left. */
  predicate RemoveEnabled(m: Meta) {
    |m.instructions| > 1
  }

  /** The edits the instruction card offers. */
  datatype InstructionEdit = Change(index: nat, value: string) | Append | Remove(index: nat)

  /** One click on the card: a disabled button or a missing row does nothing. */
  function ApplyEdit(st: Store, e: InstructionEdit): Store {
    match e
    case Change(i, v) => if i < |st.meta.instructions| then HandleInstructionChange(st, i, v) else st
    case Append => AddInstruction(st)
    case Remove(i) => if RemoveEnabled(st.meta) && i < |st.meta.instructions| then RemoveInstruction(st, i) else st
  }

  function ApplyEdits(st: Store, es: seq<InstructionEdit>): Store
    decreases |es|
  {
    if es == [] then st else ApplyEdits(ApplyEdit(st, es[0]), es[1..])
  }

  /** Starting from a non-empty list, no sequence of clicks empties it. */
  lemma {:induction false} EditsKeepOneInstruction(st: Store, es: seq<InstructionEdit>)
    requires |st.meta.instructions| >= 1
    ensures |ApplyEdits(st, es).meta.instructions| >= 1
    decreases |es|
  {
    if es != [] {
      var next := ApplyEdit(st, es[0]);
      assert |next.meta.instructions| >= 1;
      EditsKeepOneInstruction(next, es[1..]);
    }
  }
}
