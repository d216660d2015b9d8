/**
 * The exam paper as an ordered sequence of abstract blocks: the pure part of
 * `PDFDocument` and `QuestionItem`. Page geometry, fonts and the physical page
 * breaking belong to the PDF renderer; the footer is a token the renderer
 * resolves to "Page N of T" once the pages are known.
 */
module Composer {
  import opened Js
  import opened ExamModel
  import opened Partition

  datatype OptionRow = OptionRow(letter: char, text: string)

  /** An instruction as printed: its number is its position in the full list, plus one. */
  datatype InstructionLine = InstructionLine(number: nat, text: string)

  datatype Block =
    | Header(institution: string, details: string, term: string)
    | MetaRow(duration: Scalar, date: string, totalMarks: Scalar)
    | StudentFields
    | Instructions(lines: seq<InstructionLine>)
    | SectionHeader(title: string)
    | SectionNote(text: string)
      /** `marks` holds the raw marks value when the marks column is shown; `unbreakable` is `wrap={false}`. */
    | QuestionRow(number: nat, text: string, options: seq<OptionRow>, answerSpace: bool,
                  marks: Option<Slot<Marks>>, unbreakable: bool)
    | Footer

  datatype Document = Document(pageSize: string, blocks: seq<Block>)

  /** Header: institution name, subject and grade, and the term line (each with its placeholder). */
  function HeaderBlock(m: Meta): Block {
    Header(
      if m.institutionName != "" then m.institutionName else "INSTITUTION NAME",
      (if m.subject != "" then m.subject else "SUBJECT") + (if m.grade != "" then " | " + m.grade else ""),
      m.term)
  }

  function MetaRowBlock(m: Meta): Block {
    MetaRow(m.duration, m.date, m.totalMarks)
  }

  /** The printed lines for the entries `ins[from..]`: blank entries are skipped and the others keep their numbers. */
  function InstructionLines(ins: seq<string>, from: nat): (r: seq<InstructionLine>)
    requires from <= |ins|
    ensures forall j :: 0 <= j < |r| ==>
              from < r[j].number <= |ins| && r[j].text == ins[r[j].number - 1] && r[j].text != ""
    ensures forall j, k :: 0 <= j < k < |r| ==> r[j].number < r[k].number
    decreases |ins| - from
  {
    if from == |ins| then []
    else
      var rest := InstructionLines(ins, from + 1);
      if ins[from] != "" then [InstructionLine(from + 1, ins[from])] + rest else rest
  }

  /** No non-blank instruction is dropped: entry `i` is printed with the number `i + 1`. */
  lemma {:induction false} InstructionLinesComplete(ins: seq<string>, from: nat, i: nat)
    requires from <= i < |ins| && ins[i] != ""
    ensures exists j :: 0 <= j < |InstructionLines(ins, from)| && InstructionLines(ins, from)[j] == InstructionLine(i + 1, ins[i])
    decreases i - from
  {
    var r := InstructionLines(ins, from);
    var rest := InstructionLines(ins, from + 1);
    if i == from {
      assert r == [InstructionLine(i + 1, ins[i])] + rest;
      assert r[0] == InstructionLine(i + 1, ins[i]);
    } else {
      InstructionLinesComplete(ins, from + 1, i);
      var j :| 0 <= j < |rest| && rest[j] == InstructionLine(i + 1, ins[i]);
      if ins[from] != "" {
        assert r == [InstructionLine(from + 1, ins[from])] + rest;
        assert r[j + 1] == rest[j];
      } else {
        assert r == rest;
      }
    }
  }

  /** The instructions block: shown only when the list is non-empty and its first entry is not blank. */
  function InstructionsPart(ins: seq<string>): (r: seq<Block>)
    ensures |r| <= 1
    ensures |r| == 1 <==> |ins| > 0 && ins[0] != ""
    ensures |r| == 1 ==> r[0].Instructions? && r[0].lines == InstructionLines(ins, 0)
  {
    if |ins| > 0 && ins[0] != "" then [Instructions(InstructionLines(ins, 0))] else []
  }

  /** `(a)`, `(b)`, ... computed from the position alone. */
  function OptionRows(opts: seq<string>): seq<OptionRow> {
    seq(|opts|, i requires 0 <= i < |opts| => OptionRow(FromCharCode(97 + i), opts[i]))
  }

  /** `QuestionItem` for the question `q` at zero-based document position `index`. */
  function QuestionItem(q: Question, index: nat, st: Styles): (r: Block)
    ensures r.QuestionRow? && r.number == index + 1 && r.unbreakable
    ensures r.text == Shown(q.questionText)
    ensures r.answerSpace <==> st.showLines && q.kind != Val(Mcq)
    ensures r.marks.Some? <==> st.showMarks
    ensures r.marks.Some? ==> r.marks.value == q.marks
    ensures q.kind == Val(Mcq) && q.options.Val? ==>
              |r.options| == |q.options.v| &&
              forall j :: 0 <= j < |r.options| ==>
                r.options[j].text == q.options.v[j] && (97 + j < 0xD800 ==> r.options[j].letter as int == 'a' as int + j)
    ensures !(q.kind == Val(Mcq) && q.options.Val?) ==> r.options == []
  {
    QuestionRow(
      index + 1,
      Shown(q.questionText),
      if q.kind == Val(Mcq) && q.options.Val? then OptionRows(q.options.v) else [],
      st.showLines && q.kind != Val(Mcq),
      if st.showMarks then Some(q.marks) else None,
      true)
  }

  /** The question rows for `qs`, numbered on from the running counter `counter`. */
  function Rows(qs: seq<Question>, counter: nat, st: Styles): seq<Block> {
    seq(|qs|, i requires 0 <= i < |qs| => QuestionItem(qs[i], counter + i, st))
  }

  /** One section's container: nothing at all for an empty bucket. */
  function SectionPart(s: Section, bucket: seq<Question>, counter: nat, st: Styles): seq<Block> {
    if |bucket| == 0 then [] else SectionLead(s) + Rows(bucket, counter, st)
  }

  /** The section title, then its instructions when they are not blank. */
  function SectionLead(s: Section): seq<Block> {
    [SectionHeader(s.title)] + (if s.instructions != "" then [SectionNote(s.instructions)] else [])
  }

  /** `sections.map(...)` with the counter carried from one section to the next. */
  function SectionsBody(secs: seq<Section>, firstId: string, qs: seq<Question>, counter: nat, st: Styles): seq<Block> {
    if secs == [] then []
    else
      var bucket := Bucket(qs, secs[0].id, firstId);
      SectionPart(secs[0], bucket, counter, st) + SectionsBody(secs[1..], firstId, qs, counter + |bucket|, st)
  }

  /** The question content: flat when there are no sections, otherwise section by section. */
  function Body(sections: seq<Section>, qs: seq<Question>, st: Styles): seq<Block> {
    if |sections| == 0 then Rows(qs, 0, st) else SectionsBody(sections, sections[0].id, qs, 0, st)
  }

  /** The whole paper. `sections` being `null` in the source is the empty sequence here. */
  function Compose(meta: Meta, sections: seq<Section>, qs: seq<Question>, st: Styles): (r: seq<Block>)
    ensures |r| >= 4
    ensures r[0] == HeaderBlock(meta) && r[1] == MetaRowBlock(meta) && r[2] == StudentFields
    ensures r[|r| - 1] == Footer
  {
    Preamble(meta) + Body(sections, qs, st) + [Footer]
  }

  /** Header, meta row, student fields and the optional instructions block. */
  function Preamble(meta: Meta): seq<Block> {
    [HeaderBlock(meta), MetaRowBlock(meta), StudentFields] + InstructionsPart(meta.instructions)
  }

  /** `<Page size={paperSize || 'A4'}>` around the composed blocks. */
  function Render(meta: Meta, sections: seq<Section>, qs: seq<Question>, st: Styles): (d: Document)
    ensures d.pageSize != ""
    ensures st.paperSize != "" ==> d.pageSize == st.paperSize
    ensures d.blocks == Compose(meta, sections, qs, st)
  {
    Document(if st.paperSize != "" then st.paperSize else "A4", Compose(meta, sections, qs, st))
  }

  /**
   * The page style fixes Helvetica at 11 points and the page gets no
   * orientation, so the orientation, font family, font size and columns
   * chosen in the layout step leave the paper unchanged.
   */
  lemma RenderIgnoresLayout(meta: Meta, sections: seq<Section>, qs: seq<Question>, st: Styles,
                            orientation: string, fontFamily: string, fontSize: string, columns: int)
    ensures Render(meta, sections, qs, st.(orientation := orientation, fontFamily := fontFamily, fontSize := fontSize, columns := columns))
         == Render(meta, sections, qs, st)
  {
    var st2 := st.(orientation := orientation, fontFamily := fontFamily, fontSize := fontSize, columns := columns);
    if |sections| == 0 {
      RowsReadFlags(qs, 0, st, st2);
    } else {
      SectionsBodyReadsFlags(sections, sections[0].id, qs, 0, st, st2);
    }
  }

  /** Question rows read only the two display flags of the styles. */
  lemma RowsReadFlags(qs: seq<Question>, counter: nat, st: Styles, st2: Styles)
    requires st.showLines == st2.showLines && st.showMarks == st2.showMarks
    ensures Rows(qs, counter, st) == Rows(qs, counter, st2)
  {
    forall i | 0 <= i < |qs|
      ensures Rows(qs, counter, st)[i] == Rows(qs, counter, st2)[i]
    {
      assert QuestionItem(qs[i], counter + i, st) == QuestionItem(qs[i], counter + i, st2);
    }
  }

  lemma {:induction false} SectionsBodyReadsFlags(secs: seq<Section>, firstId: string, qs: seq<Question>, counter: nat,
                                                  st: Styles, st2: Styles)
    requires st.showLines == st2.showLines && st.showMarks == st2.showMarks
    ensures SectionsBody(secs, firstId, qs, counter, st) == SectionsBody(secs, firstId, qs, counter, st2)
  {
    if secs != [] {
      var bucket := Bucket(qs, secs[0].id, firstId);
      RowsReadFlags(bucket, counter, st, st2);
      SectionsBodyReadsFlags(secs[1..], firstId, qs, counter + |bucket|, st, st2);
    }
  }

  // ---------------------------------------------------------------------------
  // Reference definitions the composer is checked against

  /** The questions in the order the paper prints them. */
  function Emitted(sections: seq<Section>, qs: seq<Question>): seq<Question> {
    if |sections| == 0 then qs else EmittedFrom(sections, sections[0].id, qs)
  }

  function EmittedFrom(secs: seq<Section>, firstId: string, qs: seq<Question>): (r: seq<Question>)
    ensures |r| == BucketSizes(secs, qs, firstId)
  {
    if secs == [] then [] else Bucket(qs, secs[0].id, firstId) + EmittedFrom(secs[1..], firstId, qs)
  }

  /** One heading per section whose bucket is non-empty, in section order. */
  function Headings(secs: seq<Section>, firstId: string, qs: seq<Question>): seq<Block> {
    if secs == [] then []
    else
      (if |Bucket(qs, secs[0].id, firstId)| > 0 then [SectionHeader(secs[0].title)] else [])
      + Headings(secs[1..], firstId, qs)
  }

  /** One note per section whose bucket is non-empty and whose instructions are not blank. */
  function Notes(secs: seq<Section>, firstId: string, qs: seq<Question>): seq<Block> {
    if secs == [] then []
    else
      (if |Bucket(qs, secs[0].id, firstId)| > 0 && secs[0].instructions != "" then [SectionNote(secs[0].instructions)] else [])
      + Notes(secs[1..], firstId, qs)
  }

  datatype Kind = KHeader | KMetaRow | KStudentFields | KInstructions | KSectionHeader | KSectionNote | KQuestionRow | KFooter

  function KindOf(b: Block): Kind {
    match b
    case Header(_, _, _) => KHeader
    case MetaRow(_, _, _) => KMetaRow
    case StudentFields => KStudentFields
    case Instructions(_) => KInstructions
    case SectionHeader(_) => KSectionHeader
    case SectionNote(_) => KSectionNote
    case QuestionRow(_, _, _, _, _, _) => KQuestionRow
    case Footer => KFooter
  }

  /** The blocks of kind `k`, in order. */
  function OfKind(bs: seq<Block>, k: Kind): seq<Block> {
    if bs == [] then []
    else (if KindOf(bs[0]) == k then [bs[0]] else []) + OfKind(bs[1..], k)
  }

  /** Blocks that may appear between the preamble and the footer. */
  predicate BodyBlock(b: Block) {
    b.SectionHeader? || b.SectionNote? || (b.QuestionRow? && b.unbreakable)
  }

  /** Blocks that may appear before the first section heading or question. */
  predicate PreambleBlock(b: Block) {
    b.Header? || b.MetaRow? || b.StudentFields? || b.Instructions?
  }

  predicate AllBody(bs: seq<Block>) {
    forall i :: 0 <= i < |bs| ==> BodyBlock(bs[i])
  }

  /** Every heading is followed by a note or a question, and every note by a question. */
  predicate WellNested(bs: seq<Block>) {
    forall i :: 0 <= i < |bs| && (bs[i].SectionHeader? || bs[i].SectionNote?) ==> FollowedByContent(bs, i)
  }

  /** The block after `bs[i]` is a question row, or a note after a heading. */
  predicate FollowedByContent(bs: seq<Block>, i: nat)
    requires i < |bs|
  {
    i + 1 < |bs| && (bs[i + 1].QuestionRow? || (bs[i].SectionHeader? && bs[i + 1].SectionNote?))
  }

  // ---------------------------------------------------------------------------
  // Lemmas

  lemma {:induction false} OfKindAppend(a: seq<Block>, b: seq<Block>, k: Kind)
    ensures OfKind(a + b, k) == OfKind(a, k) + OfKind(b, k)
  {
    if a == [] {
      assert a + b == b;
    } else {
      var h := if KindOf(a[0]) == k then [a[0]] else [];
      assert (a + b)[0] == a[0];
      assert (a + b)[1..] == a[1..] + b;
      assert OfKind(a + b, k) == h + OfKind(a[1..] + b, k);
      OfKindAppend(a[1..], b, k);
      assert OfKind(a, k) == h + OfKind(a[1..], k);
      assert h + (OfKind(a[1..], k) + OfKind(b, k)) == (h + OfKind(a[1..], k)) + OfKind(b, k);
    }
  }

  lemma {:induction false} OfKindNone(bs: seq<Block>, k: Kind)
    requires forall i :: 0 <= i < |bs| ==> KindOf(bs[i]) != k
    ensures OfKind(bs, k) == []
  {
    if bs != [] {
      OfKindNone(bs[1..], k);
    }
  }

  lemma {:induction false} OfKindAll(bs: seq<Block>, k: Kind)
    requires forall i :: 0 <= i < |bs| ==> KindOf(bs[i]) == k
    ensures OfKind(bs, k) == bs
  {
    if bs != [] {
      OfKindAll(bs[1..], k);
    }
  }

  lemma RowsAppend(a: seq<Question>, b: seq<Question>, counter: nat, st: Styles)
    ensures Rows(a + b, counter, st) == Rows(a, counter, st) + Rows(b, counter + |a|, st)
  {
    var l := Rows(a + b, counter, st);
    var r := Rows(a, counter, st) + Rows(b, counter + |a|, st);
    assert |l| == |r|;
    forall i | 0 <= i < |l|
      ensures l[i] == r[i]
    {
      if i < |a| {
        assert (a + b)[i] == a[i];
      } else {
        assert (a + b)[i] == b[i - |a|];
      }
    }
  }

  lemma WellNestedAppend(a: seq<Block>, b: seq<Block>)
    requires WellNested(a) && WellNested(b)
    ensures WellNested(a + b)
  {
    var ab := a + b;
    forall i | 0 <= i < |ab| && (ab[i].SectionHeader? || ab[i].SectionNote?)
      ensures FollowedByContent(ab, i)
    {
      if i < |a| {
        assert FollowedByContent(a, i);
        assert ab[i] == a[i] && ab[i + 1] == a[i + 1];
      } else {
        assert FollowedByContent(b, i - |a|);
        assert ab[i] == b[i - |a|] && ab[i + 1] == b[i + 1 - |a|];
      }
    }
  }

  lemma AllBodyAppend(a: seq<Block>, b: seq<Block>)
    requires AllBody(a) && AllBody(b)
    ensures AllBody(a + b)
  {
    var ab := a + b;
    forall i | 0 <= i < |ab|
      ensures BodyBlock(ab[i])
    {
      if i < |a| { assert ab[i] == a[i]; } else { assert ab[i] == b[i - |a|]; }
    }
  }

  /** Question rows are all of one kind. */
  lemma RowsOfKind(qs: seq<Question>, counter: nat, st: Styles, k: Kind)
    ensures OfKind(Rows(qs, counter, st), k) == if k == KQuestionRow then Rows(qs, counter, st) else []
  {
    var rows := Rows(qs, counter, st);
    assert forall i :: 0 <= i < |rows| ==> KindOf(rows[i]) == KQuestionRow;
    if k == KQuestionRow {
      OfKindAll(rows, k);
    } else {
      OfKindNone(rows, k);
    }
  }

  lemma RowsBody(qs: seq<Question>, counter: nat, st: Styles)
    ensures AllBody(Rows(qs, counter, st)) && WellNested(Rows(qs, counter, st))
  {
    var rows := Rows(qs, counter, st);
    assert forall i :: 0 <= i < |rows| ==> rows[i].QuestionRow?;
  }

  /** The blocks of kind `k` in a section's lead. */
  function LeadOfKind(s: Section, k: Kind): seq<Block> {
    if k == KSectionHeader then [SectionHeader(s.title)]
    else if k == KSectionNote && s.instructions != "" then [SectionNote(s.instructions)]
    else []
  }

  lemma LeadKinds(s: Section, k: Kind)
    ensures OfKind(SectionLead(s), k) == LeadOfKind(s, k)
  {
    var h := SectionHeader(s.title);
    OfKindSingle(h, k);
    if s.instructions != "" {
      var n := SectionNote(s.instructions);
      OfKindSingle(n, k);
      OfKindAppend([h], [n], k);
    } else {
      assert SectionLead(s) == [h];
    }
  }

  lemma OfKindSingle(b: Block, k: Kind)
    ensures OfKind([b], k) == if KindOf(b) == k then [b] else []
  {
    assert [b][1..] == [];
  }

  /** A non-empty section's container: its lead, then its rows. */
  lemma PartOfKind(s: Section, bucket: seq<Question>, counter: nat, st: Styles, k: Kind)
    requires |bucket| > 0
    ensures OfKind(SectionPart(s, bucket, counter, st), k) == LeadOfKind(s, k) + OfKind(Rows(bucket, counter, st), k)
  {
    OfKindAppend(SectionLead(s), Rows(bucket, counter, st), k);
    LeadKinds(s, k);
  }

  lemma PartBody(s: Section, bucket: seq<Question>, counter: nat, st: Styles)
    ensures AllBody(SectionPart(s, bucket, counter, st)) && WellNested(SectionPart(s, bucket, counter, st))
  {
    if |bucket| > 0 {
      var lead := SectionLead(s);
      var rows := Rows(bucket, counter, st);
      RowsBody(bucket, counter, st);
      assert AllBody(lead);
      AllBodyAppend(lead, rows);
      var part := lead + rows;
      assert rows[0].QuestionRow?;
      forall i | 0 <= i < |part| && (part[i].SectionHeader? || part[i].SectionNote?)
        ensures FollowedByContent(part, i)
      {
        if i >= |lead| {
          assert part[i] == rows[i - |lead|];
        } else if i + 1 == |lead| {
          assert part[i + 1] == rows[0];
        } else {
          assert part[1] == SectionNote(s.instructions);
        }
      }
    }
  }

  lemma {:induction false} SectionsBodyShape(secs: seq<Section>, firstId: string, qs: seq<Question>, counter: nat, st: Styles)
    ensures var body := SectionsBody(secs, firstId, qs, counter, st);
      && AllBody(body)
      && WellNested(body)
  {
    if secs != [] {
      var bucket := Bucket(qs, secs[0].id, firstId);
      var part := SectionPart(secs[0], bucket, counter, st);
      var rest := SectionsBody(secs[1..], firstId, qs, counter + |bucket|, st);
      assert SectionsBody(secs, firstId, qs, counter, st) == part + rest;
      SectionsBodyShape(secs[1..], firstId, qs, counter + |bucket|, st);
      PartBody(secs[0], bucket, counter, st);
      WellNestedAppend(part, rest);
      AllBodyAppend(part, rest);
    }
  }

  lemma BodyShape(sections: seq<Section>, qs: seq<Question>, st: Styles)
    ensures var body := Body(sections, qs, st);
      && AllBody(body)
      && WellNested(body)
  {
    if |sections| == 0 {
      RowsBody(qs, 0, st);
    } else {
      SectionsBodyShape(sections, sections[0].id, qs, 0, st);
    }
  }

  lemma PreambleShape(meta: Meta)
    ensures var pre := Preamble(meta);
      && (|pre| == 3 || |pre| == 4)
      && pre[0] == HeaderBlock(meta) && pre[1] == MetaRowBlock(meta) && pre[2] == StudentFields
      && (|pre| == 4 <==> |meta.instructions| > 0 && meta.instructions[0] != "")
      && (|pre| == 4 ==> pre[3].Instructions?)
      && (forall i :: 0 <= i < |pre| ==> PreambleBlock(pre[i]))
      && WellNested(pre)
  {
  }

  /** The preamble holds no section or question blocks. */
  lemma PreambleOfKind(meta: Meta, k: Kind)
    requires k == KQuestionRow || k == KSectionHeader || k == KSectionNote
    ensures OfKind(Preamble(meta), k) == []
  {
    PreambleShape(meta);
    OfKindNone(Preamble(meta), k);
  }

  /** Splits the paper's blocks of a body kind into those of the body. */
  lemma ComposeOfKind(meta: Meta, sections: seq<Section>, qs: seq<Question>, st: Styles, k: Kind)
    requires k == KQuestionRow || k == KSectionHeader || k == KSectionNote
    ensures OfKind(Compose(meta, sections, qs, st), k) == OfKind(Body(sections, qs, st), k)
  {
    var pre := Preamble(meta);
    var body := Body(sections, qs, st);
    OfKindDropFooter(pre + body, k);
    OfKindAppend(pre, body, k);
    PreambleOfKind(meta, k);
  }

  lemma OfKindDropFooter(bs: seq<Block>, k: Kind)
    requires k != KFooter
    ensures OfKind(bs + [Footer], k) == OfKind(bs, k)
  {
    OfKindAppend(bs, [Footer], k);
    assert [Footer][1..] == [];
  }

  /**
   * Document order: header, meta row, student fields, the optional
   * instructions block, then section headings, notes and question rows only,
   * and exactly one footer at the end. Every heading is followed by content,
   * and every question row is unbreakable.
   */
  lemma ComposeShape(meta: Meta, sections: seq<Section>, qs: seq<Question>, st: Styles)
    ensures var r := Compose(meta, sections, qs, st);
      && |r| >= 4
      && r[0] == HeaderBlock(meta) && r[1] == MetaRowBlock(meta) && r[2] == StudentFields
      && (r[3].Instructions? <==> |meta.instructions| > 0 && meta.instructions[0] != "")
      && (forall i :: |Preamble(meta)| <= i < |r| - 1 ==> BodyBlock(r[i]))
      && (forall i :: 0 <= i < |r| - 1 ==> r[i] != Footer)
      && r[|r| - 1] == Footer
      && WellNested(r)
      && (forall i :: 0 <= i < |r| && r[i].QuestionRow? ==> r[i].unbreakable)
  {
    var pre := Preamble(meta);
    var body := Body(sections, qs, st);
    PreambleShape(meta);
    BodyShape(sections, qs, st);
    FrameShape(pre, body);
    var r := pre + body + [Footer];
    assert r[0] == pre[0] && r[1] == pre[1] && r[2] == pre[2] && r[3] == (pre + body + [Footer])[3];
    if |pre| == 4 {
      assert r[3] == pre[3];
    } else if |body| > 0 {
      assert r[3] == body[0];
    } else {
      assert r[3] == Footer;
    }
  }

  /** A preamble, a body and the footer: the footer comes once, at the end, and the nesting is kept. */
  lemma FrameShape(pre: seq<Block>, body: seq<Block>)
    requires forall i :: 0 <= i < |pre| ==> PreambleBlock(pre[i])
    requires WellNested(pre) && AllBody(body) && WellNested(body)
    ensures var r := pre + body + [Footer];
      && (forall i :: |pre| <= i < |r| - 1 ==> BodyBlock(r[i]))
      && (forall i :: 0 <= i < |r| - 1 ==> r[i] != Footer)
      && r[|r| - 1] == Footer
      && WellNested(r)
      && (forall i :: 0 <= i < |r| && r[i].QuestionRow? ==> r[i].unbreakable)
  {
    WellNestedAppend(pre, body);
    WellNestedAppend(pre + body, [Footer]);
    var r := pre + body + [Footer];
    forall i | 0 <= i < |r| - 1
      ensures (i < |pre| && PreambleBlock(r[i])) || (|pre| <= i && BodyBlock(r[i]))
    {
      if i < |pre| {
        assert r[i] == pre[i];
      } else {
        assert r[i] == body[i - |pre|];
      }
    }
  }

  lemma {:induction false} SectionsBodyRows(secs: seq<Section>, firstId: string, qs: seq<Question>, counter: nat, st: Styles)
    ensures OfKind(SectionsBody(secs, firstId, qs, counter, st), KQuestionRow)
         == Rows(EmittedFrom(secs, firstId, qs), counter, st)
  {
    if secs == [] {
      assert OfKind([], KQuestionRow) == [];
    } else {
      var bucket := Bucket(qs, secs[0].id, firstId);
      var part := SectionPart(secs[0], bucket, counter, st);
      var rest := SectionsBody(secs[1..], firstId, qs, counter + |bucket|, st);
      var tail := EmittedFrom(secs[1..], firstId, qs);
      OfKindAppend(part, rest, KQuestionRow);
      SectionsBodyRows(secs[1..], firstId, qs, counter + |bucket|, st);
      PartRows(secs[0], bucket, counter, st);
      RowsAppend(bucket, tail, counter, st);
      assert OfKind(rest, KQuestionRow) == Rows(tail, counter + |bucket|, st);
      assert OfKind(part, KQuestionRow) == Rows(bucket, counter, st);
    }
  }

  /** The question rows of one section's container are its bucket's rows. */
  lemma PartRows(s: Section, bucket: seq<Question>, counter: nat, st: Styles)
    ensures OfKind(SectionPart(s, bucket, counter, st), KQuestionRow) == Rows(bucket, counter, st)
  {
    if |bucket| > 0 {
      PartOfKind(s, bucket, counter, st, KQuestionRow);
      RowsOfKind(bucket, counter, st, KQuestionRow);
    } else {
      assert Rows(bucket, counter, st) == [];
    }
  }

  lemma BodyRows(sections: seq<Section>, qs: seq<Question>, st: Styles)
    ensures OfKind(Body(sections, qs, st), KQuestionRow) == Rows(Emitted(sections, qs), 0, st)
  {
    if |sections| == 0 {
      RowsOfKind(qs, 0, st, KQuestionRow);
    } else {
      SectionsBodyRows(sections, sections[0].id, qs, 0, st);
    }
  }

  /**
   * The question rows of the paper, in order, are `QuestionItem` applied to
   * the printed questions at positions 0, 1, 2, ...: the single counter runs
   * across section boundaries and is never reset.
   */
  lemma ComposeRows(meta: Meta, sections: seq<Section>, qs: seq<Question>, st: Styles)
    ensures OfKind(Compose(meta, sections, qs, st), KQuestionRow) == Rows(Emitted(sections, qs), 0, st)
  {
    ComposeOfKind(meta, sections, qs, st, KQuestionRow);
    BodyRows(sections, qs, st);
  }

  /** Question labels, in the order printed, are 1, 2, ..., N with N the number of printed questions. */
  lemma Numbering(meta: Meta, sections: seq<Section>, qs: seq<Question>, st: Styles)
    ensures var rows := OfKind(Compose(meta, sections, qs, st), KQuestionRow);
      && |rows| == |Emitted(sections, qs)|
      && forall i :: 0 <= i < |rows| ==> rows[i].QuestionRow? && rows[i].number == i + 1
  {
    ComposeRows(meta, sections, qs, st);
  }

  /** With no sections, every question is printed, in list order, and there are no section headings or notes. */
  lemma NoSectionsPrintsAll(meta: Meta, qs: seq<Question>, st: Styles)
    ensures OfKind(Compose(meta, [], qs, st), KQuestionRow) == Rows(qs, 0, st)
    ensures OfKind(Compose(meta, [], qs, st), KSectionHeader) == []
    ensures OfKind(Compose(meta, [], qs, st), KSectionNote) == []
  {
    ComposeRows(meta, [], qs, st);
    ComposeOfKind(meta, [], qs, st, KSectionHeader);
    ComposeOfKind(meta, [], qs, st, KSectionNote);
    RowsOfKind(qs, 0, st, KSectionHeader);
    RowsOfKind(qs, 0, st, KSectionNote);
  }

  /**
   * With non-empty, distinct section ids and no question naming a missing
   * section, the paper's question rows are the rows of a permutation of the
   * stored questions: each question is printed exactly once.
   */
  lemma EveryQuestionPrintedOnce(meta: Meta, sections: seq<Section>, qs: seq<Question>, st: Styles)
    requires UniqueSectionIds(sections)
    requires forall i :: 0 <= i < |qs| ==> !TruthyKey(qs[i].sectionId) || HasSection(sections, qs[i].sectionId.v)
    ensures OfKind(Compose(meta, sections, qs, st), KQuestionRow) == Rows(Emitted(sections, qs), 0, st)
    ensures multiset(Emitted(sections, qs)) == multiset(qs)
    ensures |OfKind(Compose(meta, sections, qs, st), KQuestionRow)| == |qs|
  {
    ComposeRows(meta, sections, qs, st);
    if |sections| > 0 {
      EmittedPermutes(sections, qs);
    }
    assert |multiset(Emitted(sections, qs))| == |multiset(qs)|;
  }

  /** Printing the questions of `a + b` prints those of `a` and those of `b`. */
  lemma {:induction false} EmittedFromAppend(secs: seq<Section>, firstId: string, a: seq<Question>, b: seq<Question>)
    ensures multiset(EmittedFrom(secs, firstId, a + b))
         == multiset(EmittedFrom(secs, firstId, a)) + multiset(EmittedFrom(secs, firstId, b))
  {
    if secs != [] {
      BucketAppend(a, b, secs[0].id, firstId);
      EmittedFromAppend(secs[1..], firstId, a, b);
    }
  }

  /** Only given questions are printed. */
  lemma {:induction false} EmittedFromMembers(secs: seq<Section>, firstId: string, qs: seq<Question>)
    ensures forall x :: x in EmittedFrom(secs, firstId, qs) ==> x in qs
  {
    if secs != [] {
      EmittedFromMembers(secs[1..], firstId, qs);
    }
  }

  /** A question that lies in exactly one bucket is printed once. */
  lemma EmittedFromSingle(q: Question, secs: seq<Section>, firstId: string)
    requires Hits(q, secs, firstId) == 1
    ensures EmittedFrom(secs, firstId, [q]) == [q]
  {
    var r := EmittedFrom(secs, firstId, [q]);
    BucketSizesCons(q, [], secs, firstId);
    EmptyBuckets(secs, firstId);
    assert [q] + [] == [q];
    EmittedFromMembers(secs, firstId, [q]);
    assert r[0] in r;
  }

  /** With distinct ids and no dangling reference, the printed questions are a permutation of the stored ones. */
  lemma {:induction false} EmittedPermutes(sections: seq<Section>, qs: seq<Question>)
    requires |sections| > 0 && UniqueSectionIds(sections)
    requires forall i :: 0 <= i < |qs| ==> !TruthyKey(qs[i].sectionId) || HasSection(sections, qs[i].sectionId.v)
    ensures multiset(EmittedFrom(sections, sections[0].id, qs)) == multiset(qs)
  {
    var f := sections[0].id;
    if qs == [] {
      EmptyBuckets(sections, f);
    } else {
      assert qs == [qs[0]] + qs[1..];
      EmittedFromAppend(sections, f, [qs[0]], qs[1..]);
      ExactlyOneBucket(qs[0], sections);
      EmittedFromSingle(qs[0], sections, f);
      assert forall i :: 0 <= i < |qs[1..]| ==> qs[1..][i] == qs[i + 1];
      EmittedPermutes(sections, qs[1..]);
      assert multiset(qs) == multiset([qs[0]]) + multiset(qs[1..]);
    }
  }

  /** A section's container holds its heading and note only when its bucket is non-empty. */
  lemma PartLead(s: Section, bucket: seq<Question>, counter: nat, st: Styles, k: Kind)
    requires k == KSectionHeader || k == KSectionNote
    ensures OfKind(SectionPart(s, bucket, counter, st), k) == if |bucket| > 0 then LeadOfKind(s, k) else []
  {
    if |bucket| > 0 {
      PartOfKind(s, bucket, counter, st, k);
      RowsOfKind(bucket, counter, st, k);
    }
  }

  lemma {:induction false} SectionsBodyHeadings(secs: seq<Section>, firstId: string, qs: seq<Question>, counter: nat, st: Styles)
    ensures OfKind(SectionsBody(secs, firstId, qs, counter, st), KSectionHeader) == Headings(secs, firstId, qs)
  {
    if secs == [] {
      assert OfKind([], KSectionHeader) == [];
    } else {
      var bucket := Bucket(qs, secs[0].id, firstId);
      var part := SectionPart(secs[0], bucket, counter, st);
      var rest := SectionsBody(secs[1..], firstId, qs, counter + |bucket|, st);
      OfKindAppend(part, rest, KSectionHeader);
      SectionsBodyHeadings(secs[1..], firstId, qs, counter + |bucket|, st);
      PartLead(secs[0], bucket, counter, st, KSectionHeader);
      assert OfKind(part, KSectionHeader) == (if |bucket| > 0 then [SectionHeader(secs[0].title)] else []);
      assert Headings(secs, firstId, qs) == (if |bucket| > 0 then [SectionHeader(secs[0].title)] else []) + Headings(secs[1..], firstId, qs);
    }
  }

  lemma {:induction false} SectionsBodyNotes(secs: seq<Section>, firstId: string, qs: seq<Question>, counter: nat, st: Styles)
    ensures OfKind(SectionsBody(secs, firstId, qs, counter, st), KSectionNote) == Notes(secs, firstId, qs)
  {
    if secs == [] {
      assert OfKind([], KSectionNote) == [];
    } else {
      var bucket := Bucket(qs, secs[0].id, firstId);
      var part := SectionPart(secs[0], bucket, counter, st);
      var rest := SectionsBody(secs[1..], firstId, qs, counter + |bucket|, st);
      var note := if |bucket| > 0 && secs[0].instructions != "" then [SectionNote(secs[0].instructions)] else [];
      calc {
        OfKind(SectionsBody(secs, firstId, qs, counter, st), KSectionNote);
        OfKind(part + rest, KSectionNote);
        { OfKindAppend(part, rest, KSectionNote); }
        OfKind(part, KSectionNote) + OfKind(rest, KSectionNote);
        { PartLead(secs[0], bucket, counter, st, KSectionNote); }
        note + OfKind(rest, KSectionNote);
        { SectionsBodyNotes(secs[1..], firstId, qs, counter + |bucket|, st); }
        note + Notes(secs[1..], firstId, qs);
        Notes(secs, firstId, qs);
      }
    }
  }

  /**
   * The paper's section headings are those of the sections with a non-empty
   * bucket, in section order; a section's note appears exactly when its
   * bucket is non-empty and its instructions are not blank.
   */
  lemma ComposeHeadings(meta: Meta, sections: seq<Section>, qs: seq<Question>, st: Styles)
    requires |sections| > 0
    ensures OfKind(Compose(meta, sections, qs, st), KSectionHeader) == Headings(sections, sections[0].id, qs)
    ensures OfKind(Compose(meta, sections, qs, st), KSectionNote) == Notes(sections, sections[0].id, qs)
  {
    ComposeOfKind(meta, sections, qs, st, KSectionHeader);
    ComposeOfKind(meta, sections, qs, st, KSectionNote);
    SectionsBodyHeadings(sections, sections[0].id, qs, 0, st);
    SectionsBodyNotes(sections, sections[0].id, qs, 0, st);
  }

  /** A section whose bucket is empty contributes no blocks; a non-empty one starts with its heading. */
  lemma EmptySectionSilent(s: Section, bucket: seq<Question>, counter: nat, st: Styles)
    ensures |bucket| == 0 <==> SectionPart(s, bucket, counter, st) == []
    ensures |bucket| > 0 ==>
      var part := SectionPart(s, bucket, counter, st);
      && part[0] == SectionHeader(s.title)
      && (part[1].SectionNote? <==> s.instructions != "")
  {
    if |bucket| > 0 {
      var part := SectionPart(s, bucket, counter, st);
      var lead := SectionLead(s);
      assert part[0] == lead[0];
      assert part[1] == (if s.instructions != "" then lead[1] else Rows(bucket, counter, st)[0]);
    }
  }
}
