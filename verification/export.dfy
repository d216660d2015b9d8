/**
 * The preview page (`LivePreview`): an on-screen viewer and a download link,
 * both showing the paper composed from the store, and the download's file name.
 */
module Export {
  import opened ExamModel
  import Composer

  /** `${subject || 'Exam'}_${date}.pdf` */
  function FileName(meta: Meta): (name: string)
    ensures |name| == |(if meta.subject != "" then meta.subject else "Exam")| + |meta.date| + 5
    ensures meta.subject == "" ==> name[..5] == "Exam_"
    ensures meta.subject != "" ==> name[..|meta.subject| + 1] == meta.subject + "_"
    ensures name[|name| - 4..] == ".pdf"
    ensures name[|name| - 5 - |meta.date|] == '_'
    ensures name[|name| - 4 - |meta.date|..|name| - 4] == meta.date
  {
    var stem := if meta.subject != "" then meta.subject else "Exam";
    var name := stem + "_" + meta.date + ".pdf";
    assert name[..|stem| + 1] == stem + "_";
    assert name[|name| - 4 - |meta.date|..|name| - 4] == meta.date;
    name
  }

  /** For one subject, the date can be read back from the file name: different dates give different names. */
  lemma FileNameDateInjective(m1: Meta, m2: Meta)
    requires m1.subject == m2.subject
    requires FileName(m1) == FileName(m2)
    ensures m1.date == m2.date
  {
    var n := FileName(m1);
    assert |m1.date| == |m2.date|;
    assert m1.date == n[|n| - 4 - |m1.date|..|n| - 4];
  }

  datatype PreviewPage = PreviewPage(viewer: Composer.Document, download: Composer.Document, fileName: string)

  /** Both documents are built from the same four records of the store. */
  function Preview(st: Store): (r: PreviewPage)
    ensures r.viewer == r.download
    ensures r.viewer.blocks == Composer.Compose(st.meta, st.sections, st.questions, st.styles)
    ensures r.viewer.pageSize == (if st.styles.paperSize != "" then st.styles.paperSize else "A4")
    ensures r.fileName == FileName(st.meta)
  {
    var doc := Composer.Render(st.meta, st.sections, st.questions, st.styles);
    PreviewPage(doc, doc, FileName(st.meta))
  }
}
