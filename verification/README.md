# exam-paper-saas in Dafny

A model of the logic inside the exam-paper editor, a React single-page app.
Teachers use it to assemble an exam paper and export it as a PDF. The model
has two central parts:

- **The document composer** (`PDFDocument`, `QuestionItem`). It turns the
  exam metadata, the sections, the questions and the layout styles into an
  ordered sequence of abstract blocks:
  - a header, a meta row and the student fields;
  - an optional numbered instructions block;
  - for each section that has questions, its heading, its optional note and
    its question rows;
  - a page footer.

  Questions are bucketed into sections. A question without a section id goes
  to the first section. One counter numbers the questions across the whole
  paper. Multiple-choice options are lettered by position. The marks column
  and the answer space follow two style flags.
- **The exam store** (`ExamProvider`). It holds four records: metadata,
  questions, styles and sections. Its mutation API covers:
  - merging metadata and style patches;
  - adding, renaming and deleting sections (a deletion moves that section's
    questions to another section, and the last section cannot be deleted);
  - adding, updating, deleting, duplicating and reordering questions;
  - resetting to the defaults;
  - the total-marks sum.

Five satellites are also modelled:
- the export file name and the preview page;
- the instruction-list edits of the basic-information step;
- the question dialog's submit and edit rules, with the per-section question
  lists;
- the questions page as a whole, driven by its clicks: a section deleted
  while it is still the page's active section leaves that id behind, and the
  next question added lands in no section (see "## Findings");
- the four-step wizard's navigation.

## Files

- `js.dfy` (`Js`): the JavaScript semantics the code relies on:
  - `undefined`-or-value;
  - object keys that are missing, hold `undefined` or hold a value (`Slot`);
  - object spread;
  - string truthiness;
  - `String.fromCharCode`;
  - a thrown `TypeError` as a result value.
- `exam_model.dfy` (`ExamModel`): the records, their merge patches and the defaults.
- `partition.dfy` (`Partition`): the section-bucket predicate shared by the paper and the editor.
- `composer.dfy` (`Composer`): the paper as a `seq<Block>`, reference definitions and the lemmas about them.
- `exam_store.dfy` (`ExamStore`): the store operations, the store invariant, and total marks.
- `session.dfy` (`Session`): sequences of store calls from the defaults; the invariant holds throughout.
- `export.dfy` (`Export`): the file name and the preview page.
- `basic_info.dfy` (`BasicInfo`): metadata inputs and instruction edits.
- `question_form.dfy` (`QuestionForm`): the question dialog and the per-section cards.
- `editor_session.dfy` (`EditorSession`): the questions page as a sequence of user events, as written and with the corrected section delete.
- `wizard.dfy` (`Wizard`): step transitions and the step bar.

Generated values are parameters of the operations:
- section and question ids (`crypto.randomUUID`);
- timestamps (`Date.now`);
- the user's answer to the reset confirmation;
- the date the store computes when it loads.

## Model

| member | source | states |
|---|---|---|
| Js.FromCharCode | src/context/ExamContext.jsx:47 | below U+D800 the character has exactly the given code, so `65 + n` is the n-th capital letter and `97 + i` the i-th small letter |
| Partition.Bucket | src/components/preview/PDFDocument.jsx:160-163 | a question is in a section's bucket iff its section id is that section's, or it has no truthy section id and the section is the first; the bucket is no longer than the list |
| Partition.BucketAppend | src/components/preview/PDFDocument.jsx:162 | filtering distributes over concatenation, so a bucket keeps the list order |
| Partition.DanglingInNoBucket | src/components/preview/PDFDocument.jsx:162 | a question whose truthy section id names no section lies in no bucket |
| Partition.ExactlyOneBucket | src/components/preview/PDFDocument.jsx:162 | with distinct truthy section ids, a question with a missing, empty or existing section id lies in exactly one bucket |
| Partition.BucketsCoverQuestions | src/components/preview/PDFDocument.jsx:160-163 | with distinct truthy section ids and no dangling section reference, the bucket sizes add up to the number of questions |
| Composer.InstructionLines | src/components/preview/PDFDocument.jsx:200-202 | each printed instruction is a non-blank entry printed with its own 1-based position; numbers strictly increase |
| Composer.InstructionLinesComplete | src/components/preview/PDFDocument.jsx:200-202 | every non-blank entry is printed, numbered by its position in the full list |
| Composer.InstructionsPart | src/components/preview/PDFDocument.jsx:197-204 | the instructions block appears iff the list is non-empty and its first entry is not blank |
| Composer.QuestionItem | src/components/preview/PDFDocument.jsx:258-294 | the row has label index + 1 and is unbreakable; answer space iff lines are shown and the type is not mcq; marks iff marks are shown; an mcq with options gets one row per option lettered a, b, c, ... by position; otherwise no option rows |
| Composer.Compose | src/components/preview/PDFDocument.jsx:158-256 | the paper starts with the header, the meta row and the student fields, and ends with the footer |
| Composer.Render | src/components/preview/PDFDocument.jsx:169 | the page size is the chosen paper size, or A4 when none is set, and the page holds the composed blocks |
| Composer.RenderIgnoresLayout | src/components/preview/PDFDocument.jsx:5-12 | changing the orientation, font family, font size or columns setting leaves the rendered page unchanged |
| Composer.RowsReadFlags | src/components/preview/PDFDocument.jsx:258-294 | question rows depend on the styles only through the answer-line and marks flags |
| Composer.SectionsBodyReadsFlags | src/components/preview/PDFDocument.jsx:221-247 | the section-by-section body depends on the styles only through the two display flags |
| Composer.ComposeShape | src/components/preview/PDFDocument.jsx:167-256 | block order is header, meta row, student fields, the optional instructions, then only section headings, notes and question rows, then exactly one footer at the end; every heading is followed by content; every question row is unbreakable |
| Composer.ComposeRows | src/components/preview/PDFDocument.jsx:165-243 | the paper's question rows are the printed questions, in order, at positions 0, 1, 2, ... |
| Composer.Numbering | src/components/preview/PDFDocument.jsx:165-243 | labels in document order are exactly 1..N; the counter is never reset at a section boundary |
| Composer.NoSectionsPrintsAll | src/components/preview/PDFDocument.jsx:207-219 | with no sections every question is printed in list order, with no headings or notes |
| Composer.EveryQuestionPrintedOnce | src/components/preview/PDFDocument.jsx:160-247 | with distinct truthy section ids and no dangling section reference, the question rows are the rows of a permutation of the stored questions, so each question is printed exactly once |
| Composer.EmittedFromAppend | src/components/preview/PDFDocument.jsx:160-163 | the questions printed from `a + b` are, as a multiset, those printed from `a` plus those printed from `b` |
| Composer.EmittedFromSingle | src/components/preview/PDFDocument.jsx:160-163 | a question that lies in exactly one bucket is printed exactly once |
| Composer.EmittedPermutes | src/components/preview/PDFDocument.jsx:160-247 | with distinct truthy section ids and no dangling reference, the printed questions are a permutation of the stored ones |
| Composer.ComposeHeadings | src/components/preview/PDFDocument.jsx:221-230 | headings are those of the sections with a non-empty bucket, in order; a note appears iff the bucket is non-empty and the instructions are not blank |
| Composer.EmptySectionSilent | src/components/preview/PDFDocument.jsx:222-230 | an empty bucket contributes no blocks; a non-empty one starts with its heading, followed by its note iff the instructions are not blank |
| ExamStore.UpdateExamMeta | src/context/ExamContext.jsx:40-42 | the patch's keys take the patch's values; every other key and record stays |
| ExamStore.UpdateExamMetaLaws | src/context/ExamContext.jsx:40-42 | two merges equal one merge of the combined patch; a merge is idempotent; the empty patch is the identity |
| ExamStore.UpdateStyles | src/context/ExamContext.jsx:99-101 | the patch's keys take the patch's values; every other key and record stays |
| ExamStore.UpdateStylesIdempotent | src/context/ExamContext.jsx:99-101 | a style merge applied twice equals applying it once |
| ExamStore.NewSectionTitle | src/context/ExamContext.jsx:47 | the title is "Section " plus one character whose code is 65 + n while that is below 0xD800, so a capital letter for n < 26 |
| ExamStore.AddSection | src/context/ExamContext.jsx:44-51 | one section is appended with the new id, the next letter's title and empty instructions; the existing sections and the other records are unchanged |
| ExamStore.AddSectionKeepsWf | src/context/ExamContext.jsx:44-51 | a fresh truthy id keeps the section ids non-empty and distinct, whatever the questions hold |
| ExamStore.AddSectionWf | src/context/ExamContext.jsx:44-51 | a truthy unused id keeps section ids distinct and every question placed |
| ExamStore.UpdateSection | src/context/ExamContext.jsx:53-55 | the patch is merged into exactly the sections with that id; the length and all other sections are unchanged |
| ExamStore.UpdateSectionLaws | src/context/ExamContext.jsx:53-55 | an unknown id is a no-op; the update is idempotent |
| ExamStore.UpdateSectionWf | src/context/ExamContext.jsx:53-55 | a title or instructions edit keeps the store invariant |
| ExamStore.Fallback | src/context/ExamContext.jsx:61 | a fallback exists iff some section has another id, and it is the id of the first such section |
| ExamStore.RemoveSection | src/context/ExamContext.jsx:59 | the remaining sections are exactly those with another id |
| ExamStore.RemoveSectionAt | src/context/ExamContext.jsx:59 | with distinct ids, removing the section at index k leaves the others in order |
| ExamStore.DeleteSection | src/context/ExamContext.jsx:57-65 | with at most one section nothing changes; otherwise only sections with that id are removed; the question count and every key except the section id are kept; questions of the deleted section move to the fallback when it is truthy |
| ExamStore.DeleteSectionWf | src/context/ExamContext.jsx:57-65 | on a well-formed store, deleting an existing section removes exactly one and keeps at least one, keeps ids distinct, and leaves no question pointing at a missing section; an unknown truthy id is a no-op |
| ExamStore.FallbackIsNewFirst | src/context/ExamContext.jsx:59-61 | on a well-formed store, the questions move to the section that is first after the deletion |
| ExamStore.DeleteSectionDuplicateIds | src/context/ExamContext.jsx:58-59 | the guard counts sections, not ids: two sections sharing an id are both deleted, leaving none |
| ExamStore.AddThenDeleteSection | src/context/ExamContext.jsx:44-65 | deleting a section just added with an unused id restores the store |
| ExamStore.Created | src/context/ExamContext.jsx:69-74 | the caller's keys override the generated id, timestamp and section id; all other keys are the caller's |
| ExamStore.AddQuestion | src/context/ExamContext.jsx:67-76 | it throws iff the section argument is falsy and there are no sections; otherwise exactly one question is appended, with target section = argument if truthy, else the first section's id |
| ExamStore.AddThenDeleteQuestion | src/context/ExamContext.jsx:67-86 | deleting a question just added under an unused id restores the store |
| ExamStore.UpdateQuestion | src/context/ExamContext.jsx:78-82 | the patch is spread into exactly the questions with that id; the length and all other questions are unchanged |
| ExamStore.SpreadIdempotent | src/context/ExamContext.jsx:80 | spreading the same patch twice equals spreading it once |
| ExamStore.UpdateQuestionLaws | src/context/ExamContext.jsx:78-82 | an unknown id is a no-op; the update is idempotent |
| ExamStore.RemoveQuestion | src/context/ExamContext.jsx:85 | the survivors are exactly the questions with another id |
| ExamStore.RemoveQuestionAppend | src/context/ExamContext.jsx:85 | removal distributes over concatenation, so survivors keep their order |
| ExamStore.DeleteQuestion | src/context/ExamContext.jsx:84-86 | only the question list changes, to the survivors |
| ExamStore.DeleteUndefinedIdRemovesAll | src/context/ExamContext.jsx:84-86 | deleting by an undefined id removes every question whose id is missing or undefined and keeps all others |
| ExamStore.FindQuestion | src/context/ExamContext.jsx:89 | the index found is the first question with that id; none means no question has it |
| ExamStore.DuplicateQuestion | src/context/ExamContext.jsx:88-93 | no match is a no-op; otherwise it is `addQuestion` of the first match with its id set to undefined, passing the match's section id |
| ExamStore.DuplicateCopy | src/context/ExamContext.jsx:88-93 | the copy is appended, its id is undefined, and a complete original is copied key for key, timestamp included |
| ExamStore.DuplicateSection | src/context/ExamContext.jsx:88-93 | the copy keeps the original's section id key, or takes the first section's id when the original lacks one |
| ExamStore.DuplicateThenDeleteUndefined | src/context/ExamContext.jsx:84-93 | when every question has a real id, deleting by the undefined id right after a duplication removes exactly the copy |
| ExamStore.ReorderQuestions | src/context/ExamContext.jsx:95-97 | only the question list changes, to the new order |
| ExamStore.ResetExam | src/context/ExamContext.jsx:103-110 | when confirmed: the default metadata and styles, no questions, and exactly the default section, so the store is well-formed; otherwise no change |
| ExamStore.ComputeTotalMarks | src/context/ExamContext.jsx:113 | the left-to-right accumulation equals the sum of the numeric marks, non-numbers counted as 0 |
| ExamStore.TotalMarksAppend | src/context/ExamContext.jsx:113 | the total of a concatenation is the sum of the totals |
| ExamStore.TotalMarksPermutation | src/context/ExamContext.jsx:113 | the total does not depend on question order |
| ExamStore.MarkValue | src/context/ExamContext.jsx:113 | a numeric marks value counts as itself; a non-numeric or missing one counts as 0 |
| ExamStore.TotalMarksAfter | src/context/ExamContext.jsx:67-113 | adding a question raises the total by its marks; a reorder keeps the total |
| Session.DefaultWf | src/context/ExamContext.jsx:31-38 | the initial store has one section with a truthy id and no dangling references |
| Session.ApplyWf | src/context/ExamContext.jsx:40-110 | every admissible call on a well-formed store succeeds and keeps it well-formed |
| Session.AddQuestionWf | src/context/ExamContext.jsx:67-76 | on a well-formed store, adding a question into an existing section never throws and places it |
| Session.UpdateQuestionWf | src/context/ExamContext.jsx:78-82 | an update that keeps the section id, or names an existing section, keeps every question placed |
| Session.DeleteQuestionWf | src/context/ExamContext.jsx:84-86 | deleting questions keeps every question placed |
| Session.DuplicateWf | src/context/ExamContext.jsx:88-93 | on a well-formed store a duplication never throws and keeps every question placed |
| Session.ReorderWf | src/context/ExamContext.jsx:95-97 | a permutation keeps every question placed |
| Session.RunWf | src/context/ExamContext.jsx:40-110 | any admissible sequence of calls on a well-formed store never throws and ends well-formed |
| Session.SessionPrintsEveryQuestion | src/context/ExamContext.jsx:31-113 | after any admissible sequence of calls from the defaults (every added question names an existing section or none), the question rows are the rows of a permutation of the stored questions: each is printed exactly once |
| Export.FileName | src/components/preview/LivePreview.jsx:25 | the name is the subject, or "Exam" when it is empty, then "_", the date verbatim and ".pdf" |
| Export.FileNameDateInjective | src/components/preview/LivePreview.jsx:25 | for one subject, different dates give different file names |
| Export.Preview | src/components/preview/LivePreview.jsx:23-49 | viewer and download show the same document, composed from the store's four records on the chosen paper size (A4 by default) |
| BasicInfo.HandleChange | src/components/creator/Step1BasicInfo.jsx:14-17 | the named field holds the raw input text, with no numeric conversion; every other field is unchanged |
| BasicInfo.HandleChangeLaws | src/components/creator/Step1BasicInfo.jsx:14-17 | the last write to a field wins; writes to different fields commute |
| BasicInfo.HandleInstructionChange | src/components/creator/Step1BasicInfo.jsx:19-23 | only entry i changes; the length is kept |
| BasicInfo.InstructionChangeUndo | src/components/creator/Step1BasicInfo.jsx:19-23 | writing an entry's old text back restores the store |
| BasicInfo.AddInstruction | src/components/creator/Step1BasicInfo.jsx:25-27 | one blank entry is appended; the prefix, the other metadata, the questions, the styles and the sections are unchanged |
| BasicInfo.DropIndex | src/components/creator/Step1BasicInfo.jsx:30 | an index inside the list shortens it by one; any other index leaves it unchanged |
| BasicInfo.DropIndexSlices | src/components/creator/Step1BasicInfo.jsx:29-32 | removing index i keeps every other entry, in order |
| BasicInfo.RemoveInstruction | src/components/creator/Step1BasicInfo.jsx:29-32 | only the instruction list changes |
| BasicInfo.AddThenRemoveInstruction | src/components/creator/Step1BasicInfo.jsx:25-32 | removing the entry just added restores the store |
| BasicInfo.EditsKeepOneInstruction | src/components/creator/Step1BasicInfo.jsx:136-161 | since remove is disabled at one entry, no sequence of clicks empties a non-empty list |
| QuestionForm.DefaultSectionId | src/components/creator/Step2Questions.jsx:46 | the active section if truthy, else the first section, else the empty string |
| QuestionForm.ResetForm | src/components/creator/Step2Questions.jsx:39-49 | a short question with blank text, 2 marks, Medium, four blank options and the default section; nothing is being edited |
| QuestionForm.HandleSubmit | src/components/creator/Step2Questions.jsx:63-73 | empty text changes nothing; a truthy editing id updates that question, otherwise the form is added to its section; after a save the dialog is closed and the form reset; a throw changes nothing |
| QuestionForm.HandleEdit | src/components/creator/Step2Questions.jsx:75-86 | the form copies the question, defaulting difficulty to Medium, options to four blanks and the section to the first section; it throws iff that default is needed and there are no sections |
| QuestionForm.InitialEditor | src/components/creator/Step2Questions.jsx:22-34 | the page mounts with the dialog closed, nothing edited, no active section, and the reset form pointing at no section (`''`) |
| QuestionForm.Cancel | src/components/creator/Step2Questions.jsx:199 | Cancel closes the dialog without a reset: the form and the edited question stay |
| QuestionForm.ChooseSection | src/components/creator/Step2Questions.jsx:117 | picking a section changes only the form's section id |
| QuestionForm.TypeText | src/components/creator/Step2Questions.jsx:169 | typing changes only the form's question text |
| QuestionForm.HandleOpenChange | src/components/creator/Step2Questions.jsx:51-61 | closing resets the form; opening keeps the form and the edited question but points the form at the active section, else the first section |
| QuestionForm.OpenForSection | src/components/creator/Step2Questions.jsx:249-252 | the per-section button makes that section active and opens the dialog without touching the form |
| QuestionForm.EditOption | src/components/creator/Step2Questions.jsx:184-187 | only option i changes |
| QuestionForm.EditOptionUndo | src/components/creator/Step2Questions.jsx:184-187 | typing an option's old text back restores the editor |
| QuestionForm.EditThenSave | src/components/creator/Step2Questions.jsx:66-86 | editing and saving a question with a unique real id changes only that question, and a legacy question gets the first section's id written out |
| QuestionForm.EditCopyAppends | src/components/creator/Step2Questions.jsx:66-86 | editing and saving a copy with an undefined id appends a new question instead of changing the copy |
| QuestionForm.Cards | src/components/creator/Step2Questions.jsx:266-282 | each card is a bucket member, numbered by its position in the whole list; numbers strictly increase |
| QuestionForm.CardsAreBucket | src/components/creator/Step2Questions.jsx:266-276 | the cards' questions are exactly the bucket the paper prints for that section, in order |
| QuestionForm.CardsComplete | src/components/creator/Step2Questions.jsx:271-276 | every question of the bucket has a card with its global position |
| QuestionForm.DeleteControlMatchesGuard | src/components/creator/Step2Questions.jsx:256-260 | where the control is hidden, deleting would be a no-op; where it is shown, on a well-formed store, exactly one section goes |
| EditorSession.Step | src/components/creator/Step2Questions.jsx:51-86 | the page as written: a section delete leaves the editor, active section included, untouched, and is a no-op while the dialog is open or with one section |
| EditorSession.StepFixed | src/components/creator/Step2Questions.jsx:244-260 | the corrected page: it makes the same store change, and after a delete the active section is never an id that is gone |
| EditorSession.CommonKeepsSections | src/components/creator/Step2Questions.jsx:51-86 | every page event other than adding or deleting a section leaves the section list as it was |
| EditorSession.StepKeepsWf | src/components/creator/Step2Questions.jsx:97-260 | every event of the page as written keeps at least one section, with distinct non-empty ids |
| EditorSession.RunKeepsWf | src/components/creator/Step2Questions.jsx:97-260 | any run of the page as written, including runs that file a question under a deleted section, keeps that invariant |
| EditorSession.PageKeepsSections | src/context/ExamContext.jsx:57-65 | from the defaults, the page as written never empties the section list or repeats a section id |
| EditorSession.Forget | src/components/creator/Step2Questions.jsx:249-257 | the corrected delete handler: a deleted active section stops being active, and a form pointing at it is pointed at the default section of what remains; nothing else changes |
| EditorSession.CommonGood | src/components/creator/Step2Questions.jsx:51-86 | every page event other than a section deletion keeps the store well-formed and the active section and the form's section existing |
| EditorSession.StepFixedGood | src/components/creator/Step2Questions.jsx:249-260 | with the corrected delete handler, every page event keeps that invariant |
| EditorSession.RunFixedGood | src/components/creator/Step2Questions.jsx:51-260 | any sequence of events of the corrected page keeps the invariant |
| EditorSession.FixedPagePrintsEveryQuestion | src/components/creator/Step2Questions.jsx:51-260 | whatever the user does on the corrected page from the defaults, the question rows are the rows of a permutation of the stored questions: each is printed exactly once |
| EditorSession.StepsAgree | src/components/creator/Step2Questions.jsx:256-260 | the two pages make the same store change on every event, and differ only in the editor after a section deletion |
| EditorSession.StaleFirstHalf | src/components/creator/Step2Questions.jsx:51-61 | adding a section, opening its dialog, closing it and deleting the section leaves the page's active section on the deleted id |
| EditorSession.StaleOpenSection | src/components/creator/Step2Questions.jsx:249-252 | adding section "b" and clicking its own Add Question button makes "b" the active section and opens the dialog |
| EditorSession.StaleCloseAndDelete | src/components/creator/Step2Questions.jsx:51-53 | closing the dialog and then deleting "b" removes the section but leaves "b" active |
| EditorSession.StaleSecondHalf | src/components/creator/Step2Questions.jsx:56-73 | with that stale active id, opening the dialog and submitting a question stores it under the deleted id |
| EditorSession.StaleQuestionNotPrinted | src/components/preview/PDFDocument.jsx:160-163 | a question filed under a missing section is dangling and the paper prints no row for it |
| EditorSession.StaleSectionLosesQuestion | src/components/creator/Step2Questions.jsx:51-73 | the page as written, from the defaults, ends with one stored question that the paper does not print |
| Wizard.Transition | src/pages/ExamCreator.jsx:11-65 | from a valid step the next step is valid, and a step-button click either stays or moves back to the clicked step |
| Wizard.StepDisabledAhead | src/pages/ExamCreator.jsx:11-24 | a step button is disabled iff its step is ahead of the current one |
| Wizard.ViewOf | src/pages/ExamCreator.jsx:55-67 | step 4 shows the preview; steps 1-3 show a form |
| Wizard.TransitionBounds | src/pages/ExamCreator.jsx:43-65 | every event keeps the step in 1..4; Next moves k to k+1 (step 2 only with questions); Back moves k to k-1; clicks never move forward |
| Wizard.RunBounds | src/pages/ExamCreator.jsx:34-65 | a session stays in 1..4 and advances at most one step per Next |
| Wizard.PreviewNeedsThreeNexts | src/pages/ExamCreator.jsx:34-65 | from the initial step 1, the preview takes at least three Next presses |

## Left out

- Physical rendering by the PDF library is not modelled: page geometry, fonts, styles, page breaking and the actual page numbers. The footer is a single token, and "unbreakable" is a flag on each question row.
- The composer reads only the paper size and the two display flags from the styles. `PDFDocument` ignores the orientation, font family, font size and columns settings: its page style fixes Helvetica at 11 points and the page gets no orientation, so the paper is always portrait Helvetica 11pt. `Composer.RenderIgnoresLayout` states this.
- `useLocalStorage` (persistence and JSON round trips) is not modelled. The store starts from its defaults.
- Only a sequential series of calls is modelled, not React's batching or stale closures. `deleteSection` and `addQuestion` read `sections` from the last render. Here that is the state the call is applied to.
- The `logo` metadata key is not modelled. Nothing in the paper or the editor steps covered here reads it.
- The default metadata has no `term` key. Here `term` is the empty string, which the paper prints the same way.
- The type, difficulty and marks inputs of the question dialog are not page events. Each sets one form key other than the section id and the text, which are the only keys the page invariant and the submit guard read.
- The Edit Section dialog (`editingSection`) is not modelled; it calls `updateSection`, which `ExamStore.UpdateSection` covers.
- Session.SessionPrintsEveryQuestion: holds only for admissible call sequences. The questions page as written can issue an `addQuestion` into a deleted section, which is outside them; `EditorSession.StaleSectionLosesQuestion` shows such a run.
- `QuestionCard`, `Step3Layout`, `Dashboard`, `Navbar` and `App` are display or routing code and are not modelled.
- Marks are whole numbers or not-a-number. Fractional marks are not modelled: the total is an integer sum, so `Number(marks) || 0` maps exactly non-numbers to 0.
- Js.FromCharCode: a lone UTF-16 surrogate (code units 0xD800-0xDFFF) is not a Dafny `char`, so it becomes U+FFFD. The letters of options and section titles are exact for every code below 0xD800, far beyond any realistic number of options or sections.
- `sections` being `null` in the composer is modelled as the empty sequence, which the source treats the same way.
- The composer emits no keep-with-next hint on section headings, because the source has none.
- Duplicated questions get an `undefined` id rather than a fresh one, because the caller's keys are spread after the generated id. The consequences are stated as lemmas: `ExamStore.DeleteUndefinedIdRemovesAll` and `QuestionForm.EditCopyAppends`.
- Metadata inputs keep their raw text, with no numeric conversion. `BasicInfo.HandleChange` states this.
- React's `key` warnings for questions sharing an undefined id are not modelled. They affect only reconciliation, not the blocks produced.
- `questions.indexOf(q)` compares object identity. The cards therefore carry each question's own position, even when two questions hold equal values.
- ExamStore.DeleteSectionWf: the no-op clause for an unknown id is stated only for truthy ids. Deleting the id "" also rewrites questions whose section id is "" to the fallback. Those questions were already bucketed into the first section, so the paper is unchanged.
- BasicInfo.HandleInstructionChange: requires an index inside the list. The text areas exist only for existing entries; in JavaScript a write past the end would extend the array.

## Findings

| source | as written | input that shows it | evidently intended | confidence | as-written member | corrected member |
|---|---|---|---|---|---|---|
| src/components/creator/Step2Questions.jsx:249-257 | the section delete button calls `deleteSection` only, so `activeSectionId` keeps the deleted id; opening the dialog then copies it into the form, and `addQuestion` stores the question under a section that no longer exists, where neither the paper nor the section cards show it | from the defaults: Add Section (id "b"), that section's Add Question, Escape, delete section "b", top Add Question, type "Q", Save | a deleted section stops being the active section, and the form is pointed at a section that exists | not executed | EditorSession.StaleSectionLosesQuestion | EditorSession.FixedPagePrintsEveryQuestion |
