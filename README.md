# Mammo Lingua report session, modelled in Dafny

Mammo Lingua is a desktop tool for radiology reports. A clinician loads a
plain-text report. A named-entity pipeline marks anatomy and observations in it,
and a text classifier predicts a BI-RADS category. The clinician then saves the
patient id, the entities in four groups and the category as one JSON record.

This project models the deterministic logic around the two pipelines. The
pipelines themselves are inputs: an entity list of `(text, label)` pairs with a
token count, and an ordered list of `(category, score)` pairs.

- `report_text.dfy` (module `ReportText`):
  - the literal backslash-n replacement applied to a loaded report;
  - the patient id taken from the file path (POSIX base name, cut at the first dot);
  - Python's `str.split(" \n")` and `str.join`, as used between the result boxes and the saved record.
- `entity_buckets.dfy` (module `EntityBuckets`): what each of the four result boxes (`ANAT`, `OBS-PRESENT`, `OBS-ABSENT`, `OBS-UNCERTAIN`) receives from an entity list.
- `save_record.dfy` (module `SaveRecord`): the saved record. It holds the patient id, each box's text split on space-newline, and the BI-RADS label.
- `birads_classifier.dfy` (module `BiradsClassifier`): `get_classification`. It is a stable sort by score, highest first, modelled as an insertion sort, followed by taking the first label. It is proved equal to "the earliest of the highest-scoring categories". It is also proved to be the only arrangement a stable descending sort can return.
- `session.dfy` (module `Session`): class `MainWindow`. It has the window's state fields, the Show/Save button flags and the result boxes, and the handlers `load_file`, `show_results`, `process_ner_results`, `process_birads_results`, `update_text_boxes` and `save_results`. Each handler is a method whose postcondition gives the whole new state. `Valid()` is the session invariant. The three button handlers (`LoadFile`, `ShowResults` and `SaveResults`) preserve it. `ProcessNerResults`, `ProcessBiradsResults` and `UpdateTextBoxes` are steps inside `ShowResults`: they neither require nor ensure `Valid()`. `update_text_boxes` is a loop with invariants.
- `session_example.dfy` (module `SessionExample`): one complete session on a four-entity report, proved end to end.

What the code does that a reader might not expect:

- The saved lists keep a trailing space on their last element. One `ANAT` entity "liver" is saved as `["liver "]`, not `["liver"]`. An empty box is saved as `[""]`, not `[]` (`SaveRecord.SavedSpacedTexts`, `SessionExample.ExampleSession`).
- The box labels are `ANAT`, `OBS-PRESENT`, `OBS-ABSENT` and `OBS-UNCERTAIN`. An `IMPRESSION` entity goes into no box.
- The record holds no file name. Its patient id is the part of the base name before the first dot, not the name without its last extension.
- Ties between categories go to the category that comes first in the mapping's order. The stable sort guarantees this, and it is modelled exactly.
- The Save handler checks `file_name`, not the loaded content. After a cancelled open dialog (`file_name == ""`), Save warns even though the earlier results are still there. Show does nothing in that state either.
- Loading a second file after Show keeps the first file's patient id, boxes and label. Only `file_name` and the content change, and the Save guard only asks for a non-empty `file_name`. A save that follows therefore writes the first report's record, while `file_name` names the second (`SessionExample.SaveAfterSecondLoad`).
- The Python truth test on `ner_results` tests the spaCy `Doc`, whose length is its token count. A document with tokens but no entities therefore passes the Save guard.

## Model

| member | source | states |
|---|---|---|
| ReportText.ReplaceLiteralNewline | main.py:283 | the replacement never lengthens the text, maps empty to empty, and keeps a leading 'n' a leading 'n' |
| ReportText.ReplaceLeavesNoLiteralNewline | main.py:283 | after a load the content holds no backslash followed by 'n' |
| ReportText.ReplaceCounts | main.py:283 | each replacement turns one backslash and one 'n' into one space; every other character keeps its count |
| ReportText.NewlinesPreserved | main.py:283 | the replacement keeps the number of real newline characters |
| ReportText.NewlineFirst | main.py:283 | a real newline at the front of the text is kept, and the rest is replaced |
| ReportText.NewlineSplits | main.py:283 | the replacement works line by line: a real newline stays where it is, and the text on each side of it is replaced on its own |
| ReportText.ReplaceWithoutLiteralNewline | main.py:283 | a text without any backslash-n pair is loaded unchanged |
| ReportText.ReplaceIdempotent | main.py:283 | applying the replacement twice gives the same content as once |
| ReportText.ReplaceExamples | main.py:283 | "a\\nb" (backslash, n) becomes "a b"; a real newline stays |
| ReportText.BaseName | main.py:292 | the base name is the suffix of the path after its last '/', and contains no '/' |
| ReportText.FirstDotSegment | main.py:292 | `split('.')[0]` is the prefix up to the first '.', contains no '.', and is the whole string when there is no dot |
| ReportText.PatientId | main.py:292 | the patient id is no longer than the path and contains neither '.' nor '/' |
| ReportText.PatientIdShape | main.py:292 | the patient id is a prefix of the base name without '.' or '/', it equals the base name when that has no dot, and it otherwise stops exactly at the first dot |
| ReportText.PatientIdOfFileName | main.py:292 | for a name without a directory whose first dot is at k, the id is the first k characters |
| ReportText.BaseNameWithoutSlash | main.py:292 | a path without '/' is its own base name |
| ReportText.FirstDotSegmentAt | main.py:292 | the first segment ends exactly at the first dot |
| ReportText.PatientIdOneDotExample | main.py:292 | "case001.txt" gives "case001" |
| ReportText.PatientIdTwoDotsExample | main.py:292 | "case.final.txt" gives "case" |
| ReportText.PatientIdWithDirectoryExample | main.py:292 | "/reports/p1.txt" gives "p1" |
| ReportText.SplitOnSpaceNewline | main.py:352-355 | `split(" \n")` never returns the empty list, and a non-empty first piece starts with the text's first character |
| ReportText.SplitRejoins | main.py:352-355 | joining the split pieces with space-newline gives back the box text |
| ReportText.SplitPiecesClean | main.py:352-355 | no split piece contains space-newline |
| ReportText.SplitJoin | main.py:352-355 | splitting a space-newline join of pieces that are free of the separator gives back exactly those pieces |
| EntityBuckets.LabelsDistinct | main.py:333-340 | the four box labels and IMPRESSION are pairwise different, so the `elif` chain sends an entity to at most one box |
| EntityBuckets.BucketAppend | main.py:332-340 | a box's contents for a concatenation of entity lists is the concatenation, in order |
| EntityBuckets.Bucket | main.py:332-340 | a box receives at most one piece per entity |
| EntityBuckets.BucketContents | main.py:332-340 | a box receives one piece per entity with its label; its k-th piece is the text of the k-th such entity plus a space; a piece is in the box exactly when it is such an entity's text plus a space |
| EntityBuckets.BucketIsSpacedTexts | main.py:332-340 | a box holds, in entity order, the texts of the entities with its label, each followed by one space |
| EntityBuckets.OtherLabelAddsNothing | main.py:332-340 | an entity whose label is not the box's adds nothing to it |
| EntityBuckets.ImpressionIsDropped | main.py:332-340 | an IMPRESSION entity changes none of the four boxes |
| EntityBuckets.BoxesPartitionBoxed | main.py:332-340 | the four box sizes add up to the number of entities with one of the four labels |
| EntityBuckets.CountsPartitionBoxed | main.py:332-340 | every entity with one of the four labels is counted for exactly one of them |
| EntityBuckets.BucketIgnoresOtherLabels | main.py:332-340 | removing all entities with other labels beforehand changes no box |
| SaveRecord.PlainText | main.py:352-355 | `toPlainText()` of a box filled by `append`: an empty box gives "", a box with one piece gives that piece, and otherwise the first piece is followed by a newline |
| SaveRecord.SavedList | main.py:352-355 | a saved list is never empty, and rejoined with space-newline it is the box's plain text |
| SaveRecord.ComposeRecord | main.py:349-358 | the record carries the given patient id and BI-RADS label, and each of its four lists rejoins to its box's text |
| SaveRecord.PlainTextOfSpaced | main.py:352-355 | the newline-join of texts, each followed by a space, equals the space-newline join of the texts with the last one keeping its space |
| SaveRecord.AppendSpaceKeepsNoSpaceNewline | main.py:334 | appending one space to a text creates no space-newline pair |
| SaveRecord.SavedSpacedTexts | main.py:352-355 | a box filled with `t + " "` pieces is saved as the texts, the last keeping its trailing space; an empty box is saved as `[""]` |
| SaveRecord.SavedBucket | main.py:352-355 | the saved list of a box after bucketing is the labelled entity texts, the last with its trailing space, or `[""]` |
| SaveRecord.LabelledTextsFrom | main.py:332-340 | texts taken from entities free of space-newline are free of it too |
| BiradsClassifier.Insert | src/models/birads_classifier.py:11-12 | insertion adds one item, and the new head is either the inserted item or the old head |
| BiradsClassifier.InsertSorted | src/models/birads_classifier.py:11-12 | insertion keeps a sequence non-increasing in score |
| BiradsClassifier.InsertPermutes | src/models/birads_classifier.py:11-12 | insertion adds exactly the inserted item to the multiset of items |
| BiradsClassifier.SortByScoreDescending | src/models/birads_classifier.py:11-12 | the sort keeps the number of items |
| BiradsClassifier.SortIsOrdered | src/models/birads_classifier.py:11-12 | `estimated_cats` is ordered from highest score to lowest |
| BiradsClassifier.SortPermutes | src/models/birads_classifier.py:11-12 | `estimated_cats` is a permutation of the mapping's items |
| BiradsClassifier.InsertKeepsScoreClasses | src/models/birads_classifier.py:11-12 | insertion places the item first among its own score class and keeps the order within every class |
| BiradsClassifier.SortIsStable | src/models/birads_classifier.py:11-12 | items with equal scores keep their mapping order (stability with `reverse=True`) |
| BiradsClassifier.WithScoreMembers | src/models/birads_classifier.py:11-12 | a score class contains only items of the sequence that have that score |
| BiradsClassifier.OwnScoreClass | src/models/birads_classifier.py:11-12 | every item belongs to the class of its own score |
| BiradsClassifier.HeadInOther | src/models/birads_classifier.py:11-12 | the head of a non-increasing arrangement scores at least as high as every item of any arrangement with the same score classes |
| BiradsClassifier.StableDescendingIsUnique | src/models/birads_classifier.py:11-12 | two non-increasing arrangements with the same order inside every score class are equal |
| BiradsClassifier.SortIsTheStableDescendingOrder | src/models/birads_classifier.py:11-12 | any non-increasing arrangement that keeps the order within every score class is the modelled sort, so the model is Python's `sorted(..., reverse=True)` |
| BiradsClassifier.GetClassification | src/models/birads_classifier.py:9-14 | for a non-empty mapping, the returned label is one of the mapping's labels |
| BiradsClassifier.MaxScore | src/models/birads_classifier.py:11-13 | reference maximum: at least every score, and attained |
| BiradsClassifier.FirstWithScore | src/models/birads_classifier.py:11-13 | reference position: the first item with the given score |
| BiradsClassifier.WithScoreHead | src/models/birads_classifier.py:11-13 | the first item of a score class is the first item of the sequence with that score |
| BiradsClassifier.SortedHeadScoresMax | src/models/birads_classifier.py:11-13 | the first sorted item carries the maximum score |
| BiradsClassifier.TopLabelIsFirstMaximum | src/models/birads_classifier.py:11-14 | the returned label belongs to the earliest item with the highest score: its score is at least every score, and every earlier item scores strictly less |
| Session.MainWindow.constructor | main.py:172-175 | the session starts with no content, no file name, no results, both buttons disabled and empty boxes |
| Session.MainWindow.LoadFile | main.py:278-287 | the dialog answer always becomes the file name; a non-empty answer loads the replaced text and enables Show; a cancelled dialog leaves the content and Show's flag as they were; nothing else changes |
| Session.MainWindow.ShowResults | main.py:289-300 | without a non-empty content and file name nothing changes; otherwise it sets the derived patient id, the NER document, the top BI-RADS label and the refilled boxes, and enables Save; the session invariant holds |
| Session.MainWindow.CanShow | main.py:290 | the guard of `show_results` holds only when a content and a file name are present, and in a consistent session only while Show is enabled |
| Session.MainWindow.ProcessNerResults | main.py:302-318 | stores the NER document and refills the four boxes from its entities |
| Session.MainWindow.ProcessBiradsResults | main.py:320-323 | stores the label `get_classification` returns |
| Session.MainWindow.UpdateTextBoxes | main.py:325-340 | after the call each box holds exactly its bucket of the given entities, so nothing from an earlier run survives; no other field changes |
| Session.MainWindow.CanSave | main.py:343 | the guard of `save_results` holds only when a file name, an NER document and a label are present, and in a consistent session only after results were shown |
| Session.MainWindow.CurrentRecord | main.py:349-358 | the record to save carries the Patient ID box and the stored label, and each of its four lists rejoins to the text of its box |
| Session.MainWindow.SaveResults | main.py:342-368 | warns exactly when the file name is empty, the NER document is absent or empty, or there is no BI-RADS label; otherwise writes the current record exactly when a save path was chosen; before results are shown it always warns; nothing in the window changes |
| SessionExample.ExampleSession | main.py:278-368 | for any non-empty report loaded as `p1.txt`: save before show is refused; show then save with four entities and two categories: the saved record is `p1`, `["liver "]`, `["mass "]`, `["calcification "]`, `[""]`, `4` |
| SessionExample.SaveAfterSecondLoad | main.py:278-358 | after results were shown, loading another file and saving writes the record of the first file, while the file name is the new one |
| SessionExample.ExampleBuckets | main.py:332-340 | the example's entities fill the boxes with "liver ", "mass ", "calcification " and nothing |
| SessionExample.BucketOfFour | main.py:332-340 | a four-entity box is the pieces of its entities in order |
| SessionExample.SavedTextPiece | main.py:352-355 | a box with one piece, a newline-free word plus a space, is saved as that piece |
| SessionExample.ExampleSavedLists | main.py:352-355 | the example's saved lists |
| SessionExample.ExampleRecord | main.py:349-358 | the example's record |
| SessionExample.ExamplePatientId | main.py:292 | "p1.txt" gives "p1" |
| SessionExample.ExampleClassification | src/models/birads_classifier.py:11-14 | of "3" at 0.25 and "4" at 0.75, "4" is returned |

## Left out

- Qt presentation code is not modelled: `CustomTitleBar` (maximise toggle, dragging), `AnimatedProgressBar`, the `init_ui` layout and splitters, and `apply_dark_mode`. None of it affects the session state.
- The model-loading sequence (`start_loading`, `load_models`, `finish_loading`, `QTimer.singleShot`, `repaint`) is not modelled. It is event-loop timing; the model starts from the state after `__init__` and `init_ui`.
- The spaCy pipelines are not modelled: `spacy.load`, the `self.nlp(text)` calls, and `NerModel.get_entities` with its colour map. Their outputs are parameters of `ShowResults`. A `Doc` is its token count plus its entities, and the category mapping is a list of label/score pairs in the mapping's order.
- Nothing is rendered: `displacy.render`, the dark-mode HTML replacements, `web_view.setHtml`, `text_edit.setText` and `predicted_birads.setText`. They only fill display widgets.
- The file dialogs are not modelled; their answers are parameters.
- File I/O is not modelled: reading the report, writing the JSON, and `json.dump` formatting. The file's text is a parameter. `SaveResults` returns the outcome (warned, not written, or written to a path with a record) instead of writing. I/O errors, such as an unreadable file or a decoding failure, are not modelled.
- `QTextEdit.append`/`toPlainText` are modelled by an explicit assumption: a box's plain text is its appended pieces joined by "\n".
- Edits the user makes by hand in the boxes, the Patient ID box included, are not modelled. The record uses the box contents last set by `show_results`.
- Scores are reals; the `float(...)` conversion and IEEE floating point are not modelled.
- `os.path.basename` is modelled with the POSIX separator only. Windows separators and drive letters are not modelled.
- The button flags do not gate calls in the model: a handler may be called in any state, as if its button were clicked. Each handler's own guard does the rejecting, and `Valid()` ties the flags to the fields.
- Session.MainWindow.ShowResults: requires a non-empty category list whenever its guard passes. The source then fails with an IndexError at birads_classifier.py line 13, after the NER results are already stored; that partial update is not modelled.
- SaveRecord.SavedBucket: is stated only for entity texts that contain no space-newline of their own. Such a text would itself be cut by the split, which `SplitOnSpaceNewline` models but the lemma does not describe.
