/** The record `save_results` writes: the patient id, the four boxes' text
    each split on space-newline into a list, and the BI-RADS label. The JSON
    formatting itself is not modelled; the record is its content. */
module SaveRecord {

  import opened ReportText
  import opened EntityBuckets

  /** `QTextEdit.toPlainText()` of a box filled by `append`: each appended
      piece is one paragraph, and paragraphs are separated by a newline. */
  function PlainText(paragraphs: seq<string>): (r: string)
    ensures |paragraphs| == 0 ==> r == ""
    ensures |paragraphs| == 1 ==> r == paragraphs[0]
    ensures |paragraphs| > 1 ==> |r| > |paragraphs[0]| && r[..|paragraphs[0]| + 1] == paragraphs[0] + "\n"
  {
    Join(paragraphs, "\n")
  }

  /** The `"ner_results"` object. */
  datatype NerRecord = NerRecord(
    anatomy: seq<string>,
    observationPresent: seq<string>,
    observationAbsent: seq<string>,
    observationUncertain: seq<string>)

  /** The saved JSON object. */
  datatype CaseRecord = CaseRecord(patientId: string, nerResults: NerRecord, biradsResult: string)

  /** One box as saved: `box.toPlainText().split(" \n")`. It is never the empty
      list, and joining it back with space-newline gives the box's text. */
  function SavedList(box: seq<string>): (r: seq<string>)
    ensures |r| >= 1
    ensures Join(r, " \n") == PlainText(box)
  {
    SplitRejoins(PlainText(box));
    SplitOnSpaceNewline(PlainText(box))
  }

  /** The record built from the patient id, the four boxes and the label. */
  function ComposeRecord(patientId: string, anatomy: seq<string>, present: seq<string>,
                         absent: seq<string>, uncertain: seq<string>, birads: string): (r: CaseRecord)
    ensures r.patientId == patientId && r.biradsResult == birads
    ensures Join(r.nerResults.anatomy, " \n") == PlainText(anatomy)
    ensures Join(r.nerResults.observationPresent, " \n") == PlainText(present)
    ensures Join(r.nerResults.observationAbsent, " \n") == PlainText(absent)
    ensures Join(r.nerResults.observationUncertain, " \n") == PlainText(uncertain)
  {
    CaseRecord(patientId,
               NerRecord(SavedList(anatomy), SavedList(present), SavedList(absent), SavedList(uncertain)),
               birads)
  }

  /** The expected list for box pieces `t + " "`: every text as it is, except
      the last, which keeps its trailing space; no text at all gives `[""]`. */
  function SavedTexts(texts: seq<string>): seq<string>
  {
    if |texts| == 0 then [""] else texts[..|texts| - 1] + [texts[|texts| - 1] + " "]
  }

  /** The pieces joined by newlines are the texts joined by space-newline,
      with the final space left over. */
  lemma {:induction false} PlainTextOfSpaced(texts: seq<string>)
    requires |texts| >= 1
    ensures PlainText(Spaced(texts)) == Join(SavedTexts(texts), " \n")
    decreases |texts|
  {
    var n := |texts|;
    if n > 1 {
      PlainTextOfSpaced(texts[1..]);
      assert Spaced(texts)[1..] == Spaced(texts[1..]);
      var last := texts[n - 1];
      assert texts[1..][..n - 2] == texts[1..n - 1];
      assert SavedTexts(texts) == texts[..n - 1] + [last + " "];
      assert SavedTexts(texts[1..]) == texts[1..n - 1] + [last + " "];
      assert SavedTexts(texts)[1..] == SavedTexts(texts[1..]);
      assert Spaced(texts)[0] == texts[0] + " ";
      assert SavedTexts(texts)[0] == texts[0];
    }
  }

  /** A text ending in a space contains space-newline only where the text
      before the space does. */
  lemma AppendSpaceKeepsNoSpaceNewline(t: string)
    requires NoSpaceNewline(t)
    ensures NoSpaceNewline(t + " ")
  {
    var u := t + " ";
    forall i | 0 <= i < |u| ensures !SpaceNewlineAt(u, i) {
      if i + 1 < |t| {
        assert !SpaceNewlineAt(t, i);
      }
    }
  }

  /** What the record keeps of a box filled by appending `t + " "` for every
      text `t`: the texts themselves, except that the last keeps its trailing
      space; an empty box is saved as `[""]`, never `[]`. Holds whenever no
      text contains space-newline itself. */
  lemma SavedSpacedTexts(texts: seq<string>)
    requires forall k :: 0 <= k < |texts| ==> NoSpaceNewline(texts[k])
    ensures SavedList(Spaced(texts)) == SavedTexts(texts)
  {
    if |texts| == 0 {
      assert Spaced(texts) == [];
    } else {
      PlainTextOfSpaced(texts);
      var saved := SavedTexts(texts);
      AppendSpaceKeepsNoSpaceNewline(texts[|texts| - 1]);
      assert forall k :: 0 <= k < |saved| ==> NoSpaceNewline(saved[k]) by {
        forall k | 0 <= k < |saved| ensures NoSpaceNewline(saved[k]) {
          if k < |texts| - 1 { assert saved[k] == texts[k]; }
        }
      }
      SplitJoin(saved);
    }
  }

  /** The saved list of the box for `tag` after `update_text_boxes(ents)`. */
  lemma SavedBucket(ents: seq<Entity>, tag: string)
    requires forall i :: 0 <= i < |ents| ==> NoSpaceNewline(ents[i].text)
    ensures SavedList(Bucket(ents, tag)) == SavedTexts(LabelledTexts(ents, tag))
  {
    BucketIsSpacedTexts(ents, tag);
    LabelledTextsFrom(ents, tag);
    SavedSpacedTexts(LabelledTexts(ents, tag));
  }

  /** Labelled texts are entity texts, so they inherit the entities' lack of
      space-newline. */
  lemma {:induction false} LabelledTextsFrom(ents: seq<Entity>, tag: string)
    requires forall i :: 0 <= i < |ents| ==> NoSpaceNewline(ents[i].text)
    ensures forall k :: 0 <= k < |LabelledTexts(ents, tag)| ==> NoSpaceNewline(LabelledTexts(ents, tag)[k])
    decreases |ents|
  {
    if |ents| > 0 {
      var init := ents[..|ents| - 1];
      assert forall i :: 0 <= i < |init| ==> init[i] == ents[i];
      LabelledTextsFrom(init, tag);
      var last := ents[|ents| - 1];
      assert LabelledTexts(ents, tag) == LabelledTexts(init, tag) + (if last.tag == tag then [last.text] else []);
    }
  }

}
