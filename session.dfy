/** The report session of `MainWindow` in main.py: the state fields the window
    keeps between button clicks, the enabled flags of the Show and Save
    buttons, the text boxes the results are shown in, and the four handlers
    `load_file`, `show_results` (with `process_ner_results` and
    `process_birads_results`), `update_text_boxes` and `save_results`.
    Everything the handlers get from outside (the file dialogs' answers, the
    file's text, the two pipelines' outputs) is a parameter. */
module Session {

  import opened Wrappers
  import opened ReportText
  import opened EntityBuckets
  import opened SaveRecord
  import opened BiradsClassifier

  /** The NER pipeline's `Doc`: its length in tokens, which is what Python's
      truth test `not self.ner_results` looks at, and its entities. */
  datatype Doc = Doc(tokenCount: nat, ents: seq<Entity>)

  /** What one click on Save Results ends in. */
  datatype SaveOutcome =
    | Warned                                  // the "load a file and show the results first" warning
    | NotWritten                              // the save dialog was cancelled
    | Written(path: string, record: CaseRecord)

  /** The phases of a session, as the buttons show them. */
  datatype Phase = Idle | FileLoaded | ResultsShown

  /** Python's truth value of an optional string: present and non-empty. */
  predicate Truthy(s: Option<string>)
  {
    s.Some? && s.value != ""
  }

  class MainWindow {
    var fileContent: Option<string>
    var fileName: Option<string>
    var nerResults: Option<Doc>
    var biradsResult: Option<string>
    var showEnabled: bool
    var saveEnabled: bool
    /** The text of the Patient ID box. */
    var patientIdBox: string
    /** The paragraphs appended to each of the four entity boxes. */
    var anatomyBox: seq<string>
    var obsPresentBox: seq<string>
    var obsAbsentBox: seq<string>
    var obsUncertainBox: seq<string>

    /** The fields move together: content is loaded exactly when Show is
        enabled, results exist exactly when Save is enabled, and Save is only
        ever enabled after Show. */
    ghost predicate Valid()
      reads this
    {
      (fileContent.Some? <==> showEnabled) &&
      (saveEnabled ==> showEnabled) &&
      (nerResults.Some? <==> saveEnabled) &&
      (biradsResult.Some? <==> saveEnabled)
    }

    ghost function CurrentPhase(): Phase
      reads this
    {
      if saveEnabled then ResultsShown else if showEnabled then FileLoaded else Idle
    }

    /** The state after `__init__` and `init_ui`: no file, no results, both
        buttons disabled, all boxes empty. */
    constructor ()
      ensures Valid() && CurrentPhase() == Idle
      ensures fileContent == None && fileName == None && nerResults == None && biradsResult == None
      ensures !showEnabled && !saveEnabled
      ensures patientIdBox == "" && anatomyBox == [] && obsPresentBox == [] && obsAbsentBox == [] && obsUncertainBox == []
    {
      fileContent, fileName, nerResults, biradsResult := None, None, None, None;
      showEnabled, saveEnabled := false, false;
      patientIdBox := "";
      anatomyBox, obsPresentBox, obsAbsentBox, obsUncertainBox := [], [], [], [];
    }

    /** `load_file`: `chosen` is the open dialog's answer ("" when cancelled) and
        `read` the text the chosen file holds. The answer always becomes
        `file_name`; only a non-empty answer loads the text, with every
        backslash-n pair replaced by a space, and enables Show. */
    method LoadFile(chosen: string, read: string)
      requires Valid()
      modifies this
      ensures Valid()
      ensures fileName == Some(chosen)
      ensures chosen != "" ==> fileContent == Some(ReplaceLiteralNewline(read)) && showEnabled
      ensures chosen == "" ==> fileContent == old(fileContent) && showEnabled == old(showEnabled)
      ensures nerResults == old(nerResults) && biradsResult == old(biradsResult) && saveEnabled == old(saveEnabled)
      ensures patientIdBox == old(patientIdBox) && anatomyBox == old(anatomyBox) && obsPresentBox == old(obsPresentBox)
      ensures obsAbsentBox == old(obsAbsentBox) && obsUncertainBox == old(obsUncertainBox)
    {
      fileName := Some(chosen);
      if chosen != "" {
        fileContent := Some(ReplaceLiteralNewline(read));
        showEnabled := true;
      }
    }

    /** The guard of `show_results`. */
    function CanShow(): (b: bool)
      reads this
      ensures b ==> fileContent.Some? && fileName.Some?
      ensures Valid() && b ==> showEnabled
    {
      Truthy(fileContent) && Truthy(fileName)
    }

    /** `show_results`: `doc` and `cats` are what the NER and the BI-RADS
        pipelines return for the loaded text (the classifier's category set is
        never empty). Unless a non-empty text and a non-empty file name are
        both present nothing happens; otherwise the patient id is derived from
        the file name, the results are stored, the boxes are refilled and Save
        is enabled. */
    method ShowResults(doc: Doc, cats: seq<ScoredLabel>)
      requires Valid()
      requires CanShow() ==> |cats| > 0
      modifies this
      ensures Valid()
      ensures !old(CanShow()) ==> unchanged(this)
      ensures !old(showEnabled) ==> unchanged(this)
      ensures old(CanShow()) ==>
        patientIdBox == PatientId(old(fileName).value) &&
        nerResults == Some(doc) &&
        biradsResult == Some(GetClassification(cats)) &&
        saveEnabled && CurrentPhase() == ResultsShown &&
        BoxesShow(doc.ents)
      ensures fileContent == old(fileContent) && fileName == old(fileName) && showEnabled == old(showEnabled)
    {
      if CanShow() {
        patientIdBox := PatientId(fileName.value);
        ProcessNerResults(doc);
        ProcessBiradsResults(cats);
        saveEnabled := true;
      }
    }

    /** The four boxes hold exactly what `ents` puts in them. */
    predicate BoxesShow(ents: seq<Entity>)
      reads this
    {
      anatomyBox == Bucket(ents, Anat) &&
      obsPresentBox == Bucket(ents, ObsPresent) &&
      obsAbsentBox == Bucket(ents, ObsAbsent) &&
      obsUncertainBox == Bucket(ents, ObsUncertain)
    }

    /** `process_ner_results`: keep the document and refill the boxes from its
        entities (the rendering to HTML is not modelled). */
    method ProcessNerResults(doc: Doc)
      modifies this
      ensures nerResults == Some(doc) && BoxesShow(doc.ents)
      ensures fileContent == old(fileContent) && fileName == old(fileName) && biradsResult == old(biradsResult)
      ensures showEnabled == old(showEnabled) && saveEnabled == old(saveEnabled) && patientIdBox == old(patientIdBox)
    {
      nerResults := Some(doc);
      UpdateTextBoxes(doc.ents);
    }

    /** `process_birads_results`: keep the top category. */
    method ProcessBiradsResults(cats: seq<ScoredLabel>)
      requires |cats| > 0
      modifies this
      ensures biradsResult == Some(GetClassification(cats))
      ensures fileContent == old(fileContent) && fileName == old(fileName) && nerResults == old(nerResults)
      ensures showEnabled == old(showEnabled) && saveEnabled == old(saveEnabled) && patientIdBox == old(patientIdBox)
      ensures anatomyBox == old(anatomyBox) && obsPresentBox == old(obsPresentBox)
      ensures obsAbsentBox == old(obsAbsentBox) && obsUncertainBox == old(obsUncertainBox)
    {
      biradsResult := Some(GetClassification(cats));
    }

    /** `update_text_boxes`: clear the four boxes, then append each entity's
        text plus a space to the box of its label; entities of any other label
        are skipped. The boxes end up depending on `ents` alone, so nothing of
        an earlier run survives. */
    method UpdateTextBoxes(ents: seq<Entity>)
      modifies this
      ensures BoxesShow(ents)
      ensures fileContent == old(fileContent) && fileName == old(fileName)
      ensures nerResults == old(nerResults) && biradsResult == old(biradsResult)
      ensures showEnabled == old(showEnabled) && saveEnabled == old(saveEnabled) && patientIdBox == old(patientIdBox)
    {
      anatomyBox, obsPresentBox, obsAbsentBox, obsUncertainBox := [], [], [], [];
      for i := 0 to |ents|
        invariant BoxesShow(ents[..i])
        invariant fileContent == old(fileContent) && fileName == old(fileName)
        invariant nerResults == old(nerResults) && biradsResult == old(biradsResult)
        invariant showEnabled == old(showEnabled) && saveEnabled == old(saveEnabled) && patientIdBox == old(patientIdBox)
      {
        var entity := ents[i];
        assert ents[..i + 1][..i] == ents[..i];
        if entity.tag == Anat {
          anatomyBox := anatomyBox + [entity.text + " "];
        } else if entity.tag == ObsPresent {
          obsPresentBox := obsPresentBox + [entity.text + " "];
        } else if entity.tag == ObsAbsent {
          obsAbsentBox := obsAbsentBox + [entity.text + " "];
        } else if entity.tag == ObsUncertain {
          obsUncertainBox := obsUncertainBox + [entity.text + " "];
        }
      }
      assert ents[..|ents|] == ents;
    }

    /** The guard of `save_results`: a non-empty file name, a non-empty NER
        document and a BI-RADS label. */
    function CanSave(): (b: bool)
      reads this
      ensures b ==> fileName.Some? && nerResults.Some? && biradsResult.Some?
      ensures Valid() && b ==> saveEnabled && CurrentPhase() == ResultsShown
    {
      Truthy(fileName) && nerResults.Some? && nerResults.value.tokenCount > 0 && biradsResult.Some?
    }

    /** The record the window would save now. */
    function CurrentRecord(): (r: CaseRecord)
      reads this
      requires biradsResult.Some?
      ensures r.patientId == patientIdBox && r.biradsResult == biradsResult.value
      ensures Join(r.nerResults.anatomy, " \n") == PlainText(anatomyBox)
      ensures Join(r.nerResults.observationPresent, " \n") == PlainText(obsPresentBox)
      ensures Join(r.nerResults.observationAbsent, " \n") == PlainText(obsAbsentBox)
      ensures Join(r.nerResults.observationUncertain, " \n") == PlainText(obsUncertainBox)
    {
      ComposeRecord(patientIdBox, anatomyBox, obsPresentBox, obsAbsentBox, obsUncertainBox, biradsResult.value)
    }

    /** `save_results`: `savePath` is the save dialog's answer ("" when
        cancelled). An incomplete session is refused with a warning and
        nothing is written; otherwise the record is written exactly when a
        path was chosen. Nothing in the window changes. */
    method SaveResults(savePath: string) returns (outcome: SaveOutcome)
      ensures outcome == Warned <==> !CanSave()
      ensures outcome == NotWritten <==> CanSave() && savePath == ""
      ensures outcome.Written? ==> outcome.path == savePath && outcome.record == CurrentRecord()
      ensures Valid() && !saveEnabled ==> outcome == Warned
    {
      if !(Truthy(fileName) && nerResults.Some? && nerResults.value.tokenCount > 0 && biradsResult.Some?) {
        return Warned;
      }
      var record := CurrentRecord();
      if savePath != "" {
        outcome := Written(savePath, record);
      } else {
        outcome := NotWritten;
      }
    }
  }

}
