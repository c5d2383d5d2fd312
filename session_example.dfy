/** A whole session on a four-entity report. */
module SessionExample {

  import opened Wrappers
  import opened ReportText
  import opened EntityBuckets
  import opened SaveRecord
  import opened BiradsClassifier
  import opened Session

  function ExampleEntities(): seq<Entity>
  {
    [Entity("liver", Anat), Entity("mass", ObsPresent),
     Entity("calcification", ObsAbsent), Entity("??", Impression)]
  }

  /** The box for `tag` from four entities, one entity at a time. */
  lemma BucketOfFour(e: seq<Entity>, tag: string)
    requires |e| == 4
    ensures Bucket(e, tag) == Piece(e[0], tag) + Piece(e[1], tag) + Piece(e[2], tag) + Piece(e[3], tag)
  {
    assert e[..3][..2] == e[..2] && e[..2][..1] == e[..1] && e[..1][..0] == [];
    assert Bucket(e, tag) == Bucket(e[..3], tag) + Piece(e[3], tag);
    assert Bucket(e[..3], tag) == Bucket(e[..2], tag) + Piece(e[2], tag);
    assert Bucket(e[..2], tag) == Bucket(e[..1], tag) + Piece(e[1], tag);
    assert Bucket(e[..1], tag) == Piece(e[0], tag);
  }

  /** What one entity adds to the box for `tag`. */
  function Piece(x: Entity, tag: string): seq<string>
  {
    if x.tag == tag then [x.text + " "] else []
  }

  /** The boxes the example's entities fill. */
  lemma ExampleBuckets()
    ensures Bucket(ExampleEntities(), Anat) == ["liver "]
    ensures Bucket(ExampleEntities(), ObsPresent) == ["mass "]
    ensures Bucket(ExampleEntities(), ObsAbsent) == ["calcification "]
    ensures Bucket(ExampleEntities(), ObsUncertain) == []
  {
    var e := ExampleEntities();
    LabelsDistinct();
    BucketOfFour(e, Anat);
    BucketOfFour(e, ObsPresent);
    BucketOfFour(e, ObsAbsent);
    BucketOfFour(e, ObsUncertain);
    assert Piece(e[0], Anat) == ["liver" + " "] && "liver" + " " == "liver ";
    assert Piece(e[1], ObsPresent) == ["mass" + " "] && "mass" + " " == "mass ";
    assert Piece(e[2], ObsAbsent) == ["calcification" + " "] && "calcification" + " " == "calcification ";
  }

  /** A box of one piece, a word followed by a space, is saved as that
      piece. */
  lemma SavedTextPiece(word: string)
    requires forall i :: 0 <= i < |word| ==> word[i] != '\n'
    ensures SavedList([word + " "]) == [word + " "]
  {
    var piece := word + " ";
    assert NoSpaceNewline(piece) by {
      forall i | 0 <= i < |piece| ensures !SpaceNewlineAt(piece, i) {
        if i + 1 < |word| {
          assert piece[i + 1] == word[i + 1];
        }
      }
    }
    SplitJoin([piece]);
  }

  /** The lists the example's boxes are saved as. */
  lemma ExampleSavedLists()
    ensures SavedList(["liver "]) == ["liver "]
    ensures SavedList(["mass "]) == ["mass "]
    ensures SavedList(["calcification "]) == ["calcification "]
    ensures SavedList([]) == [""]
  {
    assert "liver " == "liver" + " ";
    SavedTextPiece("liver");
    assert "mass " == "mass" + " ";
    SavedTextPiece("mass");
    assert "calcification " == "calcification" + " ";
    SavedTextPiece("calcification");
  }

  /** The record the example saves. */
  lemma ExampleRecord()
    ensures ComposeRecord("p1", Bucket(ExampleEntities(), Anat), Bucket(ExampleEntities(), ObsPresent),
      Bucket(ExampleEntities(), ObsAbsent), Bucket(ExampleEntities(), ObsUncertain), "4")
      == CaseRecord("p1", NerRecord(["liver "], ["mass "], ["calcification "], [""]), "4")
  {
    ExampleBuckets();
    ExampleSavedLists();
  }

  /** The example's file name gives the patient id "p1". */
  lemma ExamplePatientId()
    ensures PatientId("p1.txt") == "p1"
  {
    PatientIdOfFileName("p1.txt", 2);
  }

  /** Of the categories "3" at 0.25 and "4" at 0.75, "4" is returned. */
  lemma ExampleClassification()
    ensures GetClassification([ScoredLabel("3", 0.25), ScoredLabel("4", 0.75)]) == "4"
  {
  }

  /** Load any non-empty report as `p1.txt`, show the results for four entities (one of them labelled
      `IMPRESSION`) and two categories, save to `out.json`: the record keeps
      the trailing space of each last piece, saves the empty box as `[""]` and
      drops the `IMPRESSION` entity. Save before Show is refused. */
  method ExampleSession(report: string) returns (early: SaveOutcome, saved: SaveOutcome)
    requires report != ""
    ensures early == Warned
    ensures saved == Written("out.json", CaseRecord("p1",
      NerRecord(["liver "], ["mass "], ["calcification "], [""]), "4"))
  {
    var w := new MainWindow();
    w.LoadFile("p1.txt", report);
    early := w.SaveResults("out.json");
    var cats := [ScoredLabel("3", 0.25), ScoredLabel("4", 0.75)];
    ExamplePatientId();
    ExampleClassification();
    assert w.CanShow();
    w.ShowResults(Doc(6, ExampleEntities()), cats);
    assert w.patientIdBox == "p1" && w.biradsResult == Some("4");
    ExampleRecord();
    assert w.CurrentRecord() == CaseRecord("p1", NerRecord(["liver "], ["mass "], ["calcification "], [""]), "4");
    saved := w.SaveResults("out.json");
  }

  /** Loading another file after the results were shown keeps the earlier
      patient id, boxes and label: `load_file` changes only the file name and
      the content, and the Save guard only asks for a non-empty file name.
      So a save that follows writes the record of the first report, although
      `file_name` now names the second. */
  method SaveAfterSecondLoad(w: MainWindow, chosen: string, read: string, savePath: string)
      returns (outcome: SaveOutcome)
    requires w.Valid() && w.CanSave()
    requires chosen != "" && savePath != ""
    modifies w
    ensures w.fileName == Some(chosen)
    ensures outcome == Written(savePath, old(w.CurrentRecord()))
  {
    w.LoadFile(chosen, read);
    outcome := w.SaveResults(savePath);
  }
}
