/** The entities the NER pipeline finds (`doc.ents`) and the four label
    buckets `update_text_boxes` sorts them into. */
module EntityBuckets {

  /** One entity span: its literal text and its label (`entity.text`,
      `entity.label_`). */
  datatype Entity = Entity(text: string, tag: string)

  /** The labels of the four boxes, compared by exact string equality. */
  const Anat: string := "ANAT"
  const ObsPresent: string := "OBS-PRESENT"
  const ObsAbsent: string := "OBS-ABSENT"
  const ObsUncertain: string := "OBS-UNCERTAIN"
  /** A label the NER colour map knows but no box shows. */
  const Impression: string := "IMPRESSION"

  /** The five labels are pairwise different, so the `elif` chain of
      `update_text_boxes` sends an entity to at most one box. */
  lemma LabelsDistinct()
    ensures Anat != ObsPresent && Anat != ObsAbsent && Anat != ObsUncertain && Anat != Impression
    ensures ObsPresent != ObsAbsent && ObsPresent != ObsUncertain && ObsPresent != Impression
    ensures ObsAbsent != ObsUncertain && ObsAbsent != Impression
    ensures ObsUncertain != Impression
  {
  }

  predicate IsBoxLabel(tag: string)
  {
    tag == Anat || tag == ObsPresent || tag == ObsAbsent || tag == ObsUncertain
  }

  /** What one box receives from `ents`: the text of every entity labelled
      `tag`, each followed by one space, in the order of `ents`. Written
      from the back, as the loop appends. */
  function Bucket(ents: seq<Entity>, tag: string): (r: seq<string>)
    ensures |r| <= |ents|
  {
    if |ents| == 0 then []
    else
      var last := ents[|ents| - 1];
      Bucket(ents[..|ents| - 1], tag) + (if last.tag == tag then [last.text + " "] else [])
  }

  /** The texts of the entities labelled `tag`, in order, without the space
      the boxes add. */
  function LabelledTexts(ents: seq<Entity>, tag: string): seq<string>
  {
    if |ents| == 0 then []
    else
      var last := ents[|ents| - 1];
      LabelledTexts(ents[..|ents| - 1], tag) + (if last.tag == tag then [last.text] else [])
  }

  /** Every text followed by one space. */
  function Spaced(texts: seq<string>): seq<string>
  {
    seq(|texts|, i requires 0 <= i < |texts| => texts[i] + " ")
  }

  /** A box holds the labelled texts, each with its trailing space. */
  lemma {:induction false} BucketIsSpacedTexts(ents: seq<Entity>, tag: string)
    ensures Bucket(ents, tag) == Spaced(LabelledTexts(ents, tag))
    decreases |ents|
  {
    if |ents| > 0 {
      var init := ents[..|ents| - 1];
      BucketIsSpacedTexts(init, tag);
      var last := ents[|ents| - 1];
      var texts := LabelledTexts(init, tag);
      if last.tag == tag {
        assert Spaced(texts + [last.text]) == Spaced(texts) + [last.text + " "];
      } else {
        assert texts + [] == texts;
      }
    }
  }

  /** The number of entities in `ents` labelled `tag`. */
  function CountLabel(ents: seq<Entity>, tag: string): nat
  {
    if |ents| == 0 then 0
    else (if ents[0].tag == tag then 1 else 0) + CountLabel(ents[1..], tag)
  }

  /** Bucketing distributes over concatenation: the entities of a later run
      append to those of an earlier one, in order. */
  lemma {:induction false} BucketAppend(a: seq<Entity>, b: seq<Entity>, tag: string)
    ensures Bucket(a + b, tag) == Bucket(a, tag) + Bucket(b, tag)
    decreases |b|
  {
    if |b| > 0 {
      var b' := b[..|b| - 1];
      assert (a + b)[..|a + b| - 1] == a + b';
      BucketAppend(a, b', tag);
    } else {
      assert a + b == a;
    }
  }

  /** A box receives exactly the texts, each with a trailing space, of the
      entities with its tag: the k-th piece comes from the k-th such entity,
      and there are as many pieces as such entities. */
  lemma {:induction false} BucketContents(ents: seq<Entity>, tag: string)
    ensures |Bucket(ents, tag)| == CountLabel(ents, tag)
    ensures |Bucket(ents, tag)| == |LabelledTexts(ents, tag)|
    ensures forall k :: 0 <= k < |Bucket(ents, tag)| ==> Bucket(ents, tag)[k] == LabelledTexts(ents, tag)[k] + " "
    ensures forall t :: t in Bucket(ents, tag) <==>
      exists i :: 0 <= i < |ents| && ents[i].tag == tag && t == ents[i].text + " "
    decreases |ents|
  {
    BucketIsSpacedTexts(ents, tag);
    if |ents| > 0 {
      var first := [ents[0]];
      assert ents == first + ents[1..];
      BucketAppend(first, ents[1..], tag);
      BucketContents(ents[1..], tag);
      assert Bucket(first, tag) == (if ents[0].tag == tag then [ents[0].text + " "] else []) by {
        assert first[..0] == [];
      }
      forall t
        ensures t in Bucket(ents, tag) <==>
          exists i :: 0 <= i < |ents| && ents[i].tag == tag && t == ents[i].text + " "
      {
        if t in Bucket(ents[1..], tag) {
          var i :| 0 <= i < |ents[1..]| && ents[1..][i].tag == tag && t == ents[1..][i].text + " ";
          assert ents[i + 1] == ents[1..][i];
        }
        if exists i :: 0 <= i < |ents| && ents[i].tag == tag && t == ents[i].text + " " {
          var i :| 0 <= i < |ents| && ents[i].tag == tag && t == ents[i].text + " ";
          if i > 0 {
            assert ents[1..][i - 1] == ents[i];
          }
        }
      }
    }
  }

  /** An entity whose label is not the box's adds nothing to it, whatever
      precedes it. */
  lemma OtherLabelAddsNothing(ents: seq<Entity>, e: Entity, tag: string)
    requires e.tag != tag
    ensures Bucket(ents + [e], tag) == Bucket(ents, tag)
  {
  }

  /** An `IMPRESSION` entity appears in no box. */
  lemma ImpressionIsDropped(ents: seq<Entity>, text: string)
    ensures var e := Entity(text, Impression);
      Bucket(ents + [e], Anat) == Bucket(ents, Anat) &&
      Bucket(ents + [e], ObsPresent) == Bucket(ents, ObsPresent) &&
      Bucket(ents + [e], ObsAbsent) == Bucket(ents, ObsAbsent) &&
      Bucket(ents + [e], ObsUncertain) == Bucket(ents, ObsUncertain)
  {
  }

  /** The entities that reach some box, in order. */
  function Boxed(ents: seq<Entity>): seq<Entity>
  {
    if |ents| == 0 then []
    else (if IsBoxLabel(ents[0].tag) then [ents[0]] else []) + Boxed(ents[1..])
  }

  /** The four boxes partition the boxed entities: every entity with one of
      the four labels lands in exactly one box, every other entity in none. */
  lemma {:induction false} BoxesPartitionBoxed(ents: seq<Entity>)
    ensures |Bucket(ents, Anat)| + |Bucket(ents, ObsPresent)| + |Bucket(ents, ObsAbsent)|
      + |Bucket(ents, ObsUncertain)| == |Boxed(ents)|
    decreases |ents|
  {
    BucketContents(ents, Anat);
    BucketContents(ents, ObsPresent);
    BucketContents(ents, ObsAbsent);
    BucketContents(ents, ObsUncertain);
    CountsPartitionBoxed(ents);
  }

  lemma {:induction false} CountsPartitionBoxed(ents: seq<Entity>)
    ensures CountLabel(ents, Anat) + CountLabel(ents, ObsPresent) + CountLabel(ents, ObsAbsent)
      + CountLabel(ents, ObsUncertain) == |Boxed(ents)|
    decreases |ents|
  {
    if |ents| > 0 {
      CountsPartitionBoxed(ents[1..]);
    }
  }

  /** Dropping the entities of other labels beforehand changes no box. */
  lemma {:induction false} BucketIgnoresOtherLabels(ents: seq<Entity>, tag: string)
    requires IsBoxLabel(tag)
    ensures Bucket(Boxed(ents), tag) == Bucket(ents, tag)
    decreases |ents|
  {
    if |ents| > 0 {
      var first := [ents[0]];
      assert ents == first + ents[1..];
      BucketAppend(first, ents[1..], tag);
      BucketIgnoresOtherLabels(ents[1..], tag);
      var kept := if IsBoxLabel(ents[0].tag) then first else [];
      BucketAppend(kept, Boxed(ents[1..]), tag);
      assert first[..0] == [];
    }
  }

}
