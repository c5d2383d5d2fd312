/** `BiradsClassifier.get_classification`: the classifier pipeline produces a
    label -> score mapping (`doc.cats`); its items are sorted by score,
    highest first, with Python's stable `sorted(..., reverse=True)`, and the
    label of the first item is returned. The pipeline itself is not modelled:
    its mapping is an input, in the mapping's iteration order. */
module BiradsClassifier {

  /** One item of `doc.cats.items()`. */
  datatype ScoredLabel = ScoredLabel(name: string, score: real)

  /** Scores never increase along `s`. */
  predicate NonIncreasing(s: seq<ScoredLabel>)
  {
    forall i, j :: 0 <= i < j < |s| ==> s[i].score >= s[j].score
  }

  /** The items of `s` whose score is exactly `v`, in their order in `s`.
      A sort is stable exactly when it keeps every one of these sequences. */
  function WithScore(s: seq<ScoredLabel>, v: real): seq<ScoredLabel>
  {
    if |s| == 0 then []
    else (if s[0].score == v then [s[0]] else []) + WithScore(s[1..], v)
  }

  /** Put `x` in front of the first item of `t` whose score is not higher
      than its own: after every strictly higher item and before every item of
      equal score. */
  function Insert(x: ScoredLabel, t: seq<ScoredLabel>): (r: seq<ScoredLabel>)
    ensures |r| == |t| + 1
    ensures r[0] == x || (|t| > 0 && r[0] == t[0])
  {
    if |t| == 0 || t[0].score <= x.score then [x] + t
    else [t[0]] + Insert(x, t[1..])
  }

  /** Inserting into a non-increasing sequence keeps it non-increasing. */
  lemma {:induction false} InsertSorted(x: ScoredLabel, t: seq<ScoredLabel>)
    requires NonIncreasing(t)
    ensures NonIncreasing(Insert(x, t))
    decreases |t|
  {
    if |t| > 0 && t[0].score > x.score {
      var rest := Insert(x, t[1..]);
      InsertSorted(x, t[1..]);
      assert rest[0].score <= t[0].score;
      var r := [t[0]] + rest;
      assert r == Insert(x, t);
      forall i, j | 0 <= i < j < |r| ensures r[i].score >= r[j].score {
        assert r[j] == rest[j - 1];
        if i > 0 {
          assert r[i] == rest[i - 1];
        }
      }
    }
  }

  /** Inserting adds exactly `x` to the items. */
  lemma {:induction false} InsertPermutes(x: ScoredLabel, t: seq<ScoredLabel>)
    ensures multiset(Insert(x, t)) == multiset(t) + multiset{x}
    decreases |t|
  {
    if |t| > 0 && t[0].score > x.score {
      InsertPermutes(x, t[1..]);
      assert t == [t[0]] + t[1..];
      assert Insert(x, t) == [t[0]] + Insert(x, t[1..]);
    }
  }

  /** `sorted(items, key=score, reverse=True)`: a stable sort, highest score
      first, written as an insertion sort from the back of the sequence so
      that of two items with equal score the earlier is placed first. */
  function SortByScoreDescending(s: seq<ScoredLabel>): (r: seq<ScoredLabel>)
    ensures |r| == |s|
  {
    if |s| == 0 then [] else Insert(s[0], SortByScoreDescending(s[1..]))
  }

  /** The sorted items never increase in score. */
  lemma {:induction false} SortIsOrdered(s: seq<ScoredLabel>)
    ensures NonIncreasing(SortByScoreDescending(s))
    decreases |s|
  {
    if |s| > 0 {
      SortIsOrdered(s[1..]);
      InsertSorted(s[0], SortByScoreDescending(s[1..]));
    }
  }

  /** The sorted items are a permutation of the mapping's items. */
  lemma {:induction false} SortPermutes(s: seq<ScoredLabel>)
    ensures multiset(SortByScoreDescending(s)) == multiset(s)
    decreases |s|
  {
    if |s| > 0 {
      SortPermutes(s[1..]);
      InsertPermutes(s[0], SortByScoreDescending(s[1..]));
      assert s == [s[0]] + s[1..];
    }
  }

  /** Inserting `x` adds it in front of the items of its own score and leaves
      the order among every score class as it was. */
  lemma {:induction false} InsertKeepsScoreClasses(x: ScoredLabel, t: seq<ScoredLabel>, v: real)
    ensures WithScore(Insert(x, t), v) == (if x.score == v then [x] else []) + WithScore(t, v)
    decreases |t|
  {
    var r := Insert(x, t);
    if |t| == 0 || t[0].score <= x.score {
      assert r == [x] + t;
      assert r[1..] == t;
    } else {
      var rest := Insert(x, t[1..]);
      InsertKeepsScoreClasses(x, t[1..], v);
      assert r == [t[0]] + rest;
      assert r[1..] == rest;
      assert WithScore(r, v) == (if t[0].score == v then [t[0]] else []) + WithScore(rest, v);
      assert WithScore(t, v) == (if t[0].score == v then [t[0]] else []) + WithScore(t[1..], v);
    }
  }

  /** Stability: among items of equal score, the sorted order is the original
      order. */
  lemma {:induction false} SortIsStable(s: seq<ScoredLabel>, v: real)
    ensures WithScore(SortByScoreDescending(s), v) == WithScore(s, v)
    decreases |s|
  {
    if |s| > 0 {
      SortIsStable(s[1..], v);
      InsertKeepsScoreClasses(s[0], SortByScoreDescending(s[1..]), v);
    }
  }

  /** Every item among those scored `v` is an item of `s` scored `v`. */
  lemma {:induction false} WithScoreMembers(s: seq<ScoredLabel>, v: real)
    ensures forall x :: x in WithScore(s, v) ==> x in s && x.score == v
    decreases |s|
  {
    if |s| > 0 {
      WithScoreMembers(s[1..], v);
    }
  }

  /** A stable sort by descending score is determined by its input: two
      arrangements that both never increase in score and both keep the order
      within every score class are the same sequence. So the insertion sort
      above is the one arrangement `sorted(..., reverse=True)` may return. */
  lemma {:induction false} StableDescendingIsUnique(r1: seq<ScoredLabel>, r2: seq<ScoredLabel>)
    requires NonIncreasing(r1) && NonIncreasing(r2)
    requires forall v :: WithScore(r1, v) == WithScore(r2, v)
    ensures r1 == r2
    decreases |r1| + |r2|
  {
    if |r1| > 0 {
      HeadInOther(r1, r2);
    }
    if |r2| > 0 {
      HeadInOther(r2, r1);
    }
    if |r1| > 0 && |r2| > 0 {
      var m := r1[0].score;
      assert r2[0].score == m;
      assert WithScore(r1, m)[0] == r1[0];
      assert WithScore(r2, m)[0] == r2[0];
      assert r1[0] == r2[0];
      forall v ensures WithScore(r1[1..], v) == WithScore(r2[1..], v) {
        var head := if m == v then [r1[0]] else [];
        assert WithScore(r1, v) == head + WithScore(r1[1..], v);
        assert WithScore(r2, v) == head + WithScore(r2[1..], v);
        assert WithScore(r1, v) == WithScore(r2, v);
        assert WithScore(r1[1..], v) == WithScore(r1, v)[|head|..];
        assert WithScore(r2[1..], v) == WithScore(r2, v)[|head|..];
      }
      StableDescendingIsUnique(r1[1..], r2[1..]);
      assert r1 == [r1[0]] + r1[1..];
      assert r2 == [r2[0]] + r2[1..];
    }
  }

  /** The head of a non-increasing `r` occurs in any `o` with the same score
      classes, and its score is at least every score of `o`. */
  lemma {:induction false} HeadInOther(r: seq<ScoredLabel>, o: seq<ScoredLabel>)
    requires |r| > 0 && NonIncreasing(r)
    requires forall v :: WithScore(r, v) == WithScore(o, v)
    ensures |o| > 0
    ensures forall j :: 0 <= j < |o| ==> o[j].score <= r[0].score
  {
    var m := r[0].score;
    assert WithScore(r, m)[0] == r[0];
    WithScoreMembers(o, m);
    assert r[0] in WithScore(o, m);
    forall j | 0 <= j < |o| ensures o[j].score <= m {
      var v := o[j].score;
      OwnScoreClass(o, j);
      WithScoreMembers(r, v);
      assert o[j] in WithScore(r, v);
      var i :| 0 <= i < |r| && r[i] == o[j];
    }
  }

  /** Every item is in its own score class. */
  lemma {:induction false} OwnScoreClass(s: seq<ScoredLabel>, j: nat)
    requires j < |s|
    ensures s[j] in WithScore(s, s[j].score)
    decreases j
  {
    if j > 0 {
      OwnScoreClass(s[1..], j - 1);
    }
  }

  /** Hence the model's sort is characterised by Python's contract for
      `sorted(key=..., reverse=True)`: any non-increasing arrangement that keeps
      the order within every score class is it. */
  lemma {:induction false} SortIsTheStableDescendingOrder(s: seq<ScoredLabel>, r: seq<ScoredLabel>)
    requires NonIncreasing(r)
    requires forall v :: WithScore(r, v) == WithScore(s, v)
    ensures r == SortByScoreDescending(s)
  {
    forall v ensures WithScore(r, v) == WithScore(SortByScoreDescending(s), v) {
      SortIsStable(s, v);
    }
    SortIsOrdered(s);
    StableDescendingIsUnique(r, SortByScoreDescending(s));
  }

  /** `get_classification`: the label of the first item after sorting. An empty
      mapping makes the `[0]` indexing fail, so the mapping must be non-empty. */
  function GetClassification(cats: seq<ScoredLabel>): (top: string)
    requires |cats| > 0
    ensures exists i :: 0 <= i < |cats| && cats[i].name == top
  {
    var sorted := SortByScoreDescending(cats);
    SortPermutes(cats);
    assert sorted[0] in multiset(cats);
    sorted[0].name
  }

  // ---------------------------------------------------------------------------
  // A reference argmax, and the proof that the sort-then-take-first agrees
  // ---------------------------------------------------------------------------

  /** The highest score in `s`. */
  function MaxScore(s: seq<ScoredLabel>): (m: real)
    requires |s| > 0
    ensures forall i :: 0 <= i < |s| ==> s[i].score <= m
    ensures exists i :: 0 <= i < |s| && s[i].score == m
  {
    if |s| == 1 then s[0].score
    else
      var m := MaxScore(s[1..]);
      assert forall i :: 1 <= i < |s| ==> s[i] == s[1..][i - 1];
      if s[0].score >= m then s[0].score else m
  }

  /** The position of the first item of `s` scored `v`. */
  function FirstWithScore(s: seq<ScoredLabel>, v: real): (k: nat)
    requires exists i :: 0 <= i < |s| && s[i].score == v
    ensures k < |s| && s[k].score == v
    ensures forall j :: 0 <= j < k ==> s[j].score != v
  {
    if s[0].score == v then 0
    else
      assert exists i :: 0 <= i < |s[1..]| && s[1..][i].score == v by {
        var i :| 0 <= i < |s| && s[i].score == v;
        assert s[1..][i - 1] == s[i];
      }
      1 + FirstWithScore(s[1..], v)
  }

  /** The first item of the items scored `v` is the first item of `s` scored `v`. */
  lemma {:induction false} WithScoreHead(s: seq<ScoredLabel>, v: real)
    requires exists i :: 0 <= i < |s| && s[i].score == v
    ensures |WithScore(s, v)| > 0 && WithScore(s, v)[0] == s[FirstWithScore(s, v)]
    decreases |s|
  {
    if s[0].score != v {
      assert exists i :: 0 <= i < |s[1..]| && s[1..][i].score == v by {
        var i :| 0 <= i < |s| && s[i].score == v;
        assert s[1..][i - 1] == s[i];
      }
      WithScoreHead(s[1..], v);
    }
  }

  /** The first sorted item carries the highest score of the mapping. */
  lemma {:induction false} SortedHeadScoresMax(cats: seq<ScoredLabel>)
    requires |cats| > 0
    ensures SortByScoreDescending(cats)[0].score == MaxScore(cats)
  {
    var m := MaxScore(cats);
    var sorted := SortByScoreDescending(cats);
    SortPermutes(cats);
    SortIsOrdered(cats);
    assert sorted[0] in multiset(cats);
    var i :| 0 <= i < |cats| && cats[i].score == m;
    assert cats[i] in multiset(sorted);
  }

  /** The returned label belongs to the earliest item, in the mapping's order,
      among those with the highest score: its score is at least every other
      score, and every item before it scores strictly less. */
  lemma {:induction false} TopLabelIsFirstMaximum(cats: seq<ScoredLabel>)
    requires |cats| > 0
    ensures var k := FirstWithScore(cats, MaxScore(cats));
      GetClassification(cats) == cats[k].name &&
      (forall j :: 0 <= j < |cats| ==> cats[j].score <= cats[k].score) &&
      (forall j :: 0 <= j < k ==> cats[j].score < cats[k].score)
  {
    var m := MaxScore(cats);
    var sorted := SortByScoreDescending(cats);
    SortedHeadScoresMax(cats);
    // the sorted head is the first item scored m in the sorted order, so in the original
    WithScoreHead(sorted, m);
    SortIsStable(cats, m);
    WithScoreHead(cats, m);
  }

}
