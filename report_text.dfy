/** The string and path manipulation that main.py performs on a loaded report:
    the literal two-character `\n` replacement, the patient id taken from the
    file name, and the split/join pair used between the text boxes and the
    saved record. */
module ReportText {

  // ---------------------------------------------------------------------------
  // Literal backslash-n replacement (`file.read().replace(r'\n', ' ')`)
  // ---------------------------------------------------------------------------

  /** True when `s` has a backslash immediately followed by the letter n at `i`. */
  predicate LiteralNewlineAt(s: string, i: int)
  {
    0 <= i && i + 1 < |s| && s[i] == '\\' && s[i + 1] == 'n'
  }

  predicate NoLiteralNewline(s: string)
  {
    forall i :: 0 <= i < |s| ==> !LiteralNewlineAt(s, i)
  }

  /** Python's `str.replace(r'\n', ' ')`: scan left to right and replace every
      non-overlapping backslash-n pair by one space. A leading 'n' stays a
      leading 'n', which is why a backslash kept in front of the rest of the
      result can never form a new pair (see `ReplaceLeavesNoLiteralNewline`). */
  function ReplaceLiteralNewline(s: string): (r: string)
    ensures |r| <= |s| && (|r| == 0 <==> |s| == 0)
    ensures |s| > 0 ==> (r[0] == 'n' <==> s[0] == 'n')
    decreases |s|
  {
    if |s| < 2 then s
    else if s[0] == '\\' && s[1] == 'n' then [' '] + ReplaceLiteralNewline(s[2..])
    else [s[0]] + ReplaceLiteralNewline(s[1..])
  }

  /** After a load the content holds no backslash-n pair. */
  lemma {:induction false} ReplaceLeavesNoLiteralNewline(s: string)
    ensures NoLiteralNewline(ReplaceLiteralNewline(s))
    decreases |s|
  {
    if |s| >= 2 {
      var skip := if s[0] == '\\' && s[1] == 'n' then 2 else 1;
      var rest := ReplaceLiteralNewline(s[skip..]);
      ReplaceLeavesNoLiteralNewline(s[skip..]);
      var r := ReplaceLiteralNewline(s);
      assert r == [if skip == 2 then ' ' else s[0]] + rest;
      forall i | 0 <= i < |r| ensures !LiteralNewlineAt(r, i) {
        if i > 0 {
          assert !LiteralNewlineAt(rest, i - 1);
        }
      }
    }
  }

  /** How much the count of character `c` changes when `k` backslash-n
      pairs are replaced: spaces gain `k`, backslashes and 'n's lose `k`,
      everything else is untouched. */
  function CountShift(c: char, k: int): int
  {
    if c == ' ' then k else if c == '\\' || c == 'n' then -k else 0
  }

  /** The number of occurrences of `c` in `s`. */
  function Occurrences(s: string, c: char): nat
  {
    if |s| == 0 then 0 else (if s[0] == c then 1 else 0) + Occurrences(s[1..], c)
  }

  /** Every change turns two characters (a backslash and an 'n') into one
      space, so the number of replacements is `|s| - |r|`; every other
      character, real newlines included, keeps its count. */
  lemma {:induction false} ReplaceCounts(s: string, c: char)
    ensures var r := ReplaceLiteralNewline(s);
      Occurrences(r, c) == Occurrences(s, c) + CountShift(c, |s| - |r|)
    decreases |s|
  {
    if |s| >= 2 {
      var r := ReplaceLiteralNewline(s);
      if s[0] == '\\' && s[1] == 'n' {
        var tail := s[2..];
        ReplaceCounts(tail, c);
        assert r[1..] == ReplaceLiteralNewline(tail);
        assert s[1..][1..] == tail;
      } else {
        var tail := s[1..];
        ReplaceCounts(tail, c);
        assert r[1..] == ReplaceLiteralNewline(tail);
      }
    }
  }

  /** Real newline characters are never touched by the replacement. */
  lemma {:induction false} NewlinesPreserved(s: string)
    ensures Occurrences(ReplaceLiteralNewline(s), '\n') == Occurrences(s, '\n')
  {
    ReplaceCounts(s, '\n');
  }

  /** A real newline at the front is kept, and the rest is replaced. */
  lemma NewlineFirst(b: string)
    ensures ReplaceLiteralNewline("\n" + b) == "\n" + ReplaceLiteralNewline(b)
  {
    var s := "\n" + b;
    if |b| > 0 {
      assert s[1..] == b;
    }
  }

  /** The replacement works line by line: a real newline stays where it is,
      and the text before and after it is replaced on its own. */
  lemma {:induction false} NewlineSplits(a: string, b: string)
    ensures ReplaceLiteralNewline(a + "\n" + b) == ReplaceLiteralNewline(a) + "\n" + ReplaceLiteralNewline(b)
    decreases |a|
  {
    var s := a + "\n" + b;
    NewlineFirst(b);
    if |a| == 0 {
      assert s == "\n" + b;
    } else if |a| == 1 {
      assert s[0] == a[0] && s[1] == '\n' && s[1..] == "\n" + b;
    } else {
      var k := if a[0] == '\\' && a[1] == 'n' then 2 else 1;
      var head := if k == 2 then " " else [a[0]];
      var rest := a[k..];
      assert s[0] == a[0] && s[1] == a[1] && s[k..] == rest + "\n" + b;
      NewlineSplits(rest, b);
      var ra, rb := ReplaceLiteralNewline(rest), ReplaceLiteralNewline(b);
      assert ReplaceLiteralNewline(s) == head + (ra + "\n" + rb);
      assert ReplaceLiteralNewline(a) == head + ra;
      ConcatRegroup(head, ra, "\n", rb);
    }
  }

  /** Regrouping a concatenation of four strings. */
  lemma ConcatRegroup(h: string, x: string, m: string, y: string)
    ensures h + (x + m + y) == h + x + m + y
  {
  }

  /** A text without any backslash-n pair is left as it is. */
  lemma {:induction false} ReplaceWithoutLiteralNewline(s: string)
    requires NoLiteralNewline(s)
    ensures ReplaceLiteralNewline(s) == s
    decreases |s|
  {
    if |s| >= 2 {
      assert !LiteralNewlineAt(s, 0);
      assert forall i :: 0 <= i < |s[1..]| ==> (LiteralNewlineAt(s[1..], i) <==> LiteralNewlineAt(s, i + 1));
      ReplaceWithoutLiteralNewline(s[1..]);
      assert s == [s[0]] + s[1..];
    }
  }

  /** Loading the same text twice gives the same content: the replacement is
      idempotent. */
  lemma {:induction false} ReplaceIdempotent(s: string)
    ensures ReplaceLiteralNewline(ReplaceLiteralNewline(s)) == ReplaceLiteralNewline(s)
  {
    ReplaceLeavesNoLiteralNewline(s);
    ReplaceWithoutLiteralNewline(ReplaceLiteralNewline(s));
  }

  /** The two cases the loader distinguishes: the two characters backslash, n
      become a space, a real newline character stays. */
  lemma ReplaceExamples()
    ensures ReplaceLiteralNewline("a\\nb") == "a b"
    ensures ReplaceLiteralNewline("a\nb") == "a\nb"
  {
  }

  // ---------------------------------------------------------------------------
  // Patient id (`os.path.basename(self.file_name).split('.')[0]`)
  // ---------------------------------------------------------------------------

  /** `posixpath.basename`: everything after the last '/'. */
  function BaseName(path: string): (r: string)
    ensures |r| <= |path| && r == path[|path| - |r|..]
    ensures '/' !in r
    ensures |r| < |path| ==> path[|path| - |r| - 1] == '/'
  {
    if |path| == 0 || path[|path| - 1] == '/' then ""
    else
      var init := path[..|path| - 1];
      var r := BaseName(init) + [path[|path| - 1]];
      assert path == init + [path[|path| - 1]];
      r
  }

  /** `s.split('.')[0]`: the prefix of `s` up to its first '.', or all of `s`. */
  function FirstDotSegment(s: string): (r: string)
    ensures |r| <= |s| && r == s[..|r|]
    ensures '.' !in r
    ensures |r| < |s| ==> s[|r|] == '.'
  {
    if |s| == 0 || s[0] == '.' then ""
    else
      var r := [s[0]] + FirstDotSegment(s[1..]);
      assert s == [s[0]] + s[1..];
      r
  }

  /** The patient id that `show_results` derives from the chosen file's path. */
  function PatientId(path: string): (id: string)
    ensures |id| <= |path|
    ensures '.' !in id && '/' !in id
  {
    FirstDotSegment(BaseName(path))
  }

  /** The patient id is the prefix of the path's last component up to its
      first '.', contains neither '.' nor '/', and is the whole last component
      when that has no dot. */
  lemma PatientIdShape(path: string)
    ensures var base := BaseName(path); var id := PatientId(path);
      id == base[..|id|] &&
      '.' !in id && '/' !in id &&
      ('.' !in base ==> id == base) &&
      (|id| < |base| ==> base[|id|] == '.')
  {
  }

  /** A path without any '/' is its own base name. */
  lemma BaseNameWithoutSlash(path: string)
    requires '/' !in path
    ensures BaseName(path) == path
  {
  }

  /** The first segment ends exactly at the first dot. */
  lemma FirstDotSegmentAt(s: string, k: nat)
    requires k < |s| && s[k] == '.' && '.' !in s[..k]
    ensures FirstDotSegment(s) == s[..k]
  {
  }

  /** A file name with one dot. */
  lemma PatientIdOneDotExample()
    ensures PatientId("case001.txt") == "case001"
  {
    PatientIdOfFileName("case001.txt", 7);
  }

  /** A file name with several dots keeps only what precedes the first. */
  lemma PatientIdTwoDotsExample()
    ensures PatientId("case.final.txt") == "case"
  {
    PatientIdOfFileName("case.final.txt", 4);
  }

  /** The directory part of the path is dropped. */
  lemma PatientIdWithDirectoryExample()
    ensures PatientId("/reports/p1.txt") == "p1"
  {
    var path := "/reports/p1.txt";
    assert path[8] == '/' && path[9..] == "p1.txt";
    PatientIdOfFileName("p1.txt", 2);
  }

  /** For a name without directory whose first dot is at `k`. */
  lemma PatientIdOfFileName(name: string, k: nat)
    requires '/' !in name
    requires k < |name| && name[k] == '.' && '.' !in name[..k]
    ensures PatientId(name) == name[..k]
  {
  }

  // ---------------------------------------------------------------------------
  // Box text and the saved lists (`toPlainText()` and `.split(" \n")`)
  // ---------------------------------------------------------------------------

  /** `sep.join(pieces)`. */
  function Join(pieces: seq<string>, sep: string): string
  {
    if |pieces| == 0 then ""
    else if |pieces| == 1 then pieces[0]
    else pieces[0] + sep + Join(pieces[1..], sep)
  }

  /** True when `s` contains the two characters space, newline at `i`. */
  predicate SpaceNewlineAt(s: string, i: int)
  {
    0 <= i && i + 1 < |s| && s[i] == ' ' && s[i + 1] == '\n'
  }

  predicate NoSpaceNewline(s: string)
  {
    forall i :: 0 <= i < |s| ==> !SpaceNewlineAt(s, i)
  }

  /** Python's `s.split(" \n")`: cut `s` at every non-overlapping occurrence of
      space-newline, left to right. The result is never empty (`"".split(x)`
      is `[""]`); see `SplitRejoins` and `SplitPiecesClean` for what the pieces
      are. */
  function SplitOnSpaceNewline(s: string): (r: seq<string>)
    ensures |r| >= 1
    ensures |r[0]| > 0 ==> |s| > 0 && r[0][0] == s[0]
    decreases |s|
  {
    if |s| < 2 then [s]
    else if s[0] == ' ' && s[1] == '\n' then [""] + SplitOnSpaceNewline(s[2..])
    else
      var rest := SplitOnSpaceNewline(s[1..]);
      [[s[0]] + rest[0]] + rest[1..]
  }

  /** Joining the pieces back with the separator gives the text again. */
  lemma {:induction false} SplitRejoins(s: string)
    ensures Join(SplitOnSpaceNewline(s), " \n") == s
    decreases |s|
  {
    if |s| >= 2 {
      var r := SplitOnSpaceNewline(s);
      if s[0] == ' ' && s[1] == '\n' {
        var rest := SplitOnSpaceNewline(s[2..]);
        SplitRejoins(s[2..]);
        assert r == [""] + rest && r[1..] == rest;
        assert Join(r, " \n") == "" + " \n" + s[2..];
        assert s == " \n" + s[2..];
      } else {
        var rest := SplitOnSpaceNewline(s[1..]);
        SplitRejoins(s[1..]);
        assert r == [[s[0]] + rest[0]] + rest[1..];
        assert s == [s[0]] + s[1..];
        if |rest| > 1 {
          assert r[1..] == rest[1..];
          var tail := Join(rest[1..], " \n");
          assert Join(r, " \n") == [s[0]] + rest[0] + " \n" + tail;
          assert s[1..] == rest[0] + " \n" + tail;
          ConcatRegroup([s[0]], rest[0], " \n", tail);
        }
      }
    }
  }

  /** No piece contains the separator. */
  lemma {:induction false} SplitPiecesClean(s: string)
    ensures forall k :: 0 <= k < |SplitOnSpaceNewline(s)| ==> NoSpaceNewline(SplitOnSpaceNewline(s)[k])
    decreases |s|
  {
    if |s| >= 2 {
      var r := SplitOnSpaceNewline(s);
      if s[0] == ' ' && s[1] == '\n' {
        var rest := SplitOnSpaceNewline(s[2..]);
        SplitPiecesClean(s[2..]);
        assert r == [""] + rest;
        assert forall k :: 1 <= k < |r| ==> r[k] == rest[k - 1];
      } else {
        var rest := SplitOnSpaceNewline(s[1..]);
        SplitPiecesClean(s[1..]);
        var first := [s[0]] + rest[0];
        assert r == [first] + rest[1..];
        assert NoSpaceNewline(first) by {
          forall i | 0 <= i < |first| ensures !SpaceNewlineAt(first, i) {
            if i > 0 {
              assert !SpaceNewlineAt(rest[0], i - 1);
            }
          }
        }
        assert forall k :: 1 <= k < |r| ==> r[k] == rest[k];
      }
    }
  }

  /** Splitting text that was joined with the separator gives the pieces back,
      provided no piece contains the separator itself. */
  lemma {:induction false} SplitJoin(pieces: seq<string>)
    requires |pieces| >= 1
    requires forall k :: 0 <= k < |pieces| ==> NoSpaceNewline(pieces[k])
    ensures SplitOnSpaceNewline(Join(pieces, " \n")) == pieces
    decreases |pieces|, |pieces[0]|
  {
    var s := Join(pieces, " \n");
    var p := pieces[0];
    if |p| == 0 {
      if |pieces| > 1 {
        assert s == " \n" + Join(pieces[1..], " \n");
        assert s[2..] == Join(pieces[1..], " \n");
        SplitJoin(pieces[1..]);
        assert pieces == [""] + pieces[1..];
      }
    } else {
      // peel off the first character of the first piece
      var shorter := [p[1..]] + pieces[1..];
      assert NoSpaceNewline(p[1..]) by {
        forall i | 0 <= i < |p[1..]| ensures !SpaceNewlineAt(p[1..], i) {
          assert !SpaceNewlineAt(p, i + 1);
        }
      }
      assert forall k :: 0 <= k < |shorter| ==> NoSpaceNewline(shorter[k]) by {
        forall k | 0 <= k < |shorter| ensures NoSpaceNewline(shorter[k]) {
          if k > 0 { assert shorter[k] == pieces[k]; }
        }
      }
      if |pieces| == 1 {
        assert s == p;
        assert Join(shorter, " \n") == p[1..];
      } else {
        var tail := Join(pieces[1..], " \n");
        assert s == p + " \n" + tail;
        assert Join(shorter, " \n") == p[1..] + " \n" + tail;
        assert p == [p[0]] + p[1..];
        ConcatRegroup([p[0]], p[1..], " \n", tail);
      }
      assert s == [p[0]] + Join(shorter, " \n");
      assert s[1..] == Join(shorter, " \n");
      SplitJoin(shorter);
      assert |s| >= 2 ==> !(s[0] == ' ' && s[1] == '\n') by {
        if |s| >= 2 && |p| >= 2 {
          assert !SpaceNewlineAt(p, 0);
        } else if |s| >= 2 && |p| == 1 {
          assert |pieces| > 1;
          assert s[1] == ' ';
        }
      }
      assert [p[0]] + p[1..] == p;
      assert pieces == [p] + pieces[1..];
    }
  }

}
