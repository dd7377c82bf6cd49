/**
 * The document scan of the completion engine: all non-overlapping matches,
 * leftmost first, of the pattern
 *   (?:^|\b|(?<=\W))  partialWord  \w+?  (?:$|\b)
 * with the partial word taken literally. Word characters are the ASCII
 * class [A-Za-z0-9_].
 */
module WordScan {

  predicate IsWordChar(c: char) {
    ('a' <= c <= 'z') || ('A' <= c <= 'Z') || ('0' <= c <= '9') || c == '_'
  }

  predicate AllWordChars(s: string) {
    forall k :: 0 <= k < |s| ==> IsWordChar(s[k])
  }

  /** The end of the run of word characters starting at `j`. */
  function RunEnd(t: string, j: nat): (e: nat)
    requires j <= |t|
    ensures j <= e <= |t|
    ensures forall k :: j <= k < e ==> IsWordChar(t[k])
    ensures e == |t| || !IsWordChar(t[e])
    decreases |t| - j
  {
    if j == |t| || !IsWordChar(t[j]) then j else RunEnd(t, j + 1)
  }

  /** `\b`: a word character on exactly one side of position `i`. */
  predicate WordBoundaryAt(t: string, i: nat)
    requires i <= |t|
  {
    (i > 0 && IsWordChar(t[i - 1])) != (i < |t| && IsWordChar(t[i]))
  }

  /** `(?<=\W)`: the character before position `i` is not a word character. */
  predicate AfterNonWordAt(t: string, i: nat)
    requires i <= |t|
  {
    i > 0 && !IsWordChar(t[i - 1])
  }

  /** `(?:$|\b)`: the end of the text or a word boundary. */
  predicate EndAnchorAt(t: string, e: nat)
    requires e <= |t|
  {
    e == |t| || WordBoundaryAt(t, e)
  }

  /**
   * Where the leading group `(?:^|\b|(?<=\W))` can match, in the simpler
   * form the scan uses: at the start, after a non-word character, or where
   * a word character is followed by a non-word one.
   */
  predicate AnchorAt(t: string, i: nat)
    requires i < |t|
    ensures AnchorAt(t, i) <==> i == 0 || WordBoundaryAt(t, i) || AfterNonWordAt(t, i)
  {
    i == 0 || !IsWordChar(t[i - 1]) || !IsWordChar(t[i])
  }

  /**
   * The pattern matches starting at `i`: the partial word is there, the
   * anchor holds, and at least one word character follows it (the lazy
   * `\w+?` then stretches to the end of that word run, the first place
   * where `$` or `\b` holds).
   */
  predicate MatchAt(t: string, p: string, i: nat) {
    && i + |p| < |t|
    && t[i..i + |p|] == p
    && AnchorAt(t, i)
    && IsWordChar(t[i + |p|])
  }

  /**
   * Some way of matching `\w+?(?:$|\b)` after the partial word placed at `i`
   * ends at `e`: a non-empty run of word characters followed by the end of
   * the text or a word boundary.
   */
  ghost predicate TailMatchesTo(t: string, p: string, i: nat, e: nat) {
    i + |p| < e <= |t| && AllWordChars(t[i + |p|..e]) && EndAnchorAt(t, e)
  }

  /** `MatchAt` is the pattern read literally: anchor, partial word, then a word tail. */
  lemma MatchAtIsRegexMatch(t: string, p: string, i: nat)
    ensures MatchAt(t, p, i) <==>
      && i + |p| <= |t| && i < |t|
      && t[i..i + |p|] == p
      && (i == 0 || WordBoundaryAt(t, i) || AfterNonWordAt(t, i))
      && exists e :: TailMatchesTo(t, p, i, e)
  {
    var j := i + |p|;
    if MatchAt(t, p, i) {
      var e := RunEnd(t, j);
      assert AllWordChars(t[j..e]) by {
        forall k | 0 <= k < e - j
          ensures IsWordChar(t[j..e][k])
        {
          assert t[j..e][k] == t[j + k];
        }
      }
      assert TailMatchesTo(t, p, i, e);
    }
    if j < |t| && exists e :: TailMatchesTo(t, p, i, e) {
      var e: nat :| TailMatchesTo(t, p, i, e);
      assert t[j..e][0] == t[j];
    }
  }

  /**
   * The lazy `\w+?` stops at the first place where `$` or `\b` holds: the
   * match end is a tail end, and no earlier position is one.
   */
  lemma MatchEndIsLazyEnd(t: string, p: string, i: nat)
    requires MatchAt(t, p, i)
    ensures TailMatchesTo(t, p, i, MatchEnd(t, p, i))
    ensures forall e :: i + |p| < e < MatchEnd(t, p, i) ==> !TailMatchesTo(t, p, i, e)
  {
  }

  function MatchEnd(t: string, p: string, i: nat): (e: nat)
    requires MatchAt(t, p, i)
    ensures i + |p| < e <= |t|
  {
    RunEnd(t, i + |p|)
  }

  /** Start positions of the matches found scanning from `from`. */
  function Scan(t: string, p: string, from: nat): (s: seq<nat>)
    requires from <= |t|
    ensures forall k :: 0 <= k < |s| ==> from <= s[k] && MatchAt(t, p, s[k])
    decreases |t| - from
  {
    if from == |t| then []
    else if MatchAt(t, p, from) then [from] + Scan(t, p, MatchEnd(t, p, from))
    else Scan(t, p, from + 1)
  }

  /** Position `j` lies within one of the matches starting in `s`. */
  ghost predicate Covered(t: string, p: string, s: seq<nat>, j: nat) {
    exists k :: 0 <= k < |s| && MatchAt(t, p, s[k]) && s[k] <= j < MatchEnd(t, p, s[k])
  }

  /**
   * The leftmost-first, non-overlapping match enumeration: matches in
   * increasing order, each starting where the previous one ended or later,
   * and every place the pattern could match lies inside a reported match.
   */
  ghost predicate IsLeftmostScan(t: string, p: string, from: nat, s: seq<nat>) {
    && (forall k :: 0 <= k < |s| ==> from <= s[k] && MatchAt(t, p, s[k]))
    && NonOverlapping(t, p, s)
    && (forall j :: from <= j < |t| && MatchAt(t, p, j) ==> Covered(t, p, s, j))
  }

  /** Every place the pattern matches at or after `from` lies inside a match the scan reports. */
  lemma {:induction false} ScanCovers(t: string, p: string, from: nat, j: nat)
    requires from <= j < |t|
    requires MatchAt(t, p, j)
    ensures Covered(t, p, Scan(t, p, from), j)
    decreases |t| - from
  {
    var s := Scan(t, p, from);
    if MatchAt(t, p, from) {
      var e := MatchEnd(t, p, from);
      var rest := Scan(t, p, e);
      assert s == [from] + rest;
      if j < e {
        assert s[0] == from;
      } else {
        ScanCovers(t, p, e, j);
        var k :| 0 <= k < |rest| && MatchAt(t, p, rest[k]) && rest[k] <= j < MatchEnd(t, p, rest[k]);
        assert s[k + 1] == rest[k];
      }
    } else {
      assert j != from;
      ScanCovers(t, p, from + 1, j);
    }
  }

  /** Each match starts at or after the end of the previous one. */
  ghost predicate NonOverlapping(t: string, p: string, s: seq<nat>)
    requires forall k :: 0 <= k < |s| ==> MatchAt(t, p, s[k])
  {
    forall k1, k2 :: 0 <= k1 < k2 < |s| ==> MatchEnd(t, p, s[k1]) <= s[k2]
  }

  /** A match followed by non-overlapping matches that start after it is non-overlapping. */
  lemma ConsNonOverlapping(t: string, p: string, i: nat, rest: seq<nat>, s: seq<nat>)
    requires MatchAt(t, p, i)
    requires forall k :: 0 <= k < |rest| ==> MatchEnd(t, p, i) <= rest[k] && MatchAt(t, p, rest[k])
    requires NonOverlapping(t, p, rest)
    requires s == [i] + rest
    ensures forall k :: 0 <= k < |s| ==> MatchAt(t, p, s[k])
    ensures NonOverlapping(t, p, s)
  {
    forall k1, k2 | 0 <= k1 < k2 < |s|
      ensures MatchEnd(t, p, s[k1]) <= s[k2]
    {
      assert s[k2] == rest[k2 - 1];
      if k1 > 0 {
        assert s[k1] == rest[k1 - 1];
      }
    }
  }

  /** One step of the scan where the pattern matches. */
  lemma ScanStepMatch(t: string, p: string, from: nat)
    requires from < |t| && MatchAt(t, p, from)
    ensures Scan(t, p, from) == [from] + Scan(t, p, MatchEnd(t, p, from))
  {
  }

  /** One step of the scan where it does not. */
  lemma ScanStepSkip(t: string, p: string, from: nat)
    requires from < |t| && !MatchAt(t, p, from)
    ensures Scan(t, p, from) == Scan(t, p, from + 1)
  {
  }

  /** The order of the scan survives a step at a match... */
  lemma ScanOrderedAtMatch(t: string, p: string, from: nat)
    requires from < |t| && MatchAt(t, p, from)
    requires NonOverlapping(t, p, Scan(t, p, MatchEnd(t, p, from)))
    ensures NonOverlapping(t, p, Scan(t, p, from))
  {
    ScanStepMatch(t, p, from);
    ConsNonOverlapping(t, p, from, Scan(t, p, MatchEnd(t, p, from)), Scan(t, p, from));
  }

  /** ...and a step past a non-match. */
  lemma ScanOrderedSkip(t: string, p: string, from: nat)
    requires from < |t| && !MatchAt(t, p, from)
    requires NonOverlapping(t, p, Scan(t, p, from + 1))
    ensures NonOverlapping(t, p, Scan(t, p, from))
  {
    ScanStepSkip(t, p, from);
  }

  lemma {:induction false} ScanOrdered(t: string, p: string, from: nat)
    requires from <= |t|
    ensures NonOverlapping(t, p, Scan(t, p, from))
    decreases |t| - from
  {
    if from < |t| {
      if MatchAt(t, p, from) {
        ScanOrdered(t, p, MatchEnd(t, p, from));
        ScanOrderedAtMatch(t, p, from);
      } else {
        ScanOrdered(t, p, from + 1);
        ScanOrderedSkip(t, p, from);
      }
    }
  }

  lemma ScanIsLeftmost(t: string, p: string, from: nat)
    requires from <= |t|
    ensures IsLeftmostScan(t, p, from, Scan(t, p, from))
  {
    ScanOrdered(t, p, from);
    forall j | from <= j < |t| && MatchAt(t, p, j)
      ensures Covered(t, p, Scan(t, p, from), j)
    {
      ScanCovers(t, p, from, j);
    }
  }

  /** A leftmost scan from `from` that does not start with a match at `from` is one from `from + 1`. */
  lemma LeftmostScanSkip(t: string, p: string, from: nat, s: seq<nat>)
    requires from < |t|
    requires !MatchAt(t, p, from)
    requires IsLeftmostScan(t, p, from, s)
    ensures IsLeftmostScan(t, p, from + 1, s)
  {
    forall k | 0 <= k < |s|
      ensures from + 1 <= s[k]
    {
      assert MatchAt(t, p, s[k]);
    }
  }

  /** A leftmost scan from a matching position starts with that match. */
  lemma LeftmostScanHead(t: string, p: string, from: nat, s: seq<nat>)
    requires from < |t|
    requires MatchAt(t, p, from)
    requires IsLeftmostScan(t, p, from, s)
    ensures |s| > 0 && s[0] == from
  {
    assert Covered(t, p, s, from);
    var k :| 0 <= k < |s| && MatchAt(t, p, s[k]) && s[k] <= from < MatchEnd(t, p, s[k]);
    assert forall k2 :: 0 < k2 < |s| ==> MatchEnd(t, p, s[0]) <= s[k2];
    assert k == 0;
  }

  /** The matches after the first start at or after its end. */
  lemma AfterFirstMatch(t: string, p: string, s: seq<nat>)
    requires |s| > 0
    requires forall k :: 0 <= k < |s| ==> MatchAt(t, p, s[k])
    requires NonOverlapping(t, p, s)
    ensures forall k :: 0 <= k < |s[1..]| ==> MatchEnd(t, p, s[0]) <= s[1..][k] && MatchAt(t, p, s[1..][k])
    ensures NonOverlapping(t, p, s[1..])
  {
    var rest := s[1..];
    forall k | 0 <= k < |rest|
      ensures MatchEnd(t, p, s[0]) <= rest[k] && MatchAt(t, p, rest[k])
    {
      assert rest[k] == s[k + 1];
    }
    forall k1, k2 | 0 <= k1 < k2 < |rest|
      ensures MatchEnd(t, p, rest[k1]) <= rest[k2]
    {
      assert rest[k1] == s[k1 + 1] && rest[k2] == s[k2 + 1];
    }
  }

  /** Positions past the first match that are covered by `s` are covered by the rest of `s`. */
  lemma CoveredAfterFirst(t: string, p: string, s: seq<nat>, j: nat)
    requires |s| > 0 && MatchAt(t, p, s[0])
    requires MatchEnd(t, p, s[0]) <= j
    requires Covered(t, p, s, j)
    ensures Covered(t, p, s[1..], j)
  {
    var k :| 0 <= k < |s| && MatchAt(t, p, s[k]) && s[k] <= j < MatchEnd(t, p, s[k]);
    assert k != 0;
    assert s[1..][k - 1] == s[k];
  }

  /** ... and then scans on from the end of that match. */
  lemma LeftmostScanTail(t: string, p: string, from: nat, s: seq<nat>)
    requires from < |t|
    requires MatchAt(t, p, from)
    requires IsLeftmostScan(t, p, from, s)
    requires |s| > 0 && s[0] == from
    ensures IsLeftmostScan(t, p, MatchEnd(t, p, from), s[1..])
  {
    AfterFirstMatch(t, p, s);
    forall j | MatchEnd(t, p, from) <= j < |t| && MatchAt(t, p, j)
      ensures Covered(t, p, s[1..], j)
    {
      CoveredAfterFirst(t, p, s, j);
    }
  }

  /** A non-empty scan needs room for a match after `from`. */
  lemma LeftmostScanStartsBeforeEnd(t: string, p: string, from: nat, s: seq<nat>)
    requires IsLeftmostScan(t, p, from, s)
    ensures |s| == 0 || from + |p| < |t|
  {
    if |s| > 0 {
      assert from <= s[0] && MatchAt(t, p, s[0]);
    }
  }

  /** The scan is the only enumeration with the leftmost, non-overlapping properties. */
  lemma {:induction false} LeftmostScanUnique(t: string, p: string, from: nat, s: seq<nat>)
    requires from <= |t|
    requires IsLeftmostScan(t, p, from, s)
    ensures s == Scan(t, p, from)
    decreases |t| - from, 1
  {
    if from == |t| {
      LeftmostScanStartsBeforeEnd(t, p, from, s);
    } else if MatchAt(t, p, from) {
      LeftmostScanUniqueAtMatch(t, p, from, s);
    } else {
      LeftmostScanSkip(t, p, from, s);
      LeftmostScanUnique(t, p, from + 1, s);
    }
  }

  lemma {:induction false} LeftmostScanUniqueAtMatch(t: string, p: string, from: nat, s: seq<nat>)
    requires from < |t|
    requires MatchAt(t, p, from)
    requires IsLeftmostScan(t, p, from, s)
    ensures s == Scan(t, p, from)
    decreases |t| - from, 0
  {
    LeftmostScanHead(t, p, from, s);
    LeftmostScanTail(t, p, from, s);
    LeftmostScanUnique(t, p, MatchEnd(t, p, from), s[1..]);
    ScanAtMatch(t, p, from, s);
  }

  lemma ScanAtMatch(t: string, p: string, from: nat, s: seq<nat>)
    requires from < |t|
    requires MatchAt(t, p, from)
    requires |s| > 0 && s[0] == from
    requires s[1..] == Scan(t, p, MatchEnd(t, p, from))
    ensures s == Scan(t, p, from)
  {
    assert Scan(t, p, from) == [from] + Scan(t, p, MatchEnd(t, p, from));
    assert s == [s[0]] + s[1..];
  }

  /** The text of the match starting at `i`. */
  function MatchedText(t: string, p: string, i: nat): (w: string)
    requires MatchAt(t, p, i)
    ensures |w| > |p| && w[..|p|] == p
    ensures forall k :: |p| <= k < |w| ==> IsWordChar(w[k])
  {
    t[i..MatchEnd(t, p, i)]
  }

  /** The words the document scan collects, in document order. */
  function DocumentWords(t: string, p: string): (ws: seq<string>)
    ensures forall w :: w in ws ==> |w| > |p| && w[..|p|] == p
  {
    var s := Scan(t, p, 0);
    seq(|s|, k requires 0 <= k < |s| => MatchedText(t, p, s[k]))
  }

  /** `w` occurs at `i` as a whole run of word characters. */
  ghost predicate MaximalRunAt(t: string, i: nat, w: string) {
    && |w| > 0
    && i + |w| <= |t|
    && t[i..i + |w|] == w
    && AllWordChars(w)
    && (i == 0 || !IsWordChar(t[i - 1]))
    && (i + |w| == |t| || !IsWordChar(t[i + |w|]))
  }

  /** A partial word made of word characters can only match where a word begins. */
  lemma WordPrefixMatchIsWord(t: string, p: string, i: nat)
    requires AllWordChars(p)
    requires MatchAt(t, p, i)
    ensures i == 0 || !IsWordChar(t[i - 1])
    ensures forall k :: i <= k < MatchEnd(t, p, i) ==> IsWordChar(t[k])
  {
    if |p| > 0 {
      assert t[i] == t[i..i + |p|][0];
    }
    forall k | i <= k < MatchEnd(t, p, i)
      ensures IsWordChar(t[k])
    {
      if k < i + |p| {
        assert t[k] == t[i..i + |p|][k - i];
      }
    }
  }

  lemma MatchedTextIsWholeWord(t: string, p: string, i: nat)
    requires AllWordChars(p)
    requires MatchAt(t, p, i)
    ensures MaximalRunAt(t, i, MatchedText(t, p, i))
  {
    WordPrefixMatchIsWord(t, p, i);
  }

  /** Each collected word is a whole word of the text, when the partial word is made of word characters. */
  lemma DocumentWordIsWholeWord(t: string, p: string, w: string)
    requires AllWordChars(p)
    requires w in DocumentWords(t, p)
    ensures exists i :: MaximalRunAt(t, i, w)
  {
    var s := Scan(t, p, 0);
    var ws := DocumentWords(t, p);
    var k :| 0 <= k < |ws| && ws[k] == w;
    MatchedTextIsWholeWord(t, p, s[k]);
  }

  /** A whole word extending the partial word is a match of the pattern, and the match is that word. */
  lemma WholeWordMatches(t: string, p: string, w: string, i: nat)
    requires |w| > |p| && w[..|p|] == p
    requires MaximalRunAt(t, i, w)
    ensures MatchAt(t, p, i)
    ensures MatchedText(t, p, i) == w
  {
    assert t[i..i + |p|] == w[..|p|];
    assert t[i + |p|] == w[|p|];
    assert MatchAt(t, p, i);
    assert MatchEnd(t, p, i) == i + |w|;
  }

  /** A match at the start of a word is never swallowed by an earlier match. */
  lemma WordStartMatchIsScanned(t: string, p: string, i: nat)
    requires AllWordChars(p)
    requires MatchAt(t, p, i)
    requires i == 0 || !IsWordChar(t[i - 1])
    ensures exists k :: 0 <= k < |Scan(t, p, 0)| && Scan(t, p, 0)[k] == i
  {
    var s := Scan(t, p, 0);
    ScanCovers(t, p, 0, i);
    var k :| 0 <= k < |s| && MatchAt(t, p, s[k]) && s[k] <= i < MatchEnd(t, p, s[k]);
    WordPrefixMatchIsWord(t, p, s[k]);
    assert s[k] == i;
  }

  /** Each whole word of the text that extends the partial word is collected. */
  lemma WholeWordIsDocumentWord(t: string, p: string, w: string, i: nat)
    requires AllWordChars(p)
    requires |w| > |p| && w[..|p|] == p
    requires MaximalRunAt(t, i, w)
    ensures w in DocumentWords(t, p)
  {
    WholeWordMatches(t, p, w, i);
    WordStartMatchIsScanned(t, p, i);
    var s := Scan(t, p, 0);
    var k :| 0 <= k < |s| && s[k] == i;
    assert DocumentWords(t, p)[k] == w;
  }

  /**
   * For a partial word made of word characters, the document scan collects
   * exactly the whole words of the text that extend it.
   */
  lemma DocumentWordsAreExtendingWords(t: string, p: string)
    requires AllWordChars(p)
    ensures forall w :: w in DocumentWords(t, p) <==>
      (|w| > |p| && w[..|p|] == p && exists i :: MaximalRunAt(t, i, w))
  {
    forall w | w in DocumentWords(t, p)
      ensures exists i :: MaximalRunAt(t, i, w)
    {
      DocumentWordIsWholeWord(t, p, w);
    }
    forall w, i | |w| > |p| && w[..|p|] == p && MaximalRunAt(t, i, w)
      ensures w in DocumentWords(t, p)
    {
      WholeWordIsDocumentWord(t, p, w, i);
    }
  }

  lemma ScanExampleTail()
    ensures Scan("foo foobar baz", "foo", 10) == []
  {
    var t := "foo foobar baz";
    var p := "foo";
    assert !MatchAt(t, p, 13) && !MatchAt(t, p, 12) && !MatchAt(t, p, 11);
    assert Scan(t, p, 14) == [];
    assert Scan(t, p, 13) == [];
    assert Scan(t, p, 12) == [];
    assert Scan(t, p, 11) == [];
    assert t[10..13][0] != 'f';
    assert !MatchAt(t, p, 10);
  }

  lemma ScanExampleHead()
    ensures !MatchAt("foo foobar baz", "foo", 0)
    ensures !MatchAt("foo foobar baz", "foo", 1)
    ensures !MatchAt("foo foobar baz", "foo", 2)
    ensures !MatchAt("foo foobar baz", "foo", 3)
  {
    var t := "foo foobar baz";
    assert !IsWordChar(t[3]);
    assert t[3..6][0] != 'f' && t[2..5][0] != 'f' && t[1..4][0] != 'f';
  }

  lemma ScanExampleMatch()
    ensures MatchAt("foo foobar baz", "foo", 4)
    ensures MatchEnd("foo foobar baz", "foo", 4) == 10
    ensures MatchedText("foo foobar baz", "foo", 4) == "foobar"
  {
    var t := "foo foobar baz";
    assert t[4..7] == "foo";
    assert RunEnd(t, 10) == 10;
    assert t[4..10] == "foobar";
  }

  lemma ScanExample()
    ensures DocumentWords("foo foobar baz", "foo") == ["foobar"]
  {
    var t := "foo foobar baz";
    var p := "foo";
    ScanExampleTail();
    ScanExampleHead();
    ScanExampleMatch();
    assert Scan(t, p, 4) == [4];
    assert Scan(t, p, 3) == [4];
    assert Scan(t, p, 2) == [4];
    assert Scan(t, p, 1) == [4];
    assert Scan(t, p, 0) == [4];
  }
}
