/**
 * `completions(forPartialWordRange:indexOfSelectedItem:)`: the partial word
 * under the range is completed from the words of the document and from the
 * lexer's vocabulary, and the union is returned without duplicates.
 */
module Completion {
  import opened Wrappers
  import opened WordScan

  /** A range of characters of the text; it is never negative. */
  datatype CharRange = CharRange(location: nat, length: nat)

  predicate IsAlphanumeric(c: char) {
    ('a' <= c <= 'z') || ('A' <= c <= 'Z') || ('0' <= c <= '9')
  }

  function ToLower(c: char): (l: char)
    ensures 'A' <= c <= 'Z' ==> 'a' <= l <= 'z'
    ensures !('A' <= c <= 'Z') ==> l == c
  {
    if 'A' <= c <= 'Z' then (c as int + 32) as char else c
  }

  /** `w` begins with `p`, letters compared without regard to case. */
  predicate HasPrefixIgnoringCase(w: string, p: string) {
    |p| <= |w| && forall k :: 0 <= k < |p| ==> ToLower(w[k]) == ToLower(p[k])
  }

  /** The string with every letter folded to lower case. */
  function Lower(s: string): (r: string)
    ensures |r| == |s|
    ensures forall k :: 0 <= k < |s| ==> r[k] == ToLower(s[k])
  {
    if |s| == 0 then [] else [ToLower(s[0])] + Lower(s[1..])
  }

  /**
   * The `[.caseInsensitive, .anchored]` search succeeds exactly when, both
   * strings folded to lower case, the partial word is a prefix of the entry.
   */
  lemma PrefixIgnoringCaseIsFoldedPrefix(w: string, p: string)
    ensures HasPrefixIgnoringCase(w, p) <==> |p| <= |w| && Lower(w)[..|p|] == Lower(p)
  {
  }

  /** The vocabulary entries the partial word is an anchored, case-insensitive prefix of. */
  function VocabularyMatches(words: seq<string>, p: string): (r: seq<string>)
    ensures forall w :: w in r <==> w in words && HasPrefixIgnoringCase(w, p)
    ensures |r| <= |words|
  {
    if |words| == 0 then []
    else (if HasPrefixIgnoringCase(words[0], p) then [words[0]] else []) + VocabularyMatches(words[1..], p)
  }

  /** The text under the range, or None when the range is empty or does not lie within the text. */
  function PartialWord(text: string, range: CharRange): (p: Option<string>)
    ensures p.None? <==> range.length == 0 || range.location + range.length > |text|
    ensures p.Some? ==> |p.value| == range.length
    ensures p.Some? ==> forall k :: 0 <= k < |p.value| ==> p.value[k] == text[range.location + k]
  {
    if range.length == 0 || range.location + range.length > |text| then None
    else Some(text[range.location..range.location + range.length])
  }

  /** A partial word of one character that is not a letter or digit gets no document words. */
  predicate IsSymbol(p: string) {
    |p| == 1 && !IsAlphanumeric(p[0])
  }

  /**
   * The document words are skipped exactly when the guard on the range
   * fails: the range is one character long and that character, the first
   * of the partial word, is not a letter or digit.
   */
  lemma SymbolGuard(text: string, range: CharRange)
    requires PartialWord(text, range).Some?
    ensures IsSymbol(PartialWord(text, range).value) <==>
      !(range.length > 1 || IsAlphanumeric(text[range.location]))
  {
  }

  /** The document words, or none for a symbol. */
  function ScannedWords(text: string, p: string): (ws: seq<string>)
    ensures IsSymbol(p) ==> ws == []
    ensures forall w :: w in ws ==> |w| > |p| && w[..|p|] == p
  {
    if IsSymbol(p) then [] else DocumentWords(text, p)
  }

  /** The vocabulary entries the partial word prefixes, or none without a vocabulary. */
  function LexerWords(autocompleteWords: Option<seq<string>>, p: string): (ws: seq<string>)
    ensures autocompleteWords.None? ==> ws == []
    ensures autocompleteWords.Some? ==>
      forall w :: w in ws <==> w in autocompleteWords.value && HasPrefixIgnoringCase(w, p)
  {
    match autocompleteWords
    case None => []
    case Some(words) => VocabularyMatches(words, p)
  }

  lemma ExactPrefixIgnoresCase(w: string, p: string)
    requires |w| >= |p| && w[..|p|] == p
    ensures HasPrefixIgnoringCase(w, p)
  {
    forall k | 0 <= k < |p|
      ensures w[k] == p[k]
    {
      assert w[k] == w[..|p|][k];
    }
  }

  /** The words of both sources, as a set. */
  function Candidates(text: string, p: string, autocompleteWords: Option<seq<string>>): (r: set<string>)
    ensures forall w :: w in r <==>
      || (!IsSymbol(p) && w in DocumentWords(text, p))
      || (autocompleteWords.Some? && w in autocompleteWords.value && HasPrefixIgnoringCase(w, p))
  {
    set w | w in ScannedWords(text, p) + LexerWords(autocompleteWords, p)
  }

  function Completions(text: string, range: CharRange, autocompleteWords: Option<seq<string>>): (r: Option<set<string>>)
    ensures r.None? <==> range.length == 0 || range.location + range.length > |text|
    ensures r.Some? ==> forall w :: w in r.value ==>
      HasPrefixIgnoringCase(w, text[range.location..range.location + range.length])
    ensures r.Some? && autocompleteWords.None? && IsSymbol(text[range.location..range.location + range.length]) ==>
      r.value == {}
  {
    match PartialWord(text, range)
    case None => None
    case Some(p) =>
      var r := Candidates(text, p, autocompleteWords);
      assert forall w :: w in r ==> HasPrefixIgnoringCase(w, p) by {
        forall w | w in r
          ensures HasPrefixIgnoringCase(w, p)
        {
          if w in DocumentWords(text, p) {
            ExactPrefixIgnoresCase(w, p);
          }
        }
      }
      Some(r)
  }

  /**
   * The result is exactly the union of the two sources: the document words
   * (unless the partial word is a symbol) and the vocabulary entries the
   * partial word is a case-insensitive prefix of.
   */
  lemma CompletionsAreUnion(text: string, range: CharRange, autocompleteWords: Option<seq<string>>, w: string)
    requires range.length > 0 && range.location + range.length <= |text|
    ensures var p := text[range.location..range.location + range.length];
      w in Completions(text, range, autocompleteWords).value <==>
        || (!IsSymbol(p) && w in DocumentWords(text, p))
        || (autocompleteWords.Some? && w in autocompleteWords.value && HasPrefixIgnoringCase(w, p))
  {
    var p := text[range.location..range.location + range.length];
    assert PartialWord(text, range) == Some(p);
    assert Completions(text, range, autocompleteWords) == Some(Candidates(text, p, autocompleteWords));
  }

  /**
   * For a partial word of word characters, the document contributes exactly
   * its whole words that extend the partial word.
   */
  lemma CompletionsOfWordPrefix(text: string, range: CharRange, autocompleteWords: Option<seq<string>>, w: string)
    requires range.length > 0 && range.location + range.length <= |text|
    requires AllWordChars(text[range.location..range.location + range.length])
    requires !IsSymbol(text[range.location..range.location + range.length])
    ensures var p := text[range.location..range.location + range.length];
      w in Completions(text, range, autocompleteWords).value <==>
        || (|w| > |p| && w[..|p|] == p && exists i :: MaximalRunAt(text, i, w))
        || (autocompleteWords.Some? && w in autocompleteWords.value && HasPrefixIgnoringCase(w, p))
  {
    var p := text[range.location..range.location + range.length];
    CompletionsAreUnion(text, range, autocompleteWords, w);
    DocumentWordsAreExtendingWords(text, p);
  }

  /** A symbol partial word is completed from the vocabulary alone. */
  lemma SymbolGetsOnlyVocabulary(text: string, range: CharRange, autocompleteWords: Option<seq<string>>, w: string)
    requires range.length > 0 && range.location + range.length <= |text|
    requires IsSymbol(text[range.location..range.location + range.length])
    ensures w in Completions(text, range, autocompleteWords).value <==>
      autocompleteWords.Some? && w in autocompleteWords.value
      && HasPrefixIgnoringCase(w, text[range.location..range.location + range.length])
  {
    CompletionsAreUnion(text, range, autocompleteWords, w);
  }

  /** Removes repeated words, keeping the first of each. */
  method RemoveDoubleWords(words: seq<string>) returns (r: seq<string>)
    ensures forall w :: w in r <==> w in words
    ensures forall i, j :: 0 <= i < j < |r| ==> r[i] != r[j]
  {
    r := [];
    for n := 0 to |words|
      invariant forall w :: w in r <==> w in words[..n]
      invariant forall i, j :: 0 <= i < j < |r| ==> r[i] != r[j]
    {
      assert words[..n + 1] == words[..n] + [words[n]];
      if words[n] !in r {
        r := r + [words[n]];
      }
    }
    assert words[..|words|] == words;
  }

  /** The completions as the list handed back to the text system: the same words, each once. */
  method CompletionList(text: string, range: CharRange, autocompleteWords: Option<seq<string>>)
    returns (r: Option<seq<string>>)
    ensures r.None? <==> range.length == 0 || range.location + range.length > |text|
    ensures r.Some? ==> forall w :: w in r.value <==> w in Completions(text, range, autocompleteWords).value
    ensures r.Some? ==> forall i, j :: 0 <= i < j < |r.value| ==> r.value[i] != r.value[j]
  {
    var partial := PartialWord(text, range);
    if partial.None? {
      return None;
    }
    var p := partial.value;
    var wordList := ScannedWords(text, p) + LexerWords(autocompleteWords, p);
    var unique := RemoveDoubleWords(wordList);
    r := Some(unique);
  }

  lemma FooExample()
    ensures Completions("foo foobar baz", CharRange(0, 3), None) == Some({"foobar"})
  {
    var text := "foo foobar baz";
    var range := CharRange(0, 3);
    assert text[0..3] == "foo";
    ScanExample();
    var r := Completions(text, range, None).value;
    forall w
      ensures w in r <==> w == "foobar"
    {
      CompletionsAreUnion(text, range, None, w);
    }
    assert r == {"foobar"};
  }

  /** Vocabulary entries are kept only when they begin with the partial word: "function" does not begin with "fo". */
  lemma VocabularyExample()
    ensures Completions("fo", CharRange(0, 2), Some(["function", "for", "foo"])) == Some({"for", "foo"})
  {
    var text := "fo";
    var range := CharRange(0, 2);
    var vocabulary := Some(["function", "for", "foo"]);
    var p := text[0..2];
    assert p == "fo";
    assert HasPrefixIgnoringCase("for", p) by {
      assert ToLower("for"[0]) == ToLower(p[0]) && ToLower("for"[1]) == ToLower(p[1]);
    }
    assert HasPrefixIgnoringCase("foo", p) by {
      assert ToLower("foo"[0]) == ToLower(p[0]) && ToLower("foo"[1]) == ToLower(p[1]);
    }
    assert !HasPrefixIgnoringCase("function", p) by {
      assert ToLower("function"[1]) != ToLower(p[1]);
    }
    assert DocumentWords(text, p) == [] by {
      assert Scan(text, p, 2) == [];
      assert Scan(text, p, 1) == [];
    }
    VocabularyExampleResult(text, range, vocabulary, p);
  }

  lemma VocabularyExampleResult(text: string, range: CharRange, vocabulary: Option<seq<string>>, p: string)
    requires text == "fo" && range == CharRange(0, 2) && vocabulary == Some(["function", "for", "foo"])
    requires p == text[0..2]
    requires HasPrefixIgnoringCase("for", p) && HasPrefixIgnoringCase("foo", p)
    requires !HasPrefixIgnoringCase("function", p)
    requires DocumentWords(text, p) == []
    ensures Completions(text, range, vocabulary) == Some({"for", "foo"})
  {
    var r := Candidates(text, p, vocabulary);
    assert Completions(text, range, vocabulary) == Some(r);
    forall w
      ensures w in r <==> w == "for" || w == "foo"
    {
      assert w in vocabulary.value <==> w == "function" || w == "for" || w == "foo";
    }
    assert r == {"for", "foo"};
  }

  lemma CaseInsensitiveExample()
    ensures var r := Completions("Fo", CharRange(0, 2), Some(["format", "Other"]));
      r.Some? && "format" in r.value && "Other" !in r.value
  {
    var p := "Fo"[0..2];
    assert p == "Fo";
    assert HasPrefixIgnoringCase("format", p) by {
      assert ToLower("format"[0]) == ToLower(p[0]);
      assert ToLower("format"[1]) == ToLower(p[1]);
    }
    assert !HasPrefixIgnoringCase("Other", p) by {
      assert ToLower("Other"[0]) != ToLower(p[0]);
    }
    assert DocumentWords("Fo", p) == [] by {
      assert Scan("Fo", p, 2) == [];
      assert Scan("Fo", p, 1) == [];
    }
    CompletionsAreUnion("Fo", CharRange(0, 2), Some(["format", "Other"]), "format");
    CompletionsAreUnion("Fo", CharRange(0, 2), Some(["format", "Other"]), "Other");
  }

  lemma SymbolExample()
    ensures Completions("a (b", CharRange(2, 1), None) == Some({})
    ensures "(b" in Completions("a (b", CharRange(2, 1), Some(["(b", "x"])).value
  {
    assert "a (b"[2..3] == "(";
    assert "(b"[..1] == "(";
    ExactPrefixIgnoresCase("(b", "(");
    SymbolGetsOnlyVocabulary("a (b", CharRange(2, 1), Some(["(b", "x"]), "(b");
  }

  lemma EmptyRangeExample(text: string, location: nat, autocompleteWords: Option<seq<string>>)
    ensures Completions(text, CharRange(location, 0), autocompleteWords) == None
  {
  }
}
