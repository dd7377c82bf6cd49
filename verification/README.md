# InnerTextView decision logic, modelled in Dafny

This project models the logic inside Sourceful's `InnerTextView`, the text view under the code editor. Drawing and platform calls are left out. What remains:

- **Paragraph cache.** `cachedParagraphs` is an optional slot. `invalidateCachedParagraphs` empties it. A line-numbers draw fills it from the layout when it is empty.
- **Gutter width.**
  - `hideGutter` installs the theme's minimum width, or 0 when there is no theme.
  - `updateGutterWidth(for:)` installs `max(minimum, digits * 10 + 4 + 4)`.
  - The digit count is the length of the decimal string of the line count. The line count is the number of components the text splits into on newline characters.
- **Draw modes.** `draw(_:)` runs in one of three modes: no theme, theme without line numbers, or theme with line numbers.
- **Floating cursor.** `beginFloatingCursor` and `endFloatingCursor` set a flag. Each call notifies the (weak, optional) delegate once.
- **Change debouncer.** `didChangeText` cancels the single pending analysis. Unless the current event is a key-down of Escape, Delete or an arrow key, it then schedules a new analysis 0.7 s later.
- **Completion engine.** `completions(forPartialWordRange:indexOfSelectedItem:)` takes the union of two sources and removes duplicates:
  - the whole-word matches of a regular expression over the document;
  - the lexer vocabulary entries that start with the partial word, ignoring case.

Modules, one per component:

- `Wrappers`: `Option`.
- `Decimal`: the decimal rendering `"\(count)"` and its length.
- `Lines`: `components(separatedBy: .newlines)`.
- `Gutter`: theme data and width arithmetic.
- `Rendering`: the view record, the cache, the gutter setters and the draw pass.
- `FloatingCursor`.
- `Debounce`.
- `WordScan`: the document regular expression as an explicit scanner.
- `Completion`.

The source puts these methods under different platform conditionals of `InnerTextView.swift`:
- `draw(_:)` and the floating-cursor methods sit under `#if os(iOS)` (lines 52-127).
- `didChangeText` and `completions` sit under `#if os(macOS)` (lines 179-250).

`draw(_:)` (`Rendering.Draw`) and the floating-cursor flag are iOS-only. The paragraph cache, the theme and the two gutter setters are outside any conditional, so they are compiled on both platforms. `Debounce` and `Completion` are macOS-only. The modules share no state.

External collaborators become parameters:

- The paragraph layout is a function `string -> seq<Paragraph>`.
- The clock is the `now` argument of `DidChangeText` and `AdvanceClock`.
- The window's current event is an `Option<Event>`.

Behaviour of the code worth noting:

- **Symbol partial words.** The guard at line 216 skips the document words for a one-character partial word that is not a letter or digit. The vocabulary filter at lines 226-231 has no such guard, so it still applies. A symbol therefore gets exactly the vocabulary entries it prefixes (`Completion.SymbolGetsOnlyVocabulary`).
- **Zero-length range.** The guard at line 208 returns `nil` for a zero-length range. It also returns `nil` for a range outside the text (`Completion.Completions`, `Completion.EmptyRangeExample`).
- **Vocabulary filter.** The search at line 228 is anchored. So an entry is kept only when the partial word is its prefix, ignoring case. For "fo" and the vocabulary ["function", "for", "foo"], the result is {"for", "foo"}, because "function" does not start with "fo" (`Completion.VocabularyExample`).
- **Line splitting.** Line 92 splits on each character of the newline set separately. So "\r\n" counts as two separators and adds an empty component (`Lines.LineCountExamples`).

## Model

| member | source | states |
|---|---|---|
| `Rendering.InvalidateCachedParagraphs` | Sources/Sourceful/View/InnerTextView.swift:33-35 | the cache slot is empty afterwards; text, theme and gutter width are untouched |
| `Rendering.InvalidateRestoresCoherence` | Sources/Sourceful/View/InnerTextView.swift:33-35 | after any text change followed by invalidation, the cache is either empty or the layout of the current text |
| `Rendering.HideGutter` | Sources/Sourceful/View/InnerTextView.swift:37-39 | the gutter width becomes 0 without a theme and the theme's minimum width with one; nothing else changes |
| `Gutter.MinimumWidth` | Sources/Sourceful/View/InnerTextView.swift:38 | `theme?.gutterStyle.minimumWidth ?? 0.0`, the value `hideGutter` installs and the first operand of the `max` at line 48: 0 with no theme, `minimumWidth` with a theme |
| `Rendering.UpdateGutterWidth` | Sources/Sourceful/View/InnerTextView.swift:41-50 | the width is at least the minimum (or 0), at least `10*n + 4 + 4`, and equal to one of the two; nothing else changes |
| `Gutter.NumeralsWidthValue` | Sources/Sourceful/View/InnerTextView.swift:43-48 | the numeral width `digits * charWidth + leftInset + rightInset`, with the constants 10, 4 and 4, is `10*digits + 8` |
| `Gutter.NumberedGutterWidth` | Sources/Sourceful/View/InnerTextView.swift:43-48 | the width is the larger of the minimum and `10*digits + 8` |
| `Rendering.NumberedNeverNarrowerThanHidden` | Sources/Sourceful/View/InnerTextView.swift:37-50 | a line-numbered gutter is never narrower than a hidden one |
| `Gutter.NumberedWidthMonotone` | Sources/Sourceful/View/InnerTextView.swift:48 | more digits never give a narrower gutter |
| `Gutter.NumberedWidthStep` | Sources/Sourceful/View/InnerTextView.swift:48 | once `10*n + 8` reaches the minimum, one more digit adds exactly one character width (10) |
| `Rendering.ThousandthLineWidensGutter` | Sources/Sourceful/View/InnerTextView.swift:94-98 | with a minimum of at most 38, 1000 lines give a gutter exactly 10 wider than 999 lines |
| `Lines.Components` | Sources/Sourceful/View/InnerTextView.swift:92 | splitting gives at least one component, and no component contains a newline character |
| `Lines.ComponentCount` | Sources/Sourceful/View/InnerTextView.swift:92-94 | the component count is the number of newline characters plus one |
| `Lines.ComponentsRoundTrip` | Sources/Sourceful/View/InnerTextView.swift:92 | putting the newline characters back between the components gives the original text |
| `Lines.LineCount` | Sources/Sourceful/View/InnerTextView.swift:94 | the line count is the number of newline characters plus one |
| `Lines.LineCountExamples` | Sources/Sourceful/View/InnerTextView.swift:92-94 | "" has 1 line, "a\nb" has 2 and "a\r\nb" has 3 |
| `Decimal.DecimalString` | Sources/Sourceful/View/InnerTextView.swift:96 | the rendering is non-empty, all decimal digits, with no leading zero for a positive number |
| `Decimal.ParseDecimalString` | Sources/Sourceful/View/InnerTextView.swift:96 | reading the decimal rendering back gives the number |
| `Decimal.DigitCount` | Sources/Sourceful/View/InnerTextView.swift:96 | `"\(count)".count`: at least one, and a number with d digits lies below 10^d and, when positive, at or above 10^(d-1) |
| `Decimal.DigitCountFromBounds` | Sources/Sourceful/View/InnerTextView.swift:96 | a number in [10^(k-1), 10^k) has exactly k digits |
| `Decimal.DigitCountMonotone` | Sources/Sourceful/View/InnerTextView.swift:94-96 | more lines never need fewer digits |
| `Decimal.DigitCountExamples` | Sources/Sourceful/View/InnerTextView.swift:96 | 9 has 1 digit, 10 has 2, 999 has 3 and 1000 has 4 |
| `Rendering.LineNumberDigits` | Sources/Sourceful/View/InnerTextView.swift:92-96 | the digit count fed to the gutter is that of (number of newline characters + 1) |
| `Rendering.Draw` | Sources/Sourceful/View/InnerTextView.swift:72-126 | no theme: width 0. Theme without line numbers: width = minimum. In both, the cache is untouched and no layout happens. With line numbers: the width comes from the digit count of the line count; a filled cache is used as is with no layout, and an empty cache is filled with exactly one layout, whose result is numbered |
| `Rendering.DrawNeverStale` | Sources/Sourceful/View/InnerTextView.swift:100-111 | drawing keeps the cache coherent with the text, and a coherent cache never yields numbers for the layout of an older text |
| `Rendering.InvalidateThenDrawRecomputes` | Sources/Sourceful/View/InnerTextView.swift:102-111 | a line-numbers draw right after invalidation lays out once and numbers the fresh layout |
| `Rendering.SecondDrawReusesCache` | Sources/Sourceful/View/InnerTextView.swift:102-111 | a second draw with no invalidation in between does no layout, numbers the same paragraphs and leaves the view as the first draw left it |
| `FloatingCursor.Notify` | Sources/Sourceful/View/InnerTextView.swift:60 | a present delegate gets one more notification; an absent one stays absent |
| `FloatingCursor.BeginFloatingCursor` | Sources/Sourceful/View/InnerTextView.swift:56-62 | the cursor is floating afterwards and a present delegate is notified exactly once, whatever the prior state |
| `FloatingCursor.EndFloatingCursor` | Sources/Sourceful/View/InnerTextView.swift:64-70 | the cursor is not floating afterwards and a present delegate is notified exactly once, whatever the prior state |
| `FloatingCursor.ReplayNotifiesOncePerGesture` | Sources/Sourceful/View/InnerTextView.swift:56-70 | any sequence of gestures sends exactly one notification per gesture, and the flag follows the last gesture |
| `FloatingCursor.ReplayWithoutListener` | Sources/Sourceful/View/InnerTextView.swift:56-70 | with no delegate, nothing is ever notified |
| `FloatingCursor.BeginThenEnd` | Sources/Sourceful/View/InnerTextView.swift:56-70 | begin then end gives two notifications and ends not floating |
| `FloatingCursor.EndThenEnd` | Sources/Sourceful/View/InnerTextView.swift:64-70 | end then end still gives two notifications: there is no state guard |
| `Debounce.CancelsAnalysisCases` | Sources/Sourceful/View/InnerTextView.swift:193-195 | the pending analysis is cancelled (`CancelsAnalysis`, `IsCancellingKey`) exactly on a key-down of key code 0x33 (Delete), 0x35 (Escape) or 0x7B to 0x7E (the arrows); no event and any other event never cancel |
| `Debounce.DidChangeText` | Sources/Sourceful/View/InnerTextView.swift:189-204 | a key-down of Escape, Delete or an arrow key leaves nothing pending; any other change (no event, another event type, another key) leaves exactly one analysis pending, due at now + 0.7; no analysis runs |
| `Debounce.AdvanceClock` | Sources/Sourceful/View/InnerTextView.swift:203 | a pending analysis whose deadline has come runs once and leaves the slot empty; otherwise nothing changes |
| `Debounce.BurstDefersAnalysis` | Sources/Sourceful/View/InnerTextView.swift:201-203 | edits each arriving within 0.7 of the previous one run no analysis, and leave one pending at 0.7 after the last edit |
| `Debounce.BurstFiresOnceAfterQuietPeriod` | Sources/Sourceful/View/InnerTextView.swift:201-203 | after such a burst, exactly one analysis runs once 0.7 has passed since the last edit, and none before |
| `Debounce.CancellingKeyDropsAnalysis` | Sources/Sourceful/View/InnerTextView.swift:193-198 | a navigation or deletion key before the deadline means no analysis ever runs for the earlier edits |
| `WordScan.RunEnd` | Sources/Sourceful/View/InnerTextView.swift:218 | the end of a word run: every character before it is a word character, and it is the end of the text or a non-word character |
| `WordScan.AnchorAt` | Sources/Sourceful/View/InnerTextView.swift:218 | the scan's anchor test holds exactly where one of the alternatives `^`, `\b` or `(?<=\W)` of the leading group holds |
| `WordScan.MatchAtIsRegexMatch` | Sources/Sourceful/View/InnerTextView.swift:218 | the scan's match test at a position holds exactly when the pattern can match there. That is: the leading group holds, the partial word follows literally, and a non-empty run of word characters then reaches `$` or `\b` |
| `WordScan.MatchEndIsLazyEnd` | Sources/Sourceful/View/InnerTextView.swift:218 | the lazy `\w+?` stops at the first position where `$` or `\b` holds: the match end is such a position, and none before it is |
| `WordScan.Scan` | Sources/Sourceful/View/InnerTextView.swift:218-221 | every reported position is a match of the pattern, at or after the scan start |
| `WordScan.ScanOrdered` | Sources/Sourceful/View/InnerTextView.swift:221 | reported matches are in increasing order and do not overlap |
| `WordScan.ScanCovers` | Sources/Sourceful/View/InnerTextView.swift:221 | every position where the pattern matches lies inside a reported match |
| `WordScan.ScanIsLeftmost` | Sources/Sourceful/View/InnerTextView.swift:218-221 | the scan is a leftmost-first, non-overlapping enumeration of the matches |
| `WordScan.LeftmostScanUnique` | Sources/Sourceful/View/InnerTextView.swift:218-221 | any enumeration with those properties is the scan itself |
| `WordScan.MatchedText` | Sources/Sourceful/View/InnerTextView.swift:218-221 | a matched word starts with the partial word, is strictly longer, and continues with word characters only |
| `WordScan.DocumentWords` | Sources/Sourceful/View/InnerTextView.swift:214-222 | every document word starts with the partial word and is strictly longer than it |
| `WordScan.DocumentWordIsWholeWord` | Sources/Sourceful/View/InnerTextView.swift:218-221 | for a partial word of word characters, every collected word is a maximal run of word characters in the text |
| `WordScan.WholeWordIsDocumentWord` | Sources/Sourceful/View/InnerTextView.swift:218-221 | every whole word of the text that strictly extends the partial word is collected |
| `WordScan.DocumentWordsAreExtendingWords` | Sources/Sourceful/View/InnerTextView.swift:218-221 | for a partial word of word characters: a word is collected if and only if it is a whole word of the text that strictly extends the partial word |
| `WordScan.ScanExample` | Sources/Sourceful/View/InnerTextView.swift:218-221 | in "foo foobar baz", the partial word "foo" collects exactly ["foobar"] |
| `Completion.PartialWord` | Sources/Sourceful/View/InnerTextView.swift:208-211 | nil exactly when the range is empty or does not lie in the text; otherwise the characters of the text under the range, in order |
| `Completion.SymbolGuard` | Sources/Sourceful/View/InnerTextView.swift:216 | the document words are skipped (`IsSymbol`) exactly when the guard fails: the range is one character long and that character is not a letter or digit |
| `Completion.ScannedWords` | Sources/Sourceful/View/InnerTextView.swift:214-222 | the document contribution is empty for a symbol, and otherwise every word in it starts with the partial word and is strictly longer |
| `Completion.PrefixIgnoringCaseIsFoldedPrefix` | Sources/Sourceful/View/InnerTextView.swift:228 | the `[.caseInsensitive, .anchored]` test (`HasPrefixIgnoringCase`) holds exactly when the folded partial word is a prefix of the folded entry |
| `Completion.LexerWords` | Sources/Sourceful/View/InnerTextView.swift:226-231 | no vocabulary contributes nothing; otherwise an entry is contributed if and only if it is in the vocabulary and the partial word prefixes it, ignoring case |
| `Completion.Candidates` | Sources/Sourceful/View/InnerTextView.swift:233-234 | `Set(wordList)`: a word is in the set if and only if it is a document word (the partial word not being a symbol) or a matching vocabulary entry |
| `Completion.VocabularyMatches` | Sources/Sourceful/View/InnerTextView.swift:226-231 | an entry is kept if and only if it is in the vocabulary and starts with the partial word, ignoring case |
| `Completion.ExactPrefixIgnoresCase` | Sources/Sourceful/View/InnerTextView.swift:218-228 | a word that starts with the partial word also starts with it ignoring case |
| `Completion.Completions` | Sources/Sourceful/View/InnerTextView.swift:206-237 | the result is nil exactly when the range is empty or does not lie in the text. Otherwise every candidate starts with the partial word, ignoring case. A symbol partial word with no vocabulary gets an empty result |
| `Completion.CompletionsAreUnion` | Sources/Sourceful/View/InnerTextView.swift:210-236 | a word is a candidate if and only if it is a document word (the partial word not being a symbol) or a vocabulary entry the partial word prefixes, ignoring case |
| `Completion.CompletionsOfWordPrefix` | Sources/Sourceful/View/InnerTextView.swift:213-236 | for a partial word of word characters: a word is a candidate if and only if it is a whole word of the text extending the partial word, or a matching vocabulary entry |
| `Completion.SymbolGetsOnlyVocabulary` | Sources/Sourceful/View/InnerTextView.swift:216 | a one-character non-alphanumeric partial word gets vocabulary matches only |
| `Completion.RemoveDoubleWords` | Sources/Sourceful/View/InnerTextView.swift:233-236 | the output has the same words as the input, each exactly once |
| `Completion.CompletionList` | Sources/Sourceful/View/InnerTextView.swift:206-237 | the returned list is nil exactly when the set is nil; otherwise it holds exactly the candidate set, without duplicates |
| `Completion.FooExample` | Sources/Sourceful/View/InnerTextView.swift:206-237 | "foo foobar baz" with partial word "foo" and no vocabulary gives {"foobar"} |
| `Completion.VocabularyExample` | Sources/Sourceful/View/InnerTextView.swift:226-236 | the partial word "fo" with vocabulary ["function", "for", "foo"] gives {"for", "foo"} |
| `Completion.CaseInsensitiveExample` | Sources/Sourceful/View/InnerTextView.swift:228 | the partial word "Fo" admits "format" and not "Other" |
| `Completion.SymbolExample` | Sources/Sourceful/View/InnerTextView.swift:216 | the partial word "(" gets nothing from the document, but still gets the vocabulary entry "(b" |
| `Completion.EmptyRangeExample` | Sources/Sourceful/View/InnerTextView.swift:208 | a zero-length range gives nil |

## Left out

- Painting is left out: the `BezierPath` fills, `setFill`, `drawLineNumbers` and `super.draw`. It is platform rendering with no effect on the modelled state.
- `generateParagraphs` geometry is left out. The layout is a function parameter, and `Paragraph` keeps no rectangle. So the model does not check that the numbered paragraphs agree in number with the newline-split line count.
- The layout's other inputs are not modelled. `generateParagraphs(for:flipRects:)` (line 108) reads the whole view, including its font and text container. The model's layout sees only the text. In the source, a font or container change with unchanged text does not invalidate the cache, so stale paragraphs can be numbered. `Rendering.DrawNeverStale` speaks only of staleness with respect to the text.
- The `gutterWidth` accessors over `textContainerInset` (lines 129-147) become a plain stored field. Both platform variants store the same single value.
- CGFloat rounding is not modelled: widths are exact reals. All the values involved are small whole numbers.
- `caretRect(for:)` (lines 160-175) is left out. It is font-metric float arithmetic and has no decision logic.
- `changeFont` (lines 239-248) is left out. It is font-manager plumbing.
- The run loop is reduced to one pending deadline. `perform(_:with:afterDelay:)` and `cancelPreviousPerformRequests` are modelled that way, and firing is `AdvanceClock`. The body of `complete(_:)` is not part of this model: a firing is only counted.
- The `super` calls are left out. These are `super.didChangeText()`, `super.beginFloatingCursor(at:)` and `super.endFloatingCursor()`, which are base-view behaviour. The touch point is carried but unused.
- The regular expression engine is replaced by an explicit scanner over the ASCII word class `[A-Za-z0-9_]`. Unicode `\w`, `\b` and combining marks are not modelled.
- String equality is code-point equality. Swift's `==` and `Set` (line 234) apply canonical equivalence, so a precomposed "é" and "e" followed by U+0301 count as one word there. The non-literal search at line 228 does the same. The model's `set<string>` in `Completion.Candidates` and the `!in` in `Completion.RemoveDoubleWords` keep both forms.
- `CharacterSet.alphanumerics` is reduced to ASCII letters and digits. Case-insensitive comparison is ASCII lower-case folding.
- Ranges count characters, not UTF-16 code units.
- The completion list's order is not modelled: `Array(set)` has no defined order. The result is a set, plus a duplicate-free list (`Completion.CompletionList`).
- The `indexOfSelectedItem` out-parameter is never written by the code and is not modelled.
- The weak delegate is an optional listener that counts notifications.
- `WordScan.DocumentWordsAreExtendingWords` gives the whole-word reading only for partial words made of word characters. For other partial words, the collected words are described by the match positions (`WordScan.ScanIsLeftmost`). Such matches may straddle non-word characters.
