/**
 * The paragraph cache and the gutter decisions of the draw pass. Painting
 * (fills, numerals, the base view's drawing) is left to the platform; what
 * remains is which mode a draw runs in, which width it installs, and where
 * the numbered paragraphs come from.
 */
module Rendering {
  import opened Wrappers
  import opened Gutter
  import Lines
  import Decimal

  /**
   * One line's layout record. The model never reads its fields: they only
   * tell one layout's paragraphs from another's. Its rectangle is geometry
   * and not kept.
   */
  datatype Paragraph = Paragraph(lineIndex: nat, rangeStart: nat, rangeEnd: nat)

  /** The state of the text view the draw pass reads and writes. */
  datatype TextView = TextView(
    text: string,
    theme: Option<Theme>,
    cachedParagraphs: Option<seq<Paragraph>>,
    gutterWidth: real)

  datatype DrawMode = NoTheme | GutterOnly | LineNumbers

  /** A draw's outcome: the updated view, the branch taken, the paragraphs
      numbered in the gutter and how many times the layout was consulted. */
  datatype DrawResult = DrawResult(view: TextView, mode: DrawMode, numbered: seq<Paragraph>, layoutCalls: nat)

  function InvalidateCachedParagraphs(v: TextView): (r: TextView)
    ensures r.cachedParagraphs.None?
    ensures r.text == v.text && r.theme == v.theme && r.gutterWidth == v.gutterWidth
  {
    v.(cachedParagraphs := None)
  }

  function HideGutter(v: TextView): (r: TextView)
    ensures v.theme.None? ==> r.gutterWidth == 0.0
    ensures v.theme.Some? ==> r.gutterWidth == v.theme.value.gutterStyle.minimumWidth
    ensures r.text == v.text && r.theme == v.theme && r.cachedParagraphs == v.cachedParagraphs
  {
    v.(gutterWidth := MinimumWidth(v.theme))
  }

  function UpdateGutterWidth(v: TextView, numberOfCharacters: int): (r: TextView)
    ensures r.gutterWidth >= MinimumWidth(v.theme)
    ensures r.gutterWidth >= NumeralsWidth(numberOfCharacters)
    ensures r.gutterWidth == MinimumWidth(v.theme) || r.gutterWidth == NumeralsWidth(numberOfCharacters)
    ensures r.text == v.text && r.theme == v.theme && r.cachedParagraphs == v.cachedParagraphs
  {
    v.(gutterWidth := NumberedGutterWidth(v.theme, numberOfCharacters))
  }

  /** Numbering the lines never makes the gutter narrower than hiding it does. */
  lemma NumberedNeverNarrowerThanHidden(v: TextView, digits: int)
    ensures HideGutter(v).gutterWidth <= UpdateGutterWidth(v, digits).gutterWidth
  {
  }

  /** The number of digits of the highest line number of `text`. */
  function LineNumberDigits(text: string): (d: nat)
    ensures d == Decimal.DigitCount(Lines.NewlineCount(text) + 1)
  {
    Decimal.DigitCount(Lines.LineCount(text))
  }

  /**
   * One draw pass. `layout` stands for the platform's paragraph layout of
   * the current text.
   */
  function Draw(v: TextView, layout: string -> seq<Paragraph>): (r: DrawResult)
    ensures r.view.text == v.text && r.view.theme == v.theme
    ensures r.mode == NoTheme <==> v.theme.None?
    ensures r.mode == GutterOnly <==> v.theme.Some? && v.theme.value.lineNumbersStyle.None?
    ensures r.mode != LineNumbers ==>
      && r.view.gutterWidth == MinimumWidth(v.theme)
      && r.view.cachedParagraphs == v.cachedParagraphs
      && r.numbered == []
      && r.layoutCalls == 0
    ensures r.mode == LineNumbers ==>
      r.view.gutterWidth == NumberedGutterWidth(v.theme, Decimal.DigitCount(Lines.NewlineCount(v.text) + 1))
    ensures r.mode == LineNumbers && v.cachedParagraphs.Some? ==>
      && r.numbered == v.cachedParagraphs.value
      && r.view.cachedParagraphs == v.cachedParagraphs
      && r.layoutCalls == 0
    ensures r.mode == LineNumbers && v.cachedParagraphs.None? ==>
      && r.numbered == layout(v.text)
      && r.view.cachedParagraphs == Some(layout(v.text))
      && r.layoutCalls == 1
  {
    match v.theme
    case None =>
      DrawResult(HideGutter(v), NoTheme, [], 0)
    case Some(theme) =>
      if theme.lineNumbersStyle.None? then
        DrawResult(HideGutter(v), GutterOnly, [], 0)
      else
        var sized := UpdateGutterWidth(v, LineNumberDigits(v.text));
        match v.cachedParagraphs
        case Some(cached) =>
          DrawResult(sized, LineNumbers, cached, 0)
        case None =>
          var paragraphs := layout(v.text);
          DrawResult(sized.(cachedParagraphs := Some(paragraphs)), LineNumbers, paragraphs, 1)
  }

  /** The cache is either empty or holds the layout of the current text. */
  ghost predicate CacheCoherent(v: TextView, layout: string -> seq<Paragraph>) {
    v.cachedParagraphs.None? || v.cachedParagraphs == Some(layout(v.text))
  }

  /** Any text change followed by invalidation leaves a coherent cache. */
  lemma InvalidateRestoresCoherence(v: TextView, newText: string, layout: string -> seq<Paragraph>)
    ensures CacheCoherent(InvalidateCachedParagraphs(v.(text := newText)), layout)
  {
  }

  /** Drawing keeps the cache coherent, and a coherent cache never yields stale line numbers. */
  lemma DrawNeverStale(v: TextView, layout: string -> seq<Paragraph>)
    requires CacheCoherent(v, layout)
    ensures CacheCoherent(Draw(v, layout).view, layout)
    ensures Draw(v, layout).mode == LineNumbers ==> Draw(v, layout).numbered == layout(v.text)
  {
  }

  /** A draw right after invalidation consults the layout, once. */
  lemma InvalidateThenDrawRecomputes(v: TextView, layout: string -> seq<Paragraph>)
    requires v.theme.Some? && v.theme.value.lineNumbersStyle.Some?
    ensures Draw(InvalidateCachedParagraphs(v), layout).layoutCalls == 1
    ensures Draw(InvalidateCachedParagraphs(v), layout).numbered == layout(v.text)
  {
  }

  /** A second draw without invalidation in between reuses the first draw's paragraphs. */
  lemma SecondDrawReusesCache(v: TextView, layout: string -> seq<Paragraph>)
    requires v.theme.Some? && v.theme.value.lineNumbersStyle.Some?
    ensures Draw(Draw(v, layout).view, layout).layoutCalls == 0
    ensures Draw(Draw(v, layout).view, layout).numbered == Draw(v, layout).numbered
    ensures Draw(Draw(v, layout).view, layout).view == Draw(v, layout).view
  {
  }

  /** With 1000 lines the gutter is one character wider than with 999, once the minimum is outgrown. */
  lemma ThousandthLineWidensGutter(theme: Option<Theme>)
    requires MinimumWidth(theme) <= 38.0
    ensures NumberedGutterWidth(theme, Decimal.DigitCount(1000)) == NumberedGutterWidth(theme, Decimal.DigitCount(999)) + CharWidth
  {
    Decimal.DigitCountExamples();
    NumberedWidthStep(theme, 3);
  }
}
