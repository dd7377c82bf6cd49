/**
 * The theme data the gutter depends on and the gutter width arithmetic of
 * `hideGutter` and `updateGutterWidth(for:)`. Widths are CGFloat in the
 * program and `real` here.
 */
module Gutter {
  import opened Wrappers

  const LeftInset: real := 4.0
  const RightInset: real := 4.0
  /** The width reserved per digit of the largest line number. */
  const CharWidth: real := 10.0

  /** The gutter background colour is rendering-only and not kept. */
  datatype GutterStyle = GutterStyle(minimumWidth: real)

  /** Only the presence of a line-number style matters to the logic. */
  datatype LineNumbersStyle = LineNumbersStyle

  datatype Theme = Theme(gutterStyle: GutterStyle, lineNumbersStyle: Option<LineNumbersStyle>)

  /**
   * `theme?.gutterStyle.minimumWidth ?? 0.0`: the width `hideGutter`
   * installs, and the floor of `updateGutterWidth(for:)`.
   */
  function MinimumWidth(theme: Option<Theme>): (w: real)
    ensures theme.None? ==> w == 0.0
    ensures theme.Some? ==> w == theme.value.gutterStyle.minimumWidth
  {
    match theme
    case None => 0.0
    case Some(t) => t.gutterStyle.minimumWidth
  }

  function Max(a: real, b: real): (m: real)
    ensures m >= a && m >= b
    ensures m == a || m == b
  {
    if a >= b then a else b
  }

  /** The room `digits` characters of line number need, margins included. */
  function NumeralsWidth(digits: int): real {
    digits as real * CharWidth + LeftInset + RightInset
  }

  /** With the program's constants, the numerals need 10 points per digit plus 8 of margins. */
  lemma NumeralsWidthValue(digits: int)
    ensures NumeralsWidth(digits) == 10.0 * digits as real + 8.0
  {
  }

  /** The width `updateGutterWidth(for: digits)` installs. */
  function NumberedGutterWidth(theme: Option<Theme>, digits: int): (w: real)
    ensures w >= MinimumWidth(theme)
    ensures w >= NumeralsWidth(digits)
    ensures w == MinimumWidth(theme) || w == NumeralsWidth(digits)
  {
    Max(MinimumWidth(theme), NumeralsWidth(digits))
  }

  /** More digits never give a narrower gutter. */
  lemma NumberedWidthMonotone(theme: Option<Theme>, a: int, b: int)
    requires a <= b
    ensures NumberedGutterWidth(theme, a) <= NumberedGutterWidth(theme, b)
  {
  }

  /** Once the numerals outgrow the minimum, each extra digit adds exactly one character width. */
  lemma NumberedWidthStep(theme: Option<Theme>, digits: int)
    requires NumeralsWidth(digits) >= MinimumWidth(theme)
    ensures NumberedGutterWidth(theme, digits) == NumeralsWidth(digits)
    ensures NumberedGutterWidth(theme, digits + 1) == NumberedGutterWidth(theme, digits) + CharWidth
  {
  }
}
