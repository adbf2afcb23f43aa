// Translating mpv's OSD style options into a libass style record
// (mp_ass_set_style in sub/ass_mp.c), without the floating-point fields.

module AssStyle {

  datatype Option<T> = None | Some(value: T)

  /** An option colour (struct m_color); its packing into a libass colour is
      not modelled, so style colours hold the option colour itself. */
  datatype Color = Color(r: int, g: int, b: int, a: int)

  /** The integer and string part of struct osd_style_opts. */
  datatype StyleOpts = StyleOpts(
    font: Option<string>,
    color: Color, borderColor: Color, shadowColor: Color, backColor: Color,
    alignX: int, alignY: int,
    bold: bool, italic: bool)

  /** C's `%`, which truncates toward zero (Dafny's is Euclidean). */
  function CRem(a: int, b: int): (r: int)
    requires b > 0
    ensures a >= 0 ==> 0 <= r < b
    ensures a < 0 ==> -b < r <= 0
  {
    if a >= 0 then a % b else -((-a) % b)
  }

  /** C's `/`, which also truncates toward zero. */
  function CQuot(a: int, b: int): int
    requires b > 0
  {
    if a >= 0 then a / b else -((-a) / b)
  }

  /** C's defining identity for `/` and `%`: with the sign ranges of CRem it
      fixes the remainder uniquely. */
  lemma CRemDefines(a: int, b: int)
    requires b > 0
    ensures a == CQuot(a, b) * b + CRem(a, b)
  {
    if a >= 0 {
      assert a == (a / b) * b + a % b;
    } else {
      var m := -a;
      assert m == (m / b) * b + m % b;
    }
  }

  /** The SubStation Alpha v4 "Alignment" code for mpv's alignment options
      (x: -1 left, 0 centre, 1 right; y: -1 top, 0 centre, 1 bottom). */
  function Alignment(alignX: int, alignY: int): (code: int)
    ensures -1 <= alignX <= 1 && -1 <= alignY <= 1 ==> code in {1, 2, 3, 5, 6, 7, 9, 10, 11}
  {
    1 + (alignX + 1) + CRem(alignY + 2, 3) * 4
  }

  /** The SSA v4 table: 1-3 for subtitles at the bottom, 5-7 for top
      ("toptitles", +4), 9-11 for the middle (+8); left, centre, right in each row. */
  function SsaAlignment(alignX: int, alignY: int): int
  {
    var row := if alignY == 1 then 1 else if alignY == -1 then 5 else 9;
    row + (if alignX == -1 then 0 else if alignX == 0 then 1 else 2)
  }

  /** The formula agrees with the SSA table on every valid pair. */
  lemma AlignmentMatchesSsa(alignX: int, alignY: int)
    requires -1 <= alignX <= 1 && -1 <= alignY <= 1
    ensures Alignment(alignX, alignY) == SsaAlignment(alignX, alignY)
    ensures alignY == 1 ==> 1 <= Alignment(alignX, alignY) <= 3
    ensures alignY == -1 ==> 5 <= Alignment(alignX, alignY) <= 7
    ensures alignY == 0 ==> 9 <= Alignment(alignX, alignY) <= 11
  {
  }

  /** Recovers mpv's (x, y) alignment from an SSA code. */
  function AlignmentOptions(code: int): (int, int)
  {
    var row := (code - 1) / 4;
    ((code - 1) % 4 - 1, if row == 0 then 1 else if row == 1 then -1 else 0)
  }

  /** No two valid option pairs share a code: the code determines the pair. */
  lemma AlignmentRoundTrip(alignX: int, alignY: int)
    requires -1 <= alignX <= 1 && -1 <= alignY <= 1
    ensures AlignmentOptions(Alignment(alignX, alignY)) == (alignX, alignY)
  {
  }

  /** Whether the style's FontName is freed and replaced by a copy of the
      option font: only when a font is given and it differs from the current one. */
  predicate ReplacesFontName(current: Option<string>, font: Option<string>)
  {
    font.Some? && (current.None? || current.value != font.value)
  }

  /** FontName after the update: the option font when one is given,
      otherwise the style's own. */
  function UpdatedFontName(current: Option<string>, font: Option<string>): (r: Option<string>)
    ensures font.Some? ==> r == font
    ensures font.None? ==> r == current
    ensures r != current ==> ReplacesFontName(current, font)
  {
    if ReplacesFontName(current, font) then font else current
  }

  /** BorderStyle: an opaque box when the back colour is not transparent,
      an outline otherwise. */
  function BorderStyle(backColor: Color): (b: int)
    ensures b == 4 || b == 1
    ensures b == 4 <==> backColor.a != 0
  {
    if backColor.a != 0 then 4 else 1
  }

  /** The integer and string fields of an ASS_Style that the update writes;
      `fontCopies` counts the times FontName was freed and duplicated. */
  class Style {
    var fontName: Option<string>
    ghost var fontCopies: nat
    var primaryColour: Color
    var secondaryColour: Color
    var outlineColour: Color
    var backColour: Color
    var borderStyle: int
    var alignment: int
    var bold: bool
    var italic: bool

    constructor (fontName: Option<string>)
      ensures this.fontName == fontName && fontCopies == 0
    {
      this.fontName := fontName;
      fontCopies := 0;
      primaryColour, secondaryColour := Color(0, 0, 0, 0), Color(0, 0, 0, 0);
      outlineColour, backColour := Color(0, 0, 0, 0), Color(0, 0, 0, 0);
      borderStyle, alignment := 1, 2;
      bold, italic := false, false;
    }
  }

  /** Writes the options into the style; a null style is left alone, and
      nothing but the style is written. */
  method SetStyle(style: Style?, opts: StyleOpts)
    modifies if style == null then {} else {style}
    ensures style != null ==>
      style.fontName == UpdatedFontName(old(style.fontName), opts.font) &&
      style.fontCopies == old(style.fontCopies) + (if ReplacesFontName(old(style.fontName), opts.font) then 1 else 0)
    ensures style != null ==>
      style.primaryColour == opts.color && style.secondaryColour == opts.color &&
      style.outlineColour == opts.borderColor
    ensures style != null ==>
      style.borderStyle == BorderStyle(opts.backColor) &&
      style.backColour == (if opts.backColor.a != 0 then opts.backColor else opts.shadowColor)
    ensures style != null ==>
      style.alignment == Alignment(opts.alignX, opts.alignY) &&
      style.bold == opts.bold && style.italic == opts.italic
  {
    if style == null {
      return;
    }
    if ReplacesFontName(style.fontName, opts.font) {
      style.fontName := opts.font;
      style.fontCopies := style.fontCopies + 1;
    }
    style.primaryColour := opts.color;
    style.secondaryColour := style.primaryColour;
    style.outlineColour := opts.borderColor;
    if opts.backColor.a != 0 {
      style.backColour := opts.backColor;
      style.borderStyle := 4;
    } else {
      style.backColour := opts.shadowColor;
      style.borderStyle := 1;
    }
    style.alignment := Alignment(opts.alignX, opts.alignY);
    style.bold := opts.bold;
    style.italic := opts.italic;
  }
}
