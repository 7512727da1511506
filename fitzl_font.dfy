/**
 * The "Fitzl" font, narrow digits: a tiny bitmap font for the capital letters, the digits
 * and the space, with a fallback glyph for everything else the printer can draw. The
 * glyph bitmaps are data and are left out; a glyph's image is identified by the table
 * entry it comes from, with that entry's size.
 */
module FitzlFont {
  import opened Base
  import opened Directions
  import opened Typeset

  /** Which image of the font's tables a glyph shows. */
  datatype GlyphImage = Digit(digit: nat) | Letter(letter: nat) | Space | Notdef

  /** `BitVecImgGlyph`: an image, the base point inside it, and the margins in the order
   *  plus x, plus y, minus x, minus y. */
  datatype Glyph = Glyph(image: GlyphImage, basePoint: Vec2, margin: Margins)

  /** The sizes of the images: `DIGITS` are 2 by 5, `LETTERS` and `NOTDEF_GLYPH` 3 by 5,
   *  `SPACE` 1 by 5. */
  function ImageSize(image: GlyphImage): (size: Vec2)
    ensures size.y == 5 && 1 <= size.x <= 3
  {
    match image
    case Digit(_) => Vec2(2, 5)
    case Letter(_) => Vec2(3, 5)
    case Space => Vec2(1, 5)
    case Notdef => Vec2(3, 5)
  }

  /** `GlyphMetrics for BitVecImgGlyph`: the size is the image's. */
  function GlyphMetrics(g: Glyph): (m: Metrics)
    ensures m.size == ImageSize(g.image) && m.basePoint == g.basePoint && m.margins == g.margin
  {
    Metrics(g.basePoint, ImageSize(g.image), g.margin)
  }

  const UNIT_MARGINS: Margins := Margins(1, 1, 1, 1)

  /** `get_font_spec`: lines run along y only, the base line 4 below the top of a line
   *  and lines 6 apart. */
  function GetFontSpec(lineFeedAxis: Axis2D): (r: Option<FontMetrics>)
    ensures r.Some? <==> lineFeedAxis == Y
    ensures r.Some? ==> r.value.baseLineOffset == 4 && r.value.lineToLineDistance == 6
  {
    match lineFeedAxis
    case Y => Some(FontMetrics(4, 6))
    case X => None
  }

  const DEFAULT_WRITING_DIRECTION: RectDirection := PlusX
  const DEFAULT_LINE_FEED_DIRECTION: RectDirection := PlusY

  predicate IsAsciiDigit(ch: char)
  {
    '0' <= ch <= '9'
  }

  predicate IsAsciiUppercase(ch: char)
  {
    'A' <= ch <= 'Z'
  }

  /** `char_to_glyph`: digits, capital letters and the space have glyphs, every other
   *  character (small letters too) is handed back as the error. */
  function CharToGlyph(ch: char): (r: Result<Glyph, char>)
    ensures r.Ok? <==> IsAsciiDigit(ch) || IsAsciiUppercase(ch) || ch == ' '
    ensures r.Err? ==> r.error == ch
    ensures IsAsciiDigit(ch) ==> r == Ok(Glyph(Digit(ch as int - '0' as int), Vec2(1, 4), UNIT_MARGINS))
    ensures IsAsciiUppercase(ch) ==> r == Ok(Glyph(Letter(ch as int - 'A' as int), Vec2(1, 4), UNIT_MARGINS))
    ensures ch == ' ' ==> r == Ok(Glyph(Space, Vec2(4, 1), UNIT_MARGINS))
    ensures r.Ok? ==> match r.value.image
      case Digit(d) => d < 10
      case Letter(l) => l < 26
      case Space => true
      case Notdef => false
  {
    if IsAsciiDigit(ch) then Ok(Glyph(Digit(ch as int - 0x30), Vec2(1, 4), UNIT_MARGINS))
    else if IsAsciiUppercase(ch) then Ok(Glyph(Letter(ch as int - 0x41), Vec2(1, 4), UNIT_MARGINS))
    else if ch == ' ' then Ok(Glyph(Space, Vec2(4, 1), UNIT_MARGINS))
    else Err(ch)
  }

  /** The character a glyph of the font stands for. */
  function GlyphChar(image: GlyphImage): Option<char>
  {
    match image
    case Digit(d) => if d < 10 then Some((0x30 + d) as char) else None
    case Letter(l) => if l < 26 then Some((0x41 + l) as char) else None
    case Space => Some(' ')
    case Notdef => None
  }

  /** Each character with a glyph is recovered from its glyph's image, so distinct
   *  characters get distinct images; the fallback glyph stands for no character. */
  lemma CharToGlyphInverse(ch: char)
    ensures CharToGlyph(ch).Ok? ==> GlyphChar(CharToGlyph(ch).value.image) == Some(ch)
    ensures GlyphChar(Notdef) == None
  {
  }

  /** `default_notdef_glyph`: always the 3 by 5 fallback glyph. */
  function DefaultNotdefGlyph(): (r: Option<Glyph>)
    ensures r.Some? && r.value.image == Notdef && r.value.basePoint == Vec2(4, 1)
    ensures r.value.margin == UNIT_MARGINS
  {
    Some(Glyph(Notdef, Vec2(4, 1), UNIT_MARGINS))
  }

  /** The font as the text printer sees it. */
  function Fitzl(): Font<Glyph>
  {
    Font(GlyphMetrics, CharToGlyph, DefaultNotdefGlyph(), GetFontSpec,
      DEFAULT_WRITING_DIRECTION, DEFAULT_LINE_FEED_DIRECTION)
  }

  /** Every glyph the printer draws with this font has margin 1 on all four sides and is
   *  5 pixels high; the printer fails on control characters only, and draws every other
   *  character either with its own glyph or with the fallback glyph. */
  lemma FitzlGlyphs(ch: char)
    ensures GlyphFor(Fitzl(), ch).Err? <==> IsControl(ch)
    ensures GlyphFor(Fitzl(), ch).Err? ==> GlyphFor(Fitzl(), ch).error == UnsupportedControlChar(ch)
    ensures GlyphFor(Fitzl(), ch).Ok? ==>
      var m := Fitzl().metrics(GlyphFor(Fitzl(), ch).value);
      m.size.y == 5 && forall side :: Margin(m, side) == 1
    ensures GlyphFor(Fitzl(), ch).Ok? && CharToGlyph(ch).Err? ==> GlyphFor(Fitzl(), ch).value.image == Notdef
  {
    assert IsControl(ch) ==> CharToGlyph(ch).Err?;
  }

  /** A text line printer for this font starts with the pen on the base line 4 pixels
   *  down and writes along plus x. */
  lemma FitzlPrinterStart()
    ensures Fitzl().getFontSpec(Axis(Fitzl().defaultLineFeedDirection)).Some?
    ensures var axis := Axis(Fitzl().defaultLineFeedDirection);
      && AxisAsVector(axis, Fitzl().getFontSpec(axis).value.baseLineOffset) == Vec2(0, 4)
      && Fitzl().defaultWritingDirection == PlusX
  {
  }

  /** "12" printed from the start of a line: the digits' top left corners are at (0, 0)
   *  and (3, 0), two pixels of width plus the one-pixel gap apart. */
  lemma PrintTwelve()
    ensures var p := PrintStrPage(Fitzl(), Page(NewLayout(Vec2(0, 4), PlusX), []), "12");
      && p.0 == Ok(())
      && p.1.drawn == [(Glyph(Digit(1), Vec2(1, 4), UNIT_MARGINS), Vec2(0, 0)),
                       (Glyph(Digit(2), Vec2(1, 4), UNIT_MARGINS), Vec2(3, 0))]
  {
    var font := Fitzl();
    var p0 := Page(NewLayout(Vec2(0, 4), PlusX), []);
    var g1 := Glyph(Digit(1), Vec2(1, 4), UNIT_MARGINS);
    var g2 := Glyph(Digit(2), Vec2(1, 4), UNIT_MARGINS);
    assert GlyphFor(font, '1') == Ok(g1);
    assert GlyphFor(font, '2') == Ok(g2);
    var p1 := DrawGlyph(font, p0, g1);
    assert p1.drawn == [(g1, Vec2(0, 0))];
    var p2 := DrawGlyph(font, p1, g2);
    assert p2.drawn == [(g1, Vec2(0, 0)), (g2, Vec2(3, 0))];
    assert "12"[1..] == "2" && "2"[1..] == "";
    assert PrintStrPage(font, p1, "2") == (Ok(()), p2);
  }
}
