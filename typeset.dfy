/**
 * Typesetting a line of glyphs: the line typesetter places glyph after glyph in the
 * writing direction, separated by their margins, and the text printer turns characters
 * into glyphs through a font and draws them on a canvas.
 *
 * A canvas is modelled by the list of `draw_glyph` calls it receives: the glyph and the
 * position, in graphics coordinates, of the glyph's top left corner.
 */
module Typeset {
  import opened Base
  import opened Directions

  /** The free space a glyph wants on each side of its bounding box. */
  datatype Margins = Margins(plusX: int, plusY: int, minusX: int, minusY: int)

  /** What the typesetter needs of a glyph: its base point and size in graphics
   *  coordinates, and its margins. */
  datatype Metrics = Metrics(basePoint: Vec2, size: Vec2, margins: Margins)

  function Margin(g: Metrics, side: RectDirection): int
  {
    match side
    case PlusX => g.margins.plusX
    case PlusY => g.margins.plusY
    case MinusX => g.margins.minusX
    case MinusY => g.margins.minusY
  }

  // ---------------------------------------------------------------------------------
  // The line typesetter

  /** The pen position in line coordinates, the writing direction, and the margin the
   *  last glyph wants after itself (none before the first glyph). */
  datatype Layout = Layout(posUnrot: Vec2, writingDirection: RectDirection, lastMargin: Option<int>)

  /** The pen position in graphics coordinates. */
  function PenPosition(t: Layout): Vec2
  {
    RotateVec(t.writingDirection, t.posUnrot)
  }

  /** `LineTypesetter::new`: the pen at `initialPosXY`, and no glyph yet. */
  function NewLayout(initialPosXY: Vec2, d: RectDirection): (t: Layout)
    ensures PenPosition(t) == initialPosXY && t.writingDirection == d && t.lastMargin == None
  {
    RotateUnrotate(d, initialPosXY);
    Layout(UnrotateVec(d, initialPosXY), d, None)
  }

  /** The space before a glyph: nothing before the first glyph, otherwise the larger of
   *  the margin the last glyph wants after itself and the margin this glyph wants
   *  before itself. */
  function Gap(t: Layout, g: Metrics): (r: int)
    ensures t.lastMargin == None ==> r == 0
    ensures t.lastMargin.Some? ==>
      var after := t.lastMargin.value; var before := Margin(g, Opposite(t.writingDirection));
      r >= after && r >= before && (r == after || r == before)
  {
    match t.lastMargin
    case None => 0
    case Some(m) => Max(m, Margin(g, Opposite(t.writingDirection)))
  }

  /**
   * `typeset_glyph`: where the glyph goes (its top left corner in graphics coordinates)
   * and the layout after it. The glyph starts one gap after the pen, with its base point
   * on the pen's line; the pen moves past the glyph along the writing direction only, and
   * the glyph's margin in the writing direction is remembered for the next gap.
   */
  function PlaceGlyph(t: Layout, g: Metrics): (r: (Layout, Vec2))
    ensures r.0.writingDirection == t.writingDirection
    ensures r.0.posUnrot.y == t.posUnrot.y
    ensures r.0.posUnrot.x == t.posUnrot.x + Gap(t, g) + UnrotateVec(t.writingDirection, g.size).x
    ensures r.0.lastMargin == Some(Margin(g, t.writingDirection))
  {
    var d := t.writingDirection;
    var gap := Gap(t, g);
    var basePointUnrot := UnrotateVec(d, g.basePoint);
    var sizeUnrot := UnrotateVec(d, g.size);
    var start := t.posUnrot.x + gap;
    var resultUnrot := Vec2(start, t.posUnrot.y - basePointUnrot.y);
    (Layout(Vec2(start + sizeUnrot.x, t.posUnrot.y), d, Some(Margin(g, d))), RotateVec(d, resultUnrot))
  }

  /** `skip(width)`: the pen moves on by `width`; the last margin stays. */
  function Advance(t: Layout, width: int): (t': Layout)
    ensures t'.posUnrot == Vec2(t.posUnrot.x + width, t.posUnrot.y)
    ensures t'.writingDirection == t.writingDirection && t'.lastMargin == t.lastMargin
  {
    t.(posUnrot := Vec2(t.posUnrot.x + width, t.posUnrot.y))
  }

  function AddVec(a: Vec2, b: Vec2): Vec2
  {
    Vec2(a.x + b.x, a.y + b.y)
  }

  /** Every glyph is placed with its base point on the line of the pen, one gap after
   *  the pen in the writing direction. */
  lemma BasePointOnLine(t: Layout, g: Metrics)
    ensures var pos := PlaceGlyph(t, g).1;
      UnrotateVec(t.writingDirection, AddVec(pos, g.basePoint)) ==
        Vec2(t.posUnrot.x + Gap(t, g) + UnrotateVec(t.writingDirection, g.basePoint).x, t.posUnrot.y)
  {
    var d := t.writingDirection;
    var pos := PlaceGlyph(t, g).1;
    RotateUnrotate(d, Vec2(t.posUnrot.x + Gap(t, g), t.posUnrot.y - UnrotateVec(d, g.basePoint).y));
  }

  /**
   * Two glyphs typeset one after the other, with `skip(width)` in between, are
   * `width` plus the larger of their facing margins apart: the far edge of the first
   * glyph and the near edge of the second, measured along the writing direction.
   */
  lemma GlyphSpacing(t: Layout, g1: Metrics, width: int, g2: Metrics)
    ensures var d := t.writingDirection;
      var p1 := PlaceGlyph(t, g1);
      var p2 := PlaceGlyph(Advance(p1.0, width), g2);
      var end1 := UnrotateVec(d, p1.1).x + UnrotateVec(d, g1.size).x;
      UnrotateVec(d, p2.1).x - end1 == width + Max(Margin(g1, d), Margin(g2, Opposite(d)))
  {
    var d := t.writingDirection;
    var p1 := PlaceGlyph(t, g1);
    var t2 := Advance(p1.0, width);
    RotateUnrotate(d, Vec2(t.posUnrot.x + Gap(t, g1), t.posUnrot.y - UnrotateVec(d, g1.basePoint).y));
    RotateUnrotate(d, Vec2(t2.posUnrot.x + Gap(t2, g2), t2.posUnrot.y - UnrotateVec(d, g2.basePoint).y));
  }

  class LineTypesetter {
    var posUnrot: Vec2
    const writingDirection: RectDirection
    var lastMargin: Option<int>

    function State(): Layout
      reads this
    {
      Layout(posUnrot, writingDirection, lastMargin)
    }

    /** `LineTypesetter::new`. */
    constructor (initialPosXY: Vec2, d: RectDirection)
      ensures State() == NewLayout(initialPosXY, d)
    {
      posUnrot := UnrotateVec(d, initialPosXY);
      writingDirection := d;
      lastMargin := None;
    }

    /** `pos_xy`: the pen in graphics coordinates. */
    function PosXY(): Vec2
      reads this
    {
      PenPosition(State())
    }

    method TypesetGlyph(g: Metrics) returns (pos: Vec2)
      modifies this
      ensures (State(), pos) == PlaceGlyph(old(State()), g)
    {
      var margin := if lastMargin.Some? then Max(lastMargin.value, Margin(g, Opposite(writingDirection))) else 0;
      var basePointUnrot := UnrotateVec(writingDirection, g.basePoint);
      var sizeUnrot := UnrotateVec(writingDirection, g.size);
      posUnrot := posUnrot.(x := posUnrot.x + margin);
      var resultUnrot := Vec2(posUnrot.x, posUnrot.y - basePointUnrot.y);
      posUnrot := posUnrot.(x := posUnrot.x + sizeUnrot.x);
      lastMargin := Some(Margin(g, writingDirection));
      pos := RotateVec(writingDirection, resultUnrot);
    }

    method Skip(width: int)
      modifies this
      ensures State() == Advance(old(State()), width)
    {
      posUnrot := posUnrot.(x := posUnrot.x + width);
    }
  }

  // ---------------------------------------------------------------------------------
  // Fonts and the text printer

  datatype FontMetrics = FontMetrics(baseLineOffset: int, lineToLineDistance: int)

  /** A font: glyphs of type `G` with their metrics, the glyph of a character (or the
   *  character back when the font has none), a glyph for undefined characters, and the
   *  directions and line metrics it is made for. */
  datatype Font<!G> = Font(
    metrics: G -> Metrics,
    charToGlyph: char -> Result<G, char>,
    notdefGlyph: Option<G>,
    getFontSpec: Axis2D -> Option<FontMetrics>,
    defaultWritingDirection: RectDirection,
    defaultLineFeedDirection: RectDirection)

  datatype PrinterError = GlyphNotDefined(ch: char) | UnsupportedControlChar(ch: char)

  /** `char::is_control`: the control characters U+0000-U+001F and U+007F-U+009F. */
  predicate IsControl(ch: char)
  {
    ch as int <= 0x1F || (0x7F <= ch as int <= 0x9F)
  }

  /** `handle_non_printable`: a control character is an error; any other character
   *  is drawn with the notdef glyph if there is one, and is an error otherwise. */
  function HandleNonPrintable<G>(notdef: Option<G>, ch: char): (r: Result<G, PrinterError>)
    ensures r.Err? <==> IsControl(ch) || notdef.None?
    ensures r.Err? ==> r.error == if IsControl(ch) then UnsupportedControlChar(ch) else GlyphNotDefined(ch)
    ensures r.Ok? ==> Some(r.value) == notdef
  {
    if IsControl(ch) then Err(UnsupportedControlChar(ch))
    else if notdef.None? then Err(GlyphNotDefined(ch))
    else Ok(notdef.value)
  }

  /** The glyph `print_char` draws for `ch`, or the error it returns. */
  function GlyphFor<G>(font: Font<G>, ch: char): Result<G, PrinterError>
  {
    match font.charToGlyph(ch)
    case Ok(g) => Ok(g)
    case Err(c) => HandleNonPrintable(font.notdefGlyph, c)
  }

  /** The typesetter's layout and the calls the canvas has received so far. */
  datatype Page<G> = Page(layout: Layout, drawn: seq<(G, Vec2)>)

  /** `print_glyph_helper`: typeset the glyph and draw it where the typesetter put it. */
  function DrawGlyph<G>(font: Font<G>, p: Page<G>, g: G): (p': Page<G>)
    ensures p'.drawn == p.drawn + [(g, PlaceGlyph(p.layout, font.metrics(g)).1)]
    ensures p'.layout == PlaceGlyph(p.layout, font.metrics(g)).0
  {
    var placed := PlaceGlyph(p.layout, font.metrics(g));
    Page(placed.0, p.drawn + [(g, placed.1)])
  }

  /** `print_char`: draws the glyph of `ch`, or fails and leaves the page unchanged. */
  function PrintCharPage<G>(font: Font<G>, p: Page<G>, ch: char): (r: (Result<(), PrinterError>, Page<G>))
    ensures r.0.Err? <==> GlyphFor(font, ch).Err?
    ensures r.0.Err? ==> r.0.error == GlyphFor(font, ch).error && r.1 == p
    ensures r.0.Ok? ==> r.1 == DrawGlyph(font, p, GlyphFor(font, ch).value)
  {
    match GlyphFor(font, ch)
    case Ok(g) => (Ok(()), DrawGlyph(font, p, g))
    case Err(e) => (Err(e), p)
  }

  /** `print_str`: the characters in turn, up to the first one that fails. */
  function PrintStr<G>(font: Font<G>, p: Page<G>, s: string): Result<(), PrinterError>
  {
    PrintStrPage(font, p, s).0
  }

  function PrintStrPage<G>(font: Font<G>, p: Page<G>, s: string): (Result<(), PrinterError>, Page<G>)
    decreases |s|
  {
    if s == [] then (Ok(()), p)
    else
      match PrintCharPage(font, p, s[0])
      case (Err(e), p') => (Err(e), p')
      case (Ok(_), p') => PrintStrPage(font, p', s[1..])
  }

  /** The number of leading characters of `s` that the font can print. */
  function Printable<G>(font: Font<G>, s: string): (k: nat)
    ensures k <= |s|
    ensures forall i | 0 <= i < k :: GlyphFor(font, s[i]).Ok?
    ensures k < |s| ==> GlyphFor(font, s[k]).Err?
    decreases |s|
  {
    if s == [] || GlyphFor(font, s[0]).Err? then 0
    else
      var k := Printable(font, s[1..]);
      assert forall i | 1 <= i < |s| :: s[i] == s[1..][i - 1];
      1 + k
  }

  /** `q` is `p` with the glyphs of the first `k` characters of `s` drawn after what `p`
   *  already holds. */
  ghost predicate DrawsPrefix<G>(font: Font<G>, p: Page<G>, s: string, k: nat, q: Page<G>)
  {
    k <= |s| && |q.drawn| == |p.drawn| + k && q.drawn[..|p.drawn|] == p.drawn &&
    (forall i | 0 <= i < k :: GlyphFor(font, s[i]).Ok? && q.drawn[|p.drawn| + i].0 == GlyphFor(font, s[i]).value)
  }

  /** Drawing the glyph of the first character in front of a drawn prefix of the rest. */
  lemma DrawsPrefixCons<G>(font: Font<G>, p: Page<G>, s: string, k: nat, q: Page<G>)
    requires s != [] && GlyphFor(font, s[0]).Ok?
    requires DrawsPrefix(font, DrawGlyph(font, p, GlyphFor(font, s[0]).value), s[1..], k, q)
    ensures DrawsPrefix(font, p, s, k + 1, q)
  {
    var p' := DrawGlyph(font, p, GlyphFor(font, s[0]).value);
    forall i | 0 <= i < k + 1
      ensures GlyphFor(font, s[i]).Ok? && q.drawn[|p.drawn| + i].0 == GlyphFor(font, s[i]).value
    {
      if i > 0 {
        assert s[i] == s[1..][i - 1];
        assert q.drawn[|p'.drawn| + (i - 1)].0 == GlyphFor(font, s[1..][i - 1]).value;
      } else {
        assert q.drawn[..|p'.drawn|] == p'.drawn;
        assert q.drawn[|p.drawn|] == p'.drawn[|p.drawn|];
      }
    }
    assert q.drawn[..|p.drawn|] == q.drawn[..|p'.drawn|][..|p.drawn|];
  }

  /**
   * `print_str` stops at the first character it cannot print and returns that
   * character's error; the characters before it stay drawn, one glyph each, in order,
   * and nothing after it is drawn.
   */
  lemma {:induction false} PrintStrStopsAtFirstError<G>(font: Font<G>, p: Page<G>, s: string)
    ensures var k := Printable(font, s);
      var r := PrintStrPage(font, p, s);
      r.0 == (if k < |s| then Err(GlyphFor(font, s[k]).error) else Ok(())) &&
      DrawsPrefix(font, p, s, k, r.1)
    decreases |s|
  {
    if s != [] && GlyphFor(font, s[0]).Ok? {
      var p' := DrawGlyph(font, p, GlyphFor(font, s[0]).value);
      PrintStrStopsAtFirstError(font, p', s[1..]);
      assert Printable(font, s) == 1 + Printable(font, s[1..]);
      assert PrintStrPage(font, p, s) == PrintStrPage(font, p', s[1..]);
      var k := Printable(font, s[1..]);
      if k < |s[1..]| {
        assert s[1..][k] == s[k + 1];
      }
      DrawsPrefixCons(font, p, s, k, PrintStrPage(font, p', s[1..]).1);
    } else {
      assert PrintStrPage(font, p, s).1.drawn == p.drawn;
    }
  }

  /** Printing two strings one after the other is printing their concatenation, when the
   *  first one prints without error. */
  lemma {:induction false} PrintStrAppend<G>(font: Font<G>, p: Page<G>, a: string, b: string)
    requires PrintStr(font, p, a).Ok?
    ensures PrintStrPage(font, p, a + b) == PrintStrPage(font, PrintStrPage(font, p, a).1, b)
    decreases |a|
  {
    if a == [] {
      assert a + b == b;
    } else {
      assert (a + b)[0] == a[0] && (a + b)[1..] == a[1..] + b;
      var r := PrintCharPage(font, p, a[0]);
      assert r.0.Ok?;
      assert PrintStrPage(font, p, a) == PrintStrPage(font, r.1, a[1..]);
      assert PrintStrPage(font, p, a + b) == PrintStrPage(font, r.1, a[1..] + b);
      PrintStrAppend(font, r.1, a[1..], b);
    }
  }

  // ---------------------------------------------------------------------------------
  // Numbers

  /** `div_rem` on naturals: quotient and remainder, by repeated subtraction. */
  function DivRem(x: nat, b: nat): (r: (nat, nat))
    requires b > 0
    ensures r.1 < b
    decreases x
  {
    if x < b then (0, x) else var t := DivRem(x - b, b); (t.0 + 1, t.1)
  }

  lemma {:induction false} DivRemSpec(x: nat, b: nat)
    requires b > 0
    ensures x == DivRem(x, b).0 * b + DivRem(x, b).1
    decreases x
  {
    if x >= b {
      DivRemSpec(x - b, b);
      var t := DivRem(x - b, b);
      assert (t.0 + 1) * b == t.0 * b + b;
    }
  }

  /** The `n` lowest digits of `x` in base `base`, most significant first. */
  function Digits(x: nat, base: nat, n: nat): (ds: seq<nat>)
    requires base > 0
    ensures |ds| == n && forall i | 0 <= i < n :: ds[i] < base
    decreases n
  {
    if n == 0 then [] else Digits(DivRem(x, base).0, base, n - 1) + [DivRem(x, base).1]
  }

  /** What is left of `x` after `n` divisions by `base`. */
  function Shifted(x: nat, base: nat, n: nat): nat
    requires base > 0
    decreases n
  {
    if n == 0 then x else Shifted(DivRem(x, base).0, base, n - 1)
  }

  function Pow(b: nat, n: nat): (r: nat)
    ensures b > 0 ==> r > 0
  {
    if n == 0 then 1 else Pow(b, n - 1) * b
  }

  /** The number a list of digits stands for, most significant first. */
  function Value(ds: seq<nat>, base: nat): nat
  {
    if ds == [] then 0 else Value(ds[..|ds| - 1], base) * base + ds[|ds| - 1]
  }

  lemma MulCarry(s: nat, p: nat, v: nat, b: nat, r: nat)
    requires v < p && r < b
    ensures (s * p + v) * b + r == s * (p * b) + (v * b + r)
    ensures v * b + r < p * b
  {
    assert (s * p + v) * b == s * (p * b) + v * b;
    assert v * b <= (p - 1) * b;
    assert (p - 1) * b == p * b - b;
  }

  /** The digits and what is left after them make up `x`. */
  lemma {:induction false} DigitsSplit(x: nat, base: nat, n: nat)
    requires base > 0
    ensures Value(Digits(x, base, n), base) < Pow(base, n)
    ensures x == Shifted(x, base, n) * Pow(base, n) + Value(Digits(x, base, n), base)
    decreases n
  {
    if n > 0 {
      var qr := DivRem(x, base);
      var ds := Digits(x, base, n);
      assert ds[..n - 1] == Digits(qr.0, base, n - 1);
      DigitsSplit(qr.0, base, n - 1);
      DivRemSpec(x, base);
      MulCarry(Shifted(qr.0, base, n - 1), Pow(base, n - 1), Value(Digits(qr.0, base, n - 1), base), base, qr.1);
    }
  }

  lemma ModUnique(x: int, d: int, k: int, r: int)
    requires d > 0 && x == k * d + r && 0 <= r < d
    ensures x % d == r
  {
    var k' := x / d;
    assert x == k' * d + x % d;
    if k' < k {
      MulAtLeast(k - k', d);
      assert false;
    } else if k' > k {
      MulAtLeast(k' - k, d);
      assert false;
    }
  }

  lemma MulAtLeast(a: int, d: int)
    requires a >= 1 && d > 0
    ensures a * d >= d
  {
  }

  /** The digits `int_to_digits` writes stand for `x` modulo `base^n`, each below the
   *  base. */
  lemma DigitsValue(x: nat, base: nat, n: nat)
    requires base > 0
    ensures Value(Digits(x, base, n), base) == x % Pow(base, n)
  {
    DigitsSplit(x, base, n);
    ModUnique(x, Pow(base, n), Shifted(x, base, n), Value(Digits(x, base, n), base));
  }

  /** `int_to_digits(x, digits, base)`: fills `digits` from the end with the remainders
   *  of repeated division by `base`. */
  method IntToDigits(x: nat, digits: array<U8>, base: U8)
    requires base > 0
    modifies digits
    ensures digits[..] == Digits(x, base, digits.Length)
  {
    var n := digits.Length;
    var rest := x;
    var k := 0;
    while k < n
      invariant 0 <= k <= n
      invariant Digits(x, base, n) == Digits(rest, base, n - k) + digits[n - k..]
    {
      ghost var tail := digits[n - k..];
      var qr := DivRem(rest, base);
      digits[n - 1 - k] := qr.1;
      assert digits[n - (k + 1)..] == [qr.1] + tail;
      rest := qr.0;
      k := k + 1;
    }
  }

  /** `char::from_digit(d, 10)`. */
  function DigitChar(d: nat): (c: char)
    requires d < 10
    ensures '0' <= c <= '9' && c as int - '0' as int == d
  {
    ('0' as int + d) as char
  }

  function DigitChars(ds: seq<nat>): (s: string)
    requires forall i | 0 <= i < |ds| :: ds[i] < 10
    ensures |s| == |ds| && forall i | 0 <= i < |ds| :: s[i] == DigitChar(ds[i])
  {
    seq(|ds|, i requires 0 <= i < |ds| => DigitChar(ds[i]))
  }

  /** The text printer: a font, a typesetter and a canvas. */
  class TextLinePrinter<G> {
    const font: Font<G>
    const typesetter: LineTypesetter
    var drawn: seq<(G, Vec2)>

    function Current(): Page<G>
      reads this, typesetter
    {
      Page(typesetter.State(), drawn)
    }

    /** `TextLinePrinter::new`: the pen starts on the font's base line, offset along the
     *  line-feed axis, and the canvas is untouched. The font must have metrics for that
     *  axis. */
    constructor (font: Font<G>)
      requires font.getFontSpec(Axis(font.defaultLineFeedDirection)).Some?
      ensures this.font == font && drawn == [] && fresh(typesetter)
      ensures var axis := Axis(font.defaultLineFeedDirection);
        typesetter.State() ==
          NewLayout(AxisAsVector(axis, font.getFontSpec(axis).value.baseLineOffset), font.defaultWritingDirection)
    {
      var axis := Axis(font.defaultLineFeedDirection);
      var offset := font.getFontSpec(axis).value.baseLineOffset;
      this.font := font;
      typesetter := new LineTypesetter(AxisAsVector(axis, offset), font.defaultWritingDirection);
      drawn := [];
    }

    method PrintGlyph(g: G)
      modifies this, typesetter
      ensures Current() == DrawGlyph(font, old(Current()), g)
    {
      var pos := typesetter.TypesetGlyph(font.metrics(g));
      drawn := drawn + [(g, pos)];
    }

    /** `skip`: the pen moves along the line and nothing is drawn. */
    method Skip(width: int)
      modifies typesetter
      ensures Current() == Page(Advance(old(Current()).layout, width), drawn)
    {
      typesetter.Skip(width);
    }

    method PrintChar(ch: char) returns (r: Result<(), PrinterError>)
      modifies this, typesetter
      ensures (r, Current()) == PrintCharPage(font, old(Current()), ch)
    {
      var maybeGlyph := font.charToGlyph(ch);
      match maybeGlyph {
        case Ok(g) =>
          PrintGlyph(g);
        case Err(c) =>
          var h := HandleNonPrintable(font.notdefGlyph, c);
          if h.Err? {
            return Err(h.error);
          }
          PrintGlyph(h.value);
      }
      r := Ok(());
    }

    method PrintStr(s: string) returns (r: Result<(), PrinterError>)
      modifies this, typesetter
      ensures (r, Current()) == PrintStrPage(font, old(Current()), s)
    {
      var i := 0;
      while i < |s|
        invariant 0 <= i <= |s|
        invariant PrintStrPage(font, old(Current()), s) == PrintStrPage(font, Current(), s[i..])
      {
        assert s[i..][1..] == s[i + 1..];
        r := PrintChar(s[i]);
        if r.Err? {
          return;
        }
        i := i + 1;
      }
      r := Ok(());
    }

    /** `print_digit`: a digit below 10 is printed as its character. */
    method PrintDigit(digit: nat) returns (r: Result<(), PrinterError>)
      requires digit < 10
      modifies this, typesetter
      ensures (r, Current()) == PrintCharPage(font, old(Current()), DigitChar(digit))
    {
      r := PrintChar(DigitChar(digit));
    }

    /** `print_uint::<_, n>(x)`: the `n` lowest decimal digits of `x`, with leading
     *  zeros, printed like a string of them. */
    method PrintUint(x: nat, n: nat) returns (r: Result<(), PrinterError>)
      modifies this, typesetter
      ensures (r, Current()) == PrintStrPage(font, old(Current()), DigitChars(Digits(x, 10, n)))
    {
      var digs := new U8[n](_ => 0);
      IntToDigits(x, digs, 10);
      ghost var s := DigitChars(Digits(x, 10, n));
      var i := 0;
      while i < n
        invariant 0 <= i <= n
        invariant digs[..] == Digits(x, 10, n)
        invariant PrintStrPage(font, old(Current()), s) == PrintStrPage(font, Current(), s[i..])
      {
        assert s[i..][1..] == s[i + 1..];
        r := PrintDigit(digs[i]);
        if r.Err? {
          return;
        }
        i := i + 1;
      }
      r := Ok(());
    }
  }
}
