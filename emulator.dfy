/**
 * Helpers of the desktop emulator: the conversion between a time of day and seconds,
 * the arrow keys standing for the four buttons, the text picture of the LED matrix,
 * and the wait between two executor steps.
 */
module Emulator {
  import opened Base
  import opened Buttons

  // ---------------------------------------------------------------------------------
  // Time of day

  /** `daytime_to_seconds`: seconds since midnight. */
  function DaytimeToSeconds(hour: U8, minute: U8, second: U8): (r: I32)
    ensures r == hour * 3600 + minute * 60 + second
  {
    hour * 3600 + minute * 60 + second
  }

  /** Rust's `/` on machine integers: rounds toward zero. */
  function TruncDiv(a: int, b: int): (q: int)
    requires b > 0
    ensures a >= 0 ==> q == a / b
    ensures a < 0 ==> q == -((-a) / b)
  {
    if a >= 0 then a / b else -((-a) / b)
  }

  /** Rust's `%` on machine integers: the remainder takes the sign of `a`. */
  function TruncRem(a: int, b: int): (r: int)
    requires b > 0
    ensures a == TruncDiv(a, b) * b + r
    ensures a >= 0 ==> r == a % b
    ensures -b < r < b && (a < 0 ==> r <= 0)
  {
    if a >= 0 then a % b else -((-a) % b)
  }

  /** Rust's `as u8`: the low eight bits. */
  function AsU8(x: int): U8
  {
    x % TWO_POW_8
  }

  /** `seconds_to_daytime`, as written: `div_rem` and `%` round toward zero, so a negative
   *  count of seconds leaves negative parts that `as u8` turns into large numbers. */
  function SecondsToDaytime(seconds: I32): (r: (U8, U8, U8))
  {
    var minutes, second := TruncDiv(seconds, 60), TruncRem(seconds, 60);
    var hours, minute := TruncDiv(minutes, 60), TruncRem(minutes, 60);
    var hour := TruncRem(hours, 24);
    (AsU8(hour), AsU8(minute), AsU8(second))
  }

  lemma DivDiv(n: nat)
    ensures n / 60 / 60 == n / 3600
  {
    var q := n / 3600;
    var r := n % 3600;
    assert n == q * 3600 + r && 0 <= r < 3600;
    assert n / 60 == q * 60 + r / 60;
    assert (q * 60 + r / 60) / 60 == q;
  }

  /** For a count that is not negative, the hour of the day, the minute of the hour and
   *  the second of the minute. */
  lemma SecondsToDaytimeNonNegative(n: I32)
    requires n >= 0
    ensures SecondsToDaytime(n) == ((n / 3600) % 24, (n / 60) % 60, n % 60)
  {
    DivDiv(n);
  }

  lemma DivBy60(n: int, q: int, r: int)
    requires n == q * 60 + r && 0 <= r < 60
    ensures n / 60 == q && n % 60 == r
  {
  }

  /** Converting a valid time of day to seconds and back gives the time back. */
  lemma DaytimeRoundTrip(hour: U8, minute: U8, second: U8)
    requires hour < 24 && minute < 60 && second < 60
    ensures SecondsToDaytime(DaytimeToSeconds(hour, minute, second)) == (hour, minute, second)
  {
    var n := DaytimeToSeconds(hour, minute, second);
    var minutes := hour * 60 + minute;
    DivBy60(n, minutes, second);
    assert TruncDiv(n, 60) == minutes && TruncRem(n, 60) == second;
    DivBy60(minutes, hour, minute);
    assert TruncDiv(minutes, 60) == hour && TruncRem(minutes, 60) == minute;
    assert TruncRem(hour, 24) == hour;
    assert AsU8(hour) == hour && AsU8(minute) == minute && AsU8(second) == second;
  }

  /** A negative count does not give a time of day: one second before midnight gives
   *  second 255, and a clock set to 01:00:00 at 23:00:00 and read at 00:30:00 (a shift
   *  of -79200 seconds on a reading of 1800) shows 235:226:00 instead of 02:30:00. */
  lemma SecondsToDaytimeNegative()
    ensures SecondsToDaytime(-1) == (0, 0, 255)
    ensures SecondsToDaytime(1800 - 79200) == (235, 226, 0)
    ensures SecondsToDaytimeWrapped(1800 - 79200) == (2, 30, 0)
  {
    assert TruncDiv(-1, 60) == 0 && TruncRem(-1, 60) == -1;
    assert TruncDiv(0, 60) == 0 && TruncRem(0, 60) == 0;
    assert TruncDiv(-77400, 60) == -1290 && TruncRem(-77400, 60) == 0;
    assert TruncDiv(-1290, 60) == -21 && TruncRem(-1290, 60) == -30;
    assert TruncRem(-21, 24) == -21;
    assert -77400 % 86400 == 9000;
  }

  /** The time of day a count of seconds evidently stands for: counted round the clock,
   *  so a negative count is a time before a midnight. */
  function SecondsToDaytimeWrapped(seconds: int): (r: (U8, U8, U8))
    ensures r.0 < 24 && r.1 < 60 && r.2 < 60
    ensures DaytimeToSeconds(r.0, r.1, r.2) == seconds % 86400
  {
    var inDay := seconds % 86400;
    var r := (inDay / 3600, (inDay / 60) % 60, inDay % 60);
    assert inDay == (inDay / 3600) * 3600 + ((inDay / 60) % 60) * 60 + inDay % 60 by {
      DivDiv(inDay);
    }
    r
  }

  /** The corrected conversion agrees with the written one for every count between 0 and
   *  the end of the day, inverts `daytime_to_seconds`, and repeats every day. */
  lemma WrappedAgrees(seconds: I32)
    ensures 0 <= seconds < 86400 ==> SecondsToDaytimeWrapped(seconds) == SecondsToDaytime(seconds)
    ensures SecondsToDaytimeWrapped(seconds + 86400) == SecondsToDaytimeWrapped(seconds)
  {
    if 0 <= seconds < 86400 {
      assert seconds % 86400 == seconds;
      SecondsToDaytimeNonNegative(seconds);
      assert (seconds / 3600) % 24 == seconds / 3600;
    }
    assert (seconds + 86400) % 86400 == seconds % 86400;
  }

  lemma WrappedRoundTrip(hour: U8, minute: U8, second: U8)
    requires hour < 24 && minute < 60 && second < 60
    ensures SecondsToDaytimeWrapped(DaytimeToSeconds(hour, minute, second)) == (hour, minute, second)
  {
    WrappedAgrees(DaytimeToSeconds(hour, minute, second));
    DaytimeRoundTrip(hour, minute, second);
  }

  // ---------------------------------------------------------------------------------
  // Keys

  /** The key codes the terminal reports; only the arrow keys matter. */
  datatype KeyCode = Up | Down | Left | Right | Char(ch: char) | OtherKey

  /** `map_key_codes`: up, down, left and right are the buttons previous, next, escape and
   *  enter; no other key is a button. */
  function MapKeyCodes(key: KeyCode): (r: Option<ButtonFlags>)
    ensures r.Some? <==> key in {Up, Down, Left, Right}
    ensures forall b :: r == Some({b}) <==> key == KeyOf(b)
  {
    match key
    case Up => Some({Prev})
    case Down => Some({Next})
    case Left => Some({Escape})
    case Right => Some({Enter})
    case _ => None
  }

  /** The key of each button. */
  function KeyOf(b: Button): KeyCode
  {
    match b
    case Prev => Up
    case Next => Down
    case Escape => Left
    case Enter => Right
  }

  // ---------------------------------------------------------------------------------
  // The LED matrix as text

  const MATRIX_WIDTH: nat := 12
  const MATRIX_HEIGHT: nat := 8
  const FRAME_LINE: string := "+------------+\n\r"

  /** One character cell shows two pixels, one above the other: full block, upper half
   *  block, lower half block or blank. */
  function CellChar(top: bool, bottom: bool): (c: char)
    ensures CellBits(c) == Some((top, bottom))
  {
    if top then (if bottom then '\U{2588}' else '\U{2580}')
    else (if bottom then '\U{2584}' else ' ')
  }

  /** The two pixels a cell character shows. */
  function CellBits(c: char): Option<(bool, bool)>
  {
    if c == '\U{2588}' then Some((true, true))
    else if c == '\U{2580}' then Some((true, false))
    else if c == '\U{2584}' then Some((false, true))
    else if c == ' ' then Some((false, false))
    else None
  }

  /** The first `n` cells of text line `line`: pixel rows `2 * line` and `2 * line + 1`. */
  function Cells(bits: seq<bool>, line: nat, n: nat): (s: string)
    requires |bits| >= MATRIX_WIDTH * MATRIX_HEIGHT && line < MATRIX_HEIGHT / 2 && n <= MATRIX_WIDTH
    ensures |s| == n
  {
    seq(n, j requires 0 <= j < n => CellChar(bits[24 * line + j], bits[24 * line + 12 + j]))
  }

  function LineText(bits: seq<bool>, line: nat): (s: string)
    requires |bits| >= MATRIX_WIDTH * MATRIX_HEIGHT && line < MATRIX_HEIGHT / 2
    ensures |s| == 16
  {
    "|" + Cells(bits, line, MATRIX_WIDTH) + "|\n\r"
  }

  function LinesText(bits: seq<bool>, n: nat): (s: string)
    requires |bits| >= MATRIX_WIDTH * MATRIX_HEIGHT && n <= MATRIX_HEIGHT / 2
    ensures |s| == 16 * n
  {
    if n == 0 then "" else LinesText(bits, n - 1) + LineText(bits, n - 1)
  }

  /** The whole picture: a frame line, four text lines, a frame line. */
  function MatrixText(bits: seq<bool>): string
    requires |bits| >= MATRIX_WIDTH * MATRIX_HEIGHT
  {
    FRAME_LINE + LinesText(bits, 4) + FRAME_LINE
  }

  lemma {:induction false} LinesTextCell(bits: seq<bool>, n: nat, line: nat, j: nat)
    requires |bits| >= MATRIX_WIDTH * MATRIX_HEIGHT && n <= MATRIX_HEIGHT / 2 && line < n && j < MATRIX_WIDTH
    ensures LinesText(bits, n)[16 * line + 1 + j] == CellChar(bits[24 * line + j], bits[24 * line + 12 + j])
  {
    if line < n - 1 {
      LinesTextCell(bits, n - 1, line, j);
    }
  }

  /** The picture can be read back: 16 characters per text line, and the cell in column `j` of
   *  text line `line` shows the pixels in column `j` of pixel rows `2 * line` and
   *  `2 * line + 1`. */
  lemma MatrixTextDecodes(bits: seq<bool>, line: nat, j: nat)
    requires |bits| >= MATRIX_WIDTH * MATRIX_HEIGHT && line < MATRIX_HEIGHT / 2 && j < MATRIX_WIDTH
    ensures |MatrixText(bits)| == 96
    ensures CellBits(MatrixText(bits)[16 + 16 * line + 1 + j]) ==
      Some((bits[2 * line * MATRIX_WIDTH + j], bits[(2 * line + 1) * MATRIX_WIDTH + j]))
  {
    LinesTextCell(bits, 4, line, j);
  }

  lemma CellsSnoc(bits: seq<bool>, line: nat, j: nat)
    requires |bits| >= MATRIX_WIDTH * MATRIX_HEIGHT && line < MATRIX_HEIGHT / 2 && j < MATRIX_WIDTH
    ensures Cells(bits, line, j + 1) == Cells(bits, line, j) + [CellChar(bits[24 * line + j], bits[24 * line + 12 + j])]
  {
    var c := CellChar(bits[24 * line + j], bits[24 * line + 12 + j]);
    forall k | 0 <= k < j + 1
      ensures Cells(bits, line, j + 1)[k] == (Cells(bits, line, j) + [c])[k]
    {
    }
  }

  /** The cells of one text line of `write_matrix`, from pixel rows `2 * iLine` and
   *  `2 * iLine + 1`. */
  method WriteCells(matrix: seq<bool>, iLine: nat) returns (cells: string)
    requires |matrix| >= MATRIX_WIDTH * MATRIX_HEIGHT && iLine < MATRIX_HEIGHT / 2
    ensures cells == Cells(matrix, iLine, MATRIX_WIDTH)
  {
    var width: nat := 12;
    var p1 := (iLine * 2) * width;
    var p2 := p1 + width;
    assert p1 == 24 * iLine && p2 == 24 * iLine + 12;
    cells := "";
    for j := 0 to width
      invariant cells == Cells(matrix, iLine, j)
    {
      var c: char;
      if matrix[p1 + j] {
        if matrix[p2 + j] {
          c := '\U{2588}';
        } else {
          c := '\U{2580}';
        }
      } else {
        if matrix[p2 + j] {
          c := '\U{2584}';
        } else {
          c := ' ';
        }
      }
      assert c == CellChar(matrix[24 * iLine + j], matrix[24 * iLine + 12 + j]);
      CellsSnoc(matrix, iLine, j);
      cells := cells + [c];
    }
  }

  /** `write_matrix`: the text picture of the 12 by 8 matrix `matrix`, two pixel rows per
   *  text line (writing to a `String` cannot fail). */
  method WriteMatrix(matrix: seq<bool>) returns (out: string)
    requires |matrix| >= MATRIX_WIDTH * MATRIX_HEIGHT
    ensures out == MatrixText(matrix)
  {
    var height: nat := 8;
    out := FRAME_LINE;
    for iLine := 0 to height / 2
      invariant out == FRAME_LINE + LinesText(matrix, iLine)
    {
      var cells := WriteCells(matrix, iLine);
      assert LinesText(matrix, iLine + 1) == LinesText(matrix, iLine) + ("|" + cells + "|\n\r");
      out := out + "|" + cells + "|\n\r";
    }
    out := out + FRAME_LINE;
  }

  // ---------------------------------------------------------------------------------
  // The host loop's wait

  /** The wait before the first step. */
  const FIRST_DELAY: I32 := 100

  /** The longest wait between two steps. */
  const MAX_DELAY: I32 := 2000

  /** The next wait: the executor's delay, at most 2000 ms; none when the executor
   *  reports that the task finished, which ends the loop. */
  function NextDelay(stepResult: Option<I32>): (r: Option<I32>)
    ensures r.None? <==> stepResult.None?
    ensures r.Some? ==> r.value <= MAX_DELAY && r.value <= stepResult.value
    ensures r.Some? ==> (r.value == stepResult.value <==> stepResult.value <= MAX_DELAY)
  {
    match stepResult
    case None => None
    case Some(d) => Some(Min(d, MAX_DELAY))
  }
}
