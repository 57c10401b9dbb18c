/**
 * The preview shown under each terminal in the tree view: the lowest visible lines
 * that hold something other than blanks, cut to the preview width, with their
 * colours resolved, under an optional header line with the foreground process name
 * and the Command-digit hint.
 */
module Preview {
  import opened Wrappers
  import opened Registry
  import Activity

  const PreviewRows: nat := 5
  const PreviewCols: nat := 40
  const NUL: char := '\0'

  function Min(a: int, b: int): int {
    if a < b then a else b
  }

  function Max(a: int, b: int): int {
    if a < b then b else a
  }

  // ---------------------------------------------------------------------------
  // Colours

  /** A colour as red, green and blue on the 0 to 255 scale. */
  datatype Rgb = Rgb(r: int, g: int, b: int)

  /** A cell colour as the terminal engine reports it. */
  datatype Color = DefaultColor | DefaultInvertedColor | Ansi256(code: nat) | TrueColor(red: nat, green: nat, blue: nat)

  /** The sixteen xterm basic colours. */
  const BasicColors: seq<Rgb> := [
    Rgb(0, 0, 0), Rgb(205, 0, 0), Rgb(0, 205, 0), Rgb(205, 205, 0),
    Rgb(0, 0, 238), Rgb(205, 0, 205), Rgb(0, 205, 205), Rgb(229, 229, 229),
    Rgb(127, 127, 127), Rgb(255, 0, 0), Rgb(0, 255, 0), Rgb(255, 255, 0),
    Rgb(92, 92, 255), Rgb(255, 0, 255), Rgb(0, 255, 255), Rgb(255, 255, 255)]

  /** The six intensities of each axis of the colour cube. */
  const CubeLevels: seq<int> := [0, 95, 135, 175, 215, 255]

  function CubeColor(i: nat): Rgb
    requires i < 216
  {
    Rgb(CubeLevels[(i / 36) % 6], CubeLevels[(i / 6) % 6], CubeLevels[i % 6])
  }

  function GreyColor(i: nat): Rgb {
    Rgb(8 + i * 10, 8 + i * 10, 8 + i * 10)
  }

  /** Entry `i` of the 256-colour palette: 16 basic colours, the 6x6x6 cube, 24 greys. */
  function Ansi256Entry(i: nat): Rgb
    requires i < 256
  {
    if i < 16 then BasicColors[i]
    else if i < 232 then CubeColor(i - 16)
    else GreyColor(i - 232)
  }

  /** `ansi256Colors`: the palette built by three append loops. */
  method BuildAnsi256Palette() returns (colors: seq<Rgb>)
    ensures |colors| == 256
    ensures forall i :: 0 <= i < 256 ==> colors[i] == Ansi256Entry(i)
  {
    colors := [];
    var k := 0;
    while k < 16
      invariant 0 <= k <= 16 && |colors| == k
      invariant forall i :: 0 <= i < k ==> colors[i] == Ansi256Entry(i)
    {
      colors := colors + [BasicColors[k]];
      k := k + 1;
    }
    var i := 0;
    while i < 216
      invariant 0 <= i <= 216 && |colors| == 16 + i
      invariant forall j :: 0 <= j < 16 + i ==> colors[j] == Ansi256Entry(j)
    {
      colors := colors + [Rgb(CubeLevels[(i / 36) % 6], CubeLevels[(i / 6) % 6], CubeLevels[i % 6])];
      i := i + 1;
    }
    i := 0;
    while i < 24
      invariant 0 <= i <= 24 && |colors| == 232 + i
      invariant forall j :: 0 <= j < 232 + i ==> colors[j] == Ansi256Entry(j)
    {
      var c := 8 + i * 10;
      colors := colors + [Rgb(c, c, c)];
      i := i + 1;
    }
  }

  /** Cube entries decode back to their three axis coordinates. */
  lemma CubeIndexDecodes(red: nat, green: nat, blue: nat)
    requires red < 6 && green < 6 && blue < 6
    ensures 16 <= 16 + 36 * red + 6 * green + blue < 232
    ensures Ansi256Entry(16 + 36 * red + 6 * green + blue) ==
              Rgb(CubeLevels[red], CubeLevels[green], CubeLevels[blue])
  {
    var i := 36 * red + 6 * green + blue;
    var j := 6 * red + green;
    assert i == 6 * j + blue;
    SixDigit(j, blue);
    SixDigit(red, green);
    assert i / 36 == j / 6 by {
      assert i / 36 == (i / 6) / 6;
    }
  }

  /** The quotient and remainder by six of `6 * q + r`. */
  lemma SixDigit(q: nat, r: nat)
    requires r < 6
    ensures (6 * q + r) / 6 == q && (6 * q + r) % 6 == r
  {
  }

  /** The grey ramp runs from 8 to 238 in steps of 10 and is neither black nor white. */
  lemma GreyRamp(k: nat)
    requires k < 24
    ensures Ansi256Entry(232 + k) == Rgb(8 + 10 * k, 8 + 10 * k, 8 + 10 * k)
    ensures 8 <= Ansi256Entry(232 + k).r <= 238
    ensures k > 0 ==> Ansi256Entry(232 + k).r == Ansi256Entry(231 + k).r + 10
  {
  }

  /** `mapAttributeColor(_:isForeground:nativeFg:nativeBg:)`. */
  function MapAttributeColor(color: Color, isForeground: bool, nativeFg: Rgb, nativeBg: Rgb): (c: Rgb)
    ensures color.Ansi256? ==> c == Ansi256Entry(color.code % 256)
  {
    match color
    case DefaultColor => if isForeground then nativeFg else nativeBg
    case DefaultInvertedColor => if isForeground then nativeBg else nativeFg
    case Ansi256(code) => Ansi256Entry(code % 256)
    case TrueColor(r, g, b) => Rgb(r, g, b)
  }

  /** Any code, however large, lands on a palette entry: codes 256 apart look alike. */
  lemma AnsiLookupWraps(code: nat, nativeFg: Rgb, nativeBg: Rgb, isForeground: bool)
    ensures MapAttributeColor(Ansi256(code + 256), isForeground, nativeFg, nativeBg) ==
            MapAttributeColor(Ansi256(code), isForeground, nativeFg, nativeBg)
  {
    assert (code + 256) % 256 == code % 256;
  }

  // ---------------------------------------------------------------------------
  // Cells and lines

  /** One screen cell: its character, colours and whether the inverse style is on. */
  datatype Cell = Cell(ch: char, fg: Color, bg: Color, inverse: bool)

  /** A preview character with its resolved colours. */
  datatype StyledChar = StyledChar(ch: char, fg: Rgb, bg: Rgb)

  /** Unicode White_Space, which `Character.isWhitespace` tests. */
  predicate IsWhitespace(c: char) {
    || ('\U{0009}' <= c <= '\U{000D}') || c == ' ' || c == '\U{0085}' || c == '\U{00A0}'
    || c == '\U{1680}' || ('\U{2000}' <= c <= '\U{200A}') || c == '\U{2028}' || c == '\U{2029}'
    || c == '\U{202F}' || c == '\U{205F}' || c == '\U{3000}'
  }

  predicate IsBlank(c: char) {
    c == ' ' || c == NUL || IsWhitespace(c)
  }

  /** The line holds something visible. */
  predicate HasContent(line: seq<Cell>) {
    exists col :: 0 <= col < |line| && !IsBlank(line[col].ch)
  }

  /** The column scan made for every candidate line. */
  method LineHasContent(line: seq<Cell>) returns (hasContent: bool)
    ensures hasContent <==> HasContent(line)
  {
    hasContent := false;
    var col := 0;
    while col < |line|
      invariant 0 <= col <= |line|
      invariant forall c :: 0 <= c < col ==> IsBlank(line[c].ch)
    {
      var ch := line[col].ch;
      if ch != ' ' && ch != NUL && !IsWhitespace(ch) {
        hasContent := true;
        break;
      }
      col := col + 1;
    }
  }

  /** The colours a cell is drawn in: inverse swaps them, and a swapped default turns
      into the inverted default. */
  function EffectiveColors(cell: Cell): (Color, Color) {
    if cell.inverse then
      (if cell.bg == DefaultColor then DefaultInvertedColor else cell.bg,
       if cell.fg == DefaultColor then DefaultInvertedColor else cell.fg)
    else (cell.fg, cell.bg)
  }

  function RenderCell(cell: Cell, nativeFg: Rgb, nativeBg: Rgb): StyledChar {
    var (fg, bg) := EffectiveColors(cell);
    StyledChar(cell.ch, MapAttributeColor(fg, true, nativeFg, nativeBg), MapAttributeColor(bg, false, nativeFg, nativeBg))
  }

  /** Inverse video shows the cell's background colour as foreground and vice versa. */
  lemma InverseSwapsRenderedColors(ch: char, fg: Color, bg: Color, nativeFg: Rgb, nativeBg: Rgb)
    requires fg != DefaultInvertedColor && bg != DefaultInvertedColor
    ensures var plain := RenderCell(Cell(ch, fg, bg, false), nativeFg, nativeBg);
      var inverted := RenderCell(Cell(ch, fg, bg, true), nativeFg, nativeBg);
      inverted.fg == plain.bg && inverted.bg == plain.fg
  {
  }

  /** The rendering of a run of cells: NUL cells are dropped, others keep their order. */
  function RenderCells(cells: seq<Cell>, nativeFg: Rgb, nativeBg: Rgb): (r: seq<StyledChar>)
    ensures |r| <= |cells|
    ensures r == [] <==> forall k :: 0 <= k < |cells| ==> cells[k].ch == NUL
    ensures forall k :: 0 <= k < |r| ==> r[k].ch != NUL
    decreases |cells|
  {
    if cells == [] then []
    else
      var before := RenderCells(DropLast(cells), nativeFg, nativeBg);
      assert forall k :: 0 <= k < |cells| - 1 ==> DropLast(cells)[k] == cells[k];
      before + (if Last(cells).ch == NUL then [] else [RenderCell(Last(cells), nativeFg, nativeBg)])
  }

  /** The first `min(40, count)` cells of a line, rendered one by one. */
  method RenderLine(line: seq<Cell>, nativeFg: Rgb, nativeBg: Rgb) returns (out: seq<StyledChar>)
    ensures out == RenderCells(line[..Min(PreviewCols, |line|)], nativeFg, nativeBg)
    ensures |out| <= PreviewCols
  {
    out := [];
    var cols := Min(PreviewCols, |line|);
    var col := 0;
    while col < cols
      invariant 0 <= col <= cols
      invariant out == RenderCells(line[..col], nativeFg, nativeBg)
    {
      var cell := line[col];
      assert DropLast(line[..col + 1]) == line[..col];
      assert Last(line[..col + 1]) == cell;
      if cell.ch != NUL {
        var fg := cell.fg;
        var bg := cell.bg;
        if cell.inverse {
          fg, bg := bg, fg;
          if fg == DefaultColor { fg := DefaultInvertedColor; }
          if bg == DefaultColor { bg := DefaultInvertedColor; }
        }
        var fgColor := MapAttributeColor(fg, true, nativeFg, nativeBg);
        var bgColor := MapAttributeColor(bg, false, nativeFg, nativeBg);
        out := out + [StyledChar(cell.ch, fgColor, bgColor)];
      }
      col := col + 1;
    }
    assert line[..col] == line[..Min(PreviewCols, |line|)];
  }

  function Rendered(line: seq<Cell>, nativeFg: Rgb, nativeBg: Rgb): seq<StyledChar> {
    RenderCells(line[..Min(PreviewCols, |line|)], nativeFg, nativeBg)
  }

  // ---------------------------------------------------------------------------
  // Choosing the preview lines

  /** The visible screen, top row first; a row the engine cannot return is None. */
  type Screen = seq<Option<seq<Cell>>>

  predicate RowHasContent(screen: Screen, row: int) {
    0 <= row < |screen| && screen[row].Some? && HasContent(screen[row].value)
  }

  /** A row that goes into the preview: it has content and its rendering is not empty. */
  predicate Taken(screen: Screen, row: int, nativeFg: Rgb, nativeBg: Rgb) {
    RowHasContent(screen, row) && Rendered(screen[row].value, nativeFg, nativeBg) != []
  }

  /** The rows scanned upwards from `row` until `budget` lines are taken, in screen order. */
  function Collect(screen: Screen, row: int, budget: nat, nativeFg: Rgb, nativeBg: Rgb): (lines: seq<seq<StyledChar>>)
    requires row < |screen|
    decreases row + 1
  {
    if budget == 0 || row < 0 then []
    else if Taken(screen, row, nativeFg, nativeBg) then
      Collect(screen, row - 1, budget - 1, nativeFg, nativeBg) + [Rendered(screen[row].value, nativeFg, nativeBg)]
    else Collect(screen, row - 1, budget, nativeFg, nativeBg)
  }

  /** Every taken row from the top down to `row`, in screen order. */
  function AllTaken(screen: Screen, row: int, nativeFg: Rgb, nativeBg: Rgb): seq<seq<StyledChar>>
    requires row < |screen|
    decreases row + 1
  {
    if row < 0 then []
    else if Taken(screen, row, nativeFg, nativeBg) then
      AllTaken(screen, row - 1, nativeFg, nativeBg) + [Rendered(screen[row].value, nativeFg, nativeBg)]
    else AllTaken(screen, row - 1, nativeFg, nativeBg)
  }

  /** The last `n` elements (all of them when there are fewer). */
  function LastN<T>(s: seq<T>, n: nat): (r: seq<T>)
    ensures |r| == Min(n, |s|)
  {
    if |s| <= n then s else s[|s| - n..]
  }

  /** The preview holds the bottom-most `budget` taken rows, top to bottom. */
  lemma {:induction false} CollectIsBottomMost(screen: Screen, row: int, budget: nat, nativeFg: Rgb, nativeBg: Rgb)
    requires row < |screen|
    ensures Collect(screen, row, budget, nativeFg, nativeBg) == LastN(AllTaken(screen, row, nativeFg, nativeBg), budget)
    decreases row + 1
  {
    if budget == 0 || row < 0 {
    } else if Taken(screen, row, nativeFg, nativeBg) {
      CollectIsBottomMost(screen, row - 1, budget - 1, nativeFg, nativeBg);
      var above := AllTaken(screen, row - 1, nativeFg, nativeBg);
      var line := Rendered(screen[row].value, nativeFg, nativeBg);
      if |above| > budget - 1 {
        assert (above + [line])[|above| + 1 - budget..] == above[|above| - (budget - 1)..] + [line];
      }
    } else {
      CollectIsBottomMost(screen, row - 1, budget, nativeFg, nativeBg);
    }
  }

  /** Every preview line is the rendering of a row with content, at most 40 characters
      long and never empty; there are at most `budget` of them. */
  lemma {:induction false} CollectShape(screen: Screen, row: int, budget: nat, nativeFg: Rgb, nativeBg: Rgb)
    requires row < |screen|
    ensures var lines := Collect(screen, row, budget, nativeFg, nativeBg);
      && |lines| <= budget
      && forall k :: 0 <= k < |lines| ==>
           && 0 < |lines[k]| <= PreviewCols
           && exists r :: 0 <= r <= row && RowHasContent(screen, r) && lines[k] == Rendered(screen[r].value, nativeFg, nativeBg)
    decreases row + 1
  {
    if budget == 0 || row < 0 {
    } else if Taken(screen, row, nativeFg, nativeBg) {
      CollectShape(screen, row - 1, budget - 1, nativeFg, nativeBg);
      var line := screen[row].value;
      assert |line[..Min(PreviewCols, |line|)]| <= PreviewCols;
    } else {
      CollectShape(screen, row - 1, budget, nativeFg, nativeBg);
    }
  }

  /** Rows without content below the scan's start change nothing: starting from the
      last row with content is the same as starting from the bottom row. */
  lemma {:induction false} SkipEmptyBottom(screen: Screen, last: int, from: int, budget: nat, nativeFg: Rgb, nativeBg: Rgb)
    requires -1 <= last <= from < |screen|
    requires forall r :: last < r < |screen| ==> !RowHasContent(screen, r)
    ensures Collect(screen, from, budget, nativeFg, nativeBg) == Collect(screen, last, budget, nativeFg, nativeBg)
    decreases from - last
  {
    if from > last {
      SkipEmptyBottom(screen, last, from - 1, budget, nativeFg, nativeBg);
    }
  }

  /** The first loop: the lowest row that has content, or -1. */
  method FindLastContentRow(screen: Screen) returns (lastContentRow: int)
    ensures -1 <= lastContentRow < |screen|
    ensures lastContentRow >= 0 ==> RowHasContent(screen, lastContentRow)
    ensures forall r :: lastContentRow < r < |screen| ==> !RowHasContent(screen, r)
  {
    lastContentRow := |screen| - 1;
    while lastContentRow >= 0
      invariant -1 <= lastContentRow < |screen|
      invariant forall r :: lastContentRow < r < |screen| ==> !RowHasContent(screen, r)
    {
      if screen[lastContentRow].Some? {
        var hasContent := LineHasContent(screen[lastContentRow].value);
        if hasContent {
          break;
        }
      }
      lastContentRow := lastContentRow - 1;
    }
  }

  // ---------------------------------------------------------------------------
  // The header line and the whole preview

  /** `"\(n)"` for an integer. */
  function DecimalString(n: int): (s: string)
    ensures s != []
    decreases if n < 0 then -n + 1 else n
  {
    if n < 0 then "-" + DecimalString(-n)
    else if n < 10 then [('0' as int + n) as char]
    else DecimalString(n / 10) + [('0' as int + n % 10) as char]
  }

  /** The spaces between the process name and the hint. */
  function HeaderPadding(totalLen: nat): (n: nat)
    ensures n >= 1
    ensures totalLen + 5 < PreviewCols ==> totalLen + n == PreviewCols - 5
    ensures totalLen + 5 >= PreviewCols - 1 ==> n == 1
  {
    Max(1, PreviewCols - totalLen - 5)
  }

  /** The header line: the process name padded with spaces, then the hint in its colour. */
  datatype Header = Header(text: string, hint: string, hintColor: Activity.Hint)

  datatype PreviewText = PreviewText(header: Option<Header>, lines: seq<seq<StyledChar>>)

  function HeaderFor(hintIndex: Option<int>, processName: Option<string>, hintColor: Option<Activity.Hint>): (h: Option<Header>)
    ensures h.Some? <==> hintIndex.Some? || processName.Some?
    ensures h.Some? ==> |h.value.text| >= 1 && h.value.hint == (if hintIndex.Some? then "[" + DecimalString(hintIndex.value) + "]" else "")
  {
    if processName.None? && hintIndex.None? then None
    else
      var procName := processName.GetOr("");
      var hintStr := if hintIndex.Some? then "[" + DecimalString(hintIndex.value) + "]" else "";
      var padding := HeaderPadding(|procName| + |hintStr|);
      Some(Header(procName + Spaces(padding), hintStr, hintColor.GetOr(Activity.IdleGrey)))
  }

  function Spaces(n: nat): (s: string)
    ensures |s| == n && forall k :: 0 <= k < n ==> s[k] == ' '
  {
    seq(n, _ => ' ')
  }

  /** The number of content lines the preview may hold. */
  function MaxContentRows(hasHeader: bool): nat {
    if hasHeader then PreviewRows - 1 else PreviewRows
  }

  /** `getTerminalPreview(_:hintIndex:processName:hintColor:)` over the visible screen. */
  method GetTerminalPreview(screen: Screen, hintIndex: Option<int>, processName: Option<string>,
                            hintColor: Option<Activity.Hint>, nativeFg: Rgb, nativeBg: Rgb)
    returns (preview: PreviewText)
    ensures preview.header == HeaderFor(hintIndex, processName, hintColor)
    ensures preview.lines ==
      Collect(screen, |screen| - 1, MaxContentRows(processName.Some? || hintIndex.Some?), nativeFg, nativeBg)
  {
    var hasHeader := processName.Some? || hintIndex.Some?;
    var maxContentRows := if hasHeader then PreviewRows - 1 else PreviewRows;
    var lastContentRow := FindLastContentRow(screen);
    var lineAttrs := CollectContentLines(screen, lastContentRow, maxContentRows, nativeFg, nativeBg);
    SkipEmptyBottom(screen, lastContentRow, |screen| - 1, maxContentRows, nativeFg, nativeBg);
    var header := BuildHeader(hintIndex, processName, hintColor);
    preview := PreviewText(header, lineAttrs);
  }

  /** The collecting loop of `getTerminalPreview`: upward from the last row with
      content, the rendered non-empty lines, at most `maxContentRows` of them. */
  method CollectContentLines(screen: Screen, lastContentRow: int, maxContentRows: nat, nativeFg: Rgb, nativeBg: Rgb)
    returns (lineAttrs: seq<seq<StyledChar>>)
    requires -1 <= lastContentRow < |screen|
    ensures lineAttrs == Collect(screen, lastContentRow, maxContentRows, nativeFg, nativeBg)
  {
    lineAttrs := [];
    var row := lastContentRow;
    while |lineAttrs| < maxContentRows && row >= 0
      invariant -1 <= row <= lastContentRow
      invariant |lineAttrs| <= maxContentRows
      invariant Collect(screen, row, maxContentRows - |lineAttrs|, nativeFg, nativeBg) + lineAttrs ==
                Collect(screen, lastContentRow, maxContentRows, nativeFg, nativeBg)
      decreases row + 1
    {
      if screen[row].Some? {
        var line := screen[row].value;
        var hasContent := LineHasContent(line);
        if hasContent {
          var attrStr := RenderLine(line, nativeFg, nativeBg);
          if |attrStr| > 0 {
            lineAttrs := [attrStr] + lineAttrs;
          }
        }
      }
      row := row - 1;
    }
  }

  /** The header part of `getTerminalPreview`. */
  method BuildHeader(hintIndex: Option<int>, processName: Option<string>, hintColor: Option<Activity.Hint>)
    returns (header: Option<Header>)
    ensures header == HeaderFor(hintIndex, processName, hintColor)
  {
    header := None;
    if processName.Some? || hintIndex.Some? {
      var procName := if processName.Some? then processName.value else "";
      var hintStr := if hintIndex.Some? then "[" + DecimalString(hintIndex.value) + "]" else "";
      var totalLen := |procName| + |hintStr|;
      var paddingCount := Max(1, PreviewCols - totalLen - 5);
      var padding := Spaces(paddingCount);
      header := Some(Header(procName + padding, hintStr, if hintColor.Some? then hintColor.value else Activity.IdleGrey));
    }
  }

  /** With a header the preview shows at most four content lines, without one five;
      the lines are the lowest taken rows of the screen, top to bottom. */
  lemma PreviewLineBudget(screen: Screen, hasHeader: bool, nativeFg: Rgb, nativeBg: Rgb)
    ensures var lines := Collect(screen, |screen| - 1, MaxContentRows(hasHeader), nativeFg, nativeBg);
      && |lines| <= (if hasHeader then PreviewRows - 1 else PreviewRows)
      && lines == LastN(AllTaken(screen, |screen| - 1, nativeFg, nativeBg), MaxContentRows(hasHeader))
      && forall k :: 0 <= k < |lines| ==> 0 < |lines[k]| <= PreviewCols
  {
    CollectShape(screen, |screen| - 1, MaxContentRows(hasHeader), nativeFg, nativeBg);
    CollectIsBottomMost(screen, |screen| - 1, MaxContentRows(hasHeader), nativeFg, nativeBg);
  }

  /** A one-digit hint reads "[d]" and, with a short process name, the header text and
      the hint together span 35 columns. */
  lemma HeaderLayout(d: int, name: string, hintColor: Option<Activity.Hint>)
    requires 1 <= d <= 9 && |name| <= 30
    ensures var h := HeaderFor(Some(d), Some(name), hintColor).value;
      h.hint == ['[', ('0' as int + d) as char, ']'] &&
      |h.text| + |h.hint| == PreviewCols - 5 &&
      h.text[..|name|] == name
  {
  }
}
