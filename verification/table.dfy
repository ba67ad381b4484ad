/** myne/table.py: print a list of rows as a boxed table. Every column is
    as wide as its widest cell, cells are right-aligned, and the header is
    set off from the body by a rule.

    Cells are the strings `str(value)` gives; `print` is modelled by
    returning the printed lines, and the table the caller passed in comes
    back without its header row, which `show` pops off. The `IndexError`
    Python raises on an empty table or on a row longer than the header is
    an `Err`. */
module Table {
  import opened Results

  /** One of the style classes: every glyph is a single character. */
  datatype Style = Style(
    h: char,        // rule between header and body
    v: char,        // between two cells
    borderH: char,  // top and bottom border
    borderV: char,  // left and right border
    tl: char, tr: char, bl: char, br: char,  // corners
    hb: char,       // top border at a column boundary
    ht: char,       // bottom border at a column boundary
    vl: char,       // right end of the header rule
    vr: char,       // left end of the header rule
    hv: char)       // header rule at a column boundary

  /** `StyleSimple`. */
  const Simple := Style('-', '|', '-', '|', '+', '+', '+', '+', '+', '+', '+', '+', '+')

  /** `StyleBox`. */
  const Box := Style('─', '│', '─', '│', '┌', '┐', '└', '┘', '┬', '┴', '┤', '├', '┼')

  /** `StyleBoxBorder`: double lines for the outer border. */
  const BoxBorder := Style('─', '│', '═', '║', '╔', '╗', '╚', '╝', '╤', '╧', '╢', '╟', '┼')

  /** `_styles`: the styles by name. */
  const Styles: map<string, Style> := map["simple" := Simple, "box" := Box, "box-border" := BoxBorder]

  /** `_styles.get(style, StyleSimple)`: the three registered names give
      their styles, and every other name the simple one. */
  function StyleNamed(name: string): (st: Style)
    ensures name == "simple" ==> st == Simple
    ensures name == "box" ==> st == Box
    ensures name == "box-border" ==> st == BoxBorder
    ensures name != "simple" && name != "box" && name != "box-border" ==> st == Simple
  {
    if name in Styles then Styles[name] else Simple
  }

  /** The exception `show` can raise. */
  datatype TableError = IndexError

  // -----------------------------------------------------------------------
  // Text pieces
  // -----------------------------------------------------------------------

  /** `f"{'':{fill}>{n}}"`: `n` copies of `fill`. */
  function Repeat(fill: char, n: nat): (s: string)
    ensures |s| == n
    ensures forall i :: 0 <= i < n ==> s[i] == fill
  {
    seq(n, _ => fill)
  }

  /** `f"{cell:>{width}}"`: pad on the left with spaces up to `width`; a
      longer cell is kept whole. */
  function RightAlign(cell: string, width: nat): (s: string)
    ensures |s| == if |cell| < width then width else |cell|
    ensures s[|s| - |cell|..] == cell
    ensures forall i :: 0 <= i < |s| - |cell| ==> s[i] == ' '
  {
    if |cell| < width then Repeat(' ', width - |cell|) + cell else cell
  }

  /** `sep.join(parts)`. */
  function Join(sep: string, parts: seq<string>): string
    decreases |parts|
  {
    if |parts| == 0 then ""
    else if |parts| == 1 then parts[0]
    else parts[0] + sep + Join(sep, parts[1..])
  }

  function Sum(w: seq<nat>): nat {
    if |w| == 0 then 0 else w[0] + Sum(w[1..])
  }

  /** The total length of some strings. */
  function TotalLength(parts: seq<string>): nat {
    if |parts| == 0 then 0 else |parts[0]| + TotalLength(parts[1..])
  }

  /** A join is as long as its parts plus one separator between each two. */
  lemma {:induction false} JoinLength(sep: string, parts: seq<string>)
    requires |parts| > 0
    ensures |Join(sep, parts)| == TotalLength(parts) + |sep| * (|parts| - 1)
    decreases |parts|
  {
    if |parts| > 1 {
      JoinLength(sep, parts[1..]);
    }
  }

  /** Strings of the given lengths add up to the sum of the lengths. */
  lemma {:induction false} TotalOfWidths(parts: seq<string>, w: seq<nat>)
    requires |parts| == |w|
    requires forall j :: 0 <= j < |w| ==> |parts[j]| == w[j]
    ensures TotalLength(parts) == Sum(w)
    decreases |w|
  {
    if |w| > 0 {
      TotalOfWidths(parts[1..], w[1..]);
    }
  }

  // -----------------------------------------------------------------------
  // Column widths
  // -----------------------------------------------------------------------

  /** The widest cell of column `j` over the rows that have one; 0 if none
      does. */
  function ColumnWidth(table: seq<seq<string>>, j: nat): nat
    decreases |table|
  {
    if |table| == 0 then 0
    else
      var rest := ColumnWidth(table[..|table| - 1], j);
      var last := table[|table| - 1];
      if j < |last| && |last[j]| > rest then |last[j]| else rest
  }

  /** Every cell fits its column. */
  lemma {:induction false} CellFits(table: seq<seq<string>>, i: nat, j: nat)
    requires i < |table| && j < |table[i]|
    ensures |table[i][j]| <= ColumnWidth(table, j)
    decreases |table|
  {
    if i < |table| - 1 {
      CellFits(table[..|table| - 1], i, j);
    }
  }

  /** The width of a column some row reaches is the length of one of its
      cells: the widest one, found in row `k`. */
  lemma {:induction false} WidthAttained(table: seq<seq<string>>, i: nat, j: nat) returns (k: nat)
    requires i < |table| && j < |table[i]|
    ensures k < |table| && j < |table[k]| && |table[k][j]| == ColumnWidth(table, j)
    decreases |table|
  {
    var before := table[..|table| - 1];
    var last := table[|table| - 1];
    if j < |last| && |last[j]| > ColumnWidth(before, j) {
      k := |table| - 1;
    } else if exists m :: 0 <= m < |before| && j < |before[m]| {
      var m :| 0 <= m < |before| && j < |before[m]|;
      k := WidthAttained(before, m, j);
      assert table[k] == before[k];
    } else {
      NoCellNoWidth(before, j);
      if i < |table| - 1 {
        assert j < |before[i]|;
      }
      k := |table| - 1;
    }
  }

  /** A column no row reaches has width 0. */
  lemma {:induction false} NoCellNoWidth(table: seq<seq<string>>, j: nat)
    requires forall k :: 0 <= k < |table| ==> j >= |table[k]|
    ensures ColumnWidth(table, j) == 0
    decreases |table|
  {
    if |table| > 0 {
      NoCellNoWidth(table[..|table| - 1], j);
    }
  }

  /** The rows `show` accepts: at least a header, and no row longer than
      it (a longer row indexes `max_len` past its end). */
  predicate FitsHeader(table: seq<seq<string>>) {
    |table| > 0 && forall i :: 0 <= i < |table| ==> |table[i]| <= |table[0]|
  }

  /** `max_len`: one width per header cell. */
  function Widths(table: seq<seq<string>>): (w: seq<nat>)
    requires |table| > 0
    ensures |w| == |table[0]|
  {
    seq(|table[0]|, j requires 0 <= j < |table[0]| => ColumnWidth(table, j))
  }

  /** The `max_len` loop of `show`, row by row and cell by cell, raising
      `IndexError` on the first cell past the header's length. */
  method MaxLen(table: seq<seq<string>>) returns (res: Result<seq<nat>, TableError>)
    ensures res.Err? <==> !FitsHeader(table)
    ensures res.Ok? ==> res.value == Widths(table)
  {
    if |table| == 0 {
      return Err(IndexError);
    }
    var maxLen: seq<nat> := seq(|table[0]|, _ => 0);
    var i := 0;
    while i < |table|
      invariant 0 <= i <= |table|
      invariant |maxLen| == |table[0]|
      invariant forall k :: 0 <= k < i ==> |table[k]| <= |table[0]|
      invariant forall j :: 0 <= j < |maxLen| ==> maxLen[j] == ColumnWidth(table[..i], j)
    {
      var row := table[i];
      var j := 0;
      while j < |row|
        invariant 0 <= j <= |row|
        invariant |maxLen| == |table[0]|
        invariant j > 0 ==> j <= |maxLen|
        invariant forall m :: 0 <= m < |maxLen| ==>
          maxLen[m] == ColumnWidth(if m < j then table[..i + 1] else table[..i], m)
      {
        if j >= |maxLen| {
          return Err(IndexError);
        }
        assert table[..i + 1][..i] == table[..i];
        var cell := |row[j]|;
        maxLen := maxLen[j := if maxLen[j] > cell then maxLen[j] else cell];
        j := j + 1;
      }
      forall m | 0 <= m < |maxLen| && m >= |row|
        ensures maxLen[m] == ColumnWidth(table[..i + 1], m)
      {
        assert table[..i + 1][..i] == table[..i];
      }
      i := i + 1;
    }
    assert table[..|table|] == table;
    return Ok(maxLen);
  }

  // -----------------------------------------------------------------------
  // Lines
  // -----------------------------------------------------------------------

  /** The cells of a row, each right-aligned to its column. */
  function AlignedCells(row: seq<string>, widths: seq<nat>): (cells: seq<string>)
    requires |row| <= |widths|
    ensures |cells| == |row|
    ensures forall j :: 0 <= j < |row| && |row[j]| <= widths[j] ==>
      |cells[j]| == widths[j] && cells[j][widths[j] - |row[j]|..] == row[j]
  {
    seq(|row|, j requires 0 <= j < |row| => RightAlign(row[j], widths[j]))
  }

  /** `show_row`: the aligned cells joined by ` V `, inside the vertical
      border and a space on each side. */
  function RowLine(st: Style, row: seq<string>, widths: seq<nat>): (line: string)
    requires |row| <= |widths|
    ensures |line| >= 4 && line[0] == st.borderV && line[|line| - 1] == st.borderV
  {
    [st.borderV, ' '] + Join([' ', st.v, ' '], AlignedCells(row, widths)) + [' ', st.borderV]
  }

  /** `show_line`: `count` runs of `fill` as wide as their columns, joined by
      `fill middle fill`, between `left fill` and `fill right`. `count` is the
      length of the loop variable `row` the function closes over. */
  function RuleLine(left: char, middle: char, right: char, fill: char, widths: seq<nat>, count: nat): (line: string)
    requires count <= |widths|
    ensures |line| >= 4 && line[0] == left && line[|line| - 1] == right
    ensures forall k :: 0 < k < |line| - 1 ==> line[k] == fill || line[k] == middle
  {
    var runs := Runs(fill, widths[..count]);
    var sep := [fill, middle, fill];
    JoinOfTwoGlyphs(sep, runs, fill, middle);
    var inner := Join(sep, runs);
    var line := [left, fill] + inner + [fill, right];
    assert forall k :: 2 <= k < |line| - 2 ==> line[k] == inner[k - 2];
    line
  }

  /** A join of strings drawn from two glyphs, with a separator drawn from
      the same two, is drawn from those two glyphs. */
  lemma {:induction false} JoinOfTwoGlyphs(sep: string, parts: seq<string>, a: char, b: char)
    requires forall k :: 0 <= k < |sep| ==> sep[k] == a || sep[k] == b
    requires forall i, k :: 0 <= i < |parts| && 0 <= k < |parts[i]| ==> parts[i][k] == a || parts[i][k] == b
    ensures forall k :: 0 <= k < |Join(sep, parts)| ==> Join(sep, parts)[k] == a || Join(sep, parts)[k] == b
    decreases |parts|
  {
    if |parts| > 1 {
      JoinOfTwoGlyphs(sep, parts[1..], a, b);
      var rest := Join(sep, parts[1..]);
      var j := parts[0] + sep + rest;
      assert Join(sep, parts) == j;
      forall k | 0 <= k < |j|
        ensures j[k] == a || j[k] == b
      {
        if k < |parts[0]| {
          assert j[k] == parts[0][k];
        } else if k < |parts[0]| + |sep| {
          assert j[k] == sep[k - |parts[0]|];
        } else {
          assert j[k] == rest[k - |parts[0]| - |sep|];
        }
      }
    }
  }

  /** One run of `fill` per width. */
  function Runs(fill: char, widths: seq<nat>): (runs: seq<string>)
    ensures |runs| == |widths|
    ensures forall j :: 0 <= j < |widths| ==> runs[j] == Repeat(fill, widths[j])
  {
    seq(|widths|, j requires 0 <= j < |widths| => Repeat(fill, widths[j]))
  }

  /** What `show` prints, and the caller's table after the call. */
  datatype Rendered = Rendered(lines: seq<string>, remaining: seq<seq<string>>)

  /** Line `k` of the output for a style, the column widths and the number
      of columns the borders draw. */
  function LineAt(st: Style, table: seq<seq<string>>, w: seq<nat>, n: nat, k: nat): string
    requires |table| > 0 && n <= |w| && k < |table| + 3
    requires forall i :: 0 <= i < |table| ==> |table[i]| <= |w|
  {
    if k == 0 then RuleLine(st.tl, st.hb, st.tr, st.borderH, w, n)
    else if k == 1 then RowLine(st, table[0], w)
    else if k == 2 then RuleLine(st.vr, st.hv, st.vl, st.h, w, n)
    else if k < |table| + 2 then RowLine(st, table[k - 2], w)
    else RuleLine(st.bl, st.ht, st.br, st.borderH, w, n)
  }

  /** All the printed lines. */
  function Lines(st: Style, table: seq<seq<string>>, w: seq<nat>, n: nat): (lines: seq<string>)
    requires |table| > 0 && n <= |w|
    requires forall i :: 0 <= i < |table| ==> |table[i]| <= |w|
    ensures |lines| == |table| + 3
    ensures forall k :: 0 <= k < |table| + 3 ==> lines[k] == LineAt(st, table, w, n, k)
  {
    seq(|table| + 3, k requires 0 <= k < |table| + 3 => LineAt(st, table, w, n, k))
  }

  /** `show(table, style)`: top border, header row, header rule, one line
      per remaining row and the bottom border. The borders draw as many
      columns as the last row has: that row is the `row` variable the
      column-width loop leaves behind. */
  function Show(table: seq<seq<string>>, name: string): (res: Result<Rendered, TableError>)
    ensures res.Err? <==> !FitsHeader(table)
    ensures res.Ok? ==> |res.value.lines| == |table| + 3
    ensures res.Ok? ==> res.value.remaining == table[1..]
  {
    if !FitsHeader(table) then Err(IndexError)
    else
      var w := Widths(table);
      Ok(Rendered(Lines(StyleNamed(name), table, w, |table[|table| - 1]|), table[1..]))
  }

  // -----------------------------------------------------------------------
  // Properties of show
  // -----------------------------------------------------------------------

  /** With every cell fitting its column, a row line is as long as the
      columns plus four border characters and three per column boundary. */
  lemma RowLineLength(st: Style, row: seq<string>, widths: seq<nat>)
    requires |row| == |widths| > 0
    requires forall j :: 0 <= j < |row| ==> |row[j]| <= widths[j]
    ensures |RowLine(st, row, widths)| == 4 + Sum(widths) + 3 * (|widths| - 1)
  {
    var cells := AlignedCells(row, widths);
    JoinLength([' ', st.v, ' '], cells);
    TotalOfWidths(cells, widths);
  }

  /** A rule over all the columns has the same length as a row line. */
  lemma RuleLineLength(left: char, middle: char, right: char, fill: char, widths: seq<nat>)
    requires |widths| > 0
    ensures |RuleLine(left, middle, right, fill, widths, |widths|)| == 4 + Sum(widths) + 3 * (|widths| - 1)
  {
    assert widths[..|widths|] == widths;
    var runs := Runs(fill, widths);
    JoinLength([fill, middle, fill], runs);
    TotalOfWidths(runs, widths);
  }

  /** Every cell of an accepted table fits the width `max_len` gives its
      column. */
  lemma CellsFitWidths(table: seq<seq<string>>)
    requires FitsHeader(table)
    ensures forall i, j :: 0 <= i < |table| && 0 <= j < |table[i]| ==> |table[i][j]| <= Widths(table)[j]
  {
    forall i, j | 0 <= i < |table| && 0 <= j < |table[i]|
      ensures |table[i][j]| <= Widths(table)[j]
    {
      CellFits(table, i, j);
    }
  }

  /** Each column of an accepted table is exactly as wide as its widest
      cell: no cell is wider, and some cell of the column is that wide. */
  lemma WidthsAreWidest(table: seq<seq<string>>, j: nat) returns (k: nat)
    requires FitsHeader(table) && j < |table[0]|
    ensures forall i :: 0 <= i < |table| && j < |table[i]| ==> |table[i][j]| <= Widths(table)[j]
    ensures k < |table| && j < |table[k]| && |table[k][j]| == Widths(table)[j]
  {
    CellsFitWidths(table);
    k := WidthAttained(table, 0, j);
  }

  /** Every cell is printed right-aligned in exactly its column's width:
      spaces, then the cell. */
  lemma CellsRightAligned(table: seq<seq<string>>, i: nat, j: nat)
    requires FitsHeader(table) && i < |table| && j < |table[i]|
    ensures var w := Widths(table)[j];
      var cell := AlignedCells(table[i], Widths(table))[j];
      && |cell| == w
      && cell[w - |table[i][j]|..] == table[i][j]
      && forall m :: 0 <= m < w - |table[i][j]| ==> cell[m] == ' '
  {
    CellFits(table, i, j);
  }

  /** The lines of `show`, in order: the top border, the header, the header
      rule, the other rows and the bottom border, each drawn with its own
      glyphs of the named style. The three rules draw as many columns as the
      last row has, the `row` the width loop leaves behind. */
  lemma ShowLayout(table: seq<seq<string>>, name: string)
    requires FitsHeader(table)
    ensures Show(table, name).Ok?
    ensures var lines := Show(table, name).value.lines;
      var st := StyleNamed(name);
      var w := Widths(table);
      var n := |table[|table| - 1]|;
      && lines[0] == RuleLine(st.tl, st.hb, st.tr, st.borderH, w, n)
      && lines[1] == RowLine(st, table[0], w)
      && lines[2] == RuleLine(st.vr, st.hv, st.vl, st.h, w, n)
      && (forall k :: 1 <= k < |table| ==> lines[k + 2] == RowLine(st, table[k], w))
      && lines[|table| + 2] == RuleLine(st.bl, st.ht, st.br, st.borderH, w, n)
  {
  }

  /** In a rectangular table, every line is as long as the columns plus
      four border characters and three per column boundary. */
  lemma LineAtLength(st: Style, table: seq<seq<string>>, w: seq<nat>, k: nat)
    requires |table| > 0 && |w| > 0 && k < |table| + 3
    requires forall i :: 0 <= i < |table| ==> |table[i]| == |w|
    requires forall i, j :: 0 <= i < |table| && 0 <= j < |table[i]| ==> |table[i][j]| <= w[j]
    ensures |LineAt(st, table, w, |w|, k)| == 4 + Sum(w) + 3 * (|w| - 1)
  {
    if k == 0 {
      RuleLineLength(st.tl, st.hb, st.tr, st.borderH, w);
    } else if k == 1 {
      RowLineLength(st, table[0], w);
    } else if k == 2 {
      RuleLineLength(st.vr, st.hv, st.vl, st.h, w);
    } else if k < |table| + 2 {
      RowLineLength(st, table[k - 2], w);
    } else {
      RuleLineLength(st.bl, st.ht, st.br, st.borderH, w);
    }
  }

  /** For a rectangular table with at least one column, every printed line
      has the same length: four border characters, the column widths, and
      three characters per column boundary. */
  lemma ShowLineLengths(table: seq<seq<string>>, name: string)
    requires FitsHeader(table) && |table[0]| > 0
    requires forall i :: 0 <= i < |table| ==> |table[i]| == |table[0]|
    ensures Show(table, name).Ok?
    ensures var w := Widths(table);
      forall k :: 0 <= k < |Show(table, name).value.lines| ==>
        |Show(table, name).value.lines[k]| == 4 + Sum(w) + 3 * (|w| - 1)
  {
    var st := StyleNamed(name);
    var w := Widths(table);
    assert |table[|table| - 1]| == |w|;
    var lines := Lines(st, table, w, |w|);
    assert Show(table, name).value.lines == lines;
    CellsFitWidths(table);
    forall k | 0 <= k < |lines|
      ensures |lines[k]| == 4 + Sum(w) + 3 * (|w| - 1)
    {
      LineAtLength(st, table, w, k);
    }
  }
}
