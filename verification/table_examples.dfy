/** The table the module's own `__main__` block prints, with the integer
    cells written as the strings `str` gives them. */
module TableExamples {
  import opened Results
  import opened Table

  const Sample: seq<seq<string>> := [
    ["Size", "Quantity", "ID"],
    ["12", "1235", "15"],
    ["145", "h", "hahaha"]
  ]

  /** The three columns are 4, 8 and 6 wide. */
  lemma SampleWidths()
    ensures Widths(Sample) == [4, 8, 6]
  {
    var t1 := Sample[..1];
    var t2 := Sample[..2];
    assert t1[..0] == [] && t2[..1] == t1 && Sample[..2] == t2;
    assert t1[0] == ["Size", "Quantity", "ID"];
    assert t2[1] == ["12", "1235", "15"];
    assert Sample[2] == ["145", "h", "hahaha"];
    assert ColumnWidth(t1, 0) == 4 && ColumnWidth(t1, 1) == 8 && ColumnWidth(t1, 2) == 2;
    assert ColumnWidth(t2, 0) == 4 && ColumnWidth(t2, 1) == 8 && ColumnWidth(t2, 2) == 2;
    assert ColumnWidth(Sample, 0) == 4 && ColumnWidth(Sample, 1) == 8 && ColumnWidth(Sample, 2) == 6;
  }

  /** The sample's column widths. */
  const W: seq<nat> := [4, 8, 6]

  /** Three parts joined by a separator. */
  lemma JoinThree(sep: string, a: string, b: string, c: string)
    ensures Join(sep, [a, b, c]) == a + sep + b + sep + c
  {
    assert [b, c][1..] == [c];
    assert Join(sep, [b, c]) == b + sep + c;
    assert [a, b, c][1..] == [b, c];
  }

  /** A row line of the sample in the box style, from its aligned cells. */
  lemma BoxRow(row: seq<string>, a: string, b: string, c: string, expected: string)
    requires |row| == 3 && AlignedCells(row, W) == [a, b, c]
    requires expected == ['│', ' '] + (a + " │ " + b + " │ " + c) + [' ', '│']
    ensures RowLine(Box, row, W) == expected
  {
    JoinThree([' ', Box.v, ' '], a, b, c);
  }

  /** The cells of the header, padded to their columns. */
  lemma HeaderCells()
    ensures AlignedCells(Sample[0], W) == ["Size", "Quantity", "    ID"]
  {
    assert RightAlign("Size", 4) == "Size";
    assert RightAlign("Quantity", 8) == "Quantity";
    assert RightAlign("ID", 6) == "    ID";
  }

  /** The printed header, spelled out. */
  lemma HeaderSpelled()
    ensures "│ Size │ Quantity │     ID │" == ['│', ' '] + ("Size" + " │ " + "Quantity" + " │ " + "    ID") + [' ', '│']
  {
  }

  /** The header as `show_row` prints it. */
  lemma Header()
    ensures RowLine(Box, Sample[0], W) == "│ Size │ Quantity │     ID │"
  {
    HeaderCells();
    HeaderSpelled();
    BoxRow(Sample[0], "Size", "Quantity", "    ID", "│ Size │ Quantity │     ID │");
  }

  /** The cells of the first body row, padded to their columns. */
  lemma FirstRowCells()
    ensures AlignedCells(Sample[1], W) == ["  12", "    1235", "    15"]
  {
    assert RightAlign("12", 4) == "  12";
    assert RightAlign("1235", 8) == "    1235";
    assert RightAlign("15", 6) == "    15";
  }

  /** The printed first body row, spelled out. */
  lemma FirstRowSpelled()
    ensures "│   12 │     1235 │     15 │" == ['│', ' '] + ("  12" + " │ " + "    1235" + " │ " + "    15") + [' ', '│']
  {
  }

  /** The first body row as `show_row` prints it. */
  lemma FirstRow()
    ensures RowLine(Box, Sample[1], W) == "│   12 │     1235 │     15 │"
  {
    FirstRowCells();
    FirstRowSpelled();
    BoxRow(Sample[1], "  12", "    1235", "    15", "│   12 │     1235 │     15 │");
  }

  /** The cells of the second body row, padded to their columns. */
  lemma SecondRowCells()
    ensures AlignedCells(Sample[2], W) == [" 145", "       h", "hahaha"]
  {
    assert RightAlign("145", 4) == " 145";
    assert RightAlign("h", 8) == "       h";
    assert RightAlign("hahaha", 6) == "hahaha";
  }

  /** The printed second body row, spelled out. */
  lemma SecondRowSpelled()
    ensures "│  145 │        h │ hahaha │" == ['│', ' '] + (" 145" + " │ " + "       h" + " │ " + "hahaha") + [' ', '│']
  {
  }

  /** The second body row as `show_row` prints it. */
  lemma SecondRow()
    ensures RowLine(Box, Sample[2], W) == "│  145 │        h │ hahaha │"
  {
    SecondRowCells();
    SecondRowSpelled();
    BoxRow(Sample[2], " 145", "       h", "hahaha", "│  145 │        h │ hahaha │");
  }

  /** The runs of a box rule over the sample's columns. */
  lemma BoxRuns()
    ensures Runs('─', W[..3]) == ["────", "────────", "──────"]
  {
    assert W[..3] == W;
    assert Repeat('─', 4) == "────";
    assert Repeat('─', 8) == "────────";
    assert Repeat('─', 6) == "──────";
  }

  /** A rule of the sample in the box style, from its three glyphs. */
  lemma BoxRule(left: char, middle: char, right: char, expected: string)
    requires expected == [left, '─']
      + ("────" + ['─', middle, '─'] + "────────" + ['─', middle, '─'] + "──────") + ['─', right]
    ensures RuleLine(left, middle, right, '─', W, 3) == expected
  {
    BoxRuns();
    JoinThree(['─', middle, '─'], "────", "────────", "──────");
  }

  /** The printed top border, spelled out. */
  lemma TopSpelled()
    ensures "┌──────┬──────────┬────────┐" == ['┌', '─']
      + ("────" + ['─', '┬', '─'] + "────────" + ['─', '┬', '─'] + "──────") + ['─', '┐']
  {
  }

  /** The top border as `show_line` prints it. */
  lemma Top()
    ensures RuleLine('┌', '┬', '┐', '─', W, 3) == "┌──────┬──────────┬────────┐"
  {
    TopSpelled();
    BoxRule('┌', '┬', '┐', "┌──────┬──────────┬────────┐");
  }

  /** The printed header rule, spelled out. */
  lemma RuleSpelled()
    ensures "├──────┼──────────┼────────┤" == ['├', '─']
      + ("────" + ['─', '┼', '─'] + "────────" + ['─', '┼', '─'] + "──────") + ['─', '┤']
  {
  }

  /** The header rule as `show_line` prints it. */
  lemma Rule()
    ensures RuleLine('├', '┼', '┤', '─', W, 3) == "├──────┼──────────┼────────┤"
  {
    RuleSpelled();
    BoxRule('├', '┼', '┤', "├──────┼──────────┼────────┤");
  }

  /** The printed bottom border, spelled out. */
  lemma BottomSpelled()
    ensures "└──────┴──────────┴────────┘" == ['└', '─']
      + ("────" + ['─', '┴', '─'] + "────────" + ['─', '┴', '─'] + "──────") + ['─', '┘']
  {
  }

  /** The bottom border as `show_line` prints it. */
  lemma Bottom()
    ensures RuleLine('└', '┴', '┘', '─', W, 3) == "└──────┴──────────┴────────┘"
  {
    BottomSpelled();
    BoxRule('└', '┴', '┘', "└──────┴──────────┴────────┘");
  }

  /** The box-style rendering, line by line: the rows right-aligned in
      their columns between box-drawing bars, framed by the three rules. */
  lemma SampleInBox()
    ensures Show(Sample, "box").Ok?
    ensures Show(Sample, "box").value.remaining == Sample[1..]
    ensures var lines := Show(Sample, "box").value.lines;
      && |lines| == 6
      && lines[0] == "┌──────┬──────────┬────────┐"
      && lines[1] == "│ Size │ Quantity │     ID │"
      && lines[2] == "├──────┼──────────┼────────┤"
      && lines[3] == "│   12 │     1235 │     15 │"
      && lines[4] == "│  145 │        h │ hahaha │"
      && lines[5] == "└──────┴──────────┴────────┘"
  {
    SampleWidths();
    assert FitsHeader(Sample);
    assert StyleNamed("box") == Box;
    ShowLayout(Sample, "box");
    Top();
    Header();
    Rule();
    FirstRow();
    SecondRow();
    Bottom();
  }
}
