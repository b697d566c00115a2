/**
  The report renderer: `SummaryStatistics.formatted` (a text block for one record) and
  `smy_stats_list_markdown_table` (a markdown table for many). The layout, the literal
  texts and the order of the fields are modelled; turning numbers into text (the
  f-string conversions `{x}`, `{x:.0f}`, `{x:5d}`, `{x:4d}`, `{x:5.0f}`) is left abstract,
  as functions in a `Formats` record.
*/
module Report {
  import opened Text
  import opened Stats

  /**
    The number-to-text conversions the f-strings apply. The standard deviation ones take
    the record's variance and stand for formatting its square root.
  */
  datatype Formats = Formats(
    integer: int -> string,
    fixed0: real -> string,
    stdevFixed0: real -> string,
    integer5: int -> string,
    integer4: int -> string,
    fixed5: real -> string,
    stdevFixed5: real -> string)

  /** True when no conversion ever produces the character `c`. */
  ghost predicate FormatsAvoid(fmt: Formats, c: char) {
    && (forall x :: c !in fmt.integer(x))
    && (forall x :: c !in fmt.fixed0(x))
    && (forall x :: c !in fmt.stdevFixed0(x))
    && (forall x :: c !in fmt.integer5(x))
    && (forall x :: c !in fmt.integer4(x))
    && (forall x :: c !in fmt.fixed5(x))
    && (forall x :: c !in fmt.stdevFixed5(x))
  }

  // ---------------------------------------------------------------------------
  // The text block of one record

  /** The nine lines of `formatted()`. Its last line shows the record's own threshold. */
  function FormattedLines(s: SummaryStatistics, fmt: Formats): seq<string>
  {
    [ "nsmpl:  " + fmt.integer5(s.nsmpl),
      "mean:   " + fmt.fixed5(s.mean),
      "stdev:  " + fmt.stdevFixed5(s.variance),
      "min:    " + fmt.integer5(s.min),
      " 5%:    " + fmt.fixed5(s.percentile05),
      "median: " + fmt.fixed5(s.median),
      "95%:    " + fmt.fixed5(s.percentile95),
      "max:    " + fmt.integer5(s.max),
      ">" + fmt.integer4(s.threshold) + ":  " + fmt.integer5(s.aboveThreshold) + "%" ]
  }

  /** `SummaryStatistics.formatted()`: the nine lines, each ended by a newline. */
  function Formatted(s: SummaryStatistics, fmt: Formats): string
  {
    Terminated(FormattedLines(s, fmt))
  }

  /**
    The block has exactly nine lines, in the order nsmpl, mean, stdev, min, 5%, median, 95%,
    max and the threshold line; the threshold line shows the record's threshold and then the
    raw count above it followed by `%`.
  */
  lemma FormattedLayout(s: SummaryStatistics, fmt: Formats)
    requires FormatsAvoid(fmt, '\n')
    ensures Split(Formatted(s, fmt), '\n') == FormattedLines(s, fmt) + [""]
    ensures |FormattedLines(s, fmt)| == 9
    ensures FormattedLines(s, fmt)[8]
         == ">" + fmt.integer4(s.threshold) + ":  " + fmt.integer5(s.aboveThreshold) + "%"
  {
    var lines := FormattedLines(s, fmt);
    FormattedLinesPlain(s, fmt);
    TerminatedLines(lines);
  }

  /** No line of the block holds a newline, when no conversion produces one. */
  lemma FormattedLinesPlain(s: SummaryStatistics, fmt: Formats)
    requires FormatsAvoid(fmt, '\n')
    ensures forall l :: l in FormattedLines(s, fmt) ==> '\n' !in l
  {
    var lines := FormattedLines(s, fmt);
    LabelsPlain();
    forall l | l in lines ensures '\n' !in l {
      var k :| 0 <= k < |lines| && lines[k] == l;
    }
  }

  /** The labels of the block hold no newline. */
  lemma LabelsPlain()
    ensures '\n' !in "nsmpl:  " && '\n' !in "mean:   " && '\n' !in "stdev:  " && '\n' !in "min:    "
    ensures '\n' !in " 5%:    " && '\n' !in "median: " && '\n' !in "95%:    " && '\n' !in "max:    "
    ensures '\n' !in ">" && '\n' !in ":  " && '\n' !in "%"
  {
  }

  // ---------------------------------------------------------------------------
  // The table of many records

  /** A markdown table line: its cells, each between two `|`. */
  function PipeLine(cells: seq<string>): string
  {
    "|" + Join(cells, '|') + "|"
  }

  /** The texts between the `|` of the header line, left to right. */
  const HeaderCells: seq<string> :=
    [" Collection ", " nsmpl ", " mean ", " stdev ", " min", " 5%  ", " median ", " 95% ", " max ", " >8191 "]

  /**
    The header line,
    `| Collection | nsmpl | mean | stdev | min| 5%  | median | 95% | max | >8191 |`;
    its last column is the literal `>8191`, whatever the records' thresholds.
  */
  const TableHeader: string := PipeLine(HeaderCells)

  const RuleCells: seq<string> :=
    ["------------", "-------", "------", "-------", "----", "-----", "--------", "-----", "-----", "-------"]

  /** The line under the header, `|------------|-------|------|...|-------|`. */
  const TableRule: string := PipeLine(RuleCells)

  /** The cells of one record's row: ` {name} `, ` {nsmpl} `, ` {mean:.0f} `, ..., ` {above_threshold} `. */
  function RowCells(s: SummaryStatistics, fmt: Formats): seq<string>
  {
    [ " " + s.collname + " ", " " + fmt.integer(s.nsmpl) + " ", " " + fmt.fixed0(s.mean) + " ",
      " " + fmt.stdevFixed0(s.variance) + " ", " " + fmt.integer(s.min) + " ",
      " " + fmt.fixed0(s.percentile05) + " ", " " + fmt.fixed0(s.median) + " ",
      " " + fmt.fixed0(s.percentile95) + " ", " " + fmt.integer(s.max) + " ",
      " " + fmt.integer(s.aboveThreshold) + " " ]
  }

  /** One row of the table, for one record. */
  function TableRow(s: SummaryStatistics, fmt: Formats): string
  {
    PipeLine(RowCells(s, fmt))
  }

  function TableRows(stats: seq<SummaryStatistics>, fmt: Formats): seq<string>
  {
    seq(|stats|, i requires 0 <= i < |stats| => TableRow(stats[i], fmt))
  }

  /** `smy_stats_list_markdown_table(stats_list)`: header, rule, then the rows joined by newlines. */
  function MarkdownTable(stats: seq<SummaryStatistics>, fmt: Formats): string
  {
    Terminated([TableHeader, TableRule, Join(TableRows(stats, fmt), '\n')])
  }

  /**
    The table's lines are the header, the rule, then exactly one row per record in the
    order given, then an empty tail; with no records the rows collapse to one empty line.
  */
  lemma TableLayout(stats: seq<SummaryStatistics>, fmt: Formats)
    requires FormatsAvoid(fmt, '\n')
    requires forall i :: 0 <= i < |stats| ==> '\n' !in stats[i].collname
    ensures Split(MarkdownTable(stats, fmt), '\n')
         == [TableHeader, TableRule] + (if stats == [] then [""] else TableRows(stats, fmt)) + [""]
    ensures |TableRows(stats, fmt)| == |stats|
    ensures forall i :: 0 <= i < |stats| ==> TableRows(stats, fmt)[i] == TableRow(stats[i], fmt)
  {
    RowsAvoidNewline(stats, fmt);
    HeaderAvoidsNewline();
    ThreePartsLines(TableHeader, TableRule, TableRows(stats, fmt));
  }

  lemma HeaderAvoidsNewline()
    ensures '\n' !in TableHeader && '\n' !in TableRule
  {
    FixedCellsPlain();
    JoinAvoids(HeaderCells, '|', '\n');
    JoinAvoids(RuleCells, '|', '\n');
  }

  /** No header or rule text holds a newline or a `|`. */
  lemma FixedCellsPlain()
    ensures forall p :: p in HeaderCells ==> '\n' !in p && '|' !in p
    ensures forall p :: p in RuleCells ==> '\n' !in p && '|' !in p
  {
    assert '\n' !in " Collection " && '|' !in " Collection ";
    assert '\n' !in " nsmpl " && '|' !in " nsmpl ";
    assert '\n' !in " mean " && '|' !in " mean ";
    assert '\n' !in " stdev " && '|' !in " stdev ";
    assert '\n' !in " min" && '|' !in " min";
    assert '\n' !in " 5%  " && '|' !in " 5%  ";
    assert '\n' !in " median " && '|' !in " median ";
    assert '\n' !in " 95% " && '|' !in " 95% ";
    assert '\n' !in " max " && '|' !in " max ";
    assert '\n' !in " >8191 " && '|' !in " >8191 ";
    assert '\n' !in "------------" && '|' !in "------------";
    assert '\n' !in "-------" && '|' !in "-------";
    assert '\n' !in "------" && '|' !in "------";
    assert '\n' !in "----" && '|' !in "----";
    assert '\n' !in "-----" && '|' !in "-----";
    assert '\n' !in "--------" && '|' !in "--------";
  }

  lemma RowsAvoidNewline(stats: seq<SummaryStatistics>, fmt: Formats)
    requires FormatsAvoid(fmt, '\n')
    requires forall i :: 0 <= i < |stats| ==> '\n' !in stats[i].collname
    ensures forall r :: r in TableRows(stats, fmt) ==> '\n' !in r
  {
    var rows := TableRows(stats, fmt);
    forall r | r in rows ensures '\n' !in r {
      var k :| 0 <= k < |rows| && rows[k] == r;
      RowAvoids(stats[k], fmt, '\n');
    }
  }

  /** The table is the newline-join of header, rule, the rows (or one empty line) and an empty tail. */
  lemma TableIsJoin(stats: seq<SummaryStatistics>, fmt: Formats)
    ensures MarkdownTable(stats, fmt)
         == Join([TableHeader, TableRule] + (if stats == [] then [""] else TableRows(stats, fmt)) + [""], '\n')
  {
    ThreePartsJoin(TableHeader, TableRule, TableRows(stats, fmt));
  }

  /** Splitting such a text on newlines gives back its lines, when none of them holds a newline. */
  lemma ThreePartsLines(header: string, rule: string, rows: seq<string>)
    requires '\n' !in header && '\n' !in rule
    requires forall r :: r in rows ==> '\n' !in r
    ensures Split(Terminated([header, rule, Join(rows, '\n')]), '\n')
         == [header, rule] + (if rows == [] then [""] else rows) + [""]
  {
    var lines := [header, rule] + (if rows == [] then [""] else rows) + [""];
    ThreePartsJoin(header, rule, rows);
    SplitJoin(lines, '\n');
  }

  /** Two lines and then the newline-join of some rows, each ended by a newline, as one join. */
  lemma ThreePartsJoin(header: string, rule: string, rows: seq<string>)
    ensures Terminated([header, rule, Join(rows, '\n')])
         == Join([header, rule] + (if rows == [] then [""] else rows) + [""], '\n')
  {
    var lines := if rows == [] then [""] else rows;
    var body := Join(rows, '\n');
    var head := [header, rule];
    TerminatedIsJoin([header, rule, body]);
    assert [header, rule, body] + [""] == head + [body, ""];
    JoinAppend(head, [body, ""], '\n');
    assert body == Join(lines, '\n');
    JoinAppend(lines, [""], '\n');
    assert Join([body, ""], '\n') == Join(lines + [""], '\n');
    JoinAppend(head, lines + [""], '\n');
    assert head + (lines + [""]) == head + lines + [""];
  }

  /** A line of texts between `|` characters splits back into those texts, with an empty one at each end. */
  lemma PipeRow(cells: seq<string>)
    requires |cells| >= 1
    requires forall c :: c in cells ==> '|' !in c
    ensures Split(PipeLine(cells), '|') == [""] + cells + [""]
  {
    JoinAppend([""], cells, '|');
    JoinAppend([""] + cells, [""], '|');
    assert "|" + Join(cells, '|') + "|" == Join([""] + cells + [""], '|');
    SplitJoin([""] + cells + [""], '|');
  }

  /** A row holds a character other than a space or `|` only if its collection name or one of its numbers does. */
  lemma RowAvoids(s: SummaryStatistics, fmt: Formats, c: char)
    requires FormatsAvoid(fmt, c) && c !in s.collname && c != ' ' && c != '|'
    ensures c !in TableRow(s, fmt)
  {
    var cells := RowCells(s, fmt);
    forall p | p in cells ensures c !in p {
      var k :| 0 <= k < |cells| && cells[k] == p;
    }
    JoinAvoids(cells, '|', c);
  }

  /** Split on `|`, the header gives its ten texts, an empty text at either end. */
  lemma HeaderColumns()
    ensures Split(TableHeader, '|') == [""] + HeaderCells + [""]
  {
    FixedCellsPlain();
    PipeRow(HeaderCells);
  }

  /** The header has ten columns, the last one titled `>8191`. */
  lemma HeaderLastColumn()
    ensures |HeaderCells| == 10 && Strip(HeaderCells[9]) == ">8191"
  {
    StripSurrounded(" ", ">8191", " ");
    assert HeaderCells[9] == " " + ">8191" + " ";
  }

  /**
    Split on `|`, a row gives its ten cells, an empty text at either end: as many columns
    as the header. The tenth cell holds the record's count above its own threshold, under
    the header text `>8191` whatever that threshold is.
  */
  lemma RowColumns(s: SummaryStatistics, fmt: Formats)
    requires FormatsAvoid(fmt, '|') && '|' !in s.collname
    ensures Split(TableRow(s, fmt), '|') == [""] + RowCells(s, fmt) + [""]
    ensures |RowCells(s, fmt)| == 10
    ensures RowCells(s, fmt)[9] == " " + fmt.integer(s.aboveThreshold) + " "
  {
    var cells := RowCells(s, fmt);
    forall c | c in cells ensures '|' !in c {
      var k :| 0 <= k < |cells| && cells[k] == c;
    }
    PipeRow(cells);
  }
}
