/** Which glossary files are read, and as which records (RFC 4180, section 2, with some liberties). */
module GlossaryFiles {
  import opened Texts
  import opened Glossary
  import opened GlossaryRoundTrip

  /** A field in quotes or without; a line of fields with its ending, empty for an unterminated last one. */
  datatype Cell = Cell(quoted: bool, value: string)

  datatype Line = Line(cells: seq<Cell>, ending: string)

  function PrintCell(c: Cell): string {
    if c.quoted then "\"" + DoubleQuotes(c.value) + "\"" else c.value
  }

  function PrintCells(cells: seq<Cell>): string {
    if cells == [] then ""
    else if |cells| == 1 then PrintCell(cells[0])
    else PrintCell(cells[0]) + "," + PrintCells(cells[1..])
  }

  function PrintLines(lines: seq<Line>): string {
    if lines == [] then "" else PrintCells(lines[0].cells) + lines[0].ending + PrintLines(lines[1..])
  }

  function Values(cells: seq<Cell>): (values: seq<string>)
    ensures |values| == |cells|
  {
    seq(|cells|, k requires 0 <= k < |cells| => cells[k].value)
  }

  function RecordsOf(lines: seq<Line>): (records: seq<seq<string>>)
    ensures |records| == |lines|
  {
    seq(|lines|, k requires 0 <= k < |lines| => Values(lines[k].cells))
  }

  predicate AreCells(cells: seq<Cell>) {
    forall k | 0 <= k < |cells| :: !cells[k].quoted ==> IsPlain(cells[k].value)
  }

  /** Only the last line may lack its ending, and then it must hold more than one empty field. */
  predicate IsLine(l: Line, last: bool) {
    && l.cells != [] && AreCells(l.cells)
    && (l.ending == "\n" || l.ending == "\r\n" || (l.ending == "" && last && Values(l.cells) != [""]))
  }

  predicate AreLines(lines: seq<Line>) {
    forall k | 0 <= k < |lines| :: IsLine(lines[k], k == |lines| - 1)
  }

  predicate IsTerminated(lines: seq<Line>) {
    lines != [] ==> lines[|lines| - 1].ending != ""
  }

  // Reading what is spelled

  predicate IsSeparated(s: string) {
    s == "" || s[0] == ',' || s[0] == '\n' || (s[0] == '\r' && |s| > 1 && s[1] == '\n')
  }

  /** The state behind a field. */
  function Behind(c: Cell, record: seq<string>): State {
    State(false, c.quoted, c.quoted || c.value == "", c.value, record)
  }

  lemma CellReads(c: Cell, rest: string, record: seq<string>)
    requires (!c.quoted ==> IsPlain(c.value)) && IsSeparated(rest)
    ensures Records(PrintCell(c) + rest, Fresh(record)) == Records(rest, Behind(c, record))
  {
    hide Records, DoubleQuotes, IsPlain;
    assert "" + c.value == c.value;
    if c.quoted {
      var inner := DoubleQuotes(c.value) + "\"" + rest;
      assert PrintCell(c) + rest == "\"" + inner;
      QuoteOpens(inner, Fresh(record));
      QuotedReads(c.value, rest, Fresh(record).(quoted := true));
    } else {
      PlainReads(c.value, rest, Fresh(record));
    }
  }

  /** What a separator or the end makes of the field in front of it. */
  lemma SeparatorReads(s: string, c: Cell, record: seq<string>)
    requires IsSeparated(s)
    ensures var all := record + [c.value];
            Records(s, Behind(c, record)) ==
              if s == "" then Ok(if c.value == "" && record == [] then [] else [all])
              else if s[0] == ',' then Records(s[1..], Fresh(all))
              else if s[0] == '\n' then Prepend(all, Records(s[1..], Fresh([])))
              else Prepend(all, Records(s[2..], Fresh([])))
  {
  }

  lemma CellsSplit(first: Cell, others: seq<Cell>)
    ensures Values([first] + others) == [first.value] + Values(others)
    ensures AreCells([first] + others) <==> (!first.quoted ==> IsPlain(first.value)) && AreCells(others)
    ensures PrintCells([first] + others) == PrintCell(first) + if others == [] then "" else "," + PrintCells(others)
  {
    hide AreCells, PrintCells;
    CellsAreSplit(first, others);
    PrintSplits(first, others);
  }

  lemma CellsAreSplit(first: Cell, others: seq<Cell>)
    ensures AreCells([first] + others) <==> (!first.quoted ==> IsPlain(first.value)) && AreCells(others)
  {
    hide IsPlain;
    var all := [first] + others;
    if AreCells(all) {
      assert !all[0].quoted ==> IsPlain(all[0].value);
      forall k | 0 <= k < |others|
        ensures !others[k].quoted ==> IsPlain(others[k].value)
      {
        assert others[k] == all[k + 1];
      }
    }
    if (!first.quoted ==> IsPlain(first.value)) && AreCells(others) {
      forall k | 0 <= k < |all|
        ensures !all[k].quoted ==> IsPlain(all[k].value)
      {
        assert k > 0 ==> all[k] == others[k - 1];
      }
    }
  }

  lemma PrintSplits(first: Cell, others: seq<Cell>)
    ensures PrintCells([first] + others) == PrintCell(first) + if others == [] then "" else "," + PrintCells(others)
  {
    hide PrintCell;
    var all := [first] + others;
    assert all[0] == first && all[1..] == others;
  }

  lemma {:induction false} CellsRead(cells: seq<Cell>, ending: string, rest: string, record: seq<string>)
    requires cells != [] && AreCells(cells)
    requires ending == "\n" || ending == "\r\n" || (ending == "" && rest == "" && record + Values(cells) != [""])
    ensures Records(PrintCells(cells) + ending + rest, Fresh(record)) ==
              if ending == "" then Ok([record + Values(cells)])
              else Prepend(record + Values(cells), Records(rest, Fresh([])))
    decreases |cells|
  {
    hide Records, PrintCell, PrintCells, Values, AreCells, IsPlain, Behind;
    var first, others := cells[0], cells[1..];
    assert cells == [first] + others;
    CellsSplit(first, others);
    if others == [] {
      var tail := ending + rest;
      assert PrintCells(cells) + ending + rest == PrintCell(first) + tail;
      NoValues();
      CellReads(first, tail, record);
      LastCellReads(first, ending, rest, record);
    } else {
      var more := PrintCells(others) + ending + rest;
      assert PrintCells(cells) + ending + rest == PrintCell(first) + ("," + more);
      CellReads(first, "," + more, record);
      CommaReads(more, first, record);
      assert record + Values(cells) == record + [first.value] + Values(others);
      CellsRead(others, ending, rest, record + [first.value]);
    }
  }

  lemma NoValues()
    ensures Values([]) == [] && forall c: string :: [c] + [] == [c]
  {
  }

  lemma CommaReads(more: string, c: Cell, record: seq<string>)
    ensures IsSeparated("," + more) && Records("," + more, Behind(c, record)) == Records(more, Fresh(record + [c.value]))
  {
    hide Records, Behind;
    SeparatorReads("," + more, c, record);
    assert ("," + more)[1..] == more;
  }

  lemma LastCellReads(c: Cell, ending: string, rest: string, record: seq<string>)
    requires ending == "\n" || ending == "\r\n" || (ending == "" && rest == "" && record + [c.value] != [""])
    ensures IsSeparated(ending + rest)
    ensures Records(ending + rest, Behind(c, record)) ==
              if ending == "" then Ok([record + [c.value]]) else Prepend(record + [c.value], Records(rest, Fresh([])))
  {
    hide Records, Behind;
    var tail := ending + rest;
    SeparatorReads(tail, c, record);
    if ending == "" {
      assert record == [] ==> record + [c.value] == [c.value];
    } else {
      assert tail[|ending|..] == rest;
    }
  }

  // Lines

  lemma LinesSplit(first: Line, others: seq<Line>)
    ensures AreLines([first] + others) <==> IsLine(first, others == []) && AreLines(others)
    ensures IsTerminated([first] + others) <==> if others == [] then first.ending != "" else IsTerminated(others)
    ensures RecordsOf([first] + others) == [Values(first.cells)] + RecordsOf(others)
    ensures PrintLines([first] + others) == PrintCells(first.cells) + first.ending + PrintLines(others)
  {
    hide IsLine, Values, PrintCells;
    var all := [first] + others;
    assert all[1..] == others;
    if AreLines(all) {
      assert IsLine(all[0], 0 == |all| - 1);
      forall k | 0 <= k < |others|
        ensures IsLine(others[k], k == |others| - 1)
      {
        var i := k + 1;
        assert IsLine(all[i], i == |all| - 1);
      }
    }
    if IsLine(first, others == []) && AreLines(others) {
      forall k | 0 <= k < |all|
        ensures IsLine(all[k], k == |all| - 1)
      {
        if k > 0 {
          var i := k - 1;
          assert IsLine(others[i], i == |others| - 1);
        }
      }
    }
  }

  /** A file of lines is read as their records; a lone `""` behind the last line end is dropped. */
  lemma {:induction false} LinesRead(lines: seq<Line>, extra: string)
    requires AreLines(lines) && (extra == "" || (extra == "\"\"" && IsTerminated(lines)))
    ensures Records(PrintLines(lines) + extra, Fresh([])) == Ok(RecordsOf(lines))
    decreases |lines|
  {
    hide Records, PrintCells, Values, AreLines, IsTerminated, RecordsOf, PrintLines, AreCells;
    if lines == [] {
      ExtraReads(extra);
      NoLines();
    } else {
      var first, others := lines[0], lines[1..];
      assert lines == [first] + others;
      LinesSplit(first, others);
      NoLines();
      var tail := PrintLines(others) + extra;
      assert PrintLines(lines) + extra == PrintCells(first.cells) + first.ending + tail;
      assert [] + Values(first.cells) == Values(first.cells);
      CellsRead(first.cells, first.ending, tail, []);
      LinesRead(others, extra);
      assert [Values(first.cells)] + [] == [Values(first.cells)];
    }
  }

  lemma NoLines()
    ensures AreLines([]) && IsTerminated([]) && RecordsOf([]) == [] && PrintLines([]) == ""
    ensures forall extra: string :: "" + extra == extra
  {
  }

  lemma ExtraReads(extra: string)
    requires extra == "" || extra == "\"\""
    ensures Records(extra, Fresh([])) == Ok([])
  {
    NothingReads();
    if extra != "" {
      assert DoubleQuotes("") == "";
      var empty := Cell(true, "");
      assert PrintCell(empty) + "" == extra;
      CellReads(empty, "", []);
      SeparatorReads("", empty, []);
    }
  }

  // Whatever is read is spelled

  lemma {:induction false} PlainOf(s: string, st: State) returns (value: string, tail: string)
    requires !st.quoted && !st.closed && Records(s, st).Ok? && !(st.atStart && s != "" && s[0] == '"')
    ensures s == value + tail && IsPlain(value) && IsSeparated(tail)
    decreases |s|
  {
    if s == "" || NeedsQuotes(s[0]) {
      value, tail := "", s;
    } else {
      var more;
      more, tail := PlainOf(s[1..], st.(field := st.field + [s[0]], atStart := false));
      value := [s[0]] + more;
    }
  }

  lemma {:induction false} QuotedOf(s: string, st: State) returns (value: string, tail: string)
    requires st.quoted && Records(s, st).Ok?
    ensures s == DoubleQuotes(value) + "\"" + tail && (tail == "" || tail[0] != '"')
    ensures Records(s, st) == Records(tail, st.(field := st.field + value, quoted := false, closed := true))
    decreases |s|
  {
    hide DoubleQuotes;
    if s[0] == '"' && !(|s| > 1 && s[1] == '"') {
      value, tail := "", s[1..];
      NothingDoubled();
      assert st.field + value == st.field;
      assert s == "\"" + tail;
    } else {
      var n := if s[0] == '"' then 2 else 1;
      var more;
      more, tail := QuotedOf(s[n..], st.(field := st.field + [s[0]]));
      value := [s[0]] + more;
      DoubledFront(s[0], more);
      assert st.field + [s[0]] + more == st.field + value;
      assert s == s[..n] + s[n..];
      assert s[..n] == if s[0] == '"' then "\"\"" else [s[0]];
    }
  }

  lemma NothingDoubled()
    ensures DoubleQuotes("") == ""
  {
  }

  lemma DoubledFront(c: char, more: string)
    ensures DoubleQuotes([c] + more) == (if c == '"' then "\"\"" else [c]) + DoubleQuotes(more)
  {
    assert ([c] + more)[1..] == more;
  }

  lemma CellOf(s: string, record: seq<string>) returns (c: Cell, tail: string)
    requires Records(s, Fresh(record)).Ok?
    ensures s == PrintCell(c) + tail && (!c.quoted ==> IsPlain(c.value)) && IsSeparated(tail)
    ensures Records(s, Fresh(record)) == Records(tail, Behind(c, record))
  {
    hide IsPlain, Records, DoubleQuotes;
    if s != "" && s[0] == '"' {
      var inner := s[1..];
      assert s == "\"" + inner;
      QuoteOpens(inner, Fresh(record));
      var value;
      value, tail := QuotedOf(inner, Fresh(record).(quoted := true));
      c := Cell(true, value);
      assert "" + value == value;
      ClosedIsSeparated(tail, Behind(c, record));
    } else {
      var value;
      value, tail := PlainOf(s, Fresh(record));
      c := Cell(false, value);
      CellReads(c, tail, record);
    }
  }

  lemma ClosedIsSeparated(s: string, st: State)
    requires !st.quoted && st.closed && Records(s, st).Ok?
    ensures IsSeparated(s)
  {
  }

  /** The first line of what is read, behind the fields of `record`. */
  lemma {:induction false} LineOf(s: string, record: seq<string>) returns (cells: seq<Cell>, ending: string, tail: string)
    requires Records(s, Fresh(record)).Ok?
    ensures cells != [] && AreCells(cells) && s == PrintCells(cells) + ending + tail
    ensures ending == "\n" || ending == "\r\n" || (ending == "" && tail == "")
    ensures ending != "" || record + Values(cells) != [""] ==>
              Records(s, Fresh(record)) ==
                if ending == "" then Ok([record + Values(cells)]) else Prepend(record + Values(cells), Records(tail, Fresh([])))
    ensures ending == "" && record + Values(cells) == [""] ==> Records(s, Fresh(record)) == Ok([]) && |cells| == 1
    decreases |s|
  {
    hide Records, PrintCell, PrintCells, Values, AreCells, IsPlain, Behind;
    var c, rest := CellOf(s, record);
    if rest != "" && rest[0] == ',' {
      var more := rest[1..];
      assert rest == "," + more;
      CommaReads(more, c, record);
      var others;
      others, ending, tail := LineOf(more, record + [c.value]);
      cells := [c] + others;
      CellsSplit(c, others);
      assert record + Values(cells) == record + [c.value] + Values(others);
      assert |record + Values(cells)| >= 2;
      assert s == PrintCell(c) + ("," + (PrintCells(others) + ending + tail));
    } else {
      cells, ending := [c], if rest == "" then "" else if rest[0] == '\n' then "\n" else "\r\n";
      tail := rest[|ending|..];
      assert rest == ending + tail;
      assert [c] + [] == [c];
      CellsSplit(c, []);
      NoValues();
      NoCells();
      if ending != "" || record + [c.value] != [""] {
        LastCellReads(c, ending, tail, record);
      } else {
        SeparatorReads(rest, c, record);
        assert (record + [c.value])[|record|] == c.value;
      }
    }
  }

  lemma NoCells()
    ensures AreCells([])
  {
  }

  lemma {:induction false} LinesOf(s: string) returns (lines: seq<Line>, extra: string)
    requires Records(s, Fresh([])).Ok?
    ensures AreLines(lines) && (extra == "" || (extra == "\"\"" && IsTerminated(lines)))
    ensures s == PrintLines(lines) + extra && Records(s, Fresh([])) == Ok(RecordsOf(lines))
    decreases |s|
  {
    hide Records, PrintCells, Values, AreLines, IsTerminated, RecordsOf, PrintLines, AreCells;
    NoLines();
    if s == "" {
      lines, extra := [], "";
      NothingReads();
    } else {
      var cells, ending, tail := LineOf(s, []);
      assert [] + Values(cells) == Values(cells);
      if ending == "" && Values(cells) == [""] {
        lines, extra := [], s;
        LoneCell(cells, s);
      } else {
        var others: seq<Line> := [];
        extra := "";
        if ending != "" {
          others, extra := LinesOf(tail);
        }
        lines := LineInFront(Line(cells, ending), others, extra);
        assert s == PrintCells(cells) + ending + (PrintLines(others) + extra);
      }
    }
  }

  lemma LineInFront(first: Line, others: seq<Line>, extra: string) returns (lines: seq<Line>)
    requires IsLine(first, others == []) && AreLines(others) && (extra == "" || (extra == "\"\"" && IsTerminated(others)))
    requires first.ending == "" ==> others == [] && extra == ""
    ensures AreLines(lines) && (extra == "" || (extra == "\"\"" && IsTerminated(lines)))
    ensures PrintLines(lines) + extra == PrintCells(first.cells) + first.ending + (PrintLines(others) + extra)
    ensures RecordsOf(lines) == [Values(first.cells)] + RecordsOf(others)
    ensures others == [] ==> RecordsOf(lines) == [Values(first.cells)]
  {
    hide PrintCells, Values, AreLines, IsTerminated, RecordsOf, PrintLines, IsLine;
    lines := [first] + others;
    LinesSplit(first, others);
    NoLines();
    assert others == [] ==> [Values(first.cells)] + RecordsOf(others) == [Values(first.cells)];
  }

  lemma LoneCell(cells: seq<Cell>, s: string)
    requires |cells| == 1 && Values(cells) == [""] && s == PrintCells(cells) + "" + "" && s != ""
    ensures s == "\"\""
  {
    assert Values(cells)[0] == cells[0].value;
    assert DoubleQuotes("") == "";
  }

  /** The file, without its byte order mark. */
  ghost predicate IsFileOf(source: string, lines: seq<Line>) {
    exists mark, extra :: IsPrint(source, mark, lines, extra)
  }

  predicate IsPrint(source: string, mark: string, lines: seq<Line>, extra: string) {
    && source == mark + PrintLines(lines) + extra
    && (mark == "\U{FEFF}" || (mark == "" && (source == "" || source[0] != '\U{FEFF}')))
    && (extra == "" || (extra == "\"\"" && IsTerminated(lines)))
  }

  /**
   * A file is read as these records exactly when it consists of their lines: fields in quotes, with
   * quotes doubled, or plain ones without commas, quotes and line breaks; line feeds with or without
   * carriage returns; perhaps a byte order mark in front. An unterminated last line counts unless it
   * is one empty field, in quotes or not.
   */
  lemma RecordsIffLines(source: string, records: seq<seq<string>>)
    ensures ParseRecords(source) == Ok(records) <==>
              exists lines :: IsFileOf(source, lines) && AreLines(lines) && RecordsOf(lines) == records
  {
    hide Records, AreLines, PrintLines, RecordsOf, IsTerminated, ParseRecords;
    var mark := if source != "" && source[0] == '\U{FEFF}' then "\U{FEFF}" else "";
    var s := source[|mark|..];
    MarkIsDropped(source, mark, s);
    if ParseRecords(source) == Ok(records) {
      var lines, extra := LinesOf(s);
      assert source == mark + PrintLines(lines) + extra;
      assert IsPrint(source, mark, lines, extra);
      assert IsFileOf(source, lines);
    }
    if lines :| IsFileOf(source, lines) && AreLines(lines) && RecordsOf(lines) == records {
      var m, extra :| IsPrint(source, m, lines, extra);
      PrintIsRest(source, m, lines, extra, mark, s);
      LinesRead(lines, extra);
    }
  }

  lemma MarkIsDropped(source: string, mark: string, s: string)
    requires mark == if source != "" && source[0] == '\U{FEFF}' then "\U{FEFF}" else ""
    requires s == source[|mark|..]
    ensures source == mark + s && ParseRecords(source) == Records(s, Fresh([]))
  {
    hide Records;
  }

  lemma PrintIsRest(source: string, m: string, lines: seq<Line>, extra: string, mark: string, s: string)
    requires IsPrint(source, m, lines, extra) && source == mark + s
    requires mark == if source != "" && source[0] == '\U{FEFF}' then "\U{FEFF}" else ""
    ensures s == PrintLines(lines) + extra && (extra == "" || (extra == "\"\"" && IsTerminated(lines)))
  {
    hide PrintLines, IsTerminated;
    var rest := PrintLines(lines) + extra;
    assert source == m + rest;
    assert m != "" ==> source[0] == m[0];
    assert m == mark;
    assert source[|m|..] == rest == s;
  }
}
