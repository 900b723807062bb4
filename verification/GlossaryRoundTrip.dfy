/** A valid glossary survives export and import, and its export always fits the importer. */
module GlossaryRoundTrip {
  import opened Texts
  import opened Strings
  import opened Glossary

  // Fields

  lemma {:induction false} PlainReads(value: string, rest: string, st: State)
    requires IsPlain(value) && !st.quoted && !st.closed
    ensures Records(value + rest, st) ==
              Records(rest, st.(field := st.field + value, atStart := st.atStart && value == ""))
  {
    if value == "" {
      assert value + rest == rest && st.field + value == st.field;
    } else {
      var next := st.(field := st.field + [value[0]], atStart := false);
      assert (value + rest)[1..] == value[1..] + rest;
      assert !NeedsQuotes(value[0]);
      PlainReads(value[1..], rest, next);
      assert st.field + [value[0]] + value[1..] == st.field + value;
    }
  }

  lemma {:induction false} QuotedReads(value: string, rest: string, st: State)
    requires st.quoted && (rest == "" || rest[0] != '"')
    ensures Records(DoubleQuotes(value) + "\"" + rest, st) ==
              Records(rest, st.(field := st.field + value, quoted := false, closed := true))
  {
    var s := DoubleQuotes(value) + "\"" + rest;
    if value == "" {
      assert s[1..] == rest && st.field + value == st.field;
    } else {
      var more := DoubleQuotes(value[1..]) + "\"" + rest;
      QuotedReads(value[1..], rest, st.(field := st.field + [value[0]]));
      assert st.field + [value[0]] + value[1..] == st.field + value;
      if value[0] == '"' {
        assert s[0] == '"' && s[1] == '"' && s[2..] == more;
      } else {
        assert s[0] == value[0] && s[1..] == more;
      }
    }
  }

  /** A printed field in front of a comma or line feed is read as its value. */
  lemma FieldReads(value: string, separator: char, rest: string, record: seq<string>)
    requires separator == ',' || separator == '\n'
    ensures Records(PrintField(value) + ([separator] + rest), Fresh(record)) ==
              if separator == ',' then Records(rest, Fresh(record + [value]))
              else Prepend(record + [value], Records(rest, Fresh([])))
  {
    hide Records, DoubleQuotes;
    var tail := [separator] + rest;
    var start := Fresh(record);
    if IsPlain(value) {
      PlainReads(value, tail, start);
      assert "" + value == value;
      FieldEnds(separator, rest, start.(field := value, atStart := value == ""));
    } else {
      var inner := DoubleQuotes(value) + "\"" + tail;
      assert PrintField(value) + tail == "\"" + inner;
      QuoteOpens(inner, start);
      QuotedReads(value, tail, start.(quoted := true));
      assert "" + value == value;
      FieldEnds(separator, rest, start.(field := value, closed := true));
    }
  }

  lemma QuoteOpens(inner: string, st: State)
    requires !st.quoted && !st.closed && st.atStart
    ensures Records("\"" + inner, st) == Records(inner, st.(quoted := true))
  {
    assert ("\"" + inner)[1..] == inner;
  }

  lemma FieldEnds(separator: char, rest: string, st: State)
    requires (separator == ',' || separator == '\n') && !st.quoted
    ensures Records([separator] + rest, st) ==
              if separator == ',' then Records(rest, Fresh(st.record + [st.field]))
              else Prepend(st.record + [st.field], Records(rest, Fresh([])))
  {
    assert ([separator] + rest)[1..] == rest;
  }

  // Rows

  lemma {:induction false} FieldsRead(fields: seq<string>, rest: string, record: seq<string>)
    requires fields != []
    ensures Records(PrintFields(fields) + rest, Fresh(record)) == Prepend(record + fields, Records(rest, Fresh([])))
    decreases |fields|
  {
    hide Records, PrintField;
    if |fields| == 1 {
      assert PrintFields(fields) == PrintField(fields[0]) + "" + "\n" by { LastField(fields); }
      assert PrintFields(fields) + rest == PrintField(fields[0]) + (['\n'] + rest);
      FieldReads(fields[0], '\n', rest, record);
      assert fields == [fields[0]];
    } else {
      var tail := PrintFields(fields[1..]) + rest;
      assert PrintFields(fields) + rest == PrintField(fields[0]) + ([','] + tail);
      FieldReads(fields[0], ',', tail, record);
      FieldsRead(fields[1..], rest, record + [fields[0]]);
      assert record + [fields[0]] + fields[1..] == record + fields;
    }
  }

  lemma LastField(fields: seq<string>)
    requires |fields| == 1
    ensures PrintFields(fields) == PrintField(fields[0]) + "" + "\n"
  {
    assert fields[1..] == [];
  }

  lemma {:induction false} RowsRead(rows: seq<seq<string>>)
    requires forall k | 0 <= k < |rows| :: rows[k] != []
    ensures Records(PrintRows(rows), Fresh([])) == Ok(rows)
  {
    hide Records, PrintFields;
    if rows == [] {
      NothingReads();
    } else {
      FieldsRead(rows[0], PrintRows(rows[1..]), []);
      RowsRead(rows[1..]);
      assert [] + rows[0] == rows[0] && [rows[0]] + rows[1..] == rows;
    }
  }

  lemma NothingReads()
    ensures Records("", Fresh([])) == Ok([])
  {
  }

  // Values

  lemma {:induction false} DigitsRead(n: nat)
    ensures AllDigits(Digits(n)) && Decimal(Digits(n)) == n
  {
    var s := Digits(n);
    if n >= 10 {
      DigitsRead(n / 10);
      assert s[..|s| - 1] == Digits(n / 10);
    } else {
      assert s[..|s| - 1] == "";
    }
  }

  lemma DigitsOpen(n: nat)
    ensures Digits(n)[0] != '-' && Digits(n)[0] != '+'
  {
    DigitsRead(n);
    assert IsDecimalDigit(Digits(n)[0]);
  }

  lemma PriorityReads(n: Priority)
    ensures ParsePriority(PrintPriority(n)) == Some(n)
  {
    hide AllDigits, Decimal, Digits;
    var v: int := n;
    if v < 0 {
      DigitsRead(-v);
      assert PrintPriority(n)[1..] == Digits(-v);
    } else {
      DigitsRead(v);
      DigitsOpen(v);
    }
  }

  lemma TextIsPresent(value: string, maximum: nat, name: string)
    requires TextError(value, maximum, name) == None
    ensures value != "" && Bytes(value) <= maximum
  {
  }

  lemma OptionReads(value: Option<string>, maximum: nat, name: string)
    requires OptionError(value, maximum, name) == None
    ensures Present(OrEmpty(value)) == value && Bytes(OrEmpty(value)) <= maximum
  {
    hide TextError;
    if value.Some? {
      TextIsPresent(value.value, maximum, name);
    }
  }

  lemma EntryReads(e: Entry, row: nat)
    requires EntryError(e) == None
    ensures ParseEntry(Row(e), row) == Ok(e)
  {
    hide TextError, ParsePriority, PrintPriority;
    PriorityReads(e.priority);
    OptionReads(e.sourceLocale, MAX_LOCALE_BYTES, "source locale");
    OptionReads(e.targetLocale, MAX_LOCALE_BYTES, "target locale");
    OptionReads(e.domain, MAX_DOMAIN_BYTES, "domain");
    OptionReads(e.notes, MAX_NOTE_BYTES, "notes");
  }

  lemma {:induction false} EntriesRead(entries: seq<Entry>, row: nat)
    requires FirstEntryError(entries) == None
    ensures ParseEntries(Rows(entries), row) == Ok(entries)
  {
    hide EntryError, ParseEntry, Row;
    if entries != [] {
      EntryReads(entries[0], row);
      EntriesRead(entries[1..], row + 1);
      assert Rows(entries)[1..] == Rows(entries[1..]);
      assert [entries[0]] + entries[1..] == entries;
    }
  }

  // Size

  lemma {:induction false} BytesJoin(a: string, b: string)
    ensures Bytes(a + b) == Bytes(a) + Bytes(b)
  {
    if a == "" {
      assert a + b == b;
    } else {
      assert (a + b)[1..] == a[1..] + b;
      BytesJoin(a[1..], b);
    }
  }

  lemma {:induction false} DoubledBytes(value: string)
    ensures Bytes(DoubleQuotes(value)) <= 2 * Bytes(value)
  {
    if value != "" {
      DoubledBytes(value[1..]);
      if value[0] == '"' {
        BytesJoin("\"\"", DoubleQuotes(value[1..]));
        assert Bytes("\"\"") == 2 by { assert "\"\""[1..] == "\"" && "\""[1..] == ""; }
      } else {
        BytesJoin([value[0]], DoubleQuotes(value[1..]));
        OneChar(value[0]);
      }
    }
  }

  lemma OneChar(c: char)
    ensures Bytes([c]) == CharBytes(c)
  {
    assert [c][1..] == "";
  }

  lemma FieldBytes(value: string)
    ensures Bytes(PrintField(value)) <= 2 * Bytes(value) + 2
  {
    hide Bytes, DoubleQuotes;
    DoubledBytes(value);
    OneChar('"');
    BytesJoin("\"" + DoubleQuotes(value), "\"");
    BytesJoin("\"", DoubleQuotes(value));
  }

  function FieldSum(fields: seq<string>): nat {
    if fields == [] then 1 else 2 * Bytes(fields[0]) + 3 + FieldSum(fields[1..])
  }

  lemma {:induction false} FieldsBytes(fields: seq<string>)
    ensures Bytes(PrintFields(fields)) <= FieldSum(fields)
  {
    hide Bytes, PrintField;
    if fields == [] {
      OneChar('\n');
    } else {
      FieldsBytes(fields[1..]);
      FieldBytes(fields[0]);
      OneChar(',');
      NoBytes();
      var separator := if |fields| == 1 then "" else ",";
      BytesJoin(PrintField(fields[0]) + separator, PrintFields(fields[1..]));
      BytesJoin(PrintField(fields[0]), separator);
    }
  }

  lemma NoBytes()
    ensures Bytes("") == 0
  {
  }

  function Power(k: nat): nat {
    if k == 0 then 1 else 10 * Power(k - 1)
  }

  lemma {:induction false} DigitsBytes(n: nat, k: nat)
    requires 0 < k && n < Power(k)
    ensures Bytes(Digits(n)) <= k
  {
    if n < 10 {
      OneChar((n + 48) as char);
    } else {
      assert k > 1;
      DigitsBytes(n / 10, k - 1);
      BytesJoin(Digits(n / 10), [(n % 10 + 48) as char]);
      OneChar((n % 10 + 48) as char);
    }
  }

  lemma PriorityBytes(n: Priority)
    ensures Bytes(PrintPriority(n)) <= 11
  {
    var v: int := n;
    assert Power(4) == 10000 && Power(8) == 100000000 && Power(10) == 10000000000 by { PowersOfTen(); }
    DigitsBytes(if v < 0 then -v else v, 10);
    if v < 0 {
      BytesJoin("-", Digits(-v));
      OneChar('-');
    }
  }

  lemma PowersOfTen()
    ensures Power(4) == 10000 && Power(8) == 100000000 && Power(10) == 10000000000
  {
    assert Power(2) == 100;
    assert Power(4) == 10000;
    assert Power(6) == 1000000;
    assert Power(8) == 100000000;
  }

  lemma BoolBytes(b: bool)
    ensures Bytes(PrintBool(b)) <= 5
  {
    AsciiBytes("true");
    AsciiBytes("false");
  }

  lemma {:induction false} AsciiBytes(s: string)
    requires forall k | 0 <= k < |s| :: s[k] < '\U{80}'
    ensures Bytes(s) == |s|
  {
    if s != "" {
      AsciiBytes(s[1..]);
    }
  }

  const ROW_BYTES: nat := 6752

  lemma FieldSumSplits(field: string, rest: seq<string>)
    ensures FieldSum([field] + rest) == 2 * Bytes(field) + 3 + FieldSum(rest)
  {
    assert ([field] + rest)[1..] == rest;
  }

  lemma {:induction false} FieldSumJoins(a: seq<string>, b: seq<string>)
    ensures FieldSum(a + b) + 1 == FieldSum(a) + FieldSum(b)
  {
    if a == [] {
      assert a + b == b;
    } else {
      assert (a + b)[1..] == a[1..] + b;
      FieldSumJoins(a[1..], b);
    }
  }

  lemma FourFields(a: string, b: string, c: string, d: string)
    ensures FieldSum([a, b, c, d]) == 2 * (Bytes(a) + Bytes(b) + Bytes(c) + Bytes(d)) + 13
  {
    hide Bytes, FieldSum;
    FieldSumSplits(a, [b, c, d]);
    FieldSumSplits(b, [c, d]);
    FieldSumSplits(c, [d]);
    FieldSumSplits(d, []);
    assert [a] + [b, c, d] == [a, b, c, d] && [b] + [c, d] == [b, c, d] && [c] + [d] == [c, d] && [d] + [] == [d];
    NoFields();
  }

  lemma NoFields()
    ensures FieldSum([]) == 1
  {
  }

  lemma RowBytes(e: Entry)
    requires EntryError(e) == None
    ensures FieldSum(Row(e)) <= ROW_BYTES
  {
    hide Bytes, TextError, FieldSum, PrintPriority, PrintBool;
    OptionReads(e.sourceLocale, MAX_LOCALE_BYTES, "source locale");
    OptionReads(e.targetLocale, MAX_LOCALE_BYTES, "target locale");
    OptionReads(e.domain, MAX_DOMAIN_BYTES, "domain");
    OptionReads(e.notes, MAX_NOTE_BYTES, "notes");
    TextIsPresent(e.sourceTerm, MAX_TERM_BYTES, "source term");
    TextIsPresent(e.targetTerm, MAX_TERM_BYTES, "target term");
    PriorityBytes(e.priority);
    BoolBytes(true);
    BoolBytes(false);
    ElevenFields(Row(e));
  }

  lemma ElevenFields(row: seq<string>)
    requires |row| == 11
    ensures FieldSum(row) ==
              34 + 2 * (Bytes(row[0]) + Bytes(row[1]) + Bytes(row[2]) + Bytes(row[3]) + Bytes(row[4]) + Bytes(row[5]) +
                        Bytes(row[6]) + Bytes(row[7]) + Bytes(row[8]) + Bytes(row[9]) + Bytes(row[10]))
  {
    hide Bytes, FieldSum;
    FourFields(row[0], row[1], row[2], row[3]);
    FourFields(row[4], row[5], row[6], row[7]);
    FourFields(row[8], row[9], row[10], "");
    var last := [row[8], row[9], row[10]];
    FieldSumJoins(last, [""]);
    assert last + [""] == [row[8], row[9], row[10], ""];
    FieldSumSplits("", []);
    assert [""] + [] == [""];
    NoFields();
    NoBytes();
    FieldSumJoins(row[4..8], last);
    FieldSumJoins(row[..4], row[4..8] + last);
    assert row[..4] == [row[0], row[1], row[2], row[3]] && row[4..8] == [row[4], row[5], row[6], row[7]];
    assert row == row[..4] + (row[4..8] + last);
  }

  lemma {:induction false} RowsBytes(entries: seq<Entry>)
    requires FirstEntryError(entries) == None
    ensures Bytes(PrintRows(Rows(entries))) <= ROW_BYTES * |entries|
  {
    hide Bytes, EntryError, PrintFields, FieldSum;
    if entries == [] {
      NoBytes();
    } else {
      RowsBytes(entries[1..]);
      RowBytes(entries[0]);
      FieldsBytes(Row(entries[0]));
      BytesJoin(PrintFields(Row(entries[0])), PrintRows(Rows(entries[1..])));
      assert Rows(entries)[1..] == Rows(entries[1..]);
    }
  }

  lemma HeaderBytes()
    ensures Bytes(PrintFields(HEADER)) <= 1000
  {
    hide Bytes, FieldSum, PrintFields;
    FieldsBytes(HEADER);
    NamesAreShort();
    SumOfShort(HEADER, 20);
  }

  lemma NamesAreShort()
    ensures forall k | 0 <= k < |HEADER| :: Bytes(HEADER[k]) <= 20
  {
    hide Bytes;
    AsciiBytes("source_term");
    AsciiBytes("target_term");
    AsciiBytes("source_locale");
    AsciiBytes("target_locale");
    AsciiBytes("case_sensitive");
    AsciiBytes("whole_word");
    AsciiBytes("immutable");
    AsciiBytes("domain");
    AsciiBytes("priority");
    AsciiBytes("notes");
    AsciiBytes("enabled");
  }

  lemma {:induction false} SumOfShort(fields: seq<string>, bound: nat)
    requires forall k | 0 <= k < |fields| :: Bytes(fields[k]) <= bound
    ensures FieldSum(fields) <= (2 * bound + 3) * |fields| + 1
  {
    hide Bytes;
    if fields != [] {
      SumOfShort(fields[1..], bound);
      assert Bytes(fields[0]) <= bound;
      assert (2 * bound + 3) * |fields| == (2 * bound + 3) * |fields[1..]| + (2 * bound + 3);
    }
  }

  /** The export of every valid glossary is far below the importer's limit. */
  lemma ExportFits(entries: seq<Entry>)
    requires GlossaryErrorOf(entries) == None
    ensures Bytes(ToCsv(entries)) <= 1000 + ROW_BYTES * |entries| < MAX_CSV_BYTES
  {
    hide Bytes, FirstEntryError, PrintFields;
    HeaderBytes();
    RowsBytes(entries);
    var rows := [HEADER] + Rows(entries);
    assert rows[1..] == Rows(entries);
    BytesJoin(PrintFields(HEADER), PrintRows(Rows(entries)));
  }

  /** Every valid glossary is imported from its own export as it was. */
  lemma ImportUndoesExport(entries: seq<Entry>)
    requires GlossaryErrorOf(entries) == None
    ensures FromCsv(ToCsv(entries)) == Ok(entries)
  {
    hide Bytes, FirstEntryError, PrintRows, ParseEntries, GlossaryErrorOf, Row, Records;
    ExportFits(entries);
    var rows := [HEADER] + Rows(entries);
    RowsAreNotEmpty(entries);
    RowsRead(rows);
    OpensWithHeader(entries);
    assert rows[1..] == Rows(entries);
    ValidEntries(entries);
    EntriesRead(entries, 2);
  }

  lemma RowsAreNotEmpty(entries: seq<Entry>)
    ensures var rows := [HEADER] + Rows(entries); forall k | 0 <= k < |rows| :: rows[k] != []
  {
  }

  lemma ValidEntries(entries: seq<Entry>)
    requires GlossaryErrorOf(entries) == None
    ensures |entries| <= MAX_ENTRIES && FirstEntryError(entries) == None
  {
    hide FirstEntryError, Conflict;
  }

  lemma OpensWithHeader(entries: seq<Entry>)
    ensures ToCsv(entries) != "" && ToCsv(entries)[0] == 's'
  {
    var rows := [HEADER] + Rows(entries);
    assert IsPlain(HEADER[0]);
    assert PrintFields(HEADER)[0] == 's';
    assert PrintRows(rows)[0] == PrintFields(rows[0])[0];
  }
}
