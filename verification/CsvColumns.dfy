/** What the delimiter count means: the columns of the first record. */
module CsvColumns {
  import opened Texts
  import opened Strings
  import opened CsvDocument
  import CsvRebuilding

  lemma CountPasses(s: string, d: char, inQuotes: bool)
    requires s != "" && IsDelimiter(d)
    ensures s[0] != '"' && !(!inQuotes && EndsField(s[0], d)) ==> CountOutside(s, d, inQuotes) == CountOutside(s[1..], d, inQuotes)
    ensures s[0] == '"' && !inQuotes ==> CountOutside(s, d, inQuotes) == CountOutside(s[1..], d, true)
    ensures s[0] == '"' && inQuotes ==>
              CountOutside(s, d, inQuotes) == if StartsWith(s, "\"\"") then CountOutside(s[2..], d, true) else CountOutside(s[1..], d, false)
    ensures s[0] == d && !inQuotes ==> CountOutside(s, d, inQuotes) == 1 + CountOutside(s[1..], d, false)
    ensures (s[0] == '\r' || s[0] == '\n') && !inQuotes ==> CountOutside(s, d, inQuotes) == 0
  {
  }

  lemma {:induction false} PlainHasNone(s: string, d: char)
    requires IsDelimiter(d) && PlainLength(s, d).Some?
    ensures CountOutside(s, d, false) == CountOutside(s[PlainLength(s, d).value..], d, false)
  {
    hide CountOutside, IsDelimiter;
    var n := PlainLength(s, d).value;
    if n == 0 {
      assert s[0..] == s;
    } else {
      CountPasses(s, d, false);
      PlainHasNone(s[1..], d);
      assert s[1..][n - 1..] == s[n..];
    }
  }

  lemma {:induction false} QuotedHasNone(s: string, d: char)
    requires IsDelimiter(d) && QuotedLength(s, d).Some?
    ensures CountOutside(s, d, true) == CountOutside(s[QuotedLength(s, d).value..], d, false)
    decreases |s|
  {
    hide CountOutside, IsDelimiter;
    var n := QuotedLength(s, d).value;
    CountPasses(s, d, true);
    if s[0] != '"' {
      QuotedHasNone(s[1..], d);
      assert s[1..][n - 1..] == s[n..];
    } else if StartsWith(s, "\"\"") {
      QuotedHasNone(s[2..], d);
      assert s[2..][n - 2..] == s[n..];
    }
  }

  /** No delimiter is counted inside a field. */
  lemma FieldHasNone(s: string, d: char)
    requires IsDelimiter(d) && FieldLength(s, d).Some?
    ensures CountOutside(s, d, false) == CountOutside(s[FieldLength(s, d).value..], d, false)
  {
    hide CountOutside, IsDelimiter, QuotedLength, PlainLength;
    if s != "" && s[0] == '"' {
      var n := QuotedLength(s[1..], d).value;
      CountPasses(s, d, false);
      QuotedHasNone(s[1..], d);
      assert s[1..][n..] == s[1 + n..];
    } else {
      PlainHasNone(s, d);
    }
  }

  lemma {:induction false} CountsColumns(s: string, d: char, fields: seq<string>, count: nat)
    requires IsDelimiter(d) && Records(s, d, fields, count).Ok? && (s != "" || fields != [] || count == 0)
    ensures var records := Records(s, d, fields, count).value;
            records != [] && |records[0].fields| == |fields| + 1 + CountOutside(s, d, false)
    decreases |s|
  {
    hide CountOutside, IsDelimiter, FieldLength, LineEnding;
    CsvRebuilding.RecordsFront(s, d, fields, count);
    var n := FieldLength(s, d).value;
    FieldHasNone(s, d);
    var rest := s[n..];
    if n < |s| && s[n] == d {
      CountPasses(rest, d, false);
      assert rest[1..] == s[n + 1..];
      CountsColumns(s[n + 1..], d, fields + [s[..n]], count);
    } else if n < |s| {
      CountPasses(rest, d, false);
      assert EndsField(rest[0], d);
    } else {
      assert rest == "";
      NothingCounts(d);
    }
  }

  lemma NothingCounts(d: char)
    ensures CountOutside("", d, false) == 0
  {
  }

  /** In a text that is accepted with a delimiter, its count is the number of columns of the first record less one. */
  lemma CountIsColumns(text: string, d: char)
    requires IsDelimiter(d) && Parse(text, d).Ok?
    ensures var records := Parse(text, d).value;
            records != [] && |records[0].fields| == 1 + CountOutside(text, d, false)
  {
    CountsColumns(text, d, [], 0);
  }

  /** So the delimiter that is detected gives the first record no fewer columns than any other that the text can be read with. */
  lemma DetectedHasMostColumns(text: string, d: char, other: char)
    requires IsDelimiter(d) && IsDelimiter(other)
    requires CountOutside(text, other, false) <= CountOutside(text, d, false)
    requires Parse(text, d).Ok? && Parse(text, other).Ok?
    ensures Parse(text, other).value != [] && Parse(text, d).value != []
    ensures |Parse(text, other).value[0].fields| <= |Parse(text, d).value[0].fields|
  {
    hide Parse, CountOutside;
    CountIsColumns(text, d);
    CountIsColumns(text, other);
  }
}
