/** Delimited text (RFC 4180, section 2): reading records and writing translated fields. */
module CsvDocument {
  import opened Texts
  import opened Strings
  import opened Documents

  const MAX_RECORDS: nat := 10_000
  const MAX_FIELDS: nat := 1_024

  predicate IsDelimiter(c: char) {
    c == ',' || c == ';' || c == '\t' || c == '|'
  }

  /** Raw fields, quotes included, and the line ending, empty for an unterminated last record. */
  datatype Record = Record(fields: seq<string>, ending: string)

  /** How often `c` stands outside quotes in the first record. */
  function CountOutside(s: string, c: char, inQuotes: bool): nat
    decreases |s|
  {
    if s == "" then 0
    else if s[0] == '"' && inQuotes && StartsWith(s, "\"\"") then CountOutside(s[2..], c, true)
    else if s[0] == '"' then CountOutside(s[1..], c, !inQuotes)
    else if (s[0] == '\r' || s[0] == '\n') && !inQuotes then 0
    else (if s[0] == c && !inQuotes then 1 else 0) + CountOutside(s[1..], c, inQuotes)
  }

  const CANDIDATES: string := ",;\t|"

  /** The candidate that occurs most often outside quotes in the first record, the earliest on a tie. */
  method DetectDelimiter(text: string) returns (d: char)
    ensures IsDelimiter(d)
    ensures exists p | 0 <= p < |CANDIDATES| :: d == CANDIDATES[p] &&
              forall q | 0 <= q < |CANDIDATES| ::
                CountOutside(text, CANDIDATES[q], false) <= CountOutside(text, d, false) &&
                (q < p ==> CountOutside(text, CANDIDATES[q], false) < CountOutside(text, d, false))
  {
    hide CountOutside;
    var counts := CountCandidates(text);
    var best: nat, p: nat := 0, 1;
    while p < |CANDIDATES|
      invariant best < p <= |CANDIDATES|
      invariant forall q | 0 <= q < p :: counts[q] <= counts[best] && (q < best ==> counts[q] < counts[best])
    {
      if counts[p] > counts[best] {
        best := p;
      }
      p := p + 1;
    }
    d := CANDIDATES[best];
  }

  /** How often each candidate stands outside quotes in the first record. */
  method CountCandidates(text: string) returns (counts: seq<nat>)
    ensures |counts| == |CANDIDATES|
    ensures forall p | 0 <= p < |CANDIDATES| :: counts[p] == CountOutside(text, CANDIDATES[p], false)
  {
    hide CountOutside;
    counts := [0, 0, 0, 0];
    var inQuotes := false;
    var index: nat := 0;
    assert text[0..] == text;
    while index < |text|
      invariant index <= |text| && |counts| == |CANDIDATES|
      invariant forall p | 0 <= p < |CANDIDATES| ::
                  counts[p] + CountOutside(text[index..], CANDIDATES[p], inQuotes) ==
                  CountOutside(text, CANDIDATES[p], false)
      decreases |text| - index
    {
      var c := text[index];
      CountTurn(text, index, inQuotes);
      if c == '"' && inQuotes && index + 1 < |text| && text[index + 1] == '"' {
        index := index + 2;
      } else if c == '"' {
        inQuotes, index := !inQuotes, index + 1;
      } else if (c == '\r' || c == '\n') && !inQuotes {
        break;
      } else {
        if !inQuotes && c in CANDIDATES {
          var p :| 0 <= p < |CANDIDATES| && CANDIDATES[p] == c;
          counts := counts[p := counts[p] + 1];
        }
        index := index + 1;
      }
    }
    CountAtEnd(text[index..], inQuotes);
  }

  /** What one turn of the counting loop takes. */
  lemma CountTurn(text: string, index: nat, inQuotes: bool)
    requires index < |text|
    ensures var c := text[index];
            forall d :: CountOutside(text[index..], d, inQuotes) ==
              if c == '"' && inQuotes && index + 1 < |text| && text[index + 1] == '"' then CountOutside(text[index + 2..], d, true)
              else if c == '"' then CountOutside(text[index + 1..], d, !inQuotes)
              else if (c == '\r' || c == '\n') && !inQuotes then 0
              else (if c == d && !inQuotes then 1 else 0) + CountOutside(text[index + 1..], d, inQuotes)
  {
    var c, s := text[index], text[index..];
    assert s[0] == c && s[1..] == text[index + 1..];
    if |s| >= 2 {
      assert s[..2] == [c, text[index + 1]] && s[2..] == text[index + 2..];
    }
  }

  lemma CountAtEnd(s: string, inQuotes: bool)
    requires s == "" || ((s[0] == '\r' || s[0] == '\n') && !inQuotes)
    ensures forall c :: CountOutside(s, c, inQuotes) == 0
  {
  }

  predicate EndsField(c: char, d: char) {
    c == d || c == '\r' || c == '\n'
  }

  predicate AtFieldEnd(s: string, d: char) {
    s == "" || EndsField(s[0], d)
  }

  function Plus(n: nat, rest: Option<nat>): Option<nat> {
    if rest.Some? then Some(n + rest.value) else None
  }

  /** Length of the rest of an unquoted field. */
  function PlainLength(s: string, d: char): (n: Option<nat>)
    ensures n.Some? ==> n.value <= |s| && AtFieldEnd(s[n.value..], d)
  {
    if AtFieldEnd(s, d) then Some(0)
    else if s[0] == '"' then None
    else Plus(1, PlainLength(s[1..], d))
  }

  /** Length of the rest of a quoted field, closing quote included. */
  function QuotedLength(s: string, d: char): (n: Option<nat>)
    ensures n.Some? ==> 0 < n.value <= |s| && AtFieldEnd(s[n.value..], d)
    decreases |s|
  {
    if s == "" then None
    else if s[0] != '"' then Plus(1, QuotedLength(s[1..], d))
    else if StartsWith(s, "\"\"") then Plus(2, QuotedLength(s[2..], d))
    else if AtFieldEnd(s[1..], d) then Some(1)
    else None
  }

  /** Length of the field at the front. */
  function FieldLength(s: string, d: char): (n: Option<nat>)
    ensures n.Some? ==> n.value <= |s| && AtFieldEnd(s[n.value..], d)
  {
    if s != "" && s[0] == '"' then Plus(1, QuotedLength(s[1..], d)) else PlainLength(s, d)
  }

  function LineEnding(s: string): (e: string)
    requires s != ""
    ensures 0 < |e| <= |s|
  {
    if StartsWith(s, "\r\n") then "\r\n" else s[..1]
  }

  function Prepend(record: Record, rest: Result<seq<Record>, DocumentError>): Result<seq<Record>, DocumentError> {
    if rest.Ok? then Ok([record] + rest.value) else rest
  }

  /** The records of `s`, where `count` records and the fields of an unfinished one lie before it. */
  function Records(s: string, d: char, fields: seq<string>, count: nat): Result<seq<Record>, DocumentError>
    decreases |s|
  {
    if s == "" && fields == [] && count > 0 then Ok([])
    else
      match FieldLength(s, d)
      case None => Err(InvalidStructure)
      case Some(n) =>
        var all := fields + [s[..n]];
        if n < |s| && s[n] == d then Records(s[n + 1..], d, all, count)
        else if |all| > MAX_FIELDS || count >= MAX_RECORDS then Err(InvalidStructure)
        else if n == |s| then Ok([Record(all, "")])
        else
          var ending := LineEnding(s[n..]);
          Prepend(Record(all, ending), Records(s[n + |ending|..], d, [], count + 1))
  }

  function Parse(text: string, d: char): Result<seq<Record>, DocumentError> {
    if text == "" then Err(InvalidStructure) else Records(text, d, [], 0)
  }

  function Undouble(s: string): Result<string, DocumentError>
    decreases |s|
  {
    if s == "" then Ok("")
    else if s[0] != '"' then
      match Undouble(s[1..]) case Ok(rest) => Ok([s[0]] + rest) case Err(e) => Err(e)
    else if |s| == 1 || s[1] != '"' then Err(InvalidStructure)
    else
      match Undouble(s[2..]) case Ok(rest) => Ok("\"" + rest) case Err(e) => Err(e)
  }

  /** The text of a raw field. */
  function DecodeField(raw: string, d: char): Result<string, DocumentError> {
    if raw != "" && raw[0] == '"' then
      if |raw| < 2 || raw[|raw| - 1] != '"' then Err(InvalidStructure) else Undouble(raw[1..|raw| - 1])
    else if '"' in raw || d in raw then Err(InvalidStructure)
    else Ok(raw)
  }

  function Double(s: string): string {
    if s == "" then "" else (if s[0] == '"' then "\"\"" else [s[0]]) + Double(s[1..])
  }

  /** The raw field for a translation, quoted as the source field was or as its content needs. */
  function EncodeField(raw: string, translated: string, d: char): string {
    if (raw != "" && raw[0] == '"') || d in translated || '"' in translated || '\r' in translated || '\n' in translated
    then "\"" + Double(translated) + "\""
    else translated
  }

  function After(done: seq<Record>, rest: Result<seq<Record>, DocumentError>): Result<seq<Record>, DocumentError> {
    if rest.Ok? then Ok(done + rest.value) else rest
  }

  /** What the flags of the scanner say about the rest of the field at the cursor. */
  function RestLength(s: string, d: char, started: bool, inQuotes: bool, afterQuote: bool): (n: Option<nat>)
    ensures n.Some? ==> n.value <= |s|
  {
    if inQuotes then QuotedLength(s, d)
    else if afterQuote then if AtFieldEnd(s, d) then Some(0) else None
    else if started then PlainLength(s, d)
    else FieldLength(s, d)
  }

  /** The scanner advances by one character, or two at a doubled quote, inside a field. */
  lemma FieldStep(s: string, d: char, started: bool, inQuotes: bool, afterQuote: bool)
    requires s != "" && IsDelimiter(d) && !(inQuotes && afterQuote) && (inQuotes || afterQuote ==> started)
    ensures RestLength(s, d, started, inQuotes, afterQuote) ==
              if s[0] == '"' && inQuotes then
                if StartsWith(s, "\"\"") then Plus(2, RestLength(s[2..], d, true, true, false))
                else Plus(1, RestLength(s[1..], d, true, false, true))
              else if s[0] == '"' && !started then Plus(1, RestLength(s[1..], d, true, true, false))
              else if s[0] == '"' then None
              else if EndsField(s[0], d) && !inQuotes then Some(0)
              else if afterQuote then None
              else Plus(1, RestLength(s[1..], d, true, inQuotes, false))
  {
  }

  /** A field ends at the cursor. */
  lemma FieldDone(text: string, d: char, start: nat, end: nat, fields: seq<string>, count: nat)
    requires start <= end < |text| && FieldLength(text[start..], d) == Some(end - start) && EndsField(text[end], d)
    ensures var all := fields + [text[start..end]];
            Records(text[start..], d, fields, count) ==
              if text[end] == d then Records(text[end + 1..], d, all, count)
              else if |all| > MAX_FIELDS || count >= MAX_RECORDS then Err(InvalidStructure)
              else var ending := LineEnding(text[end..]);
                   Prepend(Record(all, ending), Records(text[end + |ending|..], d, [], count + 1))
  {
    hide FieldLength, LineEnding;
    var s, n := text[start..], end - start;
    assert s[..n] == text[start..end] && s[n] == text[end] && s[n..] == text[end..];
    assert s[n + 1..] == text[end + 1..];
    var ending := LineEnding(s[n..]);
    assert s[n + |ending|..] == text[end + |ending|..];
  }

  lemma FieldFails(text: string, d: char, start: nat, fields: seq<string>, count: nat)
    requires start < |text| && FieldLength(text[start..], d) == None
    ensures Records(text[start..], d, fields, count) == Err(InvalidStructure)
  {
    hide FieldLength;
  }

  /** The text ends inside or behind a field. */
  lemma LastField(text: string, d: char, start: nat, fields: seq<string>, count: nat)
    requires start <= |text| && FieldLength(text[start..], d) == Some(|text| - start)
    ensures Records(text[start..], d, fields, count) ==
              if start == |text| && fields == [] && count > 0 then Ok([])
              else if |fields| + 1 > MAX_FIELDS || count >= MAX_RECORDS then Err(InvalidStructure)
              else Ok([Record(fields + [text[start..]], "")])
  {
    hide FieldLength;
    var s := text[start..];
    assert s[..|s|] == s;
  }

  datatype Outcome = Inside | AtEnd | Malformed

  /** The scanner at one character: it moves on inside the field, or the field ends, or it is malformed. */
  method Advance(text: string, d: char, index: nat, started: bool, inQuotes: bool, afterQuote: bool)
      returns (outcome: Outcome, next: nat, quotes: bool, after: bool)
    requires index < |text| && IsDelimiter(d)
    requires !(inQuotes && afterQuote) && (inQuotes || afterQuote ==> started)
    ensures outcome == Inside ==> index < next <= |text| && !(quotes && after)
    ensures RestLength(text[index..], d, started, inQuotes, afterQuote) ==
              match outcome
              case Inside => Plus(next - index, RestLength(text[next..], d, true, quotes, after))
              case AtEnd => Some(0)
              case Malformed => None
    ensures outcome == AtEnd ==> EndsField(text[index], d)
  {
    hide RestLength;
    var c := text[index];
    ghost var s := text[index..];
    FieldStep(s, d, started, inQuotes, afterQuote);
    assert s[1..] == text[index + 1..];
    assert |s| >= 2 ==> s[..2][0] == c && s[..2][1] == text[index + 1] && s[2..] == text[index + 2..];
    outcome, next, quotes, after := Inside, index + 1, inQuotes, false;
    if c == '"' && inQuotes && index + 1 < |text| && text[index + 1] == '"' {
      assert s[..2] == "\"\"";
      next := index + 2;
    } else if c == '"' && inQuotes {
      quotes, after := false, true;
    } else if c == '"' && !started {
      quotes := true;
    } else if c == '"' {
      outcome := Malformed;
    } else if EndsField(c, d) && !inQuotes {
      outcome := AtEnd;
    } else if afterQuote {
      outcome := Malformed;
    }
  }

  /** The scanner with its cursor and its two quote flags. */
  method ParseRecords(text: string, d: char) returns (result: Result<seq<Record>, DocumentError>)
    requires IsDelimiter(d)
    ensures result == Parse(text, d)
  {
    hide Parse, FieldLength, RestLength, Records, LineEnding, IsDelimiter, Prepend;
    ScanStart(text, d);
    if text == "" {
      return Err(InvalidStructure);
    }
    var records: seq<Record> := [];
    var fields: seq<string> := [];
    var start: nat, index: nat := 0, 0;
    var inQuotes, afterQuote := false, false;
    ghost var target := Parse(text, d);
    StartOfField(text[0..], d);
    while index < |text|
      invariant start <= index <= |text| && !(inQuotes && afterQuote)
      invariant inQuotes || afterQuote ==> start < index
      invariant FieldLength(text[start..], d) ==
                  Plus(index - start, RestLength(text[index..], d, start < index, inQuotes, afterQuote))
      invariant target == After(records, Records(text[start..], d, fields, |records|))
      decreases |text| - index
    {
      var outcome, next, quotes, after := Advance(text, d, index, start < index, inQuotes, afterQuote);
      if outcome == Inside {
        index, inQuotes, afterQuote := next, quotes, after;
        continue;
      }
      if outcome == Malformed {
        FieldFails(text, d, start, fields, |records|);
        return Err(InvalidStructure);
      }
      FieldDone(text, d, start, index, fields, |records|);
      fields := fields + [text[start..index]];
      if text[index] == d {
        index := index + 1;
      } else if |fields| > MAX_FIELDS || |records| >= MAX_RECORDS {
        return Err(InvalidStructure);
      } else {
        var record := Record(fields, LineEnding(text[index..]));
        index := index + |record.ending|;
        RecordDone(records, record, Records(text[index..], d, [], |records| + 1));
        records, fields := records + [record], [];
      }
      start, inQuotes, afterQuote := index, false, false;
      StartOfField(text[start..], d);
    }
    RestAtEnd(text[index..], d, start < index, inQuotes, afterQuote);
    if inQuotes {
      FieldFails(text, d, start, fields, |records|);
      return Err(InvalidStructure);
    }
    LastField(text, d, start, fields, |records|);
    AfterLast(records, []);
    if fields != [] || start < |text| || records == [] {
      fields := fields + [text[start..]];
      if |fields| > MAX_FIELDS || |records| >= MAX_RECORDS {
        return Err(InvalidStructure);
      }
      AfterLast(records, [Record(fields, "")]);
      records := records + [Record(fields, "")];
    }
    return Ok(records);
  }

  lemma ScanStart(text: string, d: char)
    ensures Parse(text, d) ==
              if text == "" then Err(InvalidStructure) else After([], Records(text[0..], d, [], 0))
  {
    hide Records;
    assert text[0..] == text;
    var rest := Records(text, d, [], 0);
    assert rest.Ok? ==> [] + rest.value == rest.value;
  }

  lemma StartOfField(s: string, d: char)
    ensures FieldLength(s, d) == Plus(0, RestLength(s, d, false, false, false))
  {
  }

  lemma RestAtEnd(s: string, d: char, started: bool, inQuotes: bool, afterQuote: bool)
    requires s == ""
    ensures RestLength(s, d, started, inQuotes, afterQuote) == if inQuotes then None else Some(0)
  {
  }

  lemma AfterLast(done: seq<Record>, last: seq<Record>)
    ensures After(done, Ok(last)) == Ok(done + last)
    ensures last == [] ==> done + last == done
  {
  }

  lemma RecordDone(done: seq<Record>, record: Record, rest: Result<seq<Record>, DocumentError>)
    ensures After(done, Prepend(record, rest)) == After(done + [record], rest)
  {
    if rest.Ok? {
      assert done + ([record] + rest.value) == (done + [record]) + rest.value;
    }
  }
}
