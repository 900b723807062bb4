/** Which grids of fields survive being written and read again, and that translation keeps the grid. */
module CsvRebuilding {
  import opened Texts
  import opened Strings
  import opened CsvDocument

  /** A raw field as the scanner emits it. */
  predicate IsField(raw: string, d: char) {
    FieldLength(raw, d) == Some(|raw|)
  }

  predicate AreFields(fields: seq<string>, d: char) {
    forall k | 0 <= k < |fields| :: IsField(fields[k], d)
  }

  predicate IsEnding(e: string) {
    e == "\n" || e == "\r" || e == "\r\n"
  }

  /** Well-formed fields; every record but the last is terminated; the limits hold. */
  predicate IsGrid(records: seq<Record>, d: char, count: nat) {
    records != [] ==>
      && 0 < |records[0].fields| <= MAX_FIELDS && count < MAX_RECORDS
      && AreFields(records[0].fields, d)
      && (IsEnding(records[0].ending) || (records[0].ending == "" && |records| == 1))
      && IsGrid(records[1..], d, count + 1)
  }

  /** A record that is written as its line ending alone. */
  predicate IsBare(record: Record) {
    record.fields == [""]
  }

  /** No bare record is the unterminated last one, or is a line feed behind a carriage return. */
  predicate Separable(records: seq<Record>, previous: string) {
    records != [] ==>
      && (IsBare(records[0]) ==> records[0].ending != "" && !(previous == "\r" && records[0].ending == "\n"))
      && Separable(records[1..], records[0].ending)
  }

  function PrintFields(fields: seq<string>, d: char): string {
    if fields == [] then ""
    else if |fields| == 1 then fields[0]
    else fields[0] + [d] + PrintFields(fields[1..], d)
  }

  function Print(records: seq<Record>, d: char): string {
    if records == [] then ""
    else PrintFields(records[0].fields, d) + records[0].ending + Print(records[1..], d)
  }

  // Fields

  lemma {:induction false} PlainInFront(raw: string, d: char, rest: string)
    requires IsDelimiter(d) && AtFieldEnd(rest, d) && PlainLength(raw, d) == Some(|raw|)
    ensures PlainLength(raw + rest, d) == Some(|raw|)
  {
    hide IsDelimiter;
    if raw == "" {
      assert raw + rest == rest;
    } else {
      var s := raw + rest;
      assert s[0] == raw[0] && s[1..] == raw[1..] + rest;
      PlainInFront(raw[1..], d, rest);
    }
  }

  lemma {:induction false} QuotedInFront(raw: string, d: char, rest: string)
    requires IsDelimiter(d) && AtFieldEnd(rest, d) && QuotedLength(raw, d) == Some(|raw|)
    ensures QuotedLength(raw + rest, d) == Some(|raw|)
    decreases |raw|
  {
    hide QuotedLength, IsDelimiter;
    var s := raw + rest;
    QuotedStep(raw, d);
    QuotedStep(s, d);
    assert s[0] == raw[0] && s[1..] == raw[1..] + rest;
    if raw[0] != '"' {
      QuotedInFront(raw[1..], d, rest);
    } else if |raw| >= 2 && raw[1] == '"' {
      assert s[1] == raw[1] && s[2..] == raw[2..] + rest;
      QuotedInFront(raw[2..], d, rest);
    } else {
      assert raw[1..] == "" && s[1..] == rest;
      if rest != "" {
        NoQuoteAtEnd(rest, d);
      }
    }
  }

  lemma QuotedStep(s: string, d: char)
    ensures QuotedLength(s, d) ==
              if s == "" then None
              else if s[0] != '"' then Plus(1, QuotedLength(s[1..], d))
              else if |s| >= 2 && s[1] == '"' then Plus(2, QuotedLength(s[2..], d))
              else if AtFieldEnd(s[1..], d) then Some(1)
              else None
  {
    hide IsDelimiter;
    if |s| >= 2 {
      assert s[..2] == [s[0], s[1]];
    }
  }

  lemma NoQuoteAtEnd(rest: string, d: char)
    requires IsDelimiter(d) && AtFieldEnd(rest, d) && rest != ""
    ensures rest[0] != '"'
  {
  }

  /** A field is read back whatever follows its delimiter or line ending. */
  lemma FieldInFront(raw: string, d: char, rest: string)
    requires IsDelimiter(d) && AtFieldEnd(rest, d) && IsField(raw, d)
    ensures FieldLength(raw + rest, d) == Some(|raw|)
  {
    hide PlainLength, QuotedLength;
    if raw != "" && raw[0] == '"' {
      QuotedInFront(raw[1..], d, rest);
      assert (raw + rest)[1..] == raw[1..] + rest;
    } else {
      assert raw == "" ==> raw + rest == rest;
      assert raw != "" ==> (raw + rest)[0] == raw[0];
      assert rest != "" ==> rest[0] != '"';
      PlainInFront(raw, d, rest);
    }
  }

  lemma {:induction false} PlainAlone(s: string, d: char)
    requires PlainLength(s, d).Some?
    ensures var raw := s[..PlainLength(s, d).value]; PlainLength(raw, d) == Some(|raw|)
  {
    if !AtFieldEnd(s, d) {
      PlainAlone(s[1..], d);
      var n := PlainLength(s, d).value;
      assert s[..n][1..] == s[1..][..n - 1];
    }
  }

  lemma {:induction false} QuotedAlone(s: string, d: char)
    requires QuotedLength(s, d).Some?
    ensures var raw := s[..QuotedLength(s, d).value]; QuotedLength(raw, d) == Some(|raw|)
    decreases |s|
  {
    var n := QuotedLength(s, d).value;
    var raw := s[..n];
    if s[0] != '"' {
      QuotedAlone(s[1..], d);
      assert raw[1..] == s[1..][..n - 1];
    } else if StartsWith(s, "\"\"") {
      QuotedAlone(s[2..], d);
      assert raw[2..] == s[2..][..n - 2];
      assert raw[..2] == s[..2];
    }
  }

  /** What the scanner takes for a field is one on its own. */
  lemma FieldAlone(s: string, d: char)
    requires FieldLength(s, d).Some?
    ensures IsField(s[..FieldLength(s, d).value], d)
  {
    var n := FieldLength(s, d).value;
    if s != "" && s[0] == '"' {
      QuotedAlone(s[1..], d);
      assert s[..n][1..] == s[1..][..n - 1];
    } else {
      PlainAlone(s, d);
    }
  }

  // Encoding and decoding

  lemma {:induction false} DoubledUndoubles(t: string)
    ensures Undouble(Double(t)) == Ok(t)
  {
    if t != "" {
      DoubledUndoubles(t[1..]);
      var s, rest := Double(t), Double(t[1..]);
      assert t == [t[0]] + t[1..];
      if t[0] == '"' {
        assert s[0] == '"' && s[1] == '"' && s[2..] == rest;
      } else {
        assert s[0] == t[0] && s[1..] == rest;
      }
    }
  }

  lemma {:induction false} DoubledIsQuoted(t: string, d: char)
    requires IsDelimiter(d)
    ensures QuotedLength(Double(t) + "\"", d) == Some(|Double(t)| + 1)
  {
    hide QuotedLength;
    var s := Double(t) + "\"";
    QuotedStep(s, d);
    if t == "" {
      assert s[1..] == "";
    } else {
      DoubledIsQuoted(t[1..], d);
      var rest := Double(t[1..]) + "\"";
      if t[0] == '"' {
        assert s[..2] == "\"\"" && s[2..] == rest;
      } else {
        assert s[0] == t[0] && s[1..] == rest;
      }
    }
  }

  lemma {:induction false} PlainTextIsField(t: string, d: char)
    requires d !in t && '"' !in t && '\r' !in t && '\n' !in t
    ensures PlainLength(t, d) == Some(|t|)
  {
    if t != "" {
      PlainTextIsField(t[1..], d);
    }
  }

  /** Every encoded translation is a field that decodes to the translation. */
  lemma EncodedDecodes(raw: string, translated: string, d: char)
    requires IsDelimiter(d)
    ensures var after := EncodeField(raw, translated, d);
            IsField(after, d) && DecodeField(after, d) == Ok(translated) &&
            (translated != "" ==> after != "")
  {
    var after := EncodeField(raw, translated, d);
    if (raw != "" && raw[0] == '"') || d in translated || '"' in translated || '\r' in translated || '\n' in translated {
      assert after[1..|after| - 1] == Double(translated);
      assert after[1..] == Double(translated) + "\"";
      DoubledUndoubles(translated);
      DoubledIsQuoted(translated, d);
      assert after[0] == '"' && after[|after| - 1] == '"';
    } else {
      PlainTextIsField(translated, d);
      assert translated != "" ==> translated[0] in translated;
    }
  }

  lemma {:induction false} QuotedFieldUndoubles(raw: string, d: char)
    requires QuotedLength(raw, d) == Some(|raw|)
    ensures raw[|raw| - 1] == '"' && Undouble(raw[..|raw| - 1]).Ok?
    decreases |raw|
  {
    var inner := raw[..|raw| - 1];
    if raw[0] != '"' {
      QuotedFieldUndoubles(raw[1..], d);
      assert inner[1..] == raw[1..][..|raw| - 2];
    } else if StartsWith(raw, "\"\"") {
      QuotedFieldUndoubles(raw[2..], d);
      assert raw[1] == raw[..2][1];
      assert inner[2..] == raw[2..][..|raw| - 3];
    }
  }

  lemma {:induction false} PlainFieldIsClean(raw: string, d: char)
    requires PlainLength(raw, d) == Some(|raw|)
    ensures '"' !in raw && d !in raw && '\r' !in raw && '\n' !in raw
  {
    if raw != "" {
      PlainFieldIsClean(raw[1..], d);
    }
  }

  /** Every field the scanner emits decodes. */
  lemma FieldDecodes(raw: string, d: char)
    requires IsField(raw, d)
    ensures DecodeField(raw, d).Ok?
  {
    if raw != "" && raw[0] == '"' {
      QuotedFieldUndoubles(raw[1..], d);
      assert raw[1..][..|raw| - 2] == raw[1..|raw| - 1];
    } else {
      PlainFieldIsClean(raw, d);
    }
  }

  // Records

  lemma EndingInFront(ending: string, rest: string)
    requires IsEnding(ending) && !(ending == "\r" && rest != "" && rest[0] == '\n')
    ensures LineEnding(ending + rest) == ending
  {
    var s := ending + rest;
    assert s[..|ending|] == ending;
    if |s| >= 2 {
      assert s[..2][0] == s[0] && s[..2][1] == s[1];
    }
  }

  /** The unread fields of a record and the rest of the text behind it. */
  predicate RecordFollows(fields: seq<string>, ending: string, rest: string) {
    if ending == "" then rest == ""
    else IsEnding(ending) && !(ending == "\r" && rest != "" && rest[0] == '\n')
  }

  lemma OneFieldLeft(raw: string, ending: string, rest: string, d: char, done: seq<string>, count: nat)
    requires IsDelimiter(d) && IsField(raw, d) && |done| < MAX_FIELDS && count < MAX_RECORDS
    requires RecordFollows(done + [raw], ending, rest)
    requires !(done == [] && raw == "" && ending == "")
    ensures Records(raw + ending + rest, d, done, count) ==
              if ending == "" then Ok([Record(done + [raw], "")])
              else Prepend(Record(done + [raw], ending), Records(rest, d, [], count + 1))
  {
    hide FieldLength, LineEnding, IsField;
    var s, tail := raw + ending + rest, ending + rest;
    assert s == raw + tail;
    assert ending != "" ==> tail[0] == ending[0];
    FieldIsField(raw, d);
    FieldInFront(raw, d, tail);
    assert s[..|raw|] == raw && s[|raw|..] == tail;
    if ending == "" {
      assert s == raw;
    } else {
      EndingInFront(ending, rest);
      assert s[|raw|] == ending[0];
      assert s[|raw| + |ending|..] == rest;
    }
  }

  lemma FieldIsField(raw: string, d: char)
    ensures IsField(raw, d) <==> FieldLength(raw, d) == Some(|raw|)
  {
  }

  lemma DelimitedField(raw: string, rest: string, d: char, done: seq<string>, count: nat)
    requires IsDelimiter(d) && IsField(raw, d)
    ensures Records(raw + [d] + rest, d, done, count) == Records(rest, d, done + [raw], count)
  {
    hide FieldLength, LineEnding, IsField;
    var s, tail := raw + [d] + rest, [d] + rest;
    assert s == raw + tail && tail[0] == d;
    FieldIsField(raw, d);
    FieldInFront(raw, d, tail);
    assert s[..|raw|] == raw && s[|raw|] == d && s[|raw| + 1..] == rest;
  }

  lemma {:induction false} RecordReads(fields: seq<string>, ending: string, rest: string, d: char, done: seq<string>, count: nat)
    requires IsDelimiter(d) && fields != [] && AreFields(fields, d)
    requires |done| + |fields| <= MAX_FIELDS && count < MAX_RECORDS
    requires RecordFollows(done + fields, ending, rest)
    requires !(done + fields == [""] && ending == "")
    ensures Records(PrintFields(fields, d) + ending + rest, d, done, count) ==
              if ending == "" then Ok([Record(done + fields, "")])
              else Prepend(Record(done + fields, ending), Records(rest, d, [], count + 1))
    decreases |fields|
  {
    hide Records, IsField;
    if |fields| == 1 {
      assert fields == [fields[0]];
      OneFieldLeft(fields[0], ending, rest, d, done, count);
    } else {
      var more := PrintFields(fields[1..], d) + ending + rest;
      assert PrintFields(fields, d) + ending + rest == fields[0] + [d] + more;
      DelimitedField(fields[0], more, d, done, count);
      assert done + [fields[0]] + fields[1..] == done + fields;
      assert |done + fields| > 1;
      RecordReads(fields[1..], ending, rest, d, done + [fields[0]], count);
    }
  }

  /** Printed fields do not open with a line feed, and only the fields of a bare record print as nothing. */
  lemma FieldsOpen(fields: seq<string>, d: char)
    requires IsDelimiter(d) && fields != [] && AreFields(fields, d)
    ensures PrintFields(fields, d) == "" ==> fields == [""]
    ensures PrintFields(fields, d) != "" ==> PrintFields(fields, d)[0] != '\n'
  {
    hide IsField;
    assert IsField(fields[0], d);
    FieldOpens(fields[0], d);
    if |fields| == 1 {
      assert fields == [fields[0]];
    } else if fields[0] == "" {
      assert PrintFields(fields, d)[0] == d;
    }
  }

  /** A printed grid does not open with a line feed unless its first record is bare. */
  lemma PrintOpens(records: seq<Record>, d: char, count: nat)
    requires IsDelimiter(d) && IsGrid(records, d, count)
    ensures Print(records, d) != "" && Print(records, d)[0] == '\n' ==>
              records != [] && IsBare(records[0]) && records[0].ending == "\n"
  {
    hide AreFields, PrintFields;
    if records != [] {
      FieldsOpen(records[0].fields, d);
      var fields, ending, tail := PrintFields(records[0].fields, d), records[0].ending, Print(records[1..], d);
      assert Print(records, d) == fields + ending + tail;
      assert fields != "" ==> (fields + ending + tail)[0] == fields[0];
      assert fields == "" && ending != "" ==> (fields + ending + tail)[0] == ending[0];
      if records[0].ending == "" {
        assert records[1..] == [];
      }
    }
  }

  lemma FieldOpens(raw: string, d: char)
    requires IsField(raw, d)
    ensures raw != "" ==> raw[0] != '\n'
  {
  }

  /** A separable grid is read back as it was written. */
  lemma {:induction false} GridReads(records: seq<Record>, d: char, count: nat, previous: string)
    requires IsDelimiter(d) && IsGrid(records, d, count) && Separable(records, previous)
    requires records == [] ==> count > 0
    ensures Records(Print(records, d), d, [], count) == Ok(records)
    decreases |records|
  {
    hide Records, IsField;
    if records == [] {
      NothingReads(d, count);
    } else {
      var record, rest := records[0], Print(records[1..], d);
      PrintOpens(records[1..], d, count + 1);
      assert [] + record.fields == record.fields;
      if record.ending == "" {
        assert records == [record];
      } else {
        GridReads(records[1..], d, count + 1, record.ending);
        assert records == [record] + records[1..];
      }
      RecordReads(record.fields, record.ending, rest, d, [], count);
    }
  }

  lemma NothingReads(d: char, count: nat)
    requires count > 0
    ensures Records("", d, [], count) == Ok([])
  {
  }

  lemma SeparableIsNotEmpty(records: seq<Record>, d: char)
    requires IsDelimiter(d) && records != [] && IsGrid(records, d, 0) && Separable(records, "")
    ensures Print(records, d) != ""
  {
    var fields := records[0].fields;
    if |fields| == 1 {
      assert fields == [fields[0]];
    }
  }

  // What the scanner returns

  /** `records` are written as `s` behind `fields` of an unfinished record, and are separable. */
  predicate Sound(records: seq<Record>, s: string, d: char, fields: seq<string>, count: nat) {
    if records == [] then s == "" && fields == []
    else
      var first := records[0];
      && SoundFirst(first, s, d, fields, Print(records[1..], d))
      && count < MAX_RECORDS && (first.ending == "" ==> |records| == 1)
      && IsGrid(records[1..], d, count + 1) && Separable(records[1..], first.ending)
  }

  predicate SoundFirst(first: Record, s: string, d: char, fields: seq<string>, rest: string) {
    && |fields| < |first.fields| <= MAX_FIELDS && first.fields[..|fields|] == fields
    && s == PrintFields(first.fields[|fields|..], d) + first.ending + rest
    && AreFields(first.fields, d)
    && (IsEnding(first.ending) || first.ending == "")
    && (IsBare(first) ==> first.ending != "" && s != "" && first.ending[0] == s[0])
  }

  lemma SoundIsGrid(records: seq<Record>, s: string, d: char, count: nat, previous: string)
    requires Sound(records, s, d, [], count)
    requires previous == "\r" ==> s == "" || s[0] != '\n'
    ensures IsGrid(records, d, count) && Separable(records, previous) && Print(records, d) == s
  {
    if records != [] {
      assert records[0].fields[0..] == records[0].fields;
    }
  }

  lemma EndingIsEnding(s: string)
    requires s != "" && (s[0] == '\r' || s[0] == '\n')
    ensures var e := LineEnding(s);
            IsEnding(e) && e[0] == s[0] && s == e + s[|e|..] && (e == "\r" ==> s[|e|..] == "" || s[|e|..][0] != '\n')
  {
    var e := LineEnding(s);
    if |s| >= 2 {
      assert s[..2] == [s[0], s[1]];
    }
    assert s[..|e|] == e;
  }

  /** The delimiter was met: the record goes on. */
  lemma SoundThroughDelimiter(records: seq<Record>, s: string, d: char, fields: seq<string>, count: nat, n: nat)
    requires n < |s| && s[n] == d && Sound(records, s[n + 1..], d, fields + [s[..n]], count)
    ensures records != [] && Sound(records, s, d, fields, count)
  {
    hide AreFields, IsGrid, Separable, Print;
    var first, all := records[0], fields + [s[..n]];
    var rest := first.fields[|all|..];
    assert first.fields[..|all|] == all;
    assert first.fields[|fields|] == first.fields[..|all|][|fields|] == s[..n];
    assert first.fields[|fields|..] == [s[..n]] + rest;
    assert first.fields[..|fields|] == first.fields[..|all|][..|fields|] == fields;
    assert ([s[..n]] + rest)[1..] == rest;
    assert PrintFields([s[..n]] + rest, d) == s[..n] + [d] + PrintFields(rest, d);
    var more := s[n + 1..];
    assert s == s[..n] + [d] + more;
    var tail := Print(records[1..], d);
    assert s == PrintFields(first.fields[|fields|..], d) + first.ending + tail;
  }

  lemma AddedField(fields: seq<string>, s: string, d: char)
    requires AreFields(fields, d) && FieldLength(s, d).Some?
    ensures AreFields(fields + [s[..FieldLength(s, d).value]], d)
  {
    FieldAlone(s, d);
  }

  lemma SoundAtEnd(s: string, d: char, fields: seq<string>, count: nat)
    requires AreFields(fields + [s], d) && |fields| < MAX_FIELDS && count < MAX_RECORDS
    requires s != "" || fields != []
    ensures Sound([Record(fields + [s], "")], s, d, fields, count)
  {
    hide AreFields;
    var record := Record(fields + [s], "");
    assert record.fields[|fields|..] == [s];
    assert [record][1..] == [];
    assert PrintFields([s], d) + "" + "" == s;
    assert record.fields[|fields|] == s;
  }

  lemma SoundAtLineEnd(records: seq<Record>, s: string, d: char, fields: seq<string>, count: nat, n: nat)
    requires n < |s| && s[n] != d && EndsField(s[n], d) && AreFields(fields + [s[..n]], d)
    requires |fields| < MAX_FIELDS && count < MAX_RECORDS
    requires Sound(records, s[n + |LineEnding(s[n..])|..], d, [], count + 1)
    ensures Sound([Record(fields + [s[..n]], LineEnding(s[n..]))] + records, s, d, fields, count)
  {
    hide AreFields, IsGrid, Separable, LineEnding, Sound, Print;
    var ending := LineEnding(s[n..]);
    var first := Record(fields + [s[..n]], ending);
    var rest := s[n + |ending|..];
    EndingIsEnding(s[n..]);
    assert s[n..][|ending|..] == rest;
    SoundIsGrid(records, rest, d, count + 1, ending);
    assert first.fields[|fields|..] == [s[..n]];
    assert s == s[..n] + s[n..] == s[..n] + ending + rest;
    if IsBare(first) {
      assert first.fields[|fields|] == s[..n];
      assert |fields| == 0 && n == 0;
      assert s[0..] == s;
    }
    assert ([first] + records)[1..] == records;
    SoundFrom(first, records, s, d, fields, count);
  }

  lemma SoundFrom(first: Record, records: seq<Record>, s: string, d: char, fields: seq<string>, count: nat)
    requires SoundFirst(first, s, d, fields, Print(records, d)) && first.ending != "" && count < MAX_RECORDS
    requires IsGrid(records, d, count + 1) && Separable(records, first.ending)
    ensures Sound([first] + records, s, d, fields, count)
  {
    assert ([first] + records)[1..] == records;
  }

  /** What the scanner did with the first field of an accepted text. */
  lemma RecordsFront(s: string, d: char, fields: seq<string>, count: nat)
    requires Records(s, d, fields, count).Ok? && !(s == "" && fields == [] && count > 0)
    ensures FieldLength(s, d).Some?
    ensures var n := FieldLength(s, d).value;
            var all, result := fields + [s[..n]], Records(s, d, fields, count);
            if n < |s| && s[n] == d then result == Records(s[n + 1..], d, all, count)
            else
              |fields| < MAX_FIELDS && count < MAX_RECORDS &&
              if n == |s| then result == Ok([Record(all, "")])
              else
                var ending := LineEnding(s[n..]);
                var rest := Records(s[n + |ending|..], d, [], count + 1);
                rest.Ok? && result == Ok([Record(all, ending)] + rest.value)
  {
    hide FieldLength, LineEnding;
  }

  /** Whatever the scanner returns is printed as the text it read and can be told apart again. */
  lemma {:induction false} ScanIsSound(s: string, d: char, fields: seq<string>, count: nat, records: seq<Record>)
    requires IsDelimiter(d) && AreFields(fields, d) && Records(s, d, fields, count) == Ok(records)
    requires s != "" || fields != [] || count > 0
    ensures Sound(records, s, d, fields, count)
    decreases |s|
  {
    hide AreFields, Sound, LineEnding, FieldLength, Records;
    if s == "" && fields == [] {
      NothingReads(d, count);
      NothingIsSound(d, count);
    } else {
      RecordsFront(s, d, fields, count);
      var n := FieldLength(s, d).value;
      AddedField(fields, s, d);
      if n < |s| && s[n] == d {
        ScanIsSound(s[n + 1..], d, fields + [s[..n]], count, records);
        SoundThroughDelimiter(records, s, d, fields, count, n);
      } else if n == |s| {
        assert s[..n] == s;
        SoundAtEnd(s, d, fields, count);
      } else {
        assert s[n..][0] == s[n];
        var rest := s[n + |LineEnding(s[n..])|..];
        NoFields(d);
        ScanIsSound(rest, d, [], count + 1, Records(rest, d, [], count + 1).value);
        SoundAtLineEnd(Records(rest, d, [], count + 1).value, s, d, fields, count, n);
      }
    }
  }

  lemma NothingIsSound(d: char, count: nat)
    ensures Sound([], "", d, [], count)
  {
  }

  lemma NoFields(d: char)
    ensures AreFields([], d)
  {
  }

  // Translation

  /** The fields of the chosen columns are replaced by the encoded translations. */
  function TranslateFields(fields: seq<string>, d: char, chosen: set<nat>, translation: nat -> string): (r: seq<string>)
    ensures |r| == |fields|
  {
    seq(|fields|, k requires 0 <= k < |fields| =>
      if k in chosen then EncodeField(fields[k], translation(k), d) else fields[k])
  }

  /** The grid after translation: line endings and all other columns stay. */
  function Translate(records: seq<Record>, d: char, chosen: set<nat>, translation: (nat, nat) -> string, row: nat): (r: seq<Record>)
    ensures |r| == |records|
  {
    if records == [] then []
    else
      [Record(TranslateFields(records[0].fields, d, chosen, (k: nat) => translation(row, k)), records[0].ending)] +
      Translate(records[1..], d, chosen, translation, row + 1)
  }

  /** Each cell after translation decodes to its translation, or is the cell that it was. */
  lemma {:induction false} CellsOfTranslation(records: seq<Record>, d: char, chosen: set<nat>, translation: (nat, nat) -> string, row: nat,
                                              i: nat, k: nat)
    requires IsDelimiter(d) && i < |records| && k < |records[i].fields|
    ensures var after := Translate(records, d, chosen, translation, row)[i];
            && after.ending == records[i].ending && |after.fields| == |records[i].fields|
            && if k in chosen then DecodeField(after.fields[k], d) == Ok(translation(row + i, k))
               else after.fields[k] == records[i].fields[k]
  {
    if i == 0 {
      EncodedDecodes(records[0].fields[k], translation(row, k), d);
    } else {
      CellsOfTranslation(records[1..], d, chosen, translation, row + 1, i - 1, k);
    }
  }

  lemma TranslatedAreFields(fields: seq<string>, d: char, chosen: set<nat>, translation: nat -> string)
    requires IsDelimiter(d) && AreFields(fields, d)
    ensures AreFields(TranslateFields(fields, d, chosen, translation), d)
  {
    hide IsField, EncodeField;
    forall k | 0 <= k < |fields|
      ensures IsField(TranslateFields(fields, d, chosen, translation)[k], d)
    {
      EncodedDecodes(fields[k], translation(k), d);
    }
  }

  lemma {:induction false} TranslatedIsGrid(records: seq<Record>, d: char, chosen: set<nat>, translation: (nat, nat) -> string, row: nat)
    requires IsDelimiter(d) && IsGrid(records, d, row)
    ensures IsGrid(Translate(records, d, chosen, translation, row), d, row)
  {
    hide AreFields, TranslateFields;
    if records != [] {
      TranslatedAreFields(records[0].fields, d, chosen, (k: nat) => translation(row, k));
      TranslatedIsGrid(records[1..], d, chosen, translation, row + 1);
    }
  }

  lemma {:induction false} FilledStaysSeparable(records: seq<Record>, d: char, chosen: set<nat>, translation: (nat, nat) -> string, row: nat,
                                                previous: string)
    requires IsDelimiter(d) && Separable(records, previous)
    requires forall i: nat, k: nat :: translation(i, k) != ""
    ensures Separable(Translate(records, d, chosen, translation, row), previous)
  {
    if records != [] {
      var fields := records[0].fields;
      FilledStaysSeparable(records[1..], d, chosen, translation, row + 1, records[0].ending);
      if |fields| == 1 {
        EncodedDecodes(fields[0], translation(row, 0), d);
        assert fields == [fields[0]];
      }
    }
  }

  /** A grid is read back as it was written exactly when it is separable. */
  lemma PrintReadsBack(records: seq<Record>, d: char)
    requires IsDelimiter(d) && records != [] && IsGrid(records, d, 0)
    ensures Parse(Print(records, d), d) == Ok(records) <==> Separable(records, "")
  {
    hide IsGrid, Records, Sound, AreFields;
    var text := Print(records, d);
    if Separable(records, "") {
      SeparableIsNotEmpty(records, d);
      GridReads(records, d, 0, "");
    } else if Parse(text, d) == Ok(records) {
      NoFields(d);
      ScanIsSound(text, d, [], 0, records);
      SoundIsGrid(records, text, d, 0, "");
    }
  }

  /** Every accepted text, every choice of columns and translations: the rebuilt text parses with the
      source's delimiter to the translated grid exactly when that grid is separable, and it is
      separable when no translation is empty. */
  lemma TranslationKeepsGrid(text: string, d: char, chosen: set<nat>, translation: (nat, nat) -> string)
    requires IsDelimiter(d) && Parse(text, d).Ok?
    ensures Print(Parse(text, d).value, d) == text && IsGrid(Parse(text, d).value, d, 0)
    ensures var after := Translate(Parse(text, d).value, d, chosen, translation, 0);
            && (Parse(Print(after, d), d) == Ok(after) <==> Separable(after, ""))
            && ((forall i: nat, k: nat :: translation(i, k) != "") ==> Separable(after, ""))
  {
    hide IsGrid, Records, Sound, AreFields, Print, Separable;
    var records := Parse(text, d).value;
    NoFields(d);
    ScanIsSound(text, d, [], 0, records);
    SoundIsGrid(records, text, d, 0, "");
    var after := Translate(records, d, chosen, translation, 0);
    TranslatedIsGrid(records, d, chosen, translation, 0);
    PrintNothing(records, d);
    PrintReadsBack(after, d);
    if forall i: nat, k: nat :: translation(i, k) != "" {
      FilledStaysSeparable(records, d, chosen, translation, 0, "");
    }
  }

  lemma PrintNothing(records: seq<Record>, d: char)
    requires Print(records, d) != ""
    ensures records != []
  {
  }

  lemma {:induction false} GridHasFields(records: seq<Record>, d: char, count: nat, i: nat, k: nat)
    requires IsGrid(records, d, count) && i < |records| && k < |records[i].fields|
    ensures IsField(records[i].fields[k], d)
  {
    if i > 0 {
      GridHasFields(records[1..], d, count + 1, i - 1, k);
    }
  }

  /** Every cell of every accepted text has a text to translate. */
  lemma EveryCellDecodes(text: string, d: char, i: nat, k: nat)
    requires IsDelimiter(d) && Parse(text, d).Ok?
    requires i < |Parse(text, d).value| && k < |Parse(text, d).value[i].fields|
    ensures DecodeField(Parse(text, d).value[i].fields[k], d).Ok?
  {
    hide Parse, DecodeField, IsGrid, Print, Translate;
    TranslationKeepsGrid(text, d, {}, (i, k) => "");
    GridHasFields(Parse(text, d).value, d, 0, i, k);
    FieldDecodes(Parse(text, d).value[i].fields[k], d);
  }
}
