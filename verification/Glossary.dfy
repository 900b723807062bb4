/** Glossary rules, their validation, and their CSV form. */
module Glossary {
  import opened Texts
  import opened Strings

  const MAX_ENTRIES: nat := 256
  const MAX_TERM_BYTES: nat := 512
  const MAX_LOCALE_BYTES: nat := 64
  const MAX_DOMAIN_BYTES: nat := 128
  const MAX_NOTE_BYTES: nat := 2048
  const MAX_CSV_BYTES: nat := 4 * 1024 * 1024

  type Priority = n: int | -0x8000_0000 <= n < 0x8000_0000

  datatype Entry = Entry(
    sourceTerm: string, targetTerm: string, sourceLocale: Option<string>, targetLocale: Option<string>,
    caseSensitive: bool, wholeWord: bool, immutable: bool, domain: Option<string>, priority: Priority,
    notes: Option<string>, enabled: bool)

  datatype GlossaryError = TooManyEntries | InvalidField(name: string) | CredentialLikeValue(name: string) | ConflictingEntries

  datatype CsvError =
    | TooLarge | Malformed | MissingHeader | InvalidHeader | TooManyRows
    | InvalidRow(row: nat) | InvalidValue(row: nat) | InvalidEntry(row: nat, error: GlossaryError) | Rejected(error: GlossaryError)

  // Validation

  predicate IsTokenChar(c: char, dot: bool) {
    IsAlphanumeric(c) || c == '-' || c == '_' || (dot && c == '.')
  }

  function TokenLength(s: string, dot: bool): nat {
    if s == "" || !IsTokenChar(s[0], dot) then 0 else 1 + TokenLength(s[1..], dot)
  }

  /** Some occurrence of `prefix` opens a run of at least `minimum` token characters. */
  predicate ContainsToken(value: string, prefix: string, skip: nat, minimum: nat, dot: bool) {
    exists at: nat | at <= |value| :: Matches(value, prefix, at) && at + skip <= |value| && TokenLength(value[at + skip..], dot) >= minimum
  }

  predicate LooksLikeCredential(value: string) {
    var v := Trim(value);
    || ContainsToken(v, "sk-", 0, 20, false)
    || ContainsToken(v, "ghp_", 0, 24, false)
    || Find(v, "github_pat_", 0).Some?
    || ContainsToken(v, "Bearer ", 7, 20, true)
    || Find(v, "PRIVATE KEY-----", 0).Some?
  }

  function TextError(value: string, maximum: nat, name: string): Option<GlossaryError> {
    if Trim(value) == "" || Bytes(value) > maximum || '\0' in value then Some(InvalidField(name))
    else if LooksLikeCredential(value) then Some(CredentialLikeValue(name))
    else None
  }

  function OptionError(value: Option<string>, maximum: nat, name: string): Option<GlossaryError> {
    if value.Some? then TextError(value.value, maximum, name) else None
  }

  function OrElse<T>(first: Option<T>, second: Option<T>): Option<T> {
    if first.Some? then first else second
  }

  /** The first thing wrong with an entry. */
  function EntryError(e: Entry): Option<GlossaryError> {
    OrElse(TextError(e.sourceTerm, MAX_TERM_BYTES, "source term"),
    OrElse(TextError(e.targetTerm, MAX_TERM_BYTES, "target term"),
    OrElse(OptionError(e.sourceLocale, MAX_LOCALE_BYTES, "source locale"),
    OrElse(OptionError(e.targetLocale, MAX_LOCALE_BYTES, "target locale"),
    OrElse(OptionError(e.domain, MAX_DOMAIN_BYTES, "domain"),
           OptionError(e.notes, MAX_NOTE_BYTES, "notes"))))))
  }

  predicate Conflict(a: Entry, b: Entry) {
    && a.enabled && b.enabled && a.sourceTerm == b.sourceTerm && a.caseSensitive == b.caseSensitive
    && a.sourceLocale == b.sourceLocale && a.targetLocale == b.targetLocale && a.domain == b.domain
    && a.targetTerm != b.targetTerm
  }

  function FirstEntryError(entries: seq<Entry>): Option<GlossaryError> {
    if entries == [] then None else OrElse(EntryError(entries[0]), FirstEntryError(entries[1..]))
  }

  function GlossaryErrorOf(entries: seq<Entry>): Option<GlossaryError> {
    if |entries| > MAX_ENTRIES then Some(TooManyEntries)
    else if FirstEntryError(entries).Some? then FirstEntryError(entries)
    else if exists i, j | 0 <= i < j < |entries| :: Conflict(entries[i], entries[j]) then Some(ConflictingEntries)
    else None
  }

  // Writing

  const HEADER: seq<string> := [
    "source_term", "target_term", "source_locale", "target_locale", "case_sensitive", "whole_word", "immutable",
    "domain", "priority", "notes", "enabled"]

  function Digits(n: nat): (s: string)
    ensures s != ""
  {
    if n < 10 then [(n + 48) as char] else Digits(n / 10) + [(n % 10 + 48) as char]
  }

  function PrintPriority(n: Priority): string {
    var v: int := n;
    if v < 0 then "-" + Digits(-v) else Digits(v)
  }

  function PrintBool(b: bool): string {
    if b then "true" else "false"
  }

  function OrEmpty(value: Option<string>): string {
    if value.Some? then value.value else ""
  }

  function Row(e: Entry): (row: seq<string>)
    ensures |row| == |HEADER|
  {
    [e.sourceTerm, e.targetTerm, OrEmpty(e.sourceLocale), OrEmpty(e.targetLocale), PrintBool(e.caseSensitive),
     PrintBool(e.wholeWord), PrintBool(e.immutable), OrEmpty(e.domain), PrintPriority(e.priority), OrEmpty(e.notes),
     PrintBool(e.enabled)]
  }

  predicate NeedsQuotes(c: char) {
    c == ',' || c == '"' || c == '\n' || c == '\r'
  }

  predicate IsPlain(value: string) {
    forall k | 0 <= k < |value| :: !NeedsQuotes(value[k])
  }

  function DoubleQuotes(value: string): string {
    if value == "" then "" else (if value[0] == '"' then "\"\"" else [value[0]]) + DoubleQuotes(value[1..])
  }

  function PrintField(value: string): string {
    if IsPlain(value) then value else "\"" + DoubleQuotes(value) + "\""
  }

  function PrintFields(fields: seq<string>): string {
    if fields == [] then "\n"
    else PrintField(fields[0]) + (if |fields| == 1 then "" else ",") + PrintFields(fields[1..])
  }

  function PrintRows(rows: seq<seq<string>>): string {
    if rows == [] then "" else PrintFields(rows[0]) + PrintRows(rows[1..])
  }

  function Rows(entries: seq<Entry>): (rows: seq<seq<string>>)
    ensures |rows| == |entries|
  {
    seq(|entries|, k requires 0 <= k < |entries| => Row(entries[k]))
  }

  function ToCsv(entries: seq<Entry>): string {
    PrintRows([HEADER] + Rows(entries))
  }

  // Reading

  datatype State = State(quoted: bool, closed: bool, atStart: bool, field: string, record: seq<string>)

  function Fresh(record: seq<string>): State {
    State(false, false, true, "", record)
  }

  function Prepend(record: seq<string>, rest: Result<seq<seq<string>>, CsvError>): Result<seq<seq<string>>, CsvError> {
    if rest.Ok? then Ok([record] + rest.value) else rest
  }

  function EndField(s: string, st: State): Result<seq<seq<string>>, CsvError>
    requires s != "" && !st.quoted
    decreases |s|, 0
  {
    var record := st.record + [st.field];
    if s[0] == ',' then Records(s[1..], Fresh(record))
    else if s[0] == '\n' then Prepend(record, Records(s[1..], Fresh([])))
    else if s[0] == '\r' && |s| > 1 && s[1] == '\n' then Prepend(record, Records(s[2..], Fresh([])))
    else Err(Malformed)
  }

  /** The records of the rest of a file, read from this state. */
  function Records(s: string, st: State): Result<seq<seq<string>>, CsvError>
    decreases |s|, 1
  {
    if s == "" then
      if st.quoted then Err(Malformed)
      else if st.field != "" || st.record != [] then Ok([st.record + [st.field]])
      else Ok([])
    else if st.quoted then
      if s[0] == '"' && |s| > 1 && s[1] == '"' then Records(s[2..], st.(field := st.field + "\""))
      else if s[0] == '"' then Records(s[1..], st.(quoted := false, closed := true))
      else Records(s[1..], st.(field := st.field + [s[0]]))
    else if st.closed then EndField(s, st)
    else if s[0] == '"' && st.atStart then Records(s[1..], st.(quoted := true))
    else if NeedsQuotes(s[0]) then EndField(s, st)
    else Records(s[1..], st.(field := st.field + [s[0]], atStart := false))
  }

  function ParseRecords(source: string): Result<seq<seq<string>>, CsvError> {
    Records(if source != "" && source[0] == '\U{FEFF}' then source[1..] else source, Fresh([]))
  }

  function ParseBool(s: string): Option<bool> {
    if s == "true" then Some(true) else if s == "false" then Some(false) else None
  }

  /** An optional sign and digits within 32 bits. */
  function ParsePriority(s: string): Option<Priority> {
    var digits := if s != "" && (s[0] == '-' || s[0] == '+') then s[1..] else s;
    if digits == "" || !AllDigits(digits) then None
    else
      var n: int := Decimal(digits);
      var value := if s[0] == '-' then -n else n;
      if -0x8000_0000 <= value < 0x8000_0000 then Some(value) else None
  }

  function Present(s: string): Option<string> {
    if s == "" then None else Some(s)
  }

  function ParseEntry(record: seq<string>, row: nat): Result<Entry, CsvError>
    requires |record| == |HEADER|
  {
    var terms := OrElse(TextError(record[0], MAX_TERM_BYTES, "source term"), TextError(record[1], MAX_TERM_BYTES, "target term"));
    if terms.Some? then Err(InvalidEntry(row, terms.value))
    else
      match (ParseBool(record[4]), ParseBool(record[5]), ParseBool(record[6]), ParsePriority(record[8]), ParseBool(record[10]))
      case (Some(caseSensitive), Some(wholeWord), Some(immutable), Some(priority), Some(enabled)) =>
        var entry := Entry(record[0], record[1], Present(record[2]), Present(record[3]), caseSensitive, wholeWord, immutable,
                           Present(record[7]), priority, Present(record[9]), enabled);
        (match EntryError(entry) case Some(error) => Err(InvalidEntry(row, error)) case None => Ok(entry))
      case _ => Err(InvalidValue(row))
  }

  function ParseEntries(records: seq<seq<string>>, row: nat): Result<seq<Entry>, CsvError> {
    if records == [] then Ok([])
    else if |records[0]| != |HEADER| then Err(InvalidRow(row))
    else
      match ParseEntry(records[0], row)
      case Err(e) => Err(e)
      case Ok(entry) =>
        match ParseEntries(records[1..], row + 1)
        case Err(e) => Err(e)
        case Ok(rest) => Ok([entry] + rest)
  }

  function FromCsv(source: string): Result<seq<Entry>, CsvError> {
    if Bytes(source) > MAX_CSV_BYTES then Err(TooLarge)
    else
      match ParseRecords(source)
      case Err(e) => Err(e)
      case Ok(records) =>
        if records == [] then Err(MissingHeader)
        else if records[0] != HEADER then Err(InvalidHeader)
        else if |records| - 1 > MAX_ENTRIES then Err(TooManyRows)
        else
          match ParseEntries(records[1..], 2)
          case Err(e) => Err(e)
          case Ok(entries) =>
            match GlossaryErrorOf(entries) case Some(error) => Err(Rejected(error)) case None => Ok(entries)
  }

  // The loops

  /** The character loop of the importer, with its flags and the field and record under construction. */
  method ParseCsvRecords(source: string) returns (result: Result<seq<seq<string>>, CsvError>)
    ensures result == ParseRecords(source)
  {
    hide Records, EndField, NeedsQuotes;
    var s := if source != "" && source[0] == '\U{FEFF}' then source[1..] else source;
    var records: seq<seq<string>> := [];
    var record: seq<string> := [];
    var field := "";
    var quoted, closed, atStart := false, false, true;
    var i: nat := 0;
    ghost var target := Records(s, Fresh([]));
    assert s[0..] == s;
    assert target.Ok? ==> [] + target.value == target.value;
    while i < |s|
      invariant i <= |s| && !(quoted && closed)
      invariant target == After(records, Records(s[i..], State(quoted, closed, atStart, field, record)))
      decreases |s| - i
    {
      var c := s[i];
      var paired := i + 1 < |s| && ((c == '"' && s[i + 1] == '"') || (c == '\r' && s[i + 1] == '\n'));
      ReadStep(s, i, State(quoted, closed, atStart, field, record));
      if quoted {
        if c == '"' && paired {
          field, i := field + "\"", i + 1;
        } else if c == '"' {
          quoted, closed := false, true;
        } else {
          field := field + [c];
        }
      } else if c == ',' {
        record, field, atStart, closed := record + [field], "", true, false;
      } else if c == '\n' || (c == '\r' && paired) {
        ghost var rest := Records(s[i + (if c == '\n' then 1 else 2)..], Fresh([]));
        AfterPrepend(records, record + [field], rest);
        records, record, field, atStart, closed := records + [record + [field]], [], "", true, false;
        i := if c == '\n' then i else i + 1;
      } else if closed {
        return Err(Malformed);
      } else if c == '"' && atStart {
        quoted := true;
      } else if c == '"' || c == '\r' {
        return Err(Malformed);
      } else {
        field, atStart := field + [c], false;
      }
      i := i + 1;
    }
    ReadEnd(s[i..], State(quoted, closed, atStart, field, record));
    if quoted {
      return Err(Malformed);
    }
    if field != "" || record != [] {
      records := records + [record + [field]];
    } else {
      assert records + [] == records;
    }
    return Ok(records);
  }

  function After(done: seq<seq<string>>, rest: Result<seq<seq<string>>, CsvError>): Result<seq<seq<string>>, CsvError> {
    if rest.Ok? then Ok(done + rest.value) else rest
  }

  lemma AfterPrepend(done: seq<seq<string>>, record: seq<string>, rest: Result<seq<seq<string>>, CsvError>)
    ensures After(done, Prepend(record, rest)) == After(done + [record], rest)
  {
    if rest.Ok? {
      assert done + ([record] + rest.value) == done + [record] + rest.value;
    }
  }

  lemma ReadEnd(s: string, st: State)
    requires s == ""
    ensures Records(s, st) ==
              if st.quoted then Err(Malformed)
              else if st.field != "" || st.record != [] then Ok([st.record + [st.field]])
              else Ok([])
  {
  }

  /** One character, or a pair, taken from position `i`. */
  lemma ReadStep(s: string, i: nat, st: State)
    requires i < |s|
    ensures var c, ended := s[i], st.record + [st.field];
            var one, two := s[i + 1..], if i + 1 < |s| then s[i + 2..] else "";
            var pair := i + 1 < |s|;
            Records(s[i..], st) ==
              if st.quoted then
                if c == '"' && pair && s[i + 1] == '"' then Records(two, st.(field := st.field + "\""))
                else if c == '"' then Records(one, st.(quoted := false, closed := true))
                else Records(one, st.(field := st.field + [c]))
              else if c == ',' then Records(one, Fresh(ended))
              else if c == '\n' then Prepend(ended, Records(one, Fresh([])))
              else if c == '\r' && pair && s[i + 1] == '\n' then Prepend(ended, Records(two, Fresh([])))
              else if st.closed then Err(Malformed)
              else if c == '"' && st.atStart then Records(one, st.(quoted := true))
              else if c == '"' || c == '\r' then Err(Malformed)
              else Records(one, st.(field := st.field + [c], atStart := false))
  {
    var rest := s[i..];
    assert rest[1..] == s[i + 1..];
    if i + 1 < |s| {
      assert rest[2..] == s[i + 2..];
    }
  }
}
