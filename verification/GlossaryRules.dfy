/** Which glossaries are valid and which files are imported as which entries, said over fields. */
module GlossaryRules {
  import opened Texts
  import opened Strings
  import opened Glossary

  // Valid glossaries

  /** Something is shown, nothing is a NUL, and the bytes keep the limit. */
  predicate IsShort(value: string, maximum: nat) {
    (exists k | 0 <= k < |value| :: !IsSpace(value[k])) && '\0' !in value && Bytes(value) <= maximum
  }

  predicate IsAccepted(value: string, maximum: nat) {
    IsShort(value, maximum) && !LooksLikeCredential(value)
  }

  predicate IsAbsentOr(value: Option<string>, maximum: nat) {
    value.Some? ==> IsAccepted(value.value, maximum)
  }

  predicate IsSoundEntry(e: Entry) {
    && IsAccepted(e.sourceTerm, 512) && IsAccepted(e.targetTerm, 512)
    && IsAbsentOr(e.sourceLocale, 64) && IsAbsentOr(e.targetLocale, 64)
    && IsAbsentOr(e.domain, 128) && IsAbsentOr(e.notes, 2048)
  }

  /** Enabled entries for the same term under the same conditions translate it alike. */
  predicate Agree(a: Entry, b: Entry) {
    a.enabled && b.enabled
    && (a.sourceTerm, a.caseSensitive, a.sourceLocale, a.targetLocale, a.domain)
       == (b.sourceTerm, b.caseSensitive, b.sourceLocale, b.targetLocale, b.domain)
    ==> a.targetTerm == b.targetTerm
  }

  predicate IsValid(entries: seq<Entry>) {
    && |entries| <= 256
    && (forall k | 0 <= k < |entries| :: IsSoundEntry(entries[k]))
    && forall i, j | 0 <= i < |entries| && 0 <= j < |entries| :: Agree(entries[i], entries[j])
  }

  /** The text of a field by its name, if the entry has one. */
  function FieldOf(e: Entry, name: string): Option<string> {
    if name == "source term" then Some(e.sourceTerm)
    else if name == "target term" then Some(e.targetTerm)
    else if name == "source locale" then e.sourceLocale
    else if name == "target locale" then e.targetLocale
    else if name == "domain" then e.domain
    else if name == "notes" then e.notes
    else None
  }

  function LimitOf(name: string): nat {
    if name == "source term" || name == "target term" then 512
    else if name == "source locale" || name == "target locale" then 64
    else if name == "domain" then 128
    else 2048
  }

  /** What the error says about the entries is so. */
  predicate IsTrueOf(entries: seq<Entry>, error: GlossaryError) {
    match error
    case TooManyEntries => |entries| > 256
    case InvalidField(name) =>
      exists k | 0 <= k < |entries| :: FieldOf(entries[k], name).Some? && !IsShort(FieldOf(entries[k], name).value, LimitOf(name))
    case CredentialLikeValue(name) =>
      exists k | 0 <= k < |entries| :: FieldOf(entries[k], name).Some? && LooksLikeCredential(FieldOf(entries[k], name).value)
    case ConflictingEntries =>
      exists i, j | 0 <= i < |entries| && 0 <= j < |entries| :: !Agree(entries[i], entries[j])
  }

  lemma {:induction false} TrimStartShows(s: string)
    ensures TrimStart(s) == "" <==> IsBlankText(s)
    ensures TrimStart(s) != "" ==> !IsSpace(TrimStart(s)[0])
  {
    if s != "" && IsSpace(s[0]) {
      TrimStartShows(s[1..]);
      var rest := s[1..];
      assert IsBlankText(rest) ==> forall k | 1 <= k < |s| :: s[k] == rest[k - 1];
      assert IsBlankText(s) ==> forall k | 0 <= k < |rest| :: rest[k] == s[k + 1];
    } else if s != "" {
      assert !IsBlankText(s);
    }
  }

  lemma {:induction false} TrimEndKeeps(s: string)
    requires s != "" && !IsSpace(s[0])
    ensures TrimEnd(s) != ""
  {
    if IsSpace(s[|s| - 1]) {
      TrimEndKeeps(s[..|s| - 1]);
    }
  }

  lemma TrimShows(s: string)
    ensures Trim(s) != "" <==> exists k | 0 <= k < |s| :: !IsSpace(s[k])
  {
    TrimStartShows(s);
    if TrimStart(s) != "" {
      TrimEndKeeps(TrimStart(s));
    }
  }

  lemma TextErrorIs(value: string, maximum: nat, name: string)
    ensures TextError(value, maximum, name) == None <==> IsAccepted(value, maximum)
    ensures var e := TextError(value, maximum, name);
            e.Some? ==> (e.value == InvalidField(name) && !IsShort(value, maximum)) ||
                        (e.value == CredentialLikeValue(name) && LooksLikeCredential(value))
  {
    hide Trim, Bytes, LooksLikeCredential;
    TrimShows(value);
  }

  lemma EntryErrorIs(e: Entry)
    ensures EntryError(e) == None <==> IsSoundEntry(e)
    ensures EntryError(e).Some? ==> IsTrueOf([e], EntryError(e).value)
  {
    hide TextError, IsShort, IsAccepted, LooksLikeCredential;
    AcceptedIs(e.sourceTerm, 512, "source term");
    AcceptedIs(e.targetTerm, 512, "target term");
    OptionIs(e.sourceLocale, 64, "source locale");
    OptionIs(e.targetLocale, 64, "target locale");
    OptionIs(e.domain, 128, "domain");
    OptionIs(e.notes, 2048, "notes");
    assert [e][0] == e;
  }

  lemma AcceptedIs(value: string, maximum: nat, name: string)
    ensures TextError(value, maximum, name) == None <==> IsAccepted(value, maximum)
    ensures var e := TextError(value, maximum, name);
            e.Some? ==> (e.value == InvalidField(name) && !IsShort(value, maximum)) ||
                        (e.value == CredentialLikeValue(name) && LooksLikeCredential(value))
  {
    TextErrorIs(value, maximum, name);
  }

  lemma OptionIs(value: Option<string>, maximum: nat, name: string)
    ensures OptionError(value, maximum, name) == None <==> IsAbsentOr(value, maximum)
    ensures var e := OptionError(value, maximum, name);
            e.Some? ==> value.Some? && ((e.value == InvalidField(name) && !IsShort(value.value, maximum)) ||
                                        (e.value == CredentialLikeValue(name) && LooksLikeCredential(value.value)))
  {
    hide TextError, IsShort, LooksLikeCredential, IsAccepted;
    if value.Some? {
      TextErrorIs(value.value, maximum, name);
    }
  }

  predicate AreSound(entries: seq<Entry>) {
    forall k | 0 <= k < |entries| :: IsSoundEntry(entries[k])
  }

  lemma SoundSplits(first: Entry, rest: seq<Entry>)
    ensures AreSound([first] + rest) <==> IsSoundEntry(first) && AreSound(rest)
  {
    hide IsSoundEntry;
    var all := [first] + rest;
    if AreSound(all) {
      assert all[0] == first;
      assert forall k | 0 <= k < |rest| :: rest[k] == all[k + 1];
    }
    if AreSound(rest) {
      assert forall k | 1 <= k < |all| :: all[k] == rest[k - 1];
    }
  }

  lemma {:induction false} FirstErrorIs(entries: seq<Entry>)
    ensures FirstEntryError(entries) == None <==> AreSound(entries)
    ensures var e := FirstEntryError(entries);
            e.Some? ==> (e.value.InvalidField? || e.value.CredentialLikeValue?) && IsTrueOf(entries, e.value)
  {
    hide EntryError, IsSoundEntry, AreSound, IsTrueOf;
    if entries == [] {
      NothingIsSound();
    } else {
      var first, rest := entries[0], entries[1..];
      assert entries == [first] + rest;
      SoundSplits(first, rest);
      EntryErrorIs(first);
      EntryErrorKind(first);
      FirstErrorIs(rest);
      if EntryError(first).Some? {
        TrueOfMore([first], entries, EntryError(first).value, 0);
      } else if FirstEntryError(rest).Some? {
        TrueOfMore(rest, entries, FirstEntryError(rest).value, 1);
      }
    }
  }

  lemma NothingIsSound()
    ensures AreSound([])
  {
  }

  lemma EntryErrorKind(e: Entry)
    ensures EntryError(e).Some? ==> EntryError(e).value.InvalidField? || EntryError(e).value.CredentialLikeValue?
  {
  }

  lemma TrueOfMore(some: seq<Entry>, all: seq<Entry>, error: GlossaryError, shift: nat)
    requires (error.InvalidField? || error.CredentialLikeValue?) && IsTrueOf(some, error)
    requires shift + |some| <= |all| && forall k | 0 <= k < |some| :: some[k] == all[k + shift]
    ensures IsTrueOf(all, error)
  {
    hide FieldOf, LimitOf, IsShort, LooksLikeCredential;
    var name := error.name;
    if error.InvalidField? {
      var k :| 0 <= k < |some| && FieldOf(some[k], name).Some? && !IsShort(FieldOf(some[k], name).value, LimitOf(name));
      assert some[k] == all[k + shift];
    } else {
      var k :| 0 <= k < |some| && FieldOf(some[k], name).Some? && LooksLikeCredential(FieldOf(some[k], name).value);
      assert some[k] == all[k + shift];
    }
  }

  /** A glossary is accepted exactly when it is valid, and a refusal says what is wrong with it. */
  lemma AcceptedIffValid(entries: seq<Entry>)
    ensures GlossaryErrorOf(entries) == None <==> IsValid(entries)
    ensures GlossaryErrorOf(entries).Some? ==> IsTrueOf(entries, GlossaryErrorOf(entries).value)
  {
    hide FirstEntryError, IsSoundEntry;
    FirstErrorIs(entries);
    forall i, j | 0 <= i < j < |entries|
      ensures Conflict(entries[i], entries[j]) <==> !(Agree(entries[i], entries[j]) && Agree(entries[j], entries[i]))
    {
    }
    forall i, j | 0 <= i < |entries| && 0 <= j < |entries| && !Agree(entries[i], entries[j])
      ensures i != j && (if i < j then Conflict(entries[i], entries[j]) else Conflict(entries[j], entries[i]))
    {
    }
  }

  // Imported files

  /** Digits with an optional sign. */
  predicate WritesPriority(s: string, p: Priority) {
    || (s != "" && p >= 0 && Writes(s, p as int))
    || (|s| > 1 && s[0] == '+' && p >= 0 && Writes(s[1..], p as int))
    || (|s| > 1 && s[0] == '-' && p <= 0 && Writes(s[1..], -(p as int)))
  }

  predicate WritesBool(s: string, b: bool) {
    s == if b then "true" else "false"
  }

  /** An empty field stands for none. */
  predicate WritesOption(s: string, value: Option<string>) {
    if s == "" then value == None else value == Some(s)
  }

  /** The eleven fields of a line, in the order of the header. */
  predicate WritesEntry(r: seq<string>, e: Entry) {
    && |r| == 11
    && r[0] == e.sourceTerm && r[1] == e.targetTerm
    && WritesOption(r[2], e.sourceLocale) && WritesOption(r[3], e.targetLocale)
    && WritesBool(r[4], e.caseSensitive) && WritesBool(r[5], e.wholeWord) && WritesBool(r[6], e.immutable)
    && WritesOption(r[7], e.domain) && WritesPriority(r[8], e.priority) && WritesOption(r[9], e.notes)
    && WritesBool(r[10], e.enabled)
  }

  lemma PriorityIff(s: string, p: Priority)
    ensures ParsePriority(s) == Some(p) <==> WritesPriority(s, p)
  {
    hide AllDigits, Decimal, Writes;
    var v: int := p;
    var digits := if s != "" && (s[0] == '-' || s[0] == '+') then s[1..] else s;
    if v >= 0 {
      DecimalIff(s, v);
      DecimalIff(digits, v);
    }
    if v <= 0 {
      DecimalIff(digits, -v);
    }
    SignIsNoDigit(s);
  }

  lemma SignIsNoDigit(s: string)
    ensures s != "" && (s[0] == '-' || s[0] == '+') ==> !AllDigits(s)
  {
  }

  lemma EntryIff(r: seq<string>, row: nat, e: Entry)
    requires |r| == |HEADER|
    ensures ParseEntry(r, row) == Ok(e) <==> WritesEntry(r, e) && EntryError(e) == None
  {
    hide TextError, ParsePriority, WritesPriority;
    PriorityIff(r[8], e.priority);
    if ParsePriority(r[8]).Some? {
      PriorityIff(r[8], ParsePriority(r[8]).value);
    }
  }

  lemma {:induction false} EntriesIff(records: seq<seq<string>>, row: nat, entries: seq<Entry>)
    ensures ParseEntries(records, row) == Ok(entries) <==>
              AllWritten(records, entries)
    decreases |records|
  {
    hide ParseEntry, WritesEntry, EntryError, AllWritten;
    AllWrittenSplits(records, entries);
    if records != [] {
      LengthIs(records[0]);
      if entries != [] && |records[0]| == |HEADER| {
        EntryIff(records[0], row, entries[0]);
        EntriesIff(records[1..], row + 1, entries[1..]);
        EntriesStep(records, row, entries);
      }
    }
  }

  /** Line by line, and every entry is sound by itself. */
  predicate AllWritten(records: seq<seq<string>>, entries: seq<Entry>) {
    |entries| == |records| && forall k | 0 <= k < |entries| :: WritesEntry(records[k], entries[k]) && EntryError(entries[k]) == None
  }

  lemma AllWrittenSplits(records: seq<seq<string>>, entries: seq<Entry>)
    ensures AllWritten(records, entries) <==>
              if records == [] || entries == [] then records == [] && entries == []
              else WritesEntry(records[0], entries[0]) && EntryError(entries[0]) == None && AllWritten(records[1..], entries[1..])
  {
    hide WritesEntry, EntryError;
    if records != [] && entries != [] {
      var lines, rest := records[1..], entries[1..];
      if AllWritten(records, entries) {
        assert forall k | 0 <= k < |rest| :: rest[k] == entries[k + 1] && lines[k] == records[k + 1];
      }
      if AllWritten(lines, rest) {
        assert forall k | 1 <= k < |entries| :: entries[k] == rest[k - 1] && records[k] == lines[k - 1];
      }
    }
  }

  lemma LengthIs(r: seq<string>)
    ensures forall e :: WritesEntry(r, e) ==> |r| == |HEADER|
  {
  }

  lemma EntriesStep(records: seq<seq<string>>, row: nat, entries: seq<Entry>)
    requires records != [] && entries != [] && |records[0]| == |HEADER|
    ensures ParseEntries(records, row) == Ok(entries) <==>
              ParseEntry(records[0], row) == Ok(entries[0]) && ParseEntries(records[1..], row + 1) == Ok(entries[1..])
  {
    hide ParseEntry;
    assert entries == [entries[0]] + entries[1..];
    var rest := ParseEntries(records[1..], row + 1);
    if ParseEntry(records[0], row).Ok? && rest.Ok? {
      assert ([ParseEntry(records[0], row).value] + rest.value)[1..] == rest.value;
    }
  }

  /** The first line names the eleven columns, and each other line writes its entry. */
  predicate WritesAll(records: seq<seq<string>>, entries: seq<Entry>) {
    && |records| == |entries| + 1
    && records[0] == ["source_term", "target_term", "source_locale", "target_locale", "case_sensitive", "whole_word",
                      "immutable", "domain", "priority", "notes", "enabled"]
    && forall k | 0 <= k < |entries| :: WritesEntry(records[k + 1], entries[k])
  }

  /**
   * A file of at most 4 MiB is imported as these entries exactly when they make a valid glossary and
   * the file's lines are the header and the entries, one line each, in their order.
   */
  lemma ImportedIffWritten(source: string, entries: seq<Entry>)
    ensures FromCsv(source) == Ok(entries) <==>
              && Bytes(source) <= 4_194_304 && IsValid(entries)
              && ParseRecords(source).Ok? && WritesAll(ParseRecords(source).value, entries)
  {
    hide ParseRecords, ParseEntries, GlossaryErrorOf, Bytes, IsValid, WritesEntry, EntryError;
    AcceptedIffValid(entries);
    if ParseRecords(source).Ok? && ParseRecords(source).value != [] {
      var records := ParseRecords(source).value;
      EntriesIff(records[1..], 2, entries);
      ValidHasNoErrors(entries);
      assert forall k | 0 <= k < |records| - 1 :: records[1..][k] == records[k + 1];
    }
  }

  lemma ValidHasNoErrors(entries: seq<Entry>)
    ensures IsValid(entries) ==> |entries| <= MAX_ENTRIES && forall k | 0 <= k < |entries| :: EntryError(entries[k]) == None
  {
    hide EntryError, IsSoundEntry;
    forall k | 0 <= k < |entries|
      ensures EntryError(entries[k]) == None <==> IsSoundEntry(entries[k])
    {
      EntryErrorIs(entries[k]);
    }
  }

  // Refused files

  /** The texts of a line, and none of its flags. */
  predicate WritesTexts(r: seq<string>, e: Entry) {
    && |r| == 11 && r[0] == e.sourceTerm && r[1] == e.targetTerm
    && WritesOption(r[2], e.sourceLocale) && WritesOption(r[3], e.targetLocale)
    && WritesOption(r[7], e.domain) && WritesOption(r[9], e.notes)
  }

  /** What the error says about the line with this number is so; the header has number one. */
  ghost predicate IsTrueOfLine(r: seq<string>, error: CsvError) {
    match error
    case InvalidRow(_) => |r| != 11
    case InvalidValue(_) =>
      |r| == 11 && (r[4] !in {"true", "false"} || r[5] !in {"true", "false"} || r[6] !in {"true", "false"}
                    || r[10] !in {"true", "false"} || forall p :: !WritesPriority(r[8], p))
    case InvalidEntry(_, wrong) => exists e :: WritesTexts(r, e) && IsTrueOf([e], wrong)
    case _ => false
  }

  ghost predicate RefusedAt(records: seq<seq<string>>, row: nat, error: CsvError) {
    && 2 <= row && row - 1 < |records| && IsTrueOfLine(records[row - 1], error)
  }

  /** What each error says about the file is so. */
  ghost predicate IsTrueOfFile(source: string, error: CsvError) {
    match error
    case TooLarge => Bytes(source) > 4_194_304
    case Malformed => ParseRecords(source).Err?
    case MissingHeader => ParseRecords(source) == Ok([])
    case InvalidHeader => ParseRecords(source).Ok? && ParseRecords(source).value != [] && ParseRecords(source).value[0] != HEADER
    case TooManyRows => ParseRecords(source).Ok? && |ParseRecords(source).value| > 257
    case InvalidRow(row) => ParseRecords(source).Ok? && RefusedAt(ParseRecords(source).value, row, error)
    case InvalidValue(row) => ParseRecords(source).Ok? && RefusedAt(ParseRecords(source).value, row, error)
    case InvalidEntry(row, _) => ParseRecords(source).Ok? && RefusedAt(ParseRecords(source).value, row, error)
    case Rejected(wrong) =>
      ParseRecords(source).Ok? && exists entries :: WritesAll(ParseRecords(source).value, entries) && IsTrueOf(entries, wrong)
  }

  predicate IsOfLine(error: CsvError, row: nat) {
    (error.InvalidRow? && error.row == row) || (error.InvalidValue? && error.row == row) || (error.InvalidEntry? && error.row == row)
  }

  lemma EntryRefusalIsTrue(r: seq<string>, row: nat)
    requires |r| == |HEADER| && ParseEntry(r, row).Err?
    ensures IsOfLine(ParseEntry(r, row).error, row) && IsTrueOfLine(r, ParseEntry(r, row).error)
  {
    hide TextError, ParsePriority, WritesPriority, EntryError, IsTrueOf;
    var texts := Entry(r[0], r[1], Present(r[2]), Present(r[3]), false, false, false, Present(r[7]), 0, Present(r[9]), false);
    assert WritesTexts(r, texts);
    forall p
      ensures ParsePriority(r[8]).None? ==> !WritesPriority(r[8], p)
    {
      PriorityIff(r[8], p);
    }
    TermErrors(texts);
    match (ParseBool(r[4]), ParseBool(r[5]), ParseBool(r[6]), ParsePriority(r[8]), ParseBool(r[10]))
    case (Some(caseSensitive), Some(wholeWord), Some(immutable), Some(priority), Some(enabled)) =>
      var entry := Entry(r[0], r[1], Present(r[2]), Present(r[3]), caseSensitive, wholeWord, immutable,
                         Present(r[7]), priority, Present(r[9]), enabled);
      assert WritesTexts(r, entry);
      EntryErrorIs(entry);
    case _ =>
  }

  lemma TermErrors(e: Entry)
    ensures var wrong := OrElse(TextError(e.sourceTerm, MAX_TERM_BYTES, "source term"), TextError(e.targetTerm, MAX_TERM_BYTES, "target term"));
            wrong.Some? ==> IsTrueOf([e], wrong.value)
  {
    hide TextError, IsShort, LooksLikeCredential;
    AcceptedIs(e.sourceTerm, 512, "source term");
    AcceptedIs(e.targetTerm, 512, "target term");
    assert [e][0] == e;
  }

  lemma {:induction false} LinesRefusalIsTrue(records: seq<seq<string>>, row: nat)
    requires ParseEntries(records, row).Err?
    ensures var error := ParseEntries(records, row).error;
            exists k | 0 <= k < |records| :: IsOfLine(error, row + k) && IsTrueOfLine(records[k], error)
    decreases |records|
  {
    hide ParseEntry, IsTrueOfLine;
    var error := ParseEntries(records, row).error;
    if |records[0]| != |HEADER| {
      assert IsTrueOfLine(records[0], error) by {
        LengthRefusalIsTrue(records[0], row);
      }
      assert IsOfLine(error, row + 0);
    } else if ParseEntry(records[0], row).Err? {
      EntryRefusalIsTrue(records[0], row);
      assert IsOfLine(error, row + 0);
    } else {
      var rest := records[1..];
      LinesRefusalIsTrue(rest, row + 1);
      var k :| 0 <= k < |rest| && IsOfLine(error, row + 1 + k) && IsTrueOfLine(rest[k], error);
      assert IsOfLine(error, row + (k + 1)) && IsTrueOfLine(records[k + 1], error);
    }
  }

  lemma LengthRefusalIsTrue(r: seq<string>, row: nat)
    requires |r| != |HEADER|
    ensures IsTrueOfLine(r, InvalidRow(row))
  {
  }

  /** A refused file is refused for what the error says: a limit, its quoting, its header, one of its lines, or its rules. */
  lemma RefusalIsTrue(source: string)
    requires FromCsv(source).Err?
    ensures IsTrueOfFile(source, FromCsv(source).error)
  {
    hide ParseRecords, ParseEntries, GlossaryErrorOf, Bytes, WritesAll, IsTrueOf, IsTrueOfLine;
    if Bytes(source) <= MAX_CSV_BYTES && ParseRecords(source).Ok? {
      var records := ParseRecords(source).value;
      if records != [] && records[0] == HEADER && |records| - 1 <= MAX_ENTRIES {
        var lines := records[1..];
        if ParseEntries(lines, 2).Err? {
          LinesRefusalIsTrue(lines, 2);
          var error := ParseEntries(lines, 2).error;
          var k :| 0 <= k < |lines| && IsOfLine(error, 2 + k) && IsTrueOfLine(lines[k], error);
          assert records[2 + k - 1] == lines[k];
        } else {
          var entries := ParseEntries(lines, 2).value;
          AcceptedIffValid(entries);
          WritesParsed(records, entries);
        }
      }
    } else {
      RecordsAreMalformed(source);
    }
  }

  lemma WritesParsed(records: seq<seq<string>>, entries: seq<Entry>)
    requires records != [] && records[0] == HEADER && ParseEntries(records[1..], 2) == Ok(entries)
    ensures WritesAll(records, entries)
  {
    hide ParseEntries, WritesEntry, EntryError;
    EntriesIff(records[1..], 2, entries);
    assert forall k | 0 <= k < |entries| :: records[1..][k] == records[k + 1];
  }

  lemma {:induction false} RecordsMalformed(s: string, st: State)
    ensures Records(s, st).Err? ==> Records(s, st).error == Malformed
    decreases |s|
  {
    if s != "" {
      RecordsMalformed(s[1..], st.(field := st.field + [s[0]]));
      RecordsMalformed(s[1..], st.(field := st.field + [s[0]], atStart := false));
      RecordsMalformed(s[1..], st.(quoted := false, closed := true));
      RecordsMalformed(s[1..], st.(quoted := true));
      RecordsMalformed(s[1..], Fresh(st.record + [st.field]));
      RecordsMalformed(s[1..], Fresh([]));
      if |s| > 1 {
        RecordsMalformed(s[2..], st.(field := st.field + "\""));
        RecordsMalformed(s[2..], Fresh([]));
      }
    }
  }

  lemma RecordsAreMalformed(source: string)
    ensures ParseRecords(source).Err? ==> ParseRecords(source).error == Malformed
  {
    RecordsMalformed(source, Fresh([]));
    if source != "" {
      RecordsMalformed(source[1..], Fresh([]));
    }
  }
}
